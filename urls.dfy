/**
 * The part of Python's `urllib.parse.urlparse` that the image-source
 * normalisers use, for URLs whose scheme is `http` or `https`: tab, CR and
 * LF are deleted, the network location runs from `//` to the first `/`,
 * `?` or `#`, the fragment is cut at the first `#`, the query at the first
 * `?`, and `;params` are cut from the last path segment.
 */
module Urls {

  import opened Strings

  /** The index of the first `c` in `s` at or after `from`, or `|s|`. */
  function Find(s: string, c: char, from: nat): (k: nat)
    requires from <= |s|
    ensures from <= k <= |s|
    ensures k < |s| ==> s[k] == c
    ensures forall i :: from <= i < k ==> s[i] != c
    decreases |s| - from
  {
    if from == |s| || s[from] == c then from else Find(s, c, from + 1)
  }

  predicate EndsNetloc(c: char) {
    c == '/' || c == '?' || c == '#'
  }

  /** The index of the first `/`, `?` or `#` at or after `from`, or `|s|`. */
  function FindNetlocEnd(s: string, from: nat): (k: nat)
    requires from <= |s|
    ensures from <= k <= |s|
    ensures k < |s| ==> EndsNetloc(s[k])
    ensures forall i :: from <= i < k ==> !EndsNetloc(s[i])
    decreases |s| - from
  {
    if from == |s| || EndsNetloc(s[from]) then from else FindNetlocEnd(s, from + 1)
  }

  /** `s.rfind(c)`: the index of the last `c`, or -1. */
  function RFind(s: string, c: char): (k: int)
    ensures -1 <= k < |s|
    ensures k >= 0 ==> s[k] == c
    ensures forall i :: k < i < |s| ==> s[i] != c
  {
    if s == [] then -1
    else if s[|s| - 1] == c then |s| - 1
    else RFind(s[..|s| - 1], c)
  }

  predicate IsUnsafe(c: char) {
    c == '\t' || c == '\r' || c == '\n'
  }

  /** The URL with every tab, CR and LF deleted. */
  function RemoveUnsafe(s: string): (r: string)
    ensures |r| <= |s|
    ensures forall i :: 0 <= i < |r| ==> !IsUnsafe(r[i])
  {
    if s == [] then []
    else if IsUnsafe(s[|s| - 1]) then RemoveUnsafe(s[..|s| - 1])
    else RemoveUnsafe(s[..|s| - 1]) + [s[|s| - 1]]
  }

  lemma {:induction false} RemoveUnsafeNoop(s: string)
    requires forall i :: 0 <= i < |s| ==> !IsUnsafe(s[i])
    ensures RemoveUnsafe(s) == s
  {
    if s != [] {
      RemoveUnsafeNoop(s[..|s| - 1]);
    }
  }

  lemma {:induction false} RemoveUnsafeConcat(a: string, b: string)
    ensures RemoveUnsafe(a + b) == RemoveUnsafe(a) + RemoveUnsafe(b)
    decreases |b|
  {
    if b == [] {
      assert a + b == a;
    } else {
      var b' := b[..|b| - 1];
      assert (a + b)[..|a + b| - 1] == a + b';
      RemoveUnsafeConcat(a, b');
    }
  }

  datatype UrlParts = UrlParts(scheme: string, netloc: string, path: string, params: string, query: string, fragment: string)

  predicate IsWebUrl(s: string) {
    StartsWith(s, "http://") || StartsWith(s, "https://")
  }

  /** `s.split(c, 1)` read as a pair: the text before the first `c` and the
      text after it, or `s` and `""` when `c` does not occur. */
  function SplitOnce(s: string, c: char): (r: (string, string))
    ensures StartsWith(s, r.0)
    ensures c !in r.0
    ensures c in s ==> s == r.0 + [c] + r.1
    ensures c !in s ==> r == (s, "")
  {
    var k := Find(s, c, 0);
    if k < |s| then
      assert s == s[..k] + [c] + s[k + 1..];
      (s[..k], s[k + 1..])
    else (s, "")
  }

  lemma SplitOnceAt(a: string, b: string, c: char)
    requires c !in a
    ensures SplitOnce(a + [c] + b, c) == (a, b)
  {
    var s := a + [c] + b;
    assert s[|a|] == c;
    var r := SplitOnce(s, c);
    assert |r.0| == |a|;
    assert r.0 == s[..|a|] == a;
  }

  /** `_splitnetloc(url, 2)` applied to `//` + `s`: the network location
      runs to the first `/`, `?` or `#`. */
  function SplitNetloc(s: string): (r: (string, string))
    ensures s == r.0 + r.1
    ensures forall i :: 0 <= i < |r.0| ==> !EndsNetloc(r.0[i])
    ensures r.1 == [] || EndsNetloc(r.1[0])
  {
    var e := FindNetlocEnd(s, 0);
    assert s == s[..e] + s[e..];
    (s[..e], s[e..])
  }

  lemma SplitNetlocOf(s: string, host: string, tail: string)
    requires s == host + tail
    requires forall i :: 0 <= i < |host| ==> !EndsNetloc(host[i])
    requires tail == [] || EndsNetloc(tail[0])
    ensures SplitNetloc(s) == (host, tail)
  {
    var e := FindNetlocEnd(s, 0);
    assert forall i :: 0 <= i < |host| ==> s[i] == host[i];
    if tail != [] { assert s[|host|] == tail[0]; }
    assert e == |host|;
    assert s[..e] == host && s[e..] == tail;
  }

  /** `_splitparams`: `;params` are cut from the last path segment only. */
  function SplitParams(url: string): (r: (string, string))
    ensures StartsWith(url, r.0)
  {
    var slash := RFind(url, '/');
    var i := Find(url, ';', if slash >= 0 then slash else 0);
    if i == |url| then (url, "") else (url[..i], url[i + 1..])
  }

  /** The number of characters before the `:` of an `http`/`https` URL. */
  function SchemeLength(url: string): (n: nat)
    requires IsWebUrl(url)
    ensures n + 3 <= |url| && url[n..n + 3] == "://"
  {
    if StartsWith(url, "http://") then
      assert url[..7] == "http://";
      4
    else
      assert url[..8] == "https://";
      5
  }

  /** The text after `scheme://`, once tab, CR and LF are gone. */
  function AfterScheme(url: string): (rest: string)
    requires IsWebUrl(url)
    ensures forall i :: 0 <= i < |rest| ==> !IsUnsafe(rest[i])
  {
    RemoveUnsafe(url[SchemeLength(url) + 3..])
  }

  /** `urlsplit` deletes tab, CR and LF, then takes the scheme and the `:`
      after it; the rest begins with `//`, so it always splits off a
      network location, from what `AfterScheme` gives. */
  lemma AfterSchemeIsSplitInput(url: string)
    requires IsWebUrl(url)
    ensures RemoveUnsafe(url) == url[..SchemeLength(url) + 3] + AfterScheme(url)
  {
    var n := SchemeLength(url);
    var head := url[..n + 3];
    if StartsWith(url, "http://") {
      assert head == "http://";
    } else {
      assert head == "https://";
    }
    RemoveUnsafeNoop(head);
    RemoveUnsafeConcat(head, url[n + 3..]);
    assert head + url[n + 3..] == url;
  }

  /** `urlparse(url)` for an `http`/`https` URL. */
  function UrlParse(url: string): (r: UrlParts)
    requires IsWebUrl(url)
  {
    var n := SchemeLength(url);
    var netloc := SplitNetloc(AfterScheme(url));
    var fragment := SplitOnce(netloc.1, '#');
    var query := SplitOnce(fragment.0, '?');
    var params := SplitParams(query.0);
    UrlParts(url[..n], netloc.0, params.0, params.1, query.1, fragment.1)
  }

  /** `parsed.path`, followed by `?parsed.query` when the query is not empty. */
  function PathAndQuery(url: string): (r: string)
    requires IsWebUrl(url)
  {
    var p := UrlParse(url);
    if p.query != "" then p.path + "?" + p.query else p.path
  }

  /** A host name as `_splitnetloc` delimits it. */
  predicate IsPlainHost(s: string) {
    forall i :: 0 <= i < |s| ==> !EndsNetloc(s[i]) && !IsUnsafe(s[i])
  }

  /** An absolute path without query, fragment or `;params`. */
  predicate IsPlainPath(s: string) {
    s != [] && s[0] == '/' &&
    forall i :: 0 <= i < |s| ==> s[i] != '?' && s[i] != '#' && s[i] != ';' && !IsUnsafe(s[i])
  }

  /** A query without fragment. */
  predicate IsPlainQuery(s: string) {
    forall i :: 0 <= i < |s| ==> s[i] != '#' && !IsUnsafe(s[i])
  }

  lemma AfterSchemeOf(url: string, scheme: string, x: string)
    requires scheme == "http" || scheme == "https"
    requires url == scheme + "://" + x
    requires forall i :: 0 <= i < |x| ==> !IsUnsafe(x[i])
    ensures IsWebUrl(url)
    ensures SchemeLength(url) == |scheme|
    ensures AfterScheme(url) == x
  {
    assert url[..|scheme| + 3] == scheme + "://";
    if scheme == "https" { assert url[4] == 's'; }
    assert url[|scheme| + 3..] == x;
    RemoveUnsafeNoop(x);
  }

  /** Host and rest of a URL assembled from a scheme, a host and a rest. */
  lemma NetlocOfParts(url: string, scheme: string, host: string, tail: string)
    requires scheme == "http" || scheme == "https"
    requires url == scheme + "://" + (host + tail)
    requires IsPlainHost(host)
    requires forall i :: 0 <= i < |tail| ==> !IsUnsafe(tail[i])
    requires tail == [] || tail[0] == '/'
    ensures IsWebUrl(url)
    ensures SchemeLength(url) == |scheme|
    ensures SplitNetloc(AfterScheme(url)) == (host, tail)
  {
    var x := host + tail;
    assert forall i :: 0 <= i < |x| ==> !IsUnsafe(x[i]) by {
      forall i | 0 <= i < |x| ensures !IsUnsafe(x[i]) {
        if i >= |host| { assert x[i] == tail[i - |host|]; }
      }
    }
    AfterSchemeOf(url, scheme, x);
    SplitNetlocOf(x, host, tail);
  }

  /** Cutting the fragment and then the query off `path?query`. */
  lemma QueryOfPlainTail(tail: string, path: string, query: string, hasMark: bool)
    requires IsPlainPath(path) && IsPlainQuery(query)
    requires !hasMark ==> query == ""
    requires tail == path + (if hasMark then "?" + query else "")
    ensures SplitOnce(tail, '#') == (tail, "")
    ensures SplitOnce(tail, '?') == (path, query)
  {
    assert forall i :: 0 <= i < |tail| ==> tail[i] != '#' by {
      forall i | 0 <= i < |tail| ensures tail[i] != '#' {
        if i >= |path| + 1 { assert tail[i] == query[i - |path| - 1]; }
      }
    }
    assert '#' !in tail;
    assert '?' !in path;
    if hasMark {
      assert tail == path + ['?'] + query;
      SplitOnceAt(path, query, '?');
    } else {
      assert tail == path;
    }
  }

  lemma ParamsOfPlainPath(path: string)
    requires IsPlainPath(path)
    ensures SplitParams(path) == (path, "")
  {
    var slash := RFind(path, '/');
    assert slash >= 0;
    assert Find(path, ';', slash) == |path|;
  }

  /** `urlparse` of `scheme://host` + a rest whose query split is known. */
  lemma UrlParseOfTail(url: string, scheme: string, host: string, tail: string, path: string, query: string)
    requires scheme == "http" || scheme == "https"
    requires IsPlainHost(host) && IsPlainPath(path)
    requires forall i :: 0 <= i < |tail| ==> !IsUnsafe(tail[i])
    requires tail == [] || tail[0] == '/'
    requires SplitOnce(tail, '#') == (tail, "")
    requires SplitOnce(tail, '?') == (path, query)
    requires url == scheme + "://" + (host + tail)
    ensures IsWebUrl(url)
    ensures UrlParse(url) == UrlParts(scheme, host, path, "", query, "")
  {
    NetlocOfParts(url, scheme, host, tail);
    SchemeOfParts(url, scheme, host + tail);
    ParamsOfPlainPath(path);
  }

  /** The scheme of `scheme://x` is its first `|scheme|` characters. */
  lemma SchemeOfParts(url: string, scheme: string, x: string)
    requires url == scheme + "://" + x
    ensures url[..|scheme|] == scheme
  {
  }

  lemma ConcatAssoc(a: string, b: string, c: string, d: string, e: string)
    ensures a + b + c + d + e == a + b + (c + (d + e))
  {
  }

  /** The path and query of a URL built from a host, an absolute path and a
      query come back as the path and the query: `https://host/p?q` gives
      `/p?q`, and `https://host/p?` or `https://host/p` give `/p`. */
  lemma PathAndQueryOfParts(url: string, scheme: string, host: string, path: string, query: string, hasMark: bool)
    requires scheme == "http" || scheme == "https"
    requires IsPlainHost(host) && IsPlainPath(path) && IsPlainQuery(query)
    requires !hasMark ==> query == ""
    requires url == scheme + "://" + host + path + (if hasMark then "?" + query else "")
    ensures IsWebUrl(url)
    ensures UrlParse(url) == UrlParts(scheme, host, path, "", query, "")
    ensures PathAndQuery(url) == if query != "" then path + "?" + query else path
  {
    var suffix := if hasMark then "?" + query else "";
    var tail := path + suffix;
    assert forall i :: 0 <= i < |tail| ==> !IsUnsafe(tail[i]) by {
      forall i | 0 <= i < |tail| ensures !IsUnsafe(tail[i]) {
        if i >= |path| + 1 { assert tail[i] == query[i - |path| - 1]; }
      }
    }
    ConcatAssoc(scheme, "://", host, path, suffix);
    QueryOfPlainTail(tail, path, query, hasMark);
    UrlParseOfTail(url, scheme, host, tail, path, query);
  }

  /** What follows the network location is free of tab, CR and LF, and is
      empty or starts with `/`, `?` or `#`. */
  lemma TailAfterNetloc(url: string)
    requires IsWebUrl(url)
    ensures var tail := SplitNetloc(AfterScheme(url)).1;
      (tail == [] || EndsNetloc(tail[0])) && forall i :: 0 <= i < |tail| ==> !IsUnsafe(tail[i])
  {
    var rest := AfterScheme(url);
    var netloc := SplitNetloc(rest);
    assert forall i :: 0 <= i < |netloc.1| ==> netloc.1[i] == rest[|netloc.0| + i];
  }

  /** The shape facts of `PathAndQueryShape`, for any text after the network location. */
  lemma ShapeAfterNetloc(tail: string)
    requires tail == [] || EndsNetloc(tail[0])
    requires forall i :: 0 <= i < |tail| ==> !IsUnsafe(tail[i])
    ensures var fragment := SplitOnce(tail, '#');
      var query := SplitOnce(fragment.0, '?');
      var path := SplitParams(query.0).0;
      (path == [] || path[0] == '/') &&
      (forall i :: 0 <= i < |path| ==> path[i] != '?' && path[i] != '#' && !IsUnsafe(path[i])) &&
      IsPlainQuery(query.1)
  {
    var fragment := SplitOnce(tail, '#');
    var query := SplitOnce(fragment.0, '?');
    var path := SplitParams(query.0).0;
    SplitOnceParts(tail, '#');
    SplitOnceParts(fragment.0, '?');
    assert forall i :: 0 <= i < |path| ==> path[i] == query.0[i];
  }

  /** The two halves of `SplitOnce` are made of the characters of `s`: the
      first from the start, the second from just after the separator. */
  lemma SplitOnceParts(s: string, c: char)
    ensures var r := SplitOnce(s, c);
      (forall i :: 0 <= i < |r.0| ==> r.0[i] == s[i] && r.0[i] != c) &&
      (forall i :: 0 <= i < |r.1| ==> |r.0| + 1 + i < |s| && r.1[i] == s[|r.0| + 1 + i])
  {
    var r := SplitOnce(s, c);
    if c in s {
      assert forall i :: 0 <= i < |r.1| ==> r.1[i] == (r.0 + [c] + r.1)[|r.0| + 1 + i];
    }
  }

  /** `parsed.path` is empty or starts with `/`, and neither the path nor the
      query holds a `#`, a tab, a CR or an LF; the path holds no `?` either. */
  lemma PathAndQueryShape(url: string)
    requires IsWebUrl(url)
    ensures var p := UrlParse(url);
      (p.path == [] || p.path[0] == '/') &&
      (forall i :: 0 <= i < |p.path| ==> p.path[i] != '?' && p.path[i] != '#' && !IsUnsafe(p.path[i])) &&
      IsPlainQuery(p.query)
  {
    TailAfterNetloc(url);
    ShapeAfterNetloc(SplitNetloc(AfterScheme(url)).1);
  }

  /** A path and a query of the shape `PathAndQueryShape` gives join into a
      text that is empty or starts with `/` or `?`, without `#`. */
  lemma JoinedPathAndQuery(path: string, query: string)
    requires path == [] || path[0] == '/'
    requires forall i :: 0 <= i < |path| ==> path[i] != '#'
    requires IsPlainQuery(query)
    ensures var r := if query != "" then path + "?" + query else path;
      (r == [] || r[0] == '/' || r[0] == '?') && forall i :: 0 <= i < |r| ==> r[i] != '#'
  {
    if query != "" {
      var r := path + "?" + query;
      assert forall i :: |path| + 1 <= i < |r| ==> r[i] == query[i - |path| - 1];
      assert forall i :: 0 <= i < |path| ==> r[i] == path[i];
    }
  }

  /** `path?query` of a URL is empty or starts with `/` or `?` (a URL with
      no path but a query), and holds no `#`. */
  lemma PathAndQuerySiteRelative(url: string)
    requires IsWebUrl(url)
    ensures var r := PathAndQuery(url);
      (r == [] || r[0] == '/' || r[0] == '?') && forall i :: 0 <= i < |r| ==> r[i] != '#'
  {
    PathAndQueryShape(url);
    var p := UrlParse(url);
    JoinedPathAndQuery(p.path, p.query);
    assert PathAndQuery(url) == if p.query != "" then p.path + "?" + p.query else p.path;
  }
}
