/**
 * `extract_entries` of the Kotobank crawler (scripts/scrape_kotobank_jitsu.py):
 * the anchors of one index page, already taken out of the HTML as their text
 * content and `href` attribute, become `(id, keyword, href, type)` entries.
 */
module IndexPage {

  import opened Results
  import opened Strings

  /** The marker Kotobank appends to the keyword of a kanji entry (ASCII parentheses). */
  const KanjiMarker: string := "(漢字)"

  const KanjiType: string := "kanji"
  const WordType: string := "word"

  /** An index link: its `text_content()` and its `href` attribute, if any. */
  datatype Anchor = Anchor(text: string, href: Option<string>)

  /** An `(id, keyword, href, type)` tuple of `extract_entries`. */
  datatype IndexEntry = IndexEntry(id: nat, keyword: string, href: string, kind: string)

  /** `KANJI_SUFFIX_RE.sub("", s)` for `\s*\(漢字\)\s*$`: the pattern only
      matches a marker that ends the string up to trailing whitespace, and its
      leftmost match begins at the whitespace run before that marker. */
  function StripKanjiSuffix(s: string): (r: string)
    ensures StartsWith(s, r)
    ensures r == s <==> !EndsWith(TrimRight(s), KanjiMarker)
    ensures r != s ==> |r| + |KanjiMarker| <= |TrimRight(s)|
    ensures r != s ==>
      var t := TrimRight(s);
      OccursAt(s, KanjiMarker, |t| - |KanjiMarker|) && AllSpace(s[|t|..]) &&
      AllSpace(s[|r|..|t| - |KanjiMarker|]) && (r == [] || !IsSpace(r[|r| - 1]))
  {
    var t := TrimRight(s);
    if EndsWith(t, KanjiMarker) then
      var head := t[..|t| - |KanjiMarker|];
      assert s[..|t|] == t;
      assert s[..|head|] == head;
      assert s[|t| - |KanjiMarker|..|t|] == t[|t| - |KanjiMarker|..];
      var r := TrimRight(head);
      assert s[|r|..|head|] == head[|r|..];
      assert s[..|r|] == head[..|r|];
      r
    else s
  }

  /** The end of the run of ASCII digits that starts at `from`. */
  function DigitRunEnd(s: string, from: nat): (k: nat)
    requires from <= |s|
    ensures from <= k <= |s| && AllDigits(s[from..k])
    ensures k == |s| || !IsDigit(s[k])
    decreases |s| - from
  {
    if from < |s| && IsDigit(s[from]) then
      var k := DigitRunEnd(s, from + 1);
      assert s[from..k] == [s[from]] + s[from + 1..k];
      k
    else from
  }

  /** `ID_RE = -([0-9]+)(?:#|$)` matches at `i`: a dash, then digits (taken
      greedily; a shorter run would be followed by a digit), then `#`, the
      end, or the newline that ends the string (where `$` also matches). */
  predicate IdMatchAt(s: string, i: nat) {
    i < |s| && s[i] == '-' &&
    var k := DigitRunEnd(s, i + 1);
    k > i + 1 && (k == |s| || s[k] == '#' || (s[k] == '\n' && k == |s| - 1))
  }

  /** The leftmost position at or after `from` where `ID_RE` matches. */
  function IdStart(s: string, from: nat): (r: Option<nat>)
    requires from <= |s|
    ensures r.Some? ==> from <= r.value < |s| && IdMatchAt(s, r.value)
    ensures r.Some? ==> forall j :: from <= j < r.value ==> !IdMatchAt(s, j)
    ensures r.None? ==> forall j :: from <= j < |s| ==> !IdMatchAt(s, j)
    decreases |s| - from
  {
    if from == |s| then None
    else if IdMatchAt(s, from) then Some(from)
    else IdStart(s, from + 1)
  }

  /** `int(ID_RE.search(href).group(1))`, or `None` when the pattern does not match. */
  function EntryId(href: string): Option<nat> {
    match IdStart(href, 0)
    case None => None
    case Some(i) => Some(DigitsValue(href[i + 1..DigitRunEnd(href, i + 1)]))
  }

  /** One pass of the loop body of `extract_entries`: the entry an anchor
      gives, or `None` when one of its `continue`s is taken. */
  function ExtractOne(a: Anchor, kanjiOnly: bool): (r: Option<IndexEntry>)
    ensures r.Some? ==> a.href == Some(r.value.href) && r.value.href != []
    ensures r.Some? ==> r.value.keyword != [] && Trimmed(r.value.keyword)
    ensures r.Some? ==> EntryId(r.value.href) == Some(r.value.id)
    ensures r.Some? ==> (r.value.kind == KanjiType <==> Contains(Strip(a.text), KanjiMarker))
    ensures r.Some? ==> r.value.kind == KanjiType || r.value.kind == WordType
    ensures r.Some? && kanjiOnly ==> r.value.kind == KanjiType
    ensures Strip(a.text) == [] ==> r.None?
  {
    var raw := Strip(a.text);
    if raw == [] then None
    else
      var isKanji := Contains(raw, KanjiMarker);
      if kanjiOnly && !isKanji then None
      else
        var keyword := Strip(StripKanjiSuffix(raw));
        if keyword == [] then None
        else if a.href.None? || a.href.value == [] then None
        else
          match EntryId(a.href.value)
          case None => None
          case Some(id) => Some(IndexEntry(id, keyword, a.href.value, if isKanji then KanjiType else WordType))
  }

  /** What `extract_entries` returns: the entries of the anchors, in anchor order. */
  function ExtractAll(anchors: seq<Anchor>, kanjiOnly: bool): seq<IndexEntry> {
    FilterMap(anchors, a => ExtractOne(a, kanjiOnly))
  }

  /** `extract_entries`: appends the entry of each anchor that passes all checks. */
  method ExtractEntries(anchors: seq<Anchor>, kanjiOnly: bool) returns (entries: seq<IndexEntry>)
    ensures entries == ExtractAll(anchors, kanjiOnly)
  {
    entries := [];
    for i := 0 to |anchors|
      invariant entries == ExtractAll(anchors[..i], kanjiOnly)
    {
      assert anchors[..i + 1][..i] == anchors[..i];
      var raw := Strip(anchors[i].text);
      if raw == [] {
        continue;
      }
      var isKanji := Contains(raw, KanjiMarker);
      if kanjiOnly && !isKanji {
        continue;
      }
      var keyword := Strip(StripKanjiSuffix(raw));
      if keyword == [] {
        continue;
      }
      var href := anchors[i].href;
      if href.None? || href.value == [] {
        continue;
      }
      var id := EntryId(href.value);
      if id.None? {
        continue;
      }
      entries := entries + [IndexEntry(id.value, keyword, href.value, if isKanji then KanjiType else WordType)];
    }
    assert anchors[..|anchors|] == anchors;
  }

  /** Extraction works anchor by anchor: the entries of two runs of anchors
      are the entries of the first followed by those of the second. */
  lemma ExtractAllAppend(a: seq<Anchor>, b: seq<Anchor>, kanjiOnly: bool)
    ensures ExtractAll(a + b, kanjiOnly) == ExtractAll(a, kanjiOnly) + ExtractAll(b, kanjiOnly)
  {
    FilterMapAppend(a, b, x => ExtractOne(x, kanjiOnly));
  }

  /** Every entry comes from one of the anchors, and no anchor that gives an
      entry is dropped; so there are never more entries than anchors. */
  lemma ExtractAllFromAnchors(anchors: seq<Anchor>, kanjiOnly: bool, k: nat, j: nat)
    ensures |ExtractAll(anchors, kanjiOnly)| <= |anchors|
    ensures k < |ExtractAll(anchors, kanjiOnly)| ==>
      exists i :: 0 <= i < |anchors| && ExtractOne(anchors[i], kanjiOnly) == Some(ExtractAll(anchors, kanjiOnly)[k])
    ensures j < |anchors| && ExtractOne(anchors[j], kanjiOnly).Some? ==>
      ExtractOne(anchors[j], kanjiOnly).value in ExtractAll(anchors, kanjiOnly)
  {
    var f := x => ExtractOne(x, kanjiOnly);
    if k < |ExtractAll(anchors, kanjiOnly)| {
      FilterMapFrom(anchors, f, k);
    }
    if j < |anchors| && ExtractOne(anchors[j], kanjiOnly).Some? {
      FilterMapKeeps(anchors, f, j);
    }
  }

  /** With `kanji_only`, every extracted entry is of type `kanji`. */
  lemma {:induction false} ExtractAllKanjiOnly(anchors: seq<Anchor>, k: nat)
    requires k < |ExtractAll(anchors, true)|
    ensures ExtractAll(anchors, true)[k].kind == KanjiType
  {
    ExtractAllFromAnchors(anchors, true, k, 0);
  }

  /** `page_skipped = max(len(anchors) - page_upserted, 0)` in `crawl_index_pages`
      is never clipped: it is the number of anchors that gave no entry. */
  lemma PageSkippedIsDropped(anchors: seq<Anchor>, kanjiOnly: bool)
    ensures var upserted := |ExtractAll(anchors, kanjiOnly)|;
      (if |anchors| - upserted > 0 then |anchors| - upserted else 0) == |anchors| - upserted
  {
    ExtractAllFromAnchors(anchors, kanjiOnly, 0, 0);
  }

  /** The trailing `(漢字)` marker is found in `s` when it ends it. */
  lemma ContainsSuffix(s: string, head: string)
    requires s == head + KanjiMarker
    ensures Contains(s, KanjiMarker) && EndsWith(s, KanjiMarker)
  {
    assert OccursAt(s, KanjiMarker, |head|) by { assert s[|head|..|head| + |KanjiMarker|] == KanjiMarker; }
  }

  /** Trailing whitespace after a string that does not end in whitespace is all `rstrip` removes. */
  lemma TrimRightOfSpaced(k: string, ws: string)
    requires k == [] || !IsSpace(k[|k| - 1])
    requires AllSpace(ws)
    ensures TrimRight(k + ws) == k
  {
    var s := k + ws;
    var n := TrailingSpace(s);
    assert forall i :: n <= i < |s| ==> IsSpace(s[i]) by {
      forall i | n <= i < |s| ensures IsSpace(s[i]) { assert s[i] == s[n..][i - n]; }
    }
    assert forall i :: |k| <= i < |s| ==> IsSpace(s[i]) by {
      forall i | |k| <= i < |s| ensures IsSpace(s[i]) { assert s[i] == ws[i - |k|]; }
    }
    assert k != [] ==> s[|k| - 1] == k[|k| - 1];
    assert n == |k|;
    assert s[..|k|] == k;
  }

  /** A kanji link `keyword + whitespace + "(漢字)"` to `prefix-<n>` (or
      `prefix-<n>#…`) gives back the keyword and the id `n`, typed `kanji`. */
  lemma ExtractKanjiAnchor(keyword: string, ws: string, prefix: string, n: nat, tail: string, kanjiOnly: bool)
    requires keyword != [] && Trimmed(keyword) && AllSpace(ws)
    requires '-' !in prefix && (tail == [] || tail[0] == '#')
    ensures ExtractOne(Anchor(keyword + ws + KanjiMarker, Some(prefix + "-" + NatToString(n) + tail)), kanjiOnly)
            == Some(IndexEntry(n, keyword, prefix + "-" + NatToString(n) + tail, KanjiType))
  {
    KanjiKeyword(keyword, ws, keyword + ws + KanjiMarker);
    EntryIdOfDash(prefix, n, tail);
  }

  /** The keyword and the type of the text `keyword + whitespace + "(漢字)"`. */
  lemma KanjiKeyword(keyword: string, ws: string, text: string)
    requires keyword != [] && Trimmed(keyword) && AllSpace(ws)
    requires text == keyword + ws + KanjiMarker
    ensures Strip(text) == text && Contains(text, KanjiMarker)
    ensures Strip(StripKanjiSuffix(text)) == keyword
  {
    assert Trimmed(text);
    StripTrimmed(text);
    ContainsSuffix(text, keyword + ws);
    assert TrimRight(text) == text by {
      TrimRightOfSpaced(text, []);
      assert text + [] == text;
    }
    assert text[..|text| - |KanjiMarker|] == keyword + ws;
    TrimRightOfSpaced(keyword, ws);
    StripTrimmed(keyword);
  }

  /** A word link whose text holds no `(漢字)` keeps its text as the keyword and is typed `word`. */
  lemma ExtractWordAnchor(keyword: string, prefix: string, n: nat, tail: string)
    requires keyword != [] && Trimmed(keyword) && !Contains(keyword, KanjiMarker)
    requires '-' !in prefix && (tail == [] || tail[0] == '#')
    ensures ExtractOne(Anchor(keyword, Some(prefix + "-" + NatToString(n) + tail)), false)
            == Some(IndexEntry(n, keyword, prefix + "-" + NatToString(n) + tail, WordType))
  {
    StripTrimmed(keyword);
    var t := TrimRight(keyword);
    assert t == keyword by {
      TrimRightOfSpaced(keyword, []);
      assert keyword + [] == keyword;
    }
    assert EndsWith(keyword, KanjiMarker) ==> OccursAt(keyword, KanjiMarker, |keyword| - |KanjiMarker|);
    assert StripKanjiSuffix(keyword) == keyword;
    EntryIdOfDash(prefix, n, tail);
  }

  /** The digits `NatToString(n)` followed by `#` or the end form one maximal run. */
  lemma DigitRunOfNat(s: string, from: nat, n: nat)
    requires from + |NatToString(n)| <= |s| && s[from..from + |NatToString(n)|] == NatToString(n)
    requires from + |NatToString(n)| == |s| || s[from + |NatToString(n)|] == '#'
    ensures DigitRunEnd(s, from) == from + |NatToString(n)|
    decreases |s| - from
  {
    var d := NatToString(n);
    var k := DigitRunEnd(s, from);
    assert forall i :: from <= i < from + |d| ==> IsDigit(s[i]) by {
      forall i | from <= i < from + |d| ensures IsDigit(s[i]) { assert s[i] == d[i - from]; }
    }
    assert forall i :: from <= i < k ==> IsDigit(s[i]) by {
      forall i | from <= i < k ensures IsDigit(s[i]) { assert s[i] == s[from..k][i - from]; }
    }
  }

  /** `ID_RE` finds the id after the first dash of `prefix-<n>` followed by `#…` or nothing. */
  lemma EntryIdOfDash(prefix: string, n: nat, tail: string)
    requires '-' !in prefix && (tail == [] || tail[0] == '#')
    ensures EntryId(prefix + "-" + NatToString(n) + tail) == Some(n)
  {
    var d := NatToString(n);
    var s := prefix + "-" + d + tail;
    var at := |prefix|;
    assert s[at + 1..at + 1 + |d|] == d;
    if tail != [] {
      assert s[at + 1 + |d|] == tail[0];
    }
    DigitRunOfNat(s, at + 1, n);
    assert IdMatchAt(s, at);
    forall j | 0 <= j < at ensures !IdMatchAt(s, j) {
      assert s[j] == prefix[j];
    }
    var i := IdStart(s, 0).value;
    assert i == at;
    DigitsOfNat(n);
  }
}
