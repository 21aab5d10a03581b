/**
 * What the Kotobank crawler reads off one entry page
 * (scripts/scrape_kotobank_jitsu.py): `normalize_text`, `parse_description`
 * over the children of the description section, `normalize_image_src`, and
 * the four detail strings of `fetch_entry_details`.
 */
module EntryDetails {

  import opened Results
  import opened Strings
  import Urls

  // ---------------------------------------------------------------------
  // normalize_text: re.sub(r"\s+", " ", value).strip()

  /** Every whitespace character is a plain space. */
  predicate SpacesSingle(s: string) {
    forall i :: 0 <= i < |s| ==> IsSpace(s[i]) ==> s[i] == ' '
  }

  /** No two whitespace characters are adjacent. */
  predicate NoDoubleSpace(s: string) {
    forall i :: 0 <= i < |s| - 1 ==> !(IsSpace(s[i]) && IsSpace(s[i + 1]))
  }

  /** The shape of a `normalize_text` result. */
  predicate Normalized(s: string) {
    Trimmed(s) && SpacesSingle(s) && NoDoubleSpace(s)
  }

  /** The non-whitespace characters of `s`, in order. */
  function NonSpace(s: string): string
    decreases |s|
  {
    if s == [] then [] else (if IsSpace(s[0]) then [] else [s[0]]) + NonSpace(s[1..])
  }

  /** `re.sub(r"\s+", " ", s)`: each maximal whitespace run becomes one space. */
  function Collapse(s: string): (r: string)
    ensures SpacesSingle(r) && NoDoubleSpace(r)
    ensures r == [] <==> s == []
    ensures s != [] ==> (IsSpace(r[0]) <==> IsSpace(s[0]))
    decreases |s|
  {
    if s == [] then []
    else if IsSpace(s[0]) then
      var rest := Collapse(s[LeadingSpace(s)..]);
      assert forall i :: 1 <= i < |rest| + 1 ==> (" " + rest)[i] == rest[i - 1];
      " " + rest
    else
      var rest := Collapse(s[1..]);
      assert forall i :: 1 <= i < |rest| + 1 ==> ([s[0]] + rest)[i] == rest[i - 1];
      [s[0]] + rest
  }

  /** A slice keeps the single-space shape. */
  lemma SliceKeepsSpaces(x: string, a: nat, b: nat)
    requires SpacesSingle(x) && NoDoubleSpace(x) && a <= b <= |x|
    ensures SpacesSingle(x[a..b]) && NoDoubleSpace(x[a..b])
  {
    assert forall i :: 0 <= i < b - a ==> x[a..b][i] == x[a + i];
  }

  /** Stripping keeps the single-space shape. */
  lemma StripKeepsSpaces(x: string)
    requires SpacesSingle(x) && NoDoubleSpace(x)
    ensures Normalized(Strip(x))
  {
    var a, b := StripBounds(x);
    SliceKeepsSpaces(x, a, b);
  }

  /** `normalize_text(value)`. */
  function NormalizeText(value: string): (r: string)
    ensures Normalized(r)
  {
    var x := Collapse(value);
    StripKeepsSpaces(x);
    Strip(x)
  }

  lemma {:induction false} NonSpaceAppend(a: string, b: string)
    ensures NonSpace(a + b) == NonSpace(a) + NonSpace(b)
    decreases |a|
  {
    if a == [] {
      assert a + b == b;
    } else {
      assert (a + b)[0] == a[0];
      assert (a + b)[1..] == a[1..] + b;
      NonSpaceAppend(a[1..], b);
    }
  }

  lemma {:induction false} NonSpaceOfSpace(s: string)
    requires AllSpace(s)
    ensures NonSpace(s) == []
    decreases |s|
  {
    if s != [] {
      assert IsSpace(s[0]);
      assert AllSpace(s[1..]) by { assert forall i :: 0 <= i < |s| - 1 ==> s[1..][i] == s[i + 1]; }
      NonSpaceOfSpace(s[1..]);
    }
  }

  lemma {:induction false} CollapseKeepsText(s: string)
    ensures NonSpace(Collapse(s)) == NonSpace(s)
    decreases |s|
  {
    if s == [] {
    } else if IsSpace(s[0]) {
      var k := LeadingSpace(s);
      CollapseKeepsText(s[k..]);
      NonSpaceAppend(" ", Collapse(s[k..]));
      assert NonSpace(" ") == [] by { NonSpaceOfSpace(" "); }
      assert s == s[..k] + s[k..];
      NonSpaceAppend(s[..k], s[k..]);
      NonSpaceOfSpace(s[..k]);
    } else {
      CollapseKeepsText(s[1..]);
      NonSpaceAppend([s[0]], Collapse(s[1..]));
      assert ([s[0]] + Collapse(s[1..]))[0] == s[0];
    }
  }

  /** Cutting a slice in two splits its non-whitespace characters the same way. */
  lemma NonSpaceSlices(s: string, a: nat, b: nat, c: nat)
    requires a <= b <= c <= |s|
    ensures NonSpace(s[a..c]) == NonSpace(s[a..b]) + NonSpace(s[b..c])
  {
    assert s[a..c] == s[a..b] + s[b..c];
    NonSpaceAppend(s[a..b], s[b..c]);
  }

  /** A whitespace-only slice has no non-whitespace characters. */
  lemma NonSpaceOfSpaceSlice(s: string, a: nat, b: nat)
    requires a <= b <= |s|
    requires forall i :: a <= i < b ==> IsSpace(s[i])
    ensures NonSpace(s[a..b]) == []
  {
    assert AllSpace(s[a..b]) by { assert forall i :: 0 <= i < b - a ==> s[a..b][i] == s[a + i]; }
    NonSpaceOfSpace(s[a..b]);
  }

  /** Dropping whitespace from both ends keeps the non-whitespace characters. */
  lemma NonSpaceOfInnerSlice(s: string, a: nat, b: nat)
    requires a <= b <= |s|
    requires forall i :: 0 <= i < a ==> IsSpace(s[i])
    requires forall i :: b <= i < |s| ==> IsSpace(s[i])
    ensures NonSpace(s[a..b]) == NonSpace(s)
  {
    NonSpaceSlices(s, 0, a, |s|);
    NonSpaceSlices(s, a, b, |s|);
    NonSpaceOfSpaceSlice(s, 0, a);
    NonSpaceOfSpaceSlice(s, b, |s|);
    assert s[0..|s|] == s;
  }

  lemma StripKeepsText(s: string)
    ensures NonSpace(Strip(s)) == NonSpace(s)
  {
    var a, b := StripBounds(s);
    NonSpaceOfInnerSlice(s, a, b);
  }

  /** `normalize_text` only touches whitespace: the other characters are
      kept, all of them and in order. */
  lemma NormalizeTextKeepsText(value: string)
    ensures NonSpace(NormalizeText(value)) == NonSpace(value)
  {
    CollapseKeepsText(value);
    StripKeepsText(Collapse(value));
  }

  /** Collapsing text whose whitespace is single spaces changes nothing. */
  lemma {:induction false} CollapseOfSingleSpaced(s: string)
    requires SpacesSingle(s) && NoDoubleSpace(s)
    ensures Collapse(s) == s
    decreases |s|
  {
    if s != [] {
      var tail := s[1..];
      assert SpacesSingle(tail) && NoDoubleSpace(tail) by { SliceKeepsSpaces(s, 1, |s|); }
      if IsSpace(s[0]) {
        assert |s| > 1 ==> !IsSpace(s[1]);
        assert LeadingSpace(s) == 1;
        CollapseOfSingleSpaced(tail);
        assert s == " " + tail;
      } else {
        CollapseOfSingleSpaced(tail);
        assert s == [s[0]] + tail;
      }
    }
  }

  /** Regrouping a concatenation of three strings. */
  lemma Regroup(c: string, x: string, c1: string, y: string, z: string)
    requires c == x + c1 && c1 == y + z
    ensures c == x + y + z
  {
  }

  /** Collapsing distributes over a cut that does not fall inside a
      whitespace run. */
  lemma {:induction false} CollapseAppend(a: string, b: string)
    requires a == [] || b == [] || !IsSpace(a[|a| - 1]) || !IsSpace(b[0])
    ensures Collapse(a + b) == Collapse(a) + Collapse(b)
    decreases |a|, 1
  {
    if a == [] {
      assert a + b == b;
    } else if b == [] {
      assert a + b == a;
    } else if IsSpace(a[0]) {
      CollapseAppendSpace(a, b);
    } else {
      CollapseAppendWord(a, b);
    }
  }

  /** The case of `CollapseAppend` where `a` starts with a whitespace run. */
  lemma {:induction false} CollapseAppendSpace(a: string, b: string)
    requires a != [] && b != [] && IsSpace(a[0])
    requires !IsSpace(a[|a| - 1]) || !IsSpace(b[0])
    ensures Collapse(a + b) == Collapse(a) + Collapse(b)
    decreases |a|, 0
  {
    var k := LeadingSpace(a);
    var rest := a[k..];
    assert (a + b)[0] == a[0];
    if k < |a| {
      assert rest[|rest| - 1] == a[|a| - 1];
      assert Collapse(a + b) == " " + Collapse(rest + b) by {
        assert (a + b)[..k] == a[..k] && (a + b)[k] == a[k];
        LeadingSpaceOfRun(a + b, k);
        assert (a + b)[k..] == rest + b;
      }
      CollapseAppend(rest, b);
      Regroup(Collapse(a + b), " ", Collapse(rest + b), Collapse(rest), Collapse(b));
    } else {
      assert Collapse(a + b) == " " + Collapse(b) by {
        assert (a + b)[..|a|] == a && (a + b)[|a|] == b[0];
        LeadingSpaceOfRun(a + b, |a|);
        assert (a + b)[|a|..] == b;
      }
      assert rest == [];
      Regroup(Collapse(a + b), " ", Collapse(b), Collapse(rest), Collapse(b));
    }
  }

  /** The case of `CollapseAppend` where `a` starts with a word character. */
  lemma {:induction false} CollapseAppendWord(a: string, b: string)
    requires a != [] && b != [] && !IsSpace(a[0])
    requires !IsSpace(a[|a| - 1]) || !IsSpace(b[0])
    ensures Collapse(a + b) == Collapse(a) + Collapse(b)
    decreases |a|, 0
  {
    var rest := a[1..];
    assert |rest| > 0 ==> rest[|rest| - 1] == a[|a| - 1];
    assert Collapse(a + b) == [a[0]] + Collapse(rest + b) by {
      assert (a + b)[0] == a[0];
      assert (a + b)[1..] == rest + b;
    }
    CollapseAppend(rest, b);
    Regroup(Collapse(a + b), [a[0]], Collapse(rest + b), Collapse(rest), Collapse(b));
  }

  /** A whitespace run at the start ends at the first other character. */
  lemma {:induction false} LeadingSpaceOfRun(s: string, k: nat)
    requires k <= |s| && AllSpace(s[..k]) && (k == |s| || !IsSpace(s[k]))
    ensures LeadingSpace(s) == k
    decreases k
  {
    if k > 0 {
      assert IsSpace(s[..k][0]);
      assert s[1..][..k - 1] == s[..k][1..];
      LeadingSpaceOfRun(s[1..], k - 1);
    }
  }

  /** A non-empty whitespace run collapses to one space. */
  lemma CollapseOfSpace(w: string)
    requires w != [] && AllSpace(w)
    ensures Collapse(w) == " "
  {
    assert w[..|w|] == w;
    LeadingSpaceOfRun(w, |w|);
    assert w[|w|..] == [];
  }

  /** A whitespace run between two words becomes one space. */
  lemma CollapseRun(a: string, w: string, b: string)
    requires a == [] || !IsSpace(a[|a| - 1])
    requires w != [] && AllSpace(w)
    requires b == [] || !IsSpace(b[0])
    ensures Collapse(a + w + b) == Collapse(a) + " " + Collapse(b)
  {
    CollapseAppend(a + w, b);
    CollapseAppend(a, w);
    CollapseOfSpace(w);
  }

  /** A normalised text is a fixed point of `normalize_text`. */
  lemma NormalizedIsFixed(s: string)
    requires Normalized(s)
    ensures NormalizeText(s) == s
  {
    CollapseOfSingleSpaced(s);
    StripTrimmed(s);
  }

  /** `normalize_text` is idempotent. */
  lemma NormalizeTextIdempotent(value: string)
    ensures NormalizeText(NormalizeText(value)) == NormalizeText(value)
  {
    NormalizedIsFixed(NormalizeText(value));
  }

  // ---------------------------------------------------------------------
  // parse_description

  /** A child element of the description section: its tag, its `class`
      attribute, its `.text`, its `.tail` and its `text_content()`. */
  datatype Node = Node(tag: string, cls: Option<string>, text: Option<string>, tail: Option<string>, content: string)

  /** The first whitespace character at or after `from`, or `|s|`. */
  function SpaceAt(s: string, from: nat): (k: nat)
    requires from <= |s|
    ensures from <= k <= |s| && NoSpace(s[from..k])
    ensures k == |s| || IsSpace(s[k])
    decreases |s| - from
  {
    if from == |s| || IsSpace(s[from]) then from
    else
      var k := SpaceAt(s, from + 1);
      assert s[from..k] == [s[from]] + s[from + 1..k];
      k
  }

  /** `s.split()`: the maximal runs of non-whitespace characters. */
  function Words(s: string): (r: seq<string>)
    ensures forall k :: 0 <= k < |r| ==> r[k] != [] && NoSpace(r[k])
    decreases |s|
  {
    var t := TrimLeft(s);
    if t == [] then []
    else
      var k := SpaceAt(t, 0);
      assert t[..k] == t[0..k];
      [t[..k]] + Words(t[k..])
  }

  /** Words joined by single spaces form a trimmed text. */
  lemma {:induction false} JoinWordsTrimmed(ws: seq<string>)
    requires forall k :: 0 <= k < |ws| ==> ws[k] != [] && NoSpace(ws[k])
    ensures ws != [] ==> Join(ws, ' ') != []
    ensures Trimmed(Join(ws, ' '))
  {
    if |ws| >= 2 {
      JoinWordsTrimmed(ws[1..]);
      var j := Join(ws[1..], ' ');
      assert Join(ws, ' ') == ws[0] + [' '] + j;
      assert (ws[0] + [' '] + j)[0] == ws[0][0];
    }
  }

  /** Leading whitespace does not change the words. */
  lemma WordsTrimLeft(s: string)
    ensures Words(TrimLeft(s)) == Words(s)
  {
    var t := TrimLeft(s);
    if t != [] {
      assert t[..0] == [];
      LeadingSpaceOfRun(t, 0);
    }
  }

  /** The first word of a text that starts with one. */
  lemma WordsFirst(t: string)
    requires t != [] && !IsSpace(t[0])
    ensures var k := SpaceAt(t, 0); 0 < k && Words(t) == [t[..k]] + Words(t[k..])
  {
    assert t[..0] == [];
    LeadingSpaceOfRun(t, 0);
    assert TrimLeft(t) == t;
  }

  /** Collapsing a text that starts with whitespace. */
  lemma CollapseLeadingSpace(s: string)
    requires s != [] && IsSpace(s[0])
    ensures Collapse(s) == " " + Collapse(TrimLeft(s))
  {
  }

  /** The whitespace `value.split()` leaves at the end of a text, as
      collapsing writes it: one space, or nothing. */
  function EndSpace(t: string): string {
    if t != [] && IsSpace(t[|t| - 1]) then " " else ""
  }

  /** A word in front of a text is kept as it is by collapsing. */
  lemma {:induction false} CollapseWordThen(w: string, r: string)
    requires NoSpace(w)
    ensures Collapse(w + r) == w + Collapse(r)
    decreases |w|
  {
    if w == [] {
      assert w + r == r;
    } else {
      assert Collapse(w + r) == [w[0]] + Collapse(w[1..] + r) by {
        assert (w + r)[0] == w[0];
        assert (w + r)[1..] == w[1..] + r;
      }
      CollapseWordThen(w[1..], r);
      Regroup(Collapse(w + r), [w[0]], Collapse(w[1..] + r), w[1..], Collapse(r));
      assert [w[0]] + w[1..] == w;
    }
  }

  /** The first word of a text that starts with one, and the rest of it. */
  lemma CollapseFirstWord(t: string, k: nat)
    requires 0 < k <= |t| && NoSpace(t[0..k])
    ensures Collapse(t) == t[..k] + Collapse(t[k..])
  {
    assert t == t[..k] + t[k..];
    assert t[..k] == t[0..k];
    CollapseWordThen(t[..k], t[k..]);
  }

  /** A word followed by one space and the joined words of the rest. */
  lemma JoinCons(c: string, w: string, c1: string, c2: string, ws: seq<string>, e: string)
    requires ws != [] && c == w + c1 && c1 == " " + c2 && c2 == Join(ws, ' ') + e
    ensures c == Join([w] + ws, ' ') + e
  {
    assert ([w] + ws)[1..] == ws;
  }

  /** The trailing space of a text is that of any non-empty suffix. */
  lemma EndSpaceSuffix(s: string, i: nat)
    requires i < |s|
    ensures EndSpace(s[i..]) == EndSpace(s)
  {
    assert s[i..][|s[i..]| - 1] == s[|s| - 1];
  }

  /** A text made of whitespace only collapses to the space that
      `EndSpace` keeps. */
  lemma CollapseWordsOfSpace(rest: string)
    requires rest != [] && IsSpace(rest[0]) && TrimLeft(rest) == []
    ensures Collapse(rest) == " " && Words(rest) == [] && EndSpace(rest) == " "
  {
    CollapseLeadingSpace(rest);
    var l := LeadingSpace(rest);
    assert IsSpace(rest[|rest| - 1]) by { assert rest[..l][|rest| - 1] == rest[|rest| - 1]; }
  }

  /** A text that does not start with whitespace collapses to its words
      joined by single spaces, with one more space when it ends in whitespace. */
  lemma {:induction false} CollapseWords(t: string)
    requires t == [] || !IsSpace(t[0])
    ensures Collapse(t) == Join(Words(t), ' ') + EndSpace(t)
    decreases |t|
  {
    if t != [] {
      WordsFirst(t);
      var k := SpaceAt(t, 0);
      CollapseFirstWord(t, k);
      var w, rest := t[..k], t[k..];
      assert Words(t) == [w] + Words(rest);
      assert Collapse(t) == w + Collapse(rest);
      if rest == [] {
        assert EndSpace(t) == "" by { assert t[|t| - 1] == t[0..k][k - 1]; }
        assert Words(t) == [w];
      } else {
        EndSpaceSuffix(t, k);
        CollapseLeadingSpace(rest);
        WordsTrimLeft(rest);
        var r2 := TrimLeft(rest);
        if r2 == [] {
          CollapseWordsOfSpace(rest);
          assert Words(t) == [w];
        } else {
          CollapseWords(r2);
          WordsFirst(r2);
          EndSpaceSuffix(rest, LeadingSpace(rest));
          assert EndSpace(r2) == EndSpace(t);
          JoinCons(Collapse(t), w, Collapse(rest), Collapse(r2), Words(r2), EndSpace(t));
        }
      }
    }
  }

  /** `Strip` on a trimmed text between two whitespace runs. */
  lemma StripAround(c: string, p: string, x: string, q: string, c1: string)
    requires c == p + c1 && c1 == x + q
    requires AllSpace(p) && AllSpace(q) && Trimmed(x)
    ensures Strip(c) == x
  {
    assert c == p + x + q;
    StripPadded(p, x, q);
  }

  /** Whitespace around words joined by single spaces is what `Strip` removes. */
  lemma StripJoinedWords(c: string, p: string, c1: string, ws: seq<string>, q: string)
    requires c == p + c1 && c1 == Join(ws, ' ') + q && AllSpace(p) && AllSpace(q)
    requires forall k :: 0 <= k < |ws| ==> ws[k] != [] && NoSpace(ws[k])
    ensures Strip(c) == Join(ws, ' ')
  {
    JoinWordsTrimmed(ws);
    StripAround(c, p, Join(ws, ' '), q, c1);
  }

  /** `normalize_text` is `" ".join(value.split())`: the words of the text
      joined by single spaces. */
  lemma NormalizeTextIsJoinedWords(value: string)
    ensures NormalizeText(value) == Join(Words(value), ' ')
  {
    WordsTrimLeft(value);
    if value != [] && IsSpace(value[0]) {
      NormalizeLeadingSpace(value);
    } else {
      assert TrimLeft(value) == value by { assert LeadingSpace(value) == 0; }
      NormalizeTrimmedLeft(value);
    }
  }

  /** The case of `NormalizeTextIsJoinedWords` for a text that starts with a word. */
  lemma NormalizeTrimmedLeft(t: string)
    requires t == [] || !IsSpace(t[0])
    ensures NormalizeText(t) == Join(Words(t), ' ')
  {
    CollapseWords(t);
    StripJoinedWords(Collapse(t), "", Collapse(t), Words(t), EndSpace(t));
  }

  /** The case of `NormalizeTextIsJoinedWords` for a text that starts with whitespace. */
  lemma NormalizeLeadingSpace(value: string)
    requires value != [] && IsSpace(value[0])
    ensures NormalizeText(value) == Join(Words(TrimLeft(value)), ' ')
  {
    var t := TrimLeft(value);
    CollapseWords(t);
    CollapseLeadingSpace(value);
    StripJoinedWords(Collapse(value), " ", Collapse(t), Words(t), EndSpace(t));
  }

  /** `./span[@class='head']`: a span whose class attribute is exactly `head`. */
  predicate IsHead(n: Node) {
    n.tag == "span" && n.cls == Some("head")
  }

  /** The sibling walk stops at a span with `head` among its class tokens. */
  predicate Stops(n: Node) {
    n.tag == "span" && "head" in Words(if n.cls.Some? then n.cls.value else "")
  }

  /** The keys of the `values` dict: `"jion"`, `"jikun"` and `"jikei"`. */
  datatype Field = Jion | Jikun | Jikei

  /** `HEAD_LABEL_MAP`: the section labels (with ASCII brackets) and their keys. */
  const HeadLabelMap: seq<(string, Field)> := [("[字音]", Jion), ("[字訓]", Jikun), ("[字形]", Jikei)]

  /** `table.get(heading)` for a table given as its pairs: the key of the
      first pair for `heading`. */
  function Lookup(table: seq<(string, Field)>, heading: string): Option<Field> {
    if table == [] then None
    else if table[0].0 == heading then Some(table[0].1)
    else Lookup(table[1..], heading)
  }

  /** `Lookup` finds a key exactly when a pair carries the heading, and the
      key it finds is paired with the heading. */
  lemma {:induction false} LookupFinds(table: seq<(string, Field)>, heading: string)
    ensures Lookup(table, heading).Some? <==> exists i :: 0 <= i < |table| && table[i].0 == heading
    ensures Lookup(table, heading).Some? ==>
      exists i :: 0 <= i < |table| && table[i] == (heading, Lookup(table, heading).value)
  {
    if table != [] && table[0].0 != heading {
      LookupFinds(table[1..], heading);
      assert forall i :: 1 <= i < |table| ==> table[i] == table[1..][i - 1];
    }
  }

  /** The three section labels, and no other heading, have a key. */
  lemma LabelKeys(heading: string)
    ensures LabelKey("[字音]") == Some(Jion)
    ensures LabelKey("[字訓]") == Some(Jikun)
    ensures LabelKey("[字形]") == Some(Jikei)
    ensures LabelKey(heading).Some? <==> heading in {"[字音]", "[字訓]", "[字形]"}
  {
    LookupFinds(HeadLabelMap, heading);
    if heading in {"[字音]", "[字訓]", "[字形]"} {
      assert exists i :: 0 <= i < |HeadLabelMap| && HeadLabelMap[i].0 == heading by {
        if heading == "[字音]" { assert HeadLabelMap[0].0 == heading; }
        else if heading == "[字訓]" { assert HeadLabelMap[1].0 == heading; }
        else { assert HeadLabelMap[2].0 == heading; }
      }
    }
  }

  function LabelKey(heading: string): Option<Field> {
    Lookup(HeadLabelMap, heading)
  }

  /** `values` before the first head: every key maps to `""`. */
  const Defaults: map<Field, string> := map[Jion := "", Jikun := "", Jikei := ""]

  /** A text or tail that `if x:` lets through: present and non-empty. */
  predicate Given(x: Option<string>) {
    x.Some? && x.value != []
  }

  /** What `if x: parts.append(x)` adds. */
  function Part(x: Option<string>): seq<string> {
    if Given(x) then [x.value] else []
  }

  /** The first sibling at or after `from` that stops the walk, or `|children|`. */
  function StopAt(children: seq<Node>, from: nat): (k: nat)
    requires from <= |children|
    ensures from <= k <= |children|
    ensures k < |children| ==> Stops(children[k])
    ensures forall i :: from <= i < k ==> !Stops(children[i])
    decreases |children| - from
  {
    if from == |children| || Stops(children[from]) then from else StopAt(children, from + 1)
  }

  /** A sibling before the stop that does not stop the walk is not the stop either. */
  lemma StopAtPast(children: seq<Node>, from: nat, j: nat)
    requires from <= j < |children| && j <= StopAt(children, from) && !Stops(children[j])
    ensures j + 1 <= StopAt(children, from)
  {
  }

  /** `parts` for the head at `h` once the siblings before `j` have been
      walked: the head's tail, then the text and the tail of each sibling. */
  function PartsUpTo(children: seq<Node>, h: nat, j: nat): seq<string>
    requires h < j <= |children|
    decreases j
  {
    if j == h + 1 then Part(children[h].tail)
    else PartsUpTo(children, h, j - 1) + Part(children[j - 1].text) + Part(children[j - 1].tail)
  }

  /** `parts` for the head at `h`: the walk runs up to the first sibling that stops it. */
  function SectionParts(children: seq<Node>, h: nat): seq<string>
    requires h < |children|
  {
    PartsUpTo(children, h, StopAt(children, h + 1))
  }

  /** The value stored for the head at `h`. */
  function SectionText(children: seq<Node>, h: nat): string
    requires h < |children|
  {
    NormalizeText(Concat(SectionParts(children, h)))
  }

  /** The key the child at `h` sets, if it is a head with a known label. */
  function HeadKeyAt(children: seq<Node>, h: nat): Option<Field>
    requires h < |children|
  {
    if IsHead(children[h]) then LabelKey(Strip(children[h].content)) else None
  }

  /** The assignment `values[key] = ...` the child at `h` makes, if any. */
  function SectionUpdate(children: seq<Node>, h: nat): Option<(Field, string)>
    requires h < |children|
  {
    var key := HeadKeyAt(children, h);
    if key.Some? then Some((key.value, SectionText(children, h))) else None
  }

  /** The assignments the children before `n` make, in order. */
  function SectionUpdates(children: seq<Node>, n: nat): (us: seq<Option<(Field, string)>>)
    requires n <= |children|
    ensures |us| == n
  {
    if n == 0 then [] else SectionUpdates(children, n - 1) + [SectionUpdate(children, n - 1)]
  }

  lemma {:induction false} SectionUpdatesAt(children: seq<Node>, n: nat, h: nat)
    requires h < n <= |children|
    ensures SectionUpdates(children, n)[h] == SectionUpdate(children, h)
  {
    if h < n - 1 {
      SectionUpdatesAt(children, n - 1, h);
    }
  }

  /** What `parse_description` returns: the defaults, then one assignment
      per head with a known label. */
  function Description(children: seq<Node>): map<Field, string> {
    Assign(Defaults, SectionUpdates(children, |children|))
  }

  /** The inner walk of `parse_description`: the parts of the section that
      the head at `h` opens. */
  method CollectSection(children: seq<Node>, h: nat) returns (parts: seq<string>)
    requires h < |children|
    ensures parts == SectionParts(children, h)
  {
    var head := children[h];
    parts := Part(head.tail);
    var j := h + 1;
    while j < |children|
      invariant h + 1 <= j <= StopAt(children, h + 1)
      invariant parts == PartsUpTo(children, h, j)
    {
      var sibling := children[j];
      if Stops(sibling) {
        break;
      }
      parts := parts + Part(sibling.text);
      parts := parts + Part(sibling.tail);
      StopAtPast(children, h + 1, j);
      j := j + 1;
    }
    assert j == StopAt(children, h + 1);
  }

  /** `parse_description`: starts from the defaults and, for each head with a
      known label, stores the normalised text of its section. */
  method ParseDescription(children: seq<Node>) returns (values: map<Field, string>)
    ensures values == Description(children)
  {
    values := Defaults;
    for h := 0 to |children|
      invariant values == Assign(Defaults, SectionUpdates(children, h))
    {
      AssignSnoc(Defaults, SectionUpdates(children, h), SectionUpdate(children, h));
      var head := children[h];
      if !IsHead(head) {
        continue;
      }
      var key := LabelKey(Strip(head.content));
      if key.None? {
        continue;
      }
      var parts := CollectSection(children, h);
      values := values[key.value := NormalizeText(Concat(parts))];
    }
  }

  /** The last head before the end that carries the label of `key`. */
  function LastHead(children: seq<Node>, key: Field): (r: Option<nat>)
    ensures r.Some? ==> r.value < |children|
  {
    LastAssign(SectionUpdates(children, |children|), key)
  }

  /** `LastHead` finds a head with the label of `key` and no later head has
      that label; it finds none exactly when no head has it. */
  lemma LastHeadIsLast(children: seq<Node>, key: Field)
    ensures LastHead(children, key).Some? ==> HeadKeyAt(children, LastHead(children, key).value) == Some(key)
    ensures LastHead(children, key).Some? ==>
      forall j :: LastHead(children, key).value < j < |children| ==> HeadKeyAt(children, j) != Some(key)
    ensures LastHead(children, key).None? ==>
      forall j :: 0 <= j < |children| ==> HeadKeyAt(children, j) != Some(key)
  {
    var us := SectionUpdates(children, |children|);
    LastAssignIsLast(us, key);
    forall j | 0 <= j < |children|
      ensures AssignsAt(us, j, key) <==> HeadKeyAt(children, j) == Some(key)
    {
      SectionUpdatesAt(children, |children|, j);
    }
  }

  /** The value of each key is the normalised section text of the LAST head
      that carries its label (so a repeated label overwrites the earlier one,
      and heads with other labels contribute nothing), or `""` when no head
      carries it. */
  lemma DescriptionValue(children: seq<Node>, key: Field)
    ensures key in Description(children)
    ensures Description(children)[key] ==
      match LastHead(children, key)
      case None => ""
      case Some(h) => SectionText(children, h)
  {
    var us := SectionUpdates(children, |children|);
    AssignValue(Defaults, us, key);
    var last := LastHead(children, key);
    if last.Some? {
      SectionUpdatesAt(children, |children|, last.value);
    }
  }

  /** Each value is a normalised text. */
  lemma DescriptionNormalized(children: seq<Node>, key: Field)
    ensures Normalized(Description(children)[key])
  {
    DescriptionValue(children, key);
  }

  // ---------------------------------------------------------------------
  // normalize_image_src and fetch_entry_details

  /** The URL the crawler's `normalize_image_src` hands to `urlparse`: a
      protocol-relative source read as `https:`, or an `http`/`https` URL
      itself; `None` for any other source, which is kept as it is. */
  function ImageUrl(src: string): (r: Option<string>)
    ensures r.Some? ==> Urls.IsWebUrl(r.value)
    ensures r.None? <==> !StartsWith(src, "//") && !Urls.IsWebUrl(src)
  {
    if StartsWith(src, "//") then
      assert ("https:" + src)[..8] == "https:" + src[..2];
      Some("https:" + src)
    else if Urls.IsWebUrl(src) then Some(src)
    else None
  }

  /** The crawler's `normalize_image_src`: the path and query of the URL,
      and anything that is not a URL unchanged. */
  function NormalizeImageSrc(src: string): (r: string)
    ensures src == "" ==> r == ""
    ensures ImageUrl(src).None? ==> r == src
  {
    if src == "" then ""
    else
      match ImageUrl(src)
      case None => src
      case Some(url) => Urls.PathAndQuery(url)
  }

  /** A source read as a URL becomes that URL's path and query. */
  lemma NormalizeImageSrcOfImageUrl(src: string)
    requires ImageUrl(src).Some?
    ensures NormalizeImageSrc(src) == Urls.PathAndQuery(ImageUrl(src).value)
  {
    assert src != "";
  }

  /** An `http`/`https` source is read as itself. */
  lemma ImageUrlOfWebUrl(src: string)
    requires Urls.IsWebUrl(src)
    ensures ImageUrl(src) == Some(src)
  {
    assert src[0] == 'h';
  }

  /** A URL's image source becomes its path, with `?query` only when the query is not empty. */
  lemma NormalizeImageSrcOfUrl(src: string, scheme: string, host: string, path: string, query: string, hasMark: bool)
    requires scheme == "http" || scheme == "https"
    requires Urls.IsPlainHost(host) && Urls.IsPlainPath(path) && Urls.IsPlainQuery(query)
    requires !hasMark ==> query == ""
    requires src == scheme + "://" + host + path + (if hasMark then "?" + query else "")
    ensures NormalizeImageSrc(src) == if query != "" then path + "?" + query else path
  {
    Urls.PathAndQueryOfParts(src, scheme, host, path, query, hasMark);
    ImageUrlOfWebUrl(src);
    NormalizeImageSrcOfImageUrl(src);
  }

  /** A protocol-relative image source is normalised as its `https:` URL is. */
  lemma NormalizeImageSrcOfRelative(src: string)
    requires StartsWith(src, "//")
    ensures NormalizeImageSrc(src) == NormalizeImageSrc("https:" + src)
  {
    var url := "https:" + src;
    assert url[..8] == "https:" + src[..2];
    ImageUrlOfWebUrl(url);
    NormalizeImageSrcOfImageUrl(src);
    NormalizeImageSrcOfImageUrl(url);
  }

  /** A normalised URL source is site-relative: empty or starting with `/`
      (or with `?` when the URL has a query but no path), and free of `#`. */
  lemma NormalizeImageSrcShape(src: string)
    requires ImageUrl(src).Some?
    ensures var r := NormalizeImageSrc(src);
      (r == [] || r[0] == '/' || r[0] == '?') && forall i :: 0 <= i < |r| ==> r[i] != '#'
  {
    NormalizeImageSrcOfImageUrl(src);
    Urls.PathAndQuerySiteRelative(ImageUrl(src).value);
  }

  /** The four detail strings `fetch_entry_details` returns. */
  datatype Details = Details(gaijiImgSrc: string, jion: string, jikun: string, jikei: string)

  /** The parts of an entry page the crawler reads: the `src` attribute of
      each node the gaiji image path selects, and the children of each node
      the description path selects. */
  datatype EntryPage = EntryPage(images: seq<Option<string>>, descriptions: seq<seq<Node>>)

  /** `fetch_entry_details` after the page has been fetched and parsed: the
      first image and the first description are used, and a missing one
      leaves its strings empty. */
  function FetchedDetails(page: EntryPage): (d: Details)
    ensures page.images == [] ==> d.gaijiImgSrc == ""
    ensures page.descriptions == [] ==> d.jion == "" && d.jikun == "" && d.jikei == ""
    ensures Normalized(d.jion) && Normalized(d.jikun) && Normalized(d.jikei)
  {
    var img := if page.images == [] then "" else NormalizeImageSrc(if page.images[0].Some? then page.images[0].value else "");
    if page.descriptions == [] then Details(img, "", "", "")
    else
      var values := Description(page.descriptions[0]);
      DescriptionNormalized(page.descriptions[0], Jion);
      DescriptionNormalized(page.descriptions[0], Jikun);
      DescriptionNormalized(page.descriptions[0], Jikei);
      Details(img, values[Jion], values[Jikun], values[Jikei])
  }
}
