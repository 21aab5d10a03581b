/**
 * `generate_gaiji_report.py`: the HTML page listing every recorded gaiji
 * image with its entry, built line by line and joined with newlines.
 */
module GaijiReport {

  import opened Results
  import opened Strings
  import Urls
  import TableNames
  import Ordering
  import EntryStore
  import opened GaijiStore
  import opened ReportText

  const BaseUrl: string := "https://kotobank.jp"

  // ---------------------------------------------------------------------
  // html.escape

  // The character references `html.escape` writes.
  const AmpRef: string := "&amp;"
  const LtRef: string := "&lt;"
  const GtRef: string := "&gt;"
  const QuotRef: string := "&quot;"
  const AposRef: string := "&#x27;"

  /** The characters `html.escape(s, quote=True)` replaces. */
  const Escaped: string := "&<>\"'"

  /** `html.escape(s, quote=True)` for one character. */
  function EscapeChar(c: char): string {
    if c == '&' then AmpRef
    else if c == '<' then LtRef
    else if c == '>' then GtRef
    else if c == '"' then QuotRef
    else if c == '\'' then AposRef
    else [c]
  }

  /** `html.escape(s)`: each of `& < > " '` replaced by its character reference. */
  function Escape(s: string): string {
    if s == [] then [] else EscapeChar(s[0]) + Escape(s[1..])
  }

  /** The characters that would end an attribute value or start markup. */
  predicate IsMarkup(c: char) {
    c == '<' || c == '>' || c == '"' || c == '\''
  }

  predicate MarkupFree(s: string) {
    forall i :: 0 <= i < |s| ==> !IsMarkup(s[i])
  }

  lemma MarkupFreeConcat(a: string, b: string)
    requires MarkupFree(a) && MarkupFree(b)
    ensures MarkupFree(a + b)
  {
    assert forall i :: |a| <= i < |a + b| ==> (a + b)[i] == b[i - |a|];
  }

  /** An escaped string holds none of `< > " '`: an interpolated field cannot
      open a tag or close the attribute it sits in. */
  lemma {:induction false} EscapeMarkupFree(s: string)
    ensures MarkupFree(Escape(s))
    decreases |s|
  {
    if s != [] {
      EscapeMarkupFree(s[1..]);
      MarkupFreeConcat(EscapeChar(s[0]), Escape(s[1..]));
    }
  }

  /** A string without any of the five characters is left as it is. */
  lemma {:induction false} EscapePlain(s: string)
    requires forall i :: 0 <= i < |s| ==> !IsMarkup(s[i]) && s[i] != '&'
    ensures Escape(s) == s
    decreases |s|
  {
    if s != [] {
      EscapePlain(s[1..]);
      assert s == [s[0]] + s[1..];
    }
  }

  /** The five character references read back (the part of `html.unescape`
      that undoes `html.escape`). */
  function Unescape(s: string): string
    decreases |s|
  {
    if s == [] then []
    else if StartsWith(s, AmpRef) then "&" + Unescape(s[|AmpRef|..])
    else if StartsWith(s, LtRef) then "<" + Unescape(s[|LtRef|..])
    else if StartsWith(s, GtRef) then ">" + Unescape(s[|GtRef|..])
    else if StartsWith(s, QuotRef) then "\"" + Unescape(s[|QuotRef|..])
    else if StartsWith(s, AposRef) then "'" + Unescape(s[|AposRef|..])
    else [s[0]] + Unescape(s[1..])
  }

  /** A reference starts with `&` and no other reference is its prefix. */
  lemma UnescapeReference(entity: string, c: char, t: string)
    requires entity == EscapeChar(c) && c in Escaped
    ensures Unescape(entity + t) == [c] + Unescape(t)
  {
    var s := entity + t;
    assert s[..|entity|] == entity;
    assert s[|entity|..] == t;
    assert StartsWith(s, entity);
    assert s[1] == entity[1];
    if c != '&' {
      assert !StartsWith(s, AmpRef) by { assert s[1] != AmpRef[1]; }
      if c != '<' {
        assert !StartsWith(s, LtRef) by { assert s[1] != LtRef[1]; }
        if c != '>' {
          assert !StartsWith(s, GtRef) by { assert s[1] != GtRef[1]; }
          if c != '"' {
            assert !StartsWith(s, QuotRef) by { assert s[1] != QuotRef[1]; }
          }
        }
      }
    }
  }

  lemma UnescapeOther(c: char, t: string)
    requires c !in Escaped
    ensures Unescape([c] + t) == [c] + Unescape(t)
  {
    var s := [c] + t;
    assert s[0] == c && s[1..] == t;
  }

  /** Escaping loses nothing: the references read back to the original text. */
  lemma {:induction false} UnescapeEscape(s: string)
    ensures Unescape(Escape(s)) == s
    decreases |s|
  {
    if s != [] {
      UnescapeEscape(s[1..]);
      assert Escape(s) == EscapeChar(s[0]) + Escape(s[1..]);
      if s[0] in Escaped {
        UnescapeReference(EscapeChar(s[0]), s[0], Escape(s[1..]));
      } else {
        assert EscapeChar(s[0]) == [s[0]];
        UnescapeOther(s[0], Escape(s[1..]));
      }
      assert s == [s[0]] + s[1..];
    }
  }

  // ---------------------------------------------------------------------
  // build_img_src

  /** `build_img_src`: a URL is kept, anything else is taken as a path on the site. */
  function BuildImgSrc(imageSrc: string): (r: string)
    ensures Urls.IsWebUrl(imageSrc) ==> r == imageSrc
    ensures !Urls.IsWebUrl(imageSrc) ==> r == BaseUrl + imageSrc
  {
    if Urls.IsWebUrl(imageSrc) then imageSrc else BaseUrl + imageSrc
  }

  /** The built source is always an `http`/`https` URL, so building twice
      changes nothing. */
  lemma BuildImgSrcIsUrl(imageSrc: string)
    ensures Urls.IsWebUrl(BuildImgSrc(imageSrc))
    ensures BuildImgSrc(BuildImgSrc(imageSrc)) == BuildImgSrc(imageSrc)
  {
    if !Urls.IsWebUrl(imageSrc) {
      assert (BaseUrl + imageSrc)[..8] == "https://";
    }
  }

  // ---------------------------------------------------------------------
  // The page

  /** A row of the report query. */
  datatype ReportRow = ReportRow(entryId: int, imageSrc: string, gaijiChar: Option<string>, keyword: Option<string>, href: Option<string>)

  /** `value or ""` for a column that may be NULL. */
  function OrEmpty(value: Option<string>): string {
    if value.Some? then value.value else ""
  }

  /** The heading line, which states the row count. */
  function Heading(n: nat): string {
    HeadingOpen + IntToString(n) + HeadingClose
  }

  /** The fixed lines before the rows, with the heading for `n` rows. */
  function Header(n: nat): (lines: seq<string>)
    ensures |lines| == 28
  {
    [ DocType, HtmlOpen, HeadOpen, MetaCharset, MetaViewport, PageTitle,
      StyleOpen, StyleBody, StyleTable, StyleCells, StyleHeaderCells, StyleImg, StyleMono, StyleClose,
      HeadClose, BodyOpen, Heading(n),
      TableOpen, TheadOpen, RowOpen, ThId, ThKeyword, ThHref, ThImage, ThGaijiChar, RowClose, TheadClose,
      TbodyOpen ]
  }

  /** The seven lines of one row, from its five fields as they are pasted in. */
  function RowTemplate(entryId: string, keyword: string, href: string, imageSrc: string, gaijiChar: string): (lines: seq<string>)
    ensures |lines| == 7
  {
    [ RowOpen,
      CellMonoOpen + entryId + CellClose,
      CellOpen + keyword + CellClose,
      LinkCellOpen + BaseUrl + href + LinkTextOpen + href + LinkCellClose,
      ImageCellOpen + imageSrc + ImageCellClose,
      CellOpen + gaijiChar + CellClose,
      RowClose ]
  }

  /** The fields of a row, escaped; NULL columns are empty text. */
  function RowFields(r: ReportRow): (string, string, string, string, string) {
    (Escape(IntToString(r.entryId)), Escape(OrEmpty(r.keyword)), Escape(OrEmpty(r.href)),
     Escape(BuildImgSrc(r.imageSrc)), Escape(OrEmpty(r.gaijiChar)))
  }

  function RowLines(r: ReportRow): (lines: seq<string>)
    ensures |lines| == 7
  {
    var f := RowFields(r);
    RowTemplate(f.0, f.1, f.2, f.3, f.4)
  }

  /** Every field pasted into a row is free of `< > " '` and reads back to the
      row's value; NULL columns read back as empty text. */
  lemma RowFieldsSafe(r: ReportRow)
    ensures var f := RowFields(r);
      MarkupFree(f.0) && MarkupFree(f.1) && MarkupFree(f.2) && MarkupFree(f.3) && MarkupFree(f.4)
    ensures var f := RowFields(r);
      Unescape(f.0) == IntToString(r.entryId) && Unescape(f.1) == OrEmpty(r.keyword) &&
      Unescape(f.2) == OrEmpty(r.href) && Unescape(f.3) == BuildImgSrc(r.imageSrc) &&
      Unescape(f.4) == OrEmpty(r.gaijiChar)
    ensures r.gaijiChar.None? ==> RowFields(r).4 == ""
    ensures r.keyword.None? ==> RowFields(r).1 == ""
    ensures r.href.None? ==> RowFields(r).2 == ""
  {
    EscapeMarkupFree(IntToString(r.entryId));
    EscapeMarkupFree(OrEmpty(r.keyword));
    EscapeMarkupFree(OrEmpty(r.href));
    EscapeMarkupFree(BuildImgSrc(r.imageSrc));
    EscapeMarkupFree(OrEmpty(r.gaijiChar));
    UnescapeEscape(IntToString(r.entryId));
    UnescapeEscape(OrEmpty(r.keyword));
    UnescapeEscape(OrEmpty(r.href));
    UnescapeEscape(BuildImgSrc(r.imageSrc));
    UnescapeEscape(OrEmpty(r.gaijiChar));
  }

  lemma PrefixSlice<T>(a: seq<T>, b: seq<T>, i: nat, j: nat)
    requires i <= j <= |a|
    ensures (a + b)[i..j] == a[i..j]
  {
  }

  lemma SuffixSlice<T>(a: seq<T>, b: seq<T>)
    ensures (a + b)[|a|..] == b
    ensures (a + b)[|a|..|a| + |b|] == b
  {
  }

  /** `head` followed by each row's block of lines, in row order. */
  function Stacked<R>(head: seq<string>, rows: seq<R>, block: R -> seq<string>): seq<string> {
    if rows == [] then head else Stacked(head, rows[..|rows| - 1], block) + block(rows[|rows| - 1])
  }

  lemma {:induction false} StackedLength<R>(head: seq<string>, rows: seq<R>, block: R -> seq<string>)
    requires forall r :: |block(r)| == 7
    ensures |Stacked(head, rows, block)| == |head| + 7 * |rows|
  {
    if rows != [] {
      StackedLength(head, rows[..|rows| - 1], block);
    }
  }

  lemma {:induction false} StackedHead<R>(head: seq<string>, rows: seq<R>, block: R -> seq<string>)
    ensures |head| <= |Stacked(head, rows, block)|
    ensures Stacked(head, rows, block)[..|head|] == head
  {
    if rows != [] {
      var before := Stacked(head, rows[..|rows| - 1], block);
      StackedHead(head, rows[..|rows| - 1], block);
      PrefixSlice(before, block(rows[|rows| - 1]), 0, |head|);
    }
  }

  lemma {:induction false} StackedAt<R>(head: seq<string>, rows: seq<R>, block: R -> seq<string>, k: nat)
    requires forall r :: |block(r)| == 7
    requires k < |rows|
    ensures |head| + 7 * k + 7 <= |Stacked(head, rows, block)|
    ensures Stacked(head, rows, block)[|head| + 7 * k .. |head| + 7 * k + 7] == block(rows[k])
  {
    var init := rows[..|rows| - 1];
    var last := rows[|rows| - 1];
    var before := Stacked(head, init, block);
    StackedLength(head, init, block);
    if k < |init| {
      StackedAt(head, init, block, k);
      assert init[k] == rows[k];
      PrefixSlice(before, block(last), |head| + 7 * k, |head| + 7 * k + 7);
    } else {
      SuffixSlice(before, block(last));
    }
  }

  /** The header of a page of `n` rows followed by the lines of `rows`, in order. */
  function Rendered(n: nat, rows: seq<ReportRow>): (lines: seq<string>)
    ensures |lines| == 28 + 7 * |rows|
  {
    StackedLength(Header(n), rows, RowLines);
    Stacked(Header(n), rows, RowLines)
  }

  function Footer(): (lines: seq<string>)
    ensures |lines| == 4
  {
    [ TbodyClose, TableClose, BodyClose, HtmlClose ]
  }

  /** The lines of the page. */
  function ReportLines(rows: seq<ReportRow>): seq<string> {
    Rendered(|rows|, rows) + Footer()
  }

  /** Rows are only ever added after the header. */
  lemma RenderedHeader(n: nat, rows: seq<ReportRow>)
    ensures Rendered(n, rows)[..28] == Header(n)
  {
    StackedHead(Header(n), rows, RowLines);
  }

  /** Row `k` takes the seven lines after the header and the `k` rows before it. */
  lemma RenderedRow(n: nat, rows: seq<ReportRow>, k: nat)
    requires k < |rows|
    ensures Rendered(n, rows)[28 + 7 * k .. 35 + 7 * k] == RowLines(rows[k])
  {
    StackedAt(Header(n), rows, RowLines, k);
  }

  /** The page has 28 header lines, seven per row and four closing lines. */
  lemma ReportLength(rows: seq<ReportRow>)
    ensures |ReportLines(rows)| == 32 + 7 * |rows|
    ensures ReportLines(rows)[28 + 7 * |rows| ..] == Footer()
  {
    SuffixSlice(Rendered(|rows|, rows), Footer());
  }

  /** The title line states the number of rows. */
  lemma ReportTitle(rows: seq<ReportRow>)
    ensures ReportLines(rows)[16] == Heading(|rows|)
    ensures ReportLines(rows)[..28] == Header(|rows|)
  {
    RenderedHeader(|rows|, rows);
    PrefixSlice(Rendered(|rows|, rows), Footer(), 0, 28);
    assert ReportLines(rows)[16] == Header(|rows|)[16];
  }

  /** The rows appear in query order, seven lines each. */
  lemma ReportRowAt(rows: seq<ReportRow>, k: nat)
    requires k < |rows|
    ensures ReportLines(rows)[28 + 7 * k .. 35 + 7 * k] == RowLines(rows[k])
  {
    RenderedRow(|rows|, rows, k);
    PrefixSlice(Rendered(|rows|, rows), Footer(), 28 + 7 * k, 35 + 7 * k);
  }

  /** The loop that builds `lines`: the header, each row's lines, the closing lines. */
  method RenderReport(rows: seq<ReportRow>) returns (lines: seq<string>)
    ensures lines == ReportLines(rows)
  {
    lines := Header(|rows|);
    for i := 0 to |rows|
      invariant lines == Rendered(|rows|, rows[..i])
    {
      assert rows[..i + 1][..i] == rows[..i];
      lines := lines + RowLines(rows[i]);
    }
    assert rows[..|rows|] == rows;
    lines := lines + Footer();
  }

  /** The report query: each gaiji row joined with its entry, by entry id. */
  method QueryReportRows(gaiji: map<int, GaijiRow>, entries: map<int, EntryStore.EntryRow>) returns (rows: seq<ReportRow>)
    ensures Ordering.Increasing(seq(|rows|, k requires 0 <= k < |rows| => rows[k].entryId))
    ensures |rows| == |gaiji.Keys * entries.Keys|
    ensures forall id :: id in gaiji && id in entries ==> exists k :: 0 <= k < |rows| && rows[k].entryId == id
    ensures forall k :: 0 <= k < |rows| ==>
      var id := rows[k].entryId;
      id in gaiji && id in entries &&
      rows[k] == ReportRow(id, gaiji[id].imageSrc, gaiji[id].gaijiChar, Some(entries[id].keyword), Some(entries[id].href))
  {
    var ids := Ordering.SortedKeys(gaiji.Keys * entries.Keys);
    assert forall k :: 0 <= k < |ids| ==> ids[k] in gaiji.Keys * entries.Keys by {
      forall k | 0 <= k < |ids| ensures ids[k] in gaiji.Keys * entries.Keys {
        assert ids[k] in ids;
      }
    }
    rows := seq(|ids|, k requires 0 <= k < |ids| =>
      ReportRow(ids[k], gaiji[ids[k]].imageSrc, gaiji[ids[k]].gaijiChar, Some(entries[ids[k]].keyword), Some(entries[ids[k]].href)));
    assert seq(|rows|, k requires 0 <= k < |rows| => rows[k].entryId) == ids;
    forall id | id in gaiji && id in entries ensures exists k :: 0 <= k < |rows| && rows[k].entryId == id {
      assert id in ids;
      var k :| 0 <= k < |ids| && ids[k] == id;
      assert rows[k].entryId == id;
    }
  }

  /** The rows of the report's JOIN: one per id in both tables, ascending by
      id, with the gaiji row's image source and transcription and the entry's
      keyword and href. */
  predicate JoinRows(gaiji: map<int, GaijiRow>, entries: map<int, EntryStore.EntryRow>, rows: seq<ReportRow>) {
    Ordering.Increasing(seq(|rows|, k requires 0 <= k < |rows| => rows[k].entryId)) &&
    |rows| == |gaiji.Keys * entries.Keys| &&
    (forall id :: id in gaiji && id in entries ==> exists k :: 0 <= k < |rows| && rows[k].entryId == id) &&
    (forall k :: 0 <= k < |rows| ==>
      var id := rows[k].entryId;
      id in gaiji && id in entries &&
      rows[k] == ReportRow(id, gaiji[id].imageSrc, gaiji[id].gaijiChar, Some(entries[id].keyword), Some(entries[id].href)))
  }

  /** `main`: both table names are checked, a missing database file exits
      with 2, and otherwise the page text (the lines joined by newlines) is
      what gets written. `dbExists` stands for the file test. */
  method ReportMain(entriesTable: string, gaijiTable: string, dbExists: bool,
                    gaiji: map<int, GaijiRow>, entries: map<int, EntryStore.EntryRow>)
    returns (exit: ScriptExit, page: Option<string>)
    ensures TableNames.ValidateTableName(entriesTable).Err? || TableNames.ValidateTableName(gaijiTable).Err? ==>
      exit == Raised(TableNames.TableNameError) && page.None?
    ensures TableNames.ValidateTableName(entriesTable).Ok? && TableNames.ValidateTableName(gaijiTable).Ok? && !dbExists ==>
      exit == Status(2) && page.None?
    ensures TableNames.ValidateTableName(entriesTable).Ok? && TableNames.ValidateTableName(gaijiTable).Ok? && dbExists ==>
      exit == Status(0) && page.Some? &&
      exists rows: seq<ReportRow> :: page.value == Join(ReportLines(rows), '\n') && JoinRows(gaiji, entries, rows)
  {
    var checkedEntries := TableNames.ValidateTableName(entriesTable);
    if checkedEntries.Err? {
      return Raised(checkedEntries.message), None;
    }
    var checkedGaiji := TableNames.ValidateTableName(gaijiTable);
    if checkedGaiji.Err? {
      return Raised(checkedGaiji.message), None;
    }
    if !dbExists {
      return Status(2), None;
    }
    var rows := QueryReportRows(gaiji, entries);
    assert JoinRows(gaiji, entries, rows);
    var lines := RenderReport(rows);
    return Status(0), Some(Join(lines, '\n'));
  }
}
