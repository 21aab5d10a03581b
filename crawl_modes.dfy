/**
 * The command line of the Kotobank crawler: `parse_crawl_modes`, the
 * `--crawl` option's parser, and the checks and dispatch at the top of
 * `main` (scripts/scrape_kotobank_jitsu.py).
 */
module CrawlModes {

  import opened Results
  import opened Strings
  import TableNames

  /** The two crawl modes a `--crawl` value can select. */
  datatype Mode = Index | Entries

  const NoModeError: string := "--crawl must include at least one of: index, entries"
  const UnsupportedModeError: string := "--crawl supports: index, entries (or kanji_entries)"

  /** The items of a `--crawl` value: its comma-separated pieces, stripped and
      lower-cased, with the blank ones dropped. */
  function ModeItems(pieces: seq<string>): (items: seq<string>)
    ensures |items| <= |pieces|
    ensures forall i :: 0 <= i < |items| ==> items[i] != []
  {
    if pieces == [] then []
    else
      var rest := ModeItems(pieces[..|pieces| - 1]);
      var item := Strip(pieces[|pieces| - 1]);
      if item != [] then rest + [Lower(item)] else rest
  }

  /** The mode an item names, if any; `kanji_entries` is another name for `entries`. */
  function ModeOf(item: string): Option<Mode> {
    if item == "index" then Some(Index)
    else if item == "entries" || item == "kanji_entries" then Some(Entries)
    else None
  }

  predicate AllKnown(items: seq<string>) {
    forall i :: 0 <= i < |items| ==> ModeOf(items[i]).Some?
  }

  /** The set of modes the items name. */
  function ModesNamed(items: seq<string>): set<Mode> {
    set i | 0 <= i < |items| && ModeOf(items[i]).Some? :: ModeOf(items[i]).value
  }

  /** What `parse_crawl_modes` promises: an error when no item is left or an
      item names no mode, and otherwise the set of modes the items name. */
  function CrawlModes(value: string): Result<set<Mode>> {
    var items := ModeItems(Split(value, ','));
    if items == [] then Err(NoModeError)
    else if !AllKnown(items) then Err(UnsupportedModeError)
    else Ok(ModesNamed(items))
  }

  /** `parse_crawl_modes`: collects the modes into a set, item by item, and
      raises at the first item that names none. */
  method ParseCrawlModes(value: string) returns (r: Result<set<Mode>>)
    ensures r == CrawlModes(value)
  {
    var items := ModeItems(Split(value, ','));
    if items == [] {
      return Err(NoModeError);
    }
    var modes: set<Mode> := {};
    for i := 0 to |items|
      invariant AllKnown(items[..i])
      invariant modes == ModesNamed(items[..i])
    {
      assert items[..i + 1] == items[..i] + [items[i]];
      if items[i] == "index" {
        modes := modes + {Index};
      } else if items[i] == "entries" || items[i] == "kanji_entries" {
        modes := modes + {Entries};
      } else {
        assert !AllKnown(items);
        return Err(UnsupportedModeError);
      }
      assert ModesNamed(items[..i + 1]) == ModesNamed(items[..i]) + {ModeOf(items[i]).value} by {
        var prefix := items[..i + 1];
        forall m | m in ModesNamed(prefix) ensures m in ModesNamed(items[..i]) + {ModeOf(items[i]).value} {
          var j :| 0 <= j < i + 1 && ModeOf(prefix[j]).Some? && ModeOf(prefix[j]).value == m;
          if j < i { assert prefix[j] == items[..i][j]; }
        }
        assert prefix[i] == items[i];
      }
    }
    assert items[..|items|] == items;
    return Ok(modes);
  }

  /** A successful parse is a non-empty set of modes. */
  lemma CrawlModesNonEmpty(value: string)
    requires CrawlModes(value).Ok?
    ensures CrawlModes(value).value != {}
  {
    var items := ModeItems(Split(value, ','));
    assert ModeOf(items[0]).value in ModesNamed(items);
  }

  /** `index` is selected exactly when an item reads `index`, and `entries`
      exactly when an item reads `entries` or `kanji_entries`. */
  lemma CrawlModesMembers(value: string)
    requires CrawlModes(value).Ok?
    ensures var items := ModeItems(Split(value, ','));
      (Index in CrawlModes(value).value <==> "index" in items) &&
      (Entries in CrawlModes(value).value <==> "entries" in items || "kanji_entries" in items)
  {
    var items := ModeItems(Split(value, ','));
    var modes := CrawlModes(value).value;
    if Index in modes {
      var j :| 0 <= j < |items| && ModeOf(items[j]).Some? && ModeOf(items[j]).value == Index;
      assert items[j] == "index";
    }
    if "index" in items {
      var j :| 0 <= j < |items| && items[j] == "index";
      assert ModeOf(items[j]).value in modes;
    }
    if Entries in modes {
      var j :| 0 <= j < |items| && ModeOf(items[j]).Some? && ModeOf(items[j]).value == Entries;
      assert items[j] == "entries" || items[j] == "kanji_entries";
    }
    if "entries" in items || "kanji_entries" in items {
      var j :| 0 <= j < |items| && (items[j] == "entries" || items[j] == "kanji_entries");
      assert ModeOf(items[j]).value in modes;
    }
  }

  /** Each item is the lower-cased strip of one non-blank piece, in order. */
  lemma {:induction false} ModeItemsAreStrippedPieces(pieces: seq<string>, k: nat)
    requires k < |ModeItems(pieces)|
    ensures exists j :: 0 <= j < |pieces| && Strip(pieces[j]) != [] && ModeItems(pieces)[k] == Lower(Strip(pieces[j]))
  {
    var init := pieces[..|pieces| - 1];
    var rest := ModeItems(init);
    if k < |rest| {
      ModeItemsAreStrippedPieces(init, k);
      var j :| 0 <= j < |init| && Strip(init[j]) != [] && rest[k] == Lower(Strip(init[j]));
      assert pieces[j] == init[j];
    } else {
      assert ModeItems(pieces)[k] == Lower(Strip(pieces[|pieces| - 1]));
    }
  }

  /** No non-blank piece is dropped: one item per non-blank piece. */
  lemma {:induction false} ModeItemsKeepNonBlank(pieces: seq<string>, j: nat)
    requires j < |pieces| && Strip(pieces[j]) != []
    ensures Lower(Strip(pieces[j])) in ModeItems(pieces)
  {
    var init := pieces[..|pieces| - 1];
    if j < |pieces| - 1 {
      assert init[j] == pieces[j];
      ModeItemsKeepNonBlank(init, j);
    }
  }

  /** The possible runs of `main` once its checks pass. */
  datatype Run = CrawlIndex | CrawlEntriesFromDb | CrawlIndexFeedingQueue

  /** How `main` ends: an exit status, an uncaught exception, or a crawl
      (with whether the `--kanji-only` warning was printed). */
  datatype MainOutcome = Exit(status: int) | Raised(message: string) | Ran(run: Run, kanjiOnlyWarning: bool)

  /** The branch `main` takes for a set of modes; `None` is the final
      "invalid crawl mode selection" branch. */
  function Dispatch(modes: set<Mode>): Option<Run> {
    if modes == {Index} then Some(CrawlIndex)
    else if modes == {Entries} then Some(CrawlEntriesFromDb)
    else if modes == {Index, Entries} then Some(CrawlIndexFeedingQueue)
    else None
  }

  /** `main` of the crawler, from the `--crawl`, `--start`, `--end`, `--table`
      and `--kanji-only` arguments; `crawl == None` is the default `index`.
      A `--crawl` value that does not parse makes argparse exit with status 2. */
  function CrawlerMain(crawl: Option<string>, start: int, end: int, table: string, kanjiOnly: bool): MainOutcome {
    var parsed := if crawl.Some? then CrawlModes(crawl.value) else CrawlModes("index");
    if parsed.Err? then Exit(2)
    else if start < 1 || end < 1 then Exit(2)
    else if start > end then Exit(2)
    else
      var warn := Index !in parsed.value && kanjiOnly;
      var checked := TableNames.ValidateTableName(table);
      if checked.Err? then MainOutcome.Raised(checked.message)
      else
        var run := Dispatch(parsed.value);
        if run.Some? then Ran(run.value, warn) else Exit(2)
  }

  /** Every parse result has a branch: the "invalid crawl mode selection"
      branch of `main` cannot be reached. */
  lemma DispatchTotal(value: string)
    requires CrawlModes(value).Ok?
    ensures Dispatch(CrawlModes(value).value).Some?
  {
    var modes := CrawlModes(value).value;
    CrawlModesNonEmpty(value);
    assert modes <= {Index, Entries} by {
      forall m | m in modes ensures m in {Index, Entries} { }
    }
    if Index in modes {
      assert modes == {Index} || modes == {Index, Entries};
    } else {
      var m :| m in modes;
      assert modes == {Entries};
    }
  }

  /** With a parsable `--crawl` value, `main` exits with status 2 exactly when
      the pages are not `1 <= start <= end`; otherwise it raises on a bad table
      name or runs a crawl. */
  lemma CrawlerMainExitStatus(crawl: Option<string>, start: int, end: int, table: string, kanjiOnly: bool)
    requires (if crawl.Some? then CrawlModes(crawl.value) else CrawlModes("index")).Ok?
    ensures CrawlerMain(crawl, start, end, table, kanjiOnly) == Exit(2) <==> !(1 <= start <= end)
    ensures 1 <= start <= end ==>
      (CrawlerMain(crawl, start, end, table, kanjiOnly).Raised? <==> !TableNames.IsIdentifier(table))
  {
    DispatchTotal(if crawl.Some? then crawl.value else "index");
  }

  /** The default `--crawl` value selects the index crawl alone. */
  lemma DefaultCrawlIsIndex()
    ensures CrawlModes("index") == Ok({Index})
  {
    var pieces := Split("index", ',');
    SplitWithoutSeparator("index", ',');
    assert pieces == ["index"];
    assert Strip("index") == "index" by { StripTrimmed("index"); }
    assert Lower("index") == "index" by { LowerIsWord("index", "index"); }
    var items := ModeItems(pieces);
    assert items == ["index"];
    assert ModesNamed(items) == {Index};
  }
}
