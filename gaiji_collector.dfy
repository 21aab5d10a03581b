/**
 * `collect_gaiji_images.py`: for the kanji entries whose keyword holds no
 * ideograph (the headword itself is an image on the entry page), fetch the
 * page, read the gaiji image's `src` and record it in the gaiji table.
 */
module GaijiCollector {

  import opened Results
  import opened Strings
  import Urls
  import EntryDetails
  import IndexPage
  import EntryStore
  import TableNames
  import Ordering
  import opened GaijiStore

  // ---------------------------------------------------------------------
  // is_kana_only

  /** `KANJI_RE`: a character of the CJK Unified Ideographs block. */
  predicate IsKanji(c: char) {
    '\U{4E00}' <= c <= '\U{9FFF}'
  }

  /** `KANJI_RE.search(s)` from position `start`: where the first match is. */
  function SearchKanji(s: string, start: nat): (r: Option<nat>)
    requires start <= |s|
    ensures r.Some? ==> start <= r.value < |s| && IsKanji(s[r.value])
    decreases |s| - start
  {
    if start == |s| then None
    else if IsKanji(s[start]) then Some(start)
    else SearchKanji(s, start + 1)
  }

  /** `is_kana_only`: the search finds nothing. */
  predicate IsKanaOnly(keyword: string) {
    SearchKanji(keyword, 0).None?
  }

  /** The search finds the first ideograph, and finds none exactly when there is none. */
  lemma {:induction false} SearchKanjiFirst(s: string, start: nat)
    requires start <= |s|
    ensures SearchKanji(s, start).None? <==> forall i :: start <= i < |s| ==> !IsKanji(s[i])
    ensures SearchKanji(s, start).Some? ==> forall i :: start <= i < SearchKanji(s, start).value ==> !IsKanji(s[i])
    decreases |s| - start
  {
    if start < |s| && !IsKanji(s[start]) {
      SearchKanjiFirst(s, start + 1);
    }
  }

  /** A keyword is "kana only" exactly when none of its characters lies in
      U+4E00..U+9FFF; so the empty keyword is. */
  lemma KanaOnlyIff(keyword: string)
    ensures IsKanaOnly(keyword) <==> forall i :: 0 <= i < |keyword| ==> !IsKanji(keyword[i])
    ensures IsKanaOnly("")
  {
    SearchKanjiFirst(keyword, 0);
  }

  // ---------------------------------------------------------------------
  // normalize_image_src (the collector's variant)

  /** The collector's `normalize_image_src`: an `http`/`https` URL becomes its
      path and query; anything else, a protocol-relative `//...` included, is
      kept as it is. */
  function NormalizeImageSrc(src: string): (r: string)
    ensures !Urls.IsWebUrl(src) ==> r == src
  {
    if Urls.IsWebUrl(src) then Urls.PathAndQuery(src) else src
  }

  /** A URL's source becomes its path, with `?query` only when the query is not empty. */
  lemma NormalizeImageSrcOfUrl(src: string, scheme: string, host: string, path: string, query: string, hasMark: bool)
    requires scheme == "http" || scheme == "https"
    requires Urls.IsPlainHost(host) && Urls.IsPlainPath(path) && Urls.IsPlainQuery(query)
    requires !hasMark ==> query == ""
    requires src == scheme + "://" + host + path + (if hasMark then "?" + query else "")
    ensures NormalizeImageSrc(src) == if query != "" then path + "?" + query else path
  {
    Urls.PathAndQueryOfParts(src, scheme, host, path, query, hasMark);
  }

  /** The two scripts' variants agree except on protocol-relative sources. */
  lemma AgreesWithCrawler(src: string)
    requires !StartsWith(src, "//")
    ensures NormalizeImageSrc(src) == EntryDetails.NormalizeImageSrc(src)
  {
    if Urls.IsWebUrl(src) {
      EntryDetails.ImageUrlOfWebUrl(src);
      EntryDetails.NormalizeImageSrcOfImageUrl(src);
    }
  }

  /** On a protocol-relative source they differ: the collector keeps it, the
      crawler reads it as an `https:` URL. */
  lemma ProtocolRelativeKept(src: string)
    requires StartsWith(src, "//")
    ensures NormalizeImageSrc(src) == src
    ensures EntryDetails.NormalizeImageSrc(src) == EntryDetails.NormalizeImageSrc("https:" + src)
  {
    NotWebUrl(src);
    EntryDetails.NormalizeImageSrcOfRelative(src);
  }

  lemma NotWebUrl(src: string)
    requires StartsWith(src, "//")
    ensures !Urls.IsWebUrl(src)
  {
    assert src[0] == '/';
    assert "http://"[0] == 'h' && "https://"[0] == 'h';
  }

  /** `fetch_image_src` once the page is fetched: `images` holds the `src`
      attribute (if any) of each node the image path selects; `None` when
      there is no node or its `src` is missing or empty. */
  function FetchImageSrc(images: seq<Option<string>>): (r: Option<string>)
    ensures r.Some? <==> images != [] && images[0].Some? && images[0].value != ""
    ensures r.Some? ==> r.value == NormalizeImageSrc(images[0].value)
  {
    if images == [] then None
    else if images[0].None? || images[0].value == "" then None
    else Some(NormalizeImageSrc(images[0].value))
  }

  /** `fetch_image_src` with the page request as an input: `pages(href)` is
      the `src` attributes the image path selects, or `None` when the request
      raised. This is the fetch the collection loop below is given. */
  function FetchImage(pages: string -> Option<seq<Option<string>>>): string -> Option<Option<string>> {
    href =>
      match pages(href)
      case None => None
      case Some(images) => Some(FetchImageSrc(images))
  }

  // ---------------------------------------------------------------------
  // The selection query

  /** A row of `SELECT id, keyword, href ...`. */
  datatype Candidate = Candidate(id: int, keyword: string, href: string)

  /** `(? = 0 OR id >= ?) AND (? = 0 OR id <= ?)`: a zero bound is no bound. */
  predicate InRange(id: int, startId: int, endId: int) {
    (startId == 0 || id >= startId) && (endId == 0 || id <= endId)
  }

  /** The ids the query selects: kanji rows within the range. */
  function Selected(entries: map<int, EntryStore.EntryRow>, startId: int, endId: int): set<int> {
    set id | id in entries && entries[id].kind == IndexPage.KanjiType && InRange(id, startId, endId)
  }

  function Ids(cands: seq<Candidate>): (ids: seq<int>)
    ensures |ids| == |cands|
  {
    seq(|cands|, k requires 0 <= k < |cands| => cands[k].id)
  }

  /** The query with `ORDER BY id`: the selected rows, ascending by id. */
  method SelectCandidates(entries: map<int, EntryStore.EntryRow>, startId: int, endId: int) returns (cands: seq<Candidate>)
    ensures Ordering.Increasing(Ids(cands))
    ensures forall id :: id in Ids(cands) <==> id in Selected(entries, startId, endId)
    ensures forall k :: 0 <= k < |cands| ==>
      (cands[k].id in entries &&
       cands[k] == Candidate(cands[k].id, entries[cands[k].id].keyword, entries[cands[k].id].href))
  {
    var ids := Ordering.SortedKeys(Selected(entries, startId, endId));
    assert forall k :: 0 <= k < |ids| ==> ids[k] in entries by {
      forall k | 0 <= k < |ids| ensures ids[k] in entries {
        assert ids[k] in ids;
      }
    }
    cands := seq(|ids|, k requires 0 <= k < |ids| => Candidate(ids[k], entries[ids[k]].keyword, entries[ids[k]].href));
    assert Ids(cands) == ids;
  }

  // ---------------------------------------------------------------------
  // The collection loop

  /** The loop's state: the gaiji table, its three counters, and whether the
      limit stopped it. */
  datatype Collection = Collection(rows: map<int, GaijiRow>, processed: nat, inserted: nat, skipped: nat, stopped: bool)

  function Begin(rows: map<int, GaijiRow>): Collection {
    Collection(rows, 0, 0, 0, false)
  }

  /** One candidate: the limit check, the kana-only filter, the fetch and the
      upsert. `fetch(href)` is what `fetch_image_src` returns for the href,
      `None` when its request raised. */
  function CollectStep(c: Collection, cand: Candidate, limit: int, fetch: string -> Option<Option<string>>): Collection {
    if c.stopped then c
    else if limit != 0 && c.processed >= limit then c.(stopped := true)
    else if !IsKanaOnly(cand.keyword) then c
    else
      var counted := c.(processed := c.processed + 1);
      match fetch(cand.href)
      case None => counted.(skipped := c.skipped + 1)
      case Some(src) =>
        if src.None? || src.value == "" then counted.(skipped := c.skipped + 1)
        else counted.(rows := UpsertGaiji(c.rows, cand.id, src.value), inserted := c.inserted + 1)
  }

  /** The loop over the candidates, in order. */
  function Collect(c: Collection, cands: seq<Candidate>, limit: int, fetch: string -> Option<Option<string>>): Collection {
    if cands == [] then c else CollectStep(Collect(c, cands[..|cands| - 1], limit, fetch), cands[|cands| - 1], limit, fetch)
  }

  lemma CollectSnoc(c: Collection, cands: seq<Candidate>, cand: Candidate, limit: int, fetch: string -> Option<Option<string>>)
    ensures Collect(c, cands + [cand], limit, fetch) == CollectStep(Collect(c, cands, limit, fetch), cand, limit, fetch)
  {
    assert (cands + [cand])[..|cands|] == cands;
  }

  /** What the counters promise: every processed entry was inserted or
      skipped; the loop stops only on a non-zero limit it has reached; with a
      positive limit it processes at most that many, with a negative one none. */
  predicate Counted(c: Collection, limit: int) {
    c.processed == c.inserted + c.skipped &&
    (c.stopped ==> limit != 0 && c.processed >= limit) &&
    (limit > 0 ==> c.processed <= limit) &&
    (limit < 0 ==> c.processed == 0)
  }

  lemma {:induction false} CollectCounted(rows: map<int, GaijiRow>, cands: seq<Candidate>, limit: int,
                                          fetch: string -> Option<Option<string>>)
    ensures Counted(Collect(Begin(rows), cands, limit, fetch), limit)
  {
    if cands != [] {
      CollectCounted(rows, cands[..|cands| - 1], limit, fetch);
    }
  }

  /** The counters and the table: what a run leaves behind. */
  function Outcome(c: Collection): (map<int, GaijiRow>, nat, nat, nat) {
    (c.rows, c.processed, c.inserted, c.skipped)
  }

  function KanaCandidate(cand: Candidate): Option<Candidate> {
    if IsKanaOnly(cand.keyword) then Some(cand) else None
  }

  /** A run over all candidates and a run over the kana-only ones agree. */
  predicate SameRun(full: Collection, kana: Collection, limit: int) {
    Outcome(full) == Outcome(kana) &&
    (full.stopped ==> limit != 0 && kana.processed >= limit) &&
    (kana.stopped ==> full.stopped)
  }

  lemma StepSameRun(full: Collection, kana: Collection, cand: Candidate, limit: int, fetch: string -> Option<Option<string>>)
    requires SameRun(full, kana, limit)
    ensures SameRun(CollectStep(full, cand, limit, fetch),
                    if IsKanaOnly(cand.keyword) then CollectStep(kana, cand, limit, fetch) else kana, limit)
  {
    if !full.stopped && !kana.stopped && !(limit != 0 && full.processed >= limit) && IsKanaOnly(cand.keyword) {
      assert full.(stopped := false) == kana.(stopped := false);
    }
  }

  /** Entries with an ideograph in their keyword are passed over without
      being counted: the run ends as a run over the kana-only entries alone
      would. */
  lemma {:induction false} CollectIgnoresNonKana(rows: map<int, GaijiRow>, cands: seq<Candidate>, limit: int,
                                                 fetch: string -> Option<Option<string>>)
    ensures SameRun(Collect(Begin(rows), cands, limit, fetch),
                    Collect(Begin(rows), FilterMap(cands, KanaCandidate), limit, fetch), limit)
  {
    if cands != [] {
      var init := cands[..|cands| - 1];
      var last := cands[|cands| - 1];
      CollectIgnoresNonKana(rows, init, limit, fetch);
      assert cands == init + [last];
      FilterMapAppend(init, [last], KanaCandidate);
      var kana := FilterMap(init, KanaCandidate);
      StepSameRun(Collect(Begin(rows), init, limit, fetch), Collect(Begin(rows), kana, limit, fetch), last, limit, fetch);
      if IsKanaOnly(last.keyword) {
        assert FilterMap([last], KanaCandidate) == [last];
        CollectSnoc(Begin(rows), kana, last, limit, fetch);
      } else {
        assert FilterMap([last], KanaCandidate) == [];
        assert kana + [] == kana;
      }
    }
  }

  /** A transcription recorded before the run is still there after it; rows
      the run adds have none; and only candidates' ids are touched. */
  predicate KeepsTranscriptions(start: map<int, GaijiRow>, rows: map<int, GaijiRow>, ids: set<int>) {
    start.Keys <= rows.Keys &&
    (forall id :: id in start ==> rows[id].gaijiChar == start[id].gaijiChar) &&
    (forall id :: id in rows && id !in start ==> rows[id].gaijiChar.None?) &&
    (forall id :: id in rows && id !in ids ==> id in start && rows[id] == start[id])
  }

  function CandidateIds(cands: seq<Candidate>): set<int> {
    set k | 0 <= k < |cands| :: cands[k].id
  }

  lemma StepKeepsTranscriptions(start: map<int, GaijiRow>, c: Collection, cand: Candidate, ids: set<int>, limit: int,
                                 fetch: string -> Option<Option<string>>)
    requires KeepsTranscriptions(start, c.rows, ids) && cand.id in ids
    ensures KeepsTranscriptions(start, CollectStep(c, cand, limit, fetch).rows, ids)
  {
    var rows := CollectStep(c, cand, limit, fetch).rows;
    if rows != c.rows {
      var src :| rows == UpsertGaiji(c.rows, cand.id, src);
      forall id | id in c.rows && id != cand.id ensures rows[id] == c.rows[id] {
        UpsertGaijiOthers(c.rows, cand.id, src, id);
      }
    }
  }

  lemma {:induction false} CollectKeepsTranscriptionsIn(rows: map<int, GaijiRow>, cands: seq<Candidate>, ids: set<int>, limit: int,
                                                        fetch: string -> Option<Option<string>>)
    requires forall k :: 0 <= k < |cands| ==> cands[k].id in ids
    ensures KeepsTranscriptions(rows, Collect(Begin(rows), cands, limit, fetch).rows, ids)
  {
    if cands != [] {
      var init := cands[..|cands| - 1];
      assert forall k :: 0 <= k < |init| ==> init[k] == cands[k];
      CollectKeepsTranscriptionsIn(rows, init, ids, limit, fetch);
      StepKeepsTranscriptions(rows, Collect(Begin(rows), init, limit, fetch), cands[|cands| - 1], ids, limit, fetch);
    }
  }

  lemma CollectKeepsTranscriptions(rows: map<int, GaijiRow>, cands: seq<Candidate>, limit: int,
                                   fetch: string -> Option<Option<string>>)
    ensures KeepsTranscriptions(rows, Collect(Begin(rows), cands, limit, fetch).rows, CandidateIds(cands))
  {
    CollectKeepsTranscriptionsIn(rows, cands, CandidateIds(cands), limit, fetch);
  }

  /** The loop of `main` over the query's rows, writing the gaiji table;
      returns the three counters. */
  method CollectImages(table: GaijiTable, cands: seq<Candidate>, limit: int, fetch: string -> Option<Option<string>>)
    returns (processed: nat, inserted: nat, skipped: nat)
    modifies table
    ensures Outcome(Collect(Begin(old(table.rows)), cands, limit, fetch)) == (table.rows, processed, inserted, skipped)
  {
    ghost var start := Begin(table.rows);
    ghost var c := start;
    processed, inserted, skipped := 0, 0, 0;
    var i := 0;
    while i < |cands|
      invariant 0 <= i <= |cands|
      invariant c == Collect(start, cands[..i], limit, fetch) && !c.stopped
      invariant table.rows == c.rows && processed == c.processed && inserted == c.inserted && skipped == c.skipped
    {
      CollectSnoc(start, cands[..i], cands[i], limit, fetch);
      assert cands[..i + 1] == cands[..i] + [cands[i]];
      var cand := cands[i];
      c := CollectStep(c, cand, limit, fetch);
      i := i + 1;
      if limit != 0 && processed >= limit {
        CollectAfterStop(start, cands[..i], cands[i..], limit, fetch);
        assert cands[..i] + cands[i..] == cands;
        break;
      }
      if !IsKanaOnly(cand.keyword) {
        continue;
      }
      processed := processed + 1;
      var fetched := fetch(cand.href);
      if fetched.None? {
        skipped := skipped + 1;
        continue;
      }
      var imageSrc := fetched.value;
      if imageSrc.None? || imageSrc.value == "" {
        skipped := skipped + 1;
        continue;
      }
      table.Upsert(cand.id, imageSrc.value);
      inserted := inserted + 1;
    }
    if i == |cands| {
      assert cands[..i] == cands;
    }
  }

  /** Once the limit has stopped the loop, later candidates change nothing. */
  lemma {:induction false} CollectAfterStop(c: Collection, cands: seq<Candidate>, rest: seq<Candidate>, limit: int,
                                            fetch: string -> Option<Option<string>>)
    requires Collect(c, cands, limit, fetch).stopped
    ensures Collect(c, cands + rest, limit, fetch) == Collect(c, cands, limit, fetch)
    decreases |rest|
  {
    if rest == [] {
      assert cands + rest == cands;
    } else {
      var init := rest[..|rest| - 1];
      CollectAfterStop(c, cands, init, limit, fetch);
      assert cands + rest == (cands + init) + [rest[|rest| - 1]];
      CollectSnoc(c, cands + init, rest[|rest| - 1], limit, fetch);
    }
  }

  /** `main`: both table names are checked, a missing database file exits
      with 2, and otherwise the candidates of the range are collected.
      `dbExists` stands for the file test and `entries` for the entries table. */
  method CollectorMain(entriesTable: string, gaijiTable: string, dbExists: bool,
                       entries: map<int, EntryStore.EntryRow>, table: GaijiTable,
                       limit: int, startId: int, endId: int, fetch: string -> Option<Option<string>>)
    returns (exit: ScriptExit)
    modifies table
    ensures TableNames.ValidateTableName(entriesTable).Err? || TableNames.ValidateTableName(gaijiTable).Err? ==>
      exit == Raised(TableNames.TableNameError) && table.rows == old(table.rows)
    ensures TableNames.ValidateTableName(entriesTable).Ok? && TableNames.ValidateTableName(gaijiTable).Ok? && !dbExists ==>
      exit == Status(2) && table.rows == old(table.rows)
    ensures TableNames.ValidateTableName(entriesTable).Ok? && TableNames.ValidateTableName(gaijiTable).Ok? && dbExists ==>
      exit == Status(0) &&
      exists cands: seq<Candidate> :: table.rows == Collect(Begin(old(table.rows)), cands, limit, fetch).rows &&
        Ordering.Increasing(Ids(cands)) &&
        (forall id :: id in Ids(cands) <==> id in Selected(entries, startId, endId)) &&
        (forall k :: 0 <= k < |cands| ==>
          (cands[k].id in entries &&
           cands[k] == Candidate(cands[k].id, entries[cands[k].id].keyword, entries[cands[k].id].href)))
  {
    var checkedEntries := TableNames.ValidateTableName(entriesTable);
    if checkedEntries.Err? {
      return Raised(checkedEntries.message);
    }
    var checkedGaiji := TableNames.ValidateTableName(gaijiTable);
    if checkedGaiji.Err? {
      return Raised(checkedGaiji.message);
    }
    if !dbExists {
      return Status(2);
    }
    var cands := SelectCandidates(entries, startId, endId);
    var processed, inserted, skipped := CollectImages(table, cands, limit, fetch);
    return Status(0);
  }
}
