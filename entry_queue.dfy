/**
 * The producer/consumer run of the Kotobank crawler
 * (scripts/scrape_kotobank_jitsu.py): the index crawl puts the kanji
 * entries it finds on a queue, `main` puts the `(-1, "")` sentinel after
 * it, and `crawl_entry_pages_from_queue` takes items off the queue and
 * fills in the entry details. The queue is the finite sequence of items
 * the consumer takes, in order.
 */
module EntryQueue {

  import opened Results
  import IndexPage
  import EntryDetails
  import opened EntryStore

  /** A queue item: an entry id and the href the index page gave for it. */
  datatype QueueItem = QueueItem(id: int, href: string)

  /** `SENTINEL`, the item that ends the consumer. */
  const Sentinel: QueueItem := QueueItem(-1, "")

  // ---------------------------------------------------------------------
  // Producer side: crawl_index_pages with a queue

  /** The item the index crawl puts on the queue for an entry: kanji entries only. */
  function KanjiItem(e: IndexPage.IndexEntry): Option<QueueItem> {
    if e.kind == IndexPage.KanjiType then Some(QueueItem(e.id, e.href)) else None
  }

  /** The items the index crawl puts on the queue for a page's entries, in order. */
  function KanjiItems(entries: seq<IndexPage.IndexEntry>): seq<QueueItem> {
    FilterMap(entries, e => KanjiItem(e))
  }

  /** Every queued item is a kanji entry of the page and never looks like the
      sentinel, since entry ids are natural numbers. */
  lemma KanjiItemsAreEntries(entries: seq<IndexPage.IndexEntry>, k: nat)
    requires k < |KanjiItems(entries)|
    ensures exists j :: (0 <= j < |entries| && entries[j].kind == IndexPage.KanjiType &&
                         KanjiItems(entries)[k] == QueueItem(entries[j].id, entries[j].href))
    ensures KanjiItems(entries)[k] != Sentinel
  {
    FilterMapFrom(entries, e => KanjiItem(e), k);
  }

  /** No queued item is the sentinel. */
  lemma KanjiItemsNoSentinel(entries: seq<IndexPage.IndexEntry>)
    ensures Sentinel !in KanjiItems(entries)
  {
    if Sentinel in KanjiItems(entries) {
      var k :| 0 <= k < |KanjiItems(entries)| && KanjiItems(entries)[k] == Sentinel;
      KanjiItemsAreEntries(entries, k);
    }
  }

  // ---------------------------------------------------------------------
  // Consumer side: crawl_entry_pages_from_queue

  /** `fetch_entry_details` with the page request as an input: `pages(href)`
      is the parsed entry page, or `None` when the request raised. The
      consumer below takes the fetch as a function `fetch` of the href;
      this is the one the crawler uses. */
  function FetchEntryDetails(pages: string -> Option<EntryDetails.EntryPage>): string -> Option<EntryDetails.Details> {
    href =>
      match pages(href)
      case None => None
      case Some(page) => Some(EntryDetails.FetchedDetails(page))
  }

  /** The details the crawler stores are normalized text, and a failed request stores nothing. */
  lemma FetchEntryDetailsNormalized(pages: string -> Option<EntryDetails.EntryPage>, href: string)
    ensures FetchEntryDetails(pages)(href).None? <==> pages(href).None?
    ensures FetchEntryDetails(pages)(href).Some? ==>
      var d := FetchEntryDetails(pages)(href).value;
      EntryDetails.Normalized(d.jion) && EntryDetails.Normalized(d.jikun) && EntryDetails.Normalized(d.jikei)
  {
  }

  /** `row["href"] or href`: the table's href unless it is empty. */
  function EntryHref(row: EntryRow, item: QueueItem): string {
    if row.href != "" then row.href else item.href
  }

  /** What the consumer does with one item. */
  datatype Outcome =
    | Stop            // the sentinel
    | Duplicate       // the id was taken before
    | NotKanji        // no row, or not a kanji row
    | Filled          // every detail column already set
    | NoHref          // neither the row nor the item has an href
    | FetchFailed     // the entry page request raised
    | Updated(details: EntryDetails.Details)

  /** The checks of the consumer loop, in the order it makes them. */
  function Classify(rows: map<int, EntryRow>, seen: set<int>, item: QueueItem,
                    fetch: string -> Option<EntryDetails.Details>): Outcome {
    if item == Sentinel then Stop
    else if item.id in seen then Duplicate
    else if item.id !in rows || rows[item.id].kind != IndexPage.KanjiType then NotKanji
    else if !ShouldProcessRow(rows[item.id]) then Filled
    else
      var href := EntryHref(rows[item.id], item);
      if href == "" then NoHref
      else match fetch(href)
        case None => FetchFailed
        case Some(d) => Updated(d)
  }

  /** The outcomes the consumer counts as skipped. */
  predicate IsSkip(o: Outcome) {
    o.Duplicate? || o.NotKanji? || o.Filled? || o.NoHref?
  }

  /** The consumer's state: the table, the `seen` set, the ids it looked up
      in the table (in order), its counters, the number of items taken
      and of `task_done` calls, and whether it has met the sentinel. */
  datatype Consumer = Consumer(
    rows: map<int, EntryRow>, seen: set<int>, looked: seq<int>,
    processed: nat, skipped: nat, failed: nat,
    taken: nat, tasksDone: nat, stopped: bool)

  function Start(rows: map<int, EntryRow>): Consumer {
    Consumer(rows, {}, [], 0, 0, 0, 0, 0, false)
  }

  /** One item taken off the queue; nothing more is taken after the sentinel. */
  function Step(c: Consumer, item: QueueItem, fetch: string -> Option<EntryDetails.Details>): Consumer {
    if c.stopped then c
    else
      var o := Classify(c.rows, c.seen, item, fetch);
      var next := c.(taken := c.taken + 1, tasksDone := c.tasksDone + 1);
      match o
      case Stop => next.(stopped := true)
      case Duplicate => next.(skipped := c.skipped + 1)
      case FetchFailed => next.(seen := c.seen + {item.id}, looked := c.looked + [item.id], failed := c.failed + 1)
      case Updated(d) =>
        next.(seen := c.seen + {item.id}, looked := c.looked + [item.id],
              rows := UpdatedDetails(c.rows, item.id, d), processed := c.processed + 1)
      case _ => next.(seen := c.seen + {item.id}, looked := c.looked + [item.id], skipped := c.skipped + 1)
  }

  /** The consumer after the items, in order. */
  function Consume(c: Consumer, items: seq<QueueItem>, fetch: string -> Option<EntryDetails.Details>): Consumer {
    if items == [] then c else Step(Consume(c, items[..|items| - 1], fetch), items[|items| - 1], fetch)
  }

  /** A step adds one to `skipped` exactly when the item is classified as a
      skip, and a skipped item changes no row and no other counter. */
  lemma StepSkipped(c: Consumer, item: QueueItem, fetch: string -> Option<EntryDetails.Details>)
    ensures var skip := !c.stopped && IsSkip(Classify(c.rows, c.seen, item, fetch));
      Step(c, item, fetch).skipped == (if skip then c.skipped + 1 else c.skipped)
    ensures !c.stopped && IsSkip(Classify(c.rows, c.seen, item, fetch)) ==>
      var n := Step(c, item, fetch);
      n.rows == c.rows && n.processed == c.processed && n.failed == c.failed && !n.stopped &&
      n.taken == c.taken + 1
  {
  }

  lemma ConsumeSnoc(c: Consumer, items: seq<QueueItem>, item: QueueItem, fetch: string -> Option<EntryDetails.Details>)
    ensures Consume(c, items + [item], fetch) == Step(Consume(c, items, fetch), item, fetch)
  {
    assert (items + [item])[..|items|] == items;
  }

  /** Once the sentinel has been taken, later items change nothing. */
  lemma {:induction false} ConsumeAfterStop(c: Consumer, items: seq<QueueItem>, rest: seq<QueueItem>,
                                            fetch: string -> Option<EntryDetails.Details>)
    requires Consume(c, items, fetch).stopped
    ensures Consume(c, items + rest, fetch) == Consume(c, items, fetch)
    decreases |rest|
  {
    if rest == [] {
      assert items + rest == items;
    } else {
      var init := rest[..|rest| - 1];
      ConsumeAfterStop(c, items, init, fetch);
      assert items + rest == (items + init) + [rest[|rest| - 1]];
      ConsumeSnoc(c, items + init, rest[|rest| - 1], fetch);
    }
  }

  /** Before the sentinel, every item is taken. */
  lemma {:induction false} ConsumeTakesAll(c: Consumer, items: seq<QueueItem>, fetch: string -> Option<EntryDetails.Details>)
    requires !c.stopped && Sentinel !in items
    ensures !Consume(c, items, fetch).stopped
    ensures Consume(c, items, fetch).taken == c.taken + |items|
  {
    if items != [] {
      var init := items[..|items| - 1];
      assert Sentinel !in init;
      ConsumeTakesAll(c, init, fetch);
    }
  }

  /** The consumer stops at the first sentinel: it has taken the items up to
      and including it, and nothing after it matters. */
  lemma ConsumeStopsAtSentinel(c: Consumer, items: seq<QueueItem>, k: nat, fetch: string -> Option<EntryDetails.Details>)
    requires !c.stopped
    requires k < |items| && items[k] == Sentinel && Sentinel !in items[..k]
    ensures Consume(c, items, fetch) == Consume(c, items[..k + 1], fetch)
    ensures Consume(c, items, fetch).stopped
    ensures Consume(c, items, fetch).taken == c.taken + k + 1
  {
    ConsumeTakesAll(c, items[..k], fetch);
    assert items[..k + 1] == items[..k] + [Sentinel];
    ConsumeSnoc(c, items[..k], Sentinel, fetch);
    assert items == items[..k + 1] + items[k + 1..];
    ConsumeAfterStop(c, items[..k + 1], items[k + 1..], fetch);
  }

  predicate Distinct(s: seq<int>) {
    forall i, j :: 0 <= i < j < |s| ==> s[i] != s[j]
  }

  /** What holds of the consumer after every item:
      - `task_done` has been called once per item taken;
      - every item taken was the sentinel, or was skipped, processed or failed;
      - the ids looked up in the table are the `seen` set, each looked up once. */
  predicate Accounted(c: Consumer) {
    c.tasksDone == c.taken &&
    c.processed + c.skipped + c.failed + (if c.stopped then 1 else 0) == c.taken &&
    Distinct(c.looked) &&
    (forall x :: x in c.looked ==> x in c.seen) &&
    (forall x :: x in c.seen ==> x in c.looked)
  }

  lemma StepAccounted(c: Consumer, item: QueueItem, fetch: string -> Option<EntryDetails.Details>)
    requires Accounted(c)
    ensures Accounted(Step(c, item, fetch))
  {
    if !c.stopped {
      var o := Classify(c.rows, c.seen, item, fetch);
      if !o.Stop? && !o.Duplicate? {
        var looked := c.looked + [item.id];
        assert item.id !in c.looked;
        assert forall i :: 0 <= i < |c.looked| ==> looked[i] == c.looked[i];
      }
    }
  }

  /** The counters and the `seen` set are accounted for after any items. */
  lemma {:induction false} ConsumeAccounted(rows: map<int, EntryRow>, items: seq<QueueItem>,
                                            fetch: string -> Option<EntryDetails.Details>)
    ensures Accounted(Consume(Start(rows), items, fetch))
  {
    if items != [] {
      ConsumeAccounted(rows, items[..|items| - 1], fetch);
      StepAccounted(Consume(Start(rows), items[..|items| - 1], fetch), items[|items| - 1], fetch);
    }
  }

  /** A row the consumer changed was a kanji row that needed its details; it
      no longer does, it keeps its index columns, and no row appears or goes. */
  predicate OnlyFillsNeeded(start: map<int, EntryRow>, rows: map<int, EntryRow>) {
    rows.Keys == start.Keys &&
    forall id :: id in rows && rows[id] != start[id] ==>
      start[id].kind == IndexPage.KanjiType && ShouldProcessRow(start[id]) && !ShouldProcessRow(rows[id]) &&
      rows[id].keyword == start[id].keyword && rows[id].href == start[id].href && rows[id].kind == start[id].kind
  }

  lemma StepOnlyFillsNeeded(start: map<int, EntryRow>, c: Consumer, item: QueueItem,
                            fetch: string -> Option<EntryDetails.Details>)
    requires OnlyFillsNeeded(start, c.rows)
    ensures OnlyFillsNeeded(start, Step(c, item, fetch).rows)
  {
    if !c.stopped {
      var o := Classify(c.rows, c.seen, item, fetch);
      if o.Updated? {
        var id := item.id;
        UpdatedRowIsDone(c.rows, id, o.details);
        var rows := UpdatedDetails(c.rows, id, o.details);
        assert rows[id] != start[id] by {
          assert ShouldProcessRow(c.rows[id]);
        }
        forall other | other in c.rows && other != id ensures rows[other] == c.rows[other] {
          UpdatedDetailsOthers(c.rows, id, o.details, other);
        }
      }
    }
  }

  /** The consumer only ever fills rows that were kanji rows needing details. */
  lemma {:induction false} ConsumeOnlyFillsNeeded(rows: map<int, EntryRow>, items: seq<QueueItem>,
                                                  fetch: string -> Option<EntryDetails.Details>)
    ensures OnlyFillsNeeded(rows, Consume(Start(rows), items, fetch).rows)
  {
    if items != [] {
      ConsumeOnlyFillsNeeded(rows, items[..|items| - 1], fetch);
      StepOnlyFillsNeeded(rows, Consume(Start(rows), items[..|items| - 1], fetch), items[|items| - 1], fetch);
    }
  }

  /** The whole run with both modes: the kanji items of the index crawl, then
      the sentinel. The consumer takes all of them and ends on the sentinel. */
  lemma IndexThenSentinel(rows: map<int, EntryRow>, entries: seq<IndexPage.IndexEntry>,
                          fetch: string -> Option<EntryDetails.Details>)
    ensures var items := KanjiItems(entries) + [Sentinel];
      var c := Consume(Start(rows), items, fetch);
      c.stopped && c.taken == |items| && c.tasksDone == |items|
  {
    var queued := KanjiItems(entries);
    var items := queued + [Sentinel];
    KanjiItemsNoSentinel(entries);
    assert items[..|queued|] == queued;
    ConsumeStopsAtSentinel(Start(rows), items, |queued|, fetch);
    assert items[..|queued| + 1] == items;
    ConsumeAccounted(rows, items, fetch);
  }

  /** `crawl_entry_pages_from_queue`, over the items it takes off the queue.
      Returns `processed`, `skipped`, the number of `task_done` calls and the
      number of items taken. */
  method ConsumeQueue(table: EntryTable, items: seq<QueueItem>, fetch: string -> Option<EntryDetails.Details>)
    returns (processed: nat, skipped: nat, tasksDone: nat, taken: nat)
    modifies table
    ensures var c := Consume(Start(old(table.rows)), items, fetch);
      table.rows == c.rows && processed == c.processed && skipped == c.skipped &&
      tasksDone == c.tasksDone && taken == c.taken
  {
    ghost var start := Start(table.rows);
    ghost var c := start;
    var seen: set<int> := {};
    processed, skipped, tasksDone, taken := 0, 0, 0, 0;
    var i := 0;
    while i < |items|
      invariant 0 <= i <= |items|
      invariant c == Consume(start, items[..i], fetch) && !c.stopped
      invariant table.rows == c.rows && seen == c.seen && processed == c.processed &&
        skipped == c.skipped && tasksDone == c.tasksDone && taken == c.taken
    {
      ConsumeSnoc(start, items[..i], items[i], fetch);
      assert items[..i + 1] == items[..i] + [items[i]];
      var item := items[i];
      c := Step(c, item, fetch);
      i := i + 1;
      taken := taken + 1;
      if item == Sentinel {
        tasksDone := tasksDone + 1;
        ConsumeAfterStop(start, items[..i], items[i..], fetch);
        assert items[..i] + items[i..] == items;
        break;
      }
      if item.id in seen {
        skipped := skipped + 1;
        tasksDone := tasksDone + 1;
        continue;
      }
      seen := seen + {item.id};
      if item.id !in table.rows || table.rows[item.id].kind != IndexPage.KanjiType {
        skipped := skipped + 1;
        tasksDone := tasksDone + 1;
        continue;
      }
      var row := table.rows[item.id];
      if !ShouldProcessRow(row) {
        skipped := skipped + 1;
        tasksDone := tasksDone + 1;
        continue;
      }
      var entryHref := if row.href != "" then row.href else item.href;
      if entryHref == "" {
        skipped := skipped + 1;
        tasksDone := tasksDone + 1;
        continue;
      }
      var fetched := fetch(entryHref);
      if fetched.None? {
        tasksDone := tasksDone + 1;
        continue;
      }
      table.UpdateDetails(item.id, fetched.value);
      processed := processed + 1;
      tasksDone := tasksDone + 1;
    }
    if i == |items| {
      assert items[..i] == items;
    }
  }
}
