/**
 * The crawler's entry table (scripts/scrape_kotobank_jitsu.py) as a map from
 * entry id to row, with the row-level effect of its two SQL statements:
 * the index upsert of `upsert_entries` and the detail update of
 * `update_entry_details`, and the "needs details" test `should_process_row`.
 */
module EntryStore {

  import opened Results
  import IndexPage
  import EntryDetails

  /** One row: the index columns, and the four detail columns, which are
      NULL until the entry page has been fetched. */
  datatype EntryRow = EntryRow(
    keyword: string, href: string, kind: string,
    gaijiImgSrc: Option<string>, jion: Option<string>, jikun: Option<string>, jikei: Option<string>)

  /** `should_process_row`: some detail column is still NULL. */
  predicate ShouldProcessRow(r: EntryRow) {
    r.gaijiImgSrc.None? || r.jion.None? || r.jikun.None? || r.jikei.None?
  }

  /** The detail columns of a row, together. */
  function DetailColumns(r: EntryRow): (Option<string>, Option<string>, Option<string>, Option<string>) {
    (r.gaijiImgSrc, r.jion, r.jikun, r.jikei)
  }

  /** The row-level effect of `INSERT ... ON CONFLICT(id) DO UPDATE SET
      keyword, href, type` for one entry. */
  function UpsertOne(rows: map<int, EntryRow>, e: IndexPage.IndexEntry): (r: map<int, EntryRow>)
    ensures r.Keys == rows.Keys + {e.id as int}
  {
    var id := e.id as int;
    if id in rows then rows[id := rows[id].(keyword := e.keyword, href := e.href, kind := e.kind)]
    else rows[id := EntryRow(e.keyword, e.href, e.kind, None, None, None, None)]
  }

  /** `executemany` of the upsert over a batch, entry after entry. */
  function UpsertAll(rows: map<int, EntryRow>, entries: seq<IndexPage.IndexEntry>): map<int, EntryRow> {
    if entries == [] then rows else UpsertOne(UpsertAll(rows, entries[..|entries| - 1]), entries[|entries| - 1])
  }

  /** The ids of a batch. */
  function BatchIds(entries: seq<IndexPage.IndexEntry>): set<int> {
    set i | 0 <= i < |entries| :: entries[i].id as int
  }

  /** The position of the last entry of the batch with id `id`, if any. */
  function LastEntryFor(entries: seq<IndexPage.IndexEntry>, id: int): (k: Option<nat>)
    ensures k.Some? ==> k.value < |entries| && entries[k.value].id as int == id
  {
    if entries == [] then None
    else if entries[|entries| - 1].id as int == id then Some(|entries| - 1)
    else LastEntryFor(entries[..|entries| - 1], id)
  }

  /** `LastEntryFor` finds an entry with no later one for the same id, and
      finds none exactly when the id is not in the batch. */
  lemma {:induction false} LastEntryIsLast(entries: seq<IndexPage.IndexEntry>, id: int)
    ensures LastEntryFor(entries, id).Some? ==>
      forall j :: LastEntryFor(entries, id).value < j < |entries| ==> entries[j].id as int != id
    ensures LastEntryFor(entries, id).None? <==> id !in BatchIds(entries)
  {
    if entries != [] {
      var init := entries[..|entries| - 1];
      assert forall j :: 0 <= j < |init| ==> init[j] == entries[j];
      if entries[|entries| - 1].id as int != id {
        LastEntryIsLast(init, id);
        assert BatchIds(entries) == BatchIds(init) + {entries[|entries| - 1].id as int} by {
          forall x | x in BatchIds(entries) ensures x in BatchIds(init) + {entries[|entries| - 1].id as int} {
            var i :| 0 <= i < |entries| && entries[i].id as int == x;
            if i < |init| { assert init[i] == entries[i]; }
          }
        }
      } else {
        assert entries[|entries| - 1].id as int in BatchIds(entries);
      }
    }
  }

  /** After the upsert, the table holds the old ids and the batch's ids. */
  lemma {:induction false} UpsertAllKeys(rows: map<int, EntryRow>, entries: seq<IndexPage.IndexEntry>)
    ensures UpsertAll(rows, entries).Keys == rows.Keys + BatchIds(entries)
  {
    if entries != [] {
      var init := entries[..|entries| - 1];
      UpsertAllKeys(rows, init);
      assert BatchIds(entries) == BatchIds(init) + {entries[|entries| - 1].id as int} by {
        forall x | x in BatchIds(entries) ensures x in BatchIds(init) + {entries[|entries| - 1].id as int} {
          var i :| 0 <= i < |entries| && entries[i].id as int == x;
          if i < |init| { assert init[i] == entries[i]; }
        }
        forall x | x in BatchIds(init) ensures x in BatchIds(entries) {
          var i :| 0 <= i < |init| && init[i].id as int == x;
          assert entries[i] == init[i];
        }
      }
    }
  }

  /** The row of an id the batch carries: keyword, href and type of the LAST
      entry with that id, and the detail columns of the old row, or NULL for
      a new row. An id the batch does not carry keeps its row. */
  lemma {:induction false} UpsertAllRow(rows: map<int, EntryRow>, entries: seq<IndexPage.IndexEntry>, id: int)
    ensures LastEntryFor(entries, id).None? ==>
      (id in UpsertAll(rows, entries) <==> id in rows) &&
      (id in rows ==> UpsertAll(rows, entries)[id] == rows[id])
    ensures LastEntryFor(entries, id).Some? ==>
      var e := entries[LastEntryFor(entries, id).value];
      var r := UpsertAll(rows, entries);
      id in r && r[id].keyword == e.keyword && r[id].href == e.href && r[id].kind == e.kind &&
      DetailColumns(r[id]) == (if id in rows then DetailColumns(rows[id]) else (None, None, None, None))
  {
    if entries != [] {
      var init := entries[..|entries| - 1];
      UpsertAllRow(rows, init, id);
      var last := LastEntryFor(init, id);
      if entries[|entries| - 1].id as int != id {
        assert LastEntryFor(entries, id) == last;
        if last.Some? {
          assert entries[last.value] == init[last.value];
        }
      }
    }
  }

  /** Upserting never touches the detail columns of a row that was there. */
  lemma UpsertKeepsDetails(rows: map<int, EntryRow>, entries: seq<IndexPage.IndexEntry>, id: int)
    requires id in rows
    ensures id in UpsertAll(rows, entries)
    ensures DetailColumns(UpsertAll(rows, entries)[id]) == DetailColumns(rows[id])
  {
    UpsertAllRow(rows, entries, id);
  }

  /** A row the batch inserts has NULL details, so it needs its entry page. */
  lemma UpsertedNewRowNeedsDetails(rows: map<int, EntryRow>, entries: seq<IndexPage.IndexEntry>, id: int)
    requires id !in rows && id in BatchIds(entries)
    ensures id in UpsertAll(rows, entries)
    ensures ShouldProcessRow(UpsertAll(rows, entries)[id])
  {
    LastEntryIsLast(entries, id);
    UpsertAllRow(rows, entries, id);
  }

  /** The row-level effect of `UPDATE ... SET gaiji_img_src, jion, jikun, jikei
      WHERE id = ?`: the four detail columns of that row, and nothing when
      there is no such row. */
  function UpdatedDetails(rows: map<int, EntryRow>, id: int, d: EntryDetails.Details): (r: map<int, EntryRow>)
    ensures r.Keys == rows.Keys
    ensures id !in rows ==> r == rows
  {
    if id in rows then
      rows[id := rows[id].(gaijiImgSrc := Some(d.gaijiImgSrc), jion := Some(d.jion), jikun := Some(d.jikun), jikei := Some(d.jikei))]
    else rows
  }

  /** The detail update leaves every other row as it was. */
  lemma UpdatedDetailsOthers(rows: map<int, EntryRow>, id: int, d: EntryDetails.Details, other: int)
    requires other in rows && other != id
    ensures UpdatedDetails(rows, id, d)[other] == rows[other]
  {
  }

  /** After the detail update the row no longer needs processing, and its
      index columns are as they were. */
  lemma UpdatedRowIsDone(rows: map<int, EntryRow>, id: int, d: EntryDetails.Details)
    requires id in rows
    ensures !ShouldProcessRow(UpdatedDetails(rows, id, d)[id])
    ensures var r := UpdatedDetails(rows, id, d)[id];
      r.keyword == rows[id].keyword && r.href == rows[id].href && r.kind == rows[id].kind &&
      DetailColumns(r) == (Some(d.gaijiImgSrc), Some(d.jion), Some(d.jikun), Some(d.jikei))
  {
  }

  /** The entry table the crawler writes to. */
  class EntryTable {
    var rows: map<int, EntryRow>

    constructor(initial: map<int, EntryRow>)
      ensures rows == initial
    {
      rows := initial;
    }

    /** `upsert_entries`: runs the upsert for each entry of the batch and
        returns the batch size (0 for an empty batch, which runs nothing). */
    method Upsert(entries: seq<IndexPage.IndexEntry>) returns (count: int)
      modifies this
      ensures rows == UpsertAll(old(rows), entries)
      ensures count == |entries|
    {
      if entries == [] {
        return 0;
      }
      for i := 0 to |entries|
        invariant rows == UpsertAll(old(rows), entries[..i])
      {
        assert entries[..i + 1][..i] == entries[..i];
        var e := entries[i];
        var id := e.id as int;
        if id in rows {
          rows := rows[id := rows[id].(keyword := e.keyword, href := e.href, kind := e.kind)];
        } else {
          rows := rows[id := EntryRow(e.keyword, e.href, e.kind, None, None, None, None)];
        }
      }
      assert entries[..|entries|] == entries;
      return |entries|;
    }

    /** `update_entry_details`. */
    method UpdateDetails(id: int, d: EntryDetails.Details)
      modifies this
      ensures rows == UpdatedDetails(old(rows), id, d)
    {
      if id in rows {
        rows := rows[id := rows[id].(gaijiImgSrc := Some(d.gaijiImgSrc), jion := Some(d.jion), jikun := Some(d.jikun), jikei := Some(d.jikei))];
      }
    }
  }
}
