/**
 * `apply_gaiji_transcriptions.py`: read `entry_id,gaiji_char` pairs from a
 * CSV file and record each transcription in the gaiji table, counting the
 * ids that have a row there and the ids that do not.
 */
module GaijiTranscriptions {

  import opened Results
  import opened Strings
  import TableNames
  import opened GaijiStore

  const NoHeadersError: string := "CSV must include headers: entry_id,gaiji_char"
  const MissingHeadersError: string := "CSV headers must include entry_id and gaiji_char"
  const IntError: string := "invalid literal for int() with base 10"

  const EntryIdColumn: string := "entry_id"
  const GaijiCharColumn: string := "gaiji_char"

  /** A record as `csv.DictReader` yields it: each field's value, `None` for a
      field the line is too short to fill. */
  type Record = map<string, Option<string>>

  /** A transcription to apply. */
  datatype Transcription = Transcription(entryId: int, gaijiChar: string)

  /** `(row.get(key) or "").strip()`. */
  function Field(row: Record, key: string): (r: string)
    ensures Trimmed(r)
  {
    Strip(if key in row && row[key].Some? then row[key].value else "")
  }

  /** One record of the loop in `read_rows`: skipped (`Ok(None)`) when either
      field is blank, the `ValueError` of `int()` when the id is not a
      decimal integer, and the pair otherwise. */
  function RecordRow(row: Record): Result<Option<Transcription>> {
    var idRaw := Field(row, EntryIdColumn);
    var gaijiChar := Field(row, GaijiCharColumn);
    if idRaw == [] || gaijiChar == [] then Ok(None)
    else
      match ParseInt(idRaw)
      case None => Err(IntError)
      case Some(id) => Ok(Some(Transcription(id, gaijiChar)))
  }

  /** The loop over the records: the pairs kept so far, or the first error. */
  function CollectRows(records: seq<Record>): Result<seq<Transcription>> {
    if records == [] then Ok([])
    else
      match CollectRows(records[..|records| - 1])
      case Err(e) => Err(e)
      case Ok(rows) =>
        match RecordRow(records[|records| - 1])
        case Err(e) => Err(e)
        case Ok(None) => Ok(rows)
        case Ok(Some(t)) => Ok(rows + [t])
  }

  /** `read_rows` over the header names and the records. */
  function RowsOf(headers: seq<string>, records: seq<Record>): (r: Result<seq<Transcription>>)
    ensures headers == [] ==> r == Err(NoHeadersError)
    ensures headers != [] && (EntryIdColumn !in headers || GaijiCharColumn !in headers) ==> r == Err(MissingHeadersError)
    ensures headers != [] && EntryIdColumn in headers && GaijiCharColumn in headers ==> r == CollectRows(records)
  {
    if headers == [] then Err(NoHeadersError)
    else if EntryIdColumn !in headers || GaijiCharColumn !in headers then Err(MissingHeadersError)
    else CollectRows(records)
  }

  /** The pair a record gives when it is read without error. */
  function KeptRow(row: Record): Option<Transcription> {
    if RecordRow(row).Ok? then RecordRow(row).value else None
  }

  /** A record is kept exactly when both stripped fields are non-empty, and
      it is kept as the parsed id and the stripped transcription. */
  lemma KeptRowIff(row: Record)
    requires RecordRow(row).Ok?
    ensures KeptRow(row).Some? <==> Field(row, EntryIdColumn) != [] && Field(row, GaijiCharColumn) != []
    ensures KeptRow(row).Some? ==>
      ParseInt(Field(row, EntryIdColumn)) == Some(KeptRow(row).value.entryId) &&
      KeptRow(row).value.gaijiChar == Field(row, GaijiCharColumn)
  {
  }

  /** One more record: the kept pairs so far, extended by what it gives. */
  lemma CollectRowsSnoc(records: seq<Record>, row: Record)
    ensures CollectRows(records + [row]) ==
      match CollectRows(records)
      case Err(e) => Err(e)
      case Ok(rows) =>
        match RecordRow(row)
        case Err(e) => Err(e)
        case Ok(None) => Ok(rows)
        case Ok(Some(t)) => Ok(rows + [t])
  {
    assert (records + [row])[..|records|] == records;
  }

  /** The records are read without error exactly when each one is. */
  lemma {:induction false} CollectRowsOk(records: seq<Record>)
    ensures CollectRows(records).Ok? <==> forall i :: 0 <= i < |records| ==> RecordRow(records[i]).Ok?
  {
    if records != [] {
      var init := records[..|records| - 1];
      var last := records[|records| - 1];
      CollectRowsOk(init);
      assert records == init + [last];
      CollectRowsSnoc(init, last);
      assert CollectRows(records).Ok? <==> CollectRows(init).Ok? && RecordRow(last).Ok?;
      assert forall i :: 0 <= i < |init| ==> init[i] == records[i];
    }
  }

  /** When the records are read without error, the result is the kept pairs,
      in record order. */
  lemma {:induction false} CollectRowsKept(records: seq<Record>)
    requires CollectRows(records).Ok?
    ensures CollectRows(records).value == FilterMap(records, KeptRow)
  {
    if records != [] {
      var init := records[..|records| - 1];
      assert records == init + [records[|records| - 1]];
      CollectRowsSnoc(init, records[|records| - 1]);
      CollectRowsKept(init);
    }
  }

  /** What `read_rows` returns is a subsequence of what the records give:
      no more pairs than records, each one a non-blank stripped
      transcription that some record supplied. */
  lemma ReadRowsKept(headers: seq<string>, records: seq<Record>, k: nat)
    requires RowsOf(headers, records).Ok? && k < |RowsOf(headers, records).value|
    ensures |RowsOf(headers, records).value| <= |records|
    ensures var t := RowsOf(headers, records).value[k];
      t.gaijiChar != [] && Trimmed(t.gaijiChar) &&
      exists j :: 0 <= j < |records| && KeptRow(records[j]) == Some(t)
  {
    CollectRowsKept(records);
    FilterMapFrom(records, KeptRow, k);
  }

  /** `read_rows`: the header checks, then the loop appending kept pairs. */
  method ReadRows(headers: seq<string>, records: seq<Record>) returns (r: Result<seq<Transcription>>)
    ensures r == RowsOf(headers, records)
  {
    if headers == [] {
      return Err(NoHeadersError);
    }
    if EntryIdColumn !in headers || GaijiCharColumn !in headers {
      return Err(MissingHeadersError);
    }
    var rows: seq<Transcription> := [];
    for i := 0 to |records|
      invariant CollectRows(records[..i]) == Ok(rows)
    {
      assert records[..i + 1] == records[..i] + [records[i]];
      CollectRowsSnoc(records[..i], records[i]);
      var row := records[i];
      var idRaw := Field(row, EntryIdColumn);
      var gaijiChar := Field(row, GaijiCharColumn);
      if idRaw == [] || gaijiChar == [] {
        continue;
      }
      var id := ParseInt(idRaw);
      if id.None? {
        CollectRowsAfterError(records, i + 1, IntError);
        return Err(IntError);
      }
      rows := rows + [Transcription(id.value, gaijiChar)];
    }
    assert records[..|records|] == records;
    return Ok(rows);
  }

  /** Once a record has raised, the later ones are not read. */
  lemma {:induction false} CollectRowsAfterError(records: seq<Record>, k: nat, e: string)
    requires k <= |records| && CollectRows(records[..k]) == Err(e)
    ensures CollectRows(records) == Err(e)
  {
    if |records| == k {
      assert records[..k] == records;
    } else {
      var init := records[..|records| - 1];
      assert init[..k] == records[..k];
      CollectRowsAfterError(init, k, e);
    }
  }

  // ---------------------------------------------------------------------
  // The apply loop

  /** The table and the two counters after some transcriptions. */
  datatype Applied = Applied(rows: map<int, GaijiRow>, updated: nat, missing: nat)

  /** The UPDATE for each pair, in order: counted as updated when it touched
      a row and as missing otherwise. */
  function ApplyAll(table: map<int, GaijiRow>, ts: seq<Transcription>): Applied {
    if ts == [] then Applied(table, 0, 0)
    else
      var before := ApplyAll(table, ts[..|ts| - 1]);
      var t := ts[|ts| - 1];
      var (rows, touched) := SetGaijiChar(before.rows, t.entryId, t.gaijiChar);
      if touched then Applied(rows, before.updated + 1, before.missing)
      else Applied(rows, before.updated, before.missing + 1)
  }

  /** The number of pairs whose id is a key of the table. */
  function CountPresent(table: map<int, GaijiRow>, ts: seq<Transcription>): nat {
    if ts == [] then 0
    else CountPresent(table, ts[..|ts| - 1]) + (if ts[|ts| - 1].entryId in table then 1 else 0)
  }

  /** The position of the last pair for `id`, if any. */
  function LastFor(ts: seq<Transcription>, id: int): (k: Option<nat>)
    ensures k.Some? ==> k.value < |ts| && ts[k.value].entryId == id
  {
    if ts == [] then None
    else if ts[|ts| - 1].entryId == id then Some(|ts| - 1)
    else LastFor(ts[..|ts| - 1], id)
  }

  /** `LastFor` finds the last pair for the id, or none when there is none. */
  lemma {:induction false} LastForIsLast(ts: seq<Transcription>, id: int)
    ensures LastFor(ts, id).Some? ==> forall j :: LastFor(ts, id).value < j < |ts| ==> ts[j].entryId != id
    ensures LastFor(ts, id).None? ==> forall j :: 0 <= j < |ts| ==> ts[j].entryId != id
  {
    if ts != [] {
      var init := ts[..|ts| - 1];
      LastForIsLast(init, id);
      assert forall j :: 0 <= j < |init| ==> init[j] == ts[j];
    }
  }

  /** Every pair is counted once: `updated + missing == len(rows)`, and a
      pair counts as updated exactly when its id has a row. */
  lemma {:induction false} ApplyCounts(table: map<int, GaijiRow>, ts: seq<Transcription>)
    ensures ApplyAll(table, ts).updated + ApplyAll(table, ts).missing == |ts|
    ensures ApplyAll(table, ts).updated == CountPresent(table, ts)
    ensures ApplyAll(table, ts).rows.Keys == table.Keys
  {
    if ts != [] {
      ApplyCounts(table, ts[..|ts| - 1]);
    }
  }

  /** The loop inserts and deletes nothing and keeps every image source; each
      id's transcription is that of its last pair, or the old one when no
      pair names it. */
  lemma {:induction false} ApplyRow(table: map<int, GaijiRow>, ts: seq<Transcription>, id: int)
    requires id in table
    ensures id in ApplyAll(table, ts).rows
    ensures ApplyAll(table, ts).rows[id].imageSrc == table[id].imageSrc
    ensures ApplyAll(table, ts).rows[id].gaijiChar ==
      match LastFor(ts, id)
      case None => table[id].gaijiChar
      case Some(k) => Some(ts[k].gaijiChar)
  {
    if ts != [] {
      var init := ts[..|ts| - 1];
      ApplyRow(table, init, id);
      ApplyCounts(table, init);
      var t := ts[|ts| - 1];
      if t.entryId != id {
        var last := LastFor(init, id);
        if last.Some? {
          assert ts[last.value] == init[last.value];
        }
      }
    }
  }

  /** The loop of `main`: returns `updated` and `missing`. */
  method ApplyTranscriptions(table: GaijiTable, ts: seq<Transcription>) returns (updated: nat, missing: nat)
    modifies table
    ensures ApplyAll(old(table.rows), ts) == Applied(table.rows, updated, missing)
  {
    updated, missing := 0, 0;
    for i := 0 to |ts|
      invariant ApplyAll(old(table.rows), ts[..i]) == Applied(table.rows, updated, missing)
    {
      assert ts[..i + 1][..i] == ts[..i];
      var rowcount := table.Transcribe(ts[i].entryId, ts[i].gaijiChar);
      if rowcount != 0 {
        updated := updated + 1;
      } else {
        missing := missing + 1;
      }
    }
    assert ts[..|ts|] == ts;
  }

  /** SQLite binds an id as a signed 64-bit INTEGER; Python's `sqlite3`
      raises `OverflowError` for an int outside that range. */
  const MinInteger: int := -0x8000_0000_0000_0000
  const MaxInteger: int := 0x7FFF_FFFF_FFFF_FFFF
  const OverflowError: string := "Python int too large to convert to SQLite INTEGER"

  /** Every pair's id can be bound as a statement parameter. */
  predicate Bindable(ts: seq<Transcription>) {
    forall k :: 0 <= k < |ts| ==> MinInteger <= ts[k].entryId <= MaxInteger
  }

  /** `main`: the table name check; status 2 for a missing database or CSV
      file; the exception of `read_rows`; status 1 when no pair survives;
      the `OverflowError` of an id SQLite cannot bind, which leaves the
      transaction uncommitted; otherwise every pair applied and committed.
      Nothing is written before the loop.
      `dbExists` and `csvExists` stand for the file tests, `headers` and
      `records` for the parsed CSV file. */
  method ApplyMain(gaijiTable: string, dbExists: bool, csvExists: bool,
                   headers: seq<string>, records: seq<Record>, table: GaijiTable)
    returns (exit: ScriptExit, updated: nat, missing: nat)
    modifies table
    ensures TableNames.ValidateTableName(gaijiTable).Err? ==>
      exit == Raised(TableNames.TableNameError) && table.rows == old(table.rows)
    ensures TableNames.ValidateTableName(gaijiTable).Ok? && (!dbExists || !csvExists) ==>
      exit == Status(2) && table.rows == old(table.rows)
    ensures TableNames.ValidateTableName(gaijiTable).Ok? && dbExists && csvExists ==>
      match RowsOf(headers, records)
      case Err(e) => exit == Raised(e) && table.rows == old(table.rows)
      case Ok(ts) =>
        if ts == [] then exit == Status(1) && table.rows == old(table.rows)
        else if !Bindable(ts) then exit == Raised(OverflowError) && table.rows == old(table.rows)
        else exit == Status(0) && ApplyAll(old(table.rows), ts) == Applied(table.rows, updated, missing)
  {
    updated, missing := 0, 0;
    var checked := TableNames.ValidateTableName(gaijiTable);
    if checked.Err? {
      return Raised(checked.message), 0, 0;
    }
    if !dbExists {
      return Status(2), 0, 0;
    }
    if !csvExists {
      return Status(2), 0, 0;
    }
    var rows := ReadRows(headers, records);
    if rows.Err? {
      return Raised(rows.message), 0, 0;
    }
    if rows.value == [] {
      return Status(1), 0, 0;
    }
    if !Bindable(rows.value) {
      return Raised(OverflowError), 0, 0;
    }
    updated, missing := ApplyTranscriptions(table, rows.value);
    return Status(0), updated, missing;
  }
}
