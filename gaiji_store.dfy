/**
 * The gaiji table (`entry_id INTEGER PRIMARY KEY, image_src TEXT NOT NULL,
 * gaiji_char TEXT`) as a map from entry id to row, with the row-level
 * effect of the two statements that write it: the upsert of
 * `collect_gaiji_images.py` and the transcription UPDATE of
 * `apply_gaiji_transcriptions.py`.
 */
module GaijiStore {

  import opened Results

  /** One row: the image source, and the transcription once one is recorded. */
  datatype GaijiRow = GaijiRow(imageSrc: string, gaijiChar: Option<string>)

  /** `INSERT ... VALUES (?, ?, NULL) ON CONFLICT(entry_id) DO UPDATE SET
      image_src = excluded.image_src`. */
  function UpsertGaiji(rows: map<int, GaijiRow>, id: int, imageSrc: string): (r: map<int, GaijiRow>)
    ensures r.Keys == rows.Keys + {id}
    ensures r[id].imageSrc == imageSrc
    ensures r[id].gaijiChar == if id in rows then rows[id].gaijiChar else None
  {
    if id in rows then rows[id := rows[id].(imageSrc := imageSrc)]
    else rows[id := GaijiRow(imageSrc, None)]
  }

  /** The upsert leaves every other row as it was. */
  lemma UpsertGaijiOthers(rows: map<int, GaijiRow>, id: int, imageSrc: string, other: int)
    requires other in rows && other != id
    ensures UpsertGaiji(rows, id, imageSrc)[other] == rows[other]
  {
  }

  /** `UPDATE ... SET gaiji_char = ? WHERE entry_id = ?`: the new table, and
      whether the statement touched a row (`cur.rowcount`). It never inserts. */
  function SetGaijiChar(rows: map<int, GaijiRow>, id: int, gaijiChar: string): (r: (map<int, GaijiRow>, bool))
    ensures r.1 <==> id in rows
    ensures r.0.Keys == rows.Keys
    ensures id in rows ==> r.0[id] == GaijiRow(rows[id].imageSrc, Some(gaijiChar))
    ensures forall other :: other in rows && other != id ==> r.0[other] == rows[other]
  {
    if id in rows then (rows[id := rows[id].(gaijiChar := Some(gaijiChar))], true)
    else (rows, false)
  }

  /** Upserting an image and then recording a transcription gives the row
      both; recording comes after the collection and is not undone by a
      later re-collection of the same image. */
  lemma TranscriptionSurvivesRecollection(rows: map<int, GaijiRow>, id: int, imageSrc: string, gaijiChar: string, again: string)
    ensures var r := UpsertGaiji(SetGaijiChar(UpsertGaiji(rows, id, imageSrc), id, gaijiChar).0, id, again);
      r[id] == GaijiRow(again, Some(gaijiChar))
  {
  }

  /** The gaiji table the collector and the applier write. */
  class GaijiTable {
    var rows: map<int, GaijiRow>

    constructor(initial: map<int, GaijiRow>)
      ensures rows == initial
    {
      rows := initial;
    }

    /** `upsert_gaiji`. */
    method Upsert(id: int, imageSrc: string)
      modifies this
      ensures rows == UpsertGaiji(old(rows), id, imageSrc)
    {
      if id in rows {
        rows := rows[id := rows[id].(imageSrc := imageSrc)];
      } else {
        rows := rows[id := GaijiRow(imageSrc, None)];
      }
    }

    /** The transcription UPDATE; returns its row count, 1 or 0. */
    method Transcribe(id: int, gaijiChar: string) returns (rowcount: nat)
      modifies this
      ensures (rows, rowcount != 0) == SetGaijiChar(old(rows), id, gaijiChar)
      ensures rowcount <= 1
    {
      if id in rows {
        rows := rows[id := rows[id].(gaijiChar := Some(gaijiChar))];
        rowcount := 1;
      } else {
        rowcount := 0;
      }
    }
  }
}
