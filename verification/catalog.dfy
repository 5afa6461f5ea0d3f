/** `load_and_clean_data`: the drug table as read from the CSV, the rows
    dropped for a missing efficacy or usage text, and the three text
    columns passed through the cleaner. */
module Catalog {

  import opened Options
  import opened Text
  import opened Selection
  import opened Cleaner

  /** One CSV row as pandas reads it; `None` stands for an empty (NaN) cell.
      The purchase channel is always present: a missing channel would make
      the channel filter raise. */
  datatype RawRow = RawRow(
    name: string,
    manufacturer: Option<string>,
    efficacy: Option<string>,
    usage: Option<string>,
    precautions: Option<string>,
    channel: string,
    imageUrl: Option<string>)

  /** A row of the cleaned table: the three text columns are cleaned strings,
      every other column is carried over as read. */
  datatype DrugRecord = DrugRecord(
    name: string,
    manufacturer: Option<string>,
    efficacy: string,
    usage: string,
    precautions: string,
    channel: string,
    imageUrl: Option<string>)

  /** `dropna(subset=[efficacy, usage])` keeps a row iff both cells are present. */
  predicate Complete(row: RawRow) {
    row.efficacy.Some? && row.usage.Some?
  }

  /** The three `apply(advanced_clean)` steps on one kept row. */
  function Normalize(row: RawRow): (d: DrugRecord)
    ensures d.name == row.name && d.manufacturer == row.manufacturer
    ensures d.channel == row.channel && d.imageUrl == row.imageUrl
    ensures Trimmed(d.efficacy) && Trimmed(d.usage) && Trimmed(d.precautions)
    ensures row.precautions.None? ==> d.precautions == ""
  {
    DrugRecord(row.name, row.manufacturer, Clean(row.efficacy), Clean(row.usage),
               Clean(row.precautions), row.channel, row.imageUrl)
  }

  /** Drop the incomplete rows, then clean the rest. */
  function Ingest(rows: seq<RawRow>): (table: seq<DrugRecord>)
    ensures |table| <= |rows|
  {
    FilterMap(rows, Complete, Normalize)
  }

  /** The cleaned table holds one record per complete row, in row order:
      record `k` is the cleaned form of the `k`-th complete row. Whether a
      row is kept depends only on its cells before cleaning. */
  lemma IngestKeepsCompleteRows(rows: seq<RawRow>)
    ensures |Ingest(rows)| == |Positions(rows, Complete)|
    ensures forall k :: 0 <= k < |Ingest(rows)| ==>
              Ingest(rows)[k] == Normalize(rows[Positions(rows, Complete)[k]])
  {
    FilterMapAtPositions(rows, Complete, Normalize);
  }

  /** A row missing its efficacy or its usage text yields no record: its
      index is not among those the table is read from. */
  lemma IncompleteRowDropped(rows: seq<RawRow>, i: nat)
    requires i < |rows| && (rows[i].efficacy.None? || rows[i].usage.None?)
    ensures forall k :: 0 <= k < |Positions(rows, Complete)| ==> Positions(rows, Complete)[k] != i
  {
  }

  /** The number of records is the number of complete rows. */
  lemma IngestCount(rows: seq<RawRow>)
    ensures |Ingest(rows)| == |set i | 0 <= i < |rows| && Complete(rows[i])|
  {
    IngestKeepsCompleteRows(rows);
    var ps := Positions(rows, Complete);
    var kept := set i | 0 <= i < |rows| && Complete(rows[i]);
    assert kept == set a | 0 <= a < |ps| :: ps[a];
    DistinctCard(ps);
  }

  /** No `</del>` starts inside `mid` once it is wrapped as `<del>mid</del>`,
      so the wrapped text is exactly one deleted-content span. */
  predicate NoInnerClose(mid: string) {
    forall q :: |DelOpen| <= q < |DelOpen| + |mid| ==> !At(DelOpen + mid + DelClose, DelClose, q)
  }

  /** Presence is checked before cleaning: a complete row whose efficacy is
      entirely deleted content, at any position of the input, still yields
      its record, with an empty efficacy. */
  lemma EmptiedRowKept(rows: seq<RawRow>, i: nat, mid: string)
    requires i < |rows| && rows[i].efficacy == Some(DelOpen + mid + DelClose) && rows[i].usage.Some?
    requires NoInnerClose(mid)
    ensures exists k :: 0 <= k < |Ingest(rows)| && Ingest(rows)[k] == Normalize(rows[i])
    ensures Normalize(rows[i]).efficacy == ""
  {
    EmptiedEfficacy(mid);
    IngestKeepsCompleteRows(rows);
    var ps := Positions(rows, Complete);
    assert i in ps;
    var k :| 0 <= k < |ps| && ps[k] == i;
    assert Ingest(rows)[k] == Normalize(rows[i]);
  }

  /** A text that is one deleted-content span cleans to the empty string. */
  lemma EmptiedEfficacy(mid: string)
    requires NoInnerClose(mid)
    ensures Clean(Some(DelOpen + mid + DelClose)) == ""
  {
    Spans.DeleteSpanRemoved("", mid, "", DelOpen, DelClose);
    assert "" + DelOpen + mid + DelClose + "" == DelOpen + mid + DelClose;
  }

  /** The deleted passage of `Cleaner.CleanExample`, `<del>과거정보</del>`,
      is entirely deleted content. */
  lemma NoInnerCloseExample(mid: string)
    requires mid == "과거정보"
    ensures NoInnerClose(mid)
  {
    forall q | |DelOpen| <= q < |DelOpen| + |mid| ensures !At(DelOpen + mid + DelClose, DelClose, q) {
      NotAtOnFirstChar(DelOpen + mid + DelClose, DelClose, q);
    }
  }

  /** The whole load step: a table that could not be read gives no table;
      otherwise the ingested table. */
  function Load(read: Option<seq<RawRow>>): (r: Option<seq<DrugRecord>>)
    ensures r.None? <==> read.None?
    ensures read.Some? ==> |r.value| == |Positions(read.value, Complete)|
  {
    match read
    case None => None
    case Some(rows) =>
      IngestKeepsCompleteRows(rows);
      Some(Ingest(rows))
  }
}
