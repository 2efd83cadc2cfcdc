/**
 * The control panel branch of `do_GET` (api/index.py): one table row per
 * registry entry, in dictionary order, each status shown in a colour class.
 */
module Panel {
  import opened Registry

  const DefaultColor: string := "text-white"

  /** The status-token to colour-class table, with its default. */
  function StatusColor(status: string): (cls: string)
    ensures status == "OK" ==> cls == "text-green-500"
    ensures status == "WARNING" ==> cls == "text-yellow-500"
    ensures status == "LOCKED" ==> cls == "text-blue-400"
    ensures status == "PURGE" ==> cls == "text-red-500"
    ensures cls == DefaultColor <==> !KnownStatus(status)
  {
    var palette := map["OK" := "text-green-500", "WARNING" := "text-yellow-500",
                       "LOCKED" := "text-blue-400", "PURGE" := "text-red-500"];
    if status in palette then palette[status] else DefaultColor
  }

  /** Distinct known tokens are told apart by colour. */
  lemma StatusColorDistinguishes(s: string, t: string)
    requires KnownStatus(s) && KnownStatus(t) && s != t
    ensures StatusColor(s) != StatusColor(t)
  {
  }

  /** What one `<tr>` of the table shows. */
  datatype Row = Row(id: string, name: string, expiry: string, status: string, color: string)

  function RowOf(id: string, rec: NodeRecord): (row: Row)
    ensures row.id == id && row.name == rec.name && row.expiry == rec.expiry && row.status == rec.status
    ensures row.color == StatusColor(rec.status)
    ensures row.color == DefaultColor <==> !KnownStatus(rec.status)
  {
    Row(id, rec.name, rec.expiry, rec.status, StatusColor(rec.status))
  }

  /** A duplicate-free sequence has as many distinct elements as entries. */
  lemma {:induction false} DistinctCardinality(s: seq<string>)
    requires Distinct(s)
    ensures |set k | k in s| == |s|
  {
    if s != [] {
      DistinctCardinality(s[1..]);
      assert (set k | k in s) == {s[0]} + (set k | k in s[1..]);
      assert s[0] !in (set k | k in s[1..]);
    }
  }

  /** A duplicate-free enumeration of a map's keys has one entry per key. */
  lemma EnumerationSize(records: map<string, NodeRecord>, order: seq<string>)
    requires Distinct(order)
    requires forall k :: k in records <==> k in order
    ensures |records| == |order|
  {
    DistinctCardinality(order);
    assert records.Keys == set k | k in order;
  }

  /** Rows built entry by entry from a duplicate-free key order cover every
      key once, and show only known colours. */
  lemma RowsCoverKeys(records: map<string, NodeRecord>, order: seq<string>, rows: seq<Row>)
    requires Distinct(order)
    requires forall k :: k in records <==> k in order
    requires AllKnown(records)
    requires |rows| == |order|
    requires forall i :: 0 <= i < |rows| ==> rows[i] == RowOf(order[i], records[order[i]])
    ensures |rows| == |records|
    ensures forall k :: k in records <==> exists i :: 0 <= i < |rows| && rows[i].id == k
    ensures forall i, j :: 0 <= i < j < |rows| ==> rows[i].id != rows[j].id
    ensures forall i :: 0 <= i < |rows| ==> rows[i].color != DefaultColor
  {
    EnumerationSize(records, order);
    forall k | k in records
      ensures exists i :: 0 <= i < |rows| && rows[i].id == k
    {
      var i :| 0 <= i < |order| && order[i] == k;
      assert rows[i].id == k;
    }
  }

  /** The loop over `NODOS_DB.items()` that accumulates the table rows. */
  method Rows(db: NodeDb) returns (rows: seq<Row>)
    requires db.Valid()
    ensures |rows| == |db.order| == |db.records|
    ensures forall i :: 0 <= i < |rows| ==> rows[i] == RowOf(db.order[i], db.records[db.order[i]])
    ensures forall k :: k in db.records <==> exists i :: 0 <= i < |rows| && rows[i].id == k
    ensures forall i, j :: 0 <= i < j < |rows| ==> rows[i].id != rows[j].id
    ensures forall i :: 0 <= i < |rows| ==> rows[i].color != DefaultColor
  {
    var records, order := db.records, db.order;
    rows := [];
    for n := 0 to |order|
      invariant |rows| == n
      invariant forall i :: 0 <= i < n ==> rows[i] == RowOf(order[i], records[order[i]])
    {
      var nodeId := order[n];
      rows := rows + [RowOf(nodeId, records[nodeId])];
    }
    RowsCoverKeys(records, order, rows);
  }
}
