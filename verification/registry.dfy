/**
 * The node registry behind the `/api/status` handshake (api/index.py).
 *
 * The registry is a module-level dictionary from hardware id to a record
 * {name, expiry, status}. A handshake with a non-empty id registers a
 * never-seen id as a LOCKED node and answers with the stored record; a
 * missing or empty id is answered with an ERROR object and touches nothing.
 */
module Registry {
  import opened Wrappers

  /** One machine's authorization record, as stored in the dictionary. */
  datatype NodeRecord = NodeRecord(name: string, expiry: string, status: string)

  /** The JSON object the status endpoint writes back. */
  datatype Response =
    | Refused(message: string)   // {"status": "ERROR", "message": ...}
    | Granted(record: NodeRecord) // the stored record, verbatim
  {
    /** The `status` member of the JSON object. */
    function Status(): string {
      if Refused? then "ERROR" else record.status
    }
  }

  const MasterId: string := "NODO_MAESTRO"
  const MasterRecord: NodeRecord := NodeRecord("Neo", "2099-12-31", "OK")

  const NameHead: string := "Desconocido ("
  const NameTail: string := ")"
  /** How many leading characters of the id go into an auto-registered name. */
  const NamePrefixLength: nat := 6
  const PendingExpiry: string := "PENDIENTE"
  const LockedStatus: string := "LOCKED"
  const MissingIdMessage: string := "No ID provided"

  /** The four status tokens the system knows. */
  predicate KnownStatus(status: string) {
    status in {"OK", "WARNING", "LOCKED", "PURGE"}
  }

  predicate AllKnown(db: map<string, NodeRecord>) {
    forall k :: k in db ==> KnownStatus(db[k].status)
  }

  /** Python truthiness of the `id` query parameter: present and non-empty. */
  predicate Present(id: Option<string>)
    ensures Present(id) ==> id.Some? && |id.value| > 0
    ensures id == None || id == Some("") ==> !Present(id)
    ensures id.Some? && |id.value| > 0 ==> Present(id)
  {
    id.Some? && id.value != ""
  }

  /** Python's `s[:n]`: the first n characters, or all of s when it is shorter. */
  function Prefix(s: string, n: nat): (p: string)
    ensures |p| == if |s| < n then |s| else n
    ensures p <= s
  {
    if |s| <= n then s else s[..n]
  }

  /** The label given to a never-seen node: "Desconocido (" + id[:6] + ")". */
  function DefaultName(id: string): (name: string)
    ensures |name| == |NameHead| + |Prefix(id, NamePrefixLength)| + |NameTail|
    ensures name[..|NameHead|] == NameHead
    ensures name[|NameHead|..|name| - |NameTail|] <= id
    ensures name[|name| - |NameTail|..] == NameTail
  {
    NameHead + Prefix(id, NamePrefixLength) + NameTail
  }

  /** The record a never-seen id is registered with. */
  function NewRecord(id: string): (rec: NodeRecord)
    ensures rec.status == LockedStatus && KnownStatus(rec.status)
    ensures rec.expiry == PendingExpiry
    ensures |rec.name| == |NameHead| + |Prefix(id, NamePrefixLength)| + |NameTail|
    ensures rec.name[..|NameHead|] == NameHead
    ensures rec.name[|NameHead|..|rec.name| - |NameTail|] == Prefix(id, NamePrefixLength)
    ensures rec.name[|rec.name| - |NameTail|..] == NameTail
  {
    NodeRecord(DefaultName(id), PendingExpiry, LockedStatus)
  }

  /** The dictionary's contents when the module is loaded. */
  function Seed(): (db: map<string, NodeRecord>)
    ensures db.Keys == {MasterId}
    ensures db[MasterId].name == "Neo" && db[MasterId].expiry == "2099-12-31" && db[MasterId].status == "OK"
    ensures AllKnown(db)
  {
    map[MasterId := MasterRecord]
  }

  /** The registry after one handshake with `id`. */
  function Enrolled(db: map<string, NodeRecord>, id: Option<string>): (db': map<string, NodeRecord>)
    ensures !Present(id) ==> db' == db
    ensures Present(id) ==> db'.Keys == db.Keys + {id.value}
    ensures forall k :: k in db ==> k in db' && db'[k] == db[k]
    ensures Present(id) && id.value !in db ==> db'[id.value] == NewRecord(id.value)
    ensures |db'| == if Present(id) && id.value !in db then |db| + 1 else |db|
  {
    if Present(id) && id.value !in db then db[id.value := NewRecord(id.value)] else db
  }

  /** The answer to one handshake with `id` against the registry `db`. */
  function Reply(db: map<string, NodeRecord>, id: Option<string>): (r: Response)
    ensures r.Refused? <==> !Present(id)
    ensures r.Refused? ==> r.Status() == "ERROR" && r.message == MissingIdMessage
    ensures Present(id) && id.value in db ==> r == Granted(db[id.value])
    ensures Present(id) && id.value !in db ==> r == Granted(NewRecord(id.value))
    ensures Present(id) ==> r == Granted(Enrolled(db, id)[id.value])
  {
    if !Present(id) then Refused(MissingIdMessage)
    else if id.value in db then Granted(db[id.value])
    else Granted(NewRecord(id.value))
  }

  /** A second handshake with the same id changes nothing and gives the same answer. */
  lemma HandshakeIdempotent(db: map<string, NodeRecord>, id: Option<string>)
    ensures Enrolled(Enrolled(db, id), id) == Enrolled(db, id)
    ensures Reply(Enrolled(db, id), id) == Reply(db, id)
  {
  }

  /** A registry holding only known status tokens keeps doing so, and a
      handshake answers "ERROR" exactly when the id is missing or empty. */
  lemma HandshakeKeepsKnown(db: map<string, NodeRecord>, id: Option<string>)
    requires AllKnown(db)
    ensures AllKnown(Enrolled(db, id))
    ensures Reply(db, id).Status() == "ERROR" <==> !Present(id)
  {
  }

  /** The `status` member of a handshake's answer: "ERROR" for a missing or
      empty id, otherwise the status stored for the id after the handshake. */
  lemma AnswerStatus(db: map<string, NodeRecord>, id: Option<string>)
    ensures Reply(db, id).Status() == (if Present(id) then Enrolled(db, id)[id.value].status else "ERROR")
  {
  }

  /** Two ids get the same auto-registered name exactly when their first six
      characters agree: the name does not identify the node, the key does. */
  lemma DefaultNameCollision(a: string, b: string)
    ensures DefaultName(a) == DefaultName(b) <==> Prefix(a, NamePrefixLength) == Prefix(b, NamePrefixLength)
  {
  }

  /** The registry after a run of handshakes, in arrival order. */
  function Run(db: map<string, NodeRecord>, ids: seq<Option<string>>): map<string, NodeRecord>
    decreases ids
  {
    if ids == [] then db else Run(Enrolled(db, ids[0]), ids[1..])
  }

  /** Whether some handshake in `ids` carried the id `k`. */
  predicate Observed(ids: seq<Option<string>>, k: string) {
    k != "" && Some(k) in ids
  }

  /** The registry after any run of handshakes: every id that was observed
      has exactly one record; records that existed are untouched; a new
      record depends on its id alone, not on when or how often it arrived. */
  lemma {:induction false} RunClosedForm(db: map<string, NodeRecord>, ids: seq<Option<string>>)
    ensures forall k :: k in Run(db, ids) <==> k in db || Observed(ids, k)
    ensures forall k :: k in db ==> Run(db, ids)[k] == db[k]
    ensures forall k :: k !in db && Observed(ids, k) ==> Run(db, ids)[k] == NewRecord(k)
    decreases ids
  {
    if ids != [] {
      var db1 := Enrolled(db, ids[0]);
      RunClosedForm(db1, ids[1..]);
      assert ids == [ids[0]] + ids[1..];
      forall k
        ensures Observed(ids, k) <==> (Present(ids[0]) && ids[0].value == k) || Observed(ids[1..], k)
      {
        assert Some(k) in ids <==> Some(k) == ids[0] || Some(k) in ids[1..];
      }
    }
  }

  /** Handshakes that observe the same set of ids, in any order, with any
      repetitions and any number of missing-id requests, leave the same
      records behind. */
  lemma RunOrderIndependent(db: map<string, NodeRecord>, a: seq<Option<string>>, b: seq<Option<string>>)
    requires forall k :: Observed(a, k) <==> Observed(b, k)
    ensures Run(db, a) == Run(db, b)
  {
    var ra, rb := Run(db, a), Run(db, b);
    RunClosedForm(db, a);
    RunClosedForm(db, b);
    assert ra.Keys == rb.Keys by {
      forall k ensures k in ra <==> k in rb {
        assert Observed(a, k) <==> Observed(b, k);
      }
    }
    forall k | k in ra
      ensures ra[k] == rb[k]
    {
      if k !in db {
        assert Observed(a, k) && Observed(b, k);
      }
    }
  }

  /** Every element of s occurs once. */
  predicate Distinct(s: seq<string>) {
    forall i, j :: 0 <= i < j < |s| ==> s[i] != s[j]
  }

  /** The module-level dictionary `NODOS_DB`. `order` is its key order:
      Python dictionaries iterate in insertion order. */
  class NodeDb {
    var records: map<string, NodeRecord>
    var order: seq<string>

    ghost predicate Valid()
      reads this
    {
      && Distinct(order)
      && (forall k :: k in records <==> k in order)
      && AllKnown(records)
    }

    /** The dictionary as the module defines it: the master node alone. */
    constructor ()
      ensures Valid()
      ensures records.Keys == {MasterId} && records[MasterId] == MasterRecord
      ensures order == [MasterId]
    {
      records := Seed();
      order := [MasterId];
    }

    /** The `/api/status` branch of `do_GET`, after query parsing. */
    method Handshake(id: Option<string>) returns (resp: Response)
      requires Valid()
      modifies this
      ensures Valid()
      ensures records == Enrolled(old(records), id)
      ensures order == if Present(id) && id.value !in old(records) then old(order) + [id.value] else old(order)
      ensures resp == Reply(old(records), id)
      ensures Present(id) ==> id.value in records && resp == Granted(records[id.value])
    {
      if id.None? || id.value == "" {
        resp := Refused(MissingIdMessage);
      } else {
        var nodeId := id.value;
        if nodeId !in records {
          records := records[nodeId := NewRecord(nodeId)];
          order := order + [nodeId];
        }
        resp := Granted(records[nodeId]);
      }
    }
  }
}
