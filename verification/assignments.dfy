/**
 * The agent-to-university assignment store (backend/src/models/AgentUniversityAssignment.js)
 * and the three operations of backend/src/controllers/agentUniversityController.js
 * that change or summarise it: bulk assignment, per-university sync and the
 * per-university counts. The collection is a sequence of records in insertion
 * order; each operation is a pure transition from one store to the next.
 */
module Assignments {
  import opened Common

  /** An ObjectId, as the hexadecimal string the request carries. */
  type Id = string

  /** Mongoose can cast the value to an ObjectId; the empty string stands for anything it cannot. */
  predicate ValidId(id: Id) { id != [] }

  /** One stored mapping; `assignedAt` is a time in milliseconds. */
  datatype Assignment = Assignment(agentId: Id, universityId: Id, assignedBy: Id, assignedAt: int)

  /** The `(agentId, universityId)` key of the unique index. */
  datatype Pair = Pair(agentId: Id, universityId: Id)

  type Store = seq<Assignment>

  /** The three required references are present. */
  predicate Complete(a: Assignment) {
    ValidId(a.agentId) && ValidId(a.universityId) && ValidId(a.assignedBy)
  }

  /** The unique compound index: no two records share an agent and a university. */
  predicate Unique(st: Store) {
    forall i, j :: 0 <= i < j < |st| ==> !(st[i].agentId == st[j].agentId && st[i].universityId == st[j].universityId)
  }

  /** What the schema and its index admit. */
  predicate WellFormed(st: Store) {
    Unique(st) && forall i :: 0 <= i < |st| ==> Complete(st[i])
  }

  /** Some record maps `agent` to `uni`. */
  predicate HasPair(st: Store, agent: Id, uni: Id) {
    exists i :: 0 <= i < |st| && st[i].agentId == agent && st[i].universityId == uni
  }

  /** A new document: `assignedAt` falls back to the creation time when not supplied. */
  function NewAssignment(agent: Id, uni: Id, actor: Id, at: Option<int>, now: int): (a: Assignment)
    ensures a.agentId == agent && a.universityId == uni && a.assignedBy == actor
    ensures at.Some? ==> a.assignedAt == at.value
    ensures at.None? ==> a.assignedAt == now
  {
    Assignment(agent, uni, actor, if at.Some? then at.value else now)
  }

  /** Outcome of a single-document insert under the schema. */
  datatype InsertResult = Inserted(store: Store) | ValidationError | DuplicateKey

  /** `create`: required fields are checked first, then the unique index. */
  function Insert(st: Store, a: Assignment): (r: InsertResult)
    ensures r.Inserted? <==> Complete(a) && !HasPair(st, a.agentId, a.universityId)
    ensures r.Inserted? ==> r.store == st + [a]
  {
    if !Complete(a) then ValidationError
    else if HasPair(st, a.agentId, a.universityId) then DuplicateKey
    else Inserted(st + [a])
  }

  /** An insert accepted by the schema keeps the store well-formed. */
  lemma InsertKeepsWellFormed(st: Store, a: Assignment)
    requires WellFormed(st)
    requires Insert(st, a).Inserted?
    ensures WellFormed(Insert(st, a).store)
  {
    var r := st + [a];
    forall i, j | 0 <= i < j < |r| ensures !(r[i].agentId == r[j].agentId && r[i].universityId == r[j].universityId) {
      if j == |st| {
        assert r[i] == st[i];
      }
    }
  }

  /** The index is on the pair only: one agent may hold many universities and one university many agents. */
  lemma UniqueIsPerPair(agent: Id, u1: Id, u2: Id, a2: Id, actor: Id, now: int)
    requires u1 != u2 && agent != a2
    ensures var st := [Assignment(agent, u1, actor, now), Assignment(agent, u2, actor, now), Assignment(a2, u1, actor, now)];
      Unique(st)
  {
  }

  /** Once present, a pair stays present in any extension of the store. */
  lemma HasPairExtends(st: Store, ext: Store, agent: Id, uni: Id)
    requires |st| <= |ext| && ext[..|st|] == st
    requires HasPair(st, agent, uni)
    ensures HasPair(ext, agent, uni)
  {
    var i :| 0 <= i < |st| && st[i].agentId == agent && st[i].universityId == uni;
    assert ext[i] == st[i];
  }

  // ---------------------------------------------------------------------------
  // Responses

  datatype Response =
    | Success(message: string)
    | Synced(added: nat, removed: nat)
    | BadRequest(message: string)
    | ServerError(message: string)

  // ---------------------------------------------------------------------------
  // bulkAssign

  /** The pairs of one university with every agent, in agent order. */
  function Row(uni: Id, agents: seq<Id>): (r: seq<Pair>)
    ensures |r| == |agents|
    ensures forall j :: 0 <= j < |agents| ==> r[j] == Pair(agents[j], uni)
  {
    seq(|agents|, j requires 0 <= j < |agents| => Pair(agents[j], uni))
  }

  /** The nested loops: universities outside, agents inside. */
  function Product(unis: seq<Id>, agents: seq<Id>): seq<Pair> {
    if unis == [] then [] else Row(unis[0], agents) + Product(unis[1..], agents)
  }

  lemma {:induction false} ProductLength(unis: seq<Id>, agents: seq<Id>)
    ensures |Product(unis, agents)| == |unis| * |agents|
  {
    if unis != [] {
      ProductLength(unis[1..], agents);
      assert |unis| * |agents| == |agents| + |unis[1..]| * |agents|;
    }
  }

  /** Entry `i * |agents| + j` of the product is university `i` with agent `j`. */
  lemma {:induction false} ProductAt(unis: seq<Id>, agents: seq<Id>, i: nat, j: nat)
    requires i < |unis| && j < |agents|
    ensures i * |agents| + j < |Product(unis, agents)|
    ensures Product(unis, agents)[i * |agents| + j] == Pair(agents[j], unis[i])
  {
    var n := |agents|;
    ProductLength(unis, agents);
    if i > 0 {
      ProductAt(unis[1..], agents, i - 1, j);
      ProductLength(unis[1..], agents);
      var k := (i - 1) * n + j;
      assert i * n + j == n + k;
      assert Product(unis, agents) == Row(unis[0], agents) + Product(unis[1..], agents);
      assert Product(unis, agents)[n + k] == Product(unis[1..], agents)[k];
    } else {
      assert Product(unis, agents) == Row(unis[0], agents) + Product(unis[1..], agents);
    }
  }

  /** Every (university, agent) combination occurs in the product. */
  lemma ProductCovers(unis: seq<Id>, agents: seq<Id>)
    ensures forall i, j :: 0 <= i < |unis| && 0 <= j < |agents| ==> Pair(agents[j], unis[i]) in Product(unis, agents)
  {
    forall i, j | 0 <= i < |unis| && 0 <= j < |agents|
      ensures Pair(agents[j], unis[i]) in Product(unis, agents)
    {
      ProductAt(unis, agents, i, j);
    }
  }

  /** Every entry of the product pairs a requested agent with a requested university. */
  lemma {:induction false} ProductMembers(unis: seq<Id>, agents: seq<Id>)
    ensures forall k :: 0 <= k < |Product(unis, agents)| ==>
      Product(unis, agents)[k].universityId in unis && Product(unis, agents)[k].agentId in agents
  {
    if unis != [] {
      ProductMembers(unis[1..], agents);
      var row := Row(unis[0], agents);
      var p := Product(unis, agents);
      forall k | 0 <= k < |p| ensures p[k].universityId in unis && p[k].agentId in agents {
        if k >= |row| {
          assert p[k] == Product(unis[1..], agents)[k - |row|];
        }
      }
    }
  }

  /** `updateOne` with `$setOnInsert` and `upsert`: insert the pair only when it is absent. */
  function Upsert(st: Store, p: Pair, actor: Id, now: int): Store {
    if HasPair(st, p.agentId, p.universityId) then st
    else st + [Assignment(p.agentId, p.universityId, actor, now)]
  }

  /** `bulkWrite` of the upserts, in order. */
  function UpsertAll(st: Store, ps: seq<Pair>, actor: Id, now: int): Store
    decreases |ps|
  {
    if ps == [] then st else UpsertAll(Upsert(st, ps[0], actor, now), ps[1..], actor, now)
  }

  /** Every requested id casts; otherwise the whole write fails. */
  predicate AllValid(ids: seq<Id>) { forall i :: 0 <= i < |ids| ==> ValidId(ids[i]) }

  /**
   * `bulkAssign`. A missing, non-array or empty `universityIds` is rejected
   * before `agentIds` is looked at; a write that cannot cast an id aborts.
   */
  function BulkAssign(st: Store, unis: Option<seq<Id>>, agents: Option<seq<Id>>, actor: Id, now: int): (r: (Store, Response))
    ensures (unis.None? || unis.value == []) ==> r == (st, BadRequest("University IDs are required"))
    ensures unis.Some? && unis.value != [] && (agents.None? || agents.value == []) ==>
      r == (st, BadRequest("Agent IDs are required"))
    ensures r.1.Success? <==>
      (unis.Some? && unis.value != [] && agents.Some? && agents.value != []
       && AllValid(unis.value) && AllValid(agents.value))
    ensures !r.1.Success? ==> r.0 == st
  {
    if unis.None? || unis.value == [] then (st, BadRequest("University IDs are required"))
    else if agents.None? || agents.value == [] then (st, BadRequest("Agent IDs are required"))
    else if !AllValid(unis.value) || !AllValid(agents.value) then (st, ServerError("Failed to perform bulk assignment"))
    else (UpsertAll(st, Product(unis.value, agents.value), actor, now), Success("Bulk assignment completed successfully"))
  }

  /** Upserting never removes or changes a record: the old store is a prefix of the new one. */
  lemma {:induction false} UpsertAllExtends(st: Store, ps: seq<Pair>, actor: Id, now: int)
    ensures |st| <= |UpsertAll(st, ps, actor, now)|
    ensures UpsertAll(st, ps, actor, now)[..|st|] == st
    decreases |ps|
  {
    if ps != [] {
      var st1 := Upsert(st, ps[0], actor, now);
      UpsertAllExtends(st1, ps[1..], actor, now);
      assert st1[..|st|] == st;
    }
  }

  /** After the upserts every requested pair is stored. */
  lemma {:induction false} UpsertAllCovers(st: Store, ps: seq<Pair>, actor: Id, now: int)
    ensures forall k :: 0 <= k < |ps| ==> HasPair(UpsertAll(st, ps, actor, now), ps[k].agentId, ps[k].universityId)
    decreases |ps|
  {
    if ps != [] {
      var st1 := Upsert(st, ps[0], actor, now);
      var r := UpsertAll(st, ps, actor, now);
      UpsertAllCovers(st1, ps[1..], actor, now);
      UpsertAllExtends(st1, ps[1..], actor, now);
      assert HasPair(st1, ps[0].agentId, ps[0].universityId) by {
        if !HasPair(st, ps[0].agentId, ps[0].universityId) {
          assert st1[|st|] == Assignment(ps[0].agentId, ps[0].universityId, actor, now);
        }
      }
      HasPairExtends(st1, r, ps[0].agentId, ps[0].universityId);
      forall k | 0 <= k < |ps| ensures HasPair(r, ps[k].agentId, ps[k].universityId) {
        if k > 0 { assert ps[k] == ps[1..][k - 1]; }
      }
    }
  }

  /** A record the upserts add is a requested pair that was absent, written actor `actor` at `now`. */
  predicate AddedBy(st: Store, ps: seq<Pair>, actor: Id, now: int, a: Assignment) {
    Pair(a.agentId, a.universityId) in ps && !HasPair(st, a.agentId, a.universityId)
    && a.assignedBy == actor && a.assignedAt == now
  }

  lemma {:induction false} UpsertAllAdds(st: Store, ps: seq<Pair>, actor: Id, now: int)
    ensures var r := UpsertAll(st, ps, actor, now);
      |st| <= |r| && forall i :: |st| <= i < |r| ==> AddedBy(st, ps, actor, now, r[i])
    decreases |ps|
  {
    UpsertAllExtends(st, ps, actor, now);
    if ps != [] {
      var st1 := Upsert(st, ps[0], actor, now);
      var r := UpsertAll(st, ps, actor, now);
      UpsertAllAdds(st1, ps[1..], actor, now);
      forall i | |st| <= i < |r| ensures AddedBy(st, ps, actor, now, r[i]) {
        if i < |st1| {
          assert st1 == st + [Assignment(ps[0].agentId, ps[0].universityId, actor, now)];
          UpsertAllExtends(st1, ps[1..], actor, now);
          assert r[i] == st1[i];
        } else {
          assert AddedBy(st1, ps[1..], actor, now, r[i]);
          assert Pair(r[i].agentId, r[i].universityId) in ps;
          if HasPair(st, r[i].agentId, r[i].universityId) {
            HasPairExtends(st, st1, r[i].agentId, r[i].universityId);
          }
        }
      }
    }
  }

  /** Upserting keeps the store well-formed when the writer and every requested id are valid. */
  lemma {:induction false} UpsertAllWellFormed(st: Store, ps: seq<Pair>, actor: Id, now: int)
    requires WellFormed(st) && ValidId(actor)
    requires forall k :: 0 <= k < |ps| ==> ValidId(ps[k].agentId) && ValidId(ps[k].universityId)
    ensures WellFormed(UpsertAll(st, ps, actor, now))
    decreases |ps|
  {
    if ps != [] {
      var st1 := Upsert(st, ps[0], actor, now);
      if !HasPair(st, ps[0].agentId, ps[0].universityId) {
        InsertKeepsWellFormed(st, Assignment(ps[0].agentId, ps[0].universityId, actor, now));
      }
      assert forall k :: 0 <= k < |ps[1..]| ==> ps[1..][k] == ps[k + 1];
      UpsertAllWellFormed(st1, ps[1..], actor, now);
    }
  }

  /** Upserting pairs that are all present already changes nothing. */
  lemma {:induction false} UpsertAllPresent(st: Store, ps: seq<Pair>, actor: Id, now: int)
    requires forall k :: 0 <= k < |ps| ==> HasPair(st, ps[k].agentId, ps[k].universityId)
    ensures UpsertAll(st, ps, actor, now) == st
    decreases |ps|
  {
    if ps != [] {
      assert forall k :: 0 <= k < |ps[1..]| ==> ps[1..][k] == ps[k + 1];
      UpsertAllPresent(st, ps[1..], actor, now);
    }
  }

  /** After the upserts every pair present in the request list is stored. */
  lemma UpsertAllStores(st: Store, ps: seq<Pair>, actor: Id, now: int, p: Pair)
    requires p in ps
    ensures HasPair(UpsertAll(st, ps, actor, now), p.agentId, p.universityId)
  {
    UpsertAllCovers(st, ps, actor, now);
    var k :| 0 <= k < |ps| && ps[k] == p;
  }

  /** A successful bulk assignment stores every requested (university, agent) combination. */
  lemma BulkAssignCovers(st: Store, unis: seq<Id>, agents: seq<Id>, actor: Id, now: int)
    requires BulkAssign(st, Some(unis), Some(agents), actor, now).1.Success?
    ensures forall i, j :: 0 <= i < |unis| && 0 <= j < |agents| ==>
      HasPair(BulkAssign(st, Some(unis), Some(agents), actor, now).0, agents[j], unis[i])
  {
    var ps := Product(unis, agents);
    ProductCovers(unis, agents);
    forall i, j | 0 <= i < |unis| && 0 <= j < |agents|
      ensures HasPair(UpsertAll(st, ps, actor, now), agents[j], unis[i])
    {
      UpsertAllStores(st, ps, actor, now, Pair(agents[j], unis[i]));
    }
  }

  /**
   * Bulk assignment keeps every earlier record exactly as it was (so an
   * existing pair keeps its `assignedBy`), and adds only absent requested
   * pairs written by the caller at the current time.
   */
  lemma BulkAssignOnlyAdds(st: Store, unis: seq<Id>, agents: seq<Id>, actor: Id, now: int)
    requires BulkAssign(st, Some(unis), Some(agents), actor, now).1.Success?
    ensures var r := BulkAssign(st, Some(unis), Some(agents), actor, now).0;
      && |st| <= |r| && r[..|st|] == st
      && (forall i :: |st| <= i < |r| ==>
            r[i].universityId in unis && r[i].agentId in agents && !HasPair(st, r[i].agentId, r[i].universityId)
            && r[i].assignedBy == actor && r[i].assignedAt == now)
  {
    var ps := Product(unis, agents);
    var r := UpsertAll(st, ps, actor, now);
    UpsertAllExtends(st, ps, actor, now);
    UpsertAllAdds(st, ps, actor, now);
    ProductMembers(unis, agents);
    forall i | |st| <= i < |r|
      ensures r[i].universityId in unis && r[i].agentId in agents
    {
      assert AddedBy(st, ps, actor, now, r[i]);
      var k :| 0 <= k < |ps| && ps[k] == Pair(r[i].agentId, r[i].universityId);
    }
  }

  /** Bulk assignment keeps the store well-formed. */
  lemma BulkAssignWellFormed(st: Store, unis: Option<seq<Id>>, agents: Option<seq<Id>>, actor: Id, now: int)
    requires WellFormed(st) && ValidId(actor)
    ensures WellFormed(BulkAssign(st, unis, agents, actor, now).0)
  {
    if BulkAssign(st, unis, agents, actor, now).1.Success? {
      var ps := Product(unis.value, agents.value);
      ProductMembers(unis.value, agents.value);
      forall k | 0 <= k < |ps| ensures ValidId(ps[k].agentId) && ValidId(ps[k].universityId) {
        var x := ps[k].universityId;
        var y := ps[k].agentId;
        var iu :| 0 <= iu < |unis.value| && unis.value[iu] == x;
        var ia :| 0 <= ia < |agents.value| && agents.value[ia] == y;
      }
      UpsertAllWellFormed(st, ps, actor, now);
    }
  }

  /** Repeating a bulk assignment with the same input leaves the store unchanged. */
  lemma BulkAssignIdempotent(st: Store, unis: Option<seq<Id>>, agents: Option<seq<Id>>, actor: Id, now: int, later: Id, now2: int)
    ensures var st1 := BulkAssign(st, unis, agents, actor, now).0;
      BulkAssign(st1, unis, agents, later, now2).0 == st1
  {
    var st1 := BulkAssign(st, unis, agents, actor, now).0;
    if BulkAssign(st, unis, agents, actor, now).1.Success? {
      var ps := Product(unis.value, agents.value);
      UpsertAllCovers(st, ps, actor, now);
      UpsertAllPresent(st1, ps, later, now2);
    }
  }

  // ---------------------------------------------------------------------------
  // Queries

  /** `find({ universityId })`: that university's records, in store order. */
  function RecordsOf(st: Store, uni: Id): (r: Store)
    ensures |r| <= |st|
  {
    Filter(st, AtUniversity(uni))
  }

  function AtUniversity(uni: Id): Assignment -> bool {
    (a: Assignment) => a.universityId == uni
  }

  /** The records of `uni` are exactly the ones whose university is `uni`, in store order. */
  lemma RecordsOfMembers(st: Store, uni: Id)
    ensures forall i :: 0 <= i < |RecordsOf(st, uni)| ==> RecordsOf(st, uni)[i] in st && RecordsOf(st, uni)[i].universityId == uni
    ensures forall i :: 0 <= i < |st| && st[i].universityId == uni ==> st[i] in RecordsOf(st, uni)
    ensures IsSubseq(RecordsOf(st, uni), st)
  {
    FilterMembers(st, AtUniversity(uni));
  }

  /** `existingAssignments.map(a => a.agentId.toString())`. */
  function AgentsOf(st: Store, uni: Id): (r: seq<Id>)
    ensures |r| <= |st|
  {
    if st == [] then []
    else (if st[0].universityId == uni then [st[0].agentId] else []) + AgentsOf(st[1..], uni)
  }

  /** An agent is listed for `uni` exactly when the store pairs them. */
  lemma {:induction false} AgentsOfMembers(st: Store, uni: Id)
    ensures forall x :: x in AgentsOf(st, uni) <==> HasPair(st, x, uni)
  {
    if st != [] {
      AgentsOfMembers(st[1..], uni);
      forall x ensures x in AgentsOf(st, uni) <==> HasPair(st, x, uni) {
        if HasPair(st, x, uni) {
          var i :| 0 <= i < |st| && st[i].agentId == x && st[i].universityId == uni;
          if i > 0 { assert st[1..][i - 1] == st[i]; }
        }
        if HasPair(st[1..], x, uni) {
          var i :| 0 <= i < |st[1..]| && st[1..][i].agentId == x && st[1..][i].universityId == uni;
          assert st[i + 1] == st[1..][i];
        }
      }
    }
  }

  /** Under the unique index no agent is listed twice for one university. */
  lemma {:induction false} AgentsOfDistinct(st: Store, uni: Id)
    requires Unique(st)
    ensures Distinct(AgentsOf(st, uni))
  {
    if st != [] {
      var t := st[1..];
      assert Unique(t) by {
        forall i, j | 0 <= i < j < |t| ensures !(t[i].agentId == t[j].agentId && t[i].universityId == t[j].universityId) {
          assert t[i] == st[i + 1] && t[j] == st[j + 1];
        }
      }
      AgentsOfDistinct(t, uni);
      if st[0].universityId == uni {
        AgentsOfMembers(t, uni);
        assert !HasPair(t, st[0].agentId, uni) by {
          forall i | 0 <= i < |t| ensures !(t[i].agentId == st[0].agentId && t[i].universityId == uni) {
            assert t[i] == st[i + 1];
          }
        }
        var r := AgentsOf(st, uni);
        var rest := AgentsOf(t, uni);
        assert r == [st[0].agentId] + rest;
        forall i, j | 0 <= i < j < |r| ensures r[i] != r[j] {
          if i == 0 {
            assert r[j] == rest[j - 1];
          } else {
            assert r[i] == rest[i - 1] && r[j] == rest[j - 1];
          }
        }
      }
    }
  }

  // ---------------------------------------------------------------------------
  // getAssignmentCounts

  /** One `$group` output document. */
  datatype Group = Group(universityId: Id, count: nat, agents: seq<Id>)

  /** `$sum: 1` over the records of `uni`. */
  function CountOf(st: Store, uni: Id): (n: nat)
    ensures n <= |st|
  {
    if st == [] then 0 else (if st[0].universityId == uni then 1 else 0) + CountOf(st[1..], uni)
  }

  /** The university of every record, in store order. */
  function Universities(st: Store): (r: seq<Id>)
    ensures |r| == |st|
    ensures forall i :: 0 <= i < |st| ==> r[i] == st[i].universityId
  {
    seq(|st|, i requires 0 <= i < |st| => st[i].universityId)
  }

  /** `aggregate([{ $group: { _id: '$universityId', count: { $sum: 1 }, agents: { $push: '$agentId' } } }])`. */
  function AssignmentCounts(st: Store): (r: seq<Group>)
    ensures |r| <= |st|
  {
    var ids := Dedup(Universities(st));
    seq(|ids|, k requires 0 <= k < |ids| => Group(ids[k], CountOf(st, ids[k]), AgentsOf(st, ids[k])))
  }

  /** `$sum: 1` and `$push` see the same records, so each group's count is the length of its agent list. */
  lemma {:induction false} CountIsAgentsLength(st: Store, uni: Id)
    ensures CountOf(st, uni) == |AgentsOf(st, uni)|
  {
    if st != [] {
      CountIsAgentsLength(st[1..], uni);
    }
  }

  /** The count of a university is the number of its records. */
  lemma {:induction false} CountIsRecords(st: Store, uni: Id)
    ensures CountOf(st, uni) == |RecordsOf(st, uni)|
  {
    if st != [] {
      CountIsRecords(st[1..], uni);
    }
  }

  /** There is one group per university present in the store, and no other. */
  lemma AssignmentCountsGroups(st: Store)
    ensures var r := AssignmentCounts(st);
      && (forall k :: 0 <= k < |r| ==>
            r[k].count == |r[k].agents| && r[k].count == |RecordsOf(st, r[k].universityId)| && r[k].count > 0)
      && (forall i :: 0 <= i < |st| ==> exists k :: 0 <= k < |r| && r[k].universityId == st[i].universityId)
      && (forall k, l :: 0 <= k < l < |r| ==> r[k].universityId != r[l].universityId)
  {
    var us := Universities(st);
    var ids := Dedup(us);
    var r := AssignmentCounts(st);
    forall k | 0 <= k < |r|
      ensures r[k].count == |r[k].agents| && r[k].count == |RecordsOf(st, r[k].universityId)| && r[k].count > 0
    {
      CountIsAgentsLength(st, ids[k]);
      CountIsRecords(st, ids[k]);
      assert ids[k] in us;
      var i :| 0 <= i < |us| && us[i] == ids[k];
      RecordsOfMembers(st, ids[k]);
      assert st[i] in RecordsOf(st, ids[k]);
    }
    forall i | 0 <= i < |st| ensures exists k :: 0 <= k < |r| && r[k].universityId == st[i].universityId {
      assert us[i] in ids;
      var k :| 0 <= k < |ids| && ids[k] == us[i];
      assert r[k].universityId == st[i].universityId;
    }
  }

  // ---------------------------------------------------------------------------
  // syncUniversityAgents

  /** `agentIds.filter(id => !existingAgentIds.includes(id))` and its mirror image. */
  function Missing(xs: seq<Id>, from: seq<Id>): (r: seq<Id>)
    ensures |r| <= |xs|
  {
    Filter(xs, NotIn(from))
  }

  function NotIn(from: seq<Id>): Id -> bool {
    (x: Id) => x !in from
  }

  /** Removes the records of `uni` whose agent is listed (`deleteMany` with `$in`). */
  function DeleteAgents(st: Store, uni: Id, agents: seq<Id>): (r: Store)
    ensures |r| <= |st|
  {
    Filter(st, NotListed(uni, agents))
  }

  function NotListed(uni: Id, agents: seq<Id>): Assignment -> bool {
    (a: Assignment) => !(a.universityId == uni && a.agentId in agents)
  }

  /** The new records `insertMany` is given, in request order. */
  function NewRecords(uni: Id, agents: seq<Id>, actor: Id, now: int): (r: Store)
    ensures |r| == |agents|
    ensures forall i :: 0 <= i < |agents| ==> r[i] == Assignment(agents[i], uni, actor, now)
  {
    seq(|agents|, i requires 0 <= i < |agents| => Assignment(agents[i], uni, actor, now))
  }

  /**
   * `syncUniversityAgents`. The deletions are committed before the insert; an
   * insert the schema or the unique index refuses (an id that does not cast, a
   * missing writer, an agent requested twice) fails as a whole and the handler
   * answers 500 with the deletions already done.
   */
  function Sync(st: Store, uni: Id, agents: Option<seq<Id>>, actor: Id, now: int): (r: (Store, Response))
    ensures uni == [] ==> r == (st, BadRequest("University ID is required"))
    ensures uni != [] && agents.None? ==> r == (st, BadRequest("Agent IDs must be an array"))
    ensures r.1.Synced? ==>
      (r.1.added == |Missing(agents.value, AgentsOf(st, uni))|
       && r.1.removed == |Missing(AgentsOf(st, uni), agents.value)|)
  {
    if uni == [] then (st, BadRequest("University ID is required"))
    else if agents.None? then (st, BadRequest("Agent IDs must be an array"))
    else
      var existing := AgentsOf(st, uni);
      var toRemove := Missing(existing, agents.value);
      var toAdd := Missing(agents.value, existing);
      var st1 := if |toRemove| > 0 then DeleteAgents(st, uni, toRemove) else st;
      var recs := NewRecords(uni, toAdd, actor, now);
      if |toAdd| > 0 && !InsertManyOk(st1, recs) then (st1, ServerError("Failed to sync agents"))
      else (st1 + recs, Synced(|toAdd|, |toRemove|))
  }

  /** `insertMany` succeeds when every document is complete and no key repeats or already exists. */
  predicate InsertManyOk(st: Store, recs: Store) {
    (forall i :: 0 <= i < |recs| ==> Complete(recs[i]) && !HasPair(st, recs[i].agentId, recs[i].universityId))
    && Unique(recs)
  }

  /** `toRemove` is drawn from the existing agents and `toAdd` avoids them. */
  lemma SyncPlan(existing: seq<Id>, requested: seq<Id>)
    ensures forall i :: 0 <= i < |Missing(existing, requested)| ==>
      Missing(existing, requested)[i] in existing && Missing(existing, requested)[i] !in requested
    ensures forall i :: 0 <= i < |Missing(requested, existing)| ==> Missing(requested, existing)[i] !in existing
    ensures forall i :: 0 <= i < |existing| && existing[i] !in requested ==> existing[i] in Missing(existing, requested)
    ensures forall i :: 0 <= i < |requested| && requested[i] !in existing ==> requested[i] in Missing(requested, existing)
  {
    FilterMembers(existing, NotIn(requested));
    FilterMembers(requested, NotIn(existing));
  }

  /** The ids `Missing` keeps are exactly those of `xs` absent from `from`. */
  lemma MissingMembers(xs: seq<Id>, from: seq<Id>, x: Id)
    ensures x in Missing(xs, from) <==> x in xs && x !in from
  {
    FilterMembers(xs, NotIn(from));
    if x in xs && x !in from {
      var i :| 0 <= i < |xs| && xs[i] == x;
    }
    if x in Missing(xs, from) {
      var i :| 0 <= i < |Missing(xs, from)| && Missing(xs, from)[i] == x;
    }
  }

  /** A pair survives the deletion exactly when it was stored and not among the deleted ones. */
  lemma DeleteAgentsHas(st: Store, uni: Id, agents: seq<Id>, x: Id, v: Id)
    ensures HasPair(DeleteAgents(st, uni, agents), x, v) <==> HasPair(st, x, v) && !(v == uni && x in agents)
  {
    var r := DeleteAgents(st, uni, agents);
    FilterMembers(st, NotListed(uni, agents));
    if HasPair(r, x, v) {
      var i :| 0 <= i < |r| && r[i].agentId == x && r[i].universityId == v;
      assert r[i] in st && NotListed(uni, agents)(r[i]);
      var k :| 0 <= k < |st| && st[k] == r[i];
    }
    if HasPair(st, x, v) && !(v == uni && x in agents) {
      var i :| 0 <= i < |st| && st[i].agentId == x && st[i].universityId == v;
      assert st[i] in r;
      var k :| 0 <= k < |r| && r[k] == st[i];
    }
  }

  /** Deleting records keeps the store well-formed. */
  lemma {:induction false} DeleteAgentsWellFormed(st: Store, uni: Id, agents: seq<Id>)
    requires WellFormed(st)
    ensures WellFormed(DeleteAgents(st, uni, agents))
  {
    var r := DeleteAgents(st, uni, agents);
    FilterMembers(st, NotListed(uni, agents));
    forall i | 0 <= i < |r| ensures Complete(r[i]) {
      assert r[i] in st;
    }
    if st != [] {
      var t := st[1..];
      assert WellFormed(t) by {
        forall i, j | 0 <= i < j < |t| ensures !(t[i].agentId == t[j].agentId && t[i].universityId == t[j].universityId) {
          assert t[i] == st[i + 1] && t[j] == st[j + 1];
        }
        forall i | 0 <= i < |t| ensures Complete(t[i]) {
          assert t[i] == st[i + 1];
        }
      }
      DeleteAgentsWellFormed(t, uni, agents);
      var rest := DeleteAgents(t, uni, agents);
      if NotListed(uni, agents)(st[0]) {
        assert r == [st[0]] + rest;
        assert !HasPair(t, st[0].agentId, st[0].universityId) by {
          forall i | 0 <= i < |t| ensures !(t[i].agentId == st[0].agentId && t[i].universityId == st[0].universityId) {
            assert t[i] == st[i + 1];
          }
        }
        DeleteAgentsHas(t, uni, agents, st[0].agentId, st[0].universityId);
        forall i, j | 0 <= i < j < |r| ensures !(r[i].agentId == r[j].agentId && r[i].universityId == r[j].universityId) {
          if i == 0 {
            assert r[j] == rest[j - 1];
          } else {
            assert r[i] == rest[i - 1] && r[j] == rest[j - 1];
          }
        }
      }
    }
  }

  /** The conditions under which sync succeeds: valid ids, a known writer and no agent requested twice. */
  predicate SyncReady(uni: Id, agents: seq<Id>, actor: Id) {
    ValidId(uni) && ValidId(actor) && AllValid(agents) && Distinct(agents)
  }

  /** With a duplicate-free list of valid ids the sync succeeds and reports how many agents it added and removed. */
  lemma SyncSucceeds(st: Store, uni: Id, agents: seq<Id>, actor: Id, now: int)
    requires SyncReady(uni, agents, actor)
    ensures Sync(st, uni, Some(agents), actor, now).1
      == Synced(|Missing(agents, AgentsOf(st, uni))|, |Missing(AgentsOf(st, uni), agents)|)
  {
    var existing := AgentsOf(st, uni);
    var toRemove := Missing(existing, agents);
    var toAdd := Missing(agents, existing);
    var st1 := if |toRemove| > 0 then DeleteAgents(st, uni, toRemove) else st;
    var recs := NewRecords(uni, toAdd, actor, now);
    if |toAdd| > 0 {
      FilterMembers(agents, NotIn(existing));
      FilterDistinct(agents, NotIn(existing));
      AgentsOfMembers(st, uni);
      forall i | 0 <= i < |recs| ensures Complete(recs[i]) && !HasPair(st1, recs[i].agentId, recs[i].universityId) {
        var x := toAdd[i];
        assert x in agents && x !in existing;
        if |toRemove| > 0 {
          DeleteAgentsHas(st, uni, toRemove, x, uni);
        }
      }
      assert Unique(recs) by {
        forall i, j | 0 <= i < j < |recs| ensures !(recs[i].agentId == recs[j].agentId && recs[i].universityId == recs[j].universityId) {
          assert toAdd[i] != toAdd[j];
        }
      }
    }
  }

  /** Under the unique index the reported counts are the sizes of the set differences. */
  lemma SyncCounts(st: Store, uni: Id, agents: seq<Id>, actor: Id, now: int)
    requires SyncReady(uni, agents, actor) && Unique(st)
    ensures var r := Sync(st, uni, Some(agents), actor, now).1;
      && r.Synced?
      && r.added == |(set x | x in agents) - (set x | x in AgentsOf(st, uni))|
      && r.removed == |(set x | x in AgentsOf(st, uni)) - (set x | x in agents)|
  {
    SyncSucceeds(st, uni, agents, actor, now);
    var existing := AgentsOf(st, uni);
    var toRemove := Missing(existing, agents);
    var toAdd := Missing(agents, existing);
    FilterDistinct(agents, NotIn(existing));
    AgentsOfDistinct(st, uni);
    FilterDistinct(existing, NotIn(agents));
    DistinctCardinality(toAdd);
    DistinctCardinality(toRemove);
    forall x ensures x in toAdd <==> x in agents && x !in existing {
      MissingMembers(agents, existing, x);
    }
    forall x ensures x in toRemove <==> x in existing && x !in agents {
      MissingMembers(existing, agents, x);
    }
    assert (set x | x in toAdd) == (set x | x in agents) - (set x | x in existing);
    assert (set x | x in toRemove) == (set x | x in existing) - (set x | x in agents);
  }

  /** After a successful sync the university's agents are exactly the requested ones. */
  lemma SyncAgentSet(st: Store, uni: Id, agents: seq<Id>, actor: Id, now: int, x: Id)
    requires SyncReady(uni, agents, actor)
    ensures HasPair(Sync(st, uni, Some(agents), actor, now).0, x, uni) <==> x in agents
  {
    SyncSucceeds(st, uni, agents, actor, now);
    var existing := AgentsOf(st, uni);
    var toRemove := Missing(existing, agents);
    var toAdd := Missing(agents, existing);
    var st1 := if |toRemove| > 0 then DeleteAgents(st, uni, toRemove) else st;
    var recs := NewRecords(uni, toAdd, actor, now);
    var r := st1 + recs;
    assert Sync(st, uni, Some(agents), actor, now).0 == r;
    AgentsOfMembers(st, uni);
    MissingMembers(existing, agents, x);
    MissingMembers(agents, existing, x);
    assert HasPair(st1, x, uni) <==> x in existing && x in agents by {
      if |toRemove| > 0 {
        DeleteAgentsHas(st, uni, toRemove, x, uni);
      } else {
        assert x !in toRemove;
      }
    }
    assert HasPair(recs, x, uni) <==> x in toAdd by {
      if x in toAdd {
        var i :| 0 <= i < |toAdd| && toAdd[i] == x;
        assert recs[i].agentId == x;
      }
    }
    HasPairAppend(st1, recs, x, uni);
  }

  /** A pair is in a concatenation exactly when it is in one of the parts. */
  lemma HasPairAppend(a: Store, b: Store, x: Id, v: Id)
    ensures HasPair(a + b, x, v) <==> HasPair(a, x, v) || HasPair(b, x, v)
  {
    if HasPair(a + b, x, v) {
      var i :| 0 <= i < |a + b| && (a + b)[i].agentId == x && (a + b)[i].universityId == v;
      if i >= |a| { assert b[i - |a|] == (a + b)[i]; }
    }
    if HasPair(b, x, v) {
      var i :| 0 <= i < |b| && b[i].agentId == x && b[i].universityId == v;
      assert (a + b)[|a| + i] == b[i];
    }
    if HasPair(a, x, v) {
      var i :| 0 <= i < |a| && a[i].agentId == x && a[i].universityId == v;
      assert (a + b)[i] == a[i];
    }
  }

  /** An empty request removes every assignment of the university. */
  lemma SyncEmptyClears(st: Store, uni: Id, actor: Id, now: int, x: Id)
    requires ValidId(uni) && ValidId(actor)
    ensures Sync(st, uni, Some([]), actor, now).1.Synced?
    ensures !HasPair(Sync(st, uni, Some([]), actor, now).0, x, uni)
  {
    SyncSucceeds(st, uni, [], actor, now);
    SyncAgentSet(st, uni, [], actor, now, x);
  }

  /** Whatever the outcome, records of other universities are left exactly as they were. */
  lemma SyncOthersUntouched(st: Store, uni: Id, agents: Option<seq<Id>>, actor: Id, now: int, v: Id)
    requires v != uni
    ensures RecordsOf(Sync(st, uni, agents, actor, now).0, v) == RecordsOf(st, v)
  {
    if uni != [] && agents.Some? {
      var existing := AgentsOf(st, uni);
      var toRemove := Missing(existing, agents.value);
      var toAdd := Missing(agents.value, existing);
      var st1 := if |toRemove| > 0 then DeleteAgents(st, uni, toRemove) else st;
      var recs := NewRecords(uni, toAdd, actor, now);
      assert RecordsOf(st1, v) == RecordsOf(st, v) by {
        if |toRemove| > 0 {
          forall i | 0 <= i < |st| && AtUniversity(v)(st[i]) ensures NotListed(uni, toRemove)(st[i]) {
          }
          FilterFilter(st, NotListed(uni, toRemove), AtUniversity(v));
        }
      }
      FilterAppend(st1, recs, AtUniversity(v));
      FilterNone(recs, AtUniversity(v));
      assert RecordsOf(st1 + recs, v) == RecordsOf(st1, v) + [];
    }
  }

  /** Sync keeps the store well-formed, also when its insert fails after the deletions. */
  lemma SyncWellFormed(st: Store, uni: Id, agents: Option<seq<Id>>, actor: Id, now: int)
    requires WellFormed(st)
    ensures WellFormed(Sync(st, uni, agents, actor, now).0)
  {
    if uni != [] && agents.Some? {
      var existing := AgentsOf(st, uni);
      var toRemove := Missing(existing, agents.value);
      var toAdd := Missing(agents.value, existing);
      var st1 := if |toRemove| > 0 then DeleteAgents(st, uni, toRemove) else st;
      var recs := NewRecords(uni, toAdd, actor, now);
      if |toRemove| > 0 {
        DeleteAgentsWellFormed(st, uni, toRemove);
      }
      if |toAdd| == 0 {
        assert st1 + recs == st1;
      } else if InsertManyOk(st1, recs) {
        InsertManyWellFormed(st1, recs);
      }
    }
  }

  /** An `insertMany` the schema and the index accept keeps the store well-formed. */
  lemma InsertManyWellFormed(st: Store, recs: Store)
    requires WellFormed(st) && InsertManyOk(st, recs)
    ensures WellFormed(st + recs)
  {
    var r := st + recs;
    forall i, j | 0 <= i < j < |r| ensures !(r[i].agentId == r[j].agentId && r[i].universityId == r[j].universityId) {
      if j >= |st| && i < |st| {
        assert r[j] == recs[j - |st|] && r[i] == st[i];
        assert !HasPair(st, recs[j - |st|].agentId, recs[j - |st|].universityId);
      } else if i >= |st| {
        assert r[j] == recs[j - |st|] && r[i] == recs[i - |st|];
      }
    }
    forall i | 0 <= i < |r| ensures Complete(r[i]) {
      if i >= |st| { assert r[i] == recs[i - |st|]; }
    }
  }

  /**
   * The requested list is not deduplicated: asking twice for an agent that is
   * not yet assigned makes the insert hit the unique index, and the call fails.
   */
  lemma SyncDuplicateFails(st: Store, uni: Id, x: Id, actor: Id, now: int)
    requires ValidId(uni) && !HasPair(st, x, uni)
    ensures Sync(st, uni, Some([x, x]), actor, now).1 == ServerError("Failed to sync agents")
  {
    var existing := AgentsOf(st, uni);
    AgentsOfMembers(st, uni);
    var toAdd := Missing([x, x], existing);
    assert toAdd == [x, x] by {
      FilterAll([x, x], NotIn(existing));
    }
    var recs := NewRecords(uni, toAdd, actor, now);
    assert !Unique(recs) by {
      assert recs[0].agentId == recs[1].agentId && recs[0].universityId == recs[1].universityId;
    }
  }
}
