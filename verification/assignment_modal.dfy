/**
 * The agent-assignment dialog of the brochure admin page
 * (frontend/src/pages/brochure/components/AgentAssignmentModal.jsx).
 * With exactly one university selected it edits that university's agent list
 * and saves it through the sync endpoint; with several it bulk-assigns the
 * chosen agents. The React state updates are modelled as pure functions from
 * the previous selection to the next; the requests it sends are values that
 * the server side (module Assignments) then applies.
 */
module AssignmentModal {
  import opened Common
  import opened Text
  import Assignments

  type Id = Assignments.Id

  /** One selected university means editing that university's list. */
  predicate IsEditMode(universityIds: seq<Id>) { |universityIds| == 1 }

  // ---------------------------------------------------------------------------
  // Opening the dialog
  // ---------------------------------------------------------------------------

  /**
   * The `agentId` of one row the assigned-agents endpoint returns: a bare id,
   * the populated agent document (its `_id`), or `null` when the agent
   * document no longer exists (`typeof null` is `'object'`, so reading `_id`
   * throws).
   */
  datatype AgentRef = Plain(id: Id) | Populated(id: Id) | Dangling

  /** The ids of the rows, or None when a dangling row makes the mapping throw. */
  function LoadSelection(rows: seq<AgentRef>): (r: Option<seq<Id>>)
    ensures r.None? <==> exists i :: 0 <= i < |rows| && rows[i].Dangling?
    ensures r.Some? ==> |r.value| == |rows| && forall i :: 0 <= i < |rows| ==> r.value[i] == rows[i].id
  {
    if rows == [] then Some([])
    else if rows[0].Dangling? then None
    else match LoadSelection(rows[1..]) {
      case None =>
        assert exists i :: 0 <= i < |rows[1..]| && rows[1..][i].Dangling?;
        None
      case Some(t) => Some([rows[0].id] + t)
    }
  }

  /**
   * What `getAssignedAgentsByUniversity` returns for `uni`: that university's
   * records in store order, each populated when its agent document is among
   * `agentDocs` and `null` otherwise.
   */
  function AssignedRows(st: Assignments.Store, uni: Id, agentDocs: set<Id>): (r: seq<AgentRef>)
    ensures |r| == |Assignments.AgentsOf(st, uni)|
    ensures forall i :: 0 <= i < |r| ==>
      (r[i].Dangling? <==> Assignments.AgentsOf(st, uni)[i] !in agentDocs)
      && (!r[i].Dangling? ==> r[i] == Populated(Assignments.AgentsOf(st, uni)[i]))
  {
    if st == [] then []
    else
      (if st[0].universityId == uni
       then [if st[0].agentId in agentDocs then Populated(st[0].agentId) else Dangling]
       else [])
      + AssignedRows(st[1..], uni, agentDocs)
  }

  datatype Opened = Opened(selected: seq<Id>, error: Option<string>)

  /**
   * The effect run when the dialog opens or the university selection changes.
   * Bulk mode starts from an empty selection; edit mode loads the current
   * assignments, and a failed request (`fetched` is None) or a row that cannot
   * be mapped leaves the selection as it was and reports an error.
   */
  function OnOpen(open: bool, universityIds: seq<Id>, selected: seq<Id>, fetched: Option<seq<AgentRef>>): (r: Opened)
    ensures !open ==> r == Opened(selected, None)
    ensures open && !IsEditMode(universityIds) ==> r == Opened([], None)
    ensures r.error.Some? ==> r.selected == selected && r.error == Some("Failed to load existing assignments")
    ensures open && IsEditMode(universityIds) ==>
      (r.error.None? <==> fetched.Some? && LoadSelection(fetched.value).Some?)
    ensures open && IsEditMode(universityIds) && r.error.None? ==> r.selected == LoadSelection(fetched.value).value
  {
    if !open then Opened(selected, None)
    else if !IsEditMode(universityIds) then Opened([], None)
    else if fetched.None? then Opened(selected, Some("Failed to load existing assignments"))
    else match LoadSelection(fetched.value) {
      case None => Opened(selected, Some("Failed to load existing assignments"))
      case Some(ids) => Opened(ids, None)
    }
  }

  /** Loading the rows of a university whose agents all exist yields exactly its listed agents. */
  lemma {:induction false} LoadAssignedRows(st: Assignments.Store, uni: Id, agentDocs: set<Id>)
    requires forall i :: 0 <= i < |st| ==> st[i].agentId in agentDocs
    ensures LoadSelection(AssignedRows(st, uni, agentDocs)) == Some(Assignments.AgentsOf(st, uni))
  {
    if st != [] {
      LoadAssignedRows(st[1..], uni, agentDocs);
      var rest := AssignedRows(st[1..], uni, agentDocs);
      if st[0].universityId == uni {
        var rows := AssignedRows(st, uni, agentDocs);
        assert rows == [Populated(st[0].agentId)] + rest;
        assert rows[1..] == rest;
        assert LoadSelection(rows) == Some([st[0].agentId] + Assignments.AgentsOf(st[1..], uni));
      } else {
        assert AssignedRows(st, uni, agentDocs) == rest;
        assert Assignments.AgentsOf(st, uni) == Assignments.AgentsOf(st[1..], uni);
      }
    }
  }

  /**
   * Opening the dialog on one university and saving without changes keeps that
   * university's assignments: the loaded selection is its agent list, and the
   * sync of that list leaves exactly the same agents assigned.
   */
  lemma OpenThenSaveKeepsAssignments(st: Assignments.Store, uni: Id, agentDocs: set<Id>, prior: seq<Id>,
                                     actor: Id, now: int)
    requires Assignments.WellFormed(st)
    requires Assignments.ValidId(uni) && Assignments.ValidId(actor)
    requires forall i :: 0 <= i < |st| ==> st[i].agentId in agentDocs
    ensures OnOpen(true, [uni], prior, Some(AssignedRows(st, uni, agentDocs)))
      == Opened(Assignments.AgentsOf(st, uni), None)
    ensures forall x ::
      Assignments.HasPair(Assignments.Sync(st, uni, Some(Assignments.AgentsOf(st, uni)), actor, now).0, x, uni)
      <==> Assignments.HasPair(st, x, uni)
  {
    LoadAssignedRows(st, uni, agentDocs);
    var agents := Assignments.AgentsOf(st, uni);
    Assignments.AgentsOfMembers(st, uni);
    Assignments.AgentsOfDistinct(st, uni);
    assert Assignments.AllValid(agents) by {
      forall i | 0 <= i < |agents| ensures Assignments.ValidId(agents[i]) {
        assert Assignments.HasPair(st, agents[i], uni);
        var k :| 0 <= k < |st| && st[k].agentId == agents[i] && st[k].universityId == uni;
        assert Assignments.Complete(st[k]);
      }
    }
    forall x ensures Assignments.HasPair(Assignments.Sync(st, uni, Some(agents), actor, now).0, x, uni)
      <==> Assignments.HasPair(st, x, uni)
    {
      Assignments.SyncAgentSet(st, uni, agents, actor, now, x);
    }
  }

  // ---------------------------------------------------------------------------
  // Searching the agent list
  // ---------------------------------------------------------------------------

  /** An approved agent as the agents endpoint lists it. */
  datatype Agent = Agent(id: Id, firstName: Option<string>, lastName: Option<string>, email: string,
                         companyName: Option<string>)

  /** `${agent.firstName} ${agent.lastName}`. */
  function FullName(a: Agent): string {
    Interpolate(a.firstName) + " " + Interpolate(a.lastName)
  }

  /** The agent matches an already lower-cased query on name, e-mail or company. */
  predicate MatchesQuery(a: Agent, query: string) {
    Contains(Lower(FullName(a)), query)
    || Contains(Lower(a.email), query)
    || Contains(Lower(OrElse(a.companyName, "")), query)
  }

  function Matching(query: string): Agent -> bool {
    (a: Agent) => MatchesQuery(a, query)
  }

  /** `filteredAgents`: the agents matching the search text, case-insensitively, in list order. */
  function FilteredAgents(agents: seq<Agent>, search: string): (r: seq<Agent>)
    ensures |r| <= |agents|
  {
    Filter(agents, Matching(Lower(search)))
  }

  /** An agent is shown exactly when it is listed and matches; the order is kept. */
  lemma FilteredAgentsMembers(agents: seq<Agent>, search: string)
    ensures forall a :: a in FilteredAgents(agents, search) <==> a in agents && MatchesQuery(a, Lower(search))
    ensures IsSubseq(FilteredAgents(agents, search), agents)
  {
    FilterMembers(agents, Matching(Lower(search)));
    var r := FilteredAgents(agents, search);
    forall a | a in agents && MatchesQuery(a, Lower(search)) ensures a in r {
      var i :| 0 <= i < |agents| && agents[i] == a;
      assert Matching(Lower(search))(agents[i]);
    }
  }

  /** An empty search shows every agent. */
  lemma EmptySearchShowsAll(agents: seq<Agent>)
    ensures FilteredAgents(agents, "") == agents
  {
    forall i | 0 <= i < |agents| ensures Matching(Lower(""))(agents[i]) {
      ContainsEmpty(Lower(FullName(agents[i])));
    }
    FilterAll(agents, Matching(Lower("")));
  }

  /** Typing the search in capitals shows the same agents. */
  lemma SearchIgnoresCase(agents: seq<Agent>, search: string)
    ensures FilteredAgents(agents, Upper(search)) == FilteredAgents(agents, search)
  {
    LowerOfUpper(search);
  }

  // ---------------------------------------------------------------------------
  // Editing the selection
  // ---------------------------------------------------------------------------

  /** `toggleAgent`: removes a selected agent, appends an unselected one. */
  function Toggle(selected: seq<Id>, id: Id): (r: seq<Id>)
    ensures |r| <= |selected| + 1
  {
    if id in selected then Filter(selected, Assignments.NotIn([id])) else selected + [id]
  }

  /** Toggling flips the agent's membership and leaves every other agent as it was. */
  lemma ToggleMembers(selected: seq<Id>, id: Id)
    ensures id in Toggle(selected, id) <==> id !in selected
    ensures forall x :: x != id ==> (x in Toggle(selected, id) <==> x in selected)
  {
    FilterMembers(selected, Assignments.NotIn([id]));
    if id in selected {
      var r := Toggle(selected, id);
      forall x | x != id && x in selected ensures x in r {
        var i :| 0 <= i < |selected| && selected[i] == x;
        assert Assignments.NotIn([id])(selected[i]);
      }
    }
  }

  /** Toggling never introduces a duplicate. */
  lemma ToggleDistinct(selected: seq<Id>, id: Id)
    requires Distinct(selected)
    ensures Distinct(Toggle(selected, id))
  {
    if id in selected {
      FilterDistinct(selected, Assignments.NotIn([id]));
    }
  }

  /** Toggling twice restores the selected set, and restores the list itself when the agent was unselected. */
  lemma ToggleTwice(selected: seq<Id>, id: Id)
    ensures forall x :: x in Toggle(Toggle(selected, id), id) <==> x in selected
    ensures id !in selected ==> Toggle(Toggle(selected, id), id) == selected
  {
    ToggleMembers(selected, id);
    ToggleMembers(Toggle(selected, id), id);
    if id !in selected {
      var p := Assignments.NotIn([id]);
      FilterAppend(selected, [id], p);
      FilterAll(selected, p);
      assert Filter([id], p) == [];
      assert selected + [] == selected;
    }
  }

  /** `filteredAgents.map(a => a._id)`. */
  function AgentIds(agents: seq<Agent>): (r: seq<Id>)
    ensures |r| == |agents|
    ensures forall i :: 0 <= i < |agents| ==> r[i] == agents[i].id
  {
    seq(|agents|, i requires 0 <= i < |agents| => agents[i].id)
  }

  /** Every shown agent is already selected. */
  predicate AllSelected(ids: seq<Id>, selected: seq<Id>) {
    forall i :: 0 <= i < |ids| ==> ids[i] in selected
  }

  /**
   * `handleSelectAll`: when every shown agent is selected they are all
   * deselected; otherwise the shown agents are added after the current
   * selection without repeating anyone.
   */
  function SelectAll(selected: seq<Id>, ids: seq<Id>): (r: seq<Id>)
    ensures Distinct(selected) ==> Distinct(r)
  {
    if AllSelected(ids, selected) then
      FilterDistinctIfDistinct(selected, ids);
      Filter(selected, Assignments.NotIn(ids))
    else Dedup(selected + ids)
  }

  /** Helper for the contract of SelectAll: deselecting keeps a selection duplicate-free. */
  lemma FilterDistinctIfDistinct(selected: seq<Id>, ids: seq<Id>)
    ensures Distinct(selected) ==> Distinct(Filter(selected, Assignments.NotIn(ids)))
  {
    if Distinct(selected) {
      FilterDistinct(selected, Assignments.NotIn(ids));
    }
  }

  /** The label of the select-all button. */
  function ToggleLabel(ids: seq<Id>, selected: seq<Id>): string {
    if AllSelected(ids, selected) then "Deselect All" else "Select All"
  }

  /** Which agents are selected after the button: the label says whether it removes or adds the shown ones. */
  lemma SelectAllMembers(selected: seq<Id>, ids: seq<Id>)
    ensures ToggleLabel(ids, selected) == "Deselect All" ==>
      forall x :: x in SelectAll(selected, ids) <==> x in selected && x !in ids
    ensures ToggleLabel(ids, selected) == "Select All" ==>
      forall x :: x in SelectAll(selected, ids) <==> x in selected || x in ids
  {
    var r := SelectAll(selected, ids);
    if AllSelected(ids, selected) {
      var p := Assignments.NotIn(ids);
      FilterMembers(selected, p);
      forall x | x in selected && x !in ids ensures x in r {
        var i :| 0 <= i < |selected| && selected[i] == x;
        assert p(selected[i]);
      }
      forall x | x in r ensures x !in ids {
        var i :| 0 <= i < |r| && r[i] == x;
        assert p(r[i]);
      }
    } else {
      forall x | x in selected || x in ids ensures x in r {
        if x in selected {
          var i :| 0 <= i < |selected| && selected[i] == x;
          assert (selected + ids)[i] == x;
        } else {
          var j :| 0 <= j < |ids| && ids[j] == x;
          assert (selected + ids)[|selected| + j] == x;
        }
      }
    }
  }

  /** With no agent shown the button changes nothing: every agent of an empty list is selected. */
  lemma SelectAllNothingShown(selected: seq<Id>)
    ensures ToggleLabel([], selected) == "Deselect All"
    ensures SelectAll(selected, []) == selected
  {
    FilterAll(selected, Assignments.NotIn([]));
  }

  /** Adding keeps the current selection as a prefix, in its order. */
  lemma SelectAllKeepsSelection(selected: seq<Id>, ids: seq<Id>)
    requires Distinct(selected) && !AllSelected(ids, selected)
    ensures selected <= SelectAll(selected, ids)
  {
    DedupKeepsDistinctPrefix(selected, ids);
  }

  /** Pressing the button flips its label whenever some agent is shown. */
  lemma SelectAllFlipsLabel(selected: seq<Id>, ids: seq<Id>)
    requires ids != []
    ensures ToggleLabel(ids, SelectAll(selected, ids)) != ToggleLabel(ids, selected)
  {
    SelectAllMembers(selected, ids);
    var r := SelectAll(selected, ids);
    if AllSelected(ids, selected) {
      assert ids[0] !in r;
    } else {
      assert AllSelected(ids, r);
    }
  }

  /** Selecting the shown agents and pressing again restores the previous selection exactly. */
  lemma SelectAllTwice(selected: seq<Id>, ids: seq<Id>)
    requires Distinct(selected + ids)
    ensures SelectAll(SelectAll(selected, ids), ids) == selected
  {
    var p := Assignments.NotIn(ids);
    if ids == [] {
      FilterAll(selected, p);
      assert SelectAll(selected, ids) == selected;
    } else {
      assert forall i :: 0 <= i < |selected| ==> selected[i] !in ids by {
        forall i, j | 0 <= i < |selected| && 0 <= j < |ids| ensures selected[i] != ids[j] {
          assert selected[i] == (selected + ids)[i] && ids[j] == (selected + ids)[|selected| + j];
        }
      }
      assert ids[0] !in selected;
      DedupOfDistinct(selected + ids);
      var r := SelectAll(selected, ids);
      assert r == selected + ids;
      assert AllSelected(ids, r);
      FilterAppend(selected, ids, p);
      FilterAll(selected, p);
      FilterNone(ids, p);
      assert selected + [] == selected;
    }
  }

  // ---------------------------------------------------------------------------
  // Saving
  // ---------------------------------------------------------------------------

  /** The request the dialog sends. */
  datatype Request =
    | SyncAgents(universityId: Id, agentIds: seq<Id>)
    | BulkAssign(universityIds: seq<Id>, agentIds: seq<Id>)

  datatype Submission = Send(request: Request) | Refused(message: string)

  /** `handleAssign` up to the request: edit mode always syncs; bulk mode refuses an empty selection. */
  function Submit(universityIds: seq<Id>, selected: seq<Id>): (r: Submission)
    ensures r.Send? ==> r.request.agentIds == selected
    ensures r.Send? && r.request.SyncAgents? ==> [r.request.universityId] == universityIds
    ensures r.Send? && r.request.BulkAssign? ==> r.request.universityIds == universityIds
    ensures IsEditMode(universityIds) ==> r.Send? && r.request.SyncAgents?
    ensures !IsEditMode(universityIds) ==> (r.Refused? <==> selected == [])
    ensures r.Refused? ==> r.message == "Please select at least one agent"
  {
    if IsEditMode(universityIds) then Send(SyncAgents(universityIds[0], selected))
    else if |selected| == 0 then Refused("Please select at least one agent")
    else Send(BulkAssign(universityIds, selected))
  }

  /** The save button is disabled while saving and, in bulk mode, while nothing is selected. */
  predicate SubmitDisabled(assigning: bool, universityIds: seq<Id>, selected: seq<Id>) {
    assigning || (!IsEditMode(universityIds) && |selected| == 0)
  }

  /** An enabled button always sends a request: the refusal is reachable only around the button. */
  lemma EnabledSubmitSends(universityIds: seq<Id>, selected: seq<Id>)
    ensures !SubmitDisabled(false, universityIds, selected) <==> Submit(universityIds, selected).Send?
  {
  }

  /** A sent edit-mode request leaves the university with exactly the selected agents. */
  lemma SubmitSyncSetsAgents(st: Assignments.Store, universityIds: seq<Id>, selected: seq<Id>, actor: Id, now: int,
                             x: Id)
    requires IsEditMode(universityIds)
    requires Assignments.SyncReady(universityIds[0], selected, actor)
    ensures Submit(universityIds, selected) == Send(SyncAgents(universityIds[0], selected))
    ensures Assignments.HasPair(Assignments.Sync(st, universityIds[0], Some(selected), actor, now).0, x, universityIds[0])
      <==> x in selected
  {
    Assignments.SyncAgentSet(st, universityIds[0], selected, actor, now, x);
  }

  /** How the server answered. */
  datatype Reply = Ok | Rejected(message: Option<string>)

  datatype Toast = SuccessToast(text: string) | ErrorToast(text: string)

  /** The toast shown, whether the parent list is refreshed, whether the dialog closes. */
  datatype Finished = Finished(toast: Toast, refresh: bool, closed: bool)

  /** `handleAssign` after the request. */
  function Finish(request: Request, reply: Reply): (r: Finished)
    ensures r.closed <==> reply.Ok?
    ensures r.refresh == r.closed
    ensures r.toast.SuccessToast? <==> reply.Ok?
    ensures r.toast.text != []
  {
    match reply
    case Ok =>
      var text := if request.SyncAgents? then "Agent assignments updated successfully"
                  else "Assignment completed successfully";
      Finished(SuccessToast(text), true, true)
    case Rejected(message) =>
      Finished(ErrorToast(OrElse(message, "Failed to update assignments")), false, false)
  }

  /** The server's message is shown when it has one; otherwise the generic text. */
  lemma FinishShowsServerMessage(request: Request, message: string)
    ensures message != [] ==> Finish(request, Rejected(Some(message))).toast == ErrorToast(message)
    ensures Finish(request, Rejected(Some(""))) == Finish(request, Rejected(None))
  {
  }
}
