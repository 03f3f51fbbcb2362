/**
 * The preparation service's step history: a preparation points at the head of a root-first
 * chain of steps; each step holds one action and the ids of the columns it creates. Appending,
 * updating, deleting and reordering steps rebuild the chain after the first affected step with
 * fresh step ids; moving the head, listing the chain, healing a chain whose content went
 * missing and copying the steps of another preparation complete the service.
 */
module Preparations {
  import opened Results
  import opened ColumnIds
  import opened StepDiff
  import ColumnShift

  /** Step ids are content hashes in the service; here they are opaque numbers, fresh for every new step. */
  type StepId = nat

  /** The root sentinel every chain starts from: no action, no diff. */
  const RootId: StepId := 0

  /** A step after the root: its action, the ids of the columns it created, and whether its action content is still stored. */
  datatype Step = Step(id: StepId, action: Action, created: seq<ColumnId>, contentStored: bool)

  /**
   * A preparation on a dataset with `initialColumns` columns (ids 1..initialColumns). `steps` are the known
   * steps after the root, root first; the chain the preparation currently resolves to is `steps[..head]`.
   */
  datatype Preparation = Preparation(dataSetId: string, initialColumns: nat, steps: seq<Step>, head: nat, lastModified: nat)

  /** All preparations by id, and the next unused step id. */
  datatype Repository = Repository(preparations: map<string, Preparation>, nextStepId: StepId)

  datatype Error =
    | NotFound            // preparation, step or parent step absent
    | Forbidden           // the root step cannot be deleted or moved
    | Conflict            // a step would use a column that does not exist at its position
    | MissingActionScope  // an action designates no column

  /** An action as a client sends it: the column it is scoped to may be missing. */
  datatype ActionRequest = ActionRequest(name: string, column: Option<ColumnId>, creates: nat, deletesColumn: bool)

  /** A fresh preparation: no step after the root, so its head is the root. */
  function NewPreparation(dataSetId: string, initialColumns: nat): (p: Preparation)
    ensures p.head == 0 && p.steps == [] && p.initialColumns == initialColumns
  {
    Preparation(dataSetId, initialColumns, [], 0, 0)
  }

  function Actions(steps: seq<Step>): (h: History)
    ensures |h| == |steps| && forall i :: 0 <= i < |steps| ==> h[i] == steps[i].action
  {
    seq(|steps|, i requires 0 <= i < |steps| => steps[i].action)
  }

  function Ids(steps: seq<Step>): (ids: seq<StepId>)
    ensures |ids| == |steps| && forall i :: 0 <= i < |steps| ==> ids[i] == steps[i].id
  {
    seq(|steps|, i requires 0 <= i < |steps| => steps[i].id)
  }

  /**
   * The preparation invariant: the head is a known step, step ids are non-root, allocated and distinct,
   * and every step's created ids are the ones replaying the known steps allocates for it.
   */
  predicate WellFormed(p: Preparation, next: StepId)
  {
    p.head <= |p.steps| && IdsAllocated(p.steps, next) && DiffsReplayed(p.steps, p.initialColumns)
  }

  /** Step ids are non-root, below the next unused id, and distinct. */
  predicate IdsAllocated(steps: seq<Step>, next: StepId)
  {
    && (forall i :: 0 <= i < |steps| ==> RootId < steps[i].id < next)
    && (forall i, j :: 0 <= i < j < |steps| ==> steps[i].id != steps[j].id)
  }

  /** Every step's created ids are the ones replaying the steps allocates for it. */
  predicate DiffsReplayed(steps: seq<Step>, n0: nat)
  {
    forall i :: 0 <= i < |steps| ==> Replayed(steps, n0, i)
  }

  /** Step `i` records the ids replaying the steps allocates for it. */
  predicate Replayed(steps: seq<Step>, n0: nat, i: nat)
    requires i < |steps|
  {
    steps[i].created == CreatedIds(Actions(steps), n0, i)
  }

  predicate RepoWellFormed(repo: Repository)
  {
    RootId < repo.nextStepId
    && forall id :: id in repo.preparations ==> WellFormed(repo.preparations[id], repo.nextStepId)
  }

  /** The actions of the chain the preparation resolves to. */
  function Chain(p: Preparation): (h: History)
    requires p.head <= |p.steps|
    ensures |h| == p.head
  {
    Actions(p.steps[..p.head])
  }

  /** The position of the step with id `id` in `steps`, if there is one. */
  function IndexOf(steps: seq<Step>, id: StepId): (r: Option<nat>)
    ensures r.Some? ==> r.value < |steps| && steps[r.value].id == id
    ensures r.None? ==> forall i :: 0 <= i < |steps| ==> steps[i].id != id
  {
    if steps == [] then None
    else if steps[0].id == id then Some(0)
    else match IndexOf(steps[1..], id)
      case None => None
      case Some(i) => Some(i + 1)
  }

  // ---------------------------------------------------------------------------------------------
  // Rebuilding a chain
  // ---------------------------------------------------------------------------------------------

  /** New steps for the actions of `h` from position `keep` on, with ids `next`, `next + 1`, ... and their diffs. */
  function FreshSteps(h: History, n0: nat, keep: nat, next: StepId): (steps: seq<Step>)
    requires keep <= |h|
    ensures |steps| == |h| - keep
    ensures forall j :: 0 <= j < |steps| ==>
              steps[j] == Step(next + j, h[keep + j], CreatedIds(h, n0, keep + j), true)
  {
    seq(|h| - keep, j requires 0 <= j < |h| - keep => Step(next + j, h[keep + j], CreatedIds(h, n0, keep + j), true))
  }

  /**
   * The preparation after its chain was rewritten to `h`: the first `keep` steps are reused, every later
   * step is new, the head is the new tip, and the modification stamp moves forward.
   */
  function Rebuild(p: Preparation, keep: nat, h: History, next: StepId): Preparation
    requires keep <= p.head <= |p.steps| && keep <= |h|
  {
    Preparation(p.dataSetId, p.initialColumns, p.steps[..keep] + FreshSteps(h, p.initialColumns, keep, next),
                |h|, p.lastModified + 1)
  }

  /** Step by step, a rebuilt preparation holds the reused steps, then the new ones. */
  lemma RebuildSteps(p: Preparation, keep: nat, h: History, next: StepId)
    requires keep <= p.head <= |p.steps| && keep <= |h| && h[..keep] == Chain(p)[..keep]
    ensures var q := Rebuild(p, keep, h, next);
            && |q.steps| == |h|
            && (forall i :: 0 <= i < keep ==> q.steps[i] == p.steps[i] && h[i] == p.steps[i].action)
            && (forall j :: keep <= j < |h| ==>
                  q.steps[j] == Step(next + (j - keep), h[j], CreatedIds(h, p.initialColumns, j), true))
  {
    var added := FreshSteps(h, p.initialColumns, keep, next);
    forall i | 0 <= i < keep ensures h[i] == p.steps[i].action {
      assert h[i] == h[..keep][i] == Chain(p)[..keep][i];
    }
  }

  /** A rebuilt preparation resolves to `h`: the reused steps are kept and the others are new, with new ids. */
  lemma RebuildChain(p: Preparation, keep: nat, h: History, next: StepId)
    requires keep <= p.head <= |p.steps| && keep <= |h| && h[..keep] == Chain(p)[..keep]
    ensures var q := Rebuild(p, keep, h, next);
            && q.head == |q.steps| == |h| && Chain(q) == h && Actions(q.steps) == h
            && q.steps[..keep] == p.steps[..keep]
            && (forall j :: keep <= j < |h| ==> q.steps[j].id == next + (j - keep) && q.steps[j].contentStored)
            && q.lastModified > p.lastModified
            && q.initialColumns == p.initialColumns && q.dataSetId == p.dataSetId
  {
    var q := Rebuild(p, keep, h, next);
    RebuildSteps(p, keep, h, next);
    assert q.steps[..keep] == p.steps[..keep];
    assert Actions(q.steps) == h;
    assert q.steps[..q.head] == q.steps;
  }

  /** A rebuild of a well-formed preparation is well formed once its new step ids are accounted for. */
  lemma RebuildWellFormed(p: Preparation, keep: nat, h: History, next: StepId)
    requires WellFormed(p, next) && RootId < next
    requires keep <= p.head && keep <= |h| && h[..keep] == Chain(p)[..keep]
    ensures WellFormed(Rebuild(p, keep, h, next), next + (|h| - keep))
  {
    RebuildChain(p, keep, h, next);
    RebuildDiffs(p, keep, h, next);
    RebuildIds(p, keep, h, next);
  }

  lemma RebuildDiffs(p: Preparation, keep: nat, h: History, next: StepId)
    requires WellFormed(p, next)
    requires keep <= p.head && keep <= |h| && h[..keep] == Chain(p)[..keep]
    ensures DiffsReplayed(Rebuild(p, keep, h, next).steps, p.initialColumns)
  {
    var q := Rebuild(p, keep, h, next);
    var n0 := p.initialColumns;
    RebuildSteps(p, keep, h, next);
    RebuildChain(p, keep, h, next);
    forall i | 0 <= i < |q.steps| ensures Replayed(q.steps, n0, i) {
      if i < keep {
        assert Replayed(p.steps, n0, i);
        assert Actions(p.steps)[..i + 1] == h[..i + 1];
        CreatedIdsPrefix(Actions(p.steps), h, n0, i);
      }
    }
  }

  lemma RebuildIds(p: Preparation, keep: nat, h: History, next: StepId)
    requires WellFormed(p, next) && RootId < next
    requires keep <= p.head && keep <= |h| && h[..keep] == Chain(p)[..keep]
    ensures IdsAllocated(Rebuild(p, keep, h, next).steps, next + (|h| - keep))
  {
    var steps := Rebuild(p, keep, h, next).steps;
    var last := next + (|h| - keep);
    RebuildSteps(p, keep, h, next);
    forall i | 0 <= i < |steps| ensures RootId < steps[i].id < last {
      if i < keep {
        assert steps[i] == p.steps[i];
      }
    }
    forall i, j | 0 <= i < j < |steps| ensures steps[i].id != steps[j].id {
      if j < keep {
        assert steps[i] == p.steps[i] && steps[j] == p.steps[j];
      } else if i < keep {
        assert steps[i] == p.steps[i];
        assert steps[i].id < next <= steps[j].id;
      }
    }
  }

  /** The repository with preparation `id` replaced and `used` step ids consumed. */
  function Store(repo: Repository, id: string, p: Preparation, used: nat): Repository
  {
    Repository(repo.preparations[id := p], repo.nextStepId + used)
  }

  lemma WellFormedLater(p: Preparation, next: StepId, later: StepId)
    requires WellFormed(p, next) && next <= later
    ensures WellFormed(p, later)
  {
  }

  /** Storing a well-formed rebuilt preparation keeps the whole repository well formed. */
  lemma StoreWellFormed(repo: Repository, id: string, p: Preparation, used: nat)
    requires RepoWellFormed(repo) && WellFormed(p, repo.nextStepId + used)
    ensures RepoWellFormed(Store(repo, id, p, used))
  {
    forall other | other in repo.preparations && other != id {
      WellFormedLater(repo.preparations[other], repo.nextStepId, repo.nextStepId + used);
    }
  }

  /** Preparation `id` may have changed; every other preparation is as it was. */
  predicate OthersUnchanged(repo: Repository, repo2: Repository, id: string)
  {
    forall other :: other in repo.preparations && other != id ==>
      other in repo2.preparations && repo2.preparations[other] == repo.preparations[other]
  }

  /**
   * Storing a rebuild of preparation `id` to the history `h`: the preparation resolves to `h` with its head at
   * its last step, keeps its first `keep` steps, moves its stamp forward, and the repository stays well formed.
   */
  lemma StoreRebuild(repo: Repository, id: string, keep: nat, h: History)
    requires RepoWellFormed(repo) && id in repo.preparations
    requires var p := repo.preparations[id];
             keep <= p.head && keep <= |h| && h[..keep] == Chain(p)[..keep]
    ensures var p := repo.preparations[id];
            var repo2 := Store(repo, id, Rebuild(p, keep, h, repo.nextStepId), |h| - keep);
            && id in repo2.preparations
            && var q := repo2.preparations[id];
               && q.head == |q.steps| == |h| && Chain(q) == h
               && q.steps[..keep] == p.steps[..keep]
               && q.lastModified > p.lastModified && q.initialColumns == p.initialColumns
               && RepoWellFormed(repo2) && OthersUnchanged(repo, repo2, id)
  {
    var p := repo.preparations[id];
    RebuildChain(p, keep, h, repo.nextStepId);
    RebuildWellFormed(p, keep, h, repo.nextStepId);
    StoreWellFormed(repo, id, Rebuild(p, keep, h, repo.nextStepId), |h| - keep);
  }

  // ---------------------------------------------------------------------------------------------
  // Actions as clients send them
  // ---------------------------------------------------------------------------------------------

  /** Every action of the request designates the column it applies to. */
  predicate Scoped(reqs: seq<ActionRequest>)
  {
    forall i :: 0 <= i < |reqs| ==> reqs[i].column.Some?
  }

  function ToAction(q: ActionRequest): (a: Action)
    requires q.column.Some?
    ensures a.name == q.name && a.column == q.column.value && a.creates == q.creates && a.deletesColumn == q.deletesColumn
  {
    Action(q.name, q.column.value, q.creates, q.deletesColumn)
  }

  function ToActions(reqs: seq<ActionRequest>): (h: History)
    requires Scoped(reqs)
    ensures |h| == |reqs| && forall i :: 0 <= i < |reqs| ==> h[i] == ToAction(reqs[i])
  {
    seq(|reqs|, i requires 0 <= i < |reqs| => ToAction(reqs[i]))
  }

  // ---------------------------------------------------------------------------------------------
  // Append
  // ---------------------------------------------------------------------------------------------

  /**
   * Appends one step per action after the head: the n-th new step's content is the head's actions plus
   * the first n requested actions. Rejected when the preparation is unknown or an action has no column.
   */
  function Append(repo: Repository, id: string, reqs: seq<ActionRequest>): Result<Repository, Error>
    requires RepoWellFormed(repo)
  {
    if id !in repo.preparations then Err(NotFound)
    else if !Scoped(reqs) then Err(MissingActionScope)
    else
      var p := repo.preparations[id];
      var h := Chain(p) + ToActions(reqs);
      assert h[..p.head] == Chain(p)[..p.head];
      Ok(Store(repo, id, Rebuild(p, p.head, h, repo.nextStepId), |reqs|))
  }

  /**
   * Appending adds the requested actions after the head in order, keeps the existing chain, moves the
   * modification stamp forward, touches no other preparation and keeps the repository well formed.
   */
  lemma AppendSpec(repo: Repository, id: string, reqs: seq<ActionRequest>)
    requires RepoWellFormed(repo)
    ensures id !in repo.preparations ==> Append(repo, id, reqs) == Err(NotFound)
    ensures id in repo.preparations && !Scoped(reqs) ==> Append(repo, id, reqs) == Err(MissingActionScope)
    ensures id in repo.preparations && Scoped(reqs) ==>
      && Append(repo, id, reqs).Ok?
      && var p := repo.preparations[id];
         var repo2 := Append(repo, id, reqs).value;
         && id in repo2.preparations
         && var q := repo2.preparations[id];
            && q.head == p.head + |reqs| == |q.steps|
            && Chain(q) == Chain(p) + ToActions(reqs)
            && q.steps[..p.head] == p.steps[..p.head]
            && q.lastModified > p.lastModified
            && RepoWellFormed(repo2) && OthersUnchanged(repo, repo2, id)
  {
    if id in repo.preparations && Scoped(reqs) {
      var p := repo.preparations[id];
      var h := Chain(p) + ToActions(reqs);
      assert h[..p.head] == Chain(p)[..p.head];
      RebuildChain(p, p.head, h, repo.nextStepId);
      RebuildWellFormed(p, p.head, h, repo.nextStepId);
      StoreWellFormed(repo, id, Rebuild(p, p.head, h, repo.nextStepId), |reqs|);
    }
  }

  /** An accepted append stores a well-formed preparation whose chain is the old one followed by the requests. */
  lemma AppendStored(repo: Repository, id: string, reqs: seq<ActionRequest>)
    requires RepoWellFormed(repo) && id in repo.preparations && Scoped(reqs)
    ensures var r := Append(repo, id, reqs);
            && r.Ok? && id in r.value.preparations
            && var p := repo.preparations[id];
               var q := r.value.preparations[id];
               && WellFormed(q, r.value.nextStepId) && q.head == |q.steps| == p.head + |reqs|
               && q.initialColumns == p.initialColumns && Chain(q) == Chain(p) + ToActions(reqs)
  {
    var p := repo.preparations[id];
    var h := Chain(p) + ToActions(reqs);
    assert h[..p.head] == Chain(p)[..p.head];
    assert Append(repo, id, reqs) == Ok(Store(repo, id, Rebuild(p, p.head, h, repo.nextStepId), |reqs|));
    StoreRebuild(repo, id, p.head, h);
    var repo2 := Store(repo, id, Rebuild(p, p.head, h, repo.nextStepId), |reqs|);
    assert WellFormed(repo2.preparations[id], repo2.nextStepId);
  }

  /** The step appended for the `n`-th requested action holds the head's actions followed by the first `n` requested ones. */
  lemma AppendCumulative(repo: Repository, id: string, reqs: seq<ActionRequest>, n: nat)
    requires RepoWellFormed(repo) && id in repo.preparations && Scoped(reqs) && 0 < n <= |reqs|
    ensures Append(repo, id, reqs).Ok?
    ensures var p := repo.preparations[id];
            var q := Append(repo, id, reqs).value.preparations[id];
            p.head + n <= |q.steps|
            && Actions(q.steps[..p.head + n]) == Chain(p) + ToActions(reqs[..n])
  {
    AppendSpec(repo, id, reqs);
    var p := repo.preparations[id];
    var q := Append(repo, id, reqs).value.preparations[id];
    assert q.steps[..p.head + n] == q.steps[..q.head][..p.head + n];
    assert Actions(q.steps[..p.head + n]) == Chain(q)[..p.head + n];
    assert ToActions(reqs[..n]) == ToActions(reqs)[..n];
  }

  // ---------------------------------------------------------------------------------------------
  // Update
  // ---------------------------------------------------------------------------------------------

  /**
   * Replaces the action of step `stepId` of the chain: the step is re-diffed, later steps have their column
   * ids shifted and are rebuilt with new ids. Rejected when the preparation or step is unknown, when the
   * new action has no column, and (a conflict) when a later step uses a column the step stops creating
   * or when a step from the updated one on would use a column not yet created or already deleted.
   */
  function UpdateStep(repo: Repository, id: string, stepId: StepId, q: ActionRequest): Result<Repository, Error>
    requires RepoWellFormed(repo)
  {
    if id !in repo.preparations then Err(NotFound)
    else if q.column.None? then Err(MissingActionScope)
    else
      var p := repo.preparations[id];
      match IndexOf(p.steps[..p.head], stepId)
      case None => Err(NotFound)
      case Some(k) =>
        match ColumnShift.Update(Chain(p), p.initialColumns, k, ToAction(q))
        case None => Err(Conflict)
        case Some(h) => Ok(Store(repo, id, Rebuild(p, k, h, repo.nextStepId), |h| - k))
  }

  /**
   * A successful update keeps the chain length and the steps before the updated one, puts the new action
   * in place, moves the modification stamp forward and keeps the repository well formed; every later step
   * keeps its action, with only its column renumbered, and from the updated step on every step uses a live
   * column.
   */
  lemma UpdateStepSpec(repo: Repository, id: string, stepId: StepId, req: ActionRequest)
    requires RepoWellFormed(repo) && UpdateStep(repo, id, stepId, req).Ok?
    ensures id in repo.preparations && req.column.Some?
    ensures var p := repo.preparations[id];
            var repo2 := UpdateStep(repo, id, stepId, req).value;
            var k := IndexOf(p.steps[..p.head], stepId);
            && k.Some?
            && id in repo2.preparations
            && var q := repo2.preparations[id];
               && q.head == p.head == |q.steps|
               && q.steps[..k.value] == p.steps[..k.value]
               && Chain(q)[k.value] == ToAction(req)
               && (forall j :: k.value < j < p.head ==> Chain(q)[j] == Chain(p)[j].(column := Chain(q)[j].column))
               && ValidFrom(Chain(q), p.initialColumns, k.value)
               && q.lastModified > p.lastModified
               && RepoWellFormed(repo2) && OthersUnchanged(repo, repo2, id)
  {
    var p := repo.preparations[id];
    var n0 := p.initialColumns;
    var k := IndexOf(p.steps[..p.head], stepId).value;
    var a := ToAction(req);
    var h := ColumnShift.Update(Chain(p), n0, k, a).value;
    assert UpdateStep(repo, id, stepId, req) == Ok(Store(repo, id, Rebuild(p, k, h, repo.nextStepId), |h| - k));
    ColumnShift.UpdateShifts(Chain(p), n0, k, a);
    StoreRebuild(repo, id, k, h);
  }

  /** Updating a step of a consistent chain, when accepted, leaves a chain whose every step uses a live column. */
  lemma UpdateStepValid(repo: Repository, id: string, stepId: StepId, req: ActionRequest)
    requires RepoWellFormed(repo) && UpdateStep(repo, id, stepId, req).Ok?
    requires id in repo.preparations && Valid(Chain(repo.preparations[id]), repo.preparations[id].initialColumns)
    ensures Valid(Chain(UpdateStep(repo, id, stepId, req).value.preparations[id]), repo.preparations[id].initialColumns)
  {
    var p := repo.preparations[id];
    var n0 := p.initialColumns;
    var k := IndexOf(p.steps[..p.head], stepId).value;
    var a := ToAction(req);
    var h := ColumnShift.Update(Chain(p), n0, k, a).value;
    assert UpdateStep(repo, id, stepId, req) == Ok(Store(repo, id, Rebuild(p, k, h, repo.nextStepId), |h| - k));
    ColumnShift.UpdateValid(Chain(p), n0, k, a);
    ColumnShift.UpdatePrefix(Chain(p), n0, k, a);
    StoreRebuild(repo, id, k, h);
  }

  /**
   * The update errors: an unknown preparation or step gives NotFound, an action without column gives
   * MissingActionScope, and the update of a known step conflicts exactly when the renumbering fails,
   * because a later step uses one of the column ids the step stops creating, or when the renumbered chain
   * has a step, from the updated one on, that uses a column not yet created or already deleted.
   */
  lemma UpdateStepErrors(repo: Repository, id: string, stepId: StepId, req: ActionRequest)
    requires RepoWellFormed(repo)
    ensures id !in repo.preparations ==> UpdateStep(repo, id, stepId, req) == Err(NotFound)
    ensures id in repo.preparations && req.column.None? ==> UpdateStep(repo, id, stepId, req) == Err(MissingActionScope)
    ensures id in repo.preparations && req.column.Some? ==>
      var p := repo.preparations[id];
      (forall i :: 0 <= i < p.head ==> p.steps[i].id != stepId) ==> UpdateStep(repo, id, stepId, req) == Err(NotFound)
    ensures id in repo.preparations && req.column.Some? ==>
      var p := repo.preparations[id];
      forall k :: 0 <= k < p.head && p.steps[k].id == stepId ==>
        UpdateConflict(repo, id, stepId, req, k)
  {
    if id in repo.preparations && req.column.Some? {
      var p := repo.preparations[id];
      forall k | 0 <= k < p.head && p.steps[k].id == stepId
        ensures UpdateConflict(repo, id, stepId, req, k)
      {
        UpdateStepConflict(repo, id, stepId, req, k);
      }
    }
  }

  /**
   * When the update of step `k` conflicts: the renumbering of the later steps fails, or the renumbered
   * chain uses, from step `k` on, a column that is not live there. Every later step using an id that
   * step `k` stops creating makes the renumbering fail.
   */
  predicate UpdateConflict(repo: Repository, id: string, stepId: StepId, req: ActionRequest, k: nat)
    requires RepoWellFormed(repo) && id in repo.preparations && req.column.Some? && k < repo.preparations[id].head
  {
    var p := repo.preparations[id];
    var h := Chain(p);
    var n0 := p.initialColumns;
    var s := ColumnShift.Shift(h, n0, k, ToAction(req));
    && (UpdateStep(repo, id, stepId, req) == Err(Conflict) <==> s.None? || !ValidFrom(s.value, n0, k))
    && (s.None? <==> exists j :: k < j < |h| && Base(h, n0, k) + req.creates < h[j].column <= Base(h, n0, k) + h[k].creates)
  }

  lemma UpdateStepConflict(repo: Repository, id: string, stepId: StepId, req: ActionRequest, k: nat)
    requires RepoWellFormed(repo) && id in repo.preparations && req.column.Some?
    requires k < repo.preparations[id].head && repo.preparations[id].steps[k].id == stepId
    ensures UpdateConflict(repo, id, stepId, req, k)
  {
    var p := repo.preparations[id];
    IndexOfUnique(p.steps[..p.head], stepId, k);
    ColumnShift.UpdateShifts(Chain(p), p.initialColumns, k, ToAction(req));
  }

  /** Distinct step ids: a step id occurring in the steps is found at its own position. */
  lemma {:induction false} IndexOfUnique(steps: seq<Step>, stepId: StepId, k: nat)
    requires forall i, j :: 0 <= i < j < |steps| ==> steps[i].id != steps[j].id
    requires k < |steps| && steps[k].id == stepId
    ensures IndexOf(steps, stepId) == Some(k)
  {
    if k > 0 {
      assert steps[0].id != stepId;
      IndexOfUnique(steps[1..], stepId, k - 1);
    }
  }

  // ---------------------------------------------------------------------------------------------
  // Delete
  // ---------------------------------------------------------------------------------------------

  /**
   * Deletes step `stepId` of the chain, with every later step that uses a column it created, and rebuilds
   * the remaining later steps with their column ids shifted down. The root cannot be deleted; an unknown
   * preparation or step gives NotFound.
   */
  function DeleteStep(repo: Repository, id: string, stepId: StepId): Result<Repository, Error>
    requires RepoWellFormed(repo)
  {
    if id !in repo.preparations then Err(NotFound)
    else if stepId == RootId then Err(Forbidden)
    else
      var p := repo.preparations[id];
      match IndexOf(p.steps[..p.head], stepId)
      case None => Err(NotFound)
      case Some(k) =>
        match ColumnShift.Delete(Chain(p), p.initialColumns, k)
        case None => Err(Conflict)
        case Some(h) =>
          ColumnShift.DeletePrefix(Chain(p), p.initialColumns, k);
          Ok(Store(repo, id, Rebuild(p, k, h, repo.nextStepId), |h| - k))
  }

  /**
   * A successful delete shortens the chain, keeps the steps before the deleted one, resolves to the
   * history with the step and its dependants removed, moves the modification stamp forward and keeps the
   * repository well formed.
   */
  lemma DeleteStepSpec(repo: Repository, id: string, stepId: StepId)
    requires RepoWellFormed(repo) && DeleteStep(repo, id, stepId).Ok?
    ensures id in repo.preparations && stepId != RootId
    ensures var p := repo.preparations[id];
            var repo2 := DeleteStep(repo, id, stepId).value;
            var k := IndexOf(p.steps[..p.head], stepId);
            && k.Some?
            && id in repo2.preparations
            && var q := repo2.preparations[id];
               && k.value <= q.head < p.head && q.head == |q.steps|
               && q.steps[..k.value] == p.steps[..k.value]
               && Chain(q) == ColumnShift.Delete(Chain(p), p.initialColumns, k.value).value
               && q.lastModified > p.lastModified
               && RepoWellFormed(repo2) && OthersUnchanged(repo, repo2, id)
  {
    var p := repo.preparations[id];
    var n0 := p.initialColumns;
    var k := IndexOf(p.steps[..p.head], stepId).value;
    var h := ColumnShift.Delete(Chain(p), n0, k).value;
    assert DeleteStep(repo, id, stepId) == Ok(Store(repo, id, Rebuild(p, k, h, repo.nextStepId), |h| - k));
    ColumnShift.DeletePrefix(Chain(p), n0, k);
    StoreRebuild(repo, id, k, h);
  }

  /** The delete errors: unknown preparation or step gives NotFound, the root gives Forbidden. */
  lemma DeleteStepErrors(repo: Repository, id: string, stepId: StepId)
    requires RepoWellFormed(repo)
    ensures id !in repo.preparations ==> DeleteStep(repo, id, stepId) == Err(NotFound)
    ensures id in repo.preparations && stepId == RootId ==> DeleteStep(repo, id, stepId) == Err(Forbidden)
    ensures id in repo.preparations && stepId != RootId ==>
      var p := repo.preparations[id];
      (forall i :: 0 <= i < p.head ==> p.steps[i].id != stepId) ==> DeleteStep(repo, id, stepId) == Err(NotFound)
  {
  }

  /**
   * When no step of the chain uses a missing column, deleting a known non-root step always succeeds and
   * the remaining chain still only uses existing columns.
   */
  lemma DeleteStepValid(repo: Repository, id: string, stepId: StepId, k: nat)
    requires RepoWellFormed(repo) && id in repo.preparations
    requires var p := repo.preparations[id];
             k < p.head && p.steps[k].id == stepId && Valid(Chain(p), p.initialColumns)
    ensures DeleteStep(repo, id, stepId).Ok?
    ensures Valid(Chain(DeleteStep(repo, id, stepId).value.preparations[id]), repo.preparations[id].initialColumns)
  {
    var p := repo.preparations[id];
    IndexOfUnique(p.steps[..p.head], stepId, k);
    ColumnShift.DeleteValid(Chain(p), p.initialColumns, k);
    DeleteStepSpec(repo, id, stepId);
  }

  // ---------------------------------------------------------------------------------------------
  // Reorder
  // ---------------------------------------------------------------------------------------------

  /**
   * Where a step moved after `parentId` lands, counted as the number of chain steps up to and including
   * the parent: 0 after the root, `i + 1` after the step at position `i`. `None` when the parent is unknown.
   */
  function ParentPosition(steps: seq<Step>, parentId: StepId): (r: Option<nat>)
    ensures parentId == RootId ==> r == Some(0)
    ensures parentId != RootId ==>
              (r.Some? <==> exists i :: 0 <= i < |steps| && steps[i].id == parentId)
    ensures r.Some? && parentId != RootId ==> 0 < r.value <= |steps| && steps[r.value - 1].id == parentId
  {
    if parentId == RootId then Some(0)
    else match IndexOf(steps, parentId)
      case None => None
      case Some(i) => Some(i + 1)
  }

  /**
   * Moves step `stepId` so that it directly follows step `parentId` (the root for the first position) and
   * rebuilds the chain from the first moved position, renaming column references so that each still
   * designates the column of the step that created it. The root cannot be moved; an unknown preparation,
   * step or parent gives NotFound, and a step that would use a column not yet created or already deleted
   * at its new position gives Conflict.
   */
  function ReorderStep(repo: Repository, id: string, stepId: StepId, parentId: StepId): Result<Repository, Error>
    requires RepoWellFormed(repo)
  {
    if id !in repo.preparations then Err(NotFound)
    else if stepId == RootId then Err(Forbidden)
    else
      var p := repo.preparations[id];
      var chain := p.steps[..p.head];
      match IndexOf(chain, stepId)
      case None => Err(NotFound)
      case Some(s) =>
        match ParentPosition(chain, parentId)
        case None => Err(NotFound)
        case Some(at) =>
          match ColumnShift.Reorder(Chain(p), p.initialColumns, s, at)
          case None => Err(Conflict)
          case Some(h) =>
            var from := ColumnShift.MoveFrom(s, at);
            Ok(Store(repo, id, Rebuild(p, from, h, repo.nextStepId), |h| - from))
  }

  /**
   * A successful reorder keeps the chain length and the steps before the first moved position, puts the
   * action names in the moved order (a permutation of the old ones), moves the modification stamp forward
   * and keeps the repository well formed.
   */
  lemma ReorderStepSpec(repo: Repository, id: string, stepId: StepId, parentId: StepId)
    requires RepoWellFormed(repo) && ReorderStep(repo, id, stepId, parentId).Ok?
    ensures id in repo.preparations && stepId != RootId
    ensures var p := repo.preparations[id];
            var chain := p.steps[..p.head];
            var repo2 := ReorderStep(repo, id, stepId, parentId).value;
            var s := IndexOf(chain, stepId);
            var at := ParentPosition(chain, parentId);
            && s.Some? && at.Some?
            && id in repo2.preparations
            && var q := repo2.preparations[id];
               var from := ColumnShift.MoveFrom(s.value, at.value);
               && q.head == p.head == |q.steps|
               && q.steps[..from] == p.steps[..from]
               && ColumnShift.Names(Chain(q)) == ColumnShift.Move(ColumnShift.Names(Chain(p)), s.value, at.value)
               && multiset(ColumnShift.Names(Chain(q))) == multiset(ColumnShift.Names(Chain(p)))
               && q.lastModified > p.lastModified
               && RepoWellFormed(repo2) && OthersUnchanged(repo, repo2, id)
  {
    ReorderStepResult(repo, id, stepId, parentId);
    var p := repo.preparations[id];
    var chain := p.steps[..p.head];
    var s := IndexOf(chain, stepId).value;
    var at := ParentPosition(chain, parentId).value;
    var h := ColumnShift.Reorder(Chain(p), p.initialColumns, s, at).value;
    ColumnShift.ReorderPrefix(Chain(p), p.initialColumns, s, at);
    StoreRebuild(repo, id, ColumnShift.MoveFrom(s, at), h);
    ColumnShift.ReorderNames(Chain(p), p.initialColumns, s, at);
  }

  /** An accepted reorder stores the rebuilt preparation for the positions of the step and its new parent. */
  lemma ReorderStepResult(repo: Repository, id: string, stepId: StepId, parentId: StepId)
    requires RepoWellFormed(repo) && ReorderStep(repo, id, stepId, parentId).Ok?
    ensures id in repo.preparations && stepId != RootId
    ensures var p := repo.preparations[id];
            var chain := p.steps[..p.head];
            var s := IndexOf(chain, stepId);
            var at := ParentPosition(chain, parentId);
            && s.Some? && at.Some? && s.value < p.head && at.value <= p.head
            && var r := ColumnShift.Reorder(Chain(p), p.initialColumns, s.value, at.value);
               var from := ColumnShift.MoveFrom(s.value, at.value);
               && r.Some?
               && ReorderStep(repo, id, stepId, parentId)
                  == Ok(Store(repo, id, Rebuild(p, from, r.value, repo.nextStepId), |r.value| - from))
  {
  }

  /** The reorder errors: NotFound for an unknown preparation, step or parent, Forbidden for the root. */
  lemma ReorderStepErrors(repo: Repository, id: string, stepId: StepId, parentId: StepId)
    requires RepoWellFormed(repo)
    ensures id !in repo.preparations ==> ReorderStep(repo, id, stepId, parentId) == Err(NotFound)
    ensures id in repo.preparations && stepId == RootId ==> ReorderStep(repo, id, stepId, parentId) == Err(Forbidden)
    ensures id in repo.preparations && stepId != RootId ==>
      var p := repo.preparations[id];
      (forall i :: 0 <= i < p.head ==> p.steps[i].id != stepId) ==> ReorderStep(repo, id, stepId, parentId) == Err(NotFound)
    ensures id in repo.preparations && stepId != RootId && parentId != RootId ==>
      var p := repo.preparations[id];
      (forall i :: 0 <= i < p.head ==> p.steps[i].id != parentId) ==> ReorderStep(repo, id, stepId, parentId) == Err(NotFound)
  {
    if id in repo.preparations && stepId != RootId {
      ReorderUnknownStep(repo, id, stepId, parentId);
      if parentId != RootId {
        ReorderUnknownParent(repo, id, stepId, parentId);
      }
    }
  }

  lemma ReorderUnknownStep(repo: Repository, id: string, stepId: StepId, parentId: StepId)
    requires RepoWellFormed(repo) && id in repo.preparations && stepId != RootId
    ensures var p := repo.preparations[id];
      (forall i :: 0 <= i < p.head ==> p.steps[i].id != stepId) ==> ReorderStep(repo, id, stepId, parentId) == Err(NotFound)
  {
    var p := repo.preparations[id];
    var chain := p.steps[..p.head];
    if IndexOf(chain, stepId).Some? {
      var k := IndexOf(chain, stepId).value;
      assert chain[k].id == stepId;
    }
  }

  lemma ReorderUnknownParent(repo: Repository, id: string, stepId: StepId, parentId: StepId)
    requires RepoWellFormed(repo) && id in repo.preparations && stepId != RootId && parentId != RootId
    ensures var p := repo.preparations[id];
      (forall i :: 0 <= i < p.head ==> p.steps[i].id != parentId) ==> ReorderStep(repo, id, stepId, parentId) == Err(NotFound)
  {
    var p := repo.preparations[id];
    var chain := p.steps[..p.head];
    if (forall i :: 0 <= i < p.head ==> p.steps[i].id != parentId) {
      assert forall i :: 0 <= i < |chain| ==> chain[i].id != parentId;
      assert ParentPosition(chain, parentId).None?;
    }
  }

  /** Reordering a chain that only uses existing columns, when accepted, gives such a chain again. */
  lemma ReorderStepValid(repo: Repository, id: string, stepId: StepId, parentId: StepId)
    requires RepoWellFormed(repo) && ReorderStep(repo, id, stepId, parentId).Ok?
    requires id in repo.preparations && Valid(Chain(repo.preparations[id]), repo.preparations[id].initialColumns)
    ensures Valid(Chain(ReorderStep(repo, id, stepId, parentId).value.preparations[id]), repo.preparations[id].initialColumns)
  {
    var p := repo.preparations[id];
    var chain := p.steps[..p.head];
    var s := IndexOf(chain, stepId).value;
    var at := ParentPosition(chain, parentId).value;
    var h := ColumnShift.Reorder(Chain(p), p.initialColumns, s, at).value;
    var from := ColumnShift.MoveFrom(s, at);
    assert ReorderStep(repo, id, stepId, parentId) == Ok(Store(repo, id, Rebuild(p, from, h, repo.nextStepId), |h| - from));
    ColumnShift.ReorderValid(Chain(p), p.initialColumns, s, at);
    ColumnShift.ReorderIsRenamedMove(Chain(p), p.initialColumns, s, at);
    RebuildChain(p, from, h, repo.nextStepId);
  }

  // ---------------------------------------------------------------------------------------------
  // Head, details, self-healing, copy
  // ---------------------------------------------------------------------------------------------

  /** The id of the step the preparation's head points at. */
  function HeadId(p: Preparation): StepId
    requires p.head <= |p.steps|
  {
    if p.head == 0 then RootId else p.steps[p.head - 1].id
  }

  /** Moves the head of preparation `id` to one of its known steps, or to the root; the steps themselves stay. */
  function SetHead(repo: Repository, id: string, stepId: StepId): Result<Repository, Error>
  {
    if id !in repo.preparations then Err(NotFound)
    else
      var p := repo.preparations[id];
      if stepId == RootId then Ok(Store(repo, id, p.(head := 0), 0))
      else match IndexOf(p.steps, stepId)
        case None => Err(NotFound)
        case Some(k) => Ok(Store(repo, id, p.(head := k + 1), 0))
  }

  /**
   * Moving the head succeeds exactly for a known preparation and a step that is the root or one of its
   * steps; the head then designates that step, and nothing else about the repository changes.
   */
  lemma SetHeadSpec(repo: Repository, id: string, stepId: StepId)
    requires RepoWellFormed(repo)
    ensures SetHead(repo, id, stepId).Ok? <==>
              id in repo.preparations
              && (stepId == RootId || exists i :: 0 <= i < |repo.preparations[id].steps| && repo.preparations[id].steps[i].id == stepId)
    ensures SetHead(repo, id, stepId).Err? ==> SetHead(repo, id, stepId).error == NotFound
    ensures SetHead(repo, id, stepId).Ok? ==>
      var p := repo.preparations[id];
      var repo2 := SetHead(repo, id, stepId).value;
      && id in repo2.preparations
      && var q := repo2.preparations[id];
         && q.head <= |q.steps| && HeadId(q) == stepId
         && q.steps == p.steps && q.lastModified == p.lastModified
         && repo2.nextStepId == repo.nextStepId
         && RepoWellFormed(repo2) && OthersUnchanged(repo, repo2, id)
  {
    if id in repo.preparations {
      var p := repo.preparations[id];
      StoreWellFormed(repo, id, p.(head := 0), 0);
      if stepId != RootId && IndexOf(p.steps, stepId).Some? {
        StoreWellFormed(repo, id, p.(head := IndexOf(p.steps, stepId).value + 1), 0);
      }
    }
  }

  /**
   * The number of leading steps among the first `n` whose action content is still stored: the chain can
   * be trusted up to there.
   */
  function StoredPrefix(steps: seq<Step>, n: nat): (m: nat)
    requires n <= |steps|
    ensures m <= n
    ensures forall i :: 0 <= i < m ==> steps[i].contentStored
    ensures m < n ==> !steps[m].contentStored
  {
    if n == 0 then 0
    else
      var m := StoredPrefix(steps, n - 1);
      if m < n - 1 then m
      else if steps[n - 1].contentStored then n
      else n - 1
  }

  /**
   * Self-healing: when some step of the chain lost its action content, the head moves back to the last
   * step before the first such step. A chain whose content is all there is left alone.
   */
  function Heal(p: Preparation): Preparation
    requires p.head <= |p.steps|
  {
    p.(head := StoredPrefix(p.steps, p.head))
  }

  /**
   * Healing keeps the steps and moves the head back to just before the first step of the chain whose
   * content is missing; a healed preparation needs no further healing.
   */
  lemma HealSpec(p: Preparation)
    requires p.head <= |p.steps|
    ensures var q := Heal(p);
            && q.steps == p.steps && q.lastModified == p.lastModified && q.head <= p.head
            && (forall i :: 0 <= i < q.head ==> q.steps[i].contentStored)
            && (q.head < p.head ==> !p.steps[q.head].contentStored)
            && ((forall i :: 0 <= i < p.head ==> p.steps[i].contentStored) ==> q == p)
            && Heal(q) == q
  {
  }

  /** The step ids of the chain up to position `n`, root first. */
  function StepIds(p: Preparation, n: nat): (ids: seq<StepId>)
    requires n <= |p.steps|
    ensures |ids| == n + 1 && ids[0] == RootId
    ensures forall i :: 0 <= i < n ==> ids[i + 1] == p.steps[i].id
  {
    [RootId] + Ids(p.steps[..n])
  }

  /**
   * The details of preparation `id`: its chain's step ids, root first, up to the head or up to the given
   * step. Reading the details heals the preparation first, and the healed preparation is stored.
   */
  function Details(repo: Repository, id: string, stepId: Option<StepId>): Result<(Repository, seq<StepId>), Error>
    requires RepoWellFormed(repo)
  {
    if id !in repo.preparations then Err(NotFound)
    else
      var p := Heal(repo.preparations[id]);
      var repo2 := Store(repo, id, p, 0);
      match stepId
      case None => Ok((repo2, StepIds(p, p.head)))
      case Some(s) =>
        if s == RootId then Ok((repo2, StepIds(p, 0)))
        else match IndexOf(p.steps[..p.head], s)
          case None => Err(NotFound)
          case Some(k) => Ok((repo2, StepIds(p, k + 1)))
  }

  /** Details of an unknown preparation, or of a step outside the healed chain, are not found. */
  lemma DetailsErrors(repo: Repository, id: string, stepId: Option<StepId>)
    requires RepoWellFormed(repo)
    ensures id !in repo.preparations ==> Details(repo, id, stepId) == Err(NotFound)
    ensures id in repo.preparations && stepId.Some? && stepId.value != RootId ==>
      var p := Heal(repo.preparations[id]);
      (Details(repo, id, stepId).Ok? <==> exists i :: 0 <= i < p.head && p.steps[i].id == stepId.value)
  {
    if id in repo.preparations && stepId.Some? && stepId.value != RootId {
      var p := Heal(repo.preparations[id]);
      assert Details(repo, id, stepId).Ok? <==> IndexOf(p.steps[..p.head], stepId.value).Some?;
      IndexOfFound(p.steps[..p.head], stepId.value);
    }
  }

  /** A step id is found exactly when some step carries it. */
  lemma IndexOfFound(steps: seq<Step>, id: StepId)
    ensures IndexOf(steps, id).Some? <==> exists i :: 0 <= i < |steps| && steps[i].id == id
  {
    if IndexOf(steps, id).Some? {
      var k := IndexOf(steps, id).value;
      assert steps[k].id == id;
    }
  }

  /** Reading the details stores the healed preparation and keeps the repository well formed. */
  lemma DetailsStoresHealed(repo: Repository, id: string, stepId: Option<StepId>)
    requires RepoWellFormed(repo) && Details(repo, id, stepId).Ok?
    ensures id in repo.preparations
    ensures var repo2 := Details(repo, id, stepId).value.0;
            && id in repo2.preparations && repo2.preparations[id] == Heal(repo.preparations[id])
            && RepoWellFormed(repo2) && OthersUnchanged(repo, repo2, id)
  {
    var p := Heal(repo.preparations[id]);
    assert Details(repo, id, stepId).value.0 == Store(repo, id, p, 0);
    StoreWellFormed(repo, id, p, 0);
  }

  /**
   * The details list starts at the root and ends at the wanted step (the healed head when none is given),
   * listing the healed chain's steps in order.
   */
  lemma DetailsIds(repo: Repository, id: string, stepId: Option<StepId>)
    requires RepoWellFormed(repo) && Details(repo, id, stepId).Ok?
    ensures id in repo.preparations
    ensures var p := Heal(repo.preparations[id]);
            var ids := Details(repo, id, stepId).value.1;
            && 0 < |ids| <= p.head + 1 && ids[0] == RootId
            && ids[|ids| - 1] == (if stepId.Some? then stepId.value else HeadId(p))
            && forall i :: 0 < i < |ids| ==> ids[i] == p.steps[i - 1].id
  {
    var p := Heal(repo.preparations[id]);
    var n := DetailsDepth(repo, id, stepId);
    StepIdsListed(p, n);
    if stepId.Some? && stepId.value != RootId {
      var k := IndexOf(p.steps[..p.head], stepId.value).value;
      assert p.steps[..p.head][k].id == p.steps[k].id;
    }
  }

  /** The successful details list the first `n` steps of the healed chain, `n` as the requested step says. */
  lemma DetailsDepth(repo: Repository, id: string, stepId: Option<StepId>) returns (n: nat)
    requires RepoWellFormed(repo) && Details(repo, id, stepId).Ok?
    ensures id in repo.preparations
    ensures var p := Heal(repo.preparations[id]);
            n <= p.head && Details(repo, id, stepId).value.1 == StepIds(p, n)
            && (stepId.None? ==> n == p.head)
            && (stepId.Some? && stepId.value == RootId ==> n == 0)
            && (stepId.Some? && stepId.value != RootId ==>
                  IndexOf(p.steps[..p.head], stepId.value).Some?
                  && n == IndexOf(p.steps[..p.head], stepId.value).value + 1)
  {
    var p := Heal(repo.preparations[id]);
    if stepId.None? {
      n := p.head;
    } else if stepId.value == RootId {
      n := 0;
    } else {
      n := IndexOf(p.steps[..p.head], stepId.value).value + 1;
    }
  }

  /** The ids of the first `n` steps of the chain, behind the root. */
  lemma StepIdsListed(p: Preparation, n: nat)
    requires n <= p.head <= |p.steps|
    ensures var ids := StepIds(p, n);
            && 0 < |ids| <= p.head + 1
            && (forall i :: 0 < i < |ids| ==> ids[i] == p.steps[i - 1].id)
            && ids[|ids| - 1] == (if n == 0 then RootId else p.steps[n - 1].id)
  {
    var ids := StepIds(p, n);
    forall i | 0 < i < |ids| ensures ids[i] == p.steps[i - 1].id {
      assert ids[(i - 1) + 1] == p.steps[i - 1].id;
    }
  }

  /**
   * Copies the chain of preparation `from` into preparation `id` as new steps. Only an empty preparation
   * (its head is the root) accepts a copy; copying from an unknown preparation succeeds and changes nothing.
   */
  function CopySteps(repo: Repository, id: string, from: string): Result<Repository, Error>
    requires RepoWellFormed(repo)
  {
    if id !in repo.preparations then Err(NotFound)
    else
      var p := repo.preparations[id];
      if p.head != 0 then Err(Conflict)
      else if from !in repo.preparations then Ok(repo)
      else
        var h := Chain(repo.preparations[from]);
        Ok(Store(repo, id, Rebuild(p, 0, h, repo.nextStepId), |h|))
  }

  /**
   * Copying into an empty preparation gives it the reference's actions as a chain of new steps, with ids
   * distinct from the reference's; a non-empty target is a conflict and a missing reference a no-op.
   */
  lemma CopyStepsSpec(repo: Repository, id: string, from: string)
    requires RepoWellFormed(repo)
    ensures id !in repo.preparations ==> CopySteps(repo, id, from) == Err(NotFound)
    ensures id in repo.preparations && repo.preparations[id].head != 0 ==> CopySteps(repo, id, from) == Err(Conflict)
    ensures id in repo.preparations && repo.preparations[id].head == 0 && from !in repo.preparations ==>
              CopySteps(repo, id, from) == Ok(repo)
    ensures id in repo.preparations && repo.preparations[id].head == 0 && from in repo.preparations ==>
      && CopySteps(repo, id, from).Ok?
      && var repo2 := CopySteps(repo, id, from).value;
         var r := repo.preparations[from];
         && id in repo2.preparations
         && var q := repo2.preparations[id];
            && Chain(q) == Chain(r) && q.head == r.head
            && (forall i, j :: 0 <= i < q.head && 0 <= j < |r.steps| ==> q.steps[i].id != r.steps[j].id)
            && RepoWellFormed(repo2) && OthersUnchanged(repo, repo2, id)
  {
    if id in repo.preparations && repo.preparations[id].head == 0 && from in repo.preparations {
      var p := repo.preparations[id];
      var h := Chain(repo.preparations[from]);
      RebuildChain(p, 0, h, repo.nextStepId);
      RebuildWellFormed(p, 0, h, repo.nextStepId);
      StoreWellFormed(repo, id, Rebuild(p, 0, h, repo.nextStepId), |h|);
    }
  }

  // ---------------------------------------------------------------------------------------------
  // The scenarios of the preparation service's tests, on the initial schema 0001..0003
  // ---------------------------------------------------------------------------------------------

  /** An action request scoped to `column` that creates `creates` columns. */
  function Request(name: string, column: ColumnId, creates: nat): ActionRequest
  {
    ActionRequest(name, Some(column), creates, false)
  }

  /** In a well-formed preparation whose head is its last step, each step records the ids replaying its chain allocates. */
  lemma TipDiffs(p: Preparation, next: StepId, i: nat)
    requires WellFormed(p, next) && p.head == |p.steps| && i < |p.steps|
    ensures p.steps[i].created == CreatedIds(Chain(p), p.initialColumns, i)
  {
    assert p.steps[..p.head] == p.steps;
    assert Replayed(p.steps, p.initialColumns, i);
  }

  /** Appending a copy to an empty preparation on three columns records the created column 0004. */
  lemma AppendCopyScenario(repo: Repository, id: string)
    requires RepoWellFormed(repo) && id in repo.preparations
    requires repo.preparations[id].initialColumns == 3 && repo.preparations[id].head == 0
    ensures var r := Append(repo, id, [Request("copy", 3, 1)]);
            && r.Ok? && id in r.value.preparations
            && var q := r.value.preparations[id];
               && |q.steps| == 1 && q.steps[0].created == [4] && Format(q.steps[0].created[0]) == "0004"
  {
    var reqs := [Request("copy", 3, 1)];
    assert ToActions(reqs) == [ColumnShift.Op("copy", 3, 1)];
    AppendStored(repo, id, reqs);
    var repo2 := Append(repo, id, reqs).value;
    var q := repo2.preparations[id];
    assert Chain(q) == [ColumnShift.Op("copy", 3, 1)];
    TipDiffs(q, repo2.nextStepId, 0);
    assert Chain(q)[..0] == [];
    var created := q.steps[0].created;
    assert |created| == 1 && created[0] == 4;
    FormatExamples();
  }

  /** Appending a two-way split after that copy records the created columns 0005 and 0006. */
  lemma AppendSplitScenario(repo: Repository, id: string)
    requires RepoWellFormed(repo) && id in repo.preparations
    requires repo.preparations[id].initialColumns == 3 && Chain(repo.preparations[id]) == [ColumnShift.Op("copy", 3, 1)]
    ensures var r := Append(repo, id, [Request("split", 1, 2)]);
            && r.Ok? && id in r.value.preparations
            && var q := r.value.preparations[id];
               && |q.steps| == 2 && q.steps[1].created == [5, 6]
  {
    var reqs := [Request("split", 1, 2)];
    AppendSpec(repo, id, reqs);
    var repo2 := Append(repo, id, reqs).value;
    var q := repo2.preparations[id];
    var h := [ColumnShift.Op("copy", 3, 1), ColumnShift.Op("split", 1, 2)];
    assert Chain(q) == h;
    TipDiffs(q, repo2.nextStepId, 1);
    ColumnShift.UpdateExample();
  }

  /**
   * Updating that copy into a split creating three columns keeps both steps, records 0004, 0005, 0006 for
   * the updated step and moves the next step's created columns to 0007 and 0008.
   */
  lemma UpdateShiftScenario(repo: Repository, id: string)
    requires RepoWellFormed(repo) && id in repo.preparations
    requires var p := repo.preparations[id];
             p.initialColumns == 3 && Chain(p) == [ColumnShift.Op("copy", 3, 1), ColumnShift.Op("split", 1, 2)]
    ensures var p := repo.preparations[id];
            var r := UpdateStep(repo, id, p.steps[0].id, Request("split", 1, 3));
            && r.Ok? && id in r.value.preparations
            && var q := r.value.preparations[id];
               && |q.steps| == 2 && q.steps[0].created == [4, 5, 6] && q.steps[1].created == [7, 8]
               && Format(q.steps[1].created[0]) == "0007" && Format(q.steps[1].created[1]) == "0008"
  {
    var p := repo.preparations[id];
    var req := Request("split", 1, 3);
    UpdateShiftChain(repo, id);
    var repo2 := UpdateStep(repo, id, p.steps[0].id, req).value;
    TwoSplitsCreated(repo2.preparations[id], repo2.nextStepId);
    FormatExamples();
  }

  /** The update of the scenario succeeds and leaves the chain split(0001, 3 columns), split(0001, 2 columns). */
  lemma UpdateShiftChain(repo: Repository, id: string)
    requires RepoWellFormed(repo) && id in repo.preparations
    requires var p := repo.preparations[id];
             p.initialColumns == 3 && Chain(p) == [ColumnShift.Op("copy", 3, 1), ColumnShift.Op("split", 1, 2)]
    ensures var p := repo.preparations[id];
            var r := UpdateStep(repo, id, p.steps[0].id, Request("split", 1, 3));
            && r.Ok? && id in r.value.preparations
            && var q := r.value.preparations[id];
               && WellFormed(q, r.value.nextStepId) && q.head == |q.steps| && q.initialColumns == 3
               && Chain(q) == [ColumnShift.Op("split", 1, 3), ColumnShift.Op("split", 1, 2)]
  {
    var p := repo.preparations[id];
    var h := [ColumnShift.Op("copy", 3, 1), ColumnShift.Op("split", 1, 2)];
    var a := ColumnShift.Op("split", 1, 3);
    var req := Request("split", 1, 3);
    assert ToAction(req) == a;
    IndexOfUnique(p.steps[..p.head], p.steps[0].id, 0);
    ColumnShift.UpdateExample();
    UpdateStepStored(repo, id, p.steps[0].id, req, 0, [a, h[1]]);
  }

  /**
   * An update of the step at position `k` whose renumbering gives `h` stores a well-formed preparation
   * whose chain is `h`.
   */
  lemma UpdateStepStored(repo: Repository, id: string, stepId: StepId, req: ActionRequest, k: nat, h: History)
    requires RepoWellFormed(repo) && id in repo.preparations && req.column.Some?
    requires var p := repo.preparations[id];
             IndexOf(p.steps[..p.head], stepId) == Some(k)
             && ColumnShift.Update(Chain(p), p.initialColumns, k, ToAction(req)) == Some(h)
    ensures var r := UpdateStep(repo, id, stepId, req);
            && r.Ok? && id in r.value.preparations
            && var q := r.value.preparations[id];
               && WellFormed(q, r.value.nextStepId) && q.head == |q.steps|
               && q.initialColumns == repo.preparations[id].initialColumns && Chain(q) == h
  {
    var p := repo.preparations[id];
    UpdateStepResult(repo, id, stepId, req, k, h);
    var repo2 := Store(repo, id, Rebuild(p, k, h, repo.nextStepId), |h| - k);
    StoreRebuild(repo, id, k, h);
    assert WellFormed(repo2.preparations[id], repo2.nextStepId);
  }

  /** An update of the step at position `k` whose renumbering succeeds stores the rebuilt preparation. */
  lemma UpdateStepResult(repo: Repository, id: string, stepId: StepId, req: ActionRequest, k: nat, h: History)
    requires RepoWellFormed(repo) && id in repo.preparations && req.column.Some?
    requires var p := repo.preparations[id];
             IndexOf(p.steps[..p.head], stepId) == Some(k)
             && ColumnShift.Update(Chain(p), p.initialColumns, k, ToAction(req)) == Some(h)
    ensures k <= repo.preparations[id].head && k <= |h| && h[..k] == Chain(repo.preparations[id])[..k]
    ensures UpdateStep(repo, id, stepId, req)
         == Ok(Store(repo, id, Rebuild(repo.preparations[id], k, h, repo.nextStepId), |h| - k))
  {
    var p := repo.preparations[id];
    ColumnShift.UpdatePrefix(Chain(p), p.initialColumns, k, ToAction(req));
  }

  lemma TwoSplitsCreated(q: Preparation, next: StepId)
    requires WellFormed(q, next) && q.head == |q.steps| && q.initialColumns == 3
    requires Chain(q) == [ColumnShift.Op("split", 1, 3), ColumnShift.Op("split", 1, 2)]
    ensures |q.steps| == 2 && q.steps[0].created == [4, 5, 6] && q.steps[1].created == [7, 8]
  {
    TipDiffs(q, next, 0);
    TipDiffs(q, next, 1);
    BaseStep(Chain(q), 3, 0);
    assert Base(Chain(q), 3, 0) == 3;
    assert Base(Chain(q), 3, 1) == 6;
  }

  /** Three steps whose last two lost their content: healing moves the head back to the first step. */
  lemma HealScenario(p: Preparation)
    requires |p.steps| == 3 && p.head == 3
    requires p.steps[0].contentStored && !p.steps[1].contentStored && !p.steps[2].contentStored
    ensures Heal(p).head == 1 && HeadId(Heal(p)) == p.steps[0].id
  {
  }

  /** Asking for the details up to the second of three steps lists the root and the first two steps. */
  lemma DetailsScenario(repo: Repository, id: string)
    requires RepoWellFormed(repo) && id in repo.preparations
    requires var p := repo.preparations[id];
             p.head == |p.steps| == 3 && forall i :: 0 <= i < 3 ==> p.steps[i].contentStored
    ensures var p := repo.preparations[id];
            var r := Details(repo, id, Some(p.steps[1].id));
            r.Ok? && r.value.1 == [RootId, p.steps[0].id, p.steps[1].id]
  {
    var p := repo.preparations[id];
    HealSpec(p);
    assert Heal(p) == p;
    IndexOfUnique(p.steps[..p.head], p.steps[1].id, 1);
    DetailsIds(repo, id, Some(p.steps[1].id));
  }
}
