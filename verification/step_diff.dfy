/**
 * The column effects of a preparation's actions: which column ids each step creates,
 * which columns are live before each step, and whether every step only uses live
 * columns. This is the part of the preparation service that diffs row metadata
 * before and after a step.
 */
module StepDiff {
  import opened ColumnIds

  /**
   * One transformation action with the column effects the action registry declares for it:
   * the column it is scoped to (its `column_id` parameter), how many new columns it creates
   * (one for `copy`, `limit` for `split`, ...) and whether it deletes its column (`delete_column`).
   */
  datatype Action = Action(name: string, column: ColumnId, creates: nat, deletesColumn: bool)

  /** The actions of a chain of steps, root first (the root step itself holds no action). */
  type History = seq<Action>

  /** How many columns the actions of `h` create altogether. */
  function CreatedCount(h: History): nat
  {
    if h == [] then 0 else CreatedCount(h[..|h| - 1]) + h[|h| - 1].creates
  }

  /** The highest id allocated before step `i` runs: the `n0` initial columns plus every column created earlier. */
  function Base(h: History, n0: nat, i: nat): nat
    requires i <= |h|
  {
    n0 + CreatedCount(h[..i])
  }

  /** The highest id allocated once every step of `h` ran. */
  function Total(h: History, n0: nat): nat
  {
    Base(h, n0, |h|)
  }

  lemma BaseStep(h: History, n0: nat, i: nat)
    requires i < |h|
    ensures Base(h, n0, i + 1) == Base(h, n0, i) + h[i].creates
  {
    assert h[..i + 1][..i] == h[..i];
  }

  lemma {:induction false} BaseMonotone(h: History, n0: nat, i: nat, j: nat)
    requires i <= j <= |h|
    ensures Base(h, n0, i) <= Base(h, n0, j)
  {
    if i < j {
      BaseMonotone(h, n0, i, j - 1);
      BaseStep(h, n0, j - 1);
    }
  }

  /** `Base` only looks at the steps before `i`. */
  lemma BasePrefix(h: History, g: History, n0: nat, i: nat)
    requires i <= |h| && i <= |g| && h[..i] == g[..i]
    ensures Base(h, n0, i) == Base(g, n0, i)
  {
  }

  /** The ids step `i` creates (the `createdColumns` of its diff): the next `creates` ids of the counter. */
  function CreatedIds(h: History, n0: nat, i: nat): (r: seq<ColumnId>)
    requires i < |h|
  {
    var b := Base(h, n0, i);
    seq(h[i].creates, (o: int) requires 0 <= o => (b + o + 1) as ColumnId)
  }

  /** Ids created by a step are fresh: above the initial columns and above every id created by an earlier step. */
  lemma CreatedIdsFresh(h: History, n0: nat, i: nat, j: nat, x: nat, y: nat)
    requires i < j < |h|
    requires x < h[i].creates && y < h[j].creates
    ensures n0 < CreatedIds(h, n0, i)[x] < CreatedIds(h, n0, j)[y]
  {
    BaseStep(h, n0, i);
    BaseMonotone(h, n0, i + 1, j);
  }

  /** Step `i`'s created ids only depend on the steps up to `i`. */
  lemma CreatedIdsPrefix(h: History, g: History, n0: nat, i: nat)
    requires i < |h| && i < |g| && h[..i + 1] == g[..i + 1]
    ensures CreatedIds(h, n0, i) == CreatedIds(g, n0, i)
  {
    assert h[..i] == h[..i + 1][..i] == g[..i + 1][..i] == g[..i];
    assert h[i] == h[..i + 1][i] == g[..i + 1][i] == g[i];
  }

  /** Column `c` was deleted by one of the steps before `i`. */
  predicate DeletedBefore(h: History, n0: nat, i: nat, c: ColumnId)
    requires i <= |h|
  {
    exists j :: 0 <= j < i && DeletesAt(h, n0, j, c)
  }

  /** Step `j` deletes column `c`, which exists at that point (deleting an unallocated id has no effect). */
  predicate DeletesAt(h: History, n0: nat, j: nat, c: ColumnId)
    requires j < |h|
  {
    h[j].deletesColumn && h[j].column == c && c <= Base(h, n0, j)
  }

  /** Column `c` exists in the row metadata step `i` runs against. */
  predicate Live(h: History, n0: nat, i: nat, c: ColumnId)
    requires i <= |h|
  {
    1 <= c <= Base(h, n0, i) && !DeletedBefore(h, n0, i, c)
  }

  /** No step uses a column that is not yet created or already deleted. */
  predicate Valid(h: History, n0: nat)
  {
    forall i :: 0 <= i < |h| ==> Live(h, n0, i, h[i].column)
  }

  /** Every step from position `from` on uses a live column. */
  predicate ValidFrom(h: History, n0: nat, from: nat)
  {
    forall i :: from <= i < |h| ==> Live(h, n0, i, h[i].column)
  }

  /** Where a column id comes from: the initial schema, a step's creation, or beyond every allocated id. */
  datatype Origin = Initial | Made(step: nat, offset: nat) | Beyond

  /** The step whose creation allocated id `c`. */
  function CreatorOf(h: History, n0: nat, c: ColumnId): (i: nat)
    requires n0 < c <= Total(h, n0)
    ensures i < |h| && Base(h, n0, i) < c <= Base(h, n0, i) + h[i].creates
    decreases |h|
  {
    var m := |h| - 1;
    BaseStep(h, n0, m);
    if c > Base(h, n0, m) then m
    else
      var g := h[..m];
      assert Total(g, n0) == Base(h, n0, m) by { assert g[..|g|] == h[..m]; }
      var i := CreatorOf(g, n0, c);
      BasePrefix(h, g, n0, i);
      assert g[i] == h[i];
      i
  }

  /** A column id belongs to the range of at most one step. */
  lemma CreatorUnique(h: History, n0: nat, c: ColumnId, i: nat, j: nat)
    requires i < |h| && Base(h, n0, i) < c <= Base(h, n0, i) + h[i].creates
    requires j < |h| && Base(h, n0, j) < c <= Base(h, n0, j) + h[j].creates
    ensures i == j
  {
    if i < j {
      BaseStep(h, n0, i);
      BaseMonotone(h, n0, i + 1, j);
    } else if j < i {
      BaseStep(h, n0, j);
      BaseMonotone(h, n0, j + 1, i);
    }
  }

  function OriginOf(h: History, n0: nat, c: ColumnId): (r: Origin)
    ensures r.Initial? <==> c <= n0
    ensures r.Beyond? <==> c > Total(h, n0)
    ensures r.Made? ==> r.step < |h| && r.offset < h[r.step].creates
                        && c == Base(h, n0, r.step) + r.offset + 1
  {
    BaseMonotone(h, n0, 0, |h|);
    if c <= n0 then Initial
    else if c > Total(h, n0) then Beyond
    else
      var i := CreatorOf(h, n0, c);
      Made(i, c - Base(h, n0, i) - 1)
  }

  /** The origin of a created id is the step that created it, at that position in its diff. */
  lemma OriginOfCreated(h: History, n0: nat, i: nat, o: nat)
    requires i < |h| && o < h[i].creates
    ensures OriginOf(h, n0, CreatedIds(h, n0, i)[o]) == Made(i, o)
  {
    var c := CreatedIds(h, n0, i)[o];
    BaseStep(h, n0, i);
    BaseMonotone(h, n0, 0, i);
    BaseMonotone(h, n0, i + 1, |h|);
    var r := OriginOf(h, n0, c);
    CreatorUnique(h, n0, c, r.step, i);
  }

  /** A live column was allocated before its step: initial, or created by an earlier step. */
  lemma LiveOrigin(h: History, n0: nat, i: nat, c: ColumnId)
    requires i <= |h| && Live(h, n0, i, c)
    ensures OriginOf(h, n0, c).Initial? || (OriginOf(h, n0, c).Made? && OriginOf(h, n0, c).step < i)
  {
    BaseMonotone(h, n0, i, |h|);
    var r := OriginOf(h, n0, c);
    if r.Made? && r.step >= i {
      BaseMonotone(h, n0, i, r.step);
    }
  }

  /** The row metadata step `i` runs against, as the set of its column ids. */
  function Schema(h: History, n0: nat, i: nat): set<ColumnId>
    requires i <= |h|
  {
    set c: ColumnId | c <= Base(h, n0, i) && Live(h, n0, i, c)
  }

  /** `Schema` is exactly the set of live columns. */
  lemma SchemaIsLive(h: History, n0: nat, i: nat, c: ColumnId)
    requires i <= |h|
    ensures c in Schema(h, n0, i) <==> Live(h, n0, i, c)
  {
  }

  predicate Above(lo: nat, c: ColumnId) { lo < c }

  /** The ids `lo + 1 .. lo + n`. */
  function Fresh(lo: nat, n: nat): set<ColumnId>
  {
    set c: ColumnId | c <= lo + n && Above(lo, c)
  }

  /**
   * Replays the actions of a chain against the initial schema `1..n0`, the way the service
   * simulates each step to compute its diff: a counter hands out new ids, deleted columns
   * leave the schema. The diffs it records are the ones stored on the steps.
   */
  method Replay(h: History, n0: nat) returns (diffs: seq<seq<ColumnId>>, schema: set<ColumnId>, next: nat)
    ensures |diffs| == |h|
    ensures forall i :: 0 <= i < |h| ==> diffs[i] == CreatedIds(h, n0, i)
    ensures schema == Schema(h, n0, |h|)
    ensures forall c: ColumnId :: c in schema <==> 1 <= c <= Total(h, n0) && !DeletedBefore(h, n0, |h|, c)
    ensures next == Total(h, n0)
  {
    diffs := [];
    schema := Fresh(0, n0);
    next := n0;
    var i := 0;
    assert schema == Schema(h, n0, 0) by {
      forall c ensures c in schema <==> c in Schema(h, n0, 0) {
        SchemaIsLive(h, n0, 0, c);
      }
    }
    while i < |h|
      invariant i <= |h|
      invariant next == Base(h, n0, i)
      invariant |diffs| == i
      invariant forall k :: 0 <= k < i ==> diffs[k] == CreatedIds(h, n0, k)
      invariant schema == Schema(h, n0, i)
    {
      var a := h[i];
      var created := seq(a.creates, (o: int) requires 0 <= o => (next + o + 1) as ColumnId);
      diffs := diffs + [created];
      SchemaStep(h, n0, i);
      schema := schema + Fresh(next, a.creates);
      if a.deletesColumn && a.column <= next {
        schema := schema - {a.column};
      }
      BaseStep(h, n0, i);
      next := next + a.creates;
      i := i + 1;
    }
    forall c: ColumnId ensures c in schema <==> 1 <= c <= Total(h, n0) && !DeletedBefore(h, n0, |h|, c) {
      SchemaIsLive(h, n0, |h|, c);
    }
  }

  lemma SchemaStep(h: History, n0: nat, i: nat)
    requires i < |h|
    ensures Schema(h, n0, i + 1) ==
      (Schema(h, n0, i) + Fresh(Base(h, n0, i), h[i].creates))
        - (if DeletesAt(h, n0, i, h[i].column) then {h[i].column} else {})
  {
    BaseStep(h, n0, i);
    var b := Base(h, n0, i);
    var lhs := Schema(h, n0, i + 1);
    var rhs := (Schema(h, n0, i) + Fresh(b, h[i].creates))
        - (if DeletesAt(h, n0, i, h[i].column) then {h[i].column} else {});
    forall c ensures c in lhs <==> c in rhs {
      SchemaIsLive(h, n0, i, c);
      SchemaIsLive(h, n0, i + 1, c);
      DeletedStep(h, n0, i, c);
      if c > b && DeletedBefore(h, n0, i, c) {
        var j :| 0 <= j < i && DeletesAt(h, n0, j, c);
        BaseMonotone(h, n0, j, i);
      }
    }
  }

  lemma DeletedStep(h: History, n0: nat, i: nat, c: ColumnId)
    requires i < |h|
    ensures DeletedBefore(h, n0, i + 1, c) <==> DeletedBefore(h, n0, i, c) || DeletesAt(h, n0, i, c)
  {
    if DeletedBefore(h, n0, i + 1, c) && !DeletesAt(h, n0, i, c) {
      var j :| 0 <= j < i + 1 && DeletesAt(h, n0, j, c);
      assert j < i;
    }
  }
}
