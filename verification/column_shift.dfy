/**
 * Rewriting column ids in the steps after a structural change of a preparation's history
 * (an updated step that creates a different number of columns, a deleted step, a moved
 * step). Every column reference is traced back to where its id came from, the initial
 * schema or the step that created it, and rewritten to the id that same column gets in the
 * rebuilt history.
 */
module ColumnShift {
  import opened Results
  import opened ColumnIds
  import opened StepDiff

  /** For every step of the old history, its position in the rebuilt one, or `None` when it is dropped. */
  type Placement = seq<Option<nat>>

  predicate Placed(h: History, h2: History, place: Placement)
  {
    |place| == |h| && forall i :: 0 <= i < |h| && place[i].Some? ==> place[i].value < |h2|
  }

  /** No two kept steps land on the same position. */
  predicate Injective(place: Placement)
  {
    forall i, j :: 0 <= i < |place| && 0 <= j < |place| && place[i].Some? && place[j].Some? && place[i].value == place[j].value ==> i == j
  }

  function Identity(n: nat): (place: Placement)
    ensures |place| == n
    ensures forall i :: 0 <= i < n ==> place[i] == Some(i)
  {
    seq(n, i requires 0 <= i => Some(i))
  }

  /**
   * The id that column `c` of history `h` has in the rebuilt history `h2`. Initial columns keep their id,
   * a created column follows its creating step to that step's new position, ids beyond every allocated id
   * move with the total; `None` when the creating step is dropped or no longer creates that many columns.
   */
  function Renumber(h: History, h2: History, n0: nat, place: Placement, c: ColumnId): Option<ColumnId>
    requires |place| == |h|
  {
    match OriginOf(h, n0, c)
    case Initial => Some(c)
    case Beyond => Some(c - Total(h, n0) + Total(h2, n0))
    case Made(i, o) =>
      if place[i].Some? && place[i].value < |h2| && o < h2[place[i].value].creates then Some(CreatedIds(h2, n0, place[i].value)[o]) else None
  }

  /** A renumbered created column is the same column of the same step, now at that step's new position. */
  lemma RenumberFollowsCreator(h: History, h2: History, n0: nat, place: Placement, c: ColumnId)
    requires |place| == |h|
    requires OriginOf(h, n0, c).Made? && Renumber(h, h2, n0, place, c).Some?
    ensures OriginOf(h2, n0, Renumber(h, h2, n0, place, c).value)
         == Made(place[OriginOf(h, n0, c).step].value, OriginOf(h, n0, c).offset)
  {
    var r := OriginOf(h, n0, c);
    OriginOfCreated(h2, n0, place[r.step].value, r.offset);
  }

  /** The numbers the three kinds of origin are mapped to never overlap, so renumbering is injective. */
  lemma RenumberInjective(h: History, h2: History, n0: nat, place: Placement, c1: ColumnId, c2: ColumnId)
    requires |place| == |h| && Injective(place)
    requires Renumber(h, h2, n0, place, c1).Some? && Renumber(h, h2, n0, place, c2).Some?
    requires Renumber(h, h2, n0, place, c1) == Renumber(h, h2, n0, place, c2)
    ensures c1 == c2
  {
    var r1 := OriginOf(h, n0, c1);
    var r2 := OriginOf(h, n0, c2);
    var x := Renumber(h, h2, n0, place, c1).value;
    if r1.Made? {
      RenumberFollowsCreator(h, h2, n0, place, c1);
    }
    if r2.Made? {
      RenumberFollowsCreator(h, h2, n0, place, c2);
    }
    if r1.Made? && r2.Made? {
      assert place[r1.step] == place[r2.step];
    }
  }

  /** Two histories whose steps create the same numbers of columns allocate the same ids. */
  predicate SameShape(h: History, g: History)
  {
    |h| == |g| && forall i :: 0 <= i < |h| ==> h[i].creates == g[i].creates
  }

  lemma {:induction false} SameShapeCount(h: History, g: History)
    requires SameShape(h, g)
    ensures CreatedCount(h) == CreatedCount(g)
  {
    if h != [] {
      SameShapeCount(h[..|h| - 1], g[..|g| - 1]);
    }
  }

  lemma SameShapeBase(h: History, g: History, n0: nat, i: nat)
    requires SameShape(h, g) && i <= |h|
    ensures Base(h, n0, i) == Base(g, n0, i)
  {
    SameShapeCount(h[..i], g[..i]);
  }

  /** Rebuilding a history without changing its shape or order renumbers nothing: a zero shift is the identity. */
  lemma RenumberZeroShift(h: History, h2: History, n0: nat, c: ColumnId)
    requires SameShape(h, h2)
    ensures Renumber(h, h2, n0, Identity(|h|), c) == Some(c)
  {
    SameShapeBase(h, h2, n0, |h|);
    var r := OriginOf(h, n0, c);
    if r.Made? {
      SameShapeBase(h, h2, n0, r.step);
    }
  }

  /**
   * The steps of `steps` with their columns renumbered, or `None` as soon as one of them
   * names a column that the rebuilt history no longer has.
   */
  function RenameList(h: History, h2: History, n0: nat, place: Placement, steps: History): (r: Option<History>)
    requires |place| == |h|
    ensures r.Some? <==> forall i :: 0 <= i < |steps| ==> Renumber(h, h2, n0, place, steps[i].column).Some?
    ensures r.Some? ==> |r.value| == |steps| && forall i :: 0 <= i < |steps| ==>
              r.value[i] == steps[i].(column := Renumber(h, h2, n0, place, steps[i].column).value)
  {
    if steps == [] then Some([])
    else
      match Renumber(h, h2, n0, place, steps[0].column)
      case None => None
      case Some(c) =>
        match RenameList(h, h2, n0, place, steps[1..])
        case None =>
          assert forall i :: 0 <= i < |steps| - 1 ==> steps[1..][i] == steps[i + 1];
          None
        case Some(rest) => Some([steps[0].(column := c)] + rest)
  }

  /** `h2` with the steps from position `from` on renumbered. */
  function Rename(h: History, h2: History, n0: nat, place: Placement, from: nat): (r: Option<History>)
    requires |place| == |h| && from <= |h2|
    ensures r.Some? <==> forall j :: from <= j < |h2| ==> Renumber(h, h2, n0, place, h2[j].column).Some?
    ensures r.Some? ==> |r.value| == |h2| && r.value[..from] == h2[..from] && SameShape(r.value, h2)
    ensures r.Some? ==> forall j :: from <= j < |h2| ==>
              r.value[j] == h2[j].(column := Renumber(h, h2, n0, place, h2[j].column).value)
  {
    var tail := h2[from..];
    assert forall j :: from <= j < |h2| ==> tail[j - from] == h2[j];
    match RenameList(h, h2, n0, place, tail)
    case None => None
    case Some(t) =>
      RenameJoin(h, h2, n0, place, from, t);
      Some(h2[..from] + t)
  }

  /** The renamed tail put back behind the untouched prefix. */
  lemma RenameJoin(h: History, h2: History, n0: nat, place: Placement, from: nat, t: History)
    requires |place| == |h| && from <= |h2|
    requires RenameList(h, h2, n0, place, h2[from..]) == Some(t)
    ensures var r := h2[..from] + t;
            && |r| == |h2| && r[..from] == h2[..from] && SameShape(r, h2)
            && forall j :: from <= j < |h2| ==>
                 r[j] == h2[j].(column := Renumber(h, h2, n0, place, h2[j].column).value)
  {
    var tail := h2[from..];
    var r := h2[..from] + t;
    assert r[..from] == h2[..from];
    forall j | from <= j < |h2|
      ensures r[j] == h2[j].(column := Renumber(h, h2, n0, place, h2[j].column).value)
    {
      assert r[j] == t[j - from] && tail[j - from] == h2[j];
    }
    forall j | 0 <= j < from ensures r[j].creates == h2[j].creates {
      assert r[j] == h2[..from][j];
    }
  }

  // ---------------------------------------------------------------------------------------------
  // Update
  // ---------------------------------------------------------------------------------------------

  /**
   * Replaces the action of step `k` by `a` and renumbers every later step: ids allocated after step `k`
   * move by the change in its created-column count. `None` when a later step uses a column that step `k`
   * no longer creates, so that it has no id to move to.
   */
  function Shift(h: History, n0: nat, k: nat, a: Action): Option<History>
    requires k < |h|
  {
    Rename(h, h[k := a], n0, Identity(|h|), k + 1)
  }

  /**
   * Updating step `k` to the action `a`: the shifted history, or `None` (a conflict) when the shift fails
   * or when, from step `k` on, a step would use a column that is not yet created or already deleted.
   */
  function Update(h: History, n0: nat, k: nat, a: Action): Option<History>
    requires k < |h|
  {
    match Shift(h, n0, k, a)
    case None => None
    case Some(r) => if ValidFrom(r, n0, k) then Some(r) else None
  }

  lemma {:induction false} UpdateBase(h: History, n0: nat, k: nat, a: Action, i: nat)
    requires k < |h| && i <= |h|
    ensures i <= k ==> Base(h[k := a], n0, i) == Base(h, n0, i)
    ensures i > k ==> Base(h[k := a], n0, i) + h[k].creates == Base(h, n0, i) + a.creates
  {
    var g := h[k := a];
    if i <= k {
      BasePrefix(h, g, n0, i);
    } else {
      UpdateBase(h, n0, k, a, i - 1);
      BaseStep(h, n0, i - 1);
      BaseStep(g, n0, i - 1);
    }
  }

  /** How `Update` rewrites one column id of a later step. */
  lemma UpdateRenumber(h: History, n0: nat, k: nat, a: Action, c: ColumnId)
    requires k < |h|
    ensures var b := Base(h, n0, k);
            var x := Renumber(h, h[k := a], n0, Identity(|h|), c);
            && (c <= b ==> x == Some(c))
            && (b < c <= b + h[k].creates && c <= b + a.creates ==> x == Some(c))
            && (b + a.creates < c <= b + h[k].creates ==> x == None)
            && (c > b + h[k].creates ==> x == Some(c + a.creates - h[k].creates))
  {
    var b := Base(h, n0, k);
    if c <= b || (c <= b + h[k].creates && c <= b + a.creates) {
      UpdateKeeps(h, n0, k, a, c);
    } else if c <= b + h[k].creates {
      UpdateLoses(h, n0, k, a, c);
    } else {
      UpdateMoves(h, n0, k, a, c);
    }
  }

  /** Ids allocated before step `k`, and those step `k` still creates, keep their number. */
  lemma UpdateKeeps(h: History, n0: nat, k: nat, a: Action, c: ColumnId)
    requires k < |h| && c <= Base(h, n0, k) + h[k].creates && c <= Base(h, n0, k) + a.creates
    ensures Renumber(h, h[k := a], n0, Identity(|h|), c) == Some(c)
  {
    var g := h[k := a];
    var r := OriginOf(h, n0, c);
    UpdateBase(h, n0, k, a, k);
    BaseStep(h, n0, k);
    BaseMonotone(h, n0, k + 1, |h|);
    if r.Made? {
      var i := r.step;
      UpdateBase(h, n0, k, a, i);
      if i < k {
        BaseStep(h, n0, i);
        BaseMonotone(h, n0, i + 1, k);
      } else if i > k {
        BaseMonotone(h, n0, k + 1, i);
      }
      assert CreatedIds(g, n0, i)[r.offset] == c;
    }
  }

  /** Ids step `k` no longer creates cannot be renumbered. */
  lemma UpdateLoses(h: History, n0: nat, k: nat, a: Action, c: ColumnId)
    requires k < |h| && Base(h, n0, k) + a.creates < c <= Base(h, n0, k) + h[k].creates
    ensures Renumber(h, h[k := a], n0, Identity(|h|), c) == None
  {
    var r := OriginOf(h, n0, c);
    UpdateBase(h, n0, k, a, k);
    BaseStep(h, n0, k);
    BaseMonotone(h, n0, 0, k);
    BaseMonotone(h, n0, k + 1, |h|);
    assert r.Made?;
    CreatorUnique(h, n0, c, r.step, k);
  }

  /** Ids allocated after step `k` move by the change in its created-column count. */
  lemma UpdateMoves(h: History, n0: nat, k: nat, a: Action, c: ColumnId)
    requires k < |h| && c > Base(h, n0, k) + h[k].creates
    ensures Renumber(h, h[k := a], n0, Identity(|h|), c) == Some(c + a.creates - h[k].creates)
  {
    var g := h[k := a];
    var r := OriginOf(h, n0, c);
    BaseStep(h, n0, k);
    BaseMonotone(h, n0, 0, k);
    UpdateBase(h, n0, k, a, |h|);
    if r.Made? {
      var i := r.step;
      if i <= k {
        BaseStep(h, n0, i);
        BaseMonotone(h, n0, i + 1, k + 1);
      }
      UpdateBase(h, n0, k, a, i);
      assert CreatedIds(g, n0, i)[r.offset] == c + a.creates - h[k].creates;
    }
  }

  /**
   * Updating step `k`: the history keeps its length, the steps before `k` are untouched, step `k` holds
   * the new action, and every later step keeps its action with its column id shifted by the change in
   * step `k`'s created-column count when that id was allocated after step `k`. The update is rejected
   * exactly when a later step uses one of the ids step `k` stops creating, or when the shifted history
   * uses, from step `k` on, a column that is not live; so an accepted update is consistent from `k` on.
   */
  lemma UpdateShifts(h: History, n0: nat, k: nat, a: Action)
    requires k < |h|
    ensures var b := Base(h, n0, k);
            Shift(h, n0, k, a).None? <==>
              exists j :: k < j < |h| && b + a.creates < h[j].column <= b + h[k].creates
    ensures Update(h, n0, k, a).None? <==>
              Shift(h, n0, k, a).None? || !ValidFrom(Shift(h, n0, k, a).value, n0, k)
    ensures Update(h, n0, k, a).Some? ==>
      var r := Update(h, n0, k, a).value;
      var b := Base(h, n0, k);
      && |r| == |h| && r[..k] == h[..k] && r[k] == a && ValidFrom(r, n0, k)
      && (forall j :: k < j < |h| ==> r[j] == h[j].(column := r[j].column))
      && (forall j :: k < j < |h| && h[j].column <= b + h[k].creates ==> r[j].column == h[j].column)
      && (forall j :: k < j < |h| && h[j].column > b + h[k].creates ==>
            r[j].column == h[j].column + a.creates - h[k].creates)
  {
    ShiftConflicts(h, n0, k, a);
    if Update(h, n0, k, a).Some? {
      UpdateResult(h, n0, k, a);
    }
  }

  lemma ShiftConflicts(h: History, n0: nat, k: nat, a: Action)
    requires k < |h|
    ensures var b := Base(h, n0, k);
            Shift(h, n0, k, a).None? <==>
              exists j :: k < j < |h| && b + a.creates < h[j].column <= b + h[k].creates
  {
    var b := Base(h, n0, k);
    var g := h[k := a];
    forall j | k < j < |h|
      ensures g[j] == h[j]
      ensures Renumber(h, g, n0, Identity(|h|), g[j].column).None? <==> b + a.creates < h[j].column <= b + h[k].creates
    {
      UpdateRenumber(h, n0, k, a, h[j].column);
    }
  }

  lemma ShiftResult(h: History, n0: nat, k: nat, a: Action)
    requires k < |h| && Shift(h, n0, k, a).Some?
    ensures var r := Shift(h, n0, k, a).value;
      var b := Base(h, n0, k);
      && |r| == |h| && r[..k] == h[..k] && r[k] == a
      && (forall j :: k < j < |h| ==> r[j] == h[j].(column := r[j].column))
      && (forall j :: k < j < |h| && h[j].column <= b + h[k].creates ==> r[j].column == h[j].column)
      && (forall j :: k < j < |h| && h[j].column > b + h[k].creates ==>
            r[j].column == h[j].column + a.creates - h[k].creates)
  {
    var b := Base(h, n0, k);
    var g := h[k := a];
    var r := Shift(h, n0, k, a).value;
    assert r[..k] == g[..k] == h[..k];
    assert r[k] == g[k];
    forall j | k < j < |h|
      ensures r[j] == h[j].(column := r[j].column)
      ensures h[j].column <= b + h[k].creates ==> r[j].column == h[j].column
      ensures h[j].column > b + h[k].creates ==> r[j].column == h[j].column + a.creates - h[k].creates
    {
      assert g[j] == h[j];
      UpdateRenumber(h, n0, k, a, h[j].column);
    }
  }

  /** An accepted update is the successful shift, and the shifted history is live from step `k` on. */
  lemma UpdateResult(h: History, n0: nat, k: nat, a: Action)
    requires k < |h| && Update(h, n0, k, a).Some?
    ensures Shift(h, n0, k, a) == Update(h, n0, k, a)
    ensures var r := Update(h, n0, k, a).value;
      var b := Base(h, n0, k);
      && |r| == |h| && r[..k] == h[..k] && r[k] == a && ValidFrom(r, n0, k)
      && (forall j :: k < j < |h| ==> r[j] == h[j].(column := r[j].column))
      && (forall j :: k < j < |h| && h[j].column <= b + h[k].creates ==> r[j].column == h[j].column)
      && (forall j :: k < j < |h| && h[j].column > b + h[k].creates ==>
            r[j].column == h[j].column + a.creates - h[k].creates)
  {
    ShiftResult(h, n0, k, a);
  }

  lemma UpdateIsShift(h: History, n0: nat, k: nat, a: Action)
    requires k < |h| && Update(h, n0, k, a).Some?
    ensures Shift(h, n0, k, a) == Update(h, n0, k, a)
  {
  }

  /** A successful update keeps the length and the steps before the updated one. */
  lemma UpdatePrefix(h: History, n0: nat, k: nat, a: Action)
    requires k < |h| && Update(h, n0, k, a).Some?
    ensures |Update(h, n0, k, a).value| == |h| && Update(h, n0, k, a).value[..k] == h[..k]
  {
    UpdateResult(h, n0, k, a);
  }

  /** Updating a step of a consistent history gives, when accepted, a consistent history. */
  lemma UpdateValid(h: History, n0: nat, k: nat, a: Action)
    requires k < |h| && Valid(h, n0) && Update(h, n0, k, a).Some?
    ensures Valid(Update(h, n0, k, a).value, n0)
  {
    var r := Update(h, n0, k, a).value;
    UpdatePrefix(h, n0, k, a);
    UpdateResult(h, n0, k, a);
    forall i | 0 <= i < k ensures Live(r, n0, i, r[i].column) {
      assert r[..i] == r[..k][..i] == h[..k][..i] == h[..i];
      assert r[i] == r[..k][i] == h[..k][i] == h[i];
      assert Live(h, n0, i, h[i].column);
      LivePrefix(r, h, n0, i, h[i].column);
    }
  }

  /** After an update, each later step's created ids are its old ones shifted by the change in step `k`'s count. */
  lemma UpdateShiftsCreatedIds(h: History, n0: nat, k: nat, a: Action, j: nat)
    requires k < j < |h| && Update(h, n0, k, a).Some?
    ensures var r := Update(h, n0, k, a).value;
            |CreatedIds(r, n0, j)| == |CreatedIds(h, n0, j)|
            && forall o :: 0 <= o < |CreatedIds(h, n0, j)| ==>
                 CreatedIds(r, n0, j)[o] + h[k].creates == CreatedIds(h, n0, j)[o] + a.creates
  {
    var r := Update(h, n0, k, a).value;
    UpdateIsShift(h, n0, k, a);
    UpdateBase(h, n0, k, a, j);
    SameShapeBase(r, h[k := a], n0, j);
  }

  // ---------------------------------------------------------------------------------------------
  // Delete
  // ---------------------------------------------------------------------------------------------

  /** Step `i` goes when step `k` is deleted: it is step `k`, or it uses a column created by a step that goes. */
  predicate Doomed(h: History, n0: nat, k: nat, i: nat)
    requires i < |h|
    decreases i
  {
    i == k
    || (k < i && OriginOf(h, n0, h[i].column).Made? && OriginOf(h, n0, h[i].column).step < i
        && Doomed(h, n0, k, OriginOf(h, n0, h[i].column).step))
  }

  /** The steps among the first `m` that survive the deletion of step `k`, in their order. */
  function Kept(h: History, n0: nat, k: nat, m: nat): (r: History)
    requires m <= |h|
    ensures |r| <= m
  {
    if m == 0 then [] else Kept(h, n0, k, m - 1) + (if Doomed(h, n0, k, m - 1) then [] else [h[m - 1]])
  }

  lemma {:induction false} KeptBefore(h: History, n0: nat, k: nat, m: nat)
    requires m <= k && m <= |h|
    ensures Kept(h, n0, k, m) == h[..m]
  {
    if m > 0 {
      KeptBefore(h, n0, k, m - 1);
      assert h[..m] == h[..m - 1] + [h[m - 1]];
    }
  }

  lemma {:induction false} KeptGrow(h: History, n0: nat, k: nat, i: nat, m: nat)
    requires i <= m <= |h|
    ensures |Kept(h, n0, k, i)| <= |Kept(h, n0, k, m)| <= |Kept(h, n0, k, i)| + (m - i)
    ensures Kept(h, n0, k, m)[..|Kept(h, n0, k, i)|] == Kept(h, n0, k, i)
  {
    if i < m {
      KeptGrow(h, n0, k, i, m - 1);
      var a := Kept(h, n0, k, m - 1);
      var b := Kept(h, n0, k, m);
      var n := |Kept(h, n0, k, i)|;
      assert b[..|a|] == a;
      assert b[..n] == a[..n];
    }
  }

  /** A surviving step sits in the rebuilt history at the number of survivors before it. */
  lemma KeptAt(h: History, n0: nat, k: nat, i: nat, m: nat)
    requires i < m <= |h| && !Doomed(h, n0, k, i)
    ensures |Kept(h, n0, k, i)| < |Kept(h, n0, k, m)| && Kept(h, n0, k, m)[|Kept(h, n0, k, i)|] == h[i]
  {
    KeptGrow(h, n0, k, i + 1, m);
    var a := Kept(h, n0, k, i + 1);
    var b := Kept(h, n0, k, m);
    assert a == Kept(h, n0, k, i) + [h[i]];
    assert b[..|a|] == a;
    assert b[|Kept(h, n0, k, i)|] == b[..|a|][|Kept(h, n0, k, i)|];
  }

  /** Every position of the rebuilt history holds some surviving step. */
  lemma {:induction false} KeptSource(h: History, n0: nat, k: nat, m: nat, q: nat) returns (i: nat)
    requires m <= |h| && q < |Kept(h, n0, k, m)|
    ensures i < m && !Doomed(h, n0, k, i) && |Kept(h, n0, k, i)| == q
  {
    if q < |Kept(h, n0, k, m - 1)| {
      i := KeptSource(h, n0, k, m - 1, q);
    } else {
      i := m - 1;
    }
  }

  lemma KeptOrder(h: History, n0: nat, k: nat, i: nat, j: nat)
    requires i < j < |h| && !Doomed(h, n0, k, i)
    ensures |Kept(h, n0, k, i)| < |Kept(h, n0, k, j)|
  {
    KeptGrow(h, n0, k, i + 1, j);
  }

  /** Where each step lands when step `k` is deleted: after the survivors before it, or nowhere. */
  function DeletePlacement(h: History, n0: nat, k: nat): (place: Placement)
    ensures |place| == |h|
  {
    seq(|h|, i requires 0 <= i < |h| => if Doomed(h, n0, k, i) then None else Some(|Kept(h, n0, k, i)|))
  }

  lemma DeletePlaced(h: History, n0: nat, k: nat)
    ensures Placed(h, Kept(h, n0, k, |h|), DeletePlacement(h, n0, k))
    ensures Injective(DeletePlacement(h, n0, k))
  {
    var place := DeletePlacement(h, n0, k);
    forall i | 0 <= i < |h| && place[i].Some? ensures place[i].value < |Kept(h, n0, k, |h|)| {
      KeptAt(h, n0, k, i, |h|);
    }
    forall i, j | 0 <= i < |h| && 0 <= j < |h| && place[i].Some? && place[j].Some? && place[i].value == place[j].value
      ensures i == j
    {
      if i < j {
        KeptOrder(h, n0, k, i, j);
      } else if j < i {
        KeptOrder(h, n0, k, j, i);
      }
    }
  }

  /**
   * Deletes step `k` together with every step that uses a column it (transitively) created, and renumbers
   * the remaining later steps; `None` (a conflict) when a remaining step refers to a column that is gone.
   */
  function Delete(h: History, n0: nat, k: nat): Option<History>
    requires k < |h|
  {
    DeletePlaced(h, n0, k);
    KeptBefore(h, n0, k, k);
    KeptGrow(h, n0, k, k, |h|);
    Rename(h, Kept(h, n0, k, |h|), n0, DeletePlacement(h, n0, k), k)
  }

  lemma DoomedFrom(h: History, n0: nat, k: nat, i: nat)
    requires i < |h| && Doomed(h, n0, k, i)
    ensures k <= i
  {
  }

  /** A step after `k` that uses a column created by a doomed step is doomed. */
  lemma DoomedByCreator(h: History, n0: nat, k: nat, i: nat)
    requires k < i < |h|
    requires OriginOf(h, n0, h[i].column).Made? && OriginOf(h, n0, h[i].column).step < i
    requires Doomed(h, n0, k, OriginOf(h, n0, h[i].column).step)
    ensures Doomed(h, n0, k, i)
  {
  }

  /** A created column renumbers when its creating step is kept with the same action. */
  lemma RenumberPlaced(h: History, h2: History, n0: nat, place: Placement, c: ColumnId, p: nat)
    requires |place| == |h| && OriginOf(h, n0, c).Made?
    requires place[OriginOf(h, n0, c).step] == Some(p) && p < |h2| && h2[p] == h[OriginOf(h, n0, c).step]
    ensures Renumber(h, h2, n0, place, c).Some?
  {
  }

  /** A column created by a step that keeps its position, behind an unchanged prefix, keeps its id. */
  lemma RenumberSamePrefix(h: History, h2: History, n0: nat, place: Placement, c: ColumnId)
    requires |place| == |h| && OriginOf(h, n0, c).Made?
    requires var j := OriginOf(h, n0, c).step;
             place[j] == Some(j) && j < |h2| && h2[..j + 1] == h[..j + 1]
    ensures Renumber(h, h2, n0, place, c) == Some(c)
  {
    var j := OriginOf(h, n0, c).step;
    CreatedIdsPrefix(h2, h, n0, j);
  }

  /** A surviving step whose column is live renumbers, and before `k` it keeps its id. */
  lemma DeleteSurvivorRenumbers(h: History, n0: nat, k: nat, i: nat)
    requires k < |h| && i < |h| && !Doomed(h, n0, k, i) && Live(h, n0, i, h[i].column)
    ensures var x := Renumber(h, Kept(h, n0, k, |h|), n0, DeletePlacement(h, n0, k), h[i].column);
            x.Some? && (i < k ==> x == Some(h[i].column))
  {
    var c := h[i].column;
    LiveOrigin(h, n0, i, c);
    if OriginOf(h, n0, c).Made? {
      SurvivorCreatorKept(h, n0, k, i);
      KeptCreatorRenumbers(h, n0, k, c);
      if i < k {
        KeptCreatorBefore(h, n0, k, c);
      }
    }
  }

  /** The step that created the column of a surviving step survives too. */
  lemma SurvivorCreatorKept(h: History, n0: nat, k: nat, i: nat)
    requires k < |h| && i < |h| && !Doomed(h, n0, k, i)
    requires OriginOf(h, n0, h[i].column).Made? && OriginOf(h, n0, h[i].column).step < i
    ensures !Doomed(h, n0, k, OriginOf(h, n0, h[i].column).step)
  {
    var j := OriginOf(h, n0, h[i].column).step;
    if Doomed(h, n0, k, j) {
      DoomedFrom(h, n0, k, j);
      DoomedByCreator(h, n0, k, i);
      assert false;
    }
  }

  /** A column whose creator survives the deletion has an id afterwards. */
  lemma KeptCreatorRenumbers(h: History, n0: nat, k: nat, c: ColumnId)
    requires k < |h| && OriginOf(h, n0, c).Made? && !Doomed(h, n0, k, OriginOf(h, n0, c).step)
    ensures Renumber(h, Kept(h, n0, k, |h|), n0, DeletePlacement(h, n0, k), c).Some?
  {
    var j := OriginOf(h, n0, c).step;
    KeptAt(h, n0, k, j, |h|);
    RenumberPlaced(h, Kept(h, n0, k, |h|), n0, DeletePlacement(h, n0, k), c, |Kept(h, n0, k, j)|);
  }

  /** A column created before the deleted step keeps its id. */
  lemma KeptCreatorBefore(h: History, n0: nat, k: nat, c: ColumnId)
    requires k < |h| && OriginOf(h, n0, c).Made? && OriginOf(h, n0, c).step < k
    ensures Renumber(h, Kept(h, n0, k, |h|), n0, DeletePlacement(h, n0, k), c) == Some(c)
  {
    var j := OriginOf(h, n0, c).step;
    KeptAt(h, n0, k, j, |h|);
    KeptBefore(h, n0, k, j + 1);
    KeptGrow(h, n0, k, j + 1, |h|);
    RenumberSamePrefix(h, Kept(h, n0, k, |h|), n0, DeletePlacement(h, n0, k), c);
  }

  /** Deleting a step of a valid history never conflicts. */
  lemma DeleteSucceeds(h: History, n0: nat, k: nat)
    requires k < |h| && Valid(h, n0)
    ensures Delete(h, n0, k).Some?
  {
    DeletePlaced(h, n0, k);
    var h2 := Kept(h, n0, k, |h|);
    var place := DeletePlacement(h, n0, k);
    KeptBefore(h, n0, k, k);
    KeptGrow(h, n0, k, k, |h|);
    forall q | k <= q < |h2| ensures Renumber(h, h2, n0, place, h2[q].column).Some? {
      var i := KeptSource(h, n0, k, |h|, q);
      KeptAt(h, n0, k, i, |h|);
      assert Live(h, n0, i, h[i].column);
      DeleteSurvivorRenumbers(h, n0, k, i);
    }
  }

  /** Deleting step `k` shortens the history and leaves the steps before `k` as they are. */
  lemma DeletePrefix(h: History, n0: nat, k: nat)
    requires k < |h| && Delete(h, n0, k).Some?
    ensures var r := Delete(h, n0, k).value;
            k <= |r| < |h| && r[..k] == h[..k]
  {
    var h2 := Kept(h, n0, k, |h|);
    KeptBefore(h, n0, k, k);
    assert Kept(h, n0, k, k + 1) == Kept(h, n0, k, k);
    KeptGrow(h, n0, k, k + 1, |h|);
    KeptGrow(h, n0, k, k, |h|);
    assert h2[..k] == h[..k];
  }

  /**
   * Deleting step `k`: every step that is not doomed is still there, in the same order, with its action
   * unchanged except for its column, which is renumbered after `k`.
   */
  lemma DeleteKeeps(h: History, n0: nat, k: nat, i: nat)
    requires k < |h| && Delete(h, n0, k).Some? && i < |h| && !Doomed(h, n0, k, i)
    ensures var r := Delete(h, n0, k).value;
            var q := |Kept(h, n0, k, i)|;
            q < |r|
            && (i < k ==> q == i && r[i] == h[i])
            && (k < i ==> k <= q && r[q] == h[i].(column := r[q].column))
  {
    var r := Delete(h, n0, k).value;
    var h2 := Kept(h, n0, k, |h|);
    var place := DeletePlacement(h, n0, k);
    var q := |Kept(h, n0, k, i)|;
    KeptAt(h, n0, k, i, |h|);
    KeptBefore(h, n0, k, k);
    KeptGrow(h, n0, k, k, |h|);
    assert r == Rename(h, h2, n0, place, k).value;
    if i < k {
      DeletePrefix(h, n0, k);
      KeptBefore(h, n0, k, i);
      assert r[i] == r[..k][i] == h[..k][i];
    } else {
      KeptGrow(h, n0, k, k, i);
    }
  }

  /** Step `i` uses a column created by an earlier step that goes with step `k`. */
  predicate CreatorGone(h: History, n0: nat, k: nat, i: nat)
    requires i < |h|
  {
    var o := OriginOf(h, n0, h[i].column);
    o.Made? && o.step < i && Doomed(h, n0, k, o.step)
  }

  /**
   * The cascade of a deletion: every step of the result comes from a step of the old history, at the
   * position given by the survivors before it, with its action kept except for its column. That step is not
   * the deleted one, and it does not use a column created by a step that went.
   */
  lemma DeleteCascades(h: History, n0: nat, k: nat)
    requires k < |h| && Delete(h, n0, k).Some?
    ensures var r := Delete(h, n0, k).value;
            forall q :: 0 <= q < |r| ==> ComesFromSurvivor(h, n0, k, r, q)
  {
    var r := Delete(h, n0, k).value;
    forall q | 0 <= q < |r| ensures ComesFromSurvivor(h, n0, k, r, q) {
      var i := DeleteSource(h, n0, k, q);
      SurvivorClean(h, n0, k, i);
    }
  }

  /**
   * Position `q` of `r` holds, with only its column changed, a step `i` of `h` that is not step `k` and uses
   * no column created by a step that goes with step `k`; the survivors before `i` fill the positions before `q`.
   */
  predicate ComesFromSurvivor(h: History, n0: nat, k: nat, r: History, q: nat)
    requires q < |r|
  {
    exists i :: 0 <= i < |h| && |Kept(h, n0, k, i)| == q && r[q] == h[i].(column := r[q].column)
                && i != k && !CreatorGone(h, n0, k, i)
  }

  /** A surviving step is not the deleted one and uses no column of a step that goes. */
  lemma SurvivorClean(h: History, n0: nat, k: nat, i: nat)
    requires i < |h| && !Doomed(h, n0, k, i)
    ensures i != k && !CreatorGone(h, n0, k, i)
  {
    if k < i {
      assert !CreatorGone(h, n0, k, i);
    } else if CreatorGone(h, n0, k, i) {
      CreatorGoneAfter(h, n0, k, i);
      assert false;
    }
  }

  /** Only steps after `k` can use a column of a step that goes. */
  lemma CreatorGoneAfter(h: History, n0: nat, k: nat, i: nat)
    requires i < |h| && CreatorGone(h, n0, k, i)
    ensures k < i
  {
    DoomedFrom(h, n0, k, OriginOf(h, n0, h[i].column).step);
  }

  /** The surviving step of the old history that position `q` of the result holds. */
  lemma DeleteSource(h: History, n0: nat, k: nat, q: nat) returns (i: nat)
    requires k < |h| && Delete(h, n0, k).Some? && q < |Delete(h, n0, k).value|
    ensures i < |h| && !Doomed(h, n0, k, i) && |Kept(h, n0, k, i)| == q
    ensures Delete(h, n0, k).value[q] == h[i].(column := Delete(h, n0, k).value[q].column)
  {
    KeptBefore(h, n0, k, k);
    KeptGrow(h, n0, k, k, |h|);
    i := KeptSource(h, n0, k, |h|, q);
    DeleteKeeps(h, n0, k, i);
    if i < k {
      KeptBefore(h, n0, k, i);
    }
  }

  /** In the rebuilt history a surviving step with a live column uses that column's renumbered id. */
  lemma DeleteColumnAt(h: History, n0: nat, k: nat, i: nat)
    requires k < |h| && Delete(h, n0, k).Some? && i < |h| && !Doomed(h, n0, k, i) && Live(h, n0, i, h[i].column)
    ensures var x := Renumber(h, Kept(h, n0, k, |h|), n0, DeletePlacement(h, n0, k), h[i].column);
            x.Some? && |Kept(h, n0, k, i)| < |Delete(h, n0, k).value|
            && Delete(h, n0, k).value[|Kept(h, n0, k, i)|] == h[i].(column := x.value)
  {
    DeleteKeeps(h, n0, k, i);
    DeleteSurvivorRenumbers(h, n0, k, i);
    if k < i {
      var r := Delete(h, n0, k).value;
      var h2 := Kept(h, n0, k, |h|);
      var place := DeletePlacement(h, n0, k);
      var q := |Kept(h, n0, k, i)|;
      KeptAt(h, n0, k, i, |h|);
      KeptBefore(h, n0, k, k);
      KeptGrow(h, n0, k, k, |h|);
      assert r == Rename(h, h2, n0, place, k).value;
      assert h2[q] == h[i];
    }
  }

  /** Two histories that agree before position `i` agree on which columns are live there. */
  lemma LivePrefix(h: History, g: History, n0: nat, i: nat, c: ColumnId)
    requires i <= |h| && i <= |g| && h[..i] == g[..i]
    ensures Live(h, n0, i, c) <==> Live(g, n0, i, c)
  {
    BasePrefix(h, g, n0, i);
    forall j | 0 <= j < i ensures DeletesAt(h, n0, j, c) <==> DeletesAt(g, n0, j, c) {
      assert h[..j] == h[..i][..j] == g[..i][..j] == g[..j];
      assert h[j] == h[..i][j] == g[..i][j] == g[j];
      BasePrefix(h, g, n0, j);
    }
  }

  /** A surviving step's renumbered column is allocated by the time the step runs in the rebuilt history. */
  lemma DeleteAllocatedAt(h: History, n0: nat, k: nat, i: nat)
    requires k < |h| && Delete(h, n0, k).Some? && i < |h| && !Doomed(h, n0, k, i) && Live(h, n0, i, h[i].column)
    ensures var r := Delete(h, n0, k).value;
            var q := |Kept(h, n0, k, i)|;
            q < |r| && 1 <= r[q].column <= Base(r, n0, q)
  {
    var r := Delete(h, n0, k).value;
    var h2 := Kept(h, n0, k, |h|);
    var q := |Kept(h, n0, k, i)|;
    var c := h[i].column;
    DeleteColumnAt(h, n0, k, i);
    LiveOrigin(h, n0, i, c);
    SameShapeBase(r, h2, n0, q);
    var o := OriginOf(h, n0, c);
    if o.Initial? {
      BaseMonotone(h2, n0, 0, q);
    } else {
      var j := o.step;
      SurvivorCreatorKept(h, n0, k, i);
      KeptAt(h, n0, k, j, |h|);
      KeptOrder(h, n0, k, j, i);
      BaseStep(h2, n0, |Kept(h, n0, k, j)|);
      BaseMonotone(h2, n0, |Kept(h, n0, k, j)| + 1, q);
    }
  }

  /** No earlier step of the rebuilt history deletes a surviving step's renumbered column. */
  lemma DeleteNotDeletedAt(h: History, n0: nat, k: nat, i: nat)
    requires k < |h| && Valid(h, n0) && Delete(h, n0, k).Some? && i < |h| && !Doomed(h, n0, k, i)
    ensures var r := Delete(h, n0, k).value;
            var q := |Kept(h, n0, k, i)|;
            q < |r| && !DeletedBefore(r, n0, q, r[q].column)
  {
    DeletePlaced(h, n0, k);
    var r := Delete(h, n0, k).value;
    var h2 := Kept(h, n0, k, |h|);
    var place := DeletePlacement(h, n0, k);
    var q := |Kept(h, n0, k, i)|;
    var c := h[i].column;
    assert Live(h, n0, i, c);
    DeleteColumnAt(h, n0, k, i);
    var x := r[q].column;
    forall q' | 0 <= q' < q ensures !DeletesAt(r, n0, q', x) {
      var i' := KeptSource(h, n0, k, |h|, q');
      if i' >= i {
        KeptGrow(h, n0, k, i, i');
      }
      assert Live(h, n0, i', h[i'].column);
      DeleteColumnAt(h, n0, k, i');
      if DeletesAt(r, n0, q', x) {
        RenumberInjective(h, h2, n0, place, c, h[i'].column);
        assert DeletesAt(h, n0, i', c);
        assert false;
      }
    }
  }

  /** Deleting a step of a valid history leaves a valid history: no remaining step refers to a column that is gone. */
  lemma DeleteValid(h: History, n0: nat, k: nat)
    requires k < |h| && Valid(h, n0)
    ensures Delete(h, n0, k).Some? && Valid(Delete(h, n0, k).value, n0)
  {
    DeleteSucceeds(h, n0, k);
    var r := Delete(h, n0, k).value;
    forall q | 0 <= q < |r| ensures Live(r, n0, q, r[q].column) {
      var i := KeptSource(h, n0, k, |h|, q);
      assert Live(h, n0, i, h[i].column);
      DeleteAllocatedAt(h, n0, k, i);
      DeleteNotDeletedAt(h, n0, k, i);
    }
  }

  // ---------------------------------------------------------------------------------------------
  // Reorder
  // ---------------------------------------------------------------------------------------------

  /**
   * The element at index `s` moved in front of the element at index `p`, or to the end when `p == |xs|`:
   * it lands at position `p` when `p <= s`, and at `p - 1` when `p > s`.
   */
  function Move<T>(xs: seq<T>, s: nat, p: nat): (r: seq<T>)
    requires s < |xs| && p <= |xs|
    ensures |r| == |xs|
  {
    if p <= s then xs[..p] + [xs[s]] + xs[p..s] + xs[s + 1..]
    else xs[..s] + xs[s + 1..p] + [xs[s]] + xs[p..]
  }

  /** Where the element at index `i` ends up after `Move(xs, s, p)`. */
  function MoveIndex(i: nat, s: nat, p: nat): nat
  {
    if p <= s then (if i < p || s < i then i else if i == s then p else i + 1)
    else (if i < s || p <= i then i else if i == s then p - 1 else i - 1)
  }

  lemma MoveAt<T>(xs: seq<T>, s: nat, p: nat, i: nat)
    requires s < |xs| && p <= |xs| && i < |xs|
    ensures MoveIndex(i, s, p) < |xs| && Move(xs, s, p)[MoveIndex(i, s, p)] == xs[i]
  {
    var r := Move(xs, s, p);
    if p <= s {
      var a, b, c := xs[..p], xs[p..s], xs[s + 1..];
      assert r == a + [xs[s]] + b + c;
      if i < p {
        assert r[i] == a[i];
      } else if i == s {
        assert r[p] == xs[s];
      } else if i < s {
        assert r[i + 1] == b[i - p];
      } else {
        assert r[i] == c[i - s - 1];
      }
    } else {
      var a, b, c := xs[..s], xs[s + 1..p], xs[p..];
      assert r == a + b + [xs[s]] + c;
      if i < s {
        assert r[i] == a[i];
      } else if i == s {
        assert r[p - 1] == xs[s];
      } else if i < p {
        assert r[i - 1] == b[i - s - 1];
      } else {
        assert r[i] == c[i - p];
      }
    }
  }

  /** Which element `Move(xs, s, p)` holds at index `j`. */
  function MoveSource(j: nat, s: nat, p: nat): nat
  {
    if p <= s then (if j < p || s < j then j else if j == p then s else j - 1)
    else (if j < s || p <= j then j else if j == p - 1 then s else j + 1)
  }

  lemma MoveElem<T>(xs: seq<T>, s: nat, p: nat, j: nat)
    requires s < |xs| && p <= |xs| && j < |xs|
    ensures MoveSource(j, s, p) < |xs| && Move(xs, s, p)[j] == xs[MoveSource(j, s, p)]
  {
  }

  lemma MoveIndexInjective(s: nat, p: nat, i: nat, j: nat)
    requires MoveIndex(i, s, p) == MoveIndex(j, s, p)
    ensures i == j
  {
  }

  /** Moving an element permutes the sequence. */
  lemma MovePermutes<T>(xs: seq<T>, s: nat, p: nat)
    requires s < |xs| && p <= |xs|
    ensures multiset(Move(xs, s, p)) == multiset(xs)
  {
    if p <= s {
      PiecesBefore(xs, p, s);
    } else {
      PiecesAfter(xs, s, p);
    }
  }

  /** Cuts `xs` around its element `j`, with a further cut at `i` before it. */
  lemma PiecesBefore<T>(xs: seq<T>, i: nat, j: nat)
    requires i <= j < |xs|
    ensures xs == xs[..i] + xs[i..j] + [xs[j]] + xs[j + 1..]
  {
    assert xs[..i] + xs[i..j] == xs[..j];
    assert xs[..j] + [xs[j]] == xs[..j + 1];
    assert xs[..j + 1] + xs[j + 1..] == xs;
  }

  /** Cuts `xs` around its element `i`, with a further cut at `j` after it. */
  lemma PiecesAfter<T>(xs: seq<T>, i: nat, j: nat)
    requires i < j <= |xs|
    ensures xs == xs[..i] + [xs[i]] + xs[i + 1..j] + xs[j..]
  {
    assert xs[..i] + [xs[i]] == xs[..i + 1];
    assert xs[..i + 1] + xs[i + 1..j] == xs[..j];
    assert xs[..j] + xs[j..] == xs;
  }

  function Names(h: History): (r: seq<string>)
    ensures |r| == |h| && forall i :: 0 <= i < |h| ==> r[i] == h[i].name
  {
    seq(|h|, i requires 0 <= i < |h| => h[i].name)
  }

  function MovePlacement(n: nat, s: nat, p: nat): (place: Placement)
    ensures |place| == n && forall i :: 0 <= i < n ==> place[i] == Some(MoveIndex(i, s, p))
  {
    seq(n, i requires 0 <= i => Some(MoveIndex(i, s, p)))
  }

  /** The first position whose step changes when step `s` is moved after `p` others. */
  function MoveFrom(s: nat, p: nat): nat
  {
    if p <= s then p else s
  }

  /**
   * Moves step `s` so that it follows the first `p` of the other steps and renumbers the steps from the
   * first moved position on; `None` (a conflict) when a step would then use a column that is not yet
   * created or already deleted at its new position.
   */
  function Reorder(h: History, n0: nat, s: nat, p: nat): Option<History>
    requires s < |h| && p <= |h|
  {
    var h2 := Move(h, s, p);
    var from := MoveFrom(s, p);
    match Rename(h, h2, n0, MovePlacement(|h|, s, p), from)
    case None => None
    case Some(r) => if ValidFrom(r, n0, from) then Some(r) else None
  }

  /** A move keeps every step and its created columns, so every column id has somewhere to go. */
  lemma MoveRenames(h: History, n0: nat, s: nat, p: nat, c: ColumnId)
    requires s < |h| && p <= |h|
    ensures Renumber(h, Move(h, s, p), n0, MovePlacement(|h|, s, p), c).Some?
  {
    var r := OriginOf(h, n0, c);
    if r.Made? {
      MoveAt(h, s, p, r.step);
    }
  }

  /** A move keeps the number of created columns, so the ids allocated after the last step stay put. */
  lemma MoveShape(h: History, s: nat, p: nat)
    requires s < |h| && p <= |h|
    ensures CreatedCount(Move(h, s, p)) == CreatedCount(h)
  {
    if p <= s {
      PiecesBefore(h, p, s);
      CountSwap(h[..p], h[p..s], [h[s]], h[s + 1..]);
    } else {
      PiecesAfter(h, s, p);
      CountSwap(h[..s], [h[s]], h[s + 1..p], h[p..]);
    }
  }

  /** Swapping two adjacent blocks keeps the number of created columns. */
  lemma CountSwap(a: History, b: History, x: History, c: History)
    ensures CreatedCount(a + x + b + c) == CreatedCount(a + b + x + c)
  {
    CountSplit(a + x, b, c);
    CountSplit(a, x, []);
    assert a + x + [] == a + x;
    CountSplit(a + b, x, c);
    CountSplit(a, b, []);
    assert a + b + [] == a + b;
    assert a + x + b + c == (a + x) + b + c;
    assert a + b + x + c == (a + b) + x + c;
  }

  lemma {:induction false} CountSplit(a: History, b: History, c: History)
    ensures CreatedCount(a + b + c) == CreatedCount(a) + CreatedCount(b) + CreatedCount(c)
    decreases |c|, |b|
  {
    if c != [] {
      var c' := c[..|c| - 1];
      assert a + b + c == (a + b + c') + [c[|c| - 1]];
      assert c == c' + [c[|c| - 1]];
      CountSplit(a, b, c');
    } else if b != [] {
      var b' := b[..|b| - 1];
      assert a + b + c == (a + b' + []) + [b[|b| - 1]];
      assert b == b' + [b[|b| - 1]];
      CountSplit(a, b', []);
      assert a + b' + [] == a + b';
    } else {
      assert a + b + c == a;
    }
  }

  /** A successful reorder keeps the length and the steps before the first moved position. */
  lemma ReorderPrefix(h: History, n0: nat, s: nat, p: nat)
    requires s < |h| && p <= |h| && Reorder(h, n0, s, p).Some?
    ensures var r := Reorder(h, n0, s, p).value;
            |r| == |h| && MoveFrom(s, p) <= |h| && r[..MoveFrom(s, p)] == h[..MoveFrom(s, p)]
  {
    ReorderIsRenamedMove(h, n0, s, p);
  }

  /** A successful reorder is the moved history with some columns renamed, and checked from the first moved position. */
  lemma ReorderIsRenamedMove(h: History, n0: nat, s: nat, p: nat)
    requires s < |h| && p <= |h| && Reorder(h, n0, s, p).Some?
    ensures var r := Reorder(h, n0, s, p).value;
            && |r| == |h|
            && r[..MoveFrom(s, p)] == h[..MoveFrom(s, p)]
            && (forall j :: 0 <= j < |h| ==> r[j] == Move(h, s, p)[j].(column := r[j].column))
            && ValidFrom(r, n0, MoveFrom(s, p))
  {
    var r := Reorder(h, n0, s, p).value;
    var h2 := Move(h, s, p);
    var from := MoveFrom(s, p);
    assert r == Rename(h, h2, n0, MovePlacement(|h|, s, p), from).value;
    assert r[..from] == h2[..from] == h[..from];
    forall j | 0 <= j < from ensures r[j] == h2[j] {
      assert r[j] == r[..from][j];
    }
  }

  /** Reordering puts the action names in the moved order, a permutation of the old ones. */
  lemma ReorderNames(h: History, n0: nat, s: nat, p: nat)
    requires s < |h| && p <= |h| && Reorder(h, n0, s, p).Some?
    ensures var r := Reorder(h, n0, s, p).value;
            Names(r) == Move(Names(h), s, p) && multiset(Names(r)) == multiset(Names(h))
  {
    var r := Reorder(h, n0, s, p).value;
    ReorderIsRenamedMove(h, n0, s, p);
    var h2 := Move(h, s, p);
    var names := Names(h);
    forall j | 0 <= j < |h| ensures Names(r)[j] == Move(names, s, p)[j] {
      assert r[j].name == h2[j].name;
      MoveElem(h, s, p, j);
      MoveElem(names, s, p, j);
    }
    MovePermutes(names, s, p);
  }

  /** Every step keeps its action, apart from its column, at its new position. */
  lemma ReorderKeepsSteps(h: History, n0: nat, s: nat, p: nat, i: nat)
    requires s < |h| && p <= |h| && Reorder(h, n0, s, p).Some? && i < |h|
    ensures var r := Reorder(h, n0, s, p).value;
            MoveIndex(i, s, p) < |r| && r[MoveIndex(i, s, p)] == h[i].(column := r[MoveIndex(i, s, p)].column)
  {
    ReorderIsRenamedMove(h, n0, s, p);
    MoveAt(h, s, p, i);
  }

  /** A reordered step still refers to the same column: one created by the same step, now at its new position. */
  lemma ReorderFollowsCreator(h: History, n0: nat, s: nat, p: nat, i: nat)
    requires s < |h| && p <= |h| && Reorder(h, n0, s, p).Some? && i < |h|
    requires MoveFrom(s, p) <= MoveIndex(i, s, p)
    ensures var r := Reorder(h, n0, s, p).value;
            var o := OriginOf(h, n0, h[i].column);
            MoveIndex(i, s, p) < |r|
            && (o.Initial? ==> r[MoveIndex(i, s, p)].column == h[i].column)
            && (o.Made? ==> OriginOf(r, n0, r[MoveIndex(i, s, p)].column) == Made(MoveIndex(o.step, s, p), o.offset))
  {
    var r := Reorder(h, n0, s, p).value;
    var h2 := Move(h, s, p);
    var place := MovePlacement(|h|, s, p);
    var j := MoveIndex(i, s, p);
    MoveAt(h, s, p, i);
    assert r == Rename(h, h2, n0, place, MoveFrom(s, p)).value;
    assert r[j].column == Renumber(h, h2, n0, place, h[i].column).value;
    var o := OriginOf(h, n0, h[i].column);
    if o.Made? {
      RenumberFollowsCreator(h, h2, n0, place, h[i].column);
      SameShapeBase(r, h2, n0, |h2|);
      SameShapeBase(r, h2, n0, MoveIndex(o.step, s, p));
      MoveAt(h, s, p, o.step);
      var x := r[j].column;
      var q := MoveIndex(o.step, s, p);
      OriginOfCreated(h2, n0, q, o.offset);
      OriginOfCreated(r, n0, q, o.offset);
      assert CreatedIds(r, n0, q) == CreatedIds(h2, n0, q);
    }
  }

  /** Reordering a valid history, when it succeeds, gives a valid history. */
  lemma ReorderValid(h: History, n0: nat, s: nat, p: nat)
    requires s < |h| && p <= |h| && Valid(h, n0) && Reorder(h, n0, s, p).Some?
    ensures Valid(Reorder(h, n0, s, p).value, n0)
  {
    var r := Reorder(h, n0, s, p).value;
    var from := MoveFrom(s, p);
    ReorderIsRenamedMove(h, n0, s, p);
    forall i | 0 <= i < from ensures Live(r, n0, i, r[i].column) {
      assert r[..i] == r[..from][..i] == h[..from][..i] == h[..i];
      assert r[i] == r[..from][i] == h[..from][i] == h[i];
      assert Live(h, n0, i, h[i].column);
      LivePrefix(r, h, n0, i, h[i].column);
    }
  }

  /** Moving a step to where it already is changes nothing in a valid history. */
  lemma ReorderInPlace(h: History, n0: nat, s: nat)
    requires s < |h| && Valid(h, n0)
    ensures Reorder(h, n0, s, s) == Some(h)
  {
    MoveInPlace(h, s);
    RenameIdentity(h, n0, s);
    assert ValidFrom(h, n0, s);
  }

  /** Moving a step to its own position changes nothing. */
  lemma MoveInPlace<T>(xs: seq<T>, s: nat)
    requires s < |xs|
    ensures Move(xs, s, s) == xs && MovePlacement(|xs|, s, s) == Identity(|xs|)
  {
    assert xs[..s] + [xs[s]] + xs[s..s] + xs[s + 1..] == xs[..s] + xs[s..];
    assert xs[..s] + xs[s..] == xs;
  }

  /** Renaming a history by the identity placement gives it back. */
  lemma RenameIdentity(h: History, n0: nat, from: nat)
    requires from <= |h|
    ensures Rename(h, h, n0, Identity(|h|), from) == Some(h)
  {
    forall j | from <= j < |h| ensures Renumber(h, h, n0, Identity(|h|), h[j].column) == Some(h[j].column) {
      RenumberZeroShift(h, h, n0, h[j].column);
    }
    assert Rename(h, h, n0, Identity(|h|), from).Some?;
    var r := Rename(h, h, n0, Identity(|h|), from).value;
    forall j | 0 <= j < |h| ensures r[j] == h[j] {
      if j < from {
        assert r[..from][j] == h[..from][j];
      } else {
        assert r[j] == h[j].(column := h[j].column);
      }
    }
    assert r == h;
  }

  // ---------------------------------------------------------------------------------------------
  // The scenarios of the preparation service's tests, on the initial schema 0001..0003
  // ---------------------------------------------------------------------------------------------

  function Op(name: string, column: ColumnId, creates: nat): Action
  {
    Action(name, column, creates, false)
  }

  /** Growing the first step from one to three created columns moves the next step's ids from 0005,0006 to 0007,0008. */
  lemma UpdateExample()
    ensures var h := [Op("copy", 3, 1), Op("split", 1, 2)];
            var a := Op("split", 1, 3);
            Update(h, 3, 0, a) == Some([a, h[1]])
            && CreatedIds(h, 3, 1) == [5, 6]
            && CreatedIds(Update(h, 3, 0, a).value, 3, 1) == [7, 8]
  {
    var h := [Op("copy", 3, 1), Op("split", 1, 2)];
    var a := Op("split", 1, 3);
    UpdateExampleShift();
    var r := [a, h[1]];
    SecondBase(h[0], h[1], 3);
    SecondBase(a, h[1], 3);
    assert h == [h[0], h[1]];
    var c1 := CreatedIds(h, 3, 1);
    assert c1[0] == 5 && c1[1] == 6;
    var c2 := CreatedIds(r, 3, 1);
    assert c2[0] == 7 && c2[1] == 8;
  }

  /** The update itself: the second step uses an initial column, so only the first step changes. */
  lemma UpdateExampleShift()
    ensures var h := [Op("copy", 3, 1), Op("split", 1, 2)];
            var a := Op("split", 1, 3);
            Update(h, 3, 0, a) == Some([a, h[1]])
  {
    var h := [Op("copy", 3, 1), Op("split", 1, 2)];
    var a := Op("split", 1, 3);
    assert h[..0] == [];
    assert Base(h, 3, 0) == 3;
    BaseStep(h, 3, 0);
    ShiftConflicts(h, 3, 0, a);
    assert h[1].column == 1;
    assert Shift(h, 3, 0, a).Some?;
    ShiftResult(h, 3, 0, a);
    var r := Shift(h, 3, 0, a).value;
    assert r[1].column == 1;
    assert r == [r[0], r[1]] == [a, h[1]];
    assert Live(r, 3, 0, 1) by { assert r[..0] == []; }
    assert Live(r, 3, 1, 1) by {
      SecondBase(a, h[1], 3);
      assert !DeletesAt(r, 3, 0, 1);
    }
    assert ValidFrom(r, 3, 0);
  }

  /** Updating the first step to delete the column the second step still uses is a conflict. */
  lemma UpdateDeletedConflict()
    ensures Update([Op("uppercase", 1, 0), Op("lowercase", 1, 0)], 3, 0, Action("delete_column", 1, 0, true)) == None
  {
    var h := [Op("uppercase", 1, 0), Op("lowercase", 1, 0)];
    var a := Action("delete_column", 1, 0, true);
    assert Base(h, 3, 0) == 3 by { assert h[..0] == []; }
    ShiftConflicts(h, 3, 0, a);
    assert h[1].column == 1;
    assert Shift(h, 3, 0, a).Some?;
    ShiftResult(h, 3, 0, a);
    var r := Shift(h, 3, 0, a).value;
    assert r[..0] == [];
    assert DeletesAt(r, 3, 0, 1);
    assert r[1].column == 1;
    assert !Live(r, 3, 1, r[1].column);
  }

  /** Updating a step to use a column the schema does not have is a conflict. */
  lemma UpdateMissingConflict()
    ensures Update([Op("uppercase", 1, 0)], 3, 0, Op("uppercase", 99, 0)) == None
  {
    var h := [Op("uppercase", 1, 0)];
    var a := Op("uppercase", 99, 0);
    assert Base(h, 3, 0) == 3 by { assert h[..0] == []; }
    ShiftConflicts(h, 3, 0, a);
    assert Shift(h, 3, 0, a).Some?;
    ShiftResult(h, 3, 0, a);
    var r := Shift(h, 3, 0, a).value;
    assert r[..0] == [];
    assert r[0] == a;
    assert !Live(r, 3, 0, r[0].column);
  }

  /** The second of two steps allocates after the first one's columns. */
  lemma SecondBase(x: Action, y: Action, n0: nat)
    ensures Base([x, y], n0, 1) == n0 + x.creates
  {
    assert [x, y][..0] == [];
    BaseStep([x, y], n0, 0);
  }

  /** Deleting the first of two steps that use initial columns leaves the second one alone. */
  lemma DeleteSingleExample()
    ensures Delete([Op("uppercase", 1, 0), Op("lowercase", 1, 0)], 3, 0) == Some([Op("lowercase", 1, 0)])
  {
    var h := [Op("uppercase", 1, 0), Op("lowercase", 1, 0)];
    assert !Doomed(h, 3, 0, 1);
    assert Kept(h, 3, 0, 2) == [h[1]];
    var place := DeletePlacement(h, 3, 0);
    assert Renumber(h, [h[1]], 3, place, 1) == Some(1);
    var r := Rename(h, [h[1]], 3, place, 0);
    assert Delete(h, 3, 0) == r;
    assert r.Some? && |r.value| == 1 && r.value[0] == h[1];
    assert r.value == [Op("lowercase", 1, 0)];
  }

  /** Deleting a copy also deletes the later step that works on the copied column. */
  lemma DeleteCascadeExample()
    ensures Delete([Op("copy", 1, 1), Op("uppercase", 4, 0)], 3, 0) == Some([])
  {
    var h := [Op("copy", 1, 1), Op("uppercase", 4, 0)];
    BaseStep(h, 3, 0);
    OriginOfCreated(h, 3, 0, 0);
    assert CreatedIds(h, 3, 0)[0] == 4;
    assert Doomed(h, 3, 0, 1);
    assert Kept(h, 3, 0, 2) == [];
  }

  /** Deleting the first of two copies renames the column of a step on the second copy from 0005 to 0004. */
  lemma DeleteShiftExample()
    ensures Delete([Op("copy", 1, 1), Op("copy", 1, 1), Op("uppercase", 5, 0)], 3, 0)
         == Some([Op("copy", 1, 1), Op("uppercase", 4, 0)])
  {
    var h := [Op("copy", 1, 1), Op("copy", 1, 1), Op("uppercase", 5, 0)];
    BaseStep(h, 3, 0);
    BaseStep(h, 3, 1);
    OriginOfCreated(h, 3, 1, 0);
    assert CreatedIds(h, 3, 1)[0] == 5;
    assert !Doomed(h, 3, 0, 1);
    assert !Doomed(h, 3, 0, 2);
    var h2 := [h[1], h[2]];
    assert Kept(h, 3, 0, 3) == h2;
    var place := DeletePlacement(h, 3, 0);
    assert place[1] == Some(0);
    BaseStep(h2, 3, 0);
    assert CreatedIds(h2, 3, 0)[0] == 4;
    assert Renumber(h, h2, 3, place, 1) == Some(1);
    assert Renumber(h, h2, 3, place, 5) == Some(4);
    var r := Rename(h, h2, 3, place, 0);
    assert Delete(h, 3, 0) == r;
    assert r.Some? && |r.value| == 2;
    assert r.value[0] == Op("copy", 1, 1);
    assert r.value[1] == Op("uppercase", 4, 0);
    assert r.value == [Op("copy", 1, 1), Op("uppercase", 4, 0)];
  }

  /** The four-step history of the reorder scenarios: uppercase, copy, rename of the copy, lowercase. */
  function FourSteps(): History
  {
    [Op("uppercase", 1, 0), Op("copy", 1, 1), Op("rename_column", 4, 0), Op("lowercase", 2, 0)]
  }

  /** In the four-step history the copy creates column 0004, which the rename uses. */
  lemma FourStepsCopy()
    ensures OriginOf(FourSteps(), 3, 4) == Made(1, 0)
  {
    var h := FourSteps();
    BaseStep(h, 3, 0);
    BaseStep(h, 3, 1);
    OriginOfCreated(h, 3, 1, 0);
    assert CreatedIds(h, 3, 1)[0] == 4;
  }

  /** A history that starts with a copy of column 0001 and otherwise only uses 0001..0004 without deleting is valid. */
  lemma CopyFirstValid(h: History)
    requires |h| > 0 && h[0] == Op("copy", 1, 1)
    requires forall i :: 0 <= i < |h| ==> !h[i].deletesColumn && 1 <= h[i].column <= 4
    ensures Valid(h, 3)
  {
    BaseStep(h, 3, 0);
    forall i | 0 <= i < |h| ensures Live(h, 3, i, h[i].column) {
      if i > 0 {
        BaseMonotone(h, 3, 1, i);
      }
    }
  }

  /**
   * Reordering the four-step history keeps ids 0001..0004 when the copy lands first: the initial ids
   * stay, and the copy's column is 0004 again.
   */
  lemma FourStepsKeep(h2: History, place: Placement, c: ColumnId)
    requires |place| == 4 && place[1] == Some(0) && |h2| > 0 && h2[0] == Op("copy", 1, 1)
    requires 1 <= c <= 4
    ensures Renumber(FourSteps(), h2, 3, place, c) == Some(c)
  {
    if c == 4 {
      FourStepsCopy();
      assert h2[..0] == [];
      BaseStep(h2, 3, 0);
      assert CreatedIds(h2, 3, 0)[0] == 4;
    }
  }

  /** When no column of the rebuilt history changes id, renaming gives it back unchanged. */
  lemma RenameUnchanged(h: History, h2: History, n0: nat, place: Placement, from: nat)
    requires |place| == |h| && from <= |h2|
    requires forall j :: from <= j < |h2| ==> Renumber(h, h2, n0, place, h2[j].column) == Some(h2[j].column)
    ensures Rename(h, h2, n0, place, from) == Some(h2)
  {
    assert Rename(h, h2, n0, place, from).Some?;
    var r := Rename(h, h2, n0, place, from).value;
    assert r[..from] == h2[..from];
    forall j | 0 <= j < |h2| ensures r[j] == h2[j] {
      if j < from {
        assert r[j] == r[..from][j];
      }
    }
    assert r == h2;
  }

  /** A reorder succeeds with the renamed moved history when that history is valid. */
  lemma ReorderWhen(h: History, n0: nat, s: nat, p: nat, r: History)
    requires s < |h| && p <= |h|
    requires Rename(h, Move(h, s, p), n0, MovePlacement(|h|, s, p), MoveFrom(s, p)) == Some(r)
    requires Valid(r, n0)
    ensures Reorder(h, n0, s, p) == Some(r)
  {
  }

  /** Any move of the four-step history that puts the copy first succeeds and changes no column id. */
  lemma FourStepsReorder(s: nat, p: nat)
    requires s < 4 && p <= 4
    requires Move(FourSteps(), s, p)[0] == Op("copy", 1, 1) && MoveIndex(1, s, p) == 0
    ensures Reorder(FourSteps(), 3, s, p) == Some(Move(FourSteps(), s, p))
  {
    var h := FourSteps();
    var h2 := Move(h, s, p);
    var place := MovePlacement(|h|, s, p);
    forall j | 0 <= j < |h2| ensures !h2[j].deletesColumn && 1 <= h2[j].column <= 4 {
      MoveElem(h, s, p, j);
    }
    forall j | MoveFrom(s, p) <= j < |h2| ensures Renumber(h, h2, 3, place, h2[j].column) == Some(h2[j].column) {
      FourStepsKeep(h2, place, h2[j].column);
    }
    RenameUnchanged(h, h2, 3, place, MoveFrom(s, p));
    CopyFirstValid(h2);
    ReorderWhen(h, 3, s, p, h2);
  }

  /** Moving the copy right after the root puts it first; the other steps keep their columns. */
  lemma ReorderToFirstExample()
    ensures Reorder(FourSteps(), 3, 1, 0)
         == Some([Op("copy", 1, 1), Op("uppercase", 1, 0), Op("rename_column", 4, 0), Op("lowercase", 2, 0)])
  {
    var h := FourSteps();
    MoveElem(h, 1, 0, 0);
    MoveElem(h, 1, 0, 1);
    MoveElem(h, 1, 0, 2);
    MoveElem(h, 1, 0, 3);
    assert Move(h, 1, 0) == [h[1], h[0], h[2], h[3]];
    FourStepsReorder(1, 0);
  }

  /** Moving the uppercase after the head puts it last. */
  lemma ReorderToLastExample()
    ensures Reorder(FourSteps(), 3, 0, 4)
         == Some([Op("copy", 1, 1), Op("rename_column", 4, 0), Op("lowercase", 2, 0), Op("uppercase", 1, 0)])
  {
    var h := FourSteps();
    MoveElem(h, 0, 4, 0);
    MoveElem(h, 0, 4, 1);
    MoveElem(h, 0, 4, 2);
    MoveElem(h, 0, 4, 3);
    assert Move(h, 0, 4) == [h[1], h[2], h[3], h[0]];
    FourStepsReorder(0, 4);
  }

  /** Moving the uppercase after the copy swaps the first two steps. */
  lemma ReorderAfterCopyExample()
    ensures Reorder(FourSteps(), 3, 0, 2)
         == Some([Op("copy", 1, 1), Op("uppercase", 1, 0), Op("rename_column", 4, 0), Op("lowercase", 2, 0)])
  {
    var h := FourSteps();
    MoveElem(h, 0, 2, 0);
    MoveElem(h, 0, 2, 1);
    MoveElem(h, 0, 2, 2);
    MoveElem(h, 0, 2, 3);
    assert Move(h, 0, 2) == [h[1], h[0], h[2], h[3]];
    FourStepsReorder(0, 2);
  }

  /** A step on the second copy cannot move before that copy: its column would not exist yet. */
  lemma ReorderBeforeCreationExample()
    ensures Reorder([Op("copy", 1, 1), Op("copy", 1, 1), Op("uppercase", 5, 0)], 3, 2, 1) == None
  {
    var h := [Op("copy", 1, 1), Op("copy", 1, 1), Op("uppercase", 5, 0)];
    var h2 := Move(h, 2, 1);
    var place := MovePlacement(3, 2, 1);
    assert h2 == [h[0], h[2], h[1]];
    BaseStep(h, 3, 0);
    BaseStep(h, 3, 1);
    OriginOfCreated(h, 3, 1, 0);
    assert CreatedIds(h, 3, 1)[0] == 5;
    BaseStep(h2, 3, 0);
    BaseStep(h2, 3, 1);
    assert CreatedIds(h2, 3, 2)[0] == 5;
    assert Renumber(h, h2, 3, place, 5) == Some(5);
    var r := Rename(h, h2, 3, place, 1);
    assert r.Some? && r.value[1].column == 5;
    SameShapeBase(r.value, h2, 3, 1);
    assert !Live(r.value, 3, 1, 5);
  }

  /** A step on a column cannot move after the step that deletes that column. */
  lemma ReorderAfterDeletionExample()
    ensures Reorder([Op("uppercase", 1, 0), Action("delete_column", 1, 0, true)], 3, 1, 0) == None
  {
    var h := [Op("uppercase", 1, 0), Action("delete_column", 1, 0, true)];
    var h2 := Move(h, 1, 0);
    var place := MovePlacement(2, 1, 0);
    assert h2 == [h[1], h[0]];
    assert Renumber(h, h2, 3, place, 1) == Some(1);
    var r := Rename(h, h2, 3, place, 0);
    assert r.Some? && r.value == h2;
    assert DeletesAt(h2, 3, 0, 1);
    assert !Live(h2, 3, 1, 1);
  }
}
