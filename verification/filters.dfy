/**
 * The client-side filter list of the data grid: the filters the user added, each with its type,
 * column, arguments and display label, and the predicate each one applies to a row. Adding a range
 * filter on a column that already has one replaces it in place; the other operations remove one
 * filter, remove all of them, or rebuild one filter with a new value at the same position.
 */
module Filters {
  import opened Results
  import opened Ascii
  import opened Decimal

  /** An opaque JavaScript callback (the `removeFilterFn` a caller hands over), identified by a token. */
  type Callback = nat

  datatype FilterType = Contains | Exact | InvalidRecords | EmptyRecords | ValidRecords | InsideRange

  /** The arguments of a filter: a phrase (with its case flag), an interval, or none for the record filters. */
  datatype Args = NoArgs | Phrase(phrase: string, caseSensitive: bool) | Interval(min: int, max: int)

  /**
   * One entry of the filter list. `uid` stands for the identity of the JavaScript object: every filter
   * built by the service gets a new one.
   */
  datatype Filter = Filter(uid: nat, ftype: FilterType, colId: string, colName: string, editable: bool,
                           args: Args, value: string, removeFn: Option<Callback>)

  /** The service's state: the list of filters and the next identity to hand out. */
  datatype State = State(filters: seq<Filter>, nextUid: nat)

  const Empty := State([], 0)

  /** The arguments a type takes: a phrase for the text filters, an interval for the range, nothing otherwise. */
  predicate ArgsFit(t: FilterType, args: Args)
  {
    match t
    case Contains => args.Phrase?
    case Exact => args.Phrase?
    case InsideRange => args.Interval?
    case _ => args.NoArgs?
  }

  /** Only the text filters can be edited in place. */
  predicate Editable(t: FilterType)
  {
    t == Contains || t == Exact
  }

  /** `[min .. max]` with thousands separators. */
  function RangeLabel(min: int, max: int): string
  {
    "[" + GroupedInt(min) + " .. " + GroupedInt(max) + "]"
  }

  /** The label shown for a filter: its phrase, its interval, or the name of the record filter. */
  function Label(t: FilterType, args: Args): string
    requires ArgsFit(t, args)
  {
    match t
    case Contains => args.phrase
    case Exact => args.phrase
    case InsideRange => RangeLabel(args.min, args.max)
    case InvalidRecords => "invalid records"
    case EmptyRecords => "empty records"
    case ValidRecords => "valid records"
  }

  /** `f` is the filter built for these parameters, whatever its identity and callback. */
  predicate Describes(f: Filter, t: FilterType, colId: string, colName: string, args: Args)
    requires ArgsFit(t, args)
  {
    f.ftype == t && f.colId == colId && f.colName == colName && f.args == args
    && f.editable == Editable(t) && f.value == Label(t, args)
  }

  /** Every filter has a distinct identity below the next one, and its arguments fit its type. */
  predicate Valid(s: State)
  {
    (forall i, j :: 0 <= i < j < |s.filters| ==> s.filters[i].uid != s.filters[j].uid)
    && (forall i :: 0 <= i < |s.filters| ==> s.filters[i].uid < s.nextUid && ArgsFit(s.filters[i].ftype, s.filters[i].args))
  }

  /** No column carries two range filters. */
  predicate OneRangePerColumn(fs: seq<Filter>)
  {
    forall i, j :: 0 <= i < j < |fs| && fs[i].ftype == InsideRange && fs[j].ftype == InsideRange ==> fs[i].colId != fs[j].colId
  }

  // ---------------------------------------------------------------------------------------------
  // The list operations
  // ---------------------------------------------------------------------------------------------

  /** The position of the filter with identity `uid`. */
  function Find(fs: seq<Filter>, uid: nat): (r: Option<nat>)
    ensures r.Some? ==> r.value < |fs| && fs[r.value].uid == uid
    ensures r.None? <==> forall j :: 0 <= j < |fs| ==> fs[j].uid != uid
    decreases |fs|
  {
    if fs == [] then None
    else if fs[|fs| - 1].uid == uid then Some(|fs| - 1)
    else Find(fs[..|fs| - 1], uid)
  }

  /** The position of the range filter on column `colId`, if there is one. */
  function RangeOn(fs: seq<Filter>, colId: string): (r: Option<nat>)
    ensures r.Some? ==> r.value < |fs| && fs[r.value].ftype == InsideRange && fs[r.value].colId == colId
    ensures r.None? <==> forall j :: 0 <= j < |fs| ==> !(fs[j].ftype == InsideRange && fs[j].colId == colId)
    decreases |fs|
  {
    if fs == [] then None
    else if fs[|fs| - 1].ftype == InsideRange && fs[|fs| - 1].colId == colId then Some(|fs| - 1)
    else RangeOn(fs[..|fs| - 1], colId)
  }

  /**
   * `addFilter`: a new filter at the end of the list; but a range filter on a column that already has one
   * takes that one's place, and keeps its remove callback.
   */
  function AddFilter(s: State, t: FilterType, colId: string, colName: string, args: Args, removeFn: Option<Callback>): (r: State)
    requires ArgsFit(t, args)
    ensures r.nextUid == s.nextUid + 1
    ensures !(t == InsideRange && RangeOn(s.filters, colId).Some?) ==>
              |r.filters| == |s.filters| + 1 && r.filters[..|s.filters|] == s.filters
              && var f := r.filters[|s.filters|];
                 Describes(f, t, colId, colName, args) && f.uid == s.nextUid && f.removeFn == removeFn
    ensures t == InsideRange && RangeOn(s.filters, colId).Some? ==>
              var k := RangeOn(s.filters, colId).value;
              |r.filters| == |s.filters|
              && Describes(r.filters[k], t, colId, colName, args) && r.filters[k].uid == s.nextUid
              && r.filters[k].removeFn == s.filters[k].removeFn
              && forall j :: 0 <= j < |s.filters| && j != k ==> r.filters[j] == s.filters[j]
  {
    var f := Filter(s.nextUid, t, colId, colName, Editable(t), args, Label(t, args), removeFn);
    if t == InsideRange && RangeOn(s.filters, colId).Some? then
      var k := RangeOn(s.filters, colId).value;
      State(s.filters[k := f.(removeFn := s.filters[k].removeFn)], s.nextUid + 1)
    else
      State(s.filters + [f], s.nextUid + 1)
  }

  /** What a removal did: the new state, and the filter it took out (whose callback then runs), if any. */
  datatype Removal = Removal(state: State, removed: Option<Filter>)

  /** `removeFilter`: take the filter out, keeping the others in order; an unknown filter changes nothing. */
  function RemoveFilter(s: State, uid: nat): (r: Removal)
    ensures r.state.nextUid == s.nextUid
    ensures Find(s.filters, uid).None? ==> r == Removal(s, None)
    ensures Find(s.filters, uid).Some? ==>
              var k := Find(s.filters, uid).value;
              r.removed == Some(s.filters[k])
              && |r.state.filters| == |s.filters| - 1
              && r.state.filters[..k] == s.filters[..k] && r.state.filters[k..] == s.filters[k + 1..]
  {
    match Find(s.filters, uid)
    case None => Removal(s, None)
    case Some(k) =>
      var fs := s.filters[..k] + s.filters[k + 1..];
      assert fs[k..] == s.filters[k + 1..];
      Removal(State(fs, s.nextUid), Some(s.filters[k]))
  }

  /** `removeAllFilters`: the list is emptied. */
  function RemoveAllFilters(s: State): (r: State)
    ensures r.filters == [] && r.nextUid == s.nextUid
  {
    s.(filters := [])
  }

  /** The new value `updateFilter` receives: a phrase for the text filters, an interval after a brush. */
  datatype NewValue = Text(phrase: string) | Range(min: int, max: int)

  /** The arguments a filter gets from a new value; `None` when the value does not suit the filter's type. */
  function NewArgs(t: FilterType, prev: Args, v: NewValue): (r: Option<Args>)
    ensures r.Some? ==> ArgsFit(t, r.value)
  {
    match v
    case Text(p) =>
      if t == Contains || t == Exact then Some(Phrase(p, prev.Phrase? && prev.caseSensitive)) else None
    case Range(lo, hi) =>
      if t == InsideRange then Some(Interval(lo, hi)) else None
  }

  /**
   * `updateFilter`: a new filter of the same type on the same column, with the new value, takes the old
   * one's place; the others stay as they are.
   */
  function UpdateFilter(s: State, uid: nat, v: NewValue): (r: State)
    ensures Find(s.filters, uid).None? ==> r == s
    ensures Find(s.filters, uid).Some? && NewArgs(s.filters[Find(s.filters, uid).value].ftype,
                                                  s.filters[Find(s.filters, uid).value].args, v).Some? ==>
              var k := Find(s.filters, uid).value;
              var prev := s.filters[k];
              var args := NewArgs(prev.ftype, prev.args, v).value;
              |r.filters| == |s.filters| && r.nextUid == s.nextUid + 1
              && Describes(r.filters[k], prev.ftype, prev.colId, prev.colName, args)
              && r.filters[k].uid == s.nextUid && r.filters[k].removeFn == prev.removeFn
              && forall j :: 0 <= j < |s.filters| && j != k ==> r.filters[j] == s.filters[j]
  {
    match Find(s.filters, uid)
    case None => s
    case Some(k) =>
      var prev := s.filters[k];
      match NewArgs(prev.ftype, prev.args, v)
      case None => s
      case Some(args) =>
        var f := Filter(s.nextUid, prev.ftype, prev.colId, prev.colName, Editable(prev.ftype), args, Label(prev.ftype, args), prev.removeFn);
        State(s.filters[k := f], s.nextUid + 1)
  }

  // ---------------------------------------------------------------------------------------------
  // Properties of the list operations
  // ---------------------------------------------------------------------------------------------

  /** Adding keeps identities distinct and arguments fitting. */
  lemma AddValid(s: State, t: FilterType, colId: string, colName: string, args: Args, removeFn: Option<Callback>)
    requires Valid(s) && ArgsFit(t, args)
    ensures Valid(AddFilter(s, t, colId, colName, args, removeFn))
  {
    var r := AddFilter(s, t, colId, colName, args, removeFn);
    if !(t == InsideRange && RangeOn(s.filters, colId).Some?) {
      assert forall i :: 0 <= i < |s.filters| ==> r.filters[i] == s.filters[i];
    }
  }

  /** Adding never puts a second range filter on a column. */
  lemma AddOneRange(s: State, t: FilterType, colId: string, colName: string, args: Args, removeFn: Option<Callback>)
    requires OneRangePerColumn(s.filters) && ArgsFit(t, args)
    ensures OneRangePerColumn(AddFilter(s, t, colId, colName, args, removeFn).filters)
  {
    var r := AddFilter(s, t, colId, colName, args, removeFn);
    if !(t == InsideRange && RangeOn(s.filters, colId).Some?) {
      assert forall i :: 0 <= i < |s.filters| ==> r.filters[i] == s.filters[i];
    }
  }

  /** Removing a filter just added (not a range replacing another) gives the list back. */
  lemma RemoveAfterAdd(s: State, t: FilterType, colId: string, colName: string, args: Args, removeFn: Option<Callback>)
    requires Valid(s) && ArgsFit(t, args) && !(t == InsideRange && RangeOn(s.filters, colId).Some?)
    ensures var a := AddFilter(s, t, colId, colName, args, removeFn);
            RemoveFilter(a, s.nextUid).state == State(s.filters, s.nextUid + 1)
  {
    var a := AddFilter(s, t, colId, colName, args, removeFn);
    var n := |s.filters|;
    assert forall i :: 0 <= i < n ==> a.filters[i] == s.filters[i];
    assert forall j :: 0 <= j < n ==> a.filters[j].uid != s.nextUid;
    assert Find(a.filters, s.nextUid) == Some(n);
    assert a.filters[..n] == s.filters;
  }

  /** Removing keeps identities distinct, and the removed identity is gone. */
  lemma RemoveValid(s: State, uid: nat)
    requires Valid(s)
    ensures Valid(RemoveFilter(s, uid).state)
    ensures forall j :: 0 <= j < |RemoveFilter(s, uid).state.filters| ==> RemoveFilter(s, uid).state.filters[j].uid != uid
  {
    if Find(s.filters, uid).Some? {
      var k := Find(s.filters, uid).value;
      var r := RemoveFilter(s, uid).state;
      assert r == State(s.filters[..k] + s.filters[k + 1..], s.nextUid);
      DropValid(s, k);
    }
  }

  /** Taking out the filter at `k` leaves a valid state in which its identity no longer occurs. */
  lemma DropValid(s: State, k: nat)
    requires Valid(s) && k < |s.filters|
    ensures var d := State(s.filters[..k] + s.filters[k + 1..], s.nextUid);
            Valid(d) && forall j :: 0 <= j < |d.filters| ==> d.filters[j].uid != s.filters[k].uid
  {
    var fs := s.filters[..k] + s.filters[k + 1..];
    forall j | 0 <= j < |fs|
      ensures fs[j] == s.filters[if j < k then j else j + 1]
    {
    }
  }

  /** Removing the same filter twice does no more than removing it once. */
  lemma RemoveTwice(s: State, uid: nat)
    requires Valid(s)
    ensures var once := RemoveFilter(s, uid).state;
            RemoveFilter(once, uid) == Removal(once, None)
  {
    RemoveValid(s, uid);
  }

  /** Updating keeps identities distinct and arguments fitting, and keeps one range filter per column. */
  lemma UpdateValid(s: State, uid: nat, v: NewValue)
    requires Valid(s) && OneRangePerColumn(s.filters)
    ensures Valid(UpdateFilter(s, uid, v)) && OneRangePerColumn(UpdateFilter(s, uid, v).filters)
  {
  }

  // ---------------------------------------------------------------------------------------------
  // The filter predicates
  // ---------------------------------------------------------------------------------------------

  /** A row of the grid: cell values by column id; a column removed by a step is simply absent. */
  type Row = map<string, string>

  /** The quality information of one column: the values counted as invalid. */
  datatype ColumnQuality = ColumnQuality(id: string, invalidValues: seq<string>)

  /** The invalid values of column `colId` in the data set metadata; none when the column is unknown. */
  function InvalidValues(columns: seq<ColumnQuality>, colId: string): seq<string>
    decreases |columns|
  {
    if columns == [] then []
    else if columns[0].id == colId then columns[0].invalidValues
    else InvalidValues(columns[1..], colId)
  }

  /**
   * `phrase` matches the whole of `text`, a `*` in the phrase standing for any run of characters, the
   * way the phrase is turned into a regular expression.
   */
  predicate Glob(p: string, t: string)
    decreases |p| + |t|
  {
    if p == [] then t == []
    else if p[0] == '*' then Glob(p[1..], t) || (t != [] && Glob(p, t[1..]))
    else t != [] && p[0] == t[0] && Glob(p[1..], t[1..])
  }

  /** The phrase occurs somewhere in the text, with `*` as a wildcard. */
  predicate WildcardContains(phrase: string, text: string)
  {
    Glob("*" + phrase + "*", text)
  }

  /** The value of a row's cell, when the cell is there and not empty (a falsy cell never matches a text filter). */
  predicate HasText(row: Row, colId: string)
  {
    colId in row && row[colId] != ""
  }

  /** What a filter keeps: the predicate its `filterFn` applies to a row, given the data set's column metadata. */
  predicate Keeps(f: Filter, columns: seq<ColumnQuality>, row: Row)
  {
    match f.ftype
    case Contains =>
      f.args.Phrase? && HasText(row, f.colId)
      && WildcardContains(LowerString(f.args.phrase), LowerString(row[f.colId]))
    case Exact =>
      f.args.Phrase? && HasText(row, f.colId)
      && (if f.args.caseSensitive then row[f.colId] == f.args.phrase else EqualsIgnoreCase(row[f.colId], f.args.phrase))
    case EmptyRecords =>
      f.colId in row && row[f.colId] == ""
    case InvalidRecords =>
      f.colId in row && row[f.colId] in InvalidValues(columns, f.colId)
    case ValidRecords =>
      HasText(row, f.colId) && row[f.colId] !in InvalidValues(columns, f.colId)
    case InsideRange =>
      f.args.Interval? && f.colId in row && ParseInt(row[f.colId]).Some?
      && f.args.min <= ParseInt(row[f.colId]).value <= f.args.max
  }

  /** A cell of a known column is either empty, invalid or valid, and never two of these, when no invalid value is empty. */
  lemma RecordsPartition(columns: seq<ColumnQuality>, row: Row, colId: string, colName: string, uid: nat)
    requires colId in row && "" !in InvalidValues(columns, colId)
    ensures var e := Keeps(Filter(uid, EmptyRecords, colId, colName, false, NoArgs, "empty records", None), columns, row);
            var i := Keeps(Filter(uid, InvalidRecords, colId, colName, false, NoArgs, "invalid records", None), columns, row);
            var v := Keeps(Filter(uid, ValidRecords, colId, colName, false, NoArgs, "valid records", None), columns, row);
            (e || i || v) && !(e && i) && !(e && v) && !(i && v)
  {
  }

  /** A row lacking the filter's column (removed by a step) is kept by no filter. */
  lemma MissingColumnKeepsNothing(f: Filter, columns: seq<ColumnQuality>, row: Row)
    requires f.colId !in row
    ensures !Keeps(f, columns, row)
  {
  }

  // ---------------------------------------------------------------------------------------------
  // Wildcard matching against plain containment
  // ---------------------------------------------------------------------------------------------

  predicate NoStar(q: string)
  {
    forall i :: 0 <= i < |q| ==> q[i] != '*'
  }

  /** `q` occurs as a block of consecutive characters in `t`. */
  predicate Occurs(q: string, t: string)
  {
    exists i :: 0 <= i <= |t| - |q| && OccursAt(q, t, i)
  }

  /** `q` occurs in `t` starting at position `i`. */
  predicate OccursAt(q: string, t: string, i: int)
    requires 0 <= i <= |t| - |q|
  {
    t[i..i + |q|] == q
  }

  /** A lone `*` matches any text. */
  lemma {:induction false} StarMatchesAll(t: string)
    ensures Glob("*", t)
    decreases |t|
  {
    assert "*"[1..] == [];
    if t != [] {
      StarMatchesAll(t[1..]);
    }
  }

  /** A star-free phrase followed by `*` matches exactly the texts it begins. */
  lemma {:induction false} PrefixStar(q: string, t: string)
    requires NoStar(q)
    ensures Glob(q + "*", t) <==> |q| <= |t| && t[..|q|] == q
    decreases |q|
  {
    if q == [] {
      assert q + "*" == "*";
      StarMatchesAll(t);
    } else {
      var p := q + "*";
      assert p[0] == q[0] != '*';
      assert p[1..] == q[1..] + "*";
      if t != [] {
        PrefixStar(q[1..], t[1..]);
        if |q| <= |t| && t[..|q|] == q {
          assert t[1..][..|q| - 1] == q[1..];
        }
        if |q| - 1 <= |t| - 1 && t[1..][..|q| - 1] == q[1..] && q[0] == t[0] {
          assert t[..|q|] == [t[0]] + t[1..][..|q| - 1];
        }
      }
    }
  }

  /** A leading `*` lets the rest of the phrase match any suffix of the text. */
  lemma {:induction false} LeadingStar(r: string, t: string)
    ensures Glob("*" + r, t) <==> exists i :: 0 <= i <= |t| && Glob(r, t[i..])
    decreases |t|
  {
    var p := "*" + r;
    assert p != [] && p[0] == '*' && p[1..] == r;
    assert t[0..] == t;
    if t == [] {
      assert Glob(p, t) == Glob(r, t);
      if exists i :: 0 <= i <= |t| && Glob(r, t[i..]) {
        var i :| 0 <= i <= |t| && Glob(r, t[i..]);
        assert i == 0;
      }
    } else {
      assert Glob(p, t) == (Glob(r, t) || Glob(p, t[1..]));
      LeadingStar(r, t[1..]);
      if Glob(p, t[1..]) {
        var j :| 0 <= j <= |t[1..]| && Glob(r, t[1..][j..]);
        assert t[1..][j..] == t[j + 1..];
        assert Glob(r, t[j + 1..]);
      }
      if exists i :: 0 <= i <= |t| && Glob(r, t[i..]) {
        var i :| 0 <= i <= |t| && Glob(r, t[i..]);
        if i > 0 {
          assert t[1..][i - 1..] == t[i..];
          assert Glob(p, t[1..]);
        }
      }
    }
  }

  /** Without a `*`, the contains filter is plain containment of the phrase in the text. */
  lemma ContainsPlain(q: string, t: string)
    requires NoStar(q)
    ensures WildcardContains(q, t) <==> Occurs(q, t)
  {
    assert "*" + q + "*" == "*" + (q + "*");
    LeadingStar(q + "*", t);
    if WildcardContains(q, t) {
      var i :| 0 <= i <= |t| && Glob(q + "*", t[i..]);
      PrefixStar(q, t[i..]);
      assert t[i..][..|q|] == t[i..i + |q|];
      assert OccursAt(q, t, i);
    }
    if Occurs(q, t) {
      var i :| 0 <= i <= |t| - |q| && OccursAt(q, t, i);
      PrefixStar(q, t[i..]);
      assert t[i..][..|q|] == t[i..i + |q|];
    }
  }

  /** Without a `*`, a contains filter keeps the rows whose cell holds the phrase, letter case aside. */
  lemma ContainsKeeps(f: Filter, columns: seq<ColumnQuality>, row: Row)
    requires f.ftype == Contains && f.args.Phrase? && NoStar(f.args.phrase)
    ensures Keeps(f, columns, row) <==> HasText(row, f.colId) && Occurs(LowerString(f.args.phrase), LowerString(row[f.colId]))
  {
    var q := LowerString(f.args.phrase);
    assert NoStar(q);
    if HasText(row, f.colId) {
      ContainsPlain(q, LowerString(row[f.colId]));
    }
  }

  /** `toto` occurs in ` toto est ici` and not in ` tata est ici`. */
  lemma OccursExamples()
    ensures Occurs("toto", " toto est ici")
    ensures !Occurs("toto", " tata est ici")
  {
    assert OccursAt("toto", " toto est ici", 1);
    var miss := " tata est ici";
    forall i | 0 <= i <= |miss| - 4
      ensures !OccursAt("toto", miss, i)
    {
      assert miss[i..i + 4][0] == miss[i] && miss[i..i + 4][1] == miss[i + 1];
    }
  }

  /** A star-free phrase that begins the text hands the rest of the text to the rest of the pattern. */
  lemma {:induction false} PlainThen(a: string, r: string, t: string)
    requires NoStar(a) && |a| <= |t| && t[..|a|] == a && Glob(r, t[|a|..])
    ensures Glob(a + r, t)
    decreases |a|
  {
    if a != [] {
      assert (a + r)[0] == a[0] && (a + r)[1..] == a[1..] + r;
      assert t[1..][..|a| - 1] == a[1..] && t[1..][|a| - 1..] == t[|a|..];
      PlainThen(a[1..], r, t[1..]);
    } else {
      assert a + r == r && t[|a|..] == t;
    }
  }

  /** A leading `*` may skip any prefix of the text. */
  lemma StarSkip(r: string, t: string, i: nat)
    requires i <= |t| && Glob(r, t[i..])
    ensures Glob("*" + r, t)
  {
    LeadingStar(r, t);
  }

  /** A wildcard phrase `a*b` is found in any text holding `a` and, further on, `b`. */
  lemma WildcardFound(a: string, b: string, x: string, y: string, z: string)
    requires NoStar(a) && NoStar(b)
    ensures WildcardContains(a + "*" + b, x + a + y + b + z)
  {
    WildcardShape(a, b, x, y, z);
    var v := b + z;
    var u := a + (y + v);
    var r := "*" + (b + "*");
    WildcardTail(b, y, z);
    PlainThen(a, r, u);
    assert (x + u)[|x|..] == u;
    StarSkip(a + r, x + u, |x|);
  }

  /** Regrouping the pattern and the text of `WildcardFound`. */
  lemma WildcardShape(a: string, b: string, x: string, y: string, z: string)
    ensures "*" + (a + "*" + b) + "*" == "*" + (a + ("*" + (b + "*")))
    ensures x + a + y + b + z == x + (a + (y + (b + z)))
    ensures (a + (y + (b + z)))[..|a|] == a && (a + (y + (b + z)))[|a|..] == y + (b + z)
  {
  }

  /** The `*b*` part of `WildcardFound`: `b` found after any `y`. */
  lemma WildcardTail(b: string, y: string, z: string)
    requires NoStar(b)
    ensures Glob("*" + (b + "*"), y + (b + z))
  {
    var v := b + z;
    assert v[..|b|] == b;
    PrefixStar(b, v);
    assert (y + v)[|y|..] == v;
    StarSkip(b + "*", y + v, |y|);
  }

  // ---------------------------------------------------------------------------------------------
  // Scenarios
  // ---------------------------------------------------------------------------------------------

  /** The range labels: `[0 .. 22]` and, with separators, `[0 .. 1,000,000]`. */
  lemma RangeLabels()
    ensures RangeLabel(0, 22) == "[0 .. 22]"
    ensures RangeLabel(5, 10) == "[5 .. 10]"
    ensures RangeLabel(0, 1000000) == "[0 .. 1,000,000]"
  {
    assert GroupedInt(0) == "0";
    assert NatToString(22) == "22";
    assert GroupedInt(1000000) == GroupThousands(1000) + "," + Pad3(0);
    assert GroupThousands(1000) == GroupThousands(1) + "," + Pad3(0);
    assert Pad3(0) == "000";
  }

  /** Dropping the separators from a range bound's label gives back the bound. */
  lemma GroupedIntParses(i: int)
    ensures ParseInt(RemoveCommas(GroupedInt(i))) == Some(i)
  {
    if i < 0 {
      GroupThousandsDigits(-i);
      RemoveCommasAppend("-", GroupThousands(-i));
      assert RemoveCommas("-") == "-";
      assert RemoveCommas(GroupedInt(i)) == IntToString(i);
    } else {
      GroupThousandsDigits(i);
    }
    ParseIntToString(i);
  }

  function Cell(colId: string, value: string): Row
  {
    map[colId := value]
  }

  /** A case-sensitive exact filter keeps `toici` only; the case-insensitive one also keeps `Toici`; neither trims. */
  lemma ExactExamples(uid: nat)
    ensures var f := Filter(uid, Exact, "col1", "column name", true, Phrase("toici", true), "toici", None);
            Keeps(f, [], Cell("col1", "toici")) && !Keeps(f, [], Cell("col1", "Toici"))
            && !Keeps(f, [], Cell("col1", " toici")) && !Keeps(f, [], Cell("col1", "toici "))
    ensures var g := Filter(uid, Exact, "col1", "column name", true, Phrase("toici", false), "toici", None);
            Keeps(g, [], Cell("col1", "Toici")) && !Keeps(g, [], Cell("col1", " toici"))
  {
    ExactTexts();
  }

  /** The comparisons behind `ExactExamples`. */
  lemma ExactTexts()
    ensures "Toici" != "toici" && |" toici"| != |"toici"| && |"toici "| != |"toici"|
    ensures EqualsIgnoreCase("Toici", "toici") && !EqualsIgnoreCase(" toici", "toici")
  {
    assert "Toici"[0] != "toici"[0];
    assert ToLower('T') == 't';
  }

  /** A range filter on [0, 22] keeps `5` but not `-5`; one on [0, 1000000] keeps `1000`. */
  lemma RangeExamples(uid: nat)
    ensures var f := Filter(uid, InsideRange, "col1", "column name", false, Interval(0, 22), "[0 .. 22]", None);
            Keeps(f, [], Cell("col1", "5")) && !Keeps(f, [], Cell("col1", "-5"))
    ensures var g := Filter(uid, InsideRange, "col2", "column name2", false, Interval(0, 1000000), "[0 .. 1,000,000]", None);
            Keeps(g, [], Cell("col2", "1000")) && !Keeps(g, [], Cell("col2", "-5"))
  {
    RangeTexts();
  }

  /** The parses behind `RangeExamples`. */
  lemma RangeTexts()
    ensures ParseInt("5") == Some(5) && ParseInt("-5") == Some(-5) && ParseInt("1000") == Some(1000)
  {
    assert ParseNat("5") == Some(5);
    assert "-5"[1..] == "5";
    ParseIntToString(5);
    ParseIntToString(1000);
    assert NatToString(1000) == "1000";
  }

  /** The record filters on the invalid values `NA`, `N/A`, `N.A` and `m`, `p`. */
  lemma RecordExamples(uid: nat)
    ensures var cols := [ColumnQuality("col0", []), ColumnQuality("col1", ["NA", "N/A", "N.A"])];
            var f := Filter(uid, InvalidRecords, "col1", "column name", false, NoArgs, "invalid records", None);
            Keeps(f, cols, Cell("col1", "NA")) && !Keeps(f, cols, Cell("col1", " tata est ici"))
    ensures var cols := [ColumnQuality("col0", []), ColumnQuality("col1", ["m", "p"])];
            var f := Filter(uid, ValidRecords, "col1", "column name", false, NoArgs, "valid records", None);
            Keeps(f, cols, Cell("col1", "a")) && !Keeps(f, cols, Cell("col1", "m")) && !Keeps(f, cols, Cell("col1", ""))
    ensures var f := Filter(uid, EmptyRecords, "col1", "column name", false, NoArgs, "empty records", None);
            Keeps(f, [], Cell("col1", "")) && !Keeps(f, [], Cell("col1", " tata est ici"))
  {
    assert InvalidValues([ColumnQuality("col0", []), ColumnQuality("col1", ["NA", "N/A", "N.A"])], "col1") == ["NA", "N/A", "N.A"];
    assert InvalidValues([ColumnQuality("col0", []), ColumnQuality("col1", ["m", "p"])], "col1") == ["m", "p"];
  }

  /**
   * Two range filters on the same column: the second takes the first one's place, with its own interval
   * and label but the first one's remove callback.
   */
  lemma RangeReplaceScenario(cb: Callback)
    ensures var s1 := AddFilter(Empty, InsideRange, "col1", "column name", Interval(0, 22), Some(cb));
            var s2 := AddFilter(s1, InsideRange, "col1", "column name", Interval(5, 10), None);
            |s2.filters| == 1 && s2.filters[0].value == "[5 .. 10]" && s2.filters[0].args == Interval(5, 10)
            && s2.filters[0].removeFn == Some(cb)
  {
    RangeLabels();
    var s1 := AddFilter(Empty, InsideRange, "col1", "column name", Interval(0, 22), Some(cb));
    assert RangeOn(s1.filters, "col1") == Some(0);
  }

  /** Updating the second of two text filters rebuilds it in place with the new phrase and label. */
  lemma UpdateScenario()
    ensures var s1 := AddFilter(Empty, Contains, "col1", "column 1", Phrase("Toto", false), None);
            var s2 := AddFilter(s1, Contains, "col2", "column 2", Phrase("Toto", false), None);
            var s3 := UpdateFilter(s2, s2.filters[1].uid, Text("Tata"));
            |s3.filters| == 2 && s3.filters[0] == s2.filters[0] && s3.filters[1].uid != s2.filters[1].uid
            && s3.filters[1].colId == "col2" && s3.filters[1].args.phrase == "Tata" && s3.filters[1].value == "Tata"
  {
    var s1 := AddFilter(Empty, Contains, "col1", "column 1", Phrase("Toto", false), None);
    var s2 := AddFilter(s1, Contains, "col2", "column 2", Phrase("Toto", false), None);
    assert s2.filters[0].uid == 0 && s2.filters[1].uid == 1;
    assert Find(s2.filters, 1) == Some(1);
  }
}
