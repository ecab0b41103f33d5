/** LoadPY of createPYMB: the characters of all groups numbered column by column, counting
    down from the number of entries (tools/cli/createPYMB.c:87-171, 129-145). */
module Numbering {
  import opened Keyed
  import opened Pyfa
  import opened BaseFile

  /** Cell (j, i) is character i of group j. */
  datatype Cell = Cell(j: nat, i: nat)

  predicate InGroups(sizes: seq<nat>, c: Cell) {
    c.j < |sizes| && c.i < sizes[c.j]
  }

  /** The order of the two loops: column by column, and by group within a column. */
  predicate Earlier(a: Cell, b: Cell) {
    a.i < b.i || (a.i == b.i && a.j < b.j)
  }

  ghost predicate InOrder(order: seq<Cell>) {
    forall t, u :: 0 <= t < u < |order| ==> Earlier(order[t], order[u])
  }

  function Total(sizes: seq<nat>): nat {
    if sizes == [] then 0 else Total(sizes[..|sizes| - 1]) + sizes[|sizes| - 1]
  }

  function Sizes(groups: seq<array<int>>): (r: seq<nat>)
    ensures |r| == |groups| && forall j :: 0 <= j < |groups| ==> r[j] == groups[j].Length
  {
    if groups == [] then [] else Sizes(groups[..|groups| - 1]) + [groups[|groups| - 1].Length]
  }

  /** The cells in `order` carry the numbers n, n - 1, ... */
  ghost predicate Numbered(groups: seq<array<int>>, order: seq<Cell>, n: int)
    reads set j | 0 <= j < |groups| :: groups[j]
  {
    forall t :: 0 <= t < |order| ==>
      InGroups(Sizes(groups), order[t]) && groups[order[t].j][order[t].i] == n - t
  }

  /** The cells passed when the loops stand at row j of column i. */
  predicate Passed(c: Cell, i: nat, j: nat) {
    c.i < i || (c.i == i && c.j < j)
  }

  ghost predicate Holds(sizes: seq<nat>, order: seq<Cell>, i: nat, j: nat) {
    forall c :: c in order <==> InGroups(sizes, c) && Passed(c, i, j)
  }

  /** Every cell of every group, and no other. */
  ghost predicate Complete(sizes: seq<nat>, order: seq<Cell>) {
    forall c :: c in order <==> InGroups(sizes, c)
  }

  predicate Separate(groups: seq<array<int>>) {
    forall j, k :: 0 <= j < k < |groups| ==> groups[j] != groups[k]
  }

  /** The numbering.  `order` lists the cells as they were reached. */
  method NumberColumns(groups: seq<array<int>>, iAllCount: int) returns (rest: int, ghost order: seq<Cell>)
    requires Separate(groups)
    modifies set j | 0 <= j < |groups| :: groups[j]
    ensures rest == iAllCount - |order|
    ensures InOrder(order) && Complete(Sizes(groups), order)
    ensures Numbered(groups, order, iAllCount)
  {
    hide InOrder, Holds, Numbered, Complete, Separate;
    order, rest := [], iAllCount;
    ghost var sizes := Sizes(groups);
    NothingNumbered(groups, sizes, iAllCount);
    var i := 0;
    var iSW := true;
    while iSW
      invariant Holds(sizes, order, i, 0) && InOrder(order) && rest == iAllCount - |order|
      invariant Numbered(groups, order, iAllCount)
      invariant !iSW ==> forall j :: 0 <= j < |sizes| ==> sizes[j] <= i
      decreases iSW, Widest(sizes) + 1 - i
    {
      order, rest, iSW := NumberColumn(groups, sizes, i, order, rest, iAllCount);
      ColumnDone(sizes, order, i);
      if iSW {
        ghost var k :| 0 <= k < |groups| && i < groups[k].Length;
        WidestIs(sizes, k);
        i := i + 1;
      } else {
        NothingBeyond(sizes, order, i);
      }
    }
    AllNumbered(sizes, order, i);
  }

  /** One column: the next number down for every group long enough. */
  method NumberColumn(groups: seq<array<int>>, ghost sizes: seq<nat>, i: nat, ghost done: seq<Cell>, iAllCount: int,
      ghost n: int)
    returns (ghost order: seq<Cell>, rest: int, iSW: bool)
    requires Separate(groups) && sizes == Sizes(groups)
    requires Holds(sizes, done, i, 0) && InOrder(done) && Numbered(groups, done, n) && iAllCount == n - |done|
    modifies set j | 0 <= j < |groups| :: groups[j]
    ensures Holds(sizes, order, i, |groups|) && InOrder(order) && Numbered(groups, order, n) && rest == n - |order|
    ensures iSW <==> exists k :: 0 <= k < |groups| && i < groups[k].Length
  {
    hide InOrder, Holds, Numbered, Separate;
    order, rest, iSW := done, iAllCount, false;
    var j := 0;
    while j < |groups|
      invariant 0 <= j <= |groups| && Holds(sizes, order, i, j) && InOrder(order) && rest == n - |order|
      invariant Numbered(groups, order, n)
      invariant iSW <==> exists k :: 0 <= k < j && i < groups[k].Length
    {
      if i < groups[j].Length {
        OneCellMore(sizes, order, i, j);
        NumberCell(groups, j, i, rest, order, n);
        order, rest, iSW := order + [Cell(j, i)], rest - 1, true;
      } else {
        NoCell(sizes, order, i, j);
      }
      j := j + 1;
    }
  }

  method NumberCell(groups: seq<array<int>>, j: nat, i: nat, number: int, ghost order: seq<Cell>, ghost n: int)
    requires Separate(groups) && j < |groups| && i < groups[j].Length
    requires Numbered(groups, order, n) && Cell(j, i) !in order && number == n - |order|
    modifies groups[j]
    ensures Numbered(groups, order + [Cell(j, i)], n)
  {
    ghost var more := order + [Cell(j, i)];
    groups[j][i] := number;
    forall t | 0 <= t < |more|
      ensures InGroups(Sizes(groups), more[t]) && groups[more[t].j][more[t].i] == n - t
    {
      if t < |order| {
        assert more[t] == order[t] && order[t] in order;
        assert old(groups[order[t].j][order[t].i]) == n - t;
        assert groups[order[t].j] != groups[j] || order[t].j == j;
      }
    }
  }

  lemma NothingNumbered(groups: seq<array<int>>, sizes: seq<nat>, n: int)
    ensures Numbered(groups, [], n) && InOrder([]) && Holds(sizes, [], 0, 0)
  {
  }

  lemma ColumnDone(sizes: seq<nat>, order: seq<Cell>, i: nat)
    requires Holds(sizes, order, i, |sizes|)
    ensures Holds(sizes, order, i + 1, 0)
  {
  }

  lemma NothingBeyond(sizes: seq<nat>, order: seq<Cell>, i: nat)
    requires Holds(sizes, order, i + 1, 0) && forall j :: 0 <= j < |sizes| ==> sizes[j] <= i
    ensures Holds(sizes, order, i, 0)
  {
    forall c ensures c in order <==> InGroups(sizes, c) && Passed(c, i, 0) {
      assert c in order <==> InGroups(sizes, c) && Passed(c, i + 1, 0);
    }
  }

  lemma AllNumbered(sizes: seq<nat>, order: seq<Cell>, i: nat)
    requires Holds(sizes, order, i, 0) && forall j :: 0 <= j < |sizes| ==> sizes[j] <= i
    ensures Complete(sizes, order)
  {
    forall c ensures c in order <==> InGroups(sizes, c) {
      assert c in order <==> InGroups(sizes, c) && Passed(c, i, 0);
    }
  }

  lemma NoCell(sizes: seq<nat>, order: seq<Cell>, i: nat, j: nat)
    requires j < |sizes| && sizes[j] <= i && Holds(sizes, order, i, j)
    ensures Holds(sizes, order, i, j + 1)
  {
    forall c ensures c in order <==> InGroups(sizes, c) && Passed(c, i, j + 1) {
      assert c in order <==> InGroups(sizes, c) && Passed(c, i, j);
    }
  }

  function Widest(sizes: seq<nat>): nat {
    if sizes == [] then 0
    else
      var w := Widest(sizes[..|sizes| - 1]);
      if sizes[|sizes| - 1] > w then sizes[|sizes| - 1] else w
  }

  lemma {:induction false} WidestIs(sizes: seq<nat>, k: nat)
    requires k < |sizes|
    ensures sizes[k] <= Widest(sizes)
  {
    if k < |sizes| - 1 { WidestIs(sizes[..|sizes| - 1], k); }
  }

  lemma OneCellMore(sizes: seq<nat>, order: seq<Cell>, i: nat, j: nat)
    requires j < |sizes| && i < sizes[j] && Holds(sizes, order, i, j) && InOrder(order)
    ensures Holds(sizes, order + [Cell(j, i)], i, j + 1) && InOrder(order + [Cell(j, i)])
    ensures Cell(j, i) !in order
  {
    var more := order + [Cell(j, i)];
    forall t | 0 <= t < |order| ensures Earlier(order[t], Cell(j, i)) {
      assert order[t] in order;
    }
    forall c ensures c in more <==> InGroups(sizes, c) && Passed(c, i, j + 1) {
      assert c in more <==> c in order || c == Cell(j, i);
    }
  }

  /* ----- the numbers are a bijection ----- */

  /** Character i of group j has the number v. */
  ghost predicate Carries(groups: seq<array<int>>, c: Cell, v: int)
    reads set j | 0 <= j < |groups| :: groups[j]
  {
    c.j < |groups| && c.i < groups[c.j].Length && groups[c.j][c.i] == v
  }

  ghost predicate Given(groups: seq<array<int>>, v: int)
    reads set j | 0 <= j < |groups| :: groups[j]
  {
    exists c :: Carries(groups, c, v)
  }

  /** Exactly the numbers from n - Total(sizes) + 1 to n are given, each to one character, and
      they fall column by column: the first characters of all groups, then the second ones. */
  ghost predicate Bijective(groups: seq<array<int>>, n: int)
    reads set j | 0 <= j < |groups| :: groups[j]
  {
    && (forall v :: Given(groups, v) <==> n - Total(Sizes(groups)) < v <= n)
    && (forall c, d, v :: Carries(groups, c, v) && Carries(groups, d, v) ==> c == d)
    && (forall c, d, v, w :: Carries(groups, c, v) && Carries(groups, d, w) ==>
      (c.i < d.i || (c.i == d.i && c.j < d.j) ==> v > w))
  }

  /** The row of cells of one group. */
  ghost function RowCells(j: nat, n: nat): (r: set<Cell>)
    ensures |r| == n && forall c :: c in r <==> c.j == j && c.i < n
  {
    if n == 0 then {} else RowCells(j, n - 1) + {Cell(j, n - 1)}
  }

  ghost function Cells(sizes: seq<nat>): (r: set<Cell>)
    ensures |r| == Total(sizes) && forall c :: c in r <==> InGroups(sizes, c)
  {
    if sizes == [] then {}
    else
      var j := |sizes| - 1;
      var before, row := Cells(sizes[..j]), RowCells(j, sizes[j]);
      assert before !! row;
      assert forall c :: InGroups(sizes, c) <==> InGroups(sizes[..j], c) || (c.j == j && c.i < sizes[j]);
      before + row
  }

  ghost function Reached(order: seq<Cell>): (r: set<Cell>)
    ensures forall c :: c in r <==> c in order
  {
    if order == [] then {} else Reached(order[..|order| - 1]) + {order[|order| - 1]}
  }

  lemma {:induction false} ReachedOnce(order: seq<Cell>)
    requires InOrder(order)
    ensures |Reached(order)| == |order|
  {
    if order != [] {
      var init, last := order[..|order| - 1], order[|order| - 1];
      ReachedOnce(init);
      assert last !in init;
    }
  }

  lemma {:induction false} OrderIsTotal(sizes: seq<nat>, order: seq<Cell>)
    requires InOrder(order) && Complete(sizes, order)
    ensures |order| == Total(sizes)
  {
    hide InOrder;
    ReachedOnce(order);
    assert Reached(order) == Cells(sizes);
  }

  lemma PlaceOf(groups: seq<array<int>>, order: seq<Cell>, n: int, c: Cell, v: int) returns (t: nat)
    requires Complete(Sizes(groups), order) && Numbered(groups, order, n) && Carries(groups, c, v)
    ensures t < |order| && order[t] == c && v == n - t
  {
    assert c in order;
    t :| t < |order| && order[t] == c;
  }

  lemma {:induction false} NumbersAreBijective(groups: seq<array<int>>, order: seq<Cell>, n: int)
    requires InOrder(order) && Complete(Sizes(groups), order) && Numbered(groups, order, n)
    ensures Bijective(groups, n)
  {
    hide Complete, Numbered;
    OrderIsTotal(Sizes(groups), order);
    forall v
      ensures Given(groups, v) <==> n - Total(Sizes(groups)) < v <= n
    {
      if c :| Carries(groups, c, v) { var t := PlaceOf(groups, order, n, c, v); }
      if n - Total(Sizes(groups)) < v <= n { NumberGiven(groups, order, n, v); }
    }
    forall c, d, v, w | Carries(groups, c, v) && Carries(groups, d, w)
      ensures v == w ==> c == d
      ensures c.i < d.i || (c.i == d.i && c.j < d.j) ==> v > w
    {
      var t := PlaceOf(groups, order, n, c, v);
      var u := PlaceOf(groups, order, n, d, w);
      if u < t { assert Earlier(order[u], order[t]); }
    }
  }

  lemma NumberGiven(groups: seq<array<int>>, order: seq<Cell>, n: int, v: int)
    requires Numbered(groups, order, n) && n - |order| < v <= n
    ensures Given(groups, v)
  {
    assert Carries(groups, order[n - v], v);
  }

  /** LoadPY: iAllCount is counted down by the number of characters loaded.  When it was their
      number, as it is after CreatePYBase, the characters carry exactly 1 to iAllCount. */
  method NumberAll(groups: seq<array<int>>, iAllCount: int) returns (rest: int)
    requires Separate(groups)
    modifies set j | 0 <= j < |groups| :: groups[j]
    ensures Bijective(groups, iAllCount) && rest == iAllCount - Total(Sizes(groups))
  {
    hide Bijective, InOrder, Complete, Numbered;
    ghost var order;
    rest, order := NumberColumns(groups, iAllCount);
    NumbersAreBijective(groups, order, iAllCount);
    OrderIsTotal(Sizes(groups), order);
  }

  /* ----- the file of CreatePYBase, read back ----- */

  /** The first groups of the file, as many as the header says. */
  predicate LoadedFrom(groups: seq<CodeGroup>, header: nat, sizes: seq<nat>) {
    |sizes| == header <= |groups| && forall j :: 0 <= j < header ==> sizes[j] == |groups[j].hzs|
  }

  lemma {:induction false} LoadedTotal(groups: seq<CodeGroup>, header: nat, sizes: seq<nat>)
    requires LoadedFrom(groups, header, sizes) && Maximal(groups)
    ensures Total(sizes) <= |Flatten(groups)|
    ensures Total(sizes) == |Flatten(groups)| <==> header == |groups|
  {
    if groups != [] {
      var last := |groups| - 1;
      if header == |groups| {
        LoadedTotal(groups[..last], last, sizes[..last]);
      } else {
        LoadedTotal(groups[..last], header, sizes);
        assert groups[last].hzs != [];
      }
    }
  }

  /** The numbers LoadPY gives after CreatePYBase start at 1 if and only if every accepted
      spelling is a standard syllable; otherwise groups are left unread and numbers unused. */
  lemma {:induction false} NumbersStartAtOne(cfg: Config, table: seq<Row>, lines: seq<Line>, groups: seq<CodeGroup>,
      sizes: seq<nat>)
    requires Plain(cfg) && NoRepeats(table) && Readable(cfg, lines)
    requires StableSort(ItemKey(), Items(cfg, lines), Flatten(groups)) && Maximal(groups)
    requires LoadedFrom(groups, Tallied(cfg, table, lines), sizes)
    ensures |Flatten(groups)| - Total(sizes) >= 0
    ensures |Flatten(groups)| - Total(sizes) == 0 <==>
      forall i :: 0 <= i < |lines| && Accepted(cfg, lines[i]) ==> Standard(table, lines[i].py)
  {
    hide Accepted, Standard, Readable, Items, Flatten, StableSort, Tallied, Plain;
    HeaderCountsGroups(cfg, table, lines, groups);
    LoadedTotal(groups, Tallied(cfg, table, lines), sizes);
  }
}
