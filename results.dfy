/** The value part of `_parseData` (js/app.js:229-305): keep the first 50
    results, hand them to the treemap, walk its leaves in reverse and keep
    the ones whose box is visible. Registering the boxes is done by
    `App.Visualization.ParseData`, which is proved to follow `ParsedCells`. */
module Results {
  import opened Types
  import opened Geometry

  /** Only this many results are laid out. */
  const MaxResults: nat := 50

  /** `d3.treemap().size([side, side]).tile(d3.treemapSquarify)` applied to
      the hierarchy of the given records: the leaves it produces. */
  type Treemap = (seq<SpendingRecord>, real) -> seq<PartitionCell>

  /** The leaves `treemap` lays out for `values` on a square of side `side`. */
  function Leaves(treemap: Treemap, values: seq<SpendingRecord>, side: real): seq<PartitionCell> {
    treemap(values, side)
  }

  /** The results `_parseData` lays out: the first fifty, in their order. */
  function Truncate(results: seq<SpendingRecord>): (values: seq<SpendingRecord>)
    ensures |values| == if |results| > MaxResults then MaxResults else |results|
    ensures values == results[..|values|]
  {
    if |results| > MaxResults then results[..MaxResults] else results
  }

  /** `Array.prototype.reverse`. */
  function Reverse<T>(s: seq<T>): (r: seq<T>)
    ensures |r| == |s|
  {
    if s == [] then [] else Reverse(s[1..]) + [s[0]]
  }

  lemma {:induction false} ReverseAt<T>(s: seq<T>, k: nat)
    requires k < |s|
    ensures Reverse(s)[k] == s[|s| - 1 - k]
  {
    if k < |s| - 1 {
      ReverseAt(s[1..], k);
    }
  }

  lemma {:induction false} ReverseAppend<T>(a: seq<T>, b: seq<T>)
    ensures Reverse(a + b) == Reverse(b) + Reverse(a)
  {
    if a == [] {
      assert a + b == b;
    } else {
      assert (a + b)[1..] == a[1..] + b;
      ReverseAppend(a[1..], b);
    }
  }

  /** A visible leaf and the dimensions of the box built from it. */
  datatype Generated = Generated(cell: PartitionCell, dimensions: Dimensions)

  /** The `reduce` of `_parseData` over `cells`, without its side effects:
      the cells whose box is not `null`, in the order met, each with the
      dimensions of its box. */
  function VisibleCells(cells: seq<PartitionCell>, m: MathLib): (r: seq<Generated>)
    requires PositiveRoots(m)
    ensures |r| <= |cells|
  {
    if cells == [] then []
    else
      var kept := VisibleCells(cells[..|cells| - 1], m);
      var last := cells[|cells| - 1];
      match CellDimensions(last, m)
      case None => kept
      case Some(d) => kept + [Generated(last, d)]
  }

  /** Every cell the walk keeps is one of the leaves, of positive area, and
      carries the dimensions `_generateCell` gives it. */
  lemma {:induction false} VisibleCellsVisible(cells: seq<PartitionCell>, m: MathLib)
    requires PositiveRoots(m)
    ensures forall j :: 0 <= j < |VisibleCells(cells, m)| ==>
              && Area(VisibleCells(cells, m)[j].cell) > 0.0
              && CellDimensions(VisibleCells(cells, m)[j].cell, m) == Some(VisibleCells(cells, m)[j].dimensions)
              && VisibleCells(cells, m)[j].cell in cells
    decreases |cells|
  {
    if cells != [] {
      var init := cells[..|cells| - 1];
      VisibleCellsVisible(init, m);
      var kept := VisibleCells(init, m);
      forall j | 0 <= j < |VisibleCells(cells, m)|
        ensures VisibleCells(cells, m)[j].cell in cells
      {
        if j < |kept| {
          assert VisibleCells(cells, m)[j] == kept[j];
          assert kept[j].cell in init;
        }
      }
    }
  }

  /** The walk can be split anywhere: it treats each leaf on its own. */
  lemma {:induction false} VisibleCellsAppend(a: seq<PartitionCell>, b: seq<PartitionCell>, m: MathLib)
    requires PositiveRoots(m)
    ensures VisibleCells(a + b, m) == VisibleCells(a, m) + VisibleCells(b, m)
  {
    if b == [] {
      assert a + b == a;
    } else {
      var b' := b[..|b| - 1];
      assert (a + b)[..|a + b| - 1] == a + b';
      assert (a + b)[|a + b| - 1] == b[|b| - 1];
      VisibleCellsAppend(a, b', m);
    }
  }

  /** One more leaf of the walk adds its box if it has one, and nothing else. */
  lemma {:induction false} VisibleCellsStep(cells: seq<PartitionCell>, i: nat, m: MathLib)
    requires PositiveRoots(m) && i < |cells|
    ensures CellDimensions(cells[i], m).None? ==>
              VisibleCells(cells[..i + 1], m) == VisibleCells(cells[..i], m)
    ensures CellDimensions(cells[i], m).Some? ==>
              VisibleCells(cells[..i + 1], m)
              == VisibleCells(cells[..i], m) + [Generated(cells[i], CellDimensions(cells[i], m).value)]
  {
    assert cells[..i + 1][..i] == cells[..i];
  }

  /** Every leaf whose box is visible is kept, right after the visible leaves
      that precede it. */
  lemma {:induction false} VisibleCellsKeeps(cells: seq<PartitionCell>, k: nat, m: MathLib)
    requires PositiveRoots(m) && k < |cells| && Area(cells[k]) > 0.0
    ensures |VisibleCells(cells[..k], m)| < |VisibleCells(cells, m)|
    ensures VisibleCells(cells, m)[|VisibleCells(cells[..k], m)|].cell == cells[k]
  {
    assert cells == cells[..k] + [cells[k]] + cells[k + 1..];
    VisibleCellsAppend(cells[..k] + [cells[k]], cells[k + 1..], m);
    VisibleCellsAppend(cells[..k], [cells[k]], m);
    assert [cells[k]][..0] == [];
  }

  /** Walking the reversed leaves keeps the same cells as walking them in
      order, in reverse. */
  lemma {:induction false} VisibleCellsReverse(cells: seq<PartitionCell>, m: MathLib)
    requires PositiveRoots(m)
    ensures VisibleCells(Reverse(cells), m) == Reverse(VisibleCells(cells, m))
  {
    if cells != [] {
      var head, tail := [cells[0]], cells[1..];
      assert cells == head + tail;
      assert Reverse(cells) == Reverse(tail) + head;
      VisibleCellsReverse(tail, m);
      VisibleCellsAppend(Reverse(tail), head, m);
      VisibleCellsAppend(head, tail, m);
      ReverseAppend(VisibleCells(head, m), VisibleCells(tail, m));
      assert head[..0] == [];
      assert Reverse(VisibleCells(head, m)) == VisibleCells(head, m);
    }
  }

  /** The boxes `_parseData` returns, before registration: none for an empty
      result list; otherwise the visible leaves of the treemap of the first
      fifty results, on a square of side `sqrt(containingVolume)`, walked in
      reverse. */
  function ParsedCells(results: seq<SpendingRecord>, containingVolume: real,
                       m: MathLib, treemap: Treemap): seq<Generated>
    requires PositiveRoots(m)
  {
    var values := Truncate(results);
    if |values| == 0 then []
    else VisibleCells(Reverse(Leaves(treemap, values, Sqrt(m, containingVolume))), m)
  }

  /** An empty result list yields no boxes; otherwise the boxes are the
      visible leaves of the treemap in reverse treemap order. */
  lemma {:induction false} ParsedCellsOrder(results: seq<SpendingRecord>, containingVolume: real,
                         m: MathLib, treemap: Treemap)
    requires PositiveRoots(m)
    ensures results == [] ==> ParsedCells(results, containingVolume, m, treemap) == []
    ensures results != [] ==>
              ParsedCells(results, containingVolume, m, treemap)
              == Reverse(VisibleCells(Leaves(treemap, Truncate(results), Sqrt(m, containingVolume)), m))
  {
    if results != [] {
      VisibleCellsReverse(Leaves(treemap, Truncate(results), Sqrt(m, containingVolume)), m);
    }
  }
}
