/** The `Visualization` object of js/app.js, reduced to its bookkeeping: the
    registry of cells (`cellTracker`), the physics bodies created for them
    (`physicalItems`), the selected cell (`activeCell`), the frame clock
    (`lastUpdate`) and the module-level cell counter. Every tween completion
    and every fetch continuation is one method, run to completion. */
module App {
  import opened Types
  import opened Box
  import opened CellNames
  import opened Geometry
  import opened Results
  import opened RootLayout
  import opened Levels
  import opened Frame

  /** `Math.pow(15, 3)`: the volume the root level's treemap covers. */
  const RootVolume: real := 3375.0

  /** The y a cell is thrown up to when selected, and the height at which the
      bodies of a drilled level's children are dropped. */
  const ThrowHeight: real := 30.0

  /** A physics body as `world.add` was asked to create it: its `size`, its
      `pos` and whether it may `move`. */
  datatype Body = Body(size: Dimensions, pos: Vec3, movable: bool)

  /** `_currentCount` and `cellCounter` (js/app.js:1-5). */
  class CellCounter {
    var current: nat

    constructor ()
      ensures current == 1
    {
      current := 1;
    }

    /** `cellCounter()`: increments the count, then returns it, so every call
        returns a value larger than all earlier ones (the first returns 2). */
    method Next() returns (n: nat)
      modifies this
      ensures current == old(current) + 1
      ensures n == current && n > old(current)
    {
      current := current + 1;
      n := current;
    }
  }

  /** The mesh names the boxes built for `cells` receive when the counter
      hands out `first`, `first + 1`, ... */
  function NewNames(cells: seq<Generated>, first: nat): (names: seq<string>)
    ensures |names| == |cells|
  {
    seq(|cells|, j requires 0 <= j < |cells| =>
      MeshName(cells[j].cell.data.kind, cells[j].cell.data.id, first + j))
  }

  function DimensionsOf(cells: seq<Generated>): (ds: seq<Dimensions>)
    ensures |ds| == |cells|
    ensures forall j :: 0 <= j < |cells| ==> ds[j] == cells[j].dimensions
  {
    seq(|cells|, j requires 0 <= j < |cells| => cells[j].dimensions)
  }

  /** The static bodies `_parseRoot` creates: each box's size, at its place. */
  function RootBodies(ds: seq<Dimensions>): (bodies: seq<Body>)
    ensures |bodies| == |ds|
    ensures forall j :: 0 <= j < |ds| ==> bodies[j] == Body(ds[j], RootPositions(ds)[j], false)
  {
    var positions := RootPositions(ds);
    seq(|ds|, j requires 0 <= j < |ds| => Body(ds[j], positions[j], false))
  }

  /** The movable bodies `_parseDepth` creates: each child's size, dropped
      from `ThrowHeight` above the parent's x and z. */
  function DepthBodies(ds: seq<Dimensions>, parent: Vec3): (bodies: seq<Body>)
    ensures |bodies| == |ds|
    ensures forall j :: 0 <= j < |ds| ==>
              bodies[j] == Body(ds[j], Vec3(parent.x, ThrowHeight, parent.z), true)
  {
    seq(|ds|, j requires 0 <= j < |ds| => Body(ds[j], Vec3(parent.x, ThrowHeight, parent.z), true))
  }

  /** Names handed out from serial `first` on are new to a registry whose
      names all carry serials below `first`, and differ from each other. */
  lemma {:induction false} NewNamesAreFresh(cells: seq<Generated>, first: nat, keys: set<string>)
    requires forall id :: id in keys ==> SerialOf(id) < first
    ensures forall j :: 0 <= j < |cells| ==> NewNames(cells, first)[j] !in keys
    ensures forall j :: 0 <= j < |cells| ==> SerialOf(NewNames(cells, first)[j]) == first + j
  {
    var names := NewNames(cells, first);
    forall j | 0 <= j < |cells|
      ensures SerialOf(names[j]) == first + j
    {
      SerialOfMeshName(cells[j].cell.data.kind, cells[j].cell.data.id, first + j);
    }
  }

  /** The names handed out in one parse differ from each other. */
  lemma {:induction false} NewNamesDistinct(cells: seq<Generated>, first: nat)
    ensures forall j, k :: 0 <= j < k < |cells| ==> NewNames(cells, first)[j] != NewNames(cells, first)[k]
  {
    NewNamesAreFresh(cells, first, {});
  }

  /** Registering the boxes of one parse extends a registry whose names all
      carry earlier serials: every earlier entry is kept, and each new name
      holds its own box. */
  lemma {:induction false} RegisteringNewNamesExtends<V>(before: map<string, V>, cells: seq<Generated>, first: nat, values: seq<V>)
    requires |values| == |cells|
    requires forall id :: id in before ==> SerialOf(id) < first
    ensures Extends(before, Registered(before, NewNames(cells, first), values), NewNames(cells, first), values)
  {
    NewNamesAreFresh(cells, first, before.Keys);
    NewNamesDistinct(cells, first);
    RegisteredExtends(before, NewNames(cells, first), values);
  }

  lemma {:induction false} NewNamesSnoc(cells: seq<Generated>, g: Generated, first: nat)
    ensures NewNames(cells + [g], first)
            == NewNames(cells, first) + [MeshName(g.cell.data.kind, g.cell.data.id, first + |cells|)]
  {
  }

  /** `after` is `before` with `values[j]` stored under `names[j]`, the names
      being new to `before`. */
  ghost predicate Extends<V>(before: map<string, V>, after: map<string, V>,
                             names: seq<string>, values: seq<V>)
    requires |names| == |values|
  {
    && (forall id :: id in after <==> id in before || id in names)
    && (forall id :: id in before ==> id !in names && after[id] == before[id])
    && (forall j :: 0 <= j < |names| ==> after[names[j]] == values[j])
  }

  /** `before` with `values[j]` stored under `names[j]`, one after the other. */
  ghost function Registered<V>(before: map<string, V>, names: seq<string>, values: seq<V>): map<string, V>
    requires |names| == |values|
    decreases |names|
  {
    if names == [] then before
    else Registered(before, names[..|names| - 1], values[..|values| - 1])[names[|names| - 1] := values[|values| - 1]]
  }

  lemma {:induction false} RegisteredSnoc<V>(before: map<string, V>, names: seq<string>, values: seq<V>, name: string, v: V)
    requires |names| == |values|
    ensures Registered(before, names + [name], values + [v]) == Registered(before, names, values)[name := v]
  {
    assert (names + [name])[..|names|] == names;
    assert (values + [v])[..|values|] == values;
  }

  lemma {:induction false} RegisteredPrefix<V>(before: map<string, V>, names: seq<string>, values: seq<V>, i: nat)
    requires |names| == |values| && i < |names|
    ensures Registered(before, names[..i + 1], values[..i + 1])
            == Registered(before, names[..i], values[..i])[names[i] := values[i]]
  {
    assert names[..i + 1][..i] == names[..i];
    assert values[..i + 1][..i] == values[..i];
  }

  /** The names stored are the keys added; nothing is removed. */
  lemma {:induction false} RegisteredKeys<V>(before: map<string, V>, names: seq<string>, values: seq<V>)
    requires |names| == |values|
    ensures forall id :: id in Registered(before, names, values) <==> id in before || id in names
    decreases |names|
  {
    if names != [] {
      var n := |names| - 1;
      RegisteredKeys(before, names[..n], values[..n]);
      assert names == names[..n] + [names[n]];
    }
  }

  /** Storing names keeps every key already there. */
  lemma {:induction false} RegisteredGrows<V>(before: map<string, V>, names: seq<string>, values: seq<V>)
    requires |names| == |values|
    ensures before.Keys <= Registered(before, names, values).Keys
    decreases |names|
  {
    if names != [] {
      var n := |names| - 1;
      RegisteredGrows(before, names[..n], values[..n]);
    }
  }

  /** Storing the same names into a map with more keys gives a map with
      more keys. */
  lemma {:induction false} RegisteredMonotone<V, W>(small: map<string, V>, large: map<string, W>,
                                                  names: seq<string>, vs: seq<V>, ws: seq<W>)
    requires |names| == |vs| == |ws| && small.Keys <= large.Keys
    ensures Registered(small, names, vs).Keys <= Registered(large, names, ws).Keys
    decreases |names|
  {
    if names != [] {
      var n := |names| - 1;
      RegisteredMonotone(small, large, names[..n], vs[..n], ws[..n]);
    }
  }

  /** Storing distinct names that are new to `before` extends it. */
  lemma {:induction false} RegisteredExtends<V>(before: map<string, V>, names: seq<string>, values: seq<V>)
    requires |names| == |values|
    requires forall j :: 0 <= j < |names| ==> names[j] !in before
    requires forall j, k :: 0 <= j < k < |names| ==> names[j] != names[k]
    ensures Extends(before, Registered(before, names, values), names, values)
    decreases |names|
  {
    if names != [] {
      var n := |names| - 1;
      var init, vinit := names[..n], values[..n];
      RegisteredExtends(before, init, vinit);
      forall j | 0 <= j < n ensures init[j] != names[n] {
        assert init[j] == names[j];
      }
      ExtendsSnoc(before, Registered(before, init, vinit), init, vinit, names[n], values[n]);
      assert names == init + [names[n]];
      assert values == vinit + [values[n]];
    }
  }

  /** Storing one more new name keeps `Extends`. */
  lemma {:induction false} ExtendsSnoc<V>(before: map<string, V>, mid: map<string, V>,
                                          names: seq<string>, values: seq<V>, name: string, v: V)
    requires |names| == |values| && Extends(before, mid, names, values)
    requires name !in before && forall j :: 0 <= j < |names| ==> names[j] != name
    ensures Extends(before, mid[name := v], names + [name], values + [v])
  {
    var after, ns, vs := mid[name := v], names + [name], values + [v];
    forall id ensures id in after <==> id in before || id in ns {
      assert id in ns <==> id in names || id == name;
    }
    forall j | 0 <= j < |ns| ensures after[ns[j]] == vs[j] {
      if j < |names| { assert ns[j] == names[j] && vs[j] == values[j]; }
    }
  }

  /** After the parent `id` leaves both maps, the children's bodies still
      belong to registered cells, since no child is named `id`. */
  lemma {:induction false} DepthKeys<V, W>(phys: map<string, V>, tracker: map<string, W>, names: seq<string>,
                        bodies: seq<V>, boxes: seq<W>, id: string)
    requires |names| == |bodies| == |boxes| && phys.Keys <= tracker.Keys && id !in names
    ensures Registered(phys - {id}, names, bodies).Keys <= (Registered(tracker, names, boxes) - {id}).Keys
  {
    RegisteredKeys(phys - {id}, names, bodies);
    RegisteredKeys(tracker, names, boxes);
  }

  /** `box` is the box built for the leaf `g`, named `name` and registered
      with `filters`; it has not been selected. */
  ghost predicate Built(box: BoxModel, g: Generated, filters: Filters, name: string)
    reads box`dimensions, box`data, box`name, box`filters, box`consumed
  {
    && box.dimensions == g.dimensions
    && box.data == g.cell.data
    && box.name == name
    && box.filters == filters
    && !box.consumed
  }

  /** Every box of `boxes` is built for its leaf of `cells` under its name
      of `names`. */
  ghost predicate AllBuilt(boxes: seq<BoxModel>, cells: seq<Generated>, filters: Filters,
                           names: seq<string>)
    requires |boxes| == |cells| == |names|
    reads boxes`dimensions, boxes`data, boxes`name, boxes`filters, boxes`consumed
  {
    forall j :: 0 <= j < |boxes| ==> Built(boxes[j], cells[j], filters, names[j])
  }

  /** Every box of `boxes` still sits at the origin. */
  ghost predicate AtOrigin(boxes: seq<BoxModel>)
    reads boxes`position
  {
    forall j :: 0 <= j < |boxes| ==> boxes[j].position == Origin
  }

  lemma {:induction false} AllBuiltSnoc(boxes: seq<BoxModel>, cells: seq<Generated>, filters: Filters,
                     names: seq<string>, box: BoxModel, g: Generated, name: string)
    requires |boxes| == |cells| == |names| && AllBuilt(boxes, cells, filters, names) && AtOrigin(boxes)
    requires Built(box, g, filters, name) && box.position == Origin
    ensures AllBuilt(boxes + [box], cells + [g], filters, names + [name]) && AtOrigin(boxes + [box])
  {
  }

  /** Registering the same names in the registry and in the bodies keeps
      every body's name registered, and loses no key of either. */
  lemma {:induction false} RegisteredTogether<V, W>(small: map<string, V>, large: map<string, W>,
                                 names: seq<string>, vs: seq<V>, ws: seq<W>)
    requires |names| == |vs| == |ws| && small.Keys <= large.Keys
    ensures Registered(small, names, vs).Keys <= Registered(large, names, ws).Keys
    ensures small.Keys <= Registered(small, names, vs).Keys
    ensures large.Keys <= Registered(large, names, ws).Keys
  {
    RegisteredGrows(small, names, vs);
    RegisteredGrows(large, names, ws);
    RegisteredMonotone(small, large, names, vs, ws);
  }

  /** The boxes built under the names of one parse are distinct objects,
      since those names are. */
  lemma {:induction false} NewBoxesDistinct(boxes: seq<BoxModel>, cells: seq<Generated>, filters: Filters, first: nat)
    requires |boxes| == |cells| && AllBuilt(boxes, cells, filters, NewNames(cells, first))
    ensures NoRepeats(boxes)
  {
    NewNamesDistinct(cells, first);
    forall j, k | 0 <= j < k < |boxes|
      ensures boxes[j] != boxes[k]
    {
      assert Built(boxes[j], cells[j], filters, NewNames(cells, first)[j]);
      assert Built(boxes[k], cells[k], filters, NewNames(cells, first)[k]);
    }
    ApartNoRepeats(boxes);
  }

  /** The size, name, record and filters of `box` are as they were: at most
      its position and its `consumed` mark have changed. */
  twostate predicate Fixed(box: BoxModel)
    reads box
  {
    && box.dimensions == old(box.dimensions)
    && box.name == old(box.name)
    && box.data == old(box.data)
    && box.filters == old(box.filters)
  }

  /** Nothing but the position of `box` has changed. */
  twostate predicate Kept(box: BoxModel)
    reads box
  {
    Fixed(box) && box.consumed == old(box.consumed)
  }

  class Visualization {
    /** Every cell on display, by mesh name. */
    var cellTracker: map<string, BoxModel>
    /** The physics body of every cell that has one, by mesh name. */
    var physicalItems: map<string, Body>
    /** The id of the cell last selected, or `null`. */
    var activeCell: Option<string>
    /** The timestamp of the previous frame; 0.0 stands for "not set". */
    var lastUpdate: real
    /** The counter behind `cellCounter`. */
    const counter: CellCounter

    /** What the bookkeeping keeps true between steps: every body belongs
        to a registered cell, which is what lets `_updatePhysics` look each
        one up; every registered name carries a serial the counter has
        already handed out; the active cell, if any, is registered and
        consumed; and every cell is registered under its own mesh name. */
    ghost predicate Valid()
      reads this`cellTracker, this`physicalItems, this`activeCell, counter`current
      reads cellTracker.Values`name, cellTracker.Values`consumed
    {
      Bodied() && Registry() && Labelled()
    }

    /** Every body belongs to a registered cell. */
    ghost predicate Bodied()
      reads this`cellTracker, this`physicalItems
    {
      physicalItems.Keys <= cellTracker.Keys
    }

    /** The part of `Valid` that involves no box. */
    ghost predicate Registry()
      reads this`cellTracker, this`activeCell, counter`current
    {
      && (forall id {:trigger SerialOf(id)} :: id in cellTracker ==> SerialOf(id) <= counter.current)
      && (activeCell.Some? ==> activeCell.value in cellTracker)
    }

    /** The part of `Valid` that reads the boxes' names and marks. */
    ghost predicate Labelled()
      reads this`cellTracker, this`activeCell, cellTracker.Values`name, cellTracker.Values`consumed
    {
      && (forall id :: id in cellTracker ==> cellTracker[id].name == id)
      && (activeCell.Some? && activeCell.value in cellTracker ==> cellTracker[activeCell.value].consumed)
    }

    /** The box registered under `id`, as a set (empty when there is none). */
    function Tracked(id: string): set<BoxModel>
      reads this
    {
      if id in cellTracker then {cellTracker[id]} else {}
    }

    /** The state `start` leaves before the first fetch: no cells, no
        bodies, no active cell, no previous frame, and a fresh counter. */
    constructor ()
      ensures Valid()
      ensures cellTracker == map[] && physicalItems == map[]
      ensures activeCell == None && lastUpdate == 0.0
      ensures fresh(counter) && counter.current == 1
    {
      cellTracker := map[];
      physicalItems := map[];
      activeCell := None;
      lastUpdate := 0.0;
      counter := new CellCounter();
    }

    /** `_generateCell`: no box for a rectangle of no area, and no counter
        value spent on it; otherwise a new, unconsumed box with the
        rectangle's box dimensions and record, named after the record and the
        next counter value. */
    method GenerateCell(cell: PartitionCell, m: MathLib) returns (box: BoxModel?)
      requires PositiveRoots(m)
      modifies counter
      ensures box == null <==> Area(cell) <= 0.0
      ensures box == null ==> counter.current == old(counter.current)
      ensures box != null ==>
        && fresh(box)
        && counter.current == old(counter.current) + 1
        && Some(box.dimensions) == CellDimensions(cell, m)
        && box.dimensions.width >= box.dimensions.depth
        && box.data == cell.data
        && box.name == MeshName(cell.data.kind, cell.data.id, counter.current)
        && !box.consumed && box.position == Origin && box.filters == map[]
    {
      match CellDimensions(cell, m)
      case None =>
        box := null;
      case Some(d) =>
        box := new BoxModel();
        box.Start(d.width, d.height, d.depth, cell.data);
        box.data := cell.data;
        var serial := counter.Next();
        box.name := MeshName(cell.data.kind, cell.data.id, serial);
    }

    /** `_parseData`: builds the boxes of `ParsedCells` in order, numbering
        them with the next counter values, and registers each under its mesh
        name with `filters`, one after the other. */
    method ParseData(results: seq<SpendingRecord>, filters: Filters, containingVolume: real,
                     m: MathLib, treemap: Treemap)
      returns (boxes: seq<BoxModel>, ghost cells: seq<Generated>, ghost names: seq<string>)
      requires Valid() && PositiveRoots(m)
      modifies this`cellTracker, counter
      ensures Valid()
      ensures cells == ParsedCells(results, containingVolume, m, treemap)
      ensures names == NewNames(cells, old(counter.current) + 1)
      ensures |boxes| == |cells| == |names| && counter.current == old(counter.current) + |cells|
      ensures cellTracker == Registered(old(cellTracker), names, boxes)
      ensures forall j :: 0 <= j < |boxes| ==> fresh(boxes[j])
      ensures AllBuilt(boxes, cells, filters, names) && AtOrigin(boxes)
      ensures physicalItems == old(physicalItems) && activeCell == old(activeCell)
      ensures lastUpdate == old(lastUpdate)
    {
      boxes, cells, names := [], [], [];
      var values := Truncate(results);
      if |values| == 0 {
        return;
      }
      var leaves := Reverse(Leaves(treemap, values, Sqrt(m, containingVolume)));
      boxes, cells, names := RegisterLeaves(leaves, filters, m);
    }

    /** The `reduce` of `_parseData` over the reversed leaves: one box per
        visible leaf, in order, each registered as it is built. */
    method RegisterLeaves(leaves: seq<PartitionCell>, filters: Filters, m: MathLib)
      returns (boxes: seq<BoxModel>, ghost cells: seq<Generated>, ghost names: seq<string>)
      requires Valid() && PositiveRoots(m)
      modifies this`cellTracker, counter
      ensures Valid()
      ensures cells == VisibleCells(leaves, m) && names == NewNames(cells, old(counter.current) + 1)
      ensures |boxes| == |cells| == |names| && counter.current == old(counter.current) + |boxes|
      ensures cellTracker == Registered(old(cellTracker), names, boxes)
      ensures forall j :: 0 <= j < |boxes| ==> fresh(boxes[j])
      ensures AllBuilt(boxes, cells, filters, names) && AtOrigin(boxes)
      ensures physicalItems == old(physicalItems) && activeCell == old(activeCell)
      ensures lastUpdate == old(lastUpdate)
    {
      ghost var first := counter.current + 1;
      ghost var tracker0 := cellTracker;
      boxes, cells, names := [], [], [];
      var i := 0;
      while i < |leaves|
        invariant 0 <= i <= |leaves|
        invariant cells == VisibleCells(leaves[..i], m) && names == NewNames(cells, first)
        invariant |boxes| == |cells| == |names|
        invariant counter.current == first - 1 + |boxes|
        invariant cellTracker == Registered(tracker0, names, boxes)
        invariant forall j :: 0 <= j < |boxes| ==> fresh(boxes[j])
        invariant AllBuilt(boxes, cells, filters, names) && AtOrigin(boxes)
        invariant Valid()
      {
        ghost var prev := boxes;
        boxes, cells, names := RegisterLeaf(leaves, i, filters, m, first, tracker0, boxes, cells, names);
        forall j | 0 <= j < |boxes|
          ensures fresh(boxes[j])
        {
          if j < |prev| {
            assert boxes[j] == prev[j];
            assert fresh(prev[j]);
          } else {
            assert j == |prev|;
          }
        }
        i := i + 1;
      }
      TakeAll(leaves, i);
    }

    /** One step of the `reduce` of `_parseData`: leaf `i` adds its box, if
        it has one, to those built so far. A proof-only layer: it restates the
        loop invariant at `i` and `i + 1` around the callback `AppendLeaf`. */
    method RegisterLeaf(leaves: seq<PartitionCell>, i: nat, filters: Filters, m: MathLib,
                        ghost first: nat, ghost tracker0: map<string, BoxModel>,
                        boxes: seq<BoxModel>, ghost cells: seq<Generated>, ghost names: seq<string>)
      returns (boxes': seq<BoxModel>, ghost cells': seq<Generated>, ghost names': seq<string>)
      requires i < |leaves| && PositiveRoots(m)
      requires cells == VisibleCells(leaves[..i], m) && names == NewNames(cells, first)
      requires |boxes| == |cells| == |names|
      requires counter.current == first - 1 + |boxes|
      requires cellTracker == Registered(tracker0, names, boxes)
      requires AllBuilt(boxes, cells, filters, names) && AtOrigin(boxes)
      requires Valid()
      modifies this`cellTracker, counter
      ensures cells' == VisibleCells(leaves[..i + 1], m) && names' == NewNames(cells', first)
      ensures |boxes'| == |cells'| == |names'|
      ensures counter.current == first - 1 + |boxes'|
      ensures cellTracker == Registered(tracker0, names', boxes')
      ensures |boxes| <= |boxes'| <= |boxes| + 1
      ensures forall j :: 0 <= j < |boxes| ==> boxes'[j] == boxes[j]
      ensures |boxes'| == |boxes| + 1 ==> fresh(boxes'[|boxes|])
      ensures AllBuilt(boxes', cells', filters, names') && AtOrigin(boxes')
      ensures Valid()
    {
      VisibleCellsStep(leaves, i, m);
      ghost var size := CellDimensions(leaves[i], m);
      if size.Some? {
        NewNamesSnoc(cells, Generated(leaves[i], size.value), first);
      }
      boxes', cells', names' := AppendLeaf(leaves[i], filters, m, first, tracker0, boxes, cells, names);
    }

    /** The `reduce` callback of `_parseData` with its accumulator: the box
        of `leaf`, if it has one, joins the boxes, leaves and names so far. */
    method AppendLeaf(leaf: PartitionCell, filters: Filters, m: MathLib,
                      ghost first: nat, ghost tracker0: map<string, BoxModel>,
                      boxes: seq<BoxModel>, ghost cells: seq<Generated>, ghost names: seq<string>)
      returns (boxes': seq<BoxModel>, ghost cells': seq<Generated>, ghost names': seq<string>)
      requires PositiveRoots(m) && Valid()
      requires |boxes| == |cells| == |names|
      requires counter.current == first - 1 + |boxes|
      requires cellTracker == Registered(tracker0, names, boxes)
      requires AllBuilt(boxes, cells, filters, names) && AtOrigin(boxes)
      modifies this`cellTracker, counter
      ensures CellDimensions(leaf, m).None? ==> cells' == cells && names' == names
      ensures CellDimensions(leaf, m).Some? ==>
        && cells' == cells + [Generated(leaf, CellDimensions(leaf, m).value)]
        && names' == names + [MeshName(leaf.data.kind, leaf.data.id, first + |cells|)]
      ensures |boxes'| == |cells'| == |names'|
      ensures counter.current == first - 1 + |boxes'|
      ensures cellTracker == Registered(tracker0, names', boxes')
      ensures |boxes| <= |boxes'| <= |boxes| + 1
      ensures forall j :: 0 <= j < |boxes| ==> boxes'[j] == boxes[j]
      ensures |boxes'| == |boxes| + 1 ==> fresh(boxes'[|boxes|])
      ensures AllBuilt(boxes', cells', filters, names') && AtOrigin(boxes')
      ensures Valid()
    {
      boxes', cells', names' := boxes, cells, names;
      var box := AddCell(leaf, filters, m);
      if box != null {
        ghost var g := Generated(leaf, CellDimensions(leaf, m).value);
        ghost var name := MeshName(leaf.data.kind, leaf.data.id, first + |cells|);
        RegisteredSnoc(tracker0, names, boxes, name, box);
        AllBuiltSnoc(boxes, cells, filters, names, box, g, name);
        var built: BoxModel := box;
        boxes' := boxes + [built];
        cells' := cells + [g];
        names' := names + [name];
      }
    }

    /** The `reduce` callback of `_parseData` for one leaf: its box, if it
        has one, registered under its mesh name with `filters`. */
    method AddCell(cell: PartitionCell, filters: Filters, m: MathLib) returns (box: BoxModel?)
      requires Valid() && PositiveRoots(m)
      modifies this`cellTracker, counter
      ensures Valid()
      ensures box == null <==> CellDimensions(cell, m).None?
      ensures box == null ==> cellTracker == old(cellTracker) && counter.current == old(counter.current)
      ensures box != null ==>
        && fresh(box) && counter.current == old(counter.current) + 1
        && Built(box, Generated(cell, CellDimensions(cell, m).value), filters,
                 MeshName(cell.data.kind, cell.data.id, counter.current))
        && box.position == Origin
        && box.name !in old(cellTracker)
        && cellTracker == old(cellTracker)[box.name := box]
      ensures physicalItems == old(physicalItems) && activeCell == old(activeCell)
      ensures lastUpdate == old(lastUpdate)
    {
      AreaNonNegative(cell);
      box := GenerateCell(cell, m);
      if box != null {
        box.filters := filters;
        SerialOfMeshName(cell.data.kind, cell.data.id, counter.current);
        cellTracker := cellTracker[box.name := box];
      }
    }

    /** `_parseRoot`: registers the boxes of the root level's treemap with no
        filters, puts each where `RootPositions` says, and gives each a
        static body there. The row-sets are the two local row arrays, grown
        and updated one box at a time as the `forEach` does. */
    method ParseRoot(results: seq<SpendingRecord>, m: MathLib, treemap: Treemap)
      returns (ghost boxes: seq<BoxModel>, ghost cells: seq<Generated>, ghost names: seq<string>)
      requires Valid() && PositiveRoots(m)
      modifies this, counter
      ensures Valid()
      ensures cells == ParsedCells(results, RootVolume, m, treemap)
      ensures names == NewNames(cells, old(counter.current) + 1)
      ensures |boxes| == |cells| == |names| && counter.current == old(counter.current) + |cells|
      ensures cellTracker == Registered(old(cellTracker), names, boxes)
      ensures physicalItems == Registered(old(physicalItems), names, RootBodies(DimensionsOf(cells)))
      ensures old(cellTracker).Keys <= cellTracker.Keys && old(physicalItems).Keys <= physicalItems.Keys
      ensures forall j :: 0 <= j < |boxes| ==> fresh(boxes[j])
      ensures AllBuilt(boxes, cells, map[], names)
      ensures forall j :: 0 <= j < |boxes| ==> boxes[j].position == RootPositions(DimensionsOf(cells))[j]
      ensures activeCell == old(activeCell) && lastUpdate == old(lastUpdate)
    {
      var parsed;
      parsed, cells, names := ParseData(results, map[], RootVolume, m, treemap);
      boxes := parsed;
      SettleRoots(parsed, cells, names, old(cellTracker), old(counter.current) + 1);
    }

    /** The part of `_parseRoot` after `_parseData`: the boxes just
        registered, which are distinct since their names are, are placed and
        given their bodies. A proof-only layer, like `SettleDistinct`: it
        derives the distinctness of the boxes from that of their names. */
    method SettleRoots(parsed: seq<BoxModel>, ghost cells: seq<Generated>, ghost names: seq<string>,
                       ghost tracker0: map<string, BoxModel>, ghost first: nat)
      requires |parsed| == |cells| && names == NewNames(cells, first)
      requires Valid() && physicalItems.Keys <= tracker0.Keys
      requires cellTracker == Registered(tracker0, names, parsed)
      requires AllBuilt(parsed, cells, map[], names)
      modifies this`physicalItems, parsed`position
      ensures Valid()
      ensures physicalItems == Registered(old(physicalItems), names, RootBodies(DimensionsOf(cells)))
      ensures tracker0.Keys <= cellTracker.Keys && old(physicalItems).Keys <= physicalItems.Keys
      ensures AllBuilt(parsed, cells, map[], names)
      ensures forall j :: 0 <= j < |parsed| ==> parsed[j].position == RootPositions(DimensionsOf(cells))[j]
    {
      NewBoxesDistinct(parsed, cells, map[], first);
      SettleDistinct(parsed, cells, names, tracker0);
    }

    /** Places distinct freshly registered boxes and gives them their
        bodies. A proof-only layer over the `forEach` (`PlaceRoots`): it
        carries the registry's keys across it. */
    method SettleDistinct(parsed: seq<BoxModel>, ghost cells: seq<Generated>, ghost names: seq<string>,
                       ghost tracker0: map<string, BoxModel>)
      requires |parsed| == |cells| == |names| && NoRepeats(parsed)
      requires Valid() && physicalItems.Keys <= tracker0.Keys
      requires cellTracker == Registered(tracker0, names, parsed)
      requires AllBuilt(parsed, cells, map[], names)
      modifies this`physicalItems, parsed`position
      ensures Valid()
      ensures physicalItems == Registered(old(physicalItems), names, RootBodies(DimensionsOf(cells)))
      ensures tracker0.Keys <= cellTracker.Keys && old(physicalItems).Keys <= physicalItems.Keys
      ensures AllBuilt(parsed, cells, map[], names)
      ensures forall j :: 0 <= j < |parsed| ==> parsed[j].position == RootPositions(DimensionsOf(cells))[j]
    {
      ghost var dims := DimensionsOf(cells);
      ghost var bodies := RootBodies(dims);
      RegisteredTogether(physicalItems, tracker0, names, bodies, parsed);
      PlaceRoots(parsed, dims, names);
    }

    /** The `forEach` of `_parseRoot`: every box, in order, is placed by the
        two row-sets and given a static body of its size at that place,
        under its name. */
    method PlaceRoots(parsed: seq<BoxModel>, ghost dims: seq<Dimensions>, ghost names: seq<string>)
      requires |parsed| == |dims| == |names|
      requires forall j :: 0 <= j < |parsed| ==> parsed[j].dimensions == dims[j] && parsed[j].name == names[j]
      requires NoRepeats(parsed) && Registry() && Labelled()
      modifies this`physicalItems, parsed`position
      ensures Registry() && Labelled()
      ensures physicalItems == Registered(old(physicalItems), names, RootBodies(dims))
      ensures forall j :: 0 <= j < |parsed| ==> parsed[j].position == RootPositions(dims)[j]
    {
      ghost var bodies: seq<Body> := [];
      var frontCells: seq<Row> := [];
      var backCells: seq<Row> := [];
      var i := 0;
      while i < |parsed|
        invariant 0 <= i <= |parsed| && |bodies| == i
        invariant Registry() && Labelled()
        invariant (frontCells, backCells) == Walk(dims, i)
        invariant physicalItems == Registered(old(physicalItems), names[..i], bodies)
        invariant forall j :: 0 <= j < i ==> parsed[j].position == WalkPosition(dims, j)
        invariant forall j :: 0 <= j < i ==> bodies[j] == Body(dims[j], WalkPosition(dims, j), false)
      {
        frontCells, backCells, bodies := PlaceRoot(parsed, dims, names, i, frontCells, backCells, old(physicalItems), bodies);
        i := i + 1;
      }
      TakeAll(names, i);
      forall j | 0 <= j < |parsed|
        ensures WalkPosition(dims, j) == RootPositions(dims)[j]
      {
        WalkPlacesRoots(dims, j);
      }
      assert bodies == RootBodies(dims);
    }

    /** Puts box `i` where its row-set places it and records a static body
        of its size there; no cell is registered, renamed or marked by it. */
    method SetRoot(box: BoxModel, ghost dims: seq<Dimensions>, i: nat, front: seq<Row>, back: seq<Row>)
      returns (front': seq<Row>, back': seq<Row>)
      requires i < |dims| && box.dimensions == dims[i]
      requires (front, back) == Walk(dims, i)
      requires Registry() && Labelled()
      modifies this`physicalItems, box`position
      ensures Registry() && Labelled()
      ensures (front', back') == Walk(dims, i + 1)
      ensures box.position == WalkPosition(dims, i)
      ensures physicalItems == old(physicalItems)[box.name := Body(dims[i], WalkPosition(dims, i), false)]
    {
      var position;
      front', back', position := PlaceRootBox(dims, i, box.dimensions, front, back);
      box.position := position;
      physicalItems := physicalItems[box.name := Body(box.dimensions, position, false)];
    }

    /** One step of the `forEach` of `_parseRoot`: box `i` goes where its
        row-set puts it and gets a static body of its size there; the boxes
        before it stay where they were put. A proof-only layer: it restates
        the loop invariant at `i` and `i + 1` around `SetRoot`. */
    method PlaceRoot(parsed: seq<BoxModel>, ghost dims: seq<Dimensions>, ghost names: seq<string>, i: nat,
                     front: seq<Row>, back: seq<Row>, ghost phys0: map<string, Body>, ghost bodies: seq<Body>)
      returns (front': seq<Row>, back': seq<Row>, ghost bodies': seq<Body>)
      requires |parsed| == |dims| == |names| && i < |parsed| && |bodies| == i
      requires parsed[i].dimensions == dims[i] && parsed[i].name == names[i]
      requires NoRepeats(parsed) && Registry() && Labelled()
      requires (front, back) == Walk(dims, i)
      requires physicalItems == Registered(phys0, names[..i], bodies)
      requires forall j :: 0 <= j < i ==> parsed[j].position == WalkPosition(dims, j)
      requires forall j :: 0 <= j < i ==> bodies[j] == Body(dims[j], WalkPosition(dims, j), false)
      modifies this`physicalItems, parsed`position
      ensures |bodies'| == i + 1 && Registry() && Labelled()
      ensures (front', back') == Walk(dims, i + 1)
      ensures physicalItems == Registered(phys0, names[..i + 1], bodies')
      ensures forall j :: 0 <= j < i + 1 ==> parsed[j].position == WalkPosition(dims, j)
      ensures forall j :: 0 <= j < i + 1 ==> bodies'[j] == Body(dims[j], WalkPosition(dims, j), false)
    {
      ghost var body := Body(dims[i], WalkPosition(dims, i), false);
      NoRepeatsAt(parsed, i);
      RegisteredSnoc(phys0, names[..i], bodies, names[i], body);
      TakeOneMore(names, i);
      bodies' := bodies + [body];
      front', back' := SetRoot(parsed[i], dims, i, front, back);
    }

    /** `_parseDepth`: replaces the active cell by the boxes of its children.
        The children's treemap covers the parent's volume (width × height ×
        depth); they are registered with `filters`, placed where the parent
        is, and given movable bodies dropped from `ThrowHeight`; the parent
        loses its registration and its body, and no cell is active any more.
        Without an active cell the source fails on its first line: nothing
        changes. */
    method ParseDepth(results: seq<SpendingRecord>, filters: Filters, m: MathLib, treemap: Treemap)
      returns (ghost boxes: seq<BoxModel>, ghost cells: seq<Generated>, ghost names: seq<string>)
      requires Valid() && PositiveRoots(m)
      modifies this, counter
      ensures Valid()
      ensures activeCell == None && lastUpdate == old(lastUpdate)
      ensures old(activeCell).None? ==>
        && cellTracker == old(cellTracker) && physicalItems == old(physicalItems)
        && counter.current == old(counter.current) && boxes == []
      ensures old(activeCell).Some? ==>
        cells == ParsedCells(results, Volume(old(cellTracker[activeCell.value].dimensions)), m, treemap)
      ensures old(activeCell).Some? ==> names == NewNames(cells, old(counter.current) + 1)
      ensures |boxes| == |cells| == |names| && counter.current == old(counter.current) + |cells|
      ensures old(activeCell).Some? ==>
        cellTracker == Registered(old(cellTracker), names, boxes) - {old(activeCell).value}
      ensures old(activeCell).Some? ==>
        physicalItems == Registered(old(physicalItems) - {old(activeCell).value}, names,
                                    DepthBodies(DimensionsOf(cells), old(cellTracker[activeCell.value].position)))
      ensures old(activeCell).Some? ==> old(activeCell).value !in cellTracker
      ensures forall j :: 0 <= j < |boxes| ==> fresh(boxes[j])
      ensures AllBuilt(boxes, cells, filters, names)
      ensures old(activeCell).Some? ==> forall j :: 0 <= j < |boxes| ==>
                boxes[j].position == old(cellTracker[activeCell.value].position)
    {
      boxes, cells, names := [], [], [];
      if activeCell.None? {
        return;
      }
      var id := activeCell.value;
      var active := cellTracker[id];
      var parentVolume := Volume(active.dimensions);
      var parsed;
      parsed, cells, names := ParseData(results, filters, parentVolume, m, treemap);
      boxes := parsed;
      SettleDepth(parsed, cells, names, old(cellTracker), old(counter.current) + 1, id, active);
    }

    /** The part of `_parseDepth` after `_parseData`: the parent loses its
        body, each child is placed where the parent is and given a movable
        body, and the parent is unregistered and no longer active. */
    method SettleDepth(parsed: seq<BoxModel>, ghost cells: seq<Generated>, ghost names: seq<string>,
                       ghost tracker0: map<string, BoxModel>, ghost first: nat, id: string, active: BoxModel)
      requires |parsed| == |cells| && names == NewNames(cells, first)
      requires Valid() && activeCell == Some(id) && active.name == id
      requires id in tracker0 && SerialOf(id) < first
      requires physicalItems.Keys <= tracker0.Keys
      requires cellTracker == Registered(tracker0, names, parsed)
      requires forall j :: 0 <= j < |parsed| ==> parsed[j].dimensions == cells[j].dimensions && parsed[j].name == names[j]
      modifies this`physicalItems, this`cellTracker, this`activeCell, parsed`position
      ensures Valid() && activeCell == None
      ensures cellTracker == Registered(tracker0, names, parsed) - {id}
      ensures physicalItems == Registered(old(physicalItems) - {id}, names,
                                         DepthBodies(DimensionsOf(cells), old(active.position)))
      ensures forall j :: 0 <= j < |parsed| ==> parsed[j].position == old(active.position)
    {
      ghost var dims := DimensionsOf(cells);
      var spot := active.position;
      NewNamesAreFresh(cells, first, {id});
      DepthKeys(physicalItems, tracker0, names, DepthBodies(dims, spot), parsed, id);
      RemoveBody(active.name);
      DropChildren(parsed, dims, names, spot);
      Retire(id);
    }

    /** The parent's body, if it has one, is removed from the world. */
    method RemoveBody(name: string)
      requires Registry() && Labelled()
      modifies this`physicalItems
      ensures Registry() && Labelled()
      ensures physicalItems == old(physicalItems) - {name}
    {
      if name in physicalItems {
        physicalItems := physicalItems - {name};
      } else {
        assert physicalItems == physicalItems - {name};
      }
    }

    /** The end of `_parseDepth`: the parent is unregistered and no cell is
        active any more. */
    method Retire(id: string)
      requires Registry() && Labelled() && activeCell == Some(id)
      requires physicalItems.Keys <= (cellTracker - {id}).Keys
      modifies this`cellTracker, this`activeCell
      ensures Valid() && activeCell == None
      ensures cellTracker == old(cellTracker) - {id}
    {
      cellTracker := cellTracker - {id};
      activeCell := None;
    }

    /** The `forEach` of `_parseDepth`: every child, in order, is put at
        `spot` and given a movable body of its size above it. */
    method DropChildren(parsed: seq<BoxModel>, ghost dims: seq<Dimensions>, ghost names: seq<string>, spot: Vec3)
      requires |parsed| == |dims| == |names|
      requires forall j :: 0 <= j < |parsed| ==> parsed[j].dimensions == dims[j] && parsed[j].name == names[j]
      requires Registry() && Labelled()
      modifies this`physicalItems, parsed`position
      ensures Registry() && Labelled()
      ensures physicalItems == Registered(old(physicalItems), names, DepthBodies(dims, spot))
      ensures forall j :: 0 <= j < |parsed| ==> parsed[j].position == spot
    {
      ghost var bodies := DepthBodies(dims, spot);
      var i := 0;
      while i < |parsed|
        invariant 0 <= i <= |parsed|
        invariant Registry() && Labelled()
        invariant physicalItems == Registered(old(physicalItems), names[..i], bodies[..i])
        invariant forall j :: 0 <= j < i ==> parsed[j].position == spot
      {
        DropChild(parsed, dims, names, spot, i, old(physicalItems));
        i := i + 1;
      }
      TakeAll(names, i);
      TakeAll(bodies, i);
    }

    /** One step of the `forEach` of `_parseDepth`: child `i` joins the ones
        before it at `spot`. A proof-only layer: it restates the loop
        invariant at `i` and `i + 1` around `SetChild`. */
    method DropChild(parsed: seq<BoxModel>, ghost dims: seq<Dimensions>, ghost names: seq<string>, spot: Vec3,
                     i: nat, ghost phys0: map<string, Body>)
      requires |parsed| == |dims| == |names| && i < |parsed|
      requires parsed[i].dimensions == dims[i] && parsed[i].name == names[i]
      requires Registry() && Labelled()
      requires physicalItems == Registered(phys0, names[..i], DepthBodies(dims, spot)[..i])
      requires forall j :: 0 <= j < i ==> parsed[j].position == spot
      modifies this`physicalItems, parsed`position
      ensures Registry() && Labelled()
      ensures physicalItems == Registered(phys0, names[..i + 1], DepthBodies(dims, spot)[..i + 1])
      ensures forall j :: 0 <= j < i + 1 ==> parsed[j].position == spot
    {
      RegisteredPrefix(phys0, names, DepthBodies(dims, spot), i);
      SetChild(parsed[i], spot);
    }

    /** Puts one child at `spot` with a movable body of its size dropped from
        `ThrowHeight` above it; no cell is registered, renamed or marked by
        it. */
    method SetChild(box: BoxModel, spot: Vec3)
      requires Registry() && Labelled()
      modifies this`physicalItems, box`position
      ensures Registry() && Labelled()
      ensures box.position == spot
      ensures physicalItems == old(physicalItems)[box.name :=
                Body(box.dimensions, Vec3(spot.x, ThrowHeight, spot.z), true)]
    {
      box.position := spot;
      physicalItems := physicalItems[box.name := Body(box.dimensions, Vec3(spot.x, ThrowHeight, spot.z), true)];
    }

    /** The `onGazeLong` handler of the cell `id`: a consumed cell ignores
        the gaze; any other registered cell is selected. Whether another
        cell is active is not looked at. */
    method GazeLong(id: string)
      requires Valid()
      modifies this, Tracked(id)
      ensures Valid()
      ensures cellTracker == old(cellTracker) && physicalItems == old(physicalItems)
      ensures lastUpdate == old(lastUpdate)
      ensures id in cellTracker && old(cellTracker[id].consumed) ==>
                activeCell == old(activeCell) && cellTracker[id].consumed
      ensures id in cellTracker && !old(cellTracker[id].consumed) ==>
                activeCell == Some(id) && cellTracker[id].consumed
      ensures id !in cellTracker ==> activeCell == old(activeCell)
      ensures id in cellTracker ==> cellTracker[id].position == old(cellTracker[id].position)
      ensures id in cellTracker ==> Fixed(cellTracker[id])
    {
      if id !in cellTracker || cellTracker[id].consumed {
        return;
      }
      SelectCell(id);
    }

    /** `_selectCell`: marks the cell consumed and makes it the active cell.
        A cell that is not registered makes the source fail before any
        change. */
    method SelectCell(id: string)
      requires Valid()
      modifies this, Tracked(id)
      ensures Valid()
      ensures cellTracker == old(cellTracker) && physicalItems == old(physicalItems)
      ensures lastUpdate == old(lastUpdate)
      ensures id in cellTracker ==> cellTracker[id].consumed && activeCell == Some(id)
      ensures id in cellTracker ==> cellTracker[id].position == old(cellTracker[id].position)
      ensures id in cellTracker ==> Fixed(cellTracker[id])
      ensures id !in cellTracker ==> activeCell == old(activeCell)
    {
      if id !in cellTracker {
        return;
      }
      cellTracker[id].consumed := true;
      activeCell := Some(id);
    }

    /** The completion of the selection tween: the cell rests at
        `ThrowHeight` and `_diveDeeper` decides, from the cell's record and
        filters, whether to restore it or which level to fetch with which
        filters. A cell no longer registered makes the source fail when it
        looks up the record: `None`. */
    method SelectComplete(id: string) returns (next: Option<Dive>)
      requires Valid()
      modifies Tracked(id)
      ensures Valid()
      ensures id !in cellTracker ==> next == None
      ensures id in cellTracker ==>
        var box := cellTracker[id];
        && next == Some(DiveDeeper(old(box.data), old(box.filters)))
        && box.position == old(box.position).(y := ThrowHeight)
        && Kept(box)
    {
      if id !in cellTracker {
        return None;
      }
      var box := cellTracker[id];
      box.position := box.position.(y := ThrowHeight);
      next := Some(DiveDeeper(box.data, box.filters));
    }

    /** The completion of `_restoreCell`'s tween: the cell is back on the
        floor (the tween's last frame sets y to half its height), no longer
        consumed, and no cell is active. */
    method RestoreComplete(id: string)
      requires Valid()
      modifies this, Tracked(id)
      ensures Valid()
      ensures cellTracker == old(cellTracker) && physicalItems == old(physicalItems)
      ensures lastUpdate == old(lastUpdate)
      ensures id in cellTracker ==>
        && !cellTracker[id].consumed && activeCell == None
        && cellTracker[id].position == old(cellTracker[id].position).(y := old(cellTracker[id].dimensions.height) / 2.0)
      ensures id in cellTracker ==> Fixed(cellTracker[id])
      ensures id !in cellTracker ==> activeCell == old(activeCell)
    {
      if id !in cellTracker {
        return;
      }
      var box := cellTracker[id];
      box.position := box.position.(y := box.dimensions.height / 2.0);
      box.consumed := false;
      activeCell := None;
    }

    /** The continuation of `_loadData` once the response has arrived: the
        root level is parsed as the root and keeps every cell already shown;
        any other level replaces the active cell by its children and leaves
        no cell active. */
    method LoadComplete(level: string, filters: Filters, results: seq<SpendingRecord>,
                        m: MathLib, treemap: Treemap)
      requires Valid() && PositiveRoots(m)
      modifies this, counter
      ensures Valid()
      ensures level == RootLevel ==> activeCell == old(activeCell)
      ensures level == RootLevel ==> old(cellTracker).Keys <= cellTracker.Keys
      ensures level == RootLevel ==> old(physicalItems).Keys <= physicalItems.Keys
      ensures level != RootLevel ==> activeCell == None
      ensures level != RootLevel && old(activeCell).Some? ==> old(activeCell).value !in cellTracker
    {
      match RouteFor(level)
      case ParseRoot =>
        var _, _, _ := ParseRoot(results, m, treemap);
      case ParseDepth =>
        var _, _, _ := ParseDepth(results, filters, m, treemap);
    }

    /** `_updatePhysics`: the step handed to the physics world, the clock set
        to this frame, and every cell with a body moved to where the world
        says that body is (`bodyPosition`); other cells stay put. */
    method UpdatePhysics(timestamp: real, bodyPosition: string -> Vec3) returns (step: real)
      requires Valid()
      modifies this, cellTracker.Values
      ensures Valid()
      ensures step == FrameStep(old(lastUpdate), timestamp) && lastUpdate == timestamp
      ensures cellTracker == old(cellTracker) && physicalItems == old(physicalItems)
      ensures activeCell == old(activeCell)
      ensures forall id :: id in physicalItems ==> cellTracker[id].position == bodyPosition(id)
      ensures forall id :: id in cellTracker && id !in physicalItems ==>
                cellTracker[id].position == old(cellTracker[id].position)
      ensures forall id :: id in cellTracker ==> Kept(cellTracker[id])
    {
      step := 0.0;
      if lastUpdate == 0.0 {
        lastUpdate := timestamp;
      } else {
        step := timestamp - lastUpdate;
        lastUpdate := timestamp;
      }
      SyncBodies(bodyPosition);
    }

    /** The `forEach` over the keys of `physicalItems` in `_updatePhysics`: every cell
        with a body is moved to where its body is; the others stay. */
    method SyncBodies(bodyPosition: string -> Vec3)
      requires Valid()
      modifies cellTracker.Values
      ensures Valid()
      ensures forall id :: id in physicalItems ==> cellTracker[id].position == bodyPosition(id)
      ensures forall id :: id in cellTracker && id !in physicalItems ==>
                cellTracker[id].position == old(cellTracker[id].position)
      ensures forall id :: id in cellTracker ==> Kept(cellTracker[id])
    {
      var pending := physicalItems.Keys;
      while pending != {}
        invariant pending <= physicalItems.Keys
        invariant Valid()
        invariant forall id :: id in physicalItems && id !in pending ==>
                    cellTracker[id].position == bodyPosition(id)
        invariant forall id :: id in cellTracker && (id !in physicalItems || id in pending) ==>
                    cellTracker[id].position == old(cellTracker[id].position)
        invariant forall id :: id in cellTracker ==> Kept(cellTracker[id])
        decreases pending
      {
        var id :| id in pending;
        MoveCell(id, bodyPosition(id));
        pending := pending - {id};
      }
    }

    /** The body of the sync loop: the mesh of cell `id` is moved to `p`. */
    method MoveCell(id: string, p: Vec3)
      requires Valid() && id in cellTracker
      modifies Tracked(id)
      ensures Valid()
      ensures cellTracker[id].position == p
      ensures Kept(cellTracker[id])
    {
      cellTracker[id].position := p;
    }
  }
}
