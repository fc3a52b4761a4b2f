/** The placement rule of `_parseRoot` (js/app.js:313-364): boxes alternate
    between a front and a back row-set; each row-set fills rows left to
    right from x = -10 and opens a new row, further back, once the running x
    passes 10. `App.Visualization.ParseRoot` runs the rule as the source does,
    one box at a time on both row-sets, and is proved to agree with
    `RootPositions`, which places each row-set on its own. */
module RootLayout {
  import opened Types

  /** `maxDisplayWidth`: a row is full once its running x exceeds this. */
  const MaxDisplayWidth: real := 10.0
  /** The gap added between boxes in a row and between rows. */
  const Gap: real := 5.0
  /** The z of the first row of a row-set. */
  const FirstRowZ: real := 5.0

  /** A row record `{x, z, maxDepth}`: the x where the next box would go,
      the row's z and the depth of its deepest box. */
  datatype Row = Row(x: real, z: real, maxDepth: real)

  /** Where one box goes within its row-set; z is unsigned here. */
  datatype Slot = Slot(x: real, z: real)

  /** A row-set after some boxes: its rows and the slot of every box. */
  datatype RowSet = RowSet(rows: seq<Row>, slots: seq<Slot>)

  /** One box entering a row-set: the three branches of the `forEach` body. */
  function Place(rows: seq<Row>, d: Dimensions): (seq<Row>, Slot) {
    if rows == [] then
      ([Row(-MaxDisplayWidth + d.width, FirstRowZ, d.depth)], Slot(-MaxDisplayWidth, FirstRowZ))
    else
      var last := rows[|rows| - 1];
      if last.x > MaxDisplayWidth then
        var z := last.z + last.maxDepth + Gap;
        (rows + [Row(-MaxDisplayWidth + d.width, z, d.depth)], Slot(-MaxDisplayWidth, z))
      else
        var deepest := if d.depth > last.maxDepth then d.depth else last.maxDepth;
        (rows[..|rows| - 1] + [Row(last.x + Gap + d.width, last.z, deepest)], Slot(last.x, last.z))
  }

  /** The `forEach` body on one row-set, as the source runs it: it either
      starts the first row, opens a new row behind a full one, or appends
      to the last row in place (moving its x and deepening it if need be).
      It returns the updated rows and the unsigned slot the box takes. */
  method PlaceBox(rowRef: seq<Row>, d: Dimensions) returns (rows: seq<Row>, x: real, z: real)
    ensures (rows, Slot(x, z)) == Place(rowRef, d)
  {
    rows := rowRef;
    if |rows| == 0 {
      x, z := -MaxDisplayWidth, FirstRowZ;
      rows := [Row(-MaxDisplayWidth + d.width, FirstRowZ, d.depth)];
    } else if rows[|rows| - 1].x > MaxDisplayWidth {
      var last := rows[|rows| - 1];
      x, z := -MaxDisplayWidth, last.z + last.maxDepth + Gap;
      rows := rows + [Row(-MaxDisplayWidth + d.width, z, d.depth)];
    } else {
      var currentRow := rows[|rows| - 1];
      x, z := currentRow.x, currentRow.z;
      currentRow := currentRow.(x := currentRow.x + Gap + d.width);
      if d.depth > currentRow.maxDepth {
        currentRow := currentRow.(maxDepth := d.depth);
      }
      rows := rows[..|rows| - 1] + [currentRow];
    }
  }

  /** A row-set that receives the boxes `ds` in order. */
  function PlaceAll(ds: seq<Dimensions>): (r: RowSet)
    ensures |r.slots| == |ds|
    ensures r.rows == [] <==> ds == []
  {
    if ds == [] then RowSet([], [])
    else
      var before := PlaceAll(ds[..|ds| - 1]);
      var (rows, slot) := Place(before.rows, ds[|ds| - 1]);
      RowSet(rows, before.slots + [slot])
  }

  /** The boxes at even indices (the front row-set). */
  function Evens<T>(s: seq<T>): (r: seq<T>)
    ensures |r| == (|s| + 1) / 2
    ensures forall k :: 0 <= k < |r| ==> r[k] == s[2 * k]
  {
    seq((|s| + 1) / 2, k requires 0 <= k < (|s| + 1) / 2 => s[2 * k])
  }

  /** The boxes at odd indices (the back row-set). */
  function Odds<T>(s: seq<T>): (r: seq<T>)
    ensures |r| == |s| / 2
    ensures forall k :: 0 <= k < |r| ==> r[k] == s[2 * k + 1]
  {
    seq(|s| / 2, k requires 0 <= k < |s| / 2 => s[2 * k + 1])
  }

  /** The position of every root box: even indices in the front row-set with
      z negated, odd ones in the back row-set, each resting on the floor
      (y is half its height). */
  function RootPositions(ds: seq<Dimensions>): (ps: seq<Vec3>)
    ensures |ps| == |ds|
  {
    var front := PlaceAll(Evens(ds)).slots;
    var back := PlaceAll(Odds(ds)).slots;
    seq(|ds|, i requires 0 <= i < |ds| =>
      if i % 2 == 0 then Vec3(front[i / 2].x, ds[i].height / 2.0, -front[i / 2].z)
      else Vec3(back[i / 2].x, ds[i].height / 2.0, back[i / 2].z))
  }

  /** Earlier boxes keep their slots when more boxes arrive. */
  lemma {:induction false} PlaceAllPrefix(ds: seq<Dimensions>, m: nat)
    requires m <= |ds|
    ensures PlaceAll(ds[..m]).slots == PlaceAll(ds).slots[..m]
    decreases |ds|
  {
    if m < |ds| {
      var init := ds[..|ds| - 1];
      assert init[..m] == ds[..m];
      PlaceAllPrefix(init, m);
    } else {
      assert ds[..m] == ds;
    }
  }

  lemma {:induction false} EvensPrefix<T>(s: seq<T>, n: nat)
    requires n <= |s|
    ensures Evens(s[..n]) == Evens(s)[..(n + 1) / 2]
  {
  }

  lemma {:induction false} OddsPrefix<T>(s: seq<T>, n: nat)
    requires n <= |s|
    ensures Odds(s[..n]) == Odds(s)[..n / 2]
  {
  }

  /** A box arriving last leaves the earlier slots alone and adds its own. */
  lemma {:induction false} PlaceAllSnoc(ds: seq<Dimensions>, d: Dimensions)
    ensures var (rows, slot) := Place(PlaceAll(ds).rows, d);
            PlaceAll(ds + [d]) == RowSet(rows, PlaceAll(ds).slots + [slot])
  {
    assert (ds + [d])[..|ds|] == ds;
  }

  /** One step of the interleaved walk over both row-sets, for an even index:
      box `i` enters the front row-set, the back row-set is untouched, and the
      position produced is the one `RootPositions` gives it. */
  lemma {:induction false} FrontStep(ds: seq<Dimensions>, i: nat, rows: seq<Row>, slot: Slot)
    requires i < |ds| && i % 2 == 0
    requires (rows, slot) == Place(PlaceAll(Evens(ds[..i])).rows, ds[i])
    ensures PlaceAll(Evens(ds[..i + 1])).rows == rows
    ensures PlaceAll(Odds(ds[..i + 1])).rows == PlaceAll(Odds(ds[..i])).rows
    ensures RootPositions(ds)[i] == Vec3(slot.x, ds[i].height / 2.0, -slot.z)
  {
    OddsPrefix(ds, i);
    OddsPrefix(ds, i + 1);
    assert (i + 1) / 2 == i / 2;
    assert Odds(ds[..i + 1]) == Odds(ds[..i]);
    var slot' := SlotStep(ds, true, i);
    var front := PlaceAll(Evens(ds)).slots;
    assert front[i / 2] == slot' == slot;
    assert RootPositions(ds)[i] == Vec3(front[i / 2].x, ds[i].height / 2.0, -front[i / 2].z);
  }

  /** The same for an odd index and the back row-set. */
  lemma {:induction false} BackStep(ds: seq<Dimensions>, i: nat, rows: seq<Row>, slot: Slot)
    requires i < |ds| && i % 2 == 1
    requires (rows, slot) == Place(PlaceAll(Odds(ds[..i])).rows, ds[i])
    ensures PlaceAll(Odds(ds[..i + 1])).rows == rows
    ensures PlaceAll(Evens(ds[..i + 1])).rows == PlaceAll(Evens(ds[..i])).rows
    ensures RootPositions(ds)[i] == Vec3(slot.x, ds[i].height / 2.0, slot.z)
  {
    EvensPrefix(ds, i);
    EvensPrefix(ds, i + 1);
    assert (i + 2) / 2 == (i + 1) / 2;
    assert Evens(ds[..i + 1]) == Evens(ds[..i]);
    var slot' := SlotStep(ds, false, i);
    var back := PlaceAll(Odds(ds)).slots;
    assert back[i / 2] == slot' == slot;
    assert RootPositions(ds)[i] == Vec3(back[i / 2].x, ds[i].height / 2.0, back[i / 2].z);
  }

  /** The two row-sets (front, back) after the first `i` boxes of the
      `forEach`, walked in order as the source does: box `k` enters the front
      row-set when `k` is even and the back one otherwise. */
  function Walk(ds: seq<Dimensions>, i: nat): (seq<Row>, seq<Row>)
    requires i <= |ds|
    decreases i
  {
    if i == 0 then ([], [])
    else
      var prev := Walk(ds, i - 1);
      if (i - 1) % 2 == 0 then (Place(prev.0, ds[i - 1]).0, prev.1)
      else (prev.0, Place(prev.1, ds[i - 1]).0)
  }

  /** The position the walk gives box `i`: its slot in its row-set, resting
      on the floor, with z negated in front. */
  function WalkPosition(ds: seq<Dimensions>, i: nat): Vec3
    requires i < |ds|
  {
    if i % 2 == 0 then
      var slot := Place(Walk(ds, i).0, ds[i]).1;
      Vec3(slot.x, ds[i].height / 2.0, -slot.z)
    else
      var slot := Place(Walk(ds, i).1, ds[i]).1;
      Vec3(slot.x, ds[i].height / 2.0, slot.z)
  }

  /** The interleaved walk builds each row-set exactly as placing that
      row-set's boxes on their own would. */
  lemma {:induction false} WalkBuildsRowSets(ds: seq<Dimensions>, i: nat)
    requires i <= |ds|
    ensures Walk(ds, i) == (PlaceAll(Evens(ds[..i])).rows, PlaceAll(Odds(ds[..i])).rows)
    decreases i
  {
    if i > 0 {
      var k := i - 1;
      WalkBuildsRowSets(ds, k);
      if k % 2 == 0 {
        var p := Place(PlaceAll(Evens(ds[..k])).rows, ds[k]);
        FrontStep(ds, k, p.0, p.1);
        assert Walk(ds, i) == (p.0, Walk(ds, k).1);
      } else {
        var p := Place(PlaceAll(Odds(ds[..k])).rows, ds[k]);
        BackStep(ds, k, p.0, p.1);
        assert Walk(ds, i) == (Walk(ds, k).0, p.0);
      }
    } else {
      assert Evens(ds[..0]) == [] && Odds(ds[..0]) == [];
    }
  }

  /** The walk puts every box where `RootPositions` says. */
  lemma {:induction false} WalkPlacesRoots(ds: seq<Dimensions>, i: nat)
    requires i < |ds|
    ensures WalkPosition(ds, i) == RootPositions(ds)[i]
  {
    WalkBuildsRowSets(ds, i);
    if i % 2 == 0 {
      var p := Place(PlaceAll(Evens(ds[..i])).rows, ds[i]);
      FrontStep(ds, i, p.0, p.1);
    } else {
      var p := Place(PlaceAll(Odds(ds[..i])).rows, ds[i]);
      BackStep(ds, i, p.0, p.1);
    }
  }

  /** One iteration of the `forEach`: box `i`, of dimensions `d`, goes to
      the front row-set when `i` is even (with z negated) and to the back one
      otherwise, resting on the floor. */
  method PlaceRootBox(ghost ds: seq<Dimensions>, i: nat, d: Dimensions, front: seq<Row>, back: seq<Row>)
    returns (front': seq<Row>, back': seq<Row>, position: Vec3)
    requires i < |ds| && d == ds[i]
    requires (front, back) == Walk(ds, i)
    ensures (front', back') == Walk(ds, i + 1)
    ensures position == WalkPosition(ds, i)
  {
    var x, z;
    front', back' := front, back;
    if i % 2 == 0 {
      front', x, z := PlaceBox(front, d);
      z := -z;
    } else {
      back', x, z := PlaceBox(back, d);
    }
    position := Vec3(x, d.height / 2.0, z);
  }

  /** Box `i` of the walk is box `k = i / 2` of its row-set `part` (the front
      one when `front`): placing it on the rows built from the row-set's first
      `k` boxes gives the rows built from its first `k + 1` and the slot the
      whole row-set gives it. */
  lemma {:induction false} SlotStep(ds: seq<Dimensions>, front: bool, i: nat)
    returns (slot: Slot)
    requires i < |ds| && front == (i % 2 == 0)
    ensures var part, k := if front then Evens(ds) else Odds(ds), i / 2;
      && k < |part| && part[k] == ds[i]
      && Place(PlaceAll(part[..k]).rows, ds[i]) == (PlaceAll(part[..k + 1]).rows, slot)
      && PlaceAll(part).slots[k] == slot
      && (front ==> part[..k] == Evens(ds[..i]) && part[..k + 1] == Evens(ds[..i + 1]))
      && (!front ==> part[..k] == Odds(ds[..i]) && part[..k + 1] == Odds(ds[..i + 1]))
  {
    var part, k := if front then Evens(ds) else Odds(ds), i / 2;
    PartPrefixes(ds, front, i);
    slot := PlaceAll(part).slots[k];
    PartStep(part, k);
  }

  /** Box `i` is box `i / 2` of its row-set, and the boxes of that row-set
      before and up to it are those of the walk's first `i` and `i + 1`. */
  lemma {:induction false} PartPrefixes(ds: seq<Dimensions>, front: bool, i: nat)
    requires i < |ds| && front == (i % 2 == 0)
    ensures var part, k := if front then Evens(ds) else Odds(ds), i / 2;
      && k < |part| && part[k] == ds[i]
      && (front ==> part[..k] == Evens(ds[..i]) && part[..k + 1] == Evens(ds[..i + 1]))
      && (!front ==> part[..k] == Odds(ds[..i]) && part[..k + 1] == Odds(ds[..i + 1]))
  {
    var k := i / 2;
    if front {
      assert 2 * k == i;
      EvensPrefix(ds, i);
      EvensPrefix(ds, i + 1);
    } else {
      assert 2 * k + 1 == i;
      OddsPrefix(ds, i);
      OddsPrefix(ds, i + 1);
    }
  }

  /** Placing box `k` of a row-set on the rows of the boxes before it gives
      the rows of the first `k + 1` boxes and the slot the whole row-set
      gives box `k`. */
  lemma {:induction false} PartStep(part: seq<Dimensions>, k: nat)
    requires k < |part|
    ensures Place(PlaceAll(part[..k]).rows, part[k]) == (PlaceAll(part[..k + 1]).rows, PlaceAll(part).slots[k])
  {
    var before, after := part[..k], part[..k + 1];
    assert after == before + [part[k]];
    PlaceAllSnoc(before, part[k]);
    var placed := Place(PlaceAll(before).rows, part[k]);
    assert PlaceAll(after) == RowSet(placed.0, PlaceAll(before).slots + [placed.1]);
    assert PlaceAll(after).slots[k] == placed.1;
    PlaceAllPrefix(part, k + 1);
    assert PlaceAll(part).slots[..k + 1][k] == PlaceAll(part).slots[k];
  }

  /** The first box of each row-set sits at x = -10 and |z| = 5: box 0 in
      front (z = -5), box 1 behind (z = 5). */
  lemma {:induction false} FirstBoxes(ds: seq<Dimensions>)
    ensures |ds| >= 1 ==> RootPositions(ds)[0] == Vec3(-10.0, ds[0].height / 2.0, -5.0)
    ensures |ds| >= 2 ==> RootPositions(ds)[1] == Vec3(-10.0, ds[1].height / 2.0, 5.0)
  {
    if |ds| >= 1 {
      FirstSlot(Evens(ds));
    }
    if |ds| >= 2 {
      FirstSlot(Odds(ds));
    }
  }

  /** The first box of a row-set starts the first row. */
  lemma {:induction false} FirstSlot(ds: seq<Dimensions>)
    requires |ds| >= 1
    ensures PlaceAll(ds).slots[0] == Slot(-MaxDisplayWidth, FirstRowZ)
  {
    PlaceAllPrefix(ds, 1);
    assert ds[..1][..0] == [];
  }

  predicate PositiveBoxes(ds: seq<Dimensions>) {
    forall k :: 0 <= k < |ds| ==> ds[k].width > 0.0 && ds[k].depth > 0.0
  }

  /** What a row-set keeps true of its rows as boxes arrive: every row starts
      at z >= 5 and its running x is at least -10; and the last row lies at
      the z of the last box, its running x is past that box's x and its
      `maxDepth` covers that box's depth. */
  ghost predicate RowsInvariant(ds: seq<Dimensions>, r: RowSet)
    requires |r.slots| == |ds| && (r.rows == [] <==> ds == [])
  {
    && (forall j :: 0 <= j < |r.rows| ==> r.rows[j].z >= FirstRowZ && r.rows[j].x >= -MaxDisplayWidth
                                           && r.rows[j].maxDepth > 0.0)
    && (forall k :: 0 <= k < |r.slots| ==> r.slots[k].z >= FirstRowZ
                                           && -MaxDisplayWidth <= r.slots[k].x <= MaxDisplayWidth)
    && (ds != [] ==>
          var last, slot := r.rows[|r.rows| - 1], r.slots[|ds| - 1];
          && last.z == slot.z
          && last.x >= slot.x + ds[|ds| - 1].width
          && last.maxDepth >= ds[|ds| - 1].depth)
  }

  lemma {:induction false} PlaceAllInvariant(ds: seq<Dimensions>)
    requires PositiveBoxes(ds)
    ensures RowsInvariant(ds, PlaceAll(ds))
  {
    if ds != [] {
      var init := ds[..|ds| - 1];
      assert PositiveBoxes(init) by {
        forall k | 0 <= k < |init| ensures init[k].width > 0.0 && init[k].depth > 0.0 {
          assert init[k] == ds[k];
        }
      }
      PlaceAllInvariant(init);
    }
  }

  /** Every box of a row-set has its centre within the half-width of the
      display, -10 <= x <= 10, and lies at z >= 5, away from the centre line. */
  lemma {:induction false} SlotsInBounds(ds: seq<Dimensions>, k: nat)
    requires PositiveBoxes(ds) && k < |ds|
    ensures -MaxDisplayWidth <= PlaceAll(ds).slots[k].x <= MaxDisplayWidth
    ensures PlaceAll(ds).slots[k].z >= FirstRowZ
  {
    PlaceAllInvariant(ds);
  }

  /** How box k follows box k - 1 of the same row-set: while the running x of
      the current row is at most 10 the box goes there, further right on the
      same row; once it exceeds 10 the box opens a new row at x = -10, whose z
      is the last row's z plus its deepest box's depth plus the gap, and so
      lies behind the previous box by at least that box's depth plus the gap. */
  lemma {:induction false} ConsecutiveSlots(ds: seq<Dimensions>, k: nat)
    requires PositiveBoxes(ds) && 1 <= k < |ds|
    ensures var rows, slots := PlaceAll(ds[..k]).rows, PlaceAll(ds).slots;
      var running := rows[|rows| - 1].x;
      if running > MaxDisplayWidth then
        && slots[k].x == -MaxDisplayWidth
        && slots[k].z == rows[|rows| - 1].z + rows[|rows| - 1].maxDepth + Gap
        && slots[k].z >= slots[k - 1].z + ds[k - 1].depth + Gap
      else
        && slots[k] == Slot(running, slots[k - 1].z)
        && slots[k].x > slots[k - 1].x
  {
    var pre := ds[..k];
    assert PositiveBoxes(pre) by {
      forall j | 0 <= j < |pre| ensures pre[j].width > 0.0 && pre[j].depth > 0.0 {
        assert pre[j] == ds[j];
      }
    }
    NextSlot(pre, ds[k]);
    assert ds[..k + 1] == pre + [ds[k]];
    PlaceAllPrefix(ds, k + 1);
    assert pre[k - 1] == ds[k - 1];
  }

  /** The slot of a box that joins a row-set, against the row-set before it
      and the slot of the box before it. */
  lemma {:induction false} NextSlot(pre: seq<Dimensions>, d: Dimensions)
    requires PositiveBoxes(pre) && |pre| >= 1
    ensures var rows, slots, n := PlaceAll(pre).rows, PlaceAll(pre + [d]).slots, |pre|;
      var running := rows[|rows| - 1].x;
      if running > MaxDisplayWidth then
        && slots[n].x == -MaxDisplayWidth
        && slots[n].z == rows[|rows| - 1].z + rows[|rows| - 1].maxDepth + Gap
        && slots[n].z >= slots[n - 1].z + pre[n - 1].depth + Gap
      else
        && slots[n] == Slot(running, slots[n - 1].z)
        && slots[n].x > slots[n - 1].x
  {
    PlaceAllInvariant(pre);
    var post := pre + [d];
    assert post[..|post| - 1] == pre;
    assert post[|post| - 1] == d;
  }

  /** The two row-sets face outward from the centre: front boxes (even
      indices) have z <= -5, back boxes (odd indices) z >= 5, and every box
      rests on the floor. */
  lemma {:induction false} RootSides(ds: seq<Dimensions>, i: nat)
    requires PositiveBoxes(ds) && i < |ds|
    ensures RootPositions(ds)[i].y == ds[i].height / 2.0
    ensures i % 2 == 0 ==> RootPositions(ds)[i].z <= -FirstRowZ
    ensures i % 2 == 1 ==> RootPositions(ds)[i].z >= FirstRowZ
    ensures -MaxDisplayWidth <= RootPositions(ds)[i].x <= MaxDisplayWidth
  {
    if i % 2 == 0 {
      var e := Evens(ds);
      assert PositiveBoxes(e) by {
        forall j | 0 <= j < |e| ensures e[j].width > 0.0 && e[j].depth > 0.0 {
          assert e[j] == ds[2 * j];
        }
      }
      SlotsInBounds(e, i / 2);
    } else {
      var o := Odds(ds);
      assert PositiveBoxes(o) by {
        forall j | 0 <= j < |o| ensures o[j].width > 0.0 && o[j].depth > 0.0 {
          assert o[j] == ds[2 * j + 1];
        }
      }
      SlotsInBounds(o, i / 2);
    }
  }

  /** Boxes of width 4 in one row-set: the first three share the first row at
      x = -10, -6 and 3; the running x is then 12, so the fourth opens the
      second row. */
  lemma {:induction false} WidthFourWrapsAfterThree(d: Dimensions)
    requires d.width == 4.0
    ensures PlaceAll([d, d, d, d]).slots
            == [Slot(-10.0, 5.0), Slot(-6.0, 5.0), Slot(3.0, 5.0), Slot(-10.0, 5.0 + d.depth + 5.0)]
  {
    assert [d][..0] == [];
    assert PlaceAll([d]).slots == [Slot(-10.0, 5.0)];
    assert PlaceAll([d]).rows == [Row(-6.0, 5.0, d.depth)];
    assert [d, d][..1] == [d];
    assert PlaceAll([d, d]).rows == [Row(3.0, 5.0, d.depth)];
    assert [d, d, d][..2] == [d, d];
    assert PlaceAll([d, d, d]).rows == [Row(12.0, 5.0, d.depth)];
    assert [d, d, d, d][..3] == [d, d, d];
  }
}
