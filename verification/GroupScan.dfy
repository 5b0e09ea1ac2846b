/** Group-wise column operations in the style of `df.groupby(g).col.shift(-1)`
    and `df.groupby(g).col.fillna(method='bfill')`.  A column is a sequence of
    optional cells, `g[i]` is the group (subject) of row `i`, and groups need
    not be contiguous: "the next row of the group" is the nearest later row with
    the same group value, wherever it is. */
module GroupScan {
  import opened Wrappers

  /** Row `k` exists and belongs to group `g0`. */
  predicate InGroup(g: seq<int>, g0: int, k: int) {
    0 <= k < |g| && g[k] == g0
  }

  /** Row `k` belongs to group `g0` and its cell is present. */
  predicate HasCell<V>(g: seq<int>, v: seq<Option<V>>, g0: int, k: int)
    requires |v| == |g|
  {
    InGroup(g, g0, k) && v[k].Some?
  }

  /** Row `j` is the next row after `i` in `i`'s group. */
  ghost predicate IsNextInGroup(g: seq<int>, i: int, j: int) {
    0 <= i < j < |g| && g[j] == g[i] && forall k :: i < k < j ==> !InGroup(g, g[i], k)
  }

  /** No row after `i` belongs to `i`'s group. */
  ghost predicate IsLastInGroup(g: seq<int>, i: int)
    requires 0 <= i < |g|
  {
    forall j :: i < j ==> !InGroup(g, g[i], j)
  }

  /** The first row at or after `from` in group `g0`. */
  function FindNext(g: seq<int>, g0: int, from: nat): (r: Option<nat>)
    ensures r.Some? ==> from <= r.value && InGroup(g, g0, r.value)
    ensures r.Some? ==> forall k :: from <= k < r.value ==> !InGroup(g, g0, k)
    ensures r.None? ==> forall k :: from <= k ==> !InGroup(g, g0, k)
    decreases |g| - from
  {
    if from >= |g| then None
    else if g[from] == g0 then Some(from)
    else FindNext(g, g0, from + 1)
  }

  /** The first row at or after `from` in group `g0` whose cell is present. */
  function FindFilled<V>(g: seq<int>, v: seq<Option<V>>, g0: int, from: nat): (r: Option<nat>)
    requires |v| == |g|
    ensures r.Some? ==> from <= r.value && HasCell(g, v, g0, r.value)
    ensures r.Some? ==> forall k :: from <= k < r.value ==> !HasCell(g, v, g0, k)
    ensures r.None? ==> forall k :: from <= k ==> !HasCell(g, v, g0, k)
    decreases |g| - from
  {
    if from >= |g| then None
    else if g[from] == g0 && v[from].Some? then Some(from)
    else FindFilled(g, v, g0, from + 1)
  }

  /** The search from the row after `i` finds `i`'s next row of the group. */
  lemma FindNextOfNext(g: seq<int>, i: int, j: int)
    requires IsNextInGroup(g, i, j)
    ensures FindNext(g, g[i], i + 1) == Some(j)
  {
    assert InGroup(g, g[i], j);
    var n := FindNext(g, g[i], i + 1);
    if n.Some? {
      assert InGroup(g, g[i], n.value);
    }
  }

  /** The search from the row after the last row of a group finds nothing. */
  lemma FindNextOfLast(g: seq<int>, i: int)
    requires 0 <= i < |g| && IsLastInGroup(g, i)
    ensures FindNext(g, g[i], i + 1).None?
  {
  }

  /** The cell at an optional row index; a missing index gives a missing cell. */
  function CellAt<V>(v: seq<Option<V>>, j: Option<nat>): Option<V>
    requires j.Some? ==> j.value < |v|
  {
    if j.Some? then v[j.value] else None
  }

  /** `groupby(g).v.shift(-1)`: each row receives the cell of the next row of its group. */
  function Shift<V>(g: seq<int>, v: seq<Option<V>>): (r: seq<Option<V>>)
    requires |v| == |g|
    ensures |r| == |g|
  {
    seq(|g|, i requires 0 <= i < |g| => ShiftCell(g, v, i))
  }

  /** The shifted cell of row `i`. */
  function ShiftCell<V>(g: seq<int>, v: seq<Option<V>>, i: nat): Option<V>
    requires |v| == |g| && i < |g|
  {
    CellAt(v, FindNext(g, g[i], i + 1))
  }

  /** A shifted cell is the cell of the next row of the group, or missing for
      the last row of the group. */
  lemma {:induction false} ShiftSpec<V>(g: seq<int>, v: seq<Option<V>>)
    requires |v| == |g|
    ensures forall i, j :: IsNextInGroup(g, i, j) ==> Shift(g, v)[i] == v[j]
    ensures forall i :: 0 <= i < |g| && IsLastInGroup(g, i) ==> Shift(g, v)[i].None?
  {
    var r := Shift(g, v);
    forall i, j | IsNextInGroup(g, i, j) ensures r[i] == v[j] {
      FindNextOfNext(g, i, j);
      assert r[i] == CellAt(v, FindNext(g, g[i], i + 1));
    }
    forall i | 0 <= i < |g| && IsLastInGroup(g, i) ensures r[i].None? {
      FindNextOfLast(g, i);
      assert r[i] == CellAt(v, FindNext(g, g[i], i + 1));
    }
  }

  /** `groupby(g).v.fillna(method='bfill')`: a missing cell takes the nearest
      later present cell of its group; present cells are kept. */
  function Backfill<V>(g: seq<int>, v: seq<Option<V>>): (r: seq<Option<V>>)
    requires |v| == |g|
    ensures |r| == |g|
  {
    seq(|g|, i requires 0 <= i < |g| => FillCell(g, v, i))
  }

  /** The back-filled cell of row `i`. */
  function FillCell<V>(g: seq<int>, v: seq<Option<V>>, i: nat): Option<V>
    requires |v| == |g| && i < |g|
  {
    CellAt(v, FindFilled(g, v, g[i], i))
  }

  /** Back-filling keeps present cells, leaves the last row of each group as it
      was, and only ever copies a cell from the same or a later row of the group. */
  lemma {:induction false} BackfillSpec<V>(g: seq<int>, v: seq<Option<V>>)
    requires |v| == |g|
    ensures forall i :: 0 <= i < |g| && v[i].Some? ==> Backfill(g, v)[i] == v[i]
    ensures forall i :: 0 <= i < |g| && Backfill(g, v)[i].Some? ==>
              exists j :: i <= j < |g| && g[j] == g[i] && Backfill(g, v)[i] == v[j]
    ensures forall i :: 0 <= i < |g| && IsLastInGroup(g, i) ==> Backfill(g, v)[i] == v[i]
  {
    var r := Backfill(g, v);
    forall i | 0 <= i < |g| && v[i].Some? ensures r[i] == v[i] {
      assert HasCell(g, v, g[i], i);
      assert r[i] == CellAt(v, FindFilled(g, v, g[i], i));
    }
    forall i | 0 <= i < |g| && r[i].Some?
      ensures exists j :: i <= j < |g| && g[j] == g[i] && r[i] == v[j]
    {
      assert r[i] == CellAt(v, FindFilled(g, v, g[i], i));
      var j := FindFilled(g, v, g[i], i).value;
      assert InGroup(g, g[i], j);
      assert r[i] == v[j];
    }
    forall i | 0 <= i < |g| && IsLastInGroup(g, i) ensures r[i] == v[i] {
      assert r[i] == CellAt(v, FindFilled(g, v, g[i], i));
      var f := FindFilled(g, v, g[i], i);
      if f.Some? {
        assert InGroup(g, g[i], f.value);
      }
      if f.None? {
        assert !HasCell(g, v, g[i], i);
      }
    }
  }

  /** No row in `[a, b)` of group `g0` has a present cell. */
  ghost predicate GapFree<V>(g: seq<int>, v: seq<Option<V>>, g0: int, a: nat, b: nat)
    requires |v| == |g|
  {
    forall k :: a <= k < b ==> !HasCell(g, v, g0, k)
  }

  /** Skipping rows of the group that hold no value does not change the search. */
  lemma {:induction false} FindFilledSkip<V>(g: seq<int>, v: seq<Option<V>>, g0: int, a: nat, b: nat)
    requires |v| == |g|
    requires a <= b <= |g|
    requires GapFree(g, v, g0, a, b)
    ensures FindFilled(g, v, g0, a) == FindFilled(g, v, g0, b)
    decreases b - a
  {
    if a < b {
      assert !HasCell(g, v, g0, a);
      FindFilledSkip(g, v, g0, a + 1, b);
    }
  }

  /** Shifting a column and then back-filling it gives each row the first present
      cell strictly after it in its group: the "next valid value" scan. */
  lemma BackfillOfShift<V>(g: seq<int>, w: seq<Option<V>>, i: nat)
    requires |w| == |g|
    requires i < |g|
    ensures Backfill(g, Shift(g, w))[i] == CellAt(w, FindFilled(g, w, g[i], i + 1))
  {
    FilledAfterShift(g, w, i);
  }

  /** The search of the shifted column from row `i` lands on a cell equal to the
      one the search of the original column from row `i + 1` lands on. */
  lemma {:induction false} FilledAfterShift<V>(g: seq<int>, w: seq<Option<V>>, i: nat)
    requires |w| == |g|
    requires i < |g|
    ensures CellAt(Shift(g, w), FindFilled(g, Shift(g, w), g[i], i))
         == CellAt(w, FindFilled(g, w, g[i], i + 1))
    decreases |g| - i
  {
    var n := FindNext(g, g[i], i + 1);
    if n.None? {
      FilledAfterShiftLast(g, w, i);
    } else if w[n.value].Some? {
      FilledAfterShiftHit(g, w, i, n.value);
    } else {
      var j := n.value;
      var q := Shift(g, w);
      var g0 := g[i];
      assert InGroup(g, g0, j);
      FilledAfterShiftMiss(g, w, i, j);
      FilledAfterMiss(g, w, i, j);
      var fq := FindFilled(g, q, g0, j);
      var fw := FindFilled(g, w, g0, j + 1);
      assert CellAt(q, fq) == CellAt(w, fw) by {
        FilledAfterShift(g, w, j);
      }
    }
  }

  lemma FilledAfterShiftLast<V>(g: seq<int>, w: seq<Option<V>>, i: nat)
    requires |w| == |g| && i < |g|
    requires FindNext(g, g[i], i + 1).None?
    ensures FindFilled(g, Shift(g, w), g[i], i) == None
    ensures FindFilled(g, w, g[i], i + 1) == None
  {
    var g0 := g[i];
    assert FindFilled(g, w, g0, i + 1) == None by {
      LastGapFree(g, w, i);
      FindFilledSkip(g, w, g0, i + 1, |g|);
    }
    assert FindFilled(g, Shift(g, w), g0, i) == None by {
      ShiftLastGapFree(g, w, i);
      FindFilledSkip(g, Shift(g, w), g0, i, |g|);
    }
  }

  /** After the last row of a group, the group holds no cell. */
  lemma LastGapFree<V>(g: seq<int>, w: seq<Option<V>>, i: nat)
    requires |w| == |g| && i < |g|
    requires FindNext(g, g[i], i + 1).None?
    ensures GapFree(g, w, g[i], i + 1, |g|)
  {
    forall k | i + 1 <= k < |g|
      ensures !HasCell(g, w, g[i], k)
    {
      assert !InGroup(g, g[i], k);
    }
  }

  /** From the last row of a group on, the shifted column holds nothing for it. */
  lemma ShiftLastGapFree<V>(g: seq<int>, w: seq<Option<V>>, i: nat)
    requires |w| == |g| && i < |g|
    requires FindNext(g, g[i], i + 1).None?
    ensures GapFree(g, Shift(g, w), g[i], i, |g|)
  {
    var q := Shift(g, w);
    forall k | i <= k < |g|
      ensures !HasCell(g, q, g[i], k)
    {
      if k == i {
        assert q[i] == CellAt(w, FindNext(g, g[i], i + 1));
      } else {
        assert !InGroup(g, g[i], k);
      }
    }
  }

  lemma FilledAfterShiftHit<V>(g: seq<int>, w: seq<Option<V>>, i: nat, j: nat)
    requires |w| == |g| && i < |g|
    requires FindNext(g, g[i], i + 1) == Some(j) && w[j].Some?
    ensures FindFilled(g, Shift(g, w), g[i], i) == Some(i)
    ensures Shift(g, w)[i] == w[j]
    ensures FindFilled(g, w, g[i], i + 1) == Some(j)
  {
    var g0 := g[i];
    assert InGroup(g, g0, j);
    assert Shift(g, w)[i] == CellAt(w, FindNext(g, g[i], i + 1));
    assert FindFilled(g, w, g0, i + 1) == Some(j) by {
      forall k | i + 1 <= k < j ensures !HasCell(g, w, g0, k) {
        assert !InGroup(g, g0, k);
      }
      FindFilledSkip(g, w, g0, i + 1, j);
      assert HasCell(g, w, g0, j);
    }
  }

  lemma FilledAfterShiftMiss<V>(g: seq<int>, w: seq<Option<V>>, i: nat, j: nat)
    requires |w| == |g| && i < |g|
    requires FindNext(g, g[i], i + 1) == Some(j) && w[j].None?
    ensures FindFilled(g, Shift(g, w), g[i], i) == FindFilled(g, Shift(g, w), g[i], j)
  {
    ShiftGapFree(g, w, i, j);
    FindFilledSkip(g, Shift(g, w), g[i], i, j);
  }

  lemma FilledAfterMiss<V>(g: seq<int>, w: seq<Option<V>>, i: nat, j: nat)
    requires |w| == |g|
    requires IsNextInGroup(g, i, j) && w[j].None?
    ensures FindFilled(g, w, g[i], i + 1) == FindFilled(g, w, g[i], j + 1)
  {
    NextGapFree(g, w, i, j);
    FindFilledSkip(g, w, g[i], i + 1, j + 1);
  }

  /** Up to and including a next row whose cell is missing, the group holds no
      cell after `i`. */
  lemma NextGapFree<V>(g: seq<int>, w: seq<Option<V>>, i: nat, j: nat)
    requires |w| == |g|
    requires IsNextInGroup(g, i, j) && w[j].None?
    ensures GapFree(g, w, g[i], i + 1, j + 1)
  {
    forall k | i + 1 <= k < j + 1
      ensures !HasCell(g, w, g[i], k)
    {
      if k < j {
        assert !InGroup(g, g[i], k);
      }
    }
  }

  /** Between a row and its next row of the group, the shifted column holds
      nothing when the next row's cell is missing. */
  lemma ShiftGapFree<V>(g: seq<int>, w: seq<Option<V>>, i: nat, j: nat)
    requires |w| == |g| && i < |g|
    requires FindNext(g, g[i], i + 1) == Some(j) && w[j].None?
    ensures GapFree(g, Shift(g, w), g[i], i, j)
  {
    var q := Shift(g, w);
    forall k | i <= k < j
      ensures !HasCell(g, q, g[i], k)
    {
      if k == i {
        assert q[i] == CellAt(w, FindNext(g, g[i], i + 1));
      } else {
        assert !InGroup(g, g[i], k);
      }
    }
  }

  /** `groupby(g).v.shift(-1)` as one right-to-left pass that remembers, per
      group, the cell of the most recent (that is, nearest later) row. */
  method ShiftScan<V>(g: seq<int>, v: seq<Option<V>>) returns (r: seq<Option<V>>)
    requires |v| == |g|
    ensures r == Shift(g, v)
  {
    var spec := Shift(g, v);
    var seen: map<int, Option<V>> := map[];
    r := seq(|g|, _ => None);
    var i := |g|;
    while i > 0
      invariant 0 <= i <= |g| && |r| == |g|
      invariant forall k :: i <= k < |g| ==> r[k] == spec[k]
      invariant forall g0 :: g0 in seen <==> FindNext(g, g0, i).Some?
      invariant forall g0 :: g0 in seen ==> seen[g0] == CellAt(v, FindNext(g, g0, i))
    {
      i := i - 1;
      var here := if g[i] in seen then seen[g[i]] else None;
      assert here == CellAt(v, FindNext(g, g[i], i + 1));
      r := r[i := here];
      seen := seen[g[i] := v[i]];
      assert forall g0 :: g0 != g[i] ==> FindNext(g, g0, i) == FindNext(g, g0, i + 1);
    }
  }

  /** `groupby(g).v.fillna(method='bfill')` as one right-to-left pass that
      remembers, per group, the most recent present cell. */
  method BackfillScan<V>(g: seq<int>, v: seq<Option<V>>) returns (r: seq<Option<V>>)
    requires |v| == |g|
    ensures r == Backfill(g, v)
  {
    var spec := Backfill(g, v);
    var seen: map<int, V> := map[];
    r := seq(|g|, _ => None);
    var i := |g|;
    while i > 0
      invariant 0 <= i <= |g| && |r| == |g|
      invariant forall k :: i <= k < |g| ==> r[k] == spec[k]
      invariant forall g0 :: g0 in seen <==> FindFilled(g, v, g0, i).Some?
      invariant forall g0 :: g0 in seen ==> Some(seen[g0]) == CellAt(v, FindFilled(g, v, g0, i))
    {
      i := i - 1;
      if v[i].Some? {
        seen := seen[g[i] := v[i].value];
      }
      assert forall g0 :: g0 != g[i] ==> FindFilled(g, v, g0, i) == FindFilled(g, v, g0, i + 1);
      var here := if g[i] in seen then Some(seen[g[i]]) else None;
      r := r[i := here];
    }
  }
}
