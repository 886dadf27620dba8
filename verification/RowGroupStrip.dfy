/** `demo/geoparquet/rg-strip.js`: the state of every row group and the strip that
    shows them, one cell each or, when there are more groups than pixels, one
    bucket of groups per pixel column. */
module RowGroupStrip {
  import opened Raster

  const PRUNED := 0
  const SURVIVOR := 1
  const FETCHED := 2

  /** First group of column `x`: floor(x * total / width). */
  function Lo(x: nat, total: nat, width: nat): nat
    requires width > 0
  {
    x * total / width
  }

  /** One past the last group of column `x`. */
  function Hi(x: nat, total: nat, width: nat): nat
    requires width > 0
  {
    var lo, next := Lo(x, total, width), Lo(x + 1, total, width);
    if lo + 1 > next then lo + 1 else next
  }

  /** Division facts, stated without division. */
  lemma LoBounds(x: nat, total: nat, width: nat)
    requires width > 0
    ensures Lo(x, total, width) * width <= x * total < (Lo(x, total, width) + 1) * width
  {
    var n := x * total;
    assert n == (n / width) * width + n % width;
  }

  /** With more groups than columns every column has at least one group, and the
      columns follow one another without gap. */
  lemma ColumnsAbut(x: nat, total: nat, width: nat)
    requires 0 < width < total
    ensures Lo(x, total, width) < Lo(x + 1, total, width) == Hi(x, total, width)
  {
    LoBounds(x, total, width);
    LoBounds(x + 1, total, width);
    var a, b := Lo(x, total, width), Lo(x + 1, total, width);
    assert (x + 1) * total == x * total + total;
    assert (a + 1) * width == a * width + width;
    if b <= a { MultiplyMonotone(width, b + 1, a + 1); }
  }

  lemma FirstAndLast(total: nat, width: nat)
    requires width > 0
    ensures Lo(0, total, width) == 0 && Lo(width, total, width) == total
  {
    LoBounds(width, total, width);
    var a := Lo(width, total, width);
    assert 0 * total == 0;
    SameMultiple(a, total, width);
  }

  lemma SameMultiple(a: nat, b: nat, w: nat)
    requires w > 0 && a * w <= w * b < (a + 1) * w
    ensures a == b
  {
    assert w * b == b * w && (b + 1) * w == b * w + w;
    if a < b { MultiplyMonotone(w, a + 1, b); }
    if b < a { MultiplyMonotone(w, b + 1, a); }
  }

  lemma {:induction false} LoMonotone(x: nat, y: nat, total: nat, width: nat)
    requires 0 < width < total && x <= y
    ensures Lo(x, total, width) <= Lo(y, total, width)
    decreases y - x
  {
    if x < y {
      ColumnsAbut(x, total, width);
      LoMonotone(x + 1, y, total, width);
    }
  }

  ghost predicate InColumn(i: nat, x: nat, total: nat, width: nat)
    requires width > 0
  {
    Lo(x, total, width) <= i < Hi(x, total, width)
  }

  /** Among the first `n` columns, the one that holds group `i`. */
  ghost function ColumnAmong(i: nat, n: nat, total: nat, width: nat): (x: nat)
    requires 0 < width < total && n <= width && i < Lo(n, total, width)
    ensures x < n && InColumn(i, x, total, width)
  {
    FirstAndLast(total, width);
    assert n > 0;
    ColumnsAbut(n - 1, total, width);
    if i >= Lo(n - 1, total, width) then n - 1 else ColumnAmong(i, n - 1, total, width)
  }

  /** The pixel column in which a row group is drawn. */
  ghost function ColumnOf(i: nat, total: nat, width: nat): (x: nat)
    requires 0 < width < total && i < total
    ensures x < width && InColumn(i, x, total, width)
  {
    FirstAndLast(total, width);
    ColumnAmong(i, width, total, width)
  }

  lemma ColumnUnique(i: nat, x: nat, y: nat, total: nat, width: nat)
    requires 0 < width < total && InColumn(i, x, total, width) && InColumn(i, y, total, width)
    ensures x == y
  {
    ColumnsAbut(x, total, width);
    ColumnsAbut(y, total, width);
    hide Lo, Hi;
    if x < y { LoMonotone(x + 1, y, total, width); }
    if y < x { LoMonotone(y + 1, x, total, width); }
  }

  lemma ColumnRange(x: nat, total: nat, width: nat)
    requires 0 < width < total && x < width
    ensures Lo(x, total, width) < Hi(x, total, width) <= total
  {
    FirstAndLast(total, width);
    ColumnsAbut(x, total, width);
    hide Lo, Hi;
    LoMonotone(x + 1, width, total, width);
  }

  /** In numbers: of the `total` groups spread evenly over `width` columns, group `i`
      ends in column `x`. */
  lemma ColumnMeaning(i: nat, x: nat, total: nat, width: nat)
    requires 0 < width < total
    ensures InColumn(i, x, total, width) <==> x * total < (i + 1) * width <= (x + 1) * total
  {
    ColumnsAbut(x, total, width);
    AtLeast(i, x, total, width);
    AtLeast(i, x + 1, total, width);
  }

  lemma AtLeast(i: nat, x: nat, total: nat, width: nat)
    requires width > 0
    ensures Lo(x, total, width) <= i <==> x * total < (i + 1) * width
  {
    LoBounds(x, total, width);
    var a := Lo(x, total, width);
    if a <= i { MultiplyMonotone(width, a + 1, i + 1); } else { MultiplyMonotone(width, i + 1, a); }
  }

  /** The columns partition the row groups: a column holds exactly the groups
      assigned to it, it holds at least one, and all of them exist. */
  lemma ColumnsPartition(total: nat, width: nat)
    requires 0 < width < total
    ensures forall i: nat, x: nat | i < total :: InColumn(i, x, total, width) <==> x == ColumnOf(i, total, width)
    ensures forall x: nat | x < width :: Lo(x, total, width) < Hi(x, total, width) <= total
  {
    hide Lo, Hi, InColumn, ColumnOf;
    forall i: nat, x: nat | i < total ensures InColumn(i, x, total, width) <==> x == ColumnOf(i, total, width) {
      if InColumn(i, x, total, width) { ColumnUnique(i, x, ColumnOf(i, total, width), total, width); }
    }
    forall x: nat | x < width ensures Lo(x, total, width) < Hi(x, total, width) <= total {
      ColumnRange(x, total, width);
    }
  }

  /** What `draw` paints. */
  datatype Picture = Idle | Cells(states: seq<int>) | Columns(states: seq<int>)

  /** `m` is the highest of states[lo..hi]. */
  ghost predicate IsHighest(m: int, states: seq<int>, lo: nat, hi: nat)
    requires lo < hi <= |states|
  {
    (exists i :: lo <= i < hi && states[i] == m) && forall i :: lo <= i < hi ==> states[i] <= m
  }

  class Strip {
    var total: nat
    var states: array<int>
    var hasPlan: bool

    ghost predicate Valid()
      reads this, states
    {
      states.Length == total && forall i :: 0 <= i < total ==> PRUNED <= states[i] <= FETCHED
    }

    constructor ()
      ensures Valid() && total == 0 && !hasPlan
    {
      total, hasPlan := 0, false;
      states := new int[0];
    }

    method SetTotal(n: nat)
      modifies this
      ensures Valid() && fresh(states) && total == n && !hasPlan
      ensures forall i :: 0 <= i < n ==> states[i] == PRUNED
    {
      total, hasPlan := n, false;
      states := new int[n](_ => PRUNED);
    }

    /** The shared marking loop; a typed array ignores an index outside it. */
    method Mark(indices: seq<int>, state: int)
      requires Valid() && PRUNED <= state <= FETCHED
      modifies states
      ensures Valid()
      ensures forall i :: 0 <= i < total ==> states[i] == if i in indices then state else old(states[i])
    {
      for k := 0 to |indices|
        invariant Valid()
        invariant forall i :: 0 <= i < total ==> states[i] == if i in indices[..k] then state else old(states[i])
      {
        var idx := indices[k];
        assert indices[..k + 1] == indices[..k] + [idx];
        if idx < total && 0 <= idx {
          states[idx] := state;
        }
      }
      assert indices[..|indices|] == indices;
    }

    method Fill(state: int)
      requires Valid() && PRUNED <= state <= FETCHED
      modifies states
      ensures Valid() && forall i :: 0 <= i < total ==> states[i] == state
    {
      forall i | 0 <= i < states.Length {
        states[i] := state;
      }
    }

    /** A new plan: the survivors, and nothing else, are marked. */
    method SetSurvivors(survivors: seq<int>)
      requires Valid()
      modifies this`hasPlan, states
      ensures Valid() && hasPlan
      ensures forall i :: 0 <= i < total ==> states[i] == if i in survivors then SURVIVOR else PRUNED
    {
      Fill(PRUNED);
      Mark(survivors, SURVIVOR);
      hasPlan := true;
    }

    method MarkFetched(indices: seq<int>)
      requires Valid()
      modifies states
      ensures Valid()
      ensures forall i :: 0 <= i < total ==> states[i] == if i in indices then FETCHED else old(states[i])
    {
      Mark(indices, FETCHED);
    }

    method Reset()
      requires Valid()
      modifies this`hasPlan, states
      ensures Valid() && !hasPlan && forall i :: 0 <= i < total ==> states[i] == PRUNED
    {
      Fill(PRUNED);
      hasPlan := false;
    }

    /** The running maximum over the bucket of one pixel column. */
    method ColumnState(x: nat, width: nat) returns (state: int)
      requires Valid() && 0 < width < total && x < width
      ensures Lo(x, total, width) < Hi(x, total, width) <= total
      ensures IsHighest(state, states[..], Lo(x, total, width), Hi(x, total, width))
    {
      ColumnRange(x, total, width);
      hide Lo, Hi;
      var lo, hi := Lo(x, total, width), Hi(x, total, width);
      state := PRUNED;
      var i := lo;
      while i < hi && i < total
        invariant lo <= i <= hi
        invariant PRUNED <= state
        invariant forall j :: lo <= j < i ==> states[j] <= state
        invariant i > lo ==> exists j :: lo <= j < i && states[j] == state
        invariant i == lo ==> state == PRUNED
      {
        if states[i] > state {
          state := states[i];
        }
        i := i + 1;
      }
    }

    /** `draw`: nothing before a plan, one cell per group while they fit, and
        otherwise in each pixel column the highest state of its bucket. */
    method Draw(width: nat) returns (p: Picture)
      requires Valid() && width > 0
      ensures p.Idle? <==> total == 0 || !hasPlan
      ensures !p.Idle? && total <= width ==> p == Cells(states[..])
      ensures !p.Idle? && total > width ==>
                && p.Columns? && |p.states| == width
                && forall x :: 0 <= x < width ==>
                     && Lo(x, total, width) < Hi(x, total, width) <= total
                     && IsHighest(p.states[x], states[..], Lo(x, total, width), Hi(x, total, width))
    {
      if total == 0 || !hasPlan {
        return Idle;
      }
      if total <= width {
        return Cells(states[..]);
      }
      hide Lo, Hi;
      var columns: seq<int> := [];
      for x := 0 to width
        invariant |columns| == x
        invariant forall k :: 0 <= k < x ==>
                                && Lo(k, total, width) < Hi(k, total, width) <= total
                                && IsHighest(columns[k], states[..], Lo(k, total, width), Hi(k, total, width))
      {
        var state := ColumnState(x, width);
        columns := columns + [state];
      }
      return Columns(columns);
    }
  }

  /** A column of groups that are pruned, surviving or fetched shows fetched if one of
      them is, surviving if one is and none is fetched, and pruned if all are. */
  lemma HighestState(m: int, states: seq<int>, lo: nat, hi: nat)
    requires lo < hi <= |states| && IsHighest(m, states, lo, hi)
    requires forall i :: lo <= i < hi ==> states[i] in {0, 1, 2}
    ensures m == FETCHED <==> exists i :: lo <= i < hi && states[i] == 2
    ensures m == SURVIVOR <==>
            (exists i :: lo <= i < hi && states[i] == 1) && forall i :: lo <= i < hi ==> states[i] != 2
    ensures m == PRUNED <==> forall i :: lo <= i < hi ==> states[i] == 0
  {
    var j :| lo <= j < hi && states[j] == m;
    assert m in {0, 1, 2};
    if i :| lo <= i < hi && states[i] == 2 { assert states[i] <= m; }
    if i :| lo <= i < hi && states[i] == 1 { assert states[i] <= m; }
  }

  /** What a reader of a bucketed strip may conclude: no group is hidden behind a
      lower state than its own, and a column shows pruned exactly when all the
      groups in it are pruned. */
  lemma NothingHidden(states: seq<int>, columns: seq<int>, width: nat)
    requires 0 < width < |states| && |columns| == width
    requires forall i :: 0 <= i < |states| ==> PRUNED <= states[i] <= FETCHED
    requires forall x :: 0 <= x < width ==>
                           && Lo(x, |states|, width) < Hi(x, |states|, width) <= |states|
                           && IsHighest(columns[x], states, Lo(x, |states|, width), Hi(x, |states|, width))
    ensures forall i: nat | i < |states| :: columns[ColumnOf(i, |states|, width)] >= states[i]
    ensures forall x: nat | x < width ::
              columns[x] == PRUNED <==>
                forall i: nat | i < |states| && ColumnOf(i, |states|, width) == x :: states[i] == PRUNED
  {
    var total := |states|;
    hide Lo, Hi, ColumnOf;
    forall i: nat | i < total ensures columns[ColumnOf(i, total, width)] >= states[i] {
      var x := ColumnOf(i, total, width);
      assert IsHighest(columns[x], states, Lo(x, total, width), Hi(x, total, width));
    }
    forall x: nat | x < width
      ensures columns[x] == PRUNED <==>
                forall i: nat | i < total && ColumnOf(i, total, width) == x :: states[i] == PRUNED
    {
      assert IsHighest(columns[x], states, Lo(x, total, width), Hi(x, total, width));
      var j :| Lo(x, total, width) <= j < Hi(x, total, width) && states[j] == columns[x];
      ColumnUnique(j, x, ColumnOf(j, total, width), total, width);
    }
  }
}
