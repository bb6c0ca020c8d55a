/** The in-place transitive closure over the candidate modules (doc/dimple.d:407-426). */
module TransitiveClosure {
  import opened Paths

  /** Candidate `i` imports candidate `j`. */
  predicate Adjacent(link: Links, cand: seq<nat>, i: nat, j: nat) {
    i < |cand| && j < |cand| && Edge(link, cand[i], cand[j])
  }

  /** What the matrix holds at (i, j) after the first `k` rounds. */
  predicate Closed(link: Links, cand: seq<nat>, k: nat, i: nat, j: nat) {
    if k == 0 then Adjacent(link, cand, i, j)
    else
      || Closed(link, cand, k - 1, i, j)
      || (Closed(link, cand, k - 1, i, k - 1) && Closed(link, cand, k - 1, k - 1, j))
  }

  /** A walk over candidate positions whose inner positions are below `k`. */
  ghost predicate IsWalk(link: Links, cand: seq<nat>, p: seq<nat>, k: nat) {
    && |p| >= 2
    && (forall a, b | 0 <= a < b < |p| && b == a + 1 :: Adjacent(link, cand, p[a], p[b]))
    && (forall m | 0 < m < |p| - 1 :: p[m] < k)
  }

  lemma {:induction false} ClosedHasWalk(link: Links, cand: seq<nat>, k: nat, i: nat, j: nat) returns (p: seq<nat>)
    requires Closed(link, cand, k, i, j)
    ensures IsWalk(link, cand, p, k) && p[0] == i && p[|p| - 1] == j
    decreases k
  {
    if k == 0 {
      p := [i, j];
    } else if Closed(link, cand, k - 1, i, j) {
      p := ClosedHasWalk(link, cand, k - 1, i, j);
    } else {
      var a := ClosedHasWalk(link, cand, k - 1, i, k - 1);
      var b := ClosedHasWalk(link, cand, k - 1, k - 1, j);
      p := a + b[1..];
      forall m | 0 <= m < |p| - 1 ensures Adjacent(link, cand, p[m], p[m + 1]) {
        if m >= |a| - 1 {
          assert p[m] == b[m - |a| + 1] && p[m + 1] == b[m - |a| + 2];
        }
      }
      forall m | 0 < m < |p| - 1 ensures p[m] < k {
        if m >= |a| {
          assert p[m] == b[m - |a| + 1];
        }
      }
    }
  }

  /** Round `k` leaves row and column `k` as they were, which is why the update may run in place. */
  lemma RowAndColumnStay(link: Links, cand: seq<nat>, k: nat, i: nat)
    ensures Closed(link, cand, k + 1, i, k) <==> Closed(link, cand, k, i, k)
    ensures Closed(link, cand, k + 1, k, i) <==> Closed(link, cand, k, k, i)
  {
  }

  lemma {:induction false} WalkIsClosed(link: Links, cand: seq<nat>, k: nat, p: seq<nat>)
    requires IsWalk(link, cand, p, k)
    ensures Closed(link, cand, k, p[0], p[|p| - 1])
    decreases k, |p|
  {
    if k == 0 {
      var second := p[1];
      assert |p| == 2;
    } else if m :| 0 < m < |p| - 1 && p[m] == k - 1 {
      WalkIsClosed(link, cand, k, p[..m + 1]);
      WalkIsClosed(link, cand, k, p[m..]);
      RowAndColumnStay(link, cand, k - 1, p[0]);
      RowAndColumnStay(link, cand, k - 1, p[|p| - 1]);
    } else {
      WalkIsClosed(link, cand, k - 1, p);
    }
  }

  /** After all rounds the matrix is non-empty-path reachability among the candidates. */
  lemma ClosedIffWalk(link: Links, cand: seq<nat>, i: nat, j: nat)
    ensures Closed(link, cand, |cand|, i, j) <==>
      exists p :: IsWalk(link, cand, p, |cand|) && p[0] == i && p[|p| - 1] == j
  {
    if Closed(link, cand, |cand|, i, j) {
      var p := ClosedHasWalk(link, cand, |cand|, i, j);
      assert IsWalk(link, cand, p, |cand|) && p[0] == i && p[|p| - 1] == j;
    }
    if p :| IsWalk(link, cand, p, |cand|) && p[0] == i && p[|p| - 1] == j {
      WalkIsClosed(link, cand, |cand|, p);
    }
  }

  // ---------------------------------------------------------------- candidates hold every cycle

  ghost predicate HoldsCycles(link: Links, cand: seq<nat>) {
    forall v | OnCycle(link, v) :: v in cand
  }

  /** When the candidates contain every node that is on a cycle, their diagonal marks exactly those. */
  lemma DiagonalMarksCycles(link: Links, cand: seq<nat>, i: nat)
    requires HoldsCycles(link, cand) && i < |cand|
    ensures Closed(link, cand, |cand|, i, i) <==> OnCycle(link, cand[i])
  {
    ClosedIffWalk(link, cand, i, i);
    if p :| IsWalk(link, cand, p, |cand|) && p[0] == i && p[|p| - 1] == i {
      WalkGivesCycle(link, cand, p);
    }
    if OnCycle(link, cand[i]) {
      var p :| Leads(link, p, cand[i], cand[i]);
      var q := CycleGivesWalk(link, cand, i, p);
    }
  }

  lemma WalkGivesCycle(link: Links, cand: seq<nat>, p: seq<nat>)
    requires IsWalk(link, cand, p, |cand|) && p[0] == p[|p| - 1]
    ensures p[0] < |cand| && OnCycle(link, cand[p[0]])
  {
    forall m | 0 <= m < |p| ensures p[m] < |cand| {
      if m < |p| - 1 {
        assert Adjacent(link, cand, p[m], p[m + 1]);
      } else {
        assert Adjacent(link, cand, p[0], p[1]);
      }
    }
    var q := seq(|p|, m requires 0 <= m < |p| => cand[p[m]]);
    forall m | 0 <= m < |q| - 1 ensures Edge(link, q[m], q[m + 1]) {
      assert Adjacent(link, cand, p[m], p[m + 1]);
    }
    assert Leads(link, q, cand[p[0]], cand[p[0]]);
  }

  /** The position of a node among the candidates. */
  ghost function Position(cand: seq<nat>, v: nat): (i: nat)
    requires v in cand
    ensures i < |cand| && cand[i] == v
  {
    var i :| 0 <= i < |cand| && cand[i] == v;
    i
  }

  lemma CycleGivesWalk(link: Links, cand: seq<nat>, i: nat, p: seq<nat>) returns (q: seq<nat>)
    requires HoldsCycles(link, cand) && i < |cand| && Leads(link, p, cand[i], cand[i])
    ensures IsWalk(link, cand, q, |cand|) && q[0] == i && q[|q| - 1] == i
  {
    forall m | 0 <= m < |p| ensures p[m] in cand {
      CycleRotates(link, p, m);
    }
    q := seq(|p|, m requires 0 <= m < |p| => if m == 0 || m == |p| - 1 then i else Position(cand, p[m]));
    forall m | 0 <= m < |q| - 1 ensures Adjacent(link, cand, q[m], q[m + 1]) {
      assert cand[q[m]] == p[m] && cand[q[m + 1]] == p[m + 1];
      assert Edge(link, p[m], p[m + 1]);
    }
  }

  // ---------------------------------------------------------------- the matrix, row by row in one array

  function Cell(n: nat, i: nat, j: nat): nat {
    i * n + j
  }

  lemma CellInRange(n: nat, i: nat, j: nat)
    requires i < n && j < n
    ensures Cell(n, i, j) < n * n
  {
    assert i * n + n == (i + 1) * n;
    Monotone(i + 1, n, n);
  }

  lemma Monotone(a: nat, b: nat, n: nat)
    requires a <= b
    ensures a * n <= b * n
  {
  }

  lemma CellIsInjective(n: nat, i: nat, j: nat, i': nat, j': nat)
    requires j < n && j' < n && Cell(n, i, j) == Cell(n, i', j')
    ensures i == i' && j == j'
  {
    if i < i' {
      Monotone(i + 1, i', n);
    } else if i' < i {
      Monotone(i' + 1, i, n);
    }
  }

  /** The matrix holds round `k` everywhere, and round `k + 1` already in the cells before (i, j). */
  ghost predicate Holds(mtx: seq<bool>, link: Links, cand: seq<nat>, k: nat, i: nat, j: nat) {
    && |mtx| == |cand| * |cand|
    && forall a: nat, b: nat | a < |cand| && b < |cand| ::
         At(mtx, |cand|, a, b) ==
           if a < i || (a == i && b < j) then Closed(link, cand, k + 1, a, b) else Closed(link, cand, k, a, b)
  }

  ghost function At(mtx: seq<bool>, n: nat, i: nat, j: nat): bool
    requires |mtx| == n * n && i < n && j < n
  {
    CellInRange(n, i, j);
    mtx[Cell(n, i, j)]
  }

  lemma Assign(mtx: seq<bool>, mtx': seq<bool>, n: nat, i: nat, j: nat, value: bool)
    requires |mtx| == n * n && i < n && j < n && Cell(n, i, j) < |mtx|
    requires mtx' == mtx[Cell(n, i, j) := value]
    ensures forall a: nat, b: nat | a < n && b < n ::
      At(mtx', n, a, b) == if a == i && b == j then value else At(mtx, n, a, b)
  {
    forall a: nat, b: nat | a < n && b < n
      ensures At(mtx', n, a, b) == if a == i && b == j then value else At(mtx, n, a, b)
    {
      CellInRange(n, a, b);
      if Cell(n, a, b) == Cell(n, i, j) {
        CellIsInjective(n, a, b, i, j);
      }
    }
  }

  /** One cell of one round. */
  lemma Update(mtx: seq<bool>, mtx': seq<bool>, link: Links, cand: seq<nat>, k: nat, i: nat, j: nat)
    requires i < |cand| && j < |cand| && k < |cand| && Holds(mtx, link, cand, k, i, j)
    requires Cell(|cand|, i, j) < |mtx|
    requires mtx' == if !At(mtx, |cand|, i, j) && At(mtx, |cand|, i, k) && At(mtx, |cand|, k, j)
                     then mtx[Cell(|cand|, i, j) := true] else mtx
    ensures Holds(mtx', link, cand, k, i, j + 1)
  {
    var n := |cand|;
    RowAndColumnStay(link, cand, k, i);
    RowAndColumnStay(link, cand, k, j);
    assert At(mtx, n, i, k) == Closed(link, cand, k, i, k);
    assert At(mtx, n, k, j) == Closed(link, cand, k, k, j);
    assert At(mtx, n, i, j) == Closed(link, cand, k, i, j);
    var value := Closed(link, cand, k + 1, i, j);
    if value && !At(mtx, n, i, j) {
      Assign(mtx, mtx', n, i, j, true);
    } else {
      assert mtx' == mtx;
    }
  }

  /** The three nested loops. */
  method Close(mtx: array<bool>, ghost link: Links, ghost cand: seq<nat>, n: nat)
    requires n == |cand| && Holds(mtx[..], link, cand, 0, 0, 0)
    modifies mtx
    ensures Holds(mtx[..], link, cand, n, 0, 0)
  {
    var k := 0;
    while k < n
      invariant 0 <= k <= n && Holds(mtx[..], link, cand, k, 0, 0)
    {
      var i := 0;
      while i < n
        invariant 0 <= i <= n && Holds(mtx[..], link, cand, k, i, 0)
      {
        var j := 0;
        while j < n
          invariant 0 <= j <= n && Holds(mtx[..], link, cand, k, i, j)
        {
          ghost var before := mtx[..];
          CellInRange(n, i, j);
          CellInRange(n, i, k);
          CellInRange(n, k, j);
          if !mtx[i * n + j] && mtx[i * n + k] && mtx[k * n + j] {
            mtx[i * n + j] := true;
          }
          Update(before, mtx[..], link, cand, k, i, j);
          j := j + 1;
        }
        i := i + 1;
      }
      k := k + 1;
    }
  }

  /** Fills the matrix with the direct imports: a linear search of each list for each pair. */
  method FillMatrix(link: Links, cand: seq<nat>) returns (mtx: array<bool>)
    requires forall v | v in cand :: v < |link|
    ensures fresh(mtx) && Holds(mtx[..], link, cand, 0, 0, 0)
  {
    var n := |cand|;
    assert n * n >= 0;
    mtx := new bool[n * n](_ => false);
    EmptyIsFilled(mtx[..], link, cand);
    var i := 0;
    while i < n
      invariant 0 <= i <= n && Filled(mtx[..], link, cand, i, 0)
    {
      var j := 0;
      while j < n
        invariant 0 <= j <= n && Filled(mtx[..], link, cand, i, j)
      {
        ghost var before := mtx[..];
        assert cand[i] in cand;
        CellInRange(n, i, j);
        var found := Contains(link[cand[i]], cand[j]);
        if found {
          mtx[i * n + j] := true;
        }
        FilledNext(before, mtx[..], link, cand, i, j);
        j := j + 1;
      }
      i := i + 1;
    }
  }

  lemma EmptyIsFilled(mtx: seq<bool>, link: Links, cand: seq<nat>)
    requires |mtx| == |cand| * |cand| && forall m | 0 <= m < |mtx| :: !mtx[m]
    ensures Filled(mtx, link, cand, 0, 0)
  {
    forall a: nat, b: nat | a < |cand| && b < |cand| ensures !At(mtx, |cand|, a, b) {
      CellInRange(|cand|, a, b);
    }
  }

  lemma FilledNext(mtx: seq<bool>, mtx': seq<bool>, link: Links, cand: seq<nat>, i: nat, j: nat)
    requires i < |cand| && j < |cand| && Filled(mtx, link, cand, i, j) && Cell(|cand|, i, j) < |mtx|
    requires mtx' == if Adjacent(link, cand, i, j) then mtx[Cell(|cand|, i, j) := true] else mtx
    ensures Filled(mtx', link, cand, i, j + 1)
  {
    if Adjacent(link, cand, i, j) {
      Assign(mtx, mtx', |cand|, i, j, true);
    }
  }

  method Contains(list: seq<nat>, v: nat) returns (found: bool)
    ensures found <==> v in list
  {
    var m := 0;
    while m < |list|
      invariant 0 <= m <= |list| && v !in list[..m]
    {
      if list[m] == v {
        return true;
      }
      m := m + 1;
    }
    assert list[..m] == list;
    return false;
  }

  ghost predicate Filled(mtx: seq<bool>, link: Links, cand: seq<nat>, i: nat, j: nat) {
    && |mtx| == |cand| * |cand|
    && forall a: nat, b: nat | a < |cand| && b < |cand| ::
         At(mtx, |cand|, a, b) == (Adjacent(link, cand, a, b) && (a < i || (a == i && b < j)))
  }

  /** The candidates on a cycle, in order: the third step of the analysis. */
  method MarkCycles(link: Links, cand: seq<nat>) returns (marked: seq<nat>)
    requires (forall v | v in cand :: v < |link|) && HoldsCycles(link, cand) && Increasing(cand)
    ensures Increasing(marked)
    ensures forall v :: v in marked <==> OnCycle(link, v)
  {
    var n := |cand|;
    var mtx := FillMatrix(link, cand);
    Close(mtx, link, cand, n);
    marked := [];
    var i := 0;
    while i < n
      invariant 0 <= i <= n
      invariant Holds(mtx[..], link, cand, n, 0, 0)
      invariant Increasing(marked)
      invariant forall v :: v in marked <==> v in cand[..i] && OnCycle(link, v)
    {
      IncreasingNext(marked, cand, i);
      CellInRange(n, i, i);
      DiagonalMarksCycles(link, cand, i);
      assert At(mtx[..], n, i, i) == Closed(link, cand, n, i, i);
      assert cand[..i + 1] == cand[..i] + [cand[i]];
      if mtx[i * n + i] {
        marked := marked + [cand[i]];
      }
      i := i + 1;
    }
    assert cand[..n] == cand;
  }
}
