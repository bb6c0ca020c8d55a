/** Reducing the candidates by peeling off modules without importers or imports (doc/dimple.d:376-411). */
module Peeling {
  import opened Paths

  /** How many entries of `list` are alive. */
  function Live(list: seq<nat>, alive: set<nat>): nat {
    if list == [] then 0
    else Live(list[..|list| - 1], alive) + (if list[|list| - 1] in alive then 1 else 0)
  }

  lemma {:induction false} LiveWithout(list: seq<nat>, alive: set<nat>, s: nat)
    requires s in alive
    ensures Live(list, alive - {s}) + multiset(list)[s] == Live(list, alive)
  {
    if list != [] {
      var n := |list| - 1;
      assert list == list[..n] + [list[n]];
      LiveWithout(list[..n], alive, s);
    }
  }

  lemma {:induction false} LiveIsZero(list: seq<nat>, alive: set<nat>)
    ensures Live(list, alive) == 0 <==> forall v | v in list :: v !in alive
  {
    if list != [] {
      var n := |list| - 1;
      assert list == list[..n] + [list[n]];
      LiveIsZero(list[..n], alive);
    }
  }

  lemma {:induction false} LiveOfAll(list: seq<nat>, alive: set<nat>)
    requires forall v | v in list :: v in alive
    ensures Live(list, alive) == |list|
  {
    if list != [] {
      var n := |list| - 1;
      assert list == list[..n] + [list[n]];
      LiveOfAll(list[..n], alive);
    }
  }

  lemma {:induction false} LiveDependsOn(list: seq<nat>, a: set<nat>, b: set<nat>)
    requires forall v | v in list :: v in a <==> v in b
    ensures Live(list, a) == Live(list, b)
  {
    if list != [] {
      var n := |list| - 1;
      assert list == list[..n] + [list[n]];
      LiveDependsOn(list[..n], a, b);
    }
  }

  // ---------------------------------------------------------------- the graph and the counters

  /** `link` and `linked` list the same edges among `nodes`, with the same multiplicities, and no others. */
  ghost predicate Transposed(nodes: set<nat>, link: Links, linked: Links) {
    && (forall u | u in nodes :: u < |link| && u < |linked|)
    && (forall u, v | u in nodes && v in link[u] :: v in nodes)
    && (forall u, v | u in nodes && v in linked[u] :: v in nodes)
    && (forall u, v | u in nodes && v in nodes :: multiset(link[u])[v] == multiset(linked[v])[u])
  }

  /** Edges only leave nodes: there is nothing else in the graph. */
  ghost predicate Spans(nodes: set<nat>, link: Links) {
    forall u: nat | u < |link| && u !in nodes :: link[u] == []
  }

  /** The counters are the numbers of live edges, zero for what is peeled. */
  ghost predicate Counts(nodes: set<nat>, alive: set<nat>, lists: Links, counts: seq<int>) {
    && |counts| == |lists|
    && forall v | v in nodes :: v < |lists| && counts[v] == if v in alive then Live(lists[v], alive) else 0
  }

  ghost predicate Counted(nodes: set<nat>, alive: set<nat>, link: Links, linked: Links, din: seq<int>, dout: seq<int>) {
    && alive <= nodes
    && Counts(nodes, alive, linked, din)
    && Counts(nodes, alive, link, dout)
  }

  function Monus(a: int, b: nat): int {
    if a >= b then a - b else 0
  }

  /** `counts` reduced once for each entry of `list`, but never below zero. */
  ghost predicate Reduced(counts: seq<int>, counts': seq<int>, list: seq<nat>) {
    && |counts'| == |counts|
    && forall v | 0 <= v < |counts| :: counts'[v] == Monus(counts[v], multiset(list)[v])
  }

  /** The inner loops: `if (r.din) r.din--` for every target, or the same with `dout`. */
  method Reduce(counts: array<int>, list: seq<nat>)
    requires forall v | v in list :: v < counts.Length
    requires forall v | 0 <= v < counts.Length :: counts[v] >= 0
    modifies counts
    ensures Reduced(old(counts[..]), counts[..], list)
  {
    ghost var was := counts[..];
    assert list[..0] == [];
    var k := 0;
    while k < |list|
      invariant 0 <= k <= |list|
      invariant forall v | 0 <= v < counts.Length :: counts[v] == Monus(was[v], multiset(list[..k])[v])
    {
      assert list[..k + 1] == list[..k] + [list[k]];
      assert list[k] in list;
      var r := list[k];
      if counts[r] != 0 {
        counts[r] := counts[r] - 1;
      }
      k := k + 1;
    }
    assert list[..|list|] == list;
  }

  /**
   Peeling `s`, which has no live importer: reducing the in-counts of its imports and zeroing its
   out-count keeps the counters exact.  Swapping the roles of the arguments gives the case of no live
   import.
   */
  lemma PeelKeepsCounts(nodes: set<nat>, alive: set<nat>, link: Links, linked: Links,
                        din: seq<int>, dout: seq<int>, s: nat, din': seq<int>, dout': seq<int>)
    requires Transposed(nodes, link, linked) && Counted(nodes, alive, link, linked, din, dout)
    requires s in alive && din[s] == 0
    requires Reduced(din, din', link[s]) && dout' == dout[s := 0]
    ensures Counted(nodes, alive - {s}, link, linked, din', dout')
  {
    forall v | v in nodes ensures din'[v] == if v in alive - {s} then Live(linked[v], alive - {s}) else 0 {
      LiveWithout(linked[v], alive, s);
      assert multiset(link[s])[v] == multiset(linked[v])[s];
    }
    LiveIsZero(linked[s], alive);
    forall v | v in nodes ensures dout'[v] == if v in alive - {s} then Live(link[v], alive - {s}) else 0 {
      if v in alive {
        LiveWithout(link[v], alive, s);
        assert v !in linked[s];
        assert multiset(link[v])[s] == multiset(linked[s])[v] == 0;
      }
    }
  }

  /** A node without live importers is on no cycle of live nodes, nor is one without live imports. */
  lemma PeelKeepsCycles(nodes: set<nat>, alive: set<nat>, link: Links, linked: Links, din: seq<int>,
          dout: seq<int>, s: nat)
    requires Transposed(nodes, link, linked) && Counted(nodes, alive, link, linked, din, dout)
    requires forall v: nat | OnCycle(link, v) :: v in alive
    requires s in alive && (din[s] == 0 || dout[s] == 0)
    ensures !OnCycle(link, s)
  {
    if OnCycle(link, s) {
      CycleNeighbours(link, s);
      var u: nat :| Edge(link, u, s) && OnCycle(link, u);
      var w: nat :| Edge(link, s, w) && OnCycle(link, w);
      LiveIsZero(linked[s], alive);
      LiveIsZero(link[s], alive);
    }
  }

  ghost predicate Settled(din: int, dout: int) {
    din == 0 <==> dout == 0
  }

  /** What the loop keeps. */
  ghost predicate PeelInv(nodes: set<nat>, alive: set<nat>, link: Links, linked: Links, din: seq<int>, dout: seq<int>) {
    && |link| == |linked|
    && Counted(nodes, alive, link, linked, din, dout)
    && (forall v | 0 <= v < |link| :: din[v] >= 0 && dout[v] >= 0)
    && (forall v: nat | OnCycle(link, v) :: v in alive)
  }

  /** One node of one scan: the branch that `s.din` and `s.dout` select. */
  method PeelNode(ghost nodes: set<nat>, ghost alive: set<nat>, link: Links, linked: Links,
                  din: array<int>, dout: array<int>, s: nat) returns (rescan: bool, ghost left: set<nat>)
    requires Transposed(nodes, link, linked) && s in nodes && din != dout
    requires PeelInv(nodes, alive, link, linked, din[..], dout[..])
    modifies din, dout
    ensures PeelInv(nodes, left, link, linked, din[..], dout[..])
    ensures rescan <==> !Settled(old(din[s]), old(dout[s]))
    ensures if rescan then |left| < |alive|
            else left == alive && din[..] == old(din[..]) && dout[..] == old(dout[..])
  {
    rescan, left := false, alive;
    ghost var was, wasOut := din[..], dout[..];
    if din[s] == 0 && dout[s] == 0 {
      return;
    }
    if din[s] == 0 {
      PeelOff(nodes, alive, link, linked, din, dout, s);
    } else if dout[s] == 0 {
      PeelOff(nodes, alive, linked, link, dout, din, s);
    } else {
      return;
    }
    rescan, left := true, alive - {s};
    PeelingKeepsInv(nodes, alive, link, linked, was, wasOut, s, din[..], dout[..]);
  }

  lemma PeelingKeepsInv(nodes: set<nat>, alive: set<nat>, link: Links, linked: Links, din: seq<int>,
          dout: seq<int>, s: nat,
                        din': seq<int>, dout': seq<int>)
    requires Transposed(nodes, link, linked) && PeelInv(nodes, alive, link, linked, din, dout)
    requires s in nodes && !Settled(din[s], dout[s]) && (din[s] == 0 || dout[s] == 0)
    requires Counted(nodes, alive - {s}, link, linked, din', dout')
    requires forall v | 0 <= v < |link| :: din'[v] >= 0 && dout'[v] >= 0
    ensures PeelInv(nodes, alive - {s}, link, linked, din', dout')
    ensures |alive - {s}| < |alive|
  {
    assert s in alive;
    PeelKeepsCycles(nodes, alive, link, linked, din, dout, s);
    assert alive == (alive - {s}) + {s};
  }

  /** Peels `s`, whose in-count is zero; called with the roles swapped when its out-count is. */
  method PeelOff(ghost nodes: set<nat>, ghost alive: set<nat>, link: Links, ghost linked: Links,
                 din: array<int>, dout: array<int>, s: nat)
    requires Transposed(nodes, link, linked) && s in alive && din != dout
    requires Counted(nodes, alive, link, linked, din[..], dout[..]) && din[s] == 0
    requires forall v | 0 <= v < din.Length :: din[v] >= 0
    requires forall v | 0 <= v < dout.Length :: dout[v] >= 0
    modifies din, dout
    ensures Counted(nodes, alive - {s}, link, linked, din[..], dout[..])
    ensures forall v | 0 <= v < din.Length :: din[v] >= 0
    ensures forall v | 0 <= v < dout.Length :: dout[v] >= 0
  {
    ghost var was, wasOut := din[..], dout[..];
    assert forall v | v in link[s] :: v in nodes;
    Reduce(din, link[s]);
    dout[s] := 0;
    PeelKeepsCounts(nodes, alive, link, linked, was, wasOut, s, din[..], dout[..]);
  }

  /** One scan over all modules. */
  method Scan(src: seq<nat>, ghost alive: set<nat>, link: Links, linked: Links, din: array<int>, dout: array<int>)
    returns (rescan: bool, ghost left: set<nat>)
    requires Transposed(NodesOf(src), link, linked) && din != dout
    requires PeelInv(NodesOf(src), alive, link, linked, din[..], dout[..])
    modifies din, dout
    ensures PeelInv(NodesOf(src), left, link, linked, din[..], dout[..])
    ensures if rescan then |left| < |alive|
            else left == alive && AllSettled(NodesOf(src), din[..], dout[..])
  {
    ghost var nodes := NodesOf(src);
    rescan, left := false, alive;
    var k := 0;
    while k < |src|
      invariant 0 <= k <= |src|
      invariant PeelInv(nodes, left, link, linked, din[..], dout[..])
      invariant if rescan then |left| < |alive| else left == alive && AllSettled(NodesOf(src[..k]), din[..], dout[..])
    {
      assert src[k] in nodes;
      assert NodesOf(src[..k + 1]) == NodesOf(src[..k]) + {src[k]};
      var peeled;
      peeled, left := PeelNode(nodes, left, link, linked, din, dout, src[k]);
      rescan := rescan || peeled;
      k := k + 1;
    }
    assert src[..|src|] == src;
  }

  /** Every one of the modules has both counters zero or both positive. */
  ghost predicate AllSettled(nodes: set<nat>, din: seq<int>, dout: seq<int>) {
    forall v | v in nodes :: v < |din| && v < |dout| && Settled(din[v], dout[v])
  }

  /**
   The peeling loop.  It terminates because every scan that changes anything peels a node, and it ends
   with both counters zero or both positive for every module, and with no module of a cycle peeled.
   */
  method Peel(src: seq<nat>, link: Links, linked: Links, din: array<int>, dout: array<int>)
    returns (ghost alive: set<nat>)
    requires |link| == |linked| == din.Length == dout.Length && din != dout
    requires Transposed(NodesOf(src), link, linked) && Spans(NodesOf(src), link)
    requires forall v | 0 <= v < |link| :: din[v] == if v in src then |linked[v]| else 0
    requires forall v | 0 <= v < |link| :: dout[v] == if v in src then |link[v]| else 0
    modifies din, dout
    ensures PeelInv(NodesOf(src), alive, link, linked, din[..], dout[..])
    ensures AllSettled(NodesOf(src), din[..], dout[..])
  {
    alive := NodesOf(src);
    StartCounts(NodesOf(src), link, linked, din[..], dout[..]);
    var rescan := true;
    while rescan
      invariant PeelInv(NodesOf(src), alive, link, linked, din[..], dout[..])
      invariant !rescan ==> AllSettled(NodesOf(src), din[..], dout[..])
      decreases |alive| + if rescan then 1 else 0
    {
      rescan, alive := Scan(src, alive, link, linked, din, dout);
    }
  }

  ghost function NodesOf(src: seq<nat>): set<nat> {
    set v | v in src
  }

  lemma StartCounts(nodes: set<nat>, link: Links, linked: Links, din: seq<int>, dout: seq<int>)
    requires |link| == |linked| == |din| == |dout|
    requires Transposed(nodes, link, linked) && Spans(nodes, link)
    requires forall v | 0 <= v < |link| :: din[v] == if v in nodes then |linked[v]| else 0
    requires forall v | 0 <= v < |link| :: dout[v] == if v in nodes then |link[v]| else 0
    ensures PeelInv(nodes, nodes, link, linked, din, dout)
  {
    forall v | v in nodes ensures Live(linked[v], nodes) == |linked[v]| && Live(link[v], nodes) == |link[v]| {
      LiveOfAll(linked[v], nodes);
      LiveOfAll(link[v], nodes);
    }
    forall v: nat | OnCycle(link, v) ensures v in nodes {
      CycleNeighbours(link, v);
    }
  }

  // ---------------------------------------------------------------- what the counters mean

  ghost function Unpeeled(nodes: set<nat>, din: seq<int>, dout: seq<int>): set<nat>
    requires forall v | v in nodes :: v < |din| && v < |dout|
  {
    set v | v in nodes && (din[v] != 0 || dout[v] != 0)
  }

  /**
   At any point of the loop the counters of an unpeeled module are the numbers of its edges whose other
   end is unpeeled too.
   */
  lemma CountersCountUnpeeledEdges(nodes: set<nat>, alive: set<nat>, link: Links, linked: Links,
                                   din: seq<int>, dout: seq<int>, v: nat)
    requires Transposed(nodes, link, linked) && PeelInv(nodes, alive, link, linked, din, dout)
    requires v in Unpeeled(nodes, din, dout)
    ensures din[v] == Live(linked[v], Unpeeled(nodes, din, dout))
    ensures dout[v] == Live(link[v], Unpeeled(nodes, din, dout))
  {
    var unpeeled := Unpeeled(nodes, din, dout);
    assert v in alive;
    forall u | u in linked[v] ensures u in alive <==> u in unpeeled {
      if u in alive {
        assert multiset(link[u])[v] == multiset(linked[v])[u];
        assert v in link[u];
        LiveIsZero(link[u], alive);
      }
    }
    LiveDependsOn(linked[v], alive, unpeeled);
    forall w | w in link[v] ensures w in alive <==> w in unpeeled {
      if w in alive {
        assert multiset(link[v])[w] == multiset(linked[w])[v];
        assert v in linked[w];
        LiveIsZero(linked[w], alive);
      }
    }
    LiveDependsOn(link[v], alive, unpeeled);
  }

  /** The candidates of the closure: those with importers left.  Every module of a cycle is one. */
  method Candidates(src: seq<nat>, ghost alive: set<nat>, link: Links, ghost linked: Links, din: array<int>,
          ghost dout: seq<int>)
    returns (cand: seq<nat>)
    requires PeelInv(NodesOf(src), alive, link, linked, din[..], dout)
    requires Transposed(NodesOf(src), link, linked) && Increasing(src)
    ensures Increasing(cand)
    ensures forall v :: v in cand <==> v in src && v < din.Length && din[v] != 0
    ensures forall v: nat | OnCycle(link, v) :: v in cand
  {
    cand := [];
    var k := 0;
    while k < |src|
      invariant 0 <= k <= |src|
      invariant Increasing(cand)
      invariant forall v :: v in cand <==> v in src[..k] && v < din.Length && din[v] != 0
    {
      IncreasingNext(cand, src, k);
      assert src[k] in NodesOf(src);
      assert src[..k + 1] == src[..k] + [src[k]];
      if din[src[k]] != 0 {
        cand := cand + [src[k]];
      }
      k := k + 1;
    }
    assert src[..|src|] == src;
    forall v: nat | OnCycle(link, v) ensures v in cand {
      assert v in NodesOf(src);
      if din[v] == 0 {
        PeelKeepsCycles(NodesOf(src), alive, link, linked, din[..], dout, v);
      }
    }
  }
}
