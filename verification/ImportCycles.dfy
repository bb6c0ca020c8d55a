/**
 The whole import analysis (doc/dimple.d:290-435): discovery, filtering, transposition, peeling, closure
 and marking.  Its claim: the modules coloured at the end are those that lie on an import cycle.
 */
module ImportCycles {
  import opened Sequences
  import opened Paths
  import opened TransitiveClosure
  import opened Peeling
  import opened ModuleDiscovery

  // ---------------------------------------------------------------- filtering the list in place

  predicate IsVisible(visible: seq<bool>, v: nat) {
    v < |visible| && visible[v]
  }

  /** `src[l++] = s` for every visible module, then cutting the list to `l`. */
  method KeepVisible(visible: seq<bool>) returns (src: seq<nat>)
    ensures Increasing(src) && forall v: nat :: v in src <==> IsVisible(visible, v)
  {
    var arr := new nat[|visible|](k => k);
    var l := 0;
    var k := 0;
    while k < |visible|
      invariant 0 <= l <= k <= |visible|
      invariant forall m | k <= m < arr.Length :: arr[m] == m
      invariant forall m | 0 <= m < l :: arr[m] < k
      invariant Increasing(arr[..l]) && forall v: nat :: v in arr[..l] <==> v < k && IsVisible(visible, v)
    {
      ghost var before := arr[..l];
      if visible[arr[k]] {
        arr[l] := arr[k];
        l := l + 1;
        assert arr[..l] == before + [k];
      }
      k := k + 1;
    }
    src := arr[..l];
  }

  // ---------------------------------------------------------------- transposing the edges

  function LengthAt(lists: Links, v: nat): nat {
    if v < |lists| then |lists[v]| else 0
  }

  /** The sum of the list lengths of the given modules. */
  function Total(src: seq<nat>, lists: Links): nat {
    if src == [] then 0
    else Total(src[..|src| - 1], lists) + LengthAt(lists, src[|src| - 1])
  }

  lemma TotalOfNext(src: seq<nat>, k: nat, lists: Links)
    requires k < |src|
    ensures Total(src[..k + 1], lists) == Total(src[..k], lists) + LengthAt(lists, src[k])
  {
    assert src[..k + 1][..k] == src[..k];
  }

  lemma {:induction false} TotalOfUpdate(src: seq<nat>, lists: Links, r: nat, x: nat)
    requires r < |lists| && Increasing(src)
    ensures Total(src, lists[r := lists[r] + [x]]) == Total(src, lists) + if r in src then 1 else 0
  {
    if src != [] {
      var n := |src| - 1;
      SplitAt(src, n);
      assert src[..n + 1] == src;
      TotalOfUpdate(src[..n], lists, r, x);
    }
  }

  lemma {:induction false} TotalOfEmpty(src: seq<nat>, lists: Links)
    requires forall v | 0 <= v < |lists| :: lists[v] == []
    ensures Total(src, lists) == 0
  {
    if src != [] {
      TotalOfEmpty(src[..|src| - 1], lists);
    }
  }

  /** How often `v` must be in `link[u]` when the lists of `done` are turned round, and of `s` the entries `part`. */
  ghost function TurnedCount(linked: Links, done: set<nat>, s: nat, part: seq<nat>, u: nat, v: nat): nat
    requires v < |linked|
  {
    if v in done then multiset(linked[v])[u] else if v == s then multiset(part)[u] else 0
  }

  ghost predicate Turned(link: Links, linked: Links, done: set<nat>, s: nat, part: seq<nat>) {
    && |link| == |linked|
    && forall u: nat, v: nat | u < |linked| && v < |linked| ::
         multiset(link[u])[v] == TurnedCount(linked, done, s, part, u, v)
  }

  /** Edges only join the given nodes. */
  ghost predicate Within(link: Links, nodes: set<nat>) {
    forall u: nat, v: nat {:trigger v in link[u]} | u < |link| && v in link[u] :: u in nodes && v in nodes
  }

  lemma TurnedNext(link: Links, linked: Links, done: set<nat>, s: nat, part: seq<nat>, r: nat)
    requires Turned(link, linked, done, s, part) && r < |linked| && s < |linked| && s !in done
    ensures Turned(link[r := link[r] + [s]], linked, done, s, part + [r])
  {
  }

  /** The inner loop of the transposition, for one module `s`. */
  method TurnModule(src: seq<nat>, linked: Links, before: Links, s: nat, ghost done: set<nat>) returns (link: Links)
    requires Increasing(src) && NodesBelow(src, |linked|) && s in src && s !in done
    requires forall u | u in linked[s] :: u in src
    requires Turned(before, linked, done, s, []) && Within(before, NodesOf(src))
    ensures Turned(link, linked, done, s, linked[s]) && Within(link, NodesOf(src))
    ensures Total(src, link) == Total(src, before) + |linked[s]|
  {
    link := before;
    var list := linked[s];
    assert list[..0] == [];
    var m := 0;
    while m < |list|
      invariant 0 <= m <= |list|
      invariant Turned(link, linked, done, s, list[..m]) && Within(link, NodesOf(src))
      invariant Total(src, link) == Total(src, before) + m
    {
      SplitAt(list, m);
      assert list[m] in list;
      TotalOfUpdate(src, link, list[m], s);
      TurnedNext(link, linked, done, s, list[..m], list[m]);
      link := link[list[m] := link[list[m]] + [s]];
      m := m + 1;
    }
    assert list[..|list|] == list;
  }

  ghost predicate NodesBelow(src: seq<nat>, n: nat) {
    forall v | v in src :: v < n
  }

  /** Every importer of a visible module is visible. */
  ghost predicate ClosedUnder(src: seq<nat>, linked: Links)
    requires NodesBelow(src, |linked|)
  {
    forall v, u | v in src && u in linked[v] :: u in src
  }

  /** `link` is the transpose of `linked` among the visible modules, and nothing else. */
  ghost predicate IsTranspose(src: seq<nat>, link: Links, linked: Links) {
    && |link| == |linked| && NodesBelow(src, |linked|) && Within(link, NodesOf(src))
    && forall u: nat, v: nat | u < |linked| && v < |linked| && v in src ::
         multiset(link[u])[v] == multiset(linked[v])[u]
  }

  /** The lists of `done` are turned round, and no others. */
  ghost predicate TurnedUpTo(link: Links, linked: Links, done: set<nat>) {
    forall t: nat | t !in done :: Turned(link, linked, done, t, [])
  }

  /**
   `foreach s in src, foreach r in s.linked: r.link(s)`.  The result is the exact transpose, and has as
   many entries as were turned.
   */
  method Transpose(src: seq<nat>, linked: Links) returns (link: Links)
    requires Increasing(src) && NodesBelow(src, |linked|) && ClosedUnder(src, linked)
    ensures IsTranspose(src, link, linked)
    ensures Total(src, link) == Total(src, linked)
  {
    link := seq(|linked|, _ => []);
    TotalOfEmpty(src, link);
    ghost var done: set<nat> := {};
    var k := 0;
    while k < |src|
      invariant 0 <= k <= |src| && done == NodesOf(src[..k])
      invariant TurnedUpTo(link, linked, done)
      invariant |link| == |linked| && Within(link, NodesOf(src))
      invariant Total(src, link) == Total(src[..k], linked)
    {
      NodesOfNext(src, k);
      link := TurnModule(src, linked, link, src[k], done);
      done := done + {src[k]};
      TotalOfNext(src, k, linked);
      k := k + 1;
    }
    assert src[..|src|] == src;
    AllTurned(src, link, linked);
  }

  lemma NodesOfNext(src: seq<nat>, k: nat)
    requires Increasing(src) && k < |src|
    ensures src[k] in src && src[k] !in NodesOf(src[..k])
    ensures NodesOf(src[..k + 1]) == NodesOf(src[..k]) + {src[k]}
  {
    SplitAt(src, k);
  }

  lemma AllTurned(src: seq<nat>, link: Links, linked: Links)
    requires NodesBelow(src, |linked|) && TurnedUpTo(link, linked, NodesOf(src)) && Within(link, NodesOf(src))
    ensures IsTranspose(src, link, linked)
  {
    var t := |linked|;
    assert t !in NodesOf(src);
    forall u: nat, v: nat | u < |linked| && v < |linked| && v in src
      ensures |link| == |linked| && multiset(link[u])[v] == multiset(linked[v])[u]
    {
      assert Turned(link, linked, NodesOf(src), t, []);
      assert multiset(link[u])[v] == TurnedCount(linked, NodesOf(src), t, [], u, v);
    }
  }

  /** Both degree counters, with the source's check that their sums agree. */
  method CountDegrees(src: seq<nat>, link: Links, linked: Links) returns (din: array<int>, dout: array<int>, dsum: int)
    requires |link| == |linked| && NodesBelow(src, |linked|)
    requires Total(src, link) == Total(src, linked)
    ensures fresh(din) && fresh(dout) && din != dout && din.Length == dout.Length == |linked|
    ensures forall v | 0 <= v < |linked| :: din[v] == if v in src then |linked[v]| else 0
    ensures forall v | 0 <= v < |linked| :: dout[v] == if v in src then |link[v]| else 0
    ensures dsum == 0
  {
    din := new int[|linked|](_ => 0);
    dout := new int[|linked|](_ => 0);
    dsum := 0;
    var k := 0;
    while k < |src|
      invariant 0 <= k <= |src|
      invariant forall v | 0 <= v < |linked| :: din[v] == if v in src[..k] then |linked[v]| else 0
      invariant forall v | 0 <= v < |linked| :: dout[v] == if v in src[..k] then |link[v]| else 0
      invariant dsum == Total(src[..k], linked) - Total(src[..k], link)
    {
      SplitAt(src, k);
      assert src[k] in src;
      var s := src[k];
      din[s] := |linked[s]|;
      dout[s] := |link[s]|;
      dsum := dsum + din[s] - dout[s];
      TotalOfNext(src, k, linked);
      TotalOfNext(src, k, link);
      k := k + 1;
    }
    assert src[..|src|] == src;
  }

  // ---------------------------------------------------------------- from positions to names

  ghost predicate OnImportCycle(w: World, name: string) {
    exists p :: NamePath(w, p) && |p| >= 2 && p[0] == name && p[|p| - 1] == name
  }

  /** An edge between positions is an import of the target's name, the target being the first of its name. */
  ghost predicate EdgesAreImports(w: World, names: seq<string>, link: Links) {
    && |link| == |names|
    && forall u: nat, v: nat | u < |names| ::
         Edge(link, u, v) <==>
           v < |names| && IsFirst(names, v) && names[v] in Imports(w, names[u]) && Shown(w, names[v])
  }

  lemma CycleNodesAreFirst(w: World, names: seq<string>, link: Links, p: seq<nat>)
    requires EdgesAreImports(w, names, link) && IsPath(link, p) && p[0] == p[|p| - 1]
    ensures forall k | 0 <= k < |p| :: p[k] < |names| && IsFirst(names, p[k])
  {
    forall k | 0 <= k < |p| ensures p[k] < |names| && IsFirst(names, p[k]) {
      var j := if k > 0 then k else |p| - 1;
      assert Edge(link, p[j - 1], p[j]);
    }
  }

  lemma CycleByName(w: World, names: seq<string>, link: Links, v: nat)
    requires EdgesAreImports(w, names, link) && OnCycle(link, v)
    ensures v < |names| && IsFirst(names, v) && OnImportCycle(w, names[v])
  {
    var p :| Leads(link, p, v, v);
    CycleNodesAreFirst(w, names, link, p);
    var q := seq(|p|, k requires 0 <= k < |p| => names[p[k]]);
    forall a, b | 0 <= a < b < |q| && b == a + 1 ensures q[b] in Imports(w, q[a]) {
      assert Edge(link, p[a], p[b]);
    }
    assert NamePath(w, q) && |q| >= 2 && q[0] == names[v] && q[|q| - 1] == names[v];
  }

  /** The first position of a name. */
  ghost function FirstOf(names: seq<string>, x: string): (v: nat)
    requires x in names
    ensures v < |names| && names[v] == x && IsFirst(names, v)
  {
    if names[0] == x then 0
    else
      FirstOf(names[1..], x) + 1
  }

  lemma CycleByPosition(w: World, names: seq<string>, link: Links, x: string)
    requires EdgesAreImports(w, names, link) && OnImportCycle(w, x) && x in names
    requires ImportsListed(w, names, |names|, [])
    ensures OnCycle(link, FirstOf(names, x))
  {
    var p :| NamePath(w, p) && |p| >= 2 && p[0] == x && p[|p| - 1] == x;
    forall k: nat | k < |p| ensures p[k] in names && Shown(w, p[k]) {
      CycleNamesAreListed(w, names, p, k);
      if k < |p| - 1 {
        assert p[k + 1] in Imports(w, p[k]);
      } else {
        assert p[1] in Imports(w, p[0]);
      }
    }
    var q := seq(|p|, k requires 0 <= k < |p| => FirstOf(names, p[k]));
    forall a, b | 0 <= a < b < |q| && b == a + 1 ensures Edge(link, q[a], q[b]) {
      assert p[b] in Imports(w, p[a]);
    }
    assert Leads(link, q, FirstOf(names, x), FirstOf(names, x));
  }

  lemma {:induction false} CycleNamesAreListed(w: World, names: seq<string>, p: seq<string>, k: nat)
    requires NamePath(w, p) && p[0] in names && k < |p|
    requires ImportsListed(w, names, |names|, [])
    ensures p[k] in names
    decreases k
  {
    if k > 0 {
      CycleNamesAreListed(w, names, p, k - 1);
      assert p[k] in Imports(w, p[k - 1]);
    }
  }

  /** The transposed graph of what was discovered has exactly the imports among shown modules as edges. */
  lemma TransposeGivesImports(w: World, names: seq<string>, visible: seq<bool>, linked: Links, src: seq<nat>,
          link: Links)
    requires Entered(w, names, visible, linked, |names|, [])
    requires forall v: nat :: v in src <==> IsVisible(visible, v)
    requires IsTranspose(src, link, linked)
    ensures EdgesAreImports(w, names, link)
  {
    forall u: nat, v: nat | u < |names|
      ensures Edge(link, u, v) <==>
        v < |names| && IsFirst(names, v) && names[v] in Imports(w, names[u]) && Shown(w, names[v])
    {
      if v < |names| && v in src {
        assert v in link[u] <==> multiset(link[u])[v] > 0;
        assert multiset(linked[v])[u] == Due(w, names, |names|, [], v, u);
      }
      assert v < |names| ==> (visible[v] <==> Shown(w, names[v]));
    }
  }

  lemma ImportersAreVisible(w: World, names: seq<string>, visible: seq<bool>, linked: Links, src: seq<nat>)
    requires Entered(w, names, visible, linked, |names|, [])
    requires forall v: nat :: v in src <==> IsVisible(visible, v)
    ensures NodesBelow(src, |linked|) && ClosedUnder(src, linked)
  {
    forall v: nat, u: nat | v in src && u in linked[v] ensures u in src {
      assert multiset(linked[v])[u] == Due(w, names, |names|, [], v, u);
      assert multiset(linked[v])[u] > 0;
    }
  }

  // ---------------------------------------------------------------- main

  /** Steps 1 and 2 of the marking, for the visible modules `src`. */
  method FindCycles(src: seq<nat>, link: Links, linked: Links) returns (marked: seq<nat>)
    requires IsTranspose(src, link, linked) && ClosedUnder(src, linked) && Increasing(src)
    requires Total(src, link) == Total(src, linked)
    ensures Increasing(marked)
    ensures forall v: nat :: v in marked <==> OnCycle(link, v)
  {
    TransposeIsTransposed(src, link, linked);
    var din, dout, dsum := CountDegrees(src, link, linked);
    assert dsum == 0;
    ghost var alive := Peel(src, link, linked, din, dout);
    var cand := Candidates(src, alive, link, linked, din, dout[..]);
    marked := MarkCycles(link, cand);
  }

  lemma TransposeIsTransposed(src: seq<nat>, link: Links, linked: Links)
    requires IsTranspose(src, link, linked) && ClosedUnder(src, linked)
    ensures Transposed(NodesOf(src), link, linked) && Spans(NodesOf(src), link)
  {
    forall u: nat | u < |link| && link[u] != [] ensures u in NodesOf(src) {
      assert link[u][0] in link[u];
    }
  }

  /** The colours, by name, each name once. */
  ghost predicate ColoursCycles(w: World, args: seq<string>, coloured: seq<string>) {
    && NoDuplicates(coloured)
    && forall x :: x in coloured <==> Reachable(w, args, x) && OnImportCycle(w, x)
  }

  /**
   The program: a name is coloured, and then once, exactly when it is reachable from the given names and has a non-empty
   import path back to itself, all through readable modules that are not excluded.
   */
  method Analyse(w: World, args: seq<string>) returns (coloured: seq<string>)
    ensures ColoursCycles(w, args, coloured)
  {
    var sources := new Sources(args);
    sources.Discover(w, args);
    coloured := Colour(w, args, sources.names, sources.visible, sources.linked);
  }

  /** Everything after the discovery. */
  method Colour(ghost w: World, ghost args: seq<string>, names: seq<string>, visible: seq<bool>, linked: Links)
    returns (coloured: seq<string>)
    requires Entered(w, names, visible, linked, |names|, []) && args <= names && Listed(w, args, names)
    ensures ColoursCycles(w, args, coloured)
  {
    var src := KeepVisible(visible);
    ImportersAreVisible(w, names, visible, linked, src);
    var link := Transpose(src, linked);
    TransposeGivesImports(w, names, visible, linked, src, link);
    var marked := FindCycles(src, link, linked);
    forall v: nat | v in marked ensures v < |names| {
      CycleByName(w, names, link, v);
    }
    coloured := NamesAt(names, marked);
    DiscoveredIsReachable(w, args, names, visible, linked);
    MarkedIsColoured(w, args, names, link, marked, coloured);
  }

  /** The names at the marked positions, in order. */
  ghost predicate AreNamesAt(names: seq<string>, marked: seq<nat>, coloured: seq<string>) {
    |coloured| == |marked| && forall k | 0 <= k < |marked| :: marked[k] < |names| && coloured[k] == names[marked[k]]
  }

  lemma MarkedIsColoured(w: World, args: seq<string>, names: seq<string>, link: Links, marked: seq<nat>,
          coloured: seq<string>)
    requires EdgesAreImports(w, names, link) && ImportsListed(w, names, |names|, [])
    requires Increasing(marked) && forall v: nat :: v in marked <==> OnCycle(link, v)
    requires forall x :: x in names <==> Reachable(w, args, x)
    requires AreNamesAt(names, marked, coloured)
    ensures ColoursCycles(w, args, coloured)
  {
    NamedOnce(w, names, link, marked, coloured);
    forall x | x in names && OnImportCycle(w, x) ensures x in coloured {
      CycleByPosition(w, names, link, x);
      var k :| 0 <= k < |marked| && marked[k] == FirstOf(names, x);
      assert coloured[k] == x;
    }
    forall x | x in coloured ensures x in names && OnImportCycle(w, x) {
      var k :| 0 <= k < |coloured| && coloured[k] == x;
      assert marked[k] in marked;
      CycleByName(w, names, link, marked[k]);
    }
  }

  /** Only the first module of a name can be on a cycle. */
  lemma NamedOnce(w: World, names: seq<string>, link: Links, marked: seq<nat>, coloured: seq<string>)
    requires EdgesAreImports(w, names, link) && Increasing(marked) && forall v: nat | v in marked :: OnCycle(link, v)
    requires AreNamesAt(names, marked, coloured)
    ensures NoDuplicates(coloured)
  {
    forall a, b | 0 <= a < b < |coloured| ensures coloured[a] != coloured[b] {
      assert marked[b] in marked;
      CycleByName(w, names, link, marked[b]);
      assert names[..marked[b]][marked[a]] == coloured[a];
    }
  }

  method NamesAt(names: seq<string>, marked: seq<nat>) returns (coloured: seq<string>)
    requires NodesBelow(marked, |names|)
    ensures AreNamesAt(names, marked, coloured)
  {
    coloured := [];
    var k := 0;
    while k < |marked|
      invariant 0 <= k <= |marked| && AreNamesAt(names, marked[..k], coloured)
    {
      assert marked[k] in marked;
      coloured := coloured + [names[marked[k]]];
      k := k + 1;
    }
    assert marked[..|marked|] == marked;
  }
}
