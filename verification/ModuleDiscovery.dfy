/**
 Discovering the modules of a program by following imports (doc/dimple.d:246-350).  A `Source` object is
 its position in the order of creation; the arrays of the source's fields are sequences over positions.
 */
module ModuleDiscovery {
  import opened ImportLexer
  import opened ImportReader
  import opened Paths
  import opened Sequences

  /** The readable files by path, and the modules to leave out. */
  datatype World = World(files: map<string, string>, excluded: string -> bool)

  /** `pathname`: dots become slashes, and `.d` is appended. */
  function PathOf(name: string): string {
    Slashed(name) + ".d"
  }

  function Slashed(name: string): string {
    if name == "" then "" else [if name[0] == '.' then '/' else name[0]] + Slashed(name[1..])
  }

  /** Only dots change, and only into slashes. */
  lemma {:induction false} SlashedAt(name: string)
    ensures |Slashed(name)| == |name|
    ensures forall k | 0 <= k < |name| :: Slashed(name)[k] == if name[k] == '.' then '/' else name[k]
  {
    if name != "" {
      SlashedAt(name[1..]);
    }
  }

  /** `path` is `name` with its dots as slashes, and `.d`. */
  predicate IsPathname(name: string, path: string) {
    && |path| == |name| + 2 && path[|name|] == '.' && path[|name| + 1] == 'd'
    && forall k | 0 <= k < |name| :: path[k] == if name[k] == '.' then '/' else name[k]
  }

  method Pathname(name: string) returns (path: string)
    ensures path == PathOf(name)
    ensures IsPathname(name, path)
  {
    path := "";
    var k := 0;
    while k < |name|
      invariant 0 <= k == |path| <= |name|
      invariant forall j | 0 <= j < k :: path[j] == if name[j] == '.' then '/' else name[j]
    {
      path := path + [if name[k] == '.' then '/' else name[k]];
      k := k + 1;
    }
    SlashedAt(name);
    assert path == Slashed(name);
    path := path + ".d";
  }

  /** A module that is read and shown. */
  predicate Shown(w: World, name: string) {
    !w.excluded(name) && PathOf(name) in w.files
  }

  function Imports(w: World, name: string): seq<string> {
    if Shown(w, name) then ImportNames(w.files[PathOf(name)]) else []
  }

  /** A module imports what its file says, if it is not excluded and has one. */
  lemma ImportsAreRead(w: World, name: string, path: string)
    requires IsPathname(name, path)
    ensures Shown(w, name) <==> !w.excluded(name) && path in w.files
    ensures Imports(w, name) ==
      if !w.excluded(name) && path in w.files then ImportNames(w.files[path]) else []
  {
    SlashedAt(name);
    assert path == PathOf(name);
  }

  // ---------------------------------------------------------------- reachability, by name

  ghost predicate NamePath(w: World, p: seq<string>) {
    |p| >= 1 && forall a, b | 0 <= a < b < |p| && b == a + 1 :: p[b] in Imports(w, p[a])
  }

  /** Some given name leads to `name` through shown modules. */
  ghost predicate Reachable(w: World, args: seq<string>, name: string) {
    exists p :: NamePath(w, p) && p[0] in args && p[|p| - 1] == name
  }

  lemma ReachableStep(w: World, args: seq<string>, name: string, next: string)
    requires Reachable(w, args, name) && next in Imports(w, name)
    ensures Reachable(w, args, next)
  {
    var p :| NamePath(w, p) && p[0] in args && p[|p| - 1] == name;
    var q := p + [next];
    assert NamePath(w, q) && q[0] in args && q[|q| - 1] == next;
  }

  // ---------------------------------------------------------------- the growing list

  predicate IsFirst(names: seq<string>, v: nat)
    requires v < |names|
  {
    names[v] !in names[..v]
  }

  /** How often module `u` names module `v`: imports refer to the first module of a name. */
  function Refs(names: seq<string>, mods: seq<string>, v: nat): nat
    requires v < |names|
  {
    if IsFirst(names, v) then multiset(mods)[names[v]] else 0
  }

  /** How often `u` has to be in `linked[v]` when modules before `i` are read, and of `i` the imports `mods`. */
  ghost function Due(w: World, names: seq<string>, i: nat, mods: seq<string>, v: nat, u: nat): nat
    requires v < |names|
  {
    if u < i && u < |names| then Refs(names, Imports(w, names[u]), v)
    else if u == i then Refs(names, mods, v)
    else 0
  }

  ghost predicate LinkedUpTo(w: World, names: seq<string>, linked: Links, i: nat, mods: seq<string>) {
    && |linked| == |names|
    && forall v: nat, u: nat | v < |names| :: multiset(linked[v])[u] == Due(w, names, i, mods, v, u)
  }

  /** The imports that have been read are all in the list. */
  ghost predicate ImportsListed(w: World, names: seq<string>, i: nat, mods: seq<string>) {
    && (forall u, x | 0 <= u < i && u < |names| && x in Imports(w, names[u]) :: x in names)
    && (forall x | x in mods :: x in names)
  }

  ghost predicate VisibleUpTo(w: World, names: seq<string>, visible: seq<bool>, i: nat) {
    && |visible| == |names|
    && forall u | 0 <= u < |names| && u != i :: visible[u] <==> u < i && Shown(w, names[u])
  }

  /**
   Modules before `i` are read: `visible` tells which are shown, `linked[v]` lists every module once for
   each of its imports of `v`, and all those imports are in the list.  Of module `i` the imports `mods`
   are entered so far.
   */
  ghost predicate Entered(w: World, names: seq<string>, visible: seq<bool>, linked: Links, i: nat, mods: seq<string>) {
    && VisibleUpTo(w, names, visible, i)
    && ImportsListed(w, names, i, mods)
    && LinkedUpTo(w, names, linked, i, mods)
  }

  ghost predicate AllReachable(w: World, args: seq<string>, names: seq<string>) {
    forall v | 0 <= v < |names| :: Reachable(w, args, names[v])
  }

  /** Only given names can be repeated. */
  ghost predicate RepeatsAreGiven(names: seq<string>, given: nat) {
    forall a, b | 0 <= a < b < |names| && names[a] == names[b] :: b < given
  }

  class Sources {
    var names: seq<string>
    var visible: seq<bool>
    var linked: Links

    constructor (args: seq<string>)
      ensures names == args && |visible| == |linked| == |args|
      ensures forall v | 0 <= v < |args| :: !visible[v] && linked[v] == []
    {
      names := args;
      visible := seq(|args|, _ => false);
      linked := seq(|args|, _ => []);
    }

    /** One import of module `i`: the first module of that name, or a new one, is linked. */
    method Enter(w: World, i: nat, mod: string, ghost mods: seq<string>)
      requires i < |names| && Entered(w, names, visible, linked, i, mods) && visible[i]
      modifies this
      ensures Entered(w, names, visible, linked, i, mods + [mod]) && i < |names| && visible[i]
      ensures names == if mod in old(names) then old(names) else old(names) + [mod]
    {
      var dep := FindOrAdd(w, i, mod, mods);
      ghost var before := linked;
      linked := linked[dep := linked[dep] + [i]];
      LinkAdded(w, names, before, linked, i, mods, mod, dep);
    }

    method FindOrAdd(w: World, i: nat, mod: string, ghost mods: seq<string>) returns (dep: nat)
      requires i < |names| && Entered(w, names, visible, linked, i, mods) && visible[i]
      modifies this
      ensures Entered(w, names, visible, linked, i, mods) && i < |names| && visible[i]
      ensures names == if mod in old(names) then old(names) else old(names) + [mod]
      ensures dep < |names| && names[dep] == mod && mod !in names[..dep]
    {
      dep := 0;
      while dep < |names| && names[dep] != mod
        invariant 0 <= dep <= |names| && mod !in names[..dep]
      {
        dep := dep + 1;
      }
      if dep == |names| {
        assert names[..dep] == names;
        ghost var names0, linked0 := names, linked;
        names, visible, linked := names + [mod], visible + [false], linked + [[]];
        NewName(w, names0, linked0, names, linked, i, mods, mod);
        assert names[..dep] == names0;
      }
    }

    /** Reading module `i`: all its imports are entered in order. */
    method ReadModule(w: World, i: nat, ghost args: seq<string>)
      requires i < |names| && Entered(w, names, visible, linked, i, []) && !visible[i]
      requires Listed(w, args, names)
      modifies this
      ensures |names| > i && Entered(w, names, visible, linked, i + 1, [])
      ensures i + 1 < |names| ==> !visible[i + 1]
      ensures old(names) <= names && Listed(w, args, names)
    {
      var path := Pathname(names[i]);
      if !w.excluded(names[i]) && path in w.files {
        var mods := ReadImports(w.files[path]);
        visible := visible[i := true];
        EnterAll(w, i, mods, args);
      }
    }

    method EnterAll(w: World, i: nat, mods: seq<string>, ghost args: seq<string>)
      requires i < |names| && Entered(w, names, visible, linked, i, []) && visible[i]
      requires Listed(w, args, names) && mods == Imports(w, names[i])
      modifies this
      ensures i < |names| && Entered(w, names, visible, linked, i, mods) && visible[i]
      ensures old(names) <= names && Listed(w, args, names)
    {
      ghost var curr, start := names[i], names;
      var k := 0;
      assert mods[..0] == [];
      while k < |mods|
        invariant 0 <= k <= |mods| && i < |names| && names[i] == curr
        invariant Entered(w, names, visible, linked, i, mods[..k]) && visible[i]
        invariant start <= names && Listed(w, args, names)
      {
        SplitAt(mods, k);
        ghost var before := names;
        ReachableStep(w, args, curr, mods[k]);
        Enter(w, i, mods[k], mods[..k]);
        GrownNames(w, args, start, before, names, mods[k]);
        k := k + 1;
      }
      assert mods[..|mods|] == mods;
    }

    /** The worklist loop of `main`. */
    method Discover(w: World, ghost args: seq<string>)
      requires names == args && |visible| == |linked| == |args|
      requires forall v | 0 <= v < |args| :: !visible[v] && linked[v] == []
      modifies this
      ensures Entered(w, names, visible, linked, |names|, [])
      ensures args <= names && Listed(w, args, names)
    {
      GivenAreListed(w, args);
      NothingEntered(w, names, visible, linked);
      var i := 0;
      while i < |names|
        invariant 0 <= i <= |names| && Entered(w, names, visible, linked, i, [])
        invariant i < |names| ==> !visible[i]
        invariant args <= names && Listed(w, args, names)
        decreases Unseen(w, args, names), |names| - i
      {
        ghost var before := names;
        ReadModule(w, i, args);
        UniverseShrinks(w, args, before, names);
        i := i + 1;
      }
    }
  }

  /** What holds of the list throughout. */
  ghost predicate Listed(w: World, args: seq<string>, names: seq<string>) {
    |args| <= |names| && AllReachable(w, args, names) && RepeatsAreGiven(names, |args|)
  }

  lemma GivenAreListed(w: World, args: seq<string>)
    ensures Listed(w, args, args)
  {
    forall v | 0 <= v < |args| ensures Reachable(w, args, args[v]) {
      var p := [args[v]];
      assert NamePath(w, p) && p[0] in args && p[|p| - 1] == args[v];
    }
  }

  lemma NothingEntered(w: World, names: seq<string>, visible: seq<bool>, linked: Links)
    requires |visible| == |linked| == |names|
    requires forall v | 0 <= v < |names| :: !visible[v] && linked[v] == []
    ensures Entered(w, names, visible, linked, 0, [])
  {
  }

  lemma NewName(w: World, names: seq<string>, linked: Links, names': seq<string>, linked': Links, i: nat,
          mods: seq<string>, mod: string)
    requires i < |names| && mod !in names && LinkedUpTo(w, names, linked, i, mods) && ImportsListed(w, names, i, mods)
    requires names' == names + [mod] && linked' == linked + [[]]
    ensures LinkedUpTo(w, names', linked', i, mods)
  {
    assert mod !in mods;
    forall v: nat, u: nat | v < |names'| ensures multiset(linked'[v])[u] == Due(w, names', i, mods, v, u) {
      if v == |names| {
        if u < i {
          assert names'[u] == names[u] && mod !in Imports(w, names[u]);
        }
      } else {
        assert names'[..v] == names[..v];
        assert multiset(linked[v])[u] == Due(w, names, i, mods, v, u);
      }
    }
  }

  lemma LinkAdded(w: World, names: seq<string>, linked: Links, linked': Links, i: nat, mods: seq<string>,
          mod: string, dep: nat)
    requires i < |names| && dep < |names| && names[dep] == mod && mod !in names[..dep]
    requires LinkedUpTo(w, names, linked, i, mods) && linked' == linked[dep := linked[dep] + [i]]
    ensures LinkedUpTo(w, names, linked', i, mods + [mod])
  {
  }

  lemma GrownNames(w: World, args: seq<string>, start: seq<string>, names: seq<string>, names': seq<string>,
          mod: string)
    requires names' == if mod in names then names else names + [mod]
    requires Listed(w, args, names) && Reachable(w, args, mod) && start <= names
    ensures Listed(w, args, names') && start <= names' && names <= names'
  {
  }

  // ---------------------------------------------------------------- termination: the names there are

  ghost function NameSet(names: seq<string>): set<string> {
    set x | x in names
  }

  ghost function Universe(w: World, args: seq<string>): set<string> {
    NameSet(args) + set path, x | path in w.files && x in ImportNames(w.files[path]) :: x
  }

  /** The names that are not in the list yet. */
  ghost function Unseen(w: World, args: seq<string>, names: seq<string>): set<string> {
    Universe(w, args) - NameSet(names)
  }

  lemma ReachableIsInUniverse(w: World, args: seq<string>, name: string)
    requires Reachable(w, args, name)
    ensures name in Universe(w, args)
  {
    var p :| NamePath(w, p) && p[0] in args && p[|p| - 1] == name;
    if |p| > 1 {
      assert p[|p| - 1] in Imports(w, p[|p| - 2]);
    }
  }

  /** Either no name is new, or fewer names are left. */
  lemma UniverseShrinks(w: World, args: seq<string>, names: seq<string>, names': seq<string>)
    requires names <= names' && |args| <= |names| && Listed(w, args, names')
    ensures names' == names || Unseen(w, args, names') < Unseen(w, args, names)
  {
    if names' != names {
      var x := names'[|names|];
      ReachableIsInUniverse(w, args, x);
      forall a | 0 <= a < |names| ensures names[a] != x {
        assert names[a] == names'[a];
      }
      assert x in Unseen(w, args, names) && x !in Unseen(w, args, names');
    }
  }

  // ---------------------------------------------------------------- what has been discovered

  /**
   The list ends up with exactly the names reachable from the given ones through shown modules, and it
   is free of repeats iff the given names were.
   */
  lemma {:induction false} DiscoveredIsReachable(w: World, args: seq<string>, names: seq<string>,
          visible: seq<bool>, linked: Links)
    requires Entered(w, names, visible, linked, |names|, [])
    requires args <= names && Listed(w, args, names)
    ensures forall x :: x in names <==> Reachable(w, args, x)
    ensures (forall a, b | 0 <= a < b < |names| :: names[a] != names[b])
       <==> (forall a, b | 0 <= a < b < |args| :: args[a] != args[b])
  {
    forall x | Reachable(w, args, x) ensures x in names {
      var p :| NamePath(w, p) && p[0] in args && p[|p| - 1] == x;
      PathStaysInside(w, names, visible, linked, p, |p| - 1);
    }
  }

  lemma {:induction false} PathStaysInside(w: World, names: seq<string>, visible: seq<bool>, linked: Links,
          p: seq<string>, k: nat)
    requires Entered(w, names, visible, linked, |names|, []) && NamePath(w, p) && p[0] in names && k < |p|
    ensures p[k] in names
    decreases k
  {
    if k > 0 {
      PathStaysInside(w, names, visible, linked, p, k - 1);
      assert p[k] in Imports(w, p[k - 1]);
    }
  }
}
