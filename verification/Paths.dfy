/** Import graphs and their paths: `link[u]` lists the targets of module `u`, repeats included. */
module Paths {
  type Links = seq<seq<nat>>

  /** In the order of creation, each module once. */
  ghost predicate Increasing(s: seq<nat>) {
    forall a, b | 0 <= a < b < |s| :: s[a] < s[b]
  }

  /** Going on with the next of an increasing list keeps a selection from it increasing. */
  lemma IncreasingNext(part: seq<nat>, s: seq<nat>, k: nat)
    requires Increasing(part) && Increasing(s) && k < |s| && forall v | v in part :: v in s[..k]
    ensures Increasing(part + [s[k]])
  {
    forall a | 0 <= a < |part| ensures part[a] < s[k] {
      assert part[a] in s[..k];
    }
  }

  predicate Edge(link: Links, u: nat, v: nat) {
    u < |link| && v in link[u]
  }

  /** A walk along one edge or more. */
  ghost predicate IsPath(link: Links, p: seq<nat>) {
    |p| >= 2 && forall a, b | 0 <= a < b < |p| && b == a + 1 :: Edge(link, p[a], p[b])
  }

  ghost predicate Leads(link: Links, p: seq<nat>, u: nat, v: nat) {
    IsPath(link, p) && p[0] == u && p[|p| - 1] == v
  }

  ghost predicate Connected(link: Links, u: nat, v: nat) {
    exists p :: Leads(link, p, u, v)
  }

  ghost predicate OnCycle(link: Links, v: nat) {
    Connected(link, v, v)
  }

  lemma LeadsThrough(link: Links, p: seq<nat>, q: seq<nat>, u: nat, v: nat, w: nat)
    requires Leads(link, p, u, v) && Leads(link, q, v, w)
    ensures Leads(link, p + q[1..], u, w)
  {
  }

  /** Every node of a cycle is on a cycle, and so are its neighbours along it. */
  lemma CycleRotates(link: Links, p: seq<nat>, k: nat)
    requires IsPath(link, p) && p[0] == p[|p| - 1] && k < |p|
    ensures OnCycle(link, p[k])
  {
    if 0 < k < |p| - 1 {
      var head, tail := p[..k + 1], p[k..];
      assert Leads(link, head, p[0], p[k]) by {
        forall m | 0 <= m < |head| - 1 ensures Edge(link, head[m], head[m + 1]) {
          assert head[m] == p[m] && head[m + 1] == p[m + 1];
        }
      }
      assert Leads(link, tail, p[k], p[0]) by {
        forall m | 0 <= m < |tail| - 1 ensures Edge(link, tail[m], tail[m + 1]) {
          assert tail[m] == p[k + m] && tail[m + 1] == p[k + m + 1];
        }
      }
      LeadsThrough(link, tail, head, p[k], p[0], p[k]);
    } else {
      assert Leads(link, p, p[k], p[k]);
    }
  }

  lemma CycleNeighbours(link: Links, v: nat)
    requires OnCycle(link, v)
    ensures exists u :: Edge(link, u, v) && OnCycle(link, u)
    ensures exists w :: Edge(link, v, w) && OnCycle(link, w)
  {
    var p :| Leads(link, p, v, v);
    CycleRotates(link, p, |p| - 2);
    CycleRotates(link, p, 1);
    assert Edge(link, p[|p| - 2], v) && Edge(link, v, p[1]);
  }
}
