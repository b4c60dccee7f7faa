/** The tag hierarchy resolver: the recursive `tag_hierarchy` query that
    pairs every selected root with every tag reachable from it by zero or
    more parent-to-child relationships. Here it is an explicit fixed point
    over the finite edge set; it terminates on cyclic relationships because
    every round adds a child tag that was not collected yet. */
module Hierarchy {
  import opened Store
  import Sets

  type Edges = set<(TagId, TagId)>

  /** Every child tag of some relationship. */
  function Targets(edges: Edges): set<TagId>
  {
    set e | e in edges :: e.1
  }

  /** The children, one relationship away, of the tags in `s`. */
  function Step(edges: Edges, s: set<TagId>): (c: set<TagId>)
    ensures forall t :: t in c <==> exists e | e in edges :: e.0 in s && e.1 == t
  {
    set e | e in edges && e.0 in s :: e.1
  }

  /** The least superset of `s` closed under taking children: the rows the
      recursive query's UNION accumulates for the roots in `s`. */
  function Closure(edges: Edges, s: set<TagId>): (c: set<TagId>)
    ensures s <= c
    ensures Step(edges, c) <= c
    ensures c <= s + Targets(edges)
    decreases |Targets(edges) - s|
  {
    var next := s + Step(edges, s);
    if next <= s then s
    else
      var t :| t in next - s;
      Sets.RemainderShrinks(Targets(edges), s, next, t);
      Closure(edges, next)
  }

  /** `p` is a walk from `a` to `b` along parent-to-child relationships. */
  ghost predicate WalkFromTo(edges: Edges, p: seq<TagId>, a: TagId, b: TagId)
  {
    && |p| >= 1 && p[0] == a && p[|p| - 1] == b
    && forall i | 0 <= i < |p| - 1 :: (p[i], p[i + 1]) in edges
  }

  /** `b` is `a` or a descendant of `a`. */
  ghost predicate Reachable(edges: Edges, a: TagId, b: TagId)
  {
    exists p :: WalkFromTo(edges, p, a, b)
  }

  lemma ReachableExtend(edges: Edges, a: TagId, b: TagId, c: TagId)
    requires Reachable(edges, a, b) && (b, c) in edges
    ensures Reachable(edges, a, c)
  {
    var p :| WalkFromTo(edges, p, a, b);
    assert WalkFromTo(edges, p + [c], a, c);
  }

  lemma ReachableTrans(edges: Edges, a: TagId, b: TagId, c: TagId)
    requires Reachable(edges, a, b) && Reachable(edges, b, c)
    ensures Reachable(edges, a, c)
  {
    var p :| WalkFromTo(edges, p, a, b);
    var q :| WalkFromTo(edges, q, b, c);
    var w := p + q[1..];
    assert WalkFromTo(edges, w, a, c) by {
      forall i | 0 <= i < |w| - 1
        ensures (w[i], w[i + 1]) in edges
      {
        if i < |p| - 1 {
          assert w[i] == p[i] && w[i + 1] == p[i + 1];
        } else {
          var j := i - (|p| - 1);
          assert w[i] == q[j] && w[i + 1] == q[j + 1];
        }
      }
    }
  }

  /** Everything the closure collects descends from one of its seeds. */
  lemma {:induction false} ClosureSound(edges: Edges, s: set<TagId>, t: TagId)
    requires t in Closure(edges, s)
    ensures exists r | r in s :: Reachable(edges, r, t)
    decreases |Targets(edges) - s|
  {
    var next := s + Step(edges, s);
    if u :| u in next && u !in s {
      Sets.RemainderShrinks(Targets(edges), s, next, u);
      assert Closure(edges, s) == Closure(edges, next);
      ClosureSound(edges, next, t);
      var m :| m in next && Reachable(edges, m, t);
      if m !in s {
        var e :| e in edges && e.0 in s && e.1 == m;
        assert WalkFromTo(edges, [e.0, m], e.0, m);
        ReachableTrans(edges, e.0, m, t);
      }
    } else {
      assert next <= s;
      assert WalkFromTo(edges, [t], t, t);
    }
  }

  /** A set that holds the seeds and is closed under children holds every
      descendant of them. */
  lemma ClosedSetHoldsDescendants(edges: Edges, c: set<TagId>, r: TagId, t: TagId)
    requires r in c && Step(edges, c) <= c
    requires Reachable(edges, r, t)
    ensures t in c
  {
    var p :| WalkFromTo(edges, p, r, t);
    var i := 0;
    while i < |p| - 1
      invariant 0 <= i <= |p| - 1
      invariant p[i] in c
    {
      assert (p[i], p[i + 1]) in edges;
      assert p[i + 1] in Step(edges, c);
      i := i + 1;
    }
  }

  /** The closure of a set of roots is exactly the set of tags reachable
      from one of them. */
  lemma ClosureIsReachability(edges: Edges, s: set<TagId>, t: TagId)
    ensures t in Closure(edges, s) <==> exists r | r in s :: Reachable(edges, r, t)
  {
    if t in Closure(edges, s) {
      ClosureSound(edges, s, t);
    }
    if r :| r in s && Reachable(edges, r, t) {
      ClosedSetHoldsDescendants(edges, Closure(edges, s), r, t);
    }
  }

  /** Expanding an expansion adds nothing. */
  lemma ClosureIdempotent(edges: Edges, s: set<TagId>)
    ensures Closure(edges, Closure(edges, s)) == Closure(edges, s)
  {
    var c := Closure(edges, s);
    assert c + Step(edges, c) <= c;
  }

  /** The tags the recursive query pairs with `root`: nothing when the root
      is not a row of Tags (its seed row is never produced), otherwise the
      root and all its descendants. */
  function Descendants(edges: Edges, tags: set<TagId>, root: TagId): (d: set<TagId>)
    ensures forall t :: t in d <==> root in tags && Reachable(edges, root, t)
  {
    if root in tags then
      var c := Closure(edges, {root});
      assert forall t :: t in c <==> Reachable(edges, root, t) by {
        forall t ensures t in c <==> Reachable(edges, root, t) {
          ClosureIsReachability(edges, {root}, t);
        }
      }
      c
    else {}
  }
}
