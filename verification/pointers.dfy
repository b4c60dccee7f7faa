/** The tag graph's pointer counts on the client. Every tag has a count;
    a tag with no incoming link starts at 1, every other tag at 0.
    Selecting a tag adds 1 to the count of each of its transitive
    ancestors and direct children, and deselecting it subtracts 1 again.
    The graph draws a tag when its count is positive or it is selected. */
module PointerCounts {
  import opened Wrappers
  import opened Store
  import Sets
  import Hierarchy

  /** A parent-to-child link of the client's graph. */
  datatype Link = Link(source: TagId, target: TagId)

  /** The links as the server's relationship pairs. */
  function EdgesOf(links: seq<Link>): Hierarchy.Edges
  {
    set l | l in links :: (l.source, l.target)
  }

  function Sources(links: seq<Link>): set<TagId>
  {
    set l | l in links :: l.source
  }

  /** `isOrphan`: no link points at the tag. */
  function IsOrphan(links: seq<Link>, n: TagId): (b: bool)
    ensures b <==> n !in Hierarchy.Targets(EdgesOf(links))
  {
    if exists l | l in links :: l.target == n then
      var l :| l in links && l.target == n;
      assert (l.source, l.target) in EdgesOf(links);
      false
    else
      true
  }

  /** `a` is a transitive ancestor of `n`: a parent of `n`, or an ancestor
      of such a parent. */
  ghost predicate IsAncestor(links: seq<Link>, a: TagId, n: TagId)
  {
    exists l | l in links && l.target == n :: Hierarchy.Reachable(EdgesOf(links), a, l.source)
  }

  /** `c` is a direct child of `n`. */
  predicate IsChild(links: seq<Link>, n: TagId, c: TagId)
  {
    Link(n, c) in links
  }

  /** The tags whose count a selection of `n` moves. */
  ghost predicate IsRelative(links: seq<Link>, k: TagId, n: TagId)
  {
    IsAncestor(links, k, n) || IsChild(links, n, k)
  }

  lemma ParentIsAncestor(links: seq<Link>, l: Link)
    requires l in links
    ensures IsAncestor(links, l.source, l.target)
  {
    assert Hierarchy.WalkFromTo(EdgesOf(links), [l.source], l.source, l.source);
  }

  lemma AncestorOfParent(links: seq<Link>, a: TagId, l: Link)
    requires l in links && IsAncestor(links, a, l.source)
    ensures IsAncestor(links, a, l.target)
  {
    var l' :| l' in links && l'.target == l.source
              && Hierarchy.Reachable(EdgesOf(links), a, l'.source);
    assert (l'.source, l.source) in EdgesOf(links);
    Hierarchy.ReachableExtend(EdgesOf(links), a, l'.source, l.source);
  }

  /** `addAncestors(node, relatives)`: scans the links in order; for each
      link into `node` whose source is not collected yet, collects the
      source and recurses on it. Only uncollected sources are recursed on,
      so the walk terminates on cyclic links. */
  function AddAncestors(links: seq<Link>, node: TagId, rel: set<TagId>): (r: set<TagId>)
    ensures rel <= r && r - rel <= Sources(links)
    ensures forall l | l in links && l.target == node :: l.source in r
    ensures forall x, l | x in r - rel && l in links && l.target == x :: l.source in r
    ensures forall x | x in r - rel :: IsAncestor(links, x, node)
    decreases |Sources(links) - rel|, |links| + 1
  {
    AncestorsFrom(links, 0, node, rel)
  }

  /** The `forEach` over `links[i..]` inside `addAncestors`. */
  function AncestorsFrom(links: seq<Link>, i: nat, node: TagId, rel: set<TagId>): (r: set<TagId>)
    requires i <= |links|
    ensures rel <= r && r - rel <= Sources(links)
    ensures forall j | i <= j < |links| && links[j].target == node :: links[j].source in r
    ensures forall x, l | x in r - rel && l in links && l.target == x :: l.source in r
    ensures forall x | x in r - rel :: IsAncestor(links, x, node)
    decreases |Sources(links) - rel|, |links| - i
  {
    if i == |links| then rel
    else
      var l := links[i];
      if l.target == node && l.source !in rel then
        var withSource := rel + {l.source};
        Sets.RemainderShrinks(Sources(links), rel, withSource, l.source);
        var afterSource := AddAncestors(links, l.source, withSource);
        Sets.RemainderShrinks(Sources(links), rel, afterSource, l.source);
        var r := AncestorsFrom(links, i + 1, node, afterSource);
        assert forall x, m | x in r - rel && m in links && m.target == x :: m.source in r by {
          forall x, m | x in r - rel && m in links && m.target == x ensures m.source in r {
            if x == l.source {
              assert m.source in afterSource;
            } else if x in afterSource {
              assert x in afterSource - withSource;
            } else {
              assert x in r - afterSource;
            }
          }
        }
        assert forall x | x in r - rel :: IsAncestor(links, x, node) by {
          forall x | x in r - rel ensures IsAncestor(links, x, node) {
            if x == l.source {
              ParentIsAncestor(links, l);
            } else if x in afterSource {
              AncestorOfParent(links, x, l);
            }
          }
        }
        r
      else
        AncestorsFrom(links, i + 1, node, rel)
  }

  /** `addDescendants(node, relatives)`: collects the direct children of
      `node` only; grandchildren are not visited. */
  function AddDescendants(links: seq<Link>, node: TagId, rel: set<TagId>): (r: set<TagId>)
    ensures forall x :: x in r <==> x in rel || IsChild(links, node, x)
  {
    DescendantsFrom(links, 0, node, rel)
  }

  function DescendantsFrom(links: seq<Link>, i: nat, node: TagId, rel: set<TagId>): (r: set<TagId>)
    requires i <= |links|
    ensures forall x :: x in r <==> x in rel || Link(node, x) in links[i..]
    decreases |links| - i
  {
    if i == |links| then rel
    else
      var l := links[i];
      assert links[i..] == [l] + links[i + 1..];
      DescendantsFrom(links, i + 1, node, if l.source == node then rel + {l.target} else rel)
  }

  /** The set `updatePointerCounts` builds: ancestors first, into an empty
      set, then direct children. */
  function Relatives(links: seq<Link>, node: TagId): set<TagId>
  {
    AddDescendants(links, node, AddAncestors(links, node, {}))
  }

  /** The cycle-safe walk finds exactly the transitive ancestors, so the
      tags a selection moves are exactly its ancestors and direct
      children. */
  lemma RelativesIff(links: seq<Link>, node: TagId, k: TagId)
    ensures k in Relatives(links, node) <==> IsRelative(links, k, node)
  {
    var anc := AddAncestors(links, node, {});
    assert anc - {} == anc;
    if IsAncestor(links, k, node) {
      AncestorsComplete(links, node, anc, k);
    }
  }

  /** A set that holds the parents of `node` and the parents of each of
      its members holds every ancestor of `node`. */
  lemma AncestorsComplete(links: seq<Link>, node: TagId, anc: set<TagId>, a: TagId)
    requires forall l | l in links && l.target == node :: l.source in anc
    requires forall x, l | x in anc && l in links && l.target == x :: l.source in anc
    requires IsAncestor(links, a, node)
    ensures a in anc
  {
    var edges := EdgesOf(links);
    var l :| l in links && l.target == node && Hierarchy.Reachable(edges, a, l.source);
    var w :| Hierarchy.WalkFromTo(edges, w, a, l.source);
    var k := |w| - 1;
    while k > 0
      invariant 0 <= k < |w|
      invariant w[k] in anc
    {
      assert (w[k - 1], w[k]) in edges;
      var e :| e in links && (e.source, e.target) == (w[k - 1], w[k]);
      k := k - 1;
    }
  }

  /** A pointer count; a tag missing from the map reads as 0, as
      `get(id) || 0` does. */
  function Count(counts: map<TagId, int>, k: TagId): int
  {
    if k in counts then counts[k] else 0
  }

  /** The client's graph state. */
  datatype Graph = Graph(
    nodes: seq<TagId>,
    links: seq<Link>,
    selected: set<TagId>,
    counts: map<TagId, int>,
    visible: map<TagId, bool>)

  /** `updatePointerCounts(node, delta)`: every relative's count moves by
      `delta` and its visibility flag becomes "count > 0". */
  function UpdatePointerCounts(g: Graph, node: TagId, delta: int): (r: Graph)
    ensures r.nodes == g.nodes && r.links == g.links && r.selected == g.selected
    ensures forall k :: Count(r.counts, k)
                        == Count(g.counts, k) + (if IsRelative(g.links, k, node) then delta else 0)
    ensures forall k | IsRelative(g.links, k, node) :: k in r.visible && r.visible[k] == (Count(r.counts, k) > 0)
    ensures forall k | !IsRelative(g.links, k, node) ::
              (k in r.visible <==> k in g.visible) && (k in g.visible ==> r.visible[k] == g.visible[k])
  {
    var rel := Relatives(g.links, node);
    forall k ensures k in rel <==> IsRelative(g.links, k, node) {
      RelativesIff(g.links, node, k);
    }
    var counts := map k | k in g.counts.Keys + rel ::
                    if k in rel then Count(g.counts, k) + delta else g.counts[k];
    var visible := map k | k in g.visible.Keys + rel ::
                     if k in rel then Count(g.counts, k) + delta > 0 else g.visible[k];
    g.(counts := counts, visible := visible)
  }

  /** `toggleNodeSelection`: a selected tag is deselected and its relatives
      lose a pointer, an unselected one is selected and its relatives gain
      one; the tag itself is then flagged visible. */
  function Toggle(g: Graph, node: TagId): (r: Graph)
    ensures r.nodes == g.nodes && r.links == g.links
    ensures node in g.selected ==> r.selected == g.selected - {node}
    ensures node !in g.selected ==> r.selected == g.selected + {node}
    ensures forall k :: Count(r.counts, k) == Count(g.counts, k)
              + (if IsRelative(g.links, k, node) then (if node in g.selected then -1 else 1) else 0)
    ensures node in r.visible && r.visible[node]
  {
    var updated :=
      if node in g.selected then UpdatePointerCounts(g.(selected := g.selected - {node}), node, -1)
      else UpdatePointerCounts(g.(selected := g.selected + {node}), node, 1);
    updated.(visible := updated.visible[node := true])
  }

  /** Toggling the same tag twice, with the links unchanged, restores the
      selection and every pointer count. */
  lemma ToggleTwiceRestores(g: Graph, node: TagId)
    ensures Toggle(Toggle(g, node), node).selected == g.selected
    ensures forall k :: Count(Toggle(Toggle(g, node), node).counts, k) == Count(g.counts, k)
  {
  }

  /** The count a tag starts from. */
  function Baseline(links: seq<Link>, k: TagId): int
  {
    if IsOrphan(links, k) then 1 else 0
  }

  /** The selected tags whose selection moves `k`'s count. */
  ghost function Supporters(links: seq<Link>, selected: set<TagId>, k: TagId): set<TagId>
  {
    set s | s in selected && IsRelative(links, k, s)
  }

  /** The pointer-count invariant: every tag's count is its baseline plus
      one for each selected tag it is a relative of. */
  ghost predicate CountsAgree(g: Graph)
  {
    forall k | k in g.nodes :: Count(g.counts, k) == Baseline(g.links, k) + |Supporters(g.links, g.selected, k)|
  }

  /** Toggling `node` moves the number of selected tags `k` depends on by
      exactly the amount the toggle moves `k`'s count. */
  lemma ToggleMovesSupporters(links: seq<Link>, selected: set<TagId>, node: TagId, k: TagId)
    ensures node in selected ==>
      |Supporters(links, selected - {node}, k)| == |Supporters(links, selected, k)| - (if IsRelative(links, k, node) then 1 else 0)
    ensures node !in selected ==>
      |Supporters(links, selected + {node}, k)| == |Supporters(links, selected, k)| + (if IsRelative(links, k, node) then 1 else 0)
  {
    var before := Supporters(links, selected, k);
    if node in selected {
      var after := Supporters(links, selected - {node}, k);
      if IsRelative(links, k, node) {
        assert after == before - {node};
      } else {
        assert after == before;
      }
    } else {
      var after := Supporters(links, selected + {node}, k);
      if IsRelative(links, k, node) {
        assert after == before + {node};
      } else {
        assert after == before;
      }
    }
  }

  /** Toggling keeps the counts in agreement with the selection. */
  lemma ToggleKeepsCountsAgree(g: Graph, node: TagId)
    requires CountsAgree(g)
    ensures CountsAgree(Toggle(g, node))
  {
    var r := Toggle(g, node);
    forall k | k in r.nodes
      ensures Count(r.counts, k) == Baseline(r.links, k) + |Supporters(r.links, r.selected, k)|
    {
      ToggleMovesSupporters(g.links, g.selected, node, k);
    }
  }

  /** `loadData`: every tag starts from its baseline with nothing
      selected. */
  function Load(nodes: seq<TagId>, links: seq<Link>): (g: Graph)
    ensures CountsAgree(g)
    ensures g.selected == {}
  {
    Graph(nodes, links, {}, map k | k in nodes :: Baseline(links, k),
          map k | k in nodes :: IsOrphan(links, k))
  }

  /** The pointer counts reset to the baseline on every node. */
  function ResetCounts(g: Graph): (r: Graph)
    ensures r.nodes == g.nodes && r.links == g.links && r.selected == g.selected
    ensures forall k | k in g.nodes :: Count(r.counts, k) == Baseline(g.links, k)
  {
    g.(counts := g.counts + map k | k in g.nodes :: Baseline(g.links, k))
  }

  /** Adding `s` to the selected tags adds one supporter to `k` exactly
      when `s` is new and `k` is one of its relatives. */
  lemma AddSupporter(links: seq<Link>, selected: set<TagId>, s: TagId, k: TagId)
    ensures |Supporters(links, selected + {s}, k)|
         == |Supporters(links, selected, k)| + (if IsRelative(links, k, s) && s !in selected then 1 else 0)
  {
    var before := Supporters(links, selected, k);
    var after := Supporters(links, selected + {s}, k);
    if IsRelative(links, k, s) && s !in selected {
      assert after == before + {s};
    } else {
      assert after == before;
    }
  }

  /** Re-applies one +1 update per tag of `order`, a repetition-free
      enumeration such as a set's iteration order. */
  function ReapplyAll(g: Graph, order: seq<TagId>): (r: Graph)
    requires Sets.Distinct(order)
    ensures r.nodes == g.nodes && r.links == g.links && r.selected == g.selected
    ensures forall k :: Count(r.counts, k) == Count(g.counts, k) + |Supporters(g.links, Sets.Elements(order), k)|
    decreases |order|
  {
    if |order| == 0 then g
    else
      var last := order[|order| - 1];
      var front := order[..|order| - 1];
      Sets.DistinctFront(order);
      var mid := ReapplyAll(g, front);
      var r := UpdatePointerCounts(mid, last, 1);
      forall k ensures Count(r.counts, k) == Count(g.counts, k) + |Supporters(g.links, Sets.Elements(order), k)| {
        AddSupporter(g.links, Sets.Elements(front), last, k);
        assert Count(mid.counts, k) == Count(g.counts, k) + |Supporters(g.links, Sets.Elements(front), k)|;
        assert Count(r.counts, k) == Count(mid.counts, k) + (if IsRelative(g.links, k, last) then 1 else 0);
      }
      r
  }

  /** After the links change, `createRelationship` and
      `removeRelationship` reset every node's count to its baseline and
      re-apply one +1 update per tag of `before`, the copy of the selection
      taken before the request was sent, in its iteration order. Each count
      ends as its baseline plus the number of those tags it is a relative
      of, so the counts agree with the selection exactly when the copy
      still lists it. */
  function Recount(g: Graph, before: seq<TagId>): (r: Graph)
    requires Sets.Distinct(before)
    ensures r.nodes == g.nodes && r.links == g.links && r.selected == g.selected
    ensures forall k | k in g.nodes ::
      Count(r.counts, k) == Baseline(g.links, k) + |Supporters(g.links, Sets.Elements(before), k)|
    ensures Sets.Elements(before) == g.selected ==> CountsAgree(r)
  {
    ReapplyAll(ResetCounts(g), before)
  }

  /** `createRelationship(parent, child)`: `g` is the state when the
      server's answer arrives and `before` the selection copied when the
      request was sent. When the server accepts, the link is appended and
      the counts are recomputed from `before`; otherwise nothing changes. */
  function CreateRelationship(g: Graph, parent: TagId, child: TagId, before: seq<TagId>,
                              accepted: bool): (r: Graph)
    requires Sets.Distinct(before)
    ensures !accepted ==> r == g
    ensures accepted ==> r.links == g.links + [Link(parent, child)]
    ensures accepted ==> forall k | k in g.nodes ::
      Count(r.counts, k) == Baseline(r.links, k) + |Supporters(r.links, Sets.Elements(before), k)|
    ensures accepted && Sets.Elements(before) == g.selected ==> CountsAgree(r)
    ensures r.nodes == g.nodes && r.selected == g.selected
  {
    if !accepted then g
    else Recount(g.(links := g.links + [Link(parent, child)]), before)
  }

  /** The links left after filtering out one link object: the one at
      index `i`, or none when the object is no longer listed. */
  function Without(links: seq<Link>, i: Option<nat>): seq<Link>
    requires i.Some? ==> i.value < |links|
  {
    if i.Some? then links[..i.value] + links[i.value + 1..] else links
  }

  /** `removeRelationship(relationship)`: `i` is the position of the
      clicked link object in the links when the answer arrives, or `None`
      when it has left them meanwhile (a second click on the same link, or
      a reload). When the server accepts, the filter drops exactly that
      object, or nothing, and the counts are recomputed from the selection
      copied before the request either way. */
  function RemoveRelationship(g: Graph, i: Option<nat>, before: seq<TagId>, accepted: bool): (r: Graph)
    requires i.Some? ==> i.value < |g.links|
    requires Sets.Distinct(before)
    ensures !accepted ==> r == g
    ensures accepted && i.Some? ==> r.links == g.links[..i.value] + g.links[i.value + 1..]
    ensures accepted && i.None? ==> r.links == g.links
    ensures accepted ==> forall k | k in g.nodes ::
      Count(r.counts, k) == Baseline(r.links, k) + |Supporters(r.links, Sets.Elements(before), k)|
    ensures accepted && Sets.Elements(before) == g.selected ==> CountsAgree(r)
    ensures r.nodes == g.nodes && r.selected == g.selected
  {
    if !accepted then g
    else Recount(g.(links := Without(g.links, i)), before)
  }

  /** A tag selected while the request is in flight is missing from the
      copy. If nothing was selected when the request was sent and the new
      link's parent was selected meanwhile, the child ends with count 0:
      it is hidden although its selected parent is drawn, and the counts
      no longer agree with the selection. */
  lemma StaleSelectionHidesChild(g: Graph, parent: TagId, child: TagId)
    requires child in g.nodes && parent in g.selected
    ensures Count(CreateRelationship(g, parent, child, [], true).counts, child) == 0
    ensures !CountsAgree(CreateRelationship(g, parent, child, [], true))
  {
    var links := g.links + [Link(parent, child)];
    var r := CreateRelationship(g, parent, child, [], true);
    assert links[|links| - 1] == Link(parent, child);
    assert !IsOrphan(links, child);
    assert Supporters(links, Sets.Elements([]), child) == {};
    assert IsChild(links, parent, child);
    assert parent in Supporters(links, r.selected, child);
  }

  /** `createRelationship` with the selection read when the answer
      arrives rather than before the request: the counts agree with the
      selection again after every accepted change. */
  function CreateRelationshipLive(g: Graph, parent: TagId, child: TagId, order: seq<TagId>,
                                  accepted: bool): (r: Graph)
    requires Sets.Elements(order) == g.selected && Sets.Distinct(order)
    ensures !accepted ==> r == g
    ensures accepted ==> r.links == g.links + [Link(parent, child)] && CountsAgree(r)
    ensures r.nodes == g.nodes && r.selected == g.selected
  {
    CreateRelationship(g, parent, child, order, accepted)
  }

  /** `removeRelationship` with the selection read when the answer
      arrives: the counts agree with the selection again. */
  function RemoveRelationshipLive(g: Graph, i: Option<nat>, order: seq<TagId>, accepted: bool): (r: Graph)
    requires i.Some? ==> i.value < |g.links|
    requires Sets.Elements(order) == g.selected && Sets.Distinct(order)
    ensures !accepted ==> r == g
    ensures accepted && i.Some? ==> r.links == g.links[..i.value] + g.links[i.value + 1..]
    ensures accepted && i.None? ==> r.links == g.links
    ensures accepted ==> CountsAgree(r)
    ensures r.nodes == g.nodes && r.selected == g.selected
  {
    RemoveRelationship(g, i, order, accepted)
  }

  /** `updateGraph`'s node filter: a node is drawn when its count is
      positive or it is selected. */
  function DrawnNodes(g: Graph): (d: seq<TagId>)
    ensures forall k :: k in d <==> k in g.nodes && (Count(g.counts, k) > 0 || k in g.selected)
  {
    Filter(g.nodes, k => Count(g.counts, k) > 0 || k in g.selected)
  }

  /** `updateGraph`'s link filter: a link is drawn when both ends are. */
  function DrawnLinks(g: Graph): (d: seq<Link>)
    ensures forall l :: l in d <==> l in g.links && l.source in DrawnNodes(g) && l.target in DrawnNodes(g)
  {
    var drawn := DrawnNodes(g);
    Filter(g.links, (l: Link) => l.source in drawn && l.target in drawn)
  }

  function Filter<T(!new)>(s: seq<T>, keep: T -> bool): (r: seq<T>)
    ensures forall x :: x in r <==> x in s && keep(x)
  {
    if |s| == 0 then []
    else (if keep(s[0]) then [s[0]] else []) + Filter(s[1..], keep)
  }

  /** While the counts agree with the selection, a tag is drawn exactly
      when it has no incoming link, is selected, or is an ancestor or a
      direct child of a selected tag. */
  lemma DrawnIff(g: Graph, k: TagId)
    requires CountsAgree(g) && k in g.nodes
    ensures k in DrawnNodes(g) <==>
      IsOrphan(g.links, k) || k in g.selected || exists s | s in g.selected :: IsRelative(g.links, k, s)
  {
    var sup := Supporters(g.links, g.selected, k);
    if exists s | s in g.selected :: IsRelative(g.links, k, s) {
      var s :| s in g.selected && IsRelative(g.links, k, s);
      assert s in sup;
    } else {
      assert sup == {};
    }
  }
}
