/**
  The two tables that every iteration of the DAG engine maintains -- the link
  (direct edge) table and the descendant (transitive closure) table -- and what it
  means for the second to be correct with respect to the first.

  A link whose parent is `None` is the root sentinel: it marks a node as a root and
  never contributes a path. A closure row `(a, d, L)` claims a path of length `L`
  made of real links from `a` to `d`; the table is exact when it holds precisely the
  rows that such paths justify, one row per distinct length (so `(n, n, 0)` for every
  node, and two rows for a pair joined by paths of two different lengths).
*/
module Graph {
  import opened Wrappers
  import opened Collections

  type NodeId = nat

  /** A row of the link table; a `None` parent is the root sentinel. */
  datatype Link = Link(parent: Option<NodeId>, child: NodeId)

  /** A row of the descendant table. */
  datatype Row = Row(ancestor: NodeId, descendant: NodeId, distance: nat)

  /** The exceptions the engines raise. */
  datatype DagError = ParentHasNoId | ChildHasNoId | ClassMismatch | SelfReferential | ChildIsNil | ClosesCycle

  datatype Outcome = Pass | Fail(error: DagError)

  // ---------------------------------------------------------------------------
  // Paths

  /** `p` lists, node by node, a walk along real (non-sentinel) links. */
  ghost predicate IsPath(nodes: set<NodeId>, links: set<Link>, p: seq<NodeId>) {
    && |p| >= 1
    && (forall i :: 0 <= i < |p| ==> p[i] in nodes)
    && (forall i :: 0 <= i < |p| - 1 ==> Link(Some(p[i]), p[i + 1]) in links)
  }

  /** Row `r` is witnessed by a real path of exactly its distance. */
  ghost predicate Justified(nodes: set<NodeId>, links: set<Link>, r: Row) {
    exists p :: IsPath(nodes, links, p) && |p| == r.distance + 1 && p[0] == r.ancestor && p[|p| - 1] == r.descendant
  }

  /** The closure table holds exactly the rows that real paths justify. */
  ghost predicate Exact(nodes: set<NodeId>, links: set<Link>, closure: set<Row>) {
    forall r :: r in closure <==> Justified(nodes, links, r)
  }

  /** Some real path, of any length, runs from `a` to `d`. */
  ghost predicate Reaches(nodes: set<NodeId>, links: set<Link>, a: NodeId, d: NodeId) {
    exists p :: IsPath(nodes, links, p) && p[0] == a && p[|p| - 1] == d
  }

  /** No real path of length one or more returns to where it started. */
  ghost predicate Acyclic(nodes: set<NodeId>, links: set<Link>) {
    forall p :: IsPath(nodes, links, p) && |p| >= 2 ==> p[0] != p[|p| - 1]
  }

  /** Every link mentions only nodes. */
  ghost predicate LinksIn(nodes: set<NodeId>, links: set<Link>) {
    forall l :: l in links ==> l.child in nodes && (l.parent.Some? ==> l.parent.value in nodes)
  }

  /** Every closure row mentions only nodes. */
  ghost predicate RowsIn(nodes: set<NodeId>, closure: set<Row>) {
    forall r :: r in closure ==> r.ancestor in nodes && r.descendant in nodes
  }

  ghost predicate WellFormed(nodes: set<NodeId>, links: set<Link>, closure: set<Row>) {
    LinksIn(nodes, links) && RowsIn(nodes, closure)
  }

  /** The ids of the real parents of `x`. */
  function RealParents(links: set<Link>, x: NodeId): set<NodeId> {
    set l | l in links && l.child == x && l.parent.Some? :: l.parent.value
  }

  /** The ids of the children of `x`. */
  function Children(links: set<Link>, x: NodeId): set<NodeId> {
    set l | l in links && l.parent == Some(x) :: l.child
  }

  // ---------------------------------------------------------------------------
  // Facts about paths

  lemma SubPath(nodes: set<NodeId>, links: set<Link>, p: seq<NodeId>, i: nat, j: nat)
    requires IsPath(nodes, links, p) && i < j <= |p|
    ensures IsPath(nodes, links, p[i..j])
  {
    var s := p[i..j];
    forall k | 0 <= k < |s| - 1 ensures Link(Some(s[k]), s[k + 1]) in links {
      assert s[k] == p[i + k] && s[k + 1] == p[i + k + 1];
    }
  }

  /** The first step of a path of two or more nodes is a real link. */
  lemma FirstStep(nodes: set<NodeId>, links: set<Link>, p: seq<NodeId>)
    requires IsPath(nodes, links, p)
    ensures |p| >= 2 ==> Link(Some(p[0]), p[1]) in links
    ensures |p| >= 2 ==> p[1] in Children(links, p[0])
  {
    if |p| >= 2 {
      assert Link(Some(p[0]), p[1]) in links;
    }
  }

  /** ...and so is its last step. */
  lemma LastStep(nodes: set<NodeId>, links: set<Link>, p: seq<NodeId>)
    requires IsPath(nodes, links, p)
    ensures |p| >= 2 ==> p[|p| - 2] in RealParents(links, p[|p| - 1])
  {
    if |p| >= 2 {
      assert Link(Some(p[|p| - 2]), p[|p| - 1]) in links;
    }
  }

  /** Two paths that meet in a node make one path. */
  lemma Glue(nodes: set<NodeId>, links: set<Link>, p: seq<NodeId>, q: seq<NodeId>)
    requires IsPath(nodes, links, p) && IsPath(nodes, links, q) && p[|p| - 1] == q[0]
    ensures IsPath(nodes, links, p + q[1..]) && |p + q[1..]| == |p| + |q| - 1
  {
    var s := p + q[1..];
    forall k | 0 <= k < |s| ensures s[k] in nodes {
      if k >= |p| { assert s[k] == q[k - |p| + 1]; }
    }
    forall k | 0 <= k < |s| - 1 ensures Link(Some(s[k]), s[k + 1]) in links {
      if k < |p| - 1 {
        assert s[k] == p[k] && s[k + 1] == p[k + 1];
      } else {
        assert s[k] == q[k - |p| + 1] && s[k + 1] == q[k - |p| + 2];
      }
    }
  }

  /** Two paths joined by a link make one path. */
  lemma Join(nodes: set<NodeId>, links: set<Link>, p: seq<NodeId>, q: seq<NodeId>)
    requires IsPath(nodes, links, p) && IsPath(nodes, links, q)
    requires Link(Some(p[|p| - 1]), q[0]) in links
    ensures IsPath(nodes, links, p + q)
  {
    var s := p + q;
    forall k | 0 <= k < |s| - 1 ensures Link(Some(s[k]), s[k + 1]) in links {
      if k < |p| - 1 {
        assert s[k] == p[k] && s[k + 1] == p[k + 1];
      } else if k >= |p| {
        assert s[k] == q[k - |p|] && s[k + 1] == q[k - |p| + 1];
      }
    }
  }

  lemma PathMono(nodes: set<NodeId>, links: set<Link>, more: set<Link>, p: seq<NodeId>)
    requires links <= more && IsPath(nodes, links, p)
    ensures IsPath(nodes, more, p)
  {
  }

  /** Only real links matter: tables that agree on them have the same paths, the same
      justified rows and the same cycles. */
  lemma SameRealLinks(nodes: set<NodeId>, l1: set<Link>, l2: set<Link>)
    requires forall l: Link :: l.parent.Some? ==> (l in l1 <==> l in l2)
    ensures forall p :: IsPath(nodes, l1, p) <==> IsPath(nodes, l2, p)
    ensures forall r :: Justified(nodes, l1, r) <==> Justified(nodes, l2, r)
    ensures forall closure :: Exact(nodes, l1, closure) <==> Exact(nodes, l2, closure)
    ensures Acyclic(nodes, l1) <==> Acyclic(nodes, l2)
  {
    forall p ensures IsPath(nodes, l1, p) <==> IsPath(nodes, l2, p) {
      if IsPath(nodes, l1, p) {
        forall k | 0 <= k < |p| - 1 ensures Link(Some(p[k]), p[k + 1]) in l2 {
          assert Link(Some(p[k]), p[k + 1]) in l1;
        }
      }
      if IsPath(nodes, l2, p) {
        forall k | 0 <= k < |p| - 1 ensures Link(Some(p[k]), p[k + 1]) in l1 {
          assert Link(Some(p[k]), p[k + 1]) in l2;
        }
      }
    }
  }

  lemma AcyclicSubset(nodes: set<NodeId>, links: set<Link>, fewer: set<Link>)
    requires fewer <= links && Acyclic(nodes, links)
    ensures Acyclic(nodes, fewer)
  {
    forall p | IsPath(nodes, fewer, p) && |p| >= 2 ensures p[0] != p[|p| - 1] {
      PathMono(nodes, fewer, links, p);
    }
  }

  /** In an acyclic graph a path visits no node twice. */
  lemma PathDistinct(nodes: set<NodeId>, links: set<Link>, p: seq<NodeId>)
    requires Acyclic(nodes, links) && IsPath(nodes, links, p)
    ensures Distinct(p)
  {
    forall i, j | 0 <= i < j < |p| ensures p[i] != p[j] {
      SubPath(nodes, links, p, i, j + 1);
      var s := p[i..j + 1];
      assert |s| >= 2 && s[0] == p[i] && s[|s| - 1] == p[j];
    }
  }

  /** In an acyclic graph no path is longer than the number of nodes: this bounds the
      depth-first rebuild. */
  lemma PathBound(nodes: set<NodeId>, links: set<Link>, p: seq<NodeId>)
    requires Acyclic(nodes, links) && IsPath(nodes, links, p)
    ensures |p| <= |nodes|
  {
    PathDistinct(nodes, links, p);
    DistinctCard(p);
    SubsetCard(Elements(p), nodes);
  }

  /** Extending a path to a child of its last node gives a path, still within the bound. */
  lemma ExtendToChildren(nodes: set<NodeId>, links: set<Link>, stack: seq<NodeId>)
    requires LinksIn(nodes, links) && Acyclic(nodes, links) && IsPath(nodes, links, stack)
    ensures forall ch :: ch in Children(links, stack[|stack| - 1]) ==>
      IsPath(nodes, links, stack + [ch]) && |stack + [ch]| <= |nodes|
  {
    forall ch | ch in Children(links, stack[|stack| - 1])
      ensures IsPath(nodes, links, stack + [ch]) && |stack + [ch]| <= |nodes|
    {
      var l :| l in links && l.parent == Some(stack[|stack| - 1]) && l.child == ch;
      assert l == Link(Some(stack[|stack| - 1]), ch);
      Join(nodes, links, stack, [ch]);
      PathBound(nodes, links, stack + [ch]);
    }
  }

  /** Walking up real parents from any node ends at a node without a real parent. */
  lemma {:induction false} RootAbove(nodes: set<NodeId>, links: set<Link>, w: seq<NodeId>)
    requires LinksIn(nodes, links) && Acyclic(nodes, links) && IsPath(nodes, links, w)
    ensures exists v :: IsPath(nodes, links, v) && v[|v| - 1] == w[|w| - 1] && RealParents(links, v[0]) == {}
    decreases |nodes| - |w|
  {
    PathBound(nodes, links, w);
    if RealParents(links, w[0]) != {} {
      var y :| y in RealParents(links, w[0]);
      var l :| l in links && l.child == w[0] && l.parent.Some? && l.parent.value == y;
      assert l == Link(Some(y), w[0]);
      Join(nodes, links, [y], w);
      PathBound(nodes, links, [y] + w);
      RootAbove(nodes, links, [y] + w);
    } else {
      assert IsPath(nodes, links, w) && w[|w| - 1] == w[|w| - 1] && RealParents(links, w[0]) == {};
    }
  }

  // ---------------------------------------------------------------------------
  // The link rule

  /** The rows that name `parent` as descendant: its ancestors with their distances,
      itself at distance 0. A `None` parent has none. */
  function AncestorRows(closure: set<Row>, parent: Option<NodeId>): set<Row> {
    set r | r in closure && Some(r.descendant) == parent
  }

  /** The rows that name `child` as ancestor: its descendants with their distances. */
  function DescendantRows(closure: set<Row>, child: NodeId): set<Row> {
    set r | r in closure && r.ancestor == child
  }

  /** Joining every ancestor row with every descendant row through one new link. */
  function CrossOf(ancestors: set<Row>, descendants: set<Row>): set<Row> {
    set a, d | a in ancestors && d in descendants :: Row(a.ancestor, d.descendant, a.distance + d.distance + 1)
  }

  /** The rows a new link from `parent` to `child` adds. */
  function Cross(closure: set<Row>, parent: Option<NodeId>, child: NodeId): set<Row> {
    CrossOf(AncestorRows(closure, parent), DescendantRows(closure, child))
  }

  lemma CrossOfNone(closure: set<Row>, child: NodeId)
    ensures Cross(closure, None, child) == {}
  {
  }

  /** A path in the graph with the new link `p -> c` that starts at `c` never takes the
      new link, if that graph is acyclic. */
  lemma FromChildAvoidsNewLink(nodes: set<NodeId>, links: set<Link>, p: NodeId, c: NodeId, q: seq<NodeId>)
    requires Acyclic(nodes, links + {Link(Some(p), c)})
    requires IsPath(nodes, links + {Link(Some(p), c)}, q) && q[0] == c
    ensures IsPath(nodes, links, q)
  {
    var more := links + {Link(Some(p), c)};
    forall k | 0 <= k < |q| - 1 ensures Link(Some(q[k]), q[k + 1]) in links {
      SubPath(nodes, more, q, 0, k + 2);
      var s := q[..k + 2];
      assert |s| >= 2 && s[0] == c && s[|s| - 1] == q[k + 1];
      assert q[k + 1] != c;
    }
  }

  /** Likewise for a path that ends at `p`. */
  lemma ToParentAvoidsNewLink(nodes: set<NodeId>, links: set<Link>, p: NodeId, c: NodeId, q: seq<NodeId>)
    requires Acyclic(nodes, links + {Link(Some(p), c)})
    requires IsPath(nodes, links + {Link(Some(p), c)}, q) && q[|q| - 1] == p
    ensures IsPath(nodes, links, q)
  {
    var more := links + {Link(Some(p), c)};
    forall k | 0 <= k < |q| - 1 ensures Link(Some(q[k]), q[k + 1]) in links {
      SubPath(nodes, more, q, k, |q|);
      var s := q[k..];
      assert |s| >= 2 && s[0] == q[k] && s[|s| - 1] == p;
      assert q[k] != p;
    }
  }

  /** A path that uses the new link uses it once: it is an old path to `p`, the link,
      and an old path from `c`. */
  lemma SplitAtNewLink(nodes: set<NodeId>, links: set<Link>, p: NodeId, c: NodeId, q: seq<NodeId>)
    requires Acyclic(nodes, links + {Link(Some(p), c)})
    requires IsPath(nodes, links + {Link(Some(p), c)}, q)
    ensures IsPath(nodes, links, q) ||
      exists i :: 0 <= i < |q| - 1 && q[i] == p && q[i + 1] == c &&
        IsPath(nodes, links, q[..i + 1]) && IsPath(nodes, links, q[i + 1..])
  {
    var more := links + {Link(Some(p), c)};
    if !IsPath(nodes, links, q) {
      var i :| 0 <= i < |q| - 1 && Link(Some(q[i]), q[i + 1]) !in links;
      assert q[i] == p && q[i + 1] == c;
      SubPath(nodes, more, q, 0, i + 1);
      SubPath(nodes, more, q, i + 1, |q|);
      ToParentAvoidsNewLink(nodes, links, p, c, q[..i + 1]);
      FromChildAvoidsNewLink(nodes, links, p, c, q[i + 1..]);
    }
  }

  /** Every cross row is a path through the new link. */
  lemma CrossJustified(nodes: set<NodeId>, links: set<Link>, closure: set<Row>, p: NodeId, c: NodeId, r: Row)
    requires forall x :: x in closure ==> Justified(nodes, links, x)
    requires r in Cross(closure, Some(p), c)
    ensures Justified(nodes, links + {Link(Some(p), c)}, r)
  {
    var more := links + {Link(Some(p), c)};
    var a, d :| a in AncestorRows(closure, Some(p)) && d in DescendantRows(closure, c) &&
      r == Row(a.ancestor, d.descendant, a.distance + d.distance + 1);
    assert Justified(nodes, links, a) && Justified(nodes, links, d);
    var pa :| IsPath(nodes, links, pa) && |pa| == a.distance + 1 && pa[0] == a.ancestor && pa[|pa| - 1] == p;
    var pd :| IsPath(nodes, links, pd) && |pd| == d.distance + 1 && pd[0] == c && pd[|pd| - 1] == d.descendant;
    PathMono(nodes, links, more, pa);
    PathMono(nodes, links, more, pd);
    Join(nodes, more, pa, pd);
    var q := pa + pd;
    assert |q| == r.distance + 1 && q[0] == r.ancestor && q[|q| - 1] == r.descendant;
  }

  /** The link rule: if the closure was exact, adding the cross rows makes it exact for
      the table with the new link, provided that link closes no cycle. */
  lemma LinkKeepsExact(nodes: set<NodeId>, links: set<Link>, closure: set<Row>, p: NodeId, c: NodeId)
    requires Exact(nodes, links, closure)
    requires Acyclic(nodes, links + {Link(Some(p), c)})
    ensures Exact(nodes, links + {Link(Some(p), c)}, closure + Cross(closure, Some(p), c))
  {
    var more := links + {Link(Some(p), c)};
    var grown := closure + Cross(closure, Some(p), c);
    forall r ensures r in grown <==> Justified(nodes, more, r) {
      if r in closure {
        var q :| IsPath(nodes, links, q) && |q| == r.distance + 1 && q[0] == r.ancestor && q[|q| - 1] == r.descendant;
        PathMono(nodes, links, more, q);
      } else if r in Cross(closure, Some(p), c) {
        CrossJustified(nodes, links, closure, p, c, r);
      }
      if Justified(nodes, more, r) {
        var q :| IsPath(nodes, more, q) && |q| == r.distance + 1 && q[0] == r.ancestor && q[|q| - 1] == r.descendant;
        SplitAtNewLink(nodes, links, p, c, q);
        if !IsPath(nodes, links, q) {
          var i :| 0 <= i < |q| - 1 && q[i] == p && q[i + 1] == c &&
            IsPath(nodes, links, q[..i + 1]) && IsPath(nodes, links, q[i + 1..]);
          var a := Row(q[0], p, i);
          var d := Row(c, q[|q| - 1], |q| - i - 2);
          assert Justified(nodes, links, a) by {
            assert q[..i + 1][0] == q[0] && q[..i + 1][i] == p;
          }
          assert Justified(nodes, links, d) by {
            var s := q[i + 1..];
            assert |s| == d.distance + 1 && s[0] == c && s[|s| - 1] == q[|q| - 1];
          }
          assert a in AncestorRows(closure, Some(p)) && d in DescendantRows(closure, c);
          assert r == Row(a.ancestor, d.descendant, a.distance + d.distance + 1);
        }
      }
    }
  }

  // ---------------------------------------------------------------------------
  // The unlink rule

  /** The ancestors of `p` as the closure lists them, `p` included. */
  function PathIds(closure: set<Row>, p: NodeId): set<NodeId> {
    set r | r in closure && r.descendant == p :: r.ancestor
  }

  /** The descendants of `c` as the closure lists them, `c` included. */
  function SubtreeIds(closure: set<Row>, c: NodeId): set<NodeId> {
    set r | r in closure && r.ancestor == c :: r.descendant
  }

  /** The rows that removing a link deletes: every row from the parent's path to the
      child's subtree, whatever its distance. */
  function Block(closure: set<Row>, above: set<NodeId>, below: set<NodeId>): set<Row> {
    set r | r in closure && r.ancestor in above && r.descendant in below
  }

  /** The nodes of `affected` left without a real parent; the rebuild starts there. */
  function StartingPoints(links: set<Link>, affected: set<NodeId>): set<NodeId> {
    set x | x in affected && RealParents(links, x) == {}
  }

  /** The rows a rebuild step writes for the walk `stack`: one from every node of the walk
      to its last node, at the distance along the walk. */
  function Stamp(stack: seq<NodeId>): set<Row>
    requires |stack| >= 1
  {
    set i | 0 <= i < |stack| :: Row(stack[i], stack[|stack| - 1], |stack| - 1 - i)
  }

  /** Everything the depth-first rebuild writes when it reaches the end of `stack`:
      the stamp of `stack`, then the same below every child of its last node. */
  function Rebuilt(nodes: set<NodeId>, links: set<Link>, stack: seq<NodeId>): set<Row>
    requires LinksIn(nodes, links) && Acyclic(nodes, links) && IsPath(nodes, links, stack)
    decreases |nodes| - |stack|, 1
  {
    PathBound(nodes, links, stack);
    Stamp(stack) + RebuiltBelow(nodes, links, stack, Children(links, stack[|stack| - 1]))
  }

  /** What the rebuild writes below the children `kids` of the end of `stack`. */
  function RebuiltBelow(nodes: set<NodeId>, links: set<Link>, stack: seq<NodeId>, kids: set<NodeId>): set<Row>
    requires LinksIn(nodes, links) && Acyclic(nodes, links) && IsPath(nodes, links, stack)
    requires kids <= Children(links, stack[|stack| - 1])
    decreases |nodes| - |stack|, 0
  {
    PathBound(nodes, links, stack);
    ExtendToChildren(nodes, links, stack);
    set ch, r | ch in kids && r in Rebuilt(nodes, links, stack + [ch]) :: r
  }

  /** The rows of a rebuild from each starting point, each with an empty walk behind it. */
  function RebuiltFrom(nodes: set<NodeId>, links: set<Link>, starts: set<NodeId>): set<Row>
    requires LinksIn(nodes, links) && Acyclic(nodes, links) && starts <= nodes
  {
    set s, r | s in starts && r in Rebuilt(nodes, links, [s]) :: r
  }

  /** The closure after removing the link `p -> c` from `links`, giving `remaining`:
      the block is deleted, then the rebuild runs from the starting points. */
  function Repaired(nodes: set<NodeId>, remaining: set<Link>, closure: set<Row>, p: NodeId, c: NodeId): set<Row>
    requires LinksIn(nodes, remaining) && Acyclic(nodes, remaining) && RowsIn(nodes, closure)
  {
    var above := PathIds(closure, p);
    var below := SubtreeIds(closure, c);
    (closure - Block(closure, above, below)) + RebuiltFrom(nodes, remaining, StartingPoints(remaining, above + below))
  }

  lemma StampJustified(nodes: set<NodeId>, links: set<Link>, stack: seq<NodeId>)
    requires IsPath(nodes, links, stack)
    ensures forall r :: r in Stamp(stack) ==> Justified(nodes, links, r)
  {
    forall r | r in Stamp(stack) ensures Justified(nodes, links, r) {
      var i :| 0 <= i < |stack| && r == Row(stack[i], stack[|stack| - 1], |stack| - 1 - i);
      SubPath(nodes, links, stack, i, |stack|);
      var q := stack[i..];
      assert |q| == r.distance + 1 && q[0] == r.ancestor && q[|q| - 1] == r.descendant;
    }
  }

  /** The rebuild writes only rows that real paths justify. */
  lemma {:induction false} RebuiltSound(nodes: set<NodeId>, links: set<Link>, stack: seq<NodeId>)
    requires LinksIn(nodes, links) && Acyclic(nodes, links) && IsPath(nodes, links, stack)
    ensures forall r :: r in Rebuilt(nodes, links, stack) ==> Justified(nodes, links, r)
    decreases |nodes| - |stack|
  {
    PathBound(nodes, links, stack);
    ExtendToChildren(nodes, links, stack);
    StampJustified(nodes, links, stack);
    forall ch | ch in Children(links, stack[|stack| - 1]) {
      RebuiltSound(nodes, links, stack + [ch]);
    }
  }

  /** The rebuild misses nothing below its walk: for every path `w` that continues
      `stack`, it writes the row from each node of `w` to the end of `w`. */
  lemma {:induction false} RebuiltComplete(nodes: set<NodeId>, links: set<Link>, stack: seq<NodeId>, w: seq<NodeId>, i: nat)
    requires LinksIn(nodes, links) && Acyclic(nodes, links) && IsPath(nodes, links, stack)
    requires IsPath(nodes, links, w) && |stack| <= |w| && w[..|stack|] == stack && i < |w|
    ensures Row(w[i], w[|w| - 1], |w| - 1 - i) in Rebuilt(nodes, links, stack)
    decreases |w| - |stack|
  {
    PathBound(nodes, links, stack);
    ExtendToChildren(nodes, links, stack);
    if |w| == |stack| {
      assert w == stack;
      assert Row(w[i], w[|w| - 1], |w| - 1 - i) in Stamp(stack);
    } else {
      var ch := w[|stack|];
      assert Link(Some(w[|stack| - 1]), ch) in links;
      assert w[|stack| - 1] == stack[|stack| - 1];
      assert ch in Children(links, stack[|stack| - 1]);
      assert w[..|stack| + 1] == stack + [ch];
      RebuiltComplete(nodes, links, stack + [ch], w, i);
    }
  }

  /** A path that uses the removed link joins the parent's path to the child's subtree,
      so the row it justifies lies in the block. */
  lemma AvoidsRemovedOrBlocked(nodes: set<NodeId>, links: set<Link>, closure: set<Row>, p: NodeId, c: NodeId, q: seq<NodeId>)
    requires Exact(nodes, links, closure) && IsPath(nodes, links, q)
    ensures IsPath(nodes, links - {Link(Some(p), c)}, q) ||
      Row(q[0], q[|q| - 1], |q| - 1) in Block(closure, PathIds(closure, p), SubtreeIds(closure, c))
  {
    var remaining := links - {Link(Some(p), c)};
    if !IsPath(nodes, remaining, q) {
      var i :| 0 <= i < |q| - 1 && Link(Some(q[i]), q[i + 1]) !in remaining;
      assert q[i] == p && q[i + 1] == c;
      SubPath(nodes, links, q, 0, i + 1);
      SubPath(nodes, links, q, i + 1, |q|);
      var up := q[..i + 1];
      var down := q[i + 1..];
      assert |up| == i + 1 && up[0] == q[0] && up[|up| - 1] == p;
      assert |down| == |q| - i - 1 && down[0] == c && down[|down| - 1] == q[|q| - 1];
      assert Row(q[0], p, i) in closure;
      assert Row(c, q[|q| - 1], |q| - i - 2) in closure;
      assert Row(q[0], q[|q| - 1], |q| - 1) in closure;
    }
  }

  /** Every node in the parent's path has a root above it that is in the path too. */
  lemma RootInPath(nodes: set<NodeId>, links: set<Link>, remaining: set<Link>, closure: set<Row>, p: NodeId, a: NodeId)
    requires LinksIn(nodes, remaining) && Acyclic(nodes, remaining) && remaining <= links
    requires Exact(nodes, links, closure) && a in PathIds(closure, p)
    ensures exists v :: (IsPath(nodes, remaining, v) && v[|v| - 1] == a && RealParents(remaining, v[0]) == {} &&
      v[0] in PathIds(closure, p))
  {
    var ra :| ra in closure && ra.descendant == p && ra.ancestor == a;
    var pa :| IsPath(nodes, links, pa) && |pa| == ra.distance + 1 && pa[0] == a && pa[|pa| - 1] == p;
    RootAbove(nodes, remaining, [a]);
    var v :| IsPath(nodes, remaining, v) && v[|v| - 1] == a && RealParents(remaining, v[0]) == {};
    PathMono(nodes, remaining, links, v);
    Glue(nodes, links, v, pa);
    var g := v + pa[1..];
    assert g[0] == v[0] && g[|g| - 1] == p;
    assert Row(v[0], p, |g| - 1) in closure;
  }

  /** A row that survives the deletion is still justified once the link is gone. */
  lemma KeptStillJustified(nodes: set<NodeId>, links: set<Link>, closure: set<Row>, p: NodeId, c: NodeId, r: Row)
    requires Exact(nodes, links, closure)
    requires r in closure - Block(closure, PathIds(closure, p), SubtreeIds(closure, c))
    ensures Justified(nodes, links - {Link(Some(p), c)}, r)
  {
    var q :| IsPath(nodes, links, q) && |q| == r.distance + 1 && q[0] == r.ancestor && q[|q| - 1] == r.descendant;
    AvoidsRemovedOrBlocked(nodes, links, closure, p, c, q);
  }

  /** A deleted row that the remaining links still justify is written again by the
      rebuild from the root above its ancestor. */
  lemma LostRowRebuilt(nodes: set<NodeId>, links: set<Link>, closure: set<Row>, p: NodeId, c: NodeId, r: Row)
    requires LinksIn(nodes, links) && Acyclic(nodes, links) && Exact(nodes, links, closure)
    requires RowsIn(nodes, closure) && Acyclic(nodes, links - {Link(Some(p), c)})
    requires r in Block(closure, PathIds(closure, p), SubtreeIds(closure, c))
    requires Justified(nodes, links - {Link(Some(p), c)}, r)
    ensures r in RebuiltFrom(nodes, links - {Link(Some(p), c)},
      StartingPoints(links - {Link(Some(p), c)}, PathIds(closure, p) + SubtreeIds(closure, c)))
  {
    var remaining := links - {Link(Some(p), c)};
    var above := PathIds(closure, p);
    var q :| IsPath(nodes, remaining, q) && |q| == r.distance + 1 && q[0] == r.ancestor && q[|q| - 1] == r.descendant;
    RootInPath(nodes, links, remaining, closure, p, r.ancestor);
    var v :| IsPath(nodes, remaining, v) && v[|v| - 1] == r.ancestor && RealParents(remaining, v[0]) == {} &&
      v[0] in above;
    Glue(nodes, remaining, v, q);
    var w := v + q[1..];
    assert v[0] in StartingPoints(remaining, above + SubtreeIds(closure, c));
    assert w[..1] == [v[0]];
    RebuiltComplete(nodes, remaining, [v[0]], w, |v| - 1);
    assert w[|v| - 1] == r.ancestor && w[|w| - 1] == r.descendant;
  }

  /** The unlink rule: deleting the block and rebuilding from the starting points
      leaves exactly the rows that the remaining links justify. */
  lemma UnlinkRepairsExact(nodes: set<NodeId>, links: set<Link>, closure: set<Row>, p: NodeId, c: NodeId)
    requires LinksIn(nodes, links) && Acyclic(nodes, links) && Exact(nodes, links, closure)
    ensures RowsIn(nodes, closure) && Acyclic(nodes, links - {Link(Some(p), c)})
    ensures Exact(nodes, links - {Link(Some(p), c)}, Repaired(nodes, links - {Link(Some(p), c)}, closure, p, c))
  {
    var remaining := links - {Link(Some(p), c)};
    AcyclicSubset(nodes, links, remaining);
    ExactRowsIn(nodes, links, closure);
    var above := PathIds(closure, p);
    var below := SubtreeIds(closure, c);
    var starts := StartingPoints(remaining, above + below);
    var result := Repaired(nodes, remaining, closure, p, c);
    assert result == (closure - Block(closure, above, below)) + RebuiltFrom(nodes, remaining, starts);
    forall r ensures r in result <==> Justified(nodes, remaining, r) {
      if r in closure - Block(closure, above, below) {
        KeptStillJustified(nodes, links, closure, p, c, r);
      }
      if r in RebuiltFrom(nodes, remaining, starts) {
        var s :| s in starts && r in Rebuilt(nodes, remaining, [s]);
        RebuiltSound(nodes, remaining, [s]);
      }
      if Justified(nodes, remaining, r) {
        var q :| IsPath(nodes, remaining, q) && |q| == r.distance + 1 && q[0] == r.ancestor && q[|q| - 1] == r.descendant;
        PathMono(nodes, remaining, links, q);
        assert r in closure;
        if r in Block(closure, above, below) {
          LostRowRebuilt(nodes, links, closure, p, c, r);
        }
      }
    }
  }

  /** An exact closure mentions only nodes. */
  lemma ExactRowsIn(nodes: set<NodeId>, links: set<Link>, closure: set<Row>)
    requires Exact(nodes, links, closure)
    ensures RowsIn(nodes, closure)
  {
    forall r | r in closure ensures r.ancestor in nodes && r.descendant in nodes {
      var q :| IsPath(nodes, links, q) && |q| == r.distance + 1 && q[0] == r.ancestor && q[|q| - 1] == r.descendant;
    }
  }

  // ---------------------------------------------------------------------------
  // Steps of the table updates

  /** The rows one ancestor row contributes: it joined with each descendant row. */
  function JoinAncestor(a: Row, descendants: set<Row>): set<Row> {
    set d | d in descendants :: Row(a.ancestor, d.descendant, a.distance + d.distance + 1)
  }

  /** The cross product grows one ancestor row at a time... */
  lemma CrossOfAddAncestor(ancestors: set<Row>, descendants: set<Row>, a: Row)
    ensures CrossOf(ancestors + {a}, descendants) == CrossOf(ancestors, descendants) + JoinAncestor(a, descendants)
  {
    var more, less, share := CrossOf(ancestors + {a}, descendants), CrossOf(ancestors, descendants), JoinAncestor(a, descendants);
    forall x | x in more ensures x in less + share {
      var b, d :| b in ancestors + {a} && d in descendants && x == Row(b.ancestor, d.descendant, b.distance + d.distance + 1);
      if b in ancestors {
        assert x in less;
      } else {
        assert x in share;
      }
    }
    forall x | x in less + share ensures x in more {
      if x in share {
        var d :| d in descendants && x == Row(a.ancestor, d.descendant, a.distance + d.distance + 1);
        assert a in ancestors + {a};
      } else {
        var b, d :| b in ancestors && d in descendants && x == Row(b.ancestor, d.descendant, b.distance + d.distance + 1);
        assert b in ancestors + {a};
      }
    }
  }

  /** ...and one ancestor's share grows one descendant row at a time. */
  lemma JoinAncestorAdd(a: Row, descendants: set<Row>, d: Row)
    ensures JoinAncestor(a, descendants + {d}) == JoinAncestor(a, descendants) + {Row(a.ancestor, d.descendant, a.distance + d.distance + 1)}
  {
  }

  /** The cross rows mention only nodes. */
  lemma CrossRowsIn(nodes: set<NodeId>, closure: set<Row>, parent: Option<NodeId>, child: NodeId)
    requires RowsIn(nodes, closure)
    ensures RowsIn(nodes, closure + Cross(closure, parent, child))
  {
  }

  /** The rebuild below a set of children grows one child at a time. */
  lemma RebuiltBelowAdd(nodes: set<NodeId>, links: set<Link>, stack: seq<NodeId>, kids: set<NodeId>, ch: NodeId)
    requires LinksIn(nodes, links) && Acyclic(nodes, links) && IsPath(nodes, links, stack)
    requires kids + {ch} <= Children(links, stack[|stack| - 1])
    ensures IsPath(nodes, links, stack + [ch])
    ensures RebuiltBelow(nodes, links, stack, kids + {ch}) ==
      RebuiltBelow(nodes, links, stack, kids) + Rebuilt(nodes, links, stack + [ch])
  {
    ExtendToChildren(nodes, links, stack);
  }

  /** The rebuild from a set of starting points grows one starting point at a time. */
  lemma RebuiltFromAdd(nodes: set<NodeId>, links: set<Link>, starts: set<NodeId>, s: NodeId)
    requires LinksIn(nodes, links) && Acyclic(nodes, links) && starts + {s} <= nodes
    ensures IsPath(nodes, links, [s])
    ensures RebuiltFrom(nodes, links, starts + {s}) == RebuiltFrom(nodes, links, starts) + Rebuilt(nodes, links, [s])
  {
  }

  /** Everything the rebuild writes mentions only nodes. */
  lemma RebuiltRowsIn(nodes: set<NodeId>, links: set<Link>, starts: set<NodeId>)
    requires LinksIn(nodes, links) && Acyclic(nodes, links) && starts <= nodes
    ensures RowsIn(nodes, RebuiltFrom(nodes, links, starts))
  {
    forall r | r in RebuiltFrom(nodes, links, starts) ensures r.ancestor in nodes && r.descendant in nodes {
      var s :| s in starts && r in Rebuilt(nodes, links, [s]);
      RebuiltSound(nodes, links, [s]);
      var q :| IsPath(nodes, links, q) && |q| == r.distance + 1 && q[0] == r.ancestor && q[|q| - 1] == r.descendant;
    }
  }

  /** The repaired closure mentions only nodes. */
  lemma RepairedRowsIn(nodes: set<NodeId>, remaining: set<Link>, closure: set<Row>, p: NodeId, c: NodeId)
    requires LinksIn(nodes, remaining) && Acyclic(nodes, remaining) && RowsIn(nodes, closure)
    ensures RowsIn(nodes, Repaired(nodes, remaining, closure, p, c))
  {
    var above := PathIds(closure, p);
    var below := SubtreeIds(closure, c);
    RebuiltRowsIn(nodes, remaining, StartingPoints(remaining, above + below));
  }

  /** A fresh node with its self row and its root sentinel keeps the closure exact: no
      real link reaches it, so its only path is itself. */
  lemma AddNodeKeepsExact(nodes: set<NodeId>, links: set<Link>, closure: set<Row>, n: NodeId)
    requires LinksIn(nodes, links) && Exact(nodes, links, closure) && n !in nodes
    ensures Exact(nodes + {n}, links + {Link(None, n)}, closure + {Row(n, n, 0)})
  {
    var nodes' := nodes + {n};
    var links' := links + {Link(None, n)};
    SameRealLinks(nodes', links, links');
    forall q | IsPath(nodes', links, q) ensures q == [n] || IsPath(nodes, links, q) {
      if |q| > 1 {
        forall k | 0 <= k < |q| ensures q[k] in nodes {
          if k < |q| - 1 {
            assert Link(Some(q[k]), q[k + 1]) in links;
          } else {
            assert Link(Some(q[k - 1]), q[k]) in links;
          }
        }
      } else if q[0] != n {
        assert q[0] in nodes;
      }
    }
    forall r ensures r in closure + {Row(n, n, 0)} <==> Justified(nodes', links, r) {
      if r in closure {
        var q :| IsPath(nodes, links, q) && |q| == r.distance + 1 && q[0] == r.ancestor && q[|q| - 1] == r.descendant;
        assert IsPath(nodes', links, q);
      }
      if r == Row(n, n, 0) {
        assert IsPath(nodes', links, [n]);
      }
      if Justified(nodes', links, r) {
        var q :| IsPath(nodes', links, q) && |q| == r.distance + 1 && q[0] == r.ancestor && q[|q| - 1] == r.descendant;
        assert q == [n] || Justified(nodes, links, r);
      }
    }
  }

  /** Paths only grow with links. */
  lemma ReachesMono(nodes: set<NodeId>, links: set<Link>, more: set<Link>, a: NodeId, d: NodeId)
    requires links <= more
    ensures Reaches(nodes, links, a, d) ==> Reaches(nodes, more, a, d)
  {
    if Reaches(nodes, links, a, d) {
      var q :| IsPath(nodes, links, q) && q[0] == a && q[|q| - 1] == d;
      PathMono(nodes, links, more, q);
    }
  }

  /** A path with the new link `x -> o` that does not take it is an old path; otherwise
      its start reaches `x` and `o` reaches its end along old links. */
  lemma {:induction false} PrefixToNewLink(nodes: set<NodeId>, links: set<Link>, x: NodeId, o: NodeId, q: seq<NodeId>)
    requires IsPath(nodes, links + {Link(Some(x), o)}, q)
    ensures IsPath(nodes, links, q) || Reaches(nodes, links, q[0], x)
  {
    if |q| > 1 {
      var more := links + {Link(Some(x), o)};
      SubPath(nodes, more, q, 1, |q|);
      if Link(Some(q[0]), q[1]) in links {
        PrefixToNewLink(nodes, links, x, o, q[1..]);
        if IsPath(nodes, links, q[1..]) {
          assert q == [q[0]] + q[1..];
          Join(nodes, links, [q[0]], q[1..]);
        } else {
          var v :| IsPath(nodes, links, v) && v[0] == q[1] && v[|v| - 1] == x;
          Join(nodes, links, [q[0]], v);
          assert ([q[0]] + v)[0] == q[0];
        }
      } else {
        assert q[0] == x;
        assert IsPath(nodes, links, [x]);
      }
    }
  }

  lemma {:induction false} SuffixFromNewLink(nodes: set<NodeId>, links: set<Link>, x: NodeId, o: NodeId, q: seq<NodeId>)
    requires IsPath(nodes, links + {Link(Some(x), o)}, q)
    ensures IsPath(nodes, links, q) || Reaches(nodes, links, o, q[|q| - 1])
  {
    if |q| > 1 {
      var more := links + {Link(Some(x), o)};
      var m := |q| - 1;
      SubPath(nodes, more, q, 0, m);
      if Link(Some(q[m - 1]), q[m]) in links {
        SuffixFromNewLink(nodes, links, x, o, q[..m]);
        if IsPath(nodes, links, q[..m]) {
          assert q == q[..m] + [q[m]];
          Join(nodes, links, q[..m], [q[m]]);
        } else {
          var v :| IsPath(nodes, links, v) && v[0] == o && v[|v| - 1] == q[m - 1];
          Join(nodes, links, v, [q[m]]);
          assert (v + [q[m]])[|v|] == q[m];
        }
      } else {
        assert q[m] == o;
        assert IsPath(nodes, links, [o]);
      }
    }
  }

  lemma ReachesTrans(nodes: set<NodeId>, links: set<Link>, a: NodeId, b: NodeId, b': NodeId, d: NodeId)
    requires Reaches(nodes, links, a, b) && Reaches(nodes, links, b', d)
    ensures b == b' ==> Reaches(nodes, links, a, d)
  {
    if b == b' {
      var p :| IsPath(nodes, links, p) && p[0] == a && p[|p| - 1] == b;
      var q :| IsPath(nodes, links, q) && q[0] == b' && q[|q| - 1] == d;
      Glue(nodes, links, p, q);
      var g := p + q[1..];
      assert g[0] == a && g[|g| - 1] == d;
    }
  }

  /** The nodes one real link below a node of `seen`. */
  function StepBelow(nodes: set<NodeId>, links: set<Link>, seen: set<NodeId>): set<NodeId> {
    set l | l in links && l.parent.Some? && l.parent.value in seen && l.child in nodes :: l.child
  }

  /** The nodes at most `steps` real links below a node of `seen`, found level by level. */
  function ReachedWithin(nodes: set<NodeId>, links: set<Link>, seen: set<NodeId>, steps: nat): (r: set<NodeId>)
    ensures seen <= r
    decreases steps
  {
    if steps == 0 then seen else ReachedWithin(nodes, links, seen + StepBelow(nodes, links, seen), steps - 1)
  }

  /** Everything the search finds is reached from `a` when everything it started from is. */
  lemma {:induction false} ReachedWithinSound(nodes: set<NodeId>, links: set<Link>, a: NodeId, seen: set<NodeId>, steps: nat)
    requires forall x :: x in seen ==> Reaches(nodes, links, a, x)
    ensures forall x :: x in ReachedWithin(nodes, links, seen, steps) ==> Reaches(nodes, links, a, x)
    decreases steps
  {
    if steps > 0 {
      forall c | c in StepBelow(nodes, links, seen) ensures Reaches(nodes, links, a, c) {
        var l :| l in links && l.parent.Some? && l.parent.value in seen && l.child in nodes && l.child == c;
        var q :| IsPath(nodes, links, q) && q[0] == a && q[|q| - 1] == l.parent.value;
        assert IsPath(nodes, links, q + [c]);
        assert (q + [c])[0] == a;
      }
      ReachedWithinSound(nodes, links, a, seen + StepBelow(nodes, links, seen), steps - 1);
    }
  }

  /** The search finds the end of every path from `seen` with at most `steps` links. */
  lemma {:induction false} ReachedWithinComplete(nodes: set<NodeId>, links: set<Link>, seen: set<NodeId>, steps: nat, q: seq<NodeId>)
    requires IsPath(nodes, links, q) && q[0] in seen && |q| <= steps + 1
    ensures q[|q| - 1] in ReachedWithin(nodes, links, seen, steps)
    decreases steps
  {
    if |q| >= 2 {
      FirstStep(nodes, links, q);
      assert q[1] in StepBelow(nodes, links, seen);
      SubPath(nodes, links, q, 1, |q|);
      ReachedWithinComplete(nodes, links, seen + StepBelow(nodes, links, seen), steps - 1, q[1..]);
    }
  }

  /** On an acyclic graph, `|nodes|` levels of the search from `a` find exactly what `a`
      reaches. */
  lemma ReachedWithinIsReach(nodes: set<NodeId>, links: set<Link>, a: NodeId)
    requires Acyclic(nodes, links) && a in nodes
    ensures forall d :: d in ReachedWithin(nodes, links, {a}, |nodes|) <==> Reaches(nodes, links, a, d)
  {
    assert IsPath(nodes, links, [a]);
    ReachedWithinSound(nodes, links, a, {a}, |nodes|);
    forall d | Reaches(nodes, links, a, d) ensures d in ReachedWithin(nodes, links, {a}, |nodes|) {
      var q :| IsPath(nodes, links, q) && q[0] == a && q[|q| - 1] == d;
      PathBound(nodes, links, q);
      ReachedWithinComplete(nodes, links, {a}, |nodes|, q);
    }
  }

  /** So the search tells whether `a` reaches any node of `ps`. */
  lemma ReachedWithinMeets(nodes: set<NodeId>, links: set<Link>, a: NodeId, ps: set<NodeId>)
    requires Acyclic(nodes, links) && a in nodes
    ensures ps * ReachedWithin(nodes, links, {a}, |nodes|) == {} <==> forall d :: d in ps ==> !Reaches(nodes, links, a, d)
  {
    ReachedWithinIsReach(nodes, links, a);
    if ps * ReachedWithin(nodes, links, {a}, |nodes|) != {} {
      var d :| d in ps * ReachedWithin(nodes, links, {a}, |nodes|);
      assert d in ps && Reaches(nodes, links, a, d);
    } else {
      var found := ReachedWithin(nodes, links, {a}, |nodes|);
      forall d | d in ps ensures !Reaches(nodes, links, a, d) {
        assert d !in ps * found;
      }
    }
  }

  /** A link `x -> o` closes no cycle when `o` does not reach `x`. */
  lemma AddLinkAcyclic(nodes: set<NodeId>, links: set<Link>, x: NodeId, o: NodeId)
    requires Acyclic(nodes, links) && !Reaches(nodes, links, o, x)
    ensures Acyclic(nodes, links + {Link(Some(x), o)})
  {
    var more := links + {Link(Some(x), o)};
    forall q | IsPath(nodes, more, q) && |q| >= 2 ensures q[0] != q[|q| - 1] {
      PrefixToNewLink(nodes, links, x, o, q);
      SuffixFromNewLink(nodes, links, x, o, q);
      if !IsPath(nodes, links, q) {
        ReachesTrans(nodes, links, o, q[|q| - 1], q[0], x);
      }
    }
  }

  /** After adding a link into `o` without closing a cycle, `o` reaches only what it
      reached before. */
  lemma IncomingKeepsReach(nodes: set<NodeId>, links: set<Link>, x: NodeId, o: NodeId, d: NodeId)
    requires Acyclic(nodes, links + {Link(Some(x), o)})
    ensures Reaches(nodes, links + {Link(Some(x), o)}, o, d) ==> Reaches(nodes, links, o, d)
  {
    if Reaches(nodes, links + {Link(Some(x), o)}, o, d) {
      var q :| IsPath(nodes, links + {Link(Some(x), o)}, q) && q[0] == o && q[|q| - 1] == d;
      FromChildAvoidsNewLink(nodes, links, x, o, q);
    }
  }
}
