/**
  The current engine: one object that owns the node set, the link table and the
  descendant table of one record class, with the operations that keep the two
  tables consistent.

  Every method keeps `Valid()` (the tables mention only nodes, and the real links
  form no cycle). `ClosureExact()` (the descendant table holds exactly the rows real
  paths justify) is kept by every operation that changes links; `ResetHierarchy`
  restores it only when it resets every node.
*/
module CurrentDag {
  import opened Wrappers
  import opened Collections
  import opened Graph

  /** A record handed to the engine: its id (`None` until it is saved) and its class. */
  datatype Record = Record(id: Option<NodeId>, kind: string)

  /** The sanity checks `link` makes before it touches a table, in their order. */
  function LinkError(parent: Option<Record>, child: Record): (e: Option<DagError>)
    ensures e.None? <==>
      child.id.Some? && (parent.Some? ==> parent.value.id.Some? && parent.value.kind == child.kind)
    ensures e == Some(ParentHasNoId) <==> parent.Some? && parent.value.id.None?
    ensures e == Some(ChildHasNoId) <==> !(parent.Some? && parent.value.id.None?) && child.id.None?
    ensures e == Some(ClassMismatch) <==> child.id.Some? && parent.Some? && parent.value.id.Some? && parent.value.kind != child.kind
  {
    if parent.Some? && parent.value.id.None? then Some(ParentHasNoId)
    else if child.id.None? then Some(ChildHasNoId)
    else if parent.Some? && parent.value.kind != child.kind then Some(ClassMismatch)
    else None
  }

  /** The link a call asks for once the sanity checks pass; no parent asks for the
      root sentinel. */
  function RequestedLink(parent: Option<Record>, child: Record): (l: Link)
    requires LinkError(parent, child).None?
    ensures l.child == child.id.value
    ensures l.parent.None? <==> parent.None?
  {
    Link(if parent.None? then None else parent.value.id, child.id.value)
  }

  /** The link model's validation: a real parent may not be its own child. */
  predicate NotSelfReferential(l: Link) {
    !(l.parent.Some? && l.parent.value == l.child)
  }

  /** Every link of an acyclic table passes the validation. */
  lemma AcyclicLinksPass(nodes: set<NodeId>, links: set<Link>)
    requires LinksIn(nodes, links) && Acyclic(nodes, links)
    ensures forall l :: l in links ==> NotSelfReferential(l)
  {
    forall l | l in links && l.parent.Some? ensures l.parent.value != l.child {
      var q := [l.parent.value, l.child];
      assert IsPath(nodes, links, q);
    }
  }

  /** The ids among a list of parents, the root (`None`) dropped, in order. */
  function ExceptRoot(records: seq<Option<NodeId>>): (r: seq<NodeId>)
    ensures forall x :: x in r <==> Some(x) in records
    ensures |r| <= |records|
    ensures |r| == |records| <==> None !in records
  {
    if |records| == 0 then []
    else
      var rest := ExceptRoot(records[1..]);
      assert records == [records[0]] + records[1..];
      if records[0].None? then rest else [records[0].value] + rest
  }

  /** Dropping the root keeps the order of the rest: the result for a concatenation is
      the concatenation of the results, a real id stays and the root goes. */
  lemma {:induction false} ExceptRootAppend(a: seq<Option<NodeId>>, b: seq<Option<NodeId>>)
    ensures ExceptRoot(a + b) == ExceptRoot(a) + ExceptRoot(b)
    ensures forall x: NodeId :: ExceptRoot([Some(x)]) == [x]
    ensures ExceptRoot([None]) == []
    decreases |a|
  {
    if |a| > 0 {
      assert (a + b)[1..] == a[1..] + b;
      ExceptRootAppend(a[1..], b);
    } else {
      assert a + b == b;
    }
  }

  /** The ids named in a list of parents. */
  function Ids(records: seq<Option<NodeId>>): set<NodeId> {
    set x | x in ExceptRoot(records)
  }

  /** The link rows that name `n` as child: its real parent links and its sentinel. */
  function ParentLinks(links: set<Link>, n: NodeId): set<Link> {
    set l | l in links && l.child == n
  }

  /** The links from the real parents of `n`. */
  function RealParentLinks(links: set<Link>, n: NodeId): set<Link> {
    set l | l in links && l.child == n && l.parent.Some?
  }

  /** Whether a link touches one of `ids`, as the reset's delete condition reads it. */
  predicate Touches(l: Link, ids: seq<NodeId>) {
    (l.parent.Some? && l.parent.value in ids) || l.child in ids
  }


  /** The links from each of `ps` to `n`. */
  function LinksFrom(ps: set<NodeId>, n: NodeId): set<Link> {
    set p | p in ps :: Link(Some(p), n)
  }

  /** The root sentinels of the nodes listed. */
  function Sentinels(ids: seq<NodeId>): set<Link> {
    set x | x in ids :: Link(None, x)
  }

  /** The self rows of the nodes listed. */
  function SelfRows(ids: seq<NodeId>): set<Row> {
    set x | x in ids :: Row(x, x, 0)
  }

  /** One more record of the list adds its sentinel and its self row. */
  lemma SentinelsStep(ids: seq<NodeId>, i: nat)
    requires i < |ids|
    ensures Sentinels(ids[..i + 1]) == Sentinels(ids[..i]) + {Link(None, ids[i])}
    ensures SelfRows(ids[..i + 1]) == SelfRows(ids[..i]) + {Row(ids[i], ids[i], 0)}
  {
    assert ids[..i + 1] == ids[..i] + [ids[i]];
  }

  /** The link table after a reset of `ids`: every link touching them deleted, then a
      sentinel for each. */
  function ResetLinks(links: set<Link>, ids: seq<NodeId>): set<Link> {
    (set l | l in links && !Touches(l, ids)) + Sentinels(ids)
  }

  /** The descendant table after a reset of `ids`: every row naming one of them
      deleted, then a self row for each. */
  function ResetRows(closure: set<Row>, ids: seq<NodeId>): set<Row> {
    (set r | r in closure && r.ancestor !in ids && r.descendant !in ids) + SelfRows(ids)
  }

  lemma RealParentsWithout(links: set<Link>, n: NodeId, ps: set<NodeId>)
    ensures RealParents(links - LinksFrom(ps, n), n) == RealParents(links, n) - ps
  {
  }

  lemma RealParentsWith(links: set<Link>, n: NodeId, qs: set<NodeId>)
    ensures RealParents(links + LinksFrom(qs, n), n) == RealParents(links, n) + qs
  {
    forall q | q in qs ensures q in RealParents(links + LinksFrom(qs, n), n) {
      assert Link(Some(q), n) in links + LinksFrom(qs, n);
    }
  }

  lemma RealParentsOfLinks(links: set<Link>, n: NodeId)
    ensures LinksFrom(RealParents(links, n), n) == RealParentLinks(links, n)
  {
  }

  /** Resetting every node leaves only sentinels and self rows, and that is exact. */
  lemma ResetAllExact(nodes: set<NodeId>, links: set<Link>, closure: set<Row>, ids: seq<NodeId>)
    requires WellFormed(nodes, links, closure) && Elements(ids) == nodes
    ensures Exact(nodes, ResetLinks(links, ids), ResetRows(closure, ids))
  {
    var links' := ResetLinks(links, ids);
    forall l | l in links && l.parent.Some? ensures Touches(l, ids) {
      assert l.parent.value in Elements(ids);
    }
    assert forall l :: l in links' ==> l.parent.None?;
    forall r ensures r in ResetRows(closure, ids) <==> Justified(nodes, links', r) {
      if r in ResetRows(closure, ids) {
        assert r in SelfRows(ids);
        assert IsPath(nodes, links', [r.ancestor]);
      }
      if Justified(nodes, links', r) {
        var q :| IsPath(nodes, links', q) && |q| == r.distance + 1 && q[0] == r.ancestor && q[|q| - 1] == r.descendant;
        FirstStep(nodes, links', q);
        assert |q| == 1;
        assert r == Row(q[0], q[0], 0);
      }
    }
  }

  /** Once no real link touches `ids`, the reset changes no real link and no row that
      real paths justify, so an exact table stays exact. */
  lemma ResetIsolatedExact(nodes: set<NodeId>, links: set<Link>, closure: set<Row>, ids: seq<NodeId>)
    requires WellFormed(nodes, links, closure) && Exact(nodes, links, closure) && Elements(ids) <= nodes
    requires forall l :: l in links && l.parent.Some? ==> !Touches(l, ids)
    ensures Exact(nodes, ResetLinks(links, ids), ResetRows(closure, ids))
  {
    var links' := ResetLinks(links, ids);
    SameRealLinks(nodes, links, links');
    forall r ensures r in ResetRows(closure, ids) <==> Justified(nodes, links, r) {
      if Justified(nodes, links, r) {
        var q :| IsPath(nodes, links, q) && |q| == r.distance + 1 && q[0] == r.ancestor && q[|q| - 1] == r.descendant;
        if |q| >= 2 {
          assert Link(Some(q[0]), q[1]) in links;
          assert Link(Some(q[|q| - 2]), q[|q| - 1]) in links;
        } else {
          assert r == Row(q[0], q[0], 0);
        }
      }
      if r in SelfRows(ids) {
        assert IsPath(nodes, links, [r.ancestor]);
      }
    }
  }


  /** A row between `a` and `b`, either way round, that is not a self row. */
  predicate Between(r: Row, a: NodeId, b: NodeId) {
    r.ancestor != r.descendant && ((r.ancestor == a && r.descendant == b) || (r.ancestor == b && r.descendant == a))
  }

  /** A real path between `a` and `b`, either way round. */
  ghost predicate Connects(nodes: set<NodeId>, links: set<Link>, q: seq<NodeId>, a: NodeId, b: NodeId) {
    IsPath(nodes, links, q) && ((q[0] == a && q[|q| - 1] == b) || (q[0] == b && q[|q| - 1] == a))
  }

  /** A chain `0 -> 1 -> 2` under a root `0`, with its exact descendant table. */
  function ChainNodes(): set<NodeId> { {0, 1, 2} }
  function ChainLinks(): set<Link> { {Link(None, 0), Link(Some(0), 1), Link(Some(1), 2)} }
  function ChainRows(): set<Row> { {Row(0, 0, 0), Row(1, 1, 0), Row(2, 2, 0), Row(0, 1, 1), Row(1, 2, 1), Row(0, 2, 2)} }

  /** Along the chain every step goes to the next number. */
  lemma ChainSteps(q: seq<NodeId>)
    requires IsPath(ChainNodes(), ChainLinks(), q)
    ensures forall k :: 0 <= k < |q| ==> q[k] == q[0] + k
  {
    var k := 0;
    while k < |q| - 1
      invariant 0 <= k <= |q| - 1
      invariant forall j :: 0 <= j <= k ==> q[j] == q[0] + j
    {
      assert Link(Some(q[k]), q[k + 1]) in ChainLinks();
      k := k + 1;
    }
  }

  /** The chain's table is exact, and the chain has no cycle. */
  lemma ChainExact()
    ensures Exact(ChainNodes(), ChainLinks(), ChainRows()) && Acyclic(ChainNodes(), ChainLinks())
  {
    var nodes, links := ChainNodes(), ChainLinks();
    forall q | IsPath(nodes, links, q) ensures Row(q[0], q[|q| - 1], |q| - 1) in ChainRows() && q[0] + |q| - 1 == q[|q| - 1] {
      ChainSteps(q);
      assert q[|q| - 1] in nodes;
    }
    forall r | r in ChainRows() ensures Justified(nodes, links, r) {
      if r == Row(0, 0, 0) { assert IsPath(nodes, links, [0]); }
      if r == Row(1, 1, 0) { assert IsPath(nodes, links, [1]); }
      if r == Row(2, 2, 0) { assert IsPath(nodes, links, [2]); }
      if r == Row(0, 1, 1) { assert IsPath(nodes, links, [0, 1]); }
      if r == Row(1, 2, 1) { assert IsPath(nodes, links, [1, 2]); }
      if r == Row(0, 2, 2) { assert IsPath(nodes, links, [0, 1, 2]); }
    }
  }

  /** Resetting only the middle of the chain leaves the row `(0, 2, 2)` although no path
      joins 0 and 2 any more: a partial reset does not keep the table exact. */
  lemma PartialResetLeavesStaleRow()
    ensures Exact(ChainNodes(), ChainLinks(), ChainRows()) && Acyclic(ChainNodes(), ChainLinks())
    ensures Row(0, 2, 2) in ResetRows(ChainRows(), [1])
    ensures !Exact(ChainNodes(), ResetLinks(ChainLinks(), [1]), ResetRows(ChainRows(), [1]))
  {
    ChainExact();
    var nodes := ChainNodes();
    var links' := ResetLinks(ChainLinks(), [1]);
    assert links' == {Link(None, 0), Link(None, 1)};
    forall q | IsPath(nodes, links', q) ensures |q| == 1 {
      FirstStep(nodes, links', q);
    }
    assert Row(0, 2, 2) in ResetRows(ChainRows(), [1]);
    assert !Justified(nodes, links', Row(0, 2, 2));
  }

  class Dag {
    var nodes: set<NodeId>
    var links: set<Link>
    var closure: set<Row>

    /** If false, a record stops being a root when it gains a parent. */
    const allowRootAndParent: bool

    /** The record class whose tables these are. */
    const kind: string

    ghost predicate Valid()
      reads this
    {
      WellFormed(nodes, links, closure) && Acyclic(nodes, links)
    }

    ghost predicate ClosureExact()
      reads this
    {
      Exact(nodes, links, closure)
    }

    constructor(allowRootAndParent: bool, kind: string)
      ensures this.allowRootAndParent == allowRootAndParent && this.kind == kind
      ensures nodes == {} && links == {} && closure == {}
      ensures Valid() && ClosureExact()
    {
      this.allowRootAndParent := allowRootAndParent;
      this.kind := kind;
      nodes := {};
      links := {};
      closure := {};
    }

    // -------------------------------------------------------------------------
    // Creating a record

    /** `initialize_dag`: find or create the self row and the root sentinel. Either
        is created only when the record has no row of that kind at all. */
    method InitializeDag(n: NodeId)
      requires Valid() && n in nodes
      modifies this`links, this`closure
      ensures closure == old(closure) + (if DescendantRows(old(closure), n) == {} then {Row(n, n, 0)} else {})
      ensures links == old(links) + (if ParentLinks(old(links), n) == {} then {Link(None, n)} else {})
      ensures Valid() && (old(ClosureExact()) ==> ClosureExact() && closure == old(closure))
    {
      if ClosureExact() {
        assert IsPath(nodes, links, [n]);
        assert Row(n, n, 0) in closure;
        assert Row(n, n, 0) in DescendantRows(closure, n);
      }
      if DescendantRows(closure, n) == {} {
        closure := closure + {Row(n, n, 0)};
      }
      if ParentLinks(links, n) == {} {
        SameRealLinks(nodes, links, links + {Link(None, n)});
        links := links + {Link(None, n)};
      }
    }

    /** Saving a new record, whose `after_create` hook initialises it. */
    method Create(n: NodeId)
      requires Valid() && n !in nodes
      modifies this
      ensures nodes == old(nodes) + {n}
      ensures links == old(links) + {Link(None, n)} && closure == old(closure) + {Row(n, n, 0)}
      ensures Valid() && (old(ClosureExact()) ==> ClosureExact())
    {
      if ClosureExact() {
        AddNodeKeepsExact(nodes, links, closure, n);
      }
      assert DescendantRows(closure, n) == {};
      assert ParentLinks(links, n) == {};
      nodes := nodes + {n};
      forall p | IsPath(nodes, links, p) && |p| >= 2 ensures p[0] != p[|p| - 1] {
        assert IsPath(old(nodes), links, p) by {
          forall k | 0 <= k < |p| ensures p[k] in old(nodes) {
            if k < |p| - 1 {
              assert Link(Some(p[k]), p[k + 1]) in links;
            } else {
              assert Link(Some(p[k - 1]), p[k]) in links;
            }
          }
        }
      }
      InitializeDag(n);
    }

    // -------------------------------------------------------------------------
    // Linking

    /** The closure update after a link is saved: every ancestor row of the parent
        joined with every descendant row of the child, both read before the loop. */
    method UpdateTransitiveClosureForNewLink(l: Link)
      modifies this`closure
      ensures closure == old(closure) + Cross(old(closure), l.parent, l.child)
    {
      var ancestors := AncestorRows(closure, l.parent);
      var descendants := DescendantRows(closure, l.child);
      JoinAll(ancestors, descendants);
    }

    /** The outer loop of the update: every ancestor row in turn (the loop is written as
        recursion on the ancestor rows not yet joined). */
    method JoinAll(ancestors: set<Row>, descendants: set<Row>)
      modifies this`closure
      ensures closure == old(closure) + CrossOf(ancestors, descendants)
      decreases |ancestors|
    {
      if ancestors != {} {
        var a :| a in ancestors;
        JoinRows(a, descendants);
        JoinAll(ancestors - {a}, descendants);
        CrossOfAddAncestor(ancestors - {a}, descendants, a);
        assert ancestors - {a} + {a} == ancestors;
      }
    }

    /** The inner loop of the update: one ancestor row joined with every descendant row. */
    method JoinRows(a: Row, descendants: set<Row>)
      modifies this`closure
      ensures closure == old(closure) + JoinAncestor(a, descendants)
    {
      var rest := descendants;
      ghost var met: set<Row> := {};
      while rest != {}
        invariant met + rest == descendants
        invariant closure == old(closure) + JoinAncestor(a, met)
        decreases |rest|
      {
        var d :| d in rest;
        JoinAncestorAdd(a, met, d);
        closure := closure + {Row(a.ancestor, d.descendant, a.distance + d.distance + 1)};
        met := met + {d};
        rest := rest - {d};
      }
    }

    /** `link`: check the records, skip a link that already exists, save the new
        one (validation first, then the closure update), and take the child off the
        roots if it gained a real parent. */
    method LinkRecords(parent: Option<Record>, child: Record) returns (outcome: Outcome)
      requires Valid() && child.kind == kind
      requires child.id.Some? ==> child.id.value in nodes
      requires parent.Some? && parent.value.id.Some? && parent.value.kind == kind ==> parent.value.id.value in nodes
      requires LinkError(parent, child).None? && parent.Some? && NotSelfReferential(RequestedLink(parent, child)) ==>
        Acyclic(nodes, links + {RequestedLink(parent, child)})
      modifies this`links, this`closure
      ensures Valid() && (old(ClosureExact()) ==> ClosureExact())
      ensures LinkError(parent, child).Some? ==>
        outcome == Fail(LinkError(parent, child).value) && links == old(links) && closure == old(closure)
      ensures LinkError(parent, child).None? && RequestedLink(parent, child) in old(links) ==>
        outcome == Pass && links == old(links) && closure == old(closure)
      ensures (LinkError(parent, child).None? && RequestedLink(parent, child) !in old(links) &&
               !NotSelfReferential(RequestedLink(parent, child))) ==>
        outcome == Fail(SelfReferential) && links == old(links) && closure == old(closure)
      ensures (LinkError(parent, child).None? && RequestedLink(parent, child) !in old(links) &&
               NotSelfReferential(RequestedLink(parent, child))) ==>
        var l := RequestedLink(parent, child);
        && outcome == Pass
        && links == old(links) + {l} - (if parent.Some? && !allowRootAndParent then {Link(None, l.child)} else {})
        && closure == old(closure) + Cross(old(closure), l.parent, l.child)
    {
      var e := LinkError(parent, child);
      if e.Some? {
        return Fail(e.value);
      }
      var l := RequestedLink(parent, child);
      if l in links {
        return Pass;
      }
      if !NotSelfReferential(l) {
        return Fail(SelfReferential);
      }
      if l.parent.Some? {
        if ClosureExact() {
          LinkKeepsExact(nodes, links, closure, l.parent.value, l.child);
        }
      } else {
        SameRealLinks(nodes, links, links + {l});
        CrossOfNone(closure, l.child);
      }
      CrossRowsIn(nodes, closure, l.parent, l.child);
      links := links + {l};
      UpdateTransitiveClosureForNewLink(l);
      if parent.Some? && !allowRootAndParent {
        var _ := Unlink(None, Some(l.child));
      }
      return Pass;
    }

    // -------------------------------------------------------------------------
    // Unlinking

    /** `unlink`: destroy the matching link if there is one; its `after_destroy`
        hook repairs the closure. */
    method Unlink(parent: Option<NodeId>, child: Option<NodeId>) returns (outcome: Outcome)
      requires Valid()
      modifies this`links, this`closure
      ensures Valid() && (old(ClosureExact()) ==> ClosureExact())
      ensures child.None? ==> outcome == Fail(ChildIsNil) && links == old(links) && closure == old(closure)
      ensures child.Some? ==> outcome == Pass && links == old(links) - {Link(parent, child.value)}
      ensures child.Some? && parent.Some? && Link(parent, child.value) in old(links) ==>
        closure == Repaired(nodes, links, old(closure), parent.value, child.value)
      ensures child.Some? && !(parent.Some? && Link(parent, child.value) in old(links)) ==> closure == old(closure)
    {
      if child.None? {
        return Fail(ChildIsNil);
      }
      var l := Link(parent, child.value);
      if l in links {
        if parent.Some? {
          if ClosureExact() {
            UnlinkRepairsExact(nodes, links, closure, parent.value, child.value);
          }
        } else {
          SameRealLinks(nodes, links, links - {l});
        }
        AcyclicSubset(nodes, links, links - {l});
        links := links - {l};
        UpdateTransitiveClosureForDestroyedLink(l);
        if parent.Some? {
          RepairedRowsIn(nodes, links, old(closure), parent.value, child.value);
        }
      }
      return Pass;
    }

    /** The closure repair after a link is destroyed: nothing for a sentinel; else
        delete the block between the parent's path and the child's subtree and rebuild
        from every node of either that has no real parent left. */
    method UpdateTransitiveClosureForDestroyedLink(l: Link)
      requires LinksIn(nodes, links) && Acyclic(nodes, links) && RowsIn(nodes, closure)
      modifies this`closure
      ensures l.parent.None? ==> closure == old(closure)
      ensures l.parent.Some? ==> closure == Repaired(nodes, links, old(closure), l.parent.value, l.child)
    {
      if l.parent.None? {
        return;
      }
      var above := PathIds(closure, l.parent.value);
      var below := SubtreeIds(closure, l.child);
      closure := closure - Block(closure, above, below);
      var starts := StartingPoints(links, above + below);
      RebuildFrom(starts);
    }

    /** The loop over the starting points, each rebuilt from an empty walk. */
    method RebuildFrom(starts: set<NodeId>)
      requires LinksIn(nodes, links) && Acyclic(nodes, links) && starts <= nodes
      modifies this`closure
      ensures closure == old(closure) + RebuiltFrom(nodes, links, starts)
    {
      var todo := starts;
      ghost var done: set<NodeId> := {};
      while todo != {}
        invariant done + todo == starts
        invariant closure == old(closure) + RebuiltFrom(nodes, links, done)
        decreases |todo|
      {
        var s :| s in todo;
        RebuiltFromAdd(nodes, links, done, s);
        RebuildSubtreeLinks(s, []);
        assert [] + [s] == [s];
        done := done + {s};
        todo := todo - {s};
      }
    }

    /** The first loop of `rebuild_subtree_links`: walking the path back from its end,
        a row from each node of it to the end, at the distance along the path. */
    method StampPath(stack: seq<NodeId>)
      requires |stack| >= 1
      modifies this`closure
      ensures closure == old(closure) + Stamp(stack)
    {
      var current := stack[|stack| - 1];
      var i := 0;
      while i < |stack|
        invariant 0 <= i <= |stack|
        invariant closure == old(closure) + (set k | |stack| - i <= k < |stack| :: Row(stack[k], current, |stack| - 1 - k))
      {
        closure := closure + {Row(stack[|stack| - 1 - i], current, i)};
        i := i + 1;
      }
      assert (set k | |stack| - i <= k < |stack| :: Row(stack[k], current, |stack| - 1 - k)) == Stamp(stack);
    }

    /** `rebuild_subtree_links`: push `current` on (a copy of) the walk, write a row
        from every node of the walk to `current`, then recurse into every child. */
    method RebuildSubtreeLinks(current: NodeId, path: seq<NodeId>)
      requires LinksIn(nodes, links) && Acyclic(nodes, links) && IsPath(nodes, links, path + [current])
      modifies this`closure
      ensures closure == old(closure) + Rebuilt(nodes, links, path + [current])
      decreases |nodes| - |path|
    {
      var stack := path + [current];
      PathBound(nodes, links, stack);
      StampPath(stack);
      ghost var stamped := closure;
      var kids := Children(links, current);
      ExtendToChildren(nodes, links, stack);
      var todo := kids;
      ghost var done: set<NodeId> := {};
      while todo != {}
        invariant done + todo == kids
        invariant closure == stamped + RebuiltBelow(nodes, links, stack, done)
        decreases |todo|
      {
        var ch :| ch in todo;
        RebuiltBelowAdd(nodes, links, stack, done, ch);
        RebuildSubtreeLinks(ch, stack);
        done := done + {ch};
        todo := todo - {ch};
      }
    }

    // -------------------------------------------------------------------------
    // Roots and parents

    /** `root?`: the record has its root sentinel. */
    predicate IsRoot(n: NodeId)
      reads this
    {
      Link(None, n) in links
    }

    /** `leaf?`: the record has no children. */
    predicate IsLeaf(n: NodeId)
      reads this
    {
      Children(links, n) == {}
    }

    /** `remove_parent` for each of `ps` in turn. */
    method RemoveParents(n: NodeId, ps: set<NodeId>)
      requires Valid()
      modifies this`links, this`closure
      ensures links == old(links) - LinksFrom(ps, n)
      ensures Valid() && (old(ClosureExact()) ==> ClosureExact())
    {
      var todo := ps;
      ghost var done: set<NodeId> := {};
      while todo != {}
        invariant done + todo == ps
        invariant links == old(links) - LinksFrom(done, n)
        invariant Valid() && (old(ClosureExact()) ==> ClosureExact())
        decreases |todo|
      {
        var p :| p in todo;
        var _ := Unlink(Some(p), Some(n));
        assert LinksFrom(done + {p}, n) == LinksFrom(done, n) + {Link(Some(p), n)};
        done := done + {p};
        todo := todo - {p};
      }
    }

    /** `make_root`: drop every real parent unless a root may keep parents, then make
        sure of the sentinel. */
    method MakeRoot(n: NodeId)
      requires Valid() && n in nodes
      modifies this`links, this`closure
      ensures links == old(links) - (if allowRootAndParent then {} else RealParentLinks(old(links), n)) + {Link(None, n)}
      ensures IsRoot(n)
      ensures RealParents(links, n) == (if allowRootAndParent then RealParents(old(links), n) else {})
      ensures Valid() && (old(ClosureExact()) ==> ClosureExact())
    {
      if !allowRootAndParent {
        RealParentsOfLinks(links, n);
        RemoveParents(n, RealParents(links, n));
      }
      var _ := LinkRecords(None, Record(Some(n), kind));
    }

    /** `unroot`: drop the sentinel. */
    method Unroot(n: NodeId)
      requires Valid()
      modifies this`links, this`closure
      ensures links == old(links) - {Link(None, n)} && closure == old(closure)
      ensures !IsRoot(n) && RealParents(links, n) == RealParents(old(links), n)
      ensures Valid() && (old(ClosureExact()) ==> ClosureExact())
    {
      var _ := Unlink(None, Some(n));
    }

    /** The link rows the association writer saves for new parents, each followed by
        the closure update of its `after_save` hook; the sentinel is left alone. */
    method AddParents(n: NodeId, qs: set<NodeId>)
      requires Valid() && n in nodes && qs <= nodes
      requires forall q :: q in qs ==> q != n && !Reaches(nodes, links, n, q)
      modifies this`links, this`closure
      ensures links == old(links) + LinksFrom(qs, n)
      ensures Valid() && (old(ClosureExact()) ==> ClosureExact())
    {
      var todo := qs;
      ghost var done: set<NodeId> := {};
      while todo != {}
        invariant done + todo == qs
        invariant links == old(links) + LinksFrom(done, n)
        invariant Valid() && (old(ClosureExact()) ==> ClosureExact())
        invariant forall q :: q in todo ==> q != n && !Reaches(nodes, links, n, q)
        decreases |todo|
      {
        var q :| q in todo;
        SaveParentLink(n, q);
        assert LinksFrom(done + {q}, n) == LinksFrom(done, n) + {Link(Some(q), n)};
        done := done + {q};
        todo := todo - {q};
      }
    }

    /** One link row the association writer saves, followed by its closure update; a
        link into `n` opens no new path out of `n`. */
    method SaveParentLink(n: NodeId, q: NodeId)
      requires Valid() && n in nodes && q in nodes && q != n && !Reaches(nodes, links, n, q)
      modifies this`links, this`closure
      ensures links == old(links) + {Link(Some(q), n)}
      ensures forall d :: !Reaches(nodes, old(links), n, d) ==> !Reaches(nodes, links, n, d)
      ensures Valid() && (old(ClosureExact()) ==> ClosureExact())
    {
      var l := Link(Some(q), n);
      AddLinkAcyclic(nodes, links, q, n);
      forall d | !Reaches(nodes, links, n, d) ensures !Reaches(nodes, links + {l}, n, d) {
        IncomingKeepsReach(nodes, links, q, n, d);
      }
      if ClosureExact() {
        LinkKeepsExact(nodes, links, closure, q, n);
      }
      CrossRowsIn(nodes, closure, Some(q), n);
      links := links + {l};
      UpdateTransitiveClosureForNewLink(l);
    }

    /** `parents=`: remove the parents no longer listed, save links for the new ones,
        then make the record a root (when it has no parent left and a root may not
        keep parents, or when the list names the root) or stop it being one. A list
        that names the record itself fails the link validation and rolls back the
        association writer, after the removals. */
    method SetParents(n: NodeId, parents: seq<Option<NodeId>>) returns (outcome: Outcome)
      requires Valid() && n in nodes && Ids(parents) <= nodes
      requires forall q :: q in Ids(parents) && q != n ==> !Reaches(nodes, links, n, q)
      modifies this`links, this`closure
      ensures Valid() && (old(ClosureExact()) ==> ClosureExact())
      ensures forall l: Link :: l.child != n ==> (l in links <==> l in old(links))
      ensures n in Ids(parents) ==>
        && outcome == Fail(SelfReferential)
        && RealParents(links, n) == RealParents(old(links), n) * Ids(parents)
        && (IsRoot(n) <==> Link(None, n) in old(links))
      ensures n !in Ids(parents) ==>
        && outcome == Pass
        && RealParents(links, n) == (if !allowRootAndParent && None in parents then {} else Ids(parents))
        && (IsRoot(n) <==> None in parents || (Ids(parents) == {} && !allowRootAndParent))
    {
      var ids := Ids(parents);
      ghost var before := links;
      RealParentsWithout(links, n, RealParents(links, n) - ids);
      RemoveParents(n, RealParents(links, n) - ids);
      assert RealParents(links, n) == RealParents(before, n) * ids;
      if n in ids {
        return Fail(SelfReferential);
      }
      var missing := ids - RealParents(links, n);
      forall q | q in missing ensures q != n && !Reaches(nodes, links, n, q) {
        ReachesMono(nodes, links, before, n, q);
      }
      ghost var kept := links;
      RealParentsWith(links, n, missing);
      AddParents(n, missing);
      assert RealParents(links, n) == ids;
      assert Link(None, n) in links <==> Link(None, n) in before;
      ghost var added := links;
      if (RealParents(links, n) == {} && !allowRootAndParent) || None in parents {
        MakeRoot(n);
      } else {
        Unroot(n);
      }
      return Pass;
    }

    // -------------------------------------------------------------------------
    // Resetting

    /** `initialize_dag` for each record of the list, once nothing ties them to the
        rest of the graph. */
    method InitializeAll(ids: seq<NodeId>)
      requires Valid() && Elements(ids) <= nodes
      requires forall l :: l in links ==> !Touches(l, ids)
      requires forall r :: r in closure && r.ancestor in ids ==> r.descendant == r.ancestor && r.distance == 0
      modifies this`links, this`closure
      ensures links == old(links) + Sentinels(ids) && closure == old(closure) + SelfRows(ids)
      ensures Valid() && (old(ClosureExact()) ==> ClosureExact())
    {
      var i := 0;
      while i < |ids|
        invariant 0 <= i <= |ids|
        invariant links == old(links) + Sentinels(ids[..i]) && closure == old(closure) + SelfRows(ids[..i])
        invariant Valid() && (old(ClosureExact()) ==> ClosureExact())
      {
        var x := ids[i];
        ghost var links1, closure1 := links, closure;
        if ParentLinks(links, x) != {} {
          var l :| l in ParentLinks(links, x);
          assert l !in old(links);
          assert l == Link(None, x);
        }
        if DescendantRows(closure, x) != {} {
          var r :| r in DescendantRows(closure, x);
          assert r == Row(x, x, 0);
        }
        InitializeDag(x);
        SentinelsStep(ids, i);
        assert links == links1 + {Link(None, x)} && closure == closure1 + {Row(x, x, 0)};
        i := i + 1;
      }
      assert ids[..i] == ids;
    }

    /** `reset_hierarchy`: delete every link and every row naming one of the records,
        without the destroy hooks, then initialise each again. */
    method ResetHierarchy(ids: seq<NodeId>)
      requires Valid() && Elements(ids) <= nodes
      modifies this`links, this`closure
      ensures links == ResetLinks(old(links), ids) && closure == ResetRows(old(closure), ids)
      ensures Valid()
      ensures Elements(ids) == nodes ==> ClosureExact()
    {
      ghost var before := links;
      links := set l | l in links && !Touches(l, ids);
      closure := set r | r in closure && r.ancestor !in ids && r.descendant !in ids;
      AcyclicSubset(nodes, before, links);
      InitializeAll(ids);
      if Elements(ids) == nodes {
        ResetAllExact(nodes, old(links), old(closure), ids);
      }
    }

    /** The reset as its evident intent reads: the links are destroyed one by one with
        their hooks, so the closure is repaired before the rows are cleared. */
    method ResetHierarchyRepaired(ids: seq<NodeId>)
      requires Valid() && Elements(ids) <= nodes
      modifies this`links, this`closure
      ensures links == ResetLinks(old(links), ids)
      ensures Valid() && (old(ClosureExact()) ==> ClosureExact())
    {
      var touching := set l | l in links && Touches(l, ids);
      DestroyLinks(touching);
      ghost var mid, midClosure := links, closure;
      ResetHierarchy(ids);
      assert ResetLinks(mid, ids) == ResetLinks(old(links), ids);
      if old(ClosureExact()) {
        ResetIsolatedExact(nodes, mid, midClosure, ids);
      }
    }

    /** `destroy` for each of the links in turn, each repairing the closure. */
    method DestroyLinks(ls: set<Link>)
      requires Valid()
      modifies this`links, this`closure
      ensures links == old(links) - ls
      ensures Valid() && (old(ClosureExact()) ==> ClosureExact())
    {
      var todo := ls;
      ghost var done: set<Link> := {};
      while todo != {}
        invariant done + todo == ls
        invariant links == old(links) - done
        invariant Valid() && (old(ClosureExact()) ==> ClosureExact())
        decreases |todo|
      {
        var l :| l in todo;
        var _ := Unlink(l.parent, Some(l.child));
        done := done + {l};
        todo := todo - {l};
      }
    }

    // -------------------------------------------------------------------------
    // Queries

    /** Under an exact table a record is a leaf exactly when its only descendant row is
        its self row. */
    lemma LeafIffNoDescendants(n: NodeId)
      requires Valid() && ClosureExact() && n in nodes
      ensures IsLeaf(n) <==> DescendantRows(closure, n) == {Row(n, n, 0)}
    {
      assert IsPath(nodes, links, [n]);
      assert Row(n, n, 0) in DescendantRows(closure, n);
      if IsLeaf(n) {
        forall r | r in DescendantRows(closure, n) ensures r == Row(n, n, 0) {
          var q :| IsPath(nodes, links, q) && |q| == r.distance + 1 && q[0] == r.ancestor && q[|q| - 1] == r.descendant;
          FirstStep(nodes, links, q);
        }
      }
      if !IsLeaf(n) {
        var c :| c in Children(links, n);
        assert Link(Some(n), c) in links;
        assert IsPath(nodes, links, [n, c]);
        assert Row(n, c, 1) in DescendantRows(closure, n);
      }
    }

    /** `distance_to`: the least distance of a row whose two ends are among the two
        records and differ; `None` when there is no such row. */
    ghost function DistanceTo(a: NodeId, b: NodeId): (d: Option<nat>)
      reads this
      ensures d.None? <==> forall r :: r in closure ==> !Between(r, a, b)
      ensures d.Some? ==> exists r :: r in closure && Between(r, a, b) && r.distance == d.value
      ensures d.Some? ==> forall r :: r in closure && Between(r, a, b) ==> d.value <= r.distance
    {
      var rows := set r | r in closure && r.ancestor in {a, b} && r.descendant in {a, b} && r.ancestor != r.descendant;
      assert forall r :: r in rows <==> r in closure && Between(r, a, b);
      var distances := set r | r in rows :: r.distance;
      assert forall r :: r in rows ==> r.distance in distances;
      if distances == {} then None else Some(Least(distances))
    }

    /** Under an exact table the distance is the length of a shortest real path between
        the two records, either way round, and there is none between a record and itself. */
    lemma DistanceIsShortest(a: NodeId, b: NodeId)
      requires Valid() && ClosureExact()
      ensures DistanceTo(a, b).None? <==> a == b || (!Reaches(nodes, links, a, b) && !Reaches(nodes, links, b, a))
      ensures DistanceTo(a, b).Some? ==>
        && (exists q :: Connects(nodes, links, q, a, b) && |q| == DistanceTo(a, b).value + 1)
        && (forall q :: Connects(nodes, links, q, a, b) ==> DistanceTo(a, b).value + 1 <= |q|)
    {
      forall q | Connects(nodes, links, q, a, b) && a != b ensures Between(Row(q[0], q[|q| - 1], |q| - 1), a, b) && Row(q[0], q[|q| - 1], |q| - 1) in closure {
      }
      if a != b && Reaches(nodes, links, a, b) {
        var q :| IsPath(nodes, links, q) && q[0] == a && q[|q| - 1] == b;
        assert Connects(nodes, links, q, a, b);
      }
      if a != b && Reaches(nodes, links, b, a) {
        var q :| IsPath(nodes, links, q) && q[0] == b && q[|q| - 1] == a;
        assert Connects(nodes, links, q, a, b);
      }
      forall r | r in closure && Between(r, a, b) ensures a != b && (Reaches(nodes, links, a, b) || Reaches(nodes, links, b, a)) {
        var q :| IsPath(nodes, links, q) && |q| == r.distance + 1 && q[0] == r.ancestor && q[|q| - 1] == r.descendant;
        assert Connects(nodes, links, q, a, b);
      }
      var d := DistanceTo(a, b);
      if d.Some? {
        var r :| r in closure && Between(r, a, b) && r.distance == d.value;
        var q :| IsPath(nodes, links, q) && |q| == r.distance + 1 && q[0] == r.ancestor && q[|q| - 1] == r.descendant;
        assert Connects(nodes, links, q, a, b);
      }
    }

    /** `lineage`: every record at the other end of a non-self row of `n`. */
    function Lineage(n: NodeId): (r: set<NodeId>)
      reads this
      ensures n !in r
    {
      (set row | row in closure && row.ancestor == n && row.ancestor != row.descendant :: row.descendant) +
      (set row | row in closure && row.descendant == n && row.ancestor != row.descendant :: row.ancestor)
    }

    /** Under an exact table the lineage is every other record that `n` reaches or that
        reaches `n`. */
    lemma LineageIsRelatives(n: NodeId)
      requires Valid() && ClosureExact()
      ensures forall x :: x in Lineage(n) <==> x != n && (Reaches(nodes, links, n, x) || Reaches(nodes, links, x, n))
    {
      forall x ensures x in Lineage(n) <==> x != n && (Reaches(nodes, links, n, x) || Reaches(nodes, links, x, n)) {
        if x != n && Reaches(nodes, links, n, x) {
          var q :| IsPath(nodes, links, q) && q[0] == n && q[|q| - 1] == x;
          assert Row(n, x, |q| - 1) in closure;
        }
        if x != n && Reaches(nodes, links, x, n) {
          var q :| IsPath(nodes, links, q) && q[0] == x && q[|q| - 1] == n;
          assert Row(x, n, |q| - 1) in closure;
        }
        if x in Lineage(n) {
          var row :| row in closure && row.ancestor != row.descendant && ((row.ancestor == n && row.descendant == x) || (row.descendant == n && row.ancestor == x));
          var q :| IsPath(nodes, links, q) && |q| == row.distance + 1 && q[0] == row.ancestor && q[|q| - 1] == row.descendant;
        }
      }
    }
  }
}
