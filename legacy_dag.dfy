/**
  The older engine: the same link and descendant tables as the current one, kept by
  the records' own methods. Here every record's descendant rows include its self row,
  `link` writes the cross product even for a link that is already there, and
  `unlink` repairs the closure whether or not it deleted anything. On top of it sits
  the first name classifier, `plinko` and `reorganize`, which moves records below the
  records whose names theirs extend.

  The tables are those of a `Dag` object; this engine has no `allow_root_and_parent`
  option and no class check, so it ignores the object's `allowRootAndParent` and
  `kind`.
*/
module LegacyDag {
  import opened Wrappers
  import opened Collections
  import opened Graph
  import opened Words
  import opened CurrentDag
  import Deprecated

  type Names = Deprecated.Names

  // ---------------------------------------------------------------------------
  // Names

  /** `x.should_descend_from?(y)`: `x`'s name has every word of `y`'s and more. */
  predicate ShouldDescendFrom(names: Names, x: NodeId, y: NodeId)
    requires x in names && y in names
  {
    Extends(names[y], names[x])
  }

  /** The test is strict inclusion of word sets, so no record should descend from itself,
      and it is the later classifier's test with its arguments the other way round. */
  lemma ShouldDescendIsStrictSuperset(names: Names, x: NodeId, y: NodeId)
    requires x in names && y in names
    ensures ShouldDescendFrom(names, x, y) <==> WordSet(names[y]) < WordSet(names[x])
    ensures !ShouldDescendFrom(names, x, x)
    ensures !(ShouldDescendFrom(names, x, y) && ShouldDescendFrom(names, y, x))
    ensures ShouldDescendFrom(names, x, y) <==> Deprecated.ShouldDescendFrom(names, y, x)
  {
    ExtendsIsStrictSuperset(names[y], names[x]);
    ExtendsAntisymmetric(names[y], names[x]);
    ExtendsAntisymmetric(names[x], names[y]);
  }

  /** "big totem pole" descends from "totem pole", and not the other way round. */
  lemma BigTotemPole(names: Names, big: NodeId, small: NodeId)
    requires big in names && small in names
    requires names[big] == ["big", "totem", "pole"] && names[small] == ["totem", "pole"]
    ensures ShouldDescendFrom(names, big, small)
    ensures !ShouldDescendFrom(names, small, big)
  {
    assert "big" != "totem" && "big" != "pole";
    assert "big" in WordSet(names[big]) && "big" !in WordSet(names[small]);
    ShouldDescendIsStrictSuperset(names, big, small);
    ShouldDescendIsStrictSuperset(names, small, big);
  }

  // ---------------------------------------------------------------------------
  // Linking

  /** `link(parent, child)`: both records need an id; the link row is found or
      initialised and saved, and the validation refuses a self link; the child's root
      sentinel goes; then every ancestor row of the parent is joined with every
      descendant row of the child. No step is skipped for a link that already exists. */
  method LinkNodes(dag: Dag, parent: Option<NodeId>, child: Option<NodeId>) returns (outcome: Outcome)
    requires dag.Valid()
    requires parent.Some? ==> parent.value in dag.nodes
    requires child.Some? ==> child.value in dag.nodes
    requires parent.Some? && child.Some? && parent.value != child.value ==>
      !Reaches(dag.nodes, dag.links, child.value, parent.value)
    modifies dag`links, dag`closure
    ensures dag.Valid() && (old(dag.ClosureExact()) ==> dag.ClosureExact())
    ensures parent.None? ==>
      outcome == Fail(ParentHasNoId) && dag.links == old(dag.links) && dag.closure == old(dag.closure)
    ensures parent.Some? && child.None? ==>
      outcome == Fail(ChildHasNoId) && dag.links == old(dag.links) && dag.closure == old(dag.closure)
    ensures parent.Some? && child.Some? && parent.value == child.value ==>
      outcome == Fail(SelfReferential) && dag.links == old(dag.links) && dag.closure == old(dag.closure)
    ensures parent.Some? && child.Some? && parent.value != child.value ==>
      && outcome == Pass
      && dag.links == old(dag.links) + {Link(parent, child.value)} - {Link(None, child.value)}
      && dag.closure == old(dag.closure) + Cross(old(dag.closure), parent, child.value)
  {
    if parent.None? {
      return Fail(ParentHasNoId);
    }
    if child.None? {
      return Fail(ChildHasNoId);
    }
    var l := Link(parent, child.value);
    if !NotSelfReferential(l) {
      return Fail(SelfReferential);
    }
    ghost var links0, exact0 := dag.links, dag.ClosureExact();
    AddLinkAcyclic(dag.nodes, dag.links, parent.value, child.value);
    if exact0 {
      LinkKeepsExact(dag.nodes, dag.links, dag.closure, parent.value, child.value);
    }
    dag.links := dag.links + {l};
    var _ := Unlink(dag, None, child);
    CrossRowsIn(dag.nodes, dag.closure, parent, child.value);
    dag.UpdateTransitiveClosureForNewLink(l);
    if exact0 {
      SameRealLinks(dag.nodes, links0 + {l}, dag.links);
    }
    return Pass;
  }

  /** `unlink(parent, child)`: a child is needed; every matching link is deleted; for a
      real parent the rows from the parent's ancestors to the child's descendants are
      deleted and rebuilt from every one of them left without a real parent, whether or
      not a link was deleted. Under an exact table that repair of a missing link
      changes nothing. */
  method Unlink(dag: Dag, parent: Option<NodeId>, child: Option<NodeId>) returns (outcome: Outcome)
    requires dag.Valid()
    modifies dag`links, dag`closure
    ensures dag.Valid() && (old(dag.ClosureExact()) ==> dag.ClosureExact())
    ensures child.None? ==>
      outcome == Fail(ChildIsNil) && dag.links == old(dag.links) && dag.closure == old(dag.closure)
    ensures child.Some? ==> outcome == Pass && dag.links == old(dag.links) - {Link(parent, child.value)}
    ensures child.Some? && parent.None? ==> dag.closure == old(dag.closure)
    ensures child.Some? && parent.Some? ==>
      dag.closure == Repaired(dag.nodes, dag.links, old(dag.closure), parent.value, child.value)
    ensures child.Some? && old(dag.ClosureExact()) && Link(parent, child.value) !in old(dag.links) ==>
      dag.closure == old(dag.closure)
  {
    if child.None? {
      return Fail(ChildIsNil);
    }
    var l := Link(parent, child.value);
    ghost var closure0, exact0 := dag.closure, dag.ClosureExact();
    if parent.Some? {
      if exact0 {
        UnlinkRepairsExact(dag.nodes, dag.links, dag.closure, parent.value, child.value);
      }
    } else {
      SameRealLinks(dag.nodes, dag.links, dag.links - {l});
    }
    AcyclicSubset(dag.nodes, dag.links, dag.links - {l});
    dag.links := dag.links - {l};
    if parent.Some? {
      dag.UpdateTransitiveClosureForDestroyedLink(Link(parent, child.value));
      RepairedRowsIn(dag.nodes, dag.links, closure0, parent.value, child.value);
    }
    if exact0 && l !in old(dag.links) {
      ExactUnique(dag.nodes, dag.links, closure0, dag.closure);
    }
    return Pass;
  }

  /** A link table has one exact closure. */
  lemma ExactUnique(nodes: set<NodeId>, links: set<Link>, c1: set<Row>, c2: set<Row>)
    requires Exact(nodes, links, c1) && Exact(nodes, links, c2)
    ensures c1 == c2
  {
    assert forall r :: r in c1 <==> r in c2;
  }

  // ---------------------------------------------------------------------------
  // Creation hooks and reset

  /** `initialize_links`: a new root sentinel for the record. */
  method InitializeLinks(dag: Dag, n: NodeId)
    requires dag.Valid() && n in dag.nodes
    modifies dag`links
    ensures dag.links == old(dag.links) + {Link(None, n)}
    ensures dag.Valid() && (old(dag.ClosureExact()) ==> dag.ClosureExact())
  {
    SameRealLinks(dag.nodes, dag.links, dag.links + {Link(None, n)});
    dag.links := dag.links + {Link(None, n)};
  }

  /** `initialize_descendants`: a new self row for the record, which an exact table
      already holds. */
  method InitializeDescendants(dag: Dag, n: NodeId)
    requires dag.Valid() && n in dag.nodes
    modifies dag`closure
    ensures dag.closure == old(dag.closure) + {Row(n, n, 0)}
    ensures dag.Valid() && (old(dag.ClosureExact()) ==> dag.ClosureExact() && dag.closure == old(dag.closure))
  {
    if dag.ClosureExact() {
      assert IsPath(dag.nodes, dag.links, [n]);
      assert Justified(dag.nodes, dag.links, Row(n, n, 0));
    }
    dag.closure := dag.closure + {Row(n, n, 0)};
  }

  /** `reset_hierarchy`: empty the link table and give every record its sentinel, then
      empty the descendant table and give every record its self row. `all` lists every
      record of the class, as `find_each` visits them. */
  method ResetHierarchy(dag: Dag, all: seq<NodeId>)
    requires dag.Valid() && Elements(all) == dag.nodes
    modifies dag`links, dag`closure
    ensures dag.links == Sentinels(all) && dag.closure == SelfRows(all)
    ensures dag.Valid() && dag.ClosureExact()
  {
    AcyclicSubset(dag.nodes, dag.links, {});
    dag.links := {};
    var i := 0;
    while i < |all|
      invariant 0 <= i <= |all|
      invariant dag.links == Sentinels(all[..i]) && dag.Valid()
    {
      InitializeLinks(dag, all[i]);
      SentinelsStep(all, i);
      i := i + 1;
    }
    assert all[..|all|] == all;
    dag.closure := {};
    i := 0;
    while i < |all|
      invariant 0 <= i <= |all|
      invariant dag.links == Sentinels(all) && dag.closure == SelfRows(all[..i]) && dag.Valid()
    {
      InitializeDescendants(dag, all[i]);
      SentinelsStep(all, i);
      i := i + 1;
    }
    ResetAllExact(dag.nodes, {}, {}, all);
    assert ResetLinks({}, all) == Sentinels(all);
    assert ResetRows({}, all) == SelfRows(all);
  }

  // ---------------------------------------------------------------------------
  // What plinko and reorganize keep

  /** Every record of `s` has its root sentinel exactly when it has no real parent. */
  predicate RootsExact(links: set<Link>, s: set<NodeId>) {
    forall x :: x in s ==> (Link(None, x) in links <==> RealParents(links, x) == {})
  }

  /** Every real link of `before` is a path of `after`: whatever reached a record still
      reaches it. */
  ghost predicate KeepsReach(nodes: set<NodeId>, before: set<Link>, after: set<Link>) {
    forall p, c :: Link(Some(p), c) in before ==> Reaches(nodes, after, p, c)
  }

  lemma {:induction false} KeptPath(nodes: set<NodeId>, before: set<Link>, after: set<Link>, q: seq<NodeId>)
    requires KeepsReach(nodes, before, after) && IsPath(nodes, before, q)
    ensures Reaches(nodes, after, q[0], q[|q| - 1])
    decreases |q|
  {
    if |q| == 1 {
      assert IsPath(nodes, after, [q[0]]);
    } else {
      FirstStep(nodes, before, q);
      SubPath(nodes, before, q, 1, |q|);
      KeptPath(nodes, before, after, q[1..]);
      ReachesTrans(nodes, after, q[0], q[1], q[1], q[|q| - 1]);
    }
  }

  /** So every path of `before` survives in `after`. */
  lemma KeptReach(nodes: set<NodeId>, before: set<Link>, after: set<Link>, a: NodeId, d: NodeId)
    requires KeepsReach(nodes, before, after) && Reaches(nodes, before, a, d)
    ensures Reaches(nodes, after, a, d)
  {
    var q :| IsPath(nodes, before, q) && q[0] == a && q[|q| - 1] == d;
    KeptPath(nodes, before, after, q);
  }

  lemma KeepsReachTrans(nodes: set<NodeId>, a: set<Link>, b: set<Link>, c: set<Link>)
    requires KeepsReach(nodes, a, b) && KeepsReach(nodes, b, c)
    ensures KeepsReach(nodes, a, c)
  {
    forall p, x | Link(Some(p), x) in a ensures Reaches(nodes, c, p, x) {
      KeptReach(nodes, b, c, p, x);
    }
  }

  /** Keeping every real link keeps every path. */
  lemma KeepsReachByLinks(nodes: set<NodeId>, before: set<Link>, after: set<Link>)
    requires LinksIn(nodes, before)
    requires forall l :: l in before && l.parent.Some? ==> l in after
    ensures KeepsReach(nodes, before, after)
  {
    forall p, x | Link(Some(p), x) in before ensures Reaches(nodes, after, p, x) {
      assert IsPath(nodes, after, [p, x]);
    }
  }

  /** A detour: one real link removed, and its ends joined by a path again. */
  lemma DetourKeepsReach(nodes: set<NodeId>, before: set<Link>, mid: set<Link>, after: set<Link>, p: NodeId, s: NodeId)
    requires mid == before - {Link(Some(p), s)}
    requires KeepsReach(nodes, mid, after) && Reaches(nodes, after, p, s)
    ensures KeepsReach(nodes, before, after)
  {
    forall a, x | Link(Some(a), x) in before ensures Reaches(nodes, after, a, x) {
      if Link(Some(a), x) != Link(Some(p), s) {
        assert Link(Some(a), x) in mid;
      }
    }
  }

  /** A record reached from another one has a real parent. */
  lemma ReachedHasParent(nodes: set<NodeId>, links: set<Link>, a: NodeId, d: NodeId)
    requires Reaches(nodes, links, a, d) && a != d
    ensures RealParents(links, d) != {}
  {
    var q :| IsPath(nodes, links, q) && q[0] == a && q[|q| - 1] == d;
    LastStep(nodes, links, q);
  }

  /** Under climbing names a path to `b` never passes a record whose words strictly
      include `b`'s, so it survives the removal of a link into one. */
  lemma ReachAvoids(nodes: set<NodeId>, links: set<Link>, names: Names, a: NodeId, b: NodeId, p: NodeId, s: NodeId)
    requires nodes <= names.Keys && Deprecated.Climbing(names, links, nodes)
    requires Reaches(nodes, links, a, b) && s in names && b in names && WordSet(names[b]) < WordSet(names[s])
    ensures Reaches(nodes, links - {Link(Some(p), s)}, a, b)
  {
    var q :| IsPath(nodes, links, q) && q[0] == a && q[|q| - 1] == b;
    forall k | 0 <= k < |q| - 1 ensures Link(Some(q[k]), q[k + 1]) in links - {Link(Some(p), s)} {
      if q[k + 1] == s {
        SubPath(nodes, links, q, k + 1, |q|);
        Deprecated.ClimbingPath(nodes, links, names, nodes, q[k + 1..]);
        assert false;
      }
    }
    assert IsPath(nodes, links - {Link(Some(p), s)}, q);
  }

  /** What `link(p, c)` does to the links, for a `p` whose words `c`'s strictly include. */
  lemma LinkStep(names: Names, nodes: set<NodeId>, before: set<Link>, p: NodeId, c: NodeId, after: set<Link>)
    requires nodes <= names.Keys && LinksIn(nodes, before) && p in nodes && c in nodes
    requires Deprecated.Climbing(names, before, nodes) && WordSet(names[p]) < WordSet(names[c])
    requires after == before + {Link(Some(p), c)} - {Link(None, c)}
    ensures Deprecated.Climbing(names, after, nodes)
    ensures KeepsReach(nodes, before, after) && Reaches(nodes, after, p, c)
    ensures RootsExact(before, nodes - {c}) ==> RootsExact(after, nodes)
  {
    forall x, y | x in nodes && y in Children(after, x) ensures y in nodes && WordSet(names[x]) < WordSet(names[y]) {
      if Link(Some(x), y) != Link(Some(p), c) {
        assert y in Children(before, x);
      }
    }
    KeepsReachByLinks(nodes, before, after);
    assert IsPath(nodes, after, [p, c]);
    if RootsExact(before, nodes - {c}) {
      forall x | x in nodes ensures Link(None, x) in after <==> RealParents(after, x) == {} {
        if x == c {
          assert p in RealParents(after, c);
        } else {
          assert RealParents(after, x) == RealParents(before, x);
        }
      }
    }
  }

  /** What `unlink(p, s)` does to the links. */
  lemma UnlinkStep(names: Names, nodes: set<NodeId>, before: set<Link>, p: NodeId, s: NodeId, after: set<Link>)
    requires nodes <= names.Keys && Deprecated.Climbing(names, before, nodes)
    requires after == before - {Link(Some(p), s)}
    ensures Deprecated.Climbing(names, after, nodes)
    ensures RootsExact(before, nodes) ==> RootsExact(after, nodes - {s})
  {
    forall x, y | x in nodes && y in Children(after, x) ensures y in nodes && WordSet(names[x]) < WordSet(names[y]) {
      assert y in Children(before, x);
    }
    if RootsExact(before, nodes) {
      forall x | x in nodes - {s} ensures Link(None, x) in after <==> RealParents(after, x) == {} {
        assert RealParents(after, x) == RealParents(before, x);
      }
    }
  }

  /** After a reset no real link is left: the names climb trivially and every record is
      a root. */
  lemma ResetClimbs(names: Names, nodes: set<NodeId>, all: seq<NodeId>)
    requires nodes <= names.Keys && Elements(all) == nodes
    ensures Deprecated.Climbing(names, Sentinels(all), nodes)
    ensures RootsExact(Sentinels(all), nodes)
  {
    forall x | x in nodes ensures Link(None, x) in Sentinels(all) && RealParents(Sentinels(all), x) == {} {
      assert x in all;
    }
  }

  // ---------------------------------------------------------------------------
  // Plinko

  /** The records of `subtree` that `other` should descend from. */
  function Candidates(names: Names, subtree: set<NodeId>, other: NodeId): set<NodeId>
    requires other in names
  {
    set d | d in subtree && d in names && ShouldDescendFrom(names, other, d)
  }

  /** The records `plinko` started at `top` may pick as the new parent of `other`: the
      candidates among `top`'s descendants, `top` included, with the greatest matching
      word count against `top`. Which of them comes first after the sort is left open. */
  function NewParents(names: Names, closure: set<Row>, top: NodeId, other: NodeId): set<NodeId>
    requires top in names && other in names && SubtreeIds(closure, top) <= names.Keys
  {
    Deprecated.Best(names, Candidates(names, SubtreeIds(closure, top), other), top)
  }

  /** Every possible new parent lies below `top`, has fewer words than `other`, and
      matches `top` at least as well as any other candidate; under an exact table there
      is one whenever `other` should descend from `top`, since `top` is a candidate. */
  lemma NewParentsAreBest(nodes: set<NodeId>, links: set<Link>, closure: set<Row>, names: Names, top: NodeId, other: NodeId)
    requires top in names && other in names && SubtreeIds(closure, top) <= names.Keys
    ensures forall b :: b in NewParents(names, closure, top, other) ==>
      && b in SubtreeIds(closure, top)
      && ShouldDescendFrom(names, other, b)
      && WordSet(names[b]) < WordSet(names[other])
      && forall d :: d in Candidates(names, SubtreeIds(closure, top), other) ==>
           Deprecated.MatchingWordCount(names, top, d) <= Deprecated.MatchingWordCount(names, top, b)
    ensures LinksIn(nodes, links) && Exact(nodes, links, closure) && top in nodes && ShouldDescendFrom(names, other, top) ==>
      NewParents(names, closure, top, other) != {}
  {
    var candidates := Candidates(names, SubtreeIds(closure, top), other);
    forall b | b in NewParents(names, closure, top, other) ensures WordSet(names[b]) < WordSet(names[other]) {
      ShouldDescendIsStrictSuperset(names, other, b);
    }
    if LinksIn(nodes, links) && Exact(nodes, links, closure) && top in nodes && ShouldDescendFrom(names, other, top) {
      assert IsPath(nodes, links, [top]);
      assert Row(top, top, 0) in closure;
      assert top in candidates;
      Deprecated.BestNonEmpty(names, candidates, top);
    }
  }

  /** `top.plinko(other)`: when `other` should descend from `top`, link it below the
      first of `top`'s descendants, sorted by matching word count against `top` from
      the most, that it should descend from; then reorganize that new parent's children,
      and report the placement. `fuel` bounds how deep reorganizations nest. Under an
      exact table `other` always lands somewhere below `top`, below one of the records
      `detect` may pick (the nested reorganize can only move it further down), and
      nothing that reached a record stops reaching it. */
  method Plinko(dag: Dag, names: Names, top: NodeId, other: NodeId, fuel: nat) returns (placed: bool)
    requires dag.Valid() && top in dag.nodes && other in dag.nodes && dag.nodes <= names.Keys
    requires Deprecated.Climbing(names, dag.links, dag.nodes)
    modifies dag`links, dag`closure
    ensures dag.Valid() && (old(dag.ClosureExact()) ==> dag.ClosureExact())
    ensures Deprecated.Climbing(names, dag.links, dag.nodes)
    ensures placed ==> ShouldDescendFrom(names, other, top) && NewParents(names, old(dag.closure), top, other) != {}
    ensures !placed ==> dag.links == old(dag.links) && dag.closure == old(dag.closure)
    ensures !ShouldDescendFrom(names, other, top) ==> !placed
    ensures old(dag.ClosureExact()) ==> KeepsReach(dag.nodes, old(dag.links), dag.links)
    ensures old(dag.ClosureExact()) && ShouldDescendFrom(names, other, top) ==>
      placed && Reaches(dag.nodes, dag.links, top, other) && RealParents(dag.links, other) != {}
    ensures old(dag.ClosureExact()) && placed ==>
      exists b :: b in NewParents(names, old(dag.closure), top, other) && Reaches(dag.nodes, dag.links, b, other)
    ensures old(dag.ClosureExact()) && ShouldDescendFrom(names, other, top) && RootsExact(old(dag.links), dag.nodes - {other}) ==>
      RootsExact(dag.links, dag.nodes)
    decreases fuel, 0
  {
    KeepsReachByLinks(dag.nodes, dag.links, dag.links);
    if !ShouldDescendFrom(names, other, top) {
      return false;
    }
    assert RowsIn(dag.nodes, dag.closure);
    var best := NewParents(names, dag.closure, top, other);
    NewParentsAreBest(dag.nodes, dag.links, dag.closure, names, top, other);
    if best == {} {
      return false;
    }
    var newParent :| newParent in best;
    ghost var links0, closure0, exact0 := dag.links, dag.closure, dag.ClosureExact();
    Deprecated.ReachesClimb(dag.nodes, dag.links, names, dag.nodes, other, newParent);
    var _ := LinkNodes(dag, Some(newParent), Some(other));
    LinkStep(names, dag.nodes, links0, newParent, other, dag.links);
    if exact0 {
      Deprecated.SubtreeReached(dag.nodes, links0, closure0, top, newParent);
      KeptReach(dag.nodes, links0, dag.links, top, newParent);
      ReachesTrans(dag.nodes, dag.links, top, newParent, newParent, other);
    }
    if fuel > 0 {
      ghost var links1 := dag.links;
      Reorganize(dag, names, OfNode(newParent), fuel - 1);
      if exact0 {
        KeepsReachTrans(dag.nodes, links0, links1, dag.links);
        KeptReach(dag.nodes, links1, dag.links, top, other);
        KeptReach(dag.nodes, links1, dag.links, newParent, other);
      }
    }
    if exact0 {
      ShouldDescendIsStrictSuperset(names, other, top);
      ReachedHasParent(dag.nodes, dag.links, top, other);
    }
    return true;
  }

  // ---------------------------------------------------------------------------
  // Reorganize

  /** What `reorganize` is called with: a record, whose children it reorganizes;
      nothing, for the roots; or a list of records. */
  datatype Start = OfNode(node: NodeId) | AllRoots | Given(records: seq<NodeId>)

  /** The records a start names, as the tables give them. */
  function StartSiblings(nodes: set<NodeId>, links: set<Link>, start: Start): set<NodeId> {
    match start
    case OfNode(n) => Children(links, n)
    case AllRoots => set x | x in nodes && Link(None, x) in links
    case Given(xs) => Elements(xs)
  }

  /** No member of `s` should descend from another. */
  predicate Calm(names: Names, s: set<NodeId>) {
    forall x, y :: x in s && y in s && x in names && y in names ==> !ShouldDescendFrom(names, y, x)
  }

  /** Every record of `s` lies below every record of `s` that it should descend from. */
  ghost predicate AllBelow(names: Names, nodes: set<NodeId>, links: set<Link>, s: set<NodeId>) {
    forall x, y :: x in s && y in s && x in names && y in names && ShouldDescendFrom(names, y, x) ==> Reaches(nodes, links, x, y)
  }

  /** A has-many association loaded into a list: every member once, in an order the
      model leaves open. */
  method Snapshot(s: set<NodeId>) returns (xs: seq<NodeId>)
    ensures Elements(xs) == s && Distinct(xs)
  {
    xs := [];
    var rest := s;
    while rest != {}
      invariant Elements(xs) + rest == s && Elements(xs) !! rest && Distinct(xs)
      decreases |rest|
    {
      var x :| x in rest;
      assert Elements(xs + [x]) == Elements(xs) + {x};
      xs := xs + [x];
      rest := rest - {x};
    }
  }

  /** `reorganize(start)`: for every ordered pair of different siblings where the second
      should descend from the first, take the second from the parent whose children
      are being reorganized, if any, and plinko it below the first. */
  method Reorganize(dag: Dag, names: Names, start: Start, fuel: nat)
    requires dag.Valid() && dag.nodes <= names.Keys && Deprecated.Climbing(names, dag.links, dag.nodes)
    requires start.OfNode? ==> start.node in dag.nodes
    requires start.Given? ==> Elements(start.records) <= dag.nodes
    modifies dag`links, dag`closure
    ensures dag.Valid() && (old(dag.ClosureExact()) ==> dag.ClosureExact())
    ensures Deprecated.Climbing(names, dag.links, dag.nodes)
    ensures Calm(names, old(StartSiblings(dag.nodes, dag.links, start))) ==>
      dag.links == old(dag.links) && dag.closure == old(dag.closure)
    ensures old(dag.ClosureExact()) ==> KeepsReach(dag.nodes, old(dag.links), dag.links)
    ensures old(dag.ClosureExact()) && RootsExact(old(dag.links), dag.nodes) ==> RootsExact(dag.links, dag.nodes)
    ensures old(dag.ClosureExact()) ==> AllBelow(names, dag.nodes, dag.links, old(StartSiblings(dag.nodes, dag.links, start)))
    decreases fuel, 3
  {
    var parent: Option<NodeId>;
    var siblings: seq<NodeId>;
    match start {
      case OfNode(n) =>
        parent := Some(n);
        siblings := Snapshot(Children(dag.links, n));
        forall x | x in siblings ensures Reaches(dag.nodes, dag.links, n, x) {
          assert x in Elements(siblings);
          assert IsPath(dag.nodes, dag.links, [n, x]);
        }
      case AllRoots =>
        parent := None;
        siblings := Snapshot(set x | x in dag.nodes && Link(None, x) in dag.links);
      case Given(xs) =>
        parent := None;
        siblings := xs;
    }
    ReorganizeEach(dag, names, parent, siblings, siblings, fuel);
  }

  /** No record of `ss` should descend from a record of `cs`. */
  predicate NoneBelow(names: Names, cs: seq<NodeId>, ss: seq<NodeId>) {
    forall c, s :: c in cs && s in ss && c in names && s in names ==> !ShouldDescendFrom(names, s, c)
  }

  /** The outer loop of `reorganize`, over the records of `currents` in turn (written as
      recursion on those not yet visited). */
  method ReorganizeEach(dag: Dag, names: Names, parent: Option<NodeId>, currents: seq<NodeId>, siblings: seq<NodeId>, fuel: nat)
    requires dag.Valid() && dag.nodes <= names.Keys && Deprecated.Climbing(names, dag.links, dag.nodes)
    requires Elements(currents) <= dag.nodes && Elements(siblings) <= dag.nodes
    requires parent.Some? ==> parent.value in dag.nodes
    modifies dag`links, dag`closure
    ensures dag.Valid() && (old(dag.ClosureExact()) ==> dag.ClosureExact())
    ensures Deprecated.Climbing(names, dag.links, dag.nodes)
    ensures NoneBelow(names, currents, siblings) ==> dag.links == old(dag.links) && dag.closure == old(dag.closure)
    ensures old(dag.ClosureExact()) && (parent.Some? ==> forall x :: x in currents ==> Reaches(dag.nodes, old(dag.links), parent.value, x)) ==>
      KeepsReach(dag.nodes, old(dag.links), dag.links)
    ensures old(dag.ClosureExact()) && RootsExact(old(dag.links), dag.nodes) ==> RootsExact(dag.links, dag.nodes)
    ensures old(dag.ClosureExact()) && (parent.Some? ==> forall x :: x in currents ==> Reaches(dag.nodes, old(dag.links), parent.value, x)) ==>
      forall x, s :: x in currents && s in siblings && ShouldDescendFrom(names, s, x) ==> Reaches(dag.nodes, dag.links, x, s)
    decreases fuel, 2, |currents|
  {
    if |currents| > 0 {
      ghost var links0, exact0 := dag.links, dag.ClosureExact();
      ReorganizeAgainst(dag, names, parent, currents[0], siblings, fuel);
      ghost var links1 := dag.links;
      if exact0 && parent.Some? && forall x :: x in currents ==> Reaches(dag.nodes, links0, parent.value, x) {
        forall x | x in currents[1..] ensures Reaches(dag.nodes, links1, parent.value, x) {
          KeptReach(dag.nodes, links0, links1, parent.value, x);
        }
      }
      ReorganizeEach(dag, names, parent, currents[1..], siblings, fuel);
      if exact0 && (parent.Some? ==> forall x :: x in currents ==> Reaches(dag.nodes, links0, parent.value, x)) {
        KeepsReachTrans(dag.nodes, links0, links1, dag.links);
        forall s | s in siblings && ShouldDescendFrom(names, s, currents[0])
          ensures Reaches(dag.nodes, dag.links, currents[0], s)
        {
          KeptReach(dag.nodes, links1, dag.links, currents[0], s);
        }
        assert forall x :: x in currents ==> x == currents[0] || x in currents[1..];
      }
    } else {
      KeepsReachByLinks(dag.nodes, dag.links, dag.links);
    }
  }

  /** The inner loop of `reorganize`: every record of `siblings` in turn against
      `current` (written as recursion on those not yet visited). */
  method ReorganizeAgainst(dag: Dag, names: Names, parent: Option<NodeId>, current: NodeId, siblings: seq<NodeId>, fuel: nat)
    requires dag.Valid() && dag.nodes <= names.Keys && Deprecated.Climbing(names, dag.links, dag.nodes)
    requires current in dag.nodes && Elements(siblings) <= dag.nodes
    requires parent.Some? ==> parent.value in dag.nodes
    modifies dag`links, dag`closure
    ensures dag.Valid() && (old(dag.ClosureExact()) ==> dag.ClosureExact())
    ensures Deprecated.Climbing(names, dag.links, dag.nodes)
    ensures NoneBelow(names, [current], siblings) ==> dag.links == old(dag.links) && dag.closure == old(dag.closure)
    ensures old(dag.ClosureExact()) && (parent.Some? ==> Reaches(dag.nodes, old(dag.links), parent.value, current)) ==>
      KeepsReach(dag.nodes, old(dag.links), dag.links)
    ensures old(dag.ClosureExact()) && RootsExact(old(dag.links), dag.nodes) ==> RootsExact(dag.links, dag.nodes)
    ensures old(dag.ClosureExact()) && (parent.Some? ==> Reaches(dag.nodes, old(dag.links), parent.value, current)) ==>
      forall s :: s in siblings && ShouldDescendFrom(names, s, current) ==> Reaches(dag.nodes, dag.links, current, s)
    decreases fuel, 1, |siblings|
  {
    if |siblings| > 0 {
      ghost var links0, exact0 := dag.links, dag.ClosureExact();
      ghost var reached := parent.Some? ==> Reaches(dag.nodes, links0, parent.value, current);
      ReorganizePair(dag, names, parent, current, siblings[0], fuel);
      ghost var links1 := dag.links;
      if exact0 && reached && parent.Some? {
        KeptReach(dag.nodes, links0, links1, parent.value, current);
      }
      ReorganizeAgainst(dag, names, parent, current, siblings[1..], fuel);
      if exact0 && reached {
        KeepsReachTrans(dag.nodes, links0, links1, dag.links);
        if ShouldDescendFrom(names, siblings[0], current) {
          KeptReach(dag.nodes, links1, dag.links, current, siblings[0]);
        }
        assert forall s :: s in siblings ==> s == siblings[0] || s in siblings[1..];
      }
    } else {
      KeepsReachByLinks(dag.nodes, dag.links, dag.links);
    }
  }

  /** The body of the inner loop: when `sibling` should descend from `current`, remove
      it from the parent, if any, and plinko it below `current`. */
  method ReorganizePair(dag: Dag, names: Names, parent: Option<NodeId>, current: NodeId, sibling: NodeId, fuel: nat)
    requires dag.Valid() && dag.nodes <= names.Keys && Deprecated.Climbing(names, dag.links, dag.nodes)
    requires current in dag.nodes && sibling in dag.nodes
    requires parent.Some? ==> parent.value in dag.nodes
    modifies dag`links, dag`closure
    ensures dag.Valid() && (old(dag.ClosureExact()) ==> dag.ClosureExact())
    ensures Deprecated.Climbing(names, dag.links, dag.nodes)
    ensures !ShouldDescendFrom(names, sibling, current) ==> dag.links == old(dag.links) && dag.closure == old(dag.closure)
    ensures old(dag.ClosureExact()) && (parent.Some? ==> Reaches(dag.nodes, old(dag.links), parent.value, current)) ==>
      KeepsReach(dag.nodes, old(dag.links), dag.links)
    ensures old(dag.ClosureExact()) && RootsExact(old(dag.links), dag.nodes) ==> RootsExact(dag.links, dag.nodes)
    ensures old(dag.ClosureExact()) && ShouldDescendFrom(names, sibling, current) ==> Reaches(dag.nodes, dag.links, current, sibling)
    decreases fuel, 1, 0
  {
    ghost var links0, exact0 := dag.links, dag.ClosureExact();
    ghost var reached := parent.Some? ==> Reaches(dag.nodes, links0, parent.value, current);
    if current == sibling || !ShouldDescendFrom(names, sibling, current) {
      KeepsReachByLinks(dag.nodes, dag.links, dag.links);
      ShouldDescendIsStrictSuperset(names, sibling, current);
      return;
    }
    ShouldDescendIsStrictSuperset(names, sibling, current);
    if parent.Some? {
      var _ := Unlink(dag, parent, Some(sibling));
      UnlinkStep(names, dag.nodes, links0, parent.value, sibling, dag.links);
      if exact0 && reached {
        ReachAvoids(dag.nodes, links0, names, parent.value, current, parent.value, sibling);
      }
    }
    ghost var mid := dag.links;
    var _ := Plinko(dag, names, current, sibling, fuel);
    if exact0 && reached && parent.Some? {
      KeptReach(dag.nodes, mid, dag.links, parent.value, current);
      ReachesTrans(dag.nodes, dag.links, parent.value, current, current, sibling);
      DetourKeepsReach(dag.nodes, links0, mid, dag.links, parent.value, sibling);
    }
  }

  /** `reorganize_all`: reset the class's hierarchy, then reorganize its roots. The
      tables end exact, every real link goes from a name to a name that extends it, and
      a record is a root exactly when it has no parent. */
  method ReorganizeAll(dag: Dag, names: Names, all: seq<NodeId>, fuel: nat)
    requires dag.Valid() && Elements(all) == dag.nodes && dag.nodes <= names.Keys
    modifies dag`links, dag`closure
    ensures dag.Valid() && dag.ClosureExact()
    ensures Deprecated.Climbing(names, dag.links, dag.nodes)
    ensures RootsExact(dag.links, dag.nodes)
    ensures AllBelow(names, dag.nodes, dag.links, dag.nodes)
  {
    ResetHierarchy(dag, all);
    ResetClimbs(names, dag.nodes, all);
    assert StartSiblings(dag.nodes, dag.links, AllRoots) == dag.nodes by {
      forall x | x in dag.nodes ensures Link(None, x) in dag.links {
        assert x in all;
      }
    }
    Reorganize(dag, names, AllRoots, fuel);
  }
}
