/**
  The oldest engine, `ActiveRecord::Acts::DAG`: the same link and descendant tables,
  kept by the records' own methods, but with two differences in how rows are saved
  and deleted. A descendant row is saved only when no row for the same ancestor and
  descendant exists, so the table holds one row per pair, with the distance of the
  first path that was saved. And `unlink` deletes the rows from the parent's
  ancestors to the child's descendants without rebuilding any of them.

  The invariant this engine can keep is therefore not exactness but `PairExact`: one
  row per pair of records joined by a real path, each row a real path. `link` keeps
  it; `unlink` keeps it exactly when no deleted pair is still joined, which fails on
  the first diamond (see `DiamondLosesRow`).

  The tables are those of a `Dag` object, whose `allowRootAndParent` and `kind` this
  engine ignores.
*/
module ActsDag {
  import opened Wrappers
  import opened Graph
  import opened CurrentDag

  type Pair = (NodeId, NodeId)

  /** The ancestor and descendant of every row, without distances. */
  function Pairs(rows: set<Row>): set<Pair> {
    set r | r in rows :: (r.ancestor, r.descendant)
  }

  /** At most one row per ancestor and descendant. */
  predicate PairsUnique(rows: set<Row>) {
    forall r, s :: r in rows && s in rows && r.ancestor == s.ancestor && r.descendant == s.descendant ==> r == s
  }

  /** What the table promises here: one row per pair, every row a real path, and a row
      for every pair that a real path joins. */
  ghost predicate PairExact(nodes: set<NodeId>, links: set<Link>, closure: set<Row>) {
    && PairsUnique(closure)
    && (forall r :: r in closure ==> Justified(nodes, links, r))
    && (forall a: NodeId, d: NodeId :: Reaches(nodes, links, a, d) ==> (a, d) in Pairs(closure))
  }

  /** `after` is `before` with the rows of `extra` saved one by one through the
      duplicate check: some of them are written, and together they add the pairs of
      `extra` and no second row for any pair. */
  predicate Grows(before: set<Row>, after: set<Row>, extra: set<Row>) {
    && before <= after <= before + extra
    && Pairs(after) == Pairs(before) + Pairs(extra)
    && (PairsUnique(before) ==> PairsUnique(after))
  }

  lemma PairsUnion(a: set<Row>, b: set<Row>)
    ensures Pairs(a + b) == Pairs(a) + Pairs(b)
  {
  }

  /** Saving one batch and then another saves both. */
  lemma GrowsTrans(a: set<Row>, b: set<Row>, c: set<Row>, e1: set<Row>, e2: set<Row>)
    requires Grows(a, b, e1) && Grows(b, c, e2)
    ensures Grows(a, c, e1 + e2)
  {
    PairsUnion(e1, e2);
  }

  lemma PairIn(rows: set<Row>, r: Row)
    requires r in rows
    ensures (r.ancestor, r.descendant) in Pairs(rows)
  {
  }

  /** A table that one real link set makes pair-exact is pair-exact for any link set
      with the same real links. */
  lemma SamePairExact(nodes: set<NodeId>, l1: set<Link>, l2: set<Link>, closure: set<Row>)
    requires forall l: Link :: l.parent.Some? ==> (l in l1 <==> l in l2)
    ensures PairExact(nodes, l1, closure) <==> PairExact(nodes, l2, closure)
  {
    SameRealLinks(nodes, l1, l2);
    forall a, d ensures Reaches(nodes, l1, a, d) <==> Reaches(nodes, l2, a, d) {
      if Reaches(nodes, l1, a, d) {
        var q :| IsPath(nodes, l1, q) && q[0] == a && q[|q| - 1] == d;
        assert IsPath(nodes, l2, q);
      }
      if Reaches(nodes, l2, a, d) {
        var q :| IsPath(nodes, l2, q) && q[0] == a && q[|q| - 1] == d;
        assert IsPath(nodes, l1, q);
      }
    }
  }

  // ---------------------------------------------------------------------------
  // Saving records

  /** A descendant row's `save!`: when a row for the same ancestor and descendant
      exists, it stands in for the new one and nothing is written. */
  method SaveRow(dag: Dag, r: Row)
    modifies dag`closure
    ensures (r.ancestor, r.descendant) in Pairs(old(dag.closure)) ==> dag.closure == old(dag.closure)
    ensures (r.ancestor, r.descendant) !in Pairs(old(dag.closure)) ==> dag.closure == old(dag.closure) + {r}
    ensures Grows(old(dag.closure), dag.closure, {r})
  {
    if (r.ancestor, r.descendant) !in Pairs(dag.closure) {
      forall s | s in dag.closure ensures (s.ancestor, s.descendant) != (r.ancestor, r.descendant) {
        PairIn(dag.closure, s);
      }
      dag.closure := dag.closure + {r};
    }
  }

  /** A link's `save!`: an existing link with the same ends stands in for the new one,
      and a link from a record to itself fails validation and is not written. It
      reports whether the link is valid and whether it was replaced. */
  method SaveLink(dag: Dag, l: Link) returns (valid: bool, replaced: bool)
    modifies dag`links
    ensures valid == NotSelfReferential(l) && replaced == (l in old(dag.links))
    ensures dag.links == old(dag.links) + (if valid then {l} else {})
  {
    replaced := l in dag.links;
    valid := NotSelfReferential(l);
    if valid {
      dag.links := dag.links + {l};
    }
  }

  // ---------------------------------------------------------------------------
  // Creation hooks

  /** `initialize_links`: a new root sentinel for the record. */
  method InitializeLinks(dag: Dag, n: NodeId)
    requires dag.Valid() && n in dag.nodes
    modifies dag`links
    ensures dag.links == old(dag.links) + {Link(None, n)}
    ensures dag.Valid()
    ensures old(PairExact(dag.nodes, dag.links, dag.closure)) ==> PairExact(dag.nodes, dag.links, dag.closure)
  {
    SameRealLinks(dag.nodes, dag.links, dag.links + {Link(None, n)});
    SamePairExact(dag.nodes, dag.links, dag.links + {Link(None, n)}, dag.closure);
    var _, _ := SaveLink(dag, Link(None, n));
  }

  /** `initialize_descendants`: the record's self row, saved through the duplicate
      check; a pair-exact table already has a row for that pair. */
  method InitializeDescendants(dag: Dag, n: NodeId)
    requires dag.Valid() && n in dag.nodes
    modifies dag`closure
    ensures Grows(old(dag.closure), dag.closure, {Row(n, n, 0)})
    ensures dag.Valid()
    ensures old(PairExact(dag.nodes, dag.links, dag.closure)) ==>
      PairExact(dag.nodes, dag.links, dag.closure) && dag.closure == old(dag.closure)
  {
    if PairExact(dag.nodes, dag.links, dag.closure) {
      assert IsPath(dag.nodes, dag.links, [n]);
      assert Reaches(dag.nodes, dag.links, n, n);
    }
    SaveRow(dag, Row(n, n, 0));
  }

  // ---------------------------------------------------------------------------
  // Linking

  /** `link(parent, child)`: both records need ids. The new link is saved; a link
      that fails validation (a record to itself) ends the call silently, and so does
      one that already existed. Otherwise the child's root sentinel is unlinked and
      every ancestor row of the parent joined with every descendant row of the child
      is saved through the duplicate check. */
  method LinkNodes(dag: Dag, parent: Option<NodeId>, child: Option<NodeId>) returns (outcome: Outcome)
    requires dag.Valid()
    requires parent.Some? ==> parent.value in dag.nodes
    requires child.Some? ==> child.value in dag.nodes
    requires parent.Some? && child.Some? && parent.value != child.value ==>
      !Reaches(dag.nodes, dag.links, child.value, parent.value)
    modifies dag`links, dag`closure
    ensures dag.Valid()
    ensures old(PairExact(dag.nodes, dag.links, dag.closure)) ==> PairExact(dag.nodes, dag.links, dag.closure)
    ensures parent.None? ==>
      outcome == Fail(ParentHasNoId) && dag.links == old(dag.links) && dag.closure == old(dag.closure)
    ensures parent.Some? && child.None? ==>
      outcome == Fail(ChildHasNoId) && dag.links == old(dag.links) && dag.closure == old(dag.closure)
    ensures parent.Some? && child.Some? && (parent.value == child.value || Link(parent, child.value) in old(dag.links)) ==>
      outcome == Pass && dag.links == old(dag.links) && dag.closure == old(dag.closure)
    ensures parent.Some? && child.Some? && parent.value != child.value && Link(parent, child.value) !in old(dag.links) ==>
      && outcome == Pass
      && dag.links == old(dag.links) + {Link(parent, child.value)} - {Link(None, child.value)}
      && Grows(old(dag.closure), dag.closure, Cross(old(dag.closure), parent, child.value))
  {
    if parent.None? {
      return Fail(ParentHasNoId);
    }
    if child.None? {
      return Fail(ChildHasNoId);
    }
    var l := Link(parent, child.value);
    ghost var links0, closure0 := dag.links, dag.closure;
    ghost var exact0 := PairExact(dag.nodes, dag.links, dag.closure);
    var valid, replaced := SaveLink(dag, l);
    if !valid {
      return Pass;
    }
    if replaced {
      assert dag.links == links0;
      return Pass;
    }
    AddLinkAcyclic(dag.nodes, links0, parent.value, child.value);
    var _ := Unlink(dag, None, child);
    SamePairExact(dag.nodes, links0 + {l}, dag.links, dag.closure);
    var ancestors := AncestorRows(dag.closure, parent);
    var descendants := DescendantRows(dag.closure, child.value);
    SaveCross(dag, ancestors, descendants);
    CrossRowsIn(dag.nodes, closure0, parent, child.value);
    if exact0 {
      LinkKeepsPairExact(dag.nodes, links0, closure0, parent.value, child.value, dag.closure);
      SamePairExact(dag.nodes, links0 + {l}, dag.links, dag.closure);
    }
    return Pass;
  }

  /** The outer loop of `link`: every ancestor row in turn (written as recursion on
      the ancestor rows not yet joined). */
  method SaveCross(dag: Dag, ancestors: set<Row>, descendants: set<Row>)
    modifies dag`closure
    ensures Grows(old(dag.closure), dag.closure, CrossOf(ancestors, descendants))
    decreases |ancestors|
  {
    if ancestors == {} {
      assert CrossOf(ancestors, descendants) == {};
    } else {
      var a :| a in ancestors;
      ghost var before := dag.closure;
      SaveJoin(dag, a, descendants);
      ghost var mid := dag.closure;
      SaveCross(dag, ancestors - {a}, descendants);
      GrowsCross(before, mid, dag.closure, ancestors, descendants, a);
    }
  }

  /** One ancestor's share, then the rest, is the whole cross product. */
  lemma GrowsCross(before: set<Row>, mid: set<Row>, after: set<Row>, ancestors: set<Row>, descendants: set<Row>, a: Row)
    requires a in ancestors
    requires Grows(before, mid, JoinAncestor(a, descendants))
    requires Grows(mid, after, CrossOf(ancestors - {a}, descendants))
    ensures Grows(before, after, CrossOf(ancestors, descendants))
  {
    var share, rest := JoinAncestor(a, descendants), CrossOf(ancestors - {a}, descendants);
    GrowsTrans(before, mid, after, share, rest);
    assert CrossOf(ancestors, descendants) == share + rest by {
      CrossOfAddAncestor(ancestors - {a}, descendants, a);
      assert ancestors - {a} + {a} == ancestors;
    }
  }

  /** The inner loop of `link`: one ancestor row joined with every descendant row,
      each joined row saved through the duplicate check. */
  method SaveJoin(dag: Dag, a: Row, descendants: set<Row>)
    modifies dag`closure
    ensures Grows(old(dag.closure), dag.closure, JoinAncestor(a, descendants))
  {
    var rest := descendants;
    ghost var met: set<Row> := {};
    while rest != {}
      invariant met + rest == descendants
      invariant Grows(old(dag.closure), dag.closure, JoinAncestor(a, met))
      decreases |rest|
    {
      var d :| d in rest;
      ghost var before := dag.closure;
      var r := Row(a.ancestor, d.descendant, a.distance + d.distance + 1);
      SaveRow(dag, r);
      GrowsTrans(old(dag.closure), before, dag.closure, JoinAncestor(a, met), {r});
      JoinAncestorAdd(a, met, d);
      met := met + {d};
      rest := rest - {d};
    }
  }

  /** The link rule for this table: saving the cross rows of a new link through the
      duplicate check keeps a pair-exact table pair-exact, provided the link closes
      no cycle. */
  lemma LinkKeepsPairExact(nodes: set<NodeId>, links: set<Link>, closure: set<Row>, p: NodeId, c: NodeId, grown: set<Row>)
    requires PairExact(nodes, links, closure)
    requires Acyclic(nodes, links + {Link(Some(p), c)})
    requires Grows(closure, grown, Cross(closure, Some(p), c))
    ensures PairExact(nodes, links + {Link(Some(p), c)}, grown)
  {
    var more := links + {Link(Some(p), c)};
    forall r | r in grown ensures Justified(nodes, more, r) {
      if r in closure {
        var q :| IsPath(nodes, links, q) && |q| == r.distance + 1 && q[0] == r.ancestor && q[|q| - 1] == r.descendant;
        PathMono(nodes, links, more, q);
      } else {
        CrossJustified(nodes, links, closure, p, c, r);
      }
    }
    forall a: NodeId, d: NodeId | Reaches(nodes, more, a, d) ensures (a, d) in Pairs(grown) {
      var q :| IsPath(nodes, more, q) && q[0] == a && q[|q| - 1] == d;
      NewPathCovered(nodes, links, closure, p, c, q);
    }
  }

  /** A path through the new link joins a pair that the parent's ancestor rows and the
      child's descendant rows already cover; any other path is an old one. */
  lemma NewPathCovered(nodes: set<NodeId>, links: set<Link>, closure: set<Row>, p: NodeId, c: NodeId, q: seq<NodeId>)
    requires forall a: NodeId, d: NodeId :: Reaches(nodes, links, a, d) ==> (a, d) in Pairs(closure)
    requires Acyclic(nodes, links + {Link(Some(p), c)})
    requires IsPath(nodes, links + {Link(Some(p), c)}, q)
    ensures (q[0], q[|q| - 1]) in Pairs(closure) + Pairs(Cross(closure, Some(p), c))
  {
    SplitAtNewLink(nodes, links, p, c, q);
    if IsPath(nodes, links, q) {
      assert Reaches(nodes, links, q[0], q[|q| - 1]);
      assert (q[0], q[|q| - 1]) in Pairs(closure);
    } else {
      var i :| 0 <= i < |q| - 1 && q[i] == p && q[i + 1] == c &&
        IsPath(nodes, links, q[..i + 1]) && IsPath(nodes, links, q[i + 1..]);
      SplitReaches(nodes, links, q, i);
      CrossPair(closure, p, c, q[0], q[|q| - 1]);
    }
  }

  /** The two halves of a path split after position `i` join its ends to the split. */
  lemma SplitReaches(nodes: set<NodeId>, links: set<Link>, q: seq<NodeId>, i: nat)
    requires i < |q| - 1 && IsPath(nodes, links, q[..i + 1]) && IsPath(nodes, links, q[i + 1..])
    ensures Reaches(nodes, links, q[0], q[i]) && Reaches(nodes, links, q[i + 1], q[|q| - 1])
  {
    var up, down := q[..i + 1], q[i + 1..];
    assert up[0] == q[0] && up[|up| - 1] == q[i];
    assert down[0] == q[i + 1] && down[|down| - 1] == q[|q| - 1];
  }

  /** A pair above the parent and a pair below the child give a cross pair. */
  lemma CrossPair(closure: set<Row>, p: NodeId, c: NodeId, a: NodeId, d: NodeId)
    requires (a, p) in Pairs(closure) && (c, d) in Pairs(closure)
    ensures (a, d) in Pairs(Cross(closure, Some(p), c))
  {
    var ra :| ra in closure && ra.ancestor == a && ra.descendant == p;
    var rd :| rd in closure && rd.ancestor == c && rd.descendant == d;
    assert ra in AncestorRows(closure, Some(p)) && rd in DescendantRows(closure, c);
    var r := Row(a, d, ra.distance + rd.distance + 1);
    assert r in Cross(closure, Some(p), c);
    PairIn(Cross(closure, Some(p), c), r);
  }

  // ---------------------------------------------------------------------------
  // Unlinking

  /** `unlink(parent, child)`: a child is needed; every matching link is deleted. For
      a real parent every row from an ancestor of the parent to a descendant of the
      child is deleted, as the table lists them before the deletion; nothing is
      rebuilt. A root sentinel's unlink deletes no row. */
  method Unlink(dag: Dag, parent: Option<NodeId>, child: Option<NodeId>) returns (outcome: Outcome)
    requires dag.Valid()
    modifies dag`links, dag`closure
    ensures dag.Valid()
    ensures child.None? ==>
      outcome == Fail(ChildIsNil) && dag.links == old(dag.links) && dag.closure == old(dag.closure)
    ensures child.Some? ==> outcome == Pass && dag.links == old(dag.links) - {Link(parent, child.value)}
    ensures child.Some? && parent.None? ==> dag.closure == old(dag.closure)
    ensures child.Some? && parent.None? && old(PairExact(dag.nodes, dag.links, dag.closure)) ==>
      PairExact(dag.nodes, dag.links, dag.closure)
    ensures child.Some? && parent.Some? ==>
      dag.closure == old(dag.closure) -
        Block(old(dag.closure), PathIds(old(dag.closure), parent.value), SubtreeIds(old(dag.closure), child.value))
  {
    if child.None? {
      return Fail(ChildIsNil);
    }
    var l := Link(parent, child.value);
    AcyclicSubset(dag.nodes, dag.links, dag.links - {l});
    if parent.None? {
      SamePairExact(dag.nodes, dag.links, dag.links - {l}, dag.closure);
    }
    dag.links := dag.links - {l};
    if parent.Some? {
      var above := PathIds(dag.closure, parent.value);
      var below := SubtreeIds(dag.closure, child.value);
      dag.closure := dag.closure - Block(dag.closure, above, below);
    }
    return Pass;
  }

  /** A path that uses the removed link runs from the parent's path to the child's
      subtree, as a pair-exact table lists them. */
  lemma AvoidsOrBlocked(nodes: set<NodeId>, links: set<Link>, closure: set<Row>, p: NodeId, c: NodeId, q: seq<NodeId>)
    requires PairExact(nodes, links, closure) && IsPath(nodes, links, q)
    ensures IsPath(nodes, links - {Link(Some(p), c)}, q) ||
      (q[0] in PathIds(closure, p) && q[|q| - 1] in SubtreeIds(closure, c))
  {
    if !IsPath(nodes, links - {Link(Some(p), c)}, q) {
      var i :| 0 <= i < |q| - 1 && Link(Some(q[i]), q[i + 1]) !in links - {Link(Some(p), c)};
      assert q[i] == p && q[i + 1] == c;
      SubPath(nodes, links, q, 0, i + 1);
      SubPath(nodes, links, q, i + 1, |q|);
      var up, down := q[..i + 1], q[i + 1..];
      assert up[0] == q[0] && up[|up| - 1] == p;
      assert down[0] == c && down[|down| - 1] == q[|q| - 1];
      assert (q[0], p) in Pairs(closure) && (c, q[|q| - 1]) in Pairs(closure);
    }
  }

  /** A row outside the block is still a real path once the link is gone. */
  lemma KeptRowJustified(nodes: set<NodeId>, links: set<Link>, closure: set<Row>, p: NodeId, c: NodeId, r: Row)
    requires PairExact(nodes, links, closure)
    requires r in closure - Block(closure, PathIds(closure, p), SubtreeIds(closure, c))
    ensures Justified(nodes, links - {Link(Some(p), c)}, r)
  {
    var q :| IsPath(nodes, links, q) && |q| == r.distance + 1 && q[0] == r.ancestor && q[|q| - 1] == r.descendant;
    AvoidsOrBlocked(nodes, links, closure, p, c, q);
  }

  /** What this `unlink` does to the invariant: starting from a pair-exact table, the
      table it leaves is pair-exact exactly when no deleted pair is still joined by the
      links that remain. */
  lemma UnlinkPairExactIff(nodes: set<NodeId>, links: set<Link>, closure: set<Row>, p: NodeId, c: NodeId)
    requires PairExact(nodes, links, closure)
    ensures PairExact(nodes, links - {Link(Some(p), c)},
        closure - Block(closure, PathIds(closure, p), SubtreeIds(closure, c))) <==>
      forall a: NodeId, d: NodeId :: a in PathIds(closure, p) && d in SubtreeIds(closure, c) ==>
        !Reaches(nodes, links - {Link(Some(p), c)}, a, d)
  {
    var remaining := links - {Link(Some(p), c)};
    var above, below := PathIds(closure, p), SubtreeIds(closure, c);
    var kept := closure - Block(closure, above, below);
    forall r | r in kept ensures Justified(nodes, remaining, r) {
      KeptRowJustified(nodes, links, closure, p, c, r);
    }
    if forall a: NodeId, d: NodeId :: a in above && d in below ==> !Reaches(nodes, remaining, a, d) {
      forall a: NodeId, d: NodeId | Reaches(nodes, remaining, a, d) ensures (a, d) in Pairs(kept) {
        ReachesMono(nodes, remaining, links, a, d);
        var r :| r in closure && r.ancestor == a && r.descendant == d;
        assert r in kept;
        PairIn(kept, r);
      }
    } else {
      var a, d :| a in above && d in below && Reaches(nodes, remaining, a, d);
      forall r | r in kept ensures (r.ancestor, r.descendant) != (a, d) {
      }
    }
  }

  // ---------------------------------------------------------------------------
  // Unlinking with a rebuild

  /** `unlink` as the later engines do it, on this table: the same deletion, then a
      rebuild from every record of the block left without a real parent, with each
      rebuilt row saved through the duplicate check. This keeps the table pair-exact. */
  method UnlinkRebuilt(dag: Dag, parent: Option<NodeId>, child: Option<NodeId>) returns (outcome: Outcome)
    requires dag.Valid()
    modifies dag`links, dag`closure
    ensures dag.Valid()
    ensures old(PairExact(dag.nodes, dag.links, dag.closure)) ==> PairExact(dag.nodes, dag.links, dag.closure)
    ensures child.None? ==>
      outcome == Fail(ChildIsNil) && dag.links == old(dag.links) && dag.closure == old(dag.closure)
    ensures child.Some? ==> outcome == Pass && dag.links == old(dag.links) - {Link(parent, child.value)}
    ensures child.Some? && parent.None? ==> dag.closure == old(dag.closure)
    ensures child.Some? && parent.Some? ==>
      var above, below := PathIds(old(dag.closure), parent.value), SubtreeIds(old(dag.closure), child.value);
      Grows(old(dag.closure) - Block(old(dag.closure), above, below), dag.closure,
        RebuiltFrom(dag.nodes, dag.links, StartingPoints(dag.links, above + below)))
  {
    if child.None? || parent.None? {
      outcome := Unlink(dag, parent, child);
      return;
    }
    ghost var links0, closure0 := dag.links, dag.closure;
    ghost var exact0 := PairExact(dag.nodes, dag.links, dag.closure);
    var above := PathIds(dag.closure, parent.value);
    var below := SubtreeIds(dag.closure, child.value);
    outcome := Unlink(dag, parent, child);
    var starts := StartingPoints(dag.links, above + below);
    SaveAll(dag, RebuiltFrom(dag.nodes, dag.links, starts));
    RepairedRowsIn(dag.nodes, dag.links, closure0, parent.value, child.value);
    if exact0 {
      UnlinkRebuiltPairExact(dag.nodes, links0, closure0, parent.value, child.value, dag.closure);
    }
  }

  /** Every row of `rows` saved through the duplicate check, one at a time. */
  method SaveAll(dag: Dag, rows: set<Row>)
    modifies dag`closure
    ensures Grows(old(dag.closure), dag.closure, rows)
  {
    var rest := rows;
    ghost var met: set<Row> := {};
    while rest != {}
      invariant met + rest == rows
      invariant Grows(old(dag.closure), dag.closure, met)
      decreases |rest|
    {
      var r :| r in rest;
      ghost var before := dag.closure;
      SaveRow(dag, r);
      GrowsTrans(old(dag.closure), before, dag.closure, met, {r});
      met := met + {r};
      rest := rest - {r};
    }
  }

  /** Every record of the parent's path has a record above it, with no real parent
      once the link is gone, that is in the path too. */
  lemma PairRootInPath(nodes: set<NodeId>, links: set<Link>, closure: set<Row>, p: NodeId, c: NodeId, a: NodeId)
    requires LinksIn(nodes, links) && Acyclic(nodes, links) && PairExact(nodes, links, closure)
    requires RowsIn(nodes, closure) && a in PathIds(closure, p)
    ensures exists v :: (IsPath(nodes, links - {Link(Some(p), c)}, v) && v[|v| - 1] == a &&
      RealParents(links - {Link(Some(p), c)}, v[0]) == {} && v[0] in PathIds(closure, p))
  {
    var remaining := links - {Link(Some(p), c)};
    AcyclicSubset(nodes, links, remaining);
    var ra :| ra in closure && ra.descendant == p && ra.ancestor == a;
    var pa :| IsPath(nodes, links, pa) && |pa| == ra.distance + 1 && pa[0] == a && pa[|pa| - 1] == p;
    RootAbove(nodes, remaining, [a]);
    var v :| IsPath(nodes, remaining, v) && v[|v| - 1] == a && RealParents(remaining, v[0]) == {};
    PathMono(nodes, remaining, links, v);
    Glue(nodes, links, v, pa);
    var g := v + pa[1..];
    assert g[0] == v[0] && g[|g| - 1] == p;
    assert Reaches(nodes, links, v[0], p);
    var rv :| rv in closure && rv.ancestor == v[0] && rv.descendant == p;
  }

  /** A deleted pair that the remaining links still join is saved again by the
      rebuild from the record above its ancestor. */
  lemma LostPairRebuilt(nodes: set<NodeId>, links: set<Link>, closure: set<Row>, p: NodeId, c: NodeId, a: NodeId, d: NodeId)
    requires LinksIn(nodes, links) && Acyclic(nodes, links) && PairExact(nodes, links, closure)
    requires RowsIn(nodes, closure) && a in PathIds(closure, p)
    requires Reaches(nodes, links - {Link(Some(p), c)}, a, d)
    ensures Acyclic(nodes, links - {Link(Some(p), c)})
    ensures (a, d) in Pairs(RebuiltFrom(nodes, links - {Link(Some(p), c)},
      StartingPoints(links - {Link(Some(p), c)}, PathIds(closure, p) + SubtreeIds(closure, c))))
  {
    var remaining := links - {Link(Some(p), c)};
    AcyclicSubset(nodes, links, remaining);
    var above := PathIds(closure, p);
    var starts := StartingPoints(remaining, above + SubtreeIds(closure, c));
    var q :| IsPath(nodes, remaining, q) && q[0] == a && q[|q| - 1] == d;
    PairRootInPath(nodes, links, closure, p, c, a);
    var v :| IsPath(nodes, remaining, v) && v[|v| - 1] == a && RealParents(remaining, v[0]) == {} && v[0] in above;
    Glue(nodes, remaining, v, q);
    var w := v + q[1..];
    assert v[0] in starts;
    assert w[..1] == [v[0]];
    RebuiltComplete(nodes, remaining, [v[0]], w, |v| - 1);
    assert w[|v| - 1] == a && w[|w| - 1] == d;
    var r := Row(a, d, |w| - |v|);
    assert r in Rebuilt(nodes, remaining, [v[0]]);
    assert r in RebuiltFrom(nodes, remaining, starts);
    PairIn(RebuiltFrom(nodes, remaining, starts), r);
  }

  /** The corrected unlink rule: deleting the block and saving the rebuilt rows
      through the duplicate check keeps a pair-exact table pair-exact. */
  lemma UnlinkRebuiltPairExact(nodes: set<NodeId>, links: set<Link>, closure: set<Row>, p: NodeId, c: NodeId, result: set<Row>)
    requires LinksIn(nodes, links) && Acyclic(nodes, links) && PairExact(nodes, links, closure) && RowsIn(nodes, closure)
    requires Acyclic(nodes, links - {Link(Some(p), c)})
    requires Grows(closure - Block(closure, PathIds(closure, p), SubtreeIds(closure, c)), result,
      RebuiltFrom(nodes, links - {Link(Some(p), c)},
        StartingPoints(links - {Link(Some(p), c)}, PathIds(closure, p) + SubtreeIds(closure, c))))
    ensures PairExact(nodes, links - {Link(Some(p), c)}, result)
  {
    var remaining := links - {Link(Some(p), c)};
    var above, below := PathIds(closure, p), SubtreeIds(closure, c);
    var kept := closure - Block(closure, above, below);
    var rebuilt := RebuiltFrom(nodes, remaining, StartingPoints(remaining, above + below));
    assert PairsUnique(kept);
    forall r | r in result ensures Justified(nodes, remaining, r) {
      if r in kept {
        KeptRowJustified(nodes, links, closure, p, c, r);
      } else {
        var s :| s in StartingPoints(remaining, above + below) && r in Rebuilt(nodes, remaining, [s]);
        RebuiltSound(nodes, remaining, [s]);
      }
    }
    forall a: NodeId, d: NodeId | Reaches(nodes, remaining, a, d) ensures (a, d) in Pairs(result) {
      ReachesMono(nodes, remaining, links, a, d);
      var r :| r in closure && r.ancestor == a && r.descendant == d;
      if r in kept {
        PairIn(kept, r);
      } else {
        LostPairRebuilt(nodes, links, closure, p, c, a, d);
      }
    }
  }

  // ---------------------------------------------------------------------------
  // A diamond

  function DiamondNodes(): set<NodeId> { {0, 1, 2, 3} }
  function DiamondLinks(): set<Link> { {Link(None, 0), Link(Some(0), 1), Link(Some(0), 2), Link(Some(1), 3), Link(Some(2), 3)} }
  function DiamondRows(): set<Row> {
    {Row(0, 0, 0), Row(1, 1, 0), Row(2, 2, 0), Row(3, 3, 0), Row(0, 1, 1), Row(0, 2, 1), Row(1, 3, 1), Row(2, 3, 1), Row(0, 3, 2)}
  }

  /** A table holds a row for every joined pair when it holds every self pair and is
      closed under following one more link. */
  lemma {:induction false} ClosedCovers(nodes: set<NodeId>, links: set<Link>, closure: set<Row>, q: seq<NodeId>)
    requires IsPath(nodes, links, q)
    requires forall x :: x in nodes ==> (x, x) in Pairs(closure)
    requires forall a: NodeId, b: NodeId, z: NodeId :: (a, b) in Pairs(closure) && Link(Some(b), z) in links ==> (a, z) in Pairs(closure)
    ensures (q[0], q[|q| - 1]) in Pairs(closure)
  {
    if |q| > 1 {
      var init := q[..|q| - 1];
      SubPath(nodes, links, q, 0, |q| - 1);
      ClosedCovers(nodes, links, closure, init);
      assert Link(Some(q[|q| - 2]), q[|q| - 1]) in links;
    }
  }

  function DiamondPairs(): set<Pair> {
    {(0, 0), (1, 1), (2, 2), (3, 3), (0, 1), (0, 2), (1, 3), (2, 3), (0, 3)}
  }

  /** Following one more link from a pair of the diamond's table gives a pair of it. */
  lemma DiamondClosed()
    ensures Pairs(DiamondRows()) == DiamondPairs()
    ensures forall a: NodeId, b: NodeId, z: NodeId :: (a, b) in Pairs(DiamondRows()) && Link(Some(b), z) in DiamondLinks() ==>
      (a, z) in Pairs(DiamondRows())
  {
    assert Pairs(DiamondRows()) == DiamondPairs();
    forall a: NodeId, b: NodeId, z: NodeId | (a, b) in DiamondPairs() && Link(Some(b), z) in DiamondLinks()
      ensures (a, z) in DiamondPairs()
    {
      assert (b == 0 && (z == 1 || z == 2)) || ((b == 1 || b == 2) && z == 3);
    }
  }

  /** The diamond's table is pair-exact. */
  lemma DiamondPairExact()
    ensures PairExact(DiamondNodes(), DiamondLinks(), DiamondRows())
  {
    DiamondUnique();
    forall r | r in DiamondRows() ensures Justified(DiamondNodes(), DiamondLinks(), r) {
      DiamondRowJustified(r);
    }
    forall a: NodeId, d: NodeId | Reaches(DiamondNodes(), DiamondLinks(), a, d) ensures (a, d) in Pairs(DiamondRows()) {
      var q :| IsPath(DiamondNodes(), DiamondLinks(), q) && q[0] == a && q[|q| - 1] == d;
      DiamondCovers(q);
    }
  }

  lemma DiamondCovers(q: seq<NodeId>)
    requires IsPath(DiamondNodes(), DiamondLinks(), q)
    ensures (q[0], q[|q| - 1]) in Pairs(DiamondRows())
  {
    DiamondClosed();
    ClosedCovers(DiamondNodes(), DiamondLinks(), DiamondRows(), q);
  }

  lemma DiamondUnique()
    ensures PairsUnique(DiamondRows())
  {
    forall r, s | r in DiamondRows() && s in DiamondRows() && r.ancestor == s.ancestor && r.descendant == s.descendant
      ensures r == s
    {
      assert r.distance == if r.ancestor == r.descendant then 0 else if r == Row(0, 3, 2) then 2 else 1;
      assert s.distance == if s.ancestor == s.descendant then 0 else if s == Row(0, 3, 2) then 2 else 1;
    }
  }

  lemma DiamondRowJustified(r: Row)
    requires r in DiamondRows()
    ensures Justified(DiamondNodes(), DiamondLinks(), r)
  {
    var nodes, links := DiamondNodes(), DiamondLinks();
    if r == Row(0, 0, 0) { assert IsPath(nodes, links, [0]); }
    if r == Row(1, 1, 0) { assert IsPath(nodes, links, [1]); }
    if r == Row(2, 2, 0) { assert IsPath(nodes, links, [2]); }
    if r == Row(3, 3, 0) { assert IsPath(nodes, links, [3]); }
    if r == Row(0, 1, 1) { assert IsPath(nodes, links, [0, 1]); }
    if r == Row(0, 2, 1) { assert IsPath(nodes, links, [0, 2]); }
    if r == Row(1, 3, 1) { assert IsPath(nodes, links, [1, 3]); }
    if r == Row(2, 3, 1) { assert IsPath(nodes, links, [2, 3]); }
    if r == Row(0, 3, 2) { assert IsPath(nodes, links, [0, 1, 3]); }
  }

  /** Unlinking `1 -> 3` from the diamond deletes the row `(0, 3)` although `0 -> 2 -> 3`
      still joins the pair: the table this `unlink` leaves is not pair-exact. */
  lemma DiamondLosesRow()
    ensures PairExact(DiamondNodes(), DiamondLinks(), DiamondRows())
    ensures Reaches(DiamondNodes(), DiamondLinks() - {Link(Some(1), 3)}, 0, 3)
    ensures (0, 3) !in Pairs(DiamondRows() - Block(DiamondRows(), PathIds(DiamondRows(), 1), SubtreeIds(DiamondRows(), 3)))
    ensures !PairExact(DiamondNodes(), DiamondLinks() - {Link(Some(1), 3)},
      DiamondRows() - Block(DiamondRows(), PathIds(DiamondRows(), 1), SubtreeIds(DiamondRows(), 3)))
  {
    DiamondPairExact();
    var nodes, links, rows := DiamondNodes(), DiamondLinks(), DiamondRows();
    var remaining := links - {Link(Some(1), 3)};
    assert IsPath(nodes, remaining, [0, 2, 3]);
    assert Row(0, 1, 1) in rows && Row(3, 3, 0) in rows;
    assert 0 in PathIds(rows, 1) && 3 in SubtreeIds(rows, 3);
    assert Row(0, 3, 2) in Block(rows, PathIds(rows, 1), SubtreeIds(rows, 3));
    UnlinkPairExactIff(nodes, links, rows, 1, 3);
  }
}
