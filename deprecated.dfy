/**
  The name classifier that runs on top of the current engine: it places every
  category under the categories whose names it extends. `names` gives each record's
  name, already split into words.
*/
module Deprecated {
  import opened Wrappers
  import opened Collections
  import opened Graph
  import opened Words
  import opened CurrentDag

  type Names = map<NodeId, Name>

  /** `should_descend_from?(current, other)`: `other` belongs below `current`. */
  predicate ShouldDescendFrom(names: Names, current: NodeId, other: NodeId)
    requires current in names && other in names
  {
    current != other && Extends(names[current], names[other])
  }

  /** The test is strict inclusion of word sets, for two different records. */
  lemma ShouldDescendIsStrictSuperset(names: Names, current: NodeId, other: NodeId)
    requires current in names && other in names
    ensures ShouldDescendFrom(names, current, other) <==>
      current != other && WordSet(names[current]) < WordSet(names[other])
    ensures !(ShouldDescendFrom(names, current, other) && ShouldDescendFrom(names, other, current))
    ensures !ShouldDescendFrom(names, current, current)
  {
    ExtendsIsStrictSuperset(names[current], names[other]);
    ExtendsAntisymmetric(names[current], names[other]);
  }

  /** `word_count`: the number of words of a name, repeated words counted again. */
  function WordCount(names: Names, c: NodeId): (n: nat)
    requires c in names
    ensures n == |names[c]| && n >= |WordSet(names[c])|
  {
    CardElements(names[c]);
    |names[c]|
  }

  /** `matching_word_count(current, other)`: the size of `other`'s words `&` `current`'s. */
  function MatchingWordCount(names: Names, current: NodeId, other: NodeId): nat
    requires current in names && other in names
  {
    |Intersect(names[other], names[current])|
  }

  /** The count is the number of different words the two names share, whichever way
      round it is asked, and at most either name's length. */
  lemma MatchingWordCountIsShared(names: Names, current: NodeId, other: NodeId)
    requires current in names && other in names
    ensures MatchingWordCount(names, current, other) == |WordSet(names[current]) * WordSet(names[other])|
    ensures MatchingWordCount(names, current, other) == MatchingWordCount(names, other, current)
    ensures MatchingWordCount(names, current, other) <= |names[current]|
    ensures MatchingWordCount(names, current, other) <= |names[other]|
  {
    CommonWordCountIsShared(names[other], names[current]);
    assert WordSet(names[other]) * WordSet(names[current]) == WordSet(names[current]) * WordSet(names[other]);
    IntersectBound(names[other], names[current]);
    IntersectBound(names[current], names[other]);
  }

  /** The count as the source computes it, on the words themselves. */
  function MatchingWordCountOf(otherWords: Name, selfWords: Name): nat {
    |Intersect(otherWords, selfWords)|
  }

  /** "totem pole" and "big totem pole" share two words, and the longer name descends
      from the shorter one but not the other way round. */
  lemma TotemPoleExample()
    ensures MatchingWordCountOf(["big", "totem", "pole"], ["totem", "pole"]) == 2
    ensures Extends(["totem", "pole"], ["big", "totem", "pole"])
    ensures !Extends(["big", "totem", "pole"], ["totem", "pole"])
  {
    var small: Name := ["totem", "pole"];
    var big: Name := ["big", "totem", "pole"];
    assert "big" != "totem" && "big" != "pole" && "totem" != "pole";
    assert WordSet(small) == {"totem", "pole"};
    assert WordSet(big) == {"big", "totem", "pole"};
    assert WordSet(big) * WordSet(small) == {"totem", "pole"};
    IntersectCount(big, small);
    ExtendsIsStrictSuperset(small, big);
    ExtendsIsStrictSuperset(big, small);
  }

  // ---------------------------------------------------------------------------
  // Plinko

  /** The members of `subtree` that `other` should descend from. */
  function Candidates(names: Names, subtree: set<NodeId>, other: NodeId): set<NodeId>
    requires other in names
  {
    set d | d in subtree && d in names && ShouldDescendFrom(names, d, other)
  }

  /** The candidates with the greatest matching word count against `other`: the last
      group once the candidates are grouped by count and the groups sorted. */
  function Best(names: Names, candidates: set<NodeId>, other: NodeId): set<NodeId>
    requires other in names && candidates <= names.Keys
  {
    set d | d in candidates &&
      forall e :: e in candidates ==> MatchingWordCount(names, other, e) <= MatchingWordCount(names, other, d)
  }

  /** The records that `plinko(current, other)` makes parents of `other`. */
  function Placements(names: Names, closure: set<Row>, current: NodeId, other: NodeId): set<NodeId>
    requires current in names && other in names
  {
    if ShouldDescendFrom(names, current, other) then
      var candidates := Candidates(names, SubtreeIds(closure, current), other);
      Best(names, candidates, other)
    else {}
  }

  /** Some candidate always has the greatest count, so a candidate means a placement. */
  lemma BestNonEmpty(names: Names, candidates: set<NodeId>, other: NodeId)
    requires other in names && candidates <= names.Keys
    ensures Best(names, candidates, other) != {} <==> candidates != {}
  {
    if candidates != {} {
      var scores := set e | e in candidates :: MatchingWordCount(names, other, e);
      var d :| d in candidates;
      assert MatchingWordCount(names, other, d) in scores;
      var top := Greatest(scores);
      assert forall e :: e in candidates ==> MatchingWordCount(names, other, e) in scores;
      var b :| b in candidates && MatchingWordCount(names, other, b) == top;
      assert b in Best(names, candidates, other);
    }
  }

  /** Every placement is a subtree member that `other` should descend from, all of them
      share the greatest matching count, and under an exact table `other` is placed
      whenever it should descend from `current`. */
  lemma PlacementsAreBest(nodes: set<NodeId>, links: set<Link>, closure: set<Row>, names: Names, current: NodeId, other: NodeId)
    requires current in names && other in names && SubtreeIds(closure, current) <= names.Keys
    ensures forall b :: b in Placements(names, closure, current, other) ==>
      && b in SubtreeIds(closure, current)
      && ShouldDescendFrom(names, b, other)
      && WordSet(names[b]) < WordSet(names[other])
    ensures forall b, b' :: b in Placements(names, closure, current, other) && b' in Placements(names, closure, current, other) ==>
      MatchingWordCount(names, other, b) == MatchingWordCount(names, other, b')
    ensures LinksIn(nodes, links) && Exact(nodes, links, closure) && current in nodes && ShouldDescendFrom(names, current, other) ==>
      current in Candidates(names, SubtreeIds(closure, current), other) && Placements(names, closure, current, other) != {}
  {
    var subtree := SubtreeIds(closure, current);
    forall b | b in Placements(names, closure, current, other) ensures WordSet(names[b]) < WordSet(names[other]) {
      ShouldDescendIsStrictSuperset(names, b, other);
    }
    if LinksIn(nodes, links) && Exact(nodes, links, closure) && current in nodes && ShouldDescendFrom(names, current, other) {
      assert IsPath(nodes, links, [current]);
      assert Row(current, current, 0) in closure;
      assert current in subtree;
      BestNonEmpty(names, Candidates(names, subtree, other), other);
    }
  }

  /** The links whose child is not one of `s`. */
  function LinksNotInto(links: set<Link>, s: set<NodeId>): set<Link> {
    set l | l in links && l.child !in s
  }

  /** Adding a link into `n`, and perhaps dropping its sentinel, adds one real parent. */
  lemma RealParentsStep(links: set<Link>, b: NodeId, n: NodeId, next: set<Link>)
    requires next == links + {Link(Some(b), n)} || next == links + {Link(Some(b), n)} - {Link(None, n)}
    ensures RealParents(next, n) == RealParents(links, n) + {b}
  {
    assert Link(Some(b), n) in next;
  }

  /** `plinko(current, other)`: when `other` should descend from `current`, link it under
      every best candidate of `current`'s subtree and report whether there was one. */
  method Plinko(dag: Dag, names: Names, current: NodeId, other: NodeId) returns (placed: bool)
    requires dag.Valid() && current in dag.nodes && other in dag.nodes && dag.nodes <= names.Keys
    requires forall d :: d in Placements(names, dag.closure, current, other) ==> !Reaches(dag.nodes, dag.links, other, d)
    modifies dag`links, dag`closure
    ensures placed <==> Placements(names, old(dag.closure), current, other) != {}
    ensures RealParents(dag.links, other) == RealParents(old(dag.links), other) + Placements(names, old(dag.closure), current, other)
    ensures LinksNotInto(dag.links, {other}) == LinksNotInto(old(dag.links), {other})
    ensures dag.IsRoot(other) <==> (old(dag.IsRoot(other)) &&
      (dag.allowRootAndParent || Placements(names, old(dag.closure), current, other) <= RealParents(old(dag.links), other)))
    ensures !placed ==> dag.links == old(dag.links) && dag.closure == old(dag.closure)
    ensures dag.Valid() && (old(dag.ClosureExact()) ==> dag.ClosureExact())
  {
    if !ShouldDescendFrom(names, current, other) {
      return false;
    }
    assert RowsIn(dag.nodes, dag.closure);
    var candidates := Candidates(names, SubtreeIds(dag.closure, current), other);
    var best := Best(names, candidates, other);
    if best == {} {
      return false;
    }
    PlacementsAreBest(dag.nodes, dag.links, dag.closure, names, current, other);
    AddParentsUnder(dag, best, other);
    return true;
  }

  /** `add_parent(b)` on `other`: `link(b, other)` on two saved records of the class. */
  method AddParentUnder(dag: Dag, b: NodeId, other: NodeId)
    requires dag.Valid() && other in dag.nodes && b in dag.nodes
    requires b != other && !Reaches(dag.nodes, dag.links, other, b)
    modifies dag`links, dag`closure
    ensures RealParents(dag.links, other) == RealParents(old(dag.links), other) + {b}
    ensures dag.links <= old(dag.links) + {Link(Some(b), other)}
    ensures LinksNotInto(dag.links, {other}) == LinksNotInto(old(dag.links), {other})
    ensures dag.IsRoot(other) <==> (old(dag.IsRoot(other)) && (dag.allowRootAndParent || b in RealParents(old(dag.links), other)))
    ensures dag.Valid() && (old(dag.ClosureExact()) ==> dag.ClosureExact())
    ensures forall d :: Reaches(dag.nodes, dag.links, other, d) ==> Reaches(dag.nodes, old(dag.links), other, d)
  {
    AddLinkAcyclic(dag.nodes, dag.links, b, other);
    var _ := dag.LinkRecords(Some(Record(Some(b), dag.kind)), Record(Some(other), dag.kind));
    if Link(Some(b), other) !in old(dag.links) {
      RealParentsStep(old(dag.links), b, other, dag.links);
    }
    forall d | Reaches(dag.nodes, dag.links, other, d) ensures Reaches(dag.nodes, old(dag.links), other, d) {
      ReachesMono(dag.nodes, dag.links, old(dag.links) + {Link(Some(b), other)}, other, d);
      IncomingKeepsReach(dag.nodes, old(dag.links), b, other, d);
    }
  }

  /** `add_parent` for each of `parents` in turn: `link(parent, other)`; the `each` loop
      is written as recursion on the parents still to add. */
  method AddParentsUnder(dag: Dag, parents: set<NodeId>, other: NodeId)
    requires dag.Valid() && other in dag.nodes && parents <= dag.nodes
    requires forall b :: b in parents ==> b != other && !Reaches(dag.nodes, dag.links, other, b)
    modifies dag`links, dag`closure
    ensures RealParents(dag.links, other) == RealParents(old(dag.links), other) + parents
    ensures LinksNotInto(dag.links, {other}) == LinksNotInto(old(dag.links), {other})
    ensures dag.IsRoot(other) <==> (old(dag.IsRoot(other)) && (dag.allowRootAndParent || parents <= RealParents(old(dag.links), other)))
    ensures dag.Valid() && (old(dag.ClosureExact()) ==> dag.ClosureExact())
    decreases |parents|
  {
    if parents != {} {
      var b :| b in parents;
      AddParentUnder(dag, b, other);
      AddParentsUnder(dag, parents - {b}, other);
    }
  }

  /** A record with no children reaches only itself. */
  lemma ChildlessReachesSelf(nodes: set<NodeId>, links: set<Link>, u: NodeId, d: NodeId)
    requires Children(links, u) == {}
    ensures Reaches(nodes, links, u, d) ==> d == u
  {
    if Reaches(nodes, links, u, d) {
      var q :| IsPath(nodes, links, q) && q[0] == u && q[|q| - 1] == d;
      FirstStep(nodes, links, q);
      assert |q| == 1;
    }
  }

  /** A record with no real parents is reached only from itself. */
  lemma ParentlessReachedFromSelf(nodes: set<NodeId>, links: set<Link>, a: NodeId, u: NodeId)
    requires RealParents(links, u) == {}
    ensures Reaches(nodes, links, a, u) ==> a == u
  {
    if Reaches(nodes, links, a, u) {
      var q :| IsPath(nodes, links, q) && q[0] == a && q[|q| - 1] == u;
      LastStep(nodes, links, q);
      assert |q| == 1;
    }
  }

  // ---------------------------------------------------------------------------
  // Grouping by word count

  /** The records of `xs` whose names have `w` words, in the order of `xs`: one group
      of `group_by` on the word count. */
  function Group(names: Names, xs: seq<NodeId>, w: nat): (g: seq<NodeId>)
    requires Elements(xs) <= names.Keys
    ensures forall x :: x in g <==> x in xs && WordCount(names, x) == w
  {
    if |xs| == 0 then []
    else
      var rest := Group(names, xs[1..], w);
      if WordCount(names, xs[0]) == w then [xs[0]] + rest else rest
  }

  /** A group holds each record of its count as often as `xs` does. */
  lemma {:induction false} GroupCount(names: Names, xs: seq<NodeId>, w: nat, x: NodeId)
    requires Elements(xs) <= names.Keys
    ensures multiset(Group(names, xs, w))[x] == if x in xs && WordCount(names, x) == w then multiset(xs)[x] else 0
  {
    if |xs| > 0 {
      assert forall y :: y in xs[1..] ==> y in xs;
      GroupCount(names, xs[1..], w, x);
      assert xs == [xs[0]] + xs[1..];
      var whole: multiset<NodeId> := multiset(xs);
      assert whole == multiset([xs[0]]) + multiset(xs[1..]);
      if x == xs[0] {
        assert x in xs;
      } else if x !in xs[1..] {
        assert x !in xs;
      }
    }
  }

  /** The groups for the counts `lo` to `hi`, each after the one before. */
  function GroupsFrom(names: Names, xs: seq<NodeId>, lo: nat, hi: nat): (r: seq<NodeId>)
    requires Elements(xs) <= names.Keys
    ensures forall x :: x in r ==> x in xs && lo <= WordCount(names, x) <= hi
    decreases hi + 1 - lo
  {
    if lo > hi then [] else Group(names, xs, lo) + GroupsFrom(names, xs, lo + 1, hi)
  }

  /** The groups for `lo` to `hi` hold every record of `xs` with a count in that range, as
      often as `xs` does. */
  lemma {:induction false} GroupsFromCount(names: Names, xs: seq<NodeId>, lo: nat, hi: nat, x: NodeId)
    requires Elements(xs) <= names.Keys
    ensures multiset(GroupsFrom(names, xs, lo, hi))[x] ==
      if x in xs && lo <= WordCount(names, x) <= hi then multiset(xs)[x] else 0
    decreases hi + 1 - lo
  {
    if lo <= hi {
      GroupsFromCount(names, xs, lo + 1, hi, x);
      var g := Group(names, xs, lo);
      var rest := GroupsFrom(names, xs, lo + 1, hi);
      assert GroupsFrom(names, xs, lo, hi) == g + rest;
      GroupCount(names, xs, lo, x);
      var both: multiset<NodeId> := multiset(g + rest);
      var mg: multiset<NodeId> := multiset(g);
      var mr: multiset<NodeId> := multiset(rest);
      assert both == mg + mr;
      assert both[x] == mg[x] + mr[x];
    }
  }

  /** ... in ascending count. */
  lemma {:induction false} GroupsFromSorted(names: Names, xs: seq<NodeId>, lo: nat, hi: nat)
    requires Elements(xs) <= names.Keys
    ensures forall i, j :: 0 <= i < j < |GroupsFrom(names, xs, lo, hi)| ==>
      WordCount(names, GroupsFrom(names, xs, lo, hi)[i]) <= WordCount(names, GroupsFrom(names, xs, lo, hi)[j])
    decreases hi + 1 - lo
  {
    var r := GroupsFrom(names, xs, lo, hi);
    if lo <= hi {
      var g := Group(names, xs, lo);
      var rest := GroupsFrom(names, xs, lo + 1, hi);
      GroupsFromSorted(names, xs, lo + 1, hi);
      forall i, j | 0 <= i < j < |r| ensures WordCount(names, r[i]) <= WordCount(names, r[j]) {
        if j < |g| {
          assert r[i] == g[i] && g[i] in g;
          assert r[j] == g[j] && g[j] in g;
        } else if i < |g| {
          assert r[i] == g[i] && g[i] in g;
          assert r[j] == rest[j - |g|] && rest[j - |g|] in rest;
        } else {
          assert r[i] == rest[i - |g|] && r[j] == rest[j - |g|];
        }
      }
    }
  }

  /** The largest word count among `xs`, 0 for none. */
  function MaxWordCount(names: Names, xs: seq<NodeId>): (m: nat)
    requires Elements(xs) <= names.Keys
    ensures forall x :: x in xs ==> WordCount(names, x) <= m
    ensures xs != [] ==> exists x :: x in xs && WordCount(names, x) == m
  {
    if |xs| == 0 then 0
    else
      var rest := MaxWordCount(names, xs[1..]);
      assert forall x :: x in xs ==> x == xs[0] || x in xs[1..];
      if rest <= WordCount(names, xs[0]) then WordCount(names, xs[0]) else rest
  }

  /** The smallest word count among a non-empty `xs`: the key of the first group. */
  function MinWordCount(names: Names, xs: seq<NodeId>): (m: nat)
    requires xs != [] && Elements(xs) <= names.Keys
    ensures forall x :: x in xs ==> m <= WordCount(names, x)
    ensures exists x :: x in xs && WordCount(names, x) == m
  {
    if |xs| == 1 then WordCount(names, xs[0])
    else
      var rest := MinWordCount(names, xs[1..]);
      assert forall x :: x in xs ==> x == xs[0] || x in xs[1..];
      if WordCount(names, xs[0]) <= rest then WordCount(names, xs[0]) else rest
  }

  /** The records of `xs` in the order the sorted groups visit them. */
  function ByWordCount(names: Names, xs: seq<NodeId>): seq<NodeId>
    requires Elements(xs) <= names.Keys
  {
    GroupsFrom(names, xs, 0, MaxWordCount(names, xs))
  }

  /** Visiting the sorted groups is a stable sort: a permutation of `xs`... */
  lemma ByWordCountPermutes(names: Names, xs: seq<NodeId>)
    requires Elements(xs) <= names.Keys
    ensures multiset(ByWordCount(names, xs)) == multiset(xs)
    ensures Elements(ByWordCount(names, xs)) == Elements(xs)
  {
    var r := ByWordCount(names, xs);
    var top := MaxWordCount(names, xs);
    forall x ensures multiset(r)[x] == multiset(xs)[x] {
      GroupsFromCount(names, xs, 0, top, x);
      if x !in xs {
        assert multiset(xs)[x] == 0;
      }
    }
    assert multiset(r) == multiset(xs);
    assert forall x :: x in r <==> x in multiset(r);
  }

  /** ...ascending in word count... */
  lemma ByWordCountAscends(names: Names, xs: seq<NodeId>)
    requires Elements(xs) <= names.Keys
    ensures forall i, j :: 0 <= i < j < |ByWordCount(names, xs)| ==>
      WordCount(names, ByWordCount(names, xs)[i]) <= WordCount(names, ByWordCount(names, xs)[j])
  {
    GroupsFromSorted(names, xs, 0, MaxWordCount(names, xs));
  }

  /** ...that keeps list order within a count. */
  lemma ByWordCountKeepsGroups(names: Names, xs: seq<NodeId>, w: nat)
    requires Elements(xs) <= names.Keys
    ensures Group(names, ByWordCount(names, xs), w) == Group(names, xs, w)
  {
    var top := MaxWordCount(names, xs);
    GroupsKeepOrder(names, xs, 0, top, w);
    if top < w {
      GroupMissing(names, xs, w);
    }
  }

  /** A count no record has gives an empty group. */
  lemma {:induction false} GroupMissing(names: Names, xs: seq<NodeId>, w: nat)
    requires Elements(xs) <= names.Keys && forall x :: x in xs ==> WordCount(names, x) != w
    ensures Group(names, xs, w) == []
  {
    if |xs| > 0 {
      assert xs[0] in xs;
      assert forall x :: x in xs[1..] ==> x in xs;
      GroupMissing(names, xs[1..], w);
    }
  }

  lemma GroupsKeepOrder(names: Names, xs: seq<NodeId>, lo: nat, hi: nat, w: nat)
    requires Elements(xs) <= names.Keys
    ensures Group(names, GroupsFrom(names, xs, lo, hi), w) == if lo <= w <= hi then Group(names, xs, w) else []
    decreases hi + 1 - lo
  {
    var r := GroupsFrom(names, xs, lo, hi);
    if lo <= hi {
      var g := Group(names, xs, lo);
      var rest := GroupsFrom(names, xs, lo + 1, hi);
      GroupsKeepOrder(names, xs, lo + 1, hi, w);
      GroupAppend(names, g, rest, w);
      GroupOfGroup(names, xs, lo, w);
    } else {
      assert r == [];
    }
  }

  lemma {:induction false} GroupAppend(names: Names, a: seq<NodeId>, b: seq<NodeId>, w: nat)
    requires Elements(a) <= names.Keys && Elements(b) <= names.Keys
    ensures Elements(a + b) <= names.Keys
    ensures Group(names, a + b, w) == Group(names, a, w) + Group(names, b, w)
  {
    assert forall x :: x in a + b ==> x in a || x in b;
    if |a| > 0 {
      assert (a + b)[1..] == a[1..] + b;
      GroupAppend(names, a[1..], b, w);
    } else {
      assert a + b == b;
    }
  }

  /** Grouping a group again keeps it whole when the count is its own, and empties it
      otherwise. */
  lemma {:induction false} GroupOfGroup(names: Names, xs: seq<NodeId>, v: nat, w: nat)
    requires Elements(xs) <= names.Keys
    ensures Group(names, Group(names, xs, v), w) == if v == w then Group(names, xs, v) else []
  {
    if |xs| > 0 {
      GroupOfGroup(names, xs[1..], v, w);
      var rest := Group(names, xs[1..], v);
      if WordCount(names, xs[0]) == v {
        assert ([xs[0]] + rest)[1..] == rest;
      }
    }
  }

  // ---------------------------------------------------------------------------
  // What a run of plinkos does to the link table

  /** Every child of a member of `group` is a member with strictly more distinct words:
      no path leaves the group, and names grow along every path inside it. */
  predicate Climbing(names: Names, links: set<Link>, group: set<NodeId>)
    requires group <= names.Keys
  {
    forall x, y :: x in group && y in Children(links, x) ==> y in group && WordSet(names[x]) < WordSet(names[y])
  }

  /** `after` differs from `before` only in the links into members of `group`; each
      member keeps its real parents, gains only parents whose names its own extends, and
      loses its root sentinel just when it gains a parent and may not be both. */
  ghost predicate PlacedWithin(names: Names, allowRootAndParent: bool, before: set<Link>, after: set<Link>, group: set<NodeId>) {
    && LinksNotInto(after, group) == LinksNotInto(before, group)
    && (forall o :: o in group ==> RealParents(before, o) <= RealParents(after, o))
    && (forall o, p :: o in group && o in names && p in RealParents(after, o) - RealParents(before, o) ==>
          p in names && ShouldDescendFrom(names, p, o))
    && (forall o :: o in group ==>
          (Link(None, o) in after <==> Link(None, o) in before && (allowRootAndParent || RealParents(after, o) == RealParents(before, o))))
  }

  /** The links into records outside `s` are all that `LinksNotInto` keeps of them. */
  lemma OthersUnchanged(before: set<Link>, after: set<Link>, s: set<NodeId>)
    requires LinksNotInto(after, s) == LinksNotInto(before, s)
    ensures forall x :: x !in s ==> RealParents(after, x) == RealParents(before, x)
    ensures forall x :: x !in s ==> (Link(None, x) in after <==> Link(None, x) in before)
  {
    forall x | x !in s ensures RealParents(after, x) == RealParents(before, x) {
      forall p | p in RealParents(after, x) ensures p in RealParents(before, x) {
        assert Link(Some(p), x) in LinksNotInto(after, s);
      }
      forall p | p in RealParents(before, x) ensures p in RealParents(after, x) {
        assert Link(Some(p), x) in LinksNotInto(before, s);
      }
    }
    forall x | x !in s ensures Link(None, x) in after <==> Link(None, x) in before {
      assert Link(None, x) in after <==> Link(None, x) in LinksNotInto(after, s);
      assert Link(None, x) in before <==> Link(None, x) in LinksNotInto(before, s);
    }
  }

  /** A change confined to `s` is confined to any wider group. */
  lemma PlacedWithinWider(names: Names, allow: bool, before: set<Link>, after: set<Link>, s: set<NodeId>, t: set<NodeId>)
    requires s <= t && PlacedWithin(names, allow, before, after, s)
    ensures PlacedWithin(names, allow, before, after, t)
  {
    OthersUnchanged(before, after, s);
    forall o, p | o in t && o in names && p in RealParents(after, o) - RealParents(before, o)
      ensures p in names && ShouldDescendFrom(names, p, o)
    {
      assert o in s;
    }
    assert LinksNotInto(after, t) == set l | l in LinksNotInto(after, s) && l.child !in t;
    assert LinksNotInto(before, t) == set l | l in LinksNotInto(before, s) && l.child !in t;
  }

  /** Two confined changes in a row make one. */
  lemma PlacedWithinTrans(names: Names, allow: bool, a: set<Link>, b: set<Link>, c: set<Link>, s: set<NodeId>)
    requires PlacedWithin(names, allow, a, b, s) && PlacedWithin(names, allow, b, c, s)
    ensures PlacedWithin(names, allow, a, c, s)
  {
    forall o | o in s ensures Link(None, o) in c <==> Link(None, o) in a && (allow || RealParents(c, o) == RealParents(a, o)) {
      assert RealParents(a, o) <= RealParents(b, o) <= RealParents(c, o);
    }
  }

  /** A confined change followed by a placement of `o` is confined to both. */
  lemma PlacedWithinStep(names: Names, allow: bool, a: set<Link>, b: set<Link>, c: set<Link>, s: set<NodeId>, o: NodeId)
    requires PlacedWithin(names, allow, a, b, s) && PlacedWithin(names, allow, b, c, {o})
    ensures PlacedWithin(names, allow, a, c, s + {o})
  {
    PlacedWithinWider(names, allow, b, c, {o}, s + {o});
    PlacedWithinWider(names, allow, a, b, s, s + {o});
    PlacedWithinTrans(names, allow, a, b, c, s + {o});
  }

  /** No change at all is confined to any group. */
  lemma PlacedWithinSame(names: Names, allow: bool, links: set<Link>, s: set<NodeId>)
    ensures PlacedWithin(names, allow, links, links, s)
  {
  }

  /** A confined change drops no real link, so every path survives it. */
  lemma PlacedWithinKeepsReach(names: Names, allow: bool, nodes: set<NodeId>, before: set<Link>, after: set<Link>, s: set<NodeId>, a: NodeId, d: NodeId)
    requires PlacedWithin(names, allow, before, after, s)
    ensures Reaches(nodes, before, a, d) ==> Reaches(nodes, after, a, d)
  {
    if Reaches(nodes, before, a, d) {
      var q :| IsPath(nodes, before, q) && q[0] == a && q[|q| - 1] == d;
      forall k | 0 <= k < |q| - 1 ensures Link(Some(q[k]), q[k + 1]) in after {
        var l := Link(Some(q[k]), q[k + 1]);
        assert l in before;
        if q[k + 1] in s {
          assert q[k] in RealParents(before, q[k + 1]);
          assert q[k] in RealParents(after, q[k + 1]);
        } else {
          assert l in LinksNotInto(before, s);
        }
      }
      assert IsPath(nodes, after, q);
    }
  }

  lemma PlacedWithinKeepsReaches(names: Names, allow: bool, nodes: set<NodeId>, before: set<Link>, after: set<Link>, s: set<NodeId>, a: NodeId)
    requires PlacedWithin(names, allow, before, after, s)
    ensures forall d :: Reaches(nodes, before, a, d) ==> Reaches(nodes, after, a, d)
  {
    forall d | Reaches(nodes, before, a, d) ensures Reaches(nodes, after, a, d) {
      PlacedWithinKeepsReach(names, allow, nodes, before, after, s, a, d);
    }
  }

  /** Under a climbing group a path from a member stays in the group, with more words at
      its end than at its start once it has left it. */
  lemma {:induction false} ClimbingPath(nodes: set<NodeId>, links: set<Link>, names: Names, group: set<NodeId>, q: seq<NodeId>)
    requires group <= names.Keys && Climbing(names, links, group)
    requires IsPath(nodes, links, q) && q[0] in group
    ensures q[|q| - 1] in group
    ensures |q| >= 2 ==> WordSet(names[q[0]]) < WordSet(names[q[|q| - 1]])
    decreases |q|
  {
    if |q| >= 2 {
      FirstStep(nodes, links, q);
      SubPath(nodes, links, q, 1, |q|);
      ClimbingPath(nodes, links, names, group, q[1..]);
    }
  }

  /** So a member reaches only itself and members whose words strictly include its own. */
  lemma ReachesClimb(nodes: set<NodeId>, links: set<Link>, names: Names, group: set<NodeId>, a: NodeId, d: NodeId)
    requires group <= names.Keys && Climbing(names, links, group) && a in group
    ensures Reaches(nodes, links, a, d) ==> d == a || (d in group && WordSet(names[a]) < WordSet(names[d]))
  {
    if Reaches(nodes, links, a, d) {
      var q :| IsPath(nodes, links, q) && q[0] == a && q[|q| - 1] == d;
      ClimbingPath(nodes, links, names, group, q);
    }
  }

  /** ...and none of its plinko candidates, whose words it strictly includes: linking it
      below them closes no cycle. */
  lemma CandidatesOutOfReach(nodes: set<NodeId>, links: set<Link>, names: Names, group: set<NodeId>, subtree: set<NodeId>, other: NodeId)
    requires group <= names.Keys && Climbing(names, links, group) && other in group
    ensures forall d :: d in Candidates(names, subtree, other) ==> !Reaches(nodes, links, other, d)
  {
    forall d | d in Candidates(names, subtree, other) ensures !Reaches(nodes, links, other, d) {
      ShouldDescendIsStrictSuperset(names, d, other);
      ReachesClimb(nodes, links, names, group, other, d);
    }
  }

  /** ...so neither is any of its placements. */
  lemma PlacementsOutOfReach(nodes: set<NodeId>, links: set<Link>, closure: set<Row>, names: Names, group: set<NodeId>,
                             current: NodeId, other: NodeId)
    requires group <= names.Keys && other in group && current in names && SubtreeIds(closure, current) <= names.Keys
    ensures Climbing(names, links, group) ==>
      forall d :: d in Placements(names, closure, current, other) ==> !Reaches(nodes, links, other, d)
  {
    if Climbing(names, links, group) {
      CandidatesOutOfReach(nodes, links, names, group, SubtreeIds(closure, current), other);
      PlacementsAreBest(nodes, links, closure, names, current, other);
    }
  }

  /** A placement that adds only parents `other` should descend from, leaving every other
      link alone, is confined to `other`. */
  lemma PlacementWithin(names: Names, allow: bool, before: set<Link>, after: set<Link>, other: NodeId, added: set<NodeId>)
    requires other in names
    requires LinksNotInto(after, {other}) == LinksNotInto(before, {other})
    requires RealParents(after, other) == RealParents(before, other) + added
    requires forall b :: b in added ==> b in names && ShouldDescendFrom(names, b, other)
    requires Link(None, other) in after <==> Link(None, other) in before && (allow || added <= RealParents(before, other))
    ensures PlacedWithin(names, allow, before, after, {other})
  {
    assert added <= RealParents(before, other) <==> RealParents(after, other) == RealParents(before, other);
  }

  /** A placement of `other` only below records with fewer words keeps the group climbing,
      and is confined to `other`. */
  lemma PlacementConfined(names: Names, allow: bool, before: set<Link>, after: set<Link>, group: set<NodeId>, other: NodeId, added: set<NodeId>)
    requires group <= names.Keys && other in group && Climbing(names, before, group)
    requires LinksNotInto(after, {other}) == LinksNotInto(before, {other})
    requires RealParents(after, other) == RealParents(before, other) + added
    requires forall b :: b in added ==> b in names && ShouldDescendFrom(names, b, other)
    requires Link(None, other) in after <==> Link(None, other) in before && (allow || added <= RealParents(before, other))
    ensures Climbing(names, after, group)
    ensures PlacedWithin(names, allow, before, after, {other})
  {
    forall x, y | x in group && y in Children(after, x) ensures y in group && WordSet(names[x]) < WordSet(names[y]) {
      assert Link(Some(x), y) in after;
      if y != other {
        assert Link(Some(x), y) in LinksNotInto(after, {other});
        assert y in Children(before, x);
      } else if x !in RealParents(before, other) {
        assert x in RealParents(after, other);
        ShouldDescendIsStrictSuperset(names, x, other);
      } else {
        assert y in Children(before, x);
      }
    }
  }

  /** A subtree member of an exact table is reached from the subtree's top. */
  lemma SubtreeReached(nodes: set<NodeId>, links: set<Link>, closure: set<Row>, c: NodeId, b: NodeId)
    requires Exact(nodes, links, closure) && b in SubtreeIds(closure, c)
    ensures Reaches(nodes, links, c, b)
  {
    var r :| r in closure && r.ancestor == c && r.descendant == b;
    assert Justified(nodes, links, r);
  }

  /** A path to a parent goes on to its child. */
  lemma StepReaches(nodes: set<NodeId>, links: set<Link>, a: NodeId, b: NodeId, o: NodeId)
    requires Reaches(nodes, links, a, b) && b in RealParents(links, o) && b in nodes && o in nodes
    ensures Reaches(nodes, links, a, o)
  {
    var l :| l in links && l.child == o && l.parent == Some(b);
    assert IsPath(nodes, links, [b, o]);
    ReachesTrans(nodes, links, a, b, b, o);
  }

  // ---------------------------------------------------------------------------
  // The placements read off the link table

  /** The records `current` reaches along real links, itself included. */
  ghost function Reached(nodes: set<NodeId>, links: set<Link>, current: NodeId): set<NodeId> {
    set d | d in nodes && Reaches(nodes, links, current, d)
  }

  /** `Placements` with the records `current` reaches as its subtree. */
  ghost function Targets(names: Names, nodes: set<NodeId>, links: set<Link>, current: NodeId, other: NodeId): set<NodeId>
    requires current in names && other in names
  {
    if ShouldDescendFrom(names, current, other) then
      Best(names, Candidates(names, Reached(nodes, links, current), other), other)
    else {}
  }

  /** The parents that plinkoing `other` into every record of `roots` gives it. */
  ghost function RootTargets(names: Names, nodes: set<NodeId>, links: set<Link>, roots: set<NodeId>, other: NodeId): set<NodeId>
    requires roots <= names.Keys && other in names
  {
    set r, b | r in roots && b in Targets(names, nodes, links, r, other) :: b
  }

  /** On an exact table the subtree `plinko` searches is what `current` reaches, so its
      placements are the targets read off the links. */
  lemma PlacementsAreTargets(names: Names, nodes: set<NodeId>, links: set<Link>, closure: set<Row>, current: NodeId, other: NodeId)
    requires current in names && other in names && Exact(nodes, links, closure) && RowsIn(nodes, closure)
    ensures SubtreeIds(closure, current) == Reached(nodes, links, current)
    ensures Placements(names, closure, current, other) == Targets(names, nodes, links, current, other)
  {
    forall d | d in SubtreeIds(closure, current) ensures d in Reached(nodes, links, current) {
      SubtreeReached(nodes, links, closure, current, d);
    }
    forall d | d in Reached(nodes, links, current) ensures d in SubtreeIds(closure, current) {
      var q :| IsPath(nodes, links, q) && q[0] == current && q[|q| - 1] == d;
      var r := Row(current, d, |q| - 1);
      assert Justified(nodes, links, r);
      assert r in closure;
    }
  }

  /** Trying no root gives no parent, and trying a list of roots gives what the first one
      gives and what the others give. */
  lemma RootTargetsOf(names: Names, nodes: set<NodeId>, links: set<Link>, roots: seq<NodeId>, other: NodeId)
    requires Elements(roots) <= names.Keys && other in names
    ensures RootTargets(names, nodes, links, {}, other) == {}
    ensures roots != [] ==> (Elements(roots[1..]) <= names.Keys &&
      RootTargets(names, nodes, links, Elements(roots), other) ==
        Targets(names, nodes, links, roots[0], other) + RootTargets(names, nodes, links, Elements(roots[1..]), other))
  {
    if roots != [] {
      assert Elements(roots) == {roots[0]} + Elements(roots[1..]) by {
        assert roots == [roots[0]] + roots[1..];
      }
    }
  }

  /** A single root places a record where `plinko` from that root does. */
  lemma RootTargetsOne(names: Names, nodes: set<NodeId>, links: set<Link>, r: NodeId, other: NodeId)
    requires r in names && other in names
    ensures RootTargets(names, nodes, links, {r}, other) == Targets(names, nodes, links, r, other)
  {
    RootTargetsOf(names, nodes, links, [r], other);
    assert Elements([r]) == {r} && Elements([r][1..]) == {};
  }

  /** Roots that give the same targets in two tables give the same parents. */
  lemma RootTargetsSame(names: Names, nodes: set<NodeId>, a: set<Link>, b: set<Link>, roots: set<NodeId>, other: NodeId)
    requires roots <= names.Keys && other in names
    requires forall r :: r in roots ==> Targets(names, nodes, a, r, other) == Targets(names, nodes, b, r, other)
    ensures RootTargets(names, nodes, a, roots, other) == RootTargets(names, nodes, b, roots, other)
  {
  }

  /** Tables with the same real links give the same parents. */
  lemma SameRealTargets(names: Names, nodes: set<NodeId>, a: set<Link>, b: set<Link>, roots: set<NodeId>, other: NodeId)
    requires roots <= names.Keys && other in names
    requires forall l: Link :: l.parent.Some? ==> (l in a <==> l in b)
    ensures RootTargets(names, nodes, a, roots, other) == RootTargets(names, nodes, b, roots, other)
  {
    SameRealLinks(nodes, a, b);
    forall r | r in roots ensures Reached(nodes, a, r) == Reached(nodes, b, r) {
      forall d | d in Reached(nodes, a, r) ensures d in Reached(nodes, b, r) {
        var q :| IsPath(nodes, a, q) && q[0] == r && q[|q| - 1] == d;
        assert IsPath(nodes, b, q);
      }
      forall d | d in Reached(nodes, b, r) ensures d in Reached(nodes, a, r) {
        var q :| IsPath(nodes, b, q) && q[0] == r && q[|q| - 1] == d;
        assert IsPath(nodes, a, q);
      }
    }
    RootTargetsSame(names, nodes, a, b, roots, other);
  }

  /** A path in `a` that does not end at the childless `c` never enters `c`, so it is a
      path of every table that keeps the links of `a` not into `c`. */
  lemma ChildlessPath(nodes: set<NodeId>, a: set<Link>, b: set<Link>, c: NodeId, q: seq<NodeId>)
    requires IsPath(nodes, a, q) && Children(a, c) == {} && q[|q| - 1] != c
    requires LinksNotInto(a, {c}) <= b
    ensures IsPath(nodes, b, q)
  {
    forall k | 0 <= k < |q| - 1 ensures Link(Some(q[k]), q[k + 1]) in b {
      if k + 1 < |q| - 1 {
        assert Link(Some(q[k + 1]), q[k + 2]) in a;
        assert q[k + 2] in Children(a, q[k + 1]);
      }
      assert q[k + 1] != c;
      assert Link(Some(q[k]), q[k + 1]) in LinksNotInto(a, {c});
    }
  }

  /** Links into a childless `c` do not change where `c` itself is placed. */
  lemma ChildlessSameTargets(names: Names, nodes: set<NodeId>, a: set<Link>, b: set<Link>, c: NodeId, r: NodeId)
    requires r in names && c in names
    requires LinksNotInto(a, {c}) == LinksNotInto(b, {c}) && Children(a, c) == {} && Children(b, c) == {}
    ensures Targets(names, nodes, a, r, c) == Targets(names, nodes, b, r, c)
  {
    var ra, rb := Reached(nodes, a, r), Reached(nodes, b, r);
    forall d | d in ra && d != c ensures d in rb {
      var q :| IsPath(nodes, a, q) && q[0] == r && q[|q| - 1] == d;
      ChildlessPath(nodes, a, b, c, q);
    }
    forall d | d in rb && d != c ensures d in ra {
      var q :| IsPath(nodes, b, q) && q[0] == r && q[|q| - 1] == d;
      ChildlessPath(nodes, b, a, c, q);
    }
    assert Candidates(names, ra, c) == Candidates(names, rb, c);
  }

  /** Adding the parents `added` to `c`, and touching no other link, changes only the
      children of the added parents. */
  lemma ChildrenAfterPlacement(before: set<Link>, after: set<Link>, c: NodeId, added: set<NodeId>)
    requires LinksNotInto(after, {c}) == LinksNotInto(before, {c})
    requires RealParents(after, c) == RealParents(before, c) + added
    ensures forall x :: x !in added ==> Children(after, x) == Children(before, x)
  {
    forall x | x !in added ensures Children(after, x) == Children(before, x) {
      forall y | y in Children(after, x) ensures y in Children(before, x) {
        if y == c {
          assert x in RealParents(after, c);
          assert Link(Some(x), c) in before;
        } else {
          assert Link(Some(x), y) in LinksNotInto(after, {c});
        }
      }
      forall y | y in Children(before, x) ensures y in Children(after, x) {
        if y == c {
          assert x in RealParents(before, c);
          assert Link(Some(x), c) in after;
        } else {
          assert Link(Some(x), y) in LinksNotInto(before, {c});
        }
      }
    }
  }

  /** `plinko(current, other)` when none of its placements lies below `other`: `other`
      gains exactly its placements as parents, only links into `other` change, and a
      climbing group stays climbing. Under an exact table `other` is placed just when it
      should descend from `current`, and then lands in its subtree. */
  method PlinkoInGroup(dag: Dag, names: Names, group: set<NodeId>, current: NodeId, other: NodeId) returns (placed: bool)
    requires dag.Valid() && current in dag.nodes && other in group && group <= dag.nodes && dag.nodes <= names.Keys
    requires forall d :: d in Placements(names, dag.closure, current, other) ==> !Reaches(dag.nodes, dag.links, other, d)
    modifies dag`links, dag`closure
    ensures PlacedWithin(names, dag.allowRootAndParent, old(dag.links), dag.links, {other})
    ensures Climbing(names, old(dag.links), group) ==> Climbing(names, dag.links, group)
    ensures RealParents(dag.links, other) == RealParents(old(dag.links), other) + Placements(names, old(dag.closure), current, other)
    ensures placed ==> ShouldDescendFrom(names, current, other) && RealParents(dag.links, other) != {}
    ensures !placed ==> dag.links == old(dag.links) && dag.closure == old(dag.closure)
    ensures old(dag.ClosureExact()) && ShouldDescendFrom(names, current, other) ==>
      placed && Reaches(dag.nodes, dag.links, current, other)
    ensures dag.Valid() && (old(dag.ClosureExact()) ==> dag.ClosureExact())
  {
    ghost var links0, closure0, exact0 := dag.links, dag.closure, dag.ClosureExact();
    assert RowsIn(dag.nodes, dag.closure);
    assert SubtreeIds(dag.closure, current) <= dag.nodes;
    PlacementsAreBest(dag.nodes, dag.links, dag.closure, names, current, other);
    ghost var added := Placements(names, closure0, current, other);
    placed := Plinko(dag, names, current, other);
    PlacementWithin(names, dag.allowRootAndParent, links0, dag.links, other, added);
    if Climbing(names, links0, group) {
      PlacementConfined(names, dag.allowRootAndParent, links0, dag.links, group, other, added);
    }
    if exact0 && ShouldDescendFrom(names, current, other) {
      var b :| b in added;
      SubtreeReached(dag.nodes, links0, closure0, current, b);
      PlacedWithinKeepsReach(names, dag.allowRootAndParent, dag.nodes, links0, dag.links, {other}, current, b);
      StepReaches(dag.nodes, dag.links, current, b, other);
    }
  }

  /** The records of `others` that should descend from `current`. */
  function Descending(names: Names, current: NodeId, others: seq<NodeId>): set<NodeId>
    requires current in names && Elements(others) <= names.Keys
  {
    set o | o in others && ShouldDescendFrom(names, current, o)
  }

  /** A placement of `o`, if it was placed, then one confined to `rest`, is confined to a
      set holding both. */
  lemma PlacedWithinThenRest(names: Names, allow: bool, a: set<Link>, b: set<Link>, c: set<Link>, o: NodeId,
                             rest: set<NodeId>, all: set<NodeId>, placed: bool)
    requires rest <= all && (placed ==> o in all) && (!placed ==> a == b)
    requires PlacedWithin(names, allow, a, b, {o}) && PlacedWithin(names, allow, b, c, rest)
    ensures PlacedWithin(names, allow, a, c, all)
  {
    if placed {
      PlacedWithinWider(names, allow, a, b, {o}, all);
    } else {
      PlacedWithinSame(names, allow, a, all);
    }
    PlacedWithinWider(names, allow, b, c, rest, all);
    PlacedWithinTrans(names, allow, a, b, c, all);
  }

  /** The link table `after` with the links into the records of `s` put back as they
      were in `before`. */
  function Rewind(after: set<Link>, before: set<Link>, s: set<NodeId>): (r: set<Link>)
    ensures forall l :: l in r && l.child in s ==> l in before
    ensures forall l :: l in r && l.child !in s ==> l in after
  {
    LinksNotInto(after, s) + set l | l in before && l.child in s
  }

  /** Each record of `order` gained as real parents exactly the records `plinko` picks for
      it below `current`, read in the table as it stood at its turn: `after`, with the
      links into it and the records after it put back as they were in `before`. */
  ghost predicate PlacedInTurn(names: Names, nodes: set<NodeId>, before: set<Link>, after: set<Link>, current: NodeId, order: seq<NodeId>)
    requires current in names && Elements(order) <= names.Keys
  {
    forall o :: o in order ==>
      RealParents(after, o) ==
        RealParents(before, o) + Targets(names, nodes, Rewind(after, before, Elements(From(order, o))), current, o)
  }

  /** One record plinkoed into `current`, then the rest: `PlacedInTurn` for the whole list,
      from the first placement and `PlacedInTurn` for the rest. */
  lemma PlinkoEachEnd(names: Names, nodes: set<NodeId>, closure: set<Row>, before: set<Link>, mid: set<Link>, after: set<Link>,
                      current: NodeId, order: seq<NodeId>)
    requires current in names && Elements(order) <= names.Keys && order != [] && Distinct(order)
    requires Exact(nodes, before, closure) && RowsIn(nodes, closure)
    requires LinksNotInto(mid, {order[0]}) == LinksNotInto(before, {order[0]})
    requires RealParents(mid, order[0]) == RealParents(before, order[0]) + Placements(names, closure, current, order[0])
    requires LinksNotInto(after, Elements(order[1..])) == LinksNotInto(mid, Elements(order[1..]))
    requires PlacedInTurn(names, nodes, mid, after, current, order[1..])
    ensures PlacedInTurn(names, nodes, before, after, current, order)
  {
    var o, rest := order[0], order[1..];
    assert forall x :: x in rest ==> x in order && x != o;
    assert forall x :: x in order ==> x == o || x in rest;
    OthersUnchanged(before, mid, {o});
    OthersUnchanged(mid, after, Elements(rest));
    PlacementsAreTargets(names, nodes, before, closure, current, o);
    assert From(order, o) == order;
    assert Rewind(after, before, Elements(order)) == before by {
      LinksNotIntoWider(after, mid, Elements(rest), Elements(order));
      LinksNotIntoWider(mid, before, {o}, Elements(order));
    }
    forall x | x in rest
      ensures Rewind(after, mid, Elements(From(rest, x))) == Rewind(after, before, Elements(From(order, x)))
    {
      assert From(order, x) == From(rest, x);
      var f := Elements(From(rest, x));
      assert o !in f;
      forall l | l in mid && l.child in f ensures l in before {
        assert l in LinksNotInto(mid, {o});
      }
      forall l | l in before && l.child in f ensures l in mid {
        assert l in LinksNotInto(before, {o});
      }
    }
  }

  /** `plinko_multiple(current, others)`: plinko each of `others` into `current`, the
      groups in ascending word count and each group in list order. Only the records that
      should descend from `current` change, each gaining only parents whose names it
      extends; under an exact table each of them ends in `current`'s subtree. A placement
      that would close a cycle, which the tables cannot hold, stops the pass with
      `ClosesCycle`; it cannot happen when the links out of `others` climb. */
  method PlinkoMultiple(dag: Dag, names: Names, current: NodeId, others: seq<NodeId>) returns (outcome: Outcome)
    requires dag.Valid() && current in dag.nodes && Elements(others) <= dag.nodes && dag.nodes <= names.Keys
    modifies dag`links, dag`closure
    ensures outcome == Pass || outcome == Fail(ClosesCycle)
    ensures PlacedWithin(names, dag.allowRootAndParent, old(dag.links), dag.links, Descending(names, current, others))
    ensures Climbing(names, old(dag.links), Elements(others)) ==> outcome == Pass && Climbing(names, dag.links, Elements(others))
    ensures outcome.Fail? ==>
      exists o, b :: o in Descending(names, current, others) && b in Placements(names, dag.closure, current, o) &&
        Reaches(dag.nodes, dag.links, o, b)
    ensures old(dag.ClosureExact()) && outcome == Pass ==>
      forall o :: o in Descending(names, current, others) ==> Reaches(dag.nodes, dag.links, current, o)
    ensures old(dag.ClosureExact()) && Distinct(others) && outcome == Pass ==>
      PlacedInTurn(names, dag.nodes, old(dag.links), dag.links, current, ByWordCount(names, others))
    ensures dag.Valid() && (old(dag.ClosureExact()) ==> dag.ClosureExact())
  {
    var order := ByWordCount(names, others);
    ByWordCountPermutes(names, others);
    if Distinct(others) {
      DistinctPermutation(others, order);
    }
    outcome := PlinkoEach(dag, names, Elements(others), current, order);
    assert Descending(names, current, order) == Descending(names, current, others);
  }

  /** One `plinko(current, o)` of `plinko_multiple`, refused with `ClosesCycle` when one of
      its placements lies below `o`, which a climbing group rules out. */
  method PlinkoChecked(dag: Dag, names: Names, group: set<NodeId>, current: NodeId, o: NodeId) returns (outcome: Outcome, placed: bool)
    requires dag.Valid() && current in dag.nodes && o in group && group <= dag.nodes && dag.nodes <= names.Keys
    modifies dag`links, dag`closure
    ensures outcome == Pass || outcome == Fail(ClosesCycle)
    ensures PlacedWithin(names, dag.allowRootAndParent, old(dag.links), dag.links, {o})
    ensures Climbing(names, old(dag.links), group) ==> outcome == Pass && Climbing(names, dag.links, group)
    ensures outcome.Fail? ==> dag.links == old(dag.links) && dag.closure == old(dag.closure) && ShouldDescendFrom(names, current, o)
    ensures outcome.Fail? ==> exists b :: b in Placements(names, dag.closure, current, o) && Reaches(dag.nodes, dag.links, o, b)
    ensures outcome == Pass ==>
      forall b :: b in Placements(names, old(dag.closure), current, o) ==> !Reaches(dag.nodes, old(dag.links), o, b)
    ensures outcome == Pass ==> RealParents(dag.links, o) == RealParents(old(dag.links), o) + Placements(names, old(dag.closure), current, o)
    ensures placed ==> ShouldDescendFrom(names, current, o)
    ensures !placed ==> dag.links == old(dag.links) && dag.closure == old(dag.closure)
    ensures old(dag.ClosureExact()) && outcome == Pass && ShouldDescendFrom(names, current, o) ==>
      Reaches(dag.nodes, dag.links, current, o)
    ensures dag.Valid() && (old(dag.ClosureExact()) ==> dag.ClosureExact())
  {
    assert RowsIn(dag.nodes, dag.closure);
    assert SubtreeIds(dag.closure, current) <= dag.nodes;
    PlacementsOutOfReach(dag.nodes, dag.links, dag.closure, names, group, current, o);
    var ps := Placements(names, dag.closure, current, o);
    ReachedWithinMeets(dag.nodes, dag.links, o, ps);
    if ps * ReachedWithin(dag.nodes, dag.links, {o}, |dag.nodes|) != {} {
      assert ps != {} && ShouldDescendFrom(names, current, o);
      PlacedWithinSame(names, dag.allowRootAndParent, dag.links, {o});
      return Fail(ClosesCycle), false;
    }
    placed := PlinkoInGroup(dag, names, group, current, o);
    outcome := Pass;
  }

  /** The loops of `plinko_multiple` over the sorted groups and their members, as one
      pass over the records in that order, written as recursion on the records left. */
  method PlinkoEach(dag: Dag, names: Names, group: set<NodeId>, current: NodeId, order: seq<NodeId>) returns (outcome: Outcome)
    requires dag.Valid() && current in dag.nodes && Elements(order) <= group && group <= dag.nodes && dag.nodes <= names.Keys
    modifies dag`links, dag`closure
    ensures outcome == Pass || outcome == Fail(ClosesCycle)
    ensures PlacedWithin(names, dag.allowRootAndParent, old(dag.links), dag.links, Descending(names, current, order))
    ensures Climbing(names, old(dag.links), group) ==> outcome == Pass && Climbing(names, dag.links, group)
    ensures outcome.Fail? ==>
      exists o, b :: o in Descending(names, current, order) && b in Placements(names, dag.closure, current, o) &&
        Reaches(dag.nodes, dag.links, o, b)
    ensures old(dag.ClosureExact()) && outcome == Pass ==>
      forall o :: o in Descending(names, current, order) ==> Reaches(dag.nodes, dag.links, current, o)
    ensures old(dag.ClosureExact()) && Distinct(order) && outcome == Pass ==>
      PlacedInTurn(names, dag.nodes, old(dag.links), dag.links, current, order)
    ensures dag.Valid() && (old(dag.ClosureExact()) ==> dag.ClosureExact())
    decreases |order|
  {
    ghost var links0, closure0, exact0 := dag.links, dag.closure, dag.ClosureExact();
    if |order| == 0 {
      PlacedWithinSame(names, dag.allowRootAndParent, links0, {});
      return Pass;
    }
    var o := order[0];
    assert forall x :: x in order[1..] ==> x in order;
    ghost var all := Descending(names, current, order);
    ghost var rest := Descending(names, current, order[1..]);
    assert all == rest + (if ShouldDescendFrom(names, current, o) then {o} else {});
    var stepOutcome, ok := PlinkoChecked(dag, names, group, current, o);
    if stepOutcome.Fail? {
      PlacedWithinSame(names, dag.allowRootAndParent, links0, all);
      return stepOutcome;
    }
    ghost var mid := dag.links;
    outcome := PlinkoEach(dag, names, group, current, order[1..]);
    PlacedWithinThenRest(names, dag.allowRootAndParent, links0, mid, dag.links, o, rest, all, ok);
    PlacedWithinKeepsReaches(names, dag.allowRootAndParent, dag.nodes, mid, dag.links, rest, current);
    if exact0 && Distinct(order) && outcome == Pass {
      assert Distinct(order[1..]);
      assert rest <= Elements(order[1..]);
      LinksNotIntoWider(dag.links, mid, rest, Elements(order[1..]));
      PlinkoEachEnd(names, dag.nodes, closure0, links0, mid, dag.links, current, order);
    }
  }

  // ---------------------------------------------------------------------------
  // Reorganize

  /** `rs` lists records in ascending word count. */
  predicate Ascending(names: Names, rs: seq<NodeId>)
    requires Elements(rs) <= names.Keys
  {
    forall i, j :: 0 <= i < j < |rs| ==> WordCount(names, rs[i]) <= WordCount(names, rs[j])
  }

  /** No record of `rs` should have descended from one with fewer words listed before it. */
  predicate NoneBelowShorter(names: Names, rs: seq<NodeId>)
    requires Elements(rs) <= names.Keys
  {
    forall i, j :: 0 <= i < j < |rs| && WordCount(names, rs[i]) < WordCount(names, rs[j]) ==>
      !ShouldDescendFrom(names, rs[i], rs[j])
  }

  /** The records of `xs` with at least `w` words. */
  function CountAtLeast(names: Names, xs: seq<NodeId>, w: nat): set<NodeId>
    requires Elements(xs) <= names.Keys
  {
    set x | x in xs && w <= WordCount(names, x)
  }

  /** Appending a group's unplaced records to the roots keeps them ascending, and keeps
      every root clear of the shorter roots when no earlier root should have taken them. */
  lemma AppendRoots(names: Names, roots: seq<NodeId>, unplaced: seq<NodeId>, w: nat)
    requires Elements(roots) <= names.Keys && Elements(unplaced) <= names.Keys
    requires Ascending(names, roots) && forall r :: r in roots ==> WordCount(names, r) < w
    requires forall c :: c in unplaced ==> WordCount(names, c) == w
    ensures Elements(roots + unplaced) <= names.Keys && Ascending(names, roots + unplaced)
    ensures NoneBelowShorter(names, roots) && (forall r, c :: r in roots && c in unplaced ==> !ShouldDescendFrom(names, r, c)) ==>
      NoneBelowShorter(names, roots + unplaced)
  {
    var all := roots + unplaced;
    assert forall i :: 0 <= i < |all| ==> (i < |roots| ==> all[i] == roots[i] && all[i] in roots);
    assert forall i :: |roots| <= i < |all| ==> all[i] == unplaced[i - |roots|] && all[i] in unplaced;
  }

  /** Right after a reset of `ids` none of them has a real parent or a child, and each has
      its root sentinel. */
  lemma ResetIsolates(names: Names, links: set<Link>, ids: seq<NodeId>)
    requires Elements(ids) <= names.Keys
    ensures forall c :: c in ids ==> RealParents(ResetLinks(links, ids), c) == {} && Link(None, c) in ResetLinks(links, ids)
    ensures ChildlessFrom(names, ResetLinks(links, ids), ids, 0)
    ensures Climbing(names, ResetLinks(links, ids), Elements(ids))
  {
    var reset := ResetLinks(links, ids);
    assert forall l :: l in reset ==> l.parent.None? || l.parent.value !in ids;
    assert forall l :: l in reset && l.child in ids ==> l.parent.None?;
    forall c | c in ids ensures Link(None, c) in reset {
      assert Link(None, c) in Sentinels(ids);
    }
  }

  /** `plinko(root, category)` for each root in turn, every one of them tried; whether any
      of them took the category. */
  method TryRoots(dag: Dag, names: Names, group: set<NodeId>, roots: seq<NodeId>, c: NodeId) returns (suitable: bool)
    requires dag.Valid() && Elements(roots) <= dag.nodes && c in group && group <= dag.nodes && dag.nodes <= names.Keys
    requires Climbing(names, dag.links, group)
    modifies dag`links, dag`closure
    ensures PlacedWithin(names, dag.allowRootAndParent, old(dag.links), dag.links, {c})
    ensures Climbing(names, dag.links, group)
    ensures suitable ==> RealParents(dag.links, c) != {}
    ensures !suitable ==> dag.links == old(dag.links) && dag.closure == old(dag.closure)
    ensures old(dag.ClosureExact()) && !suitable ==> forall r :: r in roots ==> !ShouldDescendFrom(names, r, c)
    ensures old(dag.ClosureExact()) ==> forall r :: r in roots && ShouldDescendFrom(names, r, c) ==> Reaches(dag.nodes, dag.links, r, c)
    ensures old(dag.ClosureExact()) && Children(old(dag.links), c) == {} ==>
      RealParents(dag.links, c) == RealParents(old(dag.links), c) + RootTargets(names, dag.nodes, old(dag.links), Elements(roots), c)
    ensures old(dag.ClosureExact()) ==> ChildrenKept(old(dag.links), dag.links, [c], roots)
    ensures dag.Valid() && (old(dag.ClosureExact()) ==> dag.ClosureExact())
    decreases |roots|
  {
    ghost var links0, closure0, exact0 := dag.links, dag.closure, dag.ClosureExact();
    if |roots| == 0 {
      PlacedWithinSame(names, dag.allowRootAndParent, links0, {c});
      RootTargetsOf(names, dag.nodes, links0, roots, c);
      return false;
    }
    assert forall x :: x in roots[1..] ==> x in roots;
    assert RowsIn(dag.nodes, dag.closure);
    assert SubtreeIds(dag.closure, roots[0]) <= dag.nodes;
    PlacementsOutOfReach(dag.nodes, dag.links, dag.closure, names, group, roots[0], c);
    var placed := PlinkoInGroup(dag, names, group, roots[0], c);
    ghost var mid, exactMid := dag.links, dag.ClosureExact();
    var more := TryRoots(dag, names, group, roots[1..], c);
    suitable := placed || more;
    TryRootsStep(names, dag.allowRootAndParent, dag.nodes, exact0, exactMid, roots, c, links0, closure0, mid, dag.links, placed, more);
  }

  /** The first root tried, then the rest: what `TryRoots` states about the links, from
      what `PlinkoInGroup` and the recursive call state. */
  lemma TryRootsStep(names: Names, allow: bool, nodes: set<NodeId>, exact: bool, exactMid: bool, roots: seq<NodeId>, c: NodeId,
                     before: set<Link>, closure: set<Row>, mid: set<Link>, after: set<Link>, placed: bool, more: bool)
    requires Elements(roots) <= names.Keys && c in names && roots != [] && RowsIn(nodes, closure)
    requires exact == Exact(nodes, before, closure) && (exact ==> exactMid)
    // what plinkoing `c` into the first root states
    requires PlacedWithin(names, allow, before, mid, {c})
    requires RealParents(mid, c) == RealParents(before, c) + Placements(names, closure, roots[0], c)
    requires placed ==> RealParents(mid, c) != {}
    requires !placed ==> mid == before
    requires exact && ShouldDescendFrom(names, roots[0], c) ==> placed && Reaches(nodes, mid, roots[0], c)
    // what trying the other roots states
    requires PlacedWithin(names, allow, mid, after, {c})
    requires more ==> RealParents(after, c) != {}
    requires !more ==> after == mid
    requires exactMid && !more ==> forall r :: r in roots[1..] ==> !ShouldDescendFrom(names, r, c)
    requires exactMid ==> forall r :: r in roots[1..] && ShouldDescendFrom(names, r, c) ==> Reaches(nodes, after, r, c)
    requires exactMid && Children(mid, c) == {} ==>
      RealParents(after, c) == RealParents(mid, c) + RootTargets(names, nodes, mid, Elements(roots[1..]), c)
    requires exactMid ==> ChildrenKept(mid, after, [c], roots[1..])
    ensures PlacedWithin(names, allow, before, after, {c})
    ensures placed || more ==> RealParents(after, c) != {}
    ensures !(placed || more) ==> after == before
    ensures exact && !(placed || more) ==> forall r :: r in roots ==> !ShouldDescendFrom(names, r, c)
    ensures exact ==> forall r :: r in roots && ShouldDescendFrom(names, r, c) ==> Reaches(nodes, after, r, c)
    ensures exact && Children(before, c) == {} ==>
      RealParents(after, c) == RealParents(before, c) + RootTargets(names, nodes, before, Elements(roots), c)
    ensures exact ==> ChildrenKept(before, after, [c], roots)
  {
    OthersUnchanged(before, mid, {c});
    PlacedWithinTrans(names, allow, before, mid, after, {c});
    PlacedWithinKeepsReach(names, allow, nodes, mid, after, {c}, roots[0], c);
    assert forall r :: r in roots ==> r == roots[0] || r in roots[1..];
    if exact {
      PlacedUnderRoot(names, nodes, before, closure, mid, roots[0], c);
      TryRootsEnd(names, nodes, before, mid, after, roots, c);
    }
  }

  /** The first root tried, then the rest: what `TryRoots` states, from what each part
      states. */
  lemma TryRootsEnd(names: Names, nodes: set<NodeId>, before: set<Link>, mid: set<Link>, after: set<Link>, roots: seq<NodeId>, c: NodeId)
    requires Elements(roots) <= names.Keys && c in names && roots != []
    requires LinksNotInto(mid, {c}) == LinksNotInto(before, {c})
    requires RealParents(mid, c) == RealParents(before, c) + Targets(names, nodes, before, roots[0], c)
    requires forall x :: (x == c || (x != roots[0] && RealParents(before, x) == {})) ==> Children(mid, x) == Children(before, x)
    requires forall x :: x !in {c} ==> RealParents(mid, x) == RealParents(before, x)
    requires Children(mid, c) == {} ==>
      RealParents(after, c) == RealParents(mid, c) + RootTargets(names, nodes, mid, Elements(roots[1..]), c)
    requires ChildrenKept(mid, after, [c], roots[1..])
    ensures Children(before, c) == {} ==>
      RealParents(after, c) == RealParents(before, c) + RootTargets(names, nodes, before, Elements(roots), c)
    ensures ChildrenKept(before, after, [c], roots)
  {
    RootTargetsOf(names, nodes, before, roots, c);
    if Children(before, c) == {} {
      RestRootsSame(names, nodes, before, mid, Elements(roots[1..]), c);
    }
    forall x | x !in [c] && x !in roots && RealParents(before, x) == {} ensures Children(after, x) == Children(before, x) {
      assert x != roots[0] && x !in roots[1..];
    }
  }

  /** After `plinko(r, c)` on an exact table: its placements are the targets read off the
      links, and only the new parents gained a child, none of them `c` or a parentless
      record other than `r`. */
  lemma PlacedUnderRoot(names: Names, nodes: set<NodeId>, before: set<Link>, closure: set<Row>, after: set<Link>, r: NodeId, c: NodeId)
    requires r in names && c in names && Exact(nodes, before, closure) && RowsIn(nodes, closure)
    requires LinksNotInto(after, {c}) == LinksNotInto(before, {c})
    requires RealParents(after, c) == RealParents(before, c) + Placements(names, closure, r, c)
    ensures Placements(names, closure, r, c) == Targets(names, nodes, before, r, c)
    ensures forall x :: (x == c || (x != r && RealParents(before, x) == {})) ==> Children(after, x) == Children(before, x)
  {
    PlacementsAreTargets(names, nodes, before, closure, r, c);
    var added := Placements(names, closure, r, c);
    forall x | x == c || (x != r && RealParents(before, x) == {}) ensures x !in added {
      if x in added && x != c {
        ParentlessReachedFromSelf(nodes, before, r, x);
      }
    }
    ChildrenAfterPlacement(before, after, c, added);
  }

  /** Links into the childless `c` change no root's targets for `c`. */
  lemma RestRootsSame(names: Names, nodes: set<NodeId>, a: set<Link>, b: set<Link>, roots: set<NodeId>, c: NodeId)
    requires roots <= names.Keys && c in names
    requires LinksNotInto(a, {c}) == LinksNotInto(b, {c}) && Children(a, c) == {} && Children(b, c) == {}
    ensures RootTargets(names, nodes, b, roots, c) == RootTargets(names, nodes, a, roots, c)
  {
    forall r | r in roots ensures Targets(names, nodes, b, r, c) == Targets(names, nodes, a, r, c) {
      ChildlessSameTargets(names, nodes, b, a, c, r);
    }
    RootTargetsSame(names, nodes, b, a, roots, c);
  }

  /** `xs` from the first `x` on: the records of a list not yet visited when `x` comes up. */
  function From(xs: seq<NodeId>, x: NodeId): (r: seq<NodeId>)
    ensures forall y :: y in r ==> y in xs
    ensures x in xs ==> x in r
  {
    if |xs| == 0 then [] else if xs[0] == x then xs else From(xs[1..], x)
  }

  /** No record of `cs` has a parent or a child, and none is one of `roots`. */
  predicate Fresh(links: set<Link>, cs: seq<NodeId>, roots: seq<NodeId>) {
    forall x :: x in cs ==> RealParents(links, x) == {} && Children(links, x) == {} && x !in roots
  }

  /** Every record of `cs` has exactly the parents that plinkoing it into every record of
      `roots` gives, on the table as it stood when it came up: `links` without the links
      into it and the records after it. */
  ghost predicate ParentsAtTurn(names: Names, nodes: set<NodeId>, links: set<Link>, cs: seq<NodeId>, roots: seq<NodeId>)
    requires Elements(cs) <= names.Keys && Elements(roots) <= names.Keys
  {
    forall x :: x in cs ==>
      RealParents(links, x) == RootTargets(names, nodes, LinksNotInto(links, Elements(From(cs, x))), Elements(roots), x)
  }

  /** Every parentless record outside `cs` and `roots` has the same children in `after`
      as in `before`. */
  ghost predicate ChildrenKept(before: set<Link>, after: set<Link>, cs: seq<NodeId>, roots: seq<NodeId>) {
    forall x :: x !in cs && x !in roots && RealParents(before, x) == {} ==> Children(after, x) == Children(before, x)
  }

  /** When `a` and `b` differ only in links into `u`, none of them real in `a`, the table
      `a` without the links into `f` has the real links of `b` without those into `u` and
      `f`. */
  lemma RealLinksBeyond(a: set<Link>, b: set<Link>, u: set<NodeId>, f: set<NodeId>)
    requires LinksNotInto(a, u) == LinksNotInto(b, u)
    requires forall x :: x in u ==> RealParents(a, x) == {}
    ensures forall l: Link :: l.parent.Some? ==> (l in LinksNotInto(a, f) <==> l in LinksNotInto(b, u + f))
  {
    forall l: Link | l.parent.Some? ensures l in LinksNotInto(a, f) <==> l in LinksNotInto(b, u + f) {
      if l.child in u {
        var p := l.parent.value;
        assert l in a ==> p in RealParents(a, l.child);
      } else {
        assert l in a <==> l in LinksNotInto(a, u);
        assert l in b <==> l in LinksNotInto(b, u);
      }
    }
  }

  /** One later word-count group of `reorganize`: try each category on every root, and
      return, in order, the ones no root took. The others each have a parent now; the ones
      left have the links they had. */
  method PlaceGroup(dag: Dag, names: Names, group: set<NodeId>, categories: seq<NodeId>, roots: seq<NodeId>) returns (unplaced: seq<NodeId>)
    requires dag.Valid() && Elements(roots) <= dag.nodes && Elements(categories) <= group && group <= dag.nodes && dag.nodes <= names.Keys
    requires Distinct(categories) && Climbing(names, dag.links, group)
    modifies dag`links, dag`closure
    ensures PlacedWithin(names, dag.allowRootAndParent, old(dag.links), dag.links, Elements(categories))
    ensures Climbing(names, dag.links, group)
    ensures Elements(unplaced) <= Elements(categories)
    ensures forall x :: x in categories && x in unplaced ==> RealParents(dag.links, x) == RealParents(old(dag.links), x)
    ensures forall x :: x in categories && x !in unplaced ==> RealParents(dag.links, x) != {}
    ensures old(dag.ClosureExact()) ==> forall x, r :: x in unplaced && r in roots ==> !ShouldDescendFrom(names, r, x)
    ensures old(dag.ClosureExact()) ==>
      forall x, r :: x in categories && r in roots && ShouldDescendFrom(names, r, x) ==> Reaches(dag.nodes, dag.links, r, x)
    ensures old(dag.ClosureExact()) && Fresh(old(dag.links), categories, roots) ==>
      ParentsAtTurn(names, dag.nodes, dag.links, categories, roots)
    ensures old(dag.ClosureExact()) ==> ChildrenKept(old(dag.links), dag.links, categories, roots)
    ensures dag.Valid() && (old(dag.ClosureExact()) ==> dag.ClosureExact())
    decreases |categories|
  {
    ghost var links0, exact0 := dag.links, dag.ClosureExact();
    if |categories| == 0 {
      PlacedWithinSame(names, dag.allowRootAndParent, links0, {});
      return [];
    }
    var c := categories[0];
    var others := categories[1..];
    assert forall x :: x in others ==> x in categories;
    assert c !in others;
    assert Distinct(others);
    var suitable := TryRoots(dag, names, group, roots, c);
    ghost var mid := dag.links;
    var rest := PlaceGroup(dag, names, group, others, roots);
    unplaced := if suitable then rest else [c] + rest;
    PlaceGroupStep(names, dag.allowRootAndParent, dag.nodes, exact0, links0, mid, dag.links, categories, roots, suitable, rest, unplaced);
  }

  /** The first category of a group tried on the roots, then the rest of the group: what
      `PlaceGroup` states, from what `TryRoots` and the recursive call state. */
  lemma PlaceGroupStep(names: Names, allow: bool, nodes: set<NodeId>, exact: bool, before: set<Link>, mid: set<Link>, after: set<Link>,
                       categories: seq<NodeId>, roots: seq<NodeId>, suitable: bool, rest: seq<NodeId>, unplaced: seq<NodeId>)
    requires Elements(categories) <= names.Keys && Elements(roots) <= names.Keys && categories != [] && Distinct(categories)
    requires Elements(categories[1..]) <= names.Keys
    requires unplaced == if suitable then rest else [categories[0]] + rest
    // what trying the first category on the roots states
    requires PlacedWithin(names, allow, before, mid, {categories[0]})
    requires suitable ==> RealParents(mid, categories[0]) != {}
    requires !suitable ==> mid == before
    requires exact && !suitable ==> forall r :: r in roots ==> !ShouldDescendFrom(names, r, categories[0])
    requires exact ==> forall r :: r in roots && ShouldDescendFrom(names, r, categories[0]) ==> Reaches(nodes, mid, r, categories[0])
    requires exact && Children(before, categories[0]) == {} ==>
      RealParents(mid, categories[0]) == RealParents(before, categories[0]) + RootTargets(names, nodes, before, Elements(roots), categories[0])
    requires exact ==> ChildrenKept(before, mid, [categories[0]], roots)
    // what placing the rest of the group states
    requires Elements(rest) <= Elements(categories[1..])
    requires PlacedWithin(names, allow, mid, after, Elements(categories[1..]))
    requires forall x :: x in categories[1..] && x in rest ==> RealParents(after, x) == RealParents(mid, x)
    requires forall x :: x in categories[1..] && x !in rest ==> RealParents(after, x) != {}
    requires exact ==> forall x, r :: x in rest && r in roots ==> !ShouldDescendFrom(names, r, x)
    requires exact ==> forall x, r :: x in categories[1..] && r in roots && ShouldDescendFrom(names, r, x) ==> Reaches(nodes, after, r, x)
    requires exact && Fresh(mid, categories[1..], roots) ==> ParentsAtTurn(names, nodes, after, categories[1..], roots)
    requires exact ==> ChildrenKept(mid, after, categories[1..], roots)
    ensures PlacedWithin(names, allow, before, after, Elements(categories))
    ensures Elements(unplaced) <= Elements(categories)
    ensures forall x :: x in categories && x in unplaced ==> RealParents(after, x) == RealParents(before, x)
    ensures forall x :: x in categories && x !in unplaced ==> RealParents(after, x) != {}
    ensures exact ==> forall x, r :: x in unplaced && r in roots ==> !ShouldDescendFrom(names, r, x)
    ensures exact ==> forall x, r :: x in categories && r in roots && ShouldDescendFrom(names, r, x) ==> Reaches(nodes, after, r, x)
    ensures exact && Fresh(before, categories, roots) ==> ParentsAtTurn(names, nodes, after, categories, roots)
    ensures exact ==> ChildrenKept(before, after, categories, roots)
  {
    var c, others := categories[0], categories[1..];
    assert forall x :: x in others ==> x in categories && x != c;
    forall r | r in roots ensures Reaches(nodes, mid, r, c) ==> Reaches(nodes, after, r, c) {
      PlacedWithinKeepsReach(names, allow, nodes, mid, after, Elements(others), r, c);
    }
    assert forall x :: x in categories ==> x == c || x in others;
    OthersUnchanged(mid, after, Elements(others));
    OthersUnchanged(before, mid, {c});
    assert Elements(categories) == Elements(others) + {c};
    PlacedWithinWider(names, allow, before, mid, {c}, Elements(categories));
    PlacedWithinWider(names, allow, mid, after, Elements(others), Elements(categories));
    PlacedWithinTrans(names, allow, before, mid, after, Elements(categories));
    if exact {
      PlaceGroupEnd(names, nodes, before, mid, after, categories, roots);
    }
  }

  /** The first category of a group tried, then the rest: what `PlaceGroup` states about
      parents and children, from what each part states. */
  lemma PlaceGroupEnd(names: Names, nodes: set<NodeId>, before: set<Link>, mid: set<Link>, after: set<Link>,
                      categories: seq<NodeId>, roots: seq<NodeId>)
    requires Elements(categories) <= names.Keys && Elements(roots) <= names.Keys && categories != [] && Distinct(categories)
    requires LinksNotInto(mid, {categories[0]}) == LinksNotInto(before, {categories[0]})
    requires LinksNotInto(after, Elements(categories[1..])) == LinksNotInto(mid, Elements(categories[1..]))
    requires LinksNotInto(after, Elements(categories)) == LinksNotInto(before, Elements(categories))
    requires Children(before, categories[0]) == {} ==>
      RealParents(mid, categories[0]) == RealParents(before, categories[0]) + RootTargets(names, nodes, before, Elements(roots), categories[0])
    requires ChildrenKept(before, mid, [categories[0]], roots)
    requires Fresh(mid, categories[1..], roots) ==> ParentsAtTurn(names, nodes, after, categories[1..], roots)
    requires ChildrenKept(mid, after, categories[1..], roots)
    ensures Fresh(before, categories, roots) ==> ParentsAtTurn(names, nodes, after, categories, roots)
    ensures ChildrenKept(before, after, categories, roots)
  {
    var c, others := categories[0], categories[1..];
    assert forall x :: x in others ==> x in categories && x != c;
    assert forall x :: x in categories ==> x == c || x in others;
    OthersUnchanged(before, mid, {c});
    OthersUnchanged(mid, after, Elements(others));
    if Fresh(before, categories, roots) {
      assert Fresh(mid, others, roots);
      RealLinksBeyond(before, after, Elements(categories), {});
      assert LinksNotInto(before, {}) == before;
      SameRealTargets(names, nodes, before, LinksNotInto(after, Elements(categories)), Elements(roots), c);
      assert From(categories, c) == categories;
      forall x | x in others ensures From(categories, x) == From(others, x) {
      }
    }
  }

  /** Every real parent of a record of `s` is one it should descend from, and a record of
      `s` has its root sentinel exactly when roots may have parents or it has none. */
  ghost predicate Placed(names: Names, allow: bool, links: set<Link>, s: set<NodeId>) {
    && (forall c, p :: c in s && c in names && p in RealParents(links, c) ==> p in names && ShouldDescendFrom(names, p, c))
    && (forall c :: c in s ==> (Link(None, c) in links <==> allow || RealParents(links, c) == {}))
  }

  /** A placement confined to part of `t` keeps `t` placed. */
  lemma PlacedStep(names: Names, allow: bool, before: set<Link>, after: set<Link>, s: set<NodeId>, t: set<NodeId>)
    requires s <= t && Placed(names, allow, before, t) && PlacedWithin(names, allow, before, after, s)
    ensures Placed(names, allow, after, t)
  {
    OthersUnchanged(before, after, s);
    forall c, p | c in t && c in names && p in RealParents(after, c) ensures p in names && ShouldDescendFrom(names, p, c) {
      if c in s && p !in RealParents(before, c) {
        assert p in RealParents(after, c) - RealParents(before, c);
      }
    }
    forall c | c in s && RealParents(after, c) == {} ensures RealParents(before, c) == {} {
      assert RealParents(before, c) <= RealParents(after, c);
    }
  }

  /** Links that leave a set alone leave a larger set alone too. */
  lemma LinksNotIntoWider(a: set<Link>, b: set<Link>, s: set<NodeId>, t: set<NodeId>)
    requires s <= t && LinksNotInto(a, s) == LinksNotInto(b, s)
    ensures LinksNotInto(a, t) == LinksNotInto(b, t)
  {
    forall l | l in LinksNotInto(a, t) ensures l in LinksNotInto(b, t) {
      assert l in LinksNotInto(a, s);
    }
    forall l | l in LinksNotInto(b, t) ensures l in LinksNotInto(a, t) {
      assert l in LinksNotInto(b, s);
    }
  }

  /** Every record of `xs` with at least `w` words lies below every record of `rs` with
      fewer words that it should descend from. */
  ghost predicate UnderShorterRoots(names: Names, nodes: set<NodeId>, links: set<Link>, xs: seq<NodeId>, rs: seq<NodeId>, w: nat) {
    forall x, r :: x in xs && r in rs && x in names && r in names ==>
      (w <= WordCount(names, x) && WordCount(names, r) < WordCount(names, x) && ShouldDescendFrom(names, r, x) ==> Reaches(nodes, links, r, x))
  }

  /** The records that have not been tried yet when `c`'s turn comes: the longer groups,
      and `c` with those after it in its own group. */
  function Turn(names: Names, categories: seq<NodeId>, c: NodeId): set<NodeId>
    requires Elements(categories) <= names.Keys && c in names
  {
    CountAtLeast(names, categories, WordCount(names, c) + 1) + Elements(From(Group(names, categories, WordCount(names, c)), c))
  }

  /** The records of `rs` with fewer than `v` words. */
  function Shorter(names: Names, rs: seq<NodeId>, v: nat): set<NodeId>
    requires Elements(rs) <= names.Keys
  {
    set r | r in rs && WordCount(names, r) < v
  }

  /** No record of `xs` with at least `w` words has a child. */
  ghost predicate ChildlessFrom(names: Names, links: set<Link>, xs: seq<NodeId>, w: nat)
    requires Elements(xs) <= names.Keys
  {
    forall c :: c in xs && w <= WordCount(names, c) ==> Children(links, c) == {}
  }

  /** Each record of `categories` with at least `w` words has as real parents exactly the
      records `plinko` picks for it below the roots of `rs` with fewer words, read in the
      link table as it stood at its turn: `links` without the links into the records not
      yet tried then. */
  ghost predicate PlacedByPlinko(names: Names, nodes: set<NodeId>, links: set<Link>, categories: seq<NodeId>, rs: seq<NodeId>, w: nat)
    requires Elements(categories) <= names.Keys && Elements(rs) <= names.Keys
  {
    forall c :: c in categories && w <= WordCount(names, c) ==>
      RealParents(links, c) ==
        RootTargets(names, nodes, LinksNotInto(links, Turn(names, categories, c)), Shorter(names, rs, WordCount(names, c)), c)
  }

  /** While the longer groups are placed, the records with fewer words keep their real
      parents and none of the longer ones has a parent yet: the real links the table shows,
      once the links into the longer records are left out, are the ones it showed before. */
  lemma LaterRealLinks(names: Names, categories: seq<NodeId>, mid: set<Link>, after: set<Link>, w: nat, f: set<NodeId>)
    requires Elements(categories) <= names.Keys
    requires LinksNotInto(after, Elements(categories)) == LinksNotInto(mid, Elements(categories))
    requires forall c :: c in categories && WordCount(names, c) < w + 1 ==> RealParents(after, c) == RealParents(mid, c)
    requires forall c :: c in categories && w + 1 <= WordCount(names, c) ==> RealParents(mid, c) == {}
    ensures forall l: Link :: l.parent.Some? ==>
      (l in LinksNotInto(mid, f) <==> l in LinksNotInto(after, CountAtLeast(names, categories, w + 1) + f))
  {
    var longer := CountAtLeast(names, categories, w + 1);
    forall l: Link | l.parent.Some? ensures l in LinksNotInto(mid, f) <==> l in LinksNotInto(after, longer + f) {
      if l.child !in categories {
        assert l in mid <==> l in LinksNotInto(mid, Elements(categories));
        assert l in after <==> l in LinksNotInto(after, Elements(categories));
      } else if l.child in longer {
        var p := l.parent.value;
        assert p !in RealParents(mid, l.child);
      } else {
        assert l in mid ==> l.parent.value in RealParents(mid, l.child);
        assert l in after ==> l.parent.value in RealParents(after, l.child);
      }
    }
  }

  /** One group placed, then the longer ones: the parents the group's records got at their
      turns are still the ones the final table shows, so `PlacedByPlinko` reaches down to
      the group's count. */
  lemma GroupParents(names: Names, nodes: set<NodeId>, categories: seq<NodeId>, roots: seq<NodeId>, group: seq<NodeId>, all: seq<NodeId>,
                     w: nat, before: set<Link>, mid: set<Link>, after: set<Link>)
    requires Elements(categories) <= names.Keys && group == Group(names, categories, w)
    requires Elements(roots) <= Elements(categories) && forall r :: r in roots ==> WordCount(names, r) < w
    requires forall c :: c in categories && WordCount(names, c) < w ==> (c in roots <==> RealParents(before, c) == {})
    requires forall c :: c in categories && w <= WordCount(names, c) ==> RealParents(before, c) == {}
    requires ChildlessFrom(names, before, categories, w)
    requires Fresh(before, group, roots) ==> ParentsAtTurn(names, nodes, mid, group, roots)
    requires ChildrenKept(before, mid, group, roots)
    requires forall c :: c in categories && w + 1 <= WordCount(names, c) ==> RealParents(mid, c) == {}
    requires LinksNotInto(after, Elements(categories)) == LinksNotInto(mid, Elements(categories))
    requires Elements(all) <= Elements(categories) && forall c :: c in categories ==> (c in all <==> RealParents(after, c) == {})
    requires forall c :: c in categories && WordCount(names, c) < w ==> RealParents(after, c) == RealParents(before, c)
    requires forall c :: c in categories && WordCount(names, c) < w + 1 ==> RealParents(after, c) == RealParents(mid, c)
    requires ChildlessFrom(names, mid, categories, w + 1) ==> PlacedByPlinko(names, nodes, after, categories, all, w + 1)
    ensures PlacedByPlinko(names, nodes, after, categories, all, w)
  {
    assert Fresh(before, group, roots);
    assert ChildlessFrom(names, mid, categories, w + 1) by {
      forall c | c in categories && w + 1 <= WordCount(names, c) ensures Children(mid, c) == Children(before, c) {
        assert c !in group && c !in roots;
      }
    }
    assert Shorter(names, all, w) == Elements(roots) by {
      forall r | r in roots ensures r in all {
        assert r in categories;
      }
      forall r | r in all && WordCount(names, r) < w ensures r in roots {
        assert r in Elements(all);
      }
    }
    forall c | c in categories && WordCount(names, c) == w
      ensures RealParents(after, c) ==
        RootTargets(names, nodes, LinksNotInto(after, Turn(names, categories, c)), Shorter(names, all, w), c)
    {
      GroupParentAt(names, nodes, categories, roots, group, w, mid, after, c);
    }
  }

  /** A record of the group: its parents, fixed at its turn in the group, are those it
      has at its turn in the whole reorganize, once the later groups have not yet been
      placed. */
  lemma GroupParentAt(names: Names, nodes: set<NodeId>, categories: seq<NodeId>, roots: seq<NodeId>, group: seq<NodeId>,
                      w: nat, mid: set<Link>, after: set<Link>, c: NodeId)
    requires Elements(categories) <= names.Keys && group == Group(names, categories, w) && Elements(roots) <= Elements(categories)
    requires ParentsAtTurn(names, nodes, mid, group, roots)
    requires LinksNotInto(after, Elements(categories)) == LinksNotInto(mid, Elements(categories))
    requires forall c :: c in categories && WordCount(names, c) < w + 1 ==> RealParents(after, c) == RealParents(mid, c)
    requires forall c :: c in categories && w + 1 <= WordCount(names, c) ==> RealParents(mid, c) == {}
    requires c in categories && WordCount(names, c) == w
    ensures RealParents(after, c) == RootTargets(names, nodes, LinksNotInto(after, Turn(names, categories, c)), Elements(roots), c)
  {
    assert c in group;
    var f := Elements(From(group, c));
    LaterRealLinks(names, categories, mid, after, w, f);
    SameRealTargets(names, nodes, LinksNotInto(mid, f), LinksNotInto(after, CountAtLeast(names, categories, w + 1) + f), Elements(roots), c);
  }

  /** The groups of `reorganize` from count `w` to `hi`, each plinkoed into the roots so
      far and its unplaced records then added to them; returns the final roots, which are
      exactly the categories left without a parent. */
  method PlaceGroupsFrom(dag: Dag, names: Names, categories: seq<NodeId>, roots: seq<NodeId>, w: nat, hi: nat) returns (all: seq<NodeId>)
    requires dag.Valid() && Elements(categories) <= dag.nodes && dag.nodes <= names.Keys
    requires Distinct(categories) && Climbing(names, dag.links, Elements(categories))
    requires forall c :: c in categories ==> WordCount(names, c) <= hi
    requires forall c :: c in categories && w <= WordCount(names, c) ==> RealParents(dag.links, c) == {}
    requires forall c :: c in categories && WordCount(names, c) < w ==> (c in roots <==> RealParents(dag.links, c) == {})
    requires Elements(roots) <= Elements(categories) && Ascending(names, roots)
    requires forall r :: r in roots ==> WordCount(names, r) < w
    modifies dag`links, dag`closure
    ensures LinksNotInto(dag.links, Elements(categories)) == LinksNotInto(old(dag.links), Elements(categories))
    ensures Placed(names, dag.allowRootAndParent, old(dag.links), Elements(categories)) ==>
      Placed(names, dag.allowRootAndParent, dag.links, Elements(categories))
    ensures Climbing(names, dag.links, Elements(categories))
    ensures Elements(roots) <= Elements(all) <= Elements(categories) && Ascending(names, all)
    ensures forall c :: c in categories ==> (c in all <==> RealParents(dag.links, c) == {})
    ensures old(dag.ClosureExact()) && NoneBelowShorter(names, roots) ==> NoneBelowShorter(names, all)
    ensures PlacedWithin(names, dag.allowRootAndParent, old(dag.links), dag.links, Elements(categories))
    ensures forall c :: c in categories && WordCount(names, c) < w ==> RealParents(dag.links, c) == RealParents(old(dag.links), c)
    ensures old(dag.ClosureExact()) ==> UnderShorterRoots(names, dag.nodes, dag.links, categories, all, w)
    ensures old(dag.ClosureExact()) && ChildlessFrom(names, old(dag.links), categories, w) ==>
      PlacedByPlinko(names, dag.nodes, dag.links, categories, all, w)
    ensures dag.Valid() && (old(dag.ClosureExact()) ==> dag.ClosureExact())
    decreases hi + 1 - w
  {
    ghost var links0, exact0 := dag.links, dag.ClosureExact();
    if hi < w {
      PlacedWithinSame(names, dag.allowRootAndParent, links0, Elements(categories));
      return roots;
    }
    var group := Group(names, categories, w);
    GroupDistinct(names, categories, w);
    var unplaced := PlaceGroup(dag, names, Elements(categories), group, roots);
    ghost var mid := dag.links;
    GroupPlaced(names, dag.allowRootAndParent, categories, roots, group, unplaced, w, links0, mid);
    AppendRoots(names, roots, unplaced, w);
    all := PlaceGroupsFrom(dag, names, categories, roots + unplaced, w + 1, hi);
    GroupsFromEnd(names, dag.allowRootAndParent, dag.nodes, exact0, categories, roots, group, all, w, links0, mid, dag.links);
  }

  /** One group placed, then the longer ones: what `PlaceGroupsFrom` states about the
      whole, from what `PlaceGroup` and the recursive call state. */
  lemma GroupsFromEnd(names: Names, allow: bool, nodes: set<NodeId>, exact: bool, categories: seq<NodeId>, roots: seq<NodeId>,
                      group: seq<NodeId>, all: seq<NodeId>, w: nat, before: set<Link>, mid: set<Link>, after: set<Link>)
    requires Elements(categories) <= names.Keys && group == Group(names, categories, w)
    requires Elements(roots) <= Elements(categories) && forall r :: r in roots ==> WordCount(names, r) < w
    requires forall c :: c in categories && WordCount(names, c) < w ==> (c in roots <==> RealParents(before, c) == {})
    requires forall c :: c in categories && w <= WordCount(names, c) ==> RealParents(before, c) == {}
    // what placing the group states
    requires PlacedWithin(names, allow, before, mid, Elements(group))
    requires exact ==> forall x, r :: x in group && r in roots && ShouldDescendFrom(names, r, x) ==> Reaches(nodes, mid, r, x)
    requires exact && Fresh(before, group, roots) ==> ParentsAtTurn(names, nodes, mid, group, roots)
    requires exact ==> ChildrenKept(before, mid, group, roots)
    requires forall c :: c in categories && w + 1 <= WordCount(names, c) ==> RealParents(mid, c) == {}
    // what placing the longer groups states
    requires PlacedWithin(names, allow, mid, after, Elements(categories))
    requires Elements(all) <= Elements(categories) && forall c :: c in categories ==> (c in all <==> RealParents(after, c) == {})
    requires forall c :: c in categories && WordCount(names, c) < w + 1 ==> RealParents(after, c) == RealParents(mid, c)
    requires exact ==> UnderShorterRoots(names, nodes, after, categories, all, w + 1)
    requires exact && ChildlessFrom(names, mid, categories, w + 1) ==> PlacedByPlinko(names, nodes, after, categories, all, w + 1)
    ensures PlacedWithin(names, allow, before, after, Elements(categories))
    ensures forall c :: c in categories && WordCount(names, c) < w ==> RealParents(after, c) == RealParents(before, c)
    ensures exact ==> UnderShorterRoots(names, nodes, after, categories, all, w)
    ensures exact && ChildlessFrom(names, before, categories, w) ==> PlacedByPlinko(names, nodes, after, categories, all, w)
  {
    assert Elements(group) <= Elements(categories);
    PlacedWithinWider(names, allow, before, mid, Elements(group), Elements(categories));
    PlacedWithinTrans(names, allow, before, mid, after, Elements(categories));
    OthersUnchanged(before, mid, Elements(group));
    GroupReached(names, allow, nodes, categories, roots, group, all, w, exact, before, mid, after);
    if exact && ChildlessFrom(names, before, categories, w) {
      GroupParents(names, nodes, categories, roots, group, all, w, before, mid, after);
    }
  }

  /** After one group is placed, the records of the group lie below the earlier roots they
      should descend from, and the records with fewer words keep their parents to the end. */
  lemma GroupReached(names: Names, allow: bool, nodes: set<NodeId>, categories: seq<NodeId>, roots: seq<NodeId>, group: seq<NodeId>,
                     all: seq<NodeId>, w: nat, exact: bool, before: set<Link>, mid: set<Link>, after: set<Link>)
    requires Elements(categories) <= names.Keys && Elements(roots) <= names.Keys
    requires forall x :: x in group <==> x in categories && WordCount(names, x) == w
    requires forall c :: c in categories && WordCount(names, c) < w ==> (c in roots <==> RealParents(before, c) == {})
    requires forall x :: x !in Elements(group) ==> RealParents(mid, x) == RealParents(before, x)
    requires forall c :: c in categories && WordCount(names, c) < w + 1 ==> RealParents(after, c) == RealParents(mid, c)
    requires Elements(all) <= Elements(categories) && forall c :: c in categories ==> (c in all <==> RealParents(after, c) == {})
    requires exact ==> forall x, r :: x in group && r in roots && ShouldDescendFrom(names, r, x) ==> Reaches(nodes, mid, r, x)
    requires PlacedWithin(names, allow, mid, after, Elements(categories))
    requires exact ==> UnderShorterRoots(names, nodes, after, categories, all, w + 1)
    ensures forall c :: c in categories && WordCount(names, c) < w ==> RealParents(after, c) == RealParents(before, c)
    ensures exact ==> UnderShorterRoots(names, nodes, after, categories, all, w)
  {
    forall c | c in categories && WordCount(names, c) < w ensures RealParents(after, c) == RealParents(before, c) {
      assert c !in Elements(group);
    }
    if exact {
      forall x, r | x in categories && r in all && x in names && r in names && w <= WordCount(names, x) &&
                    WordCount(names, r) < WordCount(names, x) && ShouldDescendFrom(names, r, x)
        ensures Reaches(nodes, after, r, x)
      {
        if WordCount(names, x) == w {
          assert r in categories && r !in Elements(group);
          assert r in roots && x in group;
          PlacedWithinKeepsReach(names, allow, nodes, mid, after, Elements(categories), r, x);
        }
      }
    }
  }

  /** After one group is placed, the records still to come have no parent yet, the roots
      with the group's unplaced records appended are the parentless records so far, and
      the categories stay placed. */
  lemma GroupPlaced(names: Names, allow: bool, categories: seq<NodeId>, roots: seq<NodeId>, group: seq<NodeId>, unplaced: seq<NodeId>, w: nat,
                    before: set<Link>, after: set<Link>)
    requires Elements(categories) <= names.Keys
    requires forall x :: x in group <==> x in categories && WordCount(names, x) == w
    requires Elements(roots) <= Elements(categories) && forall r :: r in roots ==> WordCount(names, r) < w
    requires forall c :: c in categories && w <= WordCount(names, c) ==> RealParents(before, c) == {}
    requires forall c :: c in categories && WordCount(names, c) < w ==> (c in roots <==> RealParents(before, c) == {})
    requires PlacedWithin(names, allow, before, after, Elements(group))
    requires Elements(unplaced) <= Elements(group)
    requires forall x :: x in group && x in unplaced ==> RealParents(after, x) == RealParents(before, x)
    requires forall x :: x in group && x !in unplaced ==> RealParents(after, x) != {}
    ensures forall c :: c in categories && w + 1 <= WordCount(names, c) ==> RealParents(after, c) == {}
    ensures forall c :: c in categories && WordCount(names, c) < w + 1 ==> (c in roots + unplaced <==> RealParents(after, c) == {})
    ensures Elements(roots + unplaced) <= Elements(categories)
    ensures forall c :: c in unplaced ==> WordCount(names, c) == w
    ensures forall r :: r in roots + unplaced ==> WordCount(names, r) < w + 1
    ensures LinksNotInto(after, Elements(categories)) == LinksNotInto(before, Elements(categories))
    ensures Placed(names, allow, before, Elements(categories)) ==> Placed(names, allow, after, Elements(categories))
  {
    forall c | c in unplaced ensures WordCount(names, c) == w {
      assert c in Elements(unplaced);
    }
    OthersUnchanged(before, after, Elements(group));
    assert Elements(group) <= Elements(categories);
    LinksNotIntoWider(after, before, Elements(group), Elements(categories));
    if Placed(names, allow, before, Elements(categories)) {
      PlacedStep(names, allow, before, after, Elements(group), Elements(categories));
    }
    forall c | c in categories && WordCount(names, c) < w + 1 ensures c in roots + unplaced <==> RealParents(after, c) == {} {
      if WordCount(names, c) < w {
        assert c !in group && c !in unplaced;
      } else {
        assert c in group && c !in roots;
      }
    }
    forall c | c in roots + unplaced ensures c in Elements(categories) {
      if c in unplaced {
        assert c in Elements(group);
      }
    }
  }

  /** Keeping the records of one count keeps them distinct. */
  lemma {:induction false} GroupDistinct(names: Names, xs: seq<NodeId>, w: nat)
    requires Elements(xs) <= names.Keys && Distinct(xs)
    ensures Distinct(Group(names, xs, w))
  {
    if |xs| > 0 {
      assert forall x :: x in xs[1..] ==> x in xs;
      assert xs[0] !in xs[1..];
      GroupDistinct(names, xs[1..], w);
    }
  }

  /** `reorganize(categories)`: reset the categories' hierarchy, take those with the fewest
      words as the roots, then plinko each longer group, in ascending word count, into
      every root so far, adding the ones no root takes to the roots after their group.
      Afterwards the rest of the link table is as it was, every parent of a category is one
      whose name the category's extends, the categories left without a parent are exactly
      the returned roots. The reset is the one the source performs, which leaves stale
      descendant rows when only some records are reorganized; when every record is, the
      table ends exact, no root should have descended from a shorter one, and every
      category lies below every shorter root it should descend from. */
  method Reorganize(dag: Dag, names: Names, categories: seq<NodeId>) returns (roots: seq<NodeId>)
    requires dag.Valid() && Elements(categories) <= dag.nodes && dag.nodes <= names.Keys && Distinct(categories)
    modifies dag`links, dag`closure
    ensures categories == [] ==> roots == [] && dag.links == old(dag.links) && dag.closure == old(dag.closure)
    ensures (set l | l in dag.links && !Touches(l, categories)) == (set l | l in old(dag.links) && !Touches(l, categories))
    ensures forall c, p :: c in categories && p in RealParents(dag.links, c) ==> p in names && ShouldDescendFrom(names, p, c)
    ensures forall c :: c in categories ==> (dag.IsRoot(c) <==> dag.allowRootAndParent || RealParents(dag.links, c) == {})
    ensures forall c :: c in categories ==> (c in roots <==> RealParents(dag.links, c) == {})
    ensures Elements(roots) <= Elements(categories) && Ascending(names, roots)
    ensures categories != [] ==>
      forall c :: c in categories && WordCount(names, c) == MinWordCount(names, categories) ==> c in roots
    ensures categories != [] && Elements(categories) == dag.nodes ==>
      dag.ClosureExact() && NoneBelowShorter(names, roots) && UnderShorterRoots(names, dag.nodes, dag.links, categories, roots, 0)
    ensures categories != [] && Elements(categories) == dag.nodes ==> PlacedByPlinko(names, dag.nodes, dag.links, categories, roots, 0)
    ensures dag.Valid()
  {
    if |categories| == 0 {
      return [];
    }
    ghost var links0 := dag.links;
    dag.ResetHierarchy(categories);
    ghost var reset := dag.links;
    ResetIsolates(names, links0, categories);
    roots := PlaceByWordCount(dag, names, categories);
    ReorganizeEnd(names, dag.allowRootAndParent, categories, links0, reset, dag.links);
  }

  /** The part of `reorganize` after the reset: group the parentless categories by word
      count, take the shortest as the first roots and place every later group. */
  method PlaceByWordCount(dag: Dag, names: Names, categories: seq<NodeId>) returns (roots: seq<NodeId>)
    requires dag.Valid() && Elements(categories) <= dag.nodes && dag.nodes <= names.Keys && Distinct(categories) && categories != []
    requires forall c :: c in categories ==> RealParents(dag.links, c) == {}
    requires Climbing(names, dag.links, Elements(categories))
    modifies dag`links, dag`closure
    ensures LinksNotInto(dag.links, Elements(categories)) == LinksNotInto(old(dag.links), Elements(categories))
    ensures Placed(names, dag.allowRootAndParent, old(dag.links), Elements(categories)) ==>
      Placed(names, dag.allowRootAndParent, dag.links, Elements(categories))
    ensures forall c :: c in categories ==> (c in roots <==> RealParents(dag.links, c) == {})
    ensures Elements(roots) <= Elements(categories) && Ascending(names, roots)
    ensures forall c :: c in categories && WordCount(names, c) == MinWordCount(names, categories) ==> c in roots
    ensures old(dag.ClosureExact()) ==> NoneBelowShorter(names, roots)
    ensures old(dag.ClosureExact()) ==> UnderShorterRoots(names, dag.nodes, dag.links, categories, roots, 0)
    ensures old(dag.ClosureExact()) && ChildlessFrom(names, old(dag.links), categories, 0) ==>
      PlacedByPlinko(names, dag.nodes, dag.links, categories, roots, 0)
    ensures dag.Valid() && (old(dag.ClosureExact()) ==> dag.ClosureExact())
  {
    ghost var links0, exact0 := dag.links, dag.ClosureExact();
    var lo := MinWordCount(names, categories);
    var hi := MaxWordCount(names, categories);
    var first := Group(names, categories, lo);
    FirstGroupReady(names, dag.links, categories, first, lo, hi);
    roots := PlaceGroupsFrom(dag, names, categories, first, lo + 1, hi);
    forall c | c in categories && WordCount(names, c) == lo ensures c in roots {
      assert c in Elements(first);
    }
    if exact0 {
      FirstGroupUnder(names, dag.nodes, dag.links, categories, roots, lo);
      if ChildlessFrom(names, links0, categories, 0) {
        FirstGroupParents(names, dag.nodes, categories, roots, lo, links0, dag.links);
      }
    }
  }

  /** No record is shorter than the first group, so being below every shorter root from
      the second group on is being below every shorter root. */
  lemma FirstGroupUnder(names: Names, nodes: set<NodeId>, links: set<Link>, categories: seq<NodeId>, roots: seq<NodeId>, lo: nat)
    requires Elements(categories) <= names.Keys && Elements(roots) <= Elements(categories)
    requires forall c :: c in categories ==> lo <= WordCount(names, c)
    requires UnderShorterRoots(names, nodes, links, categories, roots, lo + 1)
    ensures UnderShorterRoots(names, nodes, links, categories, roots, 0)
  {
    forall x, r | x in categories && r in roots && x in names && r in names &&
        WordCount(names, r) < WordCount(names, x) && ShouldDescendFrom(names, r, x)
      ensures Reaches(nodes, links, r, x)
    {
      assert r in Elements(roots) && r in categories;
    }
  }

  /** The shortest records keep the no parents they had, and no record is shorter still:
      `PlacedByPlinko` reaches down to every count. */
  lemma FirstGroupParents(names: Names, nodes: set<NodeId>, categories: seq<NodeId>, roots: seq<NodeId>, lo: nat,
                          before: set<Link>, after: set<Link>)
    requires Elements(categories) <= names.Keys && Elements(roots) <= Elements(categories)
    requires forall c :: c in categories ==> lo <= WordCount(names, c)
    requires forall c :: c in categories ==> RealParents(before, c) == {}
    requires forall c :: c in categories && WordCount(names, c) < lo + 1 ==> RealParents(after, c) == RealParents(before, c)
    requires ChildlessFrom(names, before, categories, lo + 1) ==> PlacedByPlinko(names, nodes, after, categories, roots, lo + 1)
    requires ChildlessFrom(names, before, categories, 0)
    ensures PlacedByPlinko(names, nodes, after, categories, roots, 0)
  {
    assert ChildlessFrom(names, before, categories, lo + 1);
    forall c | c in categories && WordCount(names, c) == lo
      ensures RealParents(after, c) ==
        RootTargets(names, nodes, LinksNotInto(after, Turn(names, categories, c)), Shorter(names, roots, lo), c)
    {
      assert Shorter(names, roots, lo) == {} by {
        forall r | r in roots ensures lo <= WordCount(names, r) {
          assert r in Elements(roots);
        }
      }
    }
  }

  /** The shortest group starts out as the roots: all of one count, and below the next. */
  lemma FirstGroupReady(names: Names, links: set<Link>, categories: seq<NodeId>, first: seq<NodeId>, lo: nat, hi: nat)
    requires Elements(categories) <= names.Keys && categories != []
    requires lo == MinWordCount(names, categories) && hi == MaxWordCount(names, categories)
    requires first == Group(names, categories, lo)
    requires forall c :: c in categories ==> RealParents(links, c) == {}
    ensures forall c :: c in categories ==> WordCount(names, c) <= hi
    ensures forall c :: c in categories && WordCount(names, c) < lo + 1 ==> (c in first <==> RealParents(links, c) == {})
    ensures Elements(first) <= Elements(categories) && Ascending(names, first) && NoneBelowShorter(names, first)
    ensures forall r :: r in first ==> WordCount(names, r) < lo + 1
  {
    assert forall i :: 0 <= i < |first| ==> first[i] in first;
  }

  /** What the whole reorganization leaves, from the reset and the placement of every group
      after the first. */
  lemma ReorganizeEnd(names: Names, allow: bool, categories: seq<NodeId>, before: set<Link>, reset: set<Link>, after: set<Link>)
    requires Elements(categories) <= names.Keys
    requires reset == ResetLinks(before, categories)
    requires forall c :: c in categories ==> RealParents(reset, c) == {} && Link(None, c) in reset
    requires LinksNotInto(after, Elements(categories)) == LinksNotInto(reset, Elements(categories))
    requires Placed(names, allow, reset, Elements(categories)) ==> Placed(names, allow, after, Elements(categories))
    ensures (set l | l in after && !Touches(l, categories)) == (set l | l in before && !Touches(l, categories))
    ensures forall c, p :: c in categories && p in RealParents(after, c) ==> p in names && ShouldDescendFrom(names, p, c)
    ensures forall c :: c in categories ==> (Link(None, c) in after <==> allow || RealParents(after, c) == {})
  {
    assert Placed(names, allow, reset, Elements(categories));
    ResetKeepsTheRest(before, reset, after, categories);
  }

  /** Links into the categories are all a reset and the plinkos after it change. */
  lemma ResetKeepsTheRest(before: set<Link>, reset: set<Link>, after: set<Link>, ids: seq<NodeId>)
    requires reset == ResetLinks(before, ids)
    requires LinksNotInto(after, Elements(ids)) == LinksNotInto(reset, Elements(ids))
    ensures (set l | l in after && !Touches(l, ids)) == (set l | l in before && !Touches(l, ids))
  {
    forall l | l in after && !Touches(l, ids) ensures l in before {
      assert l in LinksNotInto(after, Elements(ids));
    }
    forall l | l in before && !Touches(l, ids) ensures l in after {
      assert l in LinksNotInto(reset, Elements(ids));
    }
  }

  // ---------------------------------------------------------------------------
  // A reorganized chain

  /** Each name of `chain` has every word of each name before it, and more words and
      more different words than it. */
  predicate IsChain(names: Names, chain: seq<NodeId>)
    requires Elements(chain) <= names.Keys
  {
    forall i, j :: 0 <= i < j < |chain| ==>
      WordSet(names[chain[i]]) < WordSet(names[chain[j]]) && WordCount(names, chain[i]) < WordCount(names, chain[j])
  }

  /** Along a chain, fewer words means an earlier place. */
  lemma ChainOrder(names: Names, chain: seq<NodeId>, i: int, k: int)
    requires Elements(chain) <= names.Keys && IsChain(names, chain) && 0 <= i < |chain| && 0 <= k < |chain|
    ensures WordCount(names, chain[k]) < WordCount(names, chain[i]) <==> k < i
    ensures chain[k] == chain[i] <==> k == i
  {
    if k < i {
      assert WordCount(names, chain[k]) < WordCount(names, chain[i]);
    } else if i < k {
      assert WordCount(names, chain[i]) < WordCount(names, chain[k]);
    }
  }

  /** The names of a chain have distinct counts, so at a record's turn the records not yet
      tried are exactly those with at least as many words. */
  lemma ChainTurn(names: Names, categories: seq<NodeId>, chain: seq<NodeId>, i: int)
    requires Elements(chain) <= names.Keys && IsChain(names, chain) && Elements(categories) == Elements(chain)
    requires 0 <= i < |chain|
    ensures forall x :: x in Turn(names, categories, chain[i]) <==>
      x in categories && WordCount(names, chain[i]) <= WordCount(names, x)
  {
    var c := chain[i];
    var g := Group(names, categories, WordCount(names, c));
    assert c in Elements(chain) && c in Elements(categories);
    forall x | x in From(g, c) ensures x == c {
      var k :| 0 <= k < |chain| && chain[k] == x;
      ChainOrder(names, chain, i, k);
      ChainOrder(names, chain, k, i);
    }
  }

  /** Before the `i`th record's turn the links of the chain so far are in place, so the
      first record reaches exactly the records before the `i`th. */
  lemma ChainReached(names: Names, nodes: set<NodeId>, links: set<Link>, categories: seq<NodeId>, chain: seq<NodeId>, i: int)
    requires Elements(chain) <= names.Keys && IsChain(names, chain) && Elements(categories) == Elements(chain) && nodes == Elements(chain)
    requires 0 < i < |chain|
    requires forall k {:trigger RealParents(links, chain[k])} :: 0 < k < i ==> RealParents(links, chain[k]) == {chain[k - 1]}
    ensures Reached(nodes, LinksNotInto(links, Turn(names, categories, chain[i])), chain[0]) == Elements(chain[..i])
  {
    var t := LinksNotInto(links, Turn(names, categories, chain[i]));
    ChainTurn(names, categories, chain, i);
    forall d | d in Reached(nodes, t, chain[0]) ensures d in Elements(chain[..i]) {
      var q :| IsPath(nodes, t, q) && q[0] == chain[0] && q[|q| - 1] == d;
      var k :| 0 <= k < |chain| && chain[k] == d;
      ChainOrder(names, chain, i, k);
      if |q| >= 2 {
        LastStep(nodes, t, q);
        var l :| l in t && l.child == d && l.parent == Some(q[|q| - 2]);
        assert d !in Turn(names, categories, chain[i]);
      } else {
        ChainOrder(names, chain, 0, k);
      }
      assert chain[..i][k] == d;
    }
    forall k | 0 < k < i ensures chain[k - 1] in RealParents(t, chain[k]) {
      assert chain[k - 1] in RealParents(links, chain[k]);
      ChainLinkBefore(names, links, categories, chain, i, k);
    }
    forall k | 0 <= k < i ensures Reaches(nodes, t, chain[0], chain[k]) {
      LinkedPrefixReached(nodes, t, chain, k);
    }
    forall d | d in Elements(chain[..i]) ensures d in Reached(nodes, t, chain[0]) {
      var k :| 0 <= k < i && chain[..i][k] == d;
    }
  }

  /** Along a sequence of records each linked to the next, the first reaches every one. */
  lemma {:induction false} LinkedPrefixReached(nodes: set<NodeId>, t: set<Link>, chain: seq<NodeId>, k: int)
    requires Elements(chain) <= nodes && 0 <= k < |chain|
    requires forall j {:trigger RealParents(t, chain[j])} :: 0 < j <= k ==> chain[j - 1] in RealParents(t, chain[j])
    ensures Reaches(nodes, t, chain[0], chain[k])
    decreases k
  {
    assert chain[k] in Elements(chain);
    if k == 0 {
      assert IsPath(nodes, t, [chain[0]]);
    } else {
      assert chain[k - 1] in RealParents(t, chain[k]) && chain[k - 1] in Elements(chain);
      LinkedPrefixReached(nodes, t, chain, k - 1);
      StepReaches(nodes, t, chain[0], chain[k - 1], chain[k]);
    }
  }

  /** The link from each record to the next, up to the `i`th, is there at the `i`th's turn. */
  lemma ChainLinkBefore(names: Names, links: set<Link>, categories: seq<NodeId>, chain: seq<NodeId>, i: int, k: int)
    requires Elements(chain) <= names.Keys && IsChain(names, chain) && Elements(categories) == Elements(chain)
    requires 0 < k < i < |chain| && chain[k - 1] in RealParents(links, chain[k])
    ensures chain[k - 1] in RealParents(LinksNotInto(links, Turn(names, categories, chain[i])), chain[k])
  {
    var t := LinksNotInto(links, Turn(names, categories, chain[i]));
    var l :| l in links && l.child == chain[k] && l.parent == Some(chain[k - 1]);
    ChainTurn(names, categories, chain, i);
    ChainOrder(names, chain, i, k);
    assert l in t;
  }

  /** A record before the `i`th shares all its words with it, and has fewer different
      words than any record after it. */
  lemma ChainShared(names: Names, chain: seq<NodeId>, i: int, k: int)
    requires Elements(chain) <= names.Keys && IsChain(names, chain) && 0 <= k < i < |chain|
    ensures MatchingWordCount(names, chain[i], chain[k]) == |WordSet(names[chain[k]])|
    ensures |WordSet(names[chain[k]])| < |WordSet(names[chain[i]])|
  {
    MatchingWordCountIsShared(names, chain[i], chain[k]);
    assert WordSet(names[chain[i]]) * WordSet(names[chain[k]]) == WordSet(names[chain[k]]);
    StrictSubsetCard(WordSet(names[chain[k]]), WordSet(names[chain[i]]));
  }

  /** ... so the record just before the `i`th shares more words with it than any earlier one. */
  lemma ChainMatching(names: Names, chain: seq<NodeId>, i: int, k: int)
    requires Elements(chain) <= names.Keys && IsChain(names, chain) && 0 <= k < i < |chain|
    ensures MatchingWordCount(names, chain[i], chain[k]) <= MatchingWordCount(names, chain[i], chain[i - 1])
    ensures k < i - 1 ==> MatchingWordCount(names, chain[i], chain[k]) < MatchingWordCount(names, chain[i], chain[i - 1])
  {
    ChainShared(names, chain, i, k);
    ChainShared(names, chain, i, i - 1);
    if k < i - 1 {
      ChainShared(names, chain, i - 1, k);
    }
  }

  /** Of the records before the `i`th, the one just before shares the most words with it. */
  lemma ChainBest(names: Names, chain: seq<NodeId>, i: int)
    requires Elements(chain) <= names.Keys && IsChain(names, chain) && 0 < i < |chain|
    ensures Best(names, Candidates(names, Elements(chain[..i]), chain[i]), chain[i]) == {chain[i - 1]}
  {
    var c := chain[i];
    var prefix := Elements(chain[..i]);
    ChainCandidates(names, chain, i);
    forall e | e in prefix && e != chain[i - 1]
      ensures MatchingWordCount(names, c, e) < MatchingWordCount(names, c, chain[i - 1])
    {
      var k :| 0 <= k < i && chain[..i][k] == e;
      assert chain[k] == e;
      ChainMatching(names, chain, i, k);
    }
    assert chain[..i][i - 1] == chain[i - 1];
    BestSingle(names, prefix, c, chain[i - 1]);
  }

  /** Every record before the `i`th is a candidate parent of it. */
  lemma ChainCandidates(names: Names, chain: seq<NodeId>, i: int)
    requires Elements(chain) <= names.Keys && IsChain(names, chain) && 0 < i < |chain|
    ensures Candidates(names, Elements(chain[..i]), chain[i]) == Elements(chain[..i])
  {
    forall d | d in Elements(chain[..i]) ensures ShouldDescendFrom(names, d, chain[i]) {
      var k :| 0 <= k < i && chain[..i][k] == d;
      assert chain[k] == d;
      ChainOrder(names, chain, i, k);
      ShouldDescendIsStrictSuperset(names, d, chain[i]);
    }
  }

  /** A candidate sharing strictly more words than every other is the only best one. */
  lemma BestSingle(names: Names, candidates: set<NodeId>, other: NodeId, b: NodeId)
    requires other in names && candidates <= names.Keys && b in candidates
    requires forall e :: e in candidates && e != b ==> MatchingWordCount(names, other, e) < MatchingWordCount(names, other, b)
    ensures Best(names, candidates, other) == {b}
  {
    forall d | d in Best(names, candidates, other) ensures d == b {
      assert MatchingWordCount(names, other, b) <= MatchingWordCount(names, other, d);
    }
  }

  /** Once the records before the `i`th have their parents, the first of them is the only
      root shorter than the `i`th. */
  lemma ChainRoots(names: Names, links: set<Link>, categories: seq<NodeId>, roots: seq<NodeId>, chain: seq<NodeId>, i: int)
    requires Elements(chain) <= names.Keys && IsChain(names, chain) && Elements(categories) == Elements(chain)
    requires Elements(roots) <= Elements(categories) && forall c :: c in categories ==> (c in roots <==> RealParents(links, c) == {})
    requires 0 < i < |chain|
    requires RealParents(links, chain[0]) == {} && forall k {:trigger RealParents(links, chain[k])} :: 0 < k < i ==> chain[k - 1] in RealParents(links, chain[k])
    ensures Shorter(names, roots, WordCount(names, chain[i])) == {chain[0]}
  {
    assert chain[0] in roots by {
      assert chain[0] in Elements(chain) && chain[0] in Elements(categories);
    }
    ChainOrder(names, chain, i, 0);
    forall r | r in roots && WordCount(names, r) < WordCount(names, chain[i]) ensures r == chain[0] {
      ChainRootAt(names, links, categories, roots, chain, i, r);
    }
  }

  /** A root shorter than the `i`th record is the first record: any later one before the
      `i`th has a parent. */
  lemma ChainRootAt(names: Names, links: set<Link>, categories: seq<NodeId>, roots: seq<NodeId>, chain: seq<NodeId>, i: int, r: NodeId)
    requires Elements(chain) <= names.Keys && IsChain(names, chain) && Elements(categories) == Elements(chain)
    requires Elements(roots) <= Elements(categories) && forall c :: c in categories ==> (c in roots <==> RealParents(links, c) == {})
    requires 0 < i < |chain|
    requires forall k {:trigger RealParents(links, chain[k])} :: 0 < k < i ==> chain[k - 1] in RealParents(links, chain[k])
    requires r in roots && WordCount(names, r) < WordCount(names, chain[i])
    ensures r == chain[0]
  {
    assert r in Elements(roots) && r in Elements(chain);
    var k :| 0 <= k < |chain| && chain[k] == r;
    ChainOrder(names, chain, i, k);
    assert RealParents(links, chain[k]) == {};
  }

  /** When every record is reorganized and the names form a chain, each one ends with the
      one before it as its only parent, and the first alone is a root. */
  lemma {:induction false} ChainParents(names: Names, nodes: set<NodeId>, links: set<Link>, categories: seq<NodeId>,
                                        roots: seq<NodeId>, chain: seq<NodeId>, i: int)
    requires Elements(chain) <= names.Keys && IsChain(names, chain) && Elements(categories) == Elements(chain) && nodes == Elements(chain)
    requires Elements(roots) <= Elements(categories) && forall c :: c in categories ==> (c in roots <==> RealParents(links, c) == {})
    requires PlacedByPlinko(names, nodes, links, categories, roots, 0)
    requires 0 <= i < |chain|
    ensures RealParents(links, chain[i]) == if i == 0 then {} else {chain[i - 1]}
    decreases i
  {
    if i == 0 {
      ChainFirst(names, nodes, links, categories, roots, chain);
    } else {
      ChainParents(names, nodes, links, categories, roots, chain, 0);
      forall k | 0 < k < i ensures RealParents(links, chain[k]) == {chain[k - 1]} {
        ChainParents(names, nodes, links, categories, roots, chain, k);
      }
      ChainNext(names, nodes, links, categories, roots, chain, i);
    }
  }

  /** The first record of the chain: no root is shorter, so it gets no parent. */
  lemma ChainFirst(names: Names, nodes: set<NodeId>, links: set<Link>, categories: seq<NodeId>, roots: seq<NodeId>, chain: seq<NodeId>)
    requires Elements(chain) <= names.Keys && IsChain(names, chain) && Elements(categories) == Elements(chain) && chain != []
    requires Elements(roots) <= Elements(categories)
    requires PlacedByPlinko(names, nodes, links, categories, roots, 0)
    ensures RealParents(links, chain[0]) == {}
  {
    var c := chain[0];
    var v := WordCount(names, c);
    assert c in Elements(chain) && c in Elements(categories);
    var t := LinksNotInto(links, Turn(names, categories, c));
    assert RealParents(links, c) == RootTargets(names, nodes, t, Shorter(names, roots, v), c);
    forall r | r in roots ensures v <= WordCount(names, r) {
      assert r in Elements(roots) && r in Elements(chain);
      var k :| 0 <= k < |chain| && chain[k] == r;
      ChainOrder(names, chain, 0, k);
    }
    assert Shorter(names, roots, v) == {};
    RootTargetsOf(names, nodes, t, [], c);
  }

  /** A later record of the chain, once the ones before it have their parents: the first
      record is the only shorter root, it reaches every earlier record, and of those the
      one just before shares the most words. */
  lemma ChainNext(names: Names, nodes: set<NodeId>, links: set<Link>, categories: seq<NodeId>,
                  roots: seq<NodeId>, chain: seq<NodeId>, i: int)
    requires Elements(chain) <= names.Keys && IsChain(names, chain) && Elements(categories) == Elements(chain) && nodes == Elements(chain)
    requires Elements(roots) <= Elements(categories) && forall c :: c in categories ==> (c in roots <==> RealParents(links, c) == {})
    requires PlacedByPlinko(names, nodes, links, categories, roots, 0)
    requires 0 < i < |chain|
    requires RealParents(links, chain[0]) == {} && forall k {:trigger RealParents(links, chain[k])} :: 0 < k < i ==> RealParents(links, chain[k]) == {chain[k - 1]}
    ensures RealParents(links, chain[i]) == {chain[i - 1]}
  {
    var c := chain[i];
    var v := WordCount(names, c);
    assert c in Elements(chain) && c in Elements(categories);
    var t := LinksNotInto(links, Turn(names, categories, c));
    assert RealParents(links, c) == RootTargets(names, nodes, t, Shorter(names, roots, v), c);
    assert Shorter(names, roots, v) == {chain[0]} by {
      ChainRoots(names, links, categories, roots, chain, i);
    }
    assert Targets(names, nodes, t, chain[0], c) == {chain[i - 1]} by {
      ChainReached(names, nodes, links, categories, chain, i);
      ChainBest(names, chain, i);
      ChainOrder(names, chain, i, 0);
      ShouldDescendIsStrictSuperset(names, chain[0], c);
    }
    RootTargetsOne(names, nodes, t, chain[0], c);
  }

  /** The five names of the classifier's own example, one id each. */
  function TotemNames(): Names {
    map[0 := ["totem"], 1 := ["totem", "pole"], 2 := ["big", "totem", "pole"],
        3 := ["big", "model", "totem", "pole"], 4 := ["big", "red", "model", "totem", "pole"]]
  }

  /** The `i`th name of `chain` has every word of the one before it, and more words and
      more different words than it. */
  predicate ChainStep(names: Names, chain: seq<NodeId>, i: int)
    requires Elements(chain) <= names.Keys && 0 < i < |chain|
  {
    WordSet(names[chain[i - 1]]) < WordSet(names[chain[i]]) && WordCount(names, chain[i - 1]) < WordCount(names, chain[i])
  }

  /** A chain is made of its steps. */
  lemma ChainFromSteps(names: Names, chain: seq<NodeId>)
    requires Elements(chain) <= names.Keys && forall i :: 0 < i < |chain| ==> ChainStep(names, chain, i)
    ensures IsChain(names, chain)
  {
    forall i, j | 0 <= i < j < |chain|
      ensures WordSet(names[chain[i]]) < WordSet(names[chain[j]]) && WordCount(names, chain[i]) < WordCount(names, chain[j])
    {
      ChainSpan(names, chain, i, j);
    }
  }

  lemma {:induction false} ChainSpan(names: Names, chain: seq<NodeId>, i: int, j: int)
    requires Elements(chain) <= names.Keys && forall i :: 0 < i < |chain| ==> ChainStep(names, chain, i)
    requires 0 <= i < j < |chain|
    ensures WordSet(names[chain[i]]) < WordSet(names[chain[j]]) && WordCount(names, chain[i]) < WordCount(names, chain[j])
    decreases j - i
  {
    assert ChainStep(names, chain, j);
    if i < j - 1 {
      ChainSpan(names, chain, i, j - 1);
    }
  }

  /** Each of the five names adds one new word to the one before it. */
  lemma TotemChain()
    ensures IsChain(TotemNames(), [0, 1, 2, 3, 4])
  {
    var names := TotemNames();
    var chain := [0, 1, 2, 3, 4];
    assert "totem" != "pole" && "big" != "totem" && "big" != "pole" && "model" != "big" && "model" != "totem"
      && "model" != "pole" && "red" != "big" && "red" != "model" && "red" != "totem" && "red" != "pole";
    assert WordSet(names[0]) == {"totem"};
    assert WordSet(names[1]) == {"totem", "pole"};
    assert WordSet(names[2]) == {"big", "totem", "pole"};
    assert WordSet(names[3]) == {"big", "model", "totem", "pole"};
    assert WordSet(names[4]) == {"big", "red", "model", "totem", "pole"};
    forall i | 0 < i < |chain| ensures ChainStep(names, chain, i) {
      assert chain[i - 1] == i - 1 && chain[i] == i;
    }
    ChainFromSteps(names, chain);
  }

  /** Each record of `chain` is the only child of the one before it, the last has no
      child and the first alone is a root. */
  ghost predicate InLine(links: set<Link>, roots: seq<NodeId>, chain: seq<NodeId>) {
    chain != [] &&
    (forall k {:trigger Children(links, chain[k])} :: 0 <= k < |chain| - 1 ==> Children(links, chain[k]) == {chain[k + 1]}) &&
    Children(links, chain[|chain| - 1]) == {} && Elements(roots) == {chain[0]}
  }

  /** After a full reorganize of a chain, each record is the only child of the one before
      it, the last has no child and the first alone is a root. */
  lemma ChainLine(names: Names, nodes: set<NodeId>, links: set<Link>, categories: seq<NodeId>, roots: seq<NodeId>, chain: seq<NodeId>)
    requires Elements(chain) <= names.Keys && IsChain(names, chain) && Elements(categories) == Elements(chain) && nodes == Elements(chain)
    requires Elements(roots) <= Elements(categories) && forall c :: c in categories ==> (c in roots <==> RealParents(links, c) == {})
    requires PlacedByPlinko(names, nodes, links, categories, roots, 0)
    requires LinksIn(nodes, links) && chain != []
    ensures InLine(links, roots, chain)
  {
    forall j | 0 <= j < |chain| ensures RealParents(links, chain[j]) == if j == 0 then {} else {chain[j - 1]} {
      ChainParents(names, nodes, links, categories, roots, chain, j);
    }
    assert Distinct(chain);
    forall k {:trigger Children(links, chain[k])} | 0 <= k < |chain|
      ensures Children(links, chain[k]) == if k == |chain| - 1 then {} else {chain[k + 1]}
    {
      ChainChildren(nodes, links, chain, k);
    }
    ChainOnlyRoot(links, categories, roots, chain);
  }

  /** In a line of distinct records, each the only parent of the next, the children of the `k`th. */
  lemma ChainChildren(nodes: set<NodeId>, links: set<Link>, chain: seq<NodeId>, k: int)
    requires Distinct(chain) && nodes == Elements(chain)
    requires forall j {:trigger RealParents(links, chain[j])} :: 0 <= j < |chain| ==>
      RealParents(links, chain[j]) == if j == 0 then {} else {chain[j - 1]}
    requires LinksIn(nodes, links) && 0 <= k < |chain|
    ensures Children(links, chain[k]) == if k == |chain| - 1 then {} else {chain[k + 1]}
  {
    forall x | x in Children(links, chain[k]) ensures k < |chain| - 1 && x == chain[k + 1] {
      var l :| l in links && l.parent == Some(chain[k]) && l.child == x;
      assert x in Elements(chain);
      var j :| 0 <= j < |chain| && chain[j] == x;
      assert chain[k] in RealParents(links, chain[j]);
      assert j > 0 && chain[k] == chain[j - 1];
    }
    if k < |chain| - 1 {
      assert chain[k] in RealParents(links, chain[k + 1]);
    }
  }

  /** In such a line the first record is the only root. */
  lemma ChainOnlyRoot(links: set<Link>, categories: seq<NodeId>, roots: seq<NodeId>, chain: seq<NodeId>)
    requires Elements(categories) == Elements(chain) && chain != []
    requires Elements(roots) <= Elements(categories) && forall c :: c in categories ==> (c in roots <==> RealParents(links, c) == {})
    requires forall j {:trigger RealParents(links, chain[j])} :: 0 <= j < |chain| ==>
      RealParents(links, chain[j]) == if j == 0 then {} else {chain[j - 1]}
    ensures Elements(roots) == {chain[0]}
  {
    assert chain[0] in Elements(chain) && chain[0] in Elements(categories);
    assert RealParents(links, chain[0]) == {};
    forall r | r in roots ensures r == chain[0] {
      assert r in Elements(roots) && r in Elements(chain);
      var j :| 0 <= j < |chain| && chain[j] == r;
      assert r in categories;
      assert RealParents(links, chain[j]) == {};
    }
  }

  /** Reorganizing the five records leaves them in a line, each the only child of the one
      before: totem, totem pole, big totem pole, big model totem pole, big red model totem
      pole. The hypotheses are what `Reorganize` ensures of a full reorganize. */
  lemma ReorganizedTotemPoles(nodes: set<NodeId>, links: set<Link>, categories: seq<NodeId>, roots: seq<NodeId>)
    requires nodes == Elements([0, 1, 2, 3, 4]) && Elements(categories) == nodes && LinksIn(nodes, links)
    requires Elements(roots) <= Elements(categories) && forall c :: c in categories ==> (c in roots <==> RealParents(links, c) == {})
    requires PlacedByPlinko(TotemNames(), nodes, links, categories, roots, 0)
    ensures Children(links, 0) == {1} && Children(links, 1) == {2} && Children(links, 2) == {3}
    ensures Children(links, 3) == {4} && Children(links, 4) == {}
    ensures Elements(roots) == {0}
  {
    TotemChain();
    ChainLine(TotemNames(), nodes, links, categories, roots, [0, 1, 2, 3, 4]);
    LineOfFive(links, roots, [0, 1, 2, 3, 4]);
  }

  /** The line of ids 0 to 4, read off id by id. */
  lemma LineOfFive(links: set<Link>, roots: seq<NodeId>, chain: seq<NodeId>)
    requires chain == [0, 1, 2, 3, 4] && InLine(links, roots, chain)
    ensures Children(links, 0) == {1} && Children(links, 1) == {2} && Children(links, 2) == {3}
    ensures Children(links, 3) == {4} && Children(links, 4) == {}
    ensures Elements(roots) == {0}
  {
    assert chain[0] == 0 && chain[1] == 1 && chain[2] == 2 && chain[3] == 3 && chain[4] == 4;
  }
}
