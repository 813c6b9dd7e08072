/**
  Names as the classifier sees them: a category's name already split into words.
  The two Ruby array operators the name predicates are built from are written out
  here, `a & b` as `Intersect` and `a - b` as `Without`, each with what it means
  in terms of word sets.
*/
module Words {
  import opened Wrappers
  import opened Collections

  type Word = string

  /** A name, split on whitespace. */
  type Name = seq<Word>

  function WordSet(ws: Name): set<Word> {
    Elements(ws)
  }

  /** The words of `xs` that are not in `removed`, in order and with repetitions:
      Ruby's `xs - ys` is `Without(xs, WordSet(ys))`. */
  function Without(xs: Name, removed: set<Word>): (r: Name)
    ensures forall w {:trigger w in r} :: w in r <==> w in xs && w !in removed
    ensures |r| <= |xs|
  {
    if |xs| == 0 then []
    else (if xs[0] in removed then [] else [xs[0]]) + Without(xs[1..], removed)
  }

  /** Ruby's `xs & ys`: the words of `xs` that also occur in `ys`, each once, in the
      order of their first occurrence in `xs`. */
  function Intersect(xs: Name, ys: Name): (r: Name)
    ensures forall w :: w in r <==> w in xs && w in ys
    ensures Distinct(r)
  {
    if |xs| == 0 then []
    else
      var r := Intersect(xs[..|xs| - 1], ys);
      var w := xs[|xs| - 1];
      assert xs == xs[..|xs| - 1] + [w];
      if w in ys && w !in r then r + [w] else r
  }

  lemma {:induction false} WithoutAppend(xs: Name, ys: Name, removed: set<Word>)
    ensures Without(xs + ys, removed) == Without(xs, removed) + Without(ys, removed)
  {
    if |xs| > 0 {
      assert (xs + ys)[1..] == xs[1..] + ys;
      WithoutAppend(xs[1..], ys, removed);
    } else {
      assert xs + ys == ys;
    }
  }

  /** Only the removed words that occur in `xs` matter. */
  lemma {:induction false} WithoutSame(xs: Name, r1: set<Word>, r2: set<Word>)
    requires forall w :: w in xs ==> (w in r1 <==> w in r2)
    ensures Without(xs, r1) == Without(xs, r2)
  {
    if |xs| > 0 {
      WithoutSame(xs[1..], r1, r2);
    }
  }

  lemma {:induction false} WithoutNothing(xs: Name)
    ensures Without(xs, {}) == xs
  {
    if |xs| > 0 {
      WithoutNothing(xs[1..]);
      assert xs == [xs[0]] + xs[1..];
    }
  }

  /** Removing one set of words and then another is removing both. */
  lemma {:induction false} WithoutTwice(xs: Name, r1: set<Word>, r2: set<Word>)
    ensures Without(Without(xs, r1), r2) == Without(xs, r1 + r2)
  {
    if |xs| > 0 {
      WithoutTwice(xs[1..], r1, r2);
      var head := if xs[0] in r1 then [] else [xs[0]];
      WithoutAppend(head, Without(xs[1..], r1), r2);
    }
  }

  /** `Intersect` has one entry per common word. */
  lemma IntersectCount(xs: Name, ys: Name)
    ensures |Intersect(xs, ys)| == |WordSet(xs) * WordSet(ys)|
  {
    var r := Intersect(xs, ys);
    DistinctCard(r);
    assert Elements(r) == WordSet(xs) * WordSet(ys);
  }

  /** The word test both classifiers share: `bigger` has every word of `smaller` and
      at least one more, computed as the source computes it. */
  predicate Extends(smaller: Name, bigger: Name) {
    |Without(bigger, WordSet(Intersect(smaller, bigger)))| > 0 && |Without(smaller, WordSet(bigger))| == 0
  }

  /** `Extends` is strict inclusion of word sets. */
  lemma ExtendsIsStrictSuperset(smaller: Name, bigger: Name)
    ensures Extends(smaller, bigger) <==> WordSet(smaller) < WordSet(bigger)
  {
    var common := Intersect(smaller, bigger);
    var extra := Without(bigger, WordSet(common));
    var missing := Without(smaller, WordSet(bigger));
    if WordSet(smaller) < WordSet(bigger) {
      var w :| w in WordSet(bigger) && w !in WordSet(smaller);
      assert w in extra;
      assert forall w :: w !in missing;
      EmptyIffNoElements(missing);
    }
    if Extends(smaller, bigger) {
      assert extra[0] in extra;
      forall w | w in WordSet(smaller) ensures w in WordSet(bigger) {
        assert w !in missing;
      }
    }
  }

  /** Hence no two names extend each other, and no name extends itself. */
  lemma ExtendsAntisymmetric(a: Name, b: Name)
    ensures !(Extends(a, b) && Extends(b, a))
    ensures !Extends(a, a)
  {
    ExtendsIsStrictSuperset(a, b);
    ExtendsIsStrictSuperset(b, a);
    ExtendsIsStrictSuperset(a, a);
  }

  /** The number of distinct words two names share, as `(xs & ys).count`. */
  function CommonWordCount(xs: Name, ys: Name): (n: nat)
    ensures n <= |xs|
  {
    IntersectBound(xs, ys);
    |Intersect(xs, ys)|
  }

  lemma IntersectBound(xs: Name, ys: Name)
    ensures |Intersect(xs, ys)| <= |xs|
  {
    IntersectCount(xs, ys);
    DistinctCard(Intersect(xs, ys));
    SubsetCard(WordSet(xs) * WordSet(ys), WordSet(xs));
    CardElements(xs);
  }

  /** A sequence has at least as many entries as distinct elements. */
  lemma {:induction false} CardElements(xs: Name)
    ensures |WordSet(xs)| <= |xs|
  {
    if |xs| > 0 {
      var init := xs[..|xs| - 1];
      CardElements(init);
      assert xs == init + [xs[|xs| - 1]];
      assert WordSet(xs) == WordSet(init) + {xs[|xs| - 1]};
    }
  }

  /** The count is symmetric and is the size of the common word set. */
  lemma CommonWordCountIsShared(xs: Name, ys: Name)
    ensures CommonWordCount(xs, ys) == |WordSet(xs) * WordSet(ys)|
    ensures CommonWordCount(xs, ys) == CommonWordCount(ys, xs)
  {
    IntersectCount(xs, ys);
    IntersectCount(ys, xs);
    assert WordSet(xs) * WordSet(ys) == WordSet(ys) * WordSet(xs);
  }

  /** The words of a name that no parent's name contains, in order; `None` when no
      word is left. */
  function UniquePortion(name: Name, parentNames: set<Name>): (r: Option<Name>)
    ensures r.None? <==> forall w :: w in name ==> exists pn :: pn in parentNames && w in pn
    ensures r.Some? ==> forall w :: w in r.value <==> w in name && forall pn :: pn in parentNames ==> w !in pn
  {
    var rest := Without(name, ParentWords(parentNames));
    if |rest| == 0 then
      forall w | w in name ensures w in ParentWords(parentNames) {
        assert w !in rest;
      }
      None
    else
      assert rest[0] in rest;
      Some(rest)
  }

  /** Every word of every parent name. */
  function ParentWords(parentNames: set<Name>): set<Word> {
    set pn, w | pn in parentNames && w in pn :: w
  }

  lemma ParentWordsStep(done: set<Name>, pn: Name)
    ensures ParentWords(done + {pn}) == ParentWords(done) + WordSet(pn)
  {
  }

  /** The loop of `unique_name_portion`: start from the name's words and delete, name by
      name and word by word, every word of every parent. `parentNames` stands for the
      names of the record's `parents`; this module does not see the link table, so the
      caller supplies them. */
  method UniqueNamePortion(name: Name, parentNames: set<Name>) returns (r: Option<Name>)
    ensures r == UniquePortion(name, parentNames)
  {
    var portion := name;
    var todo := parentNames;
    ghost var done: set<Name> := {};
    ghost var removed: set<Word> := {};
    WithoutNothing(name);
    while todo != {}
      invariant todo + done == parentNames
      invariant removed == ParentWords(done)
      invariant portion == Without(name, removed)
      decreases |todo|
    {
      var pn :| pn in todo;
      var i := 0;
      ghost var before := removed;
      while i < |pn|
        invariant 0 <= i <= |pn|
        invariant removed == before + WordSet(pn[..i])
        invariant portion == Without(name, removed)
      {
        // Array#delete removes every occurrence
        WithoutTwice(name, removed, {pn[i]});
        portion := Without(portion, {pn[i]});
        assert pn[..i + 1] == pn[..i] + [pn[i]];
        removed := removed + {pn[i]};
        i := i + 1;
      }
      assert pn[..|pn|] == pn;
      ParentWordsStep(done, pn);
      done := done + {pn};
      todo := todo - {pn};
    }
    assert done == parentNames;
    assert portion == Without(name, ParentWords(parentNames));
    r := if |portion| == 0 then None else Some(portion);
  }
}
