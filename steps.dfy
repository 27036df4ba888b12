/**
 * What each inference sweep does at one key it visits: the content of the
 * cells it rewrites, beyond the shrinking every sweep keeps.
 */
module SweepSteps {
  import opened Grid
  import opened Clues
  import opened Sweeps

  /** symmetrize (Logic.py) at a solved cell (A, a, B) = {b}: the mirror
      cell (B, b, A) is overwritten with {a}, whatever it held, and no
      other cell changes. */
  lemma SymmetrizeWritesMirror(cats: Categories, c: Cells, k: Key, b: Value)
    requires WellFormed(cats) && k in c && k.catA in cats.members && k.catB in cats.members
    requires c[k] == {b}
    ensures var r := KeyStep(WriteSymmetric, cats, c, k);
      && r[Key(k.catB, b, k.catA)] == {k.elA}
      && forall k' :: k' in c && k' != Key(k.catB, b, k.catA) ==> r[k'] == c[k']
  {
    assert Only(c[k]) in {b};
  }

  /** symmetrize (LogicPuzzle.py) at a solved cell (A, a, B) = {b}:
      set_element(b, a) intersects b's cell on A with {a}, keeps a's cell
      {b}, takes exactly a from every other value of B and exactly b from
      every other value of A, and changes no cell outside A and B. */
  lemma SymmetrizeBindsMirror(cats: Categories, c: Cells, k: Key, b: Value)
    requires WellFormed(cats) && k in c && k.catA in cats.members && k.catB in cats.members
    requires k.catA != k.catB && c[k] == {b}
    ensures var r := KeyStep(BindSymmetric, cats, c, k);
      && r[k] == {b}
      && (Key(k.catB, b, k.catA) in c ==> r[Key(k.catB, b, k.catA)] == c[Key(k.catB, b, k.catA)] * {k.elA})
      && (forall y :: y in cats.members[k.catB] && y != b && Key(k.catB, y, k.catA) in c ==>
            r[Key(k.catB, y, k.catA)] == c[Key(k.catB, y, k.catA)] - {k.elA})
      && (forall x :: x in cats.members[k.catA] && x != k.elA && Key(k.catA, x, k.catB) in c ==>
            r[Key(k.catA, x, k.catB)] == c[Key(k.catA, x, k.catB)] - {b})
      && (forall k' ::
            (k' in c && !(k'.catA == k.catA && k'.catB == k.catB) && !(k'.catA == k.catB && k'.catB == k.catA)) ==>
            r[k'] == c[k'])
  {
    assert Only(c[k]) in {b};
  }

  /** exclude_solved at a solved cell (A, a, B) = {b}: every other value of
      A loses exactly b on B; the other cells are untouched. */
  lemma ExcludeSolvedStep(cats: Categories, c: Cells, k: Key, b: Value)
    requires WellFormed(cats) && k in c && k.catA in cats.members && k.catB in cats.members
    requires c[k] == {b}
    ensures var r := KeyStep(ExcludeSolved, cats, c, k);
      && (forall x :: x in cats.members[k.catA] && x != k.elA && Key(k.catA, x, k.catB) in c ==>
            r[Key(k.catA, x, k.catB)] == c[Key(k.catA, x, k.catB)] - {b})
      && (forall k' :: k' in c && (k'.catA != k.catA || k'.catB != k.catB || k'.elA == k.elA) ==> r[k'] == c[k'])
  {
    assert Only(c[k]) in {b};
  }

  /** The loop of chain_relation: on every third category C of ns, a's
      and b's cells become the intersection of their old values; no cell
      other than theirs on a category of ns changes. */
  lemma {:induction false} ChainRelationMeets(c: Cells, k: Key, b: Value, ns: seq<Name>)
    requires k.catA != k.catB
    ensures var r := ChainRelationCats(c, k, b, ns);
      && (forall cc :: (cc in ns && cc != k.catA && cc != k.catB &&
            Key(k.catA, k.elA, cc) in c && Key(k.catB, b, cc) in c) ==>
              r[Key(k.catA, k.elA, cc)] == c[Key(k.catA, k.elA, cc)] * c[Key(k.catB, b, cc)] &&
              r[Key(k.catB, b, cc)] == r[Key(k.catA, k.elA, cc)])
      && (forall k' :: k' in c && k'.catB !in ns ==> r[k'] == c[k'])
      && (forall k' :: k' in c && k' != Key(k.catA, k.elA, k'.catB) && k' != Key(k.catB, b, k'.catB) ==> r[k'] == c[k'])
    decreases |ns|
  {
    if ns != [] {
      var init := ns[..|ns| - 1];
      var cc := ns[|ns| - 1];
      ChainRelationMeets(c, k, b, init);
      var c' := ChainRelationCats(c, k, b, init);
      var r := ChainRelationCats(c, k, b, ns);
      assert forall n :: n in ns <==> n in init || n == cc;
      if cc != k.catA && cc != k.catB {
        assert r == ChainPair(c', k.catA, k.elA, k.catB, b, cc);
        forall d | d in ns && d != k.catA && d != k.catB &&
            Key(k.catA, k.elA, d) in c && Key(k.catB, b, d) in c
          ensures r[Key(k.catA, k.elA, d)] == c[Key(k.catA, k.elA, d)] * c[Key(k.catB, b, d)]
          ensures r[Key(k.catB, b, d)] == r[Key(k.catA, k.elA, d)]
        {
          if d == cc {
            if d in init {
              var s := c[Key(k.catA, k.elA, d)] * c[Key(k.catB, b, d)];
              assert s * s == s;
            }
          }
        }
      }
    }
  }

  /** The loop of chain_sets for (A, a, B) whose candidates on B were els:
      on every third category C of ns, a's cell keeps exactly the values
      some b of els can still take on C; only a's cells change. */
  lemma {:induction false} ChainSetsNarrows(c: Cells, k: Key, els: set<Value>, ns: seq<Name>)
    requires k.catA != k.catB
    ensures var r := ChainSetsCats(c, k, els, ns);
      && (forall cc :: cc in ns && cc != k.catA && cc != k.catB && Key(k.catA, k.elA, cc) in c ==>
            r[Key(k.catA, k.elA, cc)] == c[Key(k.catA, k.elA, cc)] * UnionOn(c, k.catB, els, cc))
      && (forall k' :: k' in c && k' != Key(k.catA, k.elA, k'.catB) ==> r[k'] == c[k'])
      && (forall k' :: k' in c && k'.catB !in ns ==> r[k'] == c[k'])
    decreases |ns|
  {
    if ns != [] {
      var init := ns[..|ns| - 1];
      var cc := ns[|ns| - 1];
      ChainSetsNarrows(c, k, els, init);
      var c' := ChainSetsCats(c, k, els, init);
      var r := ChainSetsCats(c, k, els, ns);
      assert forall n :: n in ns <==> n in init || n == cc;
      if cc != k.catA && cc != k.catB {
        assert r == ChainThrough(c', k.catA, k.elA, k.catB, els, cc);
        UnionOnUnchanged(c, c', k.catB, els, cc);
        forall d | d in ns && d != k.catA && d != k.catB && Key(k.catA, k.elA, d) in c
          ensures r[Key(k.catA, k.elA, d)] == c[Key(k.catA, k.elA, d)] * UnionOn(c, k.catB, els, d)
        {
          if d == cc && d in init {
            var s := c[Key(k.catA, k.elA, d)] * UnionOn(c, k.catB, els, d);
            assert s * UnionOn(c, k.catB, els, d) == s;
          }
        }
      }
    }
  }

  /** The union on C of B's cells is the same in two stores that agree on
      those cells. */
  lemma UnionOnUnchanged(c: Cells, c': Cells, cb: Name, els: set<Value>, cc: Name)
    requires c'.Keys == c.Keys
    requires forall y :: Key(cb, y, cc) in c ==> c'[Key(cb, y, cc)] == c[Key(cb, y, cc)]
    ensures UnionOn(c', cb, els, cc) == UnionOn(c, cb, els, cc)
  {
    var u, u' := UnionOn(c, cb, els, cc), UnionOn(c', cb, els, cc);
    forall x | x in u
      ensures x in u'
    {
      var y :| y in els && Key(cb, y, cc) in c && x in c[Key(cb, y, cc)];
      assert x in c'[Key(cb, y, cc)];
    }
    forall x | x in u'
      ensures x in u
    {
      var y :| y in els && Key(cb, y, cc) in c' && x in c'[Key(cb, y, cc)];
      assert x in c[Key(cb, y, cc)];
    }
  }

  /** The loop of remove_chain_exclusion at a solved cell (A, a, B) = {b}:
      for every third category C of ns, every value y of C that a's cell
      on C lacks has lost b from its cell on B; and nothing but b, from
      such cells, is removed. */
  lemma {:induction false} RemoveChainExcludes(cats: Categories, c: Cells, k: Key, b: Value, ns: seq<Name>)
    requires k.catA != k.catB && forall n :: n in ns ==> n in cats.members
    ensures var r := RemoveChainCats(cats, c, k, b, ns);
      && (forall cc, y :: (cc in ns && cc != k.catA && cc != k.catB && Key(k.catA, k.elA, cc) in c &&
            y in cats.members[cc] && y !in c[Key(k.catA, k.elA, cc)] && Key(cc, y, k.catB) in c) ==>
              b !in r[Key(cc, y, k.catB)])
      && (forall k', v :: k' in c && v in c[k'] && v !in r[k'] ==>
            v == b && k'.catB == k.catB && k'.catA in ns && k'.catA != k.catA && k'.catA != k.catB &&
            Key(k.catA, k.elA, k'.catA) in c && k'.elA !in c[Key(k.catA, k.elA, k'.catA)])
    decreases |ns|
  {
    if ns != [] {
      var init := ns[..|ns| - 1];
      var cc := ns[|ns| - 1];
      RemoveChainExcludes(cats, c, k, b, init);
      var c' := RemoveChainCats(cats, c, k, b, init);
      var r := RemoveChainCats(cats, c, k, b, ns);
      assert forall n :: n in ns <==> n in init || n == cc;
      if cc != k.catA && cc != k.catB {
        assert r == ExcludeFromMissing(cats, c', k.catA, k.elA, cc, k.catB, b);
        var kc := Key(k.catA, k.elA, cc);
        if kc in c {
          assert c'[kc] == c[kc] by {
            forall v | v in c[kc]
              ensures v in c'[kc]
            {
            }
          }
        }
      }
    }
  }

  /** solve_singleton(A, a, B): when b is the one candidate of a on B that
      no other value of A still allows, a is bound to b. */
  lemma SolveSingletonBinds(cats: Categories, c: Cells, ca: Name, a: Value, cb: Name, b: Value)
    requires ca in cats.members && cb in cats.members && Key(ca, a, cb) in c
    requires b in c[Key(ca, a, cb)]
    requires forall y :: y in cats.members[ca] && y != a && Key(ca, y, cb) in c ==> b !in c[Key(ca, y, cb)]
    requires forall w :: w in c[Key(ca, a, cb)] && w != b ==>
      exists y :: y in cats.members[ca] && y != a && Key(ca, y, cb) in c && w in c[Key(ca, y, cb)]
    ensures SolveSingleton(cats, c, ca, a, cb) == Bind(cats, c, ca, a, cb, b)
  {
    var s := c[Key(ca, a, cb)];
    var others := OthersOn(c, ca, a, cb, cats.members[ca]);
    var remaining := Complement(s * others, s);
    assert b !in others;
    assert remaining == {b} by {
      forall w | w in remaining
        ensures w == b
      {
      }
    }
    assert Only(remaining) in {b};
  }

  /** solve_singleton leaves the store alone when every candidate of a on B
      is still allowed to some other value of A. */
  lemma SolveSingletonIdle(cats: Categories, c: Cells, ca: Name, a: Value, cb: Name)
    requires ca in cats.members && cb in cats.members && Key(ca, a, cb) in c
    requires forall w :: w in c[Key(ca, a, cb)] ==>
      exists y :: y in cats.members[ca] && y != a && Key(ca, y, cb) in c && w in c[Key(ca, y, cb)]
    ensures SolveSingleton(cats, c, ca, a, cb) == c
  {
    var s := c[Key(ca, a, cb)];
    var others := OthersOn(c, ca, a, cb, cats.members[ca]);
    assert s <= others by {
      forall w | w in s
        ensures w in others
      {
        var y :| y in cats.members[ca] && y != a && Key(ca, y, cb) in c && w in c[Key(ca, y, cb)];
      }
    }
    assert Complement(s * others, s) == {};
  }

  /** solve_singleton also leaves the store alone when two or more
      candidates of a on B are allowed to no other value of A. */
  lemma SolveSingletonCrowded(cats: Categories, c: Cells, ca: Name, a: Value, cb: Name, b: Value, b': Value)
    requires ca in cats.members && cb in cats.members && Key(ca, a, cb) in c
    requires b != b' && b in c[Key(ca, a, cb)] && b' in c[Key(ca, a, cb)]
    requires forall y :: y in cats.members[ca] && y != a && Key(ca, y, cb) in c ==>
      b !in c[Key(ca, y, cb)] && b' !in c[Key(ca, y, cb)]
    ensures SolveSingleton(cats, c, ca, a, cb) == c
  {
    var s := c[Key(ca, a, cb)];
    var others := OthersOn(c, ca, a, cb, cats.members[ca]);
    var remaining := Complement(s * others, s);
    assert {b, b'} <= remaining;
    assert |{b, b'}| == 2;
    assert |remaining| >= 2 by {
      SubsetSize({b, b'}, remaining);
    }
  }
}
