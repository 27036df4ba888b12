/**
 * The sweeps of both versions of the engine as loops over the store. Each
 * loop visits what the source's loop visits, in the same order, and is
 * proved to leave the cells as its function in Sweeps says. The named
 * operations of Logic.py and of the LogicPuzzle class call these.
 */
module Passes {
  import opened Grid
  import opened Clues
  import opened Sweeps
  import Logic

  // per-key steps -----------------------------------------------------------

  /** One iteration of the loop of chain_relation: the i-th category. */
  method ChainRelationStep(k: Key, b: Value, i: nat, ghost c0: Cells, store: SetStore, cats: Categories)
    requires i < |cats.names| && WellFormed(cats) && Complete(cats, c0)
    requires IsKey(cats, k) && b in cats.members[k.catB]
    requires store.Ordered() && store.cells == ChainRelationCats(c0, k, b, cats.names[..i])
    modifies store
    ensures store.Ordered() && store.order == old(store.order)
    ensures store.cells == ChainRelationCats(c0, k, b, cats.names[..i + 1])
  {
    assert cats.names[..i + 1][..i] == cats.names[..i];
    var cc := cats.names[i];
    if cc != k.catA && cc != k.catB {
      var kA, kB := Key(k.catA, k.elA, cc), Key(k.catB, b, cc);
      assert IsKey(cats, kA) && IsKey(cats, kB);
      var combo := store.cells[kA] * store.cells[kB];
      ghost var want := ChainPair(store.cells, k.catA, k.elA, k.catB, b, cc);
      assert want == store.cells[kA := combo][kB := combo];
      assert ChainRelationCats(c0, k, b, cats.names[..i + 1]) == want;
      store.Put(kA, combo);
      store.Put(kB, combo);
    }
  }

  /** The loop of chain_relation over the categories for the solved cell k
      = {b}: both cells on each other category C become their intersection. */
  method ChainRelationPass(k: Key, b: Value, store: SetStore, cats: Categories)
    requires store.Ordered() && WellFormed(cats) && Complete(cats, store.cells)
    requires IsKey(cats, k) && b in cats.members[k.catB]
    modifies store
    ensures store.Ordered() && store.order == old(store.order)
    ensures store.cells == ChainRelationCats(old(store.cells), k, b, cats.names)
  {
    var i := 0;
    while i < |cats.names|
      invariant 0 <= i <= |cats.names|
      invariant store.Ordered() && store.order == old(store.order)
      invariant store.cells == ChainRelationCats(old(store.cells), k, b, cats.names[..i])
    {
      ChainRelationStep(k, b, i, old(store.cells), store, cats);
      i := i + 1;
    }
    assert cats.names[..i] == cats.names;
  }

  lemma UnionOnAdd(c: Cells, cb: Name, s: set<Value>, y: Value, cc: Name)
    requires Key(cb, y, cc) in c
    ensures UnionOn(c, cb, s + {y}, cc) == UnionOn(c, cb, s, cc) + c[Key(cb, y, cc)]
  {
    var l, r := UnionOn(c, cb, s + {y}, cc), UnionOn(c, cb, s, cc) + c[Key(cb, y, cc)];
    forall x | x in l
      ensures x in r
    {
      var y' :| y' in s + {y} && Key(cb, y', cc) in c && x in c[Key(cb, y', cc)];
      if y' != y {
        assert y' in s;
      }
    }
  }

  /** set_BC in chain_sets: the union of the cells on C of the values els
      of B. */
  method UnionPass(cb: Name, els: set<Value>, cc: Name, store: SetStore) returns (u: set<Value>)
    requires forall y :: y in els ==> Key(cb, y, cc) in store.cells
    ensures u == UnionOn(store.cells, cb, els, cc)
  {
    u := {};
    var rest := els;
    while rest != {}
      invariant rest <= els
      invariant u == UnionOn(store.cells, cb, els - rest, cc)
      decreases |rest|
    {
      var y := Pick(rest);
      UnionOnAdd(store.cells, cb, els - rest, y, cc);
      assert (els - rest) + {y} == els - (rest - {y});
      u := u + store.cells[Key(cb, y, cc)];
      rest := rest - {y};
    }
    assert els - rest == els;
  }

  /** One iteration of the loop of chain_sets: the i-th category. */
  method ChainSetsStep(k: Key, els: set<Value>, i: nat, ghost c0: Cells, store: SetStore, cats: Categories)
    requires i < |cats.names| && WellFormed(cats) && Complete(cats, c0)
    requires IsKey(cats, k) && forall y :: y in els ==> y in cats.members[k.catB]
    requires store.Ordered() && store.cells == ChainSetsCats(c0, k, els, cats.names[..i])
    modifies store
    ensures store.Ordered() && store.order == old(store.order)
    ensures store.cells == ChainSetsCats(c0, k, els, cats.names[..i + 1])
  {
    assert cats.names[..i + 1][..i] == cats.names[..i];
    var cc := cats.names[i];
    if cc != k.catA && cc != k.catB {
      assert forall y :: y in els ==> IsKey(cats, Key(k.catB, y, cc));
      var setBC := UnionPass(k.catB, els, cc, store);
      var kC := Key(k.catA, k.elA, cc);
      assert IsKey(cats, kC);
      store.Put(kC, store.cells[kC] * setBC);
    }
  }

  /** The loop of chain_sets over the categories for the cell k: a's cell
      on each other category C keeps what the candidates of a on B allow. */
  method ChainSetsPass(k: Key, store: SetStore, cats: Categories)
    requires store.Ordered() && WellFormed(cats) && Complete(cats, store.cells)
    requires IsKey(cats, k) && forall y :: y in store.cells[k] ==> y in cats.members[k.catB]
    modifies store
    ensures store.Ordered() && store.order == old(store.order)
    ensures store.cells == ChainSetsCats(old(store.cells), k, old(store.cells)[k], cats.names)
  {
    var els := store.cells[k];
    var i := 0;
    while i < |cats.names|
      invariant 0 <= i <= |cats.names|
      invariant store.Ordered() && store.order == old(store.order)
      invariant store.cells == ChainSetsCats(old(store.cells), k, els, cats.names[..i])
    {
      ChainSetsStep(k, els, i, old(store.cells), store, cats);
      i := i + 1;
    }
    assert cats.names[..i] == cats.names;
  }

  lemma ExcludeEachStep(c: Cells, cc: Name, cd: Name, x: Value, ys: set<Value>, y: Value)
    requires Key(cc, y, cd) in c && y !in ys
    ensures var c' := ExcludeEach(c, cc, cd, x, ys);
      c'[Key(cc, y, cd) := ExcludeElement(c'[Key(cc, y, cd)], x)] == ExcludeEach(c, cc, cd, x, ys + {y})
  {
    var c' := ExcludeEach(c, cc, cd, x, ys);
    var l := c'[Key(cc, y, cd) := ExcludeElement(c'[Key(cc, y, cd)], x)];
    var r := ExcludeEach(c, cc, cd, x, ys + {y});
    assert l.Keys == r.Keys;
    forall k | k in l
      ensures l[k] == r[k]
    {
    }
  }

  /** One value y of the loop below: set_not_element takes x out of y's
      cell on D and, mirrored, y out of a's cell on C, where it is not. */
  method ExcludeMissingStep(ca: Name, a: Value, cc: Name, cd: Name, x: Value, mirrored: bool,
                            ghost c0: Cells, ghost done: set<Value>, y: Value, store: SetStore)
    requires store.Ordered() && ca != cc && y !in done
    requires Key(ca, a, cc) in c0 && Key(cc, y, cd) in c0 && y !in c0[Key(ca, a, cc)]
    requires mirrored ==> cd == ca && x == a
    requires store.cells == ExcludeEach(c0, cc, cd, x, done)
    modifies store
    ensures store.Ordered() && store.order == old(store.order)
    ensures store.cells == ExcludeEach(c0, cc, cd, x, done + {y})
  {
    var kS, k := Key(ca, a, cc), Key(cc, y, cd);
    ExcludeEachStep(c0, cc, cd, x, done, y);
    ghost var after := store.cells[k := ExcludeElement(store.cells[k], x)];
    store.Put(k, ExcludeElement(store.cells[k], x));
    if mirrored {
      assert store.cells[kS] == c0[kS];
      assert ExcludeElement(store.cells[kS], y) == store.cells[kS];
      store.Put(kS, ExcludeElement(store.cells[kS], y));
      assert store.cells == after;
    }
  }

  /** The loop over the missing values ys (see ExcludeMissingPass). */
  method ExcludeEachPass(ca: Name, a: Value, cc: Name, cd: Name, x: Value, mirrored: bool, ys: set<Value>,
                         store: SetStore)
    requires store.Ordered() && ca != cc
    requires Key(ca, a, cc) in store.cells && ys !! store.cells[Key(ca, a, cc)]
    requires forall y :: y in ys ==> Key(cc, y, cd) in store.cells
    requires mirrored ==> cd == ca && x == a
    modifies store
    ensures store.Ordered() && store.order == old(store.order)
    ensures store.cells == ExcludeEach(old(store.cells), cc, cd, x, ys)
  {
    ghost var c0 := store.cells;
    var rest := ys;
    assert ExcludeEach(c0, cc, cd, x, ys - rest) == c0 by {
      var e := ExcludeEach(c0, cc, cd, x, ys - rest);
      assert ys - rest == {};
      assert e.Keys == c0.Keys;
    }
    while rest != {}
      invariant rest <= ys
      invariant store.Ordered() && store.order == old(store.order)
      invariant store.cells == ExcludeEach(c0, cc, cd, x, ys - rest)
      decreases |rest|
    {
      var y := Pick(rest);
      ExcludeMissingStep(ca, a, cc, cd, x, mirrored, c0, ys - rest, y, store);
      assert (ys - rest) + {y} == ys - (rest - {y});
      rest := rest - {y};
    }
    assert ys - rest == ys;
  }

  /** The loop shared by return_exclusion and remove_chain_exclusion: for
      every value y of C missing from a's cell on C, set_not_element takes x
      out of y's cell on D. Mirrored (LogicPuzzle.py, where D is A and x is
      a), set_not_element also takes y out of a's cell on C, which y has
      already left. */
  method ExcludeMissingPass(ca: Name, a: Value, cc: Name, cd: Name, x: Value, mirrored: bool,
                            store: SetStore, cats: Categories)
    requires store.Ordered() && cc in cats.members && ca != cc
    requires Key(ca, a, cc) in store.cells
    requires forall y :: y in cats.members[cc] ==> Key(cc, y, cd) in store.cells
    requires mirrored ==> cd == ca && x == a
    modifies store
    ensures store.Ordered() && store.order == old(store.order)
    ensures store.cells == ExcludeFromMissing(cats, old(store.cells), ca, a, cc, cd, x)
  {
    var missing := Complement(store.cells[Key(ca, a, cc)], FullSet(cats, cc));
    ExcludeEachPass(ca, a, cc, cd, x, mirrored, missing, store);
  }

  /** One iteration of the loop of remove_chain_exclusion: the i-th
      category. */
  method RemoveChainStep(k: Key, b: Value, i: nat, ghost c0: Cells, store: SetStore, cats: Categories)
    requires i < |cats.names| && WellFormed(cats) && Complete(cats, c0)
    requires IsKey(cats, k) && b in cats.members[k.catB]
    requires store.Ordered() && store.cells == RemoveChainCats(cats, c0, k, b, cats.names[..i])
    modifies store
    ensures store.Ordered() && store.order == old(store.order)
    ensures store.cells == RemoveChainCats(cats, c0, k, b, cats.names[..i + 1])
  {
    assert cats.names[..i + 1][..i] == cats.names[..i];
    var cc := cats.names[i];
    if cc != k.catA && cc != k.catB {
      assert RemoveChainCats(cats, c0, k, b, cats.names[..i + 1]) ==
        ExcludeFromMissing(cats, store.cells, k.catA, k.elA, cc, k.catB, b);
      assert IsKey(cats, Key(k.catA, k.elA, cc));
      assert forall y :: y in cats.members[cc] ==> IsKey(cats, Key(cc, y, k.catB));
      ExcludeMissingPass(k.catA, k.elA, cc, k.catB, b, false, store, cats);
    }
  }

  /** The loop of remove_chain_exclusion over the categories for the solved
      cell k = {b}. */
  method RemoveChainPass(k: Key, b: Value, store: SetStore, cats: Categories)
    requires store.Ordered() && WellFormed(cats) && Complete(cats, store.cells)
    requires IsKey(cats, k) && b in cats.members[k.catB]
    modifies store
    ensures store.Ordered() && store.order == old(store.order)
    ensures store.cells == RemoveChainCats(cats, old(store.cells), k, b, cats.names)
  {
    var i := 0;
    while i < |cats.names|
      invariant 0 <= i <= |cats.names|
      invariant store.Ordered() && store.order == old(store.order)
      invariant store.cells == RemoveChainCats(cats, old(store.cells), k, b, cats.names[..i])
    {
      RemoveChainStep(k, b, i, old(store.cells), store, cats);
      i := i + 1;
    }
    assert cats.names[..i] == cats.names;
  }

  /** What a sweep over the keys does at the key k. */
  method KeyStepPass(sweep: KeySweep, k: Key, store: SetStore, cats: Categories)
    requires store.Valid(cats) && k in store.cells
    modifies store
    ensures store.Ordered() && store.order == old(store.order)
    ensures store.cells == KeyStep(sweep, cats, old(store.cells), k)
  {
    assert IsKey(cats, k);
    if sweep == ChainSets {
      ChainSetsPass(k, store, cats);
    } else if |store.cells[k]| == 1 {
      var b := Only(store.cells[k]);
      assert b in cats.members[k.catB];
      if sweep == BindSymmetric {
        ParentCategoryIs(cats, k.catB, b);
        ParentCategoryIs(cats, k.catA, k.elA);
        var _ := Logic.SetElement(b, k.elA, store, cats, false);
      } else if sweep == WriteSymmetric {
        assert IsKey(cats, Key(k.catB, b, k.catA));
        store.Put(Key(k.catB, b, k.catA), {k.elA});
      } else if sweep == ChainRelation {
        ChainRelationPass(k, b, store, cats);
      } else if sweep == ExcludeSolved {
        assert forall x :: x in cats.members[k.catA] ==> IsKey(cats, Key(k.catA, x, k.catB));
        Logic.ExcludeOthersPass(k.catA, k.elA, k.catB, b, store, cats);
      } else {
        RemoveChainPass(k, b, store, cats);
      }
    }
  }

  /** The fold over the first i + 1 keys is the step at the i-th key after
      the fold over the first i. */
  lemma KeyFoldSnoc(sweep: KeySweep, cats: Categories, c0: Cells, ks: seq<Key>, i: nat)
    requires i < |ks|
    ensures KeyFold(sweep, cats, c0, ks[..i + 1]) == KeyStep(sweep, cats, KeyFold(sweep, cats, c0, ks[..i]), ks[i])
  {
    assert ks[..i + 1][..i] == ks[..i];
  }

  /** One iteration of `for key in sets`: the step at the i-th key. */
  method SweepKeysStep(sweep: KeySweep, ks: seq<Key>, i: nat, ghost c0: Cells, store: SetStore, cats: Categories)
    requires i < |ks| && WellFormed(cats) && Sane(cats, c0)
    requires store.Ordered() && store.order == ks
    requires store.cells == KeyFold(sweep, cats, c0, ks[..i])
    modifies store
    ensures store.Ordered() && store.order == ks
    ensures store.cells == KeyFold(sweep, cats, c0, ks[..i + 1])
  {
    KeyFoldSnoc(sweep, cats, c0, ks, i);
    KeyFoldKeepsSane(sweep, cats, c0, ks[..i]);
    KeyStepPass(sweep, ks[i], store, cats);
  }

  /** `for key in sets`: the step of the sweep at every key, in order. No
      step adds a key, so the loop visits the keys present at its start. */
  method SweepKeys(sweep: KeySweep, store: SetStore, cats: Categories)
    requires store.Valid(cats)
    modifies store
    ensures store.Valid(cats) && store.order == old(store.order)
    ensures store.cells == KeyFold(sweep, cats, old(store.cells), old(store.order))
  {
    var ks := store.order;
    var i := 0;
    while i < |ks|
      invariant 0 <= i <= |ks|
      invariant store.Ordered() && store.order == ks
      invariant store.cells == KeyFold(sweep, cats, old(store.cells), ks[..i])
    {
      SweepKeysStep(sweep, ks, i, old(store.cells), store, cats);
      i := i + 1;
    }
    assert ks[..i] == ks;
    KeyFoldKeepsSane(sweep, cats, old(store.cells), ks);
  }

  // sweeps over (A, a, B) ---------------------------------------------------

  /** other_set of solve_singleton. */
  method OthersPass(ca: Name, a: Value, cb: Name, els: seq<Value>, store: SetStore) returns (other: set<Value>)
    requires forall y :: y in els ==> Key(ca, y, cb) in store.cells
    ensures other == OthersOn(store.cells, ca, a, cb, els)
  {
    other := {};
    var i := 0;
    while i < |els|
      invariant 0 <= i <= |els|
      invariant other == OthersOn(store.cells, ca, a, cb, els[..i])
    {
      assert els[..i + 1][..i] == els[..i];
      if els[i] != a {
        other := other + store.cells[Key(ca, els[i], cb)];
      }
      i := i + 1;
    }
    assert els[..i] == els;
  }

  /** solve_singleton(A, a, B, categories[A]). */
  method SolveSingletonPass(ca: Name, a: Value, cb: Name, store: SetStore, cats: Categories)
    requires store.Valid(cats) && ca in cats.members && cb in cats.members && ca != cb
    requires a in cats.members[ca]
    modifies store
    ensures store.Ordered() && store.order == old(store.order)
    ensures store.cells == SolveSingleton(cats, old(store.cells), ca, a, cb)
  {
    assert forall y :: y in cats.members[ca] ==> IsKey(cats, Key(ca, y, cb));
    var setA := store.cells[Key(ca, a, cb)];
    var other := OthersPass(ca, a, cb, cats.members[ca], store);
    var remaining := Complement(setA * other, setA);
    if |remaining| == 1 {
      var sol := Only(remaining);
      assert sol in setA;
      ParentCategoryIs(cats, ca, a);
      ParentCategoryIs(cats, cb, sol);
      var _ := Logic.SetElement(a, sol, store, cats, false);
    }
  }

  /** What a sweep over (A, a, B) does at one triple. */
  method CellStepPass(sweep: CellSweep, ca: Name, a: Value, cb: Name, store: SetStore, cats: Categories)
    requires store.Valid(cats) && ca in cats.members && cb in cats.members && ca != cb
    requires a in cats.members[ca]
    modifies store
    ensures store.Ordered() && store.order == old(store.order)
    ensures store.cells == CellStep(sweep, cats, old(store.cells), ca, a, cb)
  {
    if sweep == ReturnExclusionAll {
      assert IsKey(cats, Key(ca, a, cb));
      assert forall y :: y in cats.members[cb] ==> IsKey(cats, Key(cb, y, ca));
      ExcludeMissingPass(ca, a, cb, ca, a, true, store, cats);
    } else {
      SolveSingletonPass(ca, a, cb, store, cats);
    }
  }

  /** One iteration of the innermost loop: the step at the i-th category. */
  method OverTargetsStep(sweep: CellSweep, ca: Name, a: Value, i: nat, ghost c0: Cells, store: SetStore,
                         cats: Categories)
    requires WellFormed(cats) && Sane(cats, c0) && ca in cats.members && a in cats.members[ca]
    requires i < |cats.names|
    requires store.Ordered() && store.cells == OverTargets(sweep, cats, c0, ca, a, cats.names[..i])
    modifies store
    ensures store.Ordered() && store.order == old(store.order)
    ensures store.cells == OverTargets(sweep, cats, c0, ca, a, cats.names[..i + 1])
  {
    OverTargetsSnoc(sweep, cats, c0, ca, a, i);
    var cb := cats.names[i];
    if ca != cb {
      ShrinksKeepsSane(cats, c0, store.cells);
      CellStepPass(sweep, ca, a, cb, store, cats);
    }
  }

  /** The innermost fold one category further. */
  lemma OverTargetsSnoc(sweep: CellSweep, cats: Categories, c0: Cells, ca: Name, a: Value, i: nat)
    requires WellFormed(cats) && ca in cats.members && i < |cats.names|
    ensures var c' := OverTargets(sweep, cats, c0, ca, a, cats.names[..i]);
      OverTargets(sweep, cats, c0, ca, a, cats.names[..i + 1]) ==
        if ca != cats.names[i] then CellStep(sweep, cats, c', ca, a, cats.names[i]) else c'
  {
    assert cats.names[..i + 1][..i] == cats.names[..i];
  }

  /** The innermost loop, over the categories, for the value a of A. */
  method OverTargetsPass(sweep: CellSweep, ca: Name, a: Value, store: SetStore, cats: Categories)
    requires store.Valid(cats) && ca in cats.members && a in cats.members[ca]
    modifies store
    ensures store.Ordered() && store.order == old(store.order)
    ensures store.cells == OverTargets(sweep, cats, old(store.cells), ca, a, cats.names)
  {
    var i := 0;
    while i < |cats.names|
      invariant 0 <= i <= |cats.names|
      invariant store.Ordered() && store.order == old(store.order)
      invariant store.cells == OverTargets(sweep, cats, old(store.cells), ca, a, cats.names[..i])
    {
      OverTargetsStep(sweep, ca, a, i, old(store.cells), store, cats);
      i := i + 1;
    }
    assert cats.names[..i] == cats.names;
  }

  /** One iteration of the middle loop: the i-th value of A. */
  method OverValuesStep(sweep: CellSweep, ca: Name, i: nat, ghost c0: Cells, store: SetStore, cats: Categories)
    requires WellFormed(cats) && Sane(cats, c0) && ca in cats.members && i < |cats.members[ca]|
    requires store.Ordered() && store.cells == OverValues(sweep, cats, c0, ca, cats.members[ca][..i])
    modifies store
    ensures store.Ordered() && store.order == old(store.order)
    ensures store.cells == OverValues(sweep, cats, c0, ca, cats.members[ca][..i + 1])
  {
    assert cats.members[ca][..i + 1][..i] == cats.members[ca][..i];
    ShrinksKeepsSane(cats, c0, store.cells);
    OverTargetsPass(sweep, ca, cats.members[ca][i], store, cats);
  }

  /** The middle loop, over the values of A. */
  method OverValuesPass(sweep: CellSweep, ca: Name, store: SetStore, cats: Categories)
    requires store.Valid(cats) && ca in cats.members
    modifies store
    ensures store.Ordered() && store.order == old(store.order)
    ensures store.cells == OverValues(sweep, cats, old(store.cells), ca, cats.members[ca])
  {
    var i := 0;
    while i < |cats.members[ca]|
      invariant 0 <= i <= |cats.members[ca]|
      invariant store.Ordered() && store.order == old(store.order)
      invariant store.cells == OverValues(sweep, cats, old(store.cells), ca, cats.members[ca][..i])
    {
      OverValuesStep(sweep, ca, i, old(store.cells), store, cats);
      i := i + 1;
    }
    assert cats.members[ca][..i] == cats.members[ca];
  }

  /** One iteration of the outer loop: the i-th category A. */
  method SweepCellsStep(sweep: CellSweep, i: nat, ghost c0: Cells, store: SetStore, cats: Categories)
    requires WellFormed(cats) && Sane(cats, c0) && i < |cats.names|
    requires store.Ordered() && store.cells == OverCategories(sweep, cats, c0, cats.names[..i])
    modifies store
    ensures store.Ordered() && store.order == old(store.order)
    ensures store.cells == OverCategories(sweep, cats, c0, cats.names[..i + 1])
  {
    assert cats.names[..i + 1][..i] == cats.names[..i];
    ShrinksKeepsSane(cats, c0, store.cells);
    OverValuesPass(sweep, cats.names[i], store, cats);
  }

  /** The outer loop, over the categories A. */
  method SweepCells(sweep: CellSweep, store: SetStore, cats: Categories)
    requires store.Valid(cats)
    modifies store
    ensures store.Valid(cats) && store.order == old(store.order)
    ensures store.cells == OverCategories(sweep, cats, old(store.cells), cats.names)
  {
    var i := 0;
    while i < |cats.names|
      invariant 0 <= i <= |cats.names|
      invariant store.Ordered() && store.order == old(store.order)
      invariant store.cells == OverCategories(sweep, cats, old(store.cells), cats.names[..i])
    {
      SweepCellsStep(sweep, i, old(store.cells), store, cats);
      i := i + 1;
    }
    assert cats.names[..i] == cats.names;
    ShrinksKeepsSane(cats, old(store.cells), store.cells);
  }

  // n_of_n and exclude_n_of_n -----------------------------------------------

  /** same in n_of_n for the value x of A on B. */
  method SameAsPass(ca: Name, x: Value, cb: Name, els: seq<Value>, store: SetStore) returns (same: seq<Value>)
    requires Key(ca, x, cb) in store.cells && forall y :: y in els ==> Key(ca, y, cb) in store.cells
    ensures same == SameAs(store.cells, ca, x, cb, els)
  {
    var setA := store.cells[Key(ca, x, cb)];
    same := [x];
    var i := 0;
    while i < |els|
      invariant 0 <= i <= |els|
      invariant same == SameAs(store.cells, ca, x, cb, els[..i])
    {
      assert els[..i + 1][..i] == els[..i];
      if x != els[i] && store.cells[Key(ca, els[i], cb)] == setA {
        same := same + [els[i]];
      }
      i := i + 1;
    }
    assert els[..i] == els;
  }

  lemma ExcludeSetStep(c: Cells, ca: Name, x: Value, cb: Name, done: set<Value>, y: Value, mirrored: bool)
    requires ca != cb && y !in done && Key(ca, x, cb) in c && (mirrored ==> Key(cb, y, ca) in c)
    ensures var c' := ExcludeSet(c, ca, x, cb, done, mirrored);
      var c1 := c'[Key(ca, x, cb) := ExcludeElement(c'[Key(ca, x, cb)], y)];
      (if mirrored then c1[Key(cb, y, ca) := ExcludeElement(c1[Key(cb, y, ca)], x)] else c1)
        == ExcludeSet(c, ca, x, cb, done + {y}, mirrored)
  {
    var c' := ExcludeSet(c, ca, x, cb, done, mirrored);
    var c1 := c'[Key(ca, x, cb) := ExcludeElement(c'[Key(ca, x, cb)], y)];
    var l := if mirrored then c1[Key(cb, y, ca) := ExcludeElement(c1[Key(cb, y, ca)], x)] else c1;
    var r := ExcludeSet(c, ca, x, cb, done + {y}, mirrored);
    assert l.Keys == r.Keys;
    forall k | k in l
      ensures l[k] == r[k]
    {
      if k == Key(ca, x, cb) {
        assert l[k] == (c[k] - done) - {y};
      }
    }
  }

  /** One value y of the loop below. */
  method ExcludeSetStepPass(ca: Name, x: Value, cb: Name, mirrored: bool, ghost c0: Cells, ghost done: set<Value>,
                            y: Value, store: SetStore)
    requires store.Ordered() && ca != cb && y !in done
    requires Key(ca, x, cb) in c0 && (mirrored ==> Key(cb, y, ca) in c0)
    requires store.cells == ExcludeSet(c0, ca, x, cb, done, mirrored)
    modifies store
    ensures store.Ordered() && store.order == old(store.order)
    ensures store.cells == ExcludeSet(c0, ca, x, cb, done + {y}, mirrored)
  {
    ExcludeSetStep(c0, ca, x, cb, done, y, mirrored);
    var k := Key(ca, x, cb);
    store.Put(k, ExcludeElement(store.cells[k], y));
    if mirrored {
      var m := Key(cb, y, ca);
      store.Put(m, ExcludeElement(store.cells[m], x));
    }
  }

  /** The inner loop of exclude_n_of_n for one value x outside the group:
      set_not_element(x, y) for every y of the group's cell s. */
  method ExcludeSetPass(ca: Name, x: Value, cb: Name, s: set<Value>, mirrored: bool, store: SetStore)
    requires store.Ordered() && ca != cb && Key(ca, x, cb) in store.cells
    requires mirrored ==> forall y :: y in s ==> Key(cb, y, ca) in store.cells
    modifies store
    ensures store.Ordered() && store.order == old(store.order)
    ensures store.cells == ExcludeSet(old(store.cells), ca, x, cb, s, mirrored)
  {
    ghost var c0 := store.cells;
    var rest := s;
    assert ExcludeSet(c0, ca, x, cb, {}, mirrored) == c0 by {
      var e := ExcludeSet(c0, ca, x, cb, {}, mirrored);
      assert e.Keys == c0.Keys;
      forall k | k in e
        ensures e[k] == c0[k]
      {
      }
    }
    assert s - rest == {};
    while rest != {}
      invariant rest <= s
      invariant store.Ordered() && store.order == old(store.order)
      invariant store.cells == ExcludeSet(c0, ca, x, cb, s - rest, mirrored)
      decreases |rest|
    {
      var y := Pick(rest);
      ExcludeSetStepPass(ca, x, cb, mirrored, c0, s - rest, y, store);
      assert (s - rest) + {y} == s - (rest - {y});
      rest := rest - {y};
    }
    assert s - rest == s;
  }

  /** One iteration of exclude_n_of_n: the i-th value of A. */
  method ExcludeGroupStep(ca: Name, cb: Name, same: seq<Value>, s: set<Value>, els: seq<Value>, mirrored: bool,
                          i: nat, ghost c0: Cells, store: SetStore)
    requires i < |els| && ca != cb
    requires forall x :: x in els ==> Key(ca, x, cb) in c0
    requires mirrored ==> forall y :: y in s ==> Key(cb, y, ca) in c0
    requires store.Ordered() && store.cells == ExcludeGroup(c0, ca, cb, same, s, els[..i], mirrored)
    modifies store
    ensures store.Ordered() && store.order == old(store.order)
    ensures store.cells == ExcludeGroup(c0, ca, cb, same, s, els[..i + 1], mirrored)
  {
    assert els[..i + 1][..i] == els[..i];
    if els[i] !in same {
      ExcludeSetPass(ca, els[i], cb, s, mirrored, store);
    }
  }

  /** exclude_n_of_n(same, s, A, B) over the values els of A. */
  method ExcludeGroupPass(ca: Name, cb: Name, same: seq<Value>, s: set<Value>, els: seq<Value>, mirrored: bool,
                          store: SetStore)
    requires store.Ordered() && ca != cb
    requires forall x :: x in els ==> Key(ca, x, cb) in store.cells
    requires mirrored ==> forall y :: y in s ==> Key(cb, y, ca) in store.cells
    modifies store
    ensures store.Ordered() && store.order == old(store.order)
    ensures store.cells == ExcludeGroup(old(store.cells), ca, cb, same, s, els, mirrored)
  {
    var i := 0;
    while i < |els|
      invariant 0 <= i <= |els|
      invariant store.Ordered() && store.order == old(store.order)
      invariant store.cells == ExcludeGroup(old(store.cells), ca, cb, same, s, els[..i], mirrored)
    {
      ExcludeGroupStep(ca, cb, same, s, els, mirrored, i, old(store.cells), store);
      i := i + 1;
    }
    assert els[..i] == els;
  }

  /** The body of n_of_n for the value x of A on B. */
  method NOfNStepPass(ca: Name, cb: Name, x: Value, mirrored: bool, store: SetStore, cats: Categories)
    requires store.Valid(cats) && ca in cats.members && cb in cats.members && ca != cb
    requires x in cats.members[ca]
    modifies store
    ensures store.Ordered() && store.order == old(store.order)
    ensures store.cells == NOfNStep(cats, old(store.cells), ca, cb, x, mirrored)
  {
    assert forall y :: y in cats.members[ca] ==> IsKey(cats, Key(ca, y, cb));
    var setA := store.cells[Key(ca, x, cb)];
    var same := SameAsPass(ca, x, cb, cats.members[ca], store);
    if |same| != |cats.names| && |same| == |setA| {
      assert forall y :: y in setA ==> IsKey(cats, Key(cb, y, ca));
      ExcludeGroupPass(ca, cb, same, setA, cats.members[ca], mirrored, store);
    }
  }

  /** n_of_n over the first i + 1 values of A is its step at the i-th
      value after the first i. */
  lemma NOfNValuesSnoc(cats: Categories, c0: Cells, ca: Name, cb: Name, mirrored: bool, i: nat)
    requires ca in cats.members && i < |cats.members[ca]|
    ensures var xs := cats.members[ca];
      NOfNValues(cats, c0, ca, cb, xs[..i + 1], mirrored) ==
        NOfNStep(cats, NOfNValues(cats, c0, ca, cb, xs[..i], mirrored), ca, cb, xs[i], mirrored)
  {
    assert cats.members[ca][..i + 1][..i] == cats.members[ca][..i];
  }

  /** One iteration of the loop over the values of A. */
  method NOfNValuesStep(ca: Name, cb: Name, mirrored: bool, i: nat, ghost c0: Cells, store: SetStore,
                        cats: Categories)
    requires WellFormed(cats) && Sane(cats, c0) && ca in cats.members && cb in cats.members && ca != cb
    requires i < |cats.members[ca]|
    requires store.Ordered() && store.cells == NOfNValues(cats, c0, ca, cb, cats.members[ca][..i], mirrored)
    modifies store
    ensures store.Ordered() && store.order == old(store.order)
    ensures store.cells == NOfNValues(cats, c0, ca, cb, cats.members[ca][..i + 1], mirrored)
  {
    NOfNValuesSnoc(cats, c0, ca, cb, mirrored, i);
    ShrinksKeepsSane(cats, c0, store.cells);
    NOfNStepPass(ca, cb, cats.members[ca][i], mirrored, store, cats);
  }

  /** The loop of n_of_n over the values of A, for one B. */
  method NOfNValuesPass(ca: Name, cb: Name, mirrored: bool, store: SetStore, cats: Categories)
    requires store.Valid(cats) && ca in cats.members && cb in cats.members && ca != cb
    modifies store
    ensures store.Ordered() && store.order == old(store.order)
    ensures store.cells == NOfNValues(cats, old(store.cells), ca, cb, cats.members[ca], mirrored)
  {
    var i := 0;
    while i < |cats.members[ca]|
      invariant 0 <= i <= |cats.members[ca]|
      invariant store.Ordered() && store.order == old(store.order)
      invariant store.cells == NOfNValues(cats, old(store.cells), ca, cb, cats.members[ca][..i], mirrored)
    {
      NOfNValuesStep(ca, cb, mirrored, i, old(store.cells), store, cats);
      i := i + 1;
    }
    assert cats.members[ca][..i] == cats.members[ca];
  }

  /** n_of_n for A over the first i + 1 categories is its pass on the i-th
      category (none when that is A itself) after the first i. */
  lemma NOfNTargetsSnoc(cats: Categories, c0: Cells, ca: Name, mirrored: bool, i: nat)
    requires ca in cats.members && i < |cats.names|
    ensures var c' := NOfNTargets(cats, c0, ca, cats.names[..i], mirrored);
      NOfNTargets(cats, c0, ca, cats.names[..i + 1], mirrored) ==
        if ca != cats.names[i] then NOfNValues(cats, c', ca, cats.names[i], cats.members[ca], mirrored) else c'
  {
    assert cats.names[..i + 1][..i] == cats.names[..i];
  }

  /** One iteration of the loop over the categories B. */
  method NOfNTargetsStep(ca: Name, mirrored: bool, i: nat, ghost c0: Cells, store: SetStore, cats: Categories)
    requires WellFormed(cats) && Sane(cats, c0) && ca in cats.members && i < |cats.names|
    requires store.Ordered() && store.cells == NOfNTargets(cats, c0, ca, cats.names[..i], mirrored)
    modifies store
    ensures store.Ordered() && store.order == old(store.order)
    ensures store.cells == NOfNTargets(cats, c0, ca, cats.names[..i + 1], mirrored)
  {
    NOfNTargetsSnoc(cats, c0, ca, mirrored, i);
    if ca != cats.names[i] {
      ShrinksKeepsSane(cats, c0, store.cells);
      NOfNValuesPass(ca, cats.names[i], mirrored, store, cats);
    }
  }

  /** The loop of n_of_n over the categories B, for one A. */
  method NOfNTargetsPass(ca: Name, mirrored: bool, store: SetStore, cats: Categories)
    requires store.Valid(cats) && ca in cats.members
    modifies store
    ensures store.Ordered() && store.order == old(store.order)
    ensures store.cells == NOfNTargets(cats, old(store.cells), ca, cats.names, mirrored)
  {
    var i := 0;
    while i < |cats.names|
      invariant 0 <= i <= |cats.names|
      invariant store.Ordered() && store.order == old(store.order)
      invariant store.cells == NOfNTargets(cats, old(store.cells), ca, cats.names[..i], mirrored)
    {
      NOfNTargetsStep(ca, mirrored, i, old(store.cells), store, cats);
      i := i + 1;
    }
    assert cats.names[..i] == cats.names;
  }

  /** n_of_n over the first i + 1 categories A is the pass for the i-th
      after the first i. */
  lemma NOfNSnoc(cats: Categories, c0: Cells, mirrored: bool, i: nat)
    requires WellFormed(cats) && i < |cats.names|
    ensures NOfN(cats, c0, cats.names[..i + 1], mirrored) ==
      NOfNTargets(cats, NOfN(cats, c0, cats.names[..i], mirrored), cats.names[i], cats.names, mirrored)
  {
    assert cats.names[..i + 1][..i] == cats.names[..i];
  }

  /** One iteration of the loop over the categories A. */
  method NOfNCategoryStep(mirrored: bool, i: nat, ghost c0: Cells, store: SetStore, cats: Categories)
    requires WellFormed(cats) && Sane(cats, c0) && i < |cats.names|
    requires store.Ordered() && store.cells == NOfN(cats, c0, cats.names[..i], mirrored)
    modifies store
    ensures store.Ordered() && store.order == old(store.order)
    ensures store.cells == NOfN(cats, c0, cats.names[..i + 1], mirrored)
  {
    NOfNSnoc(cats, c0, mirrored, i);
    ShrinksKeepsSane(cats, c0, store.cells);
    NOfNTargetsPass(cats.names[i], mirrored, store, cats);
  }

  /** n_of_n: the loop over the categories A. Mirrored, set_not_element
      also clears the group's values' cells (LogicPuzzle.py). */
  method NOfNPass(mirrored: bool, store: SetStore, cats: Categories)
    requires store.Valid(cats)
    modifies store
    ensures store.Valid(cats) && store.order == old(store.order)
    ensures store.cells == NOfN(cats, old(store.cells), cats.names, mirrored)
  {
    var i := 0;
    while i < |cats.names|
      invariant 0 <= i <= |cats.names|
      invariant store.Ordered() && store.order == old(store.order)
      invariant store.cells == NOfN(cats, old(store.cells), cats.names[..i], mirrored)
    {
      NOfNCategoryStep(mirrored, i, old(store.cells), store, cats);
      i := i + 1;
    }
    assert cats.names[..i] == cats.names;
    ShrinksKeepsSane(cats, old(store.cells), store.cells);
  }
}
