/**
 * The module-level engine of Logic.py. Each function works on an explicitly
 * passed store (all_sets) and categories dictionary (all_categories) and
 * changes the store in place; each method here is proved to leave the
 * store as the corresponding specification function says.
 */
module Logic {
  import opened Grid
  import opened Clues
  import opened Multi

  /** Replacing a cell by a subset of itself keeps the store sane. */
  lemma SaneAfterShrink(cats: Categories, c: Cells, k: Key, s: set<Value>)
    requires Sane(cats, c) && k in c && s <= c[k]
    ensures Sane(cats, c[k := s]) && Shrinks(c, c[k := s])
  {
    ShrinksKeepsSane(cats, c, c[k := s]);
  }

  /** Shrinking cells keeps every key of the grid present. */
  lemma ShrinksKeepsComplete(cats: Categories, c: Cells, c': Cells)
    requires Complete(cats, c) && Shrinks(c, c')
    ensures Complete(cats, c')
  {
    forall k | IsKey(cats, k)
      ensures k in c'
    {
      assert k in c;
    }
  }

  /** The state of the loop of ExcludeOthersPass after the values done. */
  ghost predicate ExcludePartial(c0: Cells, c: Cells, ca: Name, a: Value, cb: Name, b: Value, done: seq<Value>) {
    && c.Keys == c0.Keys
    && forall k :: k in c0 ==>
         c[k] == if k.catA == ca && k.catB == cb && k.elA in done && k.elA != a then ExcludeElement(c0[k], b)
                 else c0[k]
  }

  lemma ExcludePartialStep(c0: Cells, c: Cells, c': Cells, ca: Name, a: Value, cb: Name, b: Value,
                           done: seq<Value>, el: Value)
    requires ExcludePartial(c0, c, ca, a, cb, b, done)
    requires el == a ==> c' == c
    requires el != a ==> Key(ca, el, cb) in c && c' == c[Key(ca, el, cb) := ExcludeElement(c[Key(ca, el, cb)], b)]
    ensures ExcludePartial(c0, c', ca, a, cb, b, done + [el])
  {
    forall k | k in c0
      ensures c'[k] == if k.catA == ca && k.catB == cb && k.elA in done + [el] && k.elA != a
                       then ExcludeElement(c0[k], b) else c0[k]
    {
      assert k.elA in done + [el] <==> k.elA in done || k.elA == el;
    }
  }

  /** Once the loop has visited every value of A, the store is
      ExcludeOthers of the store it started from. */
  lemma ExcludePartialDone(cats: Categories, c0: Cells, c: Cells, ca: Name, a: Value, cb: Name, b: Value)
    requires ca in cats.members && ExcludePartial(c0, c, ca, a, cb, b, cats.members[ca])
    ensures c == ExcludeOthers(cats, c0, ca, a, cb, b)
  {
    var r := ExcludeOthers(cats, c0, ca, a, cb, b);
    forall k | k in c0
      ensures c[k] == r[k]
    {
    }
  }

  /** The loop shared by set_element and exclude_solved: every value of A
      other than a loses b from its cell on B. */
  method ExcludeOthersPass(ca: Name, a: Value, cb: Name, b: Value, store: SetStore, cats: Categories)
    requires store.Ordered() && ca in cats.members
    requires forall x :: x in cats.members[ca] ==> Key(ca, x, cb) in store.cells
    modifies store
    ensures store.Ordered() && store.order == old(store.order)
    ensures store.cells == ExcludeOthers(cats, old(store.cells), ca, a, cb, b)
  {
    var allA := cats.members[ca];
    ghost var c0 := store.cells;
    var i := 0;
    while i < |allA|
      invariant 0 <= i <= |allA|
      invariant store.Ordered() && store.order == old(store.order)
      invariant ExcludePartial(c0, store.cells, ca, a, cb, b, allA[..i])
    {
      var el := allA[i];
      PrefixSnoc(allA, i);
      ghost var before := store.cells;
      if el != a {
        var k := Key(ca, el, cb);
        store.Put(k, ExcludeElement(store.cells[k], b));
      }
      ExcludePartialStep(c0, before, store.cells, ca, a, cb, b, allA[..i], el);
      i := i + 1;
    }
    assert allA[..i] == allA;
    ExcludePartialDone(cats, c0, store.cells, ca, a, cb, b);
  }

  /** One pass of set_element: a's cell on B is narrowed to b and every
      other value of A loses b there. */
  method BindPass(ca: Name, a: Value, cb: Name, b: Value, store: SetStore, cats: Categories)
    requires store.Ordered() && ca in cats.members && a in cats.members[ca]
    requires forall x :: x in cats.members[ca] ==> Key(ca, x, cb) in store.cells
    modifies store
    ensures store.Ordered() && store.order == old(store.order)
    ensures store.cells == BindOneWay(cats, old(store.cells), ca, a, cb, b)
  {
    var k := Key(ca, a, cb);
    store.Put(k, IsElement(store.cells[k], b));
    ExcludeOthersPass(ca, a, cb, b, store, cats);
  }

  /** set_element(a, b, inner_call): the pass for (a, b) and, unless this
      is the inner call, the pass for (b, a). Always returns True. */
  method SetElement(a: Value, b: Value, store: SetStore, cats: Categories, inner: bool) returns (r: bool)
    requires store.Valid(cats) && Known(cats, a) && Known(cats, b) && Cat(cats, a) != Cat(cats, b)
    modifies store
    ensures store.Valid(cats) && store.order == old(store.order)
    ensures store.cells == if inner then BindOneWay(cats, old(store.cells), Cat(cats, a), a, Cat(cats, b), b)
                           else Bind(cats, old(store.cells), Cat(cats, a), a, Cat(cats, b), b)
    ensures r
    decreases if inner then 0 else 1
  {
    var ca, cb := Cat(cats, a), Cat(cats, b);
    assert forall x :: x in cats.members[ca] ==> IsKey(cats, Key(ca, x, cb));
    BindPass(ca, a, cb, b, store, cats);
    ShrinksKeepsSane(cats, old(store.cells), store.cells);
    if !inner {
      var _ := SetElement(b, a, store, cats, true);
    }
    return true;
  }

  /** set_not_element(a, b): b leaves a's cell on B; the mirrored cell is
      not touched. Always returns True. */
  method SetNotElement(a: Value, b: Value, store: SetStore, cats: Categories) returns (r: bool)
    requires store.Valid(cats) && Known(cats, a) && Known(cats, b) && Cat(cats, a) != Cat(cats, b)
    modifies store
    ensures store.Valid(cats) && store.order == old(store.order)
    ensures store.cells == Remove(old(store.cells), Key(Cat(cats, a), a, Cat(cats, b)), b)
    ensures r
  {
    var k := Key(Cat(cats, a), a, Cat(cats, b));
    SaneAfterShrink(cats, store.cells, k, ExcludeElement(store.cells[k], b));
    store.Put(k, ExcludeElement(store.cells[k], b));
    return true;
  }

  /** The two exclusions of is_one_of and greater_than: b leaves a's cell
      on B, then a leaves b's cell on A. */
  method ExcludeBoth(ca: Name, a: Value, cb: Name, b: Value, store: SetStore)
    requires store.Ordered() && Key(ca, a, cb) in store.cells && Key(cb, b, ca) in store.cells
    modifies store
    ensures store.Ordered() && store.order == old(store.order)
    ensures store.cells == NotBoth(old(store.cells), ca, a, cb, b)
  {
    var kAB, kBA := Key(ca, a, cb), Key(cb, b, ca);
    store.Put(kAB, ExcludeElement(store.cells[kAB], b));
    store.Put(kBA, ExcludeElement(store.cells[kBA], a));
  }

  /** is_one_of(a, b, c): the clue "a is b or c" with a, b, c in three
      different categories. */
  method IsOneOf(a: Value, b: Value, v: Value, store: SetStore, cats: Categories) returns (r: bool)
    requires store.Valid(cats) && Known(cats, a) && Known(cats, b) && Known(cats, v)
    requires Cat(cats, a) != Cat(cats, b) && Cat(cats, a) != Cat(cats, v) && Cat(cats, b) != Cat(cats, v)
    modifies store
    ensures store.Valid(cats) && store.order == old(store.order)
    ensures (store.cells, r) == OneOf(cats, old(store.cells), Cat(cats, a), a, Cat(cats, b), b, Cat(cats, v), v)
  {
    var ca, cb, cc := Cat(cats, a), Cat(cats, b), Cat(cats, v);
    assert IsKey(cats, Key(ca, a, cb)) && IsKey(cats, Key(ca, a, cc));
    assert IsKey(cats, Key(cb, b, cc)) && IsKey(cats, Key(cc, v, cb));
    var setAB := store.cells[Key(ca, a, cb)];
    var setAC := store.cells[Key(ca, a, cc)];
    ExcludeBoth(cb, b, cc, v, store);
    ShrinksKeepsSane(cats, old(store.cells), store.cells);
    assert store.cells[Key(ca, a, cb)] == setAB && store.cells[Key(ca, a, cc)] == setAC;
    // len(set_AB & {b}) == 0 is b !in set_AB
    if b !in setAB {
      r := SetElement(a, v, store, cats, false);
    } else if v !in setAC {
      r := SetElement(a, b, store, cats, false);
    } else {
      r := false;
    }
  }

  /** One iteration of the inner loop of mutual_exclude: the j-th value. */
  method ExcludeRowStep(x: Value, els: seq<Value>, j: nat, ghost c0: Cells, store: SetStore, cats: Categories)
    requires j < |els| && Known(cats, x) && AllKnown(cats, els) && Complete(cats, c0)
    requires store.Ordered() && store.cells == ExcludeRow(cats, c0, x, els[..j])
    modifies store
    ensures store.Ordered() && store.order == old(store.order)
    ensures store.cells == ExcludeRow(cats, c0, x, els[..j + 1])
  {
    assert els[..j + 1][..j] == els[..j];
    var ca, cb := Cat(cats, x), Cat(cats, els[j]);
    if ca != cb {
      var k := Key(ca, x, cb);
      assert IsKey(cats, k);
      store.Put(k, ExcludeElement(store.cells[k], els[j]));
    }
  }

  /** The inner loop of mutual_exclude for one value x: x loses each value
      of els that lies in another category. */
  method ExcludeRowPass(x: Value, els: seq<Value>, store: SetStore, cats: Categories)
    requires store.Ordered() && Known(cats, x) && AllKnown(cats, els) && Complete(cats, store.cells)
    modifies store
    ensures store.Ordered() && store.order == old(store.order)
    ensures store.cells == ExcludeRow(cats, old(store.cells), x, els)
  {
    var j := 0;
    while j < |els|
      invariant 0 <= j <= |els|
      invariant store.Ordered() && store.order == old(store.order)
      invariant store.cells == ExcludeRow(cats, old(store.cells), x, els[..j])
    {
      ExcludeRowStep(x, els, j, old(store.cells), store, cats);
      j := j + 1;
    }
    assert els[..j] == els;
  }

  /** One iteration of the outer loop of mutual_exclude: the i-th value. */
  method MutualExcludeStep(els: seq<Value>, i: nat, ghost c0: Cells, store: SetStore, cats: Categories)
    requires i < |els| && AllKnown(cats, els) && Sane(cats, c0)
    requires store.Ordered() && store.cells == Multi.MutualExclude(cats, c0, els[..i], els)
    modifies store
    ensures store.Ordered() && store.order == old(store.order)
    ensures store.cells == Multi.MutualExclude(cats, c0, els[..i + 1], els)
  {
    assert els[..i + 1][..i] == els[..i];
    ShrinksKeepsComplete(cats, c0, store.cells);
    ExcludeRowPass(els[i], els, store, cats);
  }

  /** mutual_exclude(els): every value of els loses, on each other
      category, the values of els that belong to it. */
  method MutualExclude(els: seq<Value>, store: SetStore, cats: Categories)
    requires store.Valid(cats) && AllKnown(cats, els)
    modifies store
    ensures store.Valid(cats) && store.order == old(store.order)
    ensures store.cells == Multi.MutualExclude(cats, old(store.cells), els, els)
  {
    var i := 0;
    while i < |els|
      invariant 0 <= i <= |els|
      invariant store.Ordered() && store.order == old(store.order)
      invariant store.cells == Multi.MutualExclude(cats, old(store.cells), els[..i], els)
    {
      MutualExcludeStep(els, i, old(store.cells), store, cats);
      i := i + 1;
    }
    assert els[..i] == els;
    ShrinksKeepsSane(cats, old(store.cells), store.cells);
  }

  /** The loop of check_single_mapping: the cell of each x of xs on B is
      intersected with ys; a missing cell (an x of B itself) is a KeyError. */
  method NarrowToPass(xs: seq<Value>, cb: Name, ys: set<Value>, store: SetStore, cats: Categories)
    returns (r: Outcome<()>)
    requires store.Ordered() && AllKnown(cats, xs)
    modifies store
    ensures store.Ordered() && store.order == old(store.order)
    ensures r.Raised? <==> NarrowTo(cats, old(store.cells), xs, cb, ys).Raised?
    ensures r.Raised? ==> Shrinks(old(store.cells), store.cells)
    ensures r.Returned? ==> store.cells == NarrowTo(cats, old(store.cells), xs, cb, ys).value
  {
    var i := 0;
    while i < |xs|
      invariant 0 <= i <= |xs|
      invariant store.Ordered() && store.order == old(store.order)
      invariant NarrowTo(cats, old(store.cells), xs[..i], cb, ys) == Returned(store.cells)
    {
      var x := xs[i];
      var k := Key(Cat(cats, x), x, cb);
      PrefixSnoc(xs, i);
      if k !in store.cells {
        return Raised;
      }
      store.Put(k, store.cells[k] * ys);
      i := i + 1;
    }
    assert xs[..i] == xs;
    return Returned(());
  }

  /** check_single_mapping(xs, ys): when all of ys lie in one category B,
      each x of xs keeps on B only values listed in ys; a KeyError ends the
      call. */
  method CheckSingleMapping(xs: seq<Value>, ys: seq<Value>, store: SetStore, cats: Categories)
    returns (r: Outcome<()>)
    requires store.Valid(cats) && AllKnown(cats, xs) && AllKnown(cats, ys)
    modifies store
    ensures store.Valid(cats) && store.order == old(store.order)
    ensures r.Raised? <==> Multi.CheckSingleMapping(cats, old(store.cells), xs, ys).Raised?
    ensures r.Returned? ==> store.cells == Multi.CheckSingleMapping(cats, old(store.cells), xs, ys).value
  {
    var cs := set y | y in ys :: Cat(cats, y);
    r := Returned(());
    if |cs| == 1 {
      var cb := Only(cs);
      assert forall y :: y in ys ==> Cat(cats, y) in cs;
      var ys' := set y | y in ys;
      r := NarrowToPass(xs, cb, ys', store, cats);
    }
    ShrinksKeepsSane(cats, old(store.cells), store.cells);
  }

  /** categories_B of pair_categories: the categories of ys, each once. */
  method CategoriesB(ys: seq<Value>, cats: Categories) returns (cs: seq<Name>)
    requires AllKnown(cats, ys)
    ensures cs == CategoriesOf(cats, ys)
  {
    cs := [];
    var i := 0;
    while i < |ys|
      invariant 0 <= i <= |ys|
      invariant cs == CategoriesOf(cats, ys[..i])
    {
      var n := Cat(cats, ys[i]);
      PrefixSnoc(ys, i);
      if n !in cs {
        cs := cs + [n];
      }
      i := i + 1;
    }
    assert ys[..i] == ys;
  }

  /** The innermost loop of pair_categories: the union of the cells on cat
      of the other values of xs outside cat. */
  method SeedSet(xs: seq<Value>, x: Value, cat: Name, store: SetStore, cats: Categories) returns (seed: set<Value>)
    requires Complete(cats, store.cells) && AllKnown(cats, xs) && cat in cats.members
    ensures seed == Seed(cats, store.cells, xs, x, cat)
  {
    seed := {};
    var j := 0;
    while j < |xs|
      invariant 0 <= j <= |xs|
      invariant seed == Seed(cats, store.cells, xs[..j], x, cat)
    {
      var y := xs[j];
      PrefixSnoc(xs, j);
      if x != y {
        var cy := Cat(cats, y);
        if cy != cat {
          assert IsKey(cats, Key(cy, y, cat));
          seed := seed + store.cells[Key(cy, y, cat)];
        }
      }
      j := j + 1;
    }
    assert xs[..j] == xs;
  }

  /** One (x, cat) step of pair_categories. When aliased (Logic.py), the
      cell stored is the set res itself, so popping the paired value from
      res also removes it from the cell; LogicPuzzle.py stores a copy. */
  method PairStepOnce(xs: seq<Value>, ys: seq<Value>, x: Value, cat: Name, store: SetStore, cats: Categories,
                      aliased: bool) returns (ps: seq<(Value, Value)>)
    requires store.Ordered() && Complete(cats, store.cells)
    requires AllKnown(cats, xs) && Known(cats, x) && cat in cats.members
    modifies store
    ensures store.Ordered() && store.order == old(store.order)
    ensures (store.cells, ps) == PairStep(cats, old(store.cells), xs, ys, x, cat, aliased)
  {
    ps := [];
    var ca := Cat(cats, x);
    if cat != ca {
      var universal := Universal(cats, ys, cat);
      var seed := SeedSet(xs, x, cat, store, cats);
      seed := Complement(seed, universal);
      var k := Key(ca, x, cat);
      assert IsKey(cats, k);
      var res := store.cells[k] * seed;
      if |res| != 0 {
        store.Put(k, res);
        if |res| == 1 {
          var v := Only(res);
          ps := [(x, v)];
          if aliased {
            // the cell and res are one set: popping v empties both
            res := res - {v};
            assert res == {};
            store.Put(k, res);
            assert store.cells == old(store.cells)[k := {}];
          }
        }
      }
    }
  }

  /** The middle loop of pair_categories, over categories_B, for one x. */
  method PairRowPass(xs: seq<Value>, ys: seq<Value>, x: Value, cs: seq<Name>, store: SetStore, cats: Categories,
                     aliased: bool) returns (ps: seq<(Value, Value)>)
    requires store.Ordered() && Complete(cats, store.cells)
    requires AllKnown(cats, xs) && Known(cats, x) && forall n :: n in cs ==> n in cats.members
    modifies store
    ensures store.Ordered() && store.order == old(store.order)
    ensures (store.cells, ps) == PairRow(cats, old(store.cells), xs, ys, x, cs, aliased)
  {
    ps := [];
    var j := 0;
    while j < |cs|
      invariant 0 <= j <= |cs|
      invariant store.Ordered() && store.order == old(store.order)
      invariant (store.cells, ps) == PairRow(cats, old(store.cells), xs, ys, x, cs[..j], aliased)
    {
      PrefixSnoc(cs, j);
      var qs := PairStepOnce(xs, ys, x, cs[j], store, cats, aliased);
      ps := ps + qs;
      j := j + 1;
    }
    assert cs[..j] == cs;
  }

  /** pair_categories(xs, ys); aliased as Logic.py writes it, a copy as
      LogicPuzzle.py does. */
  method PairCategories(xs: seq<Value>, ys: seq<Value>, store: SetStore, cats: Categories, aliased: bool)
    returns (pairs: seq<(Value, Value)>)
    requires store.Valid(cats) && AllKnown(cats, xs) && AllKnown(cats, ys)
    modifies store
    ensures store.Valid(cats) && store.order == old(store.order)
    ensures (store.cells, pairs) == Multi.PairCategories(cats, old(store.cells), xs, ys, aliased)
  {
    var cs := CategoriesB(ys, cats);
    assert forall n :: n in cs ==> n in cats.members;
    pairs := [];
    var i := 0;
    while i < |xs|
      invariant 0 <= i <= |xs|
      invariant store.Ordered() && store.order == old(store.order)
      invariant (store.cells, pairs) == PairAll(cats, old(store.cells), xs, ys, xs[..i], cs, aliased)
    {
      PrefixSnoc(xs, i);
      var qs := PairRowPass(xs, ys, xs[i], cs, store, cats, aliased);
      pairs := pairs + qs;
      i := i + 1;
    }
    assert xs[..i] == xs;
    ShrinksKeepsSane(cats, old(store.cells), store.cells);
  }

  /** The loop of remove_pairs: each pairing's two values leave the two
      lists (list.remove fails with ValueError on a missing value). */
  method RemoveAllPass(xs: seq<Value>, ys: seq<Value>, pairs: seq<(Value, Value)>)
    returns (r: Option<(seq<Value>, seq<Value>)>)
    ensures r == RemoveAll(xs, ys, pairs)
  {
    var as_, bs := xs, ys;
    var i := 0;
    while i < |pairs|
      invariant 0 <= i <= |pairs|
      invariant RemoveAll(xs, ys, pairs[..i]) == Some((as_, bs))
    {
      assert pairs[..i + 1][..i] == pairs[..i];
      var ra := RemoveFirst(as_, pairs[i].0);
      if ra.None? {
        RemoveAllStuck(xs, ys, pairs, i + 1);
        return None;
      }
      var rb := RemoveFirst(bs, pairs[i].1);
      if rb.None? {
        RemoveAllStuck(xs, ys, pairs, i + 1);
        return None;
      }
      as_, bs := ra.value, rb.value;
      i := i + 1;
    }
    assert pairs[..i] == pairs;
    return Some((as_, bs));
  }

  /** remove_pairs(xs, ys, pairs): the paired values leave the two lists;
      returns whether the clue is used up, binding the last two values one
      way when one is left in each list. */
  method RemovePairs(xs: seq<Value>, ys: seq<Value>, pairs: seq<(Value, Value)>, store: SetStore, cats: Categories)
    returns (r: Outcome<(seq<Value>, seq<Value>, bool)>)
    requires store.Valid(cats) && AllKnown(cats, xs) && AllKnown(cats, ys)
    modifies store
    ensures store.Valid(cats) && store.order == old(store.order)
    ensures r.Raised? <==> Multi.RemovePairs(cats, old(store.cells), xs, ys, pairs).Raised?
    ensures r.Returned? ==> var s := Multi.RemovePairs(cats, old(store.cells), xs, ys, pairs).value;
      store.cells == s.0 && r.value == (s.1, s.2, s.3)
  {
    var rem := RemoveAllPass(xs, ys, pairs);
    if rem.None? {
      return Raised;
    }
    var as_, bs := rem.value.0, rem.value.1;
    if |as_| == 0 && |bs| == 0 {
      return Returned((as_, bs, true));
    } else if |as_| == 1 && |bs| == 1 {
      var a, b := as_[0], bs[0];
      var k := Key(Cat(cats, a), a, Cat(cats, b));
      if k !in store.cells {
        return Raised;
      }
      SaneAfterShrink(cats, store.cells, k, IsElement(store.cells[k], b));
      store.Put(k, IsElement(store.cells[k], b));
      return Returned(([], [], true));
    }
    return Returned((as_, bs, false));
  }

  /** multi_is_one_of(xs, ys): returns the lists as the call leaves them and
      whether the clue is used up; aliased selects Logic.py's pair_categories.
      With a value that no category lists, the steps build a key from None
      (KeyError) exactly when UnknownMisses holds, and otherwise touch no
      cell, so that case is decided before the steps run. */
  method MultiIsOneOf(xs: seq<Value>, ys: seq<Value>, store: SetStore, cats: Categories, aliased: bool)
    returns (r: Outcome<(seq<Value>, seq<Value>, bool)>)
    requires store.Valid(cats)
    modifies store
    ensures store.Valid(cats) && store.order == old(store.order)
    ensures r.Raised? <==> Multi.MultiIsOneOf(cats, old(store.cells), xs, ys, aliased).Raised?
    ensures r.Returned? ==> var s := Multi.MultiIsOneOf(cats, old(store.cells), xs, ys, aliased).value;
      store.cells == s.0 && r.value == (s.1, s.2, s.3)
  {
    if !(AllKnown(cats, xs) && AllKnown(cats, ys)) {
      if UnknownMisses(cats, xs, ys) {
        return Raised;
      }
      return Returned((xs, ys, false));
    }
    MutualExclude(xs, store, cats);
    MutualExclude(ys, store, cats);
    var ok := CheckSingleMapping(xs, ys, store, cats);
    if ok.Raised? {
      return Raised;
    }
    var pairs := PairCategories(xs, ys, store, cats, aliased);
    r := RemovePairs(xs, ys, pairs, store, cats);
  }

  /** The narrowing half of greater_than: the two cells on C are read,
      narrowed and written back. A missing cell or an empty set handed to
      min or max raises. */
  method NarrowPass(kA: Key, kB: Key, store: SetStore, offset: Option<int>) returns (r: Outcome<bool>)
    requires store.Ordered()
    modifies store
    ensures store.Ordered() && store.order == old(store.order)
    ensures r.Raised? <==> NarrowCells(old(store.cells), kA, kB, offset).Raised?
    ensures r.Raised? ==> store.cells == old(store.cells)
    ensures r.Returned? ==>
      store.cells == NarrowCells(old(store.cells), kA, kB, offset).value.0 &&
      r.value == NarrowCells(old(store.cells), kA, kB, offset).value.1
  {
    if kA !in store.cells || kB !in store.cells {
      return Raised;
    }
    var setA, setB := store.cells[kA], store.cells[kB];
    var narrowed := Narrow(setA, setB, offset);
    if narrowed.Raised? {
      return Raised;
    }
    var setA', setB' := narrowed.value.0, narrowed.value.1;
    store.Put(kA, setA');
    store.Put(kB, setB');
    return Returned(|setA'| == 1 || |setB'| == 1);
  }

  /** greater_than(a, b, C, value): a's number on C exceeds b's (by exactly
      value when given). Returns Raised where min or max is taken of an
      empty set, after a and b have been excluded from each other. The two
      cells on C are read after the exclusion, which touches neither. */
  method GreaterThan(a: Value, b: Value, cc: Name, store: SetStore, cats: Categories, offset: Option<int>)
    returns (r: Outcome<bool>)
    requires store.Valid(cats) && Known(cats, a) && Known(cats, b) && cc in cats.members
    requires cc != Cat(cats, a) && cc != Cat(cats, b)
    modifies store
    ensures store.Valid(cats) && store.order == old(store.order)
    ensures var s := Clues.GreaterThan(cats, old(store.cells), Cat(cats, a), a, Cat(cats, b), b, cc, offset, false);
      && (r.Raised? <==> s.Raised?)
      && (r.Returned? ==> store.cells == s.value.0 && r.value == s.value.1)
  {
    var ca, cb := Cat(cats, a), Cat(cats, b);
    if ca != cb {
      assert IsKey(cats, Key(ca, a, cb)) && IsKey(cats, Key(cb, b, ca));
      ExcludeBoth(ca, a, cb, b, store);
    }
    ghost var c1 := store.cells;
    r := NarrowPass(Key(ca, a, cc), Key(cb, b, cc), store, offset);
    ShrinksTransitive(old(store.cells), c1, store.cells);
    ShrinksKeepsSane(cats, old(store.cells), store.cells);
  }
}
