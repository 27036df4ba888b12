/**
 * The inference sweeps of both versions of the engine, as functions of the
 * cells before the sweep. A sweep over `for key in sets` is a left fold of
 * one step per key, in the store's key order; a sweep over categories and
 * values is a nest of folds, one per loop. Each step reads the cells as the
 * earlier steps left them, as the loops do.
 */
module Sweeps {
  import opened Grid
  import opened Clues

  // chain_relation (LogicPuzzle.py) -----------------------------------------

  /** One category C of chain_relation for a solved cell (A, a, B) = {b}:
      a's and b's cells on C both become their intersection. */
  ghost function ChainPair(c: Cells, ca: Name, a: Value, cb: Name, b: Value, cc: Name): (r: Cells)
    ensures Shrinks(c, r)
    ensures Key(ca, a, cc) in c && Key(cb, b, cc) in c && Key(ca, a, cc) != Key(cb, b, cc) ==>
      && r[Key(ca, a, cc)] == r[Key(cb, b, cc)]
      && (forall x :: x in r[Key(ca, a, cc)] <==> x in c[Key(ca, a, cc)] && x in c[Key(cb, b, cc)])
    ensures forall k :: k in c && k != Key(ca, a, cc) && k != Key(cb, b, cc) ==> r[k] == c[k]
  {
    var kA, kB := Key(ca, a, cc), Key(cb, b, cc);
    if kA in c && kB in c then
      var combo := c[kA] * c[kB];
      c[kA := combo][kB := combo]
    else c
  }

  /** The loop of chain_relation over the categories ns for the solved cell
      k = {b}; categories A and B are skipped. */
  ghost function ChainRelationCats(c: Cells, k: Key, b: Value, ns: seq<Name>): (r: Cells)
    ensures Shrinks(c, r)
    decreases |ns|
  {
    if ns == [] then c
    else
      var c' := ChainRelationCats(c, k, b, ns[..|ns| - 1]);
      var cc := ns[|ns| - 1];
      if cc != k.catA && cc != k.catB then
        ShrinksTransitive(c, c', ChainPair(c', k.catA, k.elA, k.catB, b, cc));
        ChainPair(c', k.catA, k.elA, k.catB, b, cc)
      else c'
  }

  // chain_sets (Logic.py) ---------------------------------------------------

  /** The union of the cells on C of the values in s of category B
      (set_BC in chain_sets). */
  ghost function UnionOn(c: Cells, cb: Name, s: set<Value>, cc: Name): (r: set<Value>)
    ensures forall x :: x in r <==> exists y :: y in s && Key(cb, y, cc) in c && x in c[Key(cb, y, cc)]
  {
    set y, x | y in s && Key(cb, y, cc) in c && x in c[Key(cb, y, cc)] :: x
  }

  /** One category C of chain_sets for the cell (A, a, B), whose values
      els_B were read when the key was reached: a's cell on C keeps only
      values that some candidate b of a on B can still take on C. */
  ghost function ChainThrough(c: Cells, ca: Name, a: Value, cb: Name, els: set<Value>, cc: Name): (r: Cells)
    ensures Shrinks(c, r)
    ensures Key(ca, a, cc) in c ==> forall x ::
      x in r[Key(ca, a, cc)] <==>
        x in c[Key(ca, a, cc)] && exists y :: y in els && Key(cb, y, cc) in c && x in c[Key(cb, y, cc)]
    ensures forall k :: k in c && k != Key(ca, a, cc) ==> r[k] == c[k]
  {
    var kC := Key(ca, a, cc);
    if kC in c then c[kC := c[kC] * UnionOn(c, cb, els, cc)] else c
  }

  /** The loop of chain_sets over the categories ns for the cell k, whose
      values were els. */
  ghost function ChainSetsCats(c: Cells, k: Key, els: set<Value>, ns: seq<Name>): (r: Cells)
    ensures Shrinks(c, r)
    decreases |ns|
  {
    if ns == [] then c
    else
      var c' := ChainSetsCats(c, k, els, ns[..|ns| - 1]);
      var cc := ns[|ns| - 1];
      if cc != k.catA && cc != k.catB then
        ShrinksTransitive(c, c', ChainThrough(c', k.catA, k.elA, k.catB, els, cc));
        ChainThrough(c', k.catA, k.elA, k.catB, els, cc)
      else c'
  }

  // remove_chain_exclusion (Logic.py) ---------------------------------------

  /** The loop of remove_chain_exclusion over the categories ns for the
      solved cell k = {b}: every value of C that a's cell on C has lost
      loses b from its cell on B. */
  ghost function RemoveChainCats(cats: Categories, c: Cells, k: Key, b: Value, ns: seq<Name>): (r: Cells)
    requires forall n :: n in ns ==> n in cats.members
    ensures Shrinks(c, r)
    decreases |ns|
  {
    if ns == [] then c
    else
      var c' := RemoveChainCats(cats, c, k, b, ns[..|ns| - 1]);
      var cc := ns[|ns| - 1];
      if cc != k.catA && cc != k.catB then
        ShrinksTransitive(c, c', ExcludeFromMissing(cats, c', k.catA, k.elA, cc, k.catB, b));
        ExcludeFromMissing(cats, c', k.catA, k.elA, cc, k.catB, b)
      else c'
  }

  // sweeps over the keys of the store ---------------------------------------

  /** The sweeps that visit every key of the store in order. */
  datatype KeySweep =
    | BindSymmetric        // symmetrize of LogicPuzzle.py: set_element(b, a)
    | WriteSymmetric       // symmetrize of Logic.py: sets[(B, b, A)] = {a}
    | ChainRelation        // chain_relation of LogicPuzzle.py
    | ChainSets            // chain_sets of Logic.py
    | ExcludeSolved        // exclude_solved of Logic.py
    | RemoveChainExclusion // remove_chain_exclusion of Logic.py

  /** What the sweep does for the key k. Keys outside the grid's categories
      are not in a sane store and are left alone. */
  ghost function KeyStep(sweep: KeySweep, cats: Categories, c: Cells, k: Key): (r: Cells)
    ensures sweep != WriteSymmetric ==> Shrinks(c, r)
  {
    if k !in c || k.catA !in cats.members || k.catB !in cats.members || !WellFormed(cats) then c
    else
      var solved := |c[k]| == 1;
      match sweep
      case BindSymmetric =>
        if solved then Bind(cats, c, k.catB, Only(c[k]), k.catA, k.elA) else c
      case WriteSymmetric =>
        if solved then c[Key(k.catB, Only(c[k]), k.catA) := {k.elA}] else c
      case ChainRelation =>
        if solved then ChainRelationCats(c, k, Only(c[k]), cats.names) else c
      case ChainSets =>
        ChainSetsCats(c, k, c[k], cats.names)
      case ExcludeSolved =>
        if solved then ExcludeOthers(cats, c, k.catA, k.elA, k.catB, Only(c[k])) else c
      case RemoveChainExclusion =>
        if solved then
          assert forall n :: n in cats.names ==> n in cats.members;
          RemoveChainCats(cats, c, k, Only(c[k]), cats.names)
        else c
  }

  /** Overwriting the cell of a key of the grid with values of its second
      category keeps the store sane. */
  lemma PutKeepsSane(cats: Categories, c: Cells, k: Key, s: set<Value>)
    requires Sane(cats, c) && IsKey(cats, k) && forall v :: v in s ==> v in cats.members[k.catB]
    ensures Sane(cats, c[k := s])
  {
  }

  /** Every step keeps a sane store sane; for WriteSymmetric, because the
      mirror of a solved cell is a key of the grid and a is a value of A. */
  lemma KeyStepKeepsSane(sweep: KeySweep, cats: Categories, c: Cells, k: Key)
    requires Sane(cats, c)
    ensures Sane(cats, KeyStep(sweep, cats, c, k))
  {
    if sweep == WriteSymmetric {
      if k in c && k.catA in cats.members && k.catB in cats.members && WellFormed(cats) && |c[k]| == 1 {
        var b := Only(c[k]);
        assert b in c[k];
        assert IsKey(cats, Key(k.catB, b, k.catA));
        PutKeepsSane(cats, c, Key(k.catB, b, k.catA), {k.elA});
      }
    } else {
      ShrinksKeepsSane(cats, c, KeyStep(sweep, cats, c, k));
    }
  }

  /** The sweep over the keys ks, in order. */
  ghost function KeyFold(sweep: KeySweep, cats: Categories, c: Cells, ks: seq<Key>): (r: Cells)
    ensures sweep != WriteSymmetric ==> Shrinks(c, r)
    decreases |ks|
  {
    if ks == [] then c
    else
      var c' := KeyFold(sweep, cats, c, ks[..|ks| - 1]);
      var r := KeyStep(sweep, cats, c', ks[|ks| - 1]);
      assert sweep != WriteSymmetric ==> Shrinks(c, r) by {
        if sweep != WriteSymmetric { ShrinksTransitive(c, c', r); }
      }
      r
  }

  /** Every sweep over the keys keeps a sane store sane. */
  lemma {:induction false} KeyFoldKeepsSane(sweep: KeySweep, cats: Categories, c: Cells, ks: seq<Key>)
    requires Sane(cats, c)
    ensures Sane(cats, KeyFold(sweep, cats, c, ks))
    decreases |ks|
  {
    if ks != [] {
      KeyFoldKeepsSane(sweep, cats, c, ks[..|ks| - 1]);
      KeyStepKeepsSane(sweep, cats, KeyFold(sweep, cats, c, ks[..|ks| - 1]), ks[|ks| - 1]);
    }
  }

  // solve_singleton (Logic.py) ----------------------------------------------

  /** other_set of solve_singleton: the union of the cells on B of the
      values in els other than a. */
  ghost function OthersOn(c: Cells, ca: Name, a: Value, cb: Name, els: seq<Value>): (r: set<Value>)
    ensures forall y :: y in els && y != a && Key(ca, y, cb) in c ==> c[Key(ca, y, cb)] <= r
    ensures forall x :: x in r ==> exists y :: y in els && y != a && Key(ca, y, cb) in c && x in c[Key(ca, y, cb)]
    decreases |els|
  {
    if els == [] then {}
    else
      var y := els[|els| - 1];
      var k := Key(ca, y, cb);
      assert forall y' :: y' in els ==> y' in els[..|els| - 1] || y' == y;
      OthersOn(c, ca, a, cb, els[..|els| - 1]) + (if y != a && k in c then c[k] else {})
  }

  /** solve_singleton(A, a, B): when exactly one candidate of a on B is in
      no other value's cell on B, a is bound to it. */
  ghost function SolveSingleton(cats: Categories, c: Cells, ca: Name, a: Value, cb: Name): (r: Cells)
    requires ca in cats.members && cb in cats.members
    ensures Shrinks(c, r)
  {
    var k := Key(ca, a, cb);
    if k !in c then c
    else
      var remaining := Complement(c[k] * OthersOn(c, ca, a, cb, cats.members[ca]), c[k]);
      if |remaining| == 1 then Bind(cats, c, ca, a, cb, Only(remaining)) else c
  }

  // sweeps over (A, a, B) ---------------------------------------------------

  /** The sweeps that visit, for each category A, each value a of A and
      each other category B. */
  datatype CellSweep =
    | ReturnExclusionAll   // return_exclusion_all of LogicPuzzle.py
    | SolveAllSingleton    // solve_all_singleton of Logic.py

  ghost function CellStep(sweep: CellSweep, cats: Categories, c: Cells, ca: Name, a: Value, cb: Name): (r: Cells)
    requires ca in cats.members && cb in cats.members
    ensures Shrinks(c, r)
  {
    match sweep
    case ReturnExclusionAll => ReturnExclusion(cats, c, ca, a, cb)
    case SolveAllSingleton => SolveSingleton(cats, c, ca, a, cb)
  }

  /** The innermost loop, over the categories bs for the value a of A. */
  ghost function OverTargets(sweep: CellSweep, cats: Categories, c: Cells, ca: Name, a: Value, bs: seq<Name>)
    : (r: Cells)
    requires ca in cats.members && forall n :: n in bs ==> n in cats.members
    ensures Shrinks(c, r)
    decreases |bs|
  {
    if bs == [] then c
    else
      var c' := OverTargets(sweep, cats, c, ca, a, bs[..|bs| - 1]);
      var cb := bs[|bs| - 1];
      if ca != cb then
        ShrinksTransitive(c, c', CellStep(sweep, cats, c', ca, a, cb));
        CellStep(sweep, cats, c', ca, a, cb)
      else c'
  }

  /** The middle loop, over the values els of A. */
  ghost function OverValues(sweep: CellSweep, cats: Categories, c: Cells, ca: Name, els: seq<Value>): (r: Cells)
    requires ca in cats.members && forall n :: n in cats.names ==> n in cats.members
    ensures Shrinks(c, r)
    decreases |els|
  {
    if els == [] then c
    else
      var c' := OverValues(sweep, cats, c, ca, els[..|els| - 1]);
      var r := OverTargets(sweep, cats, c', ca, els[|els| - 1], cats.names);
      ShrinksTransitive(c, c', r);
      r
  }

  /** The outer loop, over the categories cs. */
  ghost function OverCategories(sweep: CellSweep, cats: Categories, c: Cells, cs: seq<Name>): (r: Cells)
    requires forall n :: n in cats.names ==> n in cats.members
    requires forall n :: n in cs ==> n in cats.members
    ensures Shrinks(c, r)
    decreases |cs|
  {
    if cs == [] then c
    else
      var c' := OverCategories(sweep, cats, c, cs[..|cs| - 1]);
      var ca := cs[|cs| - 1];
      var r := OverValues(sweep, cats, c', ca, cats.members[ca]);
      ShrinksTransitive(c, c', r);
      r
  }

  // n_of_n and exclude_n_of_n -----------------------------------------------

  /** same in n_of_n: x followed by every other value of els whose cell on
      B equals x's. */
  ghost function SameAs(c: Cells, ca: Name, x: Value, cb: Name, els: seq<Value>): (r: seq<Value>)
    requires Key(ca, x, cb) in c
    ensures forall y :: y in r ==> y in els || y == x
    ensures forall y :: y in els && y != x && Key(ca, y, cb) in c && c[Key(ca, y, cb)] == c[Key(ca, x, cb)] ==> y in r
    ensures forall y :: y in r && y != x ==> Key(ca, y, cb) in c && c[Key(ca, y, cb)] == c[Key(ca, x, cb)]
    ensures |r| >= 1 && r[0] == x
    decreases |els|
  {
    if els == [] then [x]
    else
      var r := SameAs(c, ca, x, cb, els[..|els| - 1]);
      var y := els[|els| - 1];
      assert forall y' :: y' in els ==> y' in els[..|els| - 1] || y' == y;
      var k := Key(ca, y, cb);
      if y != x && k in c && c[k] == c[Key(ca, x, cb)] then r + [y] else r
  }

  /** One value x outside the group in exclude_n_of_n: x loses every value
      of s from its cell on B and, when mirrored (LogicPuzzle.py's two-way
      set_not_element), each value of s loses x from its cell on A. */
  ghost function ExcludeSet(c: Cells, ca: Name, x: Value, cb: Name, s: set<Value>, mirrored: bool): (r: Cells)
    ensures Shrinks(c, r)
    ensures Key(ca, x, cb) in c && ca != cb ==> r[Key(ca, x, cb)] == c[Key(ca, x, cb)] - s
    ensures mirrored && ca != cb ==> forall y :: y in s && Key(cb, y, ca) in c ==> r[Key(cb, y, ca)] == c[Key(cb, y, ca)] - {x}
    ensures forall k :: k in c && k != Key(ca, x, cb) && !(mirrored && k.catA == cb && k.catB == ca && k.elA in s) ==>
      r[k] == c[k]
  {
    map k | k in c ::
      if k == Key(ca, x, cb) then c[k] - s
      else if mirrored && k.catA == cb && k.catB == ca && k.elA in s then c[k] - {x}
      else c[k]
  }

  /** exclude_n_of_n(same, s, A, B) over the values els of A. */
  ghost function ExcludeGroup(c: Cells, ca: Name, cb: Name, same: seq<Value>, s: set<Value>, els: seq<Value>,
                              mirrored: bool): (r: Cells)
    ensures Shrinks(c, r)
    ensures ca != cb ==> forall x :: x in els && x !in same && Key(ca, x, cb) in c ==> r[Key(ca, x, cb)] !! s
    decreases |els|
  {
    if els == [] then c
    else
      var c' := ExcludeGroup(c, ca, cb, same, s, els[..|els| - 1], mirrored);
      var x := els[|els| - 1];
      assert forall x' :: x' in els ==> x' in els[..|els| - 1] || x' == x;
      if x !in same then
        var r := ExcludeSet(c', ca, x, cb, s, mirrored);
        ShrinksTransitive(c, c', r);
        ExcludeGroupKeeps(c', r, ca, cb, x, s, mirrored);
        r
      else c'
  }

  /** A later ExcludeSet never puts values back: a cell that shares nothing
      with s still shares nothing with it. */
  lemma ExcludeGroupKeeps(c: Cells, r: Cells, ca: Name, cb: Name, x: Value, s: set<Value>, mirrored: bool)
    requires r == ExcludeSet(c, ca, x, cb, s, mirrored)
    ensures forall k :: k in c && c[k] !! s ==> r[k] !! s
  {
  }

  /** One value x of A in n_of_n: when the group of values whose cell on B
      equals x's has as many members as that cell has values, and that
      number is not the number of categories, the values outside the group
      lose the cell's values. */
  ghost function NOfNStep(cats: Categories, c: Cells, ca: Name, cb: Name, x: Value, mirrored: bool): (r: Cells)
    requires ca in cats.members
    ensures Shrinks(c, r)
  {
    var k := Key(ca, x, cb);
    if k !in c then c
    else
      var s := c[k];
      var same := SameAs(c, ca, x, cb, cats.members[ca]);
      if |same| != |cats.names| && |same| == |s| then ExcludeGroup(c, ca, cb, same, s, cats.members[ca], mirrored)
      else c
  }

  /** The loop of n_of_n over the values xs of A, for one B. */
  ghost function NOfNValues(cats: Categories, c: Cells, ca: Name, cb: Name, xs: seq<Value>, mirrored: bool)
    : (r: Cells)
    requires ca in cats.members
    ensures Shrinks(c, r)
    decreases |xs|
  {
    if xs == [] then c
    else
      var c' := NOfNValues(cats, c, ca, cb, xs[..|xs| - 1], mirrored);
      var r := NOfNStep(cats, c', ca, cb, xs[|xs| - 1], mirrored);
      ShrinksTransitive(c, c', r);
      r
  }

  /** The loop of n_of_n over the categories bs, for one A. */
  ghost function NOfNTargets(cats: Categories, c: Cells, ca: Name, bs: seq<Name>, mirrored: bool): (r: Cells)
    requires ca in cats.members
    ensures Shrinks(c, r)
    decreases |bs|
  {
    if bs == [] then c
    else
      var c' := NOfNTargets(cats, c, ca, bs[..|bs| - 1], mirrored);
      var cb := bs[|bs| - 1];
      if ca != cb then
        var r := NOfNValues(cats, c', ca, cb, cats.members[ca], mirrored);
        ShrinksTransitive(c, c', r);
        r
      else c'
  }

  /** n_of_n, its outer loop run over the categories as. */
  ghost function NOfN(cats: Categories, c: Cells, as_: seq<Name>, mirrored: bool): (r: Cells)
    requires forall n :: n in as_ ==> n in cats.members
    ensures Shrinks(c, r)
    decreases |as_|
  {
    if as_ == [] then c
    else
      var c' := NOfN(cats, c, as_[..|as_| - 1], mirrored);
      var r := NOfNTargets(cats, c', as_[|as_| - 1], cats.names, mirrored);
      ShrinksTransitive(c, c', r);
      r
  }
}
