/**
 * The clue "each of xs is one of ys" (multi_is_one_of) and its four
 * helpers, as functions of the cells and the two lists before the call.
 * The lists belong to the clue and the helpers shorten them in place, so
 * the shortened lists are part of the result.
 */
module Multi {
  import opened Grid
  import opened Clues

  predicate AllKnown(cats: Categories, s: seq<Value>) {
    forall e :: e in s ==> Known(cats, e)
  }

  // mutual_exclude ----------------------------------------------------------

  /** One step of mutual_exclude: x loses y on y's category when the two
      categories differ. */
  ghost function ExcludePair(cats: Categories, c: Cells, x: Value, y: Value): (r: Cells)
    requires Known(cats, x) && Known(cats, y)
    ensures Shrinks(c, r)
  {
    if Cat(cats, x) != Cat(cats, y) then Remove(c, Key(Cat(cats, x), x, Cat(cats, y)), y) else c
  }

  /** The inner loop of mutual_exclude for one x over the values ys. */
  ghost function ExcludeRow(cats: Categories, c: Cells, x: Value, ys: seq<Value>): (r: Cells)
    requires Known(cats, x) && AllKnown(cats, ys)
    ensures Shrinks(c, r)
    decreases |ys|
  {
    if ys == [] then c
    else
      var c' := ExcludeRow(cats, c, x, ys[..|ys| - 1]);
      var r := ExcludePair(cats, c', x, ys[|ys| - 1]);
      assert forall y :: y in ys ==> y in ys[..|ys| - 1] || y == ys[|ys| - 1];
      r
  }

  /** After the inner loop, x's cell on the category of each y of ys (in
      another category) no longer holds y. */
  lemma {:induction false} ExcludeRowExcludes(cats: Categories, c: Cells, x: Value, ys: seq<Value>)
    requires Known(cats, x) && AllKnown(cats, ys)
    ensures var r := ExcludeRow(cats, c, x, ys);
      forall y :: y in ys && Cat(cats, x) != Cat(cats, y) && Key(Cat(cats, x), x, Cat(cats, y)) in c ==>
        y !in r[Key(Cat(cats, x), x, Cat(cats, y))]
    decreases |ys|
  {
    if ys != [] {
      var init := ys[..|ys| - 1];
      assert forall y :: y in ys ==> y in init || y == ys[|ys| - 1];
      ExcludeRowExcludes(cats, c, x, init);
    }
  }

  /** The values of ys that x loses from its cell on cb: those of category
      cb, when cb is not x's own category. */
  ghost function RowLoss(cats: Categories, x: Value, ys: seq<Value>, cb: Name): set<Value>
    requires Known(cats, x) && AllKnown(cats, ys)
  {
    set y | y in ys && Cat(cats, y) == cb && cb != Cat(cats, x)
  }

  /** The inner loop of mutual_exclude, cell by cell: x's cell on each
      category loses exactly the values of ys of that category, and every
      cell not of x is unchanged. */
  lemma {:induction false} ExcludeRowCells(cats: Categories, c: Cells, x: Value, ys: seq<Value>)
    requires Known(cats, x) && AllKnown(cats, ys)
    ensures var r := ExcludeRow(cats, c, x, ys);
      forall k :: k in c ==>
        r[k] == if k.catA == Cat(cats, x) && k.elA == x then c[k] - RowLoss(cats, x, ys, k.catB) else c[k]
    decreases |ys|
  {
    if ys != [] {
      var init := ys[..|ys| - 1];
      var y := ys[|ys| - 1];
      assert forall y' :: y' in ys <==> y' in init || y' == y;
      ExcludeRowCells(cats, c, x, init);
      forall cb
        ensures RowLoss(cats, x, ys, cb) ==
          RowLoss(cats, x, init, cb) + (if Cat(cats, y) == cb && cb != Cat(cats, x) then {y} else {})
      {
      }
    }
  }

  /** mutual_exclude(ys) with the outer loop run over xs: every x of xs
      loses, on each other category, the values of ys of that category. */
  ghost function MutualExclude(cats: Categories, c: Cells, xs: seq<Value>, ys: seq<Value>): (r: Cells)
    requires AllKnown(cats, xs) && AllKnown(cats, ys)
    ensures Shrinks(c, r)
    decreases |xs|
  {
    if xs == [] then c
    else
      var c' := MutualExclude(cats, c, xs[..|xs| - 1], ys);
      var r := ExcludeRow(cats, c', xs[|xs| - 1], ys);
      assert forall x :: x in xs ==> x in xs[..|xs| - 1] || x == xs[|xs| - 1];
      r
  }

  /** After mutual_exclude, the cell of each x of xs on the category of each
      y of ys (in another category) no longer holds y. */
  lemma {:induction false} MutualExcludeExcludes(cats: Categories, c: Cells, xs: seq<Value>, ys: seq<Value>)
    requires AllKnown(cats, xs) && AllKnown(cats, ys)
    ensures var r := MutualExclude(cats, c, xs, ys);
      forall x, y ::
        (x in xs && y in ys && Cat(cats, x) != Cat(cats, y) && Key(Cat(cats, x), x, Cat(cats, y)) in c) ==>
        y !in r[Key(Cat(cats, x), x, Cat(cats, y))]
    decreases |xs|
  {
    if xs != [] {
      var init := xs[..|xs| - 1];
      var last := xs[|xs| - 1];
      assert forall x :: x in xs ==> x in init || x == last;
      MutualExcludeExcludes(cats, c, init, ys);
      ExcludeRowExcludes(cats, MutualExclude(cats, c, init, ys), last, ys);
    }
  }

  /** mutual_exclude, cell by cell: the cell of each x of xs on each
      category loses exactly the values of ys of that category (none on
      x's own), and every other cell is unchanged. */
  lemma {:induction false} MutualExcludeCells(cats: Categories, c: Cells, xs: seq<Value>, ys: seq<Value>)
    requires AllKnown(cats, xs) && AllKnown(cats, ys)
    ensures var r := MutualExclude(cats, c, xs, ys);
      forall k :: k in c ==>
        r[k] == if k.elA in xs && k.catA == Cat(cats, k.elA) then c[k] - RowLoss(cats, k.elA, ys, k.catB) else c[k]
    decreases |xs|
  {
    if xs != [] {
      var init := xs[..|xs| - 1];
      var last := xs[|xs| - 1];
      assert forall x :: x in xs <==> x in init || x == last;
      MutualExcludeCells(cats, c, init, ys);
      ExcludeRowCells(cats, MutualExclude(cats, c, init, ys), last, ys);
    }
  }

  // check_single_mapping ----------------------------------------------------

  /** The loop of check_single_mapping: the cell of each x of xs on B is
      intersected with the values listed in ys; a missing key raises. */
  ghost function NarrowTo(cats: Categories, c: Cells, xs: seq<Value>, cb: Name, ys: set<Value>): (r: Outcome<Cells>)
    requires AllKnown(cats, xs)
    ensures r.Raised? <==> exists x :: x in xs && Key(Cat(cats, x), x, cb) !in c
    ensures r.Returned? ==> Shrinks(c, r.value)
    ensures r.Returned? ==> forall x :: x in xs ==> r.value[Key(Cat(cats, x), x, cb)] <= ys
    decreases |xs|
  {
    if xs == [] then Returned(c)
    else
      var x := xs[|xs| - 1];
      assert forall x' :: x' in xs ==> x' in xs[..|xs| - 1] || x' == x;
      match NarrowTo(cats, c, xs[..|xs| - 1], cb, ys)
      case Raised => Raised
      case Returned(c') =>
        var k := Key(Cat(cats, x), x, cb);
        if k !in c' then Raised
        else
          var r := c'[k := c'[k] * ys];
          ShrinksTransitive(c, c', r);
          Returned(r)
  }

  /** The loop of check_single_mapping, cell by cell: when it returns, the
      cell of each x of xs on B is its old value intersected with ys, and
      every other cell is unchanged. */
  lemma {:induction false} NarrowToCells(cats: Categories, c: Cells, xs: seq<Value>, cb: Name, ys: set<Value>)
    requires AllKnown(cats, xs)
    ensures var r := NarrowTo(cats, c, xs, cb, ys);
      r.Returned? ==> forall k :: k in c ==>
        r.value[k] == if k.elA in xs && k.catA == Cat(cats, k.elA) && k.catB == cb then c[k] * ys else c[k]
    decreases |xs|
  {
    if xs != [] {
      var init := xs[..|xs| - 1];
      var last := xs[|xs| - 1];
      assert forall x :: x in xs <==> x in init || x == last;
      NarrowToCells(cats, c, init, cb, ys);
    }
  }

  /** check_single_mapping: when every value of ys lies in one category B,
      each x of xs keeps on B only values listed in ys. */
  ghost function CheckSingleMapping(cats: Categories, c: Cells, xs: seq<Value>, ys: seq<Value>): (r: Outcome<Cells>)
    requires AllKnown(cats, xs) && AllKnown(cats, ys)
    ensures r.Returned? ==> Shrinks(c, r.value)
    ensures ys == [] || (exists y, y' :: y in ys && y' in ys && Cat(cats, y) != Cat(cats, y')) ==> r == Returned(c)
    ensures ys != [] && (forall y :: y in ys ==> Cat(cats, y) == Cat(cats, ys[0])) ==>
      && (r.Raised? <==> exists x :: x in xs && Key(Cat(cats, x), x, Cat(cats, ys[0])) !in c)
      && (r.Returned? ==> forall x :: x in xs ==> r.value[Key(Cat(cats, x), x, Cat(cats, ys[0]))] <= set y | y in ys)
  {
    var cs := set y | y in ys :: Cat(cats, y);
    OneCategory(cats, ys);
    if |cs| == 1 then NarrowTo(cats, c, xs, Only(cs), set y | y in ys)
    else Returned(c)
  }

  /** The values of ys lie in exactly one category when ys is not empty
      and every value shares the category of the first. */
  lemma OneCategory(cats: Categories, ys: seq<Value>)
    requires AllKnown(cats, ys)
    ensures var cs := set y | y in ys :: Cat(cats, y);
      && (|cs| == 1 <==> ys != [] && forall y :: y in ys ==> Cat(cats, y) == Cat(cats, ys[0]))
      && (|cs| == 1 ==> cs == {Cat(cats, ys[0])})
  {
    var cs := set y | y in ys :: Cat(cats, y);
    if ys != [] {
      assert Cat(cats, ys[0]) in cs;
      if forall y :: y in ys ==> Cat(cats, y) == Cat(cats, ys[0]) {
        assert cs == {Cat(cats, ys[0])};
      } else {
        var y :| y in ys && Cat(cats, y) != Cat(cats, ys[0]);
        var two := {Cat(cats, y), Cat(cats, ys[0])};
        assert |two| == 2;
        assert cs == two + (cs - two);
      }
    } else {
      assert cs == {};
    }
  }

  /** check_single_mapping, cell by cell: when ys lie in one category B and
      the call returns, the cell of each x of xs on B keeps exactly its
      values listed in ys, and every other cell is unchanged. */
  lemma CheckSingleMappingCells(cats: Categories, c: Cells, xs: seq<Value>, ys: seq<Value>)
    requires AllKnown(cats, xs) && AllKnown(cats, ys)
    requires ys != [] && forall y :: y in ys ==> Cat(cats, y) == Cat(cats, ys[0])
    ensures var r := CheckSingleMapping(cats, c, xs, ys);
      r.Returned? ==> forall k :: k in c ==>
        r.value[k] == if k.elA in xs && k.catA == Cat(cats, k.elA) && k.catB == Cat(cats, ys[0])
                      then c[k] * (set y | y in ys) else c[k]
  {
    var cs := set y | y in ys :: Cat(cats, y);
    assert cs == {Cat(cats, ys[0])};
    assert CheckSingleMapping(cats, c, xs, ys) == NarrowTo(cats, c, xs, Cat(cats, ys[0]), set y | y in ys);
    NarrowToCells(cats, c, xs, Cat(cats, ys[0]), set y | y in ys);
  }

  // pair_categories ---------------------------------------------------------

  /** categories_B: the distinct categories of ys, in order of first
      appearance. */
  ghost function CategoriesOf(cats: Categories, ys: seq<Value>): (r: seq<Name>)
    requires AllKnown(cats, ys)
    ensures forall i, j :: 0 <= i < j < |r| ==> r[i] != r[j]
    ensures forall n :: n in r <==> exists y :: y in ys && Cat(cats, y) == n
    decreases |ys|
  {
    if ys == [] then []
    else
      var r := CategoriesOf(cats, ys[..|ys| - 1]);
      var n := Cat(cats, ys[|ys| - 1]);
      assert forall y :: y in ys ==> y in ys[..|ys| - 1] || y == ys[|ys| - 1];
      if n in r then r else r + [n]
  }

  /** The union of the cells on cat of the values of xs other than x whose
      category is not cat (seed_set before its complement). */
  ghost function Seed(cats: Categories, c: Cells, xs: seq<Value>, x: Value, cat: Name): (r: set<Value>)
    requires AllKnown(cats, xs)
    ensures forall y :: y in xs && y != x && Cat(cats, y) != cat && Key(Cat(cats, y), y, cat) in c ==>
      c[Key(Cat(cats, y), y, cat)] <= r
    decreases |xs|
  {
    if xs == [] then {}
    else
      var y := xs[|xs| - 1];
      var k := Key(Cat(cats, y), y, cat);
      assert forall y' :: y' in xs ==> y' in xs[..|xs| - 1] || y' == y;
      Seed(cats, c, xs[..|xs| - 1], x, cat) + (if y != x && Cat(cats, y) != cat && k in c then c[k] else {})
  }

  /** The seed holds nothing but values of those cells. */
  lemma {:induction false} SeedMembers(cats: Categories, c: Cells, xs: seq<Value>, x: Value, cat: Name, v: Value)
    requires AllKnown(cats, xs) && v in Seed(cats, c, xs, x, cat)
    ensures exists y :: (y in xs && y != x && Cat(cats, y) != cat &&
                         Key(Cat(cats, y), y, cat) in c && v in c[Key(Cat(cats, y), y, cat)])
    decreases |xs|
  {
    var init := xs[..|xs| - 1];
    var y := xs[|xs| - 1];
    var k := Key(Cat(cats, y), y, cat);
    assert forall y' :: y' in init ==> y' in xs;
    if v in Seed(cats, c, init, x, cat) {
      SeedMembers(cats, c, init, x, cat, v);
    } else {
      assert y in xs && y != x && Cat(cats, y) != cat && k in c && v in c[k];
    }
  }

  /** universal in pair_categories: the values of ys that belong to cat. */
  function Universal(cats: Categories, ys: seq<Value>, cat: Name): (u: set<Value>)
    requires cat in cats.members
    ensures forall e :: e in u <==> e in ys && e in cats.members[cat]
  {
    set e | e in ys && e in cats.members[cat]
  }

  /** The values of ys in cat that no other value of xs can still take
      there, intersected with x's cell on cat (res in pair_categories). */
  ghost function Candidates(cats: Categories, c: Cells, xs: seq<Value>, ys: seq<Value>, x: Value, cat: Name)
    : set<Value>
    requires AllKnown(cats, xs) && Known(cats, x) && cat in cats.members
    requires Key(Cat(cats, x), x, cat) in c
  {
    c[Key(Cat(cats, x), x, cat)] * Complement(Seed(cats, c, xs, x, cat), Universal(cats, ys, cat))
  }

  /** One (x, cat) step of pair_categories. A non-empty res becomes x's cell
      on cat and a one-element res is recorded as the pairing (x, v). When
      aliased, the cell stored is the very set that `res.pop()` then
      empties, as Logic.py does; LogicPuzzle.py stores a copy. */
  ghost function PairStep(cats: Categories, c: Cells, xs: seq<Value>, ys: seq<Value>, x: Value, cat: Name,
                          aliased: bool): (r: (Cells, seq<(Value, Value)>))
    requires AllKnown(cats, xs) && Known(cats, x) && cat in cats.members
    ensures Shrinks(c, r.0)
    ensures |r.1| <= 1
    ensures forall p :: p in r.1 ==> p.0 == x && p.1 in ys && p.1 in cats.members[cat]
  {
    var k := Key(Cat(cats, x), x, cat);
    if cat == Cat(cats, x) || k !in c then (c, [])
    else
      var res := Candidates(cats, c, xs, ys, x, cat);
      if |res| == 0 then (c, [])
      else if |res| == 1 then (c[k := if aliased then {} else res], [(x, Only(res))])
      else (c[k := res], [])
  }

  /** The middle loop of pair_categories, over categories_B, for one x. */
  ghost function PairRow(cats: Categories, c: Cells, xs: seq<Value>, ys: seq<Value>, x: Value, cs: seq<Name>,
                         aliased: bool): (r: (Cells, seq<(Value, Value)>))
    requires AllKnown(cats, xs) && Known(cats, x) && forall n :: n in cs ==> n in cats.members
    ensures Shrinks(c, r.0)
    ensures forall p :: p in r.1 ==> p.0 == x && p.1 in ys
    decreases |cs|
  {
    if cs == [] then (c, [])
    else
      var (c', ps) := PairRow(cats, c, xs, ys, x, cs[..|cs| - 1], aliased);
      var (r, qs) := PairStep(cats, c', xs, ys, x, cs[|cs| - 1], aliased);
      ShrinksTransitive(c, c', r);
      (r, ps + qs)
  }

  /** pair_categories with its outer loop run over the prefix us of xs. */
  ghost function PairAll(cats: Categories, c: Cells, xs: seq<Value>, ys: seq<Value>, us: seq<Value>, cs: seq<Name>,
                         aliased: bool): (r: (Cells, seq<(Value, Value)>))
    requires AllKnown(cats, xs) && AllKnown(cats, us) && forall n :: n in cs ==> n in cats.members
    ensures Shrinks(c, r.0)
    ensures forall p :: p in r.1 ==> p.0 in us && p.1 in ys
    decreases |us|
  {
    if us == [] then (c, [])
    else
      var (c', ps) := PairAll(cats, c, xs, ys, us[..|us| - 1], cs, aliased);
      var (r, qs) := PairRow(cats, c', xs, ys, us[|us| - 1], cs, aliased);
      ShrinksTransitive(c, c', r);
      (r, ps + qs)
  }

  /** pair_categories(xs, ys). */
  ghost function PairCategories(cats: Categories, c: Cells, xs: seq<Value>, ys: seq<Value>, aliased: bool)
    : (r: (Cells, seq<(Value, Value)>))
    requires AllKnown(cats, xs) && AllKnown(cats, ys)
    ensures Shrinks(c, r.0)
    ensures forall p :: p in r.1 ==> p.0 in xs && p.1 in ys
  {
    PairAll(cats, c, xs, ys, xs, CategoriesOf(cats, ys), aliased)
  }

  // the aliasing of pair_categories ------------------------------------------

  /** As written in Logic.py: whenever a step records a pairing (x, v),
      the cell it stored for x is the set that `res.pop()` has just
      emptied, so x is left with no candidate on cat at all. */
  lemma AliasedPairEmptiesCell(cats: Categories, c: Cells, xs: seq<Value>, ys: seq<Value>, x: Value, cat: Name)
    requires AllKnown(cats, xs) && Known(cats, x) && cat in cats.members
    ensures var (r, ps) := PairStep(cats, c, xs, ys, x, cat, true);
      forall p :: p in ps ==> r[Key(Cat(cats, x), x, cat)] == {} && p.1 in c[Key(Cat(cats, x), x, cat)]
  {
    var k := Key(Cat(cats, x), x, cat);
    if cat != Cat(cats, x) && k in c {
      var res := Candidates(cats, c, xs, ys, x, cat);
      if |res| == 1 {
        assert Only(res) in c[k];
      }
    }
  }

  /** The input that shows it: values 1, 2 of category "P" and 3, 4 of
      "G", a fresh grid, and the clue "1 is 3". The only candidate 3 is
      found, and the aliased store empties the cell (P, 1, G) where the
      copying store leaves {3}. */
  lemma AliasedPairExample()
    ensures var cats := Categories(["P", "G"], map["P" := [1, 2], "G" := [3, 4]]);
      var k := Key("P", 1, "G");
      var c := map[k := {3, 4}, Key("P", 2, "G") := {3, 4}, Key("G", 3, "P") := {1, 2}, Key("G", 4, "P") := {1, 2}];
      && AllKnown(cats, [1]) && Known(cats, 1) && "G" in cats.members
      && PairStep(cats, c, [1], [3], 1, "G", true) == (c[k := {}], [(1, 3)])
      && PairStep(cats, c, [1], [3], 1, "G", false) == (c[k := {3}], [(1, 3)])
  {
    var cats := Categories(["P", "G"], map["P" := [1, 2], "G" := [3, 4]]);
    var k := Key("P", 1, "G");
    var c := map[k := {3, 4}, Key("P", 2, "G") := {3, 4}, Key("G", 3, "P") := {1, 2}, Key("G", 4, "P") := {1, 2}];
    assert ParentCategory(cats, 1) == Some("P");
    assert Cat(cats, 1) == "P";
    assert Seed(cats, c, [1], 1, "G") == {} by {
      assert [1][..0] == [];
    }
    assert Universal(cats, [3], "G") == {3};
    var res := Candidates(cats, c, [1], [3], 1, "G");
    assert res == {3};
    assert Only(res) in {3};
  }

  /** As intended, and as LogicPuzzle.py does by storing a copy: a recorded
      pairing (x, v) leaves x's cell on cat exactly {v}, one of its old
      candidates. */
  lemma CopiedPairBindsCell(cats: Categories, c: Cells, xs: seq<Value>, ys: seq<Value>, x: Value, cat: Name)
    requires AllKnown(cats, xs) && Known(cats, x) && cat in cats.members
    ensures var (r, ps) := PairStep(cats, c, xs, ys, x, cat, false);
      forall p :: p in ps ==> r[Key(Cat(cats, x), x, cat)] == {p.1} && p.1 in c[Key(Cat(cats, x), x, cat)]
  {
    var k := Key(Cat(cats, x), x, cat);
    if cat != Cat(cats, x) && k in c {
      var res := Candidates(cats, c, xs, ys, x, cat);
      if |res| == 1 {
        assert Only(res) in c[k];
      }
    }
  }

  // remove_pairs ------------------------------------------------------------

  /** list.remove: drops the first occurrence of x, or fails (ValueError)
      when x is not in the list. */
  function RemoveFirst(s: seq<Value>, x: Value): (r: Option<seq<Value>>)
    ensures r.Some? <==> x in s
    ensures r.Some? ==> multiset(r.value) == multiset(s) - multiset{x}
    ensures r.Some? ==> forall y :: y in r.value ==> y in s
  {
    if s == [] then None
    else if s[0] == x then
      assert s == [s[0]] + s[1..];
      Some(s[1..])
    else
      match RemoveFirst(s[1..], x)
      case None => None
      case Some(t) =>
        assert s == [s[0]] + s[1..];
        Some([s[0]] + t)
  }

  /** The first values of the pairings, in order. */
  ghost function Firsts(ps: seq<(Value, Value)>): (r: seq<Value>)
    ensures |r| == |ps| && forall i :: 0 <= i < |ps| ==> r[i] == ps[i].0
    decreases |ps|
  {
    if ps == [] then [] else Firsts(ps[..|ps| - 1]) + [ps[|ps| - 1].0]
  }

  /** The second values of the pairings, in order. */
  ghost function Seconds(ps: seq<(Value, Value)>): (r: seq<Value>)
    ensures |r| == |ps| && forall i :: 0 <= i < |ps| ==> r[i] == ps[i].1
    decreases |ps|
  {
    if ps == [] then [] else Seconds(ps[..|ps| - 1]) + [ps[|ps| - 1].1]
  }

  /** The loop of remove_pairs: each pairing's two values leave the lists. */
  ghost function RemoveAll(xs: seq<Value>, ys: seq<Value>, ps: seq<(Value, Value)>): (r: Option<(seq<Value>, seq<Value>)>)
    ensures r.Some? ==> multiset(r.value.0) <= multiset(xs) && multiset(r.value.1) <= multiset(ys)
    ensures r.Some? ==> |r.value.0| + |ps| == |xs| && |r.value.1| + |ps| == |ys|
    ensures r.Some? ==> (forall x :: x in r.value.0 ==> x in xs) && (forall y :: y in r.value.1 ==> y in ys)
    decreases |ps|
  {
    if ps == [] then Some((xs, ys))
    else
      match RemoveAll(xs, ys, ps[..|ps| - 1])
      case None => None
      case Some((xs', ys')) =>
        var p := ps[|ps| - 1];
        match RemoveFirst(xs', p.0)
        case None => None
        case Some(xs'') =>
          match RemoveFirst(ys', p.1)
          case None => None
          case Some(ys'') =>
            DropOne(xs, xs', xs'', p.0);
            DropOne(ys, ys', ys'', p.1);
            Some((xs'', ys''))
  }

  /** Removing one occurrence of x from s', itself within s, leaves a list
      within s one shorter than s'. */
  lemma DropOne(s: seq<Value>, s': seq<Value>, t: seq<Value>, x: Value)
    requires multiset(s') <= multiset(s) && x in s' && multiset(t) == multiset(s') - multiset{x}
    ensures multiset(t) <= multiset(s) && |t| + 1 == |s'|
    ensures forall y :: y in t ==> y in s
  {
    assert |multiset(t)| == |multiset(s')| - 1;
    forall y | y in t
      ensures y in s
    {
      assert y in multiset(t);
    }
  }

  /** Exactly the first values of the pairings leave xs, and exactly the
      second values leave ys. */
  lemma {:induction false} RemoveAllContents(xs: seq<Value>, ys: seq<Value>, ps: seq<(Value, Value)>)
    requires RemoveAll(xs, ys, ps).Some?
    ensures multiset(RemoveAll(xs, ys, ps).value.0) == multiset(xs) - multiset(Firsts(ps))
    ensures multiset(RemoveAll(xs, ys, ps).value.1) == multiset(ys) - multiset(Seconds(ps))
    decreases |ps|
  {
    if ps == [] {
      assert multiset(Firsts(ps)) == multiset{} && multiset(Seconds(ps)) == multiset{};
    } else {
      var init := ps[..|ps| - 1];
      var p := ps[|ps| - 1];
      RemoveAllContents(xs, ys, init);
      var (xs', ys') := RemoveAll(xs, ys, init).value;
      assert Firsts(ps) == Firsts(init) + [p.0];
      assert Seconds(ps) == Seconds(init) + [p.1];
      MinusOneMore(xs, xs', RemoveAll(xs, ys, ps).value.0, Firsts(init), p.0);
      MinusOneMore(ys, ys', RemoveAll(xs, ys, ps).value.1, Seconds(init), p.1);
    }
  }

  /** Taking x out of what is left of s after the values gone leaves what
      is left of s after the values gone and x. */
  lemma MinusOneMore(s: seq<Value>, s': seq<Value>, t: seq<Value>, gone: seq<Value>, x: Value)
    requires multiset(s') == multiset(s) - multiset(gone)
    requires multiset(t) == multiset(s') - multiset{x}
    ensures multiset(t) == multiset(s) - multiset(gone + [x])
  {
    assert multiset(gone + [x]) == multiset(gone) + multiset{x};
    forall z
      ensures multiset(t)[z] == (multiset(s) - multiset(gone + [x]))[z]
    {
    }
  }

  /** The loop of remove_pairs raises exactly when some value is paired
      more often than the list holds it. */
  lemma {:induction false} RemoveAllSucceeds(xs: seq<Value>, ys: seq<Value>, ps: seq<(Value, Value)>)
    ensures RemoveAll(xs, ys, ps).Some? <==>
      multiset(Firsts(ps)) <= multiset(xs) && multiset(Seconds(ps)) <= multiset(ys)
    decreases |ps|
  {
    if ps != [] {
      var init := ps[..|ps| - 1];
      var p := ps[|ps| - 1];
      RemoveAllSucceeds(xs, ys, init);
      PairsSnoc(ps);
      if RemoveAll(xs, ys, init).Some? {
        RemoveAllSnoc(xs, ys, ps);
        RemoveAllContents(xs, ys, init);
        ExtraFits(xs, RemoveAll(xs, ys, init).value.0, Firsts(init), p.0);
        ExtraFits(ys, RemoveAll(xs, ys, init).value.1, Seconds(init), p.1);
      }
    }
  }

  /** The first and second values of one more pairing. */
  lemma PairsSnoc(ps: seq<(Value, Value)>)
    requires ps != []
    ensures multiset(Firsts(ps)) == multiset(Firsts(ps[..|ps| - 1])) + multiset{ps[|ps| - 1].0}
    ensures multiset(Seconds(ps)) == multiset(Seconds(ps[..|ps| - 1])) + multiset{ps[|ps| - 1].1}
  {
    assert Firsts(ps) == Firsts(ps[..|ps| - 1]) + [ps[|ps| - 1].0];
    assert Seconds(ps) == Seconds(ps[..|ps| - 1]) + [ps[|ps| - 1].1];
  }

  /** One more pairing is removed exactly when both its values are still in
      what the earlier removals left. */
  lemma RemoveAllSnoc(xs: seq<Value>, ys: seq<Value>, ps: seq<(Value, Value)>)
    requires ps != [] && RemoveAll(xs, ys, ps[..|ps| - 1]).Some?
    ensures var left := RemoveAll(xs, ys, ps[..|ps| - 1]).value;
      RemoveAll(xs, ys, ps).Some? <==> ps[|ps| - 1].0 in left.0 && ps[|ps| - 1].1 in left.1
  {
  }

  /** With the values gone within s, one more x fits in s exactly when x is
      in what is left. */
  lemma ExtraFits(s: seq<Value>, s': seq<Value>, gone: seq<Value>, x: Value)
    requires multiset(gone) <= multiset(s) && multiset(s') == multiset(s) - multiset(gone)
    ensures x in s' <==> multiset(gone) + multiset{x} <= multiset(s)
  {
    assert x in s' <==> x in multiset(s');
    if multiset(gone) + multiset{x} <= multiset(s) {
      assert (multiset(gone) + multiset{x})[x] <= multiset(s)[x];
    } else {
      assert multiset(s)[x] <= multiset(gone)[x];
    }
  }

  /** Once a list.remove has failed, the whole loop fails. */
  lemma {:induction false} RemoveAllStuck(xs: seq<Value>, ys: seq<Value>, ps: seq<(Value, Value)>, n: nat)
    requires n <= |ps| && RemoveAll(xs, ys, ps[..n]) == None
    ensures RemoveAll(xs, ys, ps) == None
    decreases |ps| - n
  {
    if n < |ps| {
      assert ps[..n + 1][..n] == ps[..n];
      RemoveAllStuck(xs, ys, ps, n + 1);
    } else {
      assert ps[..n] == ps;
    }
  }

  /** remove_pairs: the paired values leave the lists; the clue is used up
      when both lists are empty, or when one value is left in each, which
      are then bound one way. */
  ghost function RemovePairs(cats: Categories, c: Cells, xs: seq<Value>, ys: seq<Value>, ps: seq<(Value, Value)>)
    : (r: Outcome<(Cells, seq<Value>, seq<Value>, bool)>)
    requires AllKnown(cats, xs) && AllKnown(cats, ys)
    ensures r.Returned? ==> Shrinks(c, r.value.0)
    ensures r.Returned? ==> multiset(r.value.1) <= multiset(xs) && multiset(r.value.2) <= multiset(ys)
    ensures r.Returned? && r.value.3 ==> r.value.1 == [] && r.value.2 == []
    ensures r.Returned? && !r.value.3 ==> r.value.0 == c
  {
    match RemoveAll(xs, ys, ps)
    case None => Raised
    case Some((xs', ys')) =>
      if |xs'| == 0 && |ys'| == 0 then Returned((c, xs', ys', true))
      else if |xs'| == 1 && |ys'| == 1 then
        assert xs'[0] in xs' && ys'[0] in ys';
        match BindLast(cats, c, xs'[0], ys'[0])
        case Raised => Raised
        case Returned(c') => Returned((c', [], [], true))
      else Returned((c, xs', ys', false))
  }

  /** The three ends of remove_pairs after the paired values have left the
      lists xs' and ys': both empty is used up with the cells unchanged; one
      value in each is used up with those two bound one way (BindLast);
      anything else leaves the cells and returns the shortened lists. A
      failed removal raises. */
  lemma RemovePairsCases(cats: Categories, c: Cells, xs: seq<Value>, ys: seq<Value>, ps: seq<(Value, Value)>)
    requires AllKnown(cats, xs) && AllKnown(cats, ys)
    ensures var r := RemovePairs(cats, c, xs, ys, ps);
      && (RemoveAll(xs, ys, ps).None? ==> r.Raised?)
      && (r.Returned? ==> RemoveAll(xs, ys, ps).Some?)
      && (r.Returned? && !r.value.3 ==> r.value == (c, RemoveAll(xs, ys, ps).value.0, RemoveAll(xs, ys, ps).value.1, false))
    ensures var ra := RemoveAll(xs, ys, ps);
      ra.Some? && |ra.value.0| == 0 && |ra.value.1| == 0 ==> RemovePairs(cats, c, xs, ys, ps) == Returned((c, [], [], true))
    ensures var ra := RemoveAll(xs, ys, ps);
      (ra.Some? && |ra.value.0| == 1 && |ra.value.1| == 1) ==>
        && ra.value.0[0] in xs && ra.value.1[0] in ys
        && RemovePairs(cats, c, xs, ys, ps) ==
             match BindLast(cats, c, ra.value.0[0], ra.value.1[0])
             case Raised => Raised
             case Returned(c') => Returned((c', [], [], true))
  {
    var ra := RemoveAll(xs, ys, ps);
    if ra.Some? && |ra.value.0| == 1 && |ra.value.1| == 1 {
      assert ra.value.0[0] in ra.value.0 && ra.value.1[0] in ra.value.1;
    }
  }

  /** The end of remove_pairs when one value is left in each list: x's
      cell on y's category is intersected with {y}; a missing cell raises. */
  ghost function BindLast(cats: Categories, c: Cells, x: Value, y: Value): (r: Outcome<Cells>)
    requires Known(cats, x) && Known(cats, y)
    ensures var k := Key(Cat(cats, x), x, Cat(cats, y));
      && (r.Raised? <==> k !in c)
      && (r.Returned? ==> r.value == c[k := c[k] * {y}] && Shrinks(c, r.value))
  {
    var k := Key(Cat(cats, x), x, Cat(cats, y));
    if k !in c then Raised else Returned(c[k := IsElement(c[k], y)])
  }

  /** multi_is_one_of(xs, ys) on values that all have a category: both
      lists are made mutually exclusive, the single-category narrowing and
      the pairing are applied, and the pairs found are removed from the
      lists. */
  ghost function MultiIsOneOfKnown(cats: Categories, c: Cells, xs: seq<Value>, ys: seq<Value>, aliased: bool)
    : (r: Outcome<(Cells, seq<Value>, seq<Value>, bool)>)
    requires AllKnown(cats, xs) && AllKnown(cats, ys)
    ensures r.Returned? ==> Shrinks(c, r.value.0)
    ensures r.Returned? ==> multiset(r.value.1) <= multiset(xs) && multiset(r.value.2) <= multiset(ys)
    ensures r.Returned? && r.value.3 ==> r.value.1 == [] && r.value.2 == []
  {
    var c1 := MutualExclude(cats, c, xs, xs);
    var c2 := MutualExclude(cats, c1, ys, ys);
    match CheckSingleMapping(cats, c2, xs, ys)
    case Raised => Raised
    case Returned(c3) =>
      var (c4, ps) := PairCategories(cats, c3, xs, ys, aliased);
      var r := RemovePairs(cats, c4, xs, ys, ps);
      if r.Raised? then Raised
      else
        ShrinksTransitive(c, c1, c2);
        ShrinksTransitive(c, c2, c3);
        ShrinksTransitive(c, c3, c4);
        ShrinksTransitive(c, c4, r.value.0);
        r
  }

  // values that no category lists ------------------------------------------

  /** No value of s has a category. */
  predicate NoneKnown(cats: Categories, s: seq<Value>) {
    forall e :: e in s ==> !Known(cats, e)
  }

  /** The categories get_parent_set_category gives the values of s; None
      stands for a value that no category lists. */
  function ParentsOf(cats: Categories, s: seq<Value>): set<Option<Name>> {
    set e | e in s :: ParentCategory(cats, e)
  }

  /** mutual_exclude(s) looks up the cell of a on b's category for every two
      values of different categories; the key is missing when one of them
      has no category. */
  predicate MutualExcludeMisses(cats: Categories, s: seq<Value>) {
    exists a, b :: a in s && b in s && ParentCategory(cats, a) != ParentCategory(cats, b) &&
      (!Known(cats, a) || !Known(cats, b))
  }

  /** check_single_mapping, when the values of ys share one category B
      (possibly None), looks up the cell of each x of xs on B; in lists
      holding a value with no category, the key is missing when x or B has
      no category. */
  predicate SingleMappingMisses(cats: Categories, xs: seq<Value>, ys: seq<Value>) {
    |ParentsOf(cats, ys)| == 1 && exists x :: x in xs && (!Known(cats, x) || None in ParentsOf(cats, ys))
  }

  /** pair_categories, for x of xs and a category n of ys other than x's,
      reads the values of n (missing when n is None) and then x's cell on n
      (missing when x has no category). */
  predicate PairMisses(cats: Categories, xs: seq<Value>, ys: seq<Value>) {
    exists x, n :: x in xs && n in ParentsOf(cats, ys) && n != ParentCategory(cats, x) &&
      (n.None? || !Known(cats, x))
  }

  /** With a value that no category lists, multi_is_one_of raises KeyError
      in the first of its steps that builds a key from None. */
  predicate UnknownMisses(cats: Categories, xs: seq<Value>, ys: seq<Value>) {
    || MutualExcludeMisses(cats, xs) || MutualExcludeMisses(cats, ys)
    || SingleMappingMisses(cats, xs, ys) || PairMisses(cats, xs, ys)
  }

  /** A value without a category is harmless exactly when one list is empty
      and the other holds no value with a category: no step then builds a
      key. */
  lemma UnknownMissesIff(cats: Categories, xs: seq<Value>, ys: seq<Value>)
    requires !(AllKnown(cats, xs) && AllKnown(cats, ys))
    ensures UnknownMisses(cats, xs, ys) <==> !((xs == [] && NoneKnown(cats, ys)) || (ys == [] && NoneKnown(cats, xs)))
  {
    if xs == [] && NoneKnown(cats, ys) {
      assert !MutualExcludeMisses(cats, ys);
    } else if ys == [] && NoneKnown(cats, xs) {
      assert ParentsOf(cats, ys) == {};
      assert !MutualExcludeMisses(cats, xs);
    } else if !MutualExcludeMisses(cats, xs) && !MutualExcludeMisses(cats, ys) {
      if x :| x in xs && !Known(cats, x) {
        // xs has no value with a category, so ys is not empty
        NoMixing(cats, xs, x);
        var y := ys[0];
        assert ParentCategory(cats, y) in ParentsOf(cats, ys);
        if Known(cats, y) {
          assert PairMisses(cats, xs, ys) by {
            assert ParentCategory(cats, y) != ParentCategory(cats, x);
          }
        } else {
          NoMixing(cats, ys, y);
          AllUnknownParents(cats, ys);
          assert SingleMappingMisses(cats, xs, ys);
        }
      } else {
        // every x has a category, so some y has none, and then none has
        var u :| u in ys && !Known(cats, u);
        NoMixing(cats, ys, u);
        AllUnknownParents(cats, ys);
        var x := xs[0];
        assert x in xs && |ParentsOf(cats, ys)| == 1 && None in ParentsOf(cats, ys);
        assert SingleMappingMisses(cats, xs, ys);
      }
    }
  }

  /** A list that mutual_exclude walks without building a key from None,
      and that holds a value without a category, holds no value with one. */
  lemma NoMixing(cats: Categories, s: seq<Value>, u: Value)
    requires u in s && !Known(cats, u) && !MutualExcludeMisses(cats, s)
    ensures NoneKnown(cats, s)
  {
    forall e | e in s
      ensures !Known(cats, e)
    {
      assert ParentCategory(cats, e) == ParentCategory(cats, u);
    }
  }

  /** A non-empty list of values without a category has the one parent None. */
  lemma AllUnknownParents(cats: Categories, s: seq<Value>)
    requires s != [] && NoneKnown(cats, s)
    ensures ParentsOf(cats, s) == {None}
  {
    assert ParentCategory(cats, s[0]) in ParentsOf(cats, s);
  }

  /** multi_is_one_of(xs, ys): on values that all have a category, the
      steps of MultiIsOneOfKnown; otherwise KeyError where a step builds a
      key from None, and if none does, no cell changes and remove_pairs
      answers False. */
  ghost function MultiIsOneOf(cats: Categories, c: Cells, xs: seq<Value>, ys: seq<Value>, aliased: bool)
    : (r: Outcome<(Cells, seq<Value>, seq<Value>, bool)>)
    ensures r.Returned? ==> Shrinks(c, r.value.0)
    ensures r.Returned? ==> multiset(r.value.1) <= multiset(xs) && multiset(r.value.2) <= multiset(ys)
    ensures r.Returned? && r.value.3 ==> r.value.1 == [] && r.value.2 == []
    ensures !(AllKnown(cats, xs) && AllKnown(cats, ys)) ==>
      && (r.Returned? <==> (xs == [] && NoneKnown(cats, ys)) || (ys == [] && NoneKnown(cats, xs)))
      && (r.Returned? ==> r.value == (c, xs, ys, false))
  {
    if AllKnown(cats, xs) && AllKnown(cats, ys) then MultiIsOneOfKnown(cats, c, xs, ys, aliased)
    else
      UnknownMissesIff(cats, xs, ys);
      if UnknownMisses(cats, xs, ys) then Raised else Returned((c, xs, ys, false))
  }
}
