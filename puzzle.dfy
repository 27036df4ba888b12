/**
 * The LogicPuzzle class of LogicPuzzle.py: the categories, the store of
 * candidate sets, the clues and the solutions of one puzzle, with the clue
 * functions, the inference sweeps and the solve loop as methods that
 * update them in place.
 */
module Puzzle {
  import opened Grid
  import opened Clues
  import opened Multi
  import opened Sweeps
  import opened Calls
  import Logic
  import Passes
  import Solver

  // specification ---------------------------------------------------------

  /** Every cell holds exactly one candidate (vacuously so when there are
      no cells). */
  ghost predicate AllSingletons(c: Cells) {
    forall k :: k in c ==> |c[k]| == 1
  }

  /** Some cell has no candidate left: the clues contradict each other. */
  ghost predicate HasEmptyCell(c: Cells) {
    exists k :: k in c && c[k] == {}
  }

  /** The is_solved of LogicPuzzle.py (every cell a singleton) and the one
      of Logic.py (the largest cell has size 1) differ only on a store
      with no cell, solved for the first and not for the second, and on a
      store with an empty cell. */
  lemma IsSolvedVersions(c: Cells)
    ensures c == map[] ==> AllSingletons(c) && !Solver.LargestIsOne(c)
    ensures AllSingletons(c) && c != map[] ==> Solver.LargestIsOne(c)
    ensures Solver.LargestIsOne(c) && !HasEmptyCell(c) ==> AllSingletons(c)
  {
    if AllSingletons(c) && c != map[] {
      var k :| k in c;
      assert |c[k]| == 1;
    }
    if Solver.LargestIsOne(c) && !HasEmptyCell(c) {
      forall k | k in c
        ensures |c[k]| == 1
      {
        assert c[k] != {};
        assert |c[k]| <= 1;
      }
    }
  }

  /** One iteration of the loop of solve: a pass over the clues, then
      symmetrize, chain_relation, return_exclusion_all and n_of_n. */
  ghost function PuzzleRound(cats: Categories, c: Cells, clues: seq<Clue>, ks: seq<Key>): (r: Outcome<(Cells, seq<Clue>)>)
    requires WellFormed(cats)
    ensures r.Returned? ==> Shrinks(c, r.value.0) && |r.value.1| == |clues|
  {
    match CluePass(PuzzleClass, cats, c, clues)
    case Raised => Raised
    case Returned((c1, clues1)) =>
      var c2 := KeyFold(BindSymmetric, cats, c1, ks);
      var c3 := KeyFold(ChainRelation, cats, c2, ks);
      var c4 := OverCategories(ReturnExclusionAll, cats, c3, cats.names);
      var c5 := Sweeps.NOfN(cats, c4, cats.names, true);
      ShrinksTransitive(c, c1, c2);
      ShrinksTransitive(c, c2, c3);
      ShrinksTransitive(c, c3, c4);
      ShrinksTransitive(c, c4, c5);
      Returned((c5, clues1))
  }

  /** The loop of solve: rounds until the total length stops changing. It
      ends because no round adds a candidate. */
  ghost function PuzzleLoop(cats: Categories, c: Cells, clues: seq<Clue>, ks: seq<Key>): (r: Outcome<(Cells, seq<Clue>)>)
    requires WellFormed(cats)
    ensures r.Returned? ==> Shrinks(c, r.value.0) && |r.value.1| == |clues|
    decreases Size(c, ks)
  {
    match PuzzleRound(cats, c, clues, ks)
    case Raised => Raised
    case Returned((c', clues')) =>
      SizeShrinks(c, c', ks);
      if Size(c', ks) == Size(c, ks) then Returned((c', clues'))
      else
        var r := PuzzleLoop(cats, c', clues', ks);
        if r.Returned? then ShrinksTransitive(c, c', r.value.0); r else r
  }

  /** solve stops exactly on a round that changed nothing: the cells it
      ends with are a fixed point of the round that produced them. */
  lemma {:induction false} PuzzleLoopEndsIdle(cats: Categories, c: Cells, clues: seq<Clue>, ks: seq<Key>)
    requires WellFormed(cats) && (forall k :: k in c <==> k in ks)
    requires PuzzleLoop(cats, c, clues, ks).Returned?
    ensures var (c', clues') := PuzzleLoop(cats, c, clues, ks).value;
      exists before :: PuzzleRound(cats, c', before, ks) == Returned((c', clues'))
    decreases Size(c, ks)
  {
    var step := PuzzleRound(cats, c, clues, ks);
    var (c1, clues1) := step.value;
    SizeShrinks(c, c1, ks);
    if Size(c1, ks) == Size(c, ks) {
      UnchangedSizeIsFixpoint(c, c1, ks);
      assert PuzzleRound(cats, c1, clues, ks) == Returned((c1, clues1));
    } else {
      PuzzleLoopEndsIdle(cats, c1, clues1, ks);
    }
  }

  /** The value of el (of the first category p) on each category other
      than p, in declaration order. */
  ghost function ValueRow(c: Cells, p: Name, el: Value, ns: seq<Name>): (r: seq<Value>)
    requires forall n :: n in ns && n != p ==> Key(p, el, n) in c && |c[Key(p, el, n)]| == 1
    ensures |r| <= |ns|
  {
    if ns == [] then []
    else
      var init := ValueRow(c, p, el, ns[..|ns| - 1]);
      var n := ns[|ns| - 1];
      if n == p then init else init + [Only(c[Key(p, el, n)])]
  }

  /** The solutions of set_solutions on a solved store with at least one
      category: each value of the first category with the values it is
      matched to on the others. */
  ghost function PuzzleSolutions(cats: Categories, c: Cells): (r: map<Value, seq<Value>>)
    requires WellFormed(cats) && Sane(cats, c) && AllSingletons(c) && |cats.names| > 0
    ensures forall el :: el in r <==> el in cats.members[cats.names[0]]
  {
    var p := cats.names[0];
    assert forall el, n :: el in cats.members[p] && n in cats.names && n != p ==> IsKey(cats, Key(p, el, n));
    ValueRowsOf(c, p, cats.names, cats.members[p])
  }

  /** A row for every value of els. */
  ghost function ValueRowsOf(c: Cells, p: Name, ns: seq<Name>, els: seq<Value>): (r: map<Value, seq<Value>>)
    requires forall el, n :: el in els && n in ns && n != p ==> Key(p, el, n) in c && |c[Key(p, el, n)]| == 1
    ensures forall el :: el in r <==> el in els
  {
    map el | el in els :: ValueRow(c, p, el, ns)
  }

  /** Every row one category further: the element of the cell on that
      category joins the row, unless it is the first category. */
  lemma ValueRowsSnoc(c: Cells, p: Name, ns: seq<Name>, els: seq<Value>, j: nat)
    requires j < |ns|
    requires forall el, n :: el in els && n in ns && n != p ==> Key(p, el, n) in c && |c[Key(p, el, n)]| == 1
    ensures forall el :: el in els ==>
      ValueRow(c, p, el, ns[..j + 1]) ==
        if ns[j] == p then ValueRow(c, p, el, ns[..j]) else ValueRow(c, p, el, ns[..j]) + [Only(c[Key(p, el, ns[j])])]
  {
    assert ns[..j + 1][..j] == ns[..j];
  }

  /** Skipping the first category: a row over p followed by other names
      is the row over those names. */
  lemma {:induction false} ValueRowSkipsPrimary(c: Cells, p: Name, el: Value, ns: seq<Name>)
    requires forall n :: n in ns && n != p ==> Key(p, el, n) in c && |c[Key(p, el, n)]| == 1
    ensures ValueRow(c, p, el, [p] + ns) == ValueRow(c, p, el, ns)
    decreases |ns|
  {
    if ns != [] {
      var init := ns[..|ns| - 1];
      ValueRowSkipsPrimary(c, p, el, init);
      assert ([p] + ns)[..|[p] + ns| - 1] == [p] + init;
    }
  }

  /** Row by row, the version of LogicPuzzle.py lists the element of each
      singleton set the version of Logic.py lists. */
  lemma {:induction false} RowsAgree(c: Cells, p: Name, el: Value, ns: seq<Name>)
    requires p !in ns
    requires forall i :: 0 <= i < |ns| ==> Key(p, el, ns[i]) in c && |c[Key(p, el, ns[i])]| == 1
    ensures |ValueRow(c, p, el, ns)| == |ns|
    ensures forall i :: 0 <= i < |ns| ==> Solver.Row(c, p, el, ns)[i] == {ValueRow(c, p, el, ns)[i]}
    decreases |ns|
  {
    if ns != [] {
      var init := ns[..|ns| - 1];
      RowsAgree(c, p, el, init);
      var n := ns[|ns| - 1];
      assert ValueRow(c, p, el, ns) == ValueRow(c, p, el, init) + [Only(c[Key(p, el, n)])];
      forall i | 0 <= i < |ns| - 1
        ensures Solver.Row(c, p, el, ns)[i] == Solver.Row(c, p, el, init)[i]
      {
      }
    }
  }

  /** On a store where every cell is a singleton and there is at least
      one cell, set_solutions of LogicPuzzle.py and the solutions of
      solve_puzzle in Logic.py have the same keys, and each element of a
      row of the first is the one member of the set at the same place in
      the second. */
  lemma SolutionsAgree(cats: Categories, c: Cells)
    requires WellFormed(cats) && Sane(cats, c) && AllSingletons(c) && c != map[]
    ensures |cats.names| > 0
    ensures var mine := PuzzleSolutions(cats, c);
      var theirs := Solver.Solutions(cats, c);
      && (forall el :: el in mine <==> el in theirs)
      && (forall el :: el in mine ==>
            (|mine[el]| == |theirs[el]| && forall i :: 0 <= i < |mine[el]| ==> theirs[el][i] == {mine[el][i]}))
  {
    IsSolvedVersions(c);
    Solver.PrimaryKeys(cats, c);
    var p := cats.names[0];
    var mine := PuzzleSolutions(cats, c);
    var theirs := Solver.Solutions(cats, c);
    assert forall el, n :: el in cats.members[p] && n in cats.names && n != p ==> IsKey(cats, Key(p, el, n));
    assert mine == ValueRowsOf(c, p, cats.names, cats.members[p]);
    forall el | el in mine
      ensures |mine[el]| == |theirs[el]| && forall i :: 0 <= i < |mine[el]| ==> theirs[el][i] == {mine[el][i]}
    {
      RowAgrees(c, cats.names, el);
      assert mine[el] == ValueRow(c, p, el, cats.names);
      assert theirs[el] == Solver.Row(c, p, el, cats.names[1..]);
    }
  }

  /** One row of SolutionsAgree. */
  lemma RowAgrees(c: Cells, names: seq<Name>, el: Value)
    requires |names| > 0 && forall i, j :: 0 <= i < j < |names| ==> names[i] != names[j]
    requires forall n :: n in names && n != names[0] ==> Key(names[0], el, n) in c && |c[Key(names[0], el, n)]| == 1
    ensures var row := ValueRow(c, names[0], el, names);
      var row' := Solver.Row(c, names[0], el, names[1..]);
      |row| == |row'| && forall i :: 0 <= i < |row| ==> row'[i] == {row[i]}
  {
    var p := names[0];
    var ns := names[1..];
    assert names == [p] + ns;
    forall j | 0 <= j < |ns|
      ensures ns[j] != p && Key(p, el, ns[j]) in c && |c[Key(p, el, ns[j])]| == 1
    {
      assert ns[j] == names[j + 1] && names[j + 1] in names;
    }
    ValueRowSkipsPrimary(c, p, el, ns);
    RowsAgree(c, p, el, ns);
  }

  // the class -------------------------------------------------------------

  class LogicPuzzle {
    var categories: Categories
    const sets: SetStore
    var clues: seq<Clue>
    var solutions: map<Value, seq<Value>>

    /** The store holds one sane cell per key of the categories. */
    ghost predicate Valid()
      reads this, sets
    {
      sets.Valid(categories)
    }

    /** __init__: no categories, no cells, no clues, no solutions. */
    constructor ()
      ensures Valid() && fresh(sets)
      ensures categories == Categories([], map[]) && sets.cells == map[] && clues == [] && solutions == map[]
    {
      categories := Categories([], map[]);
      sets := new SetStore();
      clues := [];
      solutions := map[];
    }

    /** set_categories: the categories are replaced and generate_sets fills
        the store; cells of keys the new categories do not have are kept. */
    method SetCategories(cats: Categories)
      requires WellFormed(cats) && sets.Ordered()
      modifies this, sets
      ensures categories == cats && clues == old(clues) && solutions == old(solutions)
      ensures sets.Ordered()
      ensures forall k :: k in sets.cells <==> k in old(sets.cells) || IsKey(cats, k)
      ensures forall k :: IsKey(cats, k) ==> sets.cells[k] == FullSet(cats, k.catB)
      ensures (forall k :: k in old(sets.cells) ==> IsKey(cats, k)) ==> Valid()
    {
      categories := cats;
      sets.Generate(cats);
    }

    /** set_clues. */
    method SetClues(cs: seq<Clue>)
      modifies this
      ensures clues == cs && categories == old(categories) && solutions == old(solutions)
    {
      clues := cs;
    }

    /** get_total_length. */
    method GetTotalLength() returns (size: nat)
      requires Valid()
      ensures size == Size(sets.cells, sets.order)
    {
      size := sets.TotalLength();
    }

    /** is_solved: the conjunction of `len == 1` over every cell. */
    method IsSolved() returns (r: bool)
      requires Valid()
      ensures r <==> AllSingletons(sets.cells)
    {
      r := true;
      var i := 0;
      while i < |sets.order|
        invariant 0 <= i <= |sets.order|
        invariant r <==> forall j :: 0 <= j < i ==> |sets.cells[sets.order[j]]| == 1
      {
        r := r && |sets.cells[sets.order[i]]| == 1;
        i := i + 1;
      }
      if !r {
        var j :| 0 <= j < i && |sets.cells[sets.order[j]]| != 1;
        assert sets.order[j] in sets.cells;
      } else {
        forall k | k in sets.cells
          ensures |sets.cells[k]| == 1
        {
          var j :| 0 <= j < |sets.order| && sets.order[j] == k;
        }
      }
    }

    /** contains_null: whether some cell is empty, stopping at the first. */
    method ContainsNull() returns (r: bool)
      requires Valid()
      ensures r <==> HasEmptyCell(sets.cells)
    {
      var i := 0;
      while i < |sets.order|
        invariant 0 <= i <= |sets.order|
        invariant forall j :: 0 <= j < i ==> sets.cells[sets.order[j]] != {}
      {
        if |sets.cells[sets.order[i]]| == 0 {
          return true;
        }
        i := i + 1;
      }
      r := false;
      forall k | k in sets.cells
        ensures sets.cells[k] != {}
      {
        var j :| 0 <= j < |sets.order| && sets.order[j] == k;
      }
    }

    // the clue functions ----------------------------------------------------

    /** set_element: a on b's category becomes a subset of {b}, every other
        value of a's category loses b, then the same with a and b swapped.
        Always returns True. */
    method SetElement(a: Value, b: Value) returns (r: bool)
      requires Valid() && Linked(categories, a, b)
      modifies sets
      ensures Valid() && sets.order == old(sets.order)
      ensures sets.cells == Bind(categories, old(sets.cells), Cat(categories, a), a, Cat(categories, b), b)
      ensures r
    {
      r := Logic.SetElement(a, b, sets, categories, false);
    }

    /** set_not_element: b leaves a's cell and a leaves b's cell. Always
        returns True. */
    method SetNotElement(a: Value, b: Value) returns (r: bool)
      requires Valid() && Linked(categories, a, b)
      modifies sets
      ensures Valid() && sets.order == old(sets.order)
      ensures sets.cells == NotBoth(old(sets.cells), Cat(categories, a), a, Cat(categories, b), b)
      ensures r
    {
      r := SetNotElementBoth(a, b, sets, categories);
    }

    /** is_one_of: "a is b or x". */
    method IsOneOf(a: Value, b: Value, x: Value) returns (r: bool)
      requires Valid() && Linked(categories, a, b) && Linked(categories, a, x) && Linked(categories, b, x)
      modifies sets
      ensures Valid() && sets.order == old(sets.order)
      ensures (sets.cells, r) == OneOf(categories, old(sets.cells), Cat(categories, a), a, Cat(categories, b), b,
                                       Cat(categories, x), x)
    {
      r := Logic.IsOneOf(a, b, x, sets, categories);
    }

    /** multi_is_one_of, with the copying pair_categories of this class. The
        lists come back shortened by the pairs found. */
    method MultiIsOneOf(xs: seq<Value>, ys: seq<Value>) returns (r: Outcome<(seq<Value>, seq<Value>, bool)>)
      requires Valid()
      modifies sets
      ensures Valid() && sets.order == old(sets.order)
      ensures var s := Multi.MultiIsOneOf(categories, old(sets.cells), xs, ys, false);
        && (r.Raised? <==> s.Raised?)
        && (r.Returned? ==> sets.cells == s.value.0 && r.value == (s.value.1, s.value.2, s.value.3))
    {
      r := Logic.MultiIsOneOf(xs, ys, sets, categories, false);
    }

    /** greater_than, followed by return_exclusion on both narrowed cells. */
    method GreaterThan(a: Value, b: Value, cat: Name, offset: Option<int>) returns (r: Outcome<bool>)
      requires Valid() && Known(categories, a) && Known(categories, b) && cat in categories.members
      requires cat != Cat(categories, a) && cat != Cat(categories, b)
      modifies sets
      ensures Valid() && sets.order == old(sets.order)
      ensures var s := Clues.GreaterThan(categories, old(sets.cells), Cat(categories, a), a, Cat(categories, b), b,
                                         cat, offset, true);
        && (r.Raised? <==> s.Raised?)
        && (r.Returned? ==> sets.cells == s.value.0 && r.value == s.value.1)
    {
      r := GreaterThanExcluding(a, b, cat, offset, sets, categories);
    }

    // the sweeps ------------------------------------------------------------

    /** return_exclusion: every value y of B missing from a's cell on B has
        a taken out of its cell on A (and, through the two-way
        set_not_element, y out of a's cell, where it already is not). */
    method ReturnExclusion(ca: Name, a: Value, cb: Name)
      requires Valid() && ca in categories.members && cb in categories.members && ca != cb
      requires a in categories.members[ca]
      modifies sets
      ensures Valid() && sets.order == old(sets.order)
      ensures sets.cells == Clues.ReturnExclusion(categories, old(sets.cells), ca, a, cb)
    {
      Calls.ReturnExclusion(ca, a, cb, sets, categories);
    }

    /** return_exclusion_all. */
    method ReturnExclusionAll()
      requires Valid()
      modifies sets
      ensures Valid() && sets.order == old(sets.order)
      ensures sets.cells == OverCategories(Sweeps.ReturnExclusionAll, categories, old(sets.cells), categories.names)
    {
      Passes.SweepCells(Sweeps.ReturnExclusionAll, sets, categories);
    }

    /** symmetrize: set_element(b, a) for every solved cell (A, a, B) = {b}. */
    method Symmetrize()
      requires Valid()
      modifies sets
      ensures Valid() && sets.order == old(sets.order)
      ensures sets.cells == KeyFold(BindSymmetric, categories, old(sets.cells), old(sets.order))
    {
      Passes.SweepKeys(BindSymmetric, sets, categories);
    }

    /** chain_relation: for a solved cell (A, a, B) = {b}, a and b share
        the intersection of their cells on every third category. */
    method ChainRelation()
      requires Valid()
      modifies sets
      ensures Valid() && sets.order == old(sets.order)
      ensures sets.cells == KeyFold(Sweeps.ChainRelation, categories, old(sets.cells), old(sets.order))
    {
      Passes.SweepKeys(Sweeps.ChainRelation, sets, categories);
    }

    /** n_of_n, whose exclusions go through the two-way set_not_element. */
    method NOfN()
      requires Valid()
      modifies sets
      ensures Valid() && sets.order == old(sets.order)
      ensures sets.cells == Sweeps.NOfN(categories, old(sets.cells), categories.names, true)
    {
      Passes.NOfNPass(true, sets, categories);
    }

    /** exclude_n_of_n: every value of A outside the group loses every
        value of the shared set (and each of those loses it in turn). */
    method ExcludeNOfN(same: seq<Value>, elements: set<Value>, ca: Name, cb: Name)
      requires Valid() && ca in categories.members && cb in categories.members && ca != cb
      requires elements <= FullSet(categories, cb)
      modifies sets
      ensures Valid() && sets.order == old(sets.order)
      ensures sets.cells == ExcludeGroup(old(sets.cells), ca, cb, same, elements, categories.members[ca], true)
    {
      assert forall x :: x in categories.members[ca] ==> IsKey(categories, Key(ca, x, cb));
      assert forall y :: y in elements ==> IsKey(categories, Key(cb, y, ca));
      Passes.ExcludeGroupPass(ca, cb, same, elements, categories.members[ca], true, sets);
      ShrinksKeepsSane(categories, old(sets.cells), sets.cells);
    }

    // solving ---------------------------------------------------------------

    /** solve_clues: one pass, each unsolved clue's flag set to its result. */
    method SolveClues() returns (r: Outcome<()>)
      requires Valid()
      modifies this, sets
      ensures Valid() && sets.order == old(sets.order) && categories == old(categories)
      ensures solutions == old(solutions)
      ensures r.Raised? <==> CluePass(PuzzleClass, categories, old(sets.cells), old(clues)).Raised?
      ensures r.Returned? ==> CluePass(PuzzleClass, categories, old(sets.cells), old(clues)) == Returned((sets.cells, clues))
    {
      var pass := RunClues(PuzzleClass, clues, sets, categories);
      if pass.Raised? {
        return Raised;
      }
      clues := pass.value;
      return Returned(());
    }

    /** One iteration of the loop of solve. */
    method SolveRound() returns (r: Outcome<()>)
      requires Valid()
      modifies this, sets
      ensures Valid() && sets.order == old(sets.order) && categories == old(categories)
      ensures solutions == old(solutions)
      ensures r.Raised? <==> PuzzleRound(categories, old(sets.cells), old(clues), old(sets.order)).Raised?
      ensures r.Returned? ==>
        PuzzleRound(categories, old(sets.cells), old(clues), old(sets.order)) == Returned((sets.cells, clues))
    {
      r := SolveClues();
      if r.Raised? {
        return;
      }
      Symmetrize();
      ChainRelation();
      ReturnExclusionAll();
      NOfN();
    }

    /** The loop of solve: rounds until the total length is unchanged. */
    method SolveLoop() returns (r: Outcome<()>)
      requires Valid()
      modifies this, sets
      ensures Valid() && sets.order == old(sets.order) && categories == old(categories)
      ensures solutions == old(solutions)
      ensures r.Raised? <==> PuzzleLoop(categories, old(sets.cells), old(clues), old(sets.order)).Raised?
      ensures r.Returned? ==>
        PuzzleLoop(categories, old(sets.cells), old(clues), old(sets.order)) == Returned((sets.cells, clues))
    {
      ghost var goal := PuzzleLoop(categories, sets.cells, clues, sets.order);
      var change := true;
      while change
        invariant Valid() && sets.order == old(sets.order) && categories == old(categories)
        invariant solutions == old(solutions)
        invariant change ==> goal == PuzzleLoop(categories, sets.cells, clues, sets.order)
        invariant !change ==> goal == Returned((sets.cells, clues))
        decreases Size(sets.cells, sets.order) + (if change then 1 else 0)
      {
        var before := GetTotalLength();
        ghost var c := sets.cells;
        r := SolveRound();
        if r.Raised? {
          return;
        }
        var after := GetTotalLength();
        SizeShrinks(c, sets.cells, sets.order);
        change := before != after;
      }
      return Returned(());
    }

    /** set_solutions: nothing when the store is not solved; otherwise
        list(...)[0] of the category names, which raises IndexError when
        there is none (before the old solutions are cleared), then the
        rows. */
    method SetSolutions() returns (r: Outcome<()>)
      requires Valid()
      modifies this
      ensures categories == old(categories) && clues == old(clues)
      ensures r.Raised? <==> AllSingletons(sets.cells) && |categories.names| == 0
      ensures r.Raised? || !AllSingletons(sets.cells) ==> solutions == old(solutions)
      ensures r.Returned? && AllSingletons(sets.cells) ==>
        |categories.names| > 0 && solutions == PuzzleSolutions(categories, sets.cells)
    {
      var solved := IsSolved();
      if !solved {
        return Returned(());
      }
      if |categories.names| == 0 {
        return Raised;
      }
      solutions := CollectValueRows(categories, sets.cells);
      return Returned(());
    }

    /** solve: the loop, then the solutions when every cell is a singleton.
        Writing them to a file is not part of this model. */
    method Solve() returns (r: Outcome<()>)
      requires Valid()
      modifies this, sets
      ensures Valid() && categories == old(categories)
      ensures r.Raised? <==>
        || PuzzleLoop(categories, old(sets.cells), old(clues), old(sets.order)).Raised?
        || (&& PuzzleLoop(categories, old(sets.cells), old(clues), old(sets.order)).Returned?
            && AllSingletons(PuzzleLoop(categories, old(sets.cells), old(clues), old(sets.order)).value.0)
            && |categories.names| == 0)
      ensures r.Returned? ==>
        PuzzleLoop(categories, old(sets.cells), old(clues), old(sets.order)) == Returned((sets.cells, clues))
      ensures r.Returned? && AllSingletons(sets.cells) ==>
        |categories.names| > 0 && solutions == PuzzleSolutions(categories, sets.cells)
      ensures r.Returned? && !AllSingletons(sets.cells) ==> solutions == old(solutions)
    {
      r := SolveLoop();
      if r.Raised? {
        return;
      }
      var solved := IsSolved();
      if solved {
        r := SetSolutions();
      }
    }
  }

  /** The rows of set_solutions, keyed by the values of the first
      category. */
  method CollectValueRows(cats: Categories, c: Cells) returns (rows: map<Value, seq<Value>>)
    requires WellFormed(cats) && Sane(cats, c) && AllSingletons(c) && |cats.names| > 0
    ensures rows == PuzzleSolutions(cats, c)
  {
    var p := cats.names[0];
    assert forall el, n :: el in cats.members[p] && n in cats.names && n != p ==> IsKey(cats, Key(p, el, n));
    rows := BuildValueRows(c, p, cats.names, cats.members[p]);
    assert rows == PuzzleSolutions(cats, c);
  }

  /** The loops of set_solutions: an empty row for every value of the first
      category p, then for every other category the element of each
      (singleton) cell appended to its row. */
  method BuildValueRows(c: Cells, p: Name, ns: seq<Name>, els: seq<Value>) returns (solutions: map<Value, seq<Value>>)
    requires forall i, j :: 0 <= i < j < |els| ==> els[i] != els[j]
    requires forall el, n :: el in els && n in ns && n != p ==> Key(p, el, n) in c && |c[Key(p, el, n)]| == 1
    ensures solutions == ValueRowsOf(c, p, ns, els)
  {
    solutions := Solver.EmptyRows(els);
    var j := 0;
    while j < |ns|
      invariant 0 <= j <= |ns|
      invariant forall el :: el in solutions <==> el in els
      invariant forall el :: el in els ==> solutions[el] == ValueRow(c, p, el, ns[..j])
    {
      solutions := BuildValueRowsStep(c, p, ns, els, j, solutions);
      j := j + 1;
    }
    assert ns[..j] == ns;
    ValueRowsOfIs(c, p, ns, els, solutions);
  }

  /** One iteration of the loop over the categories: the j-th. */
  method BuildValueRowsStep(c: Cells, p: Name, ns: seq<Name>, els: seq<Value>, j: nat,
                            solutions: map<Value, seq<Value>>) returns (solutions': map<Value, seq<Value>>)
    requires j < |ns| && forall i, k :: 0 <= i < k < |els| ==> els[i] != els[k]
    requires forall el, n :: el in els && n in ns && n != p ==> Key(p, el, n) in c && |c[Key(p, el, n)]| == 1
    requires forall el :: el in solutions <==> el in els
    requires forall el :: el in els ==> solutions[el] == ValueRow(c, p, el, ns[..j])
    ensures forall el :: el in solutions' <==> el in els
    ensures forall el :: el in els ==> solutions'[el] == ValueRow(c, p, el, ns[..j + 1])
  {
    ValueRowsSnoc(c, p, ns, els, j);
    solutions' := solutions;
    if ns[j] != p {
      solutions' := AppendValues(c, p, ns[j], els, solutions);
    }
  }

  /** A map with a row for exactly the values of els, each the row over
      ns, is ValueRowsOf. */
  lemma ValueRowsOfIs(c: Cells, p: Name, ns: seq<Name>, els: seq<Value>, solutions: map<Value, seq<Value>>)
    requires forall el, n :: el in els && n in ns && n != p ==> Key(p, el, n) in c && |c[Key(p, el, n)]| == 1
    requires forall el :: el in solutions <==> el in els
    requires forall el :: el in els ==> solutions[el] == ValueRow(c, p, el, ns)
    ensures solutions == ValueRowsOf(c, p, ns, els)
  {
    ghost var want := ValueRowsOf(c, p, ns, els);
    assert forall el :: el in solutions <==> el in want;
    assert forall el :: el in want ==> solutions[el] == want[el];
  }

  /** `for key in solutions`: the element of each value's cell on n
      appended to its row. */
  method AppendValues(c: Cells, p: Name, n: Name, els: seq<Value>, solutions: map<Value, seq<Value>>)
    returns (solutions': map<Value, seq<Value>>)
    requires forall i, j :: 0 <= i < j < |els| ==> els[i] != els[j]
    requires forall el :: el in solutions <==> el in els
    requires forall el :: el in els ==> Key(p, el, n) in c && |c[Key(p, el, n)]| == 1
    ensures forall el :: el in solutions' <==> el in els
    ensures forall el :: el in els ==> solutions'[el] == solutions[el] + [Only(c[Key(p, el, n)])]
  {
    solutions' := solutions;
    var m := 0;
    while m < |els|
      invariant 0 <= m <= |els|
      invariant forall el :: el in solutions' <==> el in els
      invariant forall el :: el in els[..m] ==> solutions'[el] == solutions[el] + [Only(c[Key(p, el, n)])]
      invariant forall el :: el in els && el !in els[..m] ==> solutions'[el] == solutions[el]
    {
      var el := els[m];
      assert el !in els[..m];
      solutions' := solutions'[el := solutions'[el] + [Only(c[Key(p, el, n)])]];
      assert els[..m + 1] == els[..m] + [el];
      m := m + 1;
    }
    assert els[..m] == els;
  }
}
