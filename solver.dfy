/**
 * The module-level engine of Logic.py: its inference sweeps over an
 * explicitly passed store, is_solved, and the two fixed-point loops
 * solve_clues and solve_puzzle.
 */
module Solver {
  import opened Grid
  import opened Clues
  import opened Sweeps
  import opened Calls
  import Passes

  // the sweeps ----------------------------------------------------------------

  /** symmetrize: every solved cell (A, a, B) = {b} overwrites (B, b, A)
      with {a}, key by key in insertion order. */
  method Symmetrize(store: SetStore, cats: Categories)
    requires store.Valid(cats)
    modifies store
    ensures store.Valid(cats) && store.order == old(store.order)
    ensures store.cells == KeyFold(WriteSymmetric, cats, old(store.cells), old(store.order))
  {
    Passes.SweepKeys(WriteSymmetric, store, cats);
  }

  /** exclude_solved: a solved cell (A, a, B) = {b} takes b out of the cell
      on B of every other value of A. */
  method ExcludeSolved(store: SetStore, cats: Categories)
    requires store.Valid(cats)
    modifies store
    ensures store.Valid(cats) && store.order == old(store.order)
    ensures store.cells == KeyFold(Sweeps.ExcludeSolved, cats, old(store.cells), old(store.order))
  {
    Passes.SweepKeys(Sweeps.ExcludeSolved, store, cats);
  }

  /** chain_sets: (A, a, C) is cut down to the union of the cells on C of
      the candidates of (A, a, B), for every key and every third C. */
  method ChainSets(store: SetStore, cats: Categories)
    requires store.Valid(cats)
    modifies store
    ensures store.Valid(cats) && store.order == old(store.order)
    ensures store.cells == KeyFold(Sweeps.ChainSets, cats, old(store.cells), old(store.order))
  {
    Passes.SweepKeys(Sweeps.ChainSets, store, cats);
  }

  /** remove_chain_exclusion: a solved cell (A, a, B) = {b} takes b out of
      the cell on B of every value of C that a's cell on C rules out. */
  method RemoveChainExclusion(store: SetStore, cats: Categories)
    requires store.Valid(cats)
    modifies store
    ensures store.Valid(cats) && store.order == old(store.order)
    ensures store.cells == KeyFold(Sweeps.RemoveChainExclusion, cats, old(store.cells), old(store.order))
  {
    Passes.SweepKeys(Sweeps.RemoveChainExclusion, store, cats);
  }

  /** solve_all_singleton: solve_singleton for every value of every
      category on every other category. */
  method SolveAllSingleton(store: SetStore, cats: Categories)
    requires store.Valid(cats)
    modifies store
    ensures store.Valid(cats) && store.order == old(store.order)
    ensures store.cells == OverCategories(Sweeps.SolveAllSingleton, cats, old(store.cells), cats.names)
  {
    Passes.SweepCells(Sweeps.SolveAllSingleton, store, cats);
  }

  /** n_of_n of Logic.py, whose exclusions are one-directional. */
  method NOfN(store: SetStore, cats: Categories)
    requires store.Valid(cats)
    modifies store
    ensures store.Valid(cats) && store.order == old(store.order)
    ensures store.cells == Sweeps.NOfN(cats, old(store.cells), cats.names, false)
  {
    Passes.NOfNPass(false, store, cats);
  }

  // is_solved -----------------------------------------------------------------

  /** The largest cell has exactly one candidate. */
  ghost predicate LargestIsOne(c: Cells) {
    (exists k :: k in c && |c[k]| == 1) && forall k :: k in c ==> |c[k]| <= 1
  }

  /** is_solved of Logic.py: the running maximum of the cell sizes, compared
      with 1. An empty store is not solved; neither is one where some cell
      is a singleton and every other is empty. */
  method IsSolved(store: SetStore) returns (r: bool)
    requires store.Ordered()
    ensures r <==> LargestIsOne(store.cells)
  {
    var largest := 0;
    var i := 0;
    while i < |store.order|
      invariant 0 <= i <= |store.order|
      invariant forall j :: 0 <= j < i ==> |store.cells[store.order[j]]| <= largest
      invariant largest == 0 || exists j :: 0 <= j < i && |store.cells[store.order[j]]| == largest
    {
      var n := |store.cells[store.order[i]]|;
      if n > largest {
        largest := n;
      }
      i := i + 1;
    }
    r := largest == 1;
    if r {
      var j :| 0 <= j < i && |store.cells[store.order[j]]| == 1;
      assert store.order[j] in store.cells;
    }
    if LargestIsOne(store.cells) {
      var k :| k in store.cells && |store.cells[k]| == 1;
      assert exists j :: 0 <= j < |store.order| && store.order[j] == k;
    }
  }

  // solve_clues -----------------------------------------------------------------

  /** The loop of solve_clues once it has started: a pass, then another as
      long as the pass changed the total length. It ends because every pass
      only shrinks cells. */
  ghost function CluesToFixpoint(cats: Categories, c: Cells, clues: seq<Clue>, ks: seq<Key>): (r: Outcome<(Cells, seq<Clue>)>)
    ensures r.Returned? ==> Shrinks(c, r.value.0) && |r.value.1| == |clues|
    decreases Size(c, ks)
  {
    match CluePass(LogicModule, cats, c, clues)
    case Raised => Raised
    case Returned((c', clues')) =>
      SizeShrinks(c, c', ks);
      if Size(c', ks) == Size(c, ks) then Returned((c', clues'))
      else
        var r := CluesToFixpoint(cats, c', clues', ks);
        if r.Returned? then ShrinksTransitive(c, c', r.value.0); r else r
  }

  /** solve_clues of Logic.py: nothing happens when every clue is already
      used up, otherwise passes run to the fixed point. */
  ghost function SolveCluesSpec(cats: Categories, c: Cells, clues: seq<Clue>, ks: seq<Key>): (r: Outcome<(Cells, seq<Clue>)>)
    ensures r.Returned? ==> Shrinks(c, r.value.0) && |r.value.1| == |clues|
  {
    if forall i :: 0 <= i < |clues| ==> clues[i].solved then Returned((c, clues))
    else CluesToFixpoint(cats, c, clues, ks)
  }

  /** solve_clues returns only after a pass that ran from the cells it
      returns and left every one of them unchanged. */
  lemma {:induction false} CluesToFixpointEndsIdle(cats: Categories, c: Cells, clues: seq<Clue>, ks: seq<Key>)
    requires forall k :: k in c <==> k in ks
    requires CluesToFixpoint(cats, c, clues, ks).Returned?
    ensures var (c', clues') := CluesToFixpoint(cats, c, clues, ks).value;
      exists before :: CluePass(LogicModule, cats, c', before) == Returned((c', clues'))
    decreases Size(c, ks)
  {
    var (c1, clues1) := CluePass(LogicModule, cats, c, clues).value;
    SizeShrinks(c, c1, ks);
    if Size(c1, ks) == Size(c, ks) {
      UnchangedSizeIsFixpoint(c, c1, ks);
      assert CluePass(LogicModule, cats, c1, clues) == Returned((c1, clues1));
    } else {
      CluesToFixpointEndsIdle(cats, c1, clues1, ks);
    }
  }

  /** solve_clues of Logic.py, with the flags of the `solved` list kept in
      the clues themselves. */
  method SolveClues(clues: seq<Clue>, store: SetStore, cats: Categories) returns (r: Outcome<seq<Clue>>)
    requires store.Valid(cats)
    modifies store
    ensures store.Valid(cats) && store.order == old(store.order)
    ensures r.Raised? <==> SolveCluesSpec(cats, old(store.cells), clues, old(store.order)).Raised?
    ensures r.Returned? ==> SolveCluesSpec(cats, old(store.cells), clues, old(store.order)) == Returned((store.cells, r.value))
  {
    var ks := store.order;
    var current := clues;
    var changed := !(forall i :: 0 <= i < |clues| ==> clues[i].solved);
    while changed
      invariant store.Valid(cats) && store.order == ks
      invariant SolveCluesSpec(cats, old(store.cells), clues, ks) ==
        if changed then CluesToFixpoint(cats, store.cells, current, ks) else Returned((store.cells, current))
      decreases Size(store.cells, ks) + (if changed then 1 else 0)
    {
      var before := store.TotalLength();
      ghost var c := store.cells;
      var pass := RunClues(LogicModule, current, store, cats);
      if pass.Raised? {
        return Raised;
      }
      current := pass.value;
      var after := store.TotalLength();
      SizeShrinks(c, store.cells, ks);
      changed := before != after;
    }
    return Returned(current);
  }

  // solve_puzzle --------------------------------------------------------------

  /** One round of the loop of solve_puzzle: the clues to their fixed
      point, then chain_sets, exclude_solved, solve_all_singleton, n_of_n,
      remove_chain_exclusion and symmetrize. */
  ghost function LogicRound(cats: Categories, c: Cells, clues: seq<Clue>, ks: seq<Key>): (r: Outcome<(Cells, seq<Clue>)>)
    requires WellFormed(cats)
    ensures r.Returned? ==> |r.value.1| == |clues|
  {
    match SolveCluesSpec(cats, c, clues, ks)
    case Raised => Raised
    case Returned((c1, clues1)) =>
      var c2 := KeyFold(Sweeps.ChainSets, cats, c1, ks);
      var c3 := KeyFold(Sweeps.ExcludeSolved, cats, c2, ks);
      var c4 := OverCategories(Sweeps.SolveAllSingleton, cats, c3, cats.names);
      var c5 := Sweeps.NOfN(cats, c4, cats.names, false);
      var c6 := KeyFold(Sweeps.RemoveChainExclusion, cats, c5, ks);
      Returned((KeyFold(WriteSymmetric, cats, c6, ks), clues1))
  }

  /** How the loop of solve_puzzle ends: the total length stopped changing,
      a clue raised, or the bound on rounds ran out. */
  datatype Run = Settled(cells: Cells, clues: seq<Clue>) | Crashed | OutOfRounds

  /** The loop of solve_puzzle, for at most `rounds` rounds. symmetrize may
      overwrite an empty or different cell with {a}, so a round can grow
      the total length and the loop has no measure that always decreases. */
  ghost function Rounds(cats: Categories, c: Cells, clues: seq<Clue>, ks: seq<Key>, rounds: nat): (r: Run)
    requires WellFormed(cats)
    ensures r.Settled? ==> |r.clues| == |clues|
    decreases rounds
  {
    if rounds == 0 then OutOfRounds
    else
      match LogicRound(cats, c, clues, ks)
      case Raised => Crashed
      case Returned((c', clues')) =>
        if Size(c', ks) == Size(c, ks) then Settled(c', clues')
        else Rounds(cats, c', clues', ks, OneFewer(rounds))
  }

  /** The bound left after one more round. */
  function OneFewer(rounds: nat): (r: nat)
    requires rounds > 0
    ensures r < rounds
  {
    rounds - 1
  }

  /** A solved store has a cell, so there is a first category. */
  lemma SolvedHasCategories(cats: Categories, c: Cells)
    requires WellFormed(cats) && Sane(cats, c) && LargestIsOne(c)
    ensures |cats.names| > 0
  {
    var k :| k in c && |c[k]| == 1;
    assert k.catA in cats.names;
  }

  /** The values of the first category have a cell on every other one. */
  lemma PrimaryKeys(cats: Categories, c: Cells)
    requires WellFormed(cats) && Sane(cats, c) && |cats.names| > 0
    ensures forall el, i :: el in cats.members[cats.names[0]] && 1 <= i < |cats.names| ==>
      Key(cats.names[0], el, cats.names[i]) in c
    ensures forall el, i :: el in cats.members[cats.names[0]] && 0 <= i < |cats.names[1..]| ==>
      Key(cats.names[0], el, cats.names[1..][i]) in c
  {
    forall el, i | el in cats.members[cats.names[0]] && 1 <= i < |cats.names|
      ensures Key(cats.names[0], el, cats.names[i]) in c
    {
      assert IsKey(cats, Key(cats.names[0], el, cats.names[i]));
    }
    forall el, i | el in cats.members[cats.names[0]] && 0 <= i < |cats.names[1..]|
      ensures Key(cats.names[0], el, cats.names[1..][i]) in c
    {
      assert cats.names[1..][i] == cats.names[i + 1];
    }
  }

  /** The cells of el (a value of the first category p) on the categories
      ns, in order. */
  ghost function Row(c: Cells, p: Name, el: Value, ns: seq<Name>): (r: seq<set<Value>>)
    requires forall i :: 0 <= i < |ns| ==> Key(p, el, ns[i]) in c
    ensures |r| == |ns| && forall i :: 0 <= i < |ns| ==> r[i] == c[Key(p, el, ns[i])]
  {
    seq(|ns|, i requires 0 <= i < |ns| => c[Key(p, el, ns[i])])
  }

  /** A row for every value of els. */
  ghost function RowsOf(c: Cells, p: Name, ns: seq<Name>, els: seq<Value>): (r: map<Value, seq<set<Value>>>)
    requires forall el, i :: el in els && 0 <= i < |ns| ==> Key(p, el, ns[i]) in c
    ensures forall el :: el in r <==> el in els
  {
    map el | el in els :: Row(c, p, el, ns)
  }

  /** The map solve_puzzle returns: empty unless the store is solved;
      otherwise keyed by the values of the first category, each with its
      cells on the remaining categories in declaration order. */
  ghost function Solutions(cats: Categories, c: Cells): (r: map<Value, seq<set<Value>>>)
    requires WellFormed(cats) && Sane(cats, c)
    ensures r != map[] ==> LargestIsOne(c)
    ensures LargestIsOne(c) ==> |cats.names| > 0 && (forall el :: el in r <==> el in cats.members[cats.names[0]])
    ensures forall el :: el in r ==>
      (forall i :: 1 <= i < |cats.names| ==> Key(cats.names[0], el, cats.names[i]) in c) &&
      r[el] == Row(c, cats.names[0], el, cats.names[1..])
  {
    if !LargestIsOne(c) then map[]
    else
      SolvedHasCategories(cats, c);
      PrimaryKeys(cats, c);
      RowsOf(c, cats.names[0], cats.names[1..], cats.members[cats.names[0]])
  }

  // the loop of solve_puzzle, imperatively --------------------------------------

  /** One round of the loop of solve_puzzle. */
  method Round(clues: seq<Clue>, store: SetStore, cats: Categories) returns (r: Outcome<seq<Clue>>)
    requires store.Valid(cats)
    modifies store
    ensures store.Valid(cats) && store.order == old(store.order)
    ensures r.Raised? <==> LogicRound(cats, old(store.cells), clues, old(store.order)).Raised?
    ensures r.Returned? ==> LogicRound(cats, old(store.cells), clues, old(store.order)) == Returned((store.cells, r.value))
  {
    var res := SolveClues(clues, store, cats);
    if res.Raised? {
      return Raised;
    }
    ChainSets(store, cats);
    ExcludeSolved(store, cats);
    SolveAllSingleton(store, cats);
    NOfN(store, cats);
    RemoveChainExclusion(store, cats);
    Symmetrize(store, cats);
    return Returned(res.value);
  }

  /** One iteration of `for key in solutions`: the cell on category n
      appended to the row of every value in els (the first category p). */
  method AppendColumn(c: Cells, p: Name, n: Name, els: seq<Value>, solutions: map<Value, seq<set<Value>>>)
    returns (solutions': map<Value, seq<set<Value>>>)
    requires forall i, j :: 0 <= i < j < |els| ==> els[i] != els[j]
    requires forall el :: el in solutions <==> el in els
    requires forall el :: el in els ==> Key(p, el, n) in c
    ensures forall el :: el in solutions' <==> el in els
    ensures forall el :: el in els ==> solutions'[el] == solutions[el] + [c[Key(p, el, n)]]
  {
    solutions' := solutions;
    var m := 0;
    while m < |els|
      invariant 0 <= m <= |els|
      invariant forall el :: el in solutions' <==> el in els
      invariant forall el :: el in els[..m] ==> solutions'[el] == solutions[el] + [c[Key(p, el, n)]]
      invariant forall el :: el in els && el !in els[..m] ==> solutions'[el] == solutions[el]
    {
      var el := els[m];
      assert el !in els[..m];
      solutions' := solutions'[el := solutions'[el] + [c[Key(p, el, n)]]];
      assert els[..m + 1] == els[..m] + [el];
      m := m + 1;
    }
    assert els[..m] == els;
  }

  /** `solutions[el] = []` for every value of the first category. */
  method EmptyRows<T>(els: seq<Value>) returns (solutions: map<Value, seq<T>>)
    ensures forall el :: el in solutions <==> el in els
    ensures forall el :: el in solutions ==> solutions[el] == []
  {
    solutions := map[];
    var l := 0;
    while l < |els|
      invariant 0 <= l <= |els|
      invariant forall el :: el in solutions <==> el in els[..l]
      invariant forall el :: el in solutions ==> solutions[el] == []
    {
      solutions := solutions[els[l] := []];
      assert els[..l + 1] == els[..l] + [els[l]];
      l := l + 1;
    }
    assert els[..l] == els;
  }

  /** The two loops that fill the map: an empty row for every value of
      els, then one column per category of ns. */
  method BuildRows(c: Cells, p: Name, ns: seq<Name>, els: seq<Value>) returns (solutions: map<Value, seq<set<Value>>>)
    requires forall i, j :: 0 <= i < j < |els| ==> els[i] != els[j]
    requires forall el, i :: el in els && 0 <= i < |ns| ==> Key(p, el, ns[i]) in c
    ensures solutions == RowsOf(c, p, ns, els)
  {
    solutions := EmptyRows(els);
    var j := 0;
    while j < |ns|
      invariant 0 <= j <= |ns|
      invariant forall el :: el in solutions <==> el in els
      invariant forall el :: el in els ==> |solutions[el]| == j
      invariant forall el, i :: el in els && 0 <= i < j ==> solutions[el][i] == c[Key(p, el, ns[i])]
    {
      solutions := AppendColumn(c, p, ns[j], els, solutions);
      j := j + 1;
    }
    forall el | el in els
      ensures solutions[el] == Row(c, p, el, ns)
    {
    }
    ghost var want := RowsOf(c, p, ns, els);
    assert forall el :: el in solutions <==> el in want;
    assert forall el :: el in want ==> solutions[el] == want[el];
  }

  /** The tail of solve_puzzle once the store is solved. */
  method CollectSolutions(store: SetStore, cats: Categories) returns (solutions: map<Value, seq<set<Value>>>)
    requires store.Valid(cats) && LargestIsOne(store.cells)
    ensures solutions == Solutions(cats, store.cells)
  {
    SolvedHasCategories(cats, store.cells);
    PrimaryKeys(cats, store.cells);
    var names := cats.names;
    solutions := BuildRows(store.cells, names[0], names[1..], cats.members[names[0]]);
  }

  /** One iteration of the loop of solve_puzzle, with the comparison of
      the total length before and after the round. */
  method RoundStep(clues: seq<Clue>, left: nat, store: SetStore, cats: Categories)
    returns (r: Outcome<(seq<Clue>, bool)>, next: nat)
    requires store.Valid(cats) && left > 0
    modifies store
    ensures store.Valid(cats) && store.order == old(store.order) && next < left
    ensures var run := Rounds(cats, old(store.cells), clues, old(store.order), left);
      && (r.Raised? ==> run == Crashed)
      && (r.Returned? ==> run == if r.value.1 then Rounds(cats, store.cells, r.value.0, store.order, next)
                                 else Settled(store.cells, r.value.0))
  {
    next := OneFewer(left);
    var before := store.TotalLength();
    var res := Round(clues, store, cats);
    if res.Raised? {
      return Raised, next;
    }
    var after := store.TotalLength();
    return Returned((res.value, before != after)), next;
  }

  /** The loop of solve_puzzle, for at most `rounds` rounds. */
  method RunRounds(clues: seq<Clue>, store: SetStore, cats: Categories, rounds: nat) returns (r: Run)
    requires store.Valid(cats)
    modifies store
    ensures store.Valid(cats) && store.order == old(store.order)
    ensures r == Rounds(cats, old(store.cells), clues, old(store.order), rounds)
    ensures r.Settled? ==> store.cells == r.cells
  {
    var ks := store.order;
    var current := clues;
    var left := rounds;
    var change := true;
    ghost var goal := Rounds(cats, store.cells, clues, ks, rounds);
    while change && left > 0
      invariant store.Valid(cats) && store.order == ks
      invariant change ==> goal == Rounds(cats, store.cells, current, ks, left)
      invariant !change ==> goal == Settled(store.cells, current)
      decreases left
    {
      var res, next := RoundStep(current, left, store, cats);
      if res.Raised? {
        return Crashed;
      }
      current, change, left := res.value.0, res.value.1, next;
    }
    if change {
      return OutOfRounds;
    }
    return Settled(store.cells, current);
  }

  /** The clues as solve_puzzle starts them: every one not yet used up. */
  function Unsolved(calls: seq<Call>): (r: seq<Clue>)
    ensures |r| == |calls| && forall i :: 0 <= i < |calls| ==> r[i] == Clue(calls[i], false)
  {
    if calls == [] then [] else Unsolved(calls[..|calls| - 1]) + [Clue(calls[|calls| - 1], false)]
  }

  /** solve_puzzle of Logic.py, for at most `rounds` rounds: every clue
      starts unsolved, the loop runs until a round leaves the total length
      unchanged, then the solutions are read when the store is solved. */
  method SolvePuzzle(calls: seq<Call>, store: SetStore, cats: Categories, rounds: nat)
    returns (r: Run, solutions: map<Value, seq<set<Value>>>)
    requires store.Valid(cats)
    modifies store
    ensures store.Valid(cats) && store.order == old(store.order)
    ensures r == Rounds(cats, old(store.cells), Unsolved(calls), old(store.order), rounds)
    ensures r.Settled? ==> store.cells == r.cells && solutions == Solutions(cats, r.cells)
    ensures !r.Settled? ==> solutions == map[]
  {
    var clues := Unsolved(calls);
    r := RunRounds(clues, store, cats, rounds);
    solutions := map[];
    if r.Settled? {
      var solved := IsSolved(store);
      if solved {
        solutions := CollectSolutions(store, cats);
      }
    }
  }

}
