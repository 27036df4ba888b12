/**
 * The clues of a puzzle and the pass over them. A clue is a call of one of
 * the five clue functions with its arguments, plus the flag that says the
 * clue has nothing more to give. Both versions of the engine run the same
 * calls; they differ in set_not_element (LogicPuzzle.py clears both
 * cells), in pair_categories (Logic.py stores the very set it then pops
 * from) and in greater_than (LogicPuzzle.py adds return_exclusion).
 */
module Calls {
  import opened Grid
  import opened Clues
  import opened Multi
  import Logic
  import Passes

  /** Which version of the engine runs the call. */
  datatype Version = LogicModule | PuzzleClass

  /** A clue function with its arguments. */
  datatype Call =
    | SetElementCall(a: Value, b: Value)                                 // "a is b"
    | SetNotElementCall(a: Value, b: Value)                              // "a is not b"
    | IsOneOfCall(a: Value, b: Value, v: Value)                          // "a is b or v"
    | MultiIsOneOfCall(xs: seq<Value>, ys: seq<Value>)                   // "each of xs is one of ys"
    | GreaterThanCall(a: Value, b: Value, cat: Name, offset: Option<int>) // "a's cat exceeds b's"

  /** A clue of the puzzle: the call and whether it is used up. */
  datatype Clue = Clue(call: Call, solved: bool)

  /** a and b have cells on each other's category: both are values of
      some category, and not of the same one. Otherwise the lookup of
      their cell raises KeyError. */
  predicate Linked(cats: Categories, a: Value, b: Value) {
    Known(cats, a) && Known(cats, b) && Cat(cats, a) != Cat(cats, b)
  }

  /** What a call does to the cells: the new cells, the call as it is left
      for the next pass (multi_is_one_of shortens its own argument lists)
      and whether the clue is used up; or Raised. */
  ghost function Apply(v: Version, cats: Categories, c: Cells, call: Call): (r: Outcome<(Cells, Call, bool)>)
    ensures r.Returned? ==> Shrinks(c, r.value.0)
    ensures r.Returned? && !call.MultiIsOneOfCall? ==> r.value.1 == call
    ensures r.Returned? && (call.SetElementCall? || call.SetNotElementCall?) ==> r.value.2
  {
    match call
    case SetElementCall(a, b) =>
      if !Linked(cats, a, b) then Raised
      else Returned((Bind(cats, c, Cat(cats, a), a, Cat(cats, b), b), call, true))
    case SetNotElementCall(a, b) =>
      if !Linked(cats, a, b) then Raised
      else if v == LogicModule then Returned((Remove(c, Key(Cat(cats, a), a, Cat(cats, b)), b), call, true))
      else Returned((NotBoth(c, Cat(cats, a), a, Cat(cats, b), b), call, true))
    case IsOneOfCall(a, b, x) =>
      if !(Linked(cats, a, b) && Linked(cats, a, x) && Linked(cats, b, x)) then Raised
      else
        var (c', done) := OneOf(cats, c, Cat(cats, a), a, Cat(cats, b), b, Cat(cats, x), x);
        Returned((c', call, done))
    case MultiIsOneOfCall(xs, ys) =>
      (match MultiIsOneOf(cats, c, xs, ys, v == LogicModule)
       case Raised => Raised
       case Returned((c', xs', ys', done)) => Returned((c', MultiIsOneOfCall(xs', ys'), done)))
    case GreaterThanCall(a, b, cat, offset) =>
      if !(Known(cats, a) && Known(cats, b) && cat in cats.members && cat != Cat(cats, a) && cat != Cat(cats, b))
      then Raised
      else
        match Clues.GreaterThan(cats, c, Cat(cats, a), a, Cat(cats, b), b, cat, offset, v == PuzzleClass)
        case Raised => Raised
        case Returned((c', done)) => Returned((c', call, done))
  }

  /** One pass over the clues (solve_clues of LogicPuzzle.py, the body of
      the loop in solve_clues of Logic.py): every clue not yet used up is
      called, in order, and its flag set to what the call returned. An
      exception ends the pass. */
  ghost function CluePass(v: Version, cats: Categories, c: Cells, clues: seq<Clue>): (r: Outcome<(Cells, seq<Clue>)>)
    ensures r.Returned? ==> Shrinks(c, r.value.0) && |r.value.1| == |clues|
    ensures r.Returned? ==> forall i :: 0 <= i < |clues| && clues[i].solved ==> r.value.1[i] == clues[i]
    decreases |clues|
  {
    if clues == [] then Returned((c, []))
    else
      match CluePass(v, cats, c, clues[..|clues| - 1])
      case Raised => Raised
      case Returned((c', done)) =>
        match ClueStep(v, cats, c', clues[|clues| - 1])
        case Raised => Raised
        case Returned((c'', cl)) =>
          ShrinksTransitive(c, c', c'');
          Returned((c'', done + [cl]))
  }

  /** One clue of the pass: a used-up clue is skipped; otherwise it is
      called and its flag set to what the call returned. */
  ghost function ClueStep(v: Version, cats: Categories, c: Cells, cl: Clue): (r: Outcome<(Cells, Clue)>)
    ensures r.Returned? ==> Shrinks(c, r.value.0)
    ensures cl.solved ==> r == Returned((c, cl))
  {
    if cl.solved then Returned((c, cl))
    else
      match Apply(v, cats, c, cl.call)
      case Raised => Raised
      case Returned((c', call', s)) => Returned((c', Clue(call', s)))
  }

  /** A pass over clues that are all used up changes nothing. */
  lemma {:induction false} CluePassSolved(v: Version, cats: Categories, c: Cells, clues: seq<Clue>)
    requires forall i :: 0 <= i < |clues| ==> clues[i].solved
    ensures CluePass(v, cats, c, clues) == Returned((c, clues))
    decreases |clues|
  {
    if clues != [] {
      CluePassSolved(v, cats, c, clues[..|clues| - 1]);
      assert clues[..|clues| - 1] + [clues[|clues| - 1]] == clues;
    }
  }

  // methods -----------------------------------------------------------------

  /** set_not_element of LogicPuzzle.py: b leaves a's cell on B, then the
      inner call takes a out of b's cell on A. Always returns True. */
  method SetNotElementBoth(a: Value, b: Value, store: SetStore, cats: Categories) returns (r: bool)
    requires store.Valid(cats) && Linked(cats, a, b)
    modifies store
    ensures store.Valid(cats) && store.order == old(store.order)
    ensures store.cells == NotBoth(old(store.cells), Cat(cats, a), a, Cat(cats, b), b)
    ensures r
  {
    var ca, cb := Cat(cats, a), Cat(cats, b);
    assert IsKey(cats, Key(ca, a, cb)) && IsKey(cats, Key(cb, b, ca));
    Logic.ExcludeBoth(ca, a, cb, b, store);
    ShrinksKeepsSane(cats, old(store.cells), store.cells);
    return true;
  }

  /** return_exclusion(A, a, B) of LogicPuzzle.py. */
  method ReturnExclusion(ca: Name, a: Value, cb: Name, store: SetStore, cats: Categories)
    requires store.Valid(cats) && ca in cats.members && cb in cats.members && ca != cb && a in cats.members[ca]
    modifies store
    ensures store.Valid(cats) && store.order == old(store.order)
    ensures store.cells == Clues.ReturnExclusion(cats, old(store.cells), ca, a, cb)
  {
    assert IsKey(cats, Key(ca, a, cb));
    assert forall y :: y in cats.members[cb] ==> IsKey(cats, Key(cb, y, ca));
    Passes.ExcludeMissingPass(ca, a, cb, ca, a, true, store, cats);
    ShrinksKeepsSane(cats, old(store.cells), store.cells);
  }

  /** greater_than of LogicPuzzle.py: the narrowing of Logic.py followed by
      return_exclusion on a's and on b's new cell. */
  method GreaterThanExcluding(a: Value, b: Value, cc: Name, offset: Option<int>, store: SetStore, cats: Categories)
    returns (r: Outcome<bool>)
    requires store.Valid(cats) && Known(cats, a) && Known(cats, b) && cc in cats.members
    requires cc != Cat(cats, a) && cc != Cat(cats, b)
    modifies store
    ensures store.Valid(cats) && store.order == old(store.order)
    ensures var s := Clues.GreaterThan(cats, old(store.cells), Cat(cats, a), a, Cat(cats, b), b, cc, offset, true);
      && (r.Raised? <==> s.Raised?)
      && (r.Returned? ==> store.cells == s.value.0 && r.value == s.value.1)
  {
    r := Logic.GreaterThan(a, b, cc, store, cats, offset);
    if r.Returned? {
      ReturnExclusion(Cat(cats, a), a, cc, store, cats);
      ReturnExclusion(Cat(cats, b), b, cc, store, cats);
    }
  }

  /** Calls the clue function with its arguments (func(*args)). */
  method RunCall(v: Version, call: Call, store: SetStore, cats: Categories) returns (r: Outcome<(Call, bool)>)
    requires store.Valid(cats)
    modifies store
    ensures store.Valid(cats) && store.order == old(store.order)
    ensures r.Raised? <==> Apply(v, cats, old(store.cells), call).Raised?
    ensures r.Returned? ==> var s := Apply(v, cats, old(store.cells), call).value;
      store.cells == s.0 && r.value == (s.1, s.2)
  {
    match call
    case MultiIsOneOfCall(xs, ys) =>
      r := RunMultiIsOneOf(v, xs, ys, store, cats);
    case GreaterThanCall(a, b, cat, offset) =>
      r := RunGreaterThan(v, a, b, cat, offset, store, cats);
    case _ =>
      r := RunPairCall(v, call, store, cats);
  }

  /** set_element, set_not_element and is_one_of called on their values. */
  method RunPairCall(v: Version, call: Call, store: SetStore, cats: Categories) returns (r: Outcome<(Call, bool)>)
    requires store.Valid(cats) && !call.MultiIsOneOfCall? && !call.GreaterThanCall?
    modifies store
    ensures store.Valid(cats) && store.order == old(store.order)
    ensures r.Raised? <==> Apply(v, cats, old(store.cells), call).Raised?
    ensures r.Returned? ==> var s := Apply(v, cats, old(store.cells), call).value;
      store.cells == s.0 && r.value == (s.1, s.2)
  {
    match call
    case SetElementCall(a, b) =>
      if !Linked(cats, a, b) {
        return Raised;
      }
      var done := Logic.SetElement(a, b, store, cats, false);
      return Returned((call, done));
    case SetNotElementCall(a, b) =>
      if !Linked(cats, a, b) {
        return Raised;
      }
      var done;
      if v == LogicModule {
        done := Logic.SetNotElement(a, b, store, cats);
      } else {
        done := SetNotElementBoth(a, b, store, cats);
      }
      return Returned((call, done));
    case IsOneOfCall(a, b, x) =>
      if !(Linked(cats, a, b) && Linked(cats, a, x) && Linked(cats, b, x)) {
        return Raised;
      }
      var done := Logic.IsOneOf(a, b, x, store, cats);
      return Returned((call, done));
  }

  /** multi_is_one_of called on its two lists; the call keeps the lists it
      returned for the next pass. */
  method RunMultiIsOneOf(v: Version, xs: seq<Value>, ys: seq<Value>, store: SetStore, cats: Categories)
    returns (r: Outcome<(Call, bool)>)
    requires store.Valid(cats)
    modifies store
    ensures store.Valid(cats) && store.order == old(store.order)
    ensures r.Raised? <==> Apply(v, cats, old(store.cells), MultiIsOneOfCall(xs, ys)).Raised?
    ensures r.Returned? ==> var s := Apply(v, cats, old(store.cells), MultiIsOneOfCall(xs, ys)).value;
      store.cells == s.0 && r.value == (s.1, s.2)
  {
    var m := Logic.MultiIsOneOf(xs, ys, store, cats, v == LogicModule);
    if m.Raised? {
      return Raised;
    }
    return Returned((MultiIsOneOfCall(m.value.0, m.value.1), m.value.2));
  }

  /** Past its key checks, the greater_than call is the narrowing of
      Clues.GreaterThan, with the call left as it was. */
  lemma ApplyGreaterThan(v: Version, cats: Categories, c: Cells, a: Value, b: Value, cat: Name, offset: Option<int>)
    requires Known(cats, a) && Known(cats, b) && cat in cats.members && cat != Cat(cats, a) && cat != Cat(cats, b)
    ensures var s := Clues.GreaterThan(cats, c, Cat(cats, a), a, Cat(cats, b), b, cat, offset, v == PuzzleClass);
      Apply(v, cats, c, GreaterThanCall(a, b, cat, offset)) ==
        if s.Raised? then Raised else Returned((s.value.0, GreaterThanCall(a, b, cat, offset), s.value.1))
  {
  }

  /** greater_than called on its values, category and offset. */
  method RunGreaterThan(v: Version, a: Value, b: Value, cat: Name, offset: Option<int>, store: SetStore,
                        cats: Categories) returns (r: Outcome<(Call, bool)>)
    requires store.Valid(cats)
    modifies store
    ensures store.Valid(cats) && store.order == old(store.order)
    ensures r.Raised? <==> Apply(v, cats, old(store.cells), GreaterThanCall(a, b, cat, offset)).Raised?
    ensures r.Returned? ==> var s := Apply(v, cats, old(store.cells), GreaterThanCall(a, b, cat, offset)).value;
      store.cells == s.0 && r.value == (s.1, s.2)
  {
    if !(Known(cats, a) && Known(cats, b) && cat in cats.members && cat != Cat(cats, a) && cat != Cat(cats, b)) {
      return Raised;
    }
    ApplyGreaterThan(v, cats, store.cells, a, b, cat, offset);
    var g;
    if v == LogicModule {
      g := Logic.GreaterThan(a, b, cat, store, cats, offset);
    } else {
      g := GreaterThanExcluding(a, b, cat, offset, store, cats);
    }
    if g.Raised? {
      return Raised;
    }
    return Returned((GreaterThanCall(a, b, cat, offset), g.value));
  }

  /** One iteration of the pass: the i-th clue. */
  method RunCluesStep(v: Version, clues: seq<Clue>, i: nat, ghost c0: Cells, done: seq<Clue>, store: SetStore,
                      cats: Categories) returns (r: Outcome<seq<Clue>>)
    requires i < |clues| && store.Valid(cats)
    requires CluePass(v, cats, c0, clues[..i]) == Returned((store.cells, done))
    modifies store
    ensures store.Valid(cats) && store.order == old(store.order)
    ensures r.Raised? ==> CluePass(v, cats, c0, clues).Raised?
    ensures r.Returned? ==> CluePass(v, cats, c0, clues[..i + 1]) == Returned((store.cells, r.value))
  {
    CluePassSnoc(v, cats, c0, clues, i, store.cells, done);
    var cl := clues[i];
    if cl.solved {
      return Returned(done + [cl]);
    }
    var res := RunCall(v, cl.call, store, cats);
    if res.Raised? {
      RaisedStays(v, cats, c0, clues, i + 1);
      return Raised;
    }
    return Returned(done + [Clue(res.value.0, res.value.1)]);
  }

  /** One more clue extends the pass by its ClueStep. */
  lemma CluePassSnoc(v: Version, cats: Categories, c0: Cells, clues: seq<Clue>, i: nat, c: Cells, done: seq<Clue>)
    requires i < |clues| && CluePass(v, cats, c0, clues[..i]) == Returned((c, done))
    ensures CluePass(v, cats, c0, clues[..i + 1]) ==
      match ClueStep(v, cats, c, clues[i])
      case Raised => Raised
      case Returned((c', cl)) => Returned((c', done + [cl]))
  {
    assert clues[..i + 1][..i] == clues[..i];
  }

  /** One pass over the clues; Raised when a call raised, after which the
      store is as the failing call left it. */
  method RunClues(v: Version, clues: seq<Clue>, store: SetStore, cats: Categories) returns (r: Outcome<seq<Clue>>)
    requires store.Valid(cats)
    modifies store
    ensures store.Valid(cats) && store.order == old(store.order)
    ensures r.Raised? <==> CluePass(v, cats, old(store.cells), clues).Raised?
    ensures r.Returned? ==> CluePass(v, cats, old(store.cells), clues) == Returned((store.cells, r.value))
  {
    var done: seq<Clue> := [];
    var i := 0;
    while i < |clues|
      invariant 0 <= i <= |clues|
      invariant store.Valid(cats) && store.order == old(store.order)
      invariant CluePass(v, cats, old(store.cells), clues[..i]) == Returned((store.cells, done))
    {
      var step := RunCluesStep(v, clues, i, old(store.cells), done, store, cats);
      if step.Raised? {
        return Raised;
      }
      done := step.value;
      i := i + 1;
    }
    assert clues[..i] == clues;
    return Returned(done);
  }

  /** Once a prefix of the pass has raised, the whole pass raises. */
  lemma {:induction false} RaisedStays(v: Version, cats: Categories, c: Cells, clues: seq<Clue>, n: nat)
    requires n <= |clues| && CluePass(v, cats, c, clues[..n]).Raised?
    ensures CluePass(v, cats, c, clues).Raised?
    decreases |clues| - n
  {
    if n < |clues| {
      assert clues[..n + 1][..n] == clues[..n];
      RaisedStays(v, cats, c, clues, n + 1);
    } else {
      assert clues[..n] == clues;
    }
  }
}
