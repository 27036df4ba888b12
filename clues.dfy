/**
 * What each clue does to the store, as functions of the cells before the
 * call. Both versions of the engine share these: the class in
 * LogicPuzzle.py and the module functions in Logic.py differ only where
 * the functions below take a flag or where two of them are offered.
 */
module Clues {
  import opened Grid

  /** exclude_element on one cell: e leaves the cell k, every other cell
      stays as it was. */
  ghost function Remove(c: Cells, k: Key, e: Value): (r: Cells)
    ensures Shrinks(c, r)
    ensures k in c ==> e !in r[k] && forall x :: x in c[k] && x != e ==> x in r[k]
    ensures forall k' :: k' in c && k' != k ==> r[k'] == c[k']
  {
    if k in c then c[k := ExcludeElement(c[k], e)] else c
  }

  /** set_not_element of LogicPuzzle.py: b leaves a's cell on B and a
      leaves b's cell on A. */
  ghost function NotBoth(c: Cells, ca: Name, a: Value, cb: Name, b: Value): (r: Cells)
    ensures Shrinks(c, r)
    ensures Key(ca, a, cb) in c ==> r[Key(ca, a, cb)] == c[Key(ca, a, cb)] - {b}
    ensures Key(cb, b, ca) in c ==> r[Key(cb, b, ca)] == c[Key(cb, b, ca)] - {a}
    ensures forall k :: k in c && k != Key(ca, a, cb) && k != Key(cb, b, ca) ==> r[k] == c[k]
  {
    var k1, k2 := Key(ca, a, cb), Key(cb, b, ca);
    var c1 := Remove(c, k1, b);
    assert k1 in c ==> c1[k1] == c[k1] - {b};
    var r := Remove(c1, k2, a);
    assert k2 in c ==> r[k2] == c[k2] - {a};
    r
  }

  /** The loop of set_element (and of exclude_solved in Logic.py): every
      value of A other than a loses b from its cell on B. */
  ghost function ExcludeOthers(cats: Categories, c: Cells, ca: Name, a: Value, cb: Name, b: Value): (r: Cells)
    requires ca in cats.members
    ensures Shrinks(c, r)
    ensures forall x :: x in cats.members[ca] && x != a && Key(ca, x, cb) in c ==>
      r[Key(ca, x, cb)] == c[Key(ca, x, cb)] - {b}
    ensures forall k :: k in c && (k.catA != ca || k.catB != cb || k.elA == a) ==> r[k] == c[k]
  {
    map k | k in c ::
      if k.catA == ca && k.catB == cb && k.elA in cats.members[ca] && k.elA != a then ExcludeElement(c[k], b)
      else c[k]
  }

  /** One pass of set_element, without its mirrored call: a's cell on B
      keeps at most b, and every other value of A loses b on B. */
  ghost function BindOneWay(cats: Categories, c: Cells, ca: Name, a: Value, cb: Name, b: Value): (r: Cells)
    requires ca in cats.members
    ensures Shrinks(c, r)
    ensures Key(ca, a, cb) in c ==> r[Key(ca, a, cb)] == IsElement(c[Key(ca, a, cb)], b)
    ensures forall x :: x in cats.members[ca] && x != a && Key(ca, x, cb) in c ==>
      r[Key(ca, x, cb)] == c[Key(ca, x, cb)] - {b}
    ensures forall k :: k in c && (k.catA != ca || k.catB != cb) ==> r[k] == c[k]
  {
    var k := Key(ca, a, cb);
    if k in c then
      var c' := c[k := IsElement(c[k], b)];
      assert Shrinks(c, c');
      ShrinksTransitive(c, c', ExcludeOthers(cats, c', ca, a, cb, b));
      ExcludeOthers(cats, c', ca, a, cb, b)
    else ExcludeOthers(cats, c, ca, a, cb, b)
  }

  /** set_element(a, b): the pass for (a, b) followed by the mirrored pass
      for (b, a). */
  ghost function Bind(cats: Categories, c: Cells, ca: Name, a: Value, cb: Name, b: Value): (r: Cells)
    requires ca in cats.members && cb in cats.members
    ensures Shrinks(c, r)
    ensures ca != cb ==> (Key(ca, a, cb) in c ==> r[Key(ca, a, cb)] == c[Key(ca, a, cb)] * {b})
    ensures ca != cb ==> (Key(cb, b, ca) in c ==> r[Key(cb, b, ca)] == c[Key(cb, b, ca)] * {a})
    ensures ca != cb ==> forall x :: x in cats.members[ca] && x != a && Key(ca, x, cb) in c ==>
      r[Key(ca, x, cb)] == c[Key(ca, x, cb)] - {b}
    ensures ca != cb ==> forall y :: y in cats.members[cb] && y != b && Key(cb, y, ca) in c ==>
      r[Key(cb, y, ca)] == c[Key(cb, y, ca)] - {a}
    ensures ca != cb ==> forall k ::
      (k in c && k.catA == ca && k.catB == cb && k.elA != a && k.elA !in cats.members[ca]) ==> r[k] == c[k]
    ensures ca != cb ==> forall k ::
      (k in c && k.catA == cb && k.catB == ca && k.elA != b && k.elA !in cats.members[cb]) ==> r[k] == c[k]
    ensures forall k :: k in c && !(k.catA == ca && k.catB == cb) && !(k.catA == cb && k.catB == ca) ==>
      r[k] == c[k]
  {
    BindOneWay(cats, BindOneWay(cats, c, ca, a, cb, b), cb, b, ca, a)
  }

  /** A second set_element with the same arguments changes nothing. */
  lemma BindIdempotent(cats: Categories, c: Cells, ca: Name, a: Value, cb: Name, b: Value)
    requires ca in cats.members && cb in cats.members && ca != cb
    ensures Bind(cats, Bind(cats, c, ca, a, cb, b), ca, a, cb, b) == Bind(cats, c, ca, a, cb, b)
  {
    var r := Bind(cats, c, ca, a, cb, b);
    var r2 := Bind(cats, r, ca, a, cb, b);
    assert r2.Keys == r.Keys;
    forall k | k in r
      ensures r2[k] == r[k]
    {
      var r1 := BindOneWay(cats, c, ca, a, cb, b);
      var s1 := BindOneWay(cats, r, ca, a, cb, b);
      assert s1[k] == r[k];
    }
  }

  /** The clue "a is b or c" (is_one_of): b and c are excluded from each
      other; then a is bound to c when b has already left a's cell on B, or
      to b when c has already left a's cell on C; the result says whether
      the clue is used up. */
  ghost function OneOf(cats: Categories, c: Cells, ca: Name, a: Value, cb: Name, b: Value, cc: Name, v: Value)
    : (r: (Cells, bool))
    requires ca in cats.members && cb in cats.members && cc in cats.members
    requires ca != cb && ca != cc && cb != cc
    ensures Shrinks(c, r.0)
    ensures Key(cb, b, cc) in c ==> v !in r.0[Key(cb, b, cc)]
    ensures Key(cc, v, cb) in c ==> b !in r.0[Key(cc, v, cb)]
    ensures Key(ca, a, cb) in c && Key(ca, a, cc) in c ==>
      (r.1 <==> b !in c[Key(ca, a, cb)] || v !in c[Key(ca, a, cc)])
    ensures Key(ca, a, cb) in c && Key(ca, a, cc) in c && r.1 ==>
      r.0[Key(ca, a, cb)] <= {b} || r.0[Key(ca, a, cc)] <= {v}
  {
    var c1 := NotBoth(c, cb, b, cc, v);
    if Key(ca, a, cb) in c1 && b !in c1[Key(ca, a, cb)] then (Bind(cats, c1, ca, a, cc, v), true)
    else if Key(ca, a, cc) in c1 && v !in c1[Key(ca, a, cc)] then (Bind(cats, c1, ca, a, cb, b), true)
    else (c1, false)
  }

  /** is_one_of decides on a's cells as they were before its two
      exclusions, which do not touch them: when b has left a's cell on B,
      a is bound to c; otherwise, when c has left a's cell on C, a is bound
      to b; otherwise only the exclusions happen and the clue is not used
      up. The bound cell of a keeps at most the value it is bound to. */
  lemma OneOfCases(cats: Categories, c: Cells, ca: Name, a: Value, cb: Name, b: Value, cc: Name, v: Value)
    requires ca in cats.members && cb in cats.members && cc in cats.members
    requires ca != cb && ca != cc && cb != cc
    ensures var r := OneOf(cats, c, ca, a, cb, b, cc, v);
      var c1 := NotBoth(c, cb, b, cc, v);
      var goneB := Key(ca, a, cb) in c && b !in c[Key(ca, a, cb)];
      var goneV := Key(ca, a, cc) in c && v !in c[Key(ca, a, cc)];
      && (goneB ==> r == (Bind(cats, c1, ca, a, cc, v), true))
      && (!goneB && goneV ==> r == (Bind(cats, c1, ca, a, cb, b), true))
      && (!goneB && !goneV ==> r == (c1, false))
      && (goneB && Key(ca, a, cc) in c ==> r.0[Key(ca, a, cc)] == c[Key(ca, a, cc)] * {v})
      && (!goneB && goneV && Key(ca, a, cb) in c ==> r.0[Key(ca, a, cb)] == c[Key(ca, a, cb)] * {b})
  {
    var c1 := NotBoth(c, cb, b, cc, v);
    assert Key(ca, a, cb) != Key(cb, b, cc) && Key(ca, a, cb) != Key(cc, v, cb);
    assert Key(ca, a, cc) != Key(cb, b, cc) && Key(ca, a, cc) != Key(cc, v, cb);
    assert Key(ca, a, cb) in c ==> c1[Key(ca, a, cb)] == c[Key(ca, a, cb)];
    assert Key(ca, a, cc) in c ==> c1[Key(ca, a, cc)] == c[Key(ca, a, cc)];
  }

  // greater_than ------------------------------------------------------------

  /** Some element of a non-empty set. */
  ghost function AnyOf<T>(s: set<T>): (x: T)
    requires s != {}
    ensures x in s
  {
    var x :| x in s; x
  }

  lemma {:induction false} MinExists(s: set<int>)
    requires s != {}
    ensures exists m :: m in s && forall x :: x in s ==> m <= x
    decreases |s|
  {
    var y := AnyOf(s);
    var rest := s - {y};
    if rest == {} {
      assert s == {y};
    } else {
      MinExists(rest);
      var lo :| lo in rest && forall x :: x in rest ==> lo <= x;
      var m := if y < lo then y else lo;
      assert forall x :: x in s ==> x == y || x in rest;
      assert m in s && forall x :: x in s ==> m <= x;
    }
  }

  lemma {:induction false} MaxExists(s: set<int>)
    requires s != {}
    ensures exists m :: m in s && forall x :: x in s ==> x <= m
    decreases |s|
  {
    var y := AnyOf(s);
    var rest := s - {y};
    if rest == {} {
      assert s == {y};
    } else {
      MaxExists(rest);
      var hi :| hi in rest && forall x :: x in rest ==> x <= hi;
      var m := if y > hi then y else hi;
      assert forall x :: x in s ==> x == y || x in rest;
      assert m in s && forall x :: x in s ==> x <= m;
    }
  }

  /** Python's min on a non-empty set of numbers. */
  function Min(s: set<int>): (m: int)
    requires s != {}
    ensures m in s && forall x :: x in s ==> m <= x
  {
    MinExists(s);
    var m :| m in s && forall x :: x in s ==> m <= x;
    m
  }

  /** Python's max on a non-empty set of numbers. */
  function Max(s: set<int>): (m: int)
    requires s != {}
    ensures m in s && forall x :: x in s ==> x <= m
  {
    MaxExists(s);
    var m :| m in s && forall x :: x in s ==> x <= m;
    m
  }

  /** { s + v : s in sB }, the shifted set of the offset form. */
  function Shift(s: set<int>, v: int): set<int> {
    set y | y in s :: y + v
  }

  /** The members of the shifted set are the members of s moved by v. */
  lemma ShiftMembers(s: set<int>, v: int)
    ensures forall x :: x in Shift(s, v) <==> x - v in s
  {
    forall x | x - v in s
      ensures x in Shift(s, v)
    {
      assert x == (x - v) + v;
    }
  }

  /** The relation greater_than imposes on a's number x and b's number y:
      x > y without an offset, x == y + v with offset v. */
  predicate Related(x: int, y: int, offset: Option<int>) {
    match offset
    case None => x > y
    case Some(v) => x == y + v
  }

  /** The narrowing of the two cells on the numeric category: a's cell
      first, then b's cell against a's new cell. Without an offset each
      filter calls min of b's cell (max of a's new cell) once per element it
      looks at, so an empty set raises only when the other one is not empty. */
  function Narrow(sA: set<int>, sB: set<int>, offset: Option<int>): (r: Outcome<(set<int>, set<int>)>)
    ensures r.Returned? ==> r.value.0 <= sA && r.value.1 <= sB
  {
    match offset
    case None =>
      if sA == {} then (if sB == {} then Returned(({}, {})) else Raised)
      else if sB == {} then Raised
      else
        var sA' := set x | x in sA && x > Min(sB);
        if sA' == {} then Raised
        else Returned((sA', set y | y in sB && y < Max(sA')))
    case Some(v) =>
      var sA' := sA * Shift(sB, v);
      Returned((sA', sB * Shift(sA', -v)))
  }

  /** When the narrowing raises: only without an offset, when exactly one
      of the cells is empty or when no value of a's cell exceeds the least
      value of b's cell. */
  lemma NarrowRaises(sA: set<int>, sB: set<int>, offset: Option<int>)
    ensures Narrow(sA, sB, offset).Raised? <==>
      offset.None? && (sA != {} || sB != {}) && (sB == {} || forall x :: x in sA ==> x <= Min(sB))
  {
    if offset.None? && sA != {} && sB != {} {
      var sA' := set x | x in sA && x > Min(sB);
      assert sA' == {} <==> forall x :: x in sA ==> x !in sA';
    }
  }

  /** The narrowing loses no pair of numbers that satisfies the clue. */
  lemma NarrowKeepsSolutions(sA: set<int>, sB: set<int>, offset: Option<int>, x: int, y: int)
    requires Narrow(sA, sB, offset).Returned?
    requires x in sA && y in sB && Related(x, y, offset)
    ensures x in Narrow(sA, sB, offset).value.0 && y in Narrow(sA, sB, offset).value.1
  {
    var r := Narrow(sA, sB, offset).value;
    if offset.None? {
      assert Min(sB) <= y;
      assert x in r.0;
      assert x <= Max(r.0);
    }
  }

  /** Every value left in either cell has a partner in the other one that
      satisfies the clue. */
  lemma NarrowSupported(sA: set<int>, sB: set<int>, offset: Option<int>)
    requires Narrow(sA, sB, offset).Returned?
    ensures forall x :: x in Narrow(sA, sB, offset).value.0 ==>
      exists y :: y in Narrow(sA, sB, offset).value.1 && Related(x, y, offset)
    ensures forall y :: y in Narrow(sA, sB, offset).value.1 ==>
      exists x :: x in Narrow(sA, sB, offset).value.0 && Related(x, y, offset)
  {
    var r := Narrow(sA, sB, offset).value;
    if offset.None? {
      if sB == {} {
        return;
      }
      var lo := Min(sB);
      forall x | x in r.0
        ensures exists y :: y in r.1 && Related(x, y, offset)
      {
        assert lo < x <= Max(r.0);
        assert lo in r.1;
      }
      forall y | y in r.1
        ensures exists x :: x in r.0 && Related(x, y, offset)
      {
        assert Max(r.0) in r.0;
      }
    } else {
      var v := offset.value;
      forall x | x in r.0
        ensures exists y :: y in r.1 && Related(x, y, offset)
      {
        assert x - v in r.1;
      }
      forall y | y in r.1
        ensures exists x :: x in r.0 && Related(x, y, offset)
      {
        assert y + v in r.0;
      }
    }
  }

  /** What the narrowing keeps: without an offset, a's values above the
      least value of b's cell, then b's values below the greatest of a's
      new values; with offset v, a's values x with x - v in b's cell, then
      b's values y with y + v in a's new cell. */
  lemma NarrowContents(sA: set<int>, sB: set<int>, offset: Option<int>)
    requires Narrow(sA, sB, offset).Returned?
    ensures var r := Narrow(sA, sB, offset).value;
      && (offset.None? && sB != {} ==> forall x :: x in r.0 <==> x in sA && x > Min(sB))
      && (offset.None? && r.0 != {} ==> forall y :: y in r.1 <==> y in sB && y < Max(r.0))
      && (offset.Some? ==> forall x :: x in r.0 <==> x in sA && x - offset.value in sB)
      && (offset.Some? ==> forall y :: y in r.1 <==> y in sB && y + offset.value in r.0)
  {
  }

  /** Each value y in ys of C loses x from its cell on D (one
      exclude_element per y). */
  ghost function ExcludeEach(c: Cells, cc: Name, cd: Name, x: Value, ys: set<Value>): (r: Cells)
    ensures Shrinks(c, r)
    ensures forall k :: k in c ==>
      r[k] == if k.catA == cc && k.catB == cd && k.elA in ys then ExcludeElement(c[k], x) else c[k]
  {
    map k | k in c :: if k.catA == cc && k.catB == cd && k.elA in ys then ExcludeElement(c[k], x) else c[k]
  }

  /** The loop shape shared by return_exclusion (LogicPuzzle.py) and
      remove_chain_exclusion (Logic.py): every value y of C missing from
      a's cell on C loses x from its cell on D. */
  ghost function ExcludeFromMissing(cats: Categories, c: Cells, ca: Name, a: Value, cc: Name, cd: Name, x: Value)
    : (r: Cells)
    requires cc in cats.members
    ensures Shrinks(c, r)
    ensures Key(ca, a, cc) in c ==> forall y ::
      (y in cats.members[cc] && y !in c[Key(ca, a, cc)] && Key(cc, y, cd) in c) ==> x !in r[Key(cc, y, cd)]
    ensures forall k, v :: k in c && v in c[k] && v !in r[k] ==>
      v == x && k.catA == cc && k.catB == cd && Key(ca, a, cc) in c && k.elA !in c[Key(ca, a, cc)]
  {
    if Key(ca, a, cc) in c then ExcludeEach(c, cc, cd, x, Complement(c[Key(ca, a, cc)], FullSet(cats, cc)))
    else c
  }

  /** return_exclusion(A, a, B): every value b of B that a's cell on B has
      lost loses a from its own cell on A. */
  ghost function ReturnExclusion(cats: Categories, c: Cells, ca: Name, a: Value, cb: Name): (r: Cells)
    requires cb in cats.members
    ensures Shrinks(c, r)
    ensures Key(ca, a, cb) in c ==> forall y ::
      (y in cats.members[cb] && y !in c[Key(ca, a, cb)] && Key(cb, y, ca) in c) ==> a !in r[Key(cb, y, ca)]
    ensures forall k, v :: k in c && v in c[k] && v !in r[k] ==>
      v == a && k.catA == cb && k.catB == ca && Key(ca, a, cb) in c && k.elA !in c[Key(ca, a, cb)]
  {
    ExcludeFromMissing(cats, c, ca, a, cb, ca, a)
  }

  lemma ReturnExclusionTwice(cats: Categories, c: Cells, ca: Name, a: Value, cb: Name, b: Value, cc: Name)
    requires cc in cats.members
    ensures Shrinks(c, ReturnExclusion(cats, ReturnExclusion(cats, c, ca, a, cc), cb, b, cc))
  {
    var c1 := ReturnExclusion(cats, c, ca, a, cc);
    ShrinksTransitive(c, c1, ReturnExclusion(cats, c1, cb, b, cc));
  }

  /** The narrowing step of greater_than on the store: the cells kA and kB
      (a KeyError when either is missing) are replaced by their narrowed
      versions; the result says whether either new cell is a singleton. */
  ghost function NarrowCells(c: Cells, kA: Key, kB: Key, offset: Option<int>): (r: Outcome<(Cells, bool)>)
    ensures r.Returned? ==> Shrinks(c, r.value.0)
  {
    if kA !in c || kB !in c then Raised
    else
      var n := Narrow(c[kA], c[kB], offset);
      if n.Raised? then Raised
      else
        var sA', sB' := n.value.0, n.value.1;
        var c' := c[kA := sA'][kB := sB'];
        assert c'.Keys == c.Keys;
        Returned((c', |sA'| == 1 || |sB'| == 1))
  }

  /** The narrowing step raises exactly on a missing cell or a raising
      narrowing. */
  lemma NarrowCellsRaises(c: Cells, kA: Key, kB: Key, offset: Option<int>)
    ensures NarrowCells(c, kA, kB, offset).Raised? <==>
      kA !in c || kB !in c || Narrow(c[kA], c[kB], offset).Raised?
  {
  }

  /** Otherwise the two cells take their narrowed values, nothing else
      changes, and the result says whether either new cell is a
      singleton. */
  lemma NarrowCellsContents(c: Cells, kA: Key, kB: Key, offset: Option<int>)
    requires kA in c && kB in c && kA != kB
    requires Narrow(c[kA], c[kB], offset).Returned?
    ensures var r := NarrowCells(c, kA, kB, offset);
      && r.Returned?
      && Narrow(c[kA], c[kB], offset) == Returned((r.value.0[kA], r.value.0[kB]))
      && (r.value.1 <==> |r.value.0[kA]| == 1 || |r.value.0[kB]| == 1)
      && forall k :: k in c && k != kA && k != kB ==> r.value.0[k] == c[k]
  {
    var n := Narrow(c[kA], c[kB], offset).value;
    var c' := c[kA := n.0][kB := n.1];
    assert NarrowCells(c, kA, kB, offset) == Returned((c', |n.0| == 1 || |n.1| == 1));
    assert c'[kA] == n.0 && c'[kB] == n.1;
  }

  /** greater_than(a, b, C, offset): a and b are excluded from each other
      when their categories differ, their cells on C are narrowed, and, in
      LogicPuzzle.py (returnExclusion), return_exclusion is applied to both
      new cells. The result says whether either new cell is a singleton. */
  ghost function GreaterThan(cats: Categories, c: Cells, ca: Name, a: Value, cb: Name, b: Value, cc: Name,
                             offset: Option<int>, returnExclusion: bool): (r: Outcome<(Cells, bool)>)
    requires cc in cats.members
    ensures r.Returned? ==> Shrinks(c, r.value.0)
  {
    var c1 := if ca != cb then NotBoth(c, ca, a, cb, b) else c;
    match NarrowCells(c1, Key(ca, a, cc), Key(cb, b, cc), offset)
    case Raised => Raised
    case Returned((c2, solved)) =>
      ShrinksTransitive(c, c1, c2);
      if returnExclusion then
        ReturnExclusionTwice(cats, c2, ca, a, cb, b, cc);
        ShrinksTransitive(c, c2, ReturnExclusion(cats, ReturnExclusion(cats, c2, ca, a, cc), cb, b, cc));
        Returned((ReturnExclusion(cats, ReturnExclusion(cats, c2, ca, a, cc), cb, b, cc), solved))
      else Returned((c2, solved))
  }
}
