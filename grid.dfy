/**
 * The relation store of the grid-puzzle engine: categories, the keys
 * (cat_A, el_A, cat_B) of the candidate cells, the insertion-ordered
 * dictionary that holds the cells, and the size measure both solvers use
 * to detect that a sweep changed nothing.
 */
module Grid {

  /** A category value. Text labels stand as distinct integer codes (the
      engine only ever compares them for equality); numeric values are
      compared and offset by the greater-than clue. */
  type Value = int

  /** A category name. */
  type Name = string

  datatype Option<+T> = None | Some(value: T)

  /** What a call did: returned a value, or raised an exception that leaves
      the call and every caller up to the solver loop. */
  datatype Outcome<+T> = Returned(value: T) | Raised

  /** The key (cat_A, el_A, cat_B) of one cell: the cell holds the values of
      category cat_B that may still belong to the same entity as el_A. */
  datatype Key = Key(catA: Name, elA: Value, catB: Name)

  type Cells = map<Key, set<Value>>

  /** The categories dictionary: its names in declaration order and the
      list of values of each name. */
  datatype Categories = Categories(names: seq<Name>, members: map<Name, seq<Value>>)

  /** Names are distinct and are exactly the dictionary's keys, a category
      lists each value once, and no value belongs to two categories (the
      engine finds a value's category by scanning, so it relies on this). */
  ghost predicate WellFormed(cats: Categories) {
    && (forall i, j :: 0 <= i < j < |cats.names| ==> cats.names[i] != cats.names[j])
    && (forall n :: n in cats.members <==> n in cats.names)
    && (forall n, i, j :: n in cats.members && 0 <= i < j < |cats.members[n]| ==>
          cats.members[n][i] != cats.members[n][j])
    && (forall n, m, v ::
          (n in cats.members && m in cats.members && v in cats.members[n] && v in cats.members[m]) ==> n == m)
  }

  /** The scan of get_parent_set_category over the given names. */
  function FindCategory(names: seq<Name>, members: map<Name, seq<Value>>, e: Value): (r: Option<Name>)
    ensures r.Some? ==> r.value in names && r.value in members && e in members[r.value]
    ensures r.None? ==> forall n :: n in names && n in members ==> e !in members[n]
  {
    if names == [] then None
    else if names[0] in members && e in members[names[0]] then Some(names[0])
    else FindCategory(names[1..], members, e)
  }

  /** get_parent_set_category: the first category, in declaration order,
      whose values include e, or None when no category does. */
  function ParentCategory(cats: Categories, e: Value): (r: Option<Name>)
    ensures r.Some? ==> r.value in cats.names && r.value in cats.members && e in cats.members[r.value]
    ensures r.None? <==> forall n :: n in cats.names && n in cats.members ==> e !in cats.members[n]
  {
    FindCategory(cats.names, cats.members, e)
  }

  /** With well-formed categories the scan finds the one category of e. */
  lemma ParentCategoryIs(cats: Categories, n: Name, e: Value)
    requires WellFormed(cats) && n in cats.members && e in cats.members[n]
    ensures ParentCategory(cats, e) == Some(n)
  {
  }

  /** e is a value of some category. */
  predicate Known(cats: Categories, e: Value) {
    ParentCategory(cats, e).Some?
  }

  /** The category of a known value. */
  function Cat(cats: Categories, e: Value): (n: Name)
    requires Known(cats, e)
    ensures n in cats.members && e in cats.members[n]
  {
    ParentCategory(cats, e).value
  }

  /** Some element of a non-empty set: the next value a `for` loop over a
      set visits (Python fixes no order, so any element will do). */
  method Pick<T>(s: set<T>) returns (x: T)
    requires s != {}
    ensures x in s
  {
    x :| x in s;
  }

  /** The one element of a singleton set: what `for el in s: x = el` leaves
      in x when s has exactly one element. */
  function Only<T>(s: set<T>): (x: T)
    requires |s| == 1
    ensures s == {x}
  {
    var x :| x in s;
    assert s == {x} by {
      assert |s - {x}| == 0;
    }
    x
  }

  /** complement: the values of universal that are not in a. */
  function Complement(a: set<Value>, universal: set<Value>): (r: set<Value>)
    ensures r <= universal && r !! a
    ensures forall x :: x in universal ==> x in r || x in a
  {
    universal - a
  }

  /** is_element: a set that holds e when s does and nothing else. */
  function IsElement(s: set<Value>, e: Value): (r: set<Value>)
    ensures r <= s && r <= {e}
    ensures e in s ==> r == {e}
  {
    s * {e}
  }

  /** exclude_element: s without e; every other element is kept. */
  function ExcludeElement(s: set<Value>, e: Value): (r: set<Value>)
    ensures r <= s && e !in r
    ensures forall x :: x in s && x != e ==> x in r
  {
    s - {e}
  }

  /** set(categories[B]): all values of category B. */
  function FullSet(cats: Categories, b: Name): set<Value>
    requires b in cats.members
  {
    set v | v in cats.members[b]
  }

  /** k names an existing cell: two distinct categories and a value of the first. */
  ghost predicate IsKey(cats: Categories, k: Key) {
    && k.catA in cats.members && k.catB in cats.members
    && k.catA != k.catB && k.elA in cats.members[k.catA]
  }

  /** The store holds exactly one cell per key, and every cell only holds
      values of its second category. */
  ghost predicate Sane(cats: Categories, c: Cells) {
    && (forall k :: k in c <==> IsKey(cats, k))
    && (forall k, v :: k in c && v in c[k] ==> v in cats.members[k.catB])
  }

  /** Every key of the grid has a cell (the half of Sane that the loops
      over the store rely on). */
  ghost predicate Complete(cats: Categories, c: Cells) {
    forall k :: IsKey(cats, k) ==> k in c
  }

  /** c' has the same cells as c, each a subset of the old one. */
  ghost predicate Shrinks(c: Cells, c': Cells) {
    c'.Keys == c.Keys && forall k :: k in c ==> c'[k] <= c[k]
  }

  lemma ShrinksTransitive(c: Cells, c': Cells, c'': Cells)
    requires Shrinks(c, c') && Shrinks(c', c'')
    ensures Shrinks(c, c'')
  {
  }

  /** Shrinking a sane store keeps it sane. */
  lemma ShrinksKeepsSane(cats: Categories, c: Cells, c': Cells)
    requires Sane(cats, c) && Shrinks(c, c')
    ensures Sane(cats, c')
  {
  }

  lemma PrefixSnoc<T>(s: seq<T>, i: int)
    requires 0 <= i < |s|
    ensures s[..i + 1] == s[..i] + [s[i]]
  {
  }

  /** The sum of the sizes of the cells listed in ks. */
  ghost function Size(c: Cells, ks: seq<Key>): nat
  {
    if ks == [] then 0
    else Size(c, ks[..|ks| - 1]) + (if ks[|ks| - 1] in c then |c[ks[|ks| - 1]]| else 0)
  }

  lemma SubsetSize(a: set<Value>, b: set<Value>)
    requires a <= b
    ensures |a| <= |b|
    ensures |a| == |b| ==> a == b
  {
    assert b == a + (b - a);
    assert a * (b - a) == {};
    if |a| == |b| {
      assert |b - a| == 0;
    }
  }

  /** Shrinking never increases the total size, and leaves it equal only
      when no listed cell changed. */
  lemma {:induction false} SizeShrinks(c: Cells, c': Cells, ks: seq<Key>)
    requires Shrinks(c, c')
    ensures Size(c', ks) <= Size(c, ks)
    ensures Size(c', ks) == Size(c, ks) ==> forall k :: k in ks && k in c ==> c'[k] == c[k]
    decreases |ks|
  {
    if ks != [] {
      var init, last := ks[..|ks| - 1], ks[|ks| - 1];
      SizeShrinks(c, c', init);
      if last in c {
        SubsetSize(c'[last], c[last]);
      }
      assert forall k :: k in ks ==> k in init || k == last;
    }
  }

  /** A shrinking step that leaves the total size of every cell unchanged
      changed nothing at all: the fixed point the solver loops stop on. */
  lemma UnchangedSizeIsFixpoint(c: Cells, c': Cells, ks: seq<Key>)
    requires Shrinks(c, c')
    requires forall k :: k in c <==> k in ks
    requires Size(c', ks) == Size(c, ks)
    ensures c' == c
  {
    SizeShrinks(c, c', ks);
  }

  /**
   * The dictionary `sets` (LogicPuzzle.py) or `all_sets` (Logic.py): one
   * candidate set per key, with its keys in insertion order, the order in
   * which every `for key in sets` loop visits them.
   */
  class SetStore {
    var order: seq<Key>
    var cells: Cells

    /** order lists every key once. */
    ghost predicate Ordered()
      reads this
    {
      && (forall i, j :: 0 <= i < j < |order| ==> order[i] != order[j])
      && (forall k :: k in cells <==> k in order)
    }

    ghost predicate Valid(cats: Categories)
      reads this
    {
      Ordered() && WellFormed(cats) && Sane(cats, cells)
    }

    constructor ()
      ensures order == [] && cells == map[]
    {
      order := [];
      cells := map[];
    }

    /** Dictionary assignment `sets[key] = s`: a new key goes last in the
        order, an existing key keeps its place. */
    method Put(key: Key, s: set<Value>)
      requires Ordered()
      modifies this
      ensures Ordered()
      ensures order == if key in old(cells) then old(order) else old(order) + [key]
      ensures cells == old(cells)[key := s]
    {
      if key !in cells {
        order := order + [key];
      }
      cells := cells[key := s];
    }

    /** The state reached from order0 and cells0 after assigning the full
        value set of its second category to every key in done. */
    ghost predicate FilledFrom(cats: Categories, order0: seq<Key>, cells0: Cells, done: set<Key>)
      reads this
    {
      && Ordered()
      && |order0| <= |order| && order[..|order0|] == order0
      && (forall k :: k in cells <==> k in cells0 || k in done)
      && (forall k :: k in done ==> k.catB in cats.members && cells[k] == FullSet(cats, k.catB))
      && (forall k :: k in cells0 && k !in done ==> cells[k] == cells0[k])
    }

    /** `sets[key] = ...` of generate_sets: the key gets the full value set
        of its second category. */
    method Fill(cats: Categories, key: Key, ghost order0: seq<Key>, ghost cells0: Cells, ghost done: set<Key>)
      requires FilledFrom(cats, order0, cells0, done) && key.catB in cats.members
      modifies this
      ensures FilledFrom(cats, order0, cells0, done + {key})
    {
      ghost var before := order;
      Put(key, FullSet(cats, key.catB));
      assert order[..|before|] == before;
    }

    /** The innermost loop of generate_sets, over the values of A for one B. */
    method GenerateCells(cats: Categories, a: Name, b: Name, ghost order0: seq<Key>, ghost cells0: Cells,
                         ghost done: set<Key>) returns (ghost done': set<Key>)
      requires FilledFrom(cats, order0, cells0, done) && a in cats.members && b in cats.members
      modifies this
      ensures forall k :: k in done' <==> k in done || (a != b && k.catA == a && k.catB == b && k.elA in cats.members[a])
      ensures FilledFrom(cats, order0, cells0, done')
    {
      done' := done;
      var els := cats.members[a];
      var l := 0;
      while l < |els|
        invariant 0 <= l <= |els|
        invariant forall k :: k in done' <==> k in done || (a != b && k.catA == a && k.catB == b && k.elA in els[..l])
        invariant FilledFrom(cats, order0, cells0, done')
      {
        assert els[..l + 1] == els[..l] + [els[l]];
        if a != b {
          var key := Key(a, els[l], b);
          Fill(cats, key, order0, cells0, done');
          done' := done' + {key};
        }
        l := l + 1;
      }
      assert els[..l] == els;
    }

    /** The middle loop of generate_sets, over the categories B for one A. */
    method GenerateRow(cats: Categories, a: Name, ghost order0: seq<Key>, ghost cells0: Cells,
                       ghost done: set<Key>) returns (ghost done': set<Key>)
      requires FilledFrom(cats, order0, cells0, done) && a in cats.members && WellFormed(cats)
      modifies this
      ensures forall k :: k in done' <==> k in done || (k.catA == a && IsKey(cats, k))
      ensures FilledFrom(cats, order0, cells0, done')
    {
      done' := done;
      var names := cats.names;
      var j := 0;
      while j < |names|
        invariant 0 <= j <= |names|
        invariant forall k :: k in done' <==> k in done || (k.catA == a && k.catB in names[..j] && IsKey(cats, k))
        invariant FilledFrom(cats, order0, cells0, done')
      {
        assert names[..j + 1] == names[..j] + [names[j]];
        done' := GenerateCells(cats, a, names[j], order0, cells0, done');
        j := j + 1;
      }
      assert names[..j] == names;
    }

    /** generate_sets: every key (A, a, B) with A != B and a in A gets the
        full value set of B and other cells are kept; keys already present
        keep their place in the order and new keys are appended. */
    method Generate(cats: Categories)
      requires WellFormed(cats) && Ordered()
      modifies this
      ensures Ordered()
      ensures |old(order)| <= |order| && order[..|old(order)|] == old(order)
      ensures forall k :: k in cells <==> k in old(cells) || IsKey(cats, k)
      ensures forall k :: IsKey(cats, k) ==> cells[k] == FullSet(cats, k.catB)
      ensures forall k :: k in old(cells) && !IsKey(cats, k) ==> cells[k] == old(cells)[k]
    {
      ghost var order0, cells0 := order, cells;
      ghost var done: set<Key> := {};
      var names := cats.names;
      var i := 0;
      while i < |names|
        invariant 0 <= i <= |names|
        invariant forall k :: k in done <==> k.catA in names[..i] && IsKey(cats, k)
        invariant FilledFrom(cats, order0, cells0, done)
      {
        assert names[..i + 1] == names[..i] + [names[i]];
        done := GenerateRow(cats, names[i], order0, cells0, done);
        i := i + 1;
      }
      assert names[..i] == names;
    }

    /** get_total_length: the sum of the sizes of all cells. */
    method TotalLength() returns (size: nat)
      requires Ordered()
      ensures size == Size(cells, order)
    {
      size := 0;
      var i := 0;
      while i < |order|
        invariant 0 <= i <= |order|
        invariant size == Size(cells, order[..i])
      {
        assert order[..i + 1][..i] == order[..i];
        size := size + |cells[order[i]]|;
        i := i + 1;
      }
      assert order[..i] == order;
    }
  }
}
