/**
 * The token classifier of Token.py: a raw word of a rule line becomes an
 * operator, a number, an element of the puzzle, a list of elements or an
 * (element, category) pair, or stays INVALID.
 */
module Tokens {

  datatype Option<+T> = None | Some(value: T)

  /** What a call did: returned, or raised an exception (ValueError from
      unpacking a split into the wrong number of pieces, IndexError from
      indexing an empty text). */
  datatype Outcome<+T> = Returned(value: T) | Raised

  type Name = string

  /** A category value as the tokenizer sees it: a word, or a number for
      the categories whose values are numeric. */
  datatype Atom = Word(text: string) | Number(x: real)

  /** The two attributes of the puzzle the tokenizer reads: the category
      names in dictionary order and the values of each. */
  datatype Lexicon = Lexicon(names: seq<Name>, values: map<Name, seq<Atom>>)

  /** The names are distinct and are exactly the keys of the values. */
  ghost predicate WellFormed(lex: Lexicon) {
    && (forall i, j :: 0 <= i < j < |lex.names| ==> lex.names[i] != lex.names[j])
    && (forall n :: n in lex.values <==> n in lex.names)
  }

  /** The float() conversion: Some(x) when the text parses as a number.
      Which texts parse is not part of this model; it is a parameter. */
  type Parser = string -> Option<real>

  datatype TokenType = EQUAL | NOT_EQUAL | ELEMENT | LIST | PAIR | GT | PLUS | NUMBER | INVALID

  /** The text each member of TokenType carries. */
  function Text(t: TokenType): string {
    match t
    case EQUAL => "="
    case NOT_EQUAL => "!="
    case ELEMENT => "ELEMENT"
    case LIST => "LIST"
    case PAIR => "PAIR"
    case GT => ">"
    case PLUS => "+"
    case NUMBER => "#"
    case INVALID => "INV"
  }

  /** The members of TokenType in declaration order. */
  function AllTypes(): (ts: seq<TokenType>)
    ensures |ts| == 9
  {
    [EQUAL, NOT_EQUAL, ELEMENT, LIST, PAIR, GT, PLUS, NUMBER, INVALID]
  }

  /** Iterating over TokenType visits every member. */
  lemma AllTypesComplete(t: TokenType)
    ensures t in AllTypes()
  {
    var ts := AllTypes();
    match t
    case EQUAL => assert ts[0] == t;
    case NOT_EQUAL => assert ts[1] == t;
    case ELEMENT => assert ts[2] == t;
    case LIST => assert ts[3] == t;
    case PAIR => assert ts[4] == t;
    case GT => assert ts[5] == t;
    case PLUS => assert ts[6] == t;
    case NUMBER => assert ts[7] == t;
    case INVALID => assert ts[8] == t;
  }

  /** No two members of TokenType carry the same text. */
  lemma TextInjective(t: TokenType, u: TokenType)
    requires Text(t) == Text(u)
    ensures t == u
  {
  }

  /** The operators, whose token is fixed by their text. */
  predicate IsInflexible(s: string) {
    s == Text(EQUAL) || s == Text(NOT_EQUAL) || s == Text(GT) || s == Text(PLUS)
  }

  /** A text is an operator exactly when it is the text of one of the four
      operator types. */
  lemma InflexibleTypes(s: string)
    ensures IsInflexible(s) <==> exists t :: Text(t) == s && t in {EQUAL, NOT_EQUAL, GT, PLUS}
  {
    if IsInflexible(s) {
      if s == Text(EQUAL) {
        assert Text(EQUAL) == s;
      } else if s == Text(NOT_EQUAL) {
        assert Text(NOT_EQUAL) == s;
      } else if s == Text(GT) {
        assert Text(GT) == s;
      } else {
        assert Text(PLUS) == s;
      }
    }
  }

  // splitting -----------------------------------------------------------------

  /** The position of the first sep in s. */
  function IndexOf(s: string, sep: char): (i: nat)
    requires sep in s
    ensures i < |s| && s[i] == sep && sep !in s[..i]
  {
    if s[0] == sep then 0
    else
      assert s == [s[0]] + s[1..];
      var i := IndexOf(s[1..], sep);
      assert s[..i + 1] == [s[0]] + s[1..][..i];
      i + 1
  }

  /** str.split(sep): the pieces between the separators, in order. */
  function Split(s: string, sep: char): (r: seq<string>)
    ensures |r| >= 1 && (|r| == 1 <==> sep !in s)
    ensures forall i :: 0 <= i < |r| ==> sep !in r[i]
    decreases |s|
  {
    if sep !in s then [s]
    else
      var i := IndexOf(s, sep);
      [s[..i]] + Split(s[i + 1..], sep)
  }

  /** str.join: the pieces with sep between consecutive ones. */
  function Join(parts: seq<string>, sep: char): string
    requires |parts| >= 1
  {
    if |parts| == 1 then parts[0] else parts[0] + [sep] + Join(parts[1..], sep)
  }

  /** Splitting loses nothing: joining the pieces gives the text back. */
  lemma {:induction false} JoinSplit(s: string, sep: char)
    ensures Join(Split(s, sep), sep) == s
    decreases |s|
  {
    if sep in s {
      var i := IndexOf(s, sep);
      var rest := Split(s[i + 1..], sep);
      JoinCons(s[..i], rest, sep);
      JoinSplit(s[i + 1..], sep);
      CutAt(s, i);
    }
  }

  /** A text is what precedes position i, its i-th character, and what
      follows. */
  lemma CutAt(s: string, i: nat)
    requires i < |s|
    ensures s == s[..i] + [s[i]] + s[i + 1..]
  {
    assert s[..i] + [s[i]] == s[..i + 1];
    assert s[..i + 1] + s[i + 1..] == s;
  }

  /** Joining a piece in front of at least one more puts one sep after it. */
  lemma JoinCons(p: string, rest: seq<string>, sep: char)
    requires |rest| >= 1
    ensures Join([p] + rest, sep) == p + [sep] + Join(rest, sep)
  {
    assert ([p] + rest)[0] == p && ([p] + rest)[1..] == rest;
  }

  // looking up elements -----------------------------------------------------

  /** The first category of ns (dictionary order) whose values hold the
      word w. */
  function FirstCategory(lex: Lexicon, ns: seq<Name>, w: string): (r: Option<Name>)
    requires forall n :: n in ns ==> n in lex.values
    ensures r.Some? ==> r.value in ns && Word(w) in lex.values[r.value]
    ensures r.Some? ==> exists i :: (0 <= i < |ns| && ns[i] == r.value &&
      forall j :: 0 <= j < i ==> Word(w) !in lex.values[ns[j]])
    ensures r.None? <==> forall n :: n in ns ==> Word(w) !in lex.values[n]
  {
    if ns == [] then None
    else if Word(w) in lex.values[ns[0]] then Some(ns[0])
    else
      var r := FirstCategory(lex, ns[1..], w);
      assert forall n :: n in ns <==> n == ns[0] || n in ns[1..];
      if r.Some? then
        var i :| 0 <= i < |ns[1..]| && ns[1..][i] == r.value &&
          forall j :: 0 <= j < i ==> Word(w) !in lex.values[ns[1..][j]];
        assert ns[i + 1] == r.value;
        assert forall j :: 0 <= j < i + 1 ==> Word(w) !in lex.values[ns[j]] by {
          forall j | 0 <= j < i + 1
            ensures Word(w) !in lex.values[ns[j]]
          {
            if j > 0 {
              assert ns[j] == ns[1..][j - 1];
            }
          }
        }
        r
      else r
  }

  /** get_element: "cat:num" names the numeric value num of category cat;
      any other text is a word, found in the first category listing it. */
  function GetElement(lex: Lexicon, parse: Parser, s: string): (r: Outcome<Option<(Name, Atom)>>)
    requires WellFormed(lex)
    ensures r.Raised? <==> ':' in s && |Split(s, ':')| != 2
    ensures r.Returned? && r.value.Some? ==> r.value.value.0 in lex.values && r.value.value.1 in lex.values[r.value.value.0]
    ensures ':' !in s ==> (r == Returned(None) <==> forall n :: n in lex.values ==> Word(s) !in lex.values[n])
    ensures ':' !in s && r.Returned? && r.value.Some? ==> r.value.value.1 == Word(s)
    ensures ':' in s && r.Returned? && r.value.Some? ==>
      var parts := Split(s, ':');
      parse(parts[1]).Some? && r.value.value == (parts[0], Number(parse(parts[1]).value))
  {
    if ':' in s then
      var parts := Split(s, ':');
      if |parts| != 2 then Raised
      else
        var cat := parts[0];
        var num := parse(parts[1]);
        if cat in lex.values && num.Some? && Number(num.value) in lex.values[cat] then
          Returned(Some((cat, Number(num.value))))
        else Returned(None)
    else
      match FirstCategory(lex, lex.names, s)
      case None => Returned(None)
      case Some(cat) => Returned(Some((cat, Word(s))))
  }

  /** A numeric value written "cat:num" is found exactly when cat is a
      category listing that number. */
  lemma NumericElementFound(lex: Lexicon, parse: Parser, cat: Name, num: string)
    requires WellFormed(lex) && ':' !in cat && ':' !in num && parse(num).Some?
    ensures var r := GetElement(lex, parse, cat + [':'] + num);
      r.Returned? && (r.value.Some? <==> cat in lex.values && Number(parse(num).value) in lex.values[cat])
  {
    var s := cat + [':'] + num;
    assert s[|cat|] == ':';
    var i := IndexOf(s, ':');
    assert i == |cat|;
    assert s[..i] == cat && s[i + 1..] == num;
    assert Split(s, ':') == [cat, num];
  }

  // the values a token can take ------------------------------------------

  /** The value field: the raw text until classified, then a number, an
      element, a list of elements or an (element, category) pair. */
  datatype TokenValue =
    | Raw(text: string)
    | Num(x: real)
    | Elem(cat: Name, el: Atom)
    | ElemList(elems: seq<(Name, Atom)>)
    | Pair(catA: Name, elA: Atom, catB: Name)

  /** The value has the shape its type calls for. */
  predicate Shaped(t: TokenType, v: TokenValue) {
    match t
    case INVALID => v.Raw?
    case NUMBER => v.Num?
    case ELEMENT => v.Elem?
    case LIST => v.ElemList?
    case PAIR => v.Pair?
    case _ => v == Raw(Text(t))
  }

  /** Each item of a list resolved in order; the first item that names no
      element ends the walk with None, an item that raises ends it with
      Raised. */
  function ResolveAll(lex: Lexicon, parse: Parser, items: seq<string>): (r: Outcome<Option<seq<(Name, Atom)>>>)
    requires WellFormed(lex)
    ensures r.Returned? && r.value.Some? ==> (|r.value.value| == |items| &&
      forall i :: 0 <= i < |items| ==> GetElement(lex, parse, items[i]) == Returned(Some(r.value.value[i])))
    ensures r == Returned(None) ==> exists i :: 0 <= i < |items| && GetElement(lex, parse, items[i]) == Returned(None)
    ensures r.Raised? ==> exists i :: 0 <= i < |items| && GetElement(lex, parse, items[i]).Raised?
    decreases |items|
  {
    if items == [] then Returned(Some([]))
    else
      match GetElement(lex, parse, items[0])
      case Raised => Raised
      case Returned(None) => Returned(None)
      case Returned(Some(u)) =>
        var rest := ResolveAll(lex, parse, items[1..]);
        if rest.Raised? then
          var i :| 0 <= i < |items[1..]| && GetElement(lex, parse, items[1..][i]).Raised?;
          assert items[i + 1] == items[1..][i];
          Raised
        else if rest.value.None? then
          var i :| 0 <= i < |items[1..]| && GetElement(lex, parse, items[1..][i]) == Returned(None);
          assert items[i + 1] == items[1..][i];
          Returned(None)
        else
          var us := [u] + rest.value.value;
          assert forall i :: 1 <= i < |items| ==> items[i] == items[1..][i - 1] && us[i] == rest.value.value[i - 1];
          Returned(Some(us))
  }

  /** A resolved prefix in front of the walk over the rest. */
  function Prepend(us: seq<(Name, Atom)>, r: Outcome<Option<seq<(Name, Atom)>>>): Outcome<Option<seq<(Name, Atom)>>> {
    match r
    case Returned(Some(vs)) => Returned(Some(us + vs))
    case _ => r
  }

  /** validate_list_token: a text bracketed by "[" and "]" whose
      comma-separated items all name elements becomes their list. */
  function ListValue(lex: Lexicon, parse: Parser, s: string): (r: Outcome<Option<TokenValue>>)
    requires WellFormed(lex)
    ensures r.Raised? ==> |s| == 0 || (|s| >= 2 && ResolveAll(lex, parse, Split(s[1..|s| - 1], ',')).Raised?)
    ensures r.Returned? && r.value.Some? ==>
      |s| >= 2 && s[0] == '[' && s[|s| - 1] == ']' && r.value.value.ElemList? &&
      ResolveAll(lex, parse, Split(s[1..|s| - 1], ',')) == Returned(Some(r.value.value.elems))
    ensures |s| > 0 && (s[0] != '[' || s[|s| - 1] != ']') ==> r == Returned(None)
  {
    if |s| == 0 then Raised
    else if s[0] != '[' || s[|s| - 1] != ']' then Returned(None)
    else
      match ResolveAll(lex, parse, Split(s[1..|s| - 1], ','))
      case Raised => Raised
      case Returned(None) => Returned(None)
      case Returned(Some(us)) => Returned(Some(ElemList(us)))
  }

  /** validate_pair_token: "el_A,cat_B" becomes (cat_A, el_A, cat_B) when
      el_A names an element and cat_B is another category. */
  function PairValue(lex: Lexicon, parse: Parser, s: string): (r: Outcome<Option<TokenValue>>)
    requires WellFormed(lex)
    ensures r.Raised? <==> |Split(s, ',')| != 2 || GetElement(lex, parse, Split(s, ',')[0]).Raised?
    ensures r.Returned? && r.value.Some? ==>
      var v := r.value.value;
      && v.Pair? && v.catA in lex.values && v.elA in lex.values[v.catA]
      && v.catB in lex.values && v.catB != v.catA
      && GetElement(lex, parse, Split(s, ',')[0]) == Returned(Some((v.catA, v.elA)))
      && v.catB == Split(s, ',')[1]
    ensures |Split(s, ',')| == 2 ==>
      var parts := Split(s, ',');
      var u := GetElement(lex, parse, parts[0]);
      u.Returned? && u.value.Some? && parts[1] in lex.values && parts[1] != u.value.value.0 ==>
        r == Returned(Some(Pair(u.value.value.0, u.value.value.1, parts[1])))
  {
    var parts := Split(s, ',');
    if |parts| != 2 then Raised
    else
      match GetElement(lex, parse, parts[0])
      case Raised => Raised
      case Returned(None) => Returned(None)
      case Returned(Some((ca, ea))) =>
        if parts[1] in lex.values && parts[1] != ca then Returned(Some(Pair(ca, ea, parts[1])))
        else Returned(None)
  }

  /** validate_element_token: a text naming an element becomes it. */
  function ElementValue(lex: Lexicon, parse: Parser, s: string): (r: Outcome<Option<TokenValue>>)
    requires WellFormed(lex)
    ensures r.Raised? <==> GetElement(lex, parse, s).Raised?
    ensures r.Returned? ==> (r.value.Some? <==> GetElement(lex, parse, s).value.Some?)
    ensures r.Returned? && r.value.Some? ==>
      r.value.value.Elem? && r.value.value.cat in lex.values && r.value.value.el in lex.values[r.value.value.cat]
  {
    match GetElement(lex, parse, s)
    case Raised => Raised
    case Returned(None) => Returned(None)
    case Returned(Some((c, e))) => Returned(Some(Elem(c, e)))
  }

  /** The type a classified value gets. */
  function TypeOf(v: TokenValue): TokenType {
    match v
    case Raw(_) => INVALID
    case Num(_) => NUMBER
    case Elem(_, _) => ELEMENT
    case ElemList(_) => LIST
    case Pair(_, _, _) => PAIR
  }

  /** set_type on the text s, as (type, value), or None when the token
      stays INVALID. The cases are tried in order: operator, number, "[",
      ",", element. */
  ghost function Classify(lex: Lexicon, parse: Parser, s: string): (r: Outcome<Option<(TokenType, TokenValue)>>)
    requires WellFormed(lex)
    ensures IsInflexible(s) ==> (r.Returned? && r.value.Some? && r.value.value.1 == Raw(s) &&
      Text(r.value.value.0) == s)
    ensures !IsInflexible(s) && parse(s).Some? ==> r == Returned(Some((NUMBER, Num(parse(s).value))))
    ensures r.Returned? && r.value.Some? ==> Shaped(r.value.value.0, r.value.value.1) && r.value.value.0 != INVALID
  {
    if IsInflexible(s) then
      InflexibleTypes(s);
      var t :| Text(t) == s && t in {EQUAL, NOT_EQUAL, GT, PLUS};
      Returned(Some((t, Raw(s))))
    else if parse(s).Some? then Returned(Some((NUMBER, Num(parse(s).value))))
    else
      var v := if '[' in s then ListValue(lex, parse, s)
               else if ',' in s then PairValue(lex, parse, s)
               else ElementValue(lex, parse, s);
      match v
      case Raised => Raised
      case Returned(None) => Returned(None)
      case Returned(Some(x)) => Returned(Some((TypeOf(x), x)))
  }

  /** Past the operators and the numbers, the first of "[" and "," found
      in the text decides how it is validated: with "[" as a list, else
      with "," as a pair, else as an element; the type follows the
      validation, and the token stays INVALID exactly when it fails. */
  lemma ClassifyDispatch(lex: Lexicon, parse: Parser, s: string)
    requires WellFormed(lex) && !IsInflexible(s) && parse(s).None?
    ensures var r := Classify(lex, parse, s);
      var v := if '[' in s then ListValue(lex, parse, s)
               else if ',' in s then PairValue(lex, parse, s)
               else ElementValue(lex, parse, s);
      var t := if '[' in s then LIST else if ',' in s then PAIR else ELEMENT;
      && (r.Raised? <==> v.Raised?)
      && (r.Returned? ==> (r.value.None? <==> v.value.None?))
      && (r.Returned? && r.value.Some? ==> r.value.value == (t, v.value.value))
  {
    var v := if '[' in s then ListValue(lex, parse, s)
             else if ',' in s then PairValue(lex, parse, s)
             else ElementValue(lex, parse, s);
    if v.Returned? && v.value.Some? {
      var x := v.value.value;
      assert '[' in s ==> x.ElemList?;
      assert '[' !in s && ',' in s ==> x.Pair?;
      assert '[' !in s && ',' !in s ==> x.Elem?;
    }
  }

  /** A word that is not an operator, not a number and has no "[", ","
      or ":" is classified as the element of the first category listing
      it, and stays INVALID exactly when no category does. */
  lemma ClassifyWord(lex: Lexicon, parse: Parser, w: string)
    requires WellFormed(lex) && !IsInflexible(w) && parse(w).None?
    requires '[' !in w && ',' !in w && ':' !in w
    ensures var r := Classify(lex, parse, w);
      && r.Returned?
      && (r.value.None? <==> forall n :: n in lex.values ==> Word(w) !in lex.values[n])
      && (r.value.Some? ==> (r.value.value.0 == ELEMENT && r.value.value.1.el == Word(w) &&
            FirstCategory(lex, lex.names, w) == Some(r.value.value.1.cat)))
  {
  }

  // the class ---------------------------------------------------------------

  class Token {
    var tokType: TokenType
    var value: TokenValue
    var valid: bool

    /** valid says whether the type is a recognised one, and the value has
        the shape of the type. */
    ghost predicate Consistent()
      reads this
    {
      (valid <==> tokType != INVALID) && Shaped(tokType, value)
    }

    /** __init__: an INVALID, not valid token holding the raw text. */
    constructor (tok: string)
      ensures tokType == INVALID && value == Raw(tok) && !valid
      ensures Consistent()
    {
      tokType := INVALID;
      value := Raw(tok);
      valid := false;
    }

    /** is_inflexible_token: the value is the text of an operator. */
    predicate IsInflexibleToken(): (r: bool)
      reads this
      ensures r <==> value.Raw? && exists t :: Text(t) == value.text && t in {EQUAL, NOT_EQUAL, GT, PLUS}
    {
      if value.Raw? then
        InflexibleTypes(value.text);
        IsInflexible(value.text)
      else false
    }

    /** get_inflexible_tok_type: the first member of TokenType whose text
        is the value, or None. */
    method GetInflexibleTokType() returns (r: Option<TokenType>)
      ensures r.Some? ==> value == Raw(Text(r.value))
      ensures r.None? <==> forall t :: value != Raw(Text(t))
    {
      var ts := AllTypes();
      var i := 0;
      while i < |ts|
        invariant 0 <= i <= |ts|
        invariant forall j :: 0 <= j < i ==> value != Raw(Text(ts[j]))
      {
        if value == Raw(Text(ts[i])) {
          return Some(ts[i]);
        }
        i := i + 1;
      }
      forall t
        ensures value != Raw(Text(t))
      {
        AllTypesComplete(t);
        var j :| 0 <= j < |ts| && ts[j] == t;
      }
      return None;
    }

    /** The fields after a validate_* call whose spec gave v. */
    ghost predicate Took(v: Outcome<Option<TokenValue>>, t: TokenType, oldValue: TokenValue, oldValid: bool)
      reads this
    {
      match v
      case Raised => tokType == t && value == oldValue && valid == oldValid
      case Returned(None) => tokType == t && value == oldValue && valid == oldValid
      case Returned(Some(x)) => tokType == TypeOf(x) && value == x && valid
    }

    /** validate_element_token. */
    method ValidateElementToken(lex: Lexicon, parse: Parser) returns (r: Outcome<()>)
      requires WellFormed(lex) && value.Raw? && Consistent()
      modifies this
      ensures Consistent()
      ensures var v := ElementValue(lex, parse, old(value).text);
        (r.Raised? <==> v.Raised?) && Took(v, old(tokType), old(value), old(valid))
    {
      var unit := GetElement(lex, parse, value.text);
      if unit.Raised? {
        return Raised;
      }
      if unit.value.None? {
        return Returned(());
      }
      tokType := ELEMENT;
      valid := true;
      value := Elem(unit.value.value.0, unit.value.value.1);
      return Returned(());
    }

    /** validate_list_token: check the brackets, then resolve the items one
        by one, stopping at the first that names no element. */
    method ValidateListToken(lex: Lexicon, parse: Parser) returns (r: Outcome<()>)
      requires WellFormed(lex) && value.Raw? && Consistent()
      modifies this
      ensures Consistent()
      ensures var v := ListValue(lex, parse, old(value).text);
        (r.Raised? <==> v.Raised?) && Took(v, old(tokType), old(value), old(valid))
    {
      var tok := value.text;
      if |tok| == 0 {
        return Raised;
      }
      if tok[0] != '[' || tok[|tok| - 1] != ']' {
        return Returned(());
      }
      var resolved := ResolveItems(lex, parse, Split(tok[1..|tok| - 1], ','));
      if resolved.Raised? {
        return Raised;
      }
      if resolved.value.None? {
        return Returned(());
      }
      var elements := resolved.value.value;
      tokType := LIST;
      valid := true;
      value := ElemList(elements);
      return Returned(());
    }

    /** validate_pair_token. */
    method ValidatePairToken(lex: Lexicon, parse: Parser) returns (r: Outcome<()>)
      requires WellFormed(lex) && value.Raw? && Consistent()
      modifies this
      ensures Consistent()
      ensures var v := PairValue(lex, parse, old(value).text);
        (r.Raised? <==> v.Raised?) && Took(v, old(tokType), old(value), old(valid))
    {
      var parts := Split(value.text, ',');
      if |parts| != 2 {
        return Raised;
      }
      var unit := GetElement(lex, parse, parts[0]);
      if unit.Raised? {
        return Raised;
      }
      if unit.value.Some? {
        var (catA, elA) := unit.value.value;
        if parts[1] in lex.values && parts[1] != catA {
          tokType := PAIR;
          valid := true;
          value := Pair(catA, elA, parts[1]);
        }
      }
      return Returned(());
    }

    /** set_type on a token still holding its text. */
    method SetType(lex: Lexicon, parse: Parser) returns (r: Outcome<()>)
      requires WellFormed(lex) && value.Raw? && Consistent()
      modifies this
      ensures Consistent()
      ensures var c := Classify(lex, parse, old(value).text);
        && (r.Raised? <==> c.Raised?)
        && (c.Returned? && c.value.Some? ==> tokType == c.value.value.0 && value == c.value.value.1 && valid)
        && (c.Raised? || c.value.None? ==> tokType == old(tokType) && value == old(value) && valid == old(valid))
    {
      var s := value.text;
      if IsInflexibleToken() {
        var t := GetInflexibleTokType();
        InflexibleTypes(s);
        var u :| Text(u) == s && u in {EQUAL, NOT_EQUAL, GT, PLUS};
        TextInjective(t.value, u);
        tokType := t.value;
        valid := true;
        return Returned(());
      }
      if parse(s).Some? {
        tokType := NUMBER;
        valid := true;
        value := Num(parse(s).value);
        return Returned(());
      }
      if '[' in s {
        r := ValidateListToken(lex, parse);
      } else if ',' in s {
        r := ValidatePairToken(lex, parse);
      } else {
        r := ValidateElementToken(lex, parse);
      }
    }
  }

  /** The loop of validate_list_token: the items resolved one by one into
      the elements list, leaving at the first that names no element. */
  method ResolveItems(lex: Lexicon, parse: Parser, items: seq<string>) returns (r: Outcome<Option<seq<(Name, Atom)>>>)
    requires WellFormed(lex)
    ensures r == ResolveAll(lex, parse, items)
  {
    var elements: seq<(Name, Atom)> := [];
    var i := 0;
    assert items[i..] == items;
    assert Prepend(elements, ResolveAll(lex, parse, items)) == ResolveAll(lex, parse, items) by {
      var all := ResolveAll(lex, parse, items);
      if all.Returned? && all.value.Some? {
        assert elements + all.value.value == all.value.value;
      }
    }
    while i < |items|
      invariant 0 <= i <= |items|
      invariant ResolveAll(lex, parse, items) == Prepend(elements, ResolveAll(lex, parse, items[i..]))
    {
      var unit := GetElement(lex, parse, items[i]);
      ResolveAdvance(lex, parse, items, i, elements);
      if unit.Raised? {
        return Raised;
      }
      if unit.value.None? {
        return Returned(None);
      }
      elements := elements + [unit.value.value];
      i := i + 1;
    }
    assert items[i..] == [];
    assert elements + [] == elements;
    return Returned(Some(elements));
  }

  /** The walk over a non-empty list, one item at a time. */
  lemma ResolveAllStep(lex: Lexicon, parse: Parser, items: seq<string>)
    requires WellFormed(lex) && items != []
    ensures var head := GetElement(lex, parse, items[0]);
      ResolveAll(lex, parse, items) ==
        if head.Raised? then Raised
        else if head.value.None? then Returned(None)
        else Prepend([head.value.value], ResolveAll(lex, parse, items[1..]))
  {
  }

  /** What resolving the i-th item does to the walk of the whole list:
      an exception or an unknown item ends it, a resolved item joins the
      prefix. */
  lemma ResolveAdvance(lex: Lexicon, parse: Parser, items: seq<string>, i: nat, elements: seq<(Name, Atom)>)
    requires WellFormed(lex) && i < |items|
    requires ResolveAll(lex, parse, items) == Prepend(elements, ResolveAll(lex, parse, items[i..]))
    ensures var u := GetElement(lex, parse, items[i]);
      && (u.Raised? ==> ResolveAll(lex, parse, items) == Raised)
      && (u.Returned? && u.value.None? ==> ResolveAll(lex, parse, items) == Returned(None))
      && (u.Returned? && u.value.Some? ==>
            ResolveAll(lex, parse, items) == Prepend(elements + [u.value.value], ResolveAll(lex, parse, items[i + 1..])))
  {
    ResolveAllStep(lex, parse, items[i..]);
    assert items[i..][0] == items[i] && items[i..][1..] == items[i + 1..];
    var u := GetElement(lex, parse, items[i]);
    if u.Returned? && u.value.Some? {
      PrependSnoc(elements, u.value.value, ResolveAll(lex, parse, items[i + 1..]));
    }
  }

  /** One more resolved item moves from the walk to the prefix. */
  lemma PrependSnoc(us: seq<(Name, Atom)>, u: (Name, Atom), rest: Outcome<Option<seq<(Name, Atom)>>>)
    ensures Prepend(us, Prepend([u], rest)) == Prepend(us + [u], rest)
  {
    if rest.Returned? && rest.value.Some? {
      assert us + ([u] + rest.value.value) == (us + [u]) + rest.value.value;
    }
  }
}
