/**
 * The closed vocabulary of binary operators of the specification language
 * (the `Operator` enum nested in `JGBinary`): fourteen kinds, each bound to
 * one symbol, the symbol lookup `toString`, and the reverse lookup `parse`,
 * which scans the kinds in declaration order for an exact match and fails
 * when nothing matches.
 */
module BinaryOperators {

  import opened Wrappers

  /** The fourteen operator kinds, in declaration order. */
  datatype Operator =
    | Plus
    | Minus
    | Less
    | Divide
    | Equals
    | Modulo
    | Greater
    | NotEquals
    | Implicative
    | Conjunctive
    | Disjunctive
    | Multiplication
    | LessOrEquals
    | GreaterOrEquals

  /** All kinds in declaration order, as the enum's `values()` yields them. */
  const Values: seq<Operator> := [
    Plus, Minus, Less, Divide, Equals, Modulo, Greater,
    NotEquals, Implicative, Conjunctive, Disjunctive,
    Multiplication, LessOrEquals, GreaterOrEquals
  ]

  /** The fourteen symbols, written out independently of `Symbol`. */
  const Symbols: set<string> := {
    "+", "-", "<", "/", "=", "%", ">",
    "<>", "->", "/\\", "\\/", "*", "<=", ">="
  }

  /** A text that cannot be confused with the separators of the canonical
      rendering: non-empty, and free of blanks and parentheses. */
  predicate Atomic(t: string)
  {
    |t| > 0 && forall i :: 0 <= i < |t| ==> t[i] != ' ' && t[i] != '(' && t[i] != ')'
  }

  /** The position of a kind in declaration order (the enum's ordinal). */
  function Ordinal(op: Operator): (i: nat)
    ensures i < |Values| && Values[i] == op
  {
    match op
    case Plus => 0
    case Minus => 1
    case Less => 2
    case Divide => 3
    case Equals => 4
    case Modulo => 5
    case Greater => 6
    case NotEquals => 7
    case Implicative => 8
    case Conjunctive => 9
    case Disjunctive => 10
    case Multiplication => 11
    case LessOrEquals => 12
    case GreaterOrEquals => 13
  }

  /** The symbol a kind is bound to (`toString`). Every symbol is one or
      two characters long and atomic, and it is one of the fourteen. */
  function Symbol(op: Operator): (s: string)
    ensures 1 <= |s| <= 2 && Atomic(s)
    ensures s in Symbols
  {
    match op
    case Plus => "+"
    case Minus => "-"
    case Less => "<"
    case Divide => "/"
    case Equals => "="
    case Modulo => "%"
    case Greater => ">"
    case NotEquals => "<>"
    case Implicative => "->"
    case Conjunctive => "/\\"
    case Disjunctive => "\\/"
    case Multiplication => "*"
    case LessOrEquals => "<="
    case GreaterOrEquals => ">="
  }

  /** Reference meaning of the reverse lookup: the kind whose symbol is
      exactly `s`, or `None` when `s` is no symbol at all. */
  ghost function Decode(s: string): Option<Operator>
  {
    if exists op :: Symbol(op) == s then
      var op :| Symbol(op) == s; Some(op)
    else
      None
  }

  /** `parse`: scan the kinds in declaration order and return the first
      whose symbol equals `s` as a whole string; `None` stands for the
      exception thrown after the loop. */
  method Parse(s: string) returns (r: Option<Operator>)
    ensures r.Some? ==> Symbol(r.value) == s
    ensures r.Some? ==> forall j :: 0 <= j < Ordinal(r.value) ==> Symbol(Values[j]) != s
    ensures r.None? <==> s !in Symbols
    ensures r == Decode(s)
  {
    for i := 0 to |Values|
      invariant forall j :: 0 <= j < i ==> Symbol(Values[j]) != s
    {
      var current := Values[i];
      if Symbol(current) == s {
        OrdinalOfValue(i);
        DecodeMeaning(s, current);
        SymbolsAreAll(s);
        return Some(current);
      }
    }
    forall op: Operator ensures Symbol(op) != s {
      assert Values[Ordinal(op)] == op;
    }
    SymbolsAreAll(s);
    DecodeFailsExactly(s);
    return None;
  }

  /** Declaration order lists every kind exactly once. */
  lemma OrdinalOfValue(i: nat)
    requires i < |Values|
    ensures Ordinal(Values[i]) == i
  {
  }

  /** No two kinds share a symbol, so `toString` is injective. */
  lemma SymbolInjective(a: Operator, b: Operator)
    ensures Symbol(a) == Symbol(b) ==> a == b
  {
  }

  /** The symbols of the fourteen kinds are pairwise distinct in
      declaration order, so at most one kind matches any string. */
  lemma SymbolsDistinct()
    ensures forall i, j :: 0 <= i < j < |Values| ==> Symbol(Values[i]) != Symbol(Values[j])
  {
  }

  /** A string is the symbol of some kind exactly when it is one of the
      fourteen symbols. */
  lemma SymbolsAreAll(s: string)
    ensures s in Symbols <==> exists op :: Symbol(op) == s
  {
    if s in Symbols {
      var op :=
        if s == "+" then Plus else if s == "-" then Minus
        else if s == "<" then Less else if s == "/" then Divide
        else if s == "=" then Equals else if s == "%" then Modulo
        else if s == ">" then Greater else if s == "<>" then NotEquals
        else if s == "->" then Implicative else if s == "/\\" then Conjunctive
        else if s == "\\/" then Disjunctive else if s == "*" then Multiplication
        else if s == "<=" then LessOrEquals else GreaterOrEquals;
      assert Symbol(op) == s;
    }
  }

  /** The reverse lookup yields `op` exactly when `op`'s symbol is `s`. */
  lemma DecodeMeaning(s: string, op: Operator)
    ensures Decode(s) == Some(op) <==> Symbol(op) == s
  {
  }

  /** Round trip: looking up the symbol of any kind gives back that kind. */
  lemma DecodeRoundTrip(op: Operator)
    ensures Decode(Symbol(op)) == Some(op)
  {
  }

  /** The lookup fails exactly on the strings that are none of the
      fourteen symbols. */
  lemma DecodeFailsExactly(s: string)
    ensures Decode(s) == None <==> s !in Symbols
  {
    SymbolsAreAll(s);
  }

  /** Whole-string matching: a symbol is never matched by its prefix, and
      text around a symbol makes the lookup fail. */
  lemma DecodeMatchesWholeString()
    ensures Decode("<=") == Some(LessOrEquals) && Decode("<") == Some(Less)
    ensures Decode(">=") == Some(GreaterOrEquals) && Decode(">") == Some(Greater)
    ensures Decode("<>") == Some(NotEquals)
    ensures Decode("/\\") == Some(Conjunctive) && Decode("\\/") == Some(Disjunctive)
    ensures Decode("") == None && Decode("&&") == None && Decode("=>") == None
    ensures Decode("<= ") == None && Decode("+-") == None
  {
    DecodeRoundTrip(LessOrEquals);
    DecodeRoundTrip(Less);
    DecodeRoundTrip(GreaterOrEquals);
    DecodeRoundTrip(Greater);
    DecodeRoundTrip(NotEquals);
    DecodeRoundTrip(Conjunctive);
    DecodeRoundTrip(Disjunctive);
    DecodeFailsExactly("");
    DecodeFailsExactly("&&");
    DecodeFailsExactly("=>");
    DecodeFailsExactly("<= ");
    DecodeFailsExactly("+-");
  }
}
