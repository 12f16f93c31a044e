/**
 * The binary formula node `JGBinary`: a left child, an operator and a right
 * child, set once at construction and never changed, with read accessors
 * and a fully parenthesised canonical rendering (`toString`).
 *
 * Children are formulas of any kind. Kinds other than the binary node are
 * not part of this model; they appear as `Leaf`, carrying the text their
 * own `toString` produces.
 */
module BinaryFormulas {

  import opened Wrappers
  import opened BinaryOperators

  datatype Formula =
    | Leaf(text: string)
    | Binary(left: Formula, op: Operator, right: Formula)

  /** The formulas that are binary nodes (instances of `JGBinary`). */
  type BinaryFormula = f: Formula | f.Binary? witness Binary(Leaf(""), Plus, Leaf(""))

  /** The canonical rendering: a binary node is its left child's rendering
      and its right child's, around the operator symbol, separated by single
      blanks and wrapped in one pair of parentheses. */
  function Render(f: Formula): (s: string)
    ensures f.Binary? ==> |s| >= 5 && s[0] == '(' && s[|s| - 1] == ')'
  {
    match f
    case Leaf(text) => text
    case Binary(left, op, right) => "(" + Render(left) + " " + Symbol(op) + " " + Render(right) + ")"
  }

  /** The node's constructor: what the accessors read back is exactly what
      it was given, the operator as its symbol. */
  function NewBinary(left: Formula, op: Operator, right: Formula): (n: BinaryFormula)
    ensures GetLeft(n) == left && GetRight(n) == right && GetOperator(n) == Symbol(op)
  {
    Binary(left, op, right)
  }

  /** `getLeft`: the left child, whose rendering opens the node's. */
  function GetLeft(n: BinaryFormula): (f: Formula)
    ensures f < n
    ensures "(" + Render(f) + " " <= Render(n)
  {
    n.left
  }

  /** `getRight`: the right child, whose rendering closes the node's. */
  function GetRight(n: BinaryFormula): (f: Formula)
    ensures f < n
    ensures |" " + Render(f) + ")"| <= |Render(n)|
    ensures Render(n)[|Render(n)| - |Render(f)| - 2..] == " " + Render(f) + ")"
  {
    n.right
  }

  /** `getOperator`: the symbol of the stored operator, which the reverse
      lookup maps back to that operator. */
  function GetOperator(n: BinaryFormula): (s: string)
    ensures Decode(s) == Some(n.op)
  {
    DecodeRoundTrip(n.op);
    Symbol(n.op)
  }

  /** Every leaf of `f` renders as an atomic text. */
  predicate WellFormed(f: Formula)
  {
    match f
    case Leaf(text) => Atomic(text)
    case Binary(left, _, right) => WellFormed(left) && WellFormed(right)
  }

  /** What may follow a rendered formula inside a larger rendering: nothing,
      the blank before an operator symbol, or a closing parenthesis. */
  predicate Stop(a: string)
  {
    a == [] || a[0] == ' ' || a[0] == ')'
  }

  /** A rendered node is delimited by parentheses and as long as its parts
      plus the two parentheses and the two blanks. */
  lemma RenderShape(left: Formula, op: Operator, right: Formula)
    ensures var s := Render(Binary(left, op, right));
      && s[0] == '(' && s[|s| - 1] == ')'
      && |s| == |Render(left)| + |Symbol(op)| + |Render(right)| + 4
  {
  }

  /** Nested nodes keep their own parentheses. */
  lemma RenderNesting()
    ensures Render(Binary(Binary(Leaf("x"), Plus, Leaf("y")), Multiplication, Leaf("z"))) == "((x + y) * z)"
    ensures Render(Binary(Leaf("x"), NotEquals, Leaf("y"))) == "(x <> y)"
    ensures Render(Binary(Leaf("a"), Plus, Leaf("b"))) == "(a + b)"
  {
    assert Render(Binary(Leaf("x"), Plus, Leaf("y"))) == "(x + y)";
  }

  /** Two nodes over the same children but different operators never
      render alike. */
  lemma {:induction false} RenderDistinguishesOperators(left: Formula, op1: Operator, op2: Operator, right: Formula)
    requires op1 != op2
    ensures Render(Binary(left, op1, right)) != Render(Binary(left, op2, right))
  {
    var head, tail := "(" + Render(left) + " ", " " + Render(right) + ")";
    assert Render(Binary(left, op1, right)) == head + (Symbol(op1) + tail);
    assert Render(Binary(left, op2, right)) == head + (Symbol(op2) + tail);
    SymbolInjective(op1, op2);
    if Render(Binary(left, op1, right)) == Render(Binary(left, op2, right)) {
      CancelAround(head, Symbol(op1), Symbol(op2), tail);
      assert false;
    }
  }

  /** Equal texts with a common head and a common tail have equal middles. */
  lemma CancelAround(head: string, m1: string, m2: string, tail: string)
    requires head + (m1 + tail) == head + (m2 + tail)
    ensures m1 == m2
  {
    assert m1 + tail == (head + (m1 + tail))[|head|..];
    assert m2 + tail == (head + (m2 + tail))[|head|..];
    assert m1 == (m1 + tail)[..|m1|];
    assert m2 == (m2 + tail)[..|m2|];
  }

  /** The character at position `i` of a concatenation. */
  lemma ConcatAt(x: string, y: string, i: nat)
    requires i < |x + y|
    ensures (x + y)[i] == if i < |x| then x[i] else y[i - |x|]
  {
  }

  /** An atomic text is never a proper prefix of another atomic text when
      both are followed by something that may follow a rendering. */
  lemma AtomicPrefixUnique(t: string, u: string, a: string, b: string)
    requires Atomic(t) && Atomic(u) && Stop(a) && Stop(b)
    requires t + a == u + b
    ensures t == u && a == b
  {
    if |t| < |u| {
      if a == [] {
        assert false;
      } else {
        ConcatAt(t, a, |t|);
        assert false;
      }
    } else if |u| < |t| {
      if b == [] {
        assert false;
      } else {
        ConcatAt(u, b, |u|);
        assert false;
      }
    } else {
      assert t == (t + a)[..|t|];
      assert u == (u + b)[..|u|];
      assert a == (t + a)[|t|..];
      assert b == (u + b)[|u|..];
    }
  }

  /** A rendering of a formula with atomic leaves starts with an opening
      parenthesis exactly when the formula is a binary node. */
  lemma FirstChar(f: Formula, a: string)
    requires WellFormed(f)
    ensures |Render(f) + a| > 0
    ensures (Render(f) + a)[0] == '(' <==> f.Binary?
  {
  }

  /** A rendered node followed by `a`, split into its parts. */
  lemma UnfoldBinary(l: Formula, op: Operator, r: Formula, a: string)
    ensures Render(Binary(l, op, r)) + a
         == "(" + (Render(l) + (" " + (Symbol(op) + (" " + (Render(r) + (")" + a))))))
  {
  }

  /** Dropping the first character of a one-character prefix. */
  lemma DropFirst(c: string, p: string)
    requires |c| == 1
    ensures (c + p)[1..] == p
  {
  }

  /** Unique reading of a rendering followed by what may follow it: when
      leaves are atomic, the rendering determines the formula and where it
      ends. */
  lemma {:induction false} RenderReadsBackUniquely(f: Formula, g: Formula, a: string, b: string)
    requires WellFormed(f) && WellFormed(g) && Stop(a) && Stop(b)
    requires Render(f) + a == Render(g) + b
    ensures f == g && a == b
    decreases f
  {
    FirstChar(f, a);
    FirstChar(g, b);
    match f
    case Leaf(t) =>
      AtomicPrefixUnique(t, g.text, a, b);
    case Binary(l, op, r) =>
      var Binary(l2, op2, r2) := g;
      var c, c2 := ")" + a, ")" + b;
      var afterSymbol, afterSymbol2 := " " + (Render(r) + c), " " + (Render(r2) + c2);
      var afterLeft, afterLeft2 := " " + (Symbol(op) + afterSymbol), " " + (Symbol(op2) + afterSymbol2);
      UnfoldBinary(l, op, r, a);
      UnfoldBinary(l2, op2, r2, b);
      DropFirst("(", Render(l) + afterLeft);
      DropFirst("(", Render(l2) + afterLeft2);
      RenderReadsBackUniquely(l, l2, afterLeft, afterLeft2);
      DropFirst(" ", Symbol(op) + afterSymbol);
      DropFirst(" ", Symbol(op2) + afterSymbol2);
      AtomicPrefixUnique(Symbol(op), Symbol(op2), afterSymbol, afterSymbol2);
      SymbolInjective(op, op2);
      DropFirst(" ", Render(r) + c);
      DropFirst(" ", Render(r2) + c2);
      RenderReadsBackUniquely(r, r2, c, c2);
      DropFirst(")", a);
      DropFirst(")", b);
  }

  /** Structural disambiguation: two formulas with atomic leaves are equal
      exactly when their canonical renderings are. */
  lemma RenderInjective(f: Formula, g: Formula)
    requires WellFormed(f) && WellFormed(g)
    ensures Render(f) == Render(g) <==> f == g
  {
    if Render(f) == Render(g) {
      assert Render(f) + [] == Render(g) + [];
      RenderReadsBackUniquely(f, g, [], []);
    }
  }

  /** Without atomic leaves the rendering is ambiguous: a leaf whose own
      text looks like a node renders exactly like that node. */
  lemma RenderAmbiguousWithoutAtomicLeaves()
    ensures var node := Binary(Leaf("x"), Plus, Leaf("y"));
      && Leaf("(x + y)") != node
      && Render(Leaf("(x + y)")) == Render(node)
      && !WellFormed(Leaf("(x + y)"))
  {
  }
}
