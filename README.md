# Binary formulas of the HardenedGolo specification language

This project models `JGBinary`, the binary formula node of HardenedGolo's
specification language. It has two parts.

- `operator.dfy`, module `BinaryOperators`: the closed vocabulary of the
  fourteen binary operators (`+ - < / = % > <> -> /\ \/ * <= >=`).
  `Symbol` models `toString`, `Values` models `values()` in declaration
  order, `Ordinal` gives each kind's position in that order, and `Parse`
  models `parse`. `Parse` is a method with a loop, because the source is a
  `for` loop with an early return. Its failure is `None`, where the source
  throws. `Decode` is the reference meaning of the lookup: the operator
  whose symbol is exactly the given string. `Parse` is proved equal to it.
- `binary.dfy`, module `BinaryFormulas`: the immutable node. A `Formula` is
  either a `Binary(left, op, right)` node or a `Leaf` that stands for any
  other kind of formula and carries the text its own `toString` gives.
  `BinaryFormula` is the subtype of binary nodes. `NewBinary` is the
  constructor, and `GetLeft`, `GetRight` and `GetOperator` are the
  accessors. `Render` is the canonical rendering
  `"(" + left + " " + op + " " + right + ")"`.
- `wrappers.dfy`, module `Wrappers`: the `Option` type used for the failing
  lookup.

Beyond the single-call facts, the model proves these properties:

- the symbols are pairwise distinct;
- the lookup round-trips and fails exactly outside the fourteen symbols;
- the lookup matches whole strings only;
- two nodes that differ only in their operator never render alike;
- when every leaf renders as an atomic text (non-empty, with no blanks or
  parentheses), a rendering determines the formula.

The last property is proved only for atomic leaves. Leaves whose text
contains parentheses, such as the call term `f(x)`, are not covered. Some
restriction on leaves is needed: a leaf whose text looks like a node, such
as `(x + y)`, renders exactly like that node, and a lemma exhibits this.

## Model

| member | source | states |
|---|---|---|
| `BinaryOperators.Symbol` | src/main/java/org/eclipse/golo/compiler/jgoloparser/binary/JGBinary.java:57-82 | every operator's symbol is one or two characters long, contains no blank or parenthesis, and is one of the fourteen listed symbols |
| `BinaryOperators.Ordinal` | src/main/java/org/eclipse/golo/compiler/jgoloparser/binary/JGBinary.java:57-71 | every operator occurs in `Values` (the `values()` order), at the position returned |
| `BinaryOperators.OrdinalOfValue` | src/main/java/org/eclipse/golo/compiler/jgoloparser/binary/JGBinary.java:57-71 | declaration order lists each operator exactly once: the operator at position `i` has ordinal `i` |
| `BinaryOperators.Parse` | src/main/java/org/eclipse/golo/compiler/jgoloparser/binary/JGBinary.java:84-91 | the scan returns an operator whose symbol equals the input, and no earlier operator in declaration order matches; it fails exactly when the input is none of the fourteen symbols; its result equals the reference lookup `Decode` |
| `BinaryOperators.SymbolInjective` | src/main/java/org/eclipse/golo/compiler/jgoloparser/binary/JGBinary.java:58-71 | two operators with the same symbol are the same operator |
| `BinaryOperators.SymbolsDistinct` | src/main/java/org/eclipse/golo/compiler/jgoloparser/binary/JGBinary.java:58-71 | the symbols at any two different positions of declaration order differ, so at most one operator matches a string |
| `BinaryOperators.SymbolsAreAll` | src/main/java/org/eclipse/golo/compiler/jgoloparser/binary/JGBinary.java:58-71 | a string is some operator's symbol if and only if it is one of the fourteen listed symbols |
| `BinaryOperators.DecodeMeaning` | src/main/java/org/eclipse/golo/compiler/jgoloparser/binary/JGBinary.java:84-91 | the lookup of `s` yields `op` if and only if `op`'s symbol is `s` |
| `BinaryOperators.DecodeRoundTrip` | src/main/java/org/eclipse/golo/compiler/jgoloparser/binary/JGBinary.java:79-91 | looking up the symbol of any operator gives back that operator |
| `BinaryOperators.DecodeFailsExactly` | src/main/java/org/eclipse/golo/compiler/jgoloparser/binary/JGBinary.java:84-91 | the lookup fails if and only if the string is none of the fourteen symbols |
| `BinaryOperators.DecodeMatchesWholeString` | src/main/java/org/eclipse/golo/compiler/jgoloparser/binary/JGBinary.java:86 | `<=` yields LESS_OR_EQUALS (not LESS), `>=` yields GREATER_OR_EQUALS, `<>` yields NOT_EQUALS, `/\` and `\/` yield CONJUNCTIVE and DISJUNCTIVE; the empty string, `&&`, `=>`, `<= ` and `+-` fail |
| `BinaryFormulas.Render` | src/main/java/org/eclipse/golo/compiler/jgoloparser/binary/JGBinary.java:52-55 | a binary node renders as at least five characters that open with `(` and close with `)` |
| `BinaryFormulas.NewBinary` | src/main/java/org/eclipse/golo/compiler/jgoloparser/binary/JGBinary.java:34-38 | the accessors of a node built from `left`, `op` and `right` return exactly `left` and `right`, and the symbol of `op` |
| `BinaryFormulas.GetLeft` | src/main/java/org/eclipse/golo/compiler/jgoloparser/binary/JGBinary.java:40-42 | the left child is a proper part of the node, and the node's rendering begins with `(`, the child's rendering and a blank |
| `BinaryFormulas.GetRight` | src/main/java/org/eclipse/golo/compiler/jgoloparser/binary/JGBinary.java:44-46 | the right child is a proper part of the node, and the node's rendering ends with a blank, the child's rendering and `)` |
| `BinaryFormulas.GetOperator` | src/main/java/org/eclipse/golo/compiler/jgoloparser/binary/JGBinary.java:48-50 | the returned string is a symbol that the lookup maps back to the stored operator |
| `BinaryFormulas.RenderShape` | src/main/java/org/eclipse/golo/compiler/jgoloparser/binary/JGBinary.java:52-55 | a rendered node starts with `(`, ends with `)`, and is four characters longer than its children's renderings and the symbol together |
| `BinaryFormulas.RenderNesting` | src/main/java/org/eclipse/golo/compiler/jgoloparser/binary/JGBinary.java:53-54 | nested nodes keep their own parentheses: `((x + y) * z)`, `(x <> y)`, `(a + b)` |
| `BinaryFormulas.RenderDistinguishesOperators` | src/main/java/org/eclipse/golo/compiler/jgoloparser/binary/JGBinary.java:52-71 | two nodes with the same children and different operators render differently |
| `BinaryFormulas.RenderReadsBackUniquely` | src/main/java/org/eclipse/golo/compiler/jgoloparser/binary/JGBinary.java:52-55 | with atomic leaves, a rendering followed by nothing, a blank or `)` determines both the formula and where its rendering ends |
| `BinaryFormulas.RenderInjective` | src/main/java/org/eclipse/golo/compiler/jgoloparser/binary/JGBinary.java:52-55 | with atomic leaves, two formulas are equal if and only if their renderings are equal |
| `BinaryFormulas.RenderAmbiguousWithoutAtomicLeaves` | src/main/java/org/eclipse/golo/compiler/jgoloparser/binary/JGBinary.java:52-55 | a leaf whose text is `(x + y)` renders exactly like the node `x + y`, so the rendering alone does not identify arbitrary trees |

## Left out

- The traversal (visitor) capability: `JGBinary.java` imports `SpecTreeVisitor` but defines no `accept` method, so there is nothing of it to model. `SpecTreeVisitor` is not part of this model.
- `JGFormula`, `JGTerm` and the concrete subclasses of `JGBinary` are not part of this model. Every non-binary child is a `Leaf` that carries the text its own `toString` would produce. That text is an input of the model.
- Failure of `parse` is `None`. The source throws a plain `RuntimeException` with a message. The exception type and the message text are not modelled, and the model does not tell kinds of failure apart.
- Java `null` children and object identity are not modelled. The constructor does no null checks, and a datatype value cannot be null.
- The unused imports of `HashSet` and `Set` have no counterpart.
- `BinaryFormulas.RenderInjective`: is proved only when every leaf renders as an atomic text (non-empty, no blanks, no parentheses). Leaves that contain parentheses, such as the call term `f(x)`, are not covered, although unique reading may well hold for them too. A leaf whose text looks like a node, such as `(x + y)`, does break unique reading (see `RenderAmbiguousWithoutAtomicLeaves`).
