/**
 * The high-level insertion machinery of the bug injector (class
 * `Modifier`): it points at one syntax-tree node and brackets it or adds an
 * operand after it, recording the text in the shared `Insertions`.
 */
module Modify {
  import opened Wrappers
  import opened Edits

  /** Opcodes of a binary operator node (compound assignments included, as they are binary operators too). */
  datatype Opcode =
    | PtrMemD | PtrMemI | Mul | Div | Rem | Add | Sub | Shl | Shr
    | LT | GT | LE | GE | EQ | NE | And | Xor | Or | LAnd | LOr
    | Assign | MulAssign | DivAssign | RemAssign | AddAssign | SubAssign
    | ShlAssign | ShrAssign | AndAssign | XorAssign | OrAssign | Comma

  /** The node kinds the parenthesisation rules look at. */
  datatype StmtKind =
    | ConditionalOperator
    | BinaryConditionalOperator
    | BinaryOperator(opcode: Opcode)
    | ArraySubscriptExpr
    | ParenExpr
    | OtherStmt

  /**
   * A node as the front end locates it: the start of its first token, the
   * start of its last token and that token's measured length (all after
   * macro expansion).
   */
  datatype Stmt = Stmt(kind: StmtKind, begin: SourceLocation, lastTokenStart: SourceLocation, lastTokenLength: nat)

  /** Where text inserted before the node goes. */
  function BeforeLoc(st: Stmt): SourceLocation
  {
    st.begin
  }

  /**
   * A node as the front end reports it: its last token starts no earlier
   * than its first one and is at least one character long.
   */
  predicate Located(st: Stmt)
  {
    st.begin <= st.lastTokenStart && st.lastTokenLength > 0
  }

  /**
   * Where text inserted after the node goes: just past its last character,
   * so strictly after where text inserted before it goes.
   */
  function AfterLoc(st: Stmt): (loc: SourceLocation)
    ensures Located(st) ==> BeforeLoc(st) < loc
    ensures st.lastTokenStart <= loc
  {
    st.lastTokenStart + st.lastTokenLength
  }

  predicate IsMultiplicativeOp(op: Opcode)
  {
    op == Mul || op == Div || op == Rem
  }

  predicate IsAdditiveOp(op: Opcode)
  {
    op == Add || op == Sub
  }

  /**
   * Whether `Add` brackets the node itself before appending "+ addend": a
   * conditional operator, or a binary operator binding more loosely than
   * addition.
   */
  predicate NeedsInnerParens(kind: StmtKind)
  {
    || kind.ConditionalOperator?
    || kind.BinaryConditionalOperator?
    || (kind.BinaryOperator? && !IsMultiplicativeOp(kind.opcode) && !IsAdditiveOp(kind.opcode))
  }

  /** Whether `Operate` brackets the result: there is a parent that is neither a subscript nor a parenthesis. */
  predicate NeedsOuterParens(parent: Option<StmtKind>)
  {
    parent.Some? && !parent.value.ArraySubscriptExpr? && !parent.value.ParenExpr?
  }

  /** The fragments after `Parenthesize`: "(" before the node and ")" after it. */
  function Parenthesized(m: FragmentMap, st: Stmt): FragmentMap
  {
    InsertedAfter(InsertedBefore(m, BeforeLoc(st), "("), AfterLoc(st), ")")
  }

  /** The fragments after `Operate(op, addend, parent)`. */
  function Operated(m: FragmentMap, st: Stmt, op: string, addend: string, parent: Option<StmtKind>): FragmentMap
  {
    var m' := InsertedAfter(m, AfterLoc(st), " " + op + " " + addend);
    if NeedsOuterParens(parent) then Parenthesized(m', st) else m'
  }

  /** The fragments after `Add(addend, parent)`. */
  function Added(m: FragmentMap, st: Stmt, addend: string, parent: Option<StmtKind>): FragmentMap
  {
    var m' := if NeedsInnerParens(st.kind) then Parenthesized(m, st) else m;
    Operated(m', st, "+", addend, parent)
  }

  /** A single fragment renders as itself. */
  lemma ConcatSingle(x: string)
    ensures Concat([x]) == x
  {
    assert [x][..0] == [];
  }

  /** The fragment lists `Add` leaves at the two ends of a node, from a state where nothing was inserted there. */
  lemma AddedFragments(m: FragmentMap, st: Stmt, addend: string, parent: Option<StmtKind>)
    requires BeforeLoc(st) < AfterLoc(st)
    requires BeforeLoc(st) !in m && AfterLoc(st) !in m
    ensures var r := Added(m, st, addend, parent);
      var inner := NeedsInnerParens(st.kind);
      var outer := NeedsOuterParens(parent);
      && FragmentsAt(r, BeforeLoc(st)) == (if outer then ["("] else []) + (if inner then ["("] else [])
      && FragmentsAt(r, AfterLoc(st)) == (if inner then [")"] else []) + [" + " + addend] + (if outer then [")"] else [])
      && (forall l | l in m :: l in r && r[l] == m[l])
  {
    InnerParensStep(m, st);
    var m1 := if NeedsInnerParens(st.kind) then Parenthesized(m, st) else m;
    OperatedFragments(m1, st, addend, parent);
  }

  /** The fragment lists `Operate("+", addend, parent)` leaves at the two ends of a node whose after-list does not end in the new operand. */
  lemma OperatedFragments(m: FragmentMap, st: Stmt, addend: string, parent: Option<StmtKind>)
    requires BeforeLoc(st) < AfterLoc(st)
    requires FragmentsAt(m, AfterLoc(st)) == [] || FragmentsAt(m, AfterLoc(st))[|FragmentsAt(m, AfterLoc(st))| - 1] == ")"
    ensures var r := Operated(m, st, "+", addend, parent);
      var outer := NeedsOuterParens(parent);
      && FragmentsAt(r, BeforeLoc(st)) == (if outer then ["("] else []) + FragmentsAt(m, BeforeLoc(st))
      && FragmentsAt(r, AfterLoc(st)) == FragmentsAt(m, AfterLoc(st)) + [" + " + addend] + (if outer then [")"] else [])
      && (forall l | l in m && l != BeforeLoc(st) && l != AfterLoc(st) :: l in r && r[l] == m[l])
  {
    var b, e := BeforeLoc(st), AfterLoc(st);
    var plus := " + " + addend;
    assert " " + "+" + " " + addend == plus;
    assert |plus| >= 3;
    var m2 := InsertedAfter(m, e, plus);
    assert FragmentsAt(m2, e) == FragmentsAt(m, e) + [plus];
    if NeedsOuterParens(parent) {
      var m3 := InsertedBefore(m2, b, "(");
      assert FragmentsAt(m3, e) == FragmentsAt(m2, e);
    }
  }

  /** The fragment lists after the inner bracketing of `Add`, from a state where nothing was inserted at the node. */
  lemma InnerParensStep(m: FragmentMap, st: Stmt)
    requires BeforeLoc(st) < AfterLoc(st)
    requires BeforeLoc(st) !in m && AfterLoc(st) !in m
    ensures var m1 := if NeedsInnerParens(st.kind) then Parenthesized(m, st) else m;
      var inner := NeedsInnerParens(st.kind);
      && FragmentsAt(m1, BeforeLoc(st)) == (if inner then ["("] else [])
      && FragmentsAt(m1, AfterLoc(st)) == (if inner then [")"] else [])
      && (forall l | l in m :: l in m1 && m1[l] == m[l])
  {
    var b, e := BeforeLoc(st), AfterLoc(st);
    if NeedsInnerParens(st.kind) {
      var m0 := InsertedBefore(m, b, "(");
      assert m0[b] == ["("] && e !in m0;
    }
  }

  /** How the fragment lists of `AddedFragments` concatenate. */
  lemma BracketText(inner: bool, outer: bool, addend: string)
    ensures Concat((if outer then ["("] else []) + (if inner then ["("] else []))
      == (if outer then "(" else "") + (if inner then "(" else "")
    ensures Concat((if inner then [")"] else []) + [" + " + addend] + (if outer then [")"] else []))
      == (if inner then ")" else "") + " + " + addend + (if outer then ")" else "")
  {
    var plus := " + " + addend;
    assert (if inner then ")" else "") + " + " + addend == (if inner then ")" else "") + plus;
    var i1: seq<string> := if inner then [")"] else [];
    var o1: seq<string> := if outer then [")"] else [];
    var o0: seq<string> := if outer then ["("] else [];
    var i0: seq<string> := if inner then ["("] else [];
    ConcatAppend(i1 + [plus], o1);
    ConcatAppend(i1, [plus]);
    ConcatAppend(o0, i0);
    ConcatSingle(plus);
    ConcatSingle(")");
    ConcatSingle("(");
  }

  /** The text `Add` brackets a node with, from a state where nothing was inserted at either end. */
  lemma AddedText(m: FragmentMap, st: Stmt, addend: string, parent: Option<StmtKind>)
    requires BeforeLoc(st) < AfterLoc(st)
    requires BeforeLoc(st) !in m && AfterLoc(st) !in m
    ensures var r := Added(m, st, addend, parent);
      var inner := NeedsInnerParens(st.kind);
      var outer := NeedsOuterParens(parent);
      && Concat(FragmentsAt(r, BeforeLoc(st))) == (if outer then "(" else "") + (if inner then "(" else "")
      && Concat(FragmentsAt(r, AfterLoc(st))) == (if inner then ")" else "") + " + " + addend + (if outer then ")" else "")
  {
    AddedFragments(m, st, addend, parent);
    BracketText(NeedsInnerParens(st.kind), NeedsOuterParens(parent), addend);
  }

  /**
   * Points at one node and records insertions around it in the shared
   * `Insertions` (a fluent interface in the original).
   */
  class Modifier {
    var stmt: Option<Stmt>
    const Insert: Insertions

    predicate Valid()
      reads this, Insert
    {
      Insert.Valid()
    }

    constructor (insert: Insertions)
      requires insert.Valid()
      ensures Valid() && Insert == insert && stmt == None
    {
      Insert := insert;
      stmt := None;
    }

    /** `Change`: points the modifier at `st`. */
    method Change(st: Stmt)
      modifies this
      ensures stmt == Some(st)
    {
      stmt := Some(st);
    }

    method InsertBefore(str: string)
      requires Valid() && stmt.Some?
      modifies Insert
      ensures Valid()
      ensures Insert.impl == InsertedBefore(old(Insert.impl), BeforeLoc(stmt.value), str)
    {
      Insert.InsertBefore(BeforeLoc(stmt.value), str);
    }

    method InsertAfter(str: string)
      requires Valid() && stmt.Some?
      modifies Insert
      ensures Valid()
      ensures Insert.impl == InsertedAfter(old(Insert.impl), AfterLoc(stmt.value), str)
    {
      Insert.InsertAfter(AfterLoc(stmt.value), str);
    }

    method Parenthesize()
      requires Valid() && stmt.Some?
      modifies Insert
      ensures Valid()
      ensures Insert.impl == Parenthesized(old(Insert.impl), stmt.value)
    {
      InsertBefore("(");
      InsertAfter(")");
    }

    /** `Operate`: appends " op addend" after the node, bracketing the result under a parent that needs it. */
    method Operate(op: string, addend: string, parent: Option<StmtKind>)
      requires Valid() && stmt.Some?
      modifies Insert
      ensures Valid()
      ensures Insert.impl == Operated(old(Insert.impl), stmt.value, op, addend, parent)
    {
      InsertAfter(" " + op + " " + addend);
      if parent.Some? && !parent.value.ArraySubscriptExpr? && !parent.value.ParenExpr? {
        Parenthesize();
      }
    }

    /** `Add`: adds `addend` (already rendered) to the node's value. */
    method Add(addend: string, parent: Option<StmtKind>)
      requires Valid() && stmt.Some?
      modifies Insert
      ensures Valid()
      ensures Insert.impl == Added(old(Insert.impl), stmt.value, addend, parent)
    {
      var st := stmt.value;
      if st.kind.ConditionalOperator? || st.kind.BinaryConditionalOperator?
        || (st.kind.BinaryOperator? && !IsMultiplicativeOp(st.kind.opcode) && !IsAdditiveOp(st.kind.opcode))
      {
        Parenthesize();
      }
      Operate("+", addend, parent);
    }

    /** `InsertAt`: puts `str` in front of everything already inserted at `loc`. */
    method InsertAt(loc: SourceLocation, str: string)
      requires Valid()
      modifies Insert
      ensures Valid()
      ensures Insert.impl == InsertedBefore(old(Insert.impl), loc, str)
    {
      Insert.InsertBefore(loc, str);
    }
  }
}
