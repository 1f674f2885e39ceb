/**
 * The expression trees the bug injector splices into programs (`LExpr`),
 * with the value each one computes at run time in C `unsigned int`
 * arithmetic, given the contents of the runtime value slots.
 */
module LExprs {
  import opened Words
  import opened Records

  /** The binary operators the attack formulas use. */
  datatype BinOp = Plus | Minus | Times | BitAnd | BitXor | ShiftRight | Equal

  datatype LExpr =
    | LHex(value: Word)
    /** A decimal literal. */
    | LDecimal(value: Word)
    /** `lava_get(slot)`: reads a runtime value slot. */
    | LavaGet(slot: nat)
    /** The argument-dataflow variant of `lava_get`. */
    | DataFlowGet(slot: nat)
    | LBinop(op: BinOp, lhs: LExpr, rhs: LExpr)
    /** `LBinop("+", terms)`: the sum of several addends. */
    | LSum(terms: seq<LExpr>)
    /** `MagicTest(magic, operand)`: whether `operand` holds `magic`. */
    | MagicTest(magic: Word, operand: LExpr)
    /** The attack-point hypercall block of query mode, whose value is 0. */
    | AtpQuery(stringId: nat, atpType: AtpType)

  /** The contents of the runtime value slots. */
  type Env = nat -> Word

  /** The run-time value of `e` when the slots hold `env`. */
  function Eval(e: LExpr, env: Env): Word
    decreases e
  {
    match e
    case LHex(v) => v
    case LDecimal(v) => v
    case LavaGet(slot) => env(slot)
    case DataFlowGet(slot) => env(slot)
    case LBinop(op, l, r) => Apply(op, Eval(l, env), Eval(r, env))
    case LSum(terms) => SumOf(seq(|terms|, i requires 0 <= i < |terms| => Eval(terms[i], env)))
    case MagicTest(m, operand) => if Eval(operand, env) == m then 1 else 0
    case AtpQuery(_, _) => 0
  }

  /** One C operator on `unsigned int` operands. */
  function Apply(op: BinOp, a: Word, b: Word): Word
  {
    match op
    case Plus => (a + b) % W32
    case Minus => (a - b) % W32
    case Times => (a * b) % W32
    case BitAnd => And32(a, b)
    case BitXor => Xor32(a, b)
    case ShiftRight => Shr32(a, b)
    case Equal => if a == b then 1 else 0
  }

  /** The wrapping sum of `vs`. */
  function SumOf(vs: seq<Word>): Word
  {
    if vs == [] then 0 else (SumOf(vs[..|vs| - 1]) + vs[|vs| - 1]) % W32
  }

  /** Adding one more term to a sum adds its value, wrapping. */
  lemma SumSnoc(init: seq<LExpr>, last: LExpr, env: Env)
    ensures Eval(LSum(init + [last]), env) == (Eval(LSum(init), env) + Eval(last, env)) % W32
  {
    var terms := init + [last];
    var vs := seq(|terms|, i requires 0 <= i < |terms| => Eval(terms[i], env));
    assert vs[..|init|] == seq(|init|, i requires 0 <= i < |init| => Eval(init[i], env));
  }
}
