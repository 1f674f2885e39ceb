/**
 * Trigger synthesis of the bug injector: the formulas added to an attacked
 * value (`traditionalAttack`, `knobTriggerAttack`), the trigger tests
 * (`Test`, `twoDuaTest`, `threeDuaTest`) and the pseudo-random words the
 * relational encoding draws (`alphanum`, `rand_ascii4`). Each `rand()`
 * result is taken from a sequence of draws passed in.
 */
module Triggers {
  import opened Words
  import opened LExprs
  import opened Records

  /** `Get(x)` once `x`'s slot is known: `lava_get`, or its argument-dataflow variant. */
  function Get(slot: nat, argDataflow: bool): (e: LExpr)
    ensures forall env: Env :: Eval(e, env) == env(slot)
  {
    if argDataflow then DataFlowGet(slot) else LavaGet(slot)
  }

  /** The magic value as a 32-bit literal of the generated code sees it. */
  function Low32(m: Word64): Word
  {
    m % W32
  }

  /** A magic value that already fits in 32 bits is its own low word. */
  lemma Low32Word(m: Word)
    ensures Low32(m) == m
  {
  }

  /** `Test(bug)`: whether the trigger slot holds the bug's magic value. */
  function Test(magic: Word64, triggerSlot: nat, argDataflow: bool): (e: LExpr)
    ensures forall env: Env :: Eval(e, env) == if env(triggerSlot) == Low32(magic) then 1 else 0
  {
    MagicTest(Low32(magic), Get(triggerSlot, argDataflow))
  }

  /**
   * `traditionalAttack`: the trigger value times its test, so the addend is
   * the whole trigger value when it equals the magic value and 0 otherwise.
   */
  function TraditionalAttack(magic: Word64, triggerSlot: nat, argDataflow: bool): (e: LExpr)
    ensures forall env: Env :: Eval(e, env) == if env(triggerSlot) == Low32(magic) then env(triggerSlot) else 0
  {
    LBinop(Times, Get(triggerSlot, argDataflow), Test(magic, triggerSlot, argDataflow))
  }

  /** `value * MagicTest(magic, probe)`. */
  function Gated(value: LExpr, magic: Word, probe: LExpr): LExpr
  {
    LBinop(Times, value, MagicTest(magic, probe))
  }

  /** A gated term is its value when the probed operand holds the magic value, and 0 otherwise. */
  lemma GatedValue(value: LExpr, magic: Word, probe: LExpr, env: Env)
    ensures Eval(Gated(value, magic, probe), env) == if Eval(probe, env) == magic then Eval(value, env) else 0
  {
  }

  /** `Get(bug) & 0x0000ffff`. */
  function LowerHalf(get: LExpr): LExpr
  {
    LBinop(BitAnd, get, LHex(0x0000_ffff))
  }

  /** `(Get(bug) & 0xffff0000) >> 16`. */
  function UpperHalf(get: LExpr): LExpr
  {
    LBinop(ShiftRight, LBinop(BitAnd, get, LHex(0xffff_0000)), LDecimal(16))
  }

  /** The value of one bitwise operator node. */
  lemma BitNodeValue(op: BinOp, l: LExpr, r: LExpr, env: Env)
    requires op == BitAnd || op == ShiftRight
    ensures Eval(LBinop(op, l, r), env) == if op == BitAnd then And32(Eval(l, env), Eval(r, env)) else Shr32(Eval(l, env), Eval(r, env))
  {
  }

  /** The masked low half is the remainder by 2^16. */
  lemma LowerHalfValue(get: LExpr, env: Env)
    ensures Eval(LowerHalf(get), env) == Eval(get, env) % 0x1_0000
  {
    LowHalf(Eval(get, env));
  }

  /** The masked and shifted high half is the quotient by 2^16. */
  lemma UpperHalfValue(get: LExpr, env: Env)
    ensures Eval(UpperHalf(get), env) == Eval(get, env) / 0x1_0000
  {
    var masked := LBinop(BitAnd, get, LHex(0xffff_0000));
    BitNodeValue(BitAnd, get, LHex(0xffff_0000), env);
    BitNodeValue(ShiftRight, masked, LDecimal(16), env);
    HighHalf(Eval(get, env));
  }

  /**
   * `knobTriggerAttack`: the lower half gated by "upper half is the 16-bit
   * magic" plus the upper half gated by "lower half is the 16-bit magic".
   */
  function KnobTriggerAttack(magicKt: Word16, triggerSlot: nat, argDataflow: bool): LExpr
  {
    var get := Get(triggerSlot, argDataflow);
    LBinop(Plus, Gated(LowerHalf(get), magicKt, UpperHalf(get)), Gated(UpperHalf(get), magicKt, LowerHalf(get)))
  }

  /** The knob-trigger addend at run time, in terms of the two halves of the trigger value. */
  lemma KnobTriggerValue(magicKt: Word16, triggerSlot: nat, argDataflow: bool, env: Env)
    ensures var v := env(triggerSlot);
      Eval(KnobTriggerAttack(magicKt, triggerSlot, argDataflow), env)
        == (if v / 0x1_0000 == magicKt then v % 0x1_0000 else 0)
         + (if v % 0x1_0000 == magicKt then v / 0x1_0000 else 0)
  {
    KnobTermsValue(magicKt, Get(triggerSlot, argDataflow), env);
  }

  lemma KnobTermsValue(magicKt: Word16, get: LExpr, env: Env)
    ensures var v := Eval(get, env);
      Eval(LBinop(Plus, Gated(LowerHalf(get), magicKt, UpperHalf(get)), Gated(UpperHalf(get), magicKt, LowerHalf(get))), env)
        == (if v / 0x1_0000 == magicKt then v % 0x1_0000 else 0)
         + (if v % 0x1_0000 == magicKt then v / 0x1_0000 else 0)
  {
    LowerHalfValue(get, env);
    UpperHalfValue(get, env);
    GatedSum(LowerHalf(get), UpperHalf(get), magicKt, Eval(get, env), env);
  }

  lemma GatedSum(lower: LExpr, upper: LExpr, magicKt: Word16, v: Word, env: Env)
    requires Eval(lower, env) == v % 0x1_0000 && Eval(upper, env) == v / 0x1_0000
    ensures Eval(LBinop(Plus, Gated(lower, magicKt, upper), Gated(upper, magicKt, lower)), env)
        == (if v / 0x1_0000 == magicKt then v % 0x1_0000 else 0)
         + (if v % 0x1_0000 == magicKt then v / 0x1_0000 else 0)
  {
    GatedValue(lower, magicKt, upper, env);
    GatedValue(upper, magicKt, lower, env);
    PlusValue(Gated(lower, magicKt, upper), Gated(upper, magicKt, lower), env);
    HalvesSum(v, magicKt);
  }

  lemma HalvesSum(v: Word, m: Word16)
    ensures var s := (if v / 0x1_0000 == m then v % 0x1_0000 else 0) + (if v % 0x1_0000 == m then v / 0x1_0000 else 0);
      s % W32 == s
  {
  }

  lemma PlusValue(l: LExpr, r: LExpr, env: Env)
    ensures Eval(LBinop(Plus, l, r), env) == (Eval(l, env) + Eval(r, env)) % W32
  {
  }

  /**
   * What the knob-trigger addend amounts to, with `lo` and `hi` the halves
   * of the trigger value (which make it up again): 0 unless a half equals
   * the 16-bit magic; the other half when exactly one does; both halves
   * when both do.
   */
  lemma KnobTriggerCases(magicKt: Word16, triggerSlot: nat, argDataflow: bool, env: Env)
    ensures var v := env(triggerSlot);
      var lo, hi := v % 0x1_0000, v / 0x1_0000;
      var r := Eval(KnobTriggerAttack(magicKt, triggerSlot, argDataflow), env);
      && v == hi * 0x1_0000 + lo && lo < 0x1_0000 && hi < 0x1_0000
      && (lo != magicKt && hi != magicKt ==> r == 0)
      && (hi == magicKt && lo != magicKt ==> r == lo)
      && (lo == magicKt && hi != magicKt ==> r == hi)
      && (lo == magicKt && hi == magicKt ==> r == lo + hi)
  {
    KnobTriggerValue(magicKt, triggerSlot, argDataflow, env);
  }

  /** `twoDuaTest`: whether the trigger XOR a second value is the magic value. */
  function TwoDuaTest(magic: Word64, triggerSlot: nat, xSlot: nat, argDataflow: bool): (e: LExpr)
    ensures forall env: Env ::
      Eval(e, env) == if Xor32(env(triggerSlot), env(xSlot)) == Low32(magic) then 1 else 0
  {
    LBinop(Equal, LBinop(BitXor, Get(triggerSlot, argDataflow), Get(xSlot, argDataflow)), LHex(Low32(magic)))
  }

  /** Whatever the trigger holds, the second value `trigger ^ magic` passes the two-value test. */
  lemma TwoDuaSolution(magic: Word64, triggerSlot: nat, xSlot: nat, argDataflow: bool, env: Env)
    requires env(xSlot) == Xor32(env(triggerSlot), Low32(magic))
    ensures Eval(TwoDuaTest(magic, triggerSlot, xSlot, argDataflow), env) == 1
  {
    Xor32Cancel(env(triggerSlot), Low32(magic));
  }

  /** The characters `alphanum` draws from, in table order. */
  const AlnumTable: string := "0123456789" + "ABCDEFGHIJKLMNOPQRSTUVWXYZ" + "abcdefghijklmnopqrstuvwxyz"

  /** An ASCII digit or letter. */
  predicate IsAlnum(c: int)
  {
    0x30 <= c <= 0x39 || 0x41 <= c <= 0x5a || 0x61 <= c <= 0x7a
  }

  /** The character code one `rand()` draw picks: `alphanum[rand() % 62]`. */
  function AlnumCode(draw: nat): (c: int)
    ensures IsAlnum(c)
  {
    AlnumTableChars(draw % 62);
    AlnumTable[draw % 62] as int
  }

  /** Every entry of the table is a digit or a letter. */
  lemma AlnumTableChars(j: nat)
    requires j < 62
    ensures |AlnumTable| == 62 && IsAlnum(AlnumTable[j] as int)
  {
  }

  /** The character codes picked by the first `n` draws. */
  function AlnumCodes(draws: seq<nat>, n: nat): (cs: seq<int>)
    requires n <= |draws|
    ensures |cs| == n && forall i | 0 <= i < n :: cs[i] == AlnumCode(draws[i])
  {
    seq(n, i requires 0 <= i < n => AlnumCode(draws[i]))
  }

  /** The printable ASCII code one `rand_ascii4` draw gives: `rand() % 95 + 0x20`. */
  function PrintableCode(draw: nat): (c: int)
    ensures 0x20 <= c < 0x7f
  {
    draw % (0x7f - 0x20) + 0x20
  }

  /** The printable codes picked by the first four draws. */
  function PrintableCodes(draws: seq<nat>): (cs: seq<int>)
    requires 4 <= |draws|
    ensures |cs| == 4 && forall i | 0 <= i < 4 :: cs[i] == PrintableCode(draws[i])
  {
    seq(4, i requires 0 <= i < 4 => PrintableCode(draws[i]))
  }

  /** The number whose base-256 digits, most significant first, are `bs`. */
  function BigEndian(bs: seq<int>): int
  {
    if bs == [] then 0 else BigEndian(bs[..|bs| - 1]) * 256 + bs[|bs| - 1]
  }

  /** One step of packing: appending a byte shifts the packed prefix up by 8 bits, modulo 2^32. */
  lemma PackStep(cs: seq<int>, i: nat, acc: int)
    requires i < |cs| && acc == (BigEndian(cs[..i]) * 256) % W32
    ensures (acc + cs[i]) % W32 == BigEndian(cs[..i + 1]) % W32
    ensures (((acc + cs[i]) % W32) * 256) % W32 == (BigEndian(cs[..i + 1]) * 256) % W32
  {
    assert cs[..i + 1][..i] == cs[..i];
    ModOfSum(BigEndian(cs[..i]) * 256, cs[i], W32);
    ModOfProduct(BigEndian(cs[..i + 1]), 256, W32);
  }

  /**
   * `alphanum(len)`: `len` drawn characters packed big-endian into a
   * `uint32_t`, so that only the last four survive.
   */
  method Alphanum(len: int, draws: seq<nat>) returns (ret: Word)
    requires len <= |draws|
    ensures ret == if len <= 0 then 0 else BigEndian(AlnumCodes(draws, len)) % W32
  {
    ret := 0;
    if len <= 0 {
      return;
    }
    ghost var cs := AlnumCodes(draws, len);
    assert |AlnumTable| == 62;
    var i := 0;
    while i < len
      invariant 0 <= i <= len
      invariant ret == (if i < len then BigEndian(cs[..i]) * 256 else BigEndian(cs[..i])) % W32
    {
      var c := AlnumTable[draws[i] % 62] as int;
      PackStep(cs, i, ret);
      ret := (ret + c) % W32;
      if i + 1 != len {
        ret := (ret * 256) % W32;
      }
      i := i + 1;
    }
    assert cs[..len] == cs;
  }

  /** `rand_ascii4`: four drawn printable characters packed big-endian into a `uint32_t`. */
  method RandAscii4(draws: seq<nat>) returns (ret: Word)
    requires 4 <= |draws|
    ensures ret == BigEndian(PrintableCodes(draws)) % W32
  {
    ghost var cs := PrintableCodes(draws);
    ret := 0;
    var i := 0;
    while i < 4
      invariant 0 <= i <= 4
      invariant ret == (if i < 4 then BigEndian(cs[..i]) * 256 else BigEndian(cs[..i])) % W32
    {
      PackStep(cs, i, ret);
      ret := (ret + (draws[i] % (0x7f - 0x20)) + 0x20) % W32;
      if i != 3 {
        ret := (ret * 256) % W32;
      }
      i := i + 1;
    }
    assert cs[..4] == cs;
  }

  /** Four bytes pack without wrapping: the first in the top byte, the last in the bottom one. */
  lemma {:induction false} FourBytes(cs: seq<int>)
    requires |cs| == 4 && forall i | 0 <= i < 4 :: 0 <= cs[i] < 256
    ensures BigEndian(cs) % W32 == BigEndian(cs) == cs[0] * 0x100_0000 + cs[1] * 0x1_0000 + cs[2] * 0x100 + cs[3]
  {
    assert cs[..3][..2] == cs[..2] && cs[..2][..1] == cs[..1] && cs[..1][..0] == [];
    assert BigEndian(cs[..1]) == cs[0];
    assert BigEndian(cs[..2]) == cs[0] * 256 + cs[1];
    assert BigEndian(cs[..3]) == (cs[0] * 256 + cs[1]) * 256 + cs[2];
  }

  /** `alphanum(4)` is four alphanumeric characters, the first drawn in the top byte. */
  lemma AlnumWord(draws: seq<nat>)
    requires 4 <= |draws|
    ensures var cs := AlnumCodes(draws, 4);
      && (forall i | 0 <= i < 4 :: IsAlnum(cs[i]))
      && BigEndian(cs) % W32 == cs[0] * 0x100_0000 + cs[1] * 0x1_0000 + cs[2] * 0x100 + cs[3]
  {
    FourBytes(AlnumCodes(draws, 4));
  }

  /** `rand_ascii4()` is four printable characters, the first drawn in the top byte. */
  lemma PrintableWord(draws: seq<nat>)
    requires 4 <= |draws|
    ensures var cs := PrintableCodes(draws);
      && (forall i | 0 <= i < 4 :: 0x20 <= cs[i] < 0x7f)
      && BigEndian(cs) % W32 == cs[0] * 0x100_0000 + cs[1] * 0x1_0000 + cs[2] * 0x100 + cs[3]
  {
    FourBytes(PrintableCodes(draws));
  }

  /**
   * The magic value `threeDuaTest` writes for the relation selected by
   * `kind`, with every `uint32_t` intermediate wrapped.
   */
  function RelationMagic(kind: nat, a: Word, b: Word, c: Word): Word
    requires kind < 3
  {
    if kind == 0 then (((a + b) % W32) * c) % W32
    else if kind == 1 then (((a * b) % W32) - c) % W32
    else (((((a + 2) % W32) * ((b + 1) % W32)) % W32) * ((c + 3) % W32)) % W32
  }

  /**
   * The trigger test `threeDuaTest` returns for `kind`, over the trigger
   * (`A`) and the two extra values (`X`, `Y`):
   * `(A+X)*Y == M`, `A*X-Y == M`, or `(A+2)*(Y+3)*(A+1) == M`.
   */
  function RelationTest(kind: nat, triggerSlot: nat, xSlot: nat, ySlot: nat, magic: Word64, argDataflow: bool): LExpr
    requires kind < 3
  {
    var a, x, y := Get(triggerSlot, argDataflow), Get(xSlot, argDataflow), Get(ySlot, argDataflow);
    var m := LHex(Low32(magic));
    if kind == 0 then
      LBinop(Equal, LBinop(Times, LBinop(Plus, a, x), y), m)
    else if kind == 1 then
      LBinop(Equal, LBinop(Minus, LBinop(Times, a, x), y), m)
    else
      LBinop(Equal, LBinop(Times, LBinop(Times, LBinop(Plus, a, LHex(2)), LBinop(Plus, y, LHex(3))), LBinop(Plus, a, LHex(1))), m)
  }

  /**
   * The bug record `threeDuaTest` works on: the attack builds a private copy
   * of the loaded bug, whose magic value it then overwrites.
   */
  class BugCopy {
    const record: Bug
    var magic: Word64

    constructor (bug: Bug)
      ensures record == bug && magic == bug.magic
    {
      record := bug;
      magic := bug.magic;
    }
  }

  /**
   * `threeDuaTest`: draws three `alphanum(4)` words, picks a relation by the
   * OLD magic value modulo 3, rewrites the magic value from the words and
   * returns that relation's test.
   */
  method ThreeDuaTest(bug: BugCopy, triggerSlot: nat, xSlot: nat, ySlot: nat, argDataflow: bool, draws: seq<nat>)
    returns (test: LExpr)
    requires 12 <= |draws|
    modifies bug
    ensures var kind := old(bug.magic) % 3;
      var a := BigEndian(AlnumCodes(draws[0..4], 4)) % W32;
      var b := BigEndian(AlnumCodes(draws[4..8], 4)) % W32;
      var c := BigEndian(AlnumCodes(draws[8..12], 4)) % W32;
      && bug.magic == RelationMagic(kind, a, b, c)
      && test == RelationTest(kind, triggerSlot, xSlot, ySlot, bug.magic, argDataflow)
  {
    var aSol := Alphanum(4, draws[0..4]);
    var bSol := Alphanum(4, draws[4..8]);
    var cSol := Alphanum(4, draws[8..12]);
    var oldMagic := bug.magic;
    var kind := oldMagic % 3;
    var magic := ChooseMagic(kind, aSol, bSol, cSol);
    bug.magic := magic;
    var get, getX, getY := Get(triggerSlot, argDataflow), Get(xSlot, argDataflow), Get(ySlot, argDataflow);
    var m := LHex(Low32(magic));
    if kind == 0 {
      test := LBinop(Equal, LBinop(Times, LBinop(Plus, get, getX), getY), m);
    } else if kind == 1 {
      test := LBinop(Equal, LBinop(Minus, LBinop(Times, get, getX), getY), m);
    } else {
      test := LBinop(Equal,
        LBinop(Times, LBinop(Times, LBinop(Plus, get, LHex(2)), LBinop(Plus, getY, LHex(3))), LBinop(Plus, get, LHex(1))),
        m);
    }
  }

  /** The new magic value `threeDuaTest` computes for relation `kind` from the three drawn words, in `unsigned int` arithmetic. */
  method ChooseMagic(kind: nat, a: Word, b: Word, c: Word) returns (magic: Word)
    requires kind < 3
    ensures magic == RelationMagic(kind, a, b, c)
    ensures kind < 2 ==> RelationLhs(kind, a, b, c) == magic
  {
    if kind == 0 {
      magic := (((a + b) % W32) * c) % W32;
    } else if kind == 1 {
      magic := (((a * b) % W32) - c) % W32;
    } else {
      magic := (((((a + 2) % W32) * ((b + 1) % W32)) % W32) * ((c + 3) % W32)) % W32;
    }
  }

  /**
   * The left-hand side of the relation `kind` when the trigger holds `a`
   * and the extra values hold `x` and `y`, in `unsigned int` arithmetic.
   */
  function RelationLhs(kind: nat, a: Word, x: Word, y: Word): Word
    requires kind < 3
  {
    if kind == 0 then (((a + x) % W32) * y) % W32
    else if kind == 1 then (((a * x) % W32) - y) % W32
    else (((((a + 2) % W32) * ((y + 3) % W32)) % W32) * ((a + 1) % W32)) % W32
  }

  /** The run-time value of each relation's test, over the values its three operands read. */
  lemma RelationTestValue(kind: nat, triggerSlot: nat, xSlot: nat, ySlot: nat, magic: Word64, argDataflow: bool, env: Env)
    requires kind < 3
    ensures Eval(RelationTest(kind, triggerSlot, xSlot, ySlot, magic, argDataflow), env)
         == if RelationLhs(kind, env(triggerSlot), env(xSlot), env(ySlot)) == Low32(magic) then 1 else 0
  {
    var a, x, y := Get(triggerSlot, argDataflow), Get(xSlot, argDataflow), Get(ySlot, argDataflow);
    assert Eval(a, env) == env(triggerSlot) && Eval(x, env) == env(xSlot) && Eval(y, env) == env(ySlot);
    var m := Low32(magic);
    if kind == 0 {
      SumTimesValue(a, x, y, m, env);
    } else if kind == 1 {
      TimesMinusValue(a, x, y, m, env);
    } else {
      ThirdValue(a, y, m, env);
    }
  }

  /** The value of the test `(A+X)*Y == M`. */
  lemma SumTimesValue(a: LExpr, x: LExpr, y: LExpr, m: Word, env: Env)
    ensures Eval(LBinop(Equal, LBinop(Times, LBinop(Plus, a, x), y), LHex(m)), env)
         == if (((Eval(a, env) + Eval(x, env)) % W32) * Eval(y, env)) % W32 == m then 1 else 0
  {
    BinopValue(Plus, a, x, env);
    BinopValue(Times, LBinop(Plus, a, x), y, env);
    EqualValue(LBinop(Times, LBinop(Plus, a, x), y), m, env);
  }

  /** The value of the test `A*X-Y == M`. */
  lemma TimesMinusValue(a: LExpr, x: LExpr, y: LExpr, m: Word, env: Env)
    ensures Eval(LBinop(Equal, LBinop(Minus, LBinop(Times, a, x), y), LHex(m)), env)
         == if (((Eval(a, env) * Eval(x, env)) % W32) - Eval(y, env)) % W32 == m then 1 else 0
  {
    BinopValue(Times, a, x, env);
    BinopValue(Minus, LBinop(Times, a, x), y, env);
    EqualValue(LBinop(Minus, LBinop(Times, a, x), y), m, env);
  }

  /** The value of the test `(A+2)*(Y+3)*(A+1) == M`. */
  lemma ThirdValue(a: LExpr, y: LExpr, m: Word, env: Env)
    ensures var av, yv := Eval(a, env), Eval(y, env);
      Eval(LBinop(Equal, LBinop(Times, LBinop(Times, LBinop(Plus, a, LHex(2)), LBinop(Plus, y, LHex(3))), LBinop(Plus, a, LHex(1))), LHex(m)), env)
         == if (((((av + 2) % W32) * ((yv + 3) % W32)) % W32) * ((av + 1) % W32)) % W32 == m then 1 else 0
  {
    var a2, y3, a1 := LBinop(Plus, a, LHex(2)), LBinop(Plus, y, LHex(3)), LBinop(Plus, a, LHex(1));
    BinopValue(Plus, a, LHex(2), env);
    BinopValue(Plus, y, LHex(3), env);
    BinopValue(Plus, a, LHex(1), env);
    var f := LBinop(Times, a2, y3);
    BinopValue(Times, a2, y3, env);
    BinopValue(Times, f, a1, env);
    EqualValue(LBinop(Times, f, a1), m, env);
  }

  /** The value of one wrapping arithmetic operator node. */
  lemma BinopValue(op: BinOp, l: LExpr, r: LExpr, env: Env)
    requires op == Plus || op == Minus || op == Times
    ensures var a, b := Eval(l, env), Eval(r, env);
      Eval(LBinop(op, l, r), env) == if op == Plus then (a + b) % W32 else if op == Minus then (a - b) % W32 else (a * b) % W32
  {
  }

  lemma EqualValue(lhs: LExpr, m: Word, env: Env)
    ensures Eval(LBinop(Equal, lhs, LHex(m)), env) == if Eval(lhs, env) == m then 1 else 0
  {
  }

  /**
   * For the first two relations the rewritten magic value is consistent:
   * with the trigger holding `a` and the extra values holding `b` and `c`,
   * the returned test holds.
   */
  lemma RelationRoundTrip(kind: nat, a: Word, b: Word, c: Word, triggerSlot: nat, xSlot: nat, ySlot: nat,
                          argDataflow: bool, env: Env)
    requires kind < 2
    requires env(triggerSlot) == a && env(xSlot) == b && env(ySlot) == c
    ensures Eval(RelationTest(kind, triggerSlot, xSlot, ySlot, RelationMagic(kind, a, b, c), argDataflow), env) == 1
  {
    var m := RelationMagic(kind, a, b, c);
    Low32Word(m);
    assert RelationLhs(kind, a, b, c) == m;
    RelationTestValue(kind, triggerSlot, xSlot, ySlot, m, argDataflow, env);
  }

  /**
   * The third relation's test does not mirror its magic formula (it reads
   * the trigger where the formula has the first extra value): with the
   * words "0000", "0001" and "0000" in the places the other relations use,
   * the test fails.
   */
  lemma ThirdRelationMismatch(triggerSlot: nat, xSlot: nat, ySlot: nat, argDataflow: bool, env: Env)
    requires env(triggerSlot) == 0x3030_3030 && env(xSlot) == 0x3030_3031 && env(ySlot) == 0x3030_3030
    ensures RelationMagic(2, 0x3030_3030, 0x3030_3031, 0x3030_3030) == 0xe592_f20c
    ensures Eval(RelationTest(2, triggerSlot, xSlot, ySlot, 0xe592_f20c, argDataflow), env) == 0
  {
    ModUnique(0x3030_3032 * 0x3030_3032, W32, 0x912_1b24, 0xdbd2_c9c4);
    ModUnique(0xdbd2_c9c4 * 0x3030_3033, W32, 0x2960_e6bd, 0xe592_f20c);
    RelationTestValue(2, triggerSlot, xSlot, ySlot, 0xe592_f20c, argDataflow, env);
    ModUnique(0x3030_3032 * 0x3030_3033, W32, 0x912_1b25, 0x0c02_f9f6);
    ModUnique(0x0c02_f9f6 * 0x3030_3031, W32, 0x242_d1af, 0xd98f_f816);
  }
}
