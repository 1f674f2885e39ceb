/**
 * The records the bug injector loads before it visits any source: source
 * values, the byte ranges of them that are siphoned, and bugs.
 */
module Records {
  import opened Words

  /** A source range as the database records it (`LavaASTLoc`). */
  datatype AstLoc = AstLoc(filename: string, beginLine: nat, beginColumn: nat, endLine: nat, endColumn: nat)

  /** A byte sub-range `[low, high)` of a value. */
  datatype Range = Range(low: nat, high: nat)

  /** A source-level lvalue (`SourceLval`): its identity, where it is, and its text. */
  datatype Lval = Lval(id: nat, loc: AstLoc, astName: string)

  /** `LvalBytes`: some bytes of an lvalue; the key of the slot registry. */
  datatype LvalBytes = LvalBytes(lval: Lval, selected: Range)

  /** The kinds of attack point. */
  datatype AtpType = FunctionArg | PointerRead | PointerWrite | QueryPoint | PrintfLeak

  /** The kinds of bug. */
  datatype BugType = PtrAdd | RelWrite | RetBuffer | PrintfLeakBug

  /**
   * A bug as loaded from the database: its trigger bytes, the extra values
   * its encoding needs (already resolved), its 64-bit magic value, the
   * 16-bit value `magic_kt()` gives for it, and its attack point.
   */
  datatype Bug = Bug(
    id: nat,
    bugType: BugType,
    trigger: LvalBytes,
    extras: seq<LvalBytes>,
    magic: Word64,
    magicKt: Word16,
    atpLoc: AstLoc,
    atpType: AtpType)
}
