/**
 * `mutfile` of the driver script: it computes the 32-bit magic value a bug
 * is triggered by and writes it, little-endian, over the first four tainted
 * offsets of each of the bug's label lists in a copy of the input file.
 * Reading and writing the files are left to the caller: the file is the
 * byte sequence passed in and the one returned.
 */
module Fuzzing {
  import opened Wrappers
  import opened Words

  /** A value of a Python `bytearray`. */
  type Byte = b: int | 0 <= b < 256

  /** The constant `lava`: the bytes "lava" read as a big-endian word. */
  const Lava: int := 0x6c61_7661

  /** Why `mutfile` stops before writing anything. */
  datatype MutError =
    | KnobTooLarge       // the `knob < 2**16-1` assertion fails
    | MagicOutOfRange    // `struct.pack("<I", ...)` rejects a value outside [0, 2^32)
    | OffsetOutOfRange   // a tainted offset lies past the end of the file

  /**
   * The magic value `mutfile` writes. With the knob trigger, the knob goes
   * in the high half and the low 16 bits of `lava - bug_id` (Python's `&`
   * on a possibly negative int, i.e. the floored remainder) in the low half;
   * shifting the knob left by 16 leaves the low half clear, so the `|` of
   * the source is the sum written here.
   */
  function MagicValue(bugId: nat, kt: bool, knob: int): (r: Result<Word, MutError>)
  {
    if kt then
      if !(knob < 0x1_0000 - 1) then Failure(KnobTooLarge)
      else
        var bugTrigger := (Lava % 0x1_0000 - bugId) % 0x1_0000;
        var v := knob * 0x1_0000 + bugTrigger;
        if 0 <= v < W32 then Success(v) else Failure(MagicOutOfRange)
    else
      var v := Lava - bugId;
      if 0 <= v < W32 then Success(v) else Failure(MagicOutOfRange)
  }

  /** Without the knob trigger, the magic is defined exactly for the bug ids up to `lava`, and is `lava` minus the id. */
  lemma PlainMagic(bugId: nat)
    ensures MagicValue(bugId, false, 0).Success? <==> bugId <= Lava
    ensures MagicValue(bugId, false, 0).Success? ==> MagicValue(bugId, false, 0).value + bugId == Lava
  {
  }

  /**
   * With the knob trigger, a magic exists exactly for knobs in [0, 0xffff);
   * its high half is the knob and its low half is `lava`'s low half minus
   * the bug id, modulo 2^16 — the two halves `knobTriggerAttack` compares.
   */
  lemma KnobMagicHalves(bugId: nat, knob: int)
    ensures var r := MagicValue(bugId, true, knob);
      && (r.Success? <==> 0 <= knob < 0xffff)
      && (knob >= 0xffff ==> r == Failure(KnobTooLarge))
      && (r.Success? ==>
            && Shr32(And32(r.value, 0xffff_0000), 16) == knob
            && And32(r.value, 0x0000_ffff) == (0x7661 - bugId) % 0x1_0000)
  {
    var r := MagicValue(bugId, true, knob);
    if r.Success? {
      var t := (Lava % 0x1_0000 - bugId) % 0x1_0000;
      assert Lava % 0x1_0000 == 0x7661;
      ModUnique(r.value, 0x1_0000, knob, t);
      HighHalf(r.value);
      LowHalf(r.value);
    }
  }

  /** `struct.pack("<I", v)`: the four bytes of `v`, least significant first. */
  function PackLE(v: Word): (bs: seq<Byte>)
    ensures |bs| == 4
  {
    [ByteOf(v), ByteOf(v / 256), ByteOf(v / 0x1_0000), ByteOf(v / 0x100_0000)]
  }

  /** The low byte of a non-negative number. */
  function ByteOf(x: nat): Byte
  {
    x % 256
  }

  /** `struct.unpack("<I", bs)`: the word whose little-endian bytes are `bs`. */
  function UnpackLE(bs: seq<Byte>): Word
    requires |bs| == 4
  {
    var b0, b1, b2, b3: int := bs[0], bs[1], bs[2], bs[3];
    b0 + 256 * b1 + 0x1_0000 * b2 + 0x100_0000 * b3
  }

  /** Unpacking the packed bytes gives the word back. */
  lemma UnpackPack(v: Word)
    ensures UnpackLE(PackLE(v)) == v
  {
    var q1 := v / 256;
    var q2 := q1 / 256;
    ModUnique(v, 256, q1, v % 256);
    ModUnique(q1, 256, q2, q1 % 256);
    ModUnique(q2, 256, q2 / 256, q2 % 256);
    assert v / 0x1_0000 == q2 by {
      ModUnique(v, 0x1_0000, q2, v % 256 + 256 * (q1 % 256));
    }
    assert v / 0x100_0000 == q2 / 256 by {
      ModUnique(v, 0x100_0000, q2 / 256, v % 256 + 256 * (q1 % 256) + 0x1_0000 * (q2 % 256));
    }
  }

  /** Packing the unpacked word gives the bytes back. */
  lemma PackUnpack(bs: seq<Byte>)
    requires |bs| == 4
    ensures PackLE(UnpackLE(bs)) == bs
  {
    var v := UnpackLE(bs);
    var b0, b1, b2, b3: int := bs[0], bs[1], bs[2], bs[3];
    ModUnique(v, 256, b1 + 256 * b2 + 0x1_0000 * b3, b0);
    ModUnique(b1 + 256 * b2 + 0x1_0000 * b3, 256, b2 + 256 * b3, b1);
    ModUnique(v, 0x1_0000, b2 + 256 * b3, b0 + 256 * b1);
    ModUnique(b2 + 256 * b3, 256, b3, b2);
    ModUnique(v, 0x100_0000, b3, b0 + 256 * b1 + 0x1_0000 * b2);
  }

  /** Which byte of the magic a write takes. */
  type Lane = i: int | 0 <= i < 4

  /** One assignment `file_bytes[offset] = magic_val[lane]`. */
  datatype Write = Write(offset: nat, lane: Lane)

  function Min(a: int, b: int): int
  {
    if a <= b then a else b
  }

  /** The writes for one label list: `zip(range(4), fuzz_labels)` pairs the first (at most) four offsets with lanes 0..3. */
  function ListWrites(labels: seq<nat>): (ws: seq<Write>)
    ensures |ws| == Min(4, |labels|)
    ensures forall i | 0 <= i < |ws| :: ws[i] == Write(labels[i], i)
  {
    seq(Min(4, |labels|), i requires 0 <= i < Min(4, |labels|) => Write(labels[i], i))
  }

  /** The writes for all label lists, in the order the nested loops perform them. */
  function Writes(lists: seq<seq<nat>>): seq<Write>
  {
    if lists == [] then [] else Writes(lists[..|lists| - 1]) + ListWrites(lists[|lists| - 1])
  }

  lemma WritesSnoc(lists: seq<seq<nat>>, labels: seq<nat>)
    ensures Writes(lists + [labels]) == Writes(lists) + ListWrites(labels)
  {
    assert (lists + [labels])[..|lists|] == lists;
  }

  /** The writes of the first `j + 1` lists extend those of the first `j` by the writes of list `j`. */
  lemma WritesTake(lists: seq<seq<nat>>, j: nat)
    requires j < |lists|
    ensures Writes(lists[..j + 1]) == Writes(lists[..j]) + ListWrites(lists[j])
  {
    assert lists[..j + 1][..j] == lists[..j];
  }

  /** Every write hits a byte of a file of length `n`. */
  predicate InRange(ws: seq<Write>, n: nat)
  {
    forall j | 0 <= j < |ws| :: ws[j].offset < n
  }

  /** The bytes after performing `ws` in order. */
  function Applied(bytes: seq<Byte>, ws: seq<Write>, magic: seq<Byte>): (r: seq<Byte>)
    requires |magic| == 4 && InRange(ws, |bytes|)
    ensures |r| == |bytes|
  {
    if ws == [] then bytes
    else
      var w := ws[|ws| - 1];
      Applied(bytes, ws[..|ws| - 1], magic)[w.offset := magic[w.lane]]
  }

  /** The last write to an offset decides its byte: the byte holds the magic byte that write takes. */
  lemma {:induction false} AppliedLast(bytes: seq<Byte>, ws: seq<Write>, magic: seq<Byte>, j: nat)
    requires |magic| == 4 && InRange(ws, |bytes|) && j < |ws|
    requires forall j' | j < j' < |ws| :: ws[j'].offset != ws[j].offset
    ensures Applied(bytes, ws, magic)[ws[j].offset] == magic[ws[j].lane]
  {
    if j < |ws| - 1 {
      var init := ws[..|ws| - 1];
      assert init[j] == ws[j];
      AppliedLast(bytes, init, magic, j);
    }
  }

  /** Bytes at offsets no write names keep their value. */
  lemma {:induction false} UntouchedBytes(bytes: seq<Byte>, ws: seq<Write>, magic: seq<Byte>, k: nat)
    requires |magic| == 4 && InRange(ws, |bytes|) && k < |bytes|
    requires forall j | 0 <= j < |ws| :: ws[j].offset != k
    ensures Applied(bytes, ws, magic)[k] == bytes[k]
  {
    if ws != [] {
      UntouchedBytes(bytes, ws[..|ws| - 1], magic, k);
    }
  }

  /**
   * The last label list wins: an offset among its first four, not repeated
   * later among them, ends up holding its lane's magic byte whatever the
   * earlier lists wrote there.
   */
  lemma LaterListWins(bytes: seq<Byte>, lists: seq<seq<nat>>, labels: seq<nat>, i: nat, magic: seq<Byte>)
    requires |magic| == 4 && InRange(Writes(lists + [labels]), |bytes|)
    requires i < Min(4, |labels|)
    requires forall i' | i < i' < Min(4, |labels|) :: labels[i'] != labels[i]
    ensures labels[i] < |bytes|
    ensures Applied(bytes, Writes(lists + [labels]), magic)[labels[i]] == magic[i]
  {
    var pre := Writes(lists);
    var ws := Writes(lists + [labels]);
    WritesSnoc(lists, labels);
    var at := |pre| + i;
    assert ws[at] == Write(labels[i], i);
    forall j' | at < j' < |ws|
      ensures ws[j'].offset != ws[at].offset
    {
      assert ws[j'] == ListWrites(labels)[j' - |pre|];
    }
    AppliedLast(bytes, ws, magic, at);
  }

  /** A 4-byte field fully overwritten with the magic reads back as the magic word. */
  lemma FieldReadsMagic(bytes: seq<Byte>, lists: seq<seq<nat>>, labels: seq<nat>, v: Word)
    requires |labels| >= 4 && InRange(Writes(lists + [labels]), |bytes|)
    requires forall a | 0 <= a < 4 :: labels[a] < |bytes|
    requires forall a, b | 0 <= a < b < 4 :: labels[a] != labels[b]
    ensures var r := Applied(bytes, Writes(lists + [labels]), PackLE(v));
      UnpackLE([r[labels[0]], r[labels[1]], r[labels[2]], r[labels[3]]]) == v
  {
    var m := PackLE(v);
    LaterListWins(bytes, lists, labels, 0, m);
    LaterListWins(bytes, lists, labels, 1, m);
    LaterListWins(bytes, lists, labels, 2, m);
    LaterListWins(bytes, lists, labels, 3, m);
    var r := Applied(bytes, Writes(lists + [labels]), m);
    assert [r[labels[0]], r[labels[1]], r[labels[2]], r[labels[3]]] == m;
    UnpackPack(v);
  }

  /**
   * `mutfile`: computes the magic, copies the file into a byte array and
   * overwrites the first four offsets of each label list in turn. It fails
   * before any write on a bad magic, and on the first offset past the end.
   */
  method MutFile(contents: seq<Byte>, fuzzLabelsList: seq<seq<nat>>, bugId: nat, kt: bool, knob: int)
    returns (r: Result<seq<Byte>, MutError>)
    ensures MagicValue(bugId, kt, knob).Failure? ==> r == Failure(MagicValue(bugId, kt, knob).error)
    ensures MagicValue(bugId, kt, knob).Success? ==>
      (r.Success? <==> InRange(Writes(fuzzLabelsList), |contents|))
    ensures MagicValue(bugId, kt, knob).Success? && r.Failure? ==> r.error == OffsetOutOfRange
    ensures r.Success? ==> MagicValue(bugId, kt, knob).Success?
    ensures r.Success? ==> r.value == Applied(contents, Writes(fuzzLabelsList), PackLE(MagicValue(bugId, kt, knob).value))
  {
    var mv := MagicValue(bugId, kt, knob);
    if mv.Failure? {
      return Failure(mv.error);
    }
    var magicVal := PackLE(mv.value);
    var fileBytes := new Byte[|contents|](i requires 0 <= i < |contents| => contents[i]);
    for j := 0 to |fuzzLabelsList|
      invariant InRange(Writes(fuzzLabelsList[..j]), |contents|)
      invariant fileBytes[..] == Applied(contents, Writes(fuzzLabelsList[..j]), magicVal)
    {
      WritesTake(fuzzLabelsList, j);
      var ok := OverwriteFirstFour(fileBytes, contents, Writes(fuzzLabelsList[..j]), fuzzLabelsList[j], magicVal);
      if !ok {
        PrefixOutOfRange(fuzzLabelsList, j + 1, |contents|);
        return Failure(OffsetOutOfRange);
      }
    }
    assert fuzzLabelsList[..|fuzzLabelsList|] == fuzzLabelsList;
    r := Success(fileBytes[..]);
  }

  /**
   * The inner loop of `mutfile`: writes magic byte `i` at the `i`th offset
   * of `fuzzLabels` for the first (at most) four offsets, stopping at the
   * first one past the end of the file.
   */
  method OverwriteFirstFour(fileBytes: array<Byte>, ghost contents: seq<Byte>, ghost done: seq<Write>,
                            fuzzLabels: seq<nat>, magicVal: seq<Byte>) returns (ok: bool)
    requires |magicVal| == 4 && fileBytes.Length == |contents| && InRange(done, |contents|)
    requires fileBytes[..] == Applied(contents, done, magicVal)
    modifies fileBytes
    ensures ok <==> InRange(done + ListWrites(fuzzLabels), |contents|)
    ensures ok ==> fileBytes[..] == Applied(contents, done + ListWrites(fuzzLabels), magicVal)
  {
    assert done + ListWrites(fuzzLabels)[..0] == done;
    for i := 0 to Min(4, |fuzzLabels|)
      invariant InRange(done + ListWrites(fuzzLabels)[..i], |contents|)
      invariant fileBytes[..] == Applied(contents, done + ListWrites(fuzzLabels)[..i], magicVal)
    {
      var offset := fuzzLabels[i];
      ghost var ws := done + ListWrites(fuzzLabels)[..i];
      if offset >= fileBytes.Length {
        assert (done + ListWrites(fuzzLabels))[|done| + i].offset == offset;
        return false;
      }
      assert done + ListWrites(fuzzLabels)[..i + 1] == ws + [Write(offset, i)];
      AppliedSnoc(contents, ws, Write(offset, i), magicVal);
      fileBytes[offset] := magicVal[i];
    }
    assert ListWrites(fuzzLabels)[..Min(4, |fuzzLabels|)] == ListWrites(fuzzLabels);
    ok := true;
  }

  /** Performing one more write updates one byte. */
  lemma AppliedSnoc(bytes: seq<Byte>, ws: seq<Write>, w: Write, magic: seq<Byte>)
    requires |magic| == 4 && InRange(ws, |bytes|) && w.offset < |bytes|
    ensures InRange(ws + [w], |bytes|)
    ensures Applied(bytes, ws + [w], magic) == Applied(bytes, ws, magic)[w.offset := magic[w.lane]]
  {
    assert (ws + [w])[..|ws|] == ws;
  }

  /** The writes of the first lists come first. */
  lemma {:induction false} WritesPrefix(lists: seq<seq<nat>>, j: nat)
    requires j <= |lists|
    ensures |Writes(lists[..j])| <= |Writes(lists)|
    ensures Writes(lists)[..|Writes(lists[..j])|] == Writes(lists[..j])
    decreases |lists|
  {
    if j < |lists| {
      var init := lists[..|lists| - 1];
      assert init[..j] == lists[..j];
      WritesPrefix(init, j);
    } else {
      assert lists[..j] == lists;
    }
  }

  /** A prefix of the lists whose writes leave the file puts the whole write list out of range. */
  lemma PrefixOutOfRange(lists: seq<seq<nat>>, j: nat, n: nat)
    requires j <= |lists| && !InRange(Writes(lists[..j]), n)
    ensures !InRange(Writes(lists), n)
  {
    WritesPrefix(lists, j);
    var k :| 0 <= k < |Writes(lists[..j])| && Writes(lists[..j])[k].offset >= n;
    assert Writes(lists)[k] == Writes(lists[..j])[k];
  }
}
