/** 64-bit words seen as eight little-endian bytes, and the byte replacement of the
    debugger (alterpart). All shifts are by literal amounts. */
module Words {

  const CC: bv8 := 0xcc  // the one-byte int3 instruction

  /** Byte i of a word, as memcpy of a long lays it out. */
  function ByteAt(w: bv64, i: nat): bv8
    requires i < 8
  {
    match i
    case 0 => (w & 0xff) as bv8
    case 1 => ((w >> 8) & 0xff) as bv8
    case 2 => ((w >> 16) & 0xff) as bv8
    case 3 => ((w >> 24) & 0xff) as bv8
    case 4 => ((w >> 32) & 0xff) as bv8
    case 5 => ((w >> 40) & 0xff) as bv8
    case 6 => ((w >> 48) & 0xff) as bv8
    case _ => ((w >> 56) & 0xff) as bv8
  }

  function Compose(b0: bv8, b1: bv8, b2: bv8, b3: bv8, b4: bv8, b5: bv8, b6: bv8, b7: bv8): bv64 {
    (b0 as bv64) | ((b1 as bv64) << 8) | ((b2 as bv64) << 16) | ((b3 as bv64) << 24) |
    ((b4 as bv64) << 32) | ((b5 as bv64) << 40) | ((b6 as bv64) << 48) | ((b7 as bv64) << 56)
  }

  /** `w << 8 * k`. C++ leaves a shift by 64 undefined; the unoptimised x86-64 build takes the
      count modulo 64, so k = 8 shifts by nothing. */
  function ShiftBytes(w: bv64, k: nat): bv64
    requires k <= 8
  {
    match k
    case 0 => w
    case 1 => w << 8
    case 2 => w << 16
    case 3 => w << 24
    case 4 => w << 32
    case 5 => w << 40
    case 6 => w << 48
    case 8 => w
    case _ => w << 56
  }

  /** `long(pow(16, 2 * k) - 1)`. Exact in a double up to k = 6. For k = 7 the doubles just below
      2^56 are 8 apart, so 2^56 - 1 rounds up to 2^56. */
  function PowerMinusOne(k: nat): bv64
    requires k <= 7
  {
    if k < 7 then ShiftBytes(1, k) - 1 else ShiftBytes(1, 7)
  }

  function AlterPart(code: bv64, offset: nat, newCode: bv64): bv64
    requires 1 <= offset <= 8
  {
    var filter := ShiftBytes(0xffff_ffff_ffff_ffff, offset) | PowerMinusOne(offset - 1);
    (code & filter) | ShiftBytes(newCode, offset - 1)
  }

  lemma ComposeBytes(b0: bv8, b1: bv8, b2: bv8, b3: bv8, b4: bv8, b5: bv8, b6: bv8, b7: bv8)
    ensures var w := Compose(b0, b1, b2, b3, b4, b5, b6, b7);
            ByteAt(w, 0) == b0 && ByteAt(w, 1) == b1 && ByteAt(w, 2) == b2 && ByteAt(w, 3) == b3 &&
            ByteAt(w, 4) == b4 && ByteAt(w, 5) == b5 && ByteAt(w, 6) == b6 && ByteAt(w, 7) == b7
  {
  }

  /** A word is its eight bytes. */
  lemma BytesDetermine(v: bv64, w: bv64)
    requires forall i :: 0 <= i < 8 ==> ByteAt(v, i) == ByteAt(w, i)
    ensures v == w
  {
    assert ByteAt(v, 0) == ByteAt(w, 0) && ByteAt(v, 1) == ByteAt(w, 1);
    assert ByteAt(v, 2) == ByteAt(w, 2) && ByteAt(v, 3) == ByteAt(w, 3);
    assert ByteAt(v, 4) == ByteAt(w, 4) && ByteAt(v, 5) == ByteAt(w, 5);
    assert ByteAt(v, 6) == ByteAt(w, 6) && ByteAt(v, 7) == ByteAt(w, 7);
  }

  /** The word poked to plant a breakpoint on its lowest byte. */
  function Planted(w: bv64): bv64 {
    (w & 0xffff_ffff_ffff_ff00) | 0xcc
  }

  /** Planting keeps the seven higher bytes. */
  lemma PlantedBytes(w: bv64, i: nat)
    requires i < 8
    ensures ByteAt(Planted(w), i) == if i == 0 then CC else ByteAt(w, i)
  {
  }

  lemma LowByte(w: bv64)
    ensures w & 0xff == ByteAt(w, 0) as bv64
  {
  }

  lemma Offset1(code: bv64, v: bv8, i: nat)
    requires i < 8
    ensures ByteAt(AlterPart(code, 1, v as bv64), i) == if i == 0 then v else ByteAt(code, i)
  {
  }

  lemma Offset2(code: bv64, v: bv8, i: nat)
    requires i < 8
    ensures ByteAt(AlterPart(code, 2, v as bv64), i) == if i == 1 then v else ByteAt(code, i)
  {
  }

  lemma Offset3(code: bv64, v: bv8, i: nat)
    requires i < 8
    ensures ByteAt(AlterPart(code, 3, v as bv64), i) == if i == 2 then v else ByteAt(code, i)
  {
  }

  lemma Offset4(code: bv64, v: bv8, i: nat)
    requires i < 8
    ensures ByteAt(AlterPart(code, 4, v as bv64), i) == if i == 3 then v else ByteAt(code, i)
  {
  }

  lemma Offset5(code: bv64, v: bv8, i: nat)
    requires i < 8
    ensures ByteAt(AlterPart(code, 5, v as bv64), i) == if i == 4 then v else ByteAt(code, i)
  {
  }

  lemma Offset6(code: bv64, v: bv8, i: nat)
    requires i < 8
    ensures ByteAt(AlterPart(code, 6, v as bv64), i) == if i == 5 then v else ByteAt(code, i)
  {
  }

  lemma Offset7(code: bv64, v: bv8, i: nat)
    requires i < 8
    ensures ByteAt(AlterPart(code, 7, v as bv64), i) == if i == 6 then v else ByteAt(code, i)
  {
  }

  lemma Offset8Word(code: bv64, v: bv64)
    ensures AlterPart(code, 8, v) == code | (v << 56)
  {
    assert ShiftBytes(0xffff_ffff_ffff_ffff, 8) == 0xffff_ffff_ffff_ffff;
    assert ShiftBytes(v, 7) == v << 56;
  }

  lemma OrTopByte(code: bv64, v: bv8)
    ensures (((code | ((v as bv64) << 56)) >> 56) & 0xff) as bv8 == ((code >> 56) & 0xff) as bv8 | v
    ensures (code | ((v as bv64) << 56)) & 0xff_ffff_ffff_ffff == code & 0xff_ffff_ffff_ffff
  {
  }

  lemma LowerBytes(w: bv64, code: bv64, i: nat)
    requires i < 7 && w & 0xff_ffff_ffff_ffff == code & 0xff_ffff_ffff_ffff
    ensures ByteAt(w, i) == ByteAt(code, i)
  {
  }

  lemma Offset8(code: bv64, v: bv8, i: nat)
    requires i < 8
    ensures ByteAt(AlterPart(code, 8, v as bv64), i) == if i == 7 then ByteAt(code, 7) | v else ByteAt(code, i)
  {
    Offset8Word(code, v as bv64);
    OrTopByte(code, v);
    if i < 7 {
      LowerBytes(AlterPart(code, 8, v as bv64), code, i);
    }
  }

  /** What a replacement leaves in byte i, given the old byte and the new one: bytes 0 to 6 are
      replaced, the top byte is only ORed. */
  function Landed(before: bv8, v: bv8, i: nat): bv8 {
    if i < 7 then v else before | v
  }

  /** alterpart, byte by byte, for every offset. */
  lemma AlterPartBytes(code: bv64, offset: nat, v: bv8, i: nat)
    requires 1 <= offset <= 8 && i < 8
    ensures ByteAt(AlterPart(code, offset, v as bv64), i) ==
            if i == offset - 1 then Landed(ByteAt(code, i), v, i) else ByteAt(code, i)
  {
    match offset
    case 1 => Offset1(code, v, i);
    case 2 => Offset2(code, v, i);
    case 3 => Offset3(code, v, i);
    case 4 => Offset4(code, v, i);
    case 5 => Offset5(code, v, i);
    case 6 => Offset6(code, v, i);
    case 7 => Offset7(code, v, i);
    case _ => Offset8(code, v, i);
  }

  /** Every bit of b is a bit of v. */
  predicate Within(b: bv8, v: bv8) {
    b & !v == 0
  }

  lemma LandedIff(before: bv8, v: bv8, i: nat)
    ensures Landed(before, v, i) == v <==> i < 7 || Within(before, v)
  {
  }

  /** v brings nothing new to byte i: it is the byte there, or on top has no bit that is not there. */
  predicate NothingNew(before: bv8, v: bv8, i: nat) {
    if i < 7 then v == before else Within(v, before)
  }

  /** So a replacement leaves the byte as it was. */
  lemma LandedKeepsIff(before: bv8, v: bv8, i: nat)
    ensures Landed(before, v, i) == before <==> NothingNew(before, v, i)
  {
  }

  lemma LandedTwice(before: bv8, v: bv8, i: nat)
    ensures Landed(Landed(before, v, i), v, i) == Landed(before, v, i)
  {
  }

  lemma WithinLanded(before: bv8, v: bv8, t: bv8)
    ensures Within(Landed(before, v, 7), t) <==> Within(before, t) && Within(v, t)
  {
  }

  lemma WithinSelf(b: bv8)
    ensures Within(b, b)
  {
  }

  lemma WithinBoth(b: bv8, v: bv8)
    ensures Within(b, v) && Within(v, b) <==> b == v
  {
  }

  /** alterpart replaces the byte it aims at exactly when that byte is one of the lower seven or
      has no bit outside the new value. */
  lemma AlterPartReplacesIff(code: bv64, offset: nat, v: bv8)
    requires 1 <= offset <= 8
    ensures ByteAt(AlterPart(code, offset, v as bv64), offset - 1) == v <==>
            offset <= 7 || Within(ByteAt(code, 7), v)
  {
    AlterPartBytes(code, offset, v, offset - 1);
    LandedIff(ByteAt(code, offset - 1), v, offset - 1);
  }

  /** Replacements at different offsets commute, whichever of them is the top byte. */
  lemma AlterPartCommutes(code: bv64, o1: nat, v1: bv8, o2: nat, v2: bv8)
    requires 1 <= o1 <= 8 && 1 <= o2 <= 8 && o1 != o2
    ensures AlterPart(AlterPart(code, o1, v1 as bv64), o2, v2 as bv64) ==
            AlterPart(AlterPart(code, o2, v2 as bv64), o1, v1 as bv64)
  {
    var c1, c2 := AlterPart(code, o1, v1 as bv64), AlterPart(code, o2, v2 as bv64);
    var l, r := AlterPart(c1, o2, v2 as bv64), AlterPart(c2, o1, v1 as bv64);
    forall i | 0 <= i < 8
      ensures ByteAt(l, i) == ByteAt(r, i)
    {
      AlterPartBytes(code, o1, v1, i);
      AlterPartBytes(code, o2, v2, i);
      AlterPartBytes(c1, o2, v2, i);
      AlterPartBytes(c2, o1, v1, i);
    }
    BytesDetermine(l, r);
  }

  /** Of two replacements at one offset the last wins, exactly when the offset is one of the lower
      seven or the first brought no bit that the last does not leave there anyway. */
  lemma AlterPartLastWinsIff(code: bv64, offset: nat, v1: bv8, v2: bv8)
    requires 1 <= offset <= 8
    ensures AlterPart(AlterPart(code, offset, v1 as bv64), offset, v2 as bv64) == AlterPart(code, offset, v2 as bv64) <==>
            offset <= 7 || Within(v1, ByteAt(code, 7) | v2)
  {
    hide ByteAt, AlterPart, Landed, Within;
    var l := AlterPart(AlterPart(code, offset, v1 as bv64), offset, v2 as bv64);
    var r := AlterPart(code, offset, v2 as bv64);
    forall i: nat | i < 8
      ensures ByteAt(l, i) == ByteAt(r, i) <==> i != offset - 1 || i < 7 || Within(v1, ByteAt(code, 7) | v2)
    {
      LastWinsByte(code, offset, v1, v2, i);
    }
    SameBytesIff(l, r);
    assert ByteAt(l, 7) == ByteAt(r, 7) <==> 7 != offset - 1 || Within(v1, ByteAt(code, 7) | v2);
  }

  lemma LastWinsByte(code: bv64, offset: nat, v1: bv8, v2: bv8, i: nat)
    requires 1 <= offset <= 8 && i < 8
    ensures ByteAt(AlterPart(AlterPart(code, offset, v1 as bv64), offset, v2 as bv64), i) ==
            ByteAt(AlterPart(code, offset, v2 as bv64), i) <==>
            i != offset - 1 || i < 7 || Within(v1, ByteAt(code, 7) | v2)
  {
    hide ByteAt, AlterPart, Landed, Within;
    AlterPartBytes(code, offset, v1, i);
    AlterPartBytes(code, offset, v2, i);
    AlterPartBytes(AlterPart(code, offset, v1 as bv64), offset, v2, i);
    LandedTwiceIff(ByteAt(code, i), v1, v2, i);
  }

  lemma SameBytesIff(v: bv64, w: bv64)
    ensures v == w <==> forall i: nat :: i < 8 ==> ByteAt(v, i) == ByteAt(w, i)
  {
    hide ByteAt;
    if forall i: nat :: i < 8 ==> ByteAt(v, i) == ByteAt(w, i) {
      BytesDetermine(v, w);
    }
  }

  lemma LandedTwiceIff(before: bv8, v1: bv8, v2: bv8, i: nat)
    ensures Landed(Landed(before, v1, i), v2, i) == Landed(before, v2, i) <==> i < 7 || Within(v1, before | v2)
  {
  }
}
