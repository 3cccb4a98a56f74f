/**
  The frame checksum of usb/aap_transport.c: the bit-at-a-time loop, the table-driven
  form of RFC 1952 section 8 it has to agree with, and the burst errors it detects.
*/
module Crc32 {
  import opened Bytes
  import opened Iteration

  type word = bv32

  function Xor(a: word, b: word): word { a ^ b }
  function Low(c: word): word { c & 0xFF }
  function High(c: word): word { c & 0xFFFF_FF00 }
  function Up(c: word): word { c << 8 }
  function Down(c: word): word { c >> 8 }
  function Widen(b: byte): word { (b as bv8) as word }

  const ONES: word := 0xFFFF_FFFF

  // ---------- RFC 1952, section 8 ----------

  function BitStep(c: word): word {
    if c & 1 != 0 then 0xEDB8_8320 ^ (c >> 1) else c >> 1
  }

  /** What make_crc_table stores at index n. */
  function TableEntry(n: word): word {
    Iterate(BitStep, n, 8)
  }

  function TableByte(c: word, b: byte): word {
    Xor(TableEntry(Low(Xor(c, Widen(b)))), Down(c))
  }

  /** The RFC's crc(buf), that is update_crc(0, buf): complemented on the way in and out. */
  function RfcCrc(d: seq<byte>): word {
    Xor(Fold(TableByte, Xor(0, ONES), d), ONES)
  }

  // ---------- the same register, one byte at a time without the table ----------

  function ByteStep(c: word, b: byte): word {
    TableEntry(Xor(c, Widen(b)))
  }

  function Absorb(c: word, d: seq<byte>): word {
    Fold(ByteStep, c, d)
  }

  function Checksum(d: seq<byte>): word {
    Xor(Absorb(ONES, d), ONES)
  }

  // ---------- one bit ----------

  lemma LinearOddOdd(a: bv32, b: bv32)
    requires a & 1 != 0 && b & 1 != 0
    ensures BitStep(a ^ b) == BitStep(a) ^ BitStep(b)
  {
  }

  lemma LinearOddEven(a: bv32, b: bv32)
    requires a & 1 != 0 && b & 1 == 0
    ensures BitStep(a ^ b) == BitStep(a) ^ BitStep(b)
  {
  }

  lemma LinearEvenOdd(a: bv32, b: bv32)
    requires a & 1 == 0 && b & 1 != 0
    ensures BitStep(a ^ b) == BitStep(a) ^ BitStep(b)
  {
  }

  lemma LinearEvenEven(a: bv32, b: bv32)
    requires a & 1 == 0 && b & 1 == 0
    ensures BitStep(a ^ b) == BitStep(a) ^ BitStep(b)
  {
  }

  lemma BitStepLinear(a: word, b: word)
    ensures BitStep(Xor(a, b)) == Xor(BitStep(a), BitStep(b))
  {
    if a & 1 != 0 {
      if b & 1 != 0 { LinearOddOdd(a, b); } else { LinearOddEven(a, b); }
    } else {
      if b & 1 != 0 { LinearEvenOdd(a, b); } else { LinearEvenEven(a, b); }
    }
  }

  lemma EvenSteps(c: bv32)
    requires c & 0xF == 0
    ensures BitStep(c) == c >> 1
    ensures BitStep(c >> 1) == (c >> 1) >> 1
    ensures BitStep(c >> 2) == (c >> 2) >> 1
    ensures BitStep(c >> 3) == (c >> 3) >> 1
  {
  }

  lemma FourSteps(step: bv32 -> bv32, c: bv32)
    requires step(c) == c >> 1
    requires step(c >> 1) == (c >> 1) >> 1
    requires step(c >> 2) == (c >> 2) >> 1
    requires step(c >> 3) == (c >> 3) >> 1
    ensures Iterate(step, c, 4) == c >> 4
  {
    assert (c >> 1) >> 1 == c >> 2;
    assert (c >> 2) >> 1 == c >> 3;
    assert (c >> 3) >> 1 == c >> 4;
    Four(step, c);
  }
  lemma Four<T>(f: T -> T, c: T)
    ensures Iterate(f, c, 4) == f(f(f(f(c))))
  {
  }

  lemma FourEven(c: word)
    requires c & 0xF == 0
    ensures Iterate(BitStep, c, 4) == c >> 4
  {
    EvenSteps(c);
    FourSteps(BitStep, c);
  }

  /** The polynomial has its top bit set, so the bit that was shifted out can be read back. */
  function BitUnstep(c: word): word {
    if c & 0x8000_0000 != 0 then ((c ^ 0xEDB8_8320) << 1) | 1 else c << 1
  }

  lemma BitStepUndone(c: word)
    ensures BitUnstep(BitStep(c)) == c
  {
  }

  // ---------- words ----------

  lemma XorCancels(a: word, b: word)
    ensures Xor(Xor(a, b), b) == a
    ensures Xor(Xor(b, a), b) == a
  {
  }

  lemma XorCommutes(a: word, b: word)
    ensures Xor(a, b) == Xor(b, a)
  {
  }

  lemma SplitLow(c: word, b: bv8)
    ensures Xor(Low(Xor(c, b as word)), High(c)) == Xor(c, b as word)
  {
  }

  lemma HighIsDown(c: word)
    ensures Low(High(c)) == 0 && Down(High(c)) == Down(c)
  {
  }

  lemma UpDown(b: word)
    requires b & 0xFF00_0000 == 0
    ensures Low(Up(b)) == 0 && Down(Up(b)) == b
  {
  }

  lemma Spare(b: bv8)
    ensures (b as word) & 0xFF00_0000 == 0
    ensures Up(b as word) & 0xFF00_0000 == 0
    ensures Up(Up(b as word)) & 0xFF00_0000 == 0
  {
  }

  // ---------- one byte ----------

  lemma EntryLinear(a: word, b: word)
    ensures TableEntry(Xor(a, b)) == Xor(TableEntry(a), TableEntry(b))
  {
    forall x, y ensures BitStep(Xor(x, y)) == Xor(BitStep(x), BitStep(y)) {
      BitStepLinear(x, y);
    }
    IterateAdditive(BitStep, Xor, a, b, 8);
  }

  lemma EntryInjective(a: word, b: word)
    requires TableEntry(a) == TableEntry(b)
    ensures a == b
  {
    forall x, y | BitStep(x) == BitStep(y) ensures x == y {
      BitStepUndone(x);
      BitStepUndone(y);
    }
    IterateInjective(BitStep, a, b, 8);
  }

  /** A register whose low byte is clear only moves down during eight steps. */
  lemma ShiftOut(c: word)
    requires Low(c) == 0
    ensures TableEntry(c) == Down(c)
  {
    assert c & 0xF == 0 && (c >> 4) & 0xF == 0 && (c >> 4) >> 4 == c >> 8;
    FourEven(c);
    FourEven(c >> 4);
    IterateAdd(BitStep, c, 4, 4);
  }

  lemma ByteStepByTable(c: word, b: byte)
    ensures ByteStep(c, b) == TableByte(c, b)
  {
    var x := Widen(b);
    SplitLow(c, b as bv8);
    HighIsDown(c);
    EntryLinear(Low(Xor(c, x)), High(c));
    ShiftOut(High(c));
  }

  lemma ByteStepInjective(a: word, c: word, b: byte)
    requires ByteStep(a, b) == ByteStep(c, b)
    ensures a == c
  {
    EntryInjective(Xor(a, Widen(b)), Xor(c, Widen(b)));
    XorCancels(a, Widen(b));
    XorCancels(c, Widen(b));
  }

  // ---------- byte strings ----------

  /** The byte-wise register and the RFC's table compute the same checksum of every byte string. */
  lemma ChecksumIsRfc(d: seq<byte>)
    ensures Checksum(d) == RfcCrc(d)
  {
    forall c, b ensures ByteStep(c, b) == TableByte(c, b) {
      ByteStepByTable(c, b);
    }
    FoldAgree(ByteStep, TableByte, ONES, d);
    assert Xor(0, ONES) == ONES;
  }

  lemma AbsorbInjective(a: word, c: word, d: seq<byte>)
    requires Absorb(a, d) == Absorb(c, d)
    ensures a == c
  {
    forall x, y, b | ByteStep(x, b) == ByteStep(y, b) ensures x == y {
      ByteStepInjective(x, y, b);
    }
    FoldInjective(ByteStep, a, c, d);
  }

  // ---------- the check value ----------

  lemma AbsorbAppend(c: word, d: seq<byte>, b: byte)
    ensures Absorb(c, d + [b]) == ByteStep(Absorb(c, d), b) && Absorb(c, []) == c
  {
    assert (d + [b])[..|d|] == d;
  }

  function EightSteps(c: word): word {
    BitStep(BitStep(BitStep(BitStep(BitStep(BitStep(BitStep(BitStep(c))))))))
  }

  lemma EntryIsEightSteps(c: word)
    ensures TableEntry(c) == EightSteps(c)
  {
    assert Iterate(BitStep, c, 2) == BitStep(BitStep(c));
    assert Iterate(BitStep, c, 4) == BitStep(BitStep(Iterate(BitStep, c, 2)));
    assert Iterate(BitStep, c, 6) == BitStep(BitStep(Iterate(BitStep, c, 4)));
  }

  /** The registers that the nine digits lead through. */
  lemma DigitSteps()
    ensures EightSteps(0xFFFF_FFCE) == 0x7C23_1048
    ensures EightSteps(0x7C23_107A) == 0xB0AC_BB32
    ensures EightSteps(0xB0AC_BB01) == 0x77B7_9C2D
    ensures EightSteps(0x77B7_9C19) == 0x641C_1F5C
    ensures EightSteps(0x641C_1F69) == 0x340A_C5E3
    ensures EightSteps(0x340A_C5D5) == 0xF68D_2C9E
    ensures EightSteps(0xF68D_2CA9) == 0xAFFC_9660
    ensures EightSteps(0xAFFC_9658) == 0x651F_2550
    ensures EightSteps(0x651F_2569) == 0x340B_C6D9
  {
  }

  lemma WidenDigits()
    ensures Xor(0xFFFF_FFFF, Widen(0x31)) == 0xFFFF_FFCE
    ensures Xor(0x7C23_1048, Widen(0x32)) == 0x7C23_107A
    ensures Xor(0xB0AC_BB32, Widen(0x33)) == 0xB0AC_BB01
    ensures Xor(0x77B7_9C2D, Widen(0x34)) == 0x77B7_9C19
    ensures Xor(0x641C_1F5C, Widen(0x35)) == 0x641C_1F69
    ensures Xor(0x340A_C5E3, Widen(0x36)) == 0x340A_C5D5
    ensures Xor(0xF68D_2C9E, Widen(0x37)) == 0xF68D_2CA9
    ensures Xor(0xAFFC_9660, Widen(0x38)) == 0xAFFC_9658
    ensures Xor(0x651F_2550, Widen(0x39)) == 0x651F_2569
  {
  }

  lemma Digit(d: seq<byte>, b: byte, c: word, x: word, c': word)
    requires Absorb(ONES, d) == c && Xor(c, Widen(b)) == x && EightSteps(x) == c'
    ensures Absorb(ONES, d + [b]) == c'
  {
    AbsorbAppend(ONES, d, b);
    EntryIsEightSteps(x);
  }

  lemma OneToThree()
    ensures Absorb(ONES, [0x31, 0x32, 0x33]) == 0x77B7_9C2D
  {
    DigitSteps();
    WidenDigits();
    AbsorbAppend(ONES, [], 0x31);
    Digit([], 0x31, 0xFFFF_FFFF, 0xFFFF_FFCE, 0x7C23_1048);
    assert [] + [0x31] == [0x31];
    Digit([0x31], 0x32, 0x7C23_1048, 0x7C23_107A, 0xB0AC_BB32);
    assert [0x31] + [0x32] == [0x31, 0x32];
    Digit([0x31, 0x32], 0x33, 0xB0AC_BB32, 0xB0AC_BB01, 0x77B7_9C2D);
    assert [0x31, 0x32] + [0x33] == [0x31, 0x32, 0x33];
  }

  lemma FourToSix()
    ensures Absorb(ONES, [0x31, 0x32, 0x33, 0x34, 0x35, 0x36]) == 0xF68D_2C9E
  {
    OneToThree();
    DigitSteps();
    WidenDigits();
    Digit([0x31, 0x32, 0x33], 0x34, 0x77B7_9C2D, 0x77B7_9C19, 0x641C_1F5C);
    assert [0x31, 0x32, 0x33] + [0x34] == [0x31, 0x32, 0x33, 0x34];
    Digit([0x31, 0x32, 0x33, 0x34], 0x35, 0x641C_1F5C, 0x641C_1F69, 0x340A_C5E3);
    assert [0x31, 0x32, 0x33, 0x34] + [0x35] == [0x31, 0x32, 0x33, 0x34, 0x35];
    Digit([0x31, 0x32, 0x33, 0x34, 0x35], 0x36, 0x340A_C5E3, 0x340A_C5D5, 0xF68D_2C9E);
    assert [0x31, 0x32, 0x33, 0x34, 0x35] + [0x36] == [0x31, 0x32, 0x33, 0x34, 0x35, 0x36];
  }

  lemma SevenToNine()
    ensures Absorb(ONES, [0x31, 0x32, 0x33, 0x34, 0x35, 0x36, 0x37, 0x38, 0x39]) == 0x340B_C6D9
  {
    FourToSix();
    DigitSteps();
    WidenDigits();
    Digit([0x31, 0x32, 0x33, 0x34, 0x35, 0x36], 0x37, 0xF68D_2C9E, 0xF68D_2CA9, 0xAFFC_9660);
    assert [0x31, 0x32, 0x33, 0x34, 0x35, 0x36] + [0x37] == [0x31, 0x32, 0x33, 0x34, 0x35, 0x36, 0x37];
    Digit([0x31, 0x32, 0x33, 0x34, 0x35, 0x36, 0x37], 0x38, 0xAFFC_9660, 0xAFFC_9658, 0x651F_2550);
    assert [0x31, 0x32, 0x33, 0x34, 0x35, 0x36, 0x37] + [0x38] == [0x31, 0x32, 0x33, 0x34, 0x35, 0x36, 0x37, 0x38];
    Digit([0x31, 0x32, 0x33, 0x34, 0x35, 0x36, 0x37, 0x38], 0x39, 0x651F_2550, 0x651F_2569, 0x340B_C6D9);
    assert [0x31, 0x32, 0x33, 0x34, 0x35, 0x36, 0x37, 0x38] + [0x39] ==
           [0x31, 0x32, 0x33, 0x34, 0x35, 0x36, 0x37, 0x38, 0x39];
  }

  /** The checksum of the nine digits "123456789" is the check value of CRC-32. */
  lemma CheckValue()
    ensures RfcCrc([0x31, 0x32, 0x33, 0x34, 0x35, 0x36, 0x37, 0x38, 0x39]) == 0xCBF4_3926
  {
    SevenToNine();
    ChecksumIsRfc([0x31, 0x32, 0x33, 0x34, 0x35, 0x36, 0x37, 0x38, 0x39]);
    assert Xor(0x340B_C6D9, ONES) == 0xCBF4_3926;
  }

  // ---------- four bytes are one word ----------

  /** The little-endian image memcpy stores for a 32-bit word. */
  function WordBytes(w: word): seq<byte> {
    [Octet((w & 0xFF) as bv8), Octet(((w >> 8) & 0xFF) as bv8),
     Octet(((w >> 16) & 0xFF) as bv8), Octet((w >> 24) as bv8)]
  }

  function Join(b0: bv8, b1: bv8, b2: bv8, b3: bv8): word {
    Xor(Xor(Xor(b0 as word, Up(b1 as word)), Up(Up(b2 as word))), Up(Up(Up(b3 as word))))
  }

  function BytesWord(d: seq<byte>): word
    requires |d| == 4
  {
    Join(d[0] as bv8, d[1] as bv8, d[2] as bv8, d[3] as bv8)
  }

  lemma JoinSplit(w: word)
    ensures Join((w & 0xFF) as bv8, ((w >> 8) & 0xFF) as bv8, ((w >> 16) & 0xFF) as bv8, (w >> 24) as bv8) == w
  {
  }

  lemma SplitJoin(b0: bv8, b1: bv8, b2: bv8, b3: bv8)
    ensures var w := Join(b0, b1, b2, b3);
      (w & 0xFF) as bv8 == b0 && ((w >> 8) & 0xFF) as bv8 == b1 &&
      ((w >> 16) & 0xFF) as bv8 == b2 && (w >> 24) as bv8 == b3
  {
  }

  lemma WordRoundTrip(w: word)
    ensures BytesWord(WordBytes(w)) == w
  {
    OctetRoundTrip((w & 0xFF) as bv8);
    OctetRoundTrip(((w >> 8) & 0xFF) as bv8);
    OctetRoundTrip(((w >> 16) & 0xFF) as bv8);
    OctetRoundTrip((w >> 24) as bv8);
    JoinSplit(w);
  }

  lemma BytesRoundTrip(d: seq<byte>)
    requires |d| == 4
    ensures WordBytes(BytesWord(d)) == d
  {
    SplitJoin(d[0] as bv8, d[1] as bv8, d[2] as bv8, d[3] as bv8);
    OctetOf(d[0]);
    OctetOf(d[1]);
    OctetOf(d[2]);
    OctetOf(d[3]);
  }

  /** A byte folded in after eight steps could have been folded in before them, eight bits higher. */
  ghost predicate FoldsEarlier<T>(e: T -> T, xor: (T, T) -> T, up: T -> T, c: T, b: T) {
    xor(e(c), b) == e(xor(c, up(b)))
  }

  lemma EntryFoldsEarlier(c: word, b: word)
    requires b & 0xFF00_0000 == 0
    ensures FoldsEarlier(TableEntry, Xor, Up, c, b)
  {
    EntryLinear(c, Up(b));
    UpDown(b);
    ShiftOut(Up(b));
  }

  lemma FoldWord<T>(e: T -> T, xor: (T, T) -> T, up: T -> T, c: T, b1: T, b2: T, b3: T)
    requires FoldsEarlier(e, xor, up, c, b1)
    requires var w := xor(c, up(b1));
      FoldsEarlier(e, xor, up, e(w), b2) && FoldsEarlier(e, xor, up, w, up(b2))
    requires var w := xor(xor(c, up(b1)), up(up(b2)));
      FoldsEarlier(e, xor, up, e(e(w)), b3) && FoldsEarlier(e, xor, up, e(w), up(b3)) &&
      FoldsEarlier(e, xor, up, w, up(up(b3)))
    ensures e(xor(e(xor(e(xor(e(c), b1)), b2)), b3))
         == e(e(e(e(xor(xor(xor(c, up(b1)), up(up(b2))), up(up(up(b3))))))))
  {
  }

  lemma Reassociate(a: word, b: word, c: word, bc: word, ab: word)
    requires bc == b ^ c && ab == a ^ b
    ensures Xor(a, bc) == Xor(ab, c)
  {
  }

  lemma XorAssociates(a: word, b: word, c: word)
    ensures Xor(a, Xor(b, c)) == Xor(Xor(a, b), c)
  {
    Reassociate(a, b, c, Xor(b, c), Xor(a, b));
  }

  function Absorb4(c: word, b0: word, b1: word, b2: word, b3: word): word {
    TableEntry(Xor(TableEntry(Xor(TableEntry(Xor(TableEntry(Xor(c, b0)), b1)), b2)), b3))
  }

  lemma AbsorbOctets(c: word, b0: bv8, b1: bv8, b2: bv8, b3: bv8)
    ensures Absorb4(c, b0 as word, b1 as word, b2 as word, b3 as word)
         == Iterate(TableEntry, Xor(c, Join(b0, b1, b2, b3)), 4)
  {
    var x0, x1, x2, x3 := b0 as word, b1 as word, b2 as word, b3 as word;
    var w1 := Xor(c, x0);
    var w2 := Xor(w1, Up(x1));
    var w3 := Xor(w2, Up(Up(x2)));
    Spare(b1);
    Spare(b2);
    Spare(b3);
    EntryFoldsEarlier(w1, x1);
    EntryFoldsEarlier(TableEntry(w2), x2);
    EntryFoldsEarlier(w2, Up(x2));
    EntryFoldsEarlier(TableEntry(TableEntry(w3)), x3);
    EntryFoldsEarlier(TableEntry(w3), Up(x3));
    EntryFoldsEarlier(w3, Up(Up(x3)));
    FoldWord(TableEntry, Xor, Up, w1, x1, x2, x3);
    XorAssociates(c, x0, Up(x1));
    XorAssociates(c, Xor(x0, Up(x1)), Up(Up(x2)));
    XorAssociates(c, Xor(Xor(x0, Up(x1)), Up(Up(x2))), Up(Up(Up(x3))));
    Four(TableEntry, Xor(c, Join(b0, b1, b2, b3)));
  }

  lemma AbsorbWord(c: word, d: seq<byte>)
    requires |d| == 4
    ensures Absorb(c, d) == Iterate(TableEntry, Xor(c, BytesWord(d)), 4)
  {
    AbsorbFour(c, d);
    AbsorbOctets(c, d[0] as bv8, d[1] as bv8, d[2] as bv8, d[3] as bv8);
  }

  lemma AbsorbFour(c: word, d: seq<byte>)
    requires |d| == 4
    ensures Absorb(c, d) ==
            Absorb4(c, d[0] as bv8 as word, d[1] as bv8 as word, d[2] as bv8 as word, d[3] as bv8 as word)
  {
    FoldFour(ByteStep, c, d);
  }

  // ---------- burst errors ----------

  /** a and b have one length and agree outside the four bytes starting at at. */
  ghost predicate AgreeOutside(a: seq<byte>, b: seq<byte>, at: nat) {
    |a| == |b| && forall k | 0 <= k < |a| && !(at <= k < at + 4) :: a[k] == b[k]
  }

  lemma FourBytesInjective(c: word, x: seq<byte>, y: seq<byte>)
    requires |x| == |y| == 4 && Absorb(c, x) == Absorb(c, y)
    ensures x == y
  {
    AbsorbWord(c, x);
    AbsorbWord(c, y);
    forall a, b | TableEntry(a) == TableEntry(b) ensures a == b {
      EntryInjective(a, b);
    }
    IterateInjective(TableEntry, Xor(c, BytesWord(x)), Xor(c, BytesWord(y)), 4);
    XorCancels(BytesWord(x), c);
    XorCancels(BytesWord(y), c);
    BytesRoundTrip(x);
    BytesRoundTrip(y);
  }

  lemma BurstReachesRegister(c: word, a: seq<byte>, b: seq<byte>, at: nat)
    requires AgreeOutside(a, b, at) && Absorb(c, a) == Absorb(c, b)
    ensures a == b
  {
    if at < |a| {
      // three zero bytes more make every window a full word, and cannot hide a difference
      var z: seq<byte> := [0, 0, 0];
      var a', b' := a + z, b + z;
      var p, x, y, s := a'[..at], a'[at..at + 4], b'[at..at + 4], a'[at + 4..];
      assert a' == p + x + s;
      assert b' == p + y + s;
      FoldConcat(ByteStep, c, p, x);
      FoldConcat(ByteStep, c, p + x, s);
      FoldConcat(ByteStep, c, p, y);
      FoldConcat(ByteStep, c, p + y, s);
      FoldConcat(ByteStep, c, a, z);
      FoldConcat(ByteStep, c, b, z);
      AbsorbInjective(Absorb(c, p + x), Absorb(c, p + y), s);
      FourBytesInjective(Absorb(c, p), x, y);
      assert a == a'[..|a|] && b == b'[..|b|];
    }
  }

  /** Two different messages of one length that differ only inside four consecutive bytes have different checksums. */
  lemma BurstDetected(a: seq<byte>, b: seq<byte>, at: nat)
    requires a != b && AgreeOutside(a, b, at)
    ensures Checksum(a) != Checksum(b)
  {
    if Checksum(a) == Checksum(b) {
      XorCancels(Absorb(ONES, a), ONES);
      XorCancels(Absorb(ONES, b), ONES);
      BurstReachesRegister(ONES, a, b, at);
      assert false;
    }
  }

  /** The checksum as it is stored after a message. */
  function Tag(d: seq<byte>): (t: seq<byte>)
    ensures |t| == 4
  {
    WordBytes(RfcCrc(d))
  }

  /** The last four bytes are the checksum of everything before them. */
  predicate Sealed(f: seq<byte>) {
    |f| >= 4 && f[|f| - 4..] == Tag(f[..|f| - 4])
  }

  lemma TailWord(f: seq<byte>)
    requires |f| >= 4
    ensures Absorb(ONES, f) == Iterate(TableEntry, Xor(Absorb(ONES, f[..|f| - 4]), BytesWord(f[|f| - 4..])), 4)
  {
    assert f == f[..|f| - 4] + f[|f| - 4..];
    FoldConcat(ByteStep, ONES, f[..|f| - 4], f[|f| - 4..]);
    AbsorbWord(Absorb(ONES, f[..|f| - 4]), f[|f| - 4..]);
  }

  lemma XorMoves(c: word, w: word, o: word)
    ensures Xor(c, w) == o <==> w == Xor(c, o)
  {
    XorCancels(w, c);
    XorCancels(o, c);
    XorCommutes(c, w);
    XorCommutes(c, o);
    XorCommutes(Xor(c, w), c);
  }

  /** The tail is the checksum exactly when it complements the register it meets. */
  lemma SealedTail(f: seq<byte>)
    requires |f| >= 4
    ensures Sealed(f) <==> Xor(Absorb(ONES, f[..|f| - 4]), BytesWord(f[|f| - 4..])) == ONES
  {
    var c, t := Absorb(ONES, f[..|f| - 4]), f[|f| - 4..];
    ChecksumIsRfc(f[..|f| - 4]);
    BytesRoundTrip(t);
    WordRoundTrip(Xor(c, ONES));
    XorMoves(c, BytesWord(t), ONES);
  }

  /** All sealed strings leave the register at one value, and no other string does. */
  lemma SealedIsResidue(f: seq<byte>, g: seq<byte>)
    requires Sealed(f) && |g| >= 4
    ensures Sealed(g) <==> Absorb(ONES, g) == Absorb(ONES, f)
  {
    TailWord(f);
    TailWord(g);
    SealedTail(f);
    SealedTail(g);
    if Absorb(ONES, g) == Absorb(ONES, f) {
      forall a, b | TableEntry(a) == TableEntry(b) ensures a == b {
        EntryInjective(a, b);
      }
      IterateInjective(TableEntry, Xor(Absorb(ONES, g[..|g| - 4]), BytesWord(g[|g| - 4..])),
        Xor(Absorb(ONES, f[..|f| - 4]), BytesWord(f[|f| - 4..])), 4);
    }
  }

  /** A burst anywhere in a sealed string, the checksum bytes included, breaks the seal. */
  lemma BurstBreaksSeal(f: seq<byte>, g: seq<byte>, at: nat)
    requires Sealed(f) && f != g && AgreeOutside(f, g, at)
    ensures !Sealed(g)
  {
    SealedIsResidue(f, g);
    if Sealed(g) {
      BurstReachesRegister(ONES, f, g, at);
      assert false;
    }
  }

  // ---------- the loop ----------

  lemma MaskedStep(c: word)
    ensures (c >> 1) ^ (0xEDB8_8320 & (0 - (c & 1))) == BitStep(c)
  {
    assert c & 1 == 0 || c & 1 == 1;
  }

  method Crc32b(d: array<byte>, n: nat) returns (crc: word)
    requires n <= d.Length
    ensures crc == RfcCrc(d[..n])
  {
    var c: word := 0xFFFF_FFFF;
    for k := 0 to n
      invariant c == Absorb(ONES, d[..k])
    {
      assert d[..k + 1][..k] == d[..k];
      c := Xor(c, Widen(d[k]));
      ghost var start := c;
      for i := 0 to 8
        invariant c == Iterate(BitStep, start, i)
      {
        MaskedStep(c);
        c := (c >> 1) ^ (0xEDB8_8320 & (0 - (c & 1)));
      }
    }
    ChecksumIsRfc(d[..n]);
    return Xor(c, 0xFFFF_FFFF);
  }
}
