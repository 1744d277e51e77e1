/** The fast encoders: eight words at a time, as nine bytes (demo/perfdemo/perfdemo.c).
    Memory is little-endian, as the casts of the byte buffer to 32-bit words suppose. */
module LcmFast {
  import opened LcmWords
  import opened LcmSerial

  // ---------- one group: eight words are nine bytes ----------

  /** Byte m of the nine that eight words fill: the end of the word before, the D/C bit and the start of word m. */
  function PackedByte(m: nat, w: Word, before: Word): bv8
    requires m < 8
  {
    (if w.Data? then Shr(0x80, m) else 0) | Shr(w.value, m + 1) | Shl(before.value, 8 - m)
  }

  function GroupByte(ws: seq<Word>, m: nat): bv8
    requires |ws| == 8 && m < 9
  {
    if m == 8 then ws[7].value
    else PackedByte(m, ws[m], if m == 0 then NOP else ws[m - 1])
  }

  function GroupBytes(ws: seq<Word>): (s: seq<bv8>)
    requires |ws| == 8
    ensures |s| == 9
  {
    seq(9, m requires 0 <= m < 9 => GroupByte(ws, m))
  }

  lemma OrBits(a: bv8, b: bv8, c: bv8, k: nat)
    requires k < 8
    ensures Bit(a | b | c, k) == (Bit(a, k) || Bit(b, k) || Bit(c, k))
  {
    hide Bit;
    BitOfOr(a | b, c, k);
    BitOfOr(a, b, k);
  }

  lemma PackedByteBits(m: nat, w: Word, before: Word, k: nat)
    requires m < 8 && k < 8
    ensures Bit(PackedByte(m, w, before), k) ==
      if k < m then Bit(before.value, 8 - m + k)
      else if k == m then w.Data?
      else Bit(w.value, k - m - 1)
  {
    hide Bit, Shr, Shl;
    OrBits(if w.Data? then Shr(0x80, m) else 0, Shr(w.value, m + 1), Shl(before.value, 8 - m), k);
    ZeroBit(k);
    BitOfTop(m, k);
    BitOfShiftRight(w.value, m + 1, k);
    BitOfShiftLeft(before.value, 8 - m, k);
  }

  /** The bit-level fact behind the fast encoders. */
  lemma GroupEncodes(ws: seq<Word>)
    requires |ws| == 8
    ensures Encodes(GroupBytes(ws), ws)
  {
    hide Bit, PackedByte;
    var s := GroupBytes(ws);
    forall k | 0 <= k < 8 * |s|
      ensures BitAt(s, k) == StreamBit(ws, k)
    {
      var m, j := k / 8, k % 8;
      if m < 8 {
        PackedByteBits(m, ws[m], if m == 0 then NOP else ws[m - 1], j);
        assert k / 9 == (if j < m then m - 1 else m) && k % 9 == (if j < m then 9 - m + j else j - m);
      } else {
        assert k / 9 == 7 && k % 9 == j + 1;
      }
    }
  }

  // ---------- eight bytes of pixel data ----------

  /** The words of one group of pixel bytes p0 .. p7. */
  function PixelGroup(p: seq<bv8>): (ws: seq<Word>)
    requires |p| == 8
    ensures |ws| == 8
  {
    [Data(p[1]), Data(p[0]), Data(p[3]), Data(p[2]), Data(p[5]), Data(p[4]), Data(p[7]), Data(p[6])]
  }

  lemma RightShifts(b: bv8)
    ensures Shr(b, 0) == b && Shr(b, 1) == b >> 1 && Shr(b, 2) == b >> 2 && Shr(b, 3) == b >> 3
    ensures Shr(b, 4) == b >> 4 && Shr(b, 5) == b >> 5 && Shr(b, 6) == b >> 6 && Shr(b, 7) == b >> 7 && Shr(b, 8) == 0
  {
  }

  lemma LeftShifts(b: bv8)
    ensures Shl(b, 1) == b << 1 && Shl(b, 2) == b << 2 && Shl(b, 3) == b << 3 && Shl(b, 4) == b << 4
    ensures Shl(b, 5) == b << 5 && Shl(b, 6) == b << 6 && Shl(b, 7) == b << 7 && Shl(b, 8) == 0
  {
  }

  /** A byte of a group of data words, for each constant position. */
  lemma PackedData(b: bv8, a: bv8)
    ensures PackedByte(0, Data(b), NOP) == 0x80 | (b >> 1)
    ensures PackedByte(1, Data(b), Data(a)) == 0x40 | (b >> 2) | (a << 7)
    ensures PackedByte(2, Data(b), Data(a)) == 0x20 | (b >> 3) | (a << 6)
    ensures PackedByte(3, Data(b), Data(a)) == 0x10 | (b >> 4) | (a << 5)
    ensures PackedByte(4, Data(b), Data(a)) == 0x08 | (b >> 5) | (a << 4)
    ensures PackedByte(5, Data(b), Data(a)) == 0x04 | (b >> 6) | (a << 3)
    ensures PackedByte(6, Data(b), Data(a)) == 0x02 | (b >> 7) | (a << 2)
    ensures PackedByte(7, Data(b), Data(a)) == 0x01 | (a << 1)
  {
    hide Shr, Shl;
    RightShifts(0x80);
    RightShifts(b);
    LeftShifts(a);
    LeftShifts(0);
  }

  /** The nine bytes that the bytewise loop assigns are the group. */
  lemma BytewiseGroup(p0: bv8, p1: bv8, p2: bv8, p3: bv8, p4: bv8, p5: bv8, p6: bv8, p7: bv8)
    ensures GroupBytes(PixelGroup([p0, p1, p2, p3, p4, p5, p6, p7])) ==
      [0x80 | (p1 >> 1), 0x40 | (p0 >> 2) | (p1 << 7), 0x20 | (p3 >> 3) | (p0 << 6), 0x10 | (p2 >> 4) | (p3 << 5),
       0x08 | (p5 >> 5) | (p2 << 4), 0x04 | (p4 >> 6) | (p5 << 3), 0x02 | (p7 >> 7) | (p4 << 2), 0x01 | (p7 << 1), p6]
  {
    hide PackedByte;
    PackedData(p1, 0);
    PackedData(p0, p1);
    PackedData(p3, p0);
    PackedData(p2, p3);
    PackedData(p5, p2);
    PackedData(p4, p5);
    PackedData(p7, p4);
    PackedData(p6, p7);
  }

  /** The two 32-bit words that carry eight bytes of pixel data p0 .. p7 (p6 is stored by itself). */
  function PixelWord0(p0: bv8, p1: bv8, p2: bv8, p3: bv8): bv32
  {
    ((p1 as bv32) << 23) | ((p0 as bv32) << 14) | ((p3 as bv32) << 5) | ((p2 as bv32) >> 4) | 0x80402010
  }

  function PixelWord1(p2: bv8, p4: bv8, p5: bv8, p7: bv8): bv32
  {
    ((p2 as bv32) << 28) | ((p5 as bv32) << 19) | ((p4 as bv32) << 10) | ((p7 as bv32) << 1) | 0x08040201
  }

  lemma PixelWord0Bytes(p0: bv8, p1: bv8, p2: bv8, p3: bv8)
    ensures BigEndian(PixelWord0(p0, p1, p2, p3)) ==
      [0x80 | (p1 >> 1), 0x40 | (p0 >> 2) | (p1 << 7), 0x20 | (p3 >> 3) | (p0 << 6), 0x10 | (p2 >> 4) | (p3 << 5)]
  {
    var w := PixelWord0(p0, p1, p2, p3);
    assert ByteOf(w, 3) == 0x80 | (p1 >> 1);
    assert ByteOf(w, 2) == 0x40 | (p0 >> 2) | (p1 << 7);
    assert ByteOf(w, 1) == 0x20 | (p3 >> 3) | (p0 << 6);
    assert ByteOf(w, 0) == 0x10 | (p2 >> 4) | (p3 << 5);
  }

  lemma PixelWord1Bytes(p2: bv8, p4: bv8, p5: bv8, p7: bv8)
    ensures BigEndian(PixelWord1(p2, p4, p5, p7)) ==
      [0x08 | (p5 >> 5) | (p2 << 4), 0x04 | (p4 >> 6) | (p5 << 3), 0x02 | (p7 >> 7) | (p4 << 2), 0x01 | (p7 << 1)]
  {
    var w := PixelWord1(p2, p4, p5, p7);
    assert ByteOf(w, 3) == 0x08 | (p5 >> 5) | (p2 << 4);
    assert ByteOf(w, 2) == 0x04 | (p4 >> 6) | (p5 << 3);
    assert ByteOf(w, 1) == 0x02 | (p7 >> 7) | (p4 << 2);
    assert ByteOf(w, 0) == 0x01 | (p7 << 1);
  }

  /** The two words of the wordwise loop, most significant byte first, and the ninth byte are the group too. */
  lemma WordwiseGroup(p0: bv8, p1: bv8, p2: bv8, p3: bv8, p4: bv8, p5: bv8, p6: bv8, p7: bv8)
    ensures BigEndian(PixelWord0(p0, p1, p2, p3)) + BigEndian(PixelWord1(p2, p4, p5, p7)) + [p6]
         == GroupBytes(PixelGroup([p0, p1, p2, p3, p4, p5, p6, p7]))
  {
    hide BigEndian, PixelWord0, PixelWord1, GroupBytes;
    PixelWord0Bytes(p0, p1, p2, p3);
    PixelWord1Bytes(p2, p4, p5, p7);
    BytewiseGroup(p0, p1, p2, p3, p4, p5, p6, p7);
  }

  // ---------- the header ----------

  /** The sixteen words of the fast header: five no-operations keep the memory-write command
      at the end of the second group. */
  function HeaderWords0(xs: seq<bv8>, ys: seq<bv8>): seq<Word>
    requires |xs| == |ys| == 4
  {
    [Command(0x2A), Data(xs[0]), Data(xs[1]), Data(xs[2]), Data(xs[3]), Command(0x2B), Data(ys[0]), Data(ys[1])]
  }

  function HeaderWords1(ys: seq<bv8>): seq<Word>
    requires |ys| == 4
  {
    [Data(ys[2]), Data(ys[3]), NOP, NOP, NOP, NOP, NOP, Command(0x2C)]
  }

  function HeaderWord0(x3: bv8, x2: bv8, x1: bv8): bv32
  {
    ((x3 as bv32) << 14) | ((x2 as bv32) << 5) | ((x1 as bv32) >> 4) | 0x15402010
  }

  function HeaderWord1(x1: bv8, x0: bv8, y3: bv8): bv32
  {
    ((x1 as bv32) << 28) | ((x0 as bv32) << 19) | ((y3 as bv32) << 1) | 0x0800ae01
  }

  function HeaderWord2(y1: bv8, y0: bv8): bv32
  {
    ((y1 as bv32) << 23) | ((y0 as bv32) << 14) | 0x80400000
  }

  /** The bytes of a group for the header's words, for each constant position. */
  lemma PackedHeader0(x3: bv8, x2: bv8, x1: bv8, x0: bv8, y3: bv8)
    ensures PackedByte(0, Command(0x2A), NOP) == 0x15
    ensures PackedByte(1, Data(x3), Command(0x2A)) == 0x40 | (x3 >> 2)
    ensures PackedByte(4, Data(x0), Data(x1)) == 0x08 | (x0 >> 5) | (x1 << 4)
    ensures PackedByte(5, Command(0x2B), Data(x0)) == x0 << 3
    ensures PackedByte(6, Data(y3), Command(0x2B)) == 0xae | (y3 >> 7)
  {
    hide Shr, Shl;
    RightShifts(0x80);
    RightShifts(0x2A);
    RightShifts(0x2B);
    RightShifts(x3);
    RightShifts(x0);
    RightShifts(y3);
    LeftShifts(0);
    LeftShifts(0x2A);
    LeftShifts(0x2B);
    LeftShifts(x1);
    LeftShifts(x0);
  }

  lemma HeaderWord0Bytes(x3: bv8, x2: bv8, x1: bv8)
    ensures BigEndian(HeaderWord0(x3, x2, x1)) ==
      [0x15, 0x40 | (x3 >> 2), 0x20 | (x2 >> 3) | (x3 << 6), 0x10 | (x1 >> 4) | (x2 << 5)]
  {
    var w := HeaderWord0(x3, x2, x1);
    assert ByteOf(w, 3) == 0x15;
    assert ByteOf(w, 2) == 0x40 | (x3 >> 2);
    assert ByteOf(w, 1) == 0x20 | (x2 >> 3) | (x3 << 6);
    assert ByteOf(w, 0) == 0x10 | (x1 >> 4) | (x2 << 5);
  }

  lemma HeaderWord1Bytes(x1: bv8, x0: bv8, y3: bv8)
    ensures BigEndian(HeaderWord1(x1, x0, y3)) ==
      [0x08 | (x0 >> 5) | (x1 << 4), x0 << 3, 0xae | (y3 >> 7), 0x01 | (y3 << 1)]
  {
    var w := HeaderWord1(x1, x0, y3);
    assert ByteOf(w, 3) == 0x08 | (x0 >> 5) | (x1 << 4);
    assert ByteOf(w, 2) == x0 << 3;
    assert ByteOf(w, 1) == 0xae | (y3 >> 7);
    assert ByteOf(w, 0) == 0x01 | (y3 << 1);
  }

  lemma HeaderGroup0(x3: bv8, x2: bv8, x1: bv8, x0: bv8, y3: bv8, y2: bv8, y1: bv8, y0: bv8)
    ensures BigEndian(HeaderWord0(x3, x2, x1)) + BigEndian(HeaderWord1(x1, x0, y3)) + [y2]
         == GroupBytes(HeaderWords0([x3, x2, x1, x0], [y3, y2, y1, y0]))
  {
    hide BigEndian, HeaderWord0, HeaderWord1, PackedByte;
    HeaderWord0Bytes(x3, x2, x1);
    HeaderWord1Bytes(x1, x0, y3);
    PackedHeader0(x3, x2, x1, x0, y3);
    PackedData(x2, x3);
    PackedData(x1, x2);
    PackedData(y2, y3);
  }

  lemma PackedHeader1(y0: bv8)
    ensures PackedByte(2, NOP, Data(y0)) == y0 << 6
    ensures PackedByte(3, NOP, NOP) == 0 && PackedByte(4, NOP, NOP) == 0
    ensures PackedByte(5, NOP, NOP) == 0 && PackedByte(6, NOP, NOP) == 0
    ensures PackedByte(7, Command(0x2C), NOP) == 0
  {
    hide Shr, Shl;
    RightShifts(0);
    RightShifts(0x2C);
    LeftShifts(0);
    LeftShifts(y0);
  }

  lemma HeaderWord2Bytes(y1: bv8, y0: bv8)
    ensures BigEndian(HeaderWord2(y1, y0)) == [0x80 | (y1 >> 1), 0x40 | (y0 >> 2) | (y1 << 7), y0 << 6, 0]
  {
    var w := HeaderWord2(y1, y0);
    assert ByteOf(w, 3) == 0x80 | (y1 >> 1);
    assert ByteOf(w, 2) == 0x40 | (y0 >> 2) | (y1 << 7);
    assert ByteOf(w, 1) == y0 << 6;
    assert ByteOf(w, 0) == 0;
  }

  lemma HeaderGroup1(y3: bv8, y2: bv8, y1: bv8, y0: bv8)
    ensures BigEndian(HeaderWord2(y1, y0)) + [0, 0, 0, 0] + [0x2C] == GroupBytes(HeaderWords1([y3, y2, y1, y0]))
  {
    hide BigEndian, HeaderWord2, PackedByte;
    HeaderWord2Bytes(y1, y0);
    PackedData(y1, 0);
    PackedData(y0, y1);
    PackedHeader1(y0);
  }

  // ---------- stores into the byte buffer ----------

  /** after is before with the given bytes at off. */
  ghost predicate Stored(before: seq<bv8>, after: seq<bv8>, off: nat, bytes: seq<bv8>)
  {
    && |after| == |before| && off + |bytes| <= |before|
    && after[off..off + |bytes|] == bytes
    && after[..off] == before[..off]
    && after[off + |bytes|..] == before[off + |bytes|..]
  }

  lemma StoredNext(a: seq<bv8>, b: seq<bv8>, c: seq<bv8>, off: nat, xs: seq<bv8>, ys: seq<bv8>)
    requires Stored(a, b, off, xs) && Stored(b, c, off + |xs|, ys)
    ensures Stored(a, c, off, xs + ys)
  {
    assert c[off..off + |xs| + |ys|] == c[..off + |xs|][off..] + ys;
    assert c[..off] == c[..off + |xs|][..off];
    assert c[off + |xs| + |ys|..] == b[off + |xs|..][|ys|..];
  }

  function LittleEndian(x: bv32): (bs: seq<bv8>)
    ensures |bs| == 4
  {
    [ByteOf(x, 0), ByteOf(x, 1), ByteOf(x, 2), ByteOf(x, 3)]
  }

  function SwapEndian32(x: bv32): bv32
  {
    ((x & 0x000000ff) << 24) | ((x & 0x0000ff00) << 8) | ((x & 0x00ff0000) >> 8) | ((x & 0xff000000) >> 24)
  }

  /** Swapping a word in little-endian memory leaves its bytes most significant first. */
  lemma SwappedBytes(x: bv32)
    ensures LittleEndian(SwapEndian32(x)) == BigEndian(x)
  {
  }

  lemma LoadOfBytes(x: bv32)
    ensures Load32(ByteOf(x, 0), ByteOf(x, 1), ByteOf(x, 2), ByteOf(x, 3)) == x
  {
  }

  method Store32(buf: array<bv8>, off: nat, x: bv32)
    requires off + 4 <= buf.Length
    modifies buf
    ensures Stored(old(buf[..]), buf[..], off, LittleEndian(x))
  {
    hide ByteOf;
    buf[off], buf[off + 1], buf[off + 2], buf[off + 3] := ByteOf(x, 0), ByteOf(x, 1), ByteOf(x, 2), ByteOf(x, 3);
  }

  /** pbits[k] = swap_endian_32(pbits[k]), for a word that holds x. */
  method SwapStored32(buf: array<bv8>, off: nat, ghost x: bv32)
    requires off + 4 <= buf.Length
    requires buf[off..off + 4] == LittleEndian(x)
    modifies buf
    ensures Stored(old(buf[..]), buf[..], off, BigEndian(x))
  {
    hide ByteOf, SwapEndian32, Load32, BigEndian, Stored;
    ghost var word := buf[off..off + 4];
    assert word[0] == buf[off] && word[1] == buf[off + 1] && word[2] == buf[off + 2] && word[3] == buf[off + 3];
    LoadOfBytes(x);
    SwappedBytes(x);
    Store32(buf, off, SwapEndian32(Load32(buf[off], buf[off + 1], buf[off + 2], buf[off + 3])));
  }

  /** Stores a pair of words, then swaps both in place: eight bytes, most significant first. */
  method StoreSwappedPair(buf: array<bv8>, off: nat, x: bv32, y: bv32)
    requires off + 8 <= buf.Length
    modifies buf
    ensures Stored(old(buf[..]), buf[..], off, BigEndian(x) + BigEndian(y))
  {
    hide LittleEndian, BigEndian;
    ghost var s0 := buf[..];
    Store32(buf, off, x);
    ghost var s1 := buf[..];
    Store32(buf, off + 4, y);
    ghost var s2 := buf[..];
    assert buf[off..off + 4] == s2[..off + 4][off..] == s1[..off + 4][off..] == s1[off..off + 4];
    SwapStored32(buf, off, x);
    ghost var s3 := buf[..];
    assert buf[off + 4..off + 8] == s3[off + 4..][..4] == s2[off + 4..][..4] == s2[off + 4..off + 8];
    assert s3[off + 8..] == s3[off + 4..][4..] == s2[off + 8..] == s1[off + 8..] == s0[off + 8..];
    SwapStored32(buf, off + 4, y);
    StoredPair(s0, s3, buf[..], off, BigEndian(x), BigEndian(y));
  }

  lemma StoredPair(s0: seq<bv8>, s3: seq<bv8>, s4: seq<bv8>, off: nat, xs: seq<bv8>, ys: seq<bv8>)
    requires |xs| == |ys| == 4 && off + 8 <= |s0| == |s3|
    requires s3[off..off + 4] == xs && s3[..off] == s0[..off] && s3[off + 8..] == s0[off + 8..]
    requires Stored(s3, s4, off + 4, ys)
    ensures Stored(s0, s4, off, xs + ys)
  {
    assert s4[off..off + 8] == s4[..off + 4][off..] + ys;
    assert s4[..off] == s4[..off + 4][..off];
  }

  // ---------- the payload loops ----------

  lemma PartnerShift(g: nat, i: nat)
    requires i < 8
    ensures Partner(8 * g + i) == 8 * g + Partner(i) && Partner(i) < 8
  {
    SameParity(4 * g, i);
  }

  lemma GroupPartner(p: seq<bv8>, i: nat)
    requires |p| == 8 && i < 8
    ensures Partner(i) < 8 && PixelGroup(p)[i] == Data(p[Partner(i)])
  {
  }

  /** Byte i of group g. */
  lemma PixelAt(src: seq<bv8>, g: nat, i: nat)
    requires 8 * g + 8 <= |src| && i < 8
    ensures PixelWords(src, 2 * g + 2)[8 * g + i] == PixelGroup(src[8 * g..8 * g + 8])[i]
  {
    hide Partner, PixelGroup;
    PartnerShift(g, i);
    GroupPartner(src[8 * g..8 * g + 8], i);
  }

  lemma PixelsGrow(src: seq<bv8>, g: nat)
    requires 8 * g + 8 <= |src|
    ensures PixelWords(src, 2 * g + 2) == PixelWords(src, 2 * g) + PixelGroup(src[8 * g..8 * g + 8])
  {
    hide PixelWords, PixelGroup;
    var p, all := src[8 * g..8 * g + 8], PixelWords(src, 2 * g + 2);
    forall i | 0 <= i < 8
      ensures all[8 * g..][i] == PixelGroup(p)[i]
    {
      PixelAt(src, g, i);
    }
    PixelsPrefix(src, 2 * g, 2 * g + 2);
    assert all[8 * g..] == PixelGroup(p);
    assert all == all[..8 * g] + all[8 * g..];
  }

  /** One more group of the payload. */
  lemma PayloadGrows(src: seq<bv8>, before: seq<bv8>, after: seq<bv8>, off: nat, g: nat)
    requires 8 * g + 8 <= |src|
    requires Stored(before, after, off + 9 * g, GroupBytes(PixelGroup(src[8 * g..8 * g + 8])))
    requires Encodes(before[off..off + 9 * g], PixelWords(src, 2 * g))
    ensures Encodes(after[off..off + 9 * g + 9], PixelWords(src, 2 * g + 2))
    ensures after[..off] == before[..off]
  {
    hide Encodes, GroupBytes, PixelGroup, PixelWords;
    var p := src[8 * g..8 * g + 8];
    GroupEncodes(PixelGroup(p));
    EncodesAppend(before[off..off + 9 * g], PixelWords(src, 2 * g), GroupBytes(PixelGroup(p)), PixelGroup(p));
    PixelsGrow(src, g);
    assert after[off..off + 9 * g + 9] == after[..off + 9 * g][off..] + GroupBytes(PixelGroup(p));
    assert after[..off] == after[..off + 9 * g][..off];
  }

  lemma NoPayload(s: seq<bv8>, src: seq<bv8>)
    requires s == []
    ensures Encodes(s, PixelWords(src, 0))
  {
  }

  /** The nine assignments of the bytewise loop. */
  method StoreGroup(buf: array<bv8>, pdst: nat, psrc: seq<bv8>)
    requires |psrc| == 8 && pdst + 9 <= buf.Length
    modifies buf
    ensures Stored(old(buf[..]), buf[..], pdst, GroupBytes(PixelGroup(psrc)))
  {
    hide GroupBytes, PixelGroup, Stored;
    var p0, p1, p2, p3 := psrc[0], psrc[1], psrc[2], psrc[3];
    var p4, p5, p6, p7 := psrc[4], psrc[5], psrc[6], psrc[7];
    assert psrc == [p0, p1, p2, p3, p4, p5, p6, p7];
    BytewiseGroup(p0, p1, p2, p3, p4, p5, p6, p7);
    ghost var s0 := buf[..];
    var b0, b1, b2 := 0x80 | (p1 >> 1), 0x40 | (p0 >> 2) | (p1 << 7), 0x20 | (p3 >> 3) | (p0 << 6);
    var b3, b4, b5 := 0x10 | (p2 >> 4) | (p3 << 5), 0x08 | (p5 >> 5) | (p2 << 4), 0x04 | (p4 >> 6) | (p5 << 3);
    var b6, b7, b8 := 0x02 | (p7 >> 7) | (p4 << 2), 0x01 | (p7 << 1), p6;
    StoreThree(buf, pdst, b0, b1, b2);
    ghost var s1 := buf[..];
    StoreThree(buf, pdst + 3, b3, b4, b5);
    ghost var s2 := buf[..];
    StoreThree(buf, pdst + 6, b6, b7, b8);
    StoredNext(s0, s1, s2, pdst, [b0, b1, b2], [b3, b4, b5]);
    StoredNext(s0, s2, buf[..], pdst, [b0, b1, b2] + [b3, b4, b5], [b6, b7, b8]);
    assert [b0, b1, b2] + [b3, b4, b5] + [b6, b7, b8] == [b0, b1, b2, b3, b4, b5, b6, b7, b8];
  }

  method StoreThree(buf: array<bv8>, d: nat, b0: bv8, b1: bv8, b2: bv8)
    requires d + 3 <= buf.Length
    modifies buf
    ensures Stored(old(buf[..]), buf[..], d, [b0, b1, b2])
  {
    buf[d], buf[d + 1], buf[d + 2] := b0, b1, b2;
  }

  /** The payload loop of filling_spi_send_display_data2. */
  method PayloadBytewise(src: seq<bv8>, len: nat, buf: array<bv8>, off: nat)
    requires |src| == 4 * len && off + 9 * (len / 2) <= buf.Length
    modifies buf
    ensures Encodes(buf[off..off + 9 * (len / 2)], PixelWords(src, 2 * (len / 2)))
    ensures buf[..off] == old(buf[..off])
    ensures buf[off + 9 * (len / 2)..] == old(buf[off + 9 * (len / 2)..])
  {
    hide Encodes, GroupBytes, PixelGroup;
    var n := len / 2;
    NoPayload(buf[off..off], src);
    for i := 0 to n
      invariant Encodes(buf[off..off + 9 * i], PixelWords(src, 2 * i))
      invariant buf[..off] == old(buf[..off])
      invariant buf[off + 9 * n..] == old(buf[off + 9 * n..])
    {
      ghost var before := buf[..];
      assert before[off..off + 9 * i] == buf[off..off + 9 * i];
      var pdst, psrc := off + 9 * i, src[8 * i..8 * i + 8];
      StoreGroup(buf, pdst, psrc);
      PayloadGrows(src, before, buf[..], off, i);
      assert buf[off + 9 * n..] == buf[..][pdst + 9..][9 * (n - i - 1)..] == before[off + 9 * n..];
      assert buf[off..off + 9 * i + 9] == buf[..][off..off + 9 * i + 9];
    }
  }

  /** The body of the payload loop of filling_spi_send_display_data3. */
  method StoreGroupWordwise(buf: array<bv8>, pdst: nat, psrc: seq<bv8>)
    requires |psrc| == 8 && pdst + 9 <= buf.Length
    modifies buf
    ensures Stored(old(buf[..]), buf[..], pdst, GroupBytes(PixelGroup(psrc)))
  {
    hide GroupBytes, PixelGroup, BigEndian, PixelWord0, PixelWord1;
    var p0, p1, p2, p3 := psrc[0], psrc[1], psrc[2], psrc[3];
    var p4, p5, p6, p7 := psrc[4], psrc[5], psrc[6], psrc[7];
    assert psrc == [p0, p1, p2, p3, p4, p5, p6, p7];
    WordwiseGroup(p0, p1, p2, p3, p4, p5, p6, p7);
    ghost var s0 := buf[..];
    StoreSwappedPair(buf, pdst, PixelWord0(p0, p1, p2, p3), PixelWord1(p2, p4, p5, p7));
    ghost var s1 := buf[..];
    buf[pdst + 8] := p6;
    ghost var pair := BigEndian(PixelWord0(p0, p1, p2, p3)) + BigEndian(PixelWord1(p2, p4, p5, p7));
    StoredNext(s0, s1, buf[..], pdst, pair, [p6]);
  }

  /** The payload loop of filling_spi_send_display_data3. */
  method PayloadWordwise(src: seq<bv8>, len: nat, buf: array<bv8>, off: nat)
    requires |src| == 4 * len && off + 9 * (len / 2) <= buf.Length
    modifies buf
    ensures Encodes(buf[off..off + 9 * (len / 2)], PixelWords(src, 2 * (len / 2)))
    ensures buf[..off] == old(buf[..off])
    ensures buf[off + 9 * (len / 2)..] == old(buf[off + 9 * (len / 2)..])
  {
    hide Encodes, GroupBytes, PixelGroup;
    var n := len / 2;
    NoPayload(buf[off..off], src);
    for i := 0 to n
      invariant Encodes(buf[off..off + 9 * i], PixelWords(src, 2 * i))
      invariant buf[..off] == old(buf[..off])
      invariant buf[off + 9 * n..] == old(buf[off + 9 * n..])
    {
      ghost var before := buf[..];
      assert before[off..off + 9 * i] == buf[off..off + 9 * i];
      var pdst, psrc := off + 9 * i, src[8 * i..8 * i + 8];
      StoreGroupWordwise(buf, pdst, psrc);
      PayloadGrows(src, before, buf[..], off, i);
      assert buf[off + 9 * n..] == buf[..][pdst + 9..][9 * (n - i - 1)..] == before[off + 9 * n..];
      assert buf[off..off + 9 * i + 9] == buf[..][off..off + 9 * i + 9];
    }
  }

  // ---------- the whole transfer ----------

  /** fill_header_withnop1. */
  method FillHeaderWithNop1(x: bv32, y: bv32, dst: array<bv8>)
    requires dst.Length >= 18
    modifies dst
    ensures Encodes(dst[..18], HeaderWords0(BigEndian(x), BigEndian(y)) + HeaderWords1(BigEndian(y)))
    ensures dst[18..] == old(dst[18..])
  {
    hide Encodes, ByteOf, HeaderWord0, HeaderWord1, HeaderWord2, GroupBytes, Stored, LittleEndian;
    var x3, x2, x1, x0 := ByteOf(x, 3), ByteOf(x, 2), ByteOf(x, 1), ByteOf(x, 0);
    var y3, y2, y1, y0 := ByteOf(y, 3), ByteOf(y, 2), ByteOf(y, 1), ByteOf(y, 0);
    ghost var s0 := dst[..];
    StoreSwappedPair(dst, 0, HeaderWord0(x3, x2, x1), HeaderWord1(x1, x0, y3));
    ghost var s1 := dst[..];
    dst[8] := y2;
    StoredByte(s1, dst[..], 8, y2);
    StoredNext(s0, s1, dst[..], 0, BigEndian(HeaderWord0(x3, x2, x1)) + BigEndian(HeaderWord1(x1, x0, y3)), [y2]);
    ghost var s2 := dst[..];
    HeaderGroup0(x3, x2, x1, x0, y3, y2, y1, y0);
    FillHeaderGroup1(dst, y3, y2, y1, y0);
    HeaderEncodes(s0, s2, dst[..], [x3, x2, x1, x0], [y3, y2, y1, y0]);
    assert dst[..18] == dst[..][..18] && dst[18..] == dst[..][18..];
  }

  lemma StoredByte(before: seq<bv8>, after: seq<bv8>, off: nat, b: bv8)
    requires off < |before| && after == before[off := b]
    ensures Stored(before, after, off, [b])
  {
  }

  /** The second nine bytes of the header. */
  method FillHeaderGroup1(dst: array<bv8>, y3: bv8, y2: bv8, y1: bv8, y0: bv8)
    requires dst.Length >= 18
    modifies dst
    ensures Stored(old(dst[..]), dst[..], 9, GroupBytes(HeaderWords1([y3, y2, y1, y0])))
  {
    hide ByteOf, BigEndian, HeaderWord2, GroupBytes;
    ghost var s0 := dst[..];
    Store32(dst, 9, HeaderWord2(y1, y0));
    ghost var s1 := dst[..];
    assert dst[9..13] == s1[9..13];
    SwapStored32(dst, 9, HeaderWord2(y1, y0));
    ghost var s2 := dst[..];
    Store32(dst, 13, 0);
    ZeroBytes();
    ghost var s3 := dst[..];
    dst[17] := 0x2C;
    assert Stored(s0, s2, 9, BigEndian(HeaderWord2(y1, y0)));
    StoredNext(s0, s2, s3, 9, BigEndian(HeaderWord2(y1, y0)), [0, 0, 0, 0]);
    StoredNext(s0, s3, dst[..], 9, BigEndian(HeaderWord2(y1, y0)) + [0, 0, 0, 0], [0x2C]);
    HeaderGroup1(y3, y2, y1, y0);
  }

  lemma ZeroBytes()
    ensures LittleEndian(0) == [0, 0, 0, 0]
  {
  }

  lemma HeaderEncodes(s0: seq<bv8>, s2: seq<bv8>, s3: seq<bv8>, xs: seq<bv8>, ys: seq<bv8>)
    requires |xs| == |ys| == 4 && |s0| >= 18
    requires Stored(s0, s2, 0, GroupBytes(HeaderWords0(xs, ys)))
    requires Stored(s2, s3, 9, GroupBytes(HeaderWords1(ys)))
    ensures Encodes(s3[..18], HeaderWords0(xs, ys) + HeaderWords1(ys))
    ensures s3[18..] == s0[18..]
  {
    hide Encodes, GroupBytes, HeaderWords0, HeaderWords1;
    HeaderLength(xs, ys);
    var g0, g1 := GroupBytes(HeaderWords0(xs, ys)), GroupBytes(HeaderWords1(ys));
    GroupEncodes(HeaderWords0(xs, ys));
    GroupEncodes(HeaderWords1(ys));
    EncodesAppend(g0, HeaderWords0(xs, ys), g1, HeaderWords1(ys));
    StoredNext(s0, s2, s3, 0, g0, g1);
    assert s3[0..18] == s3[..18];
  }

  lemma HeaderLength(xs: seq<bv8>, ys: seq<bv8>)
    requires |xs| == |ys| == 4
    ensures |HeaderWords0(xs, ys)| == 8 && |HeaderWords1(ys)| == 8
  {
  }

  /** The words of a fast transfer of the first n 32-bit pixel words. */
  function FastWords(xs: seq<bv8>, ys: seq<bv8>, src: seq<bv8>, n: nat): (ws: seq<Word>)
    requires |xs| == |ys| == 4 && 4 * n <= |src|
    ensures |ws| == 16 + 4 * n
  {
    HeaderWords0(xs, ys) + HeaderWords1(ys) + PixelWords(src, n)
  }

  /** The padding of the header is all that distinguishes the fast transfer. */
  lemma FastWordsVisible(xs: seq<bv8>, ys: seq<bv8>, src: seq<bv8>, n: nat)
    requires |xs| == |ys| == 4 && 4 * n <= |src|
    ensures Visible(FastWords(xs, ys, src, n)) == DisplayWords(xs, ys, src, n)
  {
    hide Visible, Partner;
    var p := PixelWords(src, n);
    var nops := [NOP, NOP, NOP, NOP, NOP];
    var a := HeaderWords0(xs, ys) + [Data(ys[2]), Data(ys[3])];
    var b := [Command(0x2C)] + p;
    assert FastWords(xs, ys, src, n) == (a + nops) + b;
    VisibleAppend(a + nops, b);
    VisibleAppend(a, nops);
    VisibleOfNops(nops);
    VisibleOfVisible(a);
    VisibleOfVisible(b);
    assert a + [] + b == DisplayWords(xs, ys, src, n);
  }

  /** filling_spi_send_display_data3: what the display sees is the transfer of the pixels that form
      whole groups. */
  method FillingSpiSendDisplayData3(src: seq<bv8>, len: nat, x: bv32, y: bv32, sendBuf: array<bv8>)
    returns (ok: bool, spiSendLen: nat)
    requires |src| == 4 * len && (16 + len * 4 + 8) * 9 < 0x1_0000_0000
    requires sendBuf.Length == TX_BUF_MAX_LEN
    modifies sendBuf
    ensures spiSendLen == SendLength(24 + 4 * len)
    ensures ok <==> spiSendLen <= TX_BUF_MAX_LEN
    ensures !ok ==> sendBuf[..] == old(sendBuf[..])
    ensures ok ==> sendBuf[spiSendLen..] == old(sendBuf[spiSendLen..])
    ensures ok ==> Encodes(sendBuf[..spiSendLen], FastWords(BigEndian(x), BigEndian(y), src, 2 * (len / 2)))
    ensures ok ==>
      Visible(Decode(sendBuf[..spiSendLen])) == DisplayWords(BigEndian(x), BigEndian(y), src, 2 * (len / 2))
  {
    hide Encodes, Visible, Decode, HeaderWords0, HeaderWords1, DisplayWords, BigEndian, ByteOf;
    var n := SendLength(16 + len * 4 + 8);
    spiSendLen := n;
    if n == 0 || n > TX_BUF_MAX_LEN {
      return false, n;
    }
    ok := true;
    Clear(sendBuf, n);
    ghost var s0 := sendBuf[..];
    FillHeaderWithNop1(x, y, sendBuf);
    ghost var s1 := sendBuf[..];
    PayloadWordwise(src, len, sendBuf, 18);
    ghost var s2 := sendBuf[..];
    ghost var m := 18 + 9 * (len / 2);
    assert s1[..18] == sendBuf[..18] && s2[18..m] == sendBuf[18..m] && s2[m..] == s1[m..] && s1[18..] == s0[18..];
    assert s1[m..] == s0[m..] by { assert s1[m..] == s1[18..][m - 18..]; }
    TransferEncodes(s0, s2, BigEndian(x), BigEndian(y), src, len, n);
    assert sendBuf[..n] == s2[..n] && sendBuf[n..] == s2[m..][n - m..] == s0[n..];
    VisibleOfDecoded(sendBuf[..n], FastWords(BigEndian(x), BigEndian(y), src, 2 * (len / 2)));
    FastWordsVisible(BigEndian(x), BigEndian(y), src, 2 * (len / 2));
  }

  /** The fast transfer fits up to 76822 pixel words, so also for a whole screen. */
  lemma FastFits(len: nat)
    ensures SendLength(24 + 4 * len) <= TX_BUF_MAX_LEN <==> len <= 76822
  {
  }

  /** Header, payload and the cleared rest together. */
  lemma TransferEncodes(s0: seq<bv8>, s2: seq<bv8>, xs: seq<bv8>, ys: seq<bv8>, src: seq<bv8>, len: nat, n: nat)
    requires |xs| == |ys| == 4 && |src| == 4 * len && |s0| == |s2|
    requires var m := 18 + 9 * (len / 2);
      && m <= n <= |s2|
      && Encodes(s2[..18], HeaderWords0(xs, ys) + HeaderWords1(ys))
      && Encodes(s2[18..m], PixelWords(src, 2 * (len / 2)))
      && s2[m..] == s0[m..]
    requires forall i | 0 <= i < n :: s0[i] == 0
    ensures Encodes(s2[..n], FastWords(xs, ys, src, 2 * (len / 2)))
  {
    hide Encodes, HeaderWords0, HeaderWords1;
    var m := 18 + 9 * (len / 2);
    var header, payload, zeros := s2[..18], s2[18..m], s2[m..][..n - m];
    HeaderLength(xs, ys);
    EncodesAppend(header, HeaderWords0(xs, ys) + HeaderWords1(ys), payload, PixelWords(src, 2 * (len / 2)));
    EncodesPadded(header + payload, FastWords(xs, ys, src, 2 * (len / 2)), zeros);
    assert s2[..n] == header + payload + zeros;
  }

  /** The fast encoder refines the serial one: any buffer that the serial filler can leave and any that
      the fast filler can leave look the same to the display, exactly when the number of 32-bit
      pixel words is even.  (With an odd number, the fast encoder drops the last one.) */
  lemma FastRefinesSerial(xs: seq<bv8>, ys: seq<bv8>, src: seq<bv8>, len: nat, serial: seq<bv8>, fast: seq<bv8>)
    requires |xs| == |ys| == 4 && |src| == 4 * len
    requires Encodes(serial, DisplayWords(xs, ys, src, len) + [NOP])
    requires Encodes(fast, FastWords(xs, ys, src, 2 * (len / 2)))
    ensures Visible(Decode(fast)) == Visible(Decode(serial)) <==> len % 2 == 0
  {
    hide Encodes, Visible, Decode;
    TransferVisible(serial, xs, ys, src, len);
    VisibleOfDecoded(fast, FastWords(xs, ys, src, 2 * (len / 2)));
    FastWordsVisible(xs, ys, src, 2 * (len / 2));
  }

  /** The bytewise and the wordwise payload loop leave identical bytes: both leave the only bytes
      that carry the serial words. */
  lemma PayloadLoopsAgree(src: seq<bv8>, len: nat, bytewise: seq<bv8>, wordwise: seq<bv8>)
    requires |src| == 4 * len && |bytewise| == |wordwise| == 9 * (len / 2)
    requires Encodes(bytewise, PixelWords(src, 2 * (len / 2)))
    requires Encodes(wordwise, PixelWords(src, 2 * (len / 2)))
    ensures bytewise == wordwise
  {
    EncodingUnique(bytewise, wordwise, PixelWords(src, 2 * (len / 2)));
  }
}
