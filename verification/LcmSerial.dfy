/** The reference encoder: one 9-bit word at a time, at a running bit position
    (demo/perfdemo/perfdemo.c). */
module LcmSerial {
  import opened LcmWords
  import RingArithmetic

  // TX_BUF_MAX_LEN
  const TX_BUF_MAX_LEN := 240 * 320 * 4 + 240 * 320 * 4 / 8 + 128

  /** The two bytes a word is spread over: j is the position of its D/C bit in the first. */
  lemma SpreadBits(first: bv8, second: bv8, value: bv8, j: nat, k: nat)
    requires j < 7 && k < 16
    requires forall m | j < m < 8 :: !Bit(first, m)
    requires forall m | 0 <= m < 8 :: !Bit(second, m)
    ensures k < 8 ==> Bit(first | Shr(value, j + 1), k) == if k <= j then Bit(first, k) else Bit(value, k - j - 1)
    ensures k >= 8 ==> Bit(second | Shl(value, 7 - j), k - 8) == (k - 8 <= j && Bit(value, k - j - 1))
  {
    hide Bit, Shr, Shl;
    if k < 8 {
      BitOfOr(first, Shr(value, j + 1), k);
      BitOfShiftRight(value, j + 1, k);
    } else {
      BitOfOr(second, Shl(value, 7 - j), k - 8);
      BitOfShiftLeft(value, 7 - j, k - 8);
    }
  }

  lemma ExtendedStreamBit(ws: seq<Word>, w: Word, k: nat)
    ensures StreamBit(ws + [w], k) ==
      if k < 9 * |ws| then StreamBit(ws, k)
      else k < 9 * |ws| + 9 && WordBit(w, k - 9 * |ws|)
  {
    if k >= 9 * |ws| {
      assert k < 9 * |ws| + 9 ==> k / 9 == |ws| && k % 9 == k - 9 * |ws|;
    }
  }

  /** Writing a word changes only the two bytes it falls into; if these get the right
      bits, the buffer carries one more word. */
  lemma WordWritten(s: seq<bv8>, t: seq<bv8>, ws: seq<Word>, w: Word)
    requires Encodes(s, ws) && |s| == |t| && 9 * |ws| + 9 <= 8 * |s|
    requires var i := 9 * |ws| / 8; forall m | 0 <= m < |s| && m != i && m != i + 1 :: t[m] == s[m]
    requires var i := 9 * |ws| / 8;
      forall k: nat | i <= k / 8 <= i + 1 :: BitAt(t, k) == StreamBit(ws + [w], k)
    ensures Encodes(t, ws + [w])
  {
    var i := 9 * |ws| / 8;
    forall k | 0 <= k < 8 * |t|
      ensures BitAt(t, k) == StreamBit(ws + [w], k)
    {
      if k < 8 * i || k >= 8 * i + 16 {
        assert k / 8 != i && k / 8 != i + 1;
        assert BitAt(t, k) == BitAt(s, k) == StreamBit(ws, k);
        ExtendedStreamBit(ws, w, k);
      }
    }
  }

  /** The bits of the bytes at and after the write position, before the write. */
  lemma FreshBytes(s: seq<bv8>, ws: seq<Word>)
    requires Encodes(s, ws) && 9 * |ws| + 9 <= 8 * |s|
    ensures var i, j := 9 * |ws| / 8, 9 * |ws| % 8;
      && i + 1 < |s|
      && (forall m | j <= m < 8 :: !Bit(s[i], m))
      && var second := s[i + 1]; forall m | 0 <= m < 8 :: !Bit(second, m)
  {
    var i, j := 9 * |ws| / 8, 9 * |ws| % 8;
    forall m | j <= m < 8
      ensures !Bit(s[i], m)
    {
      assert BitAt(s, 8 * i + m) == StreamBit(ws, 8 * i + m);
    }
    var second := s[i + 1];
    forall m | 0 <= m < 8
      ensures !Bit(second, m)
    {
      assert BitAt(s, 8 * (i + 1) + m) == StreamBit(ws, 8 * (i + 1) + m);
    }
  }

  /** The byte of the D/C bit: a data word sets it, a command leaves it clear. */
  lemma FirstByteBits(b: bv8, j: nat, w: Word, m: nat)
    requires j < 8 && m < 8
    requires forall m | j <= m < 8 :: !Bit(b, m)
    ensures Bit(if w.Data? then b | Shr(0x80, j) else b, m) == if m < j then Bit(b, m) else m == j && w.Data?
  {
    hide Bit, Shr, Shl;
    BitOfOr(b, Shr(0x80, j), m);
    BitOfTop(j, m);
  }

  /** What the stream has in the two bytes that a word starting at bit j of the first falls into. */
  lemma PairStreamBit(ws: seq<Word>, w: Word, k: nat)
    requires 9 * |ws| / 8 <= k / 8 <= 9 * |ws| / 8 + 1
    ensures var j, m := 9 * |ws| % 8, k - 9 * |ws| / 8 * 8;
      StreamBit(ws + [w], k) ==
        if m < j then StreamBit(ws, k)
        else if m == j then w.Data?
        else m < j + 9 && Bit(w.value, m - j - 1)
  {
    hide Bit;
    ExtendedStreamBit(ws, w, k);
  }

  /** The two bytes the writers leave behind, for old bytes a and b. */
  function FirstByte(a: bv8, w: Word, j: nat): bv8
    requires j < 8
  {
    var first := if w.Data? then a | Shr(0x80, j) else a;
    if j == 7 then first else first | Shr(w.value, j + 1)
  }

  function SecondByte(b: bv8, w: Word, j: nat): bv8
    requires j < 8
  {
    if j == 7 then w.value else b | Shl(w.value, 7 - j)
  }

  lemma PairBits(a: bv8, b: bv8, w: Word, j: nat, m: nat)
    requires j < 8 && m < 16
    requires forall m | j <= m < 8 :: !Bit(a, m)
    requires forall m | 0 <= m < 8 :: !Bit(b, m)
    ensures (if m < 8 then Bit(FirstByte(a, w, j), m) else Bit(SecondByte(b, w, j), m - 8)) ==
      if m < j then Bit(a, m)
      else if m == j then w.Data?
      else m < j + 9 && Bit(w.value, m - j - 1)
  {
    hide Bit, Shr, Shl;
    var first := if w.Data? then a | Shr(0x80, j) else a;
    forall m | 0 <= m < 8
      ensures Bit(first, m) == if m < j then Bit(a, m) else m == j && w.Data?
    {
      FirstByteBits(a, j, w, m);
    }
    if j < 7 {
      SpreadBits(first, b, w.value, j, m);
    }
  }

  /** The pair of bytes after a word went in, whatever its position. */
  lemma PairWritten(s: seq<bv8>, t: seq<bv8>, ws: seq<Word>, w: Word, k: nat)
    requires Encodes(s, ws) && |s| == |t| && 9 * |ws| + 9 <= 8 * |s|
    requires var i, j := 9 * |ws| / 8, 9 * |ws| % 8;
      t[i] == FirstByte(s[i], w, j) && t[i + 1] == SecondByte(s[i + 1], w, j)
    requires 9 * |ws| / 8 <= k / 8 <= 9 * |ws| / 8 + 1
    ensures BitAt(t, k) == StreamBit(ws + [w], k)
  {
    hide Bit, FirstByte, SecondByte, StreamBit;
    var i, j := 9 * |ws| / 8, 9 * |ws| % 8;
    FreshBytes(s, ws);
    PairStreamBit(ws, w, k);
    PairBits(s[i], s[i + 1], w, j, k - 8 * i);
    if k - 8 * i < j {
      assert BitAt(s, k) == StreamBit(ws, k);
    }
  }

  /** Any store that leaves the right pair of bytes, and nothing else changed, appends the word. */
  lemma WordStored(s: seq<bv8>, t: seq<bv8>, ws: seq<Word>, w: Word)
    requires Encodes(s, ws) && |s| == |t| && 9 * |ws| + 9 <= 8 * |s|
    requires var i, j := 9 * |ws| / 8, 9 * |ws| % 8;
      && t[i] == FirstByte(s[i], w, j) && t[i + 1] == SecondByte(s[i + 1], w, j)
      && forall m | 0 <= m < |s| && m != i && m != i + 1 :: t[m] == s[m]
    ensures Encodes(t, ws + [w])
  {
    hide Bit, FirstByte, SecondByte, StreamBit;
    var i := 9 * |ws| / 8;
    forall k: nat | i <= k / 8 <= i + 1
      ensures BitAt(t, k) == StreamBit(ws + [w], k)
    {
      PairWritten(s, t, ws, w, k);
    }
    WordWritten(s, t, ws, w);
  }

  /** The part that both writers share: the byte, behind its D/C bit at bit j - 1 (mod 8) of byte i. */
  method PutByte(value: bv8, buf: array<bv8>, i: nat, j: nat)
    requires i + 1 < buf.Length && j < 8
    modifies buf
    ensures buf[i] == if j == 0 then old(buf[i]) else old(buf[i]) | Shr(value, j)
    ensures buf[i + 1] == if j == 0 then value else old(buf[i + 1]) | Shl(value, 8 - j)
    ensures forall m | 0 <= m < buf.Length && m != i && m != i + 1 :: buf[m] == old(buf[m])
  {
    hide Shr, Shl;
    if j == 0 {
      buf[i + 1] := value;
    } else {
      buf[i] := buf[i] | Shr(value, j);
      buf[i + 1] := buf[i + 1] | Shl(value, 8 - j);
    }
  }

  /** A word that starts in byte i ends in the next one. */
  lemma WordSpan(bitPos: nat)
    ensures var i, j := bitPos / 8, bitPos % 8;
      && bitPos == 8 * i + j && (bitPos + 9 + 7) / 8 == i + 2
      && (j + 1) % 8 == if j == 7 then 0 else j + 1
  {
  }

  /** write_lcm_command: the D/C bit is left as it is (0 in a cleared buffer).  The first n bytes of
      the buffer carry the words so far; the rest of it is not looked at and not touched. */
  method WriteLcmCommand(lcmCmd: bv8, buf: array<bv8>, bitPos: nat, n: nat, ghost ws: seq<Word>) returns (newPos: nat)
    requires n <= buf.Length && bitPos == 9 * |ws| && bitPos + 9 <= 8 * n
    requires Encodes(buf[..n], ws)
    modifies buf
    ensures newPos == bitPos + 9
    ensures Encodes(buf[..n], ws + [Command(lcmCmd)])
    ensures buf[n..] == old(buf[n..])
    ensures forall m | 0 <= m < buf.Length && (m < bitPos / 8 || m >= (newPos + 7) / 8) :: buf[m] == old(buf[m])
  {
    hide Encodes, Bit, Shr, Shl;
    ghost var before := buf[..n];
    WordSpan(bitPos);
    var i, j := bitPos / 8, bitPos % 8;
    j := (j + 1) % 8;
    PutByte(lcmCmd, buf, i, j);
    newPos := bitPos + 9;
    WordStored(before, buf[..n], ws, Command(lcmCmd));
  }

  /** write_lcm_data: sets the D/C bit, then writes the byte. */
  method WriteLcmData(lcmData: bv8, buf: array<bv8>, bitPos: nat, n: nat, ghost ws: seq<Word>) returns (newPos: nat)
    requires n <= buf.Length && bitPos == 9 * |ws| && bitPos + 9 <= 8 * n
    requires Encodes(buf[..n], ws)
    modifies buf
    ensures newPos == bitPos + 9
    ensures Encodes(buf[..n], ws + [Data(lcmData)])
    ensures buf[n..] == old(buf[n..])
    ensures forall m | 0 <= m < buf.Length && (m < bitPos / 8 || m >= (newPos + 7) / 8) :: buf[m] == old(buf[m])
  {
    hide Encodes, Bit, Shr, Shl;
    ghost var before := buf[..n];
    WordSpan(bitPos);
    var i, j := bitPos / 8, bitPos % 8;
    buf[i] := buf[i] | Shr(0x80, j);
    j := (j + 1) % 8;
    PutByte(lcmData, buf, i, j);
    newPos := bitPos + 9;
    WordStored(before, buf[..n], ws, Data(lcmData));
  }

  /** Any sequence of writes into a cleared buffer: the words, then zeros.  What was written is what a
      receiver decodes, whatever the bit alignment each word had. */
  method WriteWords(ws: seq<Word>, buf: array<bv8>, n: nat) returns (bitPos: nat)
    requires n <= buf.Length && 9 * |ws| <= 8 * n
    requires forall i | 0 <= i < n :: buf[i] == 0
    modifies buf
    ensures bitPos == 9 * |ws|
    ensures Encodes(buf[..n], ws)
    ensures |Decode(buf[..n])| >= |ws| && Decode(buf[..n])[..|ws|] == ws
    ensures buf[n..] == old(buf[n..])
  {
    hide Encodes, Bit, Decode;
    bitPos := 0;
    ZerosEncodeNothing(buf[..n]);
    assert ws[..0] == [];
    for i := 0 to |ws|
      invariant bitPos == 9 * i
      invariant Encodes(buf[..n], ws[..i])
      invariant buf[n..] == old(buf[n..])
    {
      if ws[i].Command? {
        bitPos := WriteLcmCommand(ws[i].value, buf, bitPos, n, ws[..i]);
      } else {
        bitPos := WriteLcmData(ws[i].value, buf, bitPos, n, ws[..i]);
      }
      assert ws[..i] + [ws[i]] == ws[..i + 1];
    }
    assert ws[..|ws|] == ws;
    DecodeEncodes(buf[..n], ws);
  }

  // ---------- the whole transfer ----------

  /** Byte i of a 32-bit value in memory, least significant first. */
  function ByteOf(x: bv32, i: nat): bv8
    requires i < 4
  {
    match i
    case 0 => (x & 0xff) as bv8
    case 1 => ((x >> 8) & 0xff) as bv8
    case 2 => ((x >> 16) & 0xff) as bv8
    case 3 => ((x >> 24) & 0xff) as bv8
  }

  function BigEndian(x: bv32): (bs: seq<bv8>)
    ensures |bs| == 4
  {
    [ByteOf(x, 3), ByteOf(x, 2), ByteOf(x, 1), ByteOf(x, 0)]
  }

  /** A 32-bit read of little-endian memory. */
  function Load32(b0: bv8, b1: bv8, b2: bv8, b3: bv8): bv32
  {
    (b0 as bv32) | (b1 as bv32 << 8) | (b2 as bv32 << 16) | (b3 as bv32 << 24)
  }

  lemma BytesOfLoad(b0: bv8, b1: bv8, b2: bv8, b3: bv8)
    ensures BigEndian(Load32(b0, b1, b2, b3)) == [b3, b2, b1, b0]
  {
  }

  function DataWords(bs: seq<bv8>): seq<Word>
  {
    seq(|bs|, i requires 0 <= i < |bs| => Data(bs[i]))
  }

  /** The other byte of a byte pair. */
  function Partner(i: nat): nat
  {
    if i % 2 == 0 then i + 1 else i - 1
  }

  /** The first n 32-bit pixel words leave as bytes 1, 0, 3, 2 of each: every byte pair swapped. */
  function PixelWords(src: seq<bv8>, n: nat): (ws: seq<Word>)
    requires 4 * n <= |src|
    ensures |ws| == 4 * n
  {
    seq(4 * n, i requires 0 <= i < 4 * n => Data(src[Partner(i)]))
  }

  /** What the display has to be sent: column address, page address (as the given bytes), memory write,
      then n words of pixels. */
  function DisplayWords(xs: seq<bv8>, ys: seq<bv8>, src: seq<bv8>, n: nat): (ws: seq<Word>)
    requires 4 * n <= |src|
    ensures |ws| == 3 + |xs| + |ys| + 4 * n
  {
    [Command(0x2A)] + DataWords(xs) + [Command(0x2B)] + DataWords(ys) + [Command(0x2C)] + PixelWords(src, n)
  }

  lemma ZerosEncodeNothing(s: seq<bv8>)
    requires forall i | 0 <= i < |s| :: s[i] == 0
    ensures Encodes(s, [])
  {
    forall k | 0 <= k < 8 * |s|
      ensures BitAt(s, k) == StreamBit([], k)
    {
      ZeroBit(k % 8);
    }
  }

  /** No word of a transfer is a no-operation, so all of it is visible. */
  lemma DisplayWordsVisible(xs: seq<bv8>, ys: seq<bv8>, src: seq<bv8>, n: nat)
    requires 4 * n <= |src|
    ensures Visible(DisplayWords(xs, ys, src, n)) == DisplayWords(xs, ys, src, n)
  {
    VisibleOfVisible(DisplayWords(xs, ys, src, n));
  }

  /** The length field computed by the fillers: bytes needed for the given number of 9-bit words. */
  function SendLength(words: nat): (n: nat)
    ensures 9 * words <= 8 * n < 9 * words + 8
  {
    var i := words * 9;
    if i % 8 != 0 then i / 8 + 1 else i / 8
  }

  method Clear(buf: array<bv8>, n: nat)
    requires n <= buf.Length
    modifies buf
    ensures forall i | 0 <= i < n :: buf[i] == 0
    ensures buf[n..] == old(buf[n..])
  {
    for i := 0 to n
      invariant forall m | 0 <= m < i :: buf[m] == 0
      invariant buf[n..] == old(buf[n..])
    {
      buf[i] := 0;
    }
  }

  method GetU8FromU32(buf: array<bv8>, inData: bv32)
    requires buf.Length == 4
    modifies buf
    ensures buf[..] == BigEndian(inData)
  {
    buf[0] := ((inData >> 24) & 0xff) as bv8;
    buf[1] := ((inData >> 16) & 0xff) as bv8;
    buf[2] := ((inData >> 8) & 0xff) as bv8;
    buf[3] := (inData & 0xff) as bv8;
  }

  /** The four address bytes that follow a command. */
  method WriteU32(temp: array<bv8>, buf: array<bv8>, bitPos: nat, n: nat, ghost ws: seq<Word>) returns (newPos: nat)
    requires temp.Length == 4 && temp != buf
    requires n <= buf.Length && bitPos == 9 * |ws| && bitPos + 36 <= 8 * n
    requires Encodes(buf[..n], ws)
    modifies buf
    ensures newPos == bitPos + 36
    ensures Encodes(buf[..n], ws + DataWords(temp[..]))
    ensures buf[n..] == old(buf[n..])
  {
    hide Encodes;
    newPos := bitPos;
    assert ws + DataWords(temp[..0]) == ws;
    for i := 0 to 4
      invariant newPos == bitPos + 9 * i
      invariant Encodes(buf[..n], ws + DataWords(temp[..i]))
      invariant buf[n..] == old(buf[n..])
    {
      newPos := WriteLcmData(temp[i], buf, newPos, n, ws + DataWords(temp[..i]));
      assert ws + DataWords(temp[..i]) + [Data(temp[i])] == ws + DataWords(temp[..i + 1]);
    }
    assert temp[..4] == temp[..];
  }

  /** The two address commands and the memory-write command. */
  method WriteHeader(temp: array<bv8>, x: bv32, y: bv32, buf: array<bv8>, n: nat) returns (bPos: nat)
    requires temp.Length == 4 && temp != buf
    requires n <= buf.Length && 99 <= 8 * n && Encodes(buf[..n], [])
    modifies temp, buf
    ensures bPos == 99
    ensures Encodes(buf[..n], DisplayWords(BigEndian(x), BigEndian(y), [], 0))
    ensures buf[n..] == old(buf[n..])
  {
    hide Encodes, BigEndian;
    ghost var ws := [];
    bPos := WriteLcmCommand(0x2A, buf, 0, n, ws);
    ws := ws + [Command(0x2A)];
    GetU8FromU32(temp, x);
    bPos := WriteU32(temp, buf, bPos, n, ws);
    ws := ws + DataWords(temp[..]);
    bPos := WriteLcmCommand(0x2B, buf, bPos, n, ws);
    ws := ws + [Command(0x2B)];
    GetU8FromU32(temp, y);
    bPos := WriteU32(temp, buf, bPos, n, ws);
    ws := ws + DataWords(temp[..]);
    bPos := WriteLcmCommand(0x2C, buf, bPos, n, ws);
    ws := ws + [Command(0x2C)];
    assert ws == DisplayWords(BigEndian(x), BigEndian(y), [], 0);
  }

  /** One pixel pair: bytes 2, 3, 0, 1 of its big-endian form. */
  method WritePixel(temp: array<bv8>, src: seq<bv8>, i: nat, buf: array<bv8>, bitPos: nat, n: nat, ghost ws: seq<Word>)
    returns (bPos: nat)
    requires temp.Length == 4 && temp != buf
    requires 4 * i + 4 <= |src|
    requires n <= buf.Length && bitPos == 9 * |ws| && bitPos + 36 <= 8 * n
    requires Encodes(buf[..n], ws)
    modifies temp, buf
    ensures bPos == bitPos + 36
    ensures Encodes(buf[..n], ws + DataWords([src[4 * i + 1], src[4 * i], src[4 * i + 3], src[4 * i + 2]]))
    ensures buf[n..] == old(buf[n..])
  {
    hide Encodes, BigEndian, Load32;
    GetU8FromU32(temp, Load32(src[4 * i], src[4 * i + 1], src[4 * i + 2], src[4 * i + 3]));
    BytesOfLoad(src[4 * i], src[4 * i + 1], src[4 * i + 2], src[4 * i + 3]);
    ghost var t := temp[..];
    assert temp[0] == t[0] && temp[1] == t[1] && temp[2] == t[2] && temp[3] == t[3];
    bPos := WriteLcmData(temp[2], buf, bitPos, n, ws);
    bPos := WriteLcmData(temp[3], buf, bPos, n, ws + [Data(t[2])]);
    bPos := WriteLcmData(temp[0], buf, bPos, n, ws + [Data(t[2])] + [Data(t[3])]);
    bPos := WriteLcmData(temp[1], buf, bPos, n, ws + [Data(t[2])] + [Data(t[3])] + [Data(t[0])]);
    assert ws + [Data(t[2])] + [Data(t[3])] + [Data(t[0])] + [Data(t[1])]
        == ws + DataWords([src[4 * i + 1], src[4 * i], src[4 * i + 3], src[4 * i + 2]]);
  }

  lemma SameParity(m: nat, i: nat)
    ensures (2 * m + i) % 2 == i % 2
  {
    RingArithmetic.QuotientOf(2 * m + i, 2, m + i / 2, i % 2);
  }

  lemma PixelsPrefix(src: seq<bv8>, m: nat, n: nat)
    requires m <= n && 4 * n <= |src|
    ensures PixelWords(src, n)[..4 * m] == PixelWords(src, m)
  {
  }

  /** The four bytes of pixel word i. */
  lemma PartnersOfFour(i: nat)
    ensures Partner(4 * i) == 4 * i + 1 && Partner(4 * i + 1) == 4 * i
    ensures Partner(4 * i + 2) == 4 * i + 3 && Partner(4 * i + 3) == 4 * i + 2
  {
    SameParity(2 * i, 0);
    SameParity(2 * i, 1);
    SameParity(2 * i, 2);
    SameParity(2 * i, 3);
  }

  /** One more pixel word at the end of a transfer. */
  lemma DisplayWordsGrow(xs: seq<bv8>, ys: seq<bv8>, src: seq<bv8>, i: nat)
    requires 4 * i + 4 <= |src|
    ensures DisplayWords(xs, ys, src, i + 1) ==
      DisplayWords(xs, ys, src, i) + DataWords([src[4 * i + 1], src[4 * i], src[4 * i + 3], src[4 * i + 2]])
  {
    hide Partner;
    PartnersOfFour(i);
    PixelsPrefix(src, i, i + 1);
    var all, last := PixelWords(src, i + 1), DataWords([src[4 * i + 1], src[4 * i], src[4 * i + 3], src[4 * i + 2]]);
    assert all[4 * i..] == last;
    assert all == all[..4 * i] + all[4 * i..];
  }

  /** The transfer word by word: the three commands, the address bytes, and the bytes of each pixel word pairwise
      swapped. */
  lemma DisplayWordsAt(xs: seq<bv8>, ys: seq<bv8>, src: seq<bv8>, n: nat, i: nat)
    requires |xs| == |ys| == 4 && 4 * n <= |src| && i < n
    ensures var words := DisplayWords(xs, ys, src, n);
      && words[0] == Command(0x2A) && words[5] == Command(0x2B) && words[10] == Command(0x2C)
      && (forall j | 0 <= j < 4 :: words[1 + j] == Data(xs[j]) && words[6 + j] == Data(ys[j]))
      && words[11 + 4 * i..15 + 4 * i] ==
           [Data(src[4 * i + 1]), Data(src[4 * i]), Data(src[4 * i + 3]), Data(src[4 * i + 2])]
  {
    hide Partner;
    PartnersOfFour(i);
    assert DisplayWords(xs, ys, src, n)[11..] == PixelWords(src, n);
    assert DisplayWords(xs, ys, src, n)[11 + 4 * i..15 + 4 * i] == PixelWords(src, n)[4 * i..4 * i + 4];
  }

  /** The serial transfer fits the send buffer up to 76825 pixel words; a screen of 240 times 320 has 76800. */
  lemma SerialFits(len: nat)
    ensures SendLength(12 + 4 * len) <= TX_BUF_MAX_LEN <==> len <= 76825
  {
  }

  /** A closing no-operation does not change what the display sees. */
  lemma TransferVisible(s: seq<bv8>, xs: seq<bv8>, ys: seq<bv8>, src: seq<bv8>, n: nat)
    requires 4 * n <= |src|
    requires Encodes(s, DisplayWords(xs, ys, src, n) + [NOP])
    ensures Visible(Decode(s)) == DisplayWords(xs, ys, src, n)
  {
    hide Encodes, Decode, DisplayWords;
    VisibleOfDecoded(s, DisplayWords(xs, ys, src, n) + [NOP]);
    DisplayWordsVisible(xs, ys, src, n);
    VisibleAppend(DisplayWords(xs, ys, src, n), [NOP]);
    VisibleOfNops([NOP]);
  }

  lemma NoPixels(xs: seq<bv8>, ys: seq<bv8>, src: seq<bv8>)
    ensures DisplayWords(xs, ys, src, 0) == DisplayWords(xs, ys, [], 0)
  {
  }

  /** filling_spi_send_display_data: src is the memory behind data_buf, len its size in 32-bit words.
      Fails exactly when the transfer does not fit the send buffer. */
  method FillingSpiSendDisplayData(src: seq<bv8>, len: nat, x: bv32, y: bv32, sendBuf: array<bv8>)
    returns (ok: bool, spiSendLen: nat)
    requires |src| == 4 * len && (12 + len * 4) * 9 < 0x1_0000_0000
    requires sendBuf.Length == TX_BUF_MAX_LEN
    modifies sendBuf
    ensures spiSendLen == SendLength(12 + 4 * len)
    ensures ok <==> spiSendLen <= TX_BUF_MAX_LEN
    ensures !ok ==> sendBuf[..] == old(sendBuf[..])
    ensures ok ==> sendBuf[spiSendLen..] == old(sendBuf[spiSendLen..])
    ensures ok ==> Encodes(sendBuf[..spiSendLen], DisplayWords(BigEndian(x), BigEndian(y), src, len) + [NOP])
    ensures ok ==> Visible(Decode(sendBuf[..spiSendLen])) == DisplayWords(BigEndian(x), BigEndian(y), src, len)
  {
    hide Encodes, Visible, BigEndian, ByteOf, Bit, Decode, DisplayWords, StreamBit;
    var n := SendLength(12 + len * 4);
    spiSendLen := n;
    if n == 0 || n > TX_BUF_MAX_LEN {
      return false, n;
    }
    ok := true;
    Clear(sendBuf, n);
    ZerosEncodeNothing(sendBuf[..n]);
    var temp := new bv8[4];
    var bPos := WriteHeader(temp, x, y, sendBuf, n);
    NoPixels(BigEndian(x), BigEndian(y), src);

    for i := 0 to len
      invariant bPos == 9 * (11 + 4 * i)
      invariant Encodes(sendBuf[..n], DisplayWords(BigEndian(x), BigEndian(y), src, i))
      invariant sendBuf[n..] == old(sendBuf[n..])
    {
      bPos := WritePixel(temp, src, i, sendBuf, bPos, n, DisplayWords(BigEndian(x), BigEndian(y), src, i));
      DisplayWordsGrow(BigEndian(x), BigEndian(y), src, i);
    }
    bPos := WriteLcmCommand(0x00, sendBuf, bPos, n, DisplayWords(BigEndian(x), BigEndian(y), src, len));
    TransferVisible(sendBuf[..n], BigEndian(x), BigEndian(y), src, len);
  }
}
