/** The 9-bit stream of the display's serial link: words, their bits, and what
    it means for a byte buffer to carry a sequence of words.  Bits are numbered
    from the most significant bit of byte 0. */
module LcmWords {

  /** One 9-bit word: the D/C bit (0 for a command, 1 for data), then a byte. */
  datatype Word = Command(value: bv8) | Data(value: bv8)

  const NOP := Command(0)

  /** Bit k of a byte, counted from the most significant one. */
  function Bit(b: bv8, k: nat): bool
    requires k < 8
  {
    b & Mask(k) != 0
  }

  function Mask(k: nat): bv8
    requires k < 8
  {
    match k
    case 0 => 0x80
    case 1 => 0x40
    case 2 => 0x20
    case 3 => 0x10
    case 4 => 0x08
    case 5 => 0x04
    case 6 => 0x02
    case 7 => 0x01
  }

  function BitAt(s: seq<bv8>, k: nat): bool
    requires k < 8 * |s|
  {
    Bit(s[k / 8], k % 8)
  }

  function WordBit(w: Word, k: nat): bool
    requires k < 9
  {
    if k == 0 then w.Data? else Bit(w.value, k - 1)
  }

  /** Bit k of the concatenated words; every bit after the last word is 0. */
  function StreamBit(ws: seq<Word>, k: nat): bool
  {
    k < 9 * |ws| && WordBit(ws[k / 9], k % 9)
  }

  /** The buffer carries exactly these words from its first bit on, and zeros after them. */
  ghost predicate Encodes(s: seq<bv8>, ws: seq<Word>)
  {
    && 9 * |ws| <= 8 * |s|
    && forall k | 0 <= k < 8 * |s| :: BitAt(s, k) == StreamBit(ws, k)
  }

  // ---------- decoding ----------

  /** The byte with the given bits, the most significant first. */
  function FromBits(bits: seq<bool>): bv8
  {
    if bits == [] then 0
    else (FromBits(bits[..|bits| - 1]) << 1) | (if bits[|bits| - 1] then 1 else 0)
  }

  function BitsFrom(s: seq<bv8>, p: nat): seq<bool>
    requires p + 8 <= 8 * |s|
  {
    seq(8, k requires 0 <= k < 8 => BitAt(s, p + k))
  }

  function WordAt(s: seq<bv8>, p: nat): Word
    requires p + 9 <= 8 * |s|
  {
    var b := FromBits(BitsFrom(s, p + 1));
    if BitAt(s, p) then Data(b) else Command(b)
  }

  /** What a receiver reads: all the complete 9-bit words of the buffer. */
  function Decode(s: seq<bv8>): (ws: seq<Word>)
  {
    seq(8 * |s| / 9, i requires 0 <= i < 8 * |s| / 9 => WordAt(s, 9 * i))
  }

  /** The words that mean something to the display: command 0x00 is its no-operation. */
  function Visible(ws: seq<Word>): seq<Word>
  {
    if ws == [] then []
    else if ws[0] == NOP then Visible(ws[1..])
    else [ws[0]] + Visible(ws[1..])
  }

  lemma LowBitApart(b: bv8)
    ensures b == ((b >> 1) << 1) | (if Bit(b, 7) then 1 else 0)
  {
  }

  /** The first n bits of a byte make up the byte shifted down. */
  lemma {:induction false} FromLeadingBits(b: bv8, bits: seq<bool>)
    requires |bits| <= 8
    requires forall k | 0 <= k < |bits| :: bits[k] == Bit(b, k)
    ensures FromBits(bits) == ShiftedRight(b, 8 - |bits|)
  {
    hide Bit;
    var n := |bits|;
    if n == 0 {
      AllShiftedOut(b);
    } else {
      FromLeadingBits(b, bits[..n - 1]);
      BitOfShiftedRight(b, 8 - n, 7);
      LowBitApart(ShiftedRight(b, 8 - n));
    }
  }

  lemma AllShiftedOut(b: bv8)
    ensures ShiftedRight(b, 8) == 0
  {
    ShiftRightIsRepeated(b, 8);
  }

  lemma FromBitsOfByte(b: bv8, bits: seq<bool>)
    requires |bits| == 8
    requires forall k | 0 <= k < 8 :: bits[k] == Bit(b, k)
    ensures FromBits(bits) == b
  {
    FromLeadingBits(b, bits);
  }

  /** Two bytes with the same bits are the same byte. */
  lemma BitsDetermineByte(a: bv8, b: bv8)
    requires forall k | 0 <= k < 8 :: Bit(a, k) == Bit(b, k)
    ensures a == b
  {
    hide FromBits;
    var bits := seq(8, k requires 0 <= k < 8 => Bit(a, k));
    FromBitsOfByte(a, bits);
    FromBitsOfByte(b, bits);
  }

  /** A buffer of a given length that carries given words is unique. */
  lemma EncodingUnique(s: seq<bv8>, t: seq<bv8>, ws: seq<Word>)
    requires Encodes(s, ws) && Encodes(t, ws) && |s| == |t|
    ensures s == t
  {
    forall i | 0 <= i < |s|
      ensures s[i] == t[i]
    {
      forall k | 0 <= k < 8
        ensures Bit(s[i], k) == Bit(t[i], k)
      {
        assert BitAt(s, 8 * i + k) == BitAt(t, 8 * i + k);
      }
      BitsDetermineByte(s[i], t[i]);
    }
  }

  /** The word that starts at a given bit, when the stream carries w there. */
  lemma WordAtIs(s: seq<bv8>, p: nat, w: Word)
    requires p + 9 <= 8 * |s|
    requires forall k | p <= k < p + 9 :: BitAt(s, k) == WordBit(w, k - p)
    ensures WordAt(s, p) == w
  {
    hide FromBits, Bit;
    assert BitAt(s, p) == WordBit(w, 0);
    var bits := BitsFrom(s, p + 1);
    forall k | 0 <= k < 8
      ensures bits[k] == Bit(w.value, k)
    {
      assert BitAt(s, p + 1 + k) == WordBit(w, k + 1);
    }
    FromBitsOfByte(w.value, bits);
  }

  /** Decoding a buffer gives back the words it carries, at every bit alignment,
      and after them only no-operations. */
  lemma DecodeEncodes(s: seq<bv8>, ws: seq<Word>)
    requires Encodes(s, ws)
    ensures |ws| <= |Decode(s)|
    ensures Decode(s)[..|ws|] == ws
    ensures forall i | |ws| <= i < |Decode(s)| :: Decode(s)[i] == NOP
  {
    forall i | 0 <= i < |Decode(s)|
      ensures Decode(s)[i] == if i < |ws| then ws[i] else NOP
    {
      var w := if i < |ws| then ws[i] else NOP;
      forall k | 9 * i <= k < 9 * i + 9
        ensures BitAt(s, k) == WordBit(w, k - 9 * i)
      {
        assert BitAt(s, k) == StreamBit(ws, k);
        assert k / 9 == i && k % 9 == k - 9 * i;
        if i >= |ws| && k > 9 * i {
          ZeroBit(k - 9 * i - 1);
        }
      }
      WordAtIs(s, 9 * i, w);
    }
  }

  lemma ZeroBit(k: nat)
    requires k < 8
    ensures !Bit(0, k)
  {
  }

  lemma {:induction false} VisibleAppend(a: seq<Word>, b: seq<Word>)
    ensures Visible(a + b) == Visible(a) + Visible(b)
  {
    if a == [] {
      assert a + b == b;
    } else {
      assert (a + b)[0] == a[0] && (a + b)[1..] == a[1..] + b;
      VisibleAppend(a[1..], b);
    }
  }

  lemma {:induction false} VisibleOfNops(ws: seq<Word>)
    requires forall i | 0 <= i < |ws| :: ws[i] == NOP
    ensures Visible(ws) == []
  {
    if ws != [] {
      VisibleOfNops(ws[1..]);
    }
  }

  lemma {:induction false} VisibleOfVisible(ws: seq<Word>)
    requires forall i | 0 <= i < |ws| :: ws[i] != NOP
    ensures Visible(ws) == ws
  {
    if ws != [] {
      VisibleOfVisible(ws[1..]);
    }
  }

  /** What the display sees of a buffer is what it would see of the words it carries. */
  lemma VisibleOfDecoded(s: seq<bv8>, ws: seq<Word>)
    requires Encodes(s, ws)
    ensures Visible(Decode(s)) == Visible(ws)
  {
    DecodeEncodes(s, ws);
    var d := Decode(s);
    assert d == d[..|ws|] + d[|ws|..];
    VisibleAppend(d[..|ws|], d[|ws|..]);
    VisibleOfNops(d[|ws|..]);
  }

  // ---------- bits of shifted and combined bytes ----------

  /** The byte shifts of the encoders, truncated to the byte. */
  function Shr(b: bv8, j: nat): bv8
    requires j <= 8
  {
    b >> j
  }

  function Shl(b: bv8, j: nat): bv8
    requires j <= 8
  {
    b << j
  }

  lemma BitOfOr(a: bv8, b: bv8, k: nat)
    requires k < 8
    ensures Bit(a | b, k) == (Bit(a, k) || Bit(b, k))
  {
  }

  /** Shifting by one place, repeated. */
  ghost function ShiftedRight(b: bv8, j: nat): bv8
  {
    if j == 0 then b else ShiftedRight(b, j - 1) >> 1
  }

  ghost function ShiftedLeft(b: bv8, j: nat): bv8
  {
    if j == 0 then b else ShiftedLeft(b, j - 1) << 1
  }

  lemma ShiftRightByOne(b: bv8, k: nat)
    requires k < 8
    ensures Bit(b >> 1, k) == (k >= 1 && Bit(b, k - 1))
  {
    match k
    case 0 => case 1 => case 2 => case 3 => case 4 => case 5 => case 6 => case 7 =>
  }

  lemma ShiftLeftByOne(b: bv8, k: nat)
    requires k < 8
    ensures Bit(b << 1, k) == (k < 7 && Bit(b, k + 1))
  {
    match k
    case 0 => case 1 => case 2 => case 3 => case 4 => case 5 => case 6 => case 7 =>
  }

  lemma {:induction false} BitOfShiftedRight(b: bv8, j: nat, k: nat)
    requires k < 8
    ensures Bit(ShiftedRight(b, j), k) == (k >= j && Bit(b, k - j))
  {
    hide Bit;
    if j > 0 {
      ShiftRightByOne(ShiftedRight(b, j - 1), k);
      if k > 0 {
        BitOfShiftedRight(b, j - 1, k - 1);
      }
    }
  }

  lemma {:induction false} BitOfShiftedLeft(b: bv8, j: nat, k: nat)
    requires k < 8
    ensures Bit(ShiftedLeft(b, j), k) == (k + j < 8 && Bit(b, k + j))
  {
    hide Bit;
    if j > 0 {
      ShiftLeftByOne(ShiftedLeft(b, j - 1), k);
      if k < 7 {
        BitOfShiftedLeft(b, j - 1, k + 1);
      }
    }
  }

  lemma ShiftRightIsRepeated(b: bv8, j: nat)
    requires j <= 8
    ensures Shr(b, j) == ShiftedRight(b, j)
  {
    match j
    case 0 => case 1 => case 2 => case 3 => case 4 => case 5 => case 6 => case 7 => case 8 =>
  }

  lemma ShiftLeftIsRepeated(b: bv8, j: nat)
    requires j <= 8
    ensures Shl(b, j) == ShiftedLeft(b, j)
  {
    match j
    case 0 => case 1 => case 2 => case 3 => case 4 => case 5 => case 6 => case 7 => case 8 =>
  }

  lemma BitOfShiftRight(b: bv8, j: nat, k: nat)
    requires j <= 8 && k < 8
    ensures Bit(Shr(b, j), k) == (k >= j && Bit(b, k - j))
  {
    hide Bit, Shr;
    ShiftRightIsRepeated(b, j);
    BitOfShiftedRight(b, j, k);
  }

  lemma BitOfShiftLeft(b: bv8, j: nat, k: nat)
    requires j <= 8 && k < 8
    ensures Bit(Shl(b, j), k) == (k + j < 8 && Bit(b, k + j))
  {
    hide Bit, Shl;
    ShiftLeftIsRepeated(b, j);
    BitOfShiftedLeft(b, j, k);
  }

  lemma BitOfTop(j: nat, k: nat)
    requires j < 8 && k < 8
    ensures Bit(Shr(0x80, j), k) == (k == j)
  {
    hide Shr;
    BitOfShiftRight(0x80, j, k);
  }

  // ---------- carrying words in parts ----------

  /** Buffers that end on a word boundary can be joined. */
  lemma EncodesAppend(s: seq<bv8>, ws: seq<Word>, t: seq<bv8>, vs: seq<Word>)
    requires Encodes(s, ws) && Encodes(t, vs) && 8 * |s| == 9 * |ws|
    ensures Encodes(s + t, ws + vs)
  {
    var n := |ws|;
    forall k | 0 <= k < 8 * |s + t|
      ensures BitAt(s + t, k) == StreamBit(ws + vs, k)
    {
      if k < 9 * n {
        assert BitAt(s + t, k) == BitAt(s, k) == StreamBit(ws, k);
      } else {
        var m := k - 9 * n;
        assert BitAt(s + t, k) == BitAt(t, m) by {
          assert k / 8 == |s| + m / 8 && k % 8 == m % 8;
        }
        assert k / 9 == n + m / 9 && k % 9 == m % 9;
        assert BitAt(t, m) == StreamBit(vs, m);
      }
    }
  }

  /** Zeros may follow what a buffer carries. */
  lemma EncodesPadded(s: seq<bv8>, ws: seq<Word>, t: seq<bv8>)
    requires Encodes(s, ws)
    requires forall i | 0 <= i < |t| :: t[i] == 0
    ensures Encodes(s + t, ws)
  {
    forall k | 0 <= k < 8 * |s + t|
      ensures BitAt(s + t, k) == StreamBit(ws, k)
    {
      if k < 8 * |s| {
        assert BitAt(s + t, k) == BitAt(s, k);
      } else {
        ZeroBit(k % 8);
      }
    }
  }
}
