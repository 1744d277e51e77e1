/** SpeechArrayRead (speech/src/speecharray.c): reading the demultiplexed stream through a buffer that
    carries left-over hardware data from one call to the next.  Buffers hold 32-bit words; sizes are in
    bytes, as in the source. */
module SpeechArray {
  import opened SpeechFrames
  import opened SpeechParser

  // HW_BUFFER_COUNT, HW_OUT_DATA_RATIO, and the size of a frame of the hardware's two 32-bit channels
  const HW_BUFFER_COUNT := 2
  const HW_OUT_DATA_RATIO := 4
  const HW_ALIGN := 8
  // six output channels of 16 bits
  const OUT_ALIGN := 12

  /** Words a .. b of the hardware's endless stream. */
  ghost function Segment(hw: nat -> bv32, a: nat, b: nat): (s: seq<bv32>)
    requires a <= b
    ensures |s| == b - a
  {
    seq(b - a, i requires 0 <= i < b - a => hw(a + i))
  }

  ghost predicate GoodFrame(hw: nat -> bv32, p: nat)
  {
    IsUsable(Segment(hw, p, p + CHANNELS), 0)
  }

  /** From word c on, the stream is one tagged, non-silent frame after the other. */
  ghost predicate CleanFrom(hw: nat -> bv32, c: nat)
  {
    forall m: nat :: GoodFrame(hw, c + CHANNELS * m)
  }

  /** The demultiplexed form of m frames from word c on. */
  ghost function DemuxStream(hw: nat -> bv32, c: nat, m: nat): (out: seq<bv32>)
    ensures |out| == 3 * m
  {
    if m == 0 then []
    else DemuxStream(hw, c, m - 1) + Demux(Segment(hw, c + CHANNELS * (m - 1), c + CHANNELS * m), 0)
  }

  /** Consecutive stretches of the stream join without loss or repetition. */
  lemma {:induction false} DemuxStreamJoin(hw: nat -> bv32, c: nat, m: nat, k: nat)
    ensures DemuxStream(hw, c, m + k) == DemuxStream(hw, c, m) + DemuxStream(hw, c + CHANNELS * m, k)
  {
    hide Demux;
    if k > 0 {
      DemuxStreamJoin(hw, c, m, k - 1);
      assert c + CHANNELS * (m + k - 1) == c + CHANNELS * m + CHANNELS * (k - 1);
      assert c + CHANNELS * (m + k) == c + CHANNELS * m + CHANNELS * k;
    }
  }

  lemma CleanLater(hw: nat -> bv32, c: nat, m: nat)
    requires CleanFrom(hw, c)
    ensures CleanFrom(hw, c + CHANNELS * m)
  {
    forall k: nat
      ensures GoodFrame(hw, c + CHANNELS * m + CHANNELS * k)
    {
      assert GoodFrame(hw, c + CHANNELS * (m + k));
    }
  }

  /** A copy of a stretch of the stream has a usable frame just where the stream has. */
  lemma FrameInBuffer(hw: nat -> bv32, s: seq<bv32>, p: nat, at: nat)
    requires at + CHANNELS <= |s| && s[at..at + CHANNELS] == Segment(hw, p, p + CHANNELS)
    ensures IsUsable(s, at) <==> GoodFrame(hw, p)
    ensures Demux(s, at) == Demux(Segment(hw, p, p + CHANNELS), 0)
  {
    hide Tag, ChannelTag, SilentWord, Pair;
    var f := Segment(hw, p, p + CHANNELS);
    assert forall k | 0 <= k < CHANNELS :: s[at + k] == s[at..at + CHANNELS][k] == f[k];
    assert forall k | 0 <= k < CHANNELS :: Mistagged(s, at, k) <==> Mistagged(f, 0, k);
    assert forall k | 0 <= k < CHANNELS :: SilentAt(f, 0, k) <==> SilentAt(s, at, k);
  }

  /** The buffer holds m aligned frames of the stream from word c on. */
  ghost predicate HoldsFrames(hw: nat -> bv32, s: seq<bv32>, c: nat, m: nat)
  {
    CHANNELS * m <= |s| && s[..CHANNELS * m] == Segment(hw, c, c + CHANNELS * m)
  }

  lemma AlignedFrame(hw: nat -> bv32, s: seq<bv32>, c: nat, m: nat, j: nat)
    requires CleanFrom(hw, c) && HoldsFrames(hw, s, c, m) && j < m
    ensures IsUsable(s, CHANNELS * j)
    ensures Demux(s, CHANNELS * j) == Demux(Segment(hw, c + CHANNELS * j, c + CHANNELS * (j + 1)), 0)
  {
    hide IsUsable, Demux;
    var p := c + CHANNELS * j;
    assert GoodFrame(hw, p);
    assert CHANNELS * j + CHANNELS <= CHANNELS * m;
    assert s[CHANNELS * j..CHANNELS * j + CHANNELS] == s[..CHANNELS * m][CHANNELS * j..CHANNELS * j + CHANNELS]
        == Segment(hw, p, p + CHANNELS);
    FrameInBuffer(hw, s, p, CHANNELS * j);
  }

  /** On aligned frames, every check stays inside the frames. */
  lemma AlignedCheckable(hw: nat -> bv32, s: seq<bv32>, c: nat, m: nat)
    requires CleanFrom(hw, c) && HoldsFrames(hw, s, c, m)
    ensures AllCheckable(s, CHANNELS * m)
  {
    hide Tag, ChannelTag;
    forall i | 0 <= i < CHANNELS * m
      ensures Checkable(s, i)
    {
      var j, r := i / CHANNELS, i % CHANNELS;
      AlignedFrame(hw, s, c, m, j);
      assert i == CHANNELS * j + r;
      if r > 0 {
        assert !Mistagged(s, CHANNELS * j, r);
        TagsDistinct(r + 1, 1);
        assert Mistagged(s, i, 0);
      }
    }
  }

  /** On aligned frames, the frames are found at the multiples of twelve. */
  lemma {:induction false} AlignedScan(hw: nat -> bv32, s: seq<bv32>, c: nat, m: nat, j: nat)
    requires CleanFrom(hw, c) && HoldsFrames(hw, s, c, m) && j <= m
    ensures Scan(s, CHANNELS * j, CHANNELS * m) == seq(m - j, i requires 0 <= i < m - j => CHANNELS * (j + i))
    decreases m - j
  {
    hide IsFrame, Demux, HoldsFrames;
    if j < m {
      AlignedFrame(hw, s, c, m, j);
      AlignedScan(hw, s, c, m, j + 1);
      assert CHANNELS * j + CHANNELS == CHANNELS * (j + 1);
      assert IsUsable(s, CHANNELS * j);
    }
  }

  lemma {:induction false} AlignedDemux(hw: nat -> bv32, s: seq<bv32>, c: nat, m: nat, k: nat, frames: seq<nat>)
    requires CleanFrom(hw, c) && HoldsFrames(hw, s, c, m) && k <= m
    requires |frames| == k && forall i | 0 <= i < k :: frames[i] == CHANNELS * i
    ensures forall i | 0 <= i < k :: frames[i] + CHANNELS <= |s|
    ensures DemuxAll(s, frames) == DemuxStream(hw, c, k)
  {
    hide IsUsable, Demux;
    if k > 0 {
      AlignedDemux(hw, s, c, m, k - 1, frames[..k - 1]);
      AlignedFrame(hw, s, c, m, k - 1);
    }
  }

  /** Parsing aligned frames demultiplexes exactly them. */
  lemma AlignedParse(hw: nat -> bv32, s: seq<bv32>, c: nat, m: nat)
    requires CleanFrom(hw, c) && HoldsFrames(hw, s, c, m)
    ensures |FramesIn(s, 0, CHANNELS * m)| == m
    ensures DemuxAll(s, FramesIn(s, 0, CHANNELS * m)) == DemuxStream(hw, c, m)
  {
    hide Demux, HoldsFrames;
    ScanFindsAllFrames(s, 0, CHANNELS * m);
    AlignedScan(hw, s, c, m, 0);
    AlignedDemux(hw, s, c, m, m, FramesIn(s, 0, CHANNELS * m));
  }

  // ---------- resynchronising ----------

  /** The stream has g words without a good frame from word c on, then frame after frame.  Garbage comes in
      whole hardware frames. */
  ghost predicate SyncsAfter(hw: nat -> bv32, c: nat, g: nat)
  {
    && g % 2 == 0
    && (forall i | c <= i < c + g :: !GoodFrame(hw, i))
    && CleanFrom(hw, c + g)
  }

  /** skipData, run on a stretch of the stream that reaches a whole frame past the garbage, looks no
      further than the first good frame. */
  lemma SkipIsSafe(hw: nat -> bv32, s: seq<bv32>, c: nat, w: nat, g: nat)
    requires SyncsAfter(hw, c, g) && g + CHANNELS <= w <= |s| && s[..w] == Segment(hw, c, c + w)
    ensures g < ScanWords(4 * w)
    ensures AllCheckable(s, g) && IsUsable(s, g)
    ensures forall i | 0 <= i < g :: !IsUsable(s, i)
  {
    hide IsUsable, GoodFrame, IsFrame;
    assert GoodFrame(hw, c + g + CHANNELS * 0);
    forall i | 0 <= i <= g
      ensures IsUsable(s, i) <==> GoodFrame(hw, c + i)
    {
      assert s[i..i + CHANNELS] == s[..w][i..i + CHANNELS] == Segment(hw, c + i, c + i + CHANNELS);
      FrameInBuffer(hw, s, c + i, i);
    }
    ScanReaches(w, g);
  }

  lemma ScanReaches(w: nat, g: nat)
    requires g + CHANNELS <= w
    ensures g < ScanWords(4 * w)
  {
  }

  // ---------- sizes ----------

  /** A size in whole hardware frames. */
  predicate Whole(bytes: int)
  {
    bytes % HW_ALIGN == 0
  }

  /** A request for n output bytes, in whole output frames, that the buffer can serve. */
  predicate Request(n: nat, buffSize: nat)
  {
    0 < n && n % OUT_ALIGN == 0 && 4 * n <= buffSize && buffSize % SAMPLE_BYTES == 0
  }

  /** What SpeechArrayRead asks the hardware for first: enough for 4 n bytes, in whole hardware frames, and at least
      half a buffer; nothing when more than enough is left over. */
  function FirstReadSize(n: nat, dataSize: nat, buffSize: nat): nat
  {
    if dataSize > n * HW_OUT_DATA_RATIO then 0
    else
      var wanted := n * HW_OUT_DATA_RATIO - dataSize;
      var rounded := if wanted % HW_ALIGN != 0 then wanted + HW_ALIGN - (wanted + HW_ALIGN) % HW_ALIGN else wanted;
      if rounded < buffSize / HW_BUFFER_COUNT then buffSize / HW_BUFFER_COUNT else rounded
  }

  /** What it asks for after dropping skip bytes of garbage, with avail bytes left of the first readSize. */
  function SecondReadSize(n: nat, readSize: nat, skip: nat, avail: nat, buffSize: nat): int
  {
    if avail >= n * HW_OUT_DATA_RATIO then 0
    else
      var r0 := skip - skip % HW_ALIGN + HW_ALIGN;
      var r1 := if r0 < buffSize / HW_BUFFER_COUNT then buffSize / HW_BUFFER_COUNT else r0;
      if avail + readSize > buffSize then buffSize - avail - readSize % HW_ALIGN else r1
  }

  lemma MultipleOfEight(x: int)
    ensures 8 * x % 8 == 0
  {
  }

  lemma Half(b: nat)
    ensures 48 * b / 2 == 24 * b
  {
  }

  /** A filling of the buffer that suffices for n output bytes and leaves at most half a buffer over. */
  predicate Suffices(total: int, n: nat, buffSize: nat)
  {
    4 * n <= total <= buffSize && total <= 4 * n + buffSize / HW_BUFFER_COUNT
  }

  /** Everything asked for is whole hardware frames, fits the buffer, and is enough; the excess is at most
      half a buffer. */
  lemma FirstReadFits(k: nat, d: nat, b: nat)
    requires k <= b && 8 * d <= 24 * b
    ensures var r := FirstReadSize(12 * k, 8 * d, 48 * b);
      && Whole(r)
      && 48 * k <= 8 * d + r <= 48 * b
      && 8 * d + r <= 48 * k + 24 * b
  {
    Half(b);
    MultipleOfEight(6 * k - d);
    MultipleOfEight(3 * b);
    assert 48 * k - 8 * d == 8 * (6 * k - d);
  }

  lemma SecondReadFits(k: nat, e: nat, b: nat)
    requires 0 < k <= b && e > 0
    requires 8 * e + SAMPLE_BYTES <= FirstReadSize(12 * k, 0, 48 * b)
    ensures var r0 := FirstReadSize(12 * k, 0, 48 * b);
      var avail := r0 - 8 * e;
      var r := SecondReadSize(12 * k, r0, 8 * e, avail, 48 * b);
      && r >= 0 && Whole(r)
      && 48 * k <= avail + r <= 48 * b
      && avail + r <= 48 * k + 24 * b
  {
    Half(b);
    MultipleOfEight(6 * k);
    MultipleOfEight(3 * b);
    MultipleOfEight(e);
    MultipleOfEight(e + 1);
    var r0 := if 48 * k < 24 * b then 24 * b else 48 * k;
    assert FirstReadSize(12 * k, 0, 48 * b) == r0;
    var q := if 48 * k < 24 * b then 3 * b else 6 * k;
    assert r0 == 8 * q;
    MultipleOfEight(6 * b - (q - e));
    assert 8 * e - 8 * e % 8 + 8 == 8 * (e + 1);
  }

  /** Adding whole hardware frames, in bytes and in words. */
  lemma WholeFramesAdd(a: nat, b: nat)
    requires Whole(a) && Whole(b)
    ensures Whole(a + b) && (a + b) / 4 == a / 4 + b / 4
    ensures a == 4 * (a / 4) && a / 4 % 2 == 0
  {
    var p, q := a / 8, b / 8;
    assert a == 8 * p && b == 8 * q;
    MultipleOfEight(p + q);
  }

  lemma FirstReadBounds(n: nat, dataSize: nat, buffSize: nat)
    requires Request(n, buffSize)
    requires Whole(dataSize) && dataSize <= buffSize / HW_BUFFER_COUNT
    ensures var r := FirstReadSize(n, dataSize, buffSize);
      && Whole(r)
      && Suffices(dataSize + r, n, buffSize)
  {
    var k, d, b := n / OUT_ALIGN, dataSize / HW_ALIGN, buffSize / SAMPLE_BYTES;
    assert n == 12 * k && dataSize == 8 * d && buffSize == 48 * b;
    Half(b);
    FirstReadFits(k, d, b);
  }

  /** Since requests and left-overs are whole hardware frames, no size is ever rounded: the first read is what is
      missing, or half a buffer if that is more; so is the second, for what was dropped and one hardware frame more,
      unless a read as long as the first would not fit, when it fills the buffer. */
  lemma ReadSizesExact(n: nat, dataSize: nat, skip: nat, buffSize: nat)
    requires Request(n, buffSize)
    requires Whole(dataSize) && dataSize <= buffSize / 2 && Whole(skip)
    ensures var half := buffSize / 2;
      FirstReadSize(n, dataSize, buffSize) ==
        if dataSize > 4 * n then 0 else if 4 * n - dataSize < half then half else 4 * n - dataSize
    ensures var half, first := buffSize / 2, FirstReadSize(n, 0, buffSize);
      skip <= first ==>
        SecondReadSize(n, first, skip, first - skip, buffSize) ==
          if first - skip >= 4 * n then 0
          else if first - skip + first > buffSize then buffSize - (first - skip)
          else if skip + 8 < half then half else skip + 8
  {
    var k, d, b := n / OUT_ALIGN, dataSize / HW_ALIGN, buffSize / SAMPLE_BYTES;
    assert n == 12 * k && dataSize == 8 * d && buffSize == 48 * b;
    Half(b);
    MultipleOfEight(6 * k - d);
    MultipleOfEight(6 * k);
    MultipleOfEight(3 * b);
    assert 4 * n - dataSize == 8 * (6 * k - d);
  }

  lemma SecondReadBounds(n: nat, skip: nat, buffSize: nat)
    requires Request(n, buffSize)
    requires skip > 0 && Whole(skip) && skip + SAMPLE_BYTES <= FirstReadSize(n, 0, buffSize)
    ensures var r0 := FirstReadSize(n, 0, buffSize);
      var avail := r0 - skip;
      var r := SecondReadSize(n, r0, skip, avail, buffSize);
      && Whole(avail) && r >= 0 && Whole(r)
      && Suffices(avail + r, n, buffSize)
  {
    var k, e, b := n / OUT_ALIGN, skip / HW_ALIGN, buffSize / SAMPLE_BYTES;
    assert n == 12 * k && skip == 8 * e && buffSize == 48 * b;
    Half(b);
    FirstReadBounds(n, 0, buffSize);
    var q := FirstReadSize(n, 0, buffSize) / HW_ALIGN;
    assert FirstReadSize(n, 0, buffSize) == 8 * q;
    MultipleOfEight(q - e);
    SecondReadFits(k, e, b);
  }
}
