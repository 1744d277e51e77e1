/** The pointer arithmetic of the mapped PCM buffer (speech/src/pcm.c).  The application and the hardware
    each have a frame counter that never wraps (A and H below) and a pointer that the code sees, which
    wraps at the boundary, a multiple of the buffer size. */
module PcmPointers {
  import opened RingArithmetic

  const INT_MAX: int := 0x7fff_ffff

  /** Conversion of an unsigned value to int.  Only the low 32 bits matter, so it is all the same whether
      snd_pcm_uframes_t has 32 or 64 bits. */
  function ToInt(x: int): int
  {
    (x + 0x8000_0000) % TWO_32 - 0x8000_0000
  }

  lemma ToIntSmall(x: int)
    requires -0x8000_0000 <= x <= INT_MAX
    ensures ToInt(x) == x
  {
  }

  // ---------- the boundary, chosen by pcm_open ----------

  function Pow2(k: nat): nat
  {
    if k == 0 then 1 else 2 * Pow2(k - 1)
  }

  /** The boundary loop of pcm_open: the buffer size, doubled as often as it goes without the pointer
      arithmetic leaving the range of int.  It is doubled at least once just when three buffers fit into an int.
      The products below are those of the source, in unsigned int. */
  method ChooseBoundary(bufferSize: nat) returns (boundary: nat)
    requires 0 < bufferSize <= INT_MAX
    ensures exists k :: boundary == bufferSize * Pow2(k) && (k >= 1 <==> 3 * bufferSize <= INT_MAX)
    ensures 2 * boundary > INT_MAX - bufferSize
    ensures 3 * bufferSize <= INT_MAX <==> Layout(bufferSize, boundary)
  {
    boundary := bufferSize;
    ghost var k := 0;
    assert bufferSize == bufferSize * Pow2(0);
    while boundary * 2 % TWO_32 <= INT_MAX - bufferSize
      invariant boundary == bufferSize * Pow2(k) && bufferSize <= boundary <= INT_MAX
      invariant k >= 1 ==> 2 * bufferSize <= boundary <= INT_MAX - bufferSize
      invariant k == 0 ==> boundary == bufferSize
      decreases INT_MAX - boundary
    {
      assert boundary * 2 % TWO_32 == boundary * 2;
      assert bufferSize * Pow2(k + 1) == bufferSize * Pow2(k) * 2 by { MulDouble(bufferSize, Pow2(k)); }
      boundary := boundary * 2;
      k := k + 1;
    }
    assert boundary * 2 % TWO_32 == boundary * 2;
    if k >= 1 {
      LayoutChosen(bufferSize, boundary, k);
    }
  }

  lemma MulDouble(a: nat, b: nat)
    ensures a * (2 * b) == a * b * 2
  {
  }

  // ---------- pointers and counters ----------

  /** What pcm_open leaves when three buffers fit into an int. */
  ghost predicate Layout(bufferSize: nat, boundary: nat)
  {
    && 0 < bufferSize
    && (exists k: nat :: k >= 2 && boundary == bufferSize * k)
    && 2 * bufferSize <= boundary && boundary + bufferSize <= INT_MAX
  }

  lemma LayoutChosen(bufferSize: nat, boundary: nat, k: nat)
    requires 0 < bufferSize && boundary == bufferSize * Pow2(k) && k >= 1 && boundary + bufferSize <= INT_MAX
    requires 2 * bufferSize <= boundary
    ensures Layout(bufferSize, boundary)
  {
    assert Pow2(k) >= 2 by { Pow2Positive(k - 1); }
  }

  lemma Pow2Positive(k: nat)
    ensures Pow2(k) >= 1
  {
  }

  /** The pointer shows counter x after `lap` laps of the boundary. */
  ghost predicate Shows(ptr: nat, x: nat, boundary: nat, lap: nat)
  {
    x == ptr + boundary * lap
  }

  /** The application pointer may stand at the boundary itself, the hardware pointer not. */
  ghost predicate Pointers(applPtr: nat, hwPtr: nat, a: nat, h: nat, boundary: nat, applLap: nat, hwLap: nat)
  {
    applPtr <= boundary && hwPtr < boundary && Shows(applPtr, a, boundary, applLap) && Shows(hwPtr, h, boundary, hwLap)
  }

  // ---------- how many frames can be transferred ----------

  /** pcm_mmap_capture_avail. */
  function CaptureAvail(hwPtr: nat, applPtr: nat, boundary: nat): int
  {
    var avail := ToInt(hwPtr - applPtr);
    if avail < 0 then ToInt(avail + boundary) else avail
  }

  /** pcm_mmap_playback_avail. */
  function PlaybackAvail(hwPtr: nat, applPtr: nat, bufferSize: nat, boundary: nat): int
  {
    var avail := ToInt(hwPtr + bufferSize - applPtr);
    if avail < 0 then ToInt(avail + boundary)
    else if avail > ToInt(boundary) then ToInt(avail - boundary)
    else avail
  }

  /** The computation in pcm_get_htimestamp. */
  function HtimestampFrames(capture: bool, hwPtr: nat, applPtr: nat, bufferSize: nat, boundary: nat): int
  {
    var frames := if capture then ToInt(hwPtr - applPtr) else ToInt(hwPtr + bufferSize - applPtr);
    if frames < 0 then ToInt(frames + boundary)
    else if frames > ToInt(boundary) then ToInt(frames - boundary)
    else frames
  }

  /** Without overflow in reach, the conversions to int change nothing. */
  lemma NoOverflow(hwPtr: nat, applPtr: nat, bufferSize: nat, boundary: nat)
    requires boundary + bufferSize <= INT_MAX && applPtr <= boundary && hwPtr < boundary
    ensures CaptureAvail(hwPtr, applPtr, boundary) == hwPtr - applPtr + (if hwPtr < applPtr then boundary else 0)
    ensures var x := hwPtr + bufferSize - applPtr;
      PlaybackAvail(hwPtr, applPtr, bufferSize, boundary)
        == if x < 0 then x + boundary else if x > boundary then x - boundary else x
  {
    hide ToInt;
    ToIntSmall(boundary);
    ToIntSmall(hwPtr - applPtr);
    if hwPtr < applPtr {
      ToIntSmall(hwPtr - applPtr + boundary);
    }
    var x := hwPtr + bufferSize - applPtr;
    ToIntSmall(x);
    if x < 0 {
      ToIntSmall(x + boundary);
    } else if x > boundary {
      ToIntSmall(x - boundary);
    }
  }

  lemma MulNegative(n: int, m: int)
    requires n >= 0 && m <= -1
    ensures n * m <= -n
  {
  }

  lemma MulAtLeastTwice(n: int, m: int)
    requires n >= 0 && m >= 2
    ensures n * m >= 2 * n
  {
  }

  lemma LapDifference(boundary: int, a: int, b: int)
    ensures boundary * a - boundary * b == boundary * (a - b)
  {
  }

  /** Two counters less than a boundary apart are on the same lap, on neighbouring laps, or equal and shown by
      the two ends of a lap. */
  lemma LapsApart(boundary: int, p: int, q: int, m: int, d: int)
    requires d == p - q + boundary * m && 0 <= d < boundary
    requires 0 <= p <= boundary && 0 <= q <= boundary
    ensures d == p - q || d == p - q + boundary || (d == 0 && p - q == boundary)
  {
    if m >= 2 {
      MulAtLeastTwice(boundary, m);
      assert false;
    } else if m <= -1 {
      MulNegative(boundary, m);
    } else if m == 0 {
    } else {
      assert boundary * m == boundary;
    }
  }

  lemma CountersApart(p: nat, q: nat, x: nat, y: nat, boundary: nat, pLap: nat, qLap: nat)
    requires Shows(p, x, boundary, pLap) && Shows(q, y, boundary, qLap)
    requires p <= boundary && q <= boundary && y <= x < y + boundary
    ensures x - y == p - q || x - y == p - q + boundary || (x == y && p - q == boundary)
  {
    LapDifference(boundary, pLap, qLap);
    LapsApart(boundary, p, q, pLap - qLap, x - y);
  }

  /** Capture: the computed value is the number of captured frames not yet read, exactly as long as there are
      fewer of them than a boundary. */
  lemma CaptureAvailExact(applPtr: nat, hwPtr: nat, a: nat, h: nat, bufferSize: nat, boundary: nat,
        applLap: nat, hwLap: nat)
    requires Layout(bufferSize, boundary) && Pointers(applPtr, hwPtr, a, h, boundary, applLap, hwLap)
    requires a <= h
    ensures CaptureAvail(hwPtr, applPtr, boundary) == h - a <==> h - a < boundary
  {
    hide Shows, CaptureAvail, PlaybackAvail;
    NoOverflow(hwPtr, applPtr, bufferSize, boundary);
    if h - a < boundary {
      CountersApart(hwPtr, applPtr, h, a, boundary, hwLap, applLap);
    }
  }

  /** Playback: the computed value always differs from the number of free frames by whole boundaries. */
  lemma PlaybackAvailCongruent(applPtr: nat, hwPtr: nat, a: nat, h: nat, bufferSize: nat, boundary: nat,
        applLap: nat, hwLap: nat)
    requires Layout(bufferSize, boundary) && Pointers(applPtr, hwPtr, a, h, boundary, applLap, hwLap)
    ensures exists m: int :: PlaybackAvail(hwPtr, applPtr, bufferSize, boundary) == bufferSize - (a - h) + boundary * m
  {
    NoOverflow(hwPtr, applPtr, bufferSize, boundary);
    LapDifference(boundary, applLap, hwLap);
    var x := hwPtr + bufferSize - applPtr;
    var d := applLap - hwLap;
    var m := if x < 0 then d + 1 else if x > boundary then d - 1 else d;
    MulSucc(boundary, d);
    assert PlaybackAvail(hwPtr, applPtr, bufferSize, boundary) == bufferSize - (a - h) + boundary * m;
  }

  lemma MulSucc(n: nat, m: int)
    ensures n * (m + 1) == n * m + n && n * (m - 1) == n * m - n
  {
  }

  /** Playback, with at most a buffer queued: the computed value is the number of free frames unless the pointers lie
      a buffer less than a boundary apart, and only then; that is, unless the buffer is full and the pointers are on
      different laps.  In that case it is the boundary. */
  lemma PlaybackAvailExact(applPtr: nat, hwPtr: nat, a: nat, h: nat, bufferSize: nat, boundary: nat,
        applLap: nat, hwLap: nat)
    requires Layout(bufferSize, boundary) && Pointers(applPtr, hwPtr, a, h, boundary, applLap, hwLap)
    requires h <= a <= h + bufferSize
    ensures var avail := PlaybackAvail(hwPtr, applPtr, bufferSize, boundary);
      && (avail == bufferSize - (a - h) <==> hwPtr + bufferSize != applPtr + boundary)
      && (avail == bufferSize - (a - h) <==> a - h < bufferSize || hwPtr + bufferSize == applPtr)
      && (avail != bufferSize - (a - h) ==> avail == boundary)
  {
    hide Shows, CaptureAvail, PlaybackAvail;
    NoOverflow(hwPtr, applPtr, bufferSize, boundary);
    CountersApart(applPtr, hwPtr, a, h, boundary, applLap, hwLap);
  }

  /** Every buffer of two frames or more can come to be misread: a full buffer whose pointers stand on different laps is
      taken for a whole boundary of free frames, wherever behind the start of a lap the application pointer is. */
  lemma FullBufferMisread(bufferSize: nat, boundary: nat, applPtr: nat)
    requires Layout(bufferSize, boundary) && 0 < applPtr < bufferSize
    ensures var hwPtr := boundary + applPtr - bufferSize;
      && Pointers(applPtr, hwPtr, boundary + applPtr, hwPtr, boundary, 1, 0)
      && boundary + applPtr == hwPtr + bufferSize
      && PlaybackAvail(hwPtr, applPtr, bufferSize, boundary) == boundary
  {
    NoOverflow(boundary + applPtr - bufferSize, applPtr, bufferSize, boundary);
  }

  /** For instance, with a buffer of 4 frames and the boundary that pcm_open chooses for it. */
  lemma FullBufferMisreadInstance()
    ensures var bufferSize, boundary, applPtr, hwPtr := 4, 0x4000_0000, 1, 0x3fff_fffd;
      && boundary == bufferSize * Pow2(28) && 2 * boundary > INT_MAX - bufferSize && Layout(bufferSize, boundary)
      && Pointers(applPtr, hwPtr, 0x4000_0001, 0x3fff_fffd, boundary, 1, 0)
      && 0x4000_0001 - 0x3fff_fffd == bufferSize
      && PlaybackAvail(hwPtr, applPtr, bufferSize, boundary) == boundary
      && applPtr % bufferSize == hwPtr % bufferSize
  {
    Pow2Sum(14, 14);
    Pow2Sum(7, 7);
    assert 0x4000_0000 == 4 * 0x1000_0000;
    FullBufferMisread(4, 0x4000_0000, 1);
  }

  lemma {:induction false} Pow2Sum(j: nat, k: nat)
    ensures Pow2(j + k) == Pow2(j) * Pow2(k)
  {
    if j > 0 {
      Pow2Sum(j - 1, k);
    }
  }

  /** The time stamp query computes the same two values. */
  lemma HtimestampAgrees(hwPtr: nat, applPtr: nat, bufferSize: nat, boundary: nat)
    requires boundary + bufferSize <= INT_MAX && applPtr <= boundary && hwPtr < boundary
    ensures HtimestampFrames(true, hwPtr, applPtr, bufferSize, boundary) == CaptureAvail(hwPtr, applPtr, boundary)
    ensures HtimestampFrames(false, hwPtr, applPtr, bufferSize, boundary) ==
      PlaybackAvail(hwPtr, applPtr, bufferSize, boundary)
  {
    ToIntSmall(boundary);
    ToIntSmall(hwPtr - applPtr);
  }

  // ---------- moving the application pointer ----------

  /** pcm_mmap_appl_forward. */
  function ApplForward(applPtr: nat, frames: nat, boundary: nat): nat
  {
    var next := (applPtr + frames) % TWO_32;
    if next > boundary then next - boundary else next
  }

  lemma ApplForwardShows(applPtr: nat, frames: nat, a: nat, boundary: nat, lap: nat)
    requires boundary <= INT_MAX && applPtr <= boundary && frames <= boundary
    requires Shows(applPtr, a, boundary, lap)
    ensures var next := ApplForward(applPtr, frames, boundary);
      && next <= boundary
      && Shows(next, a + frames, boundary, if applPtr + frames > boundary then lap + 1 else lap)
  {
    assert (applPtr + frames) % TWO_32 == applPtr + frames;
    MulSucc(boundary, lap);
  }

  /** The pointer comes to stand at the boundary itself, not at 0, exactly when it lands there. */
  lemma ApplForwardAtBoundary(applPtr: nat, frames: nat, boundary: nat)
    requires 0 < boundary <= INT_MAX && applPtr <= boundary && 0 < frames < boundary
    ensures ApplForward(applPtr, frames, boundary) == boundary <==> applPtr + frames == boundary
    ensures ApplForward(applPtr, frames, boundary) != 0
  {
    assert (applPtr + frames) % TWO_32 == applPtr + frames;
  }

  // ---------- cells of the buffer ----------

  /** A pointer and its counter name the same cell. */
  lemma SameCell(ptr: nat, x: nat, boundary: nat, lap: nat, bufferSize: nat, k: nat)
    requires bufferSize > 0 && boundary == bufferSize * k && Shows(ptr, x, boundary, lap)
    ensures ptr % bufferSize == x % bufferSize
  {
    var q, r := ptr / bufferSize, ptr % bufferSize;
    assert ptr == bufferSize * q + r;
    MulRegroup(bufferSize, k, lap, q);
    QuotientOf(x, bufferSize, k * lap + q, r);
  }

  lemma MulRegroup(n: nat, k: nat, lap: nat, q: nat)
    ensures n * (k * lap + q) == n * k * lap + n * q
  {
  }

  /** Within one buffer length, frames occupy consecutive cells, around the end once. */
  lemma CellOf(a: nat, j: nat, bufferSize: nat)
    requires bufferSize > 0 && j < bufferSize
    ensures (a + j) % bufferSize == Wrap(a % bufferSize + j, bufferSize)
  {
    var q, r := a / bufferSize, a % bufferSize;
    assert a == bufferSize * q + r;
    if r + j < bufferSize {
      QuotientOf(a + j, bufferSize, q, r + j);
    } else {
      MulSucc(bufferSize, q);
      QuotientOf(a + j, bufferSize, q + 1, r + j - bufferSize);
    }
  }

  /** Different frames within one buffer length occupy different cells. */
  lemma CellsApart(a: nat, i: nat, j: nat, bufferSize: nat)
    requires bufferSize > 0 && i < j < bufferSize
    ensures (a + i) % bufferSize != (a + j) % bufferSize
  {
    CellOf(a, i, bufferSize);
    CellOf(a, j, bufferSize);
  }
}
