/** Frames of the tagged 12-channel audio stream, and the word-by-word scan for them
    (speech/src/speecharray.c). */
module SpeechFrames {

  const CHANNELS := 12

  /** The channel number a word is tagged with. */
  function Tag(w: bv32): bv32
  {
    w & 0x00000f00
  }

  function ChannelTag(channel: nat): bv32
    requires 1 <= channel <= CHANNELS
  {
    match channel
    case 1 => 0x100 case 2 => 0x200 case 3 => 0x300 case 4 => 0x400 case 5 => 0x500 case 6 => 0x600
    case 7 => 0x700 case 8 => 0x800 case 9 => 0x900 case 10 => 0xa00 case 11 => 0xb00 case 12 => 0xc00
  }

  lemma TagsDistinct(a: nat, b: nat)
    requires 1 <= a <= CHANNELS && 1 <= b <= CHANNELS && a != b
    ensures ChannelTag(a) != ChannelTag(b)
  {
  }

  /** Word k of the frame at i carries the wrong tag. */
  predicate Mistagged(s: seq<bv32>, i: nat, k: nat)
    requires i + k < |s| && k < CHANNELS
  {
    Tag(s[i + k]) != ChannelTag(k + 1)
  }

  /** CHECKERROR_INT32_LE fails: twelve words tagged 1 to 12 start at word i. */
  ghost predicate IsFrame(s: seq<bv32>, i: nat)
  {
    && i + CHANNELS <= |s|
    && forall k | 0 <= k < CHANNELS :: !Mistagged(s, i, k)
  }

  /** The twelve tags, channel by channel. */
  lemma FrameTags(s: seq<bv32>, i: nat)
    requires i + 12 <= |s|
    ensures IsFrame(s, i) <==>
      && s[i] & 0xf00 == 0x100 && s[i + 1] & 0xf00 == 0x200 && s[i + 2] & 0xf00 == 0x300
      && s[i + 3] & 0xf00 == 0x400 && s[i + 4] & 0xf00 == 0x500 && s[i + 5] & 0xf00 == 0x600
      && s[i + 6] & 0xf00 == 0x700 && s[i + 7] & 0xf00 == 0x800 && s[i + 8] & 0xf00 == 0x900
      && s[i + 9] & 0xf00 == 0xa00 && s[i + 10] & 0xf00 == 0xb00 && s[i + 11] & 0xf00 == 0xc00
  {
    if IsFrame(s, i) {
      assert !Mistagged(s, i, 0) && !Mistagged(s, i, 1) && !Mistagged(s, i, 2) && !Mistagged(s, i, 3);
      assert !Mistagged(s, i, 4) && !Mistagged(s, i, 5) && !Mistagged(s, i, 6) && !Mistagged(s, i, 7);
      assert !Mistagged(s, i, 8) && !Mistagged(s, i, 9) && !Mistagged(s, i, 10) && !Mistagged(s, i, 11);
    }
  }

  /** The check at word i can be made inside s: it reads on only while the tags match. */
  ghost predicate Checkable(s: seq<bv32>, i: nat)
  {
    i + CHANNELS <= |s| || exists k :: 0 <= k < CHANNELS && i + k < |s| && Mistagged(s, i, k)
  }

  ghost predicate AllCheckable(s: seq<bv32>, n: nat)
  {
    forall i | 0 <= i < n :: Checkable(s, i)
  }

  /** Two frames never overlap, because the tags are all different. */
  lemma FramesApart(s: seq<bv32>, i: nat, j: nat)
    requires IsFrame(s, i) && i < j < i + CHANNELS
    ensures !IsFrame(s, j)
  {
    assert !Mistagged(s, i, j - i);
    TagsDistinct(j - i + 1, 1);
    assert Mistagged(s, j, 0);
  }

  // ---------- what a scan should find ----------

  /** All the word positions in [lo, n) at which a frame starts, in order, each once. */
  ghost function FramesIn(s: seq<bv32>, lo: nat, n: nat): (frames: seq<nat>)
    ensures forall k | 0 <= k < |frames| :: frames[k] + CHANNELS <= |s|
    decreases n - lo
  {
    if lo >= n then []
    else (if IsFrame(s, lo) then [lo] else []) + FramesIn(s, lo + 1, n)
  }

  /** The scan of parseData_INT32: it steps over a whole frame after a match, over one word otherwise. */
  ghost function Scan(s: seq<bv32>, lo: nat, n: nat): (frames: seq<nat>)
    ensures forall k | 0 <= k < |frames| :: frames[k] + CHANNELS <= |s|
    decreases n - lo
  {
    if lo >= n then []
    else if IsFrame(s, lo) then [lo] + Scan(s, lo + CHANNELS, n)
    else Scan(s, lo + 1, n)
  }

  lemma {:induction false} NoFramesIn(s: seq<bv32>, lo: nat, hi: nat, n: nat)
    requires lo <= hi
    requires forall j | lo <= j < hi :: !IsFrame(s, j)
    ensures FramesIn(s, lo, n) == FramesIn(s, hi, n)
    decreases hi - lo
  {
    if lo < hi {
      NoFramesIn(s, lo + 1, hi, n);
    }
  }

  /** The greedy scan misses nothing: garbage never makes it step over a frame. */
  lemma {:induction false} ScanFindsAllFrames(s: seq<bv32>, lo: nat, n: nat)
    ensures Scan(s, lo, n) == FramesIn(s, lo, n)
    decreases n - lo
  {
    if lo < n {
      if IsFrame(s, lo) {
        ScanFindsAllFrames(s, lo + CHANNELS, n);
        forall j | lo + 1 <= j < lo + CHANNELS
          ensures !IsFrame(s, j)
        {
          FramesApart(s, lo, j);
        }
        NoFramesIn(s, lo + 1, lo + CHANNELS, n);
      } else {
        ScanFindsAllFrames(s, lo + 1, n);
      }
    }
  }

  /** FramesIn is exactly the set of frame positions below n, in strictly increasing order. */
  lemma {:induction false} FramesInExact(s: seq<bv32>, lo: nat, n: nat)
    ensures forall p: nat :: p in FramesIn(s, lo, n) <==> lo <= p < n && IsFrame(s, p)
    ensures forall a, b | 0 <= a < b < |FramesIn(s, lo, n)| :: FramesIn(s, lo, n)[a] < FramesIn(s, lo, n)[b]
    decreases n - lo
  {
    if lo < n {
      FramesInExact(s, lo + 1, n);
      var rest := FramesIn(s, lo + 1, n);
      forall a | 0 <= a < |rest|
        ensures lo < rest[a]
      {
        assert rest[a] in rest;
      }
    }
  }

  // ---------- what a frame is turned into ----------

  /** The three output words of the frame at i: channels 1, 2 / 7, 8 / 4, 10, upper halves only. */
  function Demux(s: seq<bv32>, i: nat): (out: seq<bv32>)
    requires i + CHANNELS <= |s|
    ensures |out| == 3
  {
    [Pair(s[i], s[i + 1]), Pair(s[i + 6], s[i + 7]), Pair(s[i + 3], s[i + 9])]
  }

  function Pair(a: bv32, b: bv32): bv32
  {
    (a & 0xffff0000) | ((b & 0xffff0000) >> 16)
  }

  function UpperHalf(w: bv32): bv16
  {
    (w >> 16) as bv16
  }

  function LowerHalf(w: bv32): bv16
  {
    (w & 0xffff) as bv16
  }

  /** The 16-bit samples of little-endian output memory, in address order. */
  function Samples(words: seq<bv32>): seq<bv16>
  {
    seq(2 * |words|, k requires 0 <= k < 2 * |words| =>
      if k % 2 == 0 then LowerHalf(words[k / 2]) else UpperHalf(words[k / 2]))
  }

  lemma PairHalves(a: bv32, b: bv32)
    ensures LowerHalf(Pair(a, b)) == UpperHalf(b)
    ensures UpperHalf(Pair(a, b)) == UpperHalf(a)
  {
  }

  /** A frame leaves as the 16-bit samples of channels 2, 1, 8, 7, 10, 4, in this order in memory. */
  lemma DemuxSamples(s: seq<bv32>, i: nat)
    requires i + CHANNELS <= |s|
    ensures Samples(Demux(s, i)) ==
      [UpperHalf(s[i + 1]), UpperHalf(s[i]), UpperHalf(s[i + 7]), UpperHalf(s[i + 6]),
       UpperHalf(s[i + 9]), UpperHalf(s[i + 3])]
  {
    hide Pair, UpperHalf, LowerHalf;
    PairHalves(s[i], s[i + 1]);
    PairHalves(s[i + 6], s[i + 7]);
    PairHalves(s[i + 3], s[i + 9]);
  }

  ghost function DemuxAll(s: seq<bv32>, frames: seq<nat>): (out: seq<bv32>)
    requires forall k | 0 <= k < |frames| :: frames[k] + CHANNELS <= |s|
    ensures |out| == 3 * |frames|
  {
    if frames == [] then []
    else DemuxAll(s, frames[..|frames| - 1]) + Demux(s, frames[|frames| - 1])
  }

  // ---------- usable frames ----------

  /** A sample whose upper half is all zeros or all ones. */
  predicate SilentWord(w: bv32)
  {
    w & 0xffff0000 == 0 || w & 0xffff0000 == 0xffff0000
  }

  predicate SilentAt(s: seq<bv32>, i: nat, k: nat)
    requires i + k < |s|
  {
    SilentWord(s[i + k])
  }

  /** CHECKDATA_INT32: all twelve channels are silent. */
  ghost predicate IsSilent(s: seq<bv32>, i: nat)
    requires i + CHANNELS <= |s|
  {
    forall k | 0 <= k < CHANNELS :: SilentAt(s, i, k)
  }

  lemma SilentHalf(w: bv32)
    ensures SilentWord(w) <==> w >> 16 == 0 || w >> 16 == 0xffff
  {
  }

  /** A frame is silent when each of its twelve samples, the upper halves, is 0 or -1. */
  lemma SilentFrame(s: seq<bv32>, i: nat)
    requires i + 12 <= |s|
    ensures IsSilent(s, i) <==> forall j | i <= j < i + 12 :: s[j] >> 16 == 0 || s[j] >> 16 == 0xffff
  {
    hide SilentWord;
    forall k: nat | k < CHANNELS
      ensures SilentAt(s, i, k) <==> s[i + k] >> 16 == 0 || s[i + k] >> 16 == 0xffff
    {
      SilentHalf(s[i + k]);
    }
    if forall j | i <= j < i + 12 :: s[j] >> 16 == 0 || s[j] >> 16 == 0xffff {
      assert IsSilent(s, i);
    } else {
      var j :| i <= j < i + 12 && !(s[j] >> 16 == 0 || s[j] >> 16 == 0xffff);
      assert !SilentAt(s, i, j - i);
    }
  }

  ghost predicate IsUsable(s: seq<bv32>, i: nat)
  {
    IsFrame(s, i) && !IsSilent(s, i)
  }

  /** A zero word starts no frame. */
  lemma ZeroWordStartsNoFrame(s: seq<bv32>, i: nat)
    requires i < |s| && s[i] == 0
    ensures !IsFrame(s, i)
  {
    assert Mistagged(s, i, 0);
  }
}
