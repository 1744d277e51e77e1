/** The scans of speech/src/speecharray.c over a buffer of 32-bit words: parseData_INT32, which
    demultiplexes in place, and skipData.  Lengths are in bytes, as in the source. */
module SpeechParser {
  import opened SpeechFrames

  // MINI_SINGLE_SAMPLE_BYTES
  const SAMPLE_BYTES := 48

  /** The words that a length in bytes covers once it is rounded down to whole frames. */
  function ScanWords(len: nat): nat
  {
    12 * (len / SAMPLE_BYTES)
  }

  lemma RoundedLength(len: nat)
    ensures (len - len % SAMPLE_BYTES) / 4 == ScanWords(len)
  {
    var q, r := len / SAMPLE_BYTES, len % SAMPLE_BYTES;
    assert len == SAMPLE_BYTES * q + r;
    assert SAMPLE_BYTES * q / 4 == 12 * q;
  }

  /** CHECKERROR_INT32_LE, reading only as far as the tags match. */
  method CheckError(buf: array<bv32>, i: nat) returns (bad: bool)
    requires Checkable(buf[..], i)
    ensures bad <==> !IsFrame(buf[..], i)
  {
    hide Tag, ChannelTag;
    ghost var s := buf[..];
    bad := WrongTag(buf, i, 0) || WrongTag(buf, i, 1) || WrongTag(buf, i, 2) || WrongTag(buf, i, 3) ||
           WrongTag(buf, i, 4) || WrongTag(buf, i, 5) || WrongTag(buf, i, 6) || WrongTag(buf, i, 7) ||
           WrongTag(buf, i, 8) || WrongTag(buf, i, 9) || WrongTag(buf, i, 10) || WrongTag(buf, i, 11);
  }

  predicate WrongTag(buf: array<bv32>, i: nat, k: nat)
    requires k < CHANNELS && i + k < buf.Length
    reads buf
    ensures WrongTag(buf, i, k) <==> Mistagged(buf[..], i, k)
  {
    Tag(buf[i + k]) != ChannelTag(k + 1)
  }

  predicate Quiet(buf: array<bv32>, i: nat, k: nat)
    requires i + k < buf.Length
    reads buf
    ensures Quiet(buf, i, k) <==> SilentAt(buf[..], i, k)
  {
    buf[i + k] & 0xffff0000 == 0 || buf[i + k] & 0xffff0000 == 0xffff0000
  }

  /** CHECKDATA_INT32. */
  method CheckData(buf: array<bv32>, i: nat) returns (silent: bool)
    requires i + CHANNELS <= buf.Length
    ensures silent <==> IsSilent(buf[..], i)
  {
    hide SilentWord;
    silent := Quiet(buf, i, 0) && Quiet(buf, i, 1) && Quiet(buf, i, 2) && Quiet(buf, i, 3) &&
              Quiet(buf, i, 4) && Quiet(buf, i, 5) && Quiet(buf, i, 6) && Quiet(buf, i, 7) &&
              Quiet(buf, i, 8) && Quiet(buf, i, 9) && Quiet(buf, i, 10) && Quiet(buf, i, 11);
  }

  /** What a frame check sees depends on the words from its position on only. */
  lemma SameTail(s: seq<bv32>, t: seq<bv32>, i: nat)
    requires |s| == |t| && i <= |s| && s[i..] == t[i..]
    ensures IsFrame(s, i) <==> IsFrame(t, i)
    ensures Checkable(s, i) <==> Checkable(t, i)
  {
    hide Tag, ChannelTag;
    assert forall p | i <= p < |s| :: s[p] == s[i..][p - i] == t[i..][p - i] == t[p];
    assert forall k | 0 <= k < CHANNELS && i + k < |s| :: Mistagged(s, i, k) <==> Mistagged(t, i, k);
  }

  /** Half-way through the scan of s: `done` are the frames found before word speech, and the buffer `now`
      holds their samples, then its original words. */
  ghost predicate Parsed(s: seq<bv32>, now: seq<bv32>, done: seq<nat>, speech: nat, n: nat)
  {
    && |now| == |s|
    && 3 * |done| <= speech && 3 * |done| <= |s|
    && (forall k | 0 <= k < |done| :: done[k] + CHANNELS <= |s|)
    && Scan(s, 0, n) == done + Scan(s, speech, n)
    && now[..3 * |done|] == DemuxAll(s, done)
    && now[3 * |done|..] == s[3 * |done|..]
  }

  lemma ParsedChecks(s: seq<bv32>, now: seq<bv32>, done: seq<nat>, speech: nat, n: nat)
    requires Parsed(s, now, done, speech, n) && speech < n && AllCheckable(s, n)
    ensures speech < |s|
    ensures IsFrame(s, speech) <==> IsFrame(now, speech)
    ensures Checkable(now, speech)
  {
    hide Tag, ChannelTag;
    assert Checkable(s, speech);
    assert now[3 * |done|..][speech - 3 * |done|..] == s[3 * |done|..][speech - 3 * |done|..];
    SameTail(s, now, speech);
  }

  lemma ParsedWord(s: seq<bv32>, now: seq<bv32>, done: seq<nat>, speech: nat, n: nat)
    requires Parsed(s, now, done, speech, n) && speech < n && !IsFrame(s, speech)
    ensures Parsed(s, now, done, speech + 1, n)
  {
    hide IsFrame, Demux;
  }

  lemma ParsedFrame(s: seq<bv32>, now: seq<bv32>, next: seq<bv32>, done: seq<nat>, speech: nat, n: nat)
    requires Parsed(s, now, done, speech, n) && speech < n && IsFrame(s, speech)
    requires |next| == |s|
    requires next[..3 * |done| + 3] == now[..3 * |done|] + Demux(s, speech)
    requires next[3 * |done| + 3..] == s[3 * |done| + 3..]
    ensures Parsed(s, next, done + [speech], speech + CHANNELS, n)
  {
    hide Demux;
    var grown := done + [speech];
    assert grown[..|grown| - 1] == done;
    assert Scan(s, speech, n) == [speech] + Scan(s, speech + CHANNELS, n);
  }

  /** parseData_INT32: the frames that start in the rounded length, all of them and in order, end up
      demultiplexed at the start of the buffer; the rest of the buffer keeps its words.  errlen is the number
      of bytes the scan discarded. */
  method ParseData(buf: array<bv32>, len: int) returns (ret: int, errlen: nat)
    requires len >= SAMPLE_BYTES ==> AllCheckable(buf[..], ScanWords(len))
    modifies buf
    ensures len < SAMPLE_BYTES ==> ret == -1 && buf[..] == old(buf[..])
    ensures len >= SAMPLE_BYTES ==>
      var frames := FramesIn(old(buf[..]), 0, ScanWords(len));
      && ret == 12 * |frames|
      && 3 * |frames| <= buf.Length
      && buf[..3 * |frames|] == DemuxAll(old(buf[..]), frames)
      && buf[3 * |frames|..] == old(buf[..])[3 * |frames|..]
      && 4 * ScanWords(len) <= errlen + 4 * ret < 4 * ScanWords(len) + SAMPLE_BYTES
      && errlen + 4 * ret == 4 * EndOfScan(frames, ScanWords(len))
  {
    hide Demux, IsFrame, Checkable, Parsed, AllCheckable;
    errlen := 0;
    if len < SAMPLE_BYTES {
      return -1, 0;
    }
    ghost var s := buf[..];
    var speech, availspeech, end := 0, 0, (len - len % SAMPLE_BYTES) / 4;
    RoundedLength(len);
    var datalen := 0;
    ghost var done: seq<nat> := [];
    ParsedNothing(s, end);
    while speech < end
      invariant Parsed(s, buf[..], done, speech, end)
      invariant availspeech == 3 * |done| && speech < end + CHANNELS
      invariant datalen == SAMPLE_BYTES * |done| && errlen + datalen == 4 * speech
      invariant done != [] ==> done[|done| - 1] + CHANNELS <= speech
      invariant speech > end ==> done != [] && done[|done| - 1] + CHANNELS == speech
      decreases end - speech
    {
      ParsedChecks(s, buf[..], done, speech, end);
      var bad := CheckError(buf, speech);
      if bad {
        ParsedWord(s, buf[..], done, speech, end);
        speech := speech + 1;
        errlen := errlen + 4;
        continue;
      }
      ghost var now := buf[..];
      ParsedRoom(s, now, done, speech, end);
      StoreFrame(buf, availspeech, speech, s);
      ParsedFrame(s, now, buf[..], done, speech, end);
      done := done + [speech];
      speech := speech + CHANNELS;
      availspeech := availspeech + 3;
      datalen := datalen + SAMPLE_BYTES;
    }
    ParsedAll(s, buf[..], done, speech, end);
    return datalen / 4, errlen;
  }

  /** The scan ends at the rounded length, or at the end of a last frame that reaches past it. */
  function EndOfScan(frames: seq<nat>, n: nat): nat
  {
    if frames != [] && frames[|frames| - 1] + 12 > n then frames[|frames| - 1] + 12 else n
  }

  lemma ParsedNothing(s: seq<bv32>, n: nat)
    ensures Parsed(s, s, [], 0, n)
  {
    assert [] + Scan(s, 0, n) == Scan(s, 0, n);
  }

  lemma ParsedRoom(s: seq<bv32>, now: seq<bv32>, done: seq<nat>, speech: nat, n: nat)
    requires Parsed(s, now, done, speech, n) && IsFrame(s, speech)
    ensures |now| == |s| && 3 * |done| <= speech && speech + CHANNELS <= |s|
    ensures now[3 * |done|..] == s[3 * |done|..]
  {
  }

  lemma ParsedAll(s: seq<bv32>, now: seq<bv32>, done: seq<nat>, speech: nat, n: nat)
    requires Parsed(s, now, done, speech, n) && speech >= n
    ensures done == FramesIn(s, 0, n)
    ensures 3 * |done| <= |s| == |now|
    ensures now[..3 * |done|] == DemuxAll(s, done) && now[3 * |done|..] == s[3 * |done|..]
  {
    hide Demux;
    assert Scan(s, speech, n) == [];
    ScanFindsAllFrames(s, 0, n);
  }

  /** The three assignments of parseData_INT32.  The target never runs ahead of the source, so each
      source word still has its original value when it is read. */
  method StoreFrame(buf: array<bv32>, availspeech: nat, speech: nat, ghost s: seq<bv32>)
    requires availspeech <= speech && speech + CHANNELS <= buf.Length == |s|
    requires buf[availspeech..] == s[availspeech..]
    modifies buf
    ensures buf[..availspeech + 3] == old(buf[..availspeech]) + Demux(s, speech)
    ensures buf[availspeech + 3..] == s[availspeech + 3..]
  {
    hide Pair;
    ghost var tail := buf[availspeech..];
    assert forall p | availspeech <= p < buf.Length :: buf[p] == tail[p - availspeech] == s[p];
    buf[availspeech] := Pair(buf[speech], buf[speech + 1]);
    buf[availspeech + 1] := Pair(buf[speech + 6], buf[speech + 7]);
    buf[availspeech + 2] := Pair(buf[speech + 3], buf[speech + 9]);
    assert buf[..availspeech] == old(buf[..availspeech]);
  }

  /** skipData: the byte offset of the first frame with some sound in it.  The result lies past the rounded
      length exactly when there is none.  Nothing past such a frame (at `stop`) is read. */
  method SkipData(buf: array<bv32>, len: int, ghost stop: nat) returns (skip: int)
    requires len >= SAMPLE_BYTES ==>
      && stop <= ScanWords(len) && AllCheckable(buf[..], stop)
      && (stop == ScanWords(len) || IsUsable(buf[..], stop))
    ensures len < SAMPLE_BYTES ==> skip == -1
    ensures len >= SAMPLE_BYTES ==>
      && skip >= 0 && skip % 4 == 0
      && (forall i | 0 <= i < skip / 4 && i < ScanWords(len) :: !IsUsable(buf[..], i))
      && (skip < 4 * ScanWords(len) ==> IsUsable(buf[..], skip / 4))
      && skip < 4 * ScanWords(len) + SAMPLE_BYTES
  {
    hide Tag, ChannelTag, SilentWord;
    if len < SAMPLE_BYTES {
      return -1;
    }
    var n := (len - len % SAMPLE_BYTES) / 4;
    RoundedLength(len);
    ghost var s := buf[..];
    var pdata := 0;
    skip := 0;
    while skip < 4 * n
      invariant skip == 4 * pdata && pdata < n + CHANNELS
      invariant forall i | 0 <= i < pdata :: !IsUsable(s, i)
      decreases n - pdata
    {
      assert pdata <= stop;
      assert Checkable(s, pdata);
      if buf[pdata] == 0x00000000 {
        ZeroWordStartsNoFrame(s, pdata);
        skip, pdata := skip + 4, pdata + 1;
        continue;
      }
      var bad := CheckError(buf, pdata);
      if bad {
        skip, pdata := skip + 4, pdata + 1;
        continue;
      }
      var silent := CheckData(buf, pdata);
      if silent {
        forall i | pdata < i < pdata + CHANNELS
          ensures !IsUsable(s, i)
        {
          FramesApart(s, pdata, i);
        }
        skip, pdata := skip + 48, pdata + 12;
        continue;
      }
      break;
    }
  }
}
