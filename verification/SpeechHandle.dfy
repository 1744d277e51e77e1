/** The handle of speech/src/speecharray.c, its hardware source, and the capture loop that reads from it. */
module SpeechHandle {
  import opened SpeechFrames
  import opened SpeechParser
  import opened SpeechArray

  /** The hardware as pcm_read shows it: every read succeeds and delivers the next words of an endless stream. */
  class PcmSource {
    const stream: nat -> bv32
    var pos: nat

    constructor (stream: nat -> bv32)
      ensures this.stream == stream && pos == 0
    {
      this.stream := stream;
      pos := 0;
    }

    method Read(data: array<bv32>, at: nat, bytes: nat)
      requires Whole(bytes) && at + bytes / 4 <= data.Length
      modifies this`pos, data
      ensures pos == old(pos) + bytes / 4
      ensures data[..at] == old(data[..at])
      ensures data[at..at + bytes / 4] == Segment(stream, old(pos), pos)
    {
      var n := bytes / 4;
      ghost var start := pos;
      for i := 0 to n
        invariant pos == start + i
        invariant data[..at] == old(data[..at])
        invariant data[at..at + i] == Segment(stream, start, start + i)
      {
        ghost var before := data[at..at + i];
        data[at + i] := stream(pos);
        assert data[at..at + i + 1] == before + [stream(start + i)];
        pos := pos + 1;
      }
    }
  }

  lemma SegmentJoin(hw: nat -> bv32, a: nat, b: nat, c: nat)
    requires a <= b <= c
    ensures Segment(hw, a, b) + Segment(hw, b, c) == Segment(hw, a, c)
  {
  }

  class Handle {
    const buffSize: nat
    const buffer: array<bv32>
    const pcm: PcmSource
    var dataSize: nat

    /** The left-over is whole hardware frames, at most half a buffer, and the last words the hardware delivered. */
    ghost predicate Valid()
      reads this, buffer, pcm
    {
      && buffSize % SAMPLE_BYTES == 0 && buffSize > 0
      && buffer.Length == buffSize / 4
      && Whole(dataSize) && dataSize <= buffSize / HW_BUFFER_COUNT
      && dataSize / 4 <= pcm.pos
      && buffer[..dataSize / 4] == Segment(pcm.stream, pcm.pos - dataSize / 4, pcm.pos)
    }

    /** The first word of the stream that has not been handed out. */
    ghost function Frontier(): nat
      requires Valid()
      reads this, buffer, pcm
    {
      pcm.pos - dataSize / 4
    }

    /** The part of speechArrayOpen that sets up the buffer. */
    constructor (pcm: PcmSource, buffSize: nat)
      requires buffSize > 0 && buffSize % SAMPLE_BYTES == 0
      ensures Valid() && fresh(buffer) && this.pcm == pcm && this.buffSize == buffSize
      ensures dataSize == 0 && Frontier() == pcm.pos
    {
      this.pcm := pcm;
      this.buffSize := buffSize;
      this.buffer := new bv32[buffSize / 4];
      this.dataSize := 0;
    }

    /** The buffer starts with data words of the stream, from word `from` on to the last one delivered. */
    ghost predicate Filled(from: nat, data: nat)
      reads this, buffer, pcm
    {
      data <= buffer.Length && pcm.pos == from + data && buffer[..data] == Segment(pcm.stream, from, pcm.pos)
    }

    /** Reads behind the words the buffer holds. */
    method ReadMore(data: nat, bytes: nat, ghost from: nat)
      requires Whole(bytes) && data + bytes / 4 <= buffer.Length
      requires Filled(from, data)
      modifies buffer, pcm`pos
      ensures Filled(from, data + bytes / 4)
    {
      hide Segment;
      ghost var before := pcm.pos;
      pcm.Read(buffer, data, bytes);
      SegmentJoin(pcm.stream, from, before, pcm.pos);
      assert buffer[..data + bytes / 4] == buffer[..data] + buffer[data..data + bytes / 4];
    }

    /** memcpy of n words from word `from` to the start of the buffer, as a move. */
    method MoveDown(from: nat, n: nat)
      requires from + n <= buffer.Length
      modifies buffer
      ensures buffer[..n] == old(buffer[from..from + n])
    {
      for i := 0 to n
        invariant forall k | 0 <= k < i :: buffer[k] == old(buffer[from + k])
        invariant forall k | i <= k < buffer.Length :: buffer[k] == old(buffer[k])
      {
        buffer[i] := buffer[from + i];
      }
    }

    /** memset to 0 of the buffer from word `from` on. */
    method ClearFrom(from: nat)
      requires from <= buffer.Length
      modifies buffer
      ensures buffer[..from] == old(buffer[..from])
    {
      for i := from to buffer.Length
        invariant buffer[..from] == old(buffer[..from])
      {
        buffer[i] := 0;
      }
    }

    /** Drops the garbage in front of the first good frame. */
    method Resync(data: nat, ghost c: nat, ghost g: nat) returns (skip: nat)
      requires Filled(c, data)
      requires SyncsAfter(pcm.stream, c, g) && g + CHANNELS <= data
      modifies buffer
      ensures skip == 4 * g
      ensures Filled(c + g, data - g)
    {
      hide SyncsAfter, IsUsable, AllCheckable;
      ghost var s := buffer[..];
      assert s[..data] == buffer[..data];
      SkipIsSafe(pcm.stream, s, c, data, g);
      var skipData := SkipData(buffer, 4 * data, g);
      SkipLands(s, data, g, skipData);
      skip := skipData;
      assert s[g..data] == s[..data][g..] == Segment(pcm.stream, c + g, pcm.pos);
      if skip > 0 {
        MoveDown(skip / 4, data - skip / 4);
        assert buffer[..data - g] == s[g..g + (data - g)];
      }
    }

    static lemma SkipLands(s: seq<bv32>, data: nat, g: nat, skip: int)
      requires g < ScanWords(4 * data) && IsUsable(s, g) && forall i | 0 <= i < g :: !IsUsable(s, i)
      requires skip >= 0 && skip % 4 == 0
      requires forall i | 0 <= i < skip / 4 && i < ScanWords(4 * data) :: !IsUsable(s, i)
      requires skip < 4 * ScanWords(4 * data) ==> IsUsable(s, skip / 4)
      ensures skip == 4 * g
    {
      hide IsUsable, ScanWords;
    }

    /** The check_skip branch: drops the garbage and works out what to read in its place. */
    method SkipGarbage(n: nat, readSize: nat, data: nat, ghost c: nat, ghost g: nat) returns (skip: nat, readBytes: nat)
      requires Request(n, buffSize)
      requires Filled(c, data)
      requires SyncsAfter(pcm.stream, c, g) && g + CHANNELS <= data
      requires Suffices(4 * data, n, buffSize) && Whole(4 * data)
      requires g > 0 ==> 4 * data == readSize == FirstReadSize(n, 0, buffSize) && 4 * g + SAMPLE_BYTES <= readSize
      modifies buffer
      ensures skip == 4 * g && g <= data
      ensures Filled(c + g, data - g)
      ensures Whole(readBytes) && Whole(4 * (data - g)) && Suffices(4 * (data - g) + readBytes, n, buffSize)
      ensures readBytes == if g == 0 then 0 else SecondReadSize(n, readSize, 4 * g, 4 * data - 4 * g, buffSize)
    {
      hide SyncsAfter, FirstReadSize, SecondReadSize, Segment, Whole, Suffices, Request;
      SyncsEven(pcm.stream, c, g);
      skip := Resync(data, c, g);
      readBytes := 0;
      ZeroIsWhole();
      if skip > 0 {
        SecondReadBounds(n, skip, buffSize);
        readBytes := SecondReadSize(n, readSize, skip, 4 * data - skip, buffSize);
      }
    }

    /** The do-while loop of SpeechArrayRead up to the parse: read, drop garbage once, read again if that left
        too little.  Afterwards the buffer starts at the first good frame. */
    method Fill(n: nat, ghost g: nat) returns (avail: nat)
      requires Valid()
      requires Request(n, buffSize)
      requires SyncsAfter(pcm.stream, Frontier(), g)
      requires g > 0 ==> dataSize == 0 && 4 * g + SAMPLE_BYTES <= FirstReadSize(n, 0, buffSize)
      modifies buffer, pcm`pos
      ensures Whole(avail) && Suffices(avail, n, buffSize) && avail == 4 * (avail / 4)
      ensures Filled(old(Frontier()) + g, avail / 4)
      ensures var first := FirstReadSize(n, dataSize, buffSize);
        avail == if g == 0 then dataSize + first
                 else first - 4 * g + SecondReadSize(n, first, 4 * g, first - 4 * g, buffSize)
    {
      hide SyncsAfter, FirstReadSize, SecondReadSize, Segment, Whole, Suffices, Request, Valid, Filled, Frontier;
      ghost var c := Frontier();
      ValidParts();
      var data, readSize := dataSize / 4, FirstReadSize(n, dataSize, buffSize);
      avail := dataSize;
      ghost var total := if g == 0 then dataSize + readSize
                         else readSize - 4 * g + SecondReadSize(n, readSize, 4 * g, readSize - 4 * g, buffSize);
      FirstReadBounds(n, dataSize, buffSize);
      GarbageReadWhole(n, dataSize, buffSize, g);
      var readBytes: nat := readSize;
      var checkSkip := false;
      ghost var from := c;
      while true
        invariant Whole(readBytes) && Whole(avail) && avail == 4 * data
        invariant Suffices(avail + readBytes, n, buffSize)
        invariant !checkSkip ==> avail == dataSize && readBytes == readSize
        invariant checkSkip ==> g > 0 && avail + readBytes == total
        invariant from == (if checkSkip then c + g else c) && Filled(from, data)
        decreases if checkSkip then 0 else 1
      {
        BufferHolds(avail, readBytes, n, buffSize);
        if readBytes != 0 {
          ReadMore(data, readBytes, from);
        }
        avail := avail + readBytes;
        data := data + readBytes / 4;
        if !checkSkip {
          var skip;
          skip, readBytes := SkipGarbage(n, readSize, data, c, g);
          if skip > 0 {
            data := data - skip / 4;
            avail := avail - skip;
            checkSkip, from := true, c + g;
            if readBytes != 0 {
              continue;
            }
          }
        }
        break;
      }
    }

    lemma ValidParts()
      requires Valid()
      ensures Whole(dataSize) && dataSize == 4 * (dataSize / 4) && buffer.Length == buffSize / 4
      ensures dataSize <= buffSize / HW_BUFFER_COUNT
      ensures Filled(Frontier(), dataSize / 4)
    {
      WholeFramesAdd(dataSize, 0);
    }

    static lemma ZeroIsWhole()
      ensures Whole(0)
    {
    }

    static lemma SyncsEven(hw: nat -> bv32, c: nat, g: nat)
      requires SyncsAfter(hw, c, g)
      ensures Whole(4 * g)
    {
      MultipleOfEight(g / 2);
      assert 4 * g == 8 * (g / 2);
    }

    static lemma BufferHolds(avail: nat, readBytes: nat, n: nat, buffSize: nat)
      requires Whole(avail) && Whole(readBytes) && Suffices(avail + readBytes, n, buffSize)
      ensures avail / 4 + readBytes / 4 <= buffSize / 4 && readBytes == 4 * (readBytes / 4)
      ensures Whole(avail + readBytes) && avail + readBytes == 4 * (avail / 4 + readBytes / 4)
    {
      WholeFramesAdd(avail, readBytes);
      WholeFramesAdd(avail + readBytes, 0);
    }

    static lemma GarbageReadWhole(n: nat, dataSize: nat, buffSize: nat, g: nat)
      requires Request(n, buffSize)
      requires Whole(dataSize) && dataSize <= buffSize / HW_BUFFER_COUNT
      requires g > 0 ==> dataSize == 0 && 4 * g + SAMPLE_BYTES <= FirstReadSize(n, 0, buffSize)
      ensures 4 * (g + CHANNELS) <= dataSize + FirstReadSize(n, dataSize, buffSize)
    {
      hide FirstReadSize;
      FirstReadBounds(n, dataSize, buffSize);
      assert n >= OUT_ALIGN;
    }

    /** The number of bytes a call hands out: what was asked for, capped by what a full buffer yields. */
    function Granted(len: nat): nat
    {
      if len > buffSize / HW_OUT_DATA_RATIO then buffSize / HW_OUT_DATA_RATIO else len
    }

    static predicate BadLength(len: int)
    {
      len <= 0 || len % OUT_ALIGN != 0
    }

    lemma GrantedRequest(len: nat)
      requires Valid() && !BadLength(len)
      ensures Request(Granted(len), buffSize) && Granted(len) <= len
    {
      var b := buffSize / SAMPLE_BYTES;
      assert buffSize == 48 * b;
      assert buffSize / HW_OUT_DATA_RATIO == 12 * b;
    }

    /** A quarter of the buffer is a whole number of output frames, and nothing is lost in the division. */
    lemma HandedOut(len: nat)
      requires Valid() && !BadLength(len)
      ensures var n := Granted(len); 0 < n && 4 * n <= buffSize && (n == len || (n < len && 4 * n == buffSize))
    {
      var b := buffSize / SAMPLE_BYTES;
      assert buffSize == 48 * b;
      assert buffSize / HW_OUT_DATA_RATIO == 12 * b;
    }

    lemma ReadSizesHere(n: nat)
      requires Valid() && Request(n, buffSize)
      ensures FirstReadSize(n, dataSize, buffSize) ==
        if dataSize > 4 * n then 0 else if 4 * n - dataSize < buffSize / 2 then buffSize / 2 else 4 * n - dataSize
    {
      WholeFramesAdd(0, 0);
      ReadSizesExact(n, dataSize, 0, buffSize);
    }

    /** Parses a buffer filled for n output bytes. */
    method ParseFilled(n: nat, avail: nat, ghost c: nat)
      requires Request(n, buffSize) && Suffices(avail, n, buffSize) && avail == 4 * (avail / 4)
      requires Filled(c, avail / 4) && CleanFrom(pcm.stream, c)
      modifies buffer
      ensures n <= avail / 4 <= buffer.Length && n / 4 <= n && pcm.pos == c + avail / 4
      ensures buffer[..n / 4] == DemuxStream(pcm.stream, c, n / CHANNELS)
      ensures buffer[n..avail / 4] == Segment(pcm.stream, c + n, pcm.pos)
    {
      hide CleanFrom, Segment, Request, Suffices, HoldsFrames, Demux;
      ghost var m := n / CHANNELS;
      ghost var s := buffer[..];
      RequestFrames(n, avail, buffSize);
      FilledFrames(s, c, avail / 4, m);
      AlignedCheckable(pcm.stream, s, c, m);
      FilledRest(s, c, avail / 4, n);
      var ret, errlen := ParseData(buffer, 4 * n);
      AlignedParse(pcm.stream, s, c, m);
      RestUntouched(s, buffer[..], 3 * m, n, avail / 4);
    }

    static lemma RestUntouched(before: seq<bv32>, after: seq<bv32>, from: nat, n: nat, w: nat)
      requires |before| == |after| && from <= n <= w <= |before| && before[from..] == after[from..]
      ensures before[n..w] == after[n..w]
    {
      forall j | n <= j < w
        ensures before[j] == after[j]
      {
        assert before[from..][j - from] == after[from..][j - from];
      }
    }

    static lemma RequestFrames(n: nat, avail: nat, buffSize: nat)
      requires Request(n, buffSize) && Suffices(avail, n, buffSize) && avail == 4 * (avail / 4)
      ensures n == CHANNELS * (n / CHANNELS) && n / CHANNELS > 0
      ensures n / 4 == 3 * (n / CHANNELS) && ScanWords(4 * n) == n && 4 * n >= SAMPLE_BYTES
      ensures n <= avail / 4
    {
      var m := n / CHANNELS;
      assert n == 12 * m;
      assert 48 * m / 48 == m;
    }

    lemma FilledFrames(s: seq<bv32>, c: nat, w: nat, m: nat)
      requires s == buffer[..] && Filled(c, w) && CHANNELS * m <= w
      ensures HoldsFrames(pcm.stream, s, c, m)
    {
      assert s[..CHANNELS * m] == buffer[..w][..CHANNELS * m];
    }

    lemma FilledRest(s: seq<bv32>, c: nat, w: nat, n: nat)
      requires s == buffer[..] && Filled(c, w) && n <= w
      ensures s[n..w] == Segment(pcm.stream, c + n, pcm.pos)
    {
      assert s[n..w] == buffer[..w][n..];
    }

    /** Keeps the words after the first n for the next call. */
    method KeepRest(n: nat, avail: nat, ghost c: nat)
      requires buffSize % SAMPLE_BYTES == 0 && buffSize > 0 && buffer.Length == buffSize / 4
      requires Request(n, buffSize) && Whole(avail) && Suffices(avail, n, buffSize) && n <= avail / 4 <= buffer.Length
      requires pcm.pos == c + avail / 4 && buffer[n..avail / 4] == Segment(pcm.stream, c + n, pcm.pos)
      modifies this`dataSize, buffer
      ensures Valid() && Frontier() == c + n
    {
      hide Segment, Whole, Request, Suffices;
      RestSizes(n, avail, buffSize);
      dataSize := avail - 4 * n;
      if dataSize > 0 {
        MoveDown(n, dataSize / 4);
        ghost var kept := buffer[..dataSize / 4];
        ClearFrom(dataSize / 4);
        assert buffer[..dataSize / 4] == kept;
      } else {
        assert buffer[..dataSize / 4] == buffer[n..avail / 4];
      }
    }

    static lemma RestSizes(n: nat, avail: nat, buffSize: nat)
      requires Request(n, buffSize) && Whole(avail) && Suffices(avail, n, buffSize)
      ensures avail >= 4 * n && Whole(avail - 4 * n) && avail - 4 * n <= buffSize / HW_BUFFER_COUNT
      ensures (avail - 4 * n) / 4 == avail / 4 - n
    {
      var k, q := n / OUT_ALIGN, avail / HW_ALIGN;
      assert n == 12 * k && avail == 8 * q;
      MultipleOfEight(q - 6 * k);
    }

    /** SpeechArrayRead from the capped length on. */
    method Serve(buff: array<bv32>, n: nat, ghost g: nat)
      requires Valid() && buff != buffer && 4 * buff.Length >= n && Request(n, buffSize)
      requires SyncsAfter(pcm.stream, Frontier(), g)
      requires g > 0 ==> dataSize == 0 && 4 * g + SAMPLE_BYTES <= FirstReadSize(n, 0, buffSize)
      modifies this`dataSize, buffer, pcm`pos, buff
      ensures Valid() && Frontier() == old(Frontier()) + g + n && SyncsAfter(pcm.stream, Frontier(), 0)
      ensures n / 4 <= buff.Length
      ensures buff[..n / 4] == DemuxStream(pcm.stream, old(Frontier()) + g, n / CHANNELS)
      ensures buff[n / 4..] == old(buff[n / 4..])
      ensures g == 0 ==> 4 * (pcm.pos - old(pcm.pos)) == FirstReadSize(n, old(dataSize), buffSize)
    {
      hide SyncsAfter, FirstReadSize, SecondReadSize, Segment, Whole, Suffices, Request, CleanFrom, Filled, HoldsFrames;
      hide DemuxStream;
      LeftOverWhole();
      ghost var c, pos0 := Frontier() + g, pcm.pos;
      ghost var first := FirstReadSize(n, dataSize, buffSize);
      ghost var left := dataSize / 4;
      var avail := Fill(n, g);
      RequestWhole(n, buffSize);
      SyncedClean(pcm.stream, old(Frontier()), g, n);
      ParseFilled(n, avail, c);
      CopyOut(buff, n / 4);
      KeepRest(n, avail, c);
    }

    lemma LeftOverWhole()
      requires Valid()
      ensures dataSize == 4 * (dataSize / 4)
    {
      WholeFramesAdd(dataSize, 0);
    }

    static lemma RequestWhole(n: nat, buffSize: nat)
      requires Request(n, buffSize)
      ensures n % OUT_ALIGN == 0
    {
    }

    /** SpeechArrayRead.  A stream that is in step, or gets in step after g words of garbage met with an empty
        left-over, is handed out from its first good frame on: exactly the bytes asked for (up to a quarter of
        the buffer), nothing lost, repeated or reordered.  In step, it reads nothing if the left-over is more than
        enough, and otherwise what is missing, but at least half a buffer. */
    method SpeechArrayRead(buff: array<bv32>, len: int, ghost g: nat) returns (ret: int)
      requires Valid() && buff != buffer && 4 * buff.Length >= len
      requires SyncsAfter(pcm.stream, Frontier(), g)
      requires !BadLength(len) && g > 0 ==>
        dataSize == 0 && 4 * g + SAMPLE_BYTES <= FirstReadSize(Granted(len), 0, buffSize)
      modifies this`dataSize, buffer, pcm`pos, buff
      ensures Valid()
      ensures ret == -1 <==> len <= 0 || len % 12 != 0
      ensures len > 0 && len % 12 == 0 ==> 4 * ret <= buffSize && (ret == len || (ret < len && 4 * ret == buffSize))
      ensures len > 0 && len % 12 == 0 && g == 0 ==>
        4 * (pcm.pos - old(pcm.pos)) ==
          if old(dataSize) > 4 * ret then 0
          else if 4 * ret - old(dataSize) < buffSize / 2 then buffSize / 2 else 4 * ret - old(dataSize)
      ensures BadLength(len) ==>
        ret == -1 && pcm.pos == old(pcm.pos) && Frontier() == old(Frontier()) && buff[..] == old(buff[..])
      ensures !BadLength(len) ==>
        && ret == Granted(len) && ret <= len
        && buff[..ret / 4] == DemuxStream(pcm.stream, old(Frontier()) + g, ret / CHANNELS)
        && buff[ret / 4..] == old(buff[ret / 4..])
        && Frontier() == old(Frontier()) + g + ret
        && SyncsAfter(pcm.stream, Frontier(), 0)
    {
      hide SyncsAfter, FirstReadSize, Request, DemuxStream, Valid, Frontier;
      if BadLength(len) {
        return -1;
      }
      var n: nat := if len > buffSize / HW_OUT_DATA_RATIO then buffSize / HW_OUT_DATA_RATIO else len;
      GrantedRequest(len);
      HandedOut(len);
      ReadSizesHere(n);
      Serve(buff, n, g);
      return n;
    }

    /** memcpy of the first n words to the caller. */
    method CopyOut(buff: array<bv32>, n: nat)
      requires n <= buff.Length && n <= buffer.Length && buff != buffer
      modifies buff
      ensures buff[..n] == buffer[..n] && buff[n..] == old(buff[n..])
    {
      for i := 0 to n
        invariant buff[..i] == buffer[..i]
        invariant buff[n..] == old(buff[n..])
      {
        buff[i] := buffer[i];
      }
    }

    static lemma SyncedClean(hw: nat -> bv32, c: nat, g: nat, n: nat)
      requires SyncsAfter(hw, c, g) && n % OUT_ALIGN == 0
      ensures CleanFrom(hw, c + g)
      ensures SyncsAfter(hw, c + g + n, 0)
    {
      hide GoodFrame;
      var m := n / CHANNELS;
      assert n == CHANNELS * m;
      CleanLater(hw, c + g, m);
    }
  }

  /** The capture loop of speech/test/speecharraytest.c, with any request lengths: what it writes to its file is
      the demultiplexed hardware stream from the first good frame on, without gap or repetition, and as long as
      the requests say: call number i writes up to byte ends[i + 1], which is what it asked for, or a quarter of the
      buffer if that is less. */
  method Capture(h: Handle, buff: array<bv32>, lens: seq<nat>, ghost g: nat)
    returns (file: seq<bv32>, ghost ends: seq<nat>)
    requires h.Valid() && buff != h.buffer
    requires forall i | 0 <= i < |lens| :: !Handle.BadLength(lens[i]) && 4 * buff.Length >= lens[i]
    requires SyncsAfter(h.pcm.stream, h.Frontier(), g)
    requires g > 0 && lens != [] ==>
      h.dataSize == 0 && 4 * g + SAMPLE_BYTES <= FirstReadSize(h.Granted(lens[0]), 0, h.buffSize)
    modifies h`dataSize, h.buffer, h.pcm`pos, buff
    ensures h.Valid()
    ensures |ends| == |lens| + 1 && ends[0] == 0 && 4 * |file| == ends[|lens|]
    ensures forall i | 0 <= i < |lens| ::
      if 4 * lens[i] <= h.buffSize then ends[i + 1] == ends[i] + lens[i]
      else 4 * ends[i + 1] == 4 * ends[i] + h.buffSize
    ensures file == DemuxStream(h.pcm.stream, old(h.Frontier()) + g, |file| / 3)
    ensures lens != [] ==> h.Frontier() == old(h.Frontier()) + g + 4 * |file|
  {
    hide SyncsAfter, FirstReadSize, DemuxStream, Handle.Granted, Handle.BadLength, Handle.Frontier, Handle.Valid;
    hide Served;
    file, ends := [], [0];
    ghost var c := h.Frontier() + g;
    ghost var m := 0;
    EmptyStream(h.pcm.stream, c);
    for i := 0 to |lens|
      invariant h.Valid()
      invariant i == 0 ==> h.Frontier() == c - g && h.dataSize == old(h.dataSize)
      invariant i > 0 ==> h.Frontier() == c + CHANNELS * m
      invariant SyncsAfter(h.pcm.stream, h.Frontier(), if i == 0 then g else 0)
      invariant |file| == 3 * m && |ends| == i + 1 && ends[0] == 0 && 4 * |file| == ends[i]
      invariant forall j | 0 <= j < i :: Served(ends, j, lens[j], h.buffSize)
      invariant file == DemuxStream(h.pcm.stream, c, m)
    {
      var ret := h.SpeechArrayRead(buff, lens[i], if i == 0 then g else 0);
      GrantedFrames(h, lens[i]);
      ghost var k := ret / CHANNELS;
      DemuxStreamJoin(h.pcm.stream, c, m, k);
      file := file + buff[..ret / 4];
      m := m + k;
      ends := ServedMore(ends, lens, i, ret, h.buffSize);
    }
    ServedAll(ends, lens, h.buffSize);
  }

  /** Call number i wrote what it was asked for, or a quarter of the buffer. */
  ghost predicate Served(ends: seq<nat>, i: nat, len: nat, buffSize: nat)
  {
    && i + 1 < |ends|
    && if 4 * len <= buffSize then ends[i + 1] == ends[i] + len else 4 * ends[i + 1] == 4 * ends[i] + buffSize
  }

  lemma ServedMore(ends: seq<nat>, lens: seq<nat>, i: nat, ret: nat, buffSize: nat) returns (more: seq<nat>)
    requires |ends| == i + 1 && i < |lens|
    requires forall j | 0 <= j < i :: Served(ends, j, lens[j], buffSize)
    requires 4 * ret <= buffSize && (ret == lens[i] || (ret < lens[i] && 4 * ret == buffSize))
    ensures |more| == i + 2 && more[0] == ends[0] && more[i + 1] == ends[i] + ret
    ensures forall j | 0 <= j < i + 1 :: Served(more, j, lens[j], buffSize)
  {
    more := ends + [ends[i] + ret];
    forall j | 0 <= j < i + 1
      ensures Served(more, j, lens[j], buffSize)
    {
      if j < i {
        assert Served(ends, j, lens[j], buffSize);
      }
    }
  }

  lemma ServedAll(ends: seq<nat>, lens: seq<nat>, buffSize: nat)
    requires |ends| == |lens| + 1 && forall j | 0 <= j < |lens| :: Served(ends, j, lens[j], buffSize)
    ensures forall i | 0 <= i < |lens| ::
      if 4 * lens[i] <= buffSize then ends[i + 1] == ends[i] + lens[i]
      else 4 * ends[i + 1] == 4 * ends[i] + buffSize
  {
    forall i | 0 <= i < |lens|
      ensures if 4 * lens[i] <= buffSize then ends[i + 1] == ends[i] + lens[i]
              else 4 * ends[i + 1] == 4 * ends[i] + buffSize
    {
      assert Served(ends, i, lens[i], buffSize);
    }
  }

  lemma EmptyStream(hw: nat -> bv32, c: nat)
    ensures DemuxStream(hw, c, 0) == []
  {
  }

  lemma GrantedFrames(h: Handle, len: nat)
    requires h.Valid() && !Handle.BadLength(len)
    ensures var n := h.Granted(len); n == CHANNELS * (n / CHANNELS) && n / 4 == 3 * (n / CHANNELS)
  {
    h.GrantedRequest(len);
    var m := h.Granted(len) / CHANNELS;
    assert h.Granted(len) == 12 * m;
  }
}
