/** Transfers through the mapped PCM buffer (speech/src/pcm.c), while the hardware goes on.  The unit is the
    frame; the counters applFrames and hwFrames, which the source does not keep, count from the start of the stream. */
module PcmMmap {
  import opened RingArithmetic
  import opened PcmPointers
  import opened PcmDevice

  class Mapped<F(0)> {
    const capture: bool
    const bufferSize: nat
    const boundary: nat
    ghost const lapsPerBoundary: nat
    const mmapBuffer: array<F>
    var applPtr: nat
    var hwPtr: nat
    // counters that never wrap
    var applFrames: nat
    var hwFrames: nat
    ghost var applLap: nat
    ghost var hwLap: nat
    var waitForAvailMin: bool
    // what the microphone will have heard (capture); what the application has written, and what the loudspeaker has
    // played (playback)
    const heard: nat -> F
    ghost var sent: seq<F>
    ghost var played: seq<F>
    // how often a transfer met Misread, and how many frames were overwritten before they were played
    ghost var misreads: nat
    ghost var lost: nat
    // how far the hardware gets before each look at its pointer, as far as it can, and how many looks there have been
    const pace: nat -> nat
    var looks: nat

    /** Cell n of the stream in the buffer. */
    ghost predicate InCell(n: nat, f: F)
      reads mmapBuffer
      requires bufferSize > 0 && mmapBuffer.Length == bufferSize
    {
      mmapBuffer[n % bufferSize] == f
    }

    ghost predicate Shape()
      reads this`applPtr, this`hwPtr, this`applFrames, this`hwFrames, this`applLap, this`hwLap
    {
      && 0 < bufferSize && boundary == bufferSize * lapsPerBoundary
      && 2 * bufferSize <= boundary && boundary + bufferSize <= INT_MAX
      && mmapBuffer.Length == bufferSize
      && Pointers(applPtr, hwPtr, applFrames, hwFrames, boundary, applLap, hwLap)
    }

    /** What always holds.  In capture, the frames not yet read are in the buffer, and there is at most a buffer of
        them; in playback, the hardware does not overtake the application. */
    ghost predicate Valid()
      reads this`applPtr, this`hwPtr, this`applFrames, this`hwFrames, this`applLap, this`hwLap,
        this`sent, this`played, mmapBuffer
    {
      && Shape()
      && (capture ==>
            && applFrames <= hwFrames <= applFrames + bufferSize
            && forall n | applFrames <= n < hwFrames :: InCell(n, heard(n)))
      && (!capture ==> hwFrames <= applFrames && |sent| == applFrames && |played| == hwFrames)
    }

    /** In playback: what has been played is what was sent, at most a buffer of frames waits to be played, and these
        frames are in the buffer. */
    ghost predicate Intact()
      reads this`applFrames, this`hwFrames, this`sent, this`played, mmapBuffer
    {
      !capture ==>
        && 0 < bufferSize == mmapBuffer.Length
        && hwFrames <= applFrames == |sent| && applFrames <= hwFrames + bufferSize
        && played == sent[..hwFrames]
        && forall n | hwFrames <= n < applFrames :: InCell(n, sent[n])
    }

    /** Frames that can be transferred: captured and not yet read, or free to be written. */
    ghost function Room(): int
      reads this`applFrames, this`hwFrames
    {
      if capture then hwFrames - applFrames else bufferSize - (applFrames - hwFrames)
    }

    /** In playback, the pointers make a full buffer look like a boundary of free frames. */
    ghost predicate Misread()
      reads this`applPtr, this`hwPtr
    {
      !capture && hwPtr + bufferSize == applPtr + boundary
    }

    /** How many of the frames that wait to be played a transfer of so many frames overwrites. */
    ghost function Overwrites(frames: nat): nat
      reads this`applFrames, this`hwFrames
    {
      if capture || frames <= Room() then 0 else Min(frames, frames - Room())
    }

    constructor (capture: bool, bufferSize: nat, boundary: nat, ghost lapsPerBoundary: nat,
                 heard: nat -> F, pace: nat -> nat)
      requires 0 < bufferSize && boundary == bufferSize * lapsPerBoundary
      requires 2 * bufferSize <= boundary && boundary + bufferSize <= INT_MAX
      ensures Valid() && Intact() && fresh(mmapBuffer)
      ensures this.capture == capture && this.bufferSize == bufferSize && this.boundary == boundary
      ensures this.heard == heard && this.pace == pace
      ensures applFrames == hwFrames == misreads == lost == looks == 0
    {
      this.capture, this.bufferSize, this.boundary := capture, bufferSize, boundary;
      this.lapsPerBoundary, this.heard, this.pace := lapsPerBoundary, heard, pace;
      mmapBuffer := new F[bufferSize];
      applPtr, hwPtr, applFrames, hwFrames, applLap, hwLap := 0, 0, 0, 0, 0, 0;
      sent, played, misreads, lost, looks := [], [], 0, 0, 0;
      waitForAvailMin := false;
    }

    // ---------- the hardware ----------

    /** One frame of the hardware's work: a frame captured into the next cell, or one played from it. */
    method HardwareFrame()
      requires Valid()
      requires if capture then hwFrames < applFrames + bufferSize else hwFrames < applFrames
      modifies this`hwPtr, this`hwFrames, this`hwLap, this`played, mmapBuffer
      ensures Valid() && hwFrames == old(hwFrames) + 1
      ensures !capture ==> mmapBuffer[..] == old(mmapBuffer[..])
      ensures !capture ==> played == old(played) + [mmapBuffer[old(hwFrames) % bufferSize]]
      ensures old(Intact()) ==> Intact()
    {
      if capture {
        var cell := hwFrames % bufferSize;
        forall n | applFrames <= n < hwFrames
          ensures n % bufferSize != cell
        {
          CellsApart(applFrames, n - applFrames, hwFrames - applFrames, bufferSize);
        }
        mmapBuffer[cell] := heard(hwFrames);
      } else {
        assert Intact() ==> InCell(hwFrames, sent[hwFrames]);
        played := played + [mmapBuffer[hwFrames % bufferSize]];
      }
      MulSucc(boundary, hwLap);
      hwFrames := hwFrames + 1;
      if hwPtr + 1 == boundary {
        hwPtr := 0;
        hwLap := hwLap + 1;
      } else {
        hwPtr := hwPtr + 1;
      }
    }

    /** How far the hardware can get: it overwrites no frame that is not yet read, and plays none that is not sent. */
    ghost function Ahead(): int
      reads this`applFrames, this`hwFrames
    {
      if capture then applFrames + bufferSize - hwFrames else applFrames - hwFrames
    }

    /** Where the hardware has got to at the next look at its pointer. */
    ghost function NextHwFrames(): int
      reads this`applFrames, this`hwFrames, this`looks
    {
      hwFrames + Min(pace(looks), Ahead())
    }

    /** The hardware gets on, by any number of frames: the pace is arbitrary. */
    method Hardware()
      requires Valid()
      modifies this`hwPtr, this`hwFrames, this`hwLap, this`looks, this`played, mmapBuffer
      ensures Valid() && hwFrames >= old(hwFrames)
      ensures hwFrames == old(NextHwFrames()) && looks == old(looks) + 1
      ensures !capture ==> mmapBuffer[..] == old(mmapBuffer[..])
      ensures old(Intact()) ==> Intact()
    {
      var ahead := if capture then applFrames + bufferSize - hwFrames else applFrames - hwFrames;
      var goal: nat := hwFrames + Min(pace(looks), ahead);
      looks := looks + 1;
      while hwFrames < goal
        invariant looks == old(looks) + 1
        invariant Valid() && old(hwFrames) <= hwFrames <= goal
        invariant !capture ==> mmapBuffer[..] == old(mmapBuffer[..])
        invariant old(Intact()) ==> Intact()
      {
        HardwareFrame();
      }
    }

    // ---------- begin and commit ----------

    /** pcm_mmap_avail: exact in capture; in playback, as long as the queue is intact, exact just when the pointers are
        not misread, which happens with a full buffer only. */
    method PcmMmapAvail() returns (avail: int)
      requires Valid()
      modifies this`hwPtr, this`hwFrames, this`hwLap, this`looks, this`played, mmapBuffer
      ensures Valid() && hwFrames >= old(hwFrames) && 0 <= avail <= boundary
      ensures hwFrames == old(NextHwFrames()) && looks == old(looks) + 1
      ensures !capture ==> mmapBuffer[..] == old(mmapBuffer[..])
      ensures old(Intact()) ==> Intact()
      ensures Intact() ==> (avail == Room() <==> !Misread())
      ensures Intact() && Misread() ==> avail == boundary && Room() == 0
    {
      Hardware();
      assert Layout(bufferSize, boundary) by { LayoutFrom(bufferSize, boundary, lapsPerBoundary); }
      NoOverflow(hwPtr, applPtr, bufferSize, boundary);
      if capture {
        avail := CaptureAvail(hwPtr, applPtr, boundary);
        CaptureAvailExact(applPtr, hwPtr, applFrames, hwFrames, bufferSize, boundary, applLap, hwLap);
      } else {
        avail := PlaybackAvail(hwPtr, applPtr, bufferSize, boundary);
        if applFrames <= hwFrames + bufferSize {
          PlaybackAvailExact(applPtr, hwPtr, applFrames, hwFrames, bufferSize, boundary, applLap, hwLap);
        }
      }
    }

    static lemma LayoutFrom(bufferSize: nat, boundary: nat, k: nat)
      requires 0 < bufferSize && boundary == bufferSize * k
      requires 2 * bufferSize <= boundary && boundary + bufferSize <= INT_MAX
      ensures Layout(bufferSize, boundary)
    {
      if k < 2 {
        MulMonotone(bufferSize, k, 1);
        assert false;
      }
    }

    /** What pcm_mmap_begin takes to be available: what is, or a whole buffer when the pointers are misread. */
    ghost function Offered(): int
      reads this`applPtr, this`hwPtr, this`applFrames, this`hwFrames
    {
      if Misread() then bufferSize else Room()
    }

    /** pcm_mmap_begin: where the next frames go, and how many fit before the end of the buffer. */
    method PcmMmapBegin(wanted: nat) returns (offset: nat, frames: nat)
      requires Valid()
      modifies this`hwPtr, this`hwFrames, this`hwLap, this`looks, this`played, this`misreads, mmapBuffer
      ensures Valid() && hwFrames >= old(hwFrames)
      ensures !capture ==> mmapBuffer[..] == old(mmapBuffer[..])
      ensures old(Intact()) ==> Intact()
      ensures offset == applFrames % bufferSize && frames <= wanted && offset + frames <= bufferSize
      ensures var fit := bufferSize - offset; Intact() ==> frames == Min(wanted, Min(Offered(), fit))
      ensures Intact() && Misread() ==> Room() == 0
      ensures misreads == old(misreads) + (if Misread() then 1 else 0) && looks == old(looks) + 1
    {
      SameCell(applPtr, applFrames, boundary, applLap, bufferSize, lapsPerBoundary);
      offset := applPtr % bufferSize;
      var avail := PcmMmapAvail();
      misreads := misreads + (if Misread() then 1 else 0);
      if avail > bufferSize {
        avail := bufferSize;
      }
      var continuous := bufferSize - offset;
      frames := wanted;
      if frames > avail {
        frames := avail;
      }
      if frames > continuous {
        frames := continuous;
      }
    }

    /** n frames that the microphone hears from frame a on. */
    ghost function Heard(a: nat, n: nat): (s: seq<F>)
      ensures |s| == n
    {
      seq(n, i requires 0 <= i < n => heard(a + i))
    }

    lemma HeardJoin(a: nat, m: nat, n: nat)
      ensures Heard(a, m) + Heard(a + m, n) == Heard(a, m + n)
    {
    }

    /** In capture, the cells from the application's on hold the oldest frames not yet read. */
    lemma CellsHeard(frames: nat)
      requires Valid() && capture && frames <= Room() && applFrames % bufferSize + frames <= bufferSize
      ensures var off := applFrames % bufferSize; mmapBuffer[off..off + frames] == Heard(applFrames, frames)
    {
      var off := applFrames % bufferSize;
      forall j | 0 <= j < frames
        ensures mmapBuffer[off..off + frames][j] == Heard(applFrames, frames)[j]
      {
        CellOf(applFrames, j, bufferSize);
        assert InCell(applFrames + j, heard(applFrames + j));
      }
    }

    /** A frame still queued for playback lies outside the cells that are free to be written. */
    static lemma CellOutside(h: nat, n: nat, a: nat, bufferSize: nat, frames: nat)
      requires bufferSize > 0 && h <= n < a && a + frames <= h + bufferSize
      requires a % bufferSize + frames <= bufferSize
      ensures n % bufferSize < a % bufferSize || n % bufferSize >= a % bufferSize + frames
    {
      var off, cell := a % bufferSize, n % bufferSize;
      if off <= cell < off + frames {
        CellOf(a, cell - off, bufferSize);
        CellsApart(h, n - h, a + (cell - off) - h, bufferSize);
        assert false;
      }
    }

    /** The frames written beyond the free cells land in the cells of the frames to be played next. */
    static lemma CellHit(h: nat, a: nat, bufferSize: nat, frames: nat, k: nat)
      requires bufferSize > 0 && h <= a <= h + bufferSize && a % bufferSize + frames <= bufferSize
      requires var room := bufferSize - (a - h); room + k < frames
      ensures var room := bufferSize - (a - h); (h + k) % bufferSize == a % bufferSize + (room + k)
    {
      var room := bufferSize - (a - h);
      CellOf(a, room + k, bufferSize);
      var q, r := (h + k) / bufferSize, (h + k) % bufferSize;
      MulSucc(bufferSize, q);
      QuotientOf(a + (room + k), bufferSize, q + 1, r);
    }

    /** memcpy of n frames between two buffers. */
    static method CopyFrames(src: array<F>, from: nat, dst: array<F>, to: nat, n: nat)
      requires src != dst && from + n <= src.Length && to + n <= dst.Length
      modifies dst
      ensures dst[to..to + n] == src[from..from + n]
      ensures dst[..to] == old(dst[..to]) && dst[to + n..] == old(dst[to + n..])
    {
      forall j | to <= j < to + n {
        dst[j] := src[from + (j - to)];
      }
    }

    /** pcm_areas_copy of a stretch that starts at the application's cell and does not pass the end of the buffer.  In
        playback, frames that exceed the free ones replace just as many of the frames to be played next. */
    method PcmAreasCopy(pcmOffset: nat, buf: array<F>, srcOffset: nat, frames: nat)
      requires Valid() && buf != mmapBuffer && srcOffset + frames <= buf.Length
      requires pcmOffset == applFrames % bufferSize && pcmOffset + frames <= bufferSize
      requires capture ==> frames <= Room()
      modifies this`lost, mmapBuffer, buf
      ensures Valid() && lost == old(lost) + Overwrites(frames)
      ensures old(Intact()) && frames <= Room() ==> Intact()
      ensures capture ==>
        && buf[srcOffset..srcOffset + frames] == Heard(applFrames, frames)
        && buf[..srcOffset] == old(buf[..srcOffset]) && buf[srcOffset + frames..] == old(buf[srcOffset + frames..])
      ensures !capture ==>
        && buf[..] == old(buf[..])
        && mmapBuffer[pcmOffset..pcmOffset + frames] == buf[srcOffset..srcOffset + frames]
      ensures old(Intact()) ==> Replaced(buf[..], srcOffset, frames)
    {
      hide Heard;
      ghost var intact := Intact();
      lost := lost + Overwrites(frames);
      if capture {
        CellsHeard(frames);
        CopyFrames(mmapBuffer, pcmOffset, buf, srcOffset, frames);
      } else {
        CopyOut(pcmOffset, buf, srcOffset, frames);
      }
      if intact {
        NextReplaced(buf[..], srcOffset, frames);
      }
    }

    /** The playback half of pcm_areas_copy. */
    method CopyOut(pcmOffset: nat, buf: array<F>, srcOffset: nat, frames: nat)
      requires Shape() && !capture && buf != mmapBuffer && srcOffset + frames <= buf.Length
      requires pcmOffset == applFrames % bufferSize && pcmOffset + frames <= bufferSize
      modifies mmapBuffer
      ensures mmapBuffer[pcmOffset..pcmOffset + frames] == buf[srcOffset..srcOffset + frames]
      ensures old(Intact()) && frames <= Room() ==> Intact()
    {
      ghost var cells := mmapBuffer[..];
      ghost var fits := Intact() && frames <= Room();
      CopyFrames(buf, srcOffset, mmapBuffer, pcmOffset, frames);
      if fits {
        forall n | hwFrames <= n < applFrames
          ensures InCell(n, sent[n])
        {
          assert old(InCell(n, sent[n]));
          CellOutside(hwFrames, n, applFrames, bufferSize, frames);
          CellUntouched(cells, mmapBuffer[..], pcmOffset, frames, n % bufferSize);
        }
      }
    }

    /** Instead of frame n, the k-th of those that wait to be played, the loudspeaker will play the k-th of the frames
        that a transfer from src writes in excess of the free ones. */
    ghost predicate PlaysInstead(n: nat, src: seq<F>, srcOffset: nat)
      requires bufferSize > 0 && mmapBuffer.Length == bufferSize
      reads this`applFrames, this`hwFrames, mmapBuffer
    {
      var at := srcOffset + Room() + (n - hwFrames);
      0 <= at < |src| && InCell(n, src[at])
    }

    /** The frames that a transfer writes in excess of the free ones are played in place of the next ones. */
    ghost predicate Replaced(src: seq<F>, srcOffset: nat, frames: nat)
      reads this`applFrames, this`hwFrames, mmapBuffer
    {
      && 0 < bufferSize == mmapBuffer.Length && 0 <= Room()
      && forall n | hwFrames <= n < hwFrames + Overwrites(frames) :: PlaysInstead(n, src, srcOffset)
    }

    lemma NextReplaced(src: seq<F>, srcOffset: nat, frames: nat)
      requires 0 < bufferSize == mmapBuffer.Length && 0 <= Room()
      requires capture || hwFrames <= applFrames
      requires srcOffset + frames <= |src| && applFrames % bufferSize + frames <= bufferSize
      requires var off := applFrames % bufferSize;
        !capture ==> mmapBuffer[off..off + frames] == src[srcOffset..srcOffset + frames]
      ensures Replaced(src, srcOffset, frames)
    {
      var off := applFrames % bufferSize;
      forall n | hwFrames <= n < hwFrames + Overwrites(frames)
        ensures PlaysInstead(n, src, srcOffset)
      {
        var k := n - hwFrames;
        CellHit(hwFrames, applFrames, bufferSize, frames, k);
        assert mmapBuffer[off..off + frames][Room() + k] == src[srcOffset..srcOffset + frames][Room() + k];
      }
    }

    static lemma CellUntouched(before: seq<F>, after: seq<F>, off: nat, frames: nat, cell: nat)
      requires |before| == |after| && off + frames <= |before| && cell < |before|
      requires before[..off] == after[..off] && before[off + frames..] == after[off + frames..]
      requires cell < off || cell >= off + frames
      ensures before[cell] == after[cell]
    {
      if cell < off {
        assert before[cell] == before[..off][cell];
      } else {
        assert before[cell] == before[off + frames..][cell - off - frames];
      }
    }

    /** pcm_mmap_appl_forward, and what the counters and the history of the stream make of it. */
    method Forward(offset: nat, frames: nat, ghost data: seq<F>)
      requires Valid() && offset == applFrames % bufferSize && offset + frames <= bufferSize
      requires capture ==> frames <= Room()
      requires !capture ==> mmapBuffer[offset..offset + frames] == data
      modifies this`applPtr, this`applFrames, this`applLap, this`sent
      ensures Valid() && applFrames == old(applFrames) + frames
      ensures !capture ==> sent == old(sent) + data
      ensures old(Intact()) && frames <= old(Room()) ==> Intact()
    {
      ApplForwardShows(applPtr, frames, applFrames, boundary, applLap);
      applLap := if applPtr + frames > boundary then applLap + 1 else applLap;
      applPtr := ApplForward(applPtr, frames, boundary);
      applFrames := applFrames + frames;
      if !capture {
        sent := sent + data;
        forall n | old(applFrames) <= n < applFrames
          ensures InCell(n, sent[n])
        {
          CellOf(old(applFrames), n - old(applFrames), bufferSize);
          assert mmapBuffer[offset..offset + frames][n - old(applFrames)] == data[n - old(applFrames)];
        }
        assert old(Intact()) ==> forall n | hwFrames <= n < old(applFrames) :: old(InCell(n, sent[n]));
      }
    }

    /** pcm_mmap_commit: moves the application pointer past the frames, and lets the hardware know. */
    method PcmMmapCommit(offset: nat, frames: nat, ghost data: seq<F>) returns (commit: nat)
      requires Valid() && offset == applFrames % bufferSize && offset + frames <= bufferSize
      requires capture ==> frames <= Room()
      requires !capture ==> mmapBuffer[offset..offset + frames] == data
      modifies this`applPtr, this`applFrames, this`applLap, this`sent
      modifies this`hwPtr, this`hwFrames, this`hwLap, this`looks, this`played, mmapBuffer
      ensures Valid() && commit == frames && applFrames == old(applFrames) + frames && hwFrames >= old(hwFrames)
      ensures !capture ==> sent == old(sent) + data
      ensures old(Intact()) && frames <= old(Room()) ==> Intact()
      ensures looks == old(looks) + 1
    {
      hide Valid, Intact;
      Forward(offset, frames, data);
      Hardware();
      return frames;
    }

    /** Of a transfer of size frames between the caller's buffer, from offset on, and the stream, from frame a on,
        count frames are done: in capture they are the oldest frames not yet read; in playback, the caller's frames
        follow what was sent before. */
    ghost predicate Moved(buf0: seq<F>, sent0: seq<F>, buf: seq<F>, offset: nat, count: nat, size: nat, a: nat)
      reads this`applFrames, this`sent
    {
      applFrames == a + count && MovedTo(buf0, sent0, buf, sent, offset, count, size, a)
    }

    ghost predicate MovedTo(buf0: seq<F>, sent0: seq<F>, buf: seq<F>, sent1: seq<F>,
                            offset: nat, count: nat, size: nat, a: nat)
    {
      && |buf| == |buf0| && offset + size <= |buf| && count <= size
      && (capture ==>
            && buf[offset..offset + count] == Heard(a, count)
            && buf[..offset] == buf0[..offset] && buf[offset + size..] == buf0[offset + size..])
      && (!capture ==> buf == buf0 && sent1 == sent0 + buf0[offset..offset + count])
    }

    /** A chunk more. */
    lemma MovedMore(buf0: seq<F>, sent0: seq<F>, before: seq<F>, was: seq<F>, after: seq<F>, now: seq<F>,
                    offset: nat, count: nat, frames: nat, size: nat, a: nat)
      requires MovedTo(buf0, sent0, before, was, offset, count, size, a)
      requires |after| == |before| && count + frames <= size
      requires capture ==>
        && after[offset + count..offset + count + frames] == Heard(a + count, frames)
        && after[..offset + count] == before[..offset + count]
        && after[offset + count + frames..] == before[offset + count + frames..]
      requires !capture ==> after == before && now == was + after[offset + count..offset + count + frames]
      ensures MovedTo(buf0, sent0, after, now, offset, count + frames, size, a)
    {
      hide Heard;
      if capture {
        HeardJoin(a, count, frames);
        DataJoin(before, after, offset, count, frames, size);
      } else {
        var chunk := buf0[offset + count..offset + count + frames];
        assert buf0[offset..offset + count] + chunk == buf0[offset..offset + count + frames];
      }
    }

    /** The application stands at the start of the buffer. */
    ghost predicate AtStart()
      reads this`applFrames
    {
      bufferSize > 0 && applFrames % bufferSize == 0
    }

    /** What becomes of an intact queue: it stays intact if and only if no transfer has met misread pointers; otherwise
        frames were overwritten before they were played. */
    ghost predicate Kept(misreads0: nat, lost0: nat)
      reads this`applFrames, this`hwFrames, this`sent, this`played, this`misreads, this`lost, mmapBuffer
    {
      && misreads0 <= misreads && lost0 <= lost
      && (misreads == misreads0 ==> lost == lost0 && Intact())
      && (misreads > misreads0 ==> lost > lost0)
    }

    /** One round of the transfer loop: begin, copy, commit. */
    method TransferChunk(buf: array<F>, at: nat, wanted: nat) returns (commit: nat)
      requires Valid() && buf != mmapBuffer && 0 < wanted && at + wanted <= buf.Length
      modifies this`applPtr, this`applFrames, this`applLap, this`sent, this`misreads, this`lost
      modifies this`hwPtr, this`hwFrames, this`hwLap, this`looks, this`played, mmapBuffer, buf
      ensures Valid() && commit <= wanted
      ensures applFrames == old(applFrames) + commit && hwFrames >= old(hwFrames) && looks == old(looks) + 2
      ensures capture ==>
        && buf[at..at + commit] == Heard(old(applFrames), commit)
        && buf[..at] == old(buf[..at]) && buf[at + commit..] == old(buf[at + commit..])
      ensures !capture ==> buf[..] == old(buf[..]) && sent == old(sent) + buf[at..at + commit]
      ensures misreads >= old(misreads) && lost >= old(lost)
      ensures old(Intact()) ==> Kept(old(misreads), old(lost))
      ensures old(Intact()) && wanted <= old(Room()) ==>
        && commit > 0 && misreads == old(misreads)
        && (commit < wanted ==> AtStart())
        && (old(AtStart()) ==> commit == wanted)
    {
      hide Valid, Intact, Heard;
      ValidRoom();
      ghost var intact, room0 := Intact(), Room();
      var pcmOffset, frames := PcmMmapBegin(wanted);
      ValidRoom();
      if intact {
        ChunkSize(applFrames, frames, bufferSize, wanted, Room(), Misread());
      }
      if intact && wanted <= room0 {
        ChunkEnds(applFrames, frames, bufferSize, wanted, Room());
      }
      PcmAreasCopy(pcmOffset, buf, at, frames);
      ghost var data := buf[at..at + frames];
      commit := PcmMmapCommit(pcmOffset, frames, data);
    }

    /** An intact queue: the chunk is not empty and exceeds the free frames if the pointers are misread, and fits
        otherwise. */
    static lemma ChunkSize(a: nat, frames: nat, bufferSize: nat, wanted: nat, room: int, misread: bool)
      requires bufferSize > 0 && wanted > 0 && 0 <= room && (misread ==> room == 0)
      requires var fit := bufferSize - a % bufferSize;
        frames == Min(wanted, Min(if misread then bufferSize else room, fit))
      ensures if misread then frames > room else frames <= room
    {
    }

    /** pcm_mmap_transfer_areas.  A transfer of no more than what is available moves exactly the frames asked for, in
        stream order, in at most two chunks, with the hardware free to get on in between.  Any other goes round until
        enough has become available; only if it goes round in vain more often than patience says, count falls short. */
    method PcmMmapTransferAreas(buf: array<F>, offset: nat, size: nat, patience: nat) returns (count: nat, chunks: nat)
      requires Valid() && buf != mmapBuffer && offset + size <= buf.Length
      modifies this`applPtr, this`applFrames, this`applLap, this`sent, this`misreads, this`lost
      modifies this`hwPtr, this`hwFrames, this`hwLap, this`looks, this`played, mmapBuffer, buf
      ensures Valid() && count <= size && hwFrames >= old(hwFrames)
      ensures looks == old(looks) + 2 * chunks && (count < size ==> chunks > patience)
      ensures Moved(old(buf[..]), old(sent), buf[..], offset, count, size, old(applFrames))
      ensures misreads >= old(misreads) && lost >= old(lost)
      ensures old(Intact()) ==> Kept(old(misreads), old(lost))
      ensures old(Intact()) && size <= old(Room()) ==> count == size && chunks <= 2 && misreads == old(misreads)
    {
      hide Valid, Intact, MovedTo, Heard, AtStart;
      count, chunks := 0, 0;
      var vain := 0;
      ghost var buf0, sent0, a := buf[..], sent, applFrames;
      ghost var fits := Intact() && size <= Room();
      NothingMoved(buf0, offset, size);
      while count < size
        invariant Valid() && count <= size && vain <= patience && hwFrames >= old(hwFrames)
        invariant vain <= chunks && looks == old(looks) + 2 * chunks
        invariant Moved(buf0, sent0, buf[..], offset, count, size, a)
        invariant misreads >= old(misreads) && lost >= old(lost)
        invariant old(Intact()) ==> Kept(old(misreads), old(lost))
        invariant fits ==> size - count <= Room() && misreads == old(misreads)
        invariant fits ==> chunks <= 2 && (count < size ==> chunks <= 1) && (chunks == 1 && count < size ==> AtStart())
        decreases size - count, patience - vain
      {
        ghost var before, was := buf[..], sent;
        var commit := TransferChunk(buf, offset + count, size - count);
        MovedMore(buf0, sent0, before, was, buf[..], sent, offset, count, commit, size, a);
        count := count + commit;
        chunks := chunks + 1;
        if commit == 0 {
          if vain == patience {
            return;
          }
          vain := vain + 1;
        }
      }
    }

    lemma NothingMoved(buf: seq<F>, offset: nat, size: nat)
      requires offset + size <= |buf|
      ensures Moved(buf, sent, buf, offset, 0, size, applFrames)
    {
      assert buf[offset..offset + 0] == [];
    }

    lemma ValidRoom()
      requires Valid()
      ensures 0 < bufferSize == mmapBuffer.Length
      ensures Room() <= bufferSize
      ensures capture ==> Intact() && 0 <= Room()
      ensures Intact() ==> 0 <= Room()
    {
    }

    /** Appending a chunk to the part of the caller's buffer that is filled already. */
    static lemma DataJoin(before: seq<F>, after: seq<F>, offset: nat, count: nat, frames: nat, size: nat)
      requires |before| == |after| && count + frames <= size && offset + size <= |after|
      requires after[..offset + count] == before[..offset + count]
      requires after[offset + count + frames..] == before[offset + count + frames..]
      ensures var chunk := after[offset + count..offset + count + frames];
        after[offset..offset + count + frames] == before[offset..offset + count] + chunk
      ensures after[..offset] == before[..offset] && after[offset + size..] == before[offset + size..]
    {
      assert after[offset..offset + count] == after[..offset + count][offset..];
      assert after[..offset] == after[..offset + count][..offset];
      assert after[offset + size..] == after[offset + count + frames..][size - count - frames..];
    }

    /** A chunk that does not finish the transfer ends at the end of the buffer; from there, the rest fits. */
    static lemma ChunkEnds(a: nat, frames: nat, bufferSize: nat, wanted: nat, room: int)
      requires bufferSize > 0 && wanted <= room && wanted <= bufferSize
      requires var fit := bufferSize - a % bufferSize; frames == Min(wanted, Min(room, fit))
      ensures frames < wanted ==> (a + frames) % bufferSize == 0
      ensures a % bufferSize == 0 ==> frames == wanted
      ensures wanted > 0 ==> frames > 0
    {
      if frames < wanted && frames < bufferSize {
        CellOf(a, frames, bufferSize);
      }
    }

    lemma MovedJoin(buf0: seq<F>, buf1: seq<F>, buf2: seq<F>, sent0: seq<F>, sent1: seq<F>,
                    done: nat, frames: nat, most: nat, size: nat, a: nat)
      requires frames <= most && done + most <= size <= |buf1|
      requires MovedTo(buf0, sent0, buf1, sent1, 0, done, size, a)
      requires Moved(buf1, sent1, buf2, done, frames, most, a + done)
      ensures Moved(buf0, sent0, buf2, 0, done + frames, size, a)
    {
      hide Heard;
      if capture {
        HeardJoin(a, done, frames);
        assert buf2[0..done + frames] == buf2[..done] + buf2[done..done + frames];
        assert buf1[..done] == buf1[0..done];
        assert buf2[size..] == buf2[done + most..][size - done - most..];
        assert buf1[size..] == buf1[done + most..][size - done - most..];
        assert buf2[..0] == buf0[..0];
      } else {
        assert buf0[0..done + frames] == buf0[0..done] + buf0[done..done + frames];
      }
    }

    lemma MovedPrefix(buf0: seq<F>, sent0: seq<F>, buf: seq<F>, done: nat, size: nat, a: nat)
      requires Moved(buf0, sent0, buf, 0, done, size, a)
      ensures applFrames == a + done && |buf| == |buf0|
      ensures capture ==> buf[..done] == Heard(a, done) && buf[size..] == buf0[size..]
      ensures !capture ==> buf == buf0 && sent == sent0 + buf[..done]
    {
      assert buf[..done] == buf[0..done];
    }

    /** The part of the transfer loop that starts the stream when enough frames have come together.  The difference is
        an unsigned one, so a misread full buffer counts as enough. */
    method StartIfDue(dev: Device, avail: nat, startThreshold: nat) returns (next: Next)
      requires dev.Valid()
      modifies this`waitForAvailMin, dev
      ensures dev.Valid() && |dev.script| <= old(|dev.script|) && next != Again && old(dev.log) <= dev.log
      ensures var due := !old(dev.running) && (bufferSize - avail) % TWO_32 >= startThreshold;
        && (!due ==> next.GoOn? && dev.log == old(dev.log) && dev.script == old(dev.script))
        && (!due ==> dev.running == old(dev.running))
        && (due ==> StartRequests(dev.log, |old(dev.log)|, false))
        && (due && old(dev.script) != [] ==> |dev.log| > |old(dev.log)|)
        && (due && next.GoOn? ==> dev.running)
        && waitForAvailMin == (old(waitForAvailMin) && (!due || next.Leave?))
      ensures next.Leave? ==> EndsWell(dev, |old(dev.log)|, next.ret)
    {
      hide Device.Valid, AllGoOn;
      if !dev.running && (bufferSize - avail) % TWO_32 >= startThreshold {
        var started := dev.PcmStart();
        if started.Blocked? {
          return Leave(Blocked);
        }
        if started != Returned(0) {
          return Leave(Returned(-dev.errno));
        }
        waitForAvailMin := false;
      }
      return GoOn;
    }

    /** A transfer that ends early does so because the device does not answer, or with the error of the last request. */
    static ghost predicate EndsWell(dev: Device, from: nat, ret: Ret)
      reads dev
    {
      match ret
      case Blocked => dev.script == []
      case Returned(code) =>
        && from < |dev.log|
        && var last := dev.log[|dev.log| - 1]; last.reply.Fail? && code == -(last.reply.errno as int)
    }

    /** The part of the transfer loop that sleeps while too little is available.  A failed wait stops the stream and
        resets the application pointer. */
    method SleepIfShort(dev: Device, left: nat, avail: nat, availMin: int) returns (next: Next)
      requires dev.Valid()
      modifies this`waitForAvailMin, this`applPtr, dev
      ensures dev.Valid() && |dev.script| <= old(|dev.script|)
      ensures next.Again? ==> |dev.script| < old(|dev.script|)
      ensures next.Leave? && next.ret.Returned? ==> next.ret.code < 0 && applPtr == 0 && !dev.running && !dev.prepared
      ensures !(next.Leave? && next.ret.Returned?) ==> applPtr == old(applPtr) && dev.running == old(dev.running)
      ensures var wants := old(waitForAvailMin) || (old(dev.running) && left > avail);
        var short := old(dev.running) && wants && avail < availMin;
        && (next.GoOn? <==> !short) && waitForAvailMin == (wants && !short)
        && (!short || old(dev.script) == [] ==> dev.log == old(dev.log))
        && (short && old(dev.script) != [] ==> dev.log == old(dev.log) + [Call(Wait, true, old(dev.script)[0])])
      ensures next.Leave? ==> EndsWell(dev, |old(dev.log)|, next.ret)
    {
      if dev.running {
        if !waitForAvailMin && left > avail {
          waitForAvailMin := true;
        }
        if waitForAvailMin && avail < availMin {
          waitForAvailMin := false;
          var answered, reply := dev.WaitForRoom();
          if !answered {
            return Leave(Blocked);
          }
          if reply.Fail? {
            applPtr := 0;
            return Leave(Returned(-(reply.errno as int)));
          }
          return Again;
        }
      }
      return GoOn;
    }

    /** The state of the stream in which frames may be moved: it runs, unless too few frames have come together; and a
        running stream that cannot take everything, or has been found short before, takes avail_min frames at least. */
    ghost predicate Ready(dev: Device, left: nat, avail: nat, startThreshold: nat, availMin: int)
      reads dev, this`waitForAvailMin
    {
      && (!dev.running ==> (bufferSize - avail) % TWO_32 < startThreshold)
      && (dev.running && left > avail ==> waitForAvailMin)
      && (dev.running && waitForAvailMin ==> avail >= availMin)
    }

    /** What one round of the loop asks of the device before it moves anything, in the order of the requests: a stream
        that is due is prepared or started, a running one that is short waits, any other asks nothing. */
    static ghost predicate Asked(log0: seq<Call>, log: seq<Call>, answered: bool, due: bool, short: bool)
    {
      && log0 <= log
      && (due && answered ==>
            |log| > |log0| && (log[|log0|].request.Prepare? || log[|log0|].request.StartStream?))
      && (short && answered ==> |log| > |log0| && log[|log0|].request.Wait?)
    }

    /** The parts of the transfer loop that come before the transfer. */
    method BeforeMoving(dev: Device, left: nat, avail: nat, startThreshold: nat, availMin: int) returns (next: Next)
      requires dev.Valid()
      modifies this`waitForAvailMin, this`applPtr, dev
      ensures dev.Valid() && |dev.script| <= old(|dev.script|)
      ensures next.Again? ==> |dev.script| < old(|dev.script|)
      ensures applPtr == old(applPtr) ||
              (next.Leave? && next.ret.Returned? && applPtr == 0 && !dev.running && !dev.prepared)
      ensures next.GoOn? ==> Ready(dev, left, avail, startThreshold, availMin)
      ensures var due := !old(dev.running) && (bufferSize - avail) % TWO_32 >= startThreshold;
        var short := old(dev.running) && (old(waitForAvailMin) || left > avail) && avail < availMin;
        && Asked(old(dev.log), dev.log, old(dev.script) != [], due, short)
        && ((due || old(dev.running)) && !next.Leave? ==> dev.running)
        && (!due && !short ==> next.GoOn? && dev.log == old(dev.log) && dev.running == old(dev.running))
      ensures next.Leave? ==> EndsWell(dev, |old(dev.log)|, next.ret)
    {
      hide Device.Valid;
      next := StartIfDue(dev, avail, startThreshold);
      if next.GoOn? {
        next := SleepIfShort(dev, left, avail, availMin);
      }
    }

    /** The part of the transfer loop that moves what seems to be available, `most` frames; 0 when there is nothing. */
    method MoveAvailable(buf: array<F>, done: nat, size: nat, avail: nat, patience: nat,
                         ghost dev: Device, ghost startThreshold: nat, ghost availMin: int,
                         ghost a: nat, ghost buf0: seq<F>, ghost sent0: seq<F>)
      returns (frames: nat, most: nat)
      requires Valid() && buf != mmapBuffer && done < size <= buf.Length
      requires Ready(dev, size - done, avail, startThreshold, availMin)
      requires Intact() ==> avail == if Misread() then boundary else Room()
      requires Moved(buf0, sent0, buf[..], 0, done, size, a)
      modifies this`applPtr, this`applFrames, this`applLap, this`sent, this`misreads, this`lost
      modifies this`hwPtr, this`hwFrames, this`hwLap, this`looks, this`played, mmapBuffer, buf
      ensures Valid() && frames <= most == Min(size - done, avail)
      ensures applFrames == old(applFrames) + frames && hwFrames >= old(hwFrames)
      ensures Moved(buf0, sent0, buf[..], 0, done + frames, size, a)
      ensures misreads >= old(misreads) && lost >= old(lost)
      ensures old(Intact()) ==> Kept(old(misreads), old(lost))
      ensures old(Intact()) && avail == old(Room()) ==> frames == most && misreads == old(misreads)
      ensures avail == 0 ==> Room() == old(Room())
      ensures looks >= old(looks) && (frames < most ==> looks > old(looks) + 2 * patience)
    {
      hide Valid, Intact, Heard, MovedTo;
      frames, most := 0, size - done;
      ValidRoom();
      if most > avail {
        most := avail;
      }
      if most == 0 {
        return;
      }
      ghost var buf1, sent1 := buf[..], sent;
      var chunks;
      frames, chunks := PcmMmapTransferAreas(buf, done, most, patience);
      MovedJoin(buf0, buf1, buf[..], sent0, sent1, done, frames, most, size, a);
    }

    /** What a look at the pointers finds, with the hardware at frame hw: what is available then, or, in playback, a
        boundary instead of nothing. */
    ghost predicate Sees(avail: int, hw: int, appl: nat)
    {
      || avail == (if capture then hw - appl else bufferSize - (appl - hw))
      || (!capture && avail == boundary && hw + bufferSize == appl)
    }

    /** One round of the transfer loop: a look at the pointers, then what BeforeMoving does, then what is available is
        moved.  Leave(Returned(0)) stands for the break when nothing is available, Leave(Blocked) also for a transfer
        that goes round in vain. */
    method TransferRound(dev: Device, buf: array<F>, done: nat, size: nat,
                         startThreshold: nat, availMin: int, patience: nat,
                         ghost a: nat, ghost buf0: seq<F>, ghost sent0: seq<F>)
      returns (next: Next, frames: nat, avail: nat)
      requires Valid() && dev.Valid() && buf != mmapBuffer && done < size <= buf.Length
      requires Moved(buf0, sent0, buf[..], 0, done, size, a)
      modifies this, mmapBuffer, buf, dev
      // the stream
      ensures dev.Valid() && |dev.script| <= old(|dev.script|)
      ensures capture || old(Intact()) ==> Sees(avail, old(NextHwFrames()), old(applFrames))
      ensures var due := !old(dev.running) && (bufferSize - avail) % TWO_32 >= startThreshold;
        var short := old(dev.running) && (old(waitForAvailMin) || size - done > avail) && avail < availMin;
        && Asked(old(dev.log), dev.log, old(dev.script) != [], due, short)
        && ((due || old(dev.running)) && (next.Leave? ==> next.ret == Returned(0)) ==> dev.running)
        && (!due && !short ==>
              && dev.log == old(dev.log) && dev.running == old(dev.running) && !next.Again?
              && (next.Leave? ==> next.ret == Returned(0) || next.ret == Blocked))
        && (!due && !short && (capture || (old(Intact()) && size - done <= old(Room()))) ==> next != Leave(Blocked))
      ensures next.Leave? && next.ret.Returned? && next.ret.code != 0 ==> EndsWell(dev, |old(dev.log)|, next.ret)
      ensures next == Leave(Blocked) && (capture || (old(Intact()) && size - done <= old(Room()))) ==> dev.script == []
      ensures next == Leave(Blocked) ==> dev.script == [] || looks > old(looks) + 2 * patience
      ensures looks >= old(looks)
      ensures next.Again? ==> |dev.script| < old(|dev.script|)
      // the frames
      ensures next.GoOn? ==> frames > 0
      ensures next.Again? || (next.Leave? && next.ret.Returned?) ==> frames == 0
      ensures frames <= size - done && applFrames == old(applFrames) + frames
      ensures Moved(buf0, sent0, buf[..], 0, done + frames, size, a)
      ensures misreads >= old(misreads) && lost >= old(lost)
      ensures old(Intact()) ==> Kept(old(misreads), old(lost))
      ensures old(Intact()) && size - done <= old(Room()) ==>
        && misreads == old(misreads) && size - (done + frames) <= Room()
        && (next.GoOn? ==> frames == size - done) && next != Leave(Returned(0))
      ensures next == Leave(Returned(0)) && old(Intact()) ==> Room() == 0
      ensures Valid() || (next.Leave? && next.ret.Returned? && next.ret.code < 0 && applPtr == 0
                          && !dev.running && !dev.prepared)
    {
      hide Valid, Intact, Moved, Heard, Device.Valid;
      ValidRoom();
      frames := 0;
      avail := PcmMmapAvail();
      ValidRoom();
      if avail < 0 {
        assert false;
      }
      next := BeforeMoving(dev, size - done, avail, startThreshold, availMin);
      if !next.GoOn? {
        return;
      }
      var most;
      frames, most := MoveAvailable(buf, done, size, avail, patience, dev, startThreshold, availMin, a, buf0, sent0);
      if most == 0 {
        next := Leave(Returned(0));
      } else if frames < most {
        next := Leave(Blocked);
      }
    }

    /** pcm_mmap_transfer, in either direction, however the device answers and whatever the pace of the hardware; first
        is what the first look at the pointers finds available.

        The stream: its flags stay right.  If it is not running and enough frames have come together at the first look,
        it is asked to start before anything is moved, and runs in the end if the transfer succeeds; if it is running
        and short, it is asked to wait.  A transfer that fits, of a stream that is neither due nor short, asks nothing
        and succeeds.  Errors are those of the last request.

        The frames: done + left is what was asked for.  In capture, what has been delivered (done frames) is a gap-free
        stretch of the stream from the first unread frame on, at the start of the caller's buffer.  In playback, it is
        the caller's first done frames that were sent, and an intact queue stays intact if and only if no look at the
        pointers met a misread full buffer; none can if the frames fit into the free part of the buffer.  A return of 0
        with frames left means that none was available.  After an error of the wait, the stream is stopped and the
        application pointer reset. */
    method PcmMmapTransfer(dev: Device, buf: array<F>, size: nat, startThreshold: nat, availMin: int, patience: nat)
      returns (ret: Ret, done: nat, left: nat, ghost first: int)
      requires Valid() && dev.Valid() && buf != mmapBuffer && size <= buf.Length
      modifies this, mmapBuffer, buf, dev
      // the stream
      ensures dev.Valid()
      ensures size == 0 ==> ret == Returned(0) && dev.log == old(dev.log)
      ensures size > 0 && (capture || old(Intact())) ==> Sees(first, old(NextHwFrames()), old(applFrames))
      ensures size > 0 ==>
        var due := !old(dev.running) && (bufferSize - first) % TWO_32 >= startThreshold;
        var short := old(dev.running) && (old(waitForAvailMin) || size > first) && first < availMin;
        && Asked(old(dev.log), dev.log, old(dev.script) != [], due, short)
        && ((due || old(dev.running)) && ret == Returned(0) ==> dev.running)
        && (old(Intact()) && size <= old(Room()) && !due && !short ==> ret == Returned(0) && dev.log == old(dev.log))
      ensures ret.Returned? && ret.code != 0 ==> EndsWell(dev, |old(dev.log)|, ret)
      ensures ret == Blocked && (capture || (old(Intact()) && size <= old(Room()))) ==> dev.script == []
      ensures ret == Blocked ==> dev.script == [] || looks > old(looks) + 2 * patience
      // the frames
      ensures done + left == size && applFrames == old(applFrames) + done
      ensures capture ==> buf[..done] == Heard(old(applFrames), done) && buf[size..] == old(buf[size..])
      ensures !capture ==> buf[..] == old(buf[..]) && sent == old(sent) + buf[..done]
      ensures old(Intact()) ==> Kept(old(misreads), old(lost))
      ensures old(Intact()) && size <= old(Room()) ==> misreads == old(misreads) && (ret == Returned(0) ==> left == 0)
      ensures old(Intact()) && misreads == old(misreads) && ret == Returned(0) ==> left == 0 || Room() == 0
      ensures Valid() || (ret.Returned? && ret.code < 0 && applPtr == 0 && !dev.running && !dev.prepared)
    {
      hide Valid, Intact, Moved, Heard, Device.Valid;
      ValidRoom();
      done, left, first := 0, size, 0;
      ghost var buf0, sent0, a := buf[..], sent, applFrames;
      ghost var fits := Intact() && size <= Room();
      ghost var isFirst := true;
      ghost var due, short := false, false;
      NothingMoved(buf0, 0, size);
      ret := Returned(0);
      while left > 0
        invariant Valid() && dev.Valid() && done + left == size
        invariant Moved(buf0, sent0, buf[..], 0, done, size, a) && applFrames == a + done
        invariant misreads >= old(misreads) && lost >= old(lost)
        invariant old(Intact()) ==> Kept(old(misreads), old(lost))
        invariant fits ==> misreads == old(misreads) && left <= Room()
        invariant ret == Returned(0) && looks >= old(looks)
        invariant isFirst ==>
          && left == size && dev.log == old(dev.log) && dev.script == old(dev.script) && dev.running == old(dev.running)
          && waitForAvailMin == old(waitForAvailMin) && NextHwFrames() == old(NextHwFrames())
          && (old(Intact()) ==> Intact())
        invariant !isFirst ==>
          && size > 0 && (capture || old(Intact()) ==> Sees(first, old(NextHwFrames()), old(applFrames)))
          && Asked(old(dev.log), dev.log, old(dev.script) != [], due, short)
          && (due || old(dev.running) ==> dev.running)
          && due == (!old(dev.running) && (bufferSize - first) % TWO_32 >= startThreshold)
          && short == (old(dev.running) && (old(waitForAvailMin) || size > first) && first < availMin)
          && (fits && !due && !short ==> left == 0 && dev.log == old(dev.log))
        decreases left, |dev.script|
      {
        var next, frames, avail :=
          TransferRound(dev, buf, done, size, startThreshold, availMin, patience, a, buf0, sent0);
        if isFirst {
          first, isFirst := avail, false;
          due := !old(dev.running) && (bufferSize - avail) % TWO_32 >= startThreshold;
          short := old(dev.running) && (old(waitForAvailMin) || size > avail) && avail < availMin;
        }
        done := done + frames;
        left := left - frames;
        if next.Leave? {
          ret := next.ret;
          break;
        }
      }
      MovedPrefix(buf0, sent0, buf[..], done, size, a);
    }
  }

  /** What a part of the transfer loop decides: go on, start the loop again, or return. */
  datatype Next = GoOn | Again | Leave(ret: Ret)

  function Min(a: int, b: int): int
  {
    if a < b then a else b
  }
}
