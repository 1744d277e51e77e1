/** The byte FIFO of libutils/fifo.c: a circular buffer with two wrapping pointers and two free-running 32-bit
    counters. */
module Fifo {
  import opened RingArithmetic

  /** Unsigned 32-bit arithmetic. */
  function U32(x: int): nat
  {
    x % TWO_32
  }

  /** The difference of two 32-bit counters that are never 2^32 apart survives their overflow. */
  lemma CounterDifference(w: nat, r: nat)
    requires r <= w < r + TWO_32
    ensures U32(U32(w) - U32(r)) == w - r
  {
    var qw, qr := w / TWO_32, r / TWO_32;
    assert w == TWO_32 * qw + U32(w) && r == TWO_32 * qr + U32(r);
    var m := qw - qr;
    assert w - r == U32(w) - U32(r) + TWO_32 * m;
    assert m == 0 || m == 1;
  }

  lemma CounterAdvance(w: nat, n: nat)
    ensures U32(U32(w) + n) == U32(w + n)
  {
  }

  class STfifoBuffer {
    const buffer: array<bv8>
    var rptr: nat
    var wptr: nat
    var rndx: nat
    var wndx: nat
    // every byte ever written and every byte ever taken out, in order
    ghost var written: seq<bv8>
    ghost var taken: seq<bv8>

    /** The counters count (modulo 2^32) the bytes written and taken, and the buffer holds exactly the bytes that
        were written and not yet taken, in order. */
    ghost predicate Valid()
      reads this, buffer
    {
      && 0 < buffer.Length < 0x8000_0000
      && rptr < buffer.Length
      && |taken| <= |written| <= |taken| + buffer.Length
      && wptr == Wrap(rptr + (|written| - |taken|), buffer.Length)
      && wndx == U32(|written|) && rndx == U32(|taken|)
      && written == taken + Contents()
    }

    /** The waiting bytes, oldest first. */
    ghost function Contents(): (s: seq<bv8>)
      requires rptr < buffer.Length && |taken| <= |written| <= |taken| + buffer.Length
      reads this, buffer
    {
      Window(buffer[..], rptr, |written| - |taken|)
    }

    /** st_fifo_alloc. */
    constructor (size: nat)
      requires 0 < size < 0x8000_0000
      ensures Valid() && buffer.Length == size && fresh(buffer)
      ensures written == [] && taken == []
    {
      buffer := new bv8[size];
      rptr, wptr, rndx, wndx := 0, 0, 0, 0;
      written, taken := [], [];
    }

    /** st_fifo_reset. */
    method Reset()
      requires Valid()
      modifies this
      ensures Valid() && Contents() == [] && written == [] && taken == []
    {
      wptr, rptr := 0, 0;
      wndx, rndx := 0, 0;
      written, taken := [], [];
    }

    /** st_fifo_size: exact, also after the counters have overflowed. */
    method Size() returns (size: int)
      requires Valid()
      ensures size == |Contents()|
    {
      CounterDifference(|written|, |taken|);
      return U32(wndx - rndx);
    }

    /** st_fifo_space. */
    method Space() returns (space: int)
      requires Valid()
      ensures space == buffer.Length - |Contents()|
    {
      var size := Size();
      return buffer.Length - size;
    }

    /** memcpy of a block into the buffer. */
    method CopyIn(to: nat, block: seq<bv8>)
      requires to + |block| <= buffer.Length
      modifies buffer
      ensures buffer[..] == old(buffer[..to]) + block + old(buffer[to + |block|..])
    {
      forall j | to <= j < to + |block| {
        buffer[j] := block[j - to];
      }
    }

    /** The buffer holds the bytes s from the read pointer on, and ptr is the cell behind them. */
    ghost predicate Holds(s: seq<bv8>, ptr: nat)
      reads this`rptr, buffer
    {
      && rptr < buffer.Length && |s| <= buffer.Length
      && ptr == Wrap(rptr + |s|, buffer.Length)
      && Window(buffer[..], rptr, |s|) == s
    }

    /** One round of the write loop: a block up to the end of the buffer. */
    method PutBlock(ptr: nat, block: seq<bv8>, ghost s: seq<bv8>) returns (next: nat)
      requires Holds(s, ptr) && |s| + |block| <= buffer.Length && ptr + |block| <= buffer.Length
      modifies buffer
      ensures Holds(s + block, next)
    {
      hide Window;
      ghost var cells := buffer[..];
      CopyIn(ptr, block);
      WindowAppend(cells, buffer[..], rptr, |s|, block);
      next := ptr + |block|;
      if next >= buffer.Length {
        next := 0;
      }
    }

    /** The loop of st_fifo_write, with its copies of the write pointer and counter. */
    method WriteLoop(src: seq<bv8>, ghost s: seq<bv8>) returns (ndx: nat, ptr: nat)
      requires Holds(s, wptr) && wndx == U32(|written|) && |s| + |src| <= buffer.Length
      modifies buffer
      ensures Holds(s + src, ptr) && ndx == U32(|written| + |src|)
    {
      hide U32, Window, Holds;
      ndx, ptr := wndx, wptr;
      var done := 0;
      assert src[..0] == [] && s + [] == s;
      HeldPtr(s, ptr);
      while true
        invariant done <= |src| && ptr < buffer.Length
        invariant ndx == U32(|written| + done)
        invariant Holds(s + src[..done], ptr)
        decreases |src| - done
      {
        var len := if buffer.Length - ptr > |src| - done then |src| - done else buffer.Length - ptr;
        var block := src[done..done + len];
        ptr := PutBlock(ptr, block, s + src[..done]);
        assert s + src[..done] + block == s + src[..done + len];
        HeldPtr(s + src[..done + len], ptr);
        CounterAdvance(|written| + done, len);
        ndx := U32(ndx + len);
        done := done + len;
        if done == |src| {
          break;
        }
      }
      assert src[..|src|] == src;
    }

    /** st_fifo_write of bytes that fit: they join the queue. */
    method Write(src: seq<bv8>) returns (total: nat)
      requires Valid() && |src| <= buffer.Length - |Contents()|
      modifies this, buffer
      ensures Valid() && total == |src|
      ensures Contents() == old(Contents()) + src
      ensures written == old(written) + src && taken == old(taken)
    {
      hide U32, Window, Holds;
      total := |src|;
      ghost var s := Contents();
      ContentsHeld();
      var ndx, ptr := WriteLoop(src, s);
      wndx := ndx;
      wptr := ptr;
      written := written + src;
      HeldIsContents(s + src);
    }

    lemma ContentsHeld()
      requires Valid()
      ensures Holds(Contents(), wptr)
    {
    }

    lemma HeldPtr(s: seq<bv8>, ptr: nat)
      requires Holds(s, ptr)
      ensures ptr < buffer.Length
    {
    }

    lemma HeldIsContents(s: seq<bv8>)
      requires Holds(s, wptr) && 0 < buffer.Length < 0x8000_0000
      requires |taken| <= |written| && |s| == |written| - |taken| && written == taken + s
      requires wndx == U32(|written|) && rndx == U32(|taken|)
      ensures Valid() && Contents() == s
    {
    }

    /** st_fifo_drain of bytes that are there: the oldest ones leave the queue. */
    method Drain(size: nat)
      requires Valid() && size <= |Contents()|
      modifies this
      ensures Valid() && Contents() == old(Contents())[size..]
      ensures taken == old(taken) + old(Contents())[..size] && written == old(written)
    {
      hide U32, Window;
      ghost var s := Contents();
      WindowDrop(buffer[..], rptr, |s|, size);
      CounterAdvance(|taken|, size);
      rptr := rptr + size;
      if rptr >= buffer.Length {
        rptr := rptr - buffer.Length;
      }
      rndx := U32(rndx + size);
      taken := taken + s[..size];
      assert s == s[..size] + s[size..];
    }

    /** st_fifo_read of bytes that are there: the oldest ones, in the order in which they were written. */
    method Read(size: nat) returns (dest: seq<bv8>)
      requires Valid() && size <= |Contents()|
      modifies this
      ensures Valid() && dest == old(Contents())[..size] && Contents() == old(Contents())[size..]
      ensures taken == old(taken) + dest && written == old(written)
    {
      hide Window, U32;
      dest := [];
      ghost var s := Contents();
      while true
        invariant Valid() && |dest| <= size
        invariant dest == s[..|dest|] && Contents() == s[|dest|..]
        invariant taken == old(taken) + dest && written == old(written)
        decreases size - |dest|
      {
        var want := size - |dest|;
        var len := if buffer.Length - rptr > want then want else buffer.Length - rptr;
        WindowStraight(buffer[..], rptr, |Contents()|, len);
        ghost var d := |dest|;
        var block := buffer[rptr..rptr + len];
        assert block == s[d..][..len] == s[d..d + len];
        assert s[..d] + s[d..d + len] == s[..d + len];
        assert s[d..][len..] == s[d + len..];
        dest := dest + block;
        Drain(len);
        if |dest| == size {
          break;
        }
      }
    }
  }

  /** An operation of a client: bytes written, bytes read, bytes dropped. */
  datatype Operation = Put(bytes: seq<bv8>) | Get(count: nat) | Skip(count: nat)

  /** The queue that the FIFO stands for: what a run of operations leaves in it and hands out. */
  datatype Queue = Queue(waiting: seq<bv8>, out: seq<bv8>)

  ghost predicate Fits(q: Queue, op: Operation, capacity: nat)
  {
    match op
    case Put(bytes) => |q.waiting| + |bytes| <= capacity
    case Get(count) => count <= |q.waiting|
    case Skip(count) => count <= |q.waiting|
  }

  function Apply(q: Queue, op: Operation): Queue
    requires !op.Put? ==> op.count <= |q.waiting|
  {
    match op
    case Put(bytes) => q.(waiting := q.waiting + bytes)
    case Get(count) => Queue(q.waiting[count..], q.out + q.waiting[..count])
    case Skip(count) => q.(waiting := q.waiting[count..])
  }

  ghost predicate AllFit(q: Queue, ops: seq<Operation>, capacity: nat)
    decreases |ops|
  {
    ops == [] || (Fits(q, ops[0], capacity) && AllFit(Apply(q, ops[0]), ops[1..], capacity))
  }

  ghost function ApplyAll(q: Queue, ops: seq<Operation>, capacity: nat): Queue
    requires AllFit(q, ops, capacity)
    decreases |ops|
  {
    if ops == [] then q else ApplyAll(Apply(q, ops[0]), ops[1..], capacity)
  }

  /** Over every run of operations that fit, the FIFO hands out exactly what the queue would. */
  method Perform(f: STfifoBuffer, ops: seq<Operation>) returns (out: seq<bv8>)
    requires f.Valid() && AllFit(Queue(f.Contents(), []), ops, f.buffer.Length)
    modifies f, f.buffer
    ensures f.Valid()
    ensures Queue(f.Contents(), out) == ApplyAll(Queue(old(f.Contents()), []), ops, f.buffer.Length)
  {
    hide STfifoBuffer.Contents;
    out := [];
    ghost var start := Queue(f.Contents(), []);
    assert ops[0..] == ops;
    for i := 0 to |ops|
      invariant f.Valid()
      invariant AllFit(Queue(f.Contents(), out), ops[i..], f.buffer.Length)
      invariant ApplyAll(Queue(f.Contents(), out), ops[i..], f.buffer.Length) == ApplyAll(start, ops, f.buffer.Length)
    {
      assert ops[i..][0] == ops[i] && ops[i..][1..] == ops[i + 1..];
      match ops[i]
      case Put(bytes) =>
        var total := f.Write(bytes);
      case Get(count) =>
        var got := f.Read(count);
        out := out + got;
      case Skip(count) =>
        f.Drain(count);
    }
  }
}
