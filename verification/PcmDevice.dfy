/** The stream state of a PCM handle (speech/src/pcm.c): prepared, running, and the underrun count, against
    a device that may answer any request in any way, or never. */
module PcmDevice {

  // errno values the code names
  const EPIPE := 32
  const EINVAL := 22

  datatype Request = Prepare | StartStream | Drop | WriteFrames | ReadFrames | Wait

  type Errno = e: int | 0 < e witness 1

  datatype Reply = Ok | Fail(errno: Errno)

  /** An answered request, and whether the stream was marked running when it was made. */
  datatype Call = Call(request: Request, running: bool, reply: Reply)

  /** What a library call came to: a return code, or a request the device never answered. */
  datatype Ret = Returned(code: int) | Blocked

  predicate IsTransfer(r: Request)
  {
    r.WriteFrames? || r.ReadFrames?
  }

  /** An underrun: a transfer of a running stream that is answered with EPIPE. */
  predicate IsUnderrun(c: Call)
  {
    IsTransfer(c.request) && c.running && c.reply == Fail(EPIPE)
  }

  function CountUnderruns(log: seq<Call>): nat
  {
    if log == [] then 0 else CountUnderruns(log[..|log| - 1]) + (if IsUnderrun(log[|log| - 1]) then 1 else 0)
  }

  function CountRequests(log: seq<Call>, r: Request): nat
  {
    if log == [] then 0 else CountRequests(log[..|log| - 1], r) + (if log[|log| - 1].request == r then 1 else 0)
  }

  // ---------- what the history of requests implies ----------

  /** The device has gone wrong, or has been told to stop, in a way that undoes the preparation. */
  predicate Stops(c: Call)
  {
    || (IsTransfer(c.request) && c.running && c.reply.Fail?)
    || (c.request.Drop? && c.reply.Ok?)
    || (c.request.Wait? && c.reply.Fail?)
  }

  predicate Prepares(c: Call)
  {
    c.request.Prepare? && c.reply.Ok?
  }

  /** A start or a transfer that succeeded; the first write is what starts a stream that does not run. */
  predicate Starts(c: Call)
  {
    c.reply.Ok? && (c.request.StartStream? || IsTransfer(c.request))
  }

  /** After this history the device is prepared: it was, and nothing has stopped it since. */
  function PreparedAfter(log: seq<Call>): bool
  {
    if log == [] then false
    else
      var c := log[|log| - 1];
      Prepares(c) || (!Stops(c) && PreparedAfter(log[..|log| - 1]))
  }

  /** After this history the stream runs: a start, or the first write, has succeeded, and nothing has stopped it
      since. */
  function RunningAfter(log: seq<Call>): bool
  {
    if log == [] then false
    else
      var c := log[|log| - 1];
      Starts(c) || (!Stops(c) && RunningAfter(log[..|log| - 1]))
  }

  /** A request that may be made after this history: only a prepared device is started or given transfers, and
      only an unprepared one is prepared. */
  predicate MayFollow(log: seq<Call>, c: Call)
  {
    && c.running == RunningAfter(log)
    && (IsTransfer(c.request) || c.request.StartStream? ==> PreparedAfter(log))
    && (c.request.Prepare? ==> !PreparedAfter(log))
  }

  predicate Legal(log: seq<Call>)
  {
    log == [] || (Legal(log[..|log| - 1]) && MayFollow(log[..|log| - 1], log[|log| - 1]))
  }

  /** How one more call changes what the history implies. */
  ghost predicate AfterCall(before: seq<Call>, after: seq<Call>, c: Call)
  {
    && PreparedAfter(after) == (Prepares(c) || (!Stops(c) && PreparedAfter(before)))
    && RunningAfter(after) == (Starts(c) || (!Stops(c) && RunningAfter(before)))
    && (Legal(after) <==> Legal(before) && MayFollow(before, c))
    && CountUnderruns(after) == CountUnderruns(before) + (if IsUnderrun(c) then 1 else 0)
  }

  lemma HistoryAppend(log: seq<Call>, c: Call)
    ensures AfterCall(log, log + [c], c)
  {
    assert (log + [c])[..|log|] == log;
  }

  lemma {:induction false} LegalPrefix(log: seq<Call>, n: nat)
    requires Legal(log) && n <= |log|
    ensures Legal(log[..n])
  {
    if n < |log| {
      LegalPrefix(log[..|log| - 1], n);
      assert log[..|log| - 1][..n] == log[..n];
    } else {
      assert log[..n] == log;
    }
  }

  /** Preparation since the last stop: if the device is prepared after n calls and one before stopped it, a
      successful prepare lies in between. */
  lemma {:induction false} PreparedSince(log: seq<Call>, i: nat) returns (k: nat)
    requires i < |log| && Stops(log[i]) && PreparedAfter(log)
    ensures i < k < |log| && log[k].request == Prepare && log[k].reply == Ok
  {
    var n := |log| - 1;
    if log[n].request.Prepare? && log[n].reply.Ok? {
      k := n;
    } else {
      k := PreparedSince(log[..n], i);
    }
  }

  /** In a legal history, every transfer or start after a stop comes after a new, successful prepare. */
  lemma RestartIsPrepared(log: seq<Call>, i: nat, j: nat) returns (k: nat)
    requires Legal(log) && i < j < |log| && Stops(log[i])
    requires IsTransfer(log[j].request) || log[j].request.StartStream?
    ensures i < k < j && log[k].request == Prepare && log[k].reply == Ok
  {
    LegalPrefix(log, j + 1);
    var before := log[..j + 1];
    assert before[..|before| - 1] == log[..j];
    k := PreparedSince(log[..j], i);
  }

  lemma CountsAppend(log: seq<Call>, c: Call, r: Request)
    ensures CountRequests(log + [c], r) == CountRequests(log, r) + (if c.request == r then 1 else 0)
  {
    assert (log + [c])[..|log|] == log;
  }

  // ---------- how far a library call goes ----------

  /** A call after which pcm_write and pcm_read go on with another request: a preparation or a start that has
      succeeded, or an underrun after which they are allowed to restart. */
  predicate GoesOn(c: Call, noRestart: bool)
  {
    || (c.request.Prepare? && c.reply.Ok?)
    || (c.request.StartStream? && c.reply.Ok?)
    || (IsTransfer(c.request) && c.running && c.reply == Fail(EPIPE) && !noRestart)
  }

  /** All calls from number `from` up to number `to` of the history are such calls. */
  ghost predicate AllGoOn(log: seq<Call>, from: nat, to: nat, noRestart: bool)
  {
    to <= |log| && forall k | from <= k < to :: GoesOn(log[k], noRestart)
  }

  /** The requests that pcm_write makes. */
  ghost predicate WriteRequests(log: seq<Call>, from: nat)
  {
    forall k | from <= k < |log| :: log[k].request.Prepare? || log[k].request.WriteFrames?
  }

  /** The requests that pcm_start makes, of a stream that runs or does not. */
  ghost predicate StartRequests(log: seq<Call>, from: nat, running: bool)
  {
    forall k | from <= k < |log| ::
      (log[k].request.Prepare? || log[k].request.StartStream?) && log[k].running == running
  }

  /** The requests that pcm_read makes: a stream is read when it runs, and prepared or started when it does not. */
  ghost predicate ReadRequests(log: seq<Call>, from: nat)
  {
    forall k | from <= k < |log| ::
      && (log[k].request.Prepare? || log[k].request.StartStream? || log[k].request.ReadFrames?)
      && (log[k].request.ReadFrames? <==> log[k].running)
  }

  class Device {
    const capture: bool       // PCM_IN
    const noRestart: bool     // PCM_NORESTART
    var running: bool
    var prepared: bool
    var underruns: nat
    var errno: int            // what the last failed request left
    var script: seq<Reply>    // the answers the device will still give
    ghost const answers: seq<Reply>  // the answers from the beginning
    ghost var log: seq<Call>

    /** The history consists of answers the device has given.  The flags say what the history of requests implies, a
        running stream is prepared, every underrun has been counted, and no request was out of order. */
    ghost predicate Valid()
      reads this
    {
      && (running ==> prepared)
      && prepared == PreparedAfter(log) && running == RunningAfter(log)
      && Legal(log)
      && underruns == CountUnderruns(log)
      && Answered(script, log)
    }

    ghost predicate Answered(script: seq<Reply>, log: seq<Call>)
    {
      && |log| <= |answers| && script == answers[|log|..]
      && forall k | 0 <= k < |log| :: log[k].reply == answers[k]
    }

    constructor (capture: bool, noRestart: bool, script: seq<Reply>)
      ensures Valid() && !running && !prepared && log == []
      ensures this.capture == capture && this.noRestart == noRestart && this.script == script
    {
      this.capture, this.noRestart, this.script := capture, noRestart, script;
      running, prepared, underruns, errno := false, false, 0, 0;
      answers, log := script, [];
    }

    method Ioctl(request: Request) returns (answered: bool, reply: Reply)
      requires Answered(script, log)
      modifies this`script, this`log, this`errno
      ensures answered <==> old(script) != []
      ensures !answered ==> script == old(script) && log == old(log)
      ensures answered ==>
        && reply == old(script)[0] && script == old(script)[1..]
        && log == old(log) + [Call(request, running, reply)]
        && errno == (if reply.Fail? then reply.errno else old(errno))
        && AfterCall(old(log), log, Call(request, running, reply))
      ensures Answered(script, log)
    {
      if script == [] {
        return false, Ok;
      }
      reply := script[0];
      script := script[1..];
      if reply.Fail? {
        errno := reply.errno;
      }
      HistoryAppend(log, Call(request, running, reply));
      log := log + [Call(request, running, reply)];
      return true, reply;
    }

    /** pcm_prepare: one request, if the device is not prepared. */
    method PcmPrepare() returns (ret: Ret)
      requires Valid()
      modifies this`script, this`log, this`errno, this`prepared
      ensures Valid() && old(log) <= log && |script| <= old(|script|)
      ensures ret == Returned(0) <==> prepared
      ensures old(prepared) ==> log == old(log) && script == old(script)
      ensures !old(prepared) && old(script) == [] ==> ret == Blocked && log == old(log) && script == []
      ensures !old(prepared) && old(script) != [] ==>
        var reply := old(script)[0];
        && log == old(log) + [Call(Prepare, running, reply)]
        && ret == (if reply.Ok? then Returned(0) else Returned(-1))
        && (reply.Fail? ==> errno == reply.errno)
      ensures forall r :: r != Prepare ==> CountRequests(log, r) == CountRequests(old(log), r)
    {
      hide PreparedAfter, RunningAfter, Legal, CountUnderruns, CountRequests;
      if prepared {
        return Returned(0);
      }
      var answered, reply := Ioctl(Prepare);
      if !answered {
        return Blocked;
      }
      forall r
        ensures r != Prepare ==> CountRequests(log, r) == CountRequests(old(log), r)
      {
        CountsAppend(old(log), Call(Prepare, running, reply), r);
      }
      if reply.Fail? {
        return Returned(-1);
      }
      prepared := true;
      return Returned(0);
    }

    /** pcm_start: a preparation, if need be, and the start; it ends early when one of them fails. */
    method PcmStart() returns (ret: Ret)
      requires Valid()
      modifies this`script, this`log, this`errno, this`prepared, this`running
      ensures Valid() && old(log) <= log && |script| <= old(|script|)
      ensures ret == Returned(0) ==> running
      ensures old(running) ==> running
      ensures ret != Returned(0) ==> running == old(running)
      ensures StartRequests(log, |old(log)|, old(running)) && |log| <= |old(log)| + 2
      ensures ret == Blocked ==> script == [] && AllGoOn(log, |old(log)|, |log|, false)
      ensures ret.Returned? ==>
        && |log| > |old(log)| && AllGoOn(log, |old(log)|, |log| - 1, false)
        && var last := log[|log| - 1];
        && (ret.code == 0 <==> last.request.StartStream? && last.reply.Ok?)
        && (ret.code != 0 ==> ret.code == -1 && last.reply.Fail? && errno == last.reply.errno)
      ensures old(prepared) && |log| > |old(log)| ==> log[|old(log)|].request.StartStream?
      ensures old(script) != [] ==> |log| > |old(log)|
      ensures forall r :: r != Prepare && r != StartStream ==> CountRequests(log, r) == CountRequests(old(log), r)
    {
      hide PreparedAfter, RunningAfter, Legal, CountUnderruns, CountRequests;
      ret := PcmPrepare();
      if ret != Returned(0) {
        return;
      }
      ghost var before := log;
      var answered, reply := Ioctl(StartStream);
      if !answered {
        return Blocked;
      }
      forall r
        ensures r != StartStream ==> CountRequests(log, r) == CountRequests(before, r)
      {
        CountsAppend(before, Call(StartStream, running, reply), r);
      }
      if reply.Fail? {
        return Returned(-1);
      }
      running := true;
      return Returned(0);
    }

    /** pcm_stop: one request. */
    method PcmStop() returns (ret: Ret)
      requires Valid()
      modifies this`script, this`log, this`errno, this`prepared, this`running
      ensures Valid() && old(log) <= log
      ensures old(script) == [] ==> ret == Blocked && log == old(log)
      ensures old(script) != [] ==>
        var reply := old(script)[0];
        && log == old(log) + [Call(Drop, old(running), reply)]
        && ret == (if reply.Ok? then Returned(0) else Returned(-1))
      ensures ret == Returned(0) ==> !running && !prepared
      ensures ret != Returned(0) ==> running == old(running) && prepared == old(prepared)
    {
      var answered, reply := Ioctl(Drop);
      if !answered {
        return Blocked;
      }
      if reply.Fail? {
        return Returned(-1);
      }
      prepared, running := false, false;
      return Returned(0);
    }

    /** A transfer on a running stream; a failure undoes the preparation, an EPIPE counts as an underrun. */
    method RunningTransfer(request: Request) returns (answered: bool, reply: Reply)
      requires Valid() && running && IsTransfer(request)
      modifies this`script, this`log, this`errno, this`prepared, this`running, this`underruns
      ensures Valid()
      ensures answered <==> old(script) != []
      ensures !answered ==> log == old(log) && running && underruns == old(underruns) && script == old(script)
      ensures answered ==>
        && log == old(log) + [Call(request, true, reply)] && |script| < old(|script|)
        && running == prepared == reply.Ok? && reply == old(script)[0]
        && underruns == old(underruns) + (if reply == Fail(EPIPE) then 1 else 0)
        && CountRequests(log, request) == CountRequests(old(log), request) + 1
    {
      answered, reply := Ioctl(request);
      if answered {
        CountsAppend(old(log), Call(request, true, reply), request);
        if reply.Fail? {
          prepared, running := false, false;
          if reply.errno == EPIPE {
            underruns := underruns + 1;
          }
        }
      }
    }

    /** The first write of a stream that does not run. */
    method InitialWrite() returns (ret: Ret)
      requires Valid() && !running
      modifies this`script, this`log, this`errno, this`prepared, this`running
      ensures Valid() && old(log) <= log
      ensures CountRequests(log, WriteFrames) <= CountRequests(old(log), WriteFrames) + 1
      ensures ret == Returned(0) <==> running
      ensures WriteRequests(log, |old(log)|)
      ensures ret == Blocked ==> script == [] && AllGoOn(log, |old(log)|, |log|, noRestart)
      ensures ret.Returned? ==>
        && |log| > |old(log)| && AllGoOn(log, |old(log)|, |log| - 1, noRestart)
        && var last := log[|log| - 1];
        && (ret.code == 0 <==> last == Call(WriteFrames, false, Ok))
        && (ret.code != 0 ==> ret.code == -1 && last.reply.Fail? && !last.running)
    {
      hide PreparedAfter, RunningAfter, Legal, CountUnderruns, CountRequests;
      ret := PcmPrepare();
      if ret != Returned(0) {
        return;
      }
      ghost var before := log;
      var answered, reply := Ioctl(WriteFrames);
      if !answered {
        return Blocked;
      }
      CountsAppend(before, Call(WriteFrames, running, reply), WriteFrames);
      if reply.Fail? {
        return Returned(-1);
      }
      running := true;
      return Returned(0);
    }

    /** pcm_write: goes on exactly after a successful preparation and after an underrun that may be restarted; the
        first other answer, or the lack of one, is what it comes to.  At most two attempts, the second only after an
        underrun and only if restarting is allowed. */
    method PcmWrite() returns (ret: Ret)
      requires Valid()
      modifies this`script, this`log, this`prepared, this`running, this`underruns, this`errno
      ensures Valid() && old(log) <= log
      ensures capture ==> ret == Returned(-EINVAL) && log == old(log) && running == old(running)
      ensures CountRequests(log, WriteFrames) <= CountRequests(old(log), WriteFrames) + 2
      ensures underruns <= old(underruns) + 1
      ensures WriteRequests(log, |old(log)|)
      ensures ret == Blocked ==> script == [] && AllGoOn(log, |old(log)|, |log|, noRestart)
      ensures !capture && ret.Returned? ==>
        && |log| > |old(log)| && AllGoOn(log, |old(log)|, |log| - 1, noRestart)
        && var last := log[|log| - 1];
        && (ret.code == 0 <==> last.request.WriteFrames? && last.reply.Ok?)
        && (ret.code == -EPIPE <==> IsUnderrun(last))
        && (ret.code != 0 ==> last.reply.Fail? && !GoesOn(last, noRestart) && (ret.code == -EPIPE || ret.code == -1))
      ensures !capture && ret.Returned? ==> (ret.code == 0 <==> running)
      ensures ret == Returned(-EPIPE) ==> noRestart && underruns == old(underruns) + 1
      ensures noRestart && underruns > old(underruns) ==> ret == Returned(-EPIPE)
    {
      hide PreparedAfter, RunningAfter, Legal, Stops, CountUnderruns, CountRequests;
      if capture {
        return Returned(-EINVAL);
      }
      var attempt := 0;
      while true
        invariant Valid() && old(log) <= log
        invariant 0 <= attempt <= 1 && (attempt == 1 ==> !running && !noRestart)
        invariant CountRequests(log, WriteFrames) == CountRequests(old(log), WriteFrames) + attempt
        invariant underruns == old(underruns) + attempt
        invariant WriteRequests(log, |old(log)|) && AllGoOn(log, |old(log)|, |log|, noRestart)
        decreases 1 - attempt
      {
        if !running {
          ret := InitialWrite();
          return;
        }
        var answered, reply := RunningTransfer(WriteFrames);
        if !answered {
          return Blocked;
        }
        if reply.Fail? {
          if reply.errno == EPIPE {
            if noRestart {
              return Returned(-EPIPE);
            }
            attempt := attempt + 1;
            continue;
          }
          return Returned(-1);
        }
        return Returned(0);
      }
    }

    /** pcm_read: goes on exactly after a successful preparation or start and after an underrun, for as long as the
        device answers; the first other answer is what it comes to. */
    method PcmRead() returns (ret: Ret)
      requires Valid()
      modifies this`script, this`log, this`prepared, this`running, this`underruns, this`errno
      ensures Valid() && old(log) <= log
      ensures !capture ==> ret == Returned(-EINVAL) && log == old(log) && running == old(running)
      ensures ReadRequests(log, |old(log)|)
      ensures ret == Blocked ==> script == [] && AllGoOn(log, |old(log)|, |log|, false)
      ensures capture && ret.Returned? ==>
        && |log| > |old(log)| && AllGoOn(log, |old(log)|, |log| - 1, false)
        && var last := log[|log| - 1];
        && (ret.code == 0 <==> last == Call(ReadFrames, true, Ok))
        && (ret.code != 0 ==> last.reply.Fail? && !GoesOn(last, false))
        && (ret.code != 0 ==> ret.code == if last.request.ReadFrames? then -1 else -(last.reply.errno as int))
      ensures ret == Returned(0) ==> running
      ensures underruns >= old(underruns)
      ensures CountRequests(log, ReadFrames) <= CountRequests(old(log), ReadFrames) + (underruns - old(underruns)) + 1
    {
      hide PreparedAfter, RunningAfter, Legal, Stops, CountUnderruns, CountRequests;
      if !capture {
        return Returned(-EINVAL);
      }
      while true
        invariant Valid() && old(log) <= log && underruns >= old(underruns)
        invariant CountRequests(log, ReadFrames) == CountRequests(old(log), ReadFrames) + (underruns - old(underruns))
        invariant ReadRequests(log, |old(log)|) && AllGoOn(log, |old(log)|, |log|, false)
        decreases |script|
      {
        if !running {
          ret := PcmStart();
          if ret.Blocked? {
            return;
          }
          if ret != Returned(0) {
            return Returned(-errno);
          }
        }
        var answered, reply := RunningTransfer(ReadFrames);
        if !answered {
          return Blocked;
        }
        if reply.Fail? {
          if reply.errno == EPIPE {
            continue;
          }
          return Returned(-1);
        }
        return Returned(0);
      }
    }

    /** pcm_wait in the transfer loop: the device reports room, or the wait fails and the stream counts as stopped. */
    method WaitForRoom() returns (answered: bool, reply: Reply)
      requires Valid()
      modifies this`script, this`log, this`errno, this`prepared, this`running
      ensures Valid() && old(log) <= log
      ensures answered <==> old(script) != []
      ensures !answered ==> script == [] && log == old(log)
      ensures answered ==>
        && reply == old(script)[0] && |script| < old(|script|)
        && log == old(log) + [Call(Wait, old(running), reply)]
      ensures answered && reply.Fail? ==> !running && !prepared
      ensures !(answered && reply.Fail?) ==> running == old(running) && prepared == old(prepared)
    {
      answered, reply := Ioctl(Wait);
      if answered && reply.Fail? {
        prepared, running := false, false;
      }
    }
  }
}
