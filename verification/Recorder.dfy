/** recorder/log.c and recorder/linux.c as they change their globals, each call proved to be the step
    of RecorderProtocol; and the channel search of init_rec. */
module Recorder {
  import opened Bytes
  import opened RecorderProtocol
  import opened Wrappers

  class Session {
    var recFd: int
    var amsRecClass: int
    var amsRecHandle: int
    var sequence: u16
    var procUsageReinit: bool
    var memUsageReinit: bool
    var osUsageReinit: bool

    // Bookkeeping of the proof: openings so far, the ones class and handle were answered on, and the
    // requests built and written.
    ghost var opening: nat
    ghost var clsFrom: nat
    ghost var handleFrom: nat
    ghost var built: nat
    ghost var log: seq<Request>

    constructor ()
      ensures Now() == INITIAL
    {
      recFd, amsRecClass, amsRecHandle, sequence := -1, -1, -1, 0;
      procUsageReinit, memUsageReinit, osUsageReinit := false, false, false;
      opening, clsFrom, handleFrom, built, log := 0, 0, 0, 0, [];
    }

    ghost function Now(): State
      reads this
    {
      State(recFd, amsRecClass, amsRecHandle, sequence, procUsageReinit, memUsageReinit, osUsageReinit,
            opening, clsFrom, handleFrom, built, log)
    }

    method CloseRec(reset: bool)
      modifies this
      ensures Now() == RecorderProtocol.CloseRec(old(Now()), reset)
    {
      if recFd != -1 {
        recFd := -1;
      }
      if reset {
        amsRecClass, amsRecHandle := -1, -1;
        procUsageReinit, memUsageReinit, osUsageReinit := true, true, true;
      }
    }

    /** init_rec; `open` is the descriptor the channel search ends with, see FindChannel. */
    method InitRec(open: int)
      modifies this
      ensures Now() == RecorderProtocol.InitRec(old(Now()), open)
    {
      if recFd != -1 {
        return;
      }
      recFd := open;
      if recFd != -1 {
        opening := opening + 1;
      }
    }

    ghost method NoteWrite(subtype: int, size: int, cls: int, handle: int)
      modifies this`log
      ensures log == old(log) + [Request(built, sequence, subtype, size, cls, handle, opening, clsFrom, handleFrom)]
    {
      log := log + [Request(built, sequence, subtype, size, cls, handle, opening, clsFrom, handleFrom)];
    }

    method NextSequence()
      modifies this`sequence, this`built
      ensures Now() == Build(old(Now()))
    {
      sequence := (sequence + 1) % TWO_16;
      built := built + 1;
    }

    /** The bytes written, or -1; a failed write leaves the channel open. */
    method DoWrite(subtype: int, size: int, io: Io) returns (cnt: int)
      modifies this
      ensures var t := RecorderProtocol.InitRec(old(Now()), io.open);
              && Now() == (if t.fd == -1 then t else Written(t, subtype, size, -1, -1))
              && cnt == (if t.fd == -1 || io.write < 0 then -1 else io.write)
    {
      InitRec(io.open);
      if recFd == -1 {
        return -1;
      }
      NoteWrite(subtype, size, -1, -1);
      if io.write < 0 {
        return -1;
      }
      return io.write;
    }

    /** The bytes read, or -1.  The retry test compares the negative count with EINTR, so it never
        retries. */
    method DoRead(io: Io) returns (cnt: int)
      modifies this
      ensures var t := RecorderProtocol.InitRec(old(Now()), io.open);
              && Now() == t && cnt == (if t.fd == -1 || io.read < 0 then -1 else io.read)
    {
      InitRec(io.open);
      if recFd == -1 {
        return -1;
      }
      if io.read < 0 {
        return -1;
      }
      return io.read;
    }

    method DoWriteRead(subtype: int, size: int, cls: int, handle: int, io: Io) returns (rcode: int)
      modifies this
      ensures (Now(), rcode) == WriteRead(old(Now()), subtype, size, cls, handle, io)
    {
      InitRec(io.open);
      if recFd < 0 {
        return -1;
      }
      NoteWrite(subtype, size, cls, handle);
      if io.write < 0 {
        CloseRec(true);
        return -1;
      }
      if io.read < 0 {
        CloseRec(true);
        return -1;
      }
      return io.rcode;
    }

    /** Class allocation: the answer's code becomes the class. */
    method RecApi13(io: Io) returns (rc: int)
      modifies this
      ensures (Now(), rc) == Api13(old(Now()), io)
    {
      NextSequence();
      var cnt := DoWrite(REC_API13, API13_SIZE, io);
      if cnt > 0 {
        cnt := DoRead(io);
        if cnt > 0 {
          return io.rcode;
        }
      }
      return -1;
    }

    /** Registration with the global class; stores the handle on success. */
    method RecApi1(io: Io) returns (rc: int)
      modifies this
      ensures (Now(), rc) == Api1(old(Now()), io)
    {
      NextSequence();
      rc := DoWriteRead(REC_API1, API1_SIZE, amsRecClass, -1, io);
      if rc == RECORDER_OK {
        amsRecHandle := io.handle;
        handleFrom := opening;
      }
    }

    /** A descriptor message for the global handle, whose records carry the global class. */
    method RecApi4(size: nat, io: Io) returns (rc: int)
      modifies this
      ensures Now() == Step(old(Now()), Describe(size, io))
      ensures rc == WriteRead(Build(old(Now())), REC_API4, API4_HEADER + size,
                              old(amsRecClass), old(amsRecHandle), io).1
    {
      NextSequence();
      rc := DoWriteRead(REC_API4, API4_HEADER + size, amsRecClass, amsRecHandle, io);
    }

    method RecApi3(io: Io) returns (rc: int)
      modifies this
      ensures Now() == Step(old(Now()), SetCode(io))
      ensures rc == WriteRead(Build(old(Now())), REC_API3, API3_SIZE, -1, old(amsRecHandle), io).1
    {
      NextSequence();
      rc := DoWriteRead(REC_API3, API3_SIZE, -1, amsRecHandle, io);
    }

    /** The data messages; the subtype tells the five variants apart. */
    method RecApi6(subtype: int, size: nat, io: Io) returns (rc: int)
      modifies this
      ensures Now() == Step(old(Now()), LogData(subtype, size, io))
      ensures rc == WriteRead(Build(old(Now())), subtype, API6_HEADER + size, -1, old(amsRecHandle), io).1
    {
      NextSequence();
      rc := DoWriteRead(subtype, API6_HEADER + size, -1, amsRecHandle, io);
    }

    /** rec_init.  Both of its returns are 1, because false is defined as 1. */
    method RecInit(a: Io, b: Io) returns (ok: int)
      modifies this
      ensures Now() == RecorderProtocol.RecInit(old(Now()), a, b)
      ensures ok == 1
    {
      if amsRecClass == -1 {
        var c := RecApi13(a);
        amsRecClass := c;
        clsFrom := opening;
        if amsRecClass == -1 {
          return 1;
        }
      }
      if amsRecHandle == -1 {
        var rc := RecApi1(b);
        if rc != RECORDER_OK {
          return 1;
        }
      }
      return 1;
    }
  }

  // ---------------------------------------------------------------- the channel search

  const MAX_HPILO_CHANNELS := 24

  /** A device name: the empty one, or the channel control block of a number. */
  type Device = Option<int>

  /** The highest of channels 23, 15, 7 that exists; -1 when none does. */
  function ProbedStart(statOk: int -> bool): int {
    if statOk(23) then 23 else if statOk(15) then 15 else if statOk(7) then 7 else -1
  }

  /** Opening downwards from number `start`, trying the name `dev` first. */
  function OpenDown(dev: Device, start: int, tryOpen: Device -> int): int
    decreases start + 1
  {
    if start < 0 then -1
    else if tryOpen(dev) != -1 then tryOpen(dev)
    else OpenDown(Some(start - 1), start - 1, tryOpen)
  }

  function Channel(maxCcb: Option<int>, statOk: int -> bool, tryOpen: Device -> int): int {
    match maxCcb
    case None => OpenDown(Some(ProbedStart(statOk)), ProbedStart(statOk), tryOpen)
    case Some(m) => OpenDown(None, m - 1, tryOpen)
  }

  /** The search of init_rec: from the module parameter when it is readable, else by probing. */
  method FindChannel(maxCcb: Option<int>, statOk: int -> bool, tryOpen: Device -> int) returns (fd: int)
    ensures fd == Channel(maxCcb, statOk, tryOpen)
  {
    var start := -1;
    var dev: Device := None;
    if maxCcb.None? {
      start := MAX_HPILO_CHANNELS - 1;
      dev := Some(start);
      while start > 0 && !statOk(start)
        invariant start in {23, 15, 7, -1} && dev == Some(start)
        invariant start < 23 ==> !statOk(23)
        invariant start < 15 ==> !statOk(15)
        invariant start < 7 ==> !statOk(7)
        decreases start + 1
      {
        start := start - 8;
        dev := Some(start);
      }
    } else {
      start := maxCcb.value - 1;
    }
    fd := -1;
    ghost var goal := OpenDown(dev, start, tryOpen);
    while start >= 0
      invariant OpenDown(dev, start, tryOpen) == goal && fd == -1
      decreases start + 1
    {
      fd := tryOpen(dev);
      if fd != -1 {
        break;
      }
      start := start - 1;
      dev := Some(start);
    }
    if start < 0 {
      fd := -1;
    }
  }

  /** By probing, the descriptor is that of the highest openable channel at or below the start, and
      the search fails exactly when none of them opens. */
  lemma {:induction false} HighestOpenChannel(start: int, tryOpen: Device -> int)
    requires -1 <= start
    ensures var fd := OpenDown(Some(start), start, tryOpen);
            || (fd == -1 && forall i :: 0 <= i <= start ==> tryOpen(Some(i)) == -1)
            || (fd != -1 && exists k :: 0 <= k <= start && tryOpen(Some(k)) == fd
                                     && forall i :: k < i <= start ==> tryOpen(Some(i)) == -1)
    decreases start
  {
    if start >= 0 && tryOpen(Some(start)) == -1 {
      HighestOpenChannel(start - 1, tryOpen);
    }
  }

  /** Without the parameter the search goes down from channel 23 when its device is there, else from 15,
      else from 7, and fails when none of the three is; it gives the first channel on the way down that
      opens, whatever opens above it. */
  lemma ProbedChannels(statOk: int -> bool, f: Device -> int, k: nat)
    requires var top := if statOk(23) then 23 else if statOk(15) then 15 else if statOk(7) then 7 else -1;
             k <= top && f(Some(k)) != -1 && forall i :: k < i <= top ==> f(Some(i)) == -1
    ensures Channel(None, statOk, f) == f(Some(k))
  {
    var top := if statOk(23) then 23 else if statOk(15) then 15 else 7;
    OpensAt(top, k, f);
  }

  lemma {:induction false} OpensAt(start: int, k: nat, f: Device -> int)
    requires k <= start && f(Some(k)) != -1 && forall i :: k < i <= start ==> f(Some(i)) == -1
    ensures OpenDown(Some(start), start, f) == f(Some(k))
    decreases start - k
  {
    if k < start {
      OpensAt(start - 1, k, f);
    }
  }

  lemma NothingProbed(statOk: int -> bool, f: Device -> int)
    ensures !statOk(23) && !statOk(15) && !statOk(7) ==> Channel(None, statOk, f) == -1
    ensures statOk(23) && (forall i :: 0 <= i <= 23 ==> f(Some(i)) == -1) ==> Channel(None, statOk, f) == -1
  {
    if statOk(23) && forall i :: 0 <= i <= 23 ==> f(Some(i)) == -1 {
      NothingOpens(23, f);
    }
  }

  /** With the parameter set to `m`, the first name tried is the empty one, so whether channel m - 1
      (or any higher one) opens makes no difference: it is never tried. */
  lemma {:induction false} TopChannelNeverTried(m: int, f: Device -> int, g: Device -> int)
    requires f(None) == g(None)
    requires forall i :: 0 <= i < m - 1 ==> f(Some(i)) == g(Some(i))
    ensures forall statOk :: Channel(Some(m), statOk, f) == Channel(Some(m), statOk, g)
  {
    if m >= 1 && f(None) == -1 {
      SameBelow(m - 2, f, g);
    }
  }

  /** With the parameter, the search still gives the channel that a search from m - 1 would give exactly
      when channel m - 1 does not open, or opens with the answer of the search below it.  Opening the
      empty name always fails. */
  lemma TopChannelFoundIff(m: int, statOk: int -> bool, f: Device -> int)
    requires m >= 1 && f(None) == -1
    ensures Channel(Some(m), statOk, f) == OpenDown(Some(m - 1), m - 1, f)
            <==> f(Some(m - 1)) == -1 || f(Some(m - 1)) == OpenDown(Some(m - 2), m - 2, f)
  {}

  /** When channel m - 1 is the only one that opens, the search fails. */
  lemma OnlyTopOpens(m: int, fd: int, statOk: int -> bool)
    requires m >= 1 && fd != -1
    ensures var f := (d: Device) => if d == Some(m - 1) then fd else -1;
            Channel(Some(m), statOk, f) == -1 && OpenDown(Some(m - 1), m - 1, f) == fd
  {
    var f := (d: Device) => if d == Some(m - 1) then fd else -1;
    NothingOpens(m - 2, f);
  }

  lemma {:induction false} NothingOpens(start: int, f: Device -> int)
    requires -1 <= start && forall i :: 0 <= i <= start ==> f(Some(i)) == -1
    ensures OpenDown(Some(start), start, f) == -1
    decreases start
  {
    if start >= 0 {
      NothingOpens(start - 1, f);
    }
  }

  lemma {:induction false} SameBelow(start: int, f: Device -> int, g: Device -> int)
    requires -1 <= start
    requires forall i :: 0 <= i <= start ==> f(Some(i)) == g(Some(i))
    ensures OpenDown(Some(start), start, f) == OpenDown(Some(start), start, g)
    decreases start
  {
    if start >= 0 {
      SameBelow(start - 1, f, g);
    }
  }
}
