/** The recorder session as a state machine over an adversarial device: what each call of
    recorder/log.c and recorder/linux.c does to the session, and what survives whole runs. */
module RecorderProtocol {
  import opened Bytes

  const RECORDER_OK := 0
  const REC_API1 := 1
  const REC_API3 := 3
  const REC_API4 := 4
  const REC_API6 := 6
  const REC_API13 := 13

  /** sizeof(rec_chif_req), packed: header 8, type 4, subtype 4, log message 16 + 962. */
  const REQUEST_CAPACITY := 994
  const API13_SIZE := 52
  const API1_SIZE := 64
  const API3_SIZE := 36
  const API4_HEADER := 28
  const API6_HEADER := 32

  /** What the system calls of one exchange answer: the descriptor the channel search ends with, the
      write and read counts, and the two words of the response. */
  datatype Io = Io(open: int, write: int, read: int, rcode: int, handle: int)

  predicate ValidIo(io: Io) {
    -1 <= io.open
  }

  /** A request handed to write: its place in the sequence of requests built, its fields, the opening
      it was written on, and the openings its class and handle were answered on. */
  datatype Request = Request(index: nat, seqNo: u16, subtype: int, size: int, cls: int, handle: int,
                             opening: nat, clsFrom: nat, handleFrom: nat)

  /** The globals, how many openings and requests there have been, and the requests written. */
  datatype State = State(fd: int, cls: int, handle: int, seqNo: u16,
                         procReinit: bool, memReinit: bool, osReinit: bool,
                         opening: nat, clsFrom: nat, handleFrom: nat,
                         built: nat, log: seq<Request>)

  const INITIAL := State(-1, -1, -1, 0, false, false, false, 0, 0, 0, 0, [])

  // ---------------------------------------------------------------- steps

  function CloseRec(s: State, reset: bool): State {
    var t := s.(fd := -1);
    if reset then t.(cls := -1, handle := -1, procReinit := true, memReinit := true, osReinit := true) else t
  }

  function InitRec(s: State, open: int): State {
    if s.fd != -1 || open == -1 then s else s.(fd := open, opening := s.opening + 1)
  }

  /** Building a request takes the next sequence number, whether or not it is ever written. */
  function Build(s: State): State {
    s.(seqNo := (s.seqNo + 1) % TWO_16, built := s.built + 1)
  }

  function Written(s: State, subtype: int, size: int, cls: int, handle: int): State {
    s.(log := s.log + [Request(s.built, s.seqNo, subtype, size, cls, handle, s.opening, s.clsFrom, s.handleFrom)])
  }

  function WriteRead(s: State, subtype: int, size: int, cls: int, handle: int, io: Io): (State, int) {
    var t := InitRec(s, io.open);
    if t.fd < 0 then (t, -1) else
      var u := Written(t, subtype, size, cls, handle);
      if io.write < 0 || io.read < 0 then (CloseRec(u, true), -1) else (u, io.rcode)
  }

  function Api13(s: State, io: Io): (State, int) {
    var t := InitRec(Build(s), io.open);
    if t.fd == -1 then (t, -1) else
      var u := Written(t, REC_API13, API13_SIZE, -1, -1);
      (u, if io.write > 0 && io.read > 0 then io.rcode else -1)
  }

  function Api1(s: State, io: Io): (State, int) {
    var (t, rc) := WriteRead(Build(s), REC_API1, API1_SIZE, s.cls, -1, io);
    (if rc == RECORDER_OK then t.(handle := io.handle, handleFrom := t.opening) else t, rc)
  }

  /** The class half of rec_init. */
  function Allocate(s: State, io: Io): State {
    if s.cls != -1 then s else
      var (t, rc) := Api13(s, io);
      t.(cls := rc, clsFrom := t.opening)
  }

  function RecInit(s: State, a: Io, b: Io): State {
    var t := Allocate(s, a);
    if t.cls == -1 || t.handle != -1 then t else Api1(t, b).0
  }

  /** The calls a client makes on the session: registration, the three kinds of message that carry the
      global handle (descriptors, whose records also carry the class, code setting, data), and the two
      ways of closing. */
  datatype Op =
    | Init(a: Io, b: Io)
    | Describe(size: nat, io: Io)
    | SetCode(io: Io)
    | LogData(subtype: int, size: nat, io: Io)
    | Close(reset: bool)

  predicate ValidOp(op: Op) {
    match op
    case Init(a, b) => ValidIo(a) && ValidIo(b)
    case Describe(_, io) => ValidIo(io)
    case SetCode(io) => ValidIo(io)
    case LogData(_, _, io) => ValidIo(io)
    case Close(_) => true
  }

  function Step(s: State, op: Op): State {
    match op
    case Init(a, b) => RecInit(s, a, b)
    case Describe(size, io) => WriteRead(Build(s), REC_API4, API4_HEADER + size, s.cls, s.handle, io).0
    case SetCode(io) => WriteRead(Build(s), REC_API3, API3_SIZE, -1, s.handle, io).0
    case LogData(subtype, size, io) => WriteRead(Build(s), subtype, API6_HEADER + size, -1, s.handle, io).0
    case Close(reset) => CloseRec(s, reset)
  }

  function Run(s: State, ops: seq<Op>): State
    decreases |ops|
  {
    if ops == [] then s else Run(Step(s, ops[0]), ops[1..])
  }

  /** One more call at the end of a run. */
  lemma {:induction false} RunSnoc(s: State, ops: seq<Op>, op: Op)
    ensures Run(s, ops + [op]) == Step(Run(s, ops), op)
    decreases |ops|
  {
    hide Step;
    if ops == [] {
      assert ([] + [op])[1..] == [];
    } else {
      assert (ops + [op])[1..] == ops[1..] + [op] && (ops + [op])[0] == ops[0];
      RunSnoc(Step(s, ops[0]), ops[1..], op);
    }
  }

  // ---------------------------------------------------------------- no stale session

  /** A class is only held over an open channel, answered on this opening; a handle only with a class,
      answered on this opening. */
  predicate Current(s: State) {
    && -1 <= s.fd
    && (s.cls != -1 ==> s.fd != -1 && s.clsFrom == s.opening)
    && (s.handle != -1 ==> s.cls != -1 && s.handleFrom == s.opening)
  }

  /** The request carries nothing answered on an earlier opening. */
  predicate FreshRequest(r: Request) {
    (r.cls != -1 ==> r.clsFrom == r.opening) && (r.handle != -1 ==> r.handleFrom == r.opening)
  }

  /** The one call that leaves a class behind on a closed channel. */
  predicate SoftClose(s: State, op: Op) {
    op == Close(false) && s.cls != -1
  }

  lemma ExchangeKeepsCurrent(s: State, subtype: int, size: int, cls: int, handle: int, io: Io)
    requires Current(s) && ValidIo(io)
    ensures Current(WriteRead(Build(s), subtype, size, cls, handle, io).0)
  {}

  lemma InitKeepsCurrent(s: State, a: Io, b: Io)
    requires Current(s) && ValidIo(a) && ValidIo(b)
    ensures Current(RecInit(s, a, b))
  {
    var t := Allocate(s, a);
    assert Current(t);
    if t.cls != -1 && t.handle == -1 {
      ExchangeKeepsCurrent(t, REC_API1, API1_SIZE, t.cls, -1, b);
    }
  }

  /** From a current session exactly the soft close of a live session breaks it. */
  lemma StepKeepsCurrent(s: State, op: Op)
    requires Current(s) && ValidOp(op)
    ensures Current(Step(s, op)) <==> !SoftClose(s, op)
  {
    hide WriteRead, RecInit, Build;
    match op
    case Init(a, b) => InitKeepsCurrent(s, a, b);
    case Describe(size, io) => ExchangeKeepsCurrent(s, REC_API4, API4_HEADER + size, s.cls, s.handle, io);
    case SetCode(io) => ExchangeKeepsCurrent(s, REC_API3, API3_SIZE, -1, s.handle, io);
    case LogData(subtype, size, io) => ExchangeKeepsCurrent(s, subtype, API6_HEADER + size, -1, s.handle, io);
    case Close(_) =>
  }

  /** An exchange writes at most one request: the one built, on the opening it finds or makes. */
  lemma ExchangeWrites(s: State, subtype: int, size: int, cls: int, handle: int, io: Io)
    ensures var t, u := InitRec(s, io.open), WriteRead(s, subtype, size, cls, handle, io).0;
            && u.built == s.built && u.seqNo == s.seqNo
            && (u.log == s.log
                || u.log == s.log + [Request(s.built, s.seqNo, subtype, size, cls, handle,
                                             t.opening, s.clsFrom, s.handleFrom)])
  {}

  lemma AllocateWrites(s: State, io: Io)
    requires s.cls == -1
    ensures var t, u := InitRec(Build(s), io.open), Allocate(s, io);
            && u.built == s.built + 1 && u.seqNo == (s.seqNo + 1) % TWO_16
            && (u.log == s.log
                || u.log == s.log + [Request(u.built, u.seqNo, REC_API13, API13_SIZE, -1, -1,
                                             t.opening, s.clsFrom, s.handleFrom)])
  {}

  /** The requests of `t` beyond those of `s` are fresh. */
  predicate WritesFresh(s: State, t: State) {
    s.log <= t.log && forall k :: |s.log| <= k < |t.log| ==> FreshRequest(t.log[k])
  }

  /** A request that carries only what a current session holds is fresh. */
  lemma ExchangeFresh(s: State, subtype: int, size: int, cls: int, handle: int, io: Io)
    requires Current(s) && ValidIo(io)
    requires (cls == -1 || cls == s.cls) && (handle == -1 || handle == s.handle)
    ensures WritesFresh(s, WriteRead(Build(s), subtype, size, cls, handle, io).0)
  {
    ExchangeWrites(Build(s), subtype, size, cls, handle, io);
  }

  lemma AllocateFresh(s: State, io: Io)
    requires Current(s) && ValidIo(io)
    ensures Current(Allocate(s, io)) && WritesFresh(s, Allocate(s, io))
  {
    if s.cls == -1 {
      AllocateWrites(s, io);
    }
  }

  /** A current session writes only fresh requests. */
  lemma StepWritesFresh(s: State, op: Op)
    requires Current(s) && ValidOp(op)
    ensures WritesFresh(s, Step(s, op))
  {
    hide WriteRead, Allocate, Build;
    match op
    case Init(a, b) =>
      AllocateFresh(s, a);
      var t := Allocate(s, a);
      if t.cls != -1 && t.handle == -1 {
        ExchangeFresh(t, REC_API1, API1_SIZE, t.cls, -1, b);
        FreshTwice(s, t, WriteRead(Build(t), REC_API1, API1_SIZE, t.cls, -1, b).0);
      }
    case Describe(size, io) => ExchangeFresh(s, REC_API4, API4_HEADER + size, s.cls, s.handle, io);
    case SetCode(io) => ExchangeFresh(s, REC_API3, API3_SIZE, -1, s.handle, io);
    case LogData(subtype, size, io) => ExchangeFresh(s, subtype, API6_HEADER + size, -1, s.handle, io);
    case Close(_) =>
  }

  lemma FreshTwice(s: State, t: State, u: State)
    requires WritesFresh(s, t) && WritesFresh(t, u)
    ensures WritesFresh(s, u)
  {
    forall k | |s.log| <= k < |u.log|
      ensures FreshRequest(u.log[k])
    {
      assert k < |t.log| ==> u.log[k] == t.log[k];
    }
  }

  /** No call of the run is a soft close of a live session. */
  predicate Disciplined(s: State, ops: seq<Op>)
    decreases |ops|
  {
    ops == [] || (!SoftClose(s, ops[0]) && Disciplined(Step(s, ops[0]), ops[1..]))
  }

  predicate CurrentThroughout(s: State, ops: seq<Op>)
    decreases |ops|
  {
    Current(s) && (ops == [] || CurrentThroughout(Step(s, ops[0]), ops[1..]))
  }

  /** Exactly the disciplined runs keep the session current after every call. */
  lemma {:induction false} CurrentIffDisciplined(s: State, ops: seq<Op>)
    requires Current(s) && forall k :: 0 <= k < |ops| ==> ValidOp(ops[k])
    ensures CurrentThroughout(s, ops) <==> Disciplined(s, ops)
    decreases |ops|
  {
    if ops != [] {
      StepKeepsCurrent(s, ops[0]);
      if Current(Step(s, ops[0])) {
        CurrentIffDisciplined(Step(s, ops[0]), ops[1..]);
      }
    }
  }

  /** A disciplined run never writes a request with a class or handle of an earlier opening. */
  lemma {:induction false} DisciplinedRunIsFresh(s: State, ops: seq<Op>)
    requires Current(s) && forall k :: 0 <= k < |ops| ==> ValidOp(ops[k])
    requires Disciplined(s, ops)
    ensures s.log <= Run(s, ops).log
    ensures forall k :: |s.log| <= k < |Run(s, ops).log| ==> FreshRequest(Run(s, ops).log[k])
    decreases |ops|
  {
    if ops != [] {
      var t := Step(s, ops[0]);
      StepKeepsCurrent(s, ops[0]);
      StepWritesFresh(s, ops[0]);
      DisciplinedRunIsFresh(t, ops[1..]);
      var u := Run(s, ops);
      forall k | |s.log| <= k < |u.log|
        ensures FreshRequest(u.log[k])
      {
        assert k < |t.log| ==> u.log[k] == t.log[k];
      }
    }
  }

  /** A handle is never held without a class. */
  predicate Sane(s: State) {
    -1 <= s.fd && (s.handle != -1 ==> s.cls != -1)
  }

  /** The channel the exchange finds: some descriptor, and the opening the request goes out on. */
  predicate Finds(s: State, io: Io) {
    InitRec(s, io.open).fd >= 0
  }

  predicate StaleClass(s: State, io: Io) {
    s.cls != -1 && s.clsFrom != InitRec(s, io.open).opening
  }

  predicate StaleHandle(s: State, io: Io) {
    s.handle != -1 && s.handleFrom != InitRec(s, io.open).opening
  }

  /** The call finds a channel and carries a class or handle that was not answered on its opening: data
      and code setting carry the handle, descriptors both, registration the class when one is held
      without a handle. */
  predicate SendsStale(s: State, op: Op) {
    match op
    case Init(a, b) => s.cls != -1 && s.handle == -1 && Finds(s, b) && StaleClass(s, b)
    case Describe(_, io) => Finds(s, io) && (StaleClass(s, io) || StaleHandle(s, io))
    case SetCode(io) => Finds(s, io) && StaleHandle(s, io)
    case LogData(_, _, io) => Finds(s, io) && StaleHandle(s, io)
    case Close(_) => false
  }

  predicate NoneSendsStale(s: State, ops: seq<Op>)
    decreases |ops|
  {
    ops == [] || (!SendsStale(s, ops[0]) && NoneSendsStale(Step(s, ops[0]), ops[1..]))
  }

  /** An exchange writes its request exactly when it finds a channel. */
  lemma ExchangeWritesIff(s: State, subtype: int, size: int, cls: int, handle: int, io: Io)
    ensures WriteRead(s, subtype, size, cls, handle, io).0.log ==
            if Finds(s, io)
            then s.log + [Request(s.built, s.seqNo, subtype, size, cls, handle,
                                  InitRec(s, io.open).opening, s.clsFrom, s.handleFrom)]
            else s.log
  {}

  lemma ExchangeFreshIff(s: State, subtype: int, size: int, cls: int, handle: int, io: Io)
    requires (cls == -1 || cls == s.cls) && (handle == -1 || handle == s.handle)
    ensures WritesFresh(s, WriteRead(Build(s), subtype, size, cls, handle, io).0)
            <==> !(Finds(s, io) && ((cls != -1 && StaleClass(s, io)) || (handle != -1 && StaleHandle(s, io))))
  {
    hide WriteRead;
    ExchangeWritesIff(Build(s), subtype, size, cls, handle, io);
    var t := WriteRead(Build(s), subtype, size, cls, handle, io).0;
    if Finds(s, io) {
      assert t.log[|s.log|] == Request(s.built + 1, (s.seqNo + 1) % TWO_16, subtype, size, cls, handle,
                                       InitRec(s, io.open).opening, s.clsFrom, s.handleFrom);
    }
  }

  lemma AllocateFreshAlways(s: State, io: Io)
    requires -1 <= s.fd && ValidIo(io)
    ensures WritesFresh(s, Allocate(s, io)) && -1 <= Allocate(s, io).fd
    ensures s.cls == -1 && Allocate(s, io).cls != -1 ==>
              Allocate(s, io).fd != -1 && Allocate(s, io).clsFrom == Allocate(s, io).opening
  {
    if s.cls == -1 {
      AllocateWrites(s, io);
    }
  }

  /** The log only grows, so what is fresh over two stretches is fresh over each. */
  lemma FreshSplits(s: State, t: State, u: State)
    requires s.log <= t.log <= u.log
    ensures WritesFresh(s, u) <==> WritesFresh(s, t) && WritesFresh(t, u)
  {
    if WritesFresh(s, t) && WritesFresh(t, u) {
      FreshTwice(s, t, u);
    }
    if WritesFresh(s, u) {
      forall k | |s.log| <= k < |t.log|
        ensures FreshRequest(t.log[k])
      {
        assert t.log[k] == u.log[k];
      }
    }
  }

  lemma ExchangeKeepsLog(s: State, subtype: int, size: int, cls: int, handle: int, io: Io)
    ensures s.log <= WriteRead(Build(s), subtype, size, cls, handle, io).0.log
  {
    hide WriteRead;
    ExchangeWritesIff(Build(s), subtype, size, cls, handle, io);
  }

  lemma StepKeepsLog(s: State, op: Op)
    requires -1 <= s.fd && ValidOp(op)
    ensures s.log <= Step(s, op).log
  {
    hide WriteRead, Allocate, Build;
    match op
    case Init(a, b) =>
      AllocateFreshAlways(s, a);
      var t := Allocate(s, a);
      ExchangeKeepsLog(t, REC_API1, API1_SIZE, t.cls, -1, b);
    case Describe(size, io) => ExchangeKeepsLog(s, REC_API4, API4_HEADER + size, s.cls, s.handle, io);
    case SetCode(io) => ExchangeKeepsLog(s, REC_API3, API3_SIZE, -1, s.handle, io);
    case LogData(subtype, size, io) => ExchangeKeepsLog(s, subtype, API6_HEADER + size, -1, s.handle, io);
    case Close(_) =>
  }

  lemma ExchangeKeepsSane(s: State, subtype: int, size: int, cls: int, handle: int, io: Io)
    requires Sane(s) && ValidIo(io)
    ensures Sane(WriteRead(Build(s), subtype, size, cls, handle, io).0)
  {}

  lemma InitKeepsSane(s: State, a: Io, b: Io)
    requires Sane(s) && ValidIo(a) && ValidIo(b)
    ensures Sane(RecInit(s, a, b))
  {
    hide WriteRead;
    var t := Allocate(s, a);
    assert Sane(t);
    if t.cls != -1 && t.handle == -1 {
      ExchangeKeepsSane(t, REC_API1, API1_SIZE, t.cls, -1, b);
      AnswerNeedsClass(t, b);
    }
  }

  /** A good answer to a registration leaves the class it was sent with. */
  lemma AnswerNeedsClass(s: State, io: Io)
    ensures var (t, rc) := WriteRead(Build(s), REC_API1, API1_SIZE, s.cls, -1, io);
            rc == RECORDER_OK ==> t.cls == s.cls
  {}

  lemma StepKeepsSane(s: State, op: Op)
    requires Sane(s) && ValidOp(op)
    ensures Sane(Step(s, op))
  {
    hide WriteRead, RecInit, Build;
    match op
    case Init(a, b) => InitKeepsSane(s, a, b);
    case Describe(size, io) => ExchangeKeepsSane(s, REC_API4, API4_HEADER + size, s.cls, s.handle, io);
    case SetCode(io) => ExchangeKeepsSane(s, REC_API3, API3_SIZE, -1, s.handle, io);
    case LogData(subtype, size, io) => ExchangeKeepsSane(s, subtype, API6_HEADER + size, -1, s.handle, io);
    case Close(_) =>
  }

  lemma InitFreshIff(s: State, a: Io, b: Io)
    requires Sane(s) && ValidIo(a) && ValidIo(b)
    ensures WritesFresh(s, RecInit(s, a, b)) <==> !SendsStale(s, Init(a, b))
  {
    hide WriteRead, Allocate, Build;
    AllocateFreshAlways(s, a);
    AllocateOfHeld(s, a);
    var t := Allocate(s, a);
    if t.cls != -1 && t.handle == -1 {
      ExchangeFreshIff(t, REC_API1, API1_SIZE, t.cls, -1, b);
      ExchangeKeepsLog(t, REC_API1, API1_SIZE, t.cls, -1, b);
      FreshSplits(s, t, WriteRead(Build(t), REC_API1, API1_SIZE, t.cls, -1, b).0);
    }
  }

  lemma AllocateOfHeld(s: State, io: Io)
    ensures s.cls != -1 ==> Allocate(s, io) == s
  {}

  /** From any state at all a call writes a stale class or handle exactly when it finds a channel and
      carries one. */
  lemma StepFreshIff(s: State, op: Op)
    requires Sane(s) && ValidOp(op)
    ensures WritesFresh(s, Step(s, op)) <==> !SendsStale(s, op)
  {
    hide WriteRead, RecInit, Build, Finds, StaleClass, StaleHandle;
    match op
    case Init(a, b) => InitFreshIff(s, a, b);
    case Describe(size, io) =>
      ExchangeFreshIff(s, REC_API4, API4_HEADER + size, s.cls, s.handle, io);
      StaleIsHeld(s, io);
    case SetCode(io) =>
      ExchangeFreshIff(s, REC_API3, API3_SIZE, -1, s.handle, io);
      StaleIsHeld(s, io);
    case LogData(subtype, size, io) =>
      ExchangeFreshIff(s, subtype, API6_HEADER + size, -1, s.handle, io);
      StaleIsHeld(s, io);
    case Close(_) =>
  }

  lemma StaleIsHeld(s: State, io: Io)
    ensures StaleClass(s, io) ==> s.cls != -1
    ensures StaleHandle(s, io) ==> s.handle != -1
  {}

  /** A run writes only fresh requests exactly when none of its calls sends stale: runs past a soft
      close included. */
  lemma {:induction false} RunFreshIff(s: State, ops: seq<Op>)
    requires Sane(s) && forall k :: 0 <= k < |ops| ==> ValidOp(ops[k])
    ensures s.log <= Run(s, ops).log
    ensures WritesFresh(s, Run(s, ops)) <==> NoneSendsStale(s, ops)
    decreases |ops|
  {
    hide Step, SendsStale;
    if ops != [] {
      var t := Step(s, ops[0]);
      StepKeepsSane(s, ops[0]);
      StepKeepsLog(s, ops[0]);
      StepFreshIff(s, ops[0]);
      RunFreshIff(t, ops[1..]);
      FreshSplits(s, t, Run(t, ops[1..]));
    }
  }

  /** After a soft close of a registered session, the next code setting or data message that finds a
      channel is written with the handle of the earlier opening. */
  lemma SoftCloseThenStale(s: State, op: Op)
    requires Current(s) && s.handle != -1
    requires op.SetCode? || op.LogData? || op.Describe?
    requires op.io.open >= 0
    ensures var t := Step(CloseRec(s, false), op);
            |t.log| == |s.log| + 1 && t.log[|s.log|].handle == s.handle && !FreshRequest(t.log[|s.log|])
  {}

  /** A run that reaches that state: register, close softly, set the code. */
  lemma StaleRunExists()
    ensures exists ops :: (forall k :: 0 <= k < |ops| ==> ValidOp(ops[k]))
                       && |ops| == 3 && !Disciplined(INITIAL, ops)
                       && exists k :: 0 <= k < |Run(INITIAL, ops).log| && !FreshRequest(Run(INITIAL, ops).log[k])
  {
    var ok := Io(5, 64, 16, 0, 7);
    var alloc := Io(5, 52, 16, 9, 0);
    var a, b, c := Init(alloc, ok), Close(false), SetCode(ok);
    var ops := [a, b, c];
    var s := Step(INITIAL, a);
    assert Current(INITIAL);
    StepKeepsCurrent(INITIAL, a);
    assert s.handle == 7 && |s.log| == 2;
    SoftCloseThenStale(s, c);
    assert ops[1..] == [b, c] && ops[1..][1..] == [c] && [c][1..] == [];
    var t := Step(Step(s, b), c);
    assert Run(INITIAL, ops) == Run(s, [b, c]) == Run(Step(s, b), [c]) == Run(t, []) == t;
    assert !FreshRequest(Run(INITIAL, ops).log[2]);
    assert SoftClose(s, b) && !Disciplined(s, [b, c]) && !Disciplined(INITIAL, ops);
  }

  // ---------------------------------------------------------------- transport failures

  /** An exchange that fails on an open channel clears descriptor, class and handle together and asks
      all three usage loggers to start over, from any state at all, current or not. */
  lemma FailureClearsAll(s: State, subtype: int, size: int, cls: int, handle: int, io: Io)
    requires -1 <= s.fd && ValidIo(io)
    requires s.fd != -1 || io.open != -1
    requires io.write < 0 || io.read < 0
    ensures var (t, rc) := WriteRead(s, subtype, size, cls, handle, io);
            && rc == -1 && t.fd == -1 && t.cls == -1 && t.handle == -1
            && t.procReinit && t.memReinit && t.osReinit
            && Current(t)
  {}

  /** The class half of rec_init ends with a class: one held already, or one answered. */
  predicate GetsClass(s: State, a: Io) {
    s.cls != -1 || (InitRec(s, a.open).fd != -1 && a.write > 0 && a.read > 0 && a.rcode != -1)
  }

  /** The handle half ends with a handle: one held already, or one answered over the open channel. */
  predicate GetsHandle(s: State, b: Io, open: bool) {
    s.handle != -1
    || ((open || Finds(s, b)) && b.write >= 0 && b.read >= 0 && b.rcode == RECORDER_OK && b.handle != -1)
  }

  /** rec_init leaves both a class and a handle exactly when each is held or answered; allocating the
      class leaves the channel open for the registration.  From a current session it is current. */
  lemma InitRegisters(s: State, a: Io, b: Io)
    requires -1 <= s.fd && ValidIo(a) && ValidIo(b)
    ensures var t := RecInit(s, a, b);
            && (t.cls != -1 && t.handle != -1 <==> GetsClass(s, a) && GetsHandle(s, b, s.cls == -1))
            && (Current(s) ==> Current(t))
  {
    if Current(s) {
      InitKeepsCurrent(s, a, b);
    }
  }

  /** The two halves on the answers themselves: class allocation needs both counts positive, registration
      both not negative and the code 0. */
  lemma RegistersMean(s: State, a: Io, b: Io)
    requires -1 <= s.fd && ValidIo(a) && ValidIo(b)
    ensures GetsClass(s, a) <==>
              s.cls != -1 || ((s.fd != -1 || a.open != -1) && a.write >= 1 && a.read >= 1 && a.rcode != -1)
    ensures GetsHandle(s, b, s.cls == -1) <==>
              s.handle != -1
              || ((s.cls == -1 || s.fd != -1 || b.open != -1)
                  && b.write >= 0 && b.read >= 0 && b.rcode == 0 && b.handle != -1)
  {}

  // ---------------------------------------------------------------- the restart flags

  /** A soft close changes the descriptor and nothing else; a reset also takes class and handle and asks
      every logger to start over. */
  lemma CloseMeans(s: State)
    ensures var t := Step(s, Close(false));
            && t.fd == -1 && t.cls == s.cls && t.handle == s.handle && t.seqNo == s.seqNo
            && t.procReinit == s.procReinit && t.memReinit == s.memReinit && t.osReinit == s.osReinit
            && t.opening == s.opening && t.clsFrom == s.clsFrom && t.handleFrom == s.handleFrom
            && t.built == s.built && t.log == s.log
    ensures var t := Step(s, Close(true));
            && t.fd == -1 && t.cls == -1 && t.handle == -1 && t.seqNo == s.seqNo
            && t.procReinit && t.memReinit && t.osReinit
            && t.opening == s.opening && t.clsFrom == s.clsFrom && t.handleFrom == s.handleFrom
            && t.built == s.built && t.log == s.log
  {}

  predicate Fails(io: Io) {
    io.write < 0 || io.read < 0
  }

  /** The call resets the session: a close with reset, an exchange that fails on a channel it found, or a
      registration that does, which comes only with a class, without a handle, and over the channel the
      class was just answered on or one it found. */
  predicate Resets(s: State, op: Op) {
    match op
    case Init(a, b) => GetsClass(s, a) && s.handle == -1 && (s.cls == -1 || Finds(s, b)) && Fails(b)
    case Describe(_, io) => Finds(s, io) && Fails(io)
    case SetCode(io) => Finds(s, io) && Fails(io)
    case LogData(_, _, io) => Finds(s, io) && Fails(io)
    case Close(reset) => reset
  }

  /** The flags are raised, or left as they are. */
  predicate FlagsAfter(s: State, t: State, raised: bool) {
    && (t.procReinit <==> s.procReinit || raised)
    && (t.memReinit <==> s.memReinit || raised)
    && (t.osReinit <==> s.osReinit || raised)
  }

  lemma ExchangeFlags(s: State, subtype: int, size: int, cls: int, handle: int, io: Io)
    ensures FlagsAfter(s, WriteRead(Build(s), subtype, size, cls, handle, io).0, Finds(s, io) && Fails(io))
  {}

  lemma AllocateFlags(s: State, io: Io)
    requires -1 <= s.fd && ValidIo(io)
    ensures FlagsAfter(s, Allocate(s, io), false) && Allocate(s, io).handle == s.handle
    ensures Allocate(s, io).cls != -1 <==> GetsClass(s, io)
    ensures s.cls == -1 && Allocate(s, io).cls != -1 ==> Allocate(s, io).fd >= 0
    ensures s.cls != -1 ==> Allocate(s, io) == s
  {}

  lemma InitFlags(s: State, a: Io, b: Io)
    requires -1 <= s.fd && ValidIo(a) && ValidIo(b)
    ensures FlagsAfter(s, RecInit(s, a, b), Resets(s, Init(a, b)))
  {
    hide WriteRead, Allocate, GetsClass;
    AllocateFlags(s, a);
    var t := Allocate(s, a);
    ExchangeFlags(t, REC_API1, API1_SIZE, t.cls, -1, b);
  }

  lemma StepFlags(s: State, op: Op)
    requires -1 <= s.fd && ValidOp(op)
    ensures FlagsAfter(s, Step(s, op), Resets(s, op))
  {
    hide WriteRead, RecInit, Build, Finds, Fails;
    match op
    case Init(a, b) => InitFlags(s, a, b);
    case Describe(size, io) => ExchangeFlags(s, REC_API4, API4_HEADER + size, s.cls, s.handle, io);
    case SetCode(io) => ExchangeFlags(s, REC_API3, API3_SIZE, -1, s.handle, io);
    case LogData(subtype, size, io) => ExchangeFlags(s, subtype, API6_HEADER + size, -1, s.handle, io);
    case Close(_) =>
  }

  predicate SomeReset(s: State, ops: seq<Op>)
    decreases |ops|
  {
    ops != [] && (Resets(s, ops[0]) || SomeReset(Step(s, ops[0]), ops[1..]))
  }

  /** Over any run a logger is asked to start over exactly when it was before, or some call of the run
      reset the session. */
  lemma {:induction false} RunFlags(s: State, ops: seq<Op>)
    requires Sane(s) && forall k :: 0 <= k < |ops| ==> ValidOp(ops[k])
    ensures FlagsAfter(s, Run(s, ops), SomeReset(s, ops))
    decreases |ops|
  {
    hide Step, Resets;
    if ops != [] {
      StepKeepsSane(s, ops[0]);
      StepFlags(s, ops[0]);
      RunFlags(Step(s, ops[0]), ops[1..]);
    }
  }

  /** What resets a session, on the answers themselves: a count below zero over a channel held or found. */
  lemma ResetsMean(s: State, op: Op)
    requires -1 <= s.fd && ValidOp(op)
    ensures op.Describe? || op.SetCode? || op.LogData? ==>
              (Resets(s, op) <==> (s.fd != -1 || op.io.open != -1) && (op.io.write < 0 || op.io.read < 0))
    ensures op.Init? && s.cls != -1 ==>
              (Resets(s, op) <==> s.handle == -1 && (s.fd != -1 || op.b.open != -1)
                                  && (op.b.write < 0 || op.b.read < 0))
    ensures op.Close? ==> (Resets(s, op) <==> op.reset)
  {}

  /** An exchange on a channel with no count below zero gives the code of the answer and keeps the
      session; without a channel it gives -1 and changes nothing. */
  lemma ExchangeMeans(s: State, subtype: int, size: int, cls: int, handle: int, io: Io)
    requires -1 <= s.fd && ValidIo(io)
    ensures (s.fd != -1 || io.open != -1) && io.write >= 0 && io.read >= 0 ==>
              var (t, rc) := WriteRead(s, subtype, size, cls, handle, io);
              && rc == io.rcode && t.fd == (if s.fd != -1 then s.fd else io.open)
              && t.cls == s.cls && t.handle == s.handle && FlagsAfter(s, t, false)
    ensures s.fd == -1 && io.open == -1 ==> WriteRead(s, subtype, size, cls, handle, io) == (s, -1)
  {}

  // ---------------------------------------------------------------- what is written

  /** The descriptor after the channel is looked for: the one held, else the one the search ends with. */
  lemma FindsMeans(s: State, io: Io)
    requires -1 <= s.fd
    ensures Finds(s, io) <==> s.fd >= 0 || io.open >= 0
    ensures InitRec(s, io.open).opening == s.opening + if s.fd == -1 && io.open != -1 then 1 else 0
    ensures InitRec(s, io.open).fd == if s.fd != -1 then s.fd else io.open
  {}

  /** What each call on a registered session writes: subtype and size, the class in descriptors only, and
      the handle held; nothing without a channel. */
  lemma WritesMean(s: State, op: Op)
    requires op.Describe? || op.SetCode? || op.LogData?
    ensures !Finds(s, op.io) ==> Step(s, op).log == s.log
    ensures Finds(s, op.io) ==>
              var t := Step(s, op);
              && |t.log| == |s.log| + 1 && t.log[..|s.log|] == s.log
              && var r := t.log[|s.log|];
                 && r.handle == s.handle && r.seqNo == (s.seqNo + 1) % 65536 && r.index == s.built + 1
                 && (op.Describe? ==> r.subtype == 4 && r.size == 28 + op.size && r.cls == s.cls)
                 && (op.SetCode? ==> r.subtype == 3 && r.size == 36 && r.cls == -1)
                 && (op.LogData? ==> r.subtype == op.subtype && r.size == 32 + op.size && r.cls == -1)
  {
    hide WriteRead;
    match op
    case Describe(size, io) => ExchangeWritesIff(Build(s), REC_API4, API4_HEADER + size, s.cls, s.handle, io);
    case SetCode(io) => ExchangeWritesIff(Build(s), REC_API3, API3_SIZE, -1, s.handle, io);
    case LogData(subtype, size, io) => ExchangeWritesIff(Build(s), subtype, API6_HEADER + size, -1, s.handle, io);
  }

  /** What registration writes: a class request of 52 bytes when no class is held, then, with a class and
      without a handle, a request of 64 bytes that carries the class. */
  lemma InitWritesMean(s: State, a: Io, b: Io)
    ensures s.cls == -1 && InitRec(s, a.open).fd != -1 ==>
              var t := Allocate(s, a);
              && |t.log| == |s.log| + 1 && t.log[|s.log|].subtype == 13 && t.log[|s.log|].size == 52
              && t.log[|s.log|].cls == -1 && t.log[|s.log|].handle == -1
    ensures s.cls != -1 && s.handle == -1 && Finds(s, b) ==>
              var t := Step(s, Init(a, b));
              && |t.log| == |s.log| + 1 && t.log[|s.log|].subtype == 1 && t.log[|s.log|].size == 64
              && t.log[|s.log|].cls == s.cls && t.log[|s.log|].handle == -1
  {}

  // ---------------------------------------------------------------- sequence numbers

  /** Sequence numbers count requests built, modulo 65536, and each written request keeps its own. */
  predicate Numbered(s: State) {
    && s.seqNo == s.built % TWO_16
    && (forall k :: 0 <= k < |s.log| ==> s.log[k].seqNo == s.log[k].index % TWO_16 && s.log[k].index <= s.built)
    && (forall j, k :: 0 <= j < k < |s.log| ==> s.log[j].index < s.log[k].index)
  }

  lemma AppendKeepsNumbered(s: State, t: State, r: Request)
    requires Numbered(s) && t.built == s.built + 1 && t.seqNo == (s.seqNo + 1) % TWO_16
    requires t.log == s.log || (t.log == s.log + [r] && r.index == t.built && r.seqNo == t.seqNo)
    ensures Numbered(t)
  {
    if t.log != s.log {
      forall k | 0 <= k < |t.log|
        ensures t.log[k].seqNo == t.log[k].index % TWO_16 && t.log[k].index <= t.built
        ensures k < |s.log| ==> t.log[k].index < t.built
      {
        assert k < |s.log| ==> t.log[k] == s.log[k];
      }
    }
  }

  lemma ExchangeKeepsNumbered(s: State, subtype: int, size: int, cls: int, handle: int, io: Io)
    requires Numbered(s)
    ensures Numbered(WriteRead(Build(s), subtype, size, cls, handle, io).0)
  {
    var b := Build(s);
    ExchangeWrites(b, subtype, size, cls, handle, io);
    AppendKeepsNumbered(s, WriteRead(b, subtype, size, cls, handle, io).0,
                        Request(b.built, b.seqNo, subtype, size, cls, handle,
                                InitRec(b, io.open).opening, b.clsFrom, b.handleFrom));
  }

  lemma AllocateKeepsNumbered(s: State, io: Io)
    requires Numbered(s)
    ensures Numbered(Allocate(s, io))
  {
    if s.cls == -1 {
      AllocateWrites(s, io);
      var u := Allocate(s, io);
      AppendKeepsNumbered(s, u, Request(u.built, u.seqNo, REC_API13, API13_SIZE, -1, -1,
                                        InitRec(Build(s), io.open).opening, s.clsFrom, s.handleFrom));
    }
  }

  lemma StepKeepsNumbered(s: State, op: Op)
    requires Numbered(s)
    ensures Numbered(Step(s, op))
  {
    hide WriteRead, Allocate, Build;
    match op
    case Init(a, b) =>
      AllocateKeepsNumbered(s, a);
      var t := Allocate(s, a);
      if t.cls != -1 && t.handle == -1 {
        ExchangeKeepsNumbered(t, REC_API1, API1_SIZE, t.cls, -1, b);
      }
    case Describe(size, io) => ExchangeKeepsNumbered(s, REC_API4, API4_HEADER + size, s.cls, s.handle, io);
    case SetCode(io) => ExchangeKeepsNumbered(s, REC_API3, API3_SIZE, -1, s.handle, io);
    case LogData(subtype, size, io) => ExchangeKeepsNumbered(s, subtype, API6_HEADER + size, -1, s.handle, io);
    case Close(_) =>
  }

  /** Over any run from the start, two requests less than 65536 apart never share a number. */
  lemma {:induction false} NumbersDistinct(s: State, ops: seq<Op>)
    requires Numbered(s)
    ensures Numbered(Run(s, ops))
    ensures forall j, k :: 0 <= j < k < |Run(s, ops).log|
              && Run(s, ops).log[k].index - Run(s, ops).log[j].index < TWO_16
              ==> Run(s, ops).log[j].seqNo != Run(s, ops).log[k].seqNo
    decreases |ops|
  {
    if ops != [] {
      StepKeepsNumbered(s, ops[0]);
      NumbersDistinct(Step(s, ops[0]), ops[1..]);
    }
  }

  // ---------------------------------------------------------------- request sizes

  /** A data message fits the request buffer exactly when its data fits a blob, a descriptor message
      exactly up to four bytes more. */
  predicate OpFits(op: Op) {
    match op
    case Describe(size, _) => size <= 966
    case LogData(_, size, _) => size <= 962
    case _ => true
  }

  lemma RequestsFit(s: State, op: Op)
    requires op.LogData? || op.Describe? || op.SetCode?
    ensures var t := Step(s, op);
            t.log == s.log || (|t.log| == |s.log| + 1 && (t.log[|s.log|].size <= REQUEST_CAPACITY <==> OpFits(op)))
  {
    hide WriteRead;
    match op
    case Describe(size, io) => ExchangeWrites(Build(s), REC_API4, API4_HEADER + size, s.cls, s.handle, io);
    case SetCode(io) => ExchangeWrites(Build(s), REC_API3, API3_SIZE, -1, s.handle, io);
    case LogData(subtype, size, io) => ExchangeWrites(Build(s), subtype, API6_HEADER + size, -1, s.handle, io);
  }
}
