/** recorder/procusage.c: the field descriptors for every processor, built as one table and sent to the
    recorder in chunks that fit a message. */
module ProcUsage {
  import opened Bytes
  import opened Delimited
  import opened Wrappers
  import P = RecorderProtocol
  import Recorder

  const RECORD_SIZE := 96
  const DESC_SIZE := 88
  const MAX_BLOB := 962
  const CHUNK_RECORDS := 10
  const CHUNK_SIZE := CHUNK_RECORDS * RECORD_SIZE

  const CODE_PROCESSOR_USAGE := 13
  const FLAGS_FIELD_DESCRIPTOR := 0x80 + 0x0C
  const SEVERITY_PERIOD_NUMERIC := 4 + 0x20
  const SIZE_BYTE := 1
  const VISIBLE_TO_CUSTOMER := 1

  /** RECORDER_API4_RECORD, 96 bytes packed. */
  datatype Descriptor = Descriptor(flags: u8, cls: u8, code: u8, field: u8, severityType: u8,
                                   format: u8, visibility: u8, desc: string)

  function FieldName(j: nat): string {
    if j % 2 == 0 then "User Time " else "Kernel Time "
  }

  /** Record `j` of the table: two fields for each processor; the field number is one byte wide. */
  function RecordFor(cls: int, cpus: seq<string>, j: nat): Descriptor
    requires j < 2 * |cpus|
  {
    Descriptor(FLAGS_FIELD_DESCRIPTOR, cls % TWO_8, CODE_PROCESSOR_USAGE, j % TWO_8, SEVERITY_PERIOD_NUMERIC,
               SIZE_BYTE, VISIBLE_TO_CUSTOMER, FieldName(j) + cpus[j / 2])
  }

  function Table(cls: int, cpus: seq<string>): (t: seq<Descriptor>)
    ensures |t| == 2 * |cpus|
  {
    seq(2 * |cpus|, j requires 0 <= j < 2 * |cpus| => RecordFor(cls, cpus, j))
  }

  /** The processor names fit behind the field name, terminator included. */
  predicate NamesFit(cpus: seq<string>) {
    forall k :: 0 <= k < |cpus| ==> |cpus[k]| + 12 < DESC_SIZE
  }

  /** Two records of the table carry the same field number exactly when their places differ by a multiple
      of 256, so numbers are unique exactly up to 128 processors. */
  lemma FieldNumbersUnique(cls: int, cpus: seq<string>)
    ensures (forall i, j :: 0 <= i < j < 2 * |cpus| ==> Table(cls, cpus)[i].field != Table(cls, cpus)[j].field)
            <==> |cpus| <= 128
  {
    var t := Table(cls, cpus);
    if |cpus| > 128 {
      assert t[0].field == 0 && t[256].field == 0;
    } else {
      forall i, j | 0 <= i < j < 2 * |cpus|
        ensures t[i].field != t[j].field
      {
        assert t[i].field == i && t[j].field == j;
      }
    }
  }

  /** For every processor two records, user time first: both flagged as field descriptors of the
      processor usage code, with the low byte of the class, periodic unsigned numbers of one byte, shown
      to the customer. */
  lemma TableMeans(cls: int, cpus: seq<string>, k: nat)
    requires k < |cpus|
    ensures var t := Table(cls, cpus);
            && t[2 * k] == Descriptor(0x8C, cls % 256, 13, 2 * k % 256, 0x24, 1, 1, "User Time " + cpus[k])
            && t[2 * k + 1] == Descriptor(0x8C, cls % 256, 13, (2 * k + 1) % 256, 0x24, 1, 1, "Kernel Time " + cpus[k])
  {}

  /** The table cut into messages: ten records at a time while more than a blob's worth is left. */
  function Chunks(t: seq<Descriptor>): (cs: seq<seq<Descriptor>>)
    ensures cs != []
    decreases |t|
  {
    if |t| * RECORD_SIZE > MAX_BLOB then [t[..CHUNK_RECORDS]] + Chunks(t[CHUNK_RECORDS..]) else [t]
  }

  /** The chunks make up the whole table; all but the last hold exactly ten records; none exceeds ten,
      so every request built from one fits the request buffer. */
  lemma {:induction false} ChunksMakeTable(t: seq<Descriptor>)
    ensures Flatten(Chunks(t)) == t
    ensures |Chunks(t)| == if |t| == 0 then 1 else (|t| + 9) / 10
    ensures forall k :: 0 <= k < |Chunks(t)| ==> |Chunks(t)[k]| <= 10
    ensures forall k :: 0 <= k < |Chunks(t)| - 1 ==> |Chunks(t)[k]| == 10
    ensures forall k :: 0 <= k < |Chunks(t)| ==> 28 + 96 * |Chunks(t)[k]| <= 994
    decreases |t|
  {
    if |t| > CHUNK_RECORDS {
      ChunksMakeTable(t[CHUNK_RECORDS..]);
      assert t == t[..CHUNK_RECORDS] + t[CHUNK_RECORDS..];
    } else {
      assert Flatten([t]) == t + Flatten([t][1..]);
    }
  }

  /** What the chunks put together say of every processor. */
  lemma ChunksDescribe(cls: int, cpus: seq<string>, k: nat)
    requires k < |cpus|
    ensures var t := Flatten(Chunks(Table(cls, cpus)));
            && |t| == 2 * |cpus|
            && t[2 * k].desc == "User Time " + cpus[k] && t[2 * k + 1].desc == "Kernel Time " + cpus[k]
            && t[2 * k].cls == t[2 * k + 1].cls == cls % 256 && t[2 * k].code == t[2 * k + 1].code == 13
  {
    ChunksMakeTable(Table(cls, cpus));
    TableMeans(cls, cpus, k);
  }

  /** The descriptor build loop. */
  method BuildTable(cls: int, cpus: seq<string>) returns (toc: array<Descriptor>)
    requires NamesFit(cpus)
    ensures fresh(toc) && toc[..] == Table(cls, cpus)
  {
    var numDescript := 2 * |cpus|;
    var blank := Descriptor(0, 0, 0, 0, 0, 0, 0, "");
    toc := new Descriptor[numDescript](_ => blank);
    var j := 0;
    while j < numDescript
      invariant 0 <= j <= numDescript
      invariant forall i :: 0 <= i < j ==> toc[i] == RecordFor(cls, cpus, i)
    {
      var name := if j % 2 == 0 then "User Time " else "Kernel Time ";
      toc[j] := Descriptor(FLAGS_FIELD_DESCRIPTOR, cls % TWO_8, CODE_PROCESSOR_USAGE, j % TWO_8,
                           SEVERITY_PERIOD_NUMERIC, SIZE_BYTE, VISIBLE_TO_CUSTOMER, name + cpus[j / 2]);
      j := j + 1;
    }
  }

  // ---------------------------------------------------------------- sending

  /** Sending chunks one after the other, from message `k` on, until one is refused: the session then,
      the number of messages, and the last answer. */
  function SendUntilRefused(s: P.State, cs: seq<seq<Descriptor>>, io: nat -> P.Io, k: nat): (P.State, nat, int)
    requires cs != []
    decreases |cs|
  {
    var (t, rc) := P.WriteRead(P.Build(s), P.REC_API4, P.API4_HEADER + RECORD_SIZE * |cs[0]|, s.cls, s.handle, io(k));
    if rc != P.RECORDER_OK || |cs| == 1 then (t, k + 1, rc) else SendUntilRefused(t, cs[1..], io, k + 1)
  }

  /** The messages for some chunks as calls on the session. */
  function Messages(cs: seq<seq<Descriptor>>, io: nat -> P.Io, k: nat): seq<P.Op> {
    seq(|cs|, i requires 0 <= i < |cs| => P.Describe(RECORD_SIZE * |cs[i]|, io(k + i)))
  }

  /** Sending is a run of the session over the first chunks, all of them when the last answer is good. */
  lemma {:induction false} SendIsRun(s: P.State, cs: seq<seq<Descriptor>>, io: nat -> P.Io, k: nat)
    requires cs != []
    ensures var (t, n, rc) := SendUntilRefused(s, cs, io, k);
            && k < n <= k + |cs|
            && t == P.Run(s, Messages(cs[..n - k], io, k))
            && (rc == P.RECORDER_OK ==> n == k + |cs|)
    decreases |cs|
  {
    hide P.Step, P.WriteRead;
    var op := P.Describe(RECORD_SIZE * |cs[0]|, io(k));
    var (t, rc) := P.WriteRead(P.Build(s), P.REC_API4, P.API4_HEADER + RECORD_SIZE * |cs[0]|, s.cls, s.handle, io(k));
    DescribeIsExchange(s, RECORD_SIZE * |cs[0]|, io(k));
    if rc != P.RECORDER_OK || |cs| == 1 {
      assert Messages(cs[..1], io, k) == [] + [op];
      P.RunSnoc(s, [], op);
    } else {
      SendIsRun(t, cs[1..], io, k + 1);
      var n := SendUntilRefused(s, cs, io, k).1;
      assert Messages(cs[..n - k], io, k) == [op] + Messages(cs[1..][..n - k - 1], io, k + 1);
      FirstCall(s, op, Messages(cs[1..][..n - k - 1], io, k + 1));
    }
  }

  lemma FirstCall(s: P.State, op: P.Op, ops: seq<P.Op>)
    ensures P.Run(s, [op] + ops) == P.Run(P.Step(s, op), ops)
  {
    assert ([op] + ops)[1..] == ops;
  }

  lemma DescribeIsExchange(s: P.State, size: nat, io: P.Io)
    ensures P.Step(s, P.Describe(size, io))
            == P.WriteRead(P.Build(s), P.REC_API4, P.API4_HEADER + size, s.cls, s.handle, io).0
  {}

  /** Every request sent carries the class the table was built with: the loop goes on only after a good
      answer, which leaves the class alone. */
  lemma {:induction false} SendCarriesClass(s: P.State, cs: seq<seq<Descriptor>>, io: nat -> P.Io, k: nat)
    requires cs != []
    ensures var t := SendUntilRefused(s, cs, io, k).0;
            && s.log <= t.log
            && forall i :: |s.log| <= i < |t.log| ==> t.log[i].cls == s.cls
    decreases |cs|
  {
    hide P.WriteRead;
    var (t, rc) := P.WriteRead(P.Build(s), P.REC_API4, P.API4_HEADER + RECORD_SIZE * |cs[0]|, s.cls, s.handle, io(k));
    P.ExchangeWritesIff(P.Build(s), P.REC_API4, P.API4_HEADER + RECORD_SIZE * |cs[0]|, s.cls, s.handle, io(k));
    AnswerKeepsClass(s, RECORD_SIZE * |cs[0]|, io(k));
    if rc == P.RECORDER_OK && |cs| > 1 {
      SendCarriesClass(t, cs[1..], io, k + 1);
      var u := SendUntilRefused(t, cs[1..], io, k + 1).0;
      forall i | |s.log| <= i < |u.log|
        ensures u.log[i].cls == s.cls
      {
        assert i < |t.log| ==> u.log[i] == t.log[i];
      }
    }
  }

  lemma AnswerKeepsClass(s: P.State, size: nat, io: P.Io)
    ensures var (t, rc) := P.WriteRead(P.Build(s), P.REC_API4, P.API4_HEADER + size, s.cls, s.handle, io);
            rc == P.RECORDER_OK ==> t.cls == s.cls
  {}

  /** The send loop: the chunks of the table in order, until one is refused. */
  method SendTable(session: Recorder.Session, toc: seq<Descriptor>, io: nat -> P.Io)
    returns (sent: seq<seq<Descriptor>>, rc: int)
    modifies session
    ensures sent <= Chunks(toc)
    ensures (session.Now(), |sent|, rc) == SendUntilRefused(old(session.Now()), Chunks(toc), io, 0)
  {
    hide P.Step, P.Run, P.WriteRead, Chunks;
    var tocSz, ttoc: nat := RECORD_SIZE * |toc|, 0;
    sent := [];
    assert toc[0..] == toc && [] + Chunks(toc) == Chunks(toc);
    while tocSz > MAX_BLOB
      invariant ttoc % RECORD_SIZE == 0 && ttoc + tocSz == RECORD_SIZE * |toc|
      invariant 0 <= tocSz
      invariant Chunks(toc) == sent + Chunks(toc[ttoc / RECORD_SIZE..])
      invariant SendUntilRefused(session.Now(), Chunks(toc[ttoc / RECORD_SIZE..]), io, |sent|)
             == SendUntilRefused(old(session.Now()), Chunks(toc), io, 0)
      decreases tocSz
    {
      var first := ttoc / RECORD_SIZE;
      var chunk := toc[first..first + CHUNK_RECORDS];
      ChunkStep(toc, first, sent);
      DescribeIsExchange(session.Now(), CHUNK_SIZE, io(|sent|));
      rc := session.RecApi4(CHUNK_SIZE, io(|sent|));
      sent := sent + [chunk];
      if rc != P.RECORDER_OK {
        return;
      }
      tocSz := tocSz - CHUNK_SIZE;
      ttoc := ttoc + CHUNK_SIZE;
    }
    var rest := toc[ttoc / RECORD_SIZE..];
    LastChunk(rest);
    DescribeIsExchange(session.Now(), tocSz, io(|sent|));
    rc := session.RecApi4(tocSz, io(|sent|));
    sent := sent + [rest];
  }

  lemma LastChunk(rest: seq<Descriptor>)
    requires |rest| * RECORD_SIZE <= MAX_BLOB
    ensures Chunks(rest) == [rest]
  {}

  lemma ChunkStep(toc: seq<Descriptor>, first: nat, sent: seq<seq<Descriptor>>)
    requires first <= |toc| && (|toc| - first) * RECORD_SIZE > MAX_BLOB
    ensures first + CHUNK_RECORDS <= |toc|
    ensures Chunks(toc[first..]) != [] && Chunks(toc[first..])[0] == toc[first..first + CHUNK_RECORDS]
    ensures Chunks(toc[first..])[1..] == Chunks(toc[first + CHUNK_RECORDS..]) != []
    ensures sent + Chunks(toc[first..])
            == sent + [toc[first..first + CHUNK_RECORDS]] + Chunks(toc[first + CHUNK_RECORDS..])
  {
    var t := toc[first..];
    assert t[..CHUNK_RECORDS] == toc[first..first + CHUNK_RECORDS];
    assert t[CHUNK_RECORDS..] == toc[first + CHUNK_RECORDS..];
    assert sent + ([t[..CHUNK_RECORDS]] + Chunks(t[CHUNK_RECORDS..]))
        == sent + [t[..CHUNK_RECORDS]] + Chunks(t[CHUNK_RECORDS..]);
  }

  // ---------------------------------------------------------------- the whole call

  /** What happens after the descriptors: nothing, one usage record at once, or one every so many
      seconds. */
  datatype Follow = Nothing | LogNow | Every(seconds: nat)

  function Schedule(logInterval: int): Follow {
    match logInterval
    case 0 => LogNow
    case 1 => Every(60)
    case 2 => Every(600)
    case 3 => Every(3600)
    case _ => Nothing
  }

  /** Interval 0 logs once; 1, 2 and 3 every minute, ten minutes and hour; any other never. */
  lemma ScheduleMeans()
    ensures Schedule(0) == LogNow && Schedule(1) == Every(60) && Schedule(2) == Every(600)
    ensures Schedule(3) == Every(3600)
    ensures forall i :: i < 0 || i > 3 ==> Schedule(i) == Nothing
  {}

  /** LOG_PROCESSOR_USAGE: None when the processor directory cannot be read.  `a` and `b` serve rec_init,
      `codeIo` the code descriptor, `io` the field descriptors.  Once all descriptors are accepted, a
      first call starts the logging and a call after a transport failure only takes back its request to
      start over. */
  method LogProcessorUsage(session: Recorder.Session, cpus: Option<seq<string>>, logInterval: int,
                           a: P.Io, b: P.Io, codeIo: P.Io, io: nat -> P.Io)
    returns (sent: seq<seq<Descriptor>>, follow: Follow)
    requires cpus.Some? ==> NamesFit(cpus.value)
    modifies session
    ensures cpus.None? ==> sent == [] && follow == Nothing && session.Now() == old(session.Now())
    ensures cpus.Some? ==>
              var s := P.RecInit(old(session.Now()), a, b);
              var (t, rc) := P.WriteRead(P.Build(s), P.REC_API4, P.API4_HEADER + RECORD_SIZE, s.cls, s.handle, codeIo);
              if rc != P.RECORDER_OK then sent == [] && follow == Nothing && session.Now() == t
              else
                var (u, n, last) := SendUntilRefused(t, Chunks(Table(t.cls, cpus.value)), io, 0);
                && |sent| == n && sent <= Chunks(Table(t.cls, cpus.value))
                && session.Now() == (if last == P.RECORDER_OK then u.(procReinit := false) else u)
                && follow == if last == P.RECORDER_OK && !u.procReinit then Schedule(logInterval) else Nothing
  {
    hide P.Step, P.Run, P.WriteRead, P.RecInit, P.Build, SendUntilRefused, Chunks;
    if cpus.None? {
      return [], Nothing;
    }
    var ok := session.RecInit(a, b);
    DescribeIsExchange(session.Now(), RECORD_SIZE, codeIo);
    var rc := session.RecApi4(RECORD_SIZE, codeIo);
    if rc != P.RECORDER_OK {
      return [], Nothing;
    }
    var toc := BuildTable(session.amsRecClass, cpus.value);
    sent, rc := SendTable(session, toc[..], io);
    follow := Nothing;
    if rc != P.RECORDER_OK {
      return;
    }
    if !session.procUsageReinit {
      follow := Schedule(logInterval);
    } else {
      session.procUsageReinit := false;
    }
  }
}
