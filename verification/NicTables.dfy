/** The two interface tables and the netlink loop that drives them: cache_remove and cache_reload of
    cpqNicIfLogMapTable.c and cpqNicIfPhysAdapterTable.c, and cpqnic_iflink_process. */
module NicTables {
  import opened Bytes
  import opened LinkMessages

  /** A row: its key, and how often its columns were asked to be refreshed. */
  datatype Row = Row(index: nat, reloads: nat)

  /** The first row with the key, `|rows|` when there is none. */
  function FindRow(rows: seq<Row>, index: nat): (k: nat)
    ensures k <= |rows|
    ensures k < |rows| ==> rows[k].index == index
  {
    if rows == [] || rows[0].index == index then 0 else 1 + FindRow(rows[1..], index)
  }

  function Removed(rows: seq<Row>, index: nat): seq<Row> {
    var k := FindRow(rows, index);
    if k < |rows| then rows[..k] + rows[k + 1..] else rows
  }

  function Reloaded(rows: seq<Row>, index: nat): seq<Row> {
    var k := FindRow(rows, index);
    if k < |rows| then rows[k := Row(index, rows[k].reloads + 1)] else rows
  }

  /** One link event on one table; a table without a cache is left alone. */
  function Apply(cached: bool, rows: seq<Row>, e: Event): seq<Row> {
    if !cached then rows else
    match e
    case Reload(i) => Reloaded(rows, ToUnsigned64(i))
    case Remove(i) => Removed(rows, ToUnsigned64(i))
  }

  function ApplyAll(cached: bool, rows: seq<Row>, es: seq<Event>): seq<Row>
    decreases |es|
  {
    if es == [] then rows else ApplyAll(cached, Apply(cached, rows, es[0]), es[1..])
  }

  lemma {:induction false} ApplyAllConcat(cached: bool, rows: seq<Row>, a: seq<Event>, b: seq<Event>)
    ensures ApplyAll(cached, rows, a + b) == ApplyAll(cached, ApplyAll(cached, rows, a), b)
    decreases |a|
  {
    if a == [] {
      assert a + b == b;
    } else {
      assert (a + b)[1..] == a[1..] + b;
      ApplyAllConcat(cached, Apply(cached, rows, a[0]), a[1..], b);
    }
  }

  lemma {:induction false} FindRowFirst(rows: seq<Row>, index: nat)
    ensures forall j :: 0 <= j < FindRow(rows, index) ==> rows[j].index != index
  {
    if rows != [] && rows[0].index != index {
      FindRowFirst(rows[1..], index);
      forall j | 0 <= j < FindRow(rows, index)
        ensures rows[j].index != index
      {
        if j > 0 {
          assert rows[1..][j - 1] == rows[j];
        }
      }
    }
  }

  lemma {:induction false} FindRowUnique(rows: seq<Row>, index: nat, k: nat)
    requires k <= |rows|
    requires k < |rows| ==> rows[k].index == index
    requires forall j :: 0 <= j < k ==> rows[j].index != index
    ensures FindRow(rows, index) == k
    decreases k
  {
    if k > 0 {
      assert rows[0].index != index;
      FindRowUnique(rows[1..], index, k - 1);
    }
  }

  /** Removing takes the first row with the key, refreshing counts up that row alone; both leave the
      others, and their order. */
  lemma FirstRowChanges(rows: seq<Row>, index: nat, k: nat)
    requires k < |rows| && rows[k].index == index && forall j :: 0 <= j < k ==> rows[j].index != index
    ensures Removed(rows, index) == rows[..k] + rows[k + 1..]
    ensures Reloaded(rows, index) == rows[..k] + [Row(index, rows[k].reloads + 1)] + rows[k + 1..]
  {
    FindRowUnique(rows, index, k);
  }

  lemma NoRowNoChange(rows: seq<Row>, index: nat)
    requires forall j :: 0 <= j < |rows| ==> rows[j].index != index
    ensures Removed(rows, index) == rows && Reloaded(rows, index) == rows
  {
    FindRowUnique(rows, index, |rows|);
  }

  /** A table without a cache is never changed. */
  lemma {:induction false} UncachedUntouched(rows: seq<Row>, es: seq<Event>)
    ensures ApplyAll(false, rows, es) == rows
    decreases |es|
  {
    if es != [] {
      UncachedUntouched(rows, es[1..]);
    }
  }

  // ---------------------------------------------------------------- one table

  class NicTable {
    var rows: seq<Row>
    const cached: bool

    constructor (cached: bool, rows: seq<Row>)
      ensures this.cached == cached && this.rows == rows
    {
      this.cached, this.rows := cached, rows;
    }

    /** The iterator loop of both functions: stops at the first row with the key. */
    method Find(index: nat) returns (k: nat)
      ensures k == FindRow(rows, index)
    {
      k := 0;
      while k < |rows|
        invariant k <= |rows|
        invariant forall j :: 0 <= j < k ==> rows[j].index != index
      {
        if rows[k].index == index {
          break;
        }
        k := k + 1;
      }
      FindRowUnique(rows, index, k);
    }

    method CacheRemove(index: nat)
      modifies this`rows
      ensures rows == if cached then Removed(old(rows), index) else old(rows)
    {
      if cached {
        var k := Find(index);
        if k < |rows| {
          rows := rows[..k] + rows[k + 1..];
        }
      }
    }

    method CacheReload(index: nat)
      modifies this`rows
      ensures rows == if cached then Reloaded(old(rows), index) else old(rows)
    {
      if cached {
        var k := Find(index);
        if k < |rows| {
          rows := rows[k := rows[k].(reloads := rows[k].reloads + 1)];
        }
      }
    }
  }

  // ---------------------------------------------------------------- the netlink loop

  const BUF_SIZE := 16384

  /** NLMSG_OK(nlh, len) for an int `len`: the last comparison is unsigned. */
  predicate NlmsgOk(nlmsgLen: u32, len: int) {
    NLMSG_HDRLEN <= len && NLMSG_HDRLEN <= nlmsgLen && nlmsgLen <= len % TWO_32
  }

  /** Memory as the loop may read it: the stack buffer and the four bytes behind it. */
  const MEM_SIZE := BUF_SIZE + 4

  /** cpqnic_iflink_process.  `received` is what recv returned; `buf` is the stack buffer and what lies
      behind it, whose cells past the received ones hold anything.  The loop test compares an int with a
      size_t, so a negative status reads as a huge one.  `visited` lists where the loop read a length. */
  method IflinkProcess(buf: seq<u8>, received: int, logMap: NicTable, phys: NicTable)
    returns (ghost visited: seq<nat>)
    requires |buf| == MEM_SIZE && received <= BUF_SIZE
    requires logMap != phys
    modifies logMap`rows, phys`rows
    ensures logMap.rows == ApplyAll(logMap.cached, old(logMap.rows), Received(buf, received))
    ensures phys.rows == ApplyAll(phys.cached, old(phys.rows), Received(buf, received))
    ensures visited == if received > 0 then Visits(buf[..received], 0) else []
  {
    hide ApplyAll, Events, Accepted, Head, ToInt32, ToUnsigned64, Le32;
    var status := received;
    visited := [];
    if status <= 0 {
      NoEvents(logMap.cached, logMap.rows);
      NoEvents(phys.cached, phys.rows);
      return;
    }
    var nlmp: nat := 0;
    ghost var d := buf[..received];
    while ToUnsigned64(status) > NLMSG_HDRLEN
      invariant -4 < status && nlmp % 4 == 0 && nlmp + status == received
      invariant ApplyAll(logMap.cached, logMap.rows, Events(d, nlmp))
             == ApplyAll(logMap.cached, old(logMap.rows), Events(d, 0))
      invariant ApplyAll(phys.cached, phys.rows, Events(d, nlmp))
             == ApplyAll(phys.cached, old(phys.rows), Events(d, 0))
      invariant Visits(d, 0) == visited + Visits(d, nlmp)
      decreases status + 4
    {
      VisitHere(d, nlmp, visited);
      visited := visited + [nlmp];
      ghost var l, p := logMap.rows, phys.rows;
      var go, size := OneMessage(buf, nlmp, status, logMap, phys, d);
      Advance(logMap.cached, l, d, nlmp);
      Advance(phys.cached, p, d, nlmp);
      if !go {
        return;
      }
      status := ToInt32(status - size);
      nlmp := nlmp + size;
    }
    NothingLeft(logMap.cached, logMap.rows, d, nlmp);
    NothingLeft(phys.cached, phys.rows, d, nlmp);
  }

  lemma NoEvents(cached: bool, rows: seq<Row>)
    ensures ApplyAll(cached, rows, []) == rows
  {}

  lemma NothingLeft(cached: bool, rows: seq<Row>, d: seq<u8>, p: nat)
    requires |d| <= p + NLMSG_HDRLEN
    ensures ApplyAll(cached, rows, Events(d, p)) == rows
  {}

  /** The events of what was received. */
  function Received(buf: seq<u8>, received: int): seq<Event>
    requires received <= |buf|
  {
    if received > 0 then Events(buf[..received], 0) else []
  }

  /** One pass of the loop body, up to the step to the next message: whether the loop goes on, and the
      aligned size of the message.  Every C conversion is written out. */
  method OneMessage(buf: seq<u8>, nlmp: nat, status: int, logMap: NicTable, phys: NicTable, ghost d: seq<u8>)
    returns (go: bool, size: nat)
    requires |buf| == MEM_SIZE && -4 < status && 0 <= nlmp + status <= BUF_SIZE && d == buf[..nlmp + status]
    requires ToUnsigned64(status) > NLMSG_HDRLEN && nlmp + 4 <= MEM_SIZE
    requires logMap != phys
    modifies logMap`rows, phys`rows
    ensures go <==> Accepted(d, nlmp)
    ensures go ==> nlmp + size == Next(d, nlmp) && NLMSG_HDRLEN <= size < status + 4 && size % 4 == 0
    ensures go ==> logMap.rows == ApplyAll(logMap.cached, old(logMap.rows), Head(d, nlmp))
    ensures go ==> phys.rows == ApplyAll(phys.cached, old(phys.rows), Head(d, nlmp))
    ensures !go ==> logMap.rows == old(logMap.rows) && phys.rows == old(phys.rows)
  {
    hide ToInt32, ToUnsigned64, Align4;
    var nlmsgLen := Le32(buf, nlmp);
    var ok := LengthOk(nlmsgLen, status);
    if !ok {
      return false, 0;
    }
    go, size := true, Align4(nlmsgLen);
    var typ := Le16(buf, nlmp + 4);
    var tooShort := PayloadShort(nlmsgLen);
    if typ == RTM_NEWLINK {
      if tooShort {
        return false, 0;
      }
      var ifiIndex := ToInt32(Le32(buf, nlmp + 20));
      logMap.CacheReload(ToUnsigned64(ifiIndex));
      phys.CacheReload(ToUnsigned64(ifiIndex));
    } else if typ == RTM_DELLINK {
      if tooShort {
        return false, 0;
      }
      var ifiIndex := ToInt32(Le32(buf, nlmp + 20));
      logMap.CacheRemove(ToUnsigned64(ifiIndex));
      phys.CacheRemove(ToUnsigned64(ifiIndex));
    }
  }

  /** The tests on the stated length: `len` and `req_len` are ints, the arithmetic between them unsigned. */
  method LengthOk(nlmsgLen: u32, status: int) returns (ok: bool)
    requires -4 < status <= BUF_SIZE
    ensures ok <==> NLMSG_HDRLEN <= nlmsgLen <= status
  {
    hide ToInt32, ToUnsigned64, NlmsgOk;
    LengthChecks(nlmsgLen, status);
    var len := ToInt32(nlmsgLen);
    var reqLen := ToInt32(ToUnsigned64(len) - NLMSG_HDRLEN);
    if reqLen < 0 || len > status {
      return false;
    }
    return NlmsgOk(nlmsgLen, status);
  }

  /** The test on the payload of a link message, in place of one copy in each of the two branches. */
  method PayloadShort(nlmsgLen: u32) returns (tooShort: bool)
    requires nlmsgLen <= BUF_SIZE
    ensures tooShort <==> nlmsgLen < NLMSG_HDRLEN + IFINFOMSG_SIZE
  {
    hide ToInt32, ToUnsigned64, NlmsgOk;
    LengthChecks(nlmsgLen, BUF_SIZE);
    var length := ToInt32(ToUnsigned64(nlmsgLen - (NLMSG_HDRLEN + IFINFOMSG_SIZE)));
    return length < 0;
  }

  /** The three length tests, conversions and all, amount to one comparison; the payload test to
      another.  A negative status never gets past them. */
  lemma LengthChecks(nlmsgLen: u32, status: int)
    requires -4 < status <= BUF_SIZE
    ensures var len := ToInt32(nlmsgLen);
            ToInt32(ToUnsigned64(len) - NLMSG_HDRLEN) >= 0 && len <= status && NlmsgOk(nlmsgLen, status)
            <==> NLMSG_HDRLEN <= nlmsgLen <= status
    ensures nlmsgLen <= BUF_SIZE ==>
              (ToInt32(ToUnsigned64(nlmsgLen - (NLMSG_HDRLEN + IFINFOMSG_SIZE))) < 0
               <==> nlmsgLen < NLMSG_HDRLEN + IFINFOMSG_SIZE)
  {}

  lemma Advance(cached: bool, rows: seq<Row>, d: seq<u8>, p: nat)
    ensures !Accepted(d, p) ==> ApplyAll(cached, rows, Events(d, p)) == rows
    ensures Accepted(d, p) ==>
              ApplyAll(cached, rows, Events(d, p))
              == ApplyAll(cached, ApplyAll(cached, rows, Head(d, p)), Events(d, Next(d, p)))
  {
    if Accepted(d, p) {
      ApplyAllConcat(cached, rows, Head(d, p), Events(d, Next(d, p)));
    }
  }

  // ---------------------------------------------------------------- what the loop reads

  /** The loop test, on the bytes left. */
  predicate GoesOn(left: int) {
    ToUnsigned64(left) > NLMSG_HDRLEN
  }

  /** Where the loop reads a message length, from `p` on. */
  function Visits(d: seq<u8>, p: nat): seq<nat>
    decreases if p <= |d| then |d| - p else 0
  {
    if !GoesOn(|d| - p) then []
    else [p] + if Accepted(d, p) then Visits(d, Next(d, p)) else []
  }

  lemma VisitHere(d: seq<u8>, p: nat, visited: seq<nat>)
    requires GoesOn(|d| - p)
    ensures visited + Visits(d, p) == visited + [p] + if Accepted(d, p) then Visits(d, Next(d, p)) else []
  {
    var more := if Accepted(d, p) then Visits(d, Next(d, p)) else [];
    assert visited + ([p] + more) == visited + [p] + more;
  }

  /** Where the chain of accepted messages from `p` on ends. */
  function ChainEnd(d: seq<u8>, p: nat): nat
    decreases if p <= |d| then |d| - p else 0
  {
    if Accepted(d, p) then ChainEnd(d, Next(d, p)) else p
  }

  lemma {:induction false} ChainEndBounds(d: seq<u8>, p: nat)
    requires p % 4 == 0 && p <= Align4(|d|) && |d| <= BUF_SIZE
    ensures ChainEnd(d, p) % 4 == 0 && p <= ChainEnd(d, p) <= Align4(|d|)
    decreases if p <= |d| then |d| - p else 0
  {
    hide Align4, Accepted;
    if Accepted(d, p) {
      NextInChain(d, p);
      ChainEndBounds(d, Next(d, p));
    }
  }

  predicate AnyBehind(vs: seq<nat>) {
    exists k :: 0 <= k < |vs| && vs[k] + 4 > BUF_SIZE
  }

  /** Processing the datagram reads a length behind the buffer. */
  predicate ReadsBehind(d: seq<u8>) {
    AnyBehind(Visits(d, 0))
  }

  /** Only the end of the chain can lie behind the buffer, and it is read when it lies behind the
      datagram. */
  lemma {:induction false} VisitsBehind(d: seq<u8>, p: nat)
    requires p % 4 == 0 && p <= Align4(|d|) && |d| <= BUF_SIZE
    ensures AnyBehind(Visits(d, p)) <==> |d| < BUF_SIZE && ChainEnd(d, p) == BUF_SIZE
    decreases if p <= |d| then |d| - p else 0
  {
    hide Align4, Accepted;
    AtMostBuffer(d, p);
    if Accepted(d, p) {
      NextInChain(d, p);
      VisitsBehind(d, Next(d, p));
      assert Visits(d, p) == [p] + Visits(d, Next(d, p));
      BehindCons(p, Visits(d, Next(d, p)));
    } else if GoesOn(|d| - p) {
      assert Visits(d, p) == [p];
      assert Visits(d, p)[0] == p;
    }
  }

  lemma BehindCons(p: nat, vs: seq<nat>)
    requires p + 4 <= BUF_SIZE
    ensures AnyBehind([p] + vs) <==> AnyBehind(vs)
  {
    if k :| 0 <= k < |vs| && vs[k] + 4 > BUF_SIZE {
      assert ([p] + vs)[k + 1] + 4 > BUF_SIZE;
    }
  }

  lemma AtMostBuffer(d: seq<u8>, p: nat)
    requires p % 4 == 0 && p <= Align4(|d|) && |d| <= BUF_SIZE
    ensures Align4(|d|) <= BUF_SIZE
    ensures p + 4 > BUF_SIZE <==> p == BUF_SIZE
    ensures p == BUF_SIZE ==> (GoesOn(|d| - p) <==> |d| < BUF_SIZE)
    ensures p == BUF_SIZE ==> !Accepted(d, p)
  {}

  lemma NextInChain(d: seq<u8>, p: nat)
    requires Accepted(d, p) && p % 4 == 0 && |d| <= BUF_SIZE
    ensures GoesOn(|d| - p) && p + 4 <= |d|
    ensures Next(d, p) % 4 == 0 && p < Next(d, p) <= Align4(|d|)
  {}

  lemma PastTheEnd(n: nat, e: nat)
    requires n <= BUF_SIZE && e % 4 == 0 && e <= Align4(n)
    ensures n < BUF_SIZE && e == BUF_SIZE <==> BUF_SIZE - 4 < n < BUF_SIZE && e > n
  {}

  /** A length is read behind the 16384 bytes exactly for 16381, 16382 or 16383 received bytes whose
      chain of accepted messages, the last one rounded up, ends behind them. */
  lemma OverrunExactly(d: seq<u8>)
    requires |d| <= BUF_SIZE
    ensures ReadsBehind(d) <==> 16380 < |d| < 16384 && ChainEnd(d, 0) > |d|
  {
    hide Accepted, AnyBehind, Align4;
    VisitsBehind(d, 0);
    ChainEndBounds(d, 0);
    PastTheEnd(|d|, ChainEnd(d, 0));
  }

  /** One message of 16381 bytes does it. */
  lemma OverrunExists()
    ensures exists d: seq<u8> :: |d| <= BUF_SIZE && ReadsBehind(d)
  {
    var d: seq<u8> := [0xFD, 0x3F, 0, 0, 0, 0] + seq(16375, _ => 0);
    assert Le32(d, 0) == 16381 == |d| && Le16(d, 4) == 0;
    assert Accepted(d, 0) && Next(d, 0) == BUF_SIZE;
    assert ChainEnd(d, 0) == ChainEnd(d, BUF_SIZE) == BUF_SIZE;
    OverrunExactly(d);
  }

  // ---------------------------------------------------------------- keys over runs

  predicate UniqueKeys(rows: seq<Row>) {
    forall i, j :: 0 <= i < j < |rows| ==> rows[i].index != rows[j].index
  }

  function Keys(rows: seq<Row>): set<nat> {
    set i | 0 <= i < |rows| :: rows[i].index
  }

  /** The keys named by the removals of a run. */
  function RemovedKeys(es: seq<Event>): set<nat> {
    if es == [] then {} else
      (if es[0].Remove? then {ToUnsigned64(es[0].index)} else {}) + RemovedKeys(es[1..])
  }

  lemma RemovedOne(rows: seq<Row>, index: nat)
    requires UniqueKeys(rows)
    ensures UniqueKeys(Removed(rows, index))
    ensures Keys(Removed(rows, index)) == Keys(rows) - {index}
  {
    FindRowFirst(rows, index);
    var k, r := FindRow(rows, index), Removed(rows, index);
    if k < |rows| {
      forall i | 0 <= i < |r|
        ensures r[i] == rows[if i < k then i else i + 1]
      {}
      forall i | 0 <= i < |rows| && i != k
        ensures rows[i].index in Keys(r)
      {
        assert r[if i < k then i else i - 1] == rows[i];
      }
    }
  }

  lemma ReloadedOne(rows: seq<Row>, index: nat)
    ensures |Reloaded(rows, index)| == |rows|
    ensures forall i :: 0 <= i < |rows| ==> Reloaded(rows, index)[i].index == rows[i].index
  {}

  /** Over any run of events a table keeps unique keys, and its keys are the initial ones minus those
      removed; reload events change no key. */
  lemma {:induction false} KeysAfterRun(cached: bool, rows: seq<Row>, es: seq<Event>)
    requires UniqueKeys(rows)
    ensures UniqueKeys(ApplyAll(cached, rows, es))
    ensures Keys(ApplyAll(cached, rows, es)) == if cached then Keys(rows) - RemovedKeys(es) else Keys(rows)
    decreases |es|
  {
    if es != [] {
      var next := Apply(cached, rows, es[0]);
      if cached {
        match es[0]
        case Reload(i) => ReloadedKeys(rows, ToUnsigned64(i));
        case Remove(i) => RemovedOne(rows, ToUnsigned64(i));
      }
      KeysAfterRun(cached, next, es[1..]);
    }
  }

  lemma ReloadedKeys(rows: seq<Row>, index: nat)
    requires UniqueKeys(rows)
    ensures UniqueKeys(Reloaded(rows, index)) && Keys(Reloaded(rows, index)) == Keys(rows)
  {
    ReloadedOne(rows, index);
  }

  /** All events of a run of datagrams. */
  function RunEvents(ds: seq<seq<u8>>): seq<Event> {
    if ds == [] then [] else Events(ds[0], 0) + RunEvents(ds[1..])
  }

  /** The table after a run of datagrams. */
  function AfterRun(cached: bool, rows: seq<Row>, ds: seq<seq<u8>>): seq<Row>
    decreases |ds|
  {
    if ds == [] then rows else AfterRun(cached, ApplyAll(cached, rows, Events(ds[0], 0)), ds[1..])
  }

  lemma {:induction false} RunIsOneFold(cached: bool, rows: seq<Row>, ds: seq<seq<u8>>)
    ensures AfterRun(cached, rows, ds) == ApplyAll(cached, rows, RunEvents(ds))
    decreases |ds|
  {
    if ds != [] {
      ApplyAllConcat(cached, rows, Events(ds[0], 0), RunEvents(ds[1..]));
      RunIsOneFold(cached, ApplyAll(cached, rows, Events(ds[0], 0)), ds[1..]);
    }
  }

  /** Two tables that start with the same keys have the same keys after a run of datagrams exactly when
      both caches are found or neither is, or the run removes none of the keys. */
  lemma TablesStayInStep(cachedA: bool, a: seq<Row>, cachedB: bool, b: seq<Row>, ds: seq<seq<u8>>)
    requires UniqueKeys(a) && UniqueKeys(b) && Keys(a) == Keys(b)
    ensures UniqueKeys(AfterRun(cachedA, a, ds)) && UniqueKeys(AfterRun(cachedB, b, ds))
    ensures Keys(AfterRun(cachedA, a, ds)) == if cachedA then Keys(a) - RemovedKeys(RunEvents(ds)) else Keys(a)
    ensures Keys(AfterRun(cachedA, a, ds)) == Keys(AfterRun(cachedB, b, ds))
            <==> cachedA == cachedB || Keys(a) !! RemovedKeys(RunEvents(ds))
  {
    RunIsOneFold(cachedA, a, ds);
    RunIsOneFold(cachedB, b, ds);
    KeysAfterRun(cachedA, a, RunEvents(ds));
    KeysAfterRun(cachedB, b, RunEvents(ds));
    DifferenceSame(Keys(a), RemovedKeys(RunEvents(ds)));
  }

  lemma DifferenceSame(a: set<nat>, r: set<nat>)
    ensures a - r == a <==> a !! r
  {
    if a - r == a {
      forall x | x in a
        ensures x !in r
      {
        assert x in a - r;
      }
    }
  }

  /** How many events ask for a reload of the key. */
  function ReloadCount(es: seq<Event>, index: nat): nat {
    if es == [] then 0 else
      (if es[0].Reload? && ToUnsigned64(es[0].index) == index then 1 else 0) + ReloadCount(es[1..], index)
  }

  /** The reloads recorded for a key; 0 when it has no row. */
  function ReloadsOf(rows: seq<Row>, index: nat): nat {
    var k := FindRow(rows, index);
    if k < |rows| then rows[k].reloads else 0
  }

  /** A row that the run does not remove is refreshed exactly once for each reload event with its key,
      and by no other event. */
  lemma {:induction false} ReloadsAfterRun(rows: seq<Row>, es: seq<Event>, index: nat)
    requires UniqueKeys(rows) && index in Keys(rows) && index !in RemovedKeys(es)
    ensures ReloadsOf(ApplyAll(true, rows, es), index) == ReloadsOf(rows, index) + ReloadCount(es, index)
    decreases |es|
  {
    if es != [] {
      KeysAfterRun(true, rows, [es[0]]);
      assert es[0] == [es[0]][0] && RemovedKeys([es[0]]) <= RemovedKeys(es);
      ReloadsAfterOne(rows, es[0], index);
      ReloadsAfterRun(Apply(true, rows, es[0]), es[1..], index);
    }
  }

  lemma ReloadsAfterOne(rows: seq<Row>, e: Event, index: nat)
    requires UniqueKeys(rows) && index in Keys(rows)
    requires e.Remove? ==> ToUnsigned64(e.index) != index
    ensures ReloadsOf(Apply(true, rows, e), index)
            == ReloadsOf(rows, index) + (if e.Reload? && ToUnsigned64(e.index) == index then 1 else 0)
  {
    var i := ToUnsigned64(e.index);
    var k, j := FindRow(rows, index), FindRow(rows, i);
    FindRowFirst(rows, index);
    FindRowFirst(rows, i);
    match e
    case Reload(_) =>
      FindRowUnique(Reloaded(rows, i), index, k);
    case Remove(_) =>
      FindRowUnique(Removed(rows, i), index, if j < k then k - 1 else k);
  }
}
