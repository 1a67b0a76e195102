/** common/nl_udev.c: parsing a kernel uevent and the list of callbacks it is dispatched to. */
module Uevents {
  import opened Delimited
  import opened CStrings
  import opened Wrappers

  const BUF_SIZE := 16384

  // ---------------------------------------------------------------- parsing

  /** The C strings from `p` up to the first empty one or the end of the message. */
  function Entries(buf: string, p: nat, end: nat): seq<string>
    requires p <= |buf|
    decreases |buf| - p
  {
    if p >= end then [] else
      var e := IndexOf(buf, NUL, p);
      if e == p || e == |buf| then [] else [buf[p..e]] + Entries(buf, e + 1, end)
  }

  /** The value of the last entry that starts with `key`. */
  function LastValue(es: seq<string>, key: string): Option<string> {
    if es == [] then None
    else if key <= es[|es| - 1] then Some(es[|es| - 1][|key|..])
    else LastValue(es[..|es| - 1], key)
  }

  /** LastValue means what it says: absent without such an entry, else the value of the last one. */
  lemma {:induction false} LastValueIsLast(es: seq<string>, key: string)
    ensures LastValue(es, key) == None <==> forall i :: 0 <= i < |es| ==> !(key <= es[i])
    ensures forall i :: 0 <= i < |es| && key <= es[i] && (forall j :: i < j < |es| ==> !(key <= es[j]))
              ==> LastValue(es, key) == Some(es[i][|key|..])
  {
    if es != [] && !(key <= es[|es| - 1]) {
      LastValueIsLast(es[..|es| - 1], key);
    }
  }

  datatype Event = Event(action: Option<string>, devtype: Option<string>, devpath: Option<string>,
                         devname: Option<string>, subsystem: Option<string>)

  function EventOf(es: seq<string>): Event {
    Event(LastValue(es, "ACTION="), LastValue(es, "DEVTYPE="), LastValue(es, "DEVPATH="),
          LastValue(es, "DEVNAME="), LastValue(es, "SUBSYSTEM="))
  }

  /** Each field of the event is the value of the last entry with its key. */
  lemma EventMeans(es: seq<string>)
    ensures EventOf(es).action == LastValue(es, "ACTION=") && EventOf(es).devtype == LastValue(es, "DEVTYPE=")
    ensures EventOf(es).devpath == LastValue(es, "DEVPATH=") && EventOf(es).devname == LastValue(es, "DEVNAME=")
    ensures EventOf(es).subsystem == LastValue(es, "SUBSYSTEM=")
  {}

  /** strstr(h, n) != NULL. */
  predicate Contains(h: string, n: string) {
    exists i :: 0 <= i <= |h| && At(h, i, n)
  }

  /** A message the parser accepts: 32 bytes up to less than the buffer, and a header of four or more
      characters with "@/" in it that ends before the message does. */
  predicate AcceptedMessage(buf: string, buflen: int) {
    && 32 <= buflen < |buf|
    && 4 <= IndexOf(buf, NUL, 0) && IndexOf(buf, NUL, 0) + 1 < buflen
    && Contains(CStr(buf, NUL, 0), "@/")
  }

  /** The same on the characters: `e` is where the header ends. */
  lemma AcceptedMeans(buf: string, buflen: int, e: nat)
    requires |buf| == BUF_SIZE && e < |buf| && buf[e] == NUL && forall i :: 0 <= i < e ==> buf[i] != NUL
    ensures AcceptedMessage(buf, buflen)
            <==> 32 <= buflen < 16384 && 4 <= e && e + 1 < buflen
                 && exists i :: 0 <= i && i + 1 < e && buf[i] == '@' && buf[i + 1] == '/'
  {
    IndexOfUnique(buf, NUL, 0, e);
    var h := buf[..e];
    assert CStr(buf, NUL, 0) == h;
    if i :| 0 <= i && i + 1 < e && buf[i] == '@' && buf[i + 1] == '/' {
      AtTwo(h, i, '@', '/');
      assert At(h, i, "@/");
    }
    if i :| 0 <= i <= |h| && At(h, i, "@/") {
      AtTwo(h, i, '@', '/');
    }
  }

  lemma AcceptedHasHeader(buf: string, buflen: int)
    requires AcceptedMessage(buf, buflen)
    ensures IndexOf(buf, NUL, 0) + 1 < buflen < |buf|
  {}

  lemma AtTwo(h: string, i: nat, x: char, y: char)
    ensures At(h, i, [x, y]) <==> i + 1 < |h| && h[i] == x && h[i + 1] == y
  {
    if At(h, i, [x, y]) {
      SliceCells(h, i, [x, y]);
      assert h[i + 0] == x && h[i + 1] == y;
    }
  }

  /** The received bytes lie in a zeroed buffer. */
  predicate ZeroFilled(buf: string, buflen: int) {
    |buf| == BUF_SIZE && forall i :: 0 <= i < |buf| && buflen <= i ==> buf[i] == NUL
  }

  /** No string starts with two of the five keys, so the order of the comparisons does not matter. */
  lemma KeysExclusive(k: string)
    ensures "ACTION=" <= k ==> k[0] == 'A'
    ensures "SUBSYSTEM=" <= k ==> k[0] == 'S'
    ensures "DEVTYPE=" <= k ==> k[0] == 'D' && k[3] == 'T'
    ensures "DEVPATH=" <= k ==> k[0] == 'D' && k[3] == 'P'
    ensures "DEVNAME=" <= k ==> k[0] == 'D' && k[3] == 'N'
  {}

  lemma LastValueSnoc(es: seq<string>, k: string, key: string)
    ensures LastValue(es + [k], key) == if key <= k then Some(k[|key|..]) else LastValue(es, key)
  {
    assert (es + [k])[..|es|] == es;
  }

  /** A key pointer of the parser: None for NULL, else a position whose C string is the value. */
  ghost predicate PointsAt(buf: string, p: Option<nat>, v: Option<string>) {
    match p
    case None => v == None
    case Some(i) => i <= |buf| && v == Some(CStr(buf, NUL, i))
  }

  lemma PointAfterKey(buf: string, p: nat, key: string)
    requires p <= |buf| && key <= CStr(buf, NUL, p)
    ensures p + |key| <= |buf| && CStr(buf, NUL, p + |key|) == CStr(buf, NUL, p)[|key|..]
  {
    IndexOfFirst(buf, NUL, p);
    IndexOfUnique(buf, NUL, p + |key|, IndexOf(buf, NUL, p));
  }

  /** The key pointers after the entries `es`. */
  ghost predicate Bound(buf: string, es: seq<string>, action: Option<nat>, devtype: Option<nat>,
                        devpath: Option<nat>, devname: Option<nat>, subsystem: Option<nat>) {
    && PointsAt(buf, action, LastValue(es, "ACTION="))
    && PointsAt(buf, devtype, LastValue(es, "DEVTYPE="))
    && PointsAt(buf, devpath, LastValue(es, "DEVPATH="))
    && PointsAt(buf, devname, LastValue(es, "DEVNAME="))
    && PointsAt(buf, subsystem, LastValue(es, "SUBSYSTEM="))
  }

  /** The first half of udev_event_process: the event of an accepted message, None otherwise. */
  method ParseUevent(buf: string, buflen: int) returns (r: Option<Event>)
    requires ZeroFilled(buf, buflen)
    ensures r == if AcceptedMessage(buf, buflen)
                 then Some(EventOf(Entries(buf, IndexOf(buf, NUL, 0) + 1, buflen))) else None
  {
    if buflen < 32 || buflen >= BUF_SIZE {
      return None;
    }
    var bufpos := IndexOf(buf, NUL, 0) + 1;
    if bufpos < 5 || bufpos >= buflen {
      return None;
    }
    if !Contains(CStr(buf, NUL, 0), "@/") {
      return None;
    }
    var ev := ScanEntries(buf, bufpos, buflen);
    return Some(ev);
  }

  /** The parse loop over the entries behind the header. */
  method ScanEntries(buf: string, start: nat, buflen: nat) returns (ev: Event)
    requires ZeroFilled(buf, buflen) && start < buflen < BUF_SIZE
    ensures ev == EventOf(Entries(buf, start, buflen))
  {
    hide CStr, IndexOf, Entries, LastValue;
    var action: Option<nat>, devtype: Option<nat>, devpath: Option<nat>, devname: Option<nat>, subsystem: Option<nat>
      := None, None, None, None, None;
    var bufpos := start;
    ghost var seen: seq<string> := [];
    NothingBound(buf);
    while bufpos < buflen
      invariant start <= bufpos <= buflen + 1
      invariant Entries(buf, start, buflen) == seen + Entries(buf, bufpos, buflen)
      invariant Bound(buf, seen, action, devtype, devpath, devname, subsystem)
      decreases buflen + 1 - bufpos
    {
      var key := CStr(buf, NUL, bufpos);
      action, devtype, devpath, devname, subsystem :=
        BindKey(buf, bufpos, seen, action, devtype, devpath, devname, subsystem);
      var keylen := |key|;
      EntryAt(buf, bufpos, buflen);
      if keylen == 0 {
        EmptyEntryBindsNothing(seen);
        break;
      }
      seen := seen + [key];
      bufpos := bufpos + (keylen + 1);
    }
    NoEntries(buf, bufpos, buflen);
    assert Entries(buf, start, buflen) == seen;
    ev := Event(ValueOf(buf, action), ValueOf(buf, devtype), ValueOf(buf, devpath),
                ValueOf(buf, devname), ValueOf(buf, subsystem));
  }

  lemma NothingBound(buf: string)
    ensures Bound(buf, [], None, None, None, None, None)
  {}

  lemma NoEntries(buf: string, p: nat, end: nat)
    requires p <= |buf|
    ensures end <= p || CStr(buf, NUL, p) == [] ==> Entries(buf, p, end) == []
  {}

  function ValueOf(buf: string, p: Option<nat>): Option<string> {
    if p.Some? && p.value <= |buf| then Some(CStr(buf, NUL, p.value)) else None
  }

  /** The chain of comparisons on the entry at `bufpos`. */
  method BindKey(buf: string, bufpos: nat, ghost seen: seq<string>, action0: Option<nat>, devtype0: Option<nat>,
                 devpath0: Option<nat>, devname0: Option<nat>, subsystem0: Option<nat>)
    returns (action: Option<nat>, devtype: Option<nat>, devpath: Option<nat>, devname: Option<nat>,
             subsystem: Option<nat>)
    requires bufpos <= |buf|
    requires Bound(buf, seen, action0, devtype0, devpath0, devname0, subsystem0)
    ensures Bound(buf, seen + [CStr(buf, NUL, bufpos)], action, devtype, devpath, devname, subsystem)
  {
    hide LastValue, CStr, IndexOf;
    action, devtype, devpath, devname, subsystem := action0, devtype0, devpath0, devname0, subsystem0;
    var key := CStr(buf, NUL, bufpos);
    KeysExclusive(key);
    LastValueSnoc(seen, key, "ACTION=");
    LastValueSnoc(seen, key, "DEVTYPE=");
    LastValueSnoc(seen, key, "DEVPATH=");
    LastValueSnoc(seen, key, "DEVNAME=");
    LastValueSnoc(seen, key, "SUBSYSTEM=");
    if "ACTION=" <= key {
      PointAfterKey(buf, bufpos, "ACTION=");
      action := Some(bufpos + 7);
    } else if "DEVTYPE=" <= key {
      PointAfterKey(buf, bufpos, "DEVTYPE=");
      devtype := Some(bufpos + 8);
    } else if "DEVPATH=" <= key {
      PointAfterKey(buf, bufpos, "DEVPATH=");
      devpath := Some(bufpos + 8);
    } else if "DEVNAME=" <= key {
      PointAfterKey(buf, bufpos, "DEVNAME=");
      devname := Some(bufpos + 8);
    } else if "SUBSYSTEM=" <= key {
      PointAfterKey(buf, bufpos, "SUBSYSTEM=");
      subsystem := Some(bufpos + 10);
    }
  }

  /** An empty entry binds nothing. */
  lemma EmptyEntryBindsNothing(seen: seq<string>)
    ensures EventOf(seen + [""]) == EventOf(seen)
  {
    hide LastValue;
    LastValueSnoc(seen, "", "ACTION=");
    LastValueSnoc(seen, "", "DEVTYPE=");
    LastValueSnoc(seen, "", "DEVPATH=");
    LastValueSnoc(seen, "", "DEVNAME=");
    LastValueSnoc(seen, "", "SUBSYSTEM=");
  }

  lemma EntryAt(buf: string, p: nat, end: nat)
    requires p < end < |buf| && ZeroFilled(buf, end)
    ensures p + |CStr(buf, NUL, p)| <= end
    ensures var k := CStr(buf, NUL, p);
            Entries(buf, p, end) == if k == [] then [] else [k] + Entries(buf, p + |k| + 1, end)
  {
    IndexOfFirst(buf, NUL, p);
    assert buf[end] == NUL;
  }

  // ---------------------------------------------------------------- encoding

  function TakeNonEmpty(es: seq<string>): seq<string> {
    if es == [] || es[0] == [] then [] else [es[0]] + TakeNonEmpty(es[1..])
  }

  lemma {:induction false} TakeNonEmptyAll(es: seq<string>)
    requires forall k :: 0 <= k < |es| ==> es[k] != []
    ensures TakeNonEmpty(es) == es
  {
    if es != [] {
      TakeNonEmptyAll(es[1..]);
    }
  }

  /** Reading the entries undoes writing them, up to the first empty one. */
  lemma {:induction false} EntriesOfTerminated(buf: string, p: nat, es: seq<string>, end: nat)
    requires At(buf, p, Terminated(es, NUL)) && end == p + |Terminated(es, NUL)|
    requires forall k :: 0 <= k < |es| ==> Free(es[k], NUL)
    ensures Entries(buf, p, end) == TakeNonEmpty(es)
    decreases |es|
  {
    hide Terminated, CStr, IndexOf, At, Free, Start, Entries;
    if es == [] {
      NothingTerminated();
      EndsInside(buf, p, Terminated(es, NUL));
      NoEntries(buf, p, end);
    } else {
      FirstTerminated(buf, p, es);
      CStrOfPart(buf, p, es, NUL, 0);
      EntriesOfTerminated(buf, p + |es[0]| + 1, es[1..], end);
      EntriesUnfold(buf, p, end);
    }
  }

  lemma EndsInside(buf: string, p: nat, b: string)
    requires At(buf, p, b)
    ensures p <= |buf|
  {}

  lemma NothingTerminated()
    ensures Terminated<char>([], NUL) == []
  {}

  lemma EntriesUnfold(buf: string, p: nat, end: nat)
    requires p < end <= |buf| && IndexOf(buf, NUL, p) < |buf|
    ensures var k := CStr(buf, NUL, p);
            Entries(buf, p, end) == if k == [] then [] else [k] + Entries(buf, p + |k| + 1, end)
  {}

  lemma FirstTerminated(buf: string, p: nat, es: seq<string>)
    requires es != [] && At(buf, p, Terminated(es, NUL))
    ensures Start(es, 0) == 0
    ensures |Terminated(es, NUL)| == |es[0]| + 1 + |Terminated(es[1..], NUL)|
    ensures At(buf, p + |es[0]| + 1, Terminated(es[1..], NUL))
  {
    hide At;
    var a, b := es[0] + [NUL], Terminated(es[1..], NUL);
    assert Terminated(es, NUL) == a + b;
    SecondPart(a, b);
    AtInside(buf, p, a + b, |a|, b);
  }

  lemma SecondPart(a: string, b: string)
    ensures At(a + b, |a|, b)
  {}

  /** Uevent parsing undoes encoding: for a header with "@/" and non-empty entries, each recognised key
      is bound to the value of its last entry and an absent one stays unbound. */
  lemma ParseUndoesEncode(buf: string, header: string, es: seq<string>, buflen: int)
    requires ZeroFilled(buf, buflen)
    requires At(buf, 0, header + [NUL]) && At(buf, |header| + 1, Terminated(es, NUL))
    requires Free(header, NUL) && 4 <= |header| && Contains(header, "@/")
    requires es != [] && forall k :: 0 <= k < |es| ==> es[k] != [] && Free(es[k], NUL)
    requires buflen == |header| + 1 + |Terminated(es, NUL)| && 32 <= buflen < BUF_SIZE
    ensures AcceptedMessage(buf, buflen)
    ensures EventOf(Entries(buf, IndexOf(buf, NUL, 0) + 1, buflen)) == EventOf(es)
    ensures var ev := EventOf(Entries(buf, IndexOf(buf, NUL, 0) + 1, buflen));
            && ev.action == LastValue(es, "ACTION=") && ev.devtype == LastValue(es, "DEVTYPE=")
            && ev.devpath == LastValue(es, "DEVPATH=") && ev.devname == LastValue(es, "DEVNAME=")
            && ev.subsystem == LastValue(es, "SUBSYSTEM=")
  {
    EventMeans(es);
    hide EventOf, Entries;
    CStrAt(buf, 0, header, NUL);
    FirstTerminated(buf, |header| + 1, es);
    EntriesOfTerminated(buf, |header| + 1, es, buflen);
    TakeNonEmptyAll(es);
  }

  // ---------------------------------------------------------------- callbacks

  const SUBSYSTEM_SZ := 64
  const ACTION_SZ := 16
  const DEVTYPE_SZ := 48

  datatype Registration = Registration(subsystem: string, action: string, devtype: string,
                                       func: int, container: int)

  datatype Call = Call(func: int, devpath: Option<string>, devname: Option<string>,
                       devtype: Option<string>, container: int)

  function Stored(subsystem: string, action: Option<string>, devtype: Option<string>,
                  func: int, container: int): Registration {
    Registration(Truncated(subsystem, SUBSYSTEM_SZ - 1),
                 if action.Some? then Truncated(action.value, ACTION_SZ - 1) else "",
                 if devtype.Some? then Truncated(devtype.value, DEVTYPE_SZ - 1) else "",
                 func, container)
  }

  /** The filters of a registration: equal subsystem, event action inside the registered actions,
      event device type inside the registered one unless that is empty. */
  predicate Wants(r: Registration, ev: Event) {
    && ev.subsystem == Some(r.subsystem)
    && ev.action.Some? && Contains(r.action, ev.action.value)
    && (r.devtype == "" || (ev.devtype.Some? && Contains(r.devtype, ev.devtype.value)))
  }

  /** The filters on the texts themselves. */
  lemma WantsMeans(r: Registration, ev: Event)
    ensures Wants(r, ev) <==>
              && ev.subsystem == Some(r.subsystem)
              && ev.action.Some? && (exists x, y :: x + ev.action.value + y == r.action)
              && (r.devtype == "" || (ev.devtype.Some? && exists x, y :: x + ev.devtype.value + y == r.devtype))
  {
    if ev.action.Some? {
      ContainsMeans(r.action, ev.action.value);
    }
    if ev.devtype.Some? {
      ContainsMeans(r.devtype, ev.devtype.value);
    }
  }

  lemma ContainsMeans(h: string, n: string)
    ensures Contains(h, n) <==> exists x, y :: x + n + y == h
  {
    if x, y :| x + n + y == h {
      assert h[|x|..|x| + |n|] == n;
      assert At(h, |x|, n);
    }
    if i :| 0 <= i <= |h| && At(h, i, n) {
      assert h[..i] + n + h[i + |n|..] == h;
    }
  }

  /** The indices below `n` of the registrations the event concerns, in order. */
  function Wanted(rs: seq<Registration>, ev: Event, n: nat): seq<nat>
    requires n <= |rs|
  {
    if n == 0 then [] else Wanted(rs, ev, n - 1) + (if Wants(rs[n - 1], ev) then [n - 1] else [])
  }

  lemma NoneWanted(rs: seq<Registration>, ev: Event)
    ensures Wanted(rs, ev, 0) == []
  {}

  lemma WantedNext(rs: seq<Registration>, ev: Event, n: nat)
    requires n < |rs|
    ensures Wanted(rs, ev, n + 1) == Wanted(rs, ev, n) + if Wants(rs[n], ev) then [n] else []
  {}

  lemma {:induction false} WantedExact(rs: seq<Registration>, ev: Event, n: nat)
    requires n <= |rs|
    ensures forall i :: i in Wanted(rs, ev, n) <==> 0 <= i < n && Wants(rs[i], ev)
    ensures forall a, b :: 0 <= a < b < |Wanted(rs, ev, n)| ==> Wanted(rs, ev, n)[a] < Wanted(rs, ev, n)[b]
  {
    hide Wants;
    if n > 0 {
      WantedExact(rs, ev, n - 1);
      var w := Wanted(rs, ev, n - 1);
      forall a | 0 <= a < |w|
        ensures w[a] < n - 1
      {
        assert w[a] in w;
      }
    }
  }

  // ---------------------------------------------------------------- runs of registrations

  /** One call of udev_register: its arguments, whether the socket it may try to open comes up, and
      whether memory is found. */
  datatype Attempt = Attempt(subsystem: string, action: Option<string>, devtype: Option<string>,
                             func: int, container: int, socketOk: bool, allocOk: bool)

  /** What a call stores of each of its arguments: 63, 15 and 47 characters of the filters, the callback
      and its container as they are. */
  lemma StoredMeans(a: Attempt)
    ensures StoredOf(a).subsystem == Truncated(a.subsystem, 63)
    ensures StoredOf(a).action == if a.action.Some? then Truncated(a.action.value, 15) else ""
    ensures StoredOf(a).devtype == if a.devtype.Some? then Truncated(a.devtype.value, 47) else ""
    ensures StoredOf(a).func == a.func && StoredOf(a).container == a.container
  {}

  /** The registered callbacks, in list order, and the number of sockets that feed them. */
  datatype Registered = Registered(list: seq<Registration>, readers: nat)

  const NOBODY := Registered([], 0)

  function StoredOf(a: Attempt): Registration {
    Stored(a.subsystem, a.action, a.devtype, a.func, a.container)
  }

  function AfterCall(r: Registered, a: Attempt): Registered {
    Registered(if a.allocOk then r.list + [StoredOf(a)] else r.list,
               r.readers + if r.list == [] && a.socketOk then 1 else 0)
  }

  function AfterCalls(r: Registered, calls: seq<Attempt>): Registered
    decreases |calls|
  {
    if calls == [] then r else AfterCall(AfterCalls(r, calls[..|calls| - 1]), calls[|calls| - 1])
  }

  /** The registrations of the calls that found memory, in call order. */
  function Successful(calls: seq<Attempt>): seq<Registration> {
    if calls == [] then []
    else
      var n := |calls| - 1;
      Successful(calls[..n]) + if calls[n].allocOk then [StoredOf(calls[n])] else []
  }

  /** The first call that found memory; `|calls|` when none did. */
  function FirstStored(calls: seq<Attempt>): (k: nat)
    ensures k <= |calls|
    ensures k < |calls| ==> calls[k].allocOk
  {
    if calls == [] || calls[0].allocOk then 0 else 1 + FirstStored(calls[1..])
  }

  function SocketsOpened(calls: seq<Attempt>): nat {
    if calls == [] then 0
    else SocketsOpened(calls[..|calls| - 1]) + if calls[|calls| - 1].socketOk then 1 else 0
  }

  /** The calls that try the socket: all up to and including the first that finds memory. */
  function Trying(calls: seq<Attempt>): seq<Attempt> {
    if FirstStored(calls) < |calls| then calls[..FirstStored(calls) + 1] else calls
  }

  lemma {:induction false} FirstStoredIsFirst(calls: seq<Attempt>)
    ensures forall i :: 0 <= i < FirstStored(calls) ==> !calls[i].allocOk
  {
    if calls != [] && !calls[0].allocOk {
      FirstStoredIsFirst(calls[1..]);
      forall i | 0 <= i < FirstStored(calls)
        ensures !calls[i].allocOk
      {
        assert i > 0 ==> calls[i] == calls[1..][i - 1];
      }
    }
  }

  lemma {:induction false} FirstStoredUnique(calls: seq<Attempt>, k: nat)
    requires k <= |calls| && (k < |calls| ==> calls[k].allocOk)
    requires forall i :: 0 <= i < k ==> !calls[i].allocOk
    ensures FirstStored(calls) == k
    decreases k
  {
    if k > 0 {
      assert !calls[0].allocOk;
      FirstStoredUnique(calls[1..], k - 1);
    }
  }

  /** The last call tries the socket exactly when none before it found memory. */
  lemma TryingSnoc(calls: seq<Attempt>)
    requires calls != []
    ensures var n := |calls| - 1;
            Trying(calls) == if FirstStored(calls[..n]) == n then calls else Trying(calls[..n])
  {
    var n := |calls| - 1;
    var k := FirstStored(calls[..n]);
    FirstStoredIsFirst(calls[..n]);
    forall i | 0 <= i < k
      ensures !calls[i].allocOk
    {
      assert calls[..n][i] == calls[i];
    }
    if k < n {
      FirstStoredUnique(calls, k);
      assert calls[..n][..k + 1] == calls[..k + 1];
    } else {
      FirstStoredUnique(calls, if calls[n].allocOk then n else n + 1);
      assert calls[..n + 1] == calls;
    }
  }

  lemma {:induction false} NoneSuccessful(calls: seq<Attempt>)
    ensures Successful(calls) == [] <==> FirstStored(calls) == |calls|
    decreases |calls|
  {
    if calls != [] {
      var n := |calls| - 1;
      NoneSuccessful(calls[..n]);
      FirstStoredIsFirst(calls);
      FirstStoredIsFirst(calls[..n]);
      if FirstStored(calls[..n]) == n {
        assert forall i :: 0 <= i < n ==> calls[..n][i] == calls[i];
        FirstStoredUnique(calls, if calls[n].allocOk then n else n + 1);
      } else {
        assert calls[..n][FirstStored(calls[..n])] == calls[FirstStored(calls[..n])];
      }
    }
  }

  /** After any run of calls from the empty list, the list holds the successful registrations in call
      order, and the sockets are those opened by the calls up to the first success. */
  lemma {:induction false} RunOfRegistrations(calls: seq<Attempt>)
    ensures AfterCalls(NOBODY, calls) == Registered(Successful(calls), SocketsOpened(Trying(calls)))
    decreases |calls|
  {
    hide FirstStored;
    if calls == [] {
      assert Trying([]) == [];
    } else {
      var n := |calls| - 1;
      RunOfRegistrations(calls[..n]);
      TryingSnoc(calls);
      NoneSuccessful(calls[..n]);
      if Successful(calls[..n]) == [] {
        AllTrying(calls[..n]);
      }
    }
  }

  lemma AllTrying(calls: seq<Attempt>)
    requires FirstStored(calls) == |calls|
    ensures Trying(calls) == calls
  {}

  /** Every socket hands the event to the whole list. */
  function Deliveries(calls: seq<Call>, readers: nat): seq<Call> {
    if readers == 0 then [] else calls + Deliveries(calls, readers - 1)
  }

  lemma {:induction false} DeliveriesLength(calls: seq<Call>, readers: nat)
    ensures |Deliveries(calls, readers)| == readers * |calls|
  {
    if readers > 0 {
      DeliveriesLength(calls, readers - 1);
    }
  }

  /** An event that concerns somebody is delivered exactly once to each exactly when one of the calls up
      to the first success opened its socket, and only one. */
  lemma DeliveredOnceIff(calls: seq<Attempt>, wanted: seq<Call>)
    requires wanted != []
    ensures Deliveries(wanted, AfterCalls(NOBODY, calls).readers) == wanted
            <==> SocketsOpened(Trying(calls)) == 1
  {
    RunOfRegistrations(calls);
    var n := SocketsOpened(Trying(calls));
    DeliveriesLength(wanted, n);
    if n == 1 {
      assert Deliveries(wanted, 0) == [];
    } else if n > 1 {
      assert n * |wanted| >= 2 * |wanted|;
    }
  }

  /** Once a callback is registered, no later call opens a socket. */
  lemma {:induction false} SocketNeverRetried(calls: seq<Attempt>, more: seq<Attempt>)
    requires AfterCalls(NOBODY, calls).list != []
    ensures AfterCalls(NOBODY, calls + more).readers == AfterCalls(NOBODY, calls).readers
    ensures AfterCalls(NOBODY, calls + more).list != []
    decreases |more|
  {
    if more == [] {
      assert calls + more == calls;
    } else {
      var n := |more| - 1;
      SocketNeverRetried(calls, more[..n]);
      assert (calls + more)[..|calls + more| - 1] == calls + more[..n];
    }
  }

  /** Memory missing for the first call, whose socket is up: the second call opens another one, and
      every event is delivered twice. */
  lemma SecondSocket(a: Attempt, b: Attempt)
    requires a.socketOk && !a.allocOk && b.socketOk && b.allocOk
    ensures AfterCalls(NOBODY, [a, b]) == Registered([StoredOf(b)], 2)
  {
    assert [a, b][..1] == [a] && [a][..0] == [];
    assert AfterCalls(NOBODY, [a]) == Registered([], 1);
  }

  /** No socket for the first call, which finds memory: the call returns 1, and whatever is registered
      later, no event is ever delivered. */
  lemma NeverDelivered(a: Attempt, more: seq<Attempt>, wanted: seq<Call>)
    requires !a.socketOk && a.allocOk
    ensures AfterCalls(NOBODY, [a] + more).readers == 0
    ensures Deliveries(wanted, AfterCalls(NOBODY, [a] + more).readers) == []
  {
    assert [a][..0] == [];
    assert AfterCalls(NOBODY, [a]) == Registered([StoredOf(a)], 0);
    SocketNeverRetried([a], more);
  }

  class Callback {
    const entry: Registration
    var next: Callback?

    constructor (entry: Registration)
      ensures this.entry == entry && next == null
    {
      this.entry, next := entry, null;
    }
  }

  /** The list behind udev_cb, appended in place, and how many netlink sockets feed it. */
  class Registry {
    var head: Callback?
    var readers: nat
    ghost var nodes: seq<Callback>

    constructor ()
      ensures Valid() && Now() == NOBODY && fresh(nodes)
    {
      head, readers, nodes := null, 0, [];
    }

    ghost function NodeAt(i: nat): Callback?
      reads this
    {
      if i < |nodes| then nodes[i] else null
    }

    ghost predicate Valid()
      reads this, nodes
    {
      && head == NodeAt(0)
      && (forall i :: 0 <= i < |nodes| ==> nodes[i].next == NodeAt(i + 1))
      && (forall i, j :: 0 <= i < j < |nodes| ==> nodes[i] != nodes[j])
    }

    ghost function Contents(): (s: seq<Registration>)
      reads this
      ensures |s| == |nodes|
    {
      var ns := nodes;
      seq(|ns|, i requires 0 <= i < |ns| => ns[i].entry)
    }

    ghost function Now(): Registered
      reads this
    {
      Registered(Contents(), readers)
    }

    /** udev_netlink_init: `ok` when socket, bind and the event registration all succeed. */
    method UdevNetlinkInit(ok: bool)
      modifies this`readers
      ensures readers == old(readers) + if ok then 1 else 0
    {
      if ok {
        readers := readers + 1;
      }
    }

    /** The walk to the tail of the list, and the link. */
    method Append(myCb: Callback)
      requires Valid() && myCb !in nodes && myCb.next == null
      modifies this`head, this`nodes, nodes
      ensures Valid()
      ensures nodes == old(nodes) + [myCb] && Contents() == old(Contents()) + [myCb.entry]
    {
      if head == null {
        head := myCb;
      } else {
        var tmp := head;
        ghost var i := 0;
        while tmp.next != null
          invariant Valid() && 0 <= i < |nodes| && tmp == nodes[i]
          decreases |nodes| - i
          modifies {}
        {
          assert NodeAt(i + 1) != null;
          tmp := tmp.next;
          i := i + 1;
        }
        assert NodeAt(i + 1) == null;
        tmp.next := myCb;
      }
      nodes := nodes + [myCb];
    }

    /** udev_register: appends at the tail.  A call on an empty list first tries to open the socket;
        whether that worked makes no difference to the registration. */
    method Register(a: Attempt) returns (rc: int)
      requires Valid()
      modifies this, nodes
      ensures Valid()
      ensures rc == if a.allocOk then 1 else -1
      ensures Now() == AfterCall(old(Now()), a)
      ensures forall n :: n in nodes ==> n in old(nodes) || fresh(n)
    {
      if head == null {
        UdevNetlinkInit(a.socketOk);
      }
      if !a.allocOk {
        return -1;
      }
      var myCb := new Callback(StoredOf(a));
      Append(myCb);
      return 1;
    }

    /** The dispatch loop: the calls made, in order. */
    method Dispatch(ev: Event) returns (calls: seq<Call>)
      requires Valid()
      ensures var w := Wanted(Contents(), ev, |Contents()|);
              && |calls| == |w|
              && forall i :: 0 <= i < |w| ==>
                   && w[i] < |Contents()|
                   && calls[i].func == Contents()[w[i]].func && calls[i].container == Contents()[w[i]].container
                   && calls[i].devpath == ev.devpath && calls[i].devname == ev.devname
                   && calls[i].devtype == ev.devtype
    {
      hide Wants, Wanted;
      calls := [];
      NoneWanted(Contents(), ev);
      var tmp := head;
      ghost var n, rs := 0, Contents();
      while tmp != null
        invariant n <= |nodes| && tmp == NodeAt(n)
        invariant |calls| == |Wanted(rs, ev, n)|
        invariant forall i :: 0 <= i < |calls| ==>
                    && Wanted(rs, ev, n)[i] < n
                    && calls[i].func == rs[Wanted(rs, ev, n)[i]].func
                    && calls[i].container == rs[Wanted(rs, ev, n)[i]].container
                    && calls[i].devpath == ev.devpath && calls[i].devname == ev.devname
                    && calls[i].devtype == ev.devtype
        decreases |nodes| - n
      {
        assert tmp.entry == rs[n];
        WantedNext(rs, ev, n);
        if Wants(tmp.entry, ev) {
          calls := calls + [Call(tmp.entry.func, ev.devpath, ev.devname, ev.devtype, tmp.entry.container)];
        }
        tmp := tmp.next;
        n := n + 1;
      }
    }

    /** udev_event_process on `buflen` received bytes (negative when the receive failed). */
    method UdevEventProcess(buf: string, buflen: int) returns (calls: seq<Call>)
      requires Valid() && ZeroFilled(buf, buflen)
      ensures buflen < 0 || !AcceptedMessage(buf, buflen) ==> calls == []
      ensures buflen >= 0 && AcceptedMessage(buf, buflen) ==>
                var es := Entries(buf, IndexOf(buf, NUL, 0) + 1, buflen);
                var w := Wanted(Contents(), EventOf(es), |Contents()|);
                && |calls| == |w|
                && forall i :: 0 <= i < |w| ==>
                     && w[i] < |Contents()|
                     && calls[i].func == Contents()[w[i]].func && calls[i].container == Contents()[w[i]].container
                     && calls[i].devpath == LastValue(es, "DEVPATH=")
                     && calls[i].devname == LastValue(es, "DEVNAME=")
                     && calls[i].devtype == LastValue(es, "DEVTYPE=")
    {
      hide AcceptedMessage, EventOf, Entries, LastValue;
      if buflen < 0 {
        return [];
      }
      if head == null {
        return [];
      }
      var ev := ParseUevent(buf, buflen);
      if ev.None? {
        return [];
      }
      AcceptedHasHeader(buf, buflen);
      EventMeans(Entries(buf, IndexOf(buf, NUL, 0) + 1, buflen));
      calls := Dispatch(ev.value);
    }
  }

  // ---------------------------------------------------------------- what the substring test lets in

  const ACTION_ROOM := ACTION_SZ - 1

  lemma CellOf(s: string, i: nat, a: string, c: nat)
    requires At(s, i, a) && i <= c < i + |a|
    ensures c < |s| && s[c] == a[c - i]
  {
    SliceCells(s, i, a);
    assert s[i + (c - i)] == a[c - i];
  }

  /** A word without the separator lies wholly on one side of it. */
  lemma OnOneSide(x: string, y: string, a: string, i: nat)
    requires Free(a, ':') && At(x + [':'] + y, i, a)
    ensures i + |a| <= |x| || i > |x|
  {
    if i <= |x| < i + |a| {
      CellOf(x + [':'] + y, i, a, |x|);
      assert false;
    }
  }

  lemma ContainsInside(h: string, p: nat, b: string, a: string)
    requires At(h, p, b) && Contains(b, a)
    ensures Contains(h, a)
  {
    var i :| 0 <= i <= |b| && At(b, i, a);
    AtInside(h, p, b, i, a);
  }

  /** A word without the separator lies in two joined texts exactly when it lies in one of them. */
  lemma ContainsInTwo(x: string, y: string, a: string)
    requires Free(a, ':')
    ensures Contains(x + [':'] + y, a) <==> Contains(x, a) || Contains(y, a)
  {
    if Contains(x + [':'] + y, a) {
      InOneOfTwo(x, y, a);
    }
    assert At(x + [':'] + y, 0, x) && At(x + [':'] + y, |x| + 1, y);
    if Contains(x, a) {
      ContainsInside(x + [':'] + y, 0, x, a);
    }
    if Contains(y, a) {
      ContainsInside(x + [':'] + y, |x| + 1, y, a);
    }
  }

  lemma InOneOfTwo(x: string, y: string, a: string)
    requires Free(a, ':') && Contains(x + [':'] + y, a)
    ensures Contains(x, a) || Contains(y, a)
  {
    var s := x + [':'] + y;
    var i :| 0 <= i <= |s| && At(s, i, a);
    OnOneSide(x, y, a, i);
    if i > |x| {
      assert y[i - |x| - 1..i - |x| - 1 + |a|] == s[i..i + |a|];
      assert At(y, i - |x| - 1, a);
    } else {
      assert x[i..i + |a|] == s[i..i + |a|];
      assert At(x, i, a);
    }
  }

  /** What the first `n` characters keep of each of the joined actions. */
  function Kept(actions: seq<string>, n: nat): (ks: seq<string>)
    requires actions != []
    ensures 1 <= |ks| <= |actions|
  {
    if |actions| == 1 || n <= |actions[0]| then [Truncated(actions[0], n)]
    else [actions[0]] + Kept(actions[1..], n - |actions[0]| - 1)
  }

  /** Truncating the list is keeping its first actions, the last of them cut. */
  lemma {:induction false} KeptJoin(actions: seq<string>, n: nat)
    requires actions != []
    ensures Join(Kept(actions, n), ':') == Truncated(Join(actions, ':'), n)
  {
    if |actions| > 1 {
      var x, rest := actions[0], Join(actions[1..], ':');
      if n <= |x| {
        assert (x + [':'] + rest)[..n] == x[..n];
      } else {
        KeptJoin(actions[1..], n - |x| - 1);
        assert Kept(actions, n)[1..] == Kept(actions[1..], n - |x| - 1);
        TruncatedBehind(x + [':'], rest, n);
      }
    }
  }

  lemma TruncatedBehind(x: string, y: string, n: nat)
    requires |x| <= n
    ensures Truncated(x + y, n) == x + Truncated(y, n - |x|)
  {}

  lemma {:induction false} StartBehindFirst(actions: seq<string>, k: nat)
    requires 1 <= k <= |actions|
    ensures Start(actions, k) == |actions[0]| + 1 + Start(actions[1..], k - 1)
    decreases k
  {
    if k > 1 {
      StartBehindFirst(actions, k - 1);
    } else {
      assert Start(actions, 0) == 0;
    }
  }

  /** Action `k` is kept when it starts within the room, cut to what is left of it. */
  lemma {:induction false} KeptAt(actions: seq<string>, n: nat, k: nat)
    requires k < |actions|
    ensures k < |Kept(actions, n)| <==> Start(actions, k) <= n
    ensures k < |Kept(actions, n)| ==> Kept(actions, n)[k] == Truncated(actions[k], n - Start(actions, k))
    decreases k
  {
    if k > 0 {
      StartBehindFirst(actions, k);
      if n > |actions[0]| {
        KeptAt(actions[1..], n - |actions[0]| - 1, k - 1);
      }
    }
  }

  predicate InSome(ks: seq<string>, a: string) {
    exists k :: 0 <= k < |ks| && Contains(ks[k], a)
  }

  lemma InSomeCons(x: string, rest: seq<string>, a: string)
    ensures InSome([x] + rest, a) <==> Contains(x, a) || InSome(rest, a)
  {
    hide Contains;
    var l := [x] + rest;
    assert l[0] == x;
    if k :| 0 <= k < |rest| && Contains(rest[k], a) {
      assert l[k + 1] == rest[k];
    }
    if k :| 0 <= k < |l| && Contains(l[k], a) {
      assert k > 0 ==> l[k] == rest[k - 1];
    }
  }

  lemma {:induction false} ContainsInJoin(ks: seq<string>, a: string)
    requires ks != [] && Free(a, ':')
    ensures Contains(Join(ks, ':'), a) <==> InSome(ks, a)
  {
    hide Contains, InSome;
    InSomeCons(ks[0], ks[1..], a);
    assert ks == [ks[0]] + ks[1..];
    if |ks| == 1 {
      NotInNone(a);
    } else {
      ContainsInTwo(ks[0], Join(ks[1..], ':'), a);
      ContainsInJoin(ks[1..], a);
    }
  }

  lemma NotInNone(a: string)
    ensures !InSome([], a)
  {}

  /** What a registration stores for a colon-separated list of actions. */
  function ForActions(subsystem: string, actions: seq<string>, devtype: Option<string>,
                      func: int, container: int): Registration
    requires actions != []
  {
    Stored(subsystem, Some(Join(actions, ':')), devtype, func, container)
  }

  predicate SameDevice(r: Registration, ev: Event) {
    && ev.subsystem == Some(r.subsystem)
    && (r.devtype == "" || (ev.devtype.Some? && Contains(r.devtype, ev.devtype.value)))
  }

  /** An event reaches a callback exactly when device and subsystem match and its action is a substring
      of what the first 15 characters keep of one of the registered actions. */
  lemma ReachesIff(subsystem: string, actions: seq<string>, devtype: Option<string>, func: int, container: int,
                   ev: Event)
    requires actions != [] && ev.action.Some? && Free(ev.action.value, ':')
    ensures var r := ForActions(subsystem, actions, devtype, func, container);
            Wants(r, ev) <==> SameDevice(r, ev) && InSome(Kept(actions, ACTION_ROOM), ev.action.value)
  {
    hide Contains, InSome, Join;
    KeptJoin(actions, ACTION_ROOM);
    ContainsInJoin(Kept(actions, ACTION_ROOM), ev.action.value);
  }

  /** The word is a substring of the other and not the whole of it. */
  predicate ProperPart(a: string, b: string) {
    Contains(b, a) && |a| < |b|
  }

  lemma ContainsLength(b: string, a: string)
    ensures Contains(b, a) ==> |a| <= |b| && (|a| == |b| ==> a == b)
    ensures Contains(a, a)
  {
    assert At(a, 0, a);
    if i :| 0 <= i <= |b| && At(b, i, a) {
      assert |a| == |b| ==> b[i..i + |a|] == b;
    }
  }

  lemma {:induction false} NothingCutOff(actions: seq<string>, n: nat)
    requires actions != [] && |Join(actions, ':')| <= n
    ensures Kept(actions, n) == actions
  {
    if |actions| > 1 {
      NothingCutOff(actions[1..], n - |actions[0]| - 1);
    }
  }

  /** A list that fits is reached by an action it does not name exactly when that action is a proper
      substring of one it names. */
  lemma UnlistedReachesIff(actions: seq<string>, a: string)
    requires actions != [] && |Join(actions, ':')| <= ACTION_ROOM
    requires Free(a, ':') && a !in actions
    ensures InSome(Kept(actions, ACTION_ROOM), a)
            <==> exists k :: 0 <= k < |actions| && ProperPart(a, actions[k])
  {
    hide Contains;
    NothingCutOff(actions, ACTION_ROOM);
    forall k | 0 <= k < |actions|
      ensures Contains(actions[k], a) <==> ProperPart(a, actions[k])
    {
      ContainsLength(actions[k], a);
    }
  }

  /** Over the actions that can occur, the substring test of a list that fits agrees with membership
      exactly when none that it does not name is a proper substring of one it names. */
  lemma TestIsMembershipIff(actions: seq<string>, occurring: seq<string>)
    requires actions != [] && |Join(actions, ':')| <= ACTION_ROOM
    requires forall i :: 0 <= i < |occurring| ==> Free(occurring[i], ':')
    ensures (forall i :: 0 <= i < |occurring| ==>
              (InSome(Kept(actions, ACTION_ROOM), occurring[i]) <==> occurring[i] in actions))
            <==> forall i, k :: 0 <= i < |occurring| && 0 <= k < |actions| && ProperPart(occurring[i], actions[k])
                   ==> occurring[i] in actions
  {
    hide Contains, ProperPart;
    NothingCutOff(actions, ACTION_ROOM);
    forall i | 0 <= i < |occurring|
      ensures occurring[i] in actions ==> InSome(actions, occurring[i])
      ensures occurring[i] !in actions ==>
                (InSome(actions, occurring[i])
                 <==> exists k :: 0 <= k < |actions| && ProperPart(occurring[i], actions[k]))
    {
      var a := occurring[i];
      ContainsLength(a, a);
      if a !in actions {
        UnlistedReachesIff(actions, a);
      }
    }
  }

  lemma {:induction false} StartGrows(actions: seq<string>, j: nat, k: nat)
    requires j < k <= |actions|
    ensures Start(actions, j) + |actions[j]| + 1 <= Start(actions, k)
    decreases k - j
  {
    if j + 1 < k {
      StartGrows(actions, j, k - 1);
    }
  }

  /** A registered action reaches its callback exactly when it lies within the 15 characters kept, or
      inside what they keep of an action before it. */
  lemma ListedActionMatches(actions: seq<string>, k: nat)
    requires k < |actions| && Free(actions[k], ':')
    ensures InSome(Kept(actions, ACTION_ROOM), actions[k])
            <==> Start(actions, k) + |actions[k]| <= ACTION_ROOM
                 || exists j :: 0 <= j < k && j < |Kept(actions, ACTION_ROOM)|
                      && Contains(Kept(actions, ACTION_ROOM)[j], actions[k])
  {
    hide Contains, Kept, Start;
    var ks := Kept(actions, ACTION_ROOM);
    KeptAt(actions, ACTION_ROOM, k);
    ContainsLength(actions[k], actions[k]);
    forall j | 0 <= j < |ks| && Contains(ks[j], actions[k])
      ensures j < k || Start(actions, k) + |actions[k]| <= ACTION_ROOM
    {
      KeptAt(actions, ACTION_ROOM, j);
      ContainsLength(ks[j], actions[k]);
      if j > k {
        StartGrows(actions, k, j);
      }
    }
  }

  /** A list too long to keep: "change" is registered third and never reaches the callback. */
  lemma ThirdActionLost(subsystem: string, devtype: Option<string>, func: int, container: int, ev: Event)
    requires ev.action == Some("change")
    ensures var r := ForActions(subsystem, ["online", "offline", "change"], devtype, func, container);
            r.action == "online:offline:" && !Wants(r, ev)
  {
    var l := ["online", "offline", "change"];
    assert l[1..] == ["offline", "change"] && l[1..][1..] == ["change"];
    assert Join(["change"], ':') == "change";
    assert Join(l[1..], ':') == "offline:change";
    assert Join(l, ':') == "online:offline:change";
    var s := "online:offline:";
    assert Truncated("online:offline:change", ACTION_ROOM) == s;
    forall i | 0 <= i <= |s|
      ensures !At(s, i, "change")
    {
      if At(s, i, "change") {
        CellOf(s, i, "change", i);
      }
    }
  }

  /** An event with an empty action reaches every callback for its device and subsystem. */
  lemma EmptyActionReachesAll(r: Registration, ev: Event)
    requires ev.action == Some("")
    ensures Wants(r, ev) <==> SameDevice(r, ev)
  {
    assert At(r.action, 0, "");
  }

  /** The test is by substring, so a "move" event also reaches callbacks registered for "remove". */
  lemma MoveReachesRemove(subsystem: string, func: int, container: int, ev: Event)
    requires ev.subsystem == Some(subsystem) && |subsystem| < SUBSYSTEM_SZ && ev.action == Some("move")
    ensures Wants(Stored(subsystem, Some("remove"), None, func, container), ev)
  {
    assert At("remove", 2, "move");
  }
}
