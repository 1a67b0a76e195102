/** Netlink datagrams as cpqnic_iflink_process understands them (RFC 3549 section 2.3.2), read
    without any machine arithmetic: the reference the C loop is proved against. */
module LinkMessages {
  import opened Bytes
  import opened Delimited

  const NLMSG_HDRLEN := 16
  const IFINFOMSG_SIZE := 16
  const RTM_NEWLINK := 16
  const RTM_DELLINK := 17

  /** What a link message asks of the two tables; the index is the C int ifi_index. */
  datatype Event = Reload(index: int) | Remove(index: int)

  predicate IsLink(typ: u16) {
    typ == RTM_NEWLINK || typ == RTM_DELLINK
  }

  /** The event of a link message at `p`: type at offset 4, ifi_index at offset 20. */
  function EventAt(d: seq<u8>, p: nat): Event
    requires p + NLMSG_HDRLEN + IFINFOMSG_SIZE <= |d|
  {
    var index := ToInt32(Le32(d, p + 20));
    if Le16(d, p + 4) == RTM_NEWLINK then Reload(index) else Remove(index)
  }

  /** The message at `p` lets the loop go on: its stated length covers the header, lies within the
      datagram, and covers an ifinfomsg when it is a link message. */
  predicate Accepted(d: seq<u8>, p: nat) {
    && p + NLMSG_HDRLEN < |d|
    && NLMSG_HDRLEN <= Le32(d, p) && p + Le32(d, p) <= |d|
    && (IsLink(Le16(d, p + 4)) ==> NLMSG_HDRLEN + IFINFOMSG_SIZE <= Le32(d, p))
  }

  function Head(d: seq<u8>, p: nat): seq<Event>
    requires Accepted(d, p)
  {
    if IsLink(Le16(d, p + 4)) then [EventAt(d, p)] else []
  }

  function Next(d: seq<u8>, p: nat): nat
    requires p + 4 <= |d|
  {
    p + Align4(Le32(d, p))
  }

  /** The events of the datagram `d` from `p` on, in order. */
  function Events(d: seq<u8>, p: nat): seq<Event>
    decreases if p <= |d| then |d| - p else 0
  {
    if Accepted(d, p) then Head(d, p) + Events(d, Next(d, p)) else []
  }

  // ---------------------------------------------------------------- encoding

  /** A message: type, the other ten header bytes (flags, sequence, port), and payload. */
  datatype Message = Message(typ: u16, rest: seq<u8>, payload: seq<u8>)

  predicate WellFormed(m: Message) {
    |m.rest| == 10 && NLMSG_HDRLEN + |m.payload| < TWO_31
  }

  function Length(m: Message): nat {
    NLMSG_HDRLEN + |m.payload|
  }

  function Header(m: Message): seq<u8>
    requires WellFormed(m)
  {
    Bytes32(Length(m)) + Bytes16(m.typ) + m.rest
  }

  /** One message, padded to the alignment. */
  function EncodeOne(m: Message): (s: seq<u8>)
    requires WellFormed(m)
    ensures |s| == Align4(Length(m))
  {
    Header(m) + m.payload + Zeros(Align4(Length(m)) - Length(m))
  }

  function Encode(ms: seq<Message>): seq<u8>
    requires forall k :: 0 <= k < |ms| ==> WellFormed(ms[k])
  {
    if ms == [] then [] else EncodeOne(ms[0]) + Encode(ms[1..])
  }

  predicate ShortLink(m: Message) {
    IsLink(m.typ) && |m.payload| < IFINFOMSG_SIZE
  }

  function MessageEvent(m: Message): seq<Event>
    requires !ShortLink(m)
  {
    if m.typ == RTM_NEWLINK then [Reload(ToInt32(Le32(m.payload, 4)))]
    else if m.typ == RTM_DELLINK then [Remove(ToInt32(Le32(m.payload, 4)))]
    else []
  }

  /** Every message's event in order, up to the first link message too short for an ifinfomsg. */
  function Delivered(ms: seq<Message>): seq<Event> {
    if ms == [] || ShortLink(ms[0]) then [] else MessageEvent(ms[0]) + Delivered(ms[1..])
  }

  /** struct ifinfomsg (RFC 3549 section 3.1.1): family, a pad byte, device type, interface index, flags
      and change mask. */
  datatype LinkInfo = LinkInfo(family: u8, deviceType: u16, index: u32, flags: u32, change: u32)

  function EncodeInfo(l: LinkInfo): (s: seq<u8>)
    ensures |s| == IFINFOMSG_SIZE
  {
    [l.family, 0] + Bytes16(l.deviceType) + Bytes32(l.index) + Bytes32(l.flags) + Bytes32(l.change)
  }

  /** A new-link message (type 16) asks for a reload of its interface, a del-link message (type 17) for its
      removal, and the index is read back as it was written. */
  lemma LinkMessageMeans(l: LinkInfo, rest: seq<u8>, attributes: seq<u8>)
    ensures var index := if l.index < 0x8000_0000 then l.index else l.index - 0x1_0000_0000;
            var payload := EncodeInfo(l) + attributes;
            && !ShortLink(Message(16, rest, payload)) && !ShortLink(Message(17, rest, payload))
            && MessageEvent(Message(16, rest, payload)) == [Reload(index)]
            && MessageEvent(Message(17, rest, payload)) == [Remove(index)]
  {
    var p, i := EncodeInfo(l) + attributes, Bytes32(l.index);
    assert p[4] == i[0] && p[5] == i[1] && p[6] == i[2] && p[7] == i[3];
    assert Le32(p, 4) == Le32(i, 0);
    ConversionsWrap(l.index);
  }

  /** Messages of any other type have no event. */
  lemma OtherMessagesMean(m: Message)
    requires m.typ != 16 && m.typ != 17
    ensures !ShortLink(m) && MessageEvent(m) == []
  {}

  lemma HeaderCells(m: Message, d: seq<u8>, p: nat)
    requires WellFormed(m) && At(d, p, Header(m))
    ensures Le32(d, p) == Length(m) && Le16(d, p + 4) == m.typ
  {
    var h, a, b := Header(m), Bytes32(Length(m)), Bytes16(m.typ);
    SliceCells(d, p, h);
    assert forall i :: 0 <= i < 4 ==> h[i] == a[i];
    assert h[4] == b[0] && h[5] == b[1];
    assert d[p + 0] == a[0] && d[p + 1] == a[1] && d[p + 2] == a[2] && d[p + 3] == a[3];
    assert d[p + 4] == b[0] && d[p + 5] == b[1];
  }

  lemma PayloadIndex(m: Message, d: seq<u8>, p: nat)
    requires 8 <= |m.payload| && At(d, p + NLMSG_HDRLEN, m.payload)
    ensures Le32(d, p + 20) == Le32(m.payload, 4)
  {
    var q := p + NLMSG_HDRLEN;
    SliceCells(d, q, m.payload);
    assert d[q + 4] == m.payload[4] && d[q + 5] == m.payload[5];
    assert d[q + 6] == m.payload[6] && d[q + 7] == m.payload[7];
  }

  lemma MessageParts(d: seq<u8>, p: nat, m: Message)
    requires WellFormed(m) && At(d, p, EncodeOne(m))
    ensures At(d, p, Header(m)) && At(d, p + NLMSG_HDRLEN, m.payload)
  {
    var h, z := Header(m), Zeros(Align4(Length(m)) - Length(m));
    assert [] + (h + m.payload) + z == EncodeOne(m);
    Stretches([], h, m.payload, z);
    AtInside(d, p, EncodeOne(m), 0, h);
    AtInside(d, p, EncodeOne(m), NLMSG_HDRLEN, m.payload);
  }

  /** Reading undoes encoding for every list of messages, bare trailing headers included: the loop
      sees exactly the deliverable events. */
  lemma {:induction false} EventsOfEncoding(d: seq<u8>, p: nat, ms: seq<Message>)
    requires forall k :: 0 <= k < |ms| ==> WellFormed(ms[k])
    requires p <= |d| && d[p..] == Encode(ms)
    ensures Events(d, p) == Delivered(ms)
    decreases |ms|
  {
    hide Accepted, Head, Encode, EncodeOne;
    if ms == [] {
      NoEvents(d, p);
    } else {
      FirstEncoded(d, p, ms);
      EventsOfEncoding(d, p + |EncodeOne(ms[0])|, ms[1..]);
      FirstEvent(d, p, ms[0]);
      EncodeEmptyOnlyForNone(ms[1..]);
    }
  }

  lemma NoEvents(d: seq<u8>, p: nat)
    requires |d| <= p + NLMSG_HDRLEN || Encode([]) == d[p..]
    ensures Events(d, p) == []
  {}

  lemma FirstEncoded(d: seq<u8>, p: nat, ms: seq<Message>)
    requires forall k :: 0 <= k < |ms| ==> WellFormed(ms[k])
    requires p <= |d| && ms != [] && d[p..] == Encode(ms)
    ensures At(d, p, EncodeOne(ms[0]))
    ensures d[p + |EncodeOne(ms[0])|..] == Encode(ms[1..])
  {
    var a, b := EncodeOne(ms[0]), Encode(ms[1..]);
    assert (a + b)[..|a|] == a && (a + b)[|a|..] == b;
    assert d[p..][..|a|] == d[p..p + |a|] && d[p..][|a|..] == d[p + |a|..];
  }

  lemma EncodeEmptyOnlyForNone(ms: seq<Message>)
    requires forall k :: 0 <= k < |ms| ==> WellFormed(ms[k])
    ensures Encode(ms) == [] <==> ms == []
  {}

  /** One encoded message at `p`: skipped as a trailing bare header, refused when too short, or read. */
  lemma FirstEvent(d: seq<u8>, p: nat, m: Message)
    requires WellFormed(m) && At(d, p, EncodeOne(m))
    ensures Accepted(d, p) <==> !ShortLink(m) && p + NLMSG_HDRLEN < |d|
    ensures Accepted(d, p) ==> Head(d, p) == MessageEvent(m) && Next(d, p) == p + |EncodeOne(m)|
  {
    MessageParts(d, p, m);
    HeaderCells(m, d, p);
    if !ShortLink(m) && IsLink(m.typ) {
      PayloadIndex(m, d, p);
    }
  }

  // ---------------------------------------------------------------- whole messages only

  /** A whole link message at `p`, on a message boundary. */
  predicate LinkAt(d: seq<u8>, p: nat) {
    && p % 4 == 0 && p + NLMSG_HDRLEN + IFINFOMSG_SIZE <= |d|
    && NLMSG_HDRLEN + IFINFOMSG_SIZE <= Le32(d, p) && p + Le32(d, p) <= |d|
    && IsLink(Le16(d, p + 4))
  }

  lemma EventsStep(d: seq<u8>, p: nat)
    ensures Events(d, p) == if Accepted(d, p) then Head(d, p) + Events(d, Next(d, p)) else []
  {}

  lemma NextIsFurther(d: seq<u8>, p: nat)
    requires Accepted(d, p) && p % 4 == 0
    ensures p + 4 <= |d| && p < Next(d, p) && Next(d, p) % 4 == 0
  {}

  lemma HeadIsLink(d: seq<u8>, p: nat)
    requires Accepted(d, p) && p % 4 == 0 && Head(d, p) != []
    ensures LinkAt(d, p) && Head(d, p) == [EventAt(d, p)]
  {
    hide EventAt;
  }

  /** Every event comes from a link message that lies wholly inside the datagram. */
  lemma {:induction false} EventInside(d: seq<u8>, p: nat, k: nat)
    requires k < |Events(d, p)| && p % 4 == 0
    ensures exists q :: p <= q && LinkAt(d, q) && EventAt(d, q) == Events(d, p)[k]
    decreases if p <= |d| then |d| - p else 0
  {
    hide Accepted, Head, Next, LinkAt, EventAt, Events;
    EventsStep(d, p);
    NextIsFurther(d, p);
    if k < |Head(d, p)| {
      HeadIsLink(d, p);
      assert Events(d, p)[k] == Head(d, p)[k];
    } else {
      EventInside(d, Next(d, p), k - |Head(d, p)|);
    }
  }
}
