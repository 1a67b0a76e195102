/** The SMBIOS structure table as bytes (DSP0134 sections 6.1.2 and 6.1.3): an encoder from abstract
    records, the byte tables that the cursor of common/smbios.c walks without leaving them, and which of
    these are encodings. */
module SmbiosFormat {
  import opened Bytes
  import opened Delimited
  import opened Wrappers

  const HEADER_SIZE := 4

  /** One structure: its formatted portion (header and fields, whose second byte is its own
      length) and the text behind it, up to but not including the closing pair of NULs. */
  datatype Record = Record(formatted: seq<u8>, text: seq<u8>)

  predicate NulPair(t: seq<u8>, i: nat)
    requires i + 1 < |t|
  {
    t[i] == 0 && t[i + 1] == 0
  }

  /** No two NULs stand side by side, not even across the first closing NUL. */
  predicate WellFormedText(text: seq<u8>) {
    forall i :: 0 <= i < |text| ==> !NulPair(text + [0], i)
  }

  predicate WellFormed(r: Record) {
    && HEADER_SIZE <= |r.formatted| < TWO_8
    && r.formatted[1] == |r.formatted|
    && WellFormedText(r.text)
  }

  predicate AllWellFormed(rs: seq<Record>) {
    forall k :: 0 <= k < |rs| ==> WellFormed(rs[k])
  }

  /** byType, the first header byte. */
  function Typ(r: Record): u8
    requires WellFormed(r)
  {
    r.formatted[0]
  }

  /** wHandle, the last two header bytes. */
  function Handle(r: Record): u16
    requires WellFormed(r)
  {
    Le16(r.formatted, 2)
  }

  /** The header: type, length, and the handle with its low byte first. */
  lemma HeaderMeans(r: Record)
    requires WellFormed(r)
    ensures |r.formatted| >= 4
    ensures r.formatted[..4] == [Typ(r), |r.formatted|, Handle(r) % 256, Handle(r) / 256]
  {}

  function EncodeOne(r: Record): seq<u8> {
    r.formatted + (r.text + [0, 0])
  }

  function Encode(rs: seq<Record>): seq<u8> {
    if rs == [] then [] else EncodeOne(rs[0]) + Encode(rs[1..])
  }

  /** Where record `k` starts. */
  function Offset(rs: seq<Record>, k: nat): nat
    requires k <= |rs|
  {
    |Encode(rs[..k])|
  }

  lemma {:induction false} EncodeConcat(a: seq<Record>, b: seq<Record>)
    ensures Encode(a + b) == Encode(a) + Encode(b)
  {
    if a == [] {
      assert a + b == b;
    } else {
      assert (a + b)[1..] == a[1..] + b;
      EncodeConcat(a[1..], b);
    }
  }

  lemma EncodeCons(r: Record, rest: seq<Record>)
    ensures Encode([r] + rest) == EncodeOne(r) + Encode(rest)
  {
    assert ([r] + rest)[1..] == rest;
  }

  /** Record `k` occupies exactly the bytes between two consecutive offsets. */
  lemma RecordAt(rs: seq<Record>, k: nat)
    requires k < |rs|
    ensures Encode(rs) == Encode(rs[..k]) + EncodeOne(rs[k]) + Encode(rs[k + 1..])
    ensures Offset(rs, k + 1) == Offset(rs, k) + |EncodeOne(rs[k])| <= |Encode(rs)|
    ensures Offset(rs, |rs|) == |Encode(rs)|
  {
    hide EncodeOne, Encode;
    var one, rest := [rs[k]], rs[k + 1..];
    CutAround(rs, k);
    EncodeConcat(rs[..k] + one, rest);
    EncodeConcat(rs[..k], one);
    EncodeSingle(rs[k]);
  }

  lemma CutAround<T>(s: seq<T>, k: nat)
    requires k < |s|
    ensures s == s[..k] + [s[k]] + s[k + 1..] && s[..|s|] == s && s[..k + 1] == s[..k] + [s[k]]
  {}

  lemma EncodeSingle(r: Record)
    ensures Encode([r]) == EncodeOne(r)
  {
    assert [r][1..] == [];
  }

  /** The table holds the formatted portion of record `k` at its offset, and the text with its two
      closing NULs between it and the next record. */
  lemma FormattedAt(rs: seq<Record>, k: nat)
    requires k < |rs|
    ensures At(Encode(rs), Offset(rs, k), rs[k].formatted)
    ensures At(Encode(rs), Offset(rs, k) + |rs[k].formatted|, rs[k].text + [0, 0])
    ensures Offset(rs, k + 1) == Offset(rs, k) + |rs[k].formatted| + |rs[k].text| + 2
  {
    RecordAt(rs, k);
    OneRecordAt(Encode(rs), Encode(rs[..k]), rs[k], Encode(rs[k + 1..]));
  }

  lemma OneRecordAt(t: seq<u8>, pre: seq<u8>, r: Record, tail: seq<u8>)
    requires t == pre + EncodeOne(r) + tail
    ensures At(t, |pre|, r.formatted)
    ensures At(t, |pre| + |r.formatted|, r.text + [0, 0])
    ensures |pre| + |r.formatted| + |r.text| + 2 == |pre + EncodeOne(r)|
  {
    Stretches(pre, r.formatted, r.text + [0, 0], tail);
  }

  /** A record takes at least six bytes, so a table of 16-bit length holds at most 10922. */
  lemma {:induction false} RecordCount(rs: seq<Record>)
    requires AllWellFormed(rs)
    ensures 6 * |rs| <= |Encode(rs)|
    ensures |Encode(rs)| < TWO_16 ==> |rs| <= 10922
  {
    if rs != [] {
      RecordCount(rs[1..]);
    }
  }

  // ---------------------------------------------------------------- the text scan

  /** The first place at or after `p` where two NULs stand side by side. */
  function DoubleNul(t: seq<u8>, p: nat): (e: Option<nat>)
    ensures e.Some? ==> p <= e.value && e.value + 1 < |t| && NulPair(t, e.value)
    decreases |t| - p
  {
    if p + 1 >= |t| then None
    else if NulPair(t, p) then Some(p)
    else DoubleNul(t, p + 1)
  }

  lemma {:induction false} DoubleNulFirst(t: seq<u8>, p: nat, i: nat)
    requires p <= i && i + 1 < |t|
    requires DoubleNul(t, p).Some? ==> i < DoubleNul(t, p).value
    ensures !NulPair(t, i)
    decreases i - p
  {
    if p < i {
      DoubleNulFirst(t, p + 1, i);
    }
  }

  lemma {:induction false} DoubleNulUnique(t: seq<u8>, p: nat, e: nat)
    requires p <= e && e + 1 < |t| && NulPair(t, e)
    requires forall i :: p <= i < e ==> !NulPair(t, i)
    ensures DoubleNul(t, p) == Some(e)
    decreases e - p
  {
    if p < e {
      DoubleNulUnique(t, p + 1, e);
    }
  }

  /** The scan of a record's text stops at its closing pair of NULs, not before. */
  lemma ScanOfText(t: seq<u8>, q: nat, text: seq<u8>)
    requires WellFormedText(text) && At(t, q, text + [0, 0])
    ensures DoubleNul(t, q) == Some(q + |text|)
  {
    var area := text + [0, 0];
    SliceCells(t, q, area);
    assert t[q + |text|] == area[|text|] && t[q + (|text| + 1)] == area[|text| + 1];
    forall i | q <= i < q + |text|
      ensures !NulPair(t, i)
    {
      assert !NulPair(text + [0], i - q);
      assert t[q + (i - q)] == area[i - q] && t[q + (i - q + 1)] == area[i - q + 1];
    }
    DoubleNulUnique(t, q, q + |text|);
  }

  /** What the scan leaves behind it is well-formed text. */
  lemma ScannedText(t: seq<u8>, q: nat)
    requires DoubleNul(t, q).Some?
    ensures var e := DoubleNul(t, q).value;
            WellFormedText(t[q..e]) && t[q..e + 2] == t[q..e] + [0, 0]
  {
    var e := DoubleNul(t, q).value;
    var text := t[q..e];
    forall i | 0 <= i < |text|
      ensures !NulPair(text + [0], i)
    {
      DoubleNulFirst(t, q, q + i);
      assert (text + [0])[i] == t[q + i] && (text + [0])[i + 1] == t[q + i + 1];
    }
  }

  // ---------------------------------------------------------------- tables the cursor stays in

  /** From `p` the cursor reaches the end of `t` exactly and reads only inside it: the length byte of
      each structure, then the text up to a pair of NULs.  It does not mind a length below four. */
  ghost predicate Stays(t: seq<u8>, p: nat)
    decreases |t| - p
  {
    p == |t| ||
    (&& p + 1 < |t|
     && DoubleNul(t, p + t[p + 1]).Some?
     && Stays(t, DoubleNul(t, p + t[p + 1]).value + 2))
  }

  /** The offsets the cursor visits, read off the bytes alone. */
  ghost function Walk(t: seq<u8>, p: nat): seq<nat>
    requires p <= |t| && Stays(t, p)
    decreases |t| - p
  {
    if p == |t| then [] else [p] + Walk(t, DoubleNul(t, p + t[p + 1]).value + 2)
  }

  /** One step of the cursor from place `k` of the walk. */
  lemma {:induction false} WalkNext(t: seq<u8>, p: nat, k: nat)
    requires p <= |t| && Stays(t, p) && k < |Walk(t, p)|
    ensures var q := Walk(t, p)[k];
            && p <= q && q + 1 < |t| && DoubleNul(t, q + t[q + 1]).Some?
            && var next := DoubleNul(t, q + t[q + 1]).value + 2;
               && q < next <= |t|
               && (k + 1 < |Walk(t, p)| <==> next < |t|)
               && (k + 1 < |Walk(t, p)| ==> Walk(t, p)[k + 1] == next)
    decreases |t| - p
  {
    hide DoubleNul;
    var next := DoubleNul(t, p + t[p + 1]).value + 2;
    if k > 0 {
      WalkNext(t, next, k - 1);
    } else {
      WalkStarts(t, next);
    }
  }

  lemma WalkStarts(t: seq<u8>, p: nat)
    requires p <= |t| && Stays(t, p)
    ensures |Walk(t, p)| > 0 <==> p < |t|
    ensures |Walk(t, p)| > 0 ==> Walk(t, p)[0] == p
  {}

  // ---------------------------------------------------------------- walkable byte tables

  /** The cursor stays in the table from `p` on, and every structure is at least as long as its header. */
  ghost predicate Walkable(t: seq<u8>, p: nat)
    decreases |t| - p
  {
    p == |t| ||
    (&& p + HEADER_SIZE <= |t|
     && HEADER_SIZE <= t[p + 1]
     && DoubleNul(t, p + t[p + 1]).Some?
     && Walkable(t, DoubleNul(t, p + t[p + 1]).value + 2))
  }

  /** Reads the records of a walkable table. */
  ghost function Decode(t: seq<u8>, p: nat): seq<Record>
    requires p <= |t| && Walkable(t, p)
    decreases |t| - p
  {
    if p == |t| then [] else
      var q := p + t[p + 1];
      var e := DoubleNul(t, q).value;
      [Record(t[p..q], t[q..e])] + Decode(t, e + 2)
  }

  /** Every walkable byte table is an encoding. */
  lemma {:induction false} EncodeUndoesDecode(t: seq<u8>, p: nat)
    requires p <= |t| && Walkable(t, p)
    ensures AllWellFormed(Decode(t, p)) && Encode(Decode(t, p)) == t[p..]
    decreases |t| - p
  {
    if p < |t| {
      hide DoubleNul, Walkable, Decode, Encode, EncodeOne, WellFormed;
      var r, next := ReadOne(t, p);
      EncodeUndoesDecode(t, next);
      EncodeStep(t, p, next, r, Decode(t, next));
    }
  }

  /** The first record of a walkable table, and where the rest starts. */
  lemma ReadOne(t: seq<u8>, p: nat) returns (r: Record, next: nat)
    requires p < |t| && Walkable(t, p)
    ensures p < next <= |t| && Walkable(t, next)
    ensures p + 1 < |t| && DoubleNul(t, p + t[p + 1]) == Some(next - 2)
    ensures Decode(t, p) == [r] + Decode(t, next)
    ensures WellFormed(r) && EncodeOne(r) == t[p..next]
  {
    hide DoubleNul;
    var q := p + t[p + 1];
    var e := DoubleNul(t, q).value;
    ScannedText(t, q);
    SliceConcat(t, p, q, e + 2);
    r, next := Record(t[p..q], t[q..e]), e + 2;
  }

  lemma EncodeStep(t: seq<u8>, p: nat, next: nat, r: Record, rest: seq<Record>)
    requires p <= next <= |t| && EncodeOne(r) == t[p..next] && Encode(rest) == t[next..]
    ensures Encode([r] + rest) == t[p..]
  {
    hide EncodeOne;
    EncodeCons(r, rest);
    SliceConcat(t, p, next, |t|);
  }

  /** Every encoding is walkable and decodes to the records it was made from. */
  lemma {:induction false} DecodeUndoesEncode(t: seq<u8>, pre: seq<u8>, rs: seq<Record>)
    requires AllWellFormed(rs)
    requires t == pre + Encode(rs)
    ensures Walkable(t, |pre|) && Decode(t, |pre|) == rs
    decreases |rs|
  {
    hide WellFormed, Encode, EncodeOne, DoubleNul, Walkable, Decode, RecordReadAt;
    if rs == [] {
      DecodeNothing(t, pre);
    } else {
      var pre' := ReadFirst(t, pre, rs);
      DecodeUndoesEncode(t, pre', rs[1..]);
      DecodeStep(t, |pre|, rs);
    }
  }

  lemma DecodeNothing(t: seq<u8>, pre: seq<u8>)
    requires t == pre + Encode([])
    ensures Walkable(t, |pre|) && Decode(t, |pre|) == []
  {}

  /** The record read at `p` and those decoded behind it make up the decoding from `p`. */
  lemma DecodeStep(t: seq<u8>, p: nat, rs: seq<Record>)
    requires rs != []
    requires RecordReadAt(t, p, rs[0])
    requires var next := p + |rs[0].formatted| + |rs[0].text| + 2;
             Walkable(t, next) && Decode(t, next) == rs[1..]
    ensures Walkable(t, p) && Decode(t, p) == rs
  {
    hide DoubleNul;
    assert rs == [rs[0]] + rs[1..];
  }

  lemma ReadFirst(t: seq<u8>, pre: seq<u8>, rs: seq<Record>) returns (pre': seq<u8>)
    requires rs != [] && WellFormed(rs[0])
    requires t == pre + Encode(rs)
    ensures RecordReadAt(t, |pre|, rs[0])
    ensures t == pre' + Encode(rs[1..])
    ensures |pre'| == |pre| + |rs[0].formatted| + |rs[0].text| + 2
  {
    var r, tail := rs[0], Encode(rs[1..]);
    assert t == pre + EncodeOne(r) + tail;
    OneRecordAt(t, pre, r, tail);
    ReadRecord(t, |pre|, r);
    pre' := pre + EncodeOne(r);
  }

  /** What one step of the decoder sees at `p`. */
  ghost predicate RecordReadAt(t: seq<u8>, p: nat, r: Record) {
    var q := p + |r.formatted|;
    var e := q + |r.text|;
    && HEADER_SIZE <= |r.formatted| && e + 2 <= |t|
    && t[p + 1] == |r.formatted|
    && DoubleNul(t, q) == Some(e)
    && Record(t[p..q], t[q..e]) == r
  }

  lemma ReadRecord(t: seq<u8>, p: nat, r: Record)
    requires WellFormed(r)
    requires At(t, p, r.formatted) && At(t, p + |r.formatted|, r.text + [0, 0])
    ensures RecordReadAt(t, p, r)
  {
    hide DoubleNul, WellFormedText;
    SliceCells(t, p, r.formatted);
    assert t[p + 1] == r.formatted[1];
    ScanOfText(t, p + |r.formatted|, r.text);
    assert At(r.text + [0, 0], 0, r.text);
    AtInside(t, p + |r.formatted|, r.text + [0, 0], 0, r.text);
  }

  /** A header that covers itself is all that separates the tables the cursor stays in from those that
      are encodings. */
  lemma {:induction false} WalkableIffLongHeaders(t: seq<u8>, p: nat)
    requires p <= |t|
    ensures Walkable(t, p) ==> Stays(t, p)
    ensures Stays(t, p) ==>
              (Walkable(t, p) <==> AllLong(t, Walk(t, p)))
    decreases |t| - p
  {
    hide DoubleNul, AllLong;
    NoneLong(t);
    if p + 1 < |t| && DoubleNul(t, p + t[p + 1]).Some? {
      var next := DoubleNul(t, p + t[p + 1]).value + 2;
      WalkableIffLongHeaders(t, next);
      if Stays(t, p) {
        LongHeadersCons(t, p, Walk(t, next));
      }
    }
  }

  predicate LongHeader(t: seq<u8>, q: nat) {
    q + 1 < |t| && t[q + 1] >= HEADER_SIZE
  }

  predicate AllLong(t: seq<u8>, ps: seq<nat>) {
    forall k :: 0 <= k < |ps| ==> LongHeader(t, ps[k])
  }

  lemma NoneLong(t: seq<u8>)
    ensures AllLong(t, [])
  {}

  lemma LongHeadersCons(t: seq<u8>, p: nat, ps: seq<nat>)
    ensures AllLong(t, [p] + ps) <==> LongHeader(t, p) && AllLong(t, ps)
  {
    hide LongHeader;
    var l := [p] + ps;
    if forall k :: 0 <= k < |l| ==> LongHeader(t, l[k]) {
      assert l[0] == p;
      forall k | 0 <= k < |ps|
        ensures LongHeader(t, ps[k])
      {
        assert l[k + 1] == ps[k];
      }
    }
  }

  /** The cursor walks a four-byte table whose one structure states two bytes, and the table is no
      encoding. */
  lemma ShortHeaderStays()
    ensures Stays([1, 2, 0, 0], 0) && Walk([1, 2, 0, 0], 0) == [0] && !Walkable([1, 2, 0, 0], 0)
  {
    var t: seq<u8> := [1, 2, 0, 0];
    assert NulPair(t, 2);
    assert DoubleNul(t, 2) == Some(2);
  }

  /** Walking undoes encoding: each record's start is visited once, in order, and nothing else. */
  lemma WalkVisitsRecords(rs: seq<Record>)
    requires AllWellFormed(rs)
    ensures Walkable(Encode(rs), 0) && Stays(Encode(rs), 0)
    ensures |Walk(Encode(rs), 0)| == |rs|
    ensures forall k :: 0 <= k < |rs| ==> Walk(Encode(rs), 0)[k] == Offset(rs, k)
  {
    assert Encode(rs) == [] + Encode(rs);
    DecodeUndoesEncode(Encode(rs), [], rs);
    WalkOfDecoding(Encode(rs), 0);
  }

  lemma {:induction false} WalkOfDecoding(t: seq<u8>, p: nat)
    requires p <= |t| && Walkable(t, p)
    ensures Stays(t, p)
    ensures |Walk(t, p)| == |Decode(t, p)|
    ensures forall k :: 0 <= k < |Decode(t, p)| ==> Walk(t, p)[k] == p + Offset(Decode(t, p), k)
    decreases |t| - p
  {
    if p == |t| {
      EndOfWalk(t);
    } else {
      hide DoubleNul, Encode, EncodeOne, WellFormed, Walk, Stays, Decode, Walkable;
      var r, next := ReadOne(t, p);
      WalkOfDecoding(t, next);
      WalkStep(t, p, next);
      forall k | 0 <= k < |Decode(t, p)|
        ensures Walk(t, p)[k] == p + Offset(Decode(t, p), k)
      {
        OffsetStep(r, Decode(t, next), k);
      }
    }
  }

  lemma EndOfWalk(t: seq<u8>)
    ensures Walkable(t, |t|) && Stays(t, |t|) && Walk(t, |t|) == [] && Decode(t, |t|) == []
  {}

  lemma WalkStep(t: seq<u8>, p: nat, next: nat)
    requires p + 1 < |t| && p < next <= |t| && Stays(t, next)
    requires DoubleNul(t, p + t[p + 1]) == Some(next - 2)
    ensures Stays(t, p)
    ensures Walk(t, p) == [p] + Walk(t, next)
  {}

  lemma OffsetStep(r: Record, rest: seq<Record>, k: nat)
    requires k <= |rest| + 1
    ensures Offset([r] + rest, k) == if k == 0 then 0 else |EncodeOne(r)| + Offset(rest, k - 1)
  {
    if k > 0 {
      assert ([r] + rest)[..k] == [r] + rest[..k - 1];
      EncodeCons(r, rest[..k - 1]);
    }
  }

  /** The encodings of well-formed records are exactly the tables that the cursor stays in and whose
      structures all state at least the length of their header. */
  lemma WalkableIffEncoding(t: seq<u8>)
    ensures Walkable(t, 0) <==> exists rs :: AllWellFormed(rs) && Encode(rs) == t
    ensures Walkable(t, 0) <==> Stays(t, 0) && AllLong(t, Walk(t, 0))
  {
    WalkableIffLongHeaders(t, 0);
    if Walkable(t, 0) {
      EncodeUndoesDecode(t, 0);
      var rs := Decode(t, 0);
      assert AllWellFormed(rs) && Encode(rs) == t;
    }
    if rs :| AllWellFormed(rs) && Encode(rs) == t {
      assert [] + Encode(rs) == t;
      DecodeUndoesEncode(t, [], rs);
    }
  }

  // ---------------------------------------------------------------- the strings in a text

  /** A list of strings as the format lays it out.  Only the first of two or more may be empty:
      any other empty string would close the set early. */
  predicate WellFormedStrings(ss: seq<seq<u8>>) {
    && (forall k :: 0 <= k < |ss| ==> Free(ss[k], 0))
    && (forall k :: 1 <= k < |ss| ==> ss[k] != [])
    && (|ss| == 1 ==> ss[0] != [])
  }

  function Text(ss: seq<seq<u8>>): seq<u8> {
    if ss == [] then [] else Join(ss, 0)
  }

  function Strings(text: seq<u8>): seq<seq<u8>> {
    if text == [] then [] else Split(text, 0)
  }

  /** Between the strings no two NULs are neighbours. */
  lemma {:induction false} TerminatedHasNoPair(ss: seq<seq<u8>>)
    requires forall k :: 0 <= k < |ss| ==> Free(ss[k], 0)
    requires forall k :: 1 <= k < |ss| ==> ss[k] != []
    ensures forall i :: 0 <= i && i + 1 < |Terminated(ss, 0)| ==> !NulPair(Terminated(ss, 0), i)
  {
    if ss != [] {
      TerminatedHasNoPair(ss[1..]);
      var t, rest, n := Terminated(ss, 0), Terminated(ss[1..], 0), |ss[0]|;
      assert t == ss[0] + [0] + rest;
      if |ss| > 1 {
        assert rest[0] == ss[1][0];
      }
      forall i | 0 <= i && i + 1 < |t|
        ensures !NulPair(t, i)
      {
        if i < n {
          assert t[i] == ss[0][i];
        } else if i == n {
          assert t[i + 1] == rest[0];
        } else {
          assert !NulPair(rest, i - n - 1);
        }
      }
    }
  }

  lemma TextIsWellFormed(ss: seq<seq<u8>>)
    requires WellFormedStrings(ss)
    ensures WellFormedText(Text(ss))
    ensures Strings(Text(ss)) == ss
  {
    if ss != [] {
      JoinTerminated(ss, 0);
      TerminatedHasNoPair(ss);
      SplitJoin(ss, 0);
      if |ss| > 1 {
        assert Join(ss, 0) == ss[0] + [0] + Join(ss[1..], 0);
      }
    }
  }

  /** Every well-formed text is the layout of exactly one list of strings. */
  lemma StringsOfText(text: seq<u8>)
    requires WellFormedText(text)
    ensures WellFormedStrings(Strings(text))
    ensures Text(Strings(text)) == text
  {
    if text != [] {
      var ss := Split(text, 0);
      JoinSplit(text, 0);
      JoinTerminated(ss, 0);
      forall k | 1 <= k < |ss|
        ensures ss[k] != []
      {
        PartAt(ss, 0, k - 1);
        PartAt(ss, 0, k);
        var i := Start(ss, k) - 1;
        assert (text + [0])[i] == 0;
        assert (text + [0])[i + 1 + |ss[k]|] == 0;
        assert !NulPair(text + [0], i);
      }
    }
  }
}
