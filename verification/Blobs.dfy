/** recorder/package.c and recorder/driver.c: a flags word and five or six C strings packed behind each
    other in a buffer measured beforehand, and the pass that sends one such blob for every package. */
module Blobs {
  import opened Bytes
  import opened Delimited
  import opened Wrappers
  import P = RecorderProtocol
  import Recorder

  const MAX_BLOB := 962
  const FLAGS_SIZE := 2
  const FIRST := 0x0001
  const LAST := 0x0002
  const INSTALL := 0x0004

  /** What a `char *` that is not NULL points at, without its terminator. */
  type Text = s: seq<u8> | Free(s, 0)

  datatype Package = Package(vendor: Option<Text>, sname: Option<Text>, version: Option<Text>,
                             timestamp: Option<Text>, name: Option<Text>)

  datatype Driver = Driver(name: Text, filename: Text, version: Text, timestamp: Text, pciDevices: Text)

  function TextOf(f: Option<Text>): Text {
    if f.None? then [] else f.value
  }

  function PackageFields(p: Package): (fs: seq<Text>)
    ensures |fs| == 5
  {
    [TextOf(p.vendor), TextOf(p.sname), TextOf(p.version), TextOf(p.timestamp), TextOf(p.name)]
  }

  /** A driver has no vendor; its place is kept by an empty string. */
  function DriverFields(d: Driver): (fs: seq<Text>)
    ensures |fs| == 6
  {
    [d.name, d.filename, d.version, d.timestamp, [], d.pciDevices]
  }

  /** The record the recorder is meant to receive. */
  function BlobOf(flags: u16, fields: seq<seq<u8>>): seq<u8> {
    Bytes16(flags) + Terminated(fields, 0)
  }

  /** A receiver that takes two bytes of flags and splits the rest at NULs gets back the flags and the
      fields, and nothing after them. */
  lemma ReadingUndoesPacking(flags: u16, fields: seq<Text>)
    ensures var b := BlobOf(flags, fields);
            && |b| >= FLAGS_SIZE && Le16(b, 0) == flags
            && Split(b[FLAGS_SIZE..], 0) == fields + [[]]
  {
    var b := BlobOf(flags, fields);
    assert b[FLAGS_SIZE..] == Terminated(fields, 0);
    forall k | 0 <= k < |fields|
      ensures Free(fields[k], 0)
    {
      var t: Text := fields[k];
    }
    SplitTerminated(fields, 0);
    assert b[0] == Bytes16(flags)[0] && b[1] == Bytes16(flags)[1];
  }

  /** Two packages give the same blob exactly when flags and texts agree: only NULL and the empty string
      are told apart in memory but not in the record. */
  lemma SameBlobSameFields(f: u16, p: Package, g: u16, q: Package)
    ensures BlobOf(f, PackageFields(p)) == BlobOf(g, PackageFields(q))
            <==> f == g && PackageFields(p) == PackageFields(q)
  {
    ReadingUndoesPacking(f, PackageFields(p));
    ReadingUndoesPacking(g, PackageFields(q));
    if BlobOf(f, PackageFields(p)) == BlobOf(g, PackageFields(q)) {
      SameFront(PackageFields(p), PackageFields(q), [[]]);
    }
  }

  /** A package record, split behind its flags, gives the texts of the package in this order, a missing one
      empty, and nothing after them. */
  lemma PackageReads(flags: u16, p: Package)
    ensures var fs := Split(BlobOf(flags, PackageFields(p))[FLAGS_SIZE..], 0);
            && |fs| == 6
            && fs[0] == (if p.vendor.Some? then p.vendor.value else [])
            && fs[1] == (if p.sname.Some? then p.sname.value else [])
            && fs[2] == (if p.version.Some? then p.version.value else [])
            && fs[3] == (if p.timestamp.Some? then p.timestamp.value else [])
            && fs[4] == (if p.name.Some? then p.name.value else [])
            && fs[5] == []
  {
    ReadingUndoesPacking(flags, PackageFields(p));
  }

  /** A driver record the same way: name, file name, version, timestamp, the empty vendor, PCI devices. */
  lemma DriverReads(flags: u16, d: Driver)
    ensures var fs := Split(BlobOf(flags, DriverFields(d))[FLAGS_SIZE..], 0);
            && |fs| == 7
            && fs[0] == d.name && fs[1] == d.filename && fs[2] == d.version && fs[3] == d.timestamp
            && fs[4] == [] && fs[5] == d.pciDevices && fs[6] == []
  {
    ReadingUndoesPacking(flags, DriverFields(d));
  }

  lemma SameFront<T>(a: seq<T>, b: seq<T>, c: seq<T>)
    requires a + c == b + c
    ensures a == b
  {
    assert (a + c)[..|a|] == a && (b + c)[..|b|] == b;
    assert |a + c| == |b + c|;
  }

  // ---------------------------------------------------------------- sizing

  /** The size computed before the buffer is allocated: the string lengths, NULL counting nothing, and
      one terminator for every field. */
  function PackageSize(p: Package): nat {
    FLAGS_SIZE + 5
    + (if p.vendor.Some? then |p.vendor.value| else 0)
    + (if p.sname.Some? then |p.sname.value| else 0)
    + (if p.version.Some? then |p.version.value| else 0)
    + (if p.name.Some? then |p.name.value| else 0)
    + (if p.timestamp.Some? then |p.timestamp.value| else 0)
  }

  function DriverSize(d: Driver): nat {
    FLAGS_SIZE + (|d.name| + |d.filename| + |d.version| + |d.timestamp| + |d.pciDevices| + 6)
  }

  /** The computed sizes are exactly the sizes of the records. */
  lemma SizesExact(flags: u16, p: Package, d: Driver)
    ensures |BlobOf(flags, PackageFields(p))| == PackageSize(p)
    ensures |BlobOf(flags, DriverFields(d))| == DriverSize(d)
  {
    TotalLength(PackageFields(p), 0);
    FiveStarts(PackageFields(p));
    TotalLength(DriverFields(d), 0);
    FiveStarts(DriverFields(d));
  }

  lemma FiveStarts(f: seq<seq<u8>>)
    requires |f| >= 5
    ensures Start(f, 5) == |f[0]| + |f[1]| + |f[2]| + |f[3]| + |f[4]| + 5
  {
    assert Start(f, 1) == |f[0]| + 1;
    assert Start(f, 3) == Start(f, 1) + |f[1]| + 1 + |f[2]| + 1;
  }

  // ---------------------------------------------------------------- packing

  /** The first `k` fields are in place behind `header` and everything after them is still zero. */
  ghost predicate Packed(b: seq<u8>, header: seq<u8>, fields: seq<seq<u8>>, k: nat)
    requires k <= |fields|
  {
    var done := header + Terminated(fields[..k], 0);
    |done| <= |b| && b == done + Zeros(|b| - |done|)
  }

  lemma NothingPacked(b: seq<u8>, header: seq<u8>, fields: seq<seq<u8>>)
    requires |header| <= |b| && b == header + Zeros(|b| - |header|)
    ensures Packed(b, header, fields, 0)
  {
    assert fields[..0] == [];
    assert header + Terminated([], 0) == header;
  }

  lemma AllPacked(b: seq<u8>, header: seq<u8>, fields: seq<seq<u8>>)
    requires Packed(b, header, fields, |fields|)
    requires |b| == |header| + |Terminated(fields, 0)|
    ensures b == header + Terminated(fields, 0)
  {
    assert fields[..|fields|] == fields;
  }

  /** Writing field `k` and its terminator over the zeros behind the first `k` fields. */
  lemma PackOne(b: seq<u8>, c: seq<u8>, header: seq<u8>, fields: seq<seq<u8>>, k: nat, end: nat)
    requires k < |fields| && Packed(b, header, fields, k)
    requires end == |header| + Start(fields, k) && end + |fields[k]| < |b|
    requires c == b[..end] + fields[k] + b[end + |fields[k]|..]
    ensures |c| == |b| && Packed(c, header, fields, k + 1)
    ensures Start(fields, k + 1) == Start(fields, k) + |fields[k]| + 1
  {
    PartAt(fields, 0, k);
    assert fields[..k + 1] == fields[..k] + [fields[k]];
    TerminatedConcat(fields[..k], [fields[k]], 0);
    TerminatedOne(fields[k], 0);
    FillZeros(b, c, header + Terminated(fields[..k], 0), fields[k]);
    Regrouped(header, Terminated(fields[..k], 0), fields[k]);
  }

  lemma Regrouped(h: seq<u8>, t: seq<u8>, f: seq<u8>)
    ensures h + (t + (f + [0])) == (h + t) + f + [0]
  {}

  lemma FillZeros(b: seq<u8>, c: seq<u8>, done: seq<u8>, f: seq<u8>)
    requires |done| + |f| < |b| && b == done + Zeros(|b| - |done|)
    requires c == b[..|done|] + f + b[|done| + |f|..]
    ensures |c| == |b| && c == (done + f + [0]) + Zeros(|b| - |done| - |f| - 1)
  {}

  lemma FourParts(b: seq<u8>, m: nat, n: nat)
    requires m <= n < |b|
    ensures b == b[..m] + b[m..n] + [b[n]] + b[n + 1..]
  {}

  /** strcpy: the characters and the terminator. */
  method StrCpy(blob: array<u8>, end: nat, s: Text)
    requires end + |s| < blob.Length
    modifies blob
    ensures blob[..] == old(blob[..end]) + s + [0] + old(blob[end + |s| + 1..])
  {
    var i := 0;
    while i < |s|
      invariant 0 <= i <= |s|
      invariant forall q :: 0 <= q < end || end + i <= q < blob.Length ==> blob[q] == old(blob[q])
      invariant forall q :: 0 <= q < i ==> blob[end + q] == s[q]
    {
      blob[end + i] := s[i];
      i := i + 1;
    }
    blob[end + i] := 0;
    assert blob[..end] == old(blob[..end]);
    assert blob[end + i + 1..] == old(blob[end + i + 1..]);
    assert blob[end..end + i] == s;
    FourParts(blob[..], end, end + i);
  }

  /** One field of a blob: copied when there is one, else a place left for its terminator; the next
      field's place comes back. */
  method PutField(blob: array<u8>, end: nat, f: Option<Text>,
                  ghost header: seq<u8>, ghost fields: seq<seq<u8>>, ghost k: nat)
    returns (next: nat)
    requires k < |fields| && Packed(blob[..], header, fields, k) && fields[k] == TextOf(f)
    requires end == |header| + Start(fields, k) && end + |fields[k]| < blob.Length
    modifies blob
    ensures Packed(blob[..], header, fields, k + 1)
    ensures next == |header| + Start(fields, k + 1)
  {
    hide Packed, Start;
    ghost var before := blob[..];
    if f.Some? {
      StrCpy(blob, end, f.value);
      next := end + |f.value| + 1;
      KeepsZero(before, header, fields, k, end);
      ThreeParts(before, blob[..], end, f.value);
    } else {
      next := end + 1;
      assert before == before[..end] + [] + before[end..];
    }
    PackOne(before, blob[..], header, fields, k, end);
  }

  lemma ThreeParts(b: seq<u8>, c: seq<u8>, end: nat, f: seq<u8>)
    requires end + |f| < |b|
    requires [0] + b[end + |f| + 1..] == b[end + |f|..]
    requires c == b[..end] + f + [0] + b[end + |f| + 1..]
    ensures c == b[..end] + f + b[end + |f|..]
  {
    assert c == b[..end] + f + ([0] + b[end + |f| + 1..]);
  }

  /** The byte behind the copied characters was zero already. */
  lemma KeepsZero(b: seq<u8>, header: seq<u8>, fields: seq<seq<u8>>, k: nat, end: nat)
    requires k < |fields| && Packed(b, header, fields, k)
    requires end == |header| + Start(fields, k) && end + |fields[k]| < |b|
    ensures [0] + b[end + |fields[k]| + 1..] == b[end + |fields[k]|..]
  {
    PartAt(fields, 0, k);
  }

  /** The body of the package loop between the allocation and the send. */
  method PackPackage(p: Package, flags: u16) returns (blob: array<u8>)
    ensures fresh(blob) && blob[..] == BlobOf(flags, PackageFields(p))
  {
    hide Packed, Start, Terminated;
    ghost var fields := PackageFields(p);
    ghost var header := Bytes16(flags);
    blob := new u8[PackageSize(p)](_ => 0);
    blob[0], blob[1] := flags % 0x100, flags / 0x100;
    Room(flags, fields);
    SizesExact(flags, p, Driver([], [], [], [], []));
    NothingPacked(blob[..], header, fields);
    var end := FLAGS_SIZE;
    end := PutField(blob, end, p.vendor, header, fields, 0);
    end := PutField(blob, end, p.sname, header, fields, 1);
    end := PutField(blob, end, p.version, header, fields, 2);
    end := PutField(blob, end, p.timestamp, header, fields, 3);
    end := PutField(blob, end, p.name, header, fields, 4);
    AllPacked(blob[..], header, fields);
  }

  /** Every field ends inside the blob. */
  lemma Room(flags: u16, fields: seq<seq<u8>>)
    ensures fields != [] ==> Start(fields, 0) == 0
    ensures forall k :: 0 <= k < |fields| ==>
              FLAGS_SIZE + Start(fields, k) + |fields[k]| < |BlobOf(flags, fields)|
  {
    forall k | 0 <= k < |fields|
      ensures FLAGS_SIZE + Start(fields, k) + |fields[k]| < |BlobOf(flags, fields)|
    {
      PartAt(fields, 0, k);
    }
  }

  /** The packing half of LOG_DRIVER: the place of the vendor is stepped over, and the flags are stored
      last. */
  method PackDriver(d: Driver, flags: u16) returns (blob: array<u8>)
    ensures fresh(blob) && blob[..] == BlobOf(flags, DriverFields(d))
  {
    hide Packed, Start, Terminated;
    ghost var fields := DriverFields(d);
    ghost var header: seq<u8> := [0, 0];
    blob := new u8[DriverSize(d)](_ => 0);
    Room(flags, fields);
    SizesExact(flags, Package(None, None, None, None, None), d);
    NothingPacked(blob[..], header, fields);
    var end := FLAGS_SIZE;
    end := PutField(blob, end, Some(d.name), header, fields, 0);
    end := PutField(blob, end, Some(d.filename), header, fields, 1);
    end := PutField(blob, end, Some(d.version), header, fields, 2);
    end := PutField(blob, end, Some(d.timestamp), header, fields, 3);
    end := PutField(blob, end, None, header, fields, 4);
    end := PutField(blob, end, Some(d.pciDevices), header, fields, 5);
    AllPacked(blob[..], header, fields);
    blob[0], blob[1] := flags % 0x100, flags / 0x100;
    assert blob[..] == blob[..2] + blob[2..];
  }

  // ---------------------------------------------------------------- sending

  /** The messages for some blobs. */
  function Sends(blobs: seq<seq<u8>>, io: nat -> P.Io): seq<P.Op> {
    seq(|blobs|, k requires 0 <= k < |blobs| => P.LogData(P.REC_API6, |blobs[k]|, io(k)))
  }

  /** Message `k` is a plain data message with the bytes of record `k`. */
  lemma SendsMean(blobs: seq<seq<u8>>, io: nat -> P.Io, k: nat)
    requires k < |blobs|
    ensures |Sends(blobs, io)| == |blobs| && Sends(blobs, io)[k] == P.LogData(6, |blobs[k]|, io(k))
  {}

  lemma SendOneMore(s: P.State, blobs: seq<seq<u8>>, b: seq<u8>, io: nat -> P.Io)
    ensures P.Run(s, Sends(blobs + [b], io))
            == P.Step(P.Run(s, Sends(blobs, io)), P.LogData(P.REC_API6, |b|, io(|blobs|)))
  {
    assert Sends(blobs + [b], io) == Sends(blobs, io) + [P.LogData(P.REC_API6, |b|, io(|blobs|))];
    P.RunSnoc(s, Sends(blobs, io), P.LogData(P.REC_API6, |b|, io(|blobs|)));
  }

  /** LOG_DRIVER: nothing is sent for a module without a driver, a record over the limit, or without
      memory. */
  method LogDriver(session: Recorder.Session, d: Option<Driver>, flags: u16, mallocOk: bool, io: P.Io)
    returns (sent: seq<seq<u8>>)
    modifies session
    ensures sent == (if d.Some? && DriverSize(d.value) <= MAX_BLOB && mallocOk
                     then [BlobOf(flags, DriverFields(d.value))] else [])
    ensures session.Now() == P.Run(old(session.Now()), Sends(sent, _ => io))
  {
    hide P.Step, BlobOf;
    if d.None? || DriverSize(d.value) > MAX_BLOB || !mallocOk {
      return [];
    }
    SizesExact(flags, Package(None, None, None, None, None), d.value);
    var blob := PackDriver(d.value, flags);
    var rc := session.RecApi6(P.REC_API6, blob.Length, io);
    SendOneMore(old(session.Now()), [], blob[..], _ => io);
    assert [] + [blob[..]] == [blob[..]];
    return [blob[..]];
  }

  /** The flags of item `j` of `n`; the three values share no bit, so setting one adds it. */
  function FlagsFor(j: nat, n: nat): u16
    requires j < n
  {
    INSTALL + (if j == 0 then FIRST else 0) + (if j == n - 1 then LAST else 0)
  }

  /** What a pass over the packages from `j` on sends: one too large ends it, one there is no memory for
      is passed over. */
  function PassFrom(ps: seq<Package>, mallocOk: nat -> bool, j: nat): seq<seq<u8>>
    requires j <= |ps|
    decreases |ps| - j
  {
    if j == |ps| || PackageSize(ps[j]) > MAX_BLOB then []
    else if !mallocOk(j) then PassFrom(ps, mallocOk, j + 1)
    else [BlobOf(FlagsFor(j, |ps|), PackageFields(ps[j]))] + PassFrom(ps, mallocOk, j + 1)
  }

  /** The package loop.  The result of a send is not looked at. */
  method SendPackages(session: Recorder.Session, ps: seq<Package>, mallocOk: nat -> bool, io: nat -> P.Io)
    returns (sent: seq<seq<u8>>)
    modifies session
    ensures sent == PassFrom(ps, mallocOk, 0)
    ensures session.Now() == P.Run(old(session.Now()), Sends(sent, io))
  {
    hide P.Step, BlobOf, PackageSize, PackageFields;
    sent := [];
    var j := 0;
    while j < |ps|
      invariant 0 <= j <= |ps|
      invariant PassFrom(ps, mallocOk, 0) == sent + PassFrom(ps, mallocOk, j)
      invariant session.Now() == P.Run(old(session.Now()), Sends(sent, io))
    {
      if PackageSize(ps[j]) > MAX_BLOB {
        return;
      }
      if mallocOk(j) {
        var flags := INSTALL;
        if j == 0 {
          flags := flags + FIRST;
        }
        if j == |ps| - 1 {
          flags := flags + LAST;
        }
        SizesExact(flags, ps[j], Driver([], [], [], [], []));
        var blob := PackPackage(ps[j], flags);
        var rc := session.RecApi6(P.REC_API6, blob.Length, io(|sent|));
        SendOneMore(old(session.Now()), sent, blob[..], io);
        assert sent + ([blob[..]] + PassFrom(ps, mallocOk, j + 1)) == sent + [blob[..]] + PassFrom(ps, mallocOk, j + 1);
        sent := sent + [blob[..]];
      }
      j := j + 1;
    }
  }

  predicate HasFlag(b: seq<u8>, flag: u16)
    requires |b| >= FLAGS_SIZE && flag > 0
  {
    Le16(b, 0) / flag % 2 == 1
  }

  predicate Marked(b: seq<u8>, flag: u16)
    requires flag > 0
  {
    |b| >= FLAGS_SIZE && HasFlag(b, flag)
  }

  lemma FlagsRead(j: nat, n: nat, fields: seq<Text>)
    requires j < n
    ensures var b := BlobOf(FlagsFor(j, n), fields);
            && |b| >= FLAGS_SIZE
            && HasFlag(b, INSTALL) && (HasFlag(b, FIRST) <==> j == 0) && (HasFlag(b, LAST) <==> j == n - 1)
  {
    ReadingUndoesPacking(FlagsFor(j, n), fields);
  }

  /** The item blob `k` of a pass came from. */
  function Item(ps: seq<Package>, mallocOk: nat -> bool, j: nat, k: nat): (i: nat)
    requires j <= |ps| && k < |PassFrom(ps, mallocOk, j)|
    ensures j + k <= i < |ps| && mallocOk(i) && PackageSize(ps[i]) <= MAX_BLOB
    ensures PassFrom(ps, mallocOk, j)[k] == BlobOf(FlagsFor(i, |ps|), PackageFields(ps[i]))
    decreases |ps| - j
  {
    if !mallocOk(j) then Item(ps, mallocOk, j + 1, k)
    else if k == 0 then j
    else Item(ps, mallocOk, j + 1, k - 1)
  }

  /** A blob marked First is sent only for item 0 and one marked Last only for item n - 1; each blob is
      within the limit and reads back as the fields of its item. */
  lemma MarksArePlaces(ps: seq<Package>, mallocOk: nat -> bool, k: nat)
    requires k < |PassFrom(ps, mallocOk, 0)|
    ensures var (b, i) := (PassFrom(ps, mallocOk, 0)[k], Item(ps, mallocOk, 0, k));
            && FLAGS_SIZE <= |b| <= 962
            && Le16(b, 0) == 4 + (if i == 0 then 1 else 0) + (if i == |ps| - 1 then 2 else 0)
            && b == BlobOf(Le16(b, 0), PackageFields(ps[i]))
            && Split(b[FLAGS_SIZE..], 0) == PackageFields(ps[i]) + [[]]
            && HasFlag(b, INSTALL) && (HasFlag(b, FIRST) <==> i == 0) && (HasFlag(b, LAST) <==> i == |ps| - 1)
  {
    var i := Item(ps, mallocOk, 0, k);
    FlagsRead(i, |ps|, PackageFields(ps[i]));
    ReadingUndoesPacking(FlagsFor(i, |ps|), PackageFields(ps[i]));
    SizesExact(FlagsFor(i, |ps|), ps[i], Driver([], [], [], [], []));
  }

  predicate AllFit(ps: seq<Package>) {
    forall i :: 0 <= i < |ps| ==> PackageSize(ps[i]) <= MAX_BLOB
  }

  /** A pass sends one blob for every package, in order, exactly when all fit and all get memory. */
  lemma {:induction false} PassComplete(ps: seq<Package>, mallocOk: nat -> bool, j: nat)
    requires j <= |ps|
    ensures |PassFrom(ps, mallocOk, j)| <= |ps| - j
    ensures |PassFrom(ps, mallocOk, j)| == |ps| - j
            <==> forall i :: j <= i < |ps| ==> mallocOk(i) && PackageSize(ps[i]) <= 962
    decreases |ps| - j
  {
    hide PackageSize;
    if j < |ps| && PackageSize(ps[j]) <= MAX_BLOB {
      PassComplete(ps, mallocOk, j + 1);
    }
  }

  /** A pass that reaches an item met no oversized one before it. */
  lemma {:induction false} ReachedAllFit(ps: seq<Package>, mallocOk: nat -> bool, j: nat, k: nat)
    requires j <= |ps| && k < |PassFrom(ps, mallocOk, j)|
    ensures forall i :: j <= i <= Item(ps, mallocOk, j, k) ==> PackageSize(ps[i]) <= MAX_BLOB
    decreases |ps| - j
  {
    hide PackageSize;
    if !mallocOk(j) {
      ReachedAllFit(ps, mallocOk, j + 1, k);
    } else if k > 0 {
      ReachedAllFit(ps, mallocOk, j + 1, k - 1);
    }
  }

  lemma {:induction false} LastReached(ps: seq<Package>, mallocOk: nat -> bool, j: nat)
    requires j < |ps| && mallocOk(|ps| - 1)
    requires forall i :: j <= i < |ps| ==> PackageSize(ps[i]) <= MAX_BLOB
    ensures var s := PassFrom(ps, mallocOk, j);
            s != [] && Item(ps, mallocOk, j, |s| - 1) == |ps| - 1
    decreases |ps| - j
  {
    hide PackageSize;
    if j + 1 < |ps| {
      LastReached(ps, mallocOk, j + 1);
    }
  }

  /** The recorder sees a blob marked Last exactly when no package is too large and the last one gets
      memory: one oversized package leaves the whole list without an end. */
  lemma LastArrives(ps: seq<Package>, mallocOk: nat -> bool)
    requires ps != []
    ensures (exists k :: 0 <= k < |PassFrom(ps, mallocOk, 0)| && Marked(PassFrom(ps, mallocOk, 0)[k], LAST))
            <==> mallocOk(|ps| - 1) && AllFit(ps)
  {
    hide PackageSize, PassFrom, HasFlag;
    var s := PassFrom(ps, mallocOk, 0);
    forall k | 0 <= k < |s| && Marked(s[k], LAST)
      ensures mallocOk(|ps| - 1) && AllFit(ps)
    {
      MarksArePlaces(ps, mallocOk, k);
      ReachedAllFit(ps, mallocOk, 0, k);
    }
    if mallocOk(|ps| - 1) && AllFit(ps) {
      LastReached(ps, mallocOk, 0);
      MarksArePlaces(ps, mallocOk, |s| - 1);
      assert Marked(s[|s| - 1], LAST);
    }
  }
}
