/** common/smbios.c: the file-level table, the cursor over it, the lookups built on the cursor, the
    checksum and the search for the entry point. */
module Smbios {
  import opened Bytes
  import opened Delimited
  import opened SmbiosFormat
  import opened SmbiosLookup
  import opened Wrappers

  // ---------------------------------------------------------------- checksum

  /** The plain, unbounded byte sum. */
  function ByteSum(s: seq<u8>): nat {
    if s == [] then 0 else ByteSum(s[..|s| - 1]) + s[|s| - 1]
  }

  lemma {:induction false} ByteSumAdditive(a: seq<u8>, b: seq<u8>)
    ensures ByteSum(a + b) == ByteSum(a) + ByteSum(b)
  {
    if b == [] {
      assert a + b == a;
    } else {
      assert (a + b)[..|a + b| - 1] == a + b[..|b| - 1];
      ByteSumAdditive(a, b[..|b| - 1]);
    }
  }

  /** One byte can always be chosen that makes a block sum to zero, and only one. */
  lemma ChecksumByte(s: seq<u8>, c: u8)
    ensures ByteSum(s + [c]) % TWO_8 == 0 <==> c == (TWO_8 - ByteSum(s) % TWO_8) % TWO_8
  {
    ByteSumAdditive(s, [c]);
    assert [c][..0] == [] && ByteSum([c]) == c;
  }

  lemma NothingSummed(s: seq<u8>)
    requires |s| == 0
    ensures ByteSum(s) == 0
  {}

  lemma OneMoreByte(mem: seq<u8>, a: nat, p: nat)
    requires a <= p < |mem|
    ensures ByteSum(mem[a..p + 1]) == ByteSum(mem[a..p]) + mem[p]
  {
    assert mem[a..p + 1][..p - a] == mem[a..p];
  }

  /** SmbChecksum over the `wCount` bytes at `pAddr`: an 8-bit sum, counted by a 16-bit index. */
  method SmbChecksum(mem: seq<u8>, pAddr: nat, wCount: u16) returns (sum: u8)
    requires pAddr + wCount <= |mem|
    ensures sum == ByteSum(mem[pAddr..pAddr + wCount]) % TWO_8
  {
    hide ByteSum;
    sum := 0;
    NothingSummed(mem[pAddr..pAddr]);
    var wIndex := 0;
    var p := pAddr;
    while wIndex < wCount
      invariant 0 <= wIndex <= wCount && p == pAddr + wIndex
      invariant sum == ByteSum(mem[pAddr..p]) % TWO_8
    {
      OneMoreByte(mem, pAddr, p);
      sum := (sum + mem[p]) % TWO_8;
      p := p + 1;
      wIndex := wIndex + 1;
    }
  }

  // ---------------------------------------------------------------- entry point

  const EPS_SIZE := 31
  const EPS_BOUNDARY := 16
  const EPS_SCAN_SIZE := 0x1_0000

  /** The scan reads the window and, for a candidate near its end, up to this many bytes behind it. */
  const EPS_BEHIND := 0xEF
  const EPS_MEMORY := EPS_SCAN_SIZE + EPS_BEHIND

  predicate HasAnchor(w: seq<u8>, p: nat) {
    p + 4 <= |w| && w[p] == '_' as int && w[p + 1] == 'S' as int && w[p + 2] == 'M' as int && w[p + 3] == '_' as int
  }

  /** An entry point of DSP0134 section 5.2.1 at `p`: on a paragraph boundary of the window, anchored,
      summing to zero over its stated length, version 2.1 or later. */
  ghost predicate EntryPoint(w: seq<u8>, p: nat) {
    && p < EPS_SCAN_SIZE && p % EPS_BOUNDARY == 0
    && HasAnchor(w, p)
    && p + EPS_SIZE <= |w| && p + w[p + 5] <= |w|
    && ByteSum(w[p..p + w[p + 5]]) % TWO_8 == 0
    && (w[p + 6] > 2 || (w[p + 6] == 2 && w[p + 7] >= 1))
  }

  /** The same on the bytes: "_SM_" on a 16-byte boundary of the 64 KiB window, a sum of zero over as many
      bytes as the sixth one says, and a version of 0x0201 or more in the next two. */
  lemma EntryPointMeans(w: seq<u8>, p: nat)
    requires |w| == EPS_MEMORY
    ensures EntryPoint(w, p)
            <==> p < 65536 && p % 16 == 0 && w[p..p + 4] == [95, 83, 77, 95]
                 && ByteSum(w[p..p + w[p + 5]]) % 256 == 0 && w[p + 6] as int * 256 + w[p + 7] >= 0x0201
  {
    hide ByteSum;
    if p < 65536 && p % 16 == 0 {
      FourBytes(w, p);
    }
  }

  lemma FourBytes(w: seq<u8>, p: nat)
    requires p + 4 <= |w|
    ensures HasAnchor(w, p) <==> w[p..p + 4] == [95, 83, 77, 95]
  {
    if w[p..p + 4] == [95, 83, 77, 95] {
      SliceCells(w, p, [95, 83, 77, 95]);
      assert w[p + 0] == 95 && w[p + 1] == 83 && w[p + 2] == 77 && w[p + 3] == 95;
    }
  }

  ghost predicate FirstEntryPoint(w: seq<u8>, p: nat) {
    EntryPoint(w, p) && forall q :: 0 <= q < p ==> !EntryPoint(w, q)
  }

  /** The first sixteen bytes at `p`, which a paragraph always has: the anchor, and version 2.1 or later. */
  predicate Announced(w: seq<u8>, p: nat)
    requires p + EPS_BOUNDARY <= |w|
  {
    HasAnchor(w, p) && (w[p + 6] > 2 || (w[p + 6] == 2 && w[p + 7] >= 1))
  }

  /** A candidate is summed over bytes behind the window. */
  predicate SumsBehind(window: seq<u8>, p: nat)
    requires p + EPS_BOUNDARY <= |window|
  {
    Announced(window, p) && p + window[p + 5] > |window|
  }

  lemma SameParagraph(window: seq<u8>, a: seq<u8>, p: nat)
    requires p + EPS_BOUNDARY <= |window|
    ensures (window + a)[p + 5] == window[p + 5]
    ensures Announced(window + a, p) <==> Announced(window, p)
  {}

  /** An entry point is an announced paragraph whose stated length sums to zero. */
  lemma EntryPointByParts(window: seq<u8>, a: seq<u8>, p: nat)
    requires |window| == EPS_SCAN_SIZE && |a| == EPS_BEHIND
    requires p % EPS_BOUNDARY == 0 && p + EPS_BOUNDARY <= |window|
    ensures p + window[p + 5] <= |window + a|
    ensures EntryPoint(window + a, p)
            <==> Announced(window, p) && ByteSum((window + a)[p..p + window[p + 5]]) % TWO_8 == 0
  {
    hide ByteSum;
    SameParagraph(window, a, p);
  }

  /** The memory behind the window that closes a sum crossing its end with `c`. */
  function Closing(n: nat, c: u8): (a: seq<u8>)
    requires 1 <= n <= EPS_BEHIND
    ensures |a| == EPS_BEHIND
  {
    Zeros(n - 1) + [c] + Zeros(EPS_BEHIND - n)
  }

  lemma ClosedSum(window: seq<u8>, p: nat, n: nat, c: u8)
    requires p <= |window| && 1 <= n <= EPS_BEHIND
    ensures (window + Closing(n, c))[p..|window| + n] == (window[p..] + Zeros(n - 1)) + [c]
  {}

  /** A sum that crosses the end comes out zero in one memory and not in another. */
  lemma CrossingDiffers(window: seq<u8>, p: nat) returns (a: seq<u8>, b: seq<u8>)
    requires |window| == EPS_SCAN_SIZE && p % EPS_BOUNDARY == 0 && p + EPS_BOUNDARY <= |window|
    requires SumsBehind(window, p)
    ensures |a| == |b| == EPS_BEHIND && EntryPoint(window + a, p) && !EntryPoint(window + b, p)
  {
    hide ByteSum, EntryPoint, Announced, Closing;
    var n := p + window[p + 5] - |window|;
    var s := window[p..] + Zeros(n - 1);
    var c: u8 := (TWO_8 - ByteSum(s) % TWO_8) % TWO_8;
    var d: u8 := (c + 1) % TWO_8;
    a, b := Closing(n, c), Closing(n, d);
    ChecksumByte(s, c);
    ChecksumByte(s, d);
    ClosedSum(window, p, n, c);
    ClosedSum(window, p, n, d);
    EntryPointByParts(window, a, p);
    EntryPointByParts(window, b, p);
  }

  lemma InsideAgrees(window: seq<u8>, a: seq<u8>, b: seq<u8>, p: nat)
    requires |window| == EPS_SCAN_SIZE && p % EPS_BOUNDARY == 0 && p + EPS_BOUNDARY <= |window|
    requires |a| == |b| == EPS_BEHIND && !SumsBehind(window, p)
    ensures EntryPoint(window + a, p) <==> EntryPoint(window + b, p)
  {
    hide ByteSum, EntryPoint, Announced;
    EntryPointByParts(window, a, p);
    EntryPointByParts(window, b, p);
    if Announced(window, p) {
      var n := p + window[p + 5];
      assert (window + a)[p..n] == window[p..n] == (window + b)[p..n];
    }
  }

  /** The bytes behind the window decide about a paragraph exactly when it is announced and its stated
      length crosses the end of the window. */
  lemma WindowDecides(window: seq<u8>, p: nat)
    requires |window| == EPS_SCAN_SIZE && p % EPS_BOUNDARY == 0 && p < |window|
    ensures p + EPS_BOUNDARY <= |window|
    ensures (forall a: seq<u8>, b: seq<u8> :: |a| == |b| == EPS_BEHIND ==>
              (EntryPoint(window + a, p) <==> EntryPoint(window + b, p)))
            <==> !SumsBehind(window, p)
  {
    hide EntryPoint, SumsBehind;
    if SumsBehind(window, p) {
      var a, b := CrossingDiffers(window, p);
    } else {
      forall a: seq<u8>, b: seq<u8> | |a| == |b| == EPS_BEHIND
        ensures EntryPoint(window + a, p) <==> EntryPoint(window + b, p)
      {
        InsideAgrees(window, a, b, p);
      }
    }
  }

  /** A window of zeros with an announced paragraph at its end that states 31 bytes: whether there is an
      entry point in it depends on the fifteen bytes behind. */
  lemma LastParagraphDepends() returns (window: seq<u8>, a: seq<u8>, b: seq<u8>)
    ensures |window| == EPS_SCAN_SIZE && |a| == |b| == EPS_BEHIND
    ensures EntryPoint(window + a, EPS_SCAN_SIZE - EPS_BOUNDARY)
    ensures forall p: nat :: !EntryPoint(window + b, p)
  {
    hide ByteSum;
    var last: seq<u8> := ['_' as int, 'S' as int, 'M' as int, '_' as int, 0, EPS_SIZE, 2, 1, 0, 0, 0, 0, 0, 0, 0, 0];
    var front := Zeros(EPS_SCAN_SIZE - EPS_BOUNDARY);
    var q := |front|;
    window := front + last;
    assert forall i :: 0 <= i < 16 ==> window[q + i] == last[i];
    a, b := CrossingDiffers(window, q);
    forall p: nat
      ensures !EntryPoint(window + b, p)
    {
      if p < q {
        assert window[p] == 0;
      }
    }
  }

  /** The scan of the window, a paragraph at a time, up to the first valid entry point. */
  method FindEntryPoint(w: seq<u8>) returns (found: Option<nat>)
    requires |w| == EPS_MEMORY
    ensures found.Some? ==> FirstEntryPoint(w, found.value)
    ensures found.None? ==> forall p: nat :: !EntryPoint(w, p)
  {
    var p := 0;
    while p < EPS_SCAN_SIZE
      invariant 0 <= p && p % EPS_BOUNDARY == 0
      invariant forall q: nat :: q < p ==> !EntryPoint(w, q)
    {
      var valid := IsEntryPoint(w, p);
      if valid {
        return Some(p);
      }
      p := p + EPS_BOUNDARY;
    }
    found := None;
  }

  lemma FirstIsUnique(w: seq<u8>, found: Option<nat>)
    requires found.Some? ==> FirstEntryPoint(w, found.value)
    requires found.None? ==> forall p: nat :: !EntryPoint(w, p)
    ensures forall q: nat :: FirstEntryPoint(w, q) ==> found == Some(q)
    ensures found.Some? ==> EntryPoint(w, found.value) && found.value + EPS_SIZE <= |w|
  {}

  method IsEntryPoint(w: seq<u8>, p: nat) returns (valid: bool)
    requires |w| == EPS_MEMORY && p % EPS_BOUNDARY == 0 && p < EPS_SCAN_SIZE
    ensures valid <==> EntryPoint(w, p)
  {
    if !HasAnchor(w, p) {
      return false;
    }
    var sum := SmbChecksum(w, p, w[p + 5]);
    return sum == 0 && w[p + 6] as int * 0x100 + w[p + 7] >= 0x0201;
  }

  // ---------------------------------------------------------------- the table

  class Tables {
    var fInited: bool
    var pSMBTables: array?<u8>
    var wSTLength: u16

    constructor ()
      ensures !fInited && pSMBTables == null && wSTLength == 0
    {
      fInited, pSMBTables, wSTLength := false, null, 0;
    }

    /** The stored bytes are a table of exactly the stated length that the cursor stays in. */
    ghost predicate Safe()
      reads this, pSMBTables
    {
      && pSMBTables != null && pSMBTables.Length == wSTLength
      && Stays(pSMBTables[..], 0)
    }

    /** Where the cursor stops. */
    ghost function Visits(): seq<nat>
      requires Safe()
      reads this, pSMBTables
    {
      Walk(pSMBTables[..], 0)
    }

    /** The stored bytes are a walkable table of exactly the stated length. */
    ghost predicate Valid()
      reads this, pSMBTables
    {
      && pSMBTables != null && pSMBTables.Length == wSTLength
      && Walkable(pSMBTables[..], 0)
    }

    ghost function Records(): seq<Record>
      requires Valid()
      reads this, pSMBTables
    {
      Decode(pSMBTables[..], 0)
    }

    lemma TableIsEncoding()
      requires Valid()
      ensures AllWellFormed(Records())
      ensures Encode(Records()) == pSMBTables[..]
      ensures |Records()| <= 10922
    {
      EncodeUndoesDecode(pSMBTables[..], 0);
      RecordCount(Records());
    }

    /** Finds the entry point in the memory window, then reads the table it names.  `efiSection` is
        false when the system has EFI tables without an SMBIOS section.  `window` is the scan buffer
        after its read and the memory behind it, None when the read fails; with EFI only its first 32
        bytes were read and the others are whatever the buffer held.  `phys` answers reads of physical
        memory; the other flags are the outcomes of the two allocations. */
    method InitSMBIOS(windowAlloc: bool, efiSection: bool, window: Option<seq<u8>>, tableAlloc: bool,
                      phys: (u32, u16) -> Option<seq<u8>>)
      returns (r: bool)
      requires window.Some? ==> |window.value| == EPS_MEMORY
      requires forall a, n :: phys(a, n).Some? ==> |phys(a, n).value| == n
      modifies this
      ensures r == ((!windowAlloc || efiSection) && fInited) && (old(fInited) ==> fInited)
      ensures (!windowAlloc || !efiSection || window.None? || forall p: nat :: !EntryPoint(window.value, p))
              ==> unchanged(this)
      ensures windowAlloc && efiSection && window.Some? ==>
                forall p: nat :: FirstEntryPoint(window.value, p) ==>
                  wSTLength == Le16(window.value, p + 22)
      ensures windowAlloc && efiSection && window.Some? && tableAlloc ==>
                forall p: nat :: FirstEntryPoint(window.value, p) ==>
                  var table := phys(Le32(window.value, p + 24), Le16(window.value, p + 22));
                  pSMBTables != null && fresh(pSMBTables)
                  && (table.Some? ==> fInited && pSMBTables[..] == table.value)
      ensures windowAlloc && efiSection && window.Some? && tableAlloc ==>
                forall p: nat :: FirstEntryPoint(window.value, p) ==>
                  var table := phys(Le32(window.value, p + 24), Le16(window.value, p + 22));
                  table.Some? && Walkable(table.value, 0) ==> Valid() && Records() == Decode(table.value, 0)
      ensures windowAlloc && efiSection && window.Some? ==>
                forall p: nat :: FirstEntryPoint(window.value, p) ==>
                  var table := phys(Le32(window.value, p + 24), Le16(window.value, p + 22));
                  && (fInited <==> old(fInited) || (tableAlloc && table.Some?))
                  && (!tableAlloc ==> pSMBTables == null)
    {
      hide Walkable, Decode, EntryPoint, FirstEntryPoint;
      if !windowAlloc {
        return fInited;
      }
      if !efiSection {
        return false;
      }
      if window.Some? {
        var w := window.value;
        var found := FindEntryPoint(w);
        FirstIsUnique(w, found);
        if found.Some? {
          var p := found.value;
          wSTLength := Le16(w, p + 22);
          if tableAlloc {
            pSMBTables := new u8[wSTLength];
            var table := phys(Le32(w, p + 24), wSTLength);
            if table.Some? {
              var t := pSMBTables;
              forall i | 0 <= i < t.Length {
                t[i] := table.value[i];
              }
              assert t[..] == table.value;
              fInited := true;
            }
          } else {
            pSMBTables := null;
          }
        }
      }
      r := fInited;
    }

    /** In a valid table the cursor stops at the records and nowhere else. */
    lemma VisitsAreOffsets()
      requires Valid()
      ensures Safe() && |Visits()| == |Records()|
      ensures forall k :: 0 <= k < |Records()| ==> Visits()[k] == Offset(Records(), k)
    {
      TableIsEncoding();
      WalkVisitsRecords(Records());
    }

    /** SmbGetRecord: `cursor` is what *ppRecord holds, as an offset from the table start, None for
        NULL.  The ghost index says which stop the cursor stands on, -1 for NULL. */
    method SmbGetRecord(cursor: Option<nat>, ghost k: int) returns (found: bool, next: Option<nat>)
      requires Safe()
      requires -1 <= k < |Visits()|
      requires cursor == if k == -1 then None else Some(Visits()[k])
      ensures found <==> k + 1 < |Visits()|
      ensures found ==> next == Some(Visits()[k + 1]) && next.value < wSTLength
      ensures found && cursor.Some? ==> cursor.value < next.value
      ensures !found && k == -1 ==> next == Some(0)
      ensures !found && k >= 0 ==>
                Visits()[k] + 1 < wSTLength && next == Some(Visits()[k] + pSMBTables[Visits()[k] + 1])
    {
      hide Stays, Walk, DoubleNul;
      var pBuffer: nat := 0;
      if cursor.None? {
        WalkStarts(pSMBTables[..], 0);
        next := Some(0);
      } else {
        WalkNext(pSMBTables[..], 0, k);
        pBuffer := cursor.value + pSMBTables[cursor.value + 1];
        next := Some(pBuffer);
        pBuffer := SkipText(pBuffer);
      }
      found := pBuffer < wSTLength;
      if found {
        next := Some(pBuffer);
      }
    }

    /** The scan over the text of a structure and past its two closing NULs. */
    method SkipText(start: nat) returns (pBuffer: nat)
      requires pSMBTables != null && DoubleNul(pSMBTables[..], start).Some?
      ensures pBuffer == DoubleNul(pSMBTables[..], start).value + 2
    {
      pBuffer := start;
      while pSMBTables[pBuffer] != 0 || pSMBTables[pBuffer + 1] != 0
        invariant pBuffer + 1 < pSMBTables.Length
        invariant DoubleNul(pSMBTables[..], pBuffer) == DoubleNul(pSMBTables[..], start)
        decreases pSMBTables.Length - pBuffer
      {
        pBuffer := pBuffer + 1;
      }
      pBuffer := pBuffer + 2;
    }

    /** The offsets of the records of one type, in table order. */
    ghost function StartsOf(byType: u8): seq<nat>
      requires Valid() && AllWellFormed(Records())
      reads this, pSMBTables
    {
      Starts(Records(), byType, |Records()|)
    }

    lemma FewStarts(byType: u8)
      requires Valid()
      ensures AllWellFormed(Records()) && |StartsOf(byType)| <= 10922
    {
      TableIsEncoding();
      StartsAreOffsets(Records(), byType, |Records()|);
    }

    /** SmbGetRecordByType: the `wCopy`-th member of the type filter, or failure when there are not
        that many. */
    method SmbGetRecordByType(byType: u8, wCopy: u16) returns (found: bool, record: Option<nat>)
      requires Valid()
      ensures AllWellFormed(Records())
      ensures found <==> wCopy < |StartsOf(byType)|
      ensures found ==> record == Some(StartsOf(byType)[wCopy])
    {
      hide Walkable, Decode, Encode, Stays, Walk;
      TableIsEncoding();
      VisitsAreOffsets();
      ghost var rs := Records();
      var save: Option<nat>, copy := None, wCopy;
      ghost var k := -1;
      while true
        invariant -1 <= k < |rs|
        invariant save == if k == -1 then None else Some(Offset(rs, k))
        invariant 0 <= copy <= wCopy && |Starts(rs, byType, k + 1)| + copy == wCopy
        decreases |rs| - k
      {
        var more;
        more, save := SmbGetRecord(save, k);
        if !more {
          return false, None;
        }
        k := k + 1;
        HeaderAt(rs, k);
        StartsGrow(rs, byType, k + 1, |rs|);
        if pSMBTables[save.value] == byType {
          if copy == 0 {
            return true, save;
          }
          copy := copy - 1;
        }
      }
    }

    /** SmbGetRecordByHandle: the first record with the handle. */
    method SmbGetRecordByHandle(wHandle: u16) returns (found: bool, record: Option<nat>)
      requires Valid()
      ensures AllWellFormed(Records())
      ensures found <==> exists k :: 0 <= k < |Records()| && Handle(Records()[k]) == wHandle
      ensures forall k :: 0 <= k < |Records()| && Handle(Records()[k]) == wHandle
                && (forall j :: 0 <= j < k ==> Handle(Records()[j]) != wHandle)
                ==> record == Some(Offset(Records(), k))
    {
      hide Walkable, Decode, Encode, Stays, Walk;
      TableIsEncoding();
      VisitsAreOffsets();
      ghost var rs := Records();
      var save: Option<nat> := None;
      ghost var k := -1;
      while true
        invariant -1 <= k < |rs|
        invariant save == if k == -1 then None else Some(Offset(rs, k))
        invariant forall j :: 0 <= j <= k ==> Handle(rs[j]) != wHandle
        decreases |rs| - k
      {
        var more;
        more, save := SmbGetRecord(save, k);
        if !more {
          return false, None;
        }
        k := k + 1;
        HeaderAt(rs, k);
        if pSMBTables[save.value + 2] as int + 0x100 * pSMBTables[save.value + 3] as int == wHandle {
          return true, save;
        }
      }
    }

    /** SmbGetRecordByNumber: list indexing, with a 16-bit counter that never wraps. */
    method SmbGetRecordByNumber(wNumber: u16) returns (found: bool, record: Option<nat>)
      requires Safe()
      ensures found <==> wNumber < |Visits()|
      ensures found ==> record == Some(Visits()[wNumber])
      ensures Valid() ==> (found <==> wNumber < |Records()|)
      ensures Valid() && found ==> record == Some(Offset(Records(), wNumber))
    {
      hide Walkable, Decode, Encode, Stays, Walk;
      if Valid() {
        VisitsAreOffsets();
      }
      var save: Option<nat>, wIndex: u16 := None, 0;
      ghost var k := -1;
      while true
        invariant -1 <= k < |Visits()| && wIndex == k + 1 && wIndex <= wNumber
        invariant save == if k == -1 then None else Some(Visits()[k])
        decreases |Visits()| - k
      {
        var more;
        more, save := SmbGetRecord(save, k);
        if !more {
          return false, None;
        }
        k := k + 1;
        if wIndex == wNumber {
          return true, save;
        }
        wIndex := (wIndex + 1) % TWO_16;
      }
    }

    /** SmbGetStringByNumber: None stands for the literal empty string. */
    method SmbGetStringByNumber(record: nat, wString: u16, ghost k: nat) returns (p: Option<nat>)
      requires Valid()
      requires k < |Records()| && record == Offset(Records(), k)
      requires var q := record + |Records()[k].formatted|;
               q <= wSTLength && (wString > 0 ==> NthString(pSMBTables[..], q, wString - 1).Some?)
      ensures wString == 0 ==> p == None
      ensures wString > 0 ==>
                p == NthString(pSMBTables[..], record + |Records()[k].formatted|, wString - 1)
    {
      hide Walkable, Decode, Encode, NthString;
      TableIsEncoding();
      if wString == 0 {
        return None;
      }
      var w := wString - 1;
      HeaderAt(Records(), k);
      var pBuffer := record + pSMBTables[record + 1];
      pBuffer := SkipStrings(pBuffer, w);
      p := Some(pBuffer);
    }

    /** The loop over the first `w` strings at `start`. */
    method SkipStrings(start: nat, w: u16) returns (pBuffer: nat)
      requires pSMBTables != null && start <= pSMBTables.Length
      requires NthString(pSMBTables[..], start, w).Some?
      ensures NthString(pSMBTables[..], start, w) == Some(pBuffer)
    {
      pBuffer := start;
      var i: u16 := 0;
      while i < w
        invariant 0 <= i <= w && pBuffer <= pSMBTables.Length
        invariant NthString(pSMBTables[..], pBuffer, w - i) == NthString(pSMBTables[..], start, w)
      {
        var len := Strlen(pBuffer);
        pBuffer := pBuffer + (len + 1);
        i := i + 1;
      }
    }

    method Strlen(p: nat) returns (len: nat)
      requires pSMBTables != null && p <= pSMBTables.Length
      requires IndexOf(pSMBTables[..], 0, p) < pSMBTables.Length
      ensures p + len == IndexOf(pSMBTables[..], 0, p)
    {
      len := 0;
      while pSMBTables[p + len] != 0
        invariant p + len < pSMBTables.Length
        invariant IndexOf(pSMBTables[..], 0, p + len) == IndexOf(pSMBTables[..], 0, p)
        decreases pSMBTables.Length - (p + len)
      {
        len := len + 1;
      }
    }
  }

  /** The header of record `k` as the overlay reads it. */
  lemma HeaderAt(rs: seq<Record>, k: nat)
    requires k < |rs| && WellFormed(rs[k])
    ensures Offset(rs, k) + |rs[k].formatted| + 2 <= |Encode(rs)|
    ensures Encode(rs)[Offset(rs, k)] == Typ(rs[k])
    ensures Encode(rs)[Offset(rs, k) + 1] == |rs[k].formatted|
    ensures Le16(Encode(rs), Offset(rs, k) + 2) == Handle(rs[k])
  {
    FormattedAt(rs, k);
    HeaderBytes(Encode(rs), Offset(rs, k), rs[k]);
  }

  lemma HeaderBytes(t: seq<u8>, p: nat, r: Record)
    requires WellFormed(r) && At(t, p, r.formatted)
    ensures t[p] == Typ(r) && t[p + 1] == |r.formatted| && Le16(t, p + 2) == Handle(r)
  {
    var f := r.formatted;
    SliceCells(t, p, f);
    assert t[p + 0] == f[0] && t[p + 1] == f[1] && t[p + 2] == f[2] && t[p + 3] == f[3];
  }
}
