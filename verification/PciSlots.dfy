/** The chassis-port and slot searches of common/utils.c: "ask for copy 0, 1, 2, ..." loops over
    SmbGetRecordByType, each proved equal to one linear search for the first matching structure.
    The C counter is an int narrowed to u_short at each call; it never exceeds 10922. */
module PciSlots {
  import opened Bytes
  import opened SmbiosFormat
  import opened SmbiosLookup
  import opened Wrappers
  import Smbios

  /** Every structure of the type reaches at least `size` bytes into the table. */
  predicate Readable(t: seq<u8>, ps: seq<nat>, size: nat) {
    forall i :: 0 <= i < |ps| ==> ps[i] + size <= |t|
  }

  /** The linear search: the index in `ps`, from `i` on, of the first structure for the function. */
  function FirstPort(t: seq<u8>, ps: seq<nat>, i: nat, bus: int, dev: int, func: int): nat
    requires i <= |ps| && Readable(t, ps, 11)
    decreases |ps| - i
  {
    if i == |ps| || PortHit(t, ps[i], bus, dev, func) then i else FirstPort(t, ps, i + 1, bus, dev, func)
  }

  function FirstSlot(t: seq<u8>, ps: seq<nat>, i: nat, bus: int): nat
    requires i <= |ps| && Readable(t, ps, 16)
    decreases |ps| - i
  {
    if i == |ps| || SlotHit(t, ps[i], bus) then i else FirstSlot(t, ps, i + 1, bus)
  }

  lemma {:induction false} FirstPortIsFirst(t: seq<u8>, ps: seq<nat>, i: nat, bus: int, dev: int, func: int)
    requires i <= |ps| && Readable(t, ps, 11)
    ensures var k := FirstPort(t, ps, i, bus, dev, func);
            && i <= k <= |ps|
            && (k < |ps| ==> PortHit(t, ps[k], bus, dev, func))
            && forall m :: i <= m < k ==> !PortHit(t, ps[m], bus, dev, func)
    decreases |ps| - i
  {
    if i < |ps| && !PortHit(t, ps[i], bus, dev, func) {
      FirstPortIsFirst(t, ps, i + 1, bus, dev, func);
    }
  }

  lemma {:induction false} FirstSlotIsFirst(t: seq<u8>, ps: seq<nat>, i: nat, bus: int)
    requires i <= |ps| && Readable(t, ps, 16)
    ensures var k := FirstSlot(t, ps, i, bus);
            && i <= k <= |ps|
            && (k < |ps| ==> SlotHit(t, ps[k], bus))
            && forall m :: i <= m < k ==> !SlotHit(t, ps[m], bus)
    decreases |ps| - i
  {
    if i < |ps| && !SlotHit(t, ps[i], bus) {
      FirstSlotIsFirst(t, ps, i + 1, bus);
    }
  }

  // ---------------------------------------------------------------- on the abstract records

  /** The overlays reach at most this far behind the table: a record takes six bytes, an overlay sixteen. */
  const BEHIND := 10

  /** The table of the records and the memory behind it. */
  function Memory(rs: seq<Record>, behind: seq<u8>): seq<u8> {
    Encode(rs) + behind
  }

  lemma OverlayInside(rs: seq<Record>, i: nat, behind: seq<u8>)
    requires AllWellFormed(rs) && i < |rs| && |behind| == BEHIND
    ensures Offset(rs, i) + 16 <= |Memory(rs, behind)|
    ensures Offset(rs, i) < Offset(rs, i + 1)
  {
    hide Encode;
    FormattedAt(rs, i);
    RecordAt(rs, i);
  }

  /** What the overlay on record `i` reads at structure offset `j`. */
  function OverlayByte(rs: seq<Record>, behind: seq<u8>, i: nat, j: nat): u8
    requires AllWellFormed(rs) && i < |rs| && |behind| == BEHIND && j < 16
  {
    OverlayInside(rs, i, behind);
    Memory(rs, behind)[Offset(rs, i) + j]
  }

  /** A byte that the structure is long enough to have is its own. */
  lemma OwnByte(rs: seq<Record>, behind: seq<u8>, i: nat, j: nat)
    requires AllWellFormed(rs) && i < |rs| && |behind| == BEHIND && j < 16 && j < |rs[i].formatted|
    ensures OverlayByte(rs, behind, i, j) == rs[i].formatted[j]
  {
    hide Encode;
    FieldInFormatted(rs, i, j);
  }

  /** A type 41 structure for the function, by its own fields. */
  predicate PortRecord(r: Record, bus: int, dev: int, func: int)
    requires WellFormed(r)
  {
    Typ(r) == ONBOARD_DEVICES_EX && |r.formatted| >= 11
    && bus == r.formatted[9] && dev == r.formatted[10] / 8 && func == r.formatted[10] % 8
  }

  predicate SlotRecord(r: Record, bus: int)
    requires WellFormed(r)
  {
    Typ(r) == SYS_SLOTS && |r.formatted| >= 16 && bus == r.formatted[15]
  }

  /** One pass over the record list: the first structure for the function, `|rs|` when there is none. */
  function PortIndex(rs: seq<Record>, k: nat, bus: int, dev: int, func: int): (j: nat)
    requires AllWellFormed(rs) && k <= |rs|
    ensures k <= j <= |rs|
    ensures j < |rs| ==> PortRecord(rs[j], bus, dev, func)
    decreases |rs| - k
  {
    if k == |rs| || PortRecord(rs[k], bus, dev, func) then k else PortIndex(rs, k + 1, bus, dev, func)
  }

  function SlotIndex(rs: seq<Record>, k: nat, bus: int): (j: nat)
    requires AllWellFormed(rs) && k <= |rs|
    ensures k <= j <= |rs|
    ensures j < |rs| ==> SlotRecord(rs[j], bus)
    decreases |rs| - k
  {
    if k == |rs| || SlotRecord(rs[k], bus) then k else SlotIndex(rs, k + 1, bus)
  }

  lemma {:induction false} PortIndexIsFirst(rs: seq<Record>, k: nat, bus: int, dev: int, func: int)
    requires AllWellFormed(rs) && k <= |rs|
    ensures forall i :: k <= i < PortIndex(rs, k, bus, dev, func) ==> !PortRecord(rs[i], bus, dev, func)
    decreases |rs| - k
  {
    hide PortRecord;
    if k < |rs| && !PortRecord(rs[k], bus, dev, func) {
      PortIndexIsFirst(rs, k + 1, bus, dev, func);
    }
  }

  lemma {:induction false} SlotIndexIsFirst(rs: seq<Record>, k: nat, bus: int)
    requires AllWellFormed(rs) && k <= |rs|
    ensures forall i :: k <= i < SlotIndex(rs, k, bus) ==> !SlotRecord(rs[i], bus)
    decreases |rs| - k
  {
    hide SlotRecord;
    if k < |rs| && !SlotRecord(rs[k], bus) {
      SlotIndexIsFirst(rs, k + 1, bus);
    }
  }

  /** The structure of the type that the overlay takes for a match, whatever its length. */
  predicate PortOverlay(rs: seq<Record>, behind: seq<u8>, i: nat, bus: int, dev: int, func: int)
    requires AllWellFormed(rs) && i < |rs| && |behind| == BEHIND
  {
    var b := OverlayByte(rs, behind, i, 10);
    Typ(rs[i]) == ONBOARD_DEVICES_EX && bus == OverlayByte(rs, behind, i, 9) && dev == b / 8 && func == b % 8
  }

  predicate SlotOverlay(rs: seq<Record>, behind: seq<u8>, i: nat, bus: int)
    requires AllWellFormed(rs) && i < |rs| && |behind| == BEHIND
  {
    Typ(rs[i]) == SYS_SLOTS && bus == OverlayByte(rs, behind, i, 15)
  }

  lemma PortOverlayOfRecord(rs: seq<Record>, behind: seq<u8>, i: nat, bus: int, dev: int, func: int)
    requires AllWellFormed(rs) && i < |rs| && |behind| == BEHIND
    ensures PortRecord(rs[i], bus, dev, func)
            <==> PortOverlay(rs, behind, i, bus, dev, func) && |rs[i].formatted| >= 11
  {
    hide OverlayByte;
    if |rs[i].formatted| >= 11 {
      OwnByte(rs, behind, i, 9);
      OwnByte(rs, behind, i, 10);
    }
  }

  lemma SlotOverlayOfRecord(rs: seq<Record>, behind: seq<u8>, i: nat, bus: int)
    requires AllWellFormed(rs) && i < |rs| && |behind| == BEHIND
    ensures SlotRecord(rs[i], bus) <==> SlotOverlay(rs, behind, i, bus) && |rs[i].formatted| >= 16
  {
    hide OverlayByte;
    if |rs[i].formatted| >= 16 {
      OwnByte(rs, behind, i, 15);
    }
  }

  /** No structure before record `j` that is too short for the overlay matches with bytes that are not
      its own. */
  predicate NoPortMisread(rs: seq<Record>, behind: seq<u8>, j: nat, bus: int, dev: int, func: int)
    requires AllWellFormed(rs) && j <= |rs| && |behind| == BEHIND
  {
    forall i :: 0 <= i < j && |rs[i].formatted| < 11 ==> !PortOverlay(rs, behind, i, bus, dev, func)
  }

  predicate NoSlotMisread(rs: seq<Record>, behind: seq<u8>, j: nat, bus: int)
    requires AllWellFormed(rs) && j <= |rs| && |behind| == BEHIND
  {
    forall i :: 0 <= i < j && |rs[i].formatted| < 16 ==> !SlotOverlay(rs, behind, i, bus)
  }

  // ---------------------------------------------------------------- filter places

  /** Where a record of the type stands in the type filter. */
  lemma FilterPlace(rs: seq<Record>, typ: u8, i: nat) returns (a: nat)
    requires AllWellFormed(rs) && i < |rs| && Typ(rs[i]) == typ
    ensures a < |Matches(rs, typ, |rs|)| && Matches(rs, typ, |rs|)[a] == i
  {
    MatchesAreTheFilter(rs, typ, |rs|);
    assert i in Matches(rs, typ, |rs|);
    a :| 0 <= a < |Matches(rs, typ, |rs|)| && Matches(rs, typ, |rs|)[a] == i;
  }

  /** The filter is in table order. */
  lemma InOrder(rs: seq<Record>, typ: u8, a: nat, k: nat)
    requires AllWellFormed(rs)
    requires a < |Matches(rs, typ, |rs|)| && k < |Matches(rs, typ, |rs|)|
    ensures Matches(rs, typ, |rs|)[a] < Matches(rs, typ, |rs|)[k] <==> a < k
  {
    MatchesAreTheFilter(rs, typ, |rs|);
    if a > k {
      assert Matches(rs, typ, |rs|)[k] < Matches(rs, typ, |rs|)[a];
    }
  }

  lemma FilterMember(rs: seq<Record>, typ: u8, a: nat)
    requires AllWellFormed(rs) && a < |Matches(rs, typ, |rs|)|
    ensures |Starts(rs, typ, |rs|)| == |Matches(rs, typ, |rs|)|
    ensures var i := Matches(rs, typ, |rs|)[a];
            i < |rs| && Typ(rs[i]) == typ && Starts(rs, typ, |rs|)[a] == Offset(rs, i)
  {
    StartsAreOffsets(rs, typ, |rs|);
    MatchesAreTheFilter(rs, typ, |rs|);
    assert Matches(rs, typ, |rs|)[a] in Matches(rs, typ, |rs|);
  }

  lemma AlwaysReadable(rs: seq<Record>, typ: u8, behind: seq<u8>)
    requires AllWellFormed(rs) && |behind| == BEHIND
    ensures Readable(Memory(rs, behind), Starts(rs, typ, |rs|), 16)
    ensures Readable(Memory(rs, behind), Starts(rs, typ, |rs|), 11)
  {
    hide Starts, Matches, Encode, Memory;
    StartsAreOffsets(rs, typ, |rs|);
    forall a | 0 <= a < |Starts(rs, typ, |rs|)|
      ensures Starts(rs, typ, |rs|)[a] + 16 <= |Memory(rs, behind)|
    {
      FilterMember(rs, typ, a);
      OverlayInside(rs, Matches(rs, typ, |rs|)[a], behind);
    }
  }

  // ---------------------------------------------------------------- what the searches find

  /** The record the copy-by-copy search ends at: the first that the overlay takes for a match. */
  lemma SearchFindsSlot(rs: seq<Record>, behind: seq<u8>, bus: int) returns (f: nat)
    requires AllWellFormed(rs) && |behind| == BEHIND
    ensures Readable(Memory(rs, behind), Starts(rs, SYS_SLOTS, |rs|), 16)
    ensures var ps := Starts(rs, SYS_SLOTS, |rs|);
            var k := FirstSlot(Memory(rs, behind), ps, 0, bus);
            && 0 <= k <= |ps| && (k < |ps| <==> f < |rs|) && f <= |rs|
            && (k < |ps| ==> ps[k] == Offset(rs, f) && SlotOverlay(rs, behind, f, bus))
    ensures forall i :: 0 <= i < f ==> !SlotOverlay(rs, behind, i, bus)
  {
    hide Starts, Matches, Encode, Offset, WellFormed;
    AlwaysReadable(rs, SYS_SLOTS, behind);
    var t, ps, m := Memory(rs, behind), Starts(rs, SYS_SLOTS, |rs|), Matches(rs, SYS_SLOTS, |rs|);
    StartsAreOffsets(rs, SYS_SLOTS, |rs|);
    FirstSlotIsFirst(t, ps, 0, bus);
    var k := FirstSlot(t, ps, 0, bus);
    f := if k < |m| then m[k] else |rs|;
    if k < |m| {
      FilterMember(rs, SYS_SLOTS, k);
    }
    forall i | 0 <= i < f
      ensures !SlotOverlay(rs, behind, i, bus)
    {
      if Typ(rs[i]) == SYS_SLOTS {
        var a := FilterPlace(rs, SYS_SLOTS, i);
        FilterMember(rs, SYS_SLOTS, a);
        if k < |m| {
          InOrder(rs, SYS_SLOTS, a, k);
        }
        assert !SlotHit(t, ps[a], bus);
      }
    }
  }

  lemma SearchFindsPort(rs: seq<Record>, behind: seq<u8>, bus: int, dev: int, func: int) returns (f: nat)
    requires AllWellFormed(rs) && |behind| == BEHIND
    ensures Readable(Memory(rs, behind), Starts(rs, ONBOARD_DEVICES_EX, |rs|), 11)
    ensures var ps := Starts(rs, ONBOARD_DEVICES_EX, |rs|);
            var k := FirstPort(Memory(rs, behind), ps, 0, bus, dev, func);
            && 0 <= k <= |ps| && (k < |ps| <==> f < |rs|) && f <= |rs|
            && (k < |ps| ==> ps[k] == Offset(rs, f) && PortOverlay(rs, behind, f, bus, dev, func))
    ensures forall i :: 0 <= i < f ==> !PortOverlay(rs, behind, i, bus, dev, func)
  {
    hide Starts, Matches, Encode, Offset, WellFormed;
    AlwaysReadable(rs, ONBOARD_DEVICES_EX, behind);
    var t, ps := Memory(rs, behind), Starts(rs, ONBOARD_DEVICES_EX, |rs|);
    var m := Matches(rs, ONBOARD_DEVICES_EX, |rs|);
    StartsAreOffsets(rs, ONBOARD_DEVICES_EX, |rs|);
    FirstPortIsFirst(t, ps, 0, bus, dev, func);
    var k := FirstPort(t, ps, 0, bus, dev, func);
    f := if k < |m| then m[k] else |rs|;
    if k < |m| {
      FilterMember(rs, ONBOARD_DEVICES_EX, k);
    }
    forall i | 0 <= i < f
      ensures !PortOverlay(rs, behind, i, bus, dev, func)
    {
      if Typ(rs[i]) == ONBOARD_DEVICES_EX {
        var a := FilterPlace(rs, ONBOARD_DEVICES_EX, i);
        FilterMember(rs, ONBOARD_DEVICES_EX, a);
        if k < |m| {
          InOrder(rs, ONBOARD_DEVICES_EX, a, k);
        }
        assert !PortHit(t, ps[a], bus, dev, func);
      }
    }
  }

  /** The search ends at the first slot structure whose own field matches exactly when no shorter one
      before it is misread. */
  lemma SlotFoundIff(rs: seq<Record>, behind: seq<u8>, f: nat, bus: int)
    requires AllWellFormed(rs) && |behind| == BEHIND && f <= |rs|
    requires f < |rs| ==> SlotOverlay(rs, behind, f, bus)
    requires forall i :: 0 <= i < f ==> !SlotOverlay(rs, behind, i, bus)
    ensures f == SlotIndex(rs, 0, bus) <==> NoSlotMisread(rs, behind, SlotIndex(rs, 0, bus), bus)
  {
    hide SlotOverlay, SlotRecord, WellFormed;
    var j := SlotIndex(rs, 0, bus);
    SlotIndexIsFirst(rs, 0, bus);
    if j < |rs| {
      SlotOverlayOfRecord(rs, behind, j, bus);
    }
    if f < j {
      SlotOverlayOfRecord(rs, behind, f, bus);
    }
  }

  lemma PortFoundIff(rs: seq<Record>, behind: seq<u8>, f: nat, bus: int, dev: int, func: int)
    requires AllWellFormed(rs) && |behind| == BEHIND && f <= |rs|
    requires f < |rs| ==> PortOverlay(rs, behind, f, bus, dev, func)
    requires forall i :: 0 <= i < f ==> !PortOverlay(rs, behind, i, bus, dev, func)
    ensures f == PortIndex(rs, 0, bus, dev, func)
            <==> NoPortMisread(rs, behind, PortIndex(rs, 0, bus, dev, func), bus, dev, func)
  {
    hide PortOverlay, PortRecord, WellFormed;
    var j := PortIndex(rs, 0, bus, dev, func);
    PortIndexIsFirst(rs, 0, bus, dev, func);
    if j < |rs| {
      PortOverlayOfRecord(rs, behind, j, bus, dev, func);
    }
    if f < j {
      PortOverlayOfRecord(rs, behind, f, bus, dev, func);
    }
  }

  /** Where record `i` starts; None for the index behind the last one. */
  function StartOf(rs: seq<Record>, i: nat): Option<nat>
    requires i <= |rs|
  {
    if i < |rs| then Some(Offset(rs, i)) else None
  }

  lemma {:induction false} OffsetsGrow(rs: seq<Record>, i: nat, j: nat)
    requires AllWellFormed(rs) && i < j <= |rs|
    ensures Offset(rs, i) < Offset(rs, j)
    decreases j - i
  {
    hide Encode;
    FormattedAt(rs, j - 1);
    if i + 1 < j {
      OffsetsGrow(rs, i, j - 1);
    }
  }

  lemma StartTellsIndex(rs: seq<Record>, i: nat, j: nat)
    requires AllWellFormed(rs) && i <= |rs| && j <= |rs|
    ensures StartOf(rs, i) == StartOf(rs, j) <==> i == j
  {
    hide Offset;
    if i < j < |rs| {
      OffsetsGrow(rs, i, j);
    } else if j < i < |rs| {
      OffsetsGrow(rs, j, i);
    }
  }

  /** The copy-by-copy slot search and one pass over the records end at the same structure exactly when
      none is misread. */
  lemma SlotIsLinearSearch(rs: seq<Record>, behind: seq<u8>, bus: int)
    requires AllWellFormed(rs) && |behind| == BEHIND
    ensures Readable(Memory(rs, behind), Starts(rs, SYS_SLOTS, |rs|), 16)
    ensures var ps, j := Starts(rs, SYS_SLOTS, |rs|), SlotIndex(rs, 0, bus);
            var k := FirstSlot(Memory(rs, behind), ps, 0, bus);
            && 0 <= k <= |ps|
            && ((if k < |ps| then Some(ps[k]) else None) == StartOf(rs, j)
                <==> NoSlotMisread(rs, behind, j, bus))
  {
    hide Starts, Memory, SlotOverlay, NoSlotMisread, Offset, SlotIndex;
    var f := SearchFindsSlot(rs, behind, bus);
    SlotFoundIff(rs, behind, f, bus);
    StartTellsIndex(rs, f, SlotIndex(rs, 0, bus));
  }

  lemma PortIsLinearSearch(rs: seq<Record>, behind: seq<u8>, bus: int, dev: int, func: int)
    requires AllWellFormed(rs) && |behind| == BEHIND
    ensures Readable(Memory(rs, behind), Starts(rs, ONBOARD_DEVICES_EX, |rs|), 11)
    ensures var ps, j := Starts(rs, ONBOARD_DEVICES_EX, |rs|), PortIndex(rs, 0, bus, dev, func);
            var k := FirstPort(Memory(rs, behind), ps, 0, bus, dev, func);
            && 0 <= k <= |ps|
            && ((if k < |ps| then Some(ps[k]) else None) == StartOf(rs, j)
                <==> NoPortMisread(rs, behind, j, bus, dev, func))
  {
    hide Starts, Memory, PortOverlay, NoPortMisread, Offset, PortIndex;
    var f := SearchFindsPort(rs, behind, bus, dev, func);
    PortFoundIff(rs, behind, f, bus, dev, func);
    StartTellsIndex(rs, f, PortIndex(rs, 0, bus, dev, func));
  }

  /** The identifier of the first slot by its own fields, 0 when there is none. */
  function SlotId(rs: seq<Record>, bus: int): int
    requires AllWellFormed(rs)
  {
    var j := SlotIndex(rs, 0, bus);
    if j < |rs| then Le16(rs[j].formatted, 9) else 0
  }

  function ChassisPort(rs: seq<Record>, bus: int, dev: int, func: int): int
    requires AllWellFormed(rs)
  {
    var j := PortIndex(rs, 0, bus, dev, func);
    if j < |rs| then rs[j].formatted[6] % 8 else 0
  }

  /** The value read through the overlay on the first match is the record's own; without a match it is 0. */
  lemma SlotIdRead(rs: seq<Record>, behind: seq<u8>, j: nat, bus: int)
    requires AllWellFormed(rs) && |behind| == BEHIND && j <= |rs| && j == SlotIndex(rs, 0, bus)
    ensures j == |rs| ==> SlotId(rs, bus) == 0
    ensures j < |rs| ==> Offset(rs, j) + 16 <= |Memory(rs, behind)|
                         && Le16(Memory(rs, behind), Offset(rs, j) + 9) == SlotId(rs, bus)
  {
    hide Encode, SlotIndex;
    if j < |rs| {
      OverlayInside(rs, j, behind);
      OwnByte(rs, behind, j, 9);
      OwnByte(rs, behind, j, 10);
    }
  }

  lemma ChassisPortRead(rs: seq<Record>, behind: seq<u8>, j: nat, bus: int, dev: int, func: int)
    requires AllWellFormed(rs) && |behind| == BEHIND && j <= |rs| && j == PortIndex(rs, 0, bus, dev, func)
    ensures j == |rs| ==> ChassisPort(rs, bus, dev, func) == 0
    ensures j < |rs| ==> Offset(rs, j) + 16 <= |Memory(rs, behind)|
                         && Memory(rs, behind)[Offset(rs, j) + 6] % 8 == ChassisPort(rs, bus, dev, func)
  {
    hide Encode, PortIndex;
    if j < |rs| {
      OverlayInside(rs, j, behind);
      OwnByte(rs, behind, j, 6);
    }
  }

  /** A slot structure of the 13 bytes that versions before 2.6 give it: a search for the third character
      of its text takes that for the bus number and ends at this structure, where no record has the bus. */
  lemma ShortSlotMisread(r: Record, behind: seq<u8>)
    requires AllWellFormed([r]) && WellFormed(r) && |behind| == BEHIND
    requires Typ(r) == SYS_SLOTS && |r.formatted| == 13 && |r.text| >= 3
    ensures Starts([r], SYS_SLOTS, 1) == [0] && Readable(Memory([r], behind), [0], 16)
    ensures SlotId([r], r.text[2]) == 0 && FirstSlot(Memory([r], behind), [0], 0, r.text[2]) == 0
    ensures Le16(Memory([r], behind), 9) == Le16(r.formatted, 9)
  {
    hide WellFormed;
    OneStart(r);
    OneOverlay(r, behind);
    assert SlotIndex([r], 1, r.text[2]) == 1;
  }

  lemma OneStart(r: Record)
    requires AllWellFormed([r]) && WellFormed(r) && Typ(r) == SYS_SLOTS
    ensures Starts([r], SYS_SLOTS, 1) == [0]
  {
    hide WellFormed;
    assert [r][..0] == [];
    assert Starts([r], SYS_SLOTS, 0) == [];
  }

  lemma OneOverlay(r: Record, behind: seq<u8>)
    requires WellFormed(r) && |r.formatted| == 13 && |r.text| >= 3 && |behind| == BEHIND
    ensures var t := Memory([r], behind);
            |t| >= 16 && t[15] == r.text[2] && t[9] == r.formatted[9] && t[10] == r.formatted[10]
  {
    EncodeSingle(r);
    assert Memory([r], behind) == r.formatted + (r.text + [0, 0]) + behind;
  }

  /** Such a structure, with identifier 7 and the string "ABC": bus 67 is found in the C. */
  const SHORT_SLOT := Record([9, 13, 0, 0, 1, 0, 0, 0, 0, 7, 0, 0, 0], [65, 66, 67])

  lemma ShortSlotExists()
    ensures WellFormed(SHORT_SLOT) && Typ(SHORT_SLOT) == SYS_SLOTS && |SHORT_SLOT.formatted| == 13
    ensures |SHORT_SLOT.text| == 3 && SHORT_SLOT.text[2] == 67 && Le16(SHORT_SLOT.formatted, 9) == 7
  {
    assert forall i :: 0 <= i < 3 ==> (SHORT_SLOT.text + [0])[i] != 0;
  }

  /** Byte 9 is the bus, byte 10 packs the device above the three bits of the function, and the port is in
      the low three bits of byte 6. */
  lemma PortMeans(r: Record, bus: int, dev: int, func: int)
    requires AllWellFormed([r]) && |r.formatted| >= 11 && r.formatted[0] == 41
    ensures WellFormed(r)
    ensures PortRecord(r, bus, dev, func)
            <==> r.formatted[9] == bus && 0 <= func < 8 && r.formatted[10] == 8 * dev + func
    ensures PortRecord(r, bus, dev, func) ==> ChassisPort([r], bus, dev, func) == r.formatted[6] % 8
  {
    assert [r][0] == r;
  }

  // ---------------------------------------------------------------- the searches of the C code

  /** One byte of an overlay. */
  method OverlayRead(smb: Smbios.Tables, behind: seq<u8>, q: nat) returns (b: u8)
    requires smb.pSMBTables != null && q < smb.pSMBTables.Length + |behind|
    ensures b == (smb.pSMBTables[..] + behind)[q]
  {
    b := if q < smb.pSMBTables.Length then smb.pSMBTables[q] else behind[q - smb.pSMBTables.Length];
  }

  /** getChassisPort: the port of the first type 41 structure that the overlay takes for the function's,
      0 when none is; `behind` is the memory behind the table.  It is the port of the first structure
      whose own fields match when none before it is misread. */
  method GetChassisPort(smb: Smbios.Tables, behind: seq<u8>, bus: int, dev: int, func: int) returns (port: int)
    requires smb.Valid() && AllWellFormed(smb.Records()) && |behind| == BEHIND
    ensures Readable(Memory(smb.Records(), behind), smb.StartsOf(ONBOARD_DEVICES_EX), 11)
    ensures var t, ps := Memory(smb.Records(), behind), smb.StartsOf(ONBOARD_DEVICES_EX);
            var k := FirstPort(t, ps, 0, bus, dev, func);
            0 <= k <= |ps| && port == if k < |ps| then t[ps[k] + 6] % 8 else 0
    ensures NoPortMisread(smb.Records(), behind, PortIndex(smb.Records(), 0, bus, dev, func), bus, dev, func)
            ==> port == ChassisPort(smb.Records(), bus, dev, func)
  {
    hide Walkable, Decode, Encode, Starts, ChassisPort, WellFormed, NoPortMisread, PortIndex;
    smb.TableIsEncoding();
    ghost var rs := smb.Records();
    AlwaysReadable(rs, ONBOARD_DEVICES_EX, behind);
    PortIsLinearSearch(rs, behind, bus, dev, func);
    ChassisPortRead(rs, behind, PortIndex(rs, 0, bus, dev, func), bus, dev, func);
    ghost var t, ps := Memory(rs, behind), smb.StartsOf(ONBOARD_DEVICES_EX);
    smb.FewStarts(ONBOARD_DEVICES_EX);
    FirstPortIsFirst(t, ps, 0, bus, dev, func);
    var i := 0;
    while true
      invariant 0 <= i <= |ps|
      invariant FirstPort(t, ps, i, bus, dev, func) == FirstPort(t, ps, 0, bus, dev, func)
      decreases |ps| - i
    {
      var found, portInfo := smb.SmbGetRecordByType(ONBOARD_DEVICES_EX, i % TWO_16);
      if !found {
        return 0;
      }
      var busNumber := OverlayRead(smb, behind, portInfo.value + 9);
      var devFunc := OverlayRead(smb, behind, portInfo.value + 10);
      if bus == busNumber && dev == devFunc / 8 && func == devFunc % 8 {
        var instance := OverlayRead(smb, behind, portInfo.value + 6);
        return instance % 8;
      }
      i := i + 1;
    }
  }

  /** getPCIslot_rec: the first type 9 structure that the overlay takes for one on the bus, as a table
      offset.  It is the first one whose own field matches exactly when none before it is misread. */
  method GetPCIslotRec(smb: Smbios.Tables, behind: seq<u8>, bus: int) returns (slotInfo: Option<nat>)
    requires smb.Valid() && AllWellFormed(smb.Records()) && |behind| == BEHIND
    ensures Readable(Memory(smb.Records(), behind), smb.StartsOf(SYS_SLOTS), 16)
    ensures var ps := smb.StartsOf(SYS_SLOTS);
            var k := FirstSlot(Memory(smb.Records(), behind), ps, 0, bus);
            0 <= k <= |ps| && slotInfo == if k < |ps| then Some(ps[k]) else None
    ensures slotInfo == StartOf(smb.Records(), SlotIndex(smb.Records(), 0, bus))
            <==> NoSlotMisread(smb.Records(), behind, SlotIndex(smb.Records(), 0, bus), bus)
  {
    hide Walkable, Decode, Encode, Starts, WellFormed, NoSlotMisread, SlotIndex, StartOf;
    smb.TableIsEncoding();
    ghost var rs := smb.Records();
    AlwaysReadable(rs, SYS_SLOTS, behind);
    SlotIsLinearSearch(rs, behind, bus);
    ghost var t, ps := Memory(rs, behind), smb.StartsOf(SYS_SLOTS);
    smb.FewStarts(SYS_SLOTS);
    FirstSlotIsFirst(t, ps, 0, bus);
    var i := 0;
    while true
      invariant 0 <= i <= |ps|
      invariant FirstSlot(t, ps, i, bus) == FirstSlot(t, ps, 0, bus)
      decreases |ps| - i
    {
      var found, rec := smb.SmbGetRecordByType(SYS_SLOTS, i % TWO_16);
      if !found {
        return None;
      }
      var busNumber := OverlayRead(smb, behind, rec.value + 15);
      if bus == busNumber {
        return rec;
      }
      i := i + 1;
    }
  }

  /** getPCIslot_bus: the slot identifier (offset 9, 16 bits) of that structure, 0 when there is none. */
  method GetPCIslotBus(smb: Smbios.Tables, behind: seq<u8>, bus: int) returns (slot: int)
    requires smb.Valid() && AllWellFormed(smb.Records()) && |behind| == BEHIND
    ensures Readable(Memory(smb.Records(), behind), smb.StartsOf(SYS_SLOTS), 16)
    ensures var t, ps := Memory(smb.Records(), behind), smb.StartsOf(SYS_SLOTS);
            var k := FirstSlot(t, ps, 0, bus);
            0 <= k <= |ps| && slot == if k < |ps| then Le16(t, ps[k] + 9) else 0
    ensures NoSlotMisread(smb.Records(), behind, SlotIndex(smb.Records(), 0, bus), bus)
            ==> slot == SlotId(smb.Records(), bus)
  {
    hide Walkable, Decode, Encode, Starts, SlotId, WellFormed, NoSlotMisread, SlotIndex;
    smb.TableIsEncoding();
    ghost var rs := smb.Records();
    AlwaysReadable(rs, SYS_SLOTS, behind);
    SlotIsLinearSearch(rs, behind, bus);
    SlotIdRead(rs, behind, SlotIndex(rs, 0, bus), bus);
    ghost var t, ps := Memory(rs, behind), smb.StartsOf(SYS_SLOTS);
    smb.FewStarts(SYS_SLOTS);
    FirstSlotIsFirst(t, ps, 0, bus);
    var i := 0;
    while true
      invariant 0 <= i <= |ps|
      invariant FirstSlot(t, ps, i, bus) == FirstSlot(t, ps, 0, bus)
      decreases |ps| - i
    {
      var found, rec := smb.SmbGetRecordByType(SYS_SLOTS, i % TWO_16);
      if !found {
        return 0;
      }
      var busNumber := OverlayRead(smb, behind, rec.value + 15);
      if bus == busNumber {
        var low := OverlayRead(smb, behind, rec.value + 9);
        var high := OverlayRead(smb, behind, rec.value + 10);
        return low as int + 0x100 * high as int;
      }
      i := i + 1;
    }
  }
}
