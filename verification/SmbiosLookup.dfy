/** What the lookups of common/smbios.c and common/utils.c mean on the abstract record list. */
module SmbiosLookup {
  import opened Bytes
  import opened Delimited
  import opened SmbiosFormat
  import opened Wrappers

  const SYS_SLOTS: u8 := 9
  const ONBOARD_DEVICES_EX: u8 := 41

  /** The indices below `n` of the records of type `typ`, in table order. */
  ghost function Matches(rs: seq<Record>, typ: u8, n: nat): seq<nat>
    requires AllWellFormed(rs) && n <= |rs|
  {
    if n == 0 then [] else
      Matches(rs, typ, n - 1) + (if Typ(rs[n - 1]) == typ then [n - 1] else [])
  }

  /** The filter is exact and in order: its members are the indices of that type, each once. */
  lemma {:induction false} MatchesAreTheFilter(rs: seq<Record>, typ: u8, n: nat)
    requires AllWellFormed(rs) && n <= |rs|
    ensures |Matches(rs, typ, n)| <= n
    ensures forall i :: i in Matches(rs, typ, n) <==> 0 <= i < n && Typ(rs[i]) == typ
    ensures forall a, b :: 0 <= a < b < |Matches(rs, typ, n)| ==> Matches(rs, typ, n)[a] < Matches(rs, typ, n)[b]
  {
    if n > 0 {
      MatchesAreTheFilter(rs, typ, n - 1);
      var m := Matches(rs, typ, n - 1);
      forall a | 0 <= a < |m|
        ensures m[a] < n - 1
      {
        assert m[a] in m;
      }
    }
  }

  /** Where those records start. */
  ghost function Starts(rs: seq<Record>, typ: u8, n: nat): seq<nat>
    requires AllWellFormed(rs) && n <= |rs|
  {
    if n == 0 then [] else
      Starts(rs, typ, n - 1) + (if Typ(rs[n - 1]) == typ then [Offset(rs, n - 1)] else [])
  }

  lemma {:induction false} StartsAreOffsets(rs: seq<Record>, typ: u8, n: nat)
    requires AllWellFormed(rs) && n <= |rs|
    ensures |Starts(rs, typ, n)| == |Matches(rs, typ, n)| <= n
    ensures forall i :: 0 <= i < |Matches(rs, typ, n)| ==>
              var k := Matches(rs, typ, n)[i]; k < |rs| && Starts(rs, typ, n)[i] == Offset(rs, k)
  {
    if n > 0 {
      StartsAreOffsets(rs, typ, n - 1);
    }
  }

  lemma {:induction false} StartsGrow(rs: seq<Record>, typ: u8, a: nat, b: nat)
    requires AllWellFormed(rs) && a <= b <= |rs|
    ensures Starts(rs, typ, a) <= Starts(rs, typ, b)
    decreases b - a
  {
    if a < b {
      StartsGrow(rs, typ, a, b - 1);
    }
  }

  /** The field at structure offset `j` of record `k`, when the structure is long enough to have it. */
  lemma FieldInFormatted(rs: seq<Record>, k: nat, j: nat)
    requires k < |rs| && j < |rs[k].formatted|
    ensures Offset(rs, k) + j < |Encode(rs)|
    ensures Encode(rs)[Offset(rs, k) + j] == rs[k].formatted[j]
  {
    FormattedAt(rs, k);
    SliceCells(Encode(rs), Offset(rs, k), rs[k].formatted);
  }

  /** The type 41 structure at `p` is for this PCI function: bus at offset 9, function in the low
      three bits and device in the high five bits of offset 10.  The C overlay reads these bytes
      whatever length the structure states. */
  predicate PortHit(t: seq<u8>, p: nat, bus: int, dev: int, func: int)
    requires p + 11 <= |t|
  {
    bus == t[p + 9] && dev == t[p + 10] / 8 && func == t[p + 10] % 8
  }

  /** The type 9 structure at `p` is for this bus: bus number at offset 15. */
  predicate SlotHit(t: seq<u8>, p: nat, bus: int)
    requires p + 16 <= |t|
  {
    bus == t[p + 15]
  }

  // ---------------------------------------------------------------- strings by number

  /** Where the string behind `n` NULs starts, when the table holds that many from `q` on. */
  function NthString(t: seq<u8>, q: nat, n: nat): (p: Option<nat>)
    requires q <= |t|
    ensures p.Some? ==> q + n <= p.value <= |t|
    decreases n
  {
    if n == 0 then Some(q) else
      var e := IndexOf(t, 0, q);
      if e == |t| then None else NthString(t, e + 1, n - 1)
  }

  lemma {:induction false} NthSnoc(t: seq<u8>, q: nat, n: nat)
    requires q <= |t|
    ensures NthString(t, q, n + 1) ==
            if NthString(t, q, n).None? then None
            else
              var e := IndexOf(t, 0, NthString(t, q, n).value);
              if e == |t| then None else Some(e + 1)
    decreases n
  {
    var e := IndexOf(t, 0, q);
    if n > 0 && e < |t| {
      NthSnoc(t, e + 1, n - 1);
    }
  }

  lemma {:induction false} NthOfParts(t: seq<u8>, q: nat, ss: seq<seq<u8>>, n: nat)
    requires At(t, q, Terminated(ss, 0)) && n <= |ss|
    requires forall k :: 0 <= k < |ss| ==> Free(ss[k], 0)
    ensures NthString(t, q, n) == Some(q + Start(ss, n))
    decreases n
  {
    hide Terminated, IndexOf, CStr, At;
    if n > 0 {
      NthOfParts(t, q, ss, n - 1);
      CStrOfPart(t, q, ss, 0, n - 1);
      NthSnoc(t, q, n - 1);
    }
  }

  lemma {:induction false} NthIncreases(t: seq<u8>, q: nat, a: nat, b: nat)
    requires q <= |t| && a <= b && NthString(t, q, b).Some?
    ensures NthString(t, q, a).Some?
    ensures NthString(t, q, a).value + (b - a) <= NthString(t, q, b).value
    decreases b - a
  {
    if a < b {
      NthSnoc(t, q, b - 1);
      NthIncreases(t, q, a, b - 1);
    }
  }

  /** The strings of a text start at `q`, and the closing NUL follows them. */
  ghost predicate StringsAt(t: seq<u8>, q: nat, ss: seq<seq<u8>>) {
    && (forall k :: 0 <= k < |ss| ==> Free(ss[k], 0))
    && At(t, q, Terminated(ss, 0))
    && At(t, q + |Terminated(ss, 0)|, [0])
  }

  lemma LookupInside(t: seq<u8>, q: nat, ss: seq<seq<u8>>, n: nat)
    requires StringsAt(t, q, ss) && n < |ss|
    ensures NthString(t, q, n) == Some(q + Start(ss, n))
    ensures q + Start(ss, n) < q + |Terminated(ss, 0)| <= |t|
    ensures CStr(t, 0, q + Start(ss, n)) == ss[n]
  {
    NthOfParts(t, q, ss, n);
    CStrOfPart(t, q, ss, 0, n);
  }

  lemma EmptyAt(t: seq<u8>, p: nat)
    requires At(t, p, [0])
    ensures IndexOf(t, 0, p) == p && CStr(t, 0, p) == []
  {
    assert [] + [0] == [0];
    CStrAt(t, p, [], 0);
  }

  lemma LookupPast(t: seq<u8>, q: nat, ss: seq<seq<u8>>)
    requires StringsAt(t, q, ss)
    ensures q + |Terminated(ss, 0)| < |t|
    ensures NthString(t, q, |ss|) == Some(q + |Terminated(ss, 0)|)
    ensures NthString(t, q, |ss| + 1) == Some(q + |Terminated(ss, 0)| + 1)
    ensures CStr(t, 0, q + |Terminated(ss, 0)|) == []
  {
    hide Terminated, NthString, IndexOf, CStr;
    NthOfParts(t, q, ss, |ss|);
    TotalLength(ss, 0);
    EmptyAt(t, q + |Terminated(ss, 0)|);
    NthSnoc(t, q, |ss|);
  }

  /** A record's text between `q` and `end`, closing NULs included. */
  ghost predicate TextArea(t: seq<u8>, q: nat, end: nat, text: seq<u8>) {
    && q + |text| + 2 == end <= |t|
    && (text == [] ==> At(t, q, [0, 0]))
    && (text != [] ==> StringsAt(t, q, Strings(text)) && |Terminated(Strings(text), 0)| == |text| + 1)
  }

  lemma TextAreaOf(t: seq<u8>, q: nat, text: seq<u8>)
    requires At(t, q, text + [0, 0]) && WellFormedText(text)
    ensures TextArea(t, q, q + |text| + 2, text)
  {
    if text == [] {
      assert text + [0, 0] == [0, 0];
    } else {
      StringsOfText(text);
      JoinTerminated(Strings(text), 0);
      SlicedOut([], text, [0], [0]);
      assert [] + text + [0] + [0] == text + [0, 0];
      AtInside(t, q, text + [0, 0], 0, text + [0]);
      assert At(text + [0, 0], |text| + 1, [0]);
      AtInside(t, q, text + [0, 0], |text| + 1, [0]);
    }
  }

  lemma RecordTextArea(rs: seq<Record>, k: nat)
    requires k < |rs| && WellFormed(rs[k])
    ensures TextArea(Encode(rs), Offset(rs, k) + |rs[k].formatted|, Offset(rs, k + 1), rs[k].text)
  {
    hide Encode, WellFormedText, TextArea, At;
    FormattedAt(rs, k);
    TextAreaOf(Encode(rs), Offset(rs, k) + |rs[k].formatted|, rs[k].text);
  }

  /** The `w`-th string of the text, as a pointer into the table, and what it points at. */
  ghost predicate Looked(t: seq<u8>, q: nat, end: nat, w: nat, s: seq<u8>)
    requires 1 <= w
  {
    && q <= |t| && NthString(t, q, w - 1).Some?
    && NthString(t, q, w - 1).value < end <= |t|
    && CStr(t, 0, NthString(t, q, w - 1).value) == s
  }

  lemma LookupInArea(t: seq<u8>, q: nat, end: nat, text: seq<u8>, w: nat)
    requires TextArea(t, q, end, text) && 1 <= w <= |Strings(text)| + 1
    ensures Looked(t, q, end, w, if w <= |Strings(text)| then Strings(text)[w - 1] else [])
  {
    hide NthString, CStr, Terminated;
    var ss := Strings(text);
    if ss == [] {
      EmptyArea(t, q, text);
    } else {
      if w <= |ss| {
        LookupInside(t, q, ss, w - 1);
      } else {
        LookupPast(t, q, ss);
      }
    }
  }

  lemma EmptyArea(t: seq<u8>, q: nat, text: seq<u8>)
    requires TextArea(t, q, q + |text| + 2, text) && Strings(text) == []
    ensures text == [] && NthString(t, q, 0) == Some(q) && CStr(t, 0, q) == []
  {
    AtInside(t, q, [0, 0], 0, [0]);
    EmptyAt(t, q);
  }

  /** String lookup undoes the string layout: number `w` finds string `w`, and one more than the
      count finds an empty string that still lies inside the record. */
  lemma StringByNumber(rs: seq<Record>, k: nat, w: nat)
    requires k < |rs| && WellFormed(rs[k])
    requires 1 <= w <= |Strings(rs[k].text)| + 1
    ensures var ss := Strings(rs[k].text);
            Looked(Encode(rs), Offset(rs, k) + |rs[k].formatted|, Offset(rs, k + 1), w,
                   if w <= |ss| then ss[w - 1] else [])
  {
    hide Looked, TextArea, Encode, WellFormed;
    RecordTextArea(rs, k);
    LookupInArea(Encode(rs), Offset(rs, k) + |rs[k].formatted|, Offset(rs, k + 1), rs[k].text, w);
  }

  ghost predicate StaysInside(t: seq<u8>, q: nat, end: nat, w: nat)
    requires 1 <= w
  {
    q <= |t| && NthString(t, q, w - 1).Some? && NthString(t, q, w - 1).value < end
  }

  /** Exactly how far the numbers may run before the pointer leaves the record: one past the count,
      or two when there are no strings at all. */
  lemma StringStaysInRecord(rs: seq<Record>, k: nat, w: nat)
    requires k < |rs| && WellFormed(rs[k]) && 1 <= w
    ensures StaysInside(Encode(rs), Offset(rs, k) + |rs[k].formatted|, Offset(rs, k + 1), w)
            <==> w <= (if Strings(rs[k].text) == [] then 2 else |Strings(rs[k].text)| + 1)
  {
    hide StaysInside, TextArea, Encode, WellFormed;
    RecordTextArea(rs, k);
    StaysInArea(Encode(rs), Offset(rs, k) + |rs[k].formatted|, Offset(rs, k + 1), rs[k].text, w);
  }

  lemma StaysInArea(t: seq<u8>, q: nat, end: nat, text: seq<u8>, w: nat)
    requires TextArea(t, q, end, text) && 1 <= w
    ensures StaysInside(t, q, end, w) <==> w <= (if Strings(text) == [] then 2 else |Strings(text)| + 1)
  {
    var ss := Strings(text);
    if ss == [] {
      TwoNuls(t, q);
      InsideIff(t, q, w - 1, 1, end);
    } else {
      LookupPast(t, q, ss);
      InsideIff(t, q, w - 1, |ss|, end);
    }
  }

  lemma InsideIff(t: seq<u8>, q: nat, m: nat, n: nat, end: nat)
    requires q <= |t| && NthString(t, q, n).Some? && NthString(t, q, n).value < end
    requires NthString(t, q, n + 1) == Some(end)
    ensures NthString(t, q, m).Some? && NthString(t, q, m).value < end <==> m <= n
  {
    if m <= n {
      NthIncreases(t, q, m, n);
    } else if NthString(t, q, m).Some? {
      NthIncreases(t, q, n + 1, m);
    }
  }

  lemma TwoNuls(t: seq<u8>, q: nat)
    requires At(t, q, [0, 0])
    ensures NthString(t, q, 1) == Some(q + 1) && NthString(t, q, 2) == Some(q + 2)
  {
    SliceCells(t, q, [0, 0]);
    assert NthString(t, q + 1, 1) == NthString(t, q + 2, 0);
  }
}
