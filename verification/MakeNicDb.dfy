/** The row loop of common/make_nic_db.c: a row cut at every comma in place, then repaired in place. */
module MakeNicDb {
  import opened Delimited
  import opened CStrings
  import opened CsvRows

  const MAX_TOKENS := 64

  /** The split loop: a pointer to every piece of the row, commas replaced by terminators. */
  method SplitRow(buf: array<char>) returns (tokens: array<nat>, tidx: nat)
    requires IndexOf(buf[..], NUL, 0) < buf.Length
    requires |Split(CStr(buf[..], NUL, 0), COMMA)| <= MAX_TOKENS
    modifies buf
    ensures var c := old(CStr(buf[..], NUL, 0));
            var parts := Split(c, COMMA);
            && fresh(tokens) && tokens.Length == MAX_TOKENS
            && tidx + 1 == |parts|
            && buf[..] == Cut(old(buf[..]), COMMA, |c|)
            && forall k :: 0 <= k < |parts| ==> tokens[k] == Start(parts, k)
  {
    hide Split, IndexOf, CStr, Cut, Start;
    ghost var s := buf[..];
    ghost var c := CStr(s, NUL, 0);
    ghost var parts := Split(c, COMMA);
    tokens := new nat[MAX_TOKENS];
    tidx := 0;
    var str: nat := 0;
    NothingCut(s, COMMA);
    StartSteps(parts);
    while true
      invariant tidx < |parts| && str == Start(parts, tidx)
      invariant buf[..] == Cut(s, COMMA, str)
      invariant forall k :: 0 <= k < tidx ==> tokens[k] == Start(parts, k)
      decreases |parts| - tidx
    {
      tokens[tidx] := str;
      NextSeparator(s, c, COMMA, parts, tidx);
      var i := StrChr(buf, str, COMMA);
      CutFurther(s, c, COMMA, str, str + |parts[tidx]|);
      if i.None? {
        break;
      }
      buf[i.value] := NUL;
      str := i.value + 1;
      tidx := tidx + 1;
    }
  }

  // ---------------------------------------------------------------- repairing

  /** Writing a space over the terminator of piece `i` merges it with the next. */
  lemma MergeStore(s: string, l: seq<string>, i: nat)
    requires At(s, 0, Terminated(l, NUL)) && i + 1 < |l|
    ensures Start(l, i) + |l[i]| < |s|
    ensures At(s[Start(l, i) + |l[i]| := ' '], 0, Terminated(MergeOne(l, i), NUL))
  {
    TwoPieces(l, i);
    MergedTerminated(l, i);
    StoreAt(s, Terminated(l[..i], NUL), l[i], l[i + 1] + [NUL] + Terminated(l[i + 2..], NUL));
  }

  lemma TwoPieces(l: seq<string>, i: nat)
    requires i + 1 < |l|
    ensures Start(l, i) == |Terminated(l[..i], NUL)|
    ensures Terminated(l, NUL) ==
            Terminated(l[..i], NUL) + l[i] + [NUL] + (l[i + 1] + [NUL] + Terminated(l[i + 2..], NUL))
  {
    PartAt(l, NUL, i);
    assert l[i + 1..] == [l[i + 1]] + l[i + 2..];
    TerminatedConcat([l[i + 1]], l[i + 2..], NUL);
    TerminatedOne(l[i + 1], NUL);
  }

  lemma MergedTerminated(l: seq<string>, i: nat)
    requires i + 1 < |l|
    ensures Terminated(MergeOne(l, i), NUL) ==
            Terminated(l[..i], NUL) + l[i] + [' '] + (l[i + 1] + [NUL] + Terminated(l[i + 2..], NUL))
  {
    var a, m, b := l[..i], l[i] + [' '] + l[i + 1], l[i + 2..];
    TerminatedConcat(a + [m], b, NUL);
    TerminatedConcat(a, [m], NUL);
    TerminatedOne(m, NUL);
    Reassociate(Terminated(a, NUL), l[i], l[i + 1], Terminated(b, NUL));
  }

  lemma Reassociate(a: string, b: string, c: string, d: string)
    ensures a + (b + [' '] + c + [NUL]) + d == a + b + [' '] + (c + [NUL] + d)
  {}

  lemma StoreAt(s: string, a: string, b: string, c: string)
    requires At(s, 0, a + b + [NUL] + c)
    ensures |a| + |b| < |s| && At(s[|a| + |b| := ' '], 0, a + b + [' '] + c)
  {
    var n := |a| + |b| + 1 + |c|;
    assert s[|a| + |b| := ' '][..n] == s[..n][|a| + |b| := ' '];
    assert (a + b + [NUL] + c)[|a| + |b| := ' '] == a + b + [' '] + c;
  }

  lemma {:induction false} MergeStart(l: seq<string>, i: nat, k: nat)
    requires i + 1 < |l| && k < |l|
    ensures Start(MergeOne(l, i), k) == if k <= i then Start(l, k) else Start(l, k + 1)
    decreases k
  {
    if k > 0 {
      MergeStart(l, i, k - 1);
    }
  }

  /** Merging keeps the pieces NUL-free. */
  predicate AllFree(l: seq<string>) {
    forall k :: 0 <= k < |l| ==> Free(l[k], NUL)
  }

  lemma MergeFree(l: seq<string>, i: nat)
    requires i + 1 < |l| && AllFree(l)
    ensures AllFree(MergeOne(l, i))
  {
    var m := l[i] + [' '] + l[i + 1];
    forall j | 0 <= j < |m|
      ensures m[j] != NUL
    {
      assert j > |l[i]| ==> m[j] == l[i + 1][j - |l[i]| - 1];
    }
  }

  /** The buffer holds the pieces `l`, reached from the pointers to the pieces `p` they were merged
      from: the columns up to 13, then the two the repair keeps apart, then the tail shifted by the
      number of merges. */
  ghost predicate Holds(s: string, tokens: seq<nat>, p: seq<string>, l: seq<string>, pcb: nat, description: nat) {
    && |l| <= |p| <= |tokens| && DESCRIPTION < |l|
    && AllFree(l) && At(s, 0, Terminated(l, NUL))
    && (forall k :: 0 <= k < 14 ==> Start(l, k) == tokens[k])
    && Start(l, 14) == pcb && Start(l, DESCRIPTION) == description
    && (forall k :: DESCRIPTION < k < |l| ==> Start(l, k) == tokens[k + (|p| - |l|)])
  }

  lemma HoldsAfterMerge(s: string, tokens: seq<nat>, p: seq<string>, l: seq<string>, pcb: nat, description: nat)
    requires Holds(s, tokens, p, l, pcb, description) && DESCRIPTION + 1 < |l|
    ensures description + |l[DESCRIPTION]| < |s|
    ensures Holds(s[description + |l[DESCRIPTION]| := ' '], tokens, p, MergeOne(l, DESCRIPTION), pcb, description)
  {
    hide At;
    MergeStore(s, l, DESCRIPTION);
    MergeFree(l, DESCRIPTION);
    MergeLength(l, DESCRIPTION);
    var m := MergeOne(l, DESCRIPTION);
    forall k | 0 <= k < |m|
      ensures k <= DESCRIPTION ==> Start(m, k) == Start(l, k)
      ensures DESCRIPTION < k ==> Start(m, k) == tokens[k + (|p| - |m|)]
    {
      MergeStart(l, DESCRIPTION, k);
      assert DESCRIPTION < k ==> Start(l, k + 1) == tokens[k + 1 + (|p| - |l|)];
    }
  }

  lemma MergeLength(l: seq<string>, i: nat)
    requires i + 1 < |l|
    ensures |MergeOne(l, i)| == |l| - 1
  {}

  lemma HoldsAfterVolt(s: string, tokens: seq<nat>, p: seq<string>)
    requires |p| <= |tokens| && 17 <= |p| && Volt(p)
    requires AllFree(p) && At(s, 0, Terminated(p, NUL))
    requires forall k :: 0 <= k < |p| ==> tokens[k] == Start(p, k)
    ensures tokens[13] + 2 < |s|
    ensures Holds(s[tokens[13] + 2 := ' '], tokens, p, VoltRepaired(p), tokens[15], tokens[16])
  {
    hide At, Terminated, AllFree, MergeOne, Start, Holds;
    MergeStore(s, p, VOLT_COLUMN);
    MergeFree(p, VOLT_COLUMN);
    MergeLength(p, VOLT_COLUMN);
    VoltStarts(tokens, p);
    HoldsShifted(s[tokens[13] + 2 := ' '], tokens, p, MergeOne(p, VOLT_COLUMN));
  }

  lemma VoltStarts(tokens: seq<nat>, p: seq<string>)
    requires |p| <= |tokens| && 17 <= |p|
    requires forall k :: 0 <= k < |p| ==> tokens[k] == Start(p, k)
    ensures var m := MergeOne(p, VOLT_COLUMN);
            forall k :: 0 <= k < |m| ==> Start(m, k) == tokens[if k <= VOLT_COLUMN then k else k + 1]
  {
    hide MergeOne, Start;
    MergeLength(p, VOLT_COLUMN);
    var m := MergeOne(p, VOLT_COLUMN);
    forall k | 0 <= k < |m|
      ensures Start(m, k) == tokens[if k <= VOLT_COLUMN then k else k + 1]
    {
      MergeStart(p, VOLT_COLUMN, k);
    }
  }

  lemma HoldsShifted(s: string, tokens: seq<nat>, p: seq<string>, m: seq<string>)
    requires 17 <= |p| <= |tokens| && |m| == |p| - 1
    requires AllFree(m) && At(s, 0, Terminated(m, NUL))
    requires forall k :: 0 <= k < |m| ==> Start(m, k) == tokens[if k <= VOLT_COLUMN then k else k + 1]
    ensures Holds(s, tokens, p, m, tokens[15], tokens[16])
  {
    hide At, Terminated, AllFree, Start;
  }

  /** The C strings behind the pointers. */
  lemma HeldStrings(s: string, tokens: seq<nat>, p: seq<string>, l: seq<string>, pcb: nat, description: nat)
    requires Holds(s, tokens, p, l, pcb, description)
    ensures forall k :: 0 <= k < |l| ==> Start(l, k) + |l[k]| < |s|
    ensures forall k :: 0 <= k < |l| ==>
              CStr(s, NUL, Start(l, k)) == l[k] && IndexOf(s, NUL, Start(l, k)) == Start(l, k) + |l[k]|
  {
    forall k | 0 <= k < |l|
      ensures Start(l, k) + |l[k]| < |s|
      ensures CStr(s, NUL, Start(l, k)) == l[k] && IndexOf(s, NUL, Start(l, k)) == Start(l, k) + |l[k]|
    {
      CStrOfPart(s, 0, l, NUL, k);
    }
  }

  /** The repair: the pointers stored for the 24 columns.  The row must have its columns and close its
      description; otherwise the C code runs past it. */
  method RepairRow(buf: array<char>, tokens: seq<nat>, ghost p: seq<string>)
    returns (columns: seq<nat>, ghost extra: nat)
    requires |tokens| == MAX_TOKENS && |p| <= MAX_TOKENS
    requires AllFree(p) && At(buf[..], 0, Terminated(p, NUL))
    requires forall k :: 0 <= k < |p| ==> tokens[k] == Start(p, k)
    requires COLUMNS <= |Repaired(p)| <= |p| && DescriptionCloses(p)
    modifies buf
    ensures |columns| == COLUMNS && extra == |p| - |Repaired(p)|
    ensures forall c :: 0 <= c < COLUMNS ==> columns[c] == Start(Repaired(p), c)
    ensures forall c :: 0 <= c < COLUMNS ==>
              columns[c] <= buf.Length && CStr(buf[..], NUL, columns[c]) == Repaired(p)[c]
    ensures forall c :: DESCRIPTION < c < COLUMNS ==> columns[c] == tokens[c + extra]
  {
    hide Holds, Repaired, VoltRepaired, Terminated, At, AllFree, IndexOf, CStr, DescriptionCloses;
    PiecesSuffice(p);
    var pcb, start, next := RepairVolt(buf, tokens, p);
    next := RepairDescription(buf, tokens, p, pcb, tokens[start], next);
    columns := tokens[..14] + [pcb, tokens[start]] + tokens[next..next + 8];
    extra := |p| - |Repaired(p)|;
    ColumnStrings(buf[..], tokens, p, Repaired(p), pcb, tokens[start]);
  }

  lemma PiecesSuffice(p: seq<string>)
    requires COLUMNS <= |Repaired(p)| <= |p|
    ensures 17 <= |p|
  {}

  /** The description, glued together when it opens with a quote. */
  method RepairDescription(buf: array<char>, tokens: seq<nat>, ghost p: seq<string>,
                           pcb: nat, description: nat, next0: nat)
    returns (next: nat)
    requires Holds(buf[..], tokens, p, VoltRepaired(p), pcb, description)
    requires next0 == 16 + (|p| - |VoltRepaired(p)|) && DescriptionCloses(p)
    modifies buf
    ensures Holds(buf[..], tokens, p, Repaired(p), pcb, description)
    ensures next == 16 + (|p| - |Repaired(p)|)
  {
    hide Holds, VoltRepaired, Terminated, At, IndexOf, CStr;
    ghost var l := VoltRepaired(p);
    HeldDescription(buf[..], tokens, p, l, pcb, description);
    next := next0;
    if buf[description] != NUL && buf[description] == QUOTE {
      next, l := CloseQuoted(buf, tokens, p, l, pcb, description, next);
    }
  }

  lemma ColumnStrings(s: string, tokens: seq<nat>, p: seq<string>, l: seq<string>, pcb: nat, description: nat)
    requires Holds(s, tokens, p, l, pcb, description) && COLUMNS <= |l| && |tokens| == MAX_TOKENS
    ensures var extra := |p| - |l|;
            16 + extra + 8 <= |tokens| && extra >= 0 &&
            var columns := tokens[..14] + [pcb, description] + tokens[16 + extra..16 + extra + 8];
            && |columns| == COLUMNS
            && (forall c :: 0 <= c < COLUMNS ==> columns[c] == Start(l, c))
            && (forall c :: 0 <= c < COLUMNS ==> columns[c] <= |s| && CStr(s, NUL, columns[c]) == l[c])
            && (forall c :: DESCRIPTION < c < COLUMNS ==> columns[c] == tokens[c + extra])
  {
    hide At, Terminated, AllFree, IndexOf, CStr;
    HeldStrings(s, tokens, p, l, pcb, description);
    ColumnsOf(s, tokens, p, l, pcb, description);
  }

  lemma ColumnsOf(s: string, tokens: seq<nat>, p: seq<string>, l: seq<string>, pcb: nat, description: nat)
    requires Holds(s, tokens, p, l, pcb, description) && COLUMNS <= |l|
    ensures var extra := |p| - |l|;
            var columns := tokens[..14] + [pcb, description] + tokens[16 + extra..16 + extra + 8];
            && |columns| == COLUMNS
            && (forall c :: 0 <= c < COLUMNS ==> columns[c] == Start(l, c))
            && (forall c :: DESCRIPTION < c < COLUMNS ==> columns[c] == tokens[c + extra])
  {
    hide At, Terminated, Free, Start;
    var extra := |p| - |l|;
    var columns := tokens[..14] + [pcb, description] + tokens[16 + extra..16 + extra + 8];
    forall c | DESCRIPTION < c < COLUMNS
      ensures columns[c] == tokens[c + extra]
    {
      assert columns[c] == tokens[16 + extra..16 + extra + 8][c - 16];
    }
  }

  /** The first and last character of a C string, the terminator included. */
  lemma StringHead(s: string, p: nat, b: string)
    requires p <= |s| && CStr(s, NUL, p) == b && IndexOf(s, NUL, p) == p + |b| < |s|
    ensures s[p] == if b == [] then NUL else b[0]
    ensures b != [] ==> s[p + |b| - 1] == b[|b| - 1]
    ensures b != [] && b[0] == QUOTE ==> s[p] != NUL
  {}

  method RepairVolt(buf: array<char>, tokens: seq<nat>, ghost p: seq<string>)
    returns (pcb: nat, start: nat, next: nat)
    requires |tokens| == MAX_TOKENS && |p| <= MAX_TOKENS && 17 <= |p|
    requires AllFree(p) && At(buf[..], 0, Terminated(p, NUL))
    requires forall k :: 0 <= k < |p| ==> tokens[k] == Start(p, k)
    modifies buf
    ensures 15 <= start <= 16 && next == start + 1 == 16 + (|p| - |VoltRepaired(p)|)
    ensures Holds(buf[..], tokens, p, VoltRepaired(p), pcb, tokens[start])
  {
    hide At, Terminated, IndexOf, CStr, Free, Start;
    assert Holds(buf[..], tokens, p, p, tokens[14], tokens[15]);
    HeldStrings(buf[..], tokens, p, p, tokens[14], tokens[15]);
    if CStr(buf[..], NUL, tokens[13]) == "\"3" && CStr(buf[..], NUL, tokens[14]) == "3V\"" {
      HoldsAfterVolt(buf[..], tokens, p);
      ghost var s := buf[..];
      buf[tokens[13] + 2] := ' ';
      assert buf[..] == s[tokens[13] + 2 := ' '];
      return tokens[15], 16, 17;
    }
    return tokens[14], 15, 16;
  }

  /** The loop that glues pieces onto a quoted description. */
  method CloseQuoted(buf: array<char>, tokens: seq<nat>, ghost p: seq<string>, ghost l0: seq<string>,
                     pcb: nat, description: nat, next0: nat)
    returns (next: nat, ghost l: seq<string>)
    requires Holds(buf[..], tokens, p, l0, pcb, description) && next0 == 16 + (|p| - |l0|)
    requires Opens(l0[DESCRIPTION])
    requires |CloseDescription(l0)| > DESCRIPTION && Ends(CloseDescription(l0)[DESCRIPTION])
    modifies buf
    ensures l == CloseDescription(l0)
    ensures Holds(buf[..], tokens, p, l, pcb, description) && next == 16 + (|p| - |l|)
  {
    hide Holds, IndexOf, CStr, Start, MergeOne;
    l, next := l0, next0;
    HeldDescription(buf[..], tokens, p, l, pcb, description);
    while buf[description + Strlen(buf[..], description) - 1] != QUOTE
      invariant Holds(buf[..], tokens, p, l, pcb, description) && DESCRIPTION < |l|
      invariant description + |l[DESCRIPTION]| < buf.Length && Strlen(buf[..], description) == |l[DESCRIPTION]|
      invariant l[DESCRIPTION] != []
      invariant buf[description + |l[DESCRIPTION]| - 1] == l[DESCRIPTION][|l[DESCRIPTION]| - 1]
      invariant CloseDescription(l) == CloseDescription(l0) && next == 16 + (|p| - |l|)
      decreases |l|
    {
      ghost var s := buf[..];
      HoldsAfterMerge(s, tokens, p, l, pcb, description);
      MergedDescription(l);
      MergeLength(l, DESCRIPTION);
      buf[description + Strlen(buf[..], description)] := ' ';
      assert buf[..] == s[description + |l[DESCRIPTION]| := ' '];
      l := MergeOne(l, DESCRIPTION);
      next := next + 1;
      HeldDescription(buf[..], tokens, p, l, pcb, description);
    }
  }

  lemma MergedDescription(l: seq<string>)
    requires DESCRIPTION + 1 < |l|
    ensures MergeOne(l, DESCRIPTION)[DESCRIPTION] != []
  {}

  function Strlen(s: string, p: nat): nat
    requires p <= |s|
  {
    IndexOf(s, NUL, p) - p
  }

  lemma HeldDescription(s: string, tokens: seq<nat>, p: seq<string>, l: seq<string>, pcb: nat, description: nat)
    requires Holds(s, tokens, p, l, pcb, description)
    ensures DESCRIPTION < |l| && description + |l[DESCRIPTION]| < |s|
    ensures Strlen(s, description) == |l[DESCRIPTION]|
    ensures var d := l[DESCRIPTION];
            && s[description] == (if d == [] then NUL else d[0])
            && (d != [] ==> s[description + |d| - 1] == d[|d| - 1])
            && (d != [] && d[0] == QUOTE ==> s[description] != NUL)
  {
    hide At, Terminated, IndexOf, CStr, Free, Start;
    HeldStrings(s, tokens, p, l, pcb, description);
    StringHead(s, description, l[DESCRIPTION]);
  }

  /** One row.  The pieces must fit the token array, leave 24 columns and close the description:
      otherwise the code runs past them.  Every column pointer ends on its column of the repaired row;
      for a row of the file's shape with a repairable description, and among rows of 24 fields or more
      for no other, these are the columns of the quote-aware reading, commas turned to spaces. */
  method ReadRow(buf: array<char>) returns (columns: seq<nat>)
    requires IndexOf(buf[..], NUL, 0) < buf.Length
    requires var p := Split(CStr(buf[..], NUL, 0), COMMA);
             |p| <= MAX_TOKENS && RowFits(p)
    modifies buf
    ensures |columns| == COLUMNS
    ensures var l := Repaired(Split(old(CStr(buf[..], NUL, 0)), COMMA));
            |l| >= COLUMNS && forall c :: 0 <= c < COLUMNS ==>
              columns[c] <= buf.Length && CStr(buf[..], NUL, columns[c]) == l[c]
    ensures var fs := QuoteSplit(old(CStr(buf[..], NUL, 0)), false);
            RowShape(fs) && RepairableDescription(fs[DESCRIPTION]) ==>
              forall c :: 0 <= c < COLUMNS ==>
                columns[c] <= buf.Length && CStr(buf[..], NUL, columns[c]) == Spaced(fs[c])
  {
    hide IndexOf, CStr, Cut, Split, QuoteSplit, Repaired, Spaced, DescriptionCloses, RowFits, RepairableDescription;
    ghost var s := buf[..];
    ghost var r := CStr(s, NUL, 0);
    RowFitsIff(Split(r, COMMA));
    RepairShortens(Split(r, COMMA));
    RowComesOut(r);
    CutHoldsParts(s, COMMA);
    var tokens, tidx := SplitRow(buf);
    ghost var extra;
    columns, extra := RepairRow(buf, tokens[..], Split(r, COMMA));
  }

  lemma RepairShortens(p: seq<string>)
    ensures |Repaired(p)| <= |p|
  {
    CloseShortens(VoltRepaired(p));
  }

  lemma RowComesOut(r: string)
    ensures var fs := QuoteSplit(r, false);
            RowShape(fs) && RepairableDescription(fs[DESCRIPTION]) ==>
              |Repaired(Split(r, COMMA))| == |fs| >= COLUMNS
              && forall c :: 0 <= c < |fs| ==> Repaired(Split(r, COMMA))[c] == Spaced(fs[c])
  {
    hide Split, QuoteSplit, Repaired, Spaced, RepairableDescription;
    if RowShape(QuoteSplit(r, false)) {
      RepairMeetsQuoteSplit(r);
    }
  }

  /** Rows of the file's shape with a repairable description are among those the loop can take. */
  lemma RepairedRowFits(r: string)
    requires RowShape(QuoteSplit(r, false)) && RepairableDescription(QuoteSplit(r, false)[DESCRIPTION])
    ensures COLUMNS <= |Repaired(Split(r, COMMA))| <= |Split(r, COMMA)|
    ensures RowFits(Split(r, COMMA))
  {
    var p, fs := Split(r, COMMA), QuoteSplit(r, false);
    RepairMeetsQuoteSplit(r);
    CloseShortens(VoltRepaired(p));
    JoinQuoteSplit(r, false);
    SplitJoined(fs);
    VoltColumn(fs);
    ClosedEnds(VoltRepaired(p));
    RowFitsIff(p);
  }

  lemma {:induction false} ClosedEnds(l: seq<string>)
    ensures |CloseDescription(l)| > DESCRIPTION + 1 ==> Ends(CloseDescription(l)[DESCRIPTION])
    decreases |l|
  {
    if |l| > DESCRIPTION + 1 && !Ends(l[DESCRIPTION]) {
      ClosedEnds(MergeOne(l, DESCRIPTION));
    }
  }
}
