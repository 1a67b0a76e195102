/** Rows of hw.csv as lists of fields: the quote-aware reading (RFC 4180 section 2), and what splitting
    at every comma and then repairing in place makes of them. */
module CsvRows {
  import opened Delimited

  const COMMA := ','
  const QUOTE := '"'

  // ---------------------------------------------------------------- the quote-aware reading

  /** Fields of a row, quotes kept: a comma between quotes does not separate. */
  function QuoteSplit(r: string, quoted: bool): (fs: seq<string>)
    ensures fs != []
  {
    if r == [] then [[]]
    else if r[0] == COMMA && !quoted then [[]] + QuoteSplit(r[1..], false)
    else
      var rest := QuoteSplit(r[1..], if r[0] == QUOTE then !quoted else quoted);
      [[r[0]] + rest[0]] + rest[1..]
  }

  lemma {:induction false} JoinQuoteSplit(r: string, quoted: bool)
    ensures Join(QuoteSplit(r, quoted), COMMA) == r
  {
    if r != [] {
      var q := if r[0] == COMMA && !quoted then false else if r[0] == QUOTE then !quoted else quoted;
      var rest := QuoteSplit(r[1..], q);
      JoinQuoteSplit(r[1..], q);
      if r[0] == COMMA && !quoted {
        assert ([[]] + rest)[1..] == rest;
      } else {
        JoinFirst(r[0], rest);
      }
      assert r == [r[0]] + r[1..];
    }
  }

  lemma JoinFirst(c: char, rest: seq<string>)
    requires rest != []
    ensures Join([[c] + rest[0]] + rest[1..], COMMA) == [c] + Join(rest, COMMA)
  {
    var l := [[c] + rest[0]] + rest[1..];
    assert l[1..] == rest[1..];
    if |rest| > 1 {
      assert [c] + rest[0] + [COMMA] + Join(rest[1..], COMMA) == [c] + (rest[0] + [COMMA] + Join(rest[1..], COMMA));
    }
  }

  /** The quotes in a text. */
  function Quotes(s: string): nat {
    if s == [] then 0 else (if s[0] == QUOTE then 1 else 0) + Quotes(s[1..])
  }

  /** The comma at `i` stands outside quotes when an even number of them comes before it. */
  predicate OutsideQuotes(f: string, i: nat, quoted: bool)
    requires i <= |f|
  {
    Quotes(f[..i]) % 2 == if quoted then 1 else 0
  }

  lemma QuotesCons(c: char, f: string)
    ensures Quotes([c] + f) == (if c == QUOTE then 1 else 0) + Quotes(f)
  {
    assert ([c] + f)[1..] == f;
  }

  lemma OutsideCons(c: char, f: string, i: nat, quoted: bool)
    requires i <= |f|
    ensures OutsideQuotes([c] + f, i + 1, quoted) <==> OutsideQuotes(f, i, if c == QUOTE then !quoted else quoted)
  {
    assert ([c] + f)[..i + 1] == [c] + f[..i];
    QuotesCons(c, f[..i]);
  }

  /** A comma left inside a field stands between quotes, and every separator stands outside them: the
      reading separates at exactly the commas outside quotes. */
  lemma {:induction false} SeparatesOutsideQuotes(r: string, quoted: bool, k: nat)
    requires k < |QuoteSplit(r, quoted)|
    ensures var f := QuoteSplit(r, quoted)[k];
            && (forall i :: 0 <= i < |f| && f[i] == COMMA ==> !OutsideQuotes(f, i, quoted && k == 0))
            && (k + 1 < |QuoteSplit(r, quoted)| ==> OutsideQuotes(f, |f|, quoted && k == 0))
    decreases |r|
  {
    hide OutsideQuotes;
    if r != [] {
      if r[0] == COMMA && !quoted {
        if k > 0 {
          SeparatesOutsideQuotes(r[1..], false, k - 1);
        } else {
          EmptyIsOutside();
        }
      } else {
        var q := if r[0] == QUOTE then !quoted else quoted;
        SeparatesOutsideQuotes(r[1..], q, k);
        if k == 0 {
          LongerField(r[0], QuoteSplit(r[1..], q)[0], quoted, |QuoteSplit(r, quoted)| > 1);
        }
      }
    }
  }

  lemma EmptyIsOutside()
    ensures OutsideQuotes([], 0, false)
  {}

  lemma LongerField(c: char, f: string, quoted: bool, more: bool)
    requires c == COMMA ==> quoted
    requires var q := if c == QUOTE then !quoted else quoted;
             && (forall i :: 0 <= i < |f| && f[i] == COMMA ==> !OutsideQuotes(f, i, q))
             && (more ==> OutsideQuotes(f, |f|, q))
    ensures var g := [c] + f;
            && (forall i :: 0 <= i < |g| && g[i] == COMMA ==> !OutsideQuotes(g, i, quoted))
            && (more ==> OutsideQuotes(g, |g|, quoted))
  {
    hide OutsideQuotes;
    var g := [c] + f;
    forall i | 0 <= i < |g| && g[i] == COMMA
      ensures !OutsideQuotes(g, i, quoted)
    {
      if i > 0 {
        OutsideCons(c, f, i - 1, quoted);
        assert g[i] == f[i - 1];
      } else {
        StartOfQuoted(g);
      }
    }
    OutsideCons(c, f, |f|, quoted);
  }

  lemma StartOfQuoted(g: string)
    ensures !OutsideQuotes(g, 0, true)
  {}

  // ---------------------------------------------------------------- splitting at every comma

  /** The pieces of all fields, in order. */
  function Pieces(fs: seq<string>): seq<string> {
    if fs == [] then [] else Split(fs[0], COMMA) + Pieces(fs[1..])
  }

  lemma {:induction false} SplitConcat(f: string, g: string)
    ensures Split(f + [COMMA] + g, COMMA) == Split(f, COMMA) + Split(g, COMMA)
    decreases |f|
  {
    hide Split, IndexOf;
    var s, i := f + [COMMA] + g, IndexOf(f, COMMA, 0);
    FirstCommaPlace(f, g);
    JoinedSlices(f, g, i);
    SplitStep(f);
    SplitStep(s);
    if i < |f| {
      SplitConcat(f[i + 1..], g);
      Prepended(f[..i], Split(f[i + 1..], COMMA), Split(g, COMMA));
    } else {
      assert f[..i] == f;
    }
  }

  lemma SplitStep(s: string)
    ensures var i := IndexOf(s, COMMA, 0);
            Split(s, COMMA) == if i == |s| then [s] else [s[..i]] + Split(s[i + 1..], COMMA)
  {
    hide IndexOf;
  }

  lemma FirstCommaPlace(f: string, g: string)
    ensures IndexOf(f + [COMMA] + g, COMMA, 0) == IndexOf(f, COMMA, 0)
  {
    hide IndexOf;
    IndexOfFirst(f, COMMA, 0);
    JoinedCells(f, g);
    IndexOfUnique(f + [COMMA] + g, COMMA, 0, IndexOf(f, COMMA, 0));
  }

  lemma JoinedCells(f: string, g: string)
    ensures var s := f + [COMMA] + g;
            s[|f|] == COMMA && forall j :: 0 <= j < |f| ==> s[j] == f[j]
  {}

  lemma JoinedSlices(f: string, g: string, i: nat)
    requires i <= |f|
    ensures var s := f + [COMMA] + g;
            s[..i] == f[..i] && s[i + 1..] == if i == |f| then g else f[i + 1..] + [COMMA] + g
  {
    if i < |f| {
      assert f == f[..i] + [f[i]] + f[i + 1..];
    }
  }

  lemma Prepended<T>(x: T, a: seq<T>, b: seq<T>)
    ensures [x] + (a + b) == ([x] + a) + b
  {}

  /** Splitting a row at every comma gives the pieces of its fields. */
  lemma {:induction false} SplitJoined(fs: seq<string>)
    requires fs != []
    ensures Split(Join(fs, COMMA), COMMA) == Pieces(fs)
  {
    if |fs| == 1 {
      assert Pieces(fs[1..]) == [];
    } else {
      SplitJoined(fs[1..]);
      SplitConcat(fs[0], Join(fs[1..], COMMA));
    }
  }

  lemma SplitFree(f: string)
    requires Free(f, COMMA)
    ensures Split(f, COMMA) == [f]
  {
    IndexOfUnique(f, COMMA, 0, |f|);
  }

  lemma {:induction false} PiecesConcat(a: seq<string>, b: seq<string>)
    ensures Pieces(a + b) == Pieces(a) + Pieces(b)
  {
    if a == [] {
      assert a + b == b;
    } else {
      assert (a + b)[1..] == a[1..] + b;
      PiecesConcat(a[1..], b);
    }
  }

  lemma {:induction false} PiecesFree(fs: seq<string>)
    requires forall k :: 0 <= k < |fs| ==> Free(fs[k], COMMA)
    ensures Pieces(fs) == fs
  {
    if fs != [] {
      SplitFree(fs[0]);
      PiecesFree(fs[1..]);
    }
  }

  // ---------------------------------------------------------------- repair on lists

  /** Pieces `i` and `i + 1` glued with a space. */
  function MergeOne(l: seq<string>, i: nat): seq<string>
    requires i + 1 < |l|
  {
    l[..i] + [l[i] + [' '] + l[i + 1]] + l[i + 2..]
  }

  predicate Opens(s: string) {
    s != [] && s[0] == QUOTE
  }

  predicate Ends(s: string) {
    s != [] && s[|s| - 1] == QUOTE
  }

  const VOLT_COLUMN := 13
  const DESCRIPTION := 15
  const COLUMNS := 24

  /** Column 13 is the quoted `3,3V`, cut in two. */
  predicate Volt(p: seq<string>) {
    |p| > 14 && p[VOLT_COLUMN] == "\"3" && p[VOLT_COLUMN + 1] == "3V\""
  }

  function VoltRepaired(p: seq<string>): seq<string> {
    if Volt(p) then MergeOne(p, VOLT_COLUMN) else p
  }

  /** Glue onto the description until it ends in a quote. */
  function CloseDescription(l: seq<string>): seq<string>
    decreases |l|
  {
    if |l| <= DESCRIPTION + 1 || Ends(l[DESCRIPTION]) then l else CloseDescription(MergeOne(l, DESCRIPTION))
  }

  function Repaired(p: seq<string>): seq<string> {
    var l := VoltRepaired(p);
    if |l| > DESCRIPTION && Opens(l[DESCRIPTION]) then CloseDescription(l) else l
  }

  /** The description closes before the pieces run out: without this the C loop leaves the row. */
  predicate DescriptionCloses(p: seq<string>) {
    var l := Repaired(p);
    |l| > DESCRIPTION && (Opens(VoltRepaired(p)[DESCRIPTION]) ==> Ends(l[DESCRIPTION]))
  }

  lemma {:induction false} CloseShortens(l: seq<string>)
    ensures |CloseDescription(l)| <= |l|
    ensures |l| > DESCRIPTION ==> |CloseDescription(l)| > DESCRIPTION
    decreases |l|
  {
    if |l| > DESCRIPTION + 1 && !Ends(l[DESCRIPTION]) {
      CloseShortens(MergeOne(l, DESCRIPTION));
    }
  }

  // ---------------------------------------------------------------- repair against the reading

  /** A field with its commas turned to spaces. */
  function Spaced(f: string): string {
    Join(Split(f, COMMA), ' ')
  }

  lemma {:induction false} SpacedCells(f: string)
    ensures |Spaced(f)| == |f|
    ensures forall i :: 0 <= i < |f| ==> Spaced(f)[i] == if f[i] == COMMA then ' ' else f[i]
    decreases |f|
  {
    var i := IndexOf(f, COMMA, 0);
    IndexOfFirst(f, COMMA, 0);
    if i < |f| {
      SpacedCells(f[i + 1..]);
      assert Split(f, COMMA) == [f[..i]] + Split(f[i + 1..], COMMA);
      assert Split(f, COMMA)[1..] == Split(f[i + 1..], COMMA);
      assert Spaced(f) == f[..i] + [' '] + Spaced(f[i + 1..]);
    }
  }

  function SpacedAll(fs: seq<string>): (r: seq<string>)
    ensures |r| == |fs|
  {
    seq(|fs|, i requires 0 <= i < |fs| => Spaced(fs[i]))
  }

  /** A row of the file: 24 fields or more, commas only in columns 13 and 15, and in column 13 only as
      the quoted `3,3V`. */
  predicate RowShape(fs: seq<string>) {
    && |fs| >= COLUMNS
    && (forall k :: 0 <= k < |fs| && k != VOLT_COLUMN && k != DESCRIPTION ==> Free(fs[k], COMMA))
    && (fs[VOLT_COLUMN] == "\"3,3V\"" ||
        (Free(fs[VOLT_COLUMN], COMMA) && !(fs[VOLT_COLUMN] == "\"3" && fs[VOLT_COLUMN + 1] == "3V\"")))
  }

  /** What the repair needs of the description: unquoted without commas, or quoted with its last piece
      alone ending in a quote. */
  predicate RepairableDescription(d: string) {
    var q := Split(d, COMMA);
    if Opens(q[0]) then Ends(q[|q| - 1]) && forall i :: 0 <= i < |q| - 1 ==> !Ends(q[i]) else |q| == 1
  }

  lemma JoinOne(s: string, x: char)
    ensures Join([s], x) == s
  {}

  lemma JoinMerged(q: seq<string>)
    requires |q| > 1
    ensures Join([q[0] + [' '] + q[1]] + q[2..], ' ') == Join(q, ' ')
  {
    var m := [q[0] + [' '] + q[1]] + q[2..];
    assert m[1..] == q[2..];
    JoinCons(q, ' ');
    if |q| == 2 {
      JoinOne(q[1], ' ');
      assert q[1..] == [q[1]] && m == [m[0]];
    } else {
      JoinCons(q[1..], ' ');
      JoinCons(m, ' ');
      assert q[1..][1..] == q[2..];
      Glue(q[0], [' '], q[1], [' '] + Join(q[2..], ' '));
    }
  }

  lemma JoinCons(q: seq<string>, x: char)
    requires |q| > 1
    ensures Join(q, x) == q[0] + ([x] + Join(q[1..], x))
  {
    assert q[0] + [x] + Join(q[1..], x) == q[0] + ([x] + Join(q[1..], x));
  }

  lemma Glue(a: string, b: string, c: string, d: string)
    ensures a + (b + (c + d)) == (a + b + c) + d
  {
  }

  /** Gluing runs exactly up to the first piece that ends in a quote. */
  lemma {:induction false} CloseAtFirst(a: seq<string>, l: seq<string>, m: nat)
    requires |a| == DESCRIPTION && m < |l|
    requires Ends(l[m]) && forall i :: 0 <= i < m ==> !Ends(l[i])
    ensures CloseDescription(a + l) == a + [Join(l[..m + 1], ' ')] + l[m + 1..]
    decreases m
  {
    if m == 0 {
      assert l[..1] == [l[0]];
      JoinOne(l[0], ' ');
      assert a + l == a + [l[0]] + l[1..];
    } else {
      hide Join, CloseDescription;
      var l' := [l[0] + [' '] + l[1]] + l[2..];
      CloseUnfold(a, l);
      assert Ends(l'[m - 1]) && forall i :: 0 <= i < m - 1 ==> !Ends(l'[i]);
      CloseAtFirst(a, l', m - 1);
      assert l'[m..] == l[m + 1..];
      assert l[..m + 1][2..] == l[2..m + 1];
      assert l'[..m] == [l[0] + [' '] + l[1]] + l[2..m + 1];
      JoinMerged(l[..m + 1]);
    }
  }

  lemma CloseUnfold(a: seq<string>, l: seq<string>)
    requires |a| == DESCRIPTION && |l| > 1 && !Ends(l[0])
    ensures CloseDescription(a + l) == CloseDescription(a + ([l[0] + [' '] + l[1]] + l[2..]))
  {
    MergedTail(a, l);
  }

  lemma MergedTail(a: seq<string>, l: seq<string>)
    requires |a| == DESCRIPTION && |l| > 1
    ensures MergeOne(a + l, DESCRIPTION) == a + ([l[0] + [' '] + l[1]] + l[2..])
  {
    assert (a + l)[..DESCRIPTION] == a && (a + l)[DESCRIPTION + 2..] == l[2..];
  }

  /** With no such piece, everything is glued into one. */
  lemma {:induction false} CloseNever(a: seq<string>, l: seq<string>)
    requires |a| == DESCRIPTION && l != [] && forall i :: 0 <= i < |l| ==> !Ends(l[i])
    ensures |CloseDescription(a + l)| == DESCRIPTION + 1
    decreases |l|
  {
    if |l| > 1 {
      var l' := [l[0] + [' '] + l[1]] + l[2..];
      MergedTail(a, l);
      CloseNever(a, l');
    }
  }

  /** The pieces of a row, column by column. */
  lemma PiecesOfRow(fs: seq<string>)
    requires RowShape(fs)
    ensures Pieces(fs) == fs[..13] + Split(fs[13], COMMA) + [fs[14]] + (Split(fs[15], COMMA) + fs[16..])
  {
    hide Split, Pieces, Free;
    var a, v, c, d, b := fs[..13], fs[13], fs[14], fs[15], fs[16..];
    assert fs == a + [v] + [c] + ([d] + b);
    PiecesConcat(a + [v] + [c], [d] + b);
    PiecesConcat([d], b);
    PiecesConcat(a + [v], [c]);
    PiecesConcat(a, [v]);
    PiecesFree(a);
    PiecesFree([c]);
    PiecesFree(b);
    PiecesOne(v);
    PiecesOne(d);
  }

  /** The pieces after the voltage repair: the columns before the description, the description's own
      pieces, and the columns behind it. */
  lemma VoltColumn(fs: seq<string>)
    requires RowShape(fs)
    ensures VoltRepaired(Pieces(fs)) ==
            SpacedAll(fs)[..DESCRIPTION] + (Split(fs[DESCRIPTION], COMMA) + fs[DESCRIPTION + 1..])
  {
    hide Split, Pieces, Free, VoltRepaired;
    var a, v, c, rest := fs[..13], fs[13], fs[14], Split(fs[15], COMMA) + fs[16..];
    PiecesOfRow(fs);
    FrontColumns(fs);
    if Free(v, COMMA) {
      SplitFree(v);
      NoVolt(a, v, c, rest);
    } else {
      VoltSplit();
      MergeVolt(a, c, rest);
    }
  }

  lemma FrontColumns(fs: seq<string>)
    requires RowShape(fs)
    ensures SpacedAll(fs)[..DESCRIPTION] ==
            fs[..13] + [if Free(fs[13], COMMA) then fs[13] else "\"3 3V\""] + [fs[14]]
  {
    hide Spaced;
    SpacedColumns(fs);
  }

  lemma NoVolt(a: seq<string>, v: string, c: string, rest: seq<string>)
    requires |a| == VOLT_COLUMN && !(v == "\"3" && c == "3V\"")
    ensures VoltRepaired(a + [v] + [c] + rest) == a + [v] + [c] + rest
  {}

  lemma PiecesOne(f: string)
    ensures Pieces([f]) == Split(f, COMMA)
  {
    assert Pieces([f][1..]) == [];
  }

  lemma MergeVolt(a: seq<string>, c: string, rest: seq<string>)
    requires |a| == VOLT_COLUMN
    ensures VoltRepaired(a + ["\"3", "3V\""] + [c] + rest) == a + ["\"3 3V\""] + [c] + rest
  {
    var l := a + ["\"3", "3V\""] + [c] + rest;
    assert l[..13] == a && l[15..] == [c] + rest;
    assert "\"3" + [' '] + "3V\"" == "\"3 3V\"";
    assert a + ["\"3 3V\""] + ([c] + rest) == a + ["\"3 3V\""] + [c] + rest;
  }

  lemma VoltSplit()
    ensures Split("\"3,3V\"", COMMA) == ["\"3", "3V\""]
    ensures Spaced("\"3,3V\"") == "\"3 3V\""
  {
    var p := ["\"3", "3V\""];
    assert p[1..] == ["3V\""];
    assert Join(p, COMMA) == "\"3" + [COMMA] + "3V\"" == "\"3,3V\"";
    SplitJoin(p, COMMA);
    assert Join(p, ' ') == "\"3" + [' '] + "3V\"";
  }

  lemma SpacedFree(f: string)
    requires Free(f, COMMA)
    ensures Spaced(f) == f
  {
    SplitFree(f);
    JoinOne(f, ' ');
  }

  lemma SpacedColumns(fs: seq<string>)
    requires RowShape(fs)
    ensures forall k :: 0 <= k < |fs| && k != VOLT_COLUMN && k != DESCRIPTION ==> SpacedAll(fs)[k] == fs[k]
    ensures SpacedAll(fs)[DESCRIPTION] == Join(Split(fs[DESCRIPTION], COMMA), ' ')
    ensures SpacedAll(fs)[VOLT_COLUMN] == if Free(fs[VOLT_COLUMN], COMMA) then fs[VOLT_COLUMN] else "\"3 3V\""
  {
    forall k | 0 <= k < |fs| && k != VOLT_COLUMN && k != DESCRIPTION
      ensures SpacedAll(fs)[k] == fs[k]
    {
      SpacedFree(fs[k]);
    }
    if Free(fs[VOLT_COLUMN], COMMA) {
      SpacedFree(fs[VOLT_COLUMN]);
    } else {
      VoltSplit();
    }
  }

  /** Split-then-repair agrees with the fields, commas turned to spaces, exactly when the description is
      repairable. */
  lemma RepairIffRepairable(fs: seq<string>)
    requires RowShape(fs)
    ensures Repaired(Pieces(fs)) == SpacedAll(fs) <==> RepairableDescription(fs[DESCRIPTION])
  {
    var q, b := Split(fs[DESCRIPTION], COMMA), fs[DESCRIPTION + 1..];
    var a := SpacedAll(fs)[..DESCRIPTION];
    VoltColumn(fs);
    SpacedParts(fs);
    RepairOfParts(a, q, b);
  }

  lemma SpacedParts(fs: seq<string>)
    requires RowShape(fs)
    ensures SpacedAll(fs) ==
            SpacedAll(fs)[..DESCRIPTION] + [Join(Split(fs[DESCRIPTION], COMMA), ' ')] + fs[DESCRIPTION + 1..]
  {
    SpacedColumns(fs);
  }

  lemma RepairOfParts(a: seq<string>, q: seq<string>, b: seq<string>)
    requires |a| == DESCRIPTION && q != [] && b != []
    ensures var l := a + (q + b);
            var r := if Opens(l[DESCRIPTION]) then CloseDescription(l) else l;
            r == a + [Join(q, ' ')] + b <==>
              if Opens(q[0]) then Ends(q[|q| - 1]) && forall i :: 0 <= i < |q| - 1 ==> !Ends(q[i]) else |q| == 1
  {
    hide Join, CloseDescription, Ends, Opens, FirstEnd;
    assert (a + (q + b))[DESCRIPTION] == q[0];
    if Opens(q[0]) {
      FirstEndIn(q, b);
      OpenedParts(a, q, b);
    } else {
      UnopenedParts(a, q, b);
    }
  }

  lemma UnopenedParts(a: seq<string>, q: seq<string>, b: seq<string>)
    requires q != []
    ensures a + (q + b) == a + [Join(q, ' ')] + b <==> |q| == 1
  {
    JoinOfOne(q);
    OneOrNot(a, q, Join(q, ' '), b);
  }

  lemma JoinOfOne(q: seq<string>)
    requires q != []
    ensures |q| == 1 ==> Join(q, ' ') == q[0]
  {}

  lemma OneOrNot<T>(a: seq<T>, q: seq<T>, j: T, b: seq<T>)
    requires |q| == 1 ==> j == q[0]
    ensures a + (q + b) == a + [j] + b <==> |q| == 1
  {
    if |q| == 1 {
      assert q == [j];
      assert a + ([j] + b) == a + [j] + b;
    } else {
      assert |a + (q + b)| != |a + [j] + b|;
    }
  }

  lemma OpenedParts(a: seq<string>, q: seq<string>, b: seq<string>)
    requires |a| == DESCRIPTION && q != [] && b != []
    ensures CloseDescription(a + (q + b)) == a + [Join(q, ' ')] + b <==> FirstEnd(q + b) == |q| - 1
  {
    hide Join, CloseDescription, Ends, FirstEnd;
    var l := q + b;
    var m := FirstEnd(l);
    FirstEndIsFirst(l);
    if m == |l| {
      CloseNever(a, l);
    } else {
      CloseAtFirst(a, l, m);
      if m == |q| - 1 {
        assert l[..m + 1] == q && l[m + 1..] == b;
      } else {
        LengthsDiffer(a, l, q, b, m);
      }
    }
  }

  /** The first piece that ends in a quote; `|l|` when none does. */
  function FirstEnd(l: seq<string>): (m: nat)
    ensures m <= |l|
  {
    if l == [] || Ends(l[0]) then 0 else 1 + FirstEnd(l[1..])
  }

  lemma {:induction false} FirstEndIsFirst(l: seq<string>)
    ensures FirstEnd(l) < |l| ==> Ends(l[FirstEnd(l)])
    ensures forall i :: 0 <= i < FirstEnd(l) ==> !Ends(l[i])
  {
    hide Ends;
    if l != [] && !Ends(l[0]) {
      FirstEndIsFirst(l[1..]);
      forall i | 0 <= i < FirstEnd(l)
        ensures !Ends(l[i])
      {
        assert i > 0 ==> l[i] == l[1..][i - 1];
      }
    }
  }

  lemma FirstEndIn(q: seq<string>, b: seq<string>)
    requires q != []
    ensures FirstEnd(q + b) == |q| - 1 <==> Ends(q[|q| - 1]) && forall i :: 0 <= i < |q| - 1 ==> !Ends(q[i])
  {
    hide Ends, FirstEnd;
    var l := q + b;
    FirstEndIsFirst(l);
    assert forall i :: 0 <= i < |q| ==> l[i] == q[i];
  }

  lemma LengthsDiffer(a: seq<string>, l: seq<string>, q: seq<string>, b: seq<string>, m: nat)
    requires q != [] && l == q + b && m < |l| && m != |q| - 1
    ensures |a + [Join(l[..m + 1], ' ')] + l[m + 1..]| != |a + [Join(q, ' ')] + b|
  {}

  // ---------------------------------------------------------------- every row of 24 fields

  /** A first piece as long as the field is the whole field. */
  lemma WholeFirst(f: string)
    requires |Split(f, COMMA)[0]| == |f|
    ensures Free(f, COMMA) && Split(f, COMMA) == [f]
  {
    var i := IndexOf(f, COMMA, 0);
    IndexOfFirst(f, COMMA, 0);
    assert Split(f, COMMA)[0] == f[..i];
    SplitFree(f);
  }

  /** Behind comma-free fields the pieces go on with those of the next field. */
  lemma PiecesBehind(fs: seq<string>, n: nat)
    requires n < |fs| && forall i :: 0 <= i < n ==> Free(fs[i], COMMA)
    ensures Pieces(fs) == fs[..n] + (Split(fs[n], COMMA) + Pieces(fs[n + 1..]))
  {
    hide Split, Free, Pieces;
    AroundField(fs, n);
    PiecesThree(fs[..n], fs[n], fs[n + 1..]);
    PiecesFree(fs[..n]);
  }

  lemma AroundField(fs: seq<string>, n: nat)
    requires n < |fs|
    ensures fs == fs[..n] + ([fs[n]] + fs[n + 1..])
  {}

  lemma PiecesThree(a: seq<string>, f: string, b: seq<string>)
    ensures Pieces(a + ([f] + b)) == Pieces(a) + (Split(f, COMMA) + Pieces(b))
  {
    hide Split, Pieces;
    PiecesConcat(a, [f] + b);
    PiecesConcat([f], b);
    PiecesOne(f);
  }

  /** Pieces that agree with the spaced fields from the start leave those fields without commas. */
  lemma {:induction false} FreePrefix(fs: seq<string>, n: nat)
    requires n <= |fs| && n <= |Pieces(fs)|
    requires forall i :: 0 <= i < n ==> Pieces(fs)[i] == Spaced(fs[i])
    ensures forall i :: 0 <= i < n ==> Free(fs[i], COMMA)
  {
    hide Pieces, Spaced, Free, Split;
    if n > 0 {
      FreePrefix(fs, n - 1);
      PiecesBehind(fs, n - 1);
      assert Pieces(fs)[n - 1] == Split(fs[n - 1], COMMA)[0];
      SpacedCells(fs[n - 1]);
      WholeFirst(fs[n - 1]);
    }
  }

  lemma {:induction false} CloseKeepsFront(l: seq<string>)
    requires |l| >= DESCRIPTION
    ensures |CloseDescription(l)| >= DESCRIPTION && CloseDescription(l)[..DESCRIPTION] == l[..DESCRIPTION]
    decreases |l|
  {
    if |l| > DESCRIPTION + 1 && !Ends(l[DESCRIPTION]) {
      CloseKeepsFront(MergeOne(l, DESCRIPTION));
    }
  }

  lemma {:induction false} JoinLonger(u: seq<string>, w: seq<string>)
    requires u != [] && |u| < |w| && u == w[..|u|]
    ensures |Join(u, ' ')| < |Join(w, ' ')|
    decreases |u|
  {
    JoinCons(w, ' ');
    if |u| > 1 {
      JoinCons(u, ' ');
      JoinLonger(u[1..], w[1..]);
    } else {
      JoinOne(u[0], ' ');
    }
  }

  /** The first two of the special columns: in any row that comes out right they have the row shape. */
  lemma FrontShape(fs: seq<string>)
    requires |fs| >= COLUMNS && |VoltRepaired(Pieces(fs))| >= DESCRIPTION
    requires forall k :: 0 <= k < DESCRIPTION ==> VoltRepaired(Pieces(fs))[k] == Spaced(fs[k])
    ensures forall k :: 0 <= k < DESCRIPTION && k != VOLT_COLUMN ==> Free(fs[k], COMMA)
    ensures fs[VOLT_COLUMN] == "\"3,3V\"" ||
            (Free(fs[VOLT_COLUMN], COMMA) && !(fs[VOLT_COLUMN] == "\"3" && fs[VOLT_COLUMN + 1] == "3V\""))
  {
    hide Pieces, Spaced, Free, Split;
    var p, v := Pieces(fs), VoltRepaired(Pieces(fs));
    FrontOf(p);
    FreePrefix(fs, VOLT_COLUMN);
    PiecesBehind(fs, VOLT_COLUMN);
    assert p[VOLT_COLUMN] == Split(fs[VOLT_COLUMN], COMMA)[0];
    if Volt(p) {
      VoltField(fs[VOLT_COLUMN]);
      VoltSplit();
      VoltThenNext(fs, p);
      assert v[14] == p[15] == Split(fs[14], COMMA)[0];
      SpacedCells(fs[14]);
      WholeFirst(fs[14]);
    } else {
      FreePrefix(fs, DESCRIPTION);
      SpacedFree(fs[13]);
      SpacedFree(fs[14]);
    }
  }

  lemma FrontOf(p: seq<string>)
    requires |VoltRepaired(p)| >= DESCRIPTION
    ensures |p| >= DESCRIPTION && forall k :: 0 <= k < VOLT_COLUMN ==> p[k] == VoltRepaired(p)[k]
    ensures Volt(p) ==> |p| > DESCRIPTION && VoltRepaired(p)[13] == "\"3 3V\"" && VoltRepaired(p)[14] == p[15]
    ensures !Volt(p) ==> VoltRepaired(p) == p
  {
    assert Volt(p) ==> p[13] + [' '] + p[14] == "\"3 3V\"";
  }

  /** Only the quoted `3,3V` has its first piece and its spaced form. */
  lemma VoltField(f: string)
    requires Split(f, COMMA)[0] == "\"3" && Spaced(f) == "\"3 3V\""
    ensures f == "\"3,3V\""
  {
    SpacedCells(f);
    if Free(f, COMMA) {
      SplitFree(f);
      assert false;
    }
    var i :| 0 <= i < |f| && f[i] == COMMA;
    var s := "\"3 3V\"";
    assert s[i] == ' ';
    assert |s| == 6 && s[0] == QUOTE && s[1] == '3' && s[3] == '3' && s[4] == 'V' && s[5] == QUOTE;
    assert f == [f[0], f[1], f[2], f[3], f[4], f[5]];
  }

  lemma VoltThenNext(fs: seq<string>, p: seq<string>)
    requires |fs| >= COLUMNS && p == fs[..13] + (["\"3", "3V\""] + Pieces(fs[14..]))
    ensures |p| > 15 && p[15] == Split(fs[14], COMMA)[0]
  {
    assert fs[14..][0] == fs[14];
    PiecesBehind(fs[14..], 0);
    assert Pieces(fs[14..])[0] == Split(fs[14], COMMA)[0];
  }

  /** The pieces after the voltage repair in a row whose front has the row shape. */
  lemma BackOfRow(fs: seq<string>) returns (a: seq<string>)
    requires |fs| >= COLUMNS
    requires forall k :: 0 <= k < DESCRIPTION && k != VOLT_COLUMN ==> Free(fs[k], COMMA)
    requires fs[VOLT_COLUMN] == "\"3,3V\"" ||
             (Free(fs[VOLT_COLUMN], COMMA) && !(fs[VOLT_COLUMN] == "\"3" && fs[VOLT_COLUMN + 1] == "3V\""))
    ensures |a| == DESCRIPTION
    ensures VoltRepaired(Pieces(fs)) == a + (Split(fs[DESCRIPTION], COMMA) + Pieces(fs[DESCRIPTION + 1..]))
  {
    hide Pieces, Free, Split, VoltRepaired;
    var rest := Split(fs[15], COMMA) + Pieces(fs[16..]);
    BackPieces(fs);
    if Free(fs[13], COMMA) {
      UncutVolt(fs, rest);
      a := fs[..13] + [fs[13]] + [fs[14]];
    } else {
      CutVolt(fs, rest);
      a := fs[..13] + ["\"3 3V\""] + [fs[14]];
    }
  }

  lemma UncutVolt(fs: seq<string>, rest: seq<string>)
    requires |fs| >= COLUMNS && rest == Split(fs[15], COMMA) + Pieces(fs[16..])
    requires forall k :: 0 <= k < DESCRIPTION ==> Free(fs[k], COMMA)
    requires !(fs[13] == "\"3" && fs[14] == "3V\"")
    ensures VoltRepaired(Pieces(fs)) == fs[..13] + [fs[13]] + [fs[14]] + rest
  {
    hide Pieces, Free, Split, VoltRepaired;
    PiecesBehind(fs, 15);
    FirstFifteen(fs);
    NoVolt(fs[..13], fs[13], fs[14], rest);
  }

  lemma FirstFifteen(fs: seq<string>)
    requires |fs| >= COLUMNS
    ensures fs[..15] == fs[..13] + [fs[13]] + [fs[14]]
  {}

  lemma CutVolt(fs: seq<string>, rest: seq<string>)
    requires |fs| >= COLUMNS && Pieces(fs[14..]) == [fs[14]] + rest && fs[13] == "\"3,3V\""
    requires forall k :: 0 <= k < 13 ==> Free(fs[k], COMMA)
    ensures VoltRepaired(Pieces(fs)) == fs[..13] + ["\"3 3V\""] + [fs[14]] + rest
  {
    hide Pieces, Free, Split, VoltRepaired;
    VoltSplit();
    PiecesBehind(fs, 13);
    MergeVolt(fs[..13], fs[14], rest);
    assert fs[..13] + (["\"3", "3V\""] + ([fs[14]] + rest)) == fs[..13] + ["\"3", "3V\""] + [fs[14]] + rest;
  }

  lemma BackPieces(fs: seq<string>)
    requires |fs| >= COLUMNS && Free(fs[14], COMMA)
    ensures Pieces(fs[14..]) == [fs[14]] + (Split(fs[15], COMMA) + Pieces(fs[16..]))
  {
    hide Split, Free;
    var g := fs[14..];
    assert g[0] == fs[14] && g[1] == fs[15] && g[2..] == fs[16..] && g[..1] == [fs[14]];
    PiecesBehind(g, 1);
  }

  /** Repair that comes out right glued exactly the pieces of the description. */
  lemma BackShape(a: seq<string>, q: seq<string>, b: seq<string>, b': seq<string>)
    requires |a| == DESCRIPTION && q != [] && |b'| > 0
    requires var l := a + (q + b);
             (if Opens(q[0]) then CloseDescription(l) else l) == a + [Join(q, ' ')] + b'
    requires Opens(q[0]) || |Join(q, ' ')| > |q[0]| || |q| == 1
    ensures b == b'
  {
    hide Join, CloseDescription, Ends, Opens, FirstEnd;
    var r, l := a + [Join(q, ' ')] + b', q + b;
    assert r[DESCRIPTION] == Join(q, ' ') && r[DESCRIPTION + 1..] == b';
    if Opens(q[0]) {
      FirstEndIsFirst(l);
      var m := FirstEnd(l);
      if m == |l| {
        CloseNever(a, l);
        assert false;
      }
      CloseAtFirst(a, l, m);
      var r' := a + [Join(l[..m + 1], ' ')] + l[m + 1..];
      assert r'[DESCRIPTION] == Join(l[..m + 1], ' ') && r'[DESCRIPTION + 1..] == l[m + 1..];
      SameGlue(q, b, m);
    } else {
      assert (a + l)[DESCRIPTION] == q[0];
      assert (a + l)[DESCRIPTION + 1..] == q[1..] + b;
    }
  }

  lemma SameGlue(q: seq<string>, b: seq<string>, m: nat)
    requires q != [] && m < |q + b| && Join((q + b)[..m + 1], ' ') == Join(q, ' ')
    ensures m + 1 == |q| && (q + b)[m + 1..] == b
  {
    var l := q + b;
    if m + 1 < |q| {
      JoinLonger(l[..m + 1], q);
    } else if m + 1 > |q| {
      JoinLonger(q, l[..m + 1]);
    }
  }

  lemma {:induction false} JoinOverFirst(q: seq<string>)
    requires |q| > 1
    ensures |Join(q, ' ')| > |q[0]|
  {
    JoinCons(q, ' ');
  }

  /** A row that comes out right has the row shape. */
  lemma RightRowHasShape(fs: seq<string>)
    requires |fs| >= COLUMNS && Repaired(Pieces(fs)) == SpacedAll(fs)
    ensures RowShape(fs)
  {
    hide Pieces, Spaced, Free, Split, VoltRepaired, CloseDescription, Opens;
    var v, q, tail := VoltRepaired(Pieces(fs)), Split(fs[DESCRIPTION], COMMA), fs[DESCRIPTION + 1..];
    FrontAgrees(fs);
    FrontShape(fs);
    var a := BackOfRow(fs);
    FirstAndNext(a, q, Pieces(tail));
    SpacedThree(fs, a);
    if |q| > 1 {
      JoinOverFirst(q);
    }
    BackShape(a, q, Pieces(tail), SpacedAll(tail));
    FreePrefix(tail, |tail|);
    TailFree(fs, tail);
  }

  lemma FirstAndNext(a: seq<string>, q: seq<string>, b: seq<string>)
    requires q != []
    ensures (a + (q + b))[|a|] == q[0]
    ensures forall k :: 0 <= k < |a| ==> (a + (q + b))[k] == a[k]
  {}

  lemma TailFree(fs: seq<string>, tail: seq<string>)
    requires |fs| >= COLUMNS && tail == fs[DESCRIPTION + 1..]
    requires forall k :: 0 <= k < |tail| ==> Free(tail[k], COMMA)
    ensures forall k :: DESCRIPTION < k < |fs| ==> Free(fs[k], COMMA)
  {
    hide Free;
    forall k | DESCRIPTION < k < |fs|
      ensures Free(fs[k], COMMA)
    {
      assert fs[k] == tail[k - DESCRIPTION - 1];
    }
  }

  /** The repair of the description leaves the columns before it alone. */
  lemma FrontAgrees(fs: seq<string>)
    requires |fs| >= COLUMNS && Repaired(Pieces(fs)) == SpacedAll(fs)
    ensures |VoltRepaired(Pieces(fs))| >= COLUMNS
    ensures forall k :: 0 <= k < DESCRIPTION ==> VoltRepaired(Pieces(fs))[k] == Spaced(fs[k])
  {
    hide Pieces, Spaced, VoltRepaired, CloseDescription, Opens;
    var v := VoltRepaired(Pieces(fs));
    LongEnoughBefore(Pieces(fs));
    CloseKeepsFront(v);
    forall k | 0 <= k < DESCRIPTION
      ensures v[k] == Spaced(fs[k])
    {
      assert v[k] == v[..DESCRIPTION][k] == Repaired(Pieces(fs))[..DESCRIPTION][k] == SpacedAll(fs)[k];
    }
  }

  lemma LongEnoughBefore(p: seq<string>)
    requires |Repaired(p)| >= COLUMNS
    ensures |VoltRepaired(p)| >= COLUMNS
  {
    CloseShortens(VoltRepaired(p));
  }

  lemma SpacedThree(fs: seq<string>, a: seq<string>)
    requires |fs| >= COLUMNS && |a| == DESCRIPTION
    requires forall k :: 0 <= k < DESCRIPTION ==> a[k] == Spaced(fs[k])
    ensures SpacedAll(fs) ==
            a + [Join(Split(fs[DESCRIPTION], COMMA), ' ')] + SpacedAll(fs[DESCRIPTION + 1..])
  {}

  /** Split-then-repair restores a row of 24 fields or more exactly when the row has the shape of the
      file and a repairable description. */
  lemma RepairExactly(fs: seq<string>)
    requires |fs| >= COLUMNS
    ensures Repaired(Pieces(fs)) == SpacedAll(fs) <==> RowShape(fs) && RepairableDescription(fs[DESCRIPTION])
  {
    hide Repaired, Pieces, SpacedAll, RowShape, RepairableDescription;
    if Repaired(Pieces(fs)) == SpacedAll(fs) {
      RightRowHasShape(fs);
    }
    if RowShape(fs) {
      RepairIffRepairable(fs);
    }
  }

  /** The same against the quote-aware split of the row text. */
  lemma RepairMeetsQuoteSplit(r: string)
    requires |QuoteSplit(r, false)| >= COLUMNS
    ensures Repaired(Split(r, COMMA)) == SpacedAll(QuoteSplit(r, false))
            <==> RowShape(QuoteSplit(r, false)) && RepairableDescription(QuoteSplit(r, false)[DESCRIPTION])
  {
    JoinQuoteSplit(r, false);
    SplitJoined(QuoteSplit(r, false));
    RepairExactly(QuoteSplit(r, false));
  }

  /** The description's condition on its characters: a quoted one ends in a quote and has none right
      before a comma, any other has no comma. */
  lemma RepairableByCharacters(d: string)
    ensures RepairableDescription(d) <==>
              if d != [] && d[0] == '"'
              then d[|d| - 1] == '"' && forall c :: 0 < c < |d| && d[c] == ',' ==> d[c - 1] != '"'
              else forall c :: 0 <= c < |d| ==> d[c] != ','
  {
    hide Split;
    var q := Split(d, COMMA);
    JoinSplit(d, COMMA);
    PieceEnds(q);
    FirstCharacter(q);
    if |q| == 1 {
      SplitOfOne(d);
    } else {
      SplitOfMore(d);
    }
  }

  lemma SplitOfOne(d: string)
    requires |Split(d, COMMA)| == 1
    ensures Free(d, COMMA)
  {
    IndexOfFirst(d, COMMA, 0);
  }

  lemma SplitOfMore(d: string)
    requires |Split(d, COMMA)| > 1
    ensures exists c :: 0 <= c < |d| && d[c] == COMMA
  {
    var i := IndexOf(d, COMMA, 0);
    assert d[i] == COMMA;
  }

  lemma FirstCharacter(q: seq<string>)
    requires q != [] && Free(q[0], COMMA)
    ensures var d := Join(q, COMMA);
            Opens(q[0]) <==> d != [] && d[0] == QUOTE
  {
    if |q| > 1 {
      JoinCons(q, COMMA);
    }
  }

  /** Where the pieces of a joined text end: the last one at its end, the others right before a comma. */
  lemma {:induction false} PieceEnds(q: seq<string>)
    requires q != [] && forall k :: 0 <= k < |q| ==> Free(q[k], COMMA)
    ensures var d := Join(q, COMMA);
            && (Ends(q[|q| - 1]) <==> d != [] && d[|d| - 1] == QUOTE)
            && ((forall k :: 0 <= k < |q| - 1 ==> !Ends(q[k]))
                <==> forall c :: 0 < c < |d| && d[c] == COMMA ==> d[c - 1] != QUOTE)
    decreases |q|
  {
    hide Ends;
    if |q| == 1 {
      EndsMeans(q[0]);
    } else {
      PieceEnds(q[1..]);
      EndsMeans(q[0]);
      JoinCons(q, COMMA);
      EndsBehind(q[0], Join(q[1..], COMMA));
      LastOfTail(q);
    }
  }

  lemma EndsMeans(s: string)
    ensures Ends(s) <==> s != [] && s[|s| - 1] == QUOTE
  {}

  lemma LastOfTail(q: seq<string>)
    requires |q| > 1
    ensures q[1..][|q[1..]| - 1] == q[|q| - 1]
    ensures (forall k :: 0 <= k < |q| - 1 ==> !Ends(q[k]))
            <==> !Ends(q[0]) && forall k :: 0 <= k < |q[1..]| - 1 ==> !Ends(q[1..][k])
  {
    hide Ends;
    var t := q[1..];
    if !Ends(q[0]) && forall k :: 0 <= k < |t| - 1 ==> !Ends(t[k]) {
      forall k | 0 <= k < |q| - 1
        ensures !Ends(q[k])
      {
        assert k > 0 ==> q[k] == t[k - 1];
      }
    }
    if forall k :: 0 <= k < |q| - 1 ==> !Ends(q[k]) {
      forall k | 0 <= k < |t| - 1
        ensures !Ends(t[k])
      {
        assert t[k] == q[k + 1];
      }
    }
  }

  /** Quotes before commas in a piece and what follows it. */
  lemma EndsBehind(x: string, y: string)
    requires Free(x, COMMA)
    ensures var d := x + ([COMMA] + y);
            && (d[|d| - 1] == QUOTE <==> y != [] && y[|y| - 1] == QUOTE)
            && ((forall c :: 0 < c < |d| && d[c] == COMMA ==> d[c - 1] != QUOTE)
                <==> !(x != [] && x[|x| - 1] == QUOTE)
                     && forall c :: 0 < c < |y| && y[c] == COMMA ==> y[c - 1] != QUOTE)
  {
    var d := x + ([COMMA] + y);
    var n := |x| + 1;
    assert d[n - 1] == COMMA;
    assert forall i :: 0 <= i < |x| ==> d[i] == x[i];
    assert forall i :: 0 <= i < |y| ==> d[n + i] == y[i];
    if forall c :: 0 < c < |d| && d[c] == COMMA ==> d[c - 1] != QUOTE {
      if x != [] {
        assert d[n - 2] == x[|x| - 1];
      }
      forall c | 0 < c < |y| && y[c] == COMMA
        ensures y[c - 1] != QUOTE
      {
        assert d[n + c] == y[c] && d[n + (c - 1)] == y[c - 1];
      }
    }
    if !(x != [] && x[|x| - 1] == QUOTE) && forall c :: 0 < c < |y| && y[c] == COMMA ==> y[c - 1] != QUOTE {
      forall c | 0 < c < |d| && d[c] == COMMA
        ensures d[c - 1] != QUOTE
      {
        if c >= n {
          assert d[c] == y[c - n];
          assert c > n ==> d[c - 1] == y[c - n - 1];
        }
      }
    }
  }

  /** The exact condition of the repair, on the characters of the fields: commas only in the quoted `3,3V`
      of column 13 and in column 15, and column 15 as above. */
  lemma RepairByCharacters(fs: seq<string>)
    requires |fs| >= 24
    ensures Repaired(Pieces(fs)) == SpacedAll(fs)
            <==> && (forall k, c :: 0 <= k < |fs| && k != 13 && k != 15 && 0 <= c < |fs[k]| ==> fs[k][c] != ',')
                 && (fs[13] == "\"3,3V\"" || ((forall c :: 0 <= c < |fs[13]| ==> fs[13][c] != ',')
                                              && !(fs[13] == "\"3" && fs[14] == "3V\"")))
                 && if fs[15] != [] && fs[15][0] == '"'
                    then fs[15][|fs[15]| - 1] == '"'
                         && forall c :: 0 < c < |fs[15]| && fs[15][c] == ',' ==> fs[15][c - 1] != '"'
                    else forall c :: 0 <= c < |fs[15]| ==> fs[15][c] != ','
  {
    hide Repaired, Pieces, SpacedAll, RepairableDescription;
    RepairExactly(fs);
    RepairableByCharacters(fs[15]);
  }

  // ---------------------------------------------------------------- the rows the loop can take

  /** Told from the pieces: 24 columns are left when the description, if it opens with a quote, has
      taken the pieces up to the first that ends in one. */
  predicate RowFits(p: seq<string>) {
    var v := VoltRepaired(p);
    |v| >= COLUMNS && (Opens(v[DESCRIPTION]) ==> FirstEnd(v[DESCRIPTION..]) + COLUMNS <= |v|)
  }

  /** These are exactly the rows whose repair leaves 24 columns and closes the description. */
  lemma RowFitsIff(p: seq<string>)
    ensures RowFits(p) <==> COLUMNS <= |Repaired(p)| && DescriptionCloses(p)
  {
    hide VoltRepaired, CloseDescription, FirstEnd, Ends, Opens, Join;
    var v := VoltRepaired(p);
    CloseShortens(v);
    if |v| >= COLUMNS && Opens(v[DESCRIPTION]) {
      var a, l := v[..DESCRIPTION], v[DESCRIPTION..];
      assert v == a + l;
      FirstEndIsFirst(l);
      var m := FirstEnd(l);
      if m < |l| {
        CloseAtFirst(a, l, m);
        GluedEnds(l[..m + 1]);
      } else {
        CloseNever(a, l);
      }
    }
  }

  /** A row of 24 fields, none with a comma, whose description opens with a quote and does not close. */
  lemma UnclosedRowDoesNotFit()
    ensures var fs := seq(COLUMNS, i => if i == DESCRIPTION then "\"a" else "x");
            Pieces(fs) == fs && !RowFits(fs)
  {
    var fs := seq(COLUMNS, i => if i == DESCRIPTION then "\"a" else "x");
    PiecesFree(fs);
    FirstEndIsFirst(fs[DESCRIPTION..]);
  }

  /** Glued pieces end as the last of them does. */
  lemma {:induction false} GluedEnds(l: seq<string>)
    requires l != [] && Ends(l[|l| - 1])
    ensures Ends(Join(l, ' '))
    decreases |l|
  {
    if |l| > 1 {
      JoinCons(l, ' ');
      GluedEnds(l[1..]);
      var j := Join(l[1..], ' ');
      assert Join(l, ' ')[|Join(l, ' ')| - 1] == j[|j| - 1];
    } else {
      JoinOne(l[0], ' ');
      assert l == [l[0]];
    }
  }
}
