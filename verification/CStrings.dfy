/** C strings in a buffer: searching them, and cutting one in place by turning separators into
    terminators. */
module CStrings {
  import opened Delimited
  import opened Wrappers

  const NUL := '\0'

  /** strncpy of a C string into a zeroed buffer of `n + 1` characters, as a C string. */
  function Truncated(s: string, n: nat): (r: string)
    ensures r <= s && |r| == if |s| <= n then |s| else n
  {
    if |s| <= n then s else s[..n]
  }

  method StrNCpy(s: string, n: nat) returns (r: string)
    ensures r == Truncated(s, n)
  {
    r := [];
    var i := 0;
    while i < n && i < |s|
      invariant 0 <= i <= n && i <= |s|
      invariant r == s[..i]
    {
      r := r + [s[i]];
      i := i + 1;
    }
  }

  /** The first `n` characters with their separators turned into terminators. */
  function Cut(s: string, x: char, n: nat): (r: string)
    ensures |r| == |s|
  {
    seq(|s|, i requires 0 <= i < |s| => if i < n && s[i] == x then NUL else s[i])
  }

  /** Replacing the separator of joined parts is joining with the other one. */
  lemma {:induction false} CutJoin(parts: seq<string>, x: char)
    requires parts != [] && forall k :: 0 <= k < |parts| ==> Free(parts[k], x)
    ensures Cut(Join(parts, x), x, |Join(parts, x)|) == Join(parts, NUL)
    decreases |parts|
  {
    if |parts| > 1 {
      CutJoin(parts[1..], x);
      CutConcat(parts[0], Join(parts[1..], x), x);
    }
  }

  lemma CutConcat(a: string, b: string, x: char)
    requires Free(a, x)
    ensures Cut(a + [x] + b, x, |a + [x] + b|) == a + [NUL] + Cut(b, x, |b|)
  {
    var s := a + [x] + b;
    var l, r := Cut(s, x, |s|), a + [NUL] + Cut(b, x, |b|);
    forall i | 0 <= i < |s|
      ensures l[i] == r[i]
    {
      assert i > |a| ==> s[i] == b[i - |a| - 1];
    }
  }

  /** A cut buffer holds the pieces as C strings, one after the other. */
  lemma CutHoldsParts(s: string, x: char)
    requires IndexOf(s, NUL, 0) < |s| && x != NUL
    ensures var c := CStr(s, NUL, 0);
            At(Cut(s, x, |c|), 0, Terminated(Split(c, x), NUL))
    ensures forall k :: 0 <= k < |Split(CStr(s, NUL, 0), x)| ==> Free(Split(CStr(s, NUL, 0), x)[k], NUL)
  {
    var c := CStr(s, NUL, 0);
    var parts := Split(c, x);
    JoinSplit(c, x);
    CutJoin(parts, x);
    JoinTerminated(parts, NUL);
    CutPrefix(s, c, x);
    CStrFree(s, NUL, 0);
    PartsFree(parts, c, x);
  }

  lemma CutPrefix(s: string, c: string, x: char)
    requires |c| < |s| && c == s[..|c|] && s[|c|] == NUL && x != NUL
    ensures At(Cut(s, x, |c|), 0, Cut(c, x, |c|) + [NUL])
  {
    assert Cut(s, x, |c|)[..|c| + 1] == Cut(c, x, |c|) + [NUL];
  }

  lemma PartsFree(parts: seq<string>, c: string, x: char)
    requires parts != [] && c == Join(parts, x) && Free(c, NUL)
    ensures forall k :: 0 <= k < |parts| ==> Free(parts[k], NUL)
  {
    JoinTerminated(parts, x);
    forall k | 0 <= k < |parts|
      ensures Free(parts[k], NUL)
    {
      PartSlice(parts, x, k);
      PartCells(c, parts[k], Start(parts, k), x);
    }
  }

  lemma PartCells(c: string, part: string, p: nat, x: char)
    requires Free(c, NUL) && At(c + [x], p, part + [x])
    ensures Free(part, NUL)
  {
    SliceCells(c + [x], p, part + [x]);
    forall i | 0 <= i < |part|
      ensures part[i] != NUL
    {
      assert (c + [x])[p + i] == (part + [x])[i];
    }
  }

  /** strchr(buf + p, x): the first `x` of the C string at `p`. */
  method StrChr(buf: array<char>, p: nat, x: char) returns (i: Option<nat>)
    requires p <= buf.Length && IndexOf(buf[..], NUL, p) < buf.Length && x != NUL
    ensures var s := CStr(buf[..], NUL, p);
            i == if IndexOf(s, x, 0) < |s| then Some(p + IndexOf(s, x, 0)) else None
  {
    IndexOfFirst(buf[..], NUL, p);
    ghost var s := CStr(buf[..], NUL, p);
    var k := p;
    while buf[k] != x && buf[k] != NUL
      invariant p <= k <= p + |s|
      invariant forall j :: 0 <= j < k - p ==> s[j] != x
      decreases buf.Length - k
    {
      k := k + 1;
    }
    IndexOfUnique(s, x, 0, if buf[k] == x then k - p else |s|);
    return if buf[k] == x then Some(k) else None;
  }

  /** The piece at the cursor: where its separator is, in the part of the buffer not yet cut. */
  lemma NextSeparator(s: string, c: string, x: char, parts: seq<string>, k: nat)
    requires IndexOf(s, NUL, 0) < |s| && c == CStr(s, NUL, 0) && parts == Split(c, x) && k < |parts| && x != NUL
    ensures Start(parts, k) <= |c| < |s|
    ensures IndexOf(Cut(s, x, Start(parts, k)), NUL, Start(parts, k)) == |c|
    ensures CStr(Cut(s, x, Start(parts, k)), NUL, Start(parts, k)) == c[Start(parts, k)..]
    ensures IndexOf(c[Start(parts, k)..], x, 0) == |parts[k]|
    ensures Start(parts, k) + |parts[k]| <= |c|
    ensures k + 1 == |parts| <==> Start(parts, k) + |parts[k]| == |c|
  {
    JoinSplit(c, x);
    JoinTerminated(parts, x);
    var p := Start(parts, k);
    PartSlice(parts, x, k);
    LastPartEnds(parts, x, k);
    PieceInContent(c, parts[k], p, x);
    UncutTail(s, c, x, p);
  }

  lemma LastPartEnds(parts: seq<string>, x: char, k: nat)
    requires k < |parts|
    ensures k + 1 == |parts| <==> Start(parts, k) + |parts[k]| + 1 == |Terminated(parts, x)|
  {
    PartAt(parts, x, k);
    assert k + 1 < |parts| ==> parts[k + 1..] != [] && |Terminated(parts[k + 1..], x)| > 0;
  }

  lemma PieceInContent(c: string, part: string, p: nat, x: char)
    requires At(c + [x], p, part + [x]) && Free(part, x)
    ensures p + |part| <= |c| && IndexOf(c[p..], x, 0) == |part|
  {
    var d := c + [x];
    SliceCells(d, p, part + [x]);
    forall i | 0 <= i < |part|
      ensures c[p..][i] != x
    {
      assert d[p + i] == (part + [x])[i];
    }
    assert d[p + |part|] == (part + [x])[|part|];
    IndexOfUnique(c[p..], x, 0, |part|);
  }

  lemma UncutTail(s: string, c: string, x: char, p: nat)
    requires IndexOf(s, NUL, 0) < |s| && c == CStr(s, NUL, 0) && p <= |c|
    ensures IndexOf(Cut(s, x, p), NUL, p) == |c| && CStr(Cut(s, x, p), NUL, p) == c[p..]
  {
    IndexOfFirst(s, NUL, 0);
    IndexOfUnique(Cut(s, x, p), NUL, p, |c|);
  }

  /** index(buf + p, NUL). */
  method StrEnd(buf: array<char>, p: nat) returns (i: nat)
    requires p <= buf.Length && IndexOf(buf[..], NUL, p) < buf.Length
    ensures i == IndexOf(buf[..], NUL, p)
  {
    i := p;
    while buf[i] != NUL
      invariant i < buf.Length && IndexOf(buf[..], NUL, i) == IndexOf(buf[..], NUL, p)
      decreases buf.Length - i
    {
      i := i + 1;
    }
  }

  lemma StartSteps(parts: seq<string>)
    ensures Start(parts, 0) == 0
    ensures forall k :: 0 <= k < |parts| ==> Start(parts, k + 1) == Start(parts, k) + |parts[k]| + 1
  {}

  lemma NothingCut(s: string, x: char)
    ensures Cut(s, x, 0) == s
  {}

  /** Cutting up to a separator-free point changes nothing; cutting one separator is one store. */
  lemma CutFurther(s: string, c: string, x: char, p: nat, q: nat)
    requires IndexOf(s, NUL, 0) < |s| && c == CStr(s, NUL, 0) && p <= q <= |c|
    requires IndexOf(c[p..], x, 0) == q - p
    ensures q < |s|
    ensures q == |c| ==> Cut(s, x, |c|) == Cut(s, x, p)
    ensures q < |c| ==> Cut(s, x, q + 1) == Cut(s, x, p)[q := NUL]
  {
    PieceCellsOf(s, c, x, p, q);
    CutSame(s, x, p, q);
    if q < |c| {
      CutOne(s, x, q);
    }
  }

  lemma PieceCellsOf(s: string, c: string, x: char, p: nat, q: nat)
    requires |c| < |s| && c == s[..|c|] && p <= q <= |c|
    requires IndexOf(c[p..], x, 0) == q - p
    ensures q < |c| ==> s[q] == x
    ensures forall i :: p <= i < q ==> s[i] != x
  {
    IndexOfFirst(c[p..], x, 0);
    assert q < |c| ==> c[p..][q - p] == x;
    forall i | p <= i < q
      ensures s[i] != x
    {
      assert c[p..][i - p] == s[i];
    }
  }

  lemma CutSame(s: string, x: char, p: nat, q: nat)
    requires p <= q <= |s| && forall i :: p <= i < q ==> s[i] != x
    ensures Cut(s, x, q) == Cut(s, x, p)
  {}

  lemma CutOne(s: string, x: char, q: nat)
    requires q < |s| && s[q] == x
    ensures Cut(s, x, q + 1) == Cut(s, x, q)[q := NUL]
  {}
}
