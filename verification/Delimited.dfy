/** Delimited sequences: the C idiom of runs of cells each closed (or separated) by one
    marker cell.  String sets, uevent entries, file lines, CSV rows and recorder blobs are
    all read and written this way, so the vocabulary and its laws live here once. */
module Delimited {

  /** Two stretches behind `a`, whatever follows them. */
  lemma Stretches<T>(a: seq<T>, b: seq<T>, c: seq<T>, d: seq<T>)
    ensures At(a + (b + c) + d, |a|, b)
    ensures At(a + (b + c) + d, |a| + |b|, c)
  {}

  /** The bytes of `b` lie at `p`. */
  predicate At<T(==)>(s: seq<T>, p: nat, b: seq<T>) {
    p + |b| <= |s| && s[p..p + |b|] == b
  }

  lemma SliceOfSlice<T>(s: seq<T>, a: nat, b: nat, i: nat, j: nat)
    requires a <= b <= |s| && i <= j <= b - a
    ensures s[a..b][i..j] == s[a + i..a + j]
  {
    forall k | 0 <= k < j - i
      ensures s[a..b][i..j][k] == s[a + i..a + j][k]
    {
      assert s[a..b][i..j][k] == s[a..b][i + k] == s[a + (i + k)];
    }
  }

  lemma AtInside<T>(s: seq<T>, p: nat, b: seq<T>, i: nat, c: seq<T>)
    requires At(s, p, b) && At(b, i, c)
    ensures At(s, p + i, c)
  {
    SliceOfSlice(s, p, p + |b|, i, i + |c|);
  }

  /** A slice, cell by cell. */
  lemma SliceCells<T>(s: seq<T>, p: nat, b: seq<T>)
    requires p + |b| <= |s| && s[p..p + |b|] == b
    ensures forall i :: 0 <= i < |b| ==> s[p + i] == b[i]
  {
    forall i | 0 <= i < |b|
      ensures s[p + i] == b[i]
    {
      assert s[p..p + |b|][i] == s[p + i];
    }
  }

  lemma SliceConcat<T>(s: seq<T>, a: nat, b: nat, c: nat)
    requires a <= b <= c <= |s|
    ensures s[a..b] + s[b..c] == s[a..c]
  {}

  /** True when the marker does not occur in `s`. */
  predicate Free<T(==)>(s: seq<T>, x: T) {
    forall i :: 0 <= i < |s| ==> s[i] != x
  }

  /** `index(s + p, x)` as a position: the first marker at or after `p`, `|s|` when there is none. */
  function IndexOf<T(==)>(s: seq<T>, x: T, p: nat): (i: nat)
    requires p <= |s|
    ensures p <= i <= |s|
    ensures i < |s| ==> s[i] == x
    decreases |s| - p
  {
    if p == |s| || s[p] == x then p else IndexOf(s, x, p + 1)
  }

  lemma {:induction false} IndexOfFirst<T>(s: seq<T>, x: T, p: nat)
    requires p <= |s|
    ensures forall j :: p <= j < IndexOf(s, x, p) ==> s[j] != x
    decreases |s| - p
  {
    if p < |s| && s[p] != x {
      IndexOfFirst(s, x, p + 1);
    }
  }

  lemma {:induction false} IndexOfUnique<T>(s: seq<T>, x: T, p: nat, i: nat)
    requires p <= i <= |s|
    requires i < |s| ==> s[i] == x
    requires forall j :: p <= j < i ==> s[j] != x
    ensures IndexOf(s, x, p) == i
    decreases i - p
  {
    if p < i {
      IndexOfUnique(s, x, p + 1, i);
    }
  }

  /** The C string that starts at `p` when `x` is the terminator. */
  function CStr<T(==)>(s: seq<T>, x: T, p: nat): seq<T>
    requires p <= |s|
  {
    s[p..IndexOf(s, x, p)]
  }

  lemma CStrFree<T>(s: seq<T>, x: T, p: nat)
    requires p <= |s|
    ensures Free(CStr(s, x, p), x)
  {
    IndexOfFirst(s, x, p);
  }

  /** The parts with nothing between them. */
  function Flatten<T>(parts: seq<seq<T>>): seq<T> {
    if parts == [] then [] else parts[0] + Flatten(parts[1..])
  }

  /** Every part followed by one marker. */
  function Terminated<T>(parts: seq<seq<T>>, x: T): seq<T> {
    if parts == [] then [] else parts[0] + [x] + Terminated(parts[1..], x)
  }

  /** The parts with one marker between neighbours. */
  function Join<T>(parts: seq<seq<T>>, x: T): seq<T>
    requires parts != []
  {
    if |parts| == 1 then parts[0] else parts[0] + [x] + Join(parts[1..], x)
  }

  /** The pieces between markers; never empty. */
  function Split<T(==)>(s: seq<T>, x: T): (parts: seq<seq<T>>)
    ensures parts != []
    decreases |s|
  {
    var i := IndexOf(s, x, 0);
    if i == |s| then [s] else [s[..i]] + Split(s[i + 1..], x)
  }

  /** Joining undoes splitting, and no piece contains the marker. */
  lemma {:induction false} JoinSplit<T>(s: seq<T>, x: T)
    ensures Join(Split(s, x), x) == s
    ensures forall k :: 0 <= k < |Split(s, x)| ==> Free(Split(s, x)[k], x)
    decreases |s|
  {
    var i := IndexOf(s, x, 0);
    IndexOfFirst(s, x, 0);
    if i < |s| {
      JoinSplit(s[i + 1..], x);
      assert s == s[..i] + [s[i]] + s[i + 1..];
      assert Split(s, x)[1..] == Split(s[i + 1..], x);
    }
  }

  /** Where part `k` starts inside `Terminated(parts, x)`. */
  function Start<T>(parts: seq<seq<T>>, k: nat): nat
    requires k <= |parts|
  {
    if k == 0 then 0 else Start(parts, k - 1) + |parts[k - 1]| + 1
  }

  lemma {:induction false} TerminatedConcat<T>(a: seq<seq<T>>, b: seq<seq<T>>, x: T)
    ensures Terminated(a + b, x) == Terminated(a, x) + Terminated(b, x)
  {
    if a == [] {
      assert a + b == b;
    } else {
      assert (a + b)[1..] == a[1..] + b;
      TerminatedConcat(a[1..], b, x);
    }
  }

  lemma TerminatedOne<T>(p: seq<T>, x: T)
    ensures Terminated([p], x) == p + [x]
  {
    assert Terminated([p][1..], x) == [];
  }

  /** Part `k` and its marker sit at `Start(parts, k)`, after the encoding of the parts before it. */
  lemma {:induction false} PartAt<T>(parts: seq<seq<T>>, x: T, k: nat)
    requires k < |parts|
    ensures Start(parts, k) == |Terminated(parts[..k], x)|
    ensures Start(parts, k) + |parts[k]| < |Terminated(parts, x)|
    ensures Terminated(parts, x) ==
            Terminated(parts[..k], x) + parts[k] + [x] + Terminated(parts[k + 1..], x)
  {
    if k > 0 {
      PartAt(parts, x, k - 1);
      assert parts[..k] == parts[..k - 1] + [parts[k - 1]];
      TerminatedConcat(parts[..k - 1], [parts[k - 1]], x);
      TerminatedOne(parts[k - 1], x);
      assert parts[k - 1 + 1..] == [parts[k]] + parts[k + 1..];
      TerminatedConcat([parts[k]], parts[k + 1..], x);
      TerminatedOne(parts[k], x);
    } else {
      assert parts[..0] == [];
    }
  }

  lemma {:induction false} TotalLength<T>(parts: seq<seq<T>>, x: T)
    ensures Start(parts, |parts|) == |Terminated(parts, x)|
  {
    if parts != [] {
      var n := |parts| - 1;
      PartAt(parts, x, n);
      assert parts[n + 1..] == [];
    }
  }

  lemma PartSlice<T>(parts: seq<seq<T>>, x: T, k: nat)
    requires k < |parts|
    ensures At(Terminated(parts, x), Start(parts, k), parts[k] + [x])
  {
    PartAt(parts, x, k);
    SlicedOut(Terminated(parts[..k], x), parts[k], [x], Terminated(parts[k + 1..], x));
  }

  lemma SlicedOut<T>(a: seq<T>, b: seq<T>, x: seq<T>, c: seq<T>)
    ensures At(a + b + x + c, |a|, b + x)
  {}

  /** Reading a C string at the start of a part gives the part back, whatever surrounds the parts. */
  lemma CStrOfPart<T>(s: seq<T>, q: nat, parts: seq<seq<T>>, x: T, k: nat)
    requires At(s, q, Terminated(parts, x))
    requires k < |parts| && Free(parts[k], x)
    ensures q + Start(parts, k) + |parts[k]| < q + |Terminated(parts, x)| <= |s|
    ensures IndexOf(s, x, q + Start(parts, k)) == q + Start(parts, k) + |parts[k]|
    ensures CStr(s, x, q + Start(parts, k)) == parts[k]
  {
    PartSlice(parts, x, k);
    AtInside(s, q, Terminated(parts, x), Start(parts, k), parts[k] + [x]);
    CStrAt(s, q + Start(parts, k), parts[k], x);
  }

  lemma CStrAt<T>(s: seq<T>, p: nat, b: seq<T>, x: T)
    requires At(s, p, b + [x]) && Free(b, x)
    ensures IndexOf(s, x, p) == p + |b| && CStr(s, x, p) == b
  {
    SliceCells(s, p, b + [x]);
    assert s[p + |b|] == (b + [x])[|b|];
    forall j | p <= j < p + |b|
      ensures s[j] != x
    {
      assert s[p + (j - p)] == (b + [x])[j - p];
    }
    IndexOfUnique(s, x, p, p + |b|);
    assert At(b + [x], 0, b);
    AtInside(s, p, b + [x], 0, b);
  }

  /** Separators plus a final terminator are terminators throughout. */
  lemma {:induction false} JoinTerminated<T>(parts: seq<seq<T>>, x: T)
    requires parts != []
    ensures Join(parts, x) + [x] == Terminated(parts, x)
  {
    if |parts| == 1 {
      TerminatedOne(parts[0], x);
      assert parts == [parts[0]];
    } else {
      JoinTerminated(parts[1..], x);
    }
  }

  /** Splitting undoes joining. */
  lemma {:induction false} SplitJoin<T>(parts: seq<seq<T>>, x: T)
    requires parts != []
    requires forall k :: 0 <= k < |parts| ==> Free(parts[k], x)
    ensures Split(Join(parts, x), x) == parts
  {
    var s := Join(parts, x);
    if |parts| == 1 {
      IndexOfUnique(s, x, 0, |s|);
    } else {
      var n := |parts[0]|;
      assert s == parts[0] + ([x] + Join(parts[1..], x));
      forall j | 0 <= j < n
        ensures s[j] != x
      {
        assert s[j] == parts[0][j];
      }
      IndexOfUnique(s, x, 0, n);
      assert s[n + 1..] == Join(parts[1..], x);
      SplitJoin(parts[1..], x);
      assert s[..n] == parts[0];
    }
  }

  /** Splitting a terminated list gives the parts and one empty piece after the last marker. */
  lemma {:induction false} SplitTerminated<T>(parts: seq<seq<T>>, x: T)
    requires forall k :: 0 <= k < |parts| ==> Free(parts[k], x)
    ensures Split(Terminated(parts, x), x) == parts + [[]]
  {
    JoinEmptyTail(parts, x);
    SplitJoin(parts + [[]], x);
  }

  lemma {:induction false} JoinEmptyTail<T>(parts: seq<seq<T>>, x: T)
    ensures Join(parts + [[]], x) == Terminated(parts, x)
  {
    if parts != [] {
      assert (parts + [[]])[1..] == parts[1..] + [[]];
      JoinEmptyTail(parts[1..], x);
    }
  }
}
