/** recorder/crash.c: which crash dumps a run processes, and the tag files that keep it from processing
    them again. */
module Crashes {
  import opened CrashMessages

  type Name = string

  // ---------------------------------------------------------------- lists

  /** A list as the sequence of its entries, head first. */
  type List = seq<Name>

  /** insert_item. */
  function InsertItem(x: Name, l: List): List {
    [x] + l
  }

  predicate NoDup(l: List) {
    forall i, j :: 0 <= i < j < |l| ==> l[i] != l[j]
  }

  method DoesListContain(x: Name, l: List) returns (found: bool)
    ensures found <==> x in l
  {
    var t := l;
    while t != []
      invariant |t| <= |l| && t == l[|l| - |t|..]
      invariant x !in l[..|l| - |t|]
      decreases |t|
    {
      if x == t[0] {
        return true;
      }
      t := t[1..];
    }
    return false;
  }

  function Reverse(l: List): List {
    if l == [] then [] else Reverse(l[1..]) + [l[0]]
  }

  /** Inserting the entries of `l` one after the other, unless already there. */
  function Merge(acc: List, l: List): List
    decreases |l|
  {
    if l == [] then acc
    else Merge(if l[0] in acc then acc else InsertItem(l[0], acc), l[1..])
  }

  method CombineListsNoDup(a: List, b: List) returns (combined: List)
    ensures combined == Merge(Reverse(a), b)
  {
    combined := [];
    var tmp := a;
    while tmp != []
      invariant Reverse(a) == Reverse(tmp) + combined
      decreases |tmp|
    {
      assert Reverse(tmp) + combined == Reverse(tmp[1..]) + InsertItem(tmp[0], combined);
      combined := InsertItem(tmp[0], combined);
      tmp := tmp[1..];
    }
    assert combined == Reverse(a);
    tmp := b;
    while tmp != []
      invariant Merge(Reverse(a), b) == Merge(combined, tmp)
      decreases |tmp|
    {
      var there := DoesListContain(tmp[0], combined);
      if !there {
        combined := InsertItem(tmp[0], combined);
      }
      tmp := tmp[1..];
    }
  }

  lemma {:induction false} ReverseHolds(l: List)
    ensures |Reverse(l)| == |l|
    ensures forall i :: 0 <= i < |l| ==> Reverse(l)[i] == l[|l| - 1 - i]
    ensures forall x :: x in Reverse(l) <==> x in l
  {
    if l != [] {
      ReverseHolds(l[1..]);
      assert l == [l[0]] + l[1..];
    }
  }

  lemma {:induction false} MergeHolds(acc: List, l: List)
    ensures forall x :: x in Merge(acc, l) <==> x in acc || x in l
    ensures NoDup(Merge(acc, l)) <==> NoDup(acc)
    decreases |l|
  {
    if l != [] {
      var next := if l[0] in acc then acc else InsertItem(l[0], acc);
      MergeHolds(next, l[1..]);
      assert l == [l[0]] + l[1..];
      InsertNoDup(l[0], acc);
    }
  }

  lemma InsertNoDup(x: Name, acc: List)
    ensures NoDup(InsertItem(x, acc)) <==> NoDup(acc) && x !in acc
  {
    var l := InsertItem(x, acc);
    assert forall i :: 0 <= i < |acc| ==> l[i + 1] == acc[i];
    if NoDup(l) {
      forall i | 0 <= i < |acc|
        ensures acc[i] != x
      {
        assert l[0] != l[i + 1];
      }
      forall i, j | 0 <= i < j < |acc|
        ensures acc[i] != acc[j]
      {
        assert l[i + 1] != l[j + 1];
      }
    }
  }

  /** The combined list is the union of the two, and without duplicates exactly when the first one is. */
  lemma CombinedIsUnion(a: List, b: List)
    ensures forall x :: x in Merge(Reverse(a), b) <==> x in a || x in b
    ensures NoDup(Merge(Reverse(a), b)) <==> NoDup(a)
  {
    ReverseHolds(a);
    MergeHolds(Reverse(a), b);
    ReverseNoDup(a);
  }

  /** Each new entry goes to the head. */
  lemma CombinedInOrder(a: Name, b: Name, c: Name)
    requires NoDup([a, b, c])
    ensures Merge(Reverse([a, b]), [c, a]) == [c, b, a]
  {
    var l := [a, b, c];
    assert l[0] != l[1] && l[0] != l[2] && l[1] != l[2];
    assert [a, b][1..] == [b] && [b][1..] == [];
    assert Reverse([b]) == [b];
    assert Reverse([a, b]) == [b, a];
    MergeStep([b, a], c, [a]);
    MergeStep([c, b, a], a, []);
  }

  lemma MergeStep(acc: List, x: Name, l: List)
    ensures Merge(acc, [x] + l) == Merge(if x in acc then acc else [x] + acc, l)
  {
    assert ([x] + l)[1..] == l;
  }

  lemma ReverseNoDup(a: List)
    ensures NoDup(Reverse(a)) <==> NoDup(a)
  {
    ReverseHolds(a);
    var r := Reverse(a);
    forall i, j | 0 <= i < j < |a|
      ensures NoDup(r) ==> a[i] != a[j]
      ensures NoDup(a) ==> r[i] != r[j]
    {
      assert r[|a| - 1 - j] == a[j] && r[|a| - 1 - i] == a[i];
    }
  }

  // ---------------------------------------------------------------- the directory

  /** The crash directory: whether it can be listed, its entries in listing order, those that hold a
      vmcore, and those that hold a tag file. */
  datatype Directory = Directory(readable: bool, entries: List, dumps: set<Name>, tags: set<Name>)

  predicate Listed(d: Directory, previous: bool, x: Name) {
    x != "." && x != ".." && x in d.dumps && (x in d.tags <==> previous)
  }

  /** The entries listed, last one first. */
  function Selected(d: Directory, previous: bool, entries: List): List
    decreases |entries|
  {
    if entries == [] then []
    else
      var n := |entries| - 1;
      var l := Selected(d, previous, entries[..n]);
      if Listed(d, previous, entries[n]) then InsertItem(entries[n], l) else l
  }

  function Found(d: Directory, previous: bool): List {
    if d.readable then Selected(d, previous, d.entries) else []
  }

  /** A crash: an entry with a vmcore in a directory that can be listed. */
  predicate Crash(d: Directory, x: Name) {
    d.readable && x in d.entries && x != "." && x != ".." && x in d.dumps
  }

  lemma {:induction false} SelectedHolds(d: Directory, previous: bool, entries: List)
    ensures forall x :: x in Selected(d, previous, entries) <==> x in entries && Listed(d, previous, x)
    ensures NoDup(entries) ==> NoDup(Selected(d, previous, entries))
    decreases |entries|
  {
    if entries != [] {
      var n := |entries| - 1;
      SelectedHolds(d, previous, entries[..n]);
      assert entries == entries[..n] + [entries[n]];
      InsertNoDup(entries[n], Selected(d, previous, entries[..n]));
    }
  }

  /** Current are exactly the untagged crashes, previous exactly the tagged ones, so no entry is both. */
  lemma CurrentAndPrevious(d: Directory)
    ensures forall x :: x in Found(d, false) <==> Crash(d, x) && x !in d.tags
    ensures forall x :: x in Found(d, true) <==> Crash(d, x) && x in d.tags
    ensures NoDup(d.entries) ==> NoDup(Found(d, false)) && NoDup(Found(d, true))
  {
    SelectedHolds(d, false, d.entries);
    SelectedHolds(d, true, d.entries);
  }

  /** The same without the names: an entry other than the dot entries, with a vmcore, of a directory that
      can be listed; with a tag file it is previous, without one current. */
  lemma FoundMeans(d: Directory, previous: bool, x: Name)
    ensures x in Found(d, previous)
            <==> d.readable && x in d.entries && x != "." && x != ".." && x in d.dumps && (x in d.tags <==> previous)
  {
    SelectedHolds(d, previous, d.entries);
  }

  /** Of two listed entries the later one comes first. */
  lemma FoundInOrder(d: Directory, previous: bool, x: Name, y: Name)
    requires d.readable && d.entries == [x, y] && Listed(d, previous, x) && Listed(d, previous, y)
    ensures Found(d, previous) == [y, x]
  {
    assert [x, y][..1] == [x] && [x][..0] == [];
    assert Selected(d, previous, [x]) == [x];
  }

  // ---------------------------------------------------------------- one run

  function Sum(rs: seq<int>): int {
    if rs == [] then 0 else Sum(rs[..|rs| - 1]) + rs[|rs| - 1]
  }

  /** The entries of `cur` not in `prev`, in order. */
  function NewOnes(cur: List, prev: List): List {
    if cur == [] then []
    else
      var n := |cur| - 1;
      NewOnes(cur[..n], prev) + if cur[n] in prev then [] else [cur[n]]
  }

  lemma {:induction false} AllNew(cur: List, prev: List)
    requires forall x :: x in cur ==> x !in prev
    ensures NewOnes(cur, prev) == cur
  {
    if cur != [] {
      var n := |cur| - 1;
      AllNew(cur[..n], prev);
      assert cur == cur[..n] + [cur[n]];
    }
  }

  /** How the steps of process_crash_item turn out for one crash: which tools are installed, their exit
      statuses, whether the input script can be written, and the output file. */
  datatype Item = Item(makedumpfile: bool, dumpStatus: int, gzip: bool, gzipStatus: int, dmesg: Output,
                       crash: bool, symbols: bool, script: bool, crashStatus: int,
                       gzipAgain: bool, gzipAgainStatus: int, output: Output)

  /** The tools are there and the script is written, so the crash utility runs. */
  predicate CrashRuns(it: Item) {
    it.makedumpfile && it.crash && it.symbols && it.script
  }

  /** 1 when the crash utility cannot be run, else what logging its output returns. */
  function ItemResult(it: Item): int {
    if CrashRuns(it) then Answer(LastPieceLogged(it.output)) else 1
  }

  /** process_crash_item.  What it logs about missing tools, and the dmesg output, do not enter the
      result; every exit status added up on the way is overwritten. */
  method ProcessCrashItem(it: Item) returns (rc: int)
    ensures rc == ItemResult(it)
  {
    rc := 0;
    if it.makedumpfile {
      rc := rc + it.dumpStatus;
      if it.gzip {
        rc := rc + it.gzipStatus;
      }
      var ignored := LogFileContents(it.dmesg);
      if it.crash {
        if it.symbols {
          rc := if it.script then 0 else -1;
          if rc == 0 {
            rc := rc + it.crashStatus;
            if it.gzipAgain {
              rc := rc + it.gzipAgainStatus;
            }
            rc := LogFileContents(it.output);
          } else {
            rc := 1;
          }
        } else {
          rc := 1;
        }
      } else {
        rc := 1;
      }
    } else {
      rc := 1;
    }
  }

  /** The result is 1, 0 or -1, and what each of them says: a tool missing or the script not written; the
      last piece of a non-empty output logged; or that output not there, not read, or not logged. */
  lemma ItemResultMeans(it: Item)
    ensures ItemResult(it) == 1 <==> !it.makedumpfile || !it.crash || !it.symbols || !it.script
    ensures ItemResult(it) == 0 <==>
              it.makedumpfile && it.crash && it.symbols && it.script
              && it.output.opens && it.output.length > 0 && it.output.buffered
              && it.output.logged(|Pieces(it.output.text, MAX_BLOB)| - 1)
    ensures ItemResult(it) == 1 || ItemResult(it) == 0 || ItemResult(it) == -1
    ensures CrashRuns(it) <==> ItemResult(it) != 1
    ensures CrashRuns(it) && LastPieceLogged(it.output) <==> ItemResult(it) == 0
  {}

  /** What the run meets outside: the crashes it processes, one after the other, and whether the tag file
      of an entry can be written. */
  datatype World = World(item: nat -> Item, writable: Name -> bool)

  function Results(w: World, n: nat): seq<int> {
    seq(n, k requires 0 <= k < n => ItemResult(w.item(k)))
  }

  /** A run finds only clean sums worth a tag. */
  predicate Clean(d: Directory, w: World) {
    Found(d, false) != [] && Sum(Results(w, |Found(d, false)|)) == 0
  }

  /** The directory after a run. */
  function After(d: Directory, w: World): Directory {
    if Clean(d, w) then d.(tags := d.tags + set x | x in Found(d, false) && w.writable(x)) else d
  }

  class CrashWatcher {
    var dir: Directory

    constructor (d: Directory)
      ensures dir == d
    {
      dir := d;
    }

    method FindCrashEntries(previous: bool) returns (l: List)
      ensures l == Found(dir, previous)
    {
      l := [];
      if dir.readable {
        var i := 0;
        while i < |dir.entries|
          invariant 0 <= i <= |dir.entries|
          invariant l == Selected(dir, previous, dir.entries[..i])
        {
          var x := dir.entries[i];
          assert dir.entries[..i + 1][..i] == dir.entries[..i];
          i := i + 1;
          if x == "." || x == ".." {
            continue;
          }
          if x in dir.dumps {
            var tagged := x in dir.tags;
            if previous && tagged {
              l := InsertItem(x, l);
            } else if !previous && !tagged {
              l := InsertItem(x, l);
            }
          }
        }
        assert dir.entries[..i] == dir.entries;
      }
    }

    /** process_new_crashes: the sum of the results, and the entries processed.  The sum stays within
        their number, so an int holds it for every list that fits in memory. */
    method ProcessNewCrashes(cur: List, prev: List, w: World) returns (rc: int, processed: List)
      ensures processed == NewOnes(cur, prev)
      ensures rc == Sum(Results(w, |processed|)) && -|processed| <= rc <= |processed| <= |cur|
    {
      rc, processed := 0, [];
      var i := 0;
      while i < |cur|
        invariant 0 <= i <= |cur|
        invariant processed == NewOnes(cur[..i], prev)
        invariant rc == Sum(Results(w, |processed|)) && -|processed| <= rc <= |processed| <= i
      {
        var there := DoesListContain(cur[i], prev);
        assert cur[..i + 1][..i] == cur[..i];
        if !there {
          var one := ProcessCrashItem(w.item(|processed|));
          rc := rc + one;
          assert Results(w, |processed| + 1)[..|processed|] == Results(w, |processed|);
          processed := processed + [cur[i]];
        }
        i := i + 1;
      }
      assert cur[..i] == cur;
    }

    /** update_previous_crash_entries: every entry of either list gets its tag file, if it can be
        written; the result is always success. */
    method UpdatePreviousCrashEntries(cur: List, prev: List, w: World) returns (rc: int)
      modifies this
      ensures rc == 0
      ensures dir == old(dir).(tags := old(dir.tags) + set x | x in cur + prev && w.writable(x))
    {
      hide Merge, Reverse, NoDup;
      var update := CombineListsNoDup(cur, prev);
      CombinedIsUnion(cur, prev);
      var i := 0;
      while i < |update|
        invariant 0 <= i <= |update|
        invariant dir == old(dir).(tags := old(dir.tags) + set x | x in update[..i] && w.writable(x))
      {
        var x := update[i];
        assert update[..i + 1] == update[..i] + [x];
        if x !in dir.tags && w.writable(x) {
          dir := dir.(tags := dir.tags + {x});
        }
        i := i + 1;
      }
      assert update[..i] == update;
      return 0;
    }

    method LogProcessCrashes(w: World) returns (processed: List)
      modifies this
      ensures processed == Found(old(dir), false)
      ensures dir == After(old(dir), w)
    {
      processed := [];
      var current := FindCrashEntries(false);
      if current != [] {
        var previous := FindCrashEntries(true);
        CurrentAndPrevious(dir);
        AllNew(current, previous);
        var rc;
        rc, processed := ProcessNewCrashes(current, previous, w);
        if rc == 0 {
          rc := UpdatePreviousCrashEntries(current, previous, w);
          TagsOfBoth(old(dir), w);
        }
      }
    }
  }

  lemma TagsOfBoth(d: Directory, w: World)
    ensures d.tags + (set x | x in Found(d, false) + Found(d, true) && w.writable(x))
         == d.tags + (set x | x in Found(d, false) && w.writable(x))
  {
    CurrentAndPrevious(d);
  }

  // ---------------------------------------------------------------- whole histories

  /** The directory before run `k` of a history. */
  function Before(d: Directory, ws: seq<World>, k: nat): Directory
    requires k <= |ws|
  {
    if k == 0 then d else After(Before(d, ws, k - 1), ws[k - 1])
  }

  /** A run changes nothing but tags, and takes none away. */
  lemma {:induction false} TagsOnlyGrow(d: Directory, ws: seq<World>, j: nat, k: nat)
    requires j <= k <= |ws|
    ensures Before(d, ws, j).tags <= Before(d, ws, k).tags
    ensures Before(d, ws, k) == Before(d, ws, j).(tags := Before(d, ws, k).tags)
    decreases k - j
  {
    if j < k {
      TagsOnlyGrow(d, ws, j, k - 1);
    }
  }

  /** Run `j` was clean and could write the tag of `x`. */
  predicate Tagging(d: Directory, ws: seq<World>, j: nat, x: Name)
    requires j < |ws|
  {
    Clean(Before(d, ws, j), ws[j]) && ws[j].writable(x)
  }

  /** A crash is tagged exactly when it was from the start or an earlier run was clean and could write
      its tag. */
  lemma {:induction false} TaggedExactly(d: Directory, ws: seq<World>, k: nat, x: Name)
    requires k <= |ws| && Crash(d, x)
    ensures x in Before(d, ws, k).tags <==> x in d.tags || exists j :: 0 <= j < k && Tagging(d, ws, j, x)
  {
    if k > 0 {
      TaggedExactly(d, ws, k - 1, x);
      TagsOnlyGrow(d, ws, 0, k - 1);
      CurrentAndPrevious(Before(d, ws, k - 1));
      assert Tagging(d, ws, k - 1, x) <==> Clean(Before(d, ws, k - 1), ws[k - 1]) && ws[k - 1].writable(x);
    }
  }

  /** Over any history a run processes exactly the crashes not tagged at the start and not in the reach
      of an earlier clean run, each once when the listing has no duplicates. */
  lemma ProcessedExactly(d: Directory, ws: seq<World>, k: nat)
    requires k <= |ws|
    ensures forall x :: x in Found(Before(d, ws, k), false)
              <==> Crash(d, x) && x !in d.tags && forall j :: 0 <= j < k ==> !Tagging(d, ws, j, x)
    ensures NoDup(d.entries) ==> NoDup(Found(Before(d, ws, k), false))
  {
    hide Tagging, NoDup, Found;
    TagsOnlyGrow(d, ws, 0, k);
    CurrentAndPrevious(Before(d, ws, k));
    forall x | Crash(d, x)
      ensures x in Before(d, ws, k).tags <==> x in d.tags || exists j :: 0 <= j < k && Tagging(d, ws, j, x)
    {
      TaggedExactly(d, ws, k, x);
    }
  }

  /** The next run has nothing to do exactly when this one had nothing, or was clean and wrote every
      tag. */
  lemma QuietAfter(d: Directory, w: World)
    ensures Found(After(d, w), false) == []
            <==> Found(d, false) == []
                 || (Clean(d, w) && forall x :: x in Found(d, false) ==> w.writable(x))
  {
    CurrentAndPrevious(d);
    CurrentAndPrevious(After(d, w));
    var l, m := Found(d, false), Found(After(d, w), false);
    if l != [] && m == [] {
      assert l[0] in l;
      assert Clean(d, w);
      forall x | x in l
        ensures w.writable(x)
      {
        assert x !in m;
      }
    } else if m != [] {
      assert m[0] in m;
    }
  }

  ghost predicate AllWritable(ws: seq<World>) {
    forall j, x :: 0 <= j < |ws| ==> ws[j].writable(x)
  }

  /** When tags can always be written, every run processes all the crashes of the first one until one
      run is clean, and none afterwards: one failure has them all processed again. */
  lemma {:induction false} AllOrNothing(d: Directory, ws: seq<World>, k: nat)
    requires k <= |ws| && AllWritable(ws)
    ensures Found(Before(d, ws, k), false)
            == if exists j :: 0 <= j < k && Clean(Before(d, ws, j), ws[j]) then [] else Found(d, false)
  {
    hide Found;
    if k > 0 {
      AllOrNothing(d, ws, k - 1);
      QuietAfter(Before(d, ws, k - 1), ws[k - 1]);
    }
  }

  // ---------------------------------------------------------------- what a clean run means

  predicate AllZero(rs: seq<int>) {
    forall i :: 0 <= i < |rs| ==> rs[i] == 0
  }

  /** How often `v` occurs. */
  function Times(rs: seq<int>, v: int): nat {
    if rs == [] then 0 else Times(rs[..|rs| - 1], v) + if rs[|rs| - 1] == v then 1 else 0
  }

  lemma {:induction false} SumOfUnits(rs: seq<int>)
    requires forall i :: 0 <= i < |rs| ==> rs[i] == 1 || rs[i] == 0 || rs[i] == -1
    ensures Sum(rs) == Times(rs, 1) - Times(rs, -1)
    ensures AllZero(rs) <==> Times(rs, 1) == 0 && Times(rs, -1) == 0
  {
    if rs != [] {
      var n := |rs| - 1;
      SumOfUnits(rs[..n]);
      assert forall i :: 0 <= i < n ==> rs[..n][i] == rs[i];
    }
  }

  /** The results of the crashes that a run processes. */
  function RunResults(d: Directory, w: World): seq<int> {
    Results(w, |Found(d, false)|)
  }

  lemma ResultsAreUnits(w: World, n: nat)
    ensures forall i :: 0 <= i < n ==> var r := Results(w, n)[i]; r == 1 || r == 0 || r == -1
  {
    forall i | 0 <= i < n
      ensures Results(w, n)[i] == ItemResult(w.item(i))
    {}
  }

  /** A run is clean exactly when as many crashes could not be examined as had an output that could not
      be logged: it counts failures of the two kinds against each other. */
  lemma CleanIff(d: Directory, w: World)
    ensures Clean(d, w) <==> Found(d, false) != []
                             && Times(RunResults(d, w), 1) == Times(RunResults(d, w), -1)
  {
    ResultsAreUnits(w, |Found(d, false)|);
    SumOfUnits(RunResults(d, w));
  }

  /** A clean run hides failures exactly when there are as many of one kind as of the other, and any. */
  lemma CleanHidesFailures(d: Directory, w: World)
    ensures Clean(d, w) && !AllZero(RunResults(d, w))
            <==> Times(RunResults(d, w), 1) == Times(RunResults(d, w), -1) > 0
  {
    ResultsAreUnits(w, |Found(d, false)|);
    SumOfUnits(RunResults(d, w));
    if Found(d, false) == [] {
      assert RunResults(d, w) == [];
    }
  }

  /** A new tag appears exactly on the crashes of such a run whose tag can be written. */
  lemma TaggedWhen(d: Directory, w: World, x: Name)
    requires x !in d.tags
    ensures x in After(d, w).tags
            <==> x in Found(d, false) && w.writable(x)
                 && Times(RunResults(d, w), 1) == Times(RunResults(d, w), -1)
  {
    CleanIff(d, w);
  }

  /** Where the crash utility runs for every crash, a tag means that the last piece of every output was
      logged; where it runs for none, nothing is ever tagged. */
  lemma TaggedMeansLogged(d: Directory, w: World)
    ensures (forall k :: 0 <= k < |Found(d, false)| ==> CrashRuns(w.item(k))) ==>
              (Clean(d, w) <==> Found(d, false) != []
                                && forall k :: 0 <= k < |Found(d, false)| ==> LastPieceLogged(w.item(k).output))
    ensures (forall k :: 0 <= k < |Found(d, false)| ==> !CrashRuns(w.item(k))) ==> !Clean(d, w)
  {
    hide CrashRuns, LastPieceLogged, Found, ItemResult;
    var rs, n := RunResults(d, w), |Found(d, false)|;
    forall k | 0 <= k < n
      ensures rs[k] == 1 <==> !CrashRuns(w.item(k))
      ensures rs[k] == 0 <==> CrashRuns(w.item(k)) && LastPieceLogged(w.item(k).output)
      ensures rs[k] == 1 || rs[k] == 0 || rs[k] == -1
    {
      ItemResultMeans(w.item(k));
    }
    SumOfUnits(rs);
    if forall k :: 0 <= k < n ==> CrashRuns(w.item(k)) {
      TimesNone(rs, 1);
      if AllZero(rs) {
        forall k | 0 <= k < n
          ensures LastPieceLogged(w.item(k).output)
        {
          assert rs[k] == 0;
        }
      }
    }
    if forall k :: 0 <= k < n ==> !CrashRuns(w.item(k)) {
      TimesAll(rs, 1);
    }
  }

  /** Where a tool is missing or the script cannot be written for every crash, no history adds a tag. */
  lemma {:induction false} NoToolsNoTags(d: Directory, ws: seq<World>, n: nat)
    requires n <= |ws|
    requires forall j, k: nat :: 0 <= j < |ws| ==>
               var it := ws[j].item(k); !it.makedumpfile || !it.crash || !it.symbols || !it.script
    ensures Before(d, ws, n).tags == d.tags
  {
    if n > 0 {
      NoToolsNoTags(d, ws, n - 1);
      var e, w := Before(d, ws, n - 1), ws[n - 1];
      forall k | 0 <= k < |Found(e, false)|
        ensures !CrashRuns(w.item(k))
      {
        ItemResultMeans(w.item(k));
      }
      TaggedMeansLogged(e, w);
    }
  }

  lemma {:induction false} TimesNone(rs: seq<int>, v: int)
    requires forall i :: 0 <= i < |rs| ==> rs[i] != v
    ensures Times(rs, v) == 0
  {
    if rs != [] {
      TimesNone(rs[..|rs| - 1], v);
    }
  }

  lemma {:induction false} TimesAll(rs: seq<int>, v: int)
    requires forall i :: 0 <= i < |rs| ==> rs[i] == v
    ensures Times(rs, v) == |rs|
    ensures v != 0 && rs != [] ==> Sum(rs) != 0
  {
    var n := |rs|;
    SumOfSame(rs, v);
    if rs != [] {
      TimesAll(rs[..n - 1], v);
    }
  }

  lemma {:induction false} SumOfSame(rs: seq<int>, v: int)
    requires forall i :: 0 <= i < |rs| ==> rs[i] == v
    ensures Sum(rs) == |rs| * v
  {
    if rs != [] {
      SumOfSame(rs[..|rs| - 1], v);
    }
  }

  /** Two crashes, the input script of one not written and the output of the other not there: both
      failed, the sum is zero, and both crashes are tagged for good. */
  lemma BothFailedBothTagged()
    ensures exists d, w ::
              && RunResults(d, w) == [1, -1]
              && Found(d, false) == ["b", "a"] && After(d, w).tags == {"a", "b"}
              && Found(After(d, w), false) == []
  {
    var none := Output(false, 0, false, "", _ => false);
    var good := Item(true, 0, true, 0, none, true, true, true, 0, true, 0, none);
    var items := (k: nat) => if k == 0 then good.(script := false) else good;
    var w := World(items, _ => true);
    var d := Directory(true, ["a", "b"], {"a", "b"}, {});
    assert d.entries[..1] == ["a"] && ["a"][..0] == [];
    assert Selected(d, false, ["a"]) == ["a"];
    assert Found(d, false) == ["b", "a"];
    assert ItemResult(w.item(0)) == 1 && ItemResult(w.item(1)) == -1;
    assert Results(w, 2) == [1, -1];
    assert [1, -1][..1] == [1] && [1][..0] == [];
    assert Sum([1, -1]) == 0;
    assert Clean(d, w);
    QuietAfter(d, w);
  }
}
