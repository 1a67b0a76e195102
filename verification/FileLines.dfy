/** ReadFile and ReadFileLines of common/utils.c: a file read chunk by chunk into a growing buffer, and the
    buffer cut into lines in place. */
module FileLines {
  import opened Delimited
  import opened CStrings

  const NEWLINE := '\n'
  const READ_SIZE := 2048

  /** sizeof(read_buf_t): the memset over `READ_SIZE` bytes starts this much before the buffer. */
  const COUNT_SIZE := 4
  const CLEARED := READ_SIZE - COUNT_SIZE

  /** What a sequence of reads delivers up to the first that returns nothing (end of file or error). */
  function Content(chunks: seq<string>): string {
    if chunks == [] || chunks[0] == [] then [] else chunks[0] + Content(chunks[1..])
  }

  /** It is the concatenation of the reads before the first empty one. */
  lemma {:induction false} ContentMeans(chunks: seq<string>, k: nat)
    requires k <= |chunks| && (k < |chunks| ==> chunks[k] == [])
    requires forall i :: 0 <= i < k ==> chunks[i] != []
    ensures Content(chunks) == Flatten(chunks[..k])
    decreases k
  {
    if k > 0 {
      ContentMeans(chunks[1..], k - 1);
      assert chunks[..k][1..] == chunks[1..][..k - 1];
    }
  }

  /** The buffer size after `count` characters: the least multiple of 2048 with room for a full read. */
  function RoomFor(count: nat): nat {
    (count + READ_SIZE - 1) / READ_SIZE * READ_SIZE + READ_SIZE
  }

  /** ReadFile: `chunks` is what successive reads return, `junk` the characters found in memory
      that nobody initialised. */
  method ReadFile(canOpen: bool, chunks: seq<string>, junk: nat -> char) returns (buf: array?<char>, count: nat)
    requires forall k :: 0 <= k < |chunks| ==> |chunks[k]| <= READ_SIZE
    ensures !canOpen ==> buf == null
    ensures canOpen ==>
              && buf != null && fresh(buf) && count + READ_SIZE <= buf.Length == RoomFor(count)
              && buf[..count] == Content(chunks)
              && forall i :: count <= i < buf.Length ==> buf[i] == if i < CLEARED then NUL else junk(i)
  {
    hide RoomFor, Content;
    buf, count := null, 0;
    if !canOpen {
      return;
    }
    NothingRead();
    var bufsize := READ_SIZE;
    var b := new char[bufsize](i => if 0 <= i < CLEARED then NUL else if i >= 0 then junk(i) else NUL);
    var readnext: nat, k: nat := 0, 0;
    ghost var got := "";
    assert chunks[0..] == chunks;
    while k < |chunks| && chunks[k] != []
      invariant 0 <= k <= |chunks| && fresh(b)
      invariant b.Length == bufsize == RoomFor(readnext) && readnext + READ_SIZE <= bufsize
      invariant readnext == |got| && b[..readnext] == got
      invariant Content(chunks) == got + Content(chunks[k..])
      invariant forall i :: readnext <= i < bufsize ==> b[i] == if i < CLEARED then NUL else junk(i)
    {
      CopyIn(b, readnext, chunks[k]);
      ContentStep(got, chunks, k);
      got := got + chunks[k];
      RoomGrows(readnext, |chunks[k]|);
      readnext := readnext + |chunks[k]|;
      if readnext + READ_SIZE > bufsize {
        b := Realloc(b, bufsize + READ_SIZE, junk);
        bufsize := bufsize + READ_SIZE;
      }
      k := k + 1;
    }
    EndOfReads(chunks, k);
    return b, readnext;
  }

  lemma RoomMeans(count: nat)
    ensures RoomFor(count) % 2048 == 0 && count + 2048 <= RoomFor(count) < count + 4096
  {}

  /** One read makes at most one more allocation step necessary. */
  lemma RoomGrows(count: nat, n: nat)
    requires n <= READ_SIZE
    ensures RoomFor(count + n) ==
            if count + n + READ_SIZE > RoomFor(count) then RoomFor(count) + READ_SIZE else RoomFor(count)
    ensures count + READ_SIZE <= RoomFor(count)
  {}

  lemma NothingRead()
    ensures RoomFor(0) == READ_SIZE
  {}

  lemma EndOfReads(chunks: seq<string>, k: nat)
    requires k <= |chunks| && (k < |chunks| ==> chunks[k] == [])
    ensures Content(chunks[k..]) == []
  {}

  lemma ContentStep(got: string, chunks: seq<string>, k: nat)
    requires k < |chunks| && chunks[k] != []
    ensures got + Content(chunks[k..]) == got + chunks[k] + Content(chunks[k + 1..])
  {
    assert chunks[k..][0] == chunks[k] && chunks[k..][1..] == chunks[k + 1..];
    assert got + (chunks[k] + Content(chunks[k + 1..])) == got + chunks[k] + Content(chunks[k + 1..]);
  }

  /** The effect of one read of `chunk` at `at`: the room behind `at` is proved by the requires. */
  method CopyIn(b: array<char>, at: nat, chunk: string)
    requires |chunk| <= READ_SIZE && at + READ_SIZE <= b.Length
    modifies b
    ensures b[..at + |chunk|] == old(b[..at]) + chunk
    ensures forall i :: at + |chunk| <= i < b.Length ==> b[i] == old(b[i])
  {
    forall i | 0 <= i < |chunk| {
      b[at + i] := chunk[i];
    }
  }

  method Realloc(b: array<char>, size: nat, junk: nat -> char) returns (r: array<char>)
    requires b.Length <= size
    ensures fresh(r) && r.Length == size
    ensures forall n :: 0 <= n <= b.Length ==> r[..n] == b[..n]
    ensures forall i :: 0 <= i < b.Length ==> r[i] == b[i]
    ensures forall i :: b.Length <= i < size ==> r[i] == junk(i)
  {
    r := new char[size](i requires 0 <= i reads b => if i < b.Length then b[i] else junk(i));
  }

  /** What ReadFile leaves in memory behind `count` characters of content. */
  ghost predicate LeftBehind(b: string, count: nat, junk: nat -> char) {
    count < |b| && forall i :: count <= i < |b| ==> b[i] == if i < CLEARED then NUL else junk(i)
  }

  /** All of it: the content, what the memset cleared, and what nobody initialised. */
  function Memory(content: string, junk: nat -> char): (m: string)
    ensures |m| == RoomFor(|content|) >= |content|
  {
    seq(RoomFor(|content|), i requires 0 <= i =>
      if i < |content| then content[i] else if i < CLEARED then NUL else junk(i))
  }

  /** NUL-free content with a NUL behind it is the C string that the buffer holds. */
  lemma ContentIsString(content: string, junk: nat -> char)
    requires Free(content, NUL) && (|content| < CLEARED || junk(|content|) == NUL)
    ensures IndexOf(Memory(content, junk), NUL, 0) == |content| < |Memory(content, junk)|
    ensures CStr(Memory(content, junk), NUL, 0) == content
  {
    var m := Memory(content, junk);
    assert m[..|content|] == content;
    assert m[|content|] == NUL;
    IndexOfUnique(m, NUL, 0, |content|);
  }

  /** The content is certain to be followed by a NUL exactly when it is shorter than the cleared part;
      otherwise that depends on uninitialised memory. */
  lemma TerminatedIffShort(count: nat)
    ensures count < 2044 <==> forall b, junk :: LeftBehind(b, count, junk) ==> b[count] == NUL
  {
    if count >= CLEARED {
      var b: string := seq(count + 1, _ => 'x');
      assert LeftBehind(b, count, _ => 'x') && b[count] == 'x';
    }
  }

  // ---------------------------------------------------------------- lines

  function Count(s: string, x: char): nat {
    if s == [] then 0 else (if s[0] == x then 1 else 0) + Count(s[1..], x)
  }

  lemma {:induction false} CountFree(s: string, x: char)
    requires Free(s, x)
    ensures Count(s, x) == 0
  {
    if s != [] {
      CountFree(s[1..], x);
    }
  }

  lemma {:induction false} CountConcat(a: string, b: string, x: char)
    ensures Count(a + b, x) == Count(a, x) + Count(b, x)
  {
    if a == [] {
      assert a + b == b;
    } else {
      assert (a + b)[1..] == a[1..] + b;
      CountConcat(a[1..], b, x);
    }
  }

  /** There is one line for every newline, plus the piece behind the last one. */
  lemma {:induction false} LinesAreNewlines(c: string)
    ensures |Split(c, NEWLINE)| == Count(c, NEWLINE) + 1
    decreases |c|
  {
    hide Count;
    var i := IndexOf(c, NEWLINE, 0);
    IndexOfFirst(c, NEWLINE, 0);
    CountFree(c[..i], NEWLINE);
    if i == |c| {
      assert c[..i] == c;
    } else {
      LinesAreNewlines(c[i + 1..]);
      CountConcat(c[..i], c[i..], NEWLINE);
      CountHead(c, i);
      assert c == c[..i] + c[i..];
    }
  }

  lemma CountHead(c: string, i: nat)
    requires i < |c| && c[i] == NEWLINE
    ensures Count(c[i..], NEWLINE) == 1 + Count(c[i + 1..], NEWLINE)
  {
    assert c[i..][1..] == c[i + 1..];
  }

  /** The lines, each with its newline, and the unterminated rest make up the content. */
  lemma {:induction false} LinesMakeContent(parts: seq<string>)
    requires parts != []
    ensures Terminated(parts[..|parts| - 1], NEWLINE) + parts[|parts| - 1] == Join(parts, NEWLINE)
    decreases |parts|
  {
    if |parts| > 1 {
      LinesMakeContent(parts[1..]);
      assert parts[1..][..|parts| - 2] == parts[1..|parts| - 1];
      assert parts[..|parts| - 1] == [parts[0]] + parts[1..|parts| - 1];
      TerminatedConcat([parts[0]], parts[1..|parts| - 1], NEWLINE);
      TerminatedOne(parts[0], NEWLINE);
    }
  }

  /** A store to slot `i` of an array of pointers; one that misses the array goes to memory the code does
      not own. */
  method StoreLine(lines: array<nat>, i: nat, p: nat) returns (outside: bool)
    modifies lines
    ensures outside <==> i >= lines.Length
    ensures lines[..] == if outside then old(lines[..]) else old(lines[..])[i := p]
  {
    outside := i >= lines.Length;
    if !outside {
      lines[i] := p;
    }
  }

  /** The in-place part of ReadFileLines: newlines become terminators, and `lines` points at each line. */
  method CutLines(buf: array<char>) returns (lines: array<nat>, outside: bool)
    requires IndexOf(buf[..], NUL, 0) < buf.Length
    modifies buf
    ensures var c := old(CStr(buf[..], NUL, 0));
            var parts := Split(c, NEWLINE);
            && buf[..] == Cut(old(buf[..]), NEWLINE, |c|)
            && fresh(lines) && lines.Length == |parts| - 1
            && (outside <==> |parts| == 1)
            && forall i :: 0 <= i < lines.Length ==>
                 lines[i] <= buf.Length && CStr(buf[..], NUL, lines[i]) == parts[i]
  {
    hide Split, IndexOf, CStr, Cut, Terminated, At, Free;
    ghost var s := buf[..];
    var count := CutNewlines(buf);
    CutHoldsParts(s, NEWLINE);
    lines, outside := PointAtLines(buf, count, Split(CStr(s, NUL, 0), NEWLINE));
  }

  /** The second loop, over a buffer that holds `parts` as C strings.  `outside` says that the first
      pointer, which is stored in any case, missed the slots allocated. */
  method PointAtLines(buf: array<char>, count: nat, ghost parts: seq<string>)
    returns (lines: array<nat>, outside: bool)
    requires At(buf[..], 0, Terminated(parts, NUL))
    requires forall k :: 0 <= k < |parts| ==> Free(parts[k], NUL)
    requires count < |parts|
    ensures fresh(lines) && lines.Length == count && (outside <==> count == 0)
    ensures forall i :: 0 <= i < lines.Length ==>
              lines[i] <= buf.Length && CStr(buf[..], NUL, lines[i]) == parts[i]
  {
    hide At, Terminated, IndexOf, CStr, Free, Start;
    ghost var s := buf[..];
    lines := new nat[count];
    outside := StoreLine(lines, 0, 0);
    var addrp: nat := 0;
    var lc := 1;
    StartSteps(parts);
    while lc < count
      invariant 1 <= lc && (lc <= count || count == 0) && buf[..] == s
      invariant count > 0 ==> addrp == Start(parts, lc - 1)
      invariant forall i :: 0 <= i < lc && i < count ==> lines[i] == Start(parts, i)
    {
      CStrOfPart(s, 0, parts, NUL, lc - 1);
      addrp := StrEnd(buf, addrp);
      addrp := addrp + 1;
      lines[lc] := addrp;
      lc := lc + 1;
    }
    forall i | 0 <= i < lines.Length
      ensures lines[i] <= |s| && CStr(s, NUL, lines[i]) == parts[i]
    {
      CStrOfPart(s, 0, parts, NUL, i);
    }
  }

  /** The first loop: every newline of the content replaced, and counted. */
  method CutNewlines(buf: array<char>) returns (lc: nat)
    requires IndexOf(buf[..], NUL, 0) < buf.Length
    modifies buf
    ensures var c := old(CStr(buf[..], NUL, 0));
            buf[..] == Cut(old(buf[..]), NEWLINE, |c|) && lc == |Split(c, NEWLINE)| - 1
  {
    hide Split, IndexOf, CStr, Cut;
    ghost var s := buf[..];
    ghost var c := CStr(s, NUL, 0);
    ghost var parts := Split(c, NEWLINE);
    lc := 0;
    var addrp: nat := 0;
    NothingCut(s, NEWLINE);
    while true
      invariant lc < |parts| && addrp == Start(parts, lc)
      invariant buf[..] == Cut(s, NEWLINE, addrp)
      decreases |parts| - lc
    {
      NextSeparator(s, c, NEWLINE, parts, lc);
      var i := StrChr(buf, addrp, NEWLINE);
      CutFurther(s, c, NEWLINE, addrp, addrp + |parts[lc]|);
      if i.None? {
        break;
      }
      buf[i.value] := NUL;
      addrp := i.value + 1;
      lc := lc + 1;
    }
  }

  /** ReadFileLines: null when the file cannot be read.  The lines are those of the C string that the
      buffer holds, which is the file's content when that is NUL-free and a NUL follows it; without any
      NUL in the buffer the code would look for newlines behind it.  The first pointer is stored outside
      the slots allocated exactly when that string has no newline. */
  method ReadFileLines(canOpen: bool, chunks: seq<string>, junk: nat -> char)
    returns (buf: array?<char>, lines: array?<nat>, outside: bool)
    requires forall k :: 0 <= k < |chunks| ==> |chunks[k]| <= READ_SIZE
    requires IndexOf(Memory(Content(chunks), junk), NUL, 0) < |Memory(Content(chunks), junk)|
    ensures !canOpen ==> buf == null && lines == null && !outside
    ensures canOpen ==>
              var c := CStr(Memory(Content(chunks), junk), NUL, 0);
              var parts := Split(c, NEWLINE);
              && buf != null && lines != null
              && lines.Length == |parts| - 1 == Count(c, NEWLINE)
              && (outside <==> Count(c, NEWLINE) == 0)
              && forall i :: 0 <= i < lines.Length ==>
                   lines[i] <= buf.Length && CStr(buf[..], NUL, lines[i]) == parts[i]
    ensures Free(Content(chunks), NUL) && (|Content(chunks)| < CLEARED || junk(|Content(chunks)|) == NUL)
            ==> CStr(Memory(Content(chunks), junk), NUL, 0) == Content(chunks)
  {
    hide Split, Content, IndexOf, CStr, Memory;
    ghost var content := Content(chunks);
    if Free(content, NUL) && (|content| < CLEARED || junk(|content|) == NUL) {
      ContentIsString(content, junk);
    }
    var count;
    buf, count := ReadFile(canOpen, chunks, junk);
    if buf == null {
      return null, null, false;
    }
    IsMemory(buf[..], content, junk);
    LinesAreNewlines(CStr(buf[..], NUL, 0));
    lines, outside := CutLines(buf);
  }

  /** Every short file without a newline does it. */
  lemma NoNewlineStoresOutside(content: string, junk: nat -> char)
    requires Free(content, NUL) && Free(content, NEWLINE) && |content| < CLEARED
    ensures Count(CStr(Memory(content, junk), NUL, 0), NEWLINE) == 0
  {
    ContentIsString(content, junk);
    CountFree(content, NEWLINE);
  }

  /** The empty file, whose first read returns nothing. */
  lemma EmptyFileStoresOutside(junk: nat -> char)
    ensures IndexOf(Memory(Content([]), junk), NUL, 0) < |Memory(Content([]), junk)|
    ensures Count(CStr(Memory(Content([]), junk), NUL, 0), NEWLINE) == 0
  {
    ContentIsString("", junk);
    NoNewlineStoresOutside("", junk);
  }

  lemma IsMemory(b: string, content: string, junk: nat -> char)
    requires |b| == RoomFor(|content|) && |content| <= |b| && b[..|content|] == content
    requires forall i :: |content| <= i < |b| ==> b[i] == if i < CLEARED then NUL else junk(i)
    ensures b == Memory(content, junk)
  {
    var m := Memory(content, junk);
    forall i | 0 <= i < |b|
      ensures b[i] == m[i]
    {
      assert i < |content| ==> b[i] == b[..|content|][i];
    }
  }
}
