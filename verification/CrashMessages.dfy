/** recorder/crash.c, log_buffer_contents: a message sent to the recorder in pieces that fit a blob. */
module CrashMessages {
  import opened CStrings
  import opened Delimited
  import opened Wrappers

  const MAX_BLOB := 962

  /** The buffer holds one character less than a blob, for the terminator. */
  const PIECE := MAX_BLOB - 1

  /** The pieces when the message is stepped through `step` characters at a time; the code steps by
      MAX_BLOB. */
  function Pieces(msg: string, step: nat): (ps: seq<string>)
    requires step > 0
    ensures ps != []
    decreases |msg|
  {
    [Truncated(msg, PIECE)] + if |msg| > step then Pieces(msg[step..], step) else []
  }

  /** What logging one piece returns. */
  function Answer(logged: bool): int {
    if logged then 0 else -1
  }

  /** log_buffer_contents: `logged(k)` says whether piece `k` reaches the recorder, and `k` pieces came
      before.  Only the last answer is returned, so the failure of an earlier piece is not reported. */
  method LogBufferContents(msg: Option<string>, logged: nat -> bool, k: nat)
    returns (rc: int, sent: seq<string>)
    ensures msg.None? ==> sent == [] && rc == -1
    ensures msg.Some? ==> sent == Pieces(msg.value, MAX_BLOB) && rc == if logged(k + |sent| - 1) then 0 else -1
    decreases if msg.Some? then |msg.value| else 0
  {
    rc, sent := -1, [];
    if msg.Some? {
      var len := |msg.value|;
      var buf := StrNCpy(msg.value, PIECE);
      rc, sent := Answer(logged(k)), [buf];
      if len > MAX_BLOB {
        var more;
        rc, more := LogBufferContents(Some(msg.value[MAX_BLOB..]), logged, k + 1);
        sent := sent + more;
      }
    }
  }

  /** An output file as log_file_contents meets it: whether it opens, its length, whether memory for it
      is found, the C string read from it, and which of its pieces reach the recorder. */
  datatype Output = Output(opens: bool, length: int, buffered: bool, text: string, logged: nat -> bool)

  /** The file is there and not empty, and its last piece reaches the recorder. */
  predicate LastPieceLogged(o: Output) {
    o.opens && o.length > 0 && o.buffered && o.logged(|Pieces(o.text, MAX_BLOB)| - 1)
  }

  method LogFileContents(o: Output) returns (rc: int)
    ensures rc == Answer(LastPieceLogged(o))
    ensures rc == if o.opens && o.length > 0 && o.buffered && o.logged(|Pieces(o.text, MAX_BLOB)| - 1) then 0 else -1
  {
    if o.opens {
      if o.length > 0 {
        if o.buffered {
          var sent;
          rc, sent := LogBufferContents(Some(o.text), o.logged, 0);
        } else {
          rc := -1;
        }
      } else {
        rc := -1;
      }
    } else {
      rc := -1;
    }
  }

  /** How many pieces: one for every 962 characters begun, and one for the empty message. */
  lemma {:induction false} PieceCount(msg: string)
    ensures |Pieces(msg, MAX_BLOB)| == if msg == [] then 1 else (|msg| + 961) / 962
    decreases |msg|
  {
    if |msg| > MAX_BLOB {
      PieceCount(msg[MAX_BLOB..]);
    }
  }

  /** Every piece leaves room for its terminator. */
  lemma {:induction false} PiecesFit(msg: string, step: nat, k: nat)
    requires step > 0 && k < |Pieces(msg, step)|
    ensures |Pieces(msg, step)[k]| <= 961
    decreases |msg|
  {
    if k > 0 {
      PiecesFit(msg[step..], step, k - 1);
    }
  }

  /** What is left of a message when the characters at places 961 modulo 962 are taken out. */
  function Sieve(msg: string): string {
    if msg == [] then []
    else
      var n := |msg| - 1;
      Sieve(msg[..n]) + if n % MAX_BLOB == PIECE then [] else [msg[n]]
  }

  lemma FirstPiece(msg: string)
    ensures Flatten(Pieces(msg, MAX_BLOB))
            == if |msg| > MAX_BLOB then msg[..PIECE] + Flatten(Pieces(msg[MAX_BLOB..], MAX_BLOB))
               else Truncated(msg, PIECE)
  {
    var ps := Pieces(msg, MAX_BLOB);
    assert ps[1..] == if |msg| > MAX_BLOB then Pieces(msg[MAX_BLOB..], MAX_BLOB) else [];
  }

  /** One character is lost for every 962. */
  lemma {:induction false} SentLength(msg: string)
    ensures |Flatten(Pieces(msg, MAX_BLOB))| == |msg| - |msg| / MAX_BLOB
    decreases |msg|
  {
    FirstPiece(msg);
    if |msg| > MAX_BLOB {
      SentLength(msg[MAX_BLOB..]);
    }
  }

  /** Place `j` of `n` characters less one in 962 is place j + j / 961 of the `n`. */
  lemma Place(n: nat, j: nat)
    requires j < n - n / MAX_BLOB
    ensures j + j / PIECE < n
    ensures j >= PIECE ==> j / PIECE == (j - PIECE) / PIECE + 1
  {
    var q, r := n / MAX_BLOB, n % MAX_BLOB;
    assert n == MAX_BLOB * q + r;
    assert j < PIECE * q + r;
    assert j / PIECE <= q;
  }

  /** Character `j` of what is sent stood at place j + j / 961 of the message. */
  lemma {:induction false} SentAt(msg: string, j: nat)
    requires j < |Flatten(Pieces(msg, MAX_BLOB))|
    ensures j + j / PIECE < |msg|
    ensures Flatten(Pieces(msg, MAX_BLOB))[j] == msg[j + j / PIECE]
    decreases |msg|
  {
    hide Pieces, Flatten;
    SentLength(msg);
    Place(|msg|, j);
    FirstPiece(msg);
    if |msg| > MAX_BLOB && j >= PIECE {
      SentAt(msg[MAX_BLOB..], j - PIECE);
    }
  }

  lemma {:induction false} SieveLength(msg: string)
    ensures |Sieve(msg)| == |msg| - |msg| / MAX_BLOB
  {
    if msg != [] {
      SieveLength(msg[..|msg| - 1]);
    }
  }

  lemma {:induction false} SieveAt(msg: string, j: nat)
    requires j < |Sieve(msg)|
    ensures j + j / PIECE < |msg|
    ensures Sieve(msg)[j] == msg[j + j / PIECE]
  {
    var n := |msg| - 1;
    SieveLength(msg);
    SieveLength(msg[..n]);
    Place(|msg|, j);
    if j < |Sieve(msg[..n])| {
      SieveAt(msg[..n], j);
    } else {
      LastPlace(n, j);
    }
  }

  /** The character kept last. */
  lemma LastPlace(n: nat, j: nat)
    requires j == n - n / MAX_BLOB && n % MAX_BLOB != PIECE
    ensures j + j / PIECE == n
  {
    var q, r := n / MAX_BLOB, n % MAX_BLOB;
    assert j == PIECE * q + r;
  }

  /** The pieces together hold the message without those characters. */
  lemma PiecesMakeSieve(msg: string)
    ensures Flatten(Pieces(msg, MAX_BLOB)) == Sieve(msg)
  {
    hide Pieces, Flatten, Sieve;
    var c, d := Flatten(Pieces(msg, MAX_BLOB)), Sieve(msg);
    SentLength(msg);
    SieveLength(msg);
    forall j | 0 <= j < |c|
      ensures c[j] == d[j]
    {
      SentAt(msg, j);
      SieveAt(msg, j);
    }
  }

  /** The whole message is sent exactly when it fits one piece. */
  lemma WholeMessageSent(msg: string)
    ensures Flatten(Pieces(msg, MAX_BLOB)) == msg <==> |msg| <= 961
  {
    SentLength(msg);
    FirstPiece(msg);
  }

  /** Among all steps, one sends every message whole: 961, what the comment of the code asks for. */
  lemma TheStepThatSendsAll(step: nat)
    requires step > 0
    ensures (forall msg :: Flatten(Pieces(msg, step)) == msg) <==> step == 961
  {
    if step == PIECE {
      forall msg: string
        ensures Flatten(Pieces(msg, step)) == msg
      {
        SteppingByPiece(msg);
      }
    } else if step > PIECE {
      var msg := seq(MAX_BLOB, _ => 'x');
      assert Pieces(msg, step)[1..] == [];
      assert Flatten(Pieces(msg, step)) != msg;
    } else {
      var msg := seq(PIECE, _ => 'x');
      var rest := Pieces(msg[step..], step);
      assert Pieces(msg, step)[1..] == rest;
      assert rest[0] == msg[step..];
      assert Flatten(Pieces(msg, step)) != msg;
    }
  }

  lemma {:induction false} SteppingByPiece(msg: string)
    ensures Flatten(Pieces(msg, PIECE)) == msg
    decreases |msg|
  {
    if |msg| > PIECE {
      SteppingByPiece(msg[PIECE..]);
      assert Pieces(msg, PIECE)[1..] == Pieces(msg[PIECE..], PIECE);
      assert msg == msg[..PIECE] + msg[PIECE..];
    } else {
      assert Pieces(msg, PIECE)[1..] == [];
    }
  }
}
