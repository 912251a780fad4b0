/**
 A run that dies leaves its file cut anywhere, since what it writes is buffered: what the reader
 makes of the beginning of a group log.

 Characters stand for bytes; keys and seeds are ASCII.
 */
module GroupCut {
  import opened Base
  import opened Text
  import opened GroupLog
  import opened GroupWriter

  /* ---------- a number cut short ---------- */

  /** What is left of a time whose printing is cut after `n` characters: its first digits. */
  function CutMs(ms: real, n: nat): (v: nat) {
    var whole := Decimal(if ms >= 0.0 then Tenths(ms) / 10 else 0);
    DigitsValue(whole[..if n <= |whole| then n else |whole|])
  }

  lemma {:induction false} CutTimeRead(ms: real, n: nat)
    requires ms >= 0.0 && 0 < n < |Fixed1(ms)|
    ensures ParseReal(Fixed1(ms)[..n]) == Some(CutMs(ms, n) as real)
    ensures CutMs(ms, n) as real <= Rounded(ms)
  {
    var t := Tenths(ms);
    var whole, w := Decimal(t / 10), Fixed1(ms)[..n];
    assert Fixed1(ms) == whole + "." + [DigitChar(t % 10)];
    DecimalValue(t / 10);
    PrefixIsLess(whole, if n <= |whole| then n else |whole|);
    assert whole[..|whole|] == whole;
    assert w[0] == whole[0] && IsDigit(w[0]);
    if n <= |whole| {
      assert w == whole[..n];
      ParseMagnitudeDecimal(w);
    } else {
      assert w == whole + "." + "";
      assert '.' !in whole;
      BeforeIs(whole, '.', "");
      assert w[..|whole|] == whole && w[|whole| + 1..] == "";
      assert Pow10(0) == 1 && DigitsValue("") == 0;
    }
  }

  /* ---------- a line cut short ---------- */

  function EntryFields(e: Entry): seq<string> {
    match e
    case Sent(b) => Fields(b)
    case Acked(key, ms) => ["ACK", key, Fixed1(ms)]
  }

  /** The cut falls inside the entry's last word: the seed of a record, the time of an acknowledgement. */
  predicate CutsLast(e: Entry, m: nat) { LastStart(EntryFields(e)) < m < |EntryLine(e)| }

  /** What the file still says of the entry it is cut in, when it is cut after `m` characters of its line. */
  function Left(e: Entry, m: nat): seq<Entry> {
    if m >= |EntryLine(e)| then [e]
    else if e.Acked? && CutsLast(e, m) then [Acked(e.key, CutMs(e.ms, m - LastStart(EntryFields(e))) as real)]
    else []
  }

  lemma {:induction false} RecordCut(b: Block, m: nat)
    requires Writable(b) && 0 < m < |BlockLine(b)|
    ensures View(BlockLine(b)[..m])
            == LineView(if CutsLast(Sent(b), m) then Bad(BadSeed) else Skip, None, None)
  {
    var f, piece := Fields(b), BlockLine(b)[..m];
    FieldsAreWords(b);
    WordsOfCut(f, m);
    CutAtLast(f, m);
    assert BlockLine(b)[0] == 'G' && piece[0] == 'G';
    assert !(HEADER <= piece);
    var ws := Words(piece);
    FirstIsCut(f, m);
    if m > LastStart(f) {
      assert |f[11]| == 32 && ws[11] == f[11][..m - LastStart(f)] && |ws[11]| < 32;
    }
  }

  /** The first word of a piece begins as the line does. */
  lemma FirstIsCut(f: seq<string>, m: nat)
    requires f != [] && m > 0 && IsWord(f[0])
    ensures CutWords(f, m) != [] && CutWords(f, m)[0] <= f[0] && CutWords(f, m)[0] != ""
  {
  }

  lemma {:induction false} AckCut(key: string, ms: real, m: nat)
    requires IsWord(key) && ms >= 0.0 && 0 < m < |EntryLine(Acked(key, ms))|
    ensures var e := Acked(key, ms);
            var n := m - LastStart(EntryFields(e));
            View(EntryLine(e)[..m])
              == LineView(Skip, if CutsLast(e, m) && n >= 0 then Some((key, CutMs(ms, n) as real)) else None, None)
  {
    var f, piece := EntryFields(Acked(key, ms)), EntryLine(Acked(key, ms))[..m];
    Fixed1IsWord(ms);
    assert IsWord("ACK");
    WordsOfCut(f, m);
    CutAtLast(f, m);
    assert EntryLine(Acked(key, ms))[0] == 'A' && piece[0] == 'A';
    assert !(HEADER <= piece);
    if m > LastStart(f) {
      CutTimeRead(ms, m - LastStart(f));
    }
  }

  /* ---------- a file cut short ---------- */

  /** The file a run leaves when it dies with `k` entries written and `m` characters of the next. */
  function CutFile(ackSecs: nat, h: seq<Entry>, k: nat, m: nat): string
    requires k < |h| && m <= |EntryLine(h[k])|
  {
    Unlines(LogLines(ackSecs, h[..k])) + EntryLine(h[k])[..m]
  }

  /** What such a file still says. */
  function Surviving(h: seq<Entry>, k: nat, m: nat): seq<Entry>
    requires k < |h|
  {
    h[..k] + Left(h[k], m)
  }

  lemma {:induction false} PieceRead(e: Entry, m: nat)
    requires WellFormed(e) && 0 < m <= |EntryLine(e)|
    ensures View(EntryLine(e)[..m]) ==
              if e.Sent? && CutsLast(e, m) then LineView(Bad(BadSeed), None, None)
              else if Left(e, m) == [] then LineView(Skip, None, None)
              else EntryView(Left(e, m)[0])
  {
    if m == |EntryLine(e)| {
      assert EntryLine(e)[..m] == EntryLine(e);
      EntryRead(e);
    } else {
      match e {
        case Sent(b) => RecordCut(b, m);
        case Acked(key, ms) =>
          AckCut(key, ms, m);
          if CutsLast(e, m) {
            NatIsOnGrid(CutMs(ms, m - LastStart(EntryFields(e))));
          }
      }
    }
  }

  lemma NatIsOnGrid(v: nat)
    ensures Rounded(v as real) == v as real
  {
    assert (10.0 * v as real).Floor == 10 * v;
  }

  lemma {:induction false} PieceIsLine(e: Entry, m: nat)
    requires WellFormed(e) && m <= |EntryLine(e)|
    ensures '\n' !in EntryLine(e)[..m]
  {
    EntryRead(e);
  }

  lemma {:induction false} CutViews(ackSecs: nat, h: seq<Entry>, k: nat, m: nat)
    requires WellFormedAll(h) && k < |h| && 0 < m <= |EntryLine(h[k])|
    ensures Views(Lines(CutFile(ackSecs, h, k, m))) == LogViews(ackSecs, h[..k]) + [View(EntryLine(h[k])[..m])]
  {
    var ls, piece := LogLines(ackSecs, h[..k]), EntryLine(h[k])[..m];
    assert h[k] in h;
    PieceIsLine(h[k], m);
    HeaderRead(ackSecs);
    EntriesRead(h[..k]);
    LinesOfCut(ls, piece);
    LogRead(ackSecs, h[..k]);
    LinesOfUnlines(ls);
    ViewsSplit(ls, [piece]);
    assert Views([piece]) == [View(piece)];
  }

  lemma {:induction false} LeftIsWellFormed(h: seq<Entry>, k: nat, m: nat)
    requires WellFormedAll(h) && k < |h|
    ensures WellFormedAll(Surviving(h, k, m))
  {
    assert h[k] in h;
  }

  lemma {:induction false} CutGroups(ackSecs: nat, h: seq<Entry>, k: nat, m: nat)
    requires WellFormedAll(h) && k < |h| && 0 < m <= |EntryLine(h[k])|
    ensures Groups(Views(Lines(CutFile(ackSecs, h, k, m)))) ==
              if h[k].Sent? && CutsLast(h[k], m) then Err(BadSeed) else Groups(LogViews(ackSecs, Surviving(h, k, m)))
  {
    var e, vs, v := h[k], LogViews(ackSecs, h[..k]), View(EntryLine(h[k])[..m]);
    assert e in h;
    CutViews(ackSecs, h, k, m);
    PieceRead(e, m);
    if e.Sent? && CutsLast(e, m) {
      LogRecords(ackSecs, h[..k]);
      RecordsSplit(vs, [v]);
    } else if Left(e, m) == [] {
      SkippedLine(vs, v);
      assert Surviving(h, k, m) == h[..k];
    } else {
      OneMoreView(ackSecs, h[..k], Left(e, m));
    }
  }

  lemma {:induction false} OneMoreView(ackSecs: nat, h: seq<Entry>, rest: seq<Entry>)
    requires |rest| == 1
    ensures LogViews(ackSecs, h + rest) == LogViews(ackSecs, h) + [EntryView(rest[0])]
  {
    assert EntryViews(h + rest) == EntryViews(h) + [EntryView(rest[0])];
  }

  /**
   A file cut anywhere past its header is refused whole exactly when the cut falls inside the seed of a
   record. Otherwise it reads back as the file of what survives: every whole entry, and of an
   acknowledgement cut inside its time, that time's first digits.
   */
  lemma {:induction false} CutFileReadsBack(ackSecs: nat, h: seq<Entry>, k: nat, m: nat)
    requires WellFormedAll(h) && k < |h| && m <= |EntryLine(h[k])|
    ensures Groups(Views(Lines(CutFile(ackSecs, h, k, m)))) ==
              if h[k].Sent? && CutsLast(h[k], m) then Err(BadSeed)
              else if SentBlocks(Surviving(h, k, m)) == [] then Err(NoGroups)
              else Ok(FileBlocks(Surviving(h, k, m), ackSecs))
  {
    assert h[k] in h;
    LeftIsWellFormed(h, k, m);
    FileReadsBack(ackSecs, Surviving(h, k, m));
    LogRead(ackSecs, Surviving(h, k, m));
    if m > 0 {
      CutGroups(ackSecs, h, k, m);
    } else {
      NothingLeft(h[k]);
      assert EntryLine(h[k])[..0] == "" && Surviving(h, k, 0) == h[..k];
      assert CutFile(ackSecs, h, k, 0) == Unlines(LogLines(ackSecs, h[..k]));
    }
  }

  lemma {:induction false} HeaderWords(ackSecs: nat, m: nat)
    requires 0 < m <= |HeaderLine(ackSecs)|
    ensures |Words(HeaderLine(ackSecs)[..m])| <= 3
  {
    var n := Decimal(ackSecs * 1000);
    var ws := ["#", "ack-bound-ms", n];
    DecimalIsWord(ackSecs * 1000);
    assert IsWord("#") && IsWord("ack-bound-ms");
    JoinThree("#", "ack-bound-ms", n);
    assert "#" + " " + "ack-bound-ms" + " " == HEADER;
    WordsOfCut(ws, m);
    CutAtLast(ws, m);
  }

  lemma {:induction false} HeaderPiece(ackSecs: nat, piece: string)
    requires piece <= HeaderLine(ackSecs)
    ensures Groups(Views(Lines(piece))) == Err(NoGroups)
  {
    HeaderRead(ackSecs);
    assert forall i :: 0 <= i < |piece| ==> piece[i] == HeaderLine(ackSecs)[i];
    LinesOfCut([], piece);
    assert Unlines([]) + piece == piece;
    if piece != "" {
      HeaderWords(ackSecs, |piece|);
      assert piece == HeaderLine(ackSecs)[..|piece|];
      NoRecord(View(piece));
      assert Views([piece]) == [View(piece)];
    }
  }

  lemma {:induction false} NoRecord(v: LineView)
    requires v.rec.Skip?
    ensures Groups([v]) == Err(NoGroups)
  {
    assert [v][1..] == [];
    assert Records([v]) == Records([]) == Ok([]);
  }

  /** Every beginning of a run's file is one of these: cut in its header, not cut, or cut further on. */
  lemma {:induction false} EveryBeginning(ackSecs: nat, h: seq<Entry>, p: string) returns (k: nat, m: nat)
    requires WellFormedAll(h) && p <= Unlines(LogLines(ackSecs, h))
    ensures || p <= HeaderLine(ackSecs)
            || p == Unlines(LogLines(ackSecs, h))
            || (k < |h| && m <= |EntryLine(h[k])| && p == CutFile(ackSecs, h, k, m))
  {
    var j, piece := CutIsAPiece(LogLines(ackSecs, h), p);
    k, m := 0, 0;
    if j == 0 {
      assert Unlines([]) + piece == piece && LogLines(ackSecs, h)[..0] == [];
    } else {
      FirstLines(ackSecs, h, j - 1);
      if j <= |h| {
        k, m := j - 1, |piece|;
      } else {
        assert h[..|h|] == h && Unlines(LogLines(ackSecs, h)) + "" == Unlines(LogLines(ackSecs, h));
      }
    }
  }

  lemma {:induction false} FirstLines(ackSecs: nat, h: seq<Entry>, k: nat)
    requires k <= |h|
    ensures LogLines(ackSecs, h)[..k + 1] == LogLines(ackSecs, h[..k])
    ensures k < |h| ==> LogLines(ackSecs, h)[k + 1] == EntryLine(h[k])
  {
  }

  /** The time of an acknowledgement cut short now stands for the key, which had none before. */
  predicate StandsFor(h: seq<Entry>, k: nat, m: nat, key: string)
    requires k < |h|
  {
    h[k].Acked? && h[k].key == key && CutsLast(h[k], m) && AckTime(h[..k], key).None?
  }

  /**
   A class that a cut file gives to a key is the class the whole file gives it, unless the cut falls
   inside the key's first acknowledgement and what is left of a late time meets the bound.
   */
  lemma {:induction false} DecidedSurvivesIff(ackSecs: nat, h: seq<Entry>, k: nat, m: nat, key: string)
    requires WellFormedAll(h) && k < |h| && m <= |EntryLine(h[k])|
    requires AckTime(Surviving(h, k, m), key).Some?
    ensures SameKind(FileClass(Surviving(h, k, m), key, ackSecs), FileClass(h, key, ackSecs))
            <==> !(StandsFor(h, k, m, key)
                   && CutMs(h[k].ms, m - LastStart(EntryFields(h[k]))) as real <= BoundOf(ackSecs) < Rounded(h[k].ms))
  {
    assert h[k] in h && WellFormed(h[k]);
    CutAckTimes(h, k, m, key);
    if StandsFor(h, k, m, key) {
      var e, n := h[k], m - LastStart(EntryFields(h[k]));
      LastIsTime(e);
      CutTimeRead(e.ms, n);
      NatIsOnGrid(CutMs(e.ms, n));
    }
  }

  /* ---------- what these rest on ---------- */

  lemma {:induction false} NothingLeft(e: Entry)
    requires WellFormed(e)
    ensures Left(e, 0) == [] && !CutsLast(e, 0)
  {
    EntryRead(e);
    match e {
      case Sent(b) => FieldsAreWords(b); CutAtLast(Fields(b), 0);
      case Acked(key, ms) => CutAtLast(["ACK", key, Fixed1(ms)], 0);
    }
    EntryIsNotEmpty(e);
  }

  lemma {:induction false} EntryIsNotEmpty(e: Entry)
    ensures |EntryLine(e)| > 0
  {
    match e {
      case Sent(b) => assert BlockLine(b)[0] == 'G';
      case Acked(key, ms) => assert EntryLine(e)[0] == 'A';
    }
  }

  lemma {:induction false} SkippedLine(vs: seq<LineView>, v: LineView)
    requires v == LineView(Skip, None, None)
    ensures Groups(vs + [v]) == Groups(vs)
  {
    RecordsSplit(vs, [v]);
    BoundSplit(vs, [v]);
    assert [v][1..] == [];
    assert Records([v]) == Ok([]);
    if Records(vs).Ok? {
      var bs := Records(vs).value;
      assert bs + [] == bs;
      forall i | 0 <= i < |bs| ensures SettledAll(bs, vs + [v])[i] == SettledAll(bs, vs)[i] {
        FirstAckSplit(vs, [v], bs[i].key);
      }
      assert SettledAll(bs, vs + [v]) == SettledAll(bs, vs);
    }
  }

  /** A time that a cut file has for a key is the run's, but for a time cut short. */
  lemma {:induction false} CutAckTimes(h: seq<Entry>, k: nat, m: nat, key: string)
    requires k < |h| && AckTime(Surviving(h, k, m), key).Some?
    ensures if StandsFor(h, k, m, key) then
              && AckTime(Surviving(h, k, m), key) == Some(CutMs(h[k].ms, m - LastStart(EntryFields(h[k]))) as real)
              && AckTime(h, key) == Some(h[k].ms)
            else AckTime(h, key) == AckTime(Surviving(h, k, m), key)
  {
    AckTimeOf(h[..k], Left(h[k], m), key);
    AckTimeOf(h[..k], h[k..], key);
    assert h == h[..k] + h[k..] && h[k..][0] == h[k];
    assert Left(h[k], m) != [] ==> Left(h[k], m)[1..] == [];
  }

  lemma {:induction false} LastIsTime(e: Entry)
    requires e.Acked?
    ensures LastStart(EntryFields(e)) == |EntryLine(e)| - |Fixed1(e.ms)|
  {
  }

  lemma {:induction false} AckTimeOf(a: seq<Entry>, b: seq<Entry>, key: string)
    ensures AckTime(a + b, key) == if AckTime(a, key).Some? then AckTime(a, key) else AckTime(b, key)
  {
    if a == [] {
      assert a + b == b;
    } else {
      assert (a + b)[1..] == a[1..] + b && (a + b)[0] == a[0];
      AckTimeOf(a[1..], b, key);
    }
  }
}
