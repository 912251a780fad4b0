/**
 The write role of `src/parity.rs`: records are appended as blocks are sent, acknowledgements
 as they arrive, and the file must read back as what the run knew.
 */
module GroupWriter {
  import opened Base
  import opened Text
  import opened GroupLog

  /** What has been appended to the file after its header. */
  datatype Entry = Sent(block: Block) | Acked(key: string, ms: real)

  /** What one bounded receive came back with. */
  datatype Arrival = PutResponse(key: string, at: real) | OtherMessage(names: Option<string>) | ConnectionEnded | Quiet

  function EntryLine(e: Entry): string {
    match e
    case Sent(b) => BlockLine(b)
    case Acked(key, ms) => Join(["ACK", key, Fixed1(ms)])
  }

  /** One line per entry, each appended to the ones before it. */
  function EntryLines(h: seq<Entry>): seq<string> {
    seq(|h|, i requires 0 <= i < |h| => EntryLine(h[i]))
  }

  function HeaderLine(ackSecs: nat): string { HEADER + Decimal(ackSecs * 1000) }

  /** The file of a run with this acknowledgement bound and this history. */
  function LogLines(ackSecs: nat, h: seq<Entry>): seq<string> {
    [HeaderLine(ackSecs)] + EntryLines(h)
  }

  function SentBlocks(h: seq<Entry>): seq<Block> {
    if h == [] then [] else (if h[0].Sent? then [h[0].block] else []) + SentBlocks(h[1..])
  }

  /** The first acknowledgement time the run took for a key. */
  function AckTime(h: seq<Entry>, key: string): Option<real> {
    if h == [] then None
    else if h[0].Acked? && h[0].key == key then Some(h[0].ms)
    else AckTime(h[1..], key)
  }

  ghost predicate WellFormed(e: Entry) {
    match e
    case Sent(b) => Writable(b) && b.ack == Never
    case Acked(key, ms) => IsWord(key) && ms >= 0.0
  }

  ghost predicate WellFormedAll(h: seq<Entry>) { forall e :: e in h ==> WellFormed(e) }

  /* ---------- what the reader makes of the file ---------- */

  function EntryView(e: Entry): LineView {
    match e
    case Sent(b) => LineView(Rec(b), None, None)
    case Acked(key, ms) => LineView(Skip, Some((key, Rounded(ms))), None)
  }

  function EntryViews(h: seq<Entry>): (vs: seq<LineView>)
    ensures |vs| == |h| && forall i :: 0 <= i < |h| ==> vs[i] == EntryView(h[i])
  {
    seq(|h|, i requires 0 <= i < |h| => EntryView(h[i]))
  }

  function BoundOf(ackSecs: nat): real { (ackSecs * 1000) as real }

  lemma AckLineRead(key: string, ms: real)
    requires IsWord(key)
    ensures IsLine(EntryLine(Acked(key, ms)))
    ensures View(EntryLine(Acked(key, ms))) == EntryView(Acked(key, ms))
  {
    var f := ["ACK", key, Fixed1(ms)];
    Fixed1IsWord(ms);
    assert IsWord("ACK");
    JoinIsLine(f);
    WordsOfJoin(f);
    ParseFixed1(ms);
    assert Join(f)[0] == 'A';
    assert !(HEADER <= Join(f));
  }

  /** The other two kinds of line a run writes. */
  lemma LineWords(key: string, ms: real, ackSecs: nat)
    requires IsWord(key)
    ensures Words(EntryLine(Acked(key, ms))) == ["ACK", key, Fixed1(ms)]
    ensures HeaderLine(ackSecs) == "# ack-bound-ms " + Decimal(1000 * ackSecs)
  {
    Fixed1IsWord(ms);
    assert IsWord("ACK");
    WordsOfJoin(["ACK", key, Fixed1(ms)]);
  }

  lemma EntryRead(e: Entry)
    requires WellFormed(e)
    ensures IsLine(EntryLine(e)) && View(EntryLine(e)) == EntryView(e)
  {
    match e {
      case Sent(b) => LineRoundTrip(b);
      case Acked(key, ms) => AckLineRead(key, ms);
    }
  }

  lemma HeaderIsRead(ackSecs: nat)
    ensures HeaderBound(HeaderLine(ackSecs)) == Some(BoundOf(ackSecs))
  {
    var n := Decimal(ackSecs * 1000);
    DecimalIsWord(ackSecs * 1000);
    ParseRealDecimal(ackSecs * 1000);
    StripPrefixOf(HEADER, n);
  }

  lemma JoinThree(a: string, b: string, c: string)
    ensures Join([a, b, c]) == a + " " + b + " " + c
  {
    var ws := [a, b, c];
    assert ws[1..] == [b, c] && [b, c][1..] == [c];
    assert Join([c]) == c;
    assert Join([b, c]) == b + " " + c;
    assert a + " " + (b + " " + c) == a + " " + b + " " + c;
  }

  lemma HeaderRead(ackSecs: nat)
    ensures IsLine(HeaderLine(ackSecs))
    ensures View(HeaderLine(ackSecs)) == LineView(Skip, None, Some(BoundOf(ackSecs)))
  {
    var n := Decimal(ackSecs * 1000);
    var ws := ["#", "ack-bound-ms", n];
    DecimalIsWord(ackSecs * 1000);
    assert IsWord("#") && IsWord("ack-bound-ms");
    JoinThree("#", "ack-bound-ms", n);
    assert "#" + " " + "ack-bound-ms" + " " == HEADER;
    WordsOfJoin(ws);
    JoinIsLine(ws);
    HeaderIsRead(ackSecs);
  }

  function LogViews(ackSecs: nat, h: seq<Entry>): seq<LineView> {
    [LineView(Skip, None, Some(BoundOf(ackSecs)))] + EntryViews(h)
  }

  lemma {:induction false} EntriesRead(h: seq<Entry>)
    requires WellFormedAll(h)
    ensures Views(EntryLines(h)) == EntryViews(h)
    ensures forall l :: l in EntryLines(h) ==> IsLine(l)
  {
    if h != [] {
      var before, e := h[..|h| - 1], h[|h| - 1];
      EntriesRead(before);
      assert h == before + [e];
      assert WellFormed(e);
      EntryRead(e);
      ViewsSplit(EntryLines(before), [EntryLine(e)]);
      assert Views([EntryLine(e)]) == [View(EntryLine(e))];
      assert EntryViews(h) == EntryViews(before) + [EntryView(e)];
    }
  }

  lemma {:induction false} LogRead(ackSecs: nat, h: seq<Entry>)
    requires WellFormedAll(h)
    ensures Views(Lines(Unlines(LogLines(ackSecs, h)))) == LogViews(ackSecs, h)
  {
    HeaderRead(ackSecs);
    EntriesRead(h);
    LinesOfUnlines(LogLines(ackSecs, h));
    ViewsSplit([HeaderLine(ackSecs)], EntryLines(h));
    assert Views([HeaderLine(ackSecs)]) == [View(HeaderLine(ackSecs))];
  }

  lemma {:induction false} EntriesRecords(h: seq<Entry>)
    requires WellFormedAll(h)
    ensures Records(EntryViews(h)) == Ok(SentBlocks(h))
    ensures forall b :: b in SentBlocks(h) ==> b.ack == Never
  {
    if h != [] {
      EntriesRecords(h[1..]);
      assert WellFormed(h[0]);
      assert EntryViews(h)[1..] == EntryViews(h[1..]);
      assert [] + SentBlocks(h[1..]) == SentBlocks(h[1..]);
    }
  }

  lemma {:induction false} EntriesFirstAck(h: seq<Entry>, key: string)
    ensures FirstAck(EntryViews(h), key) == RoundedTime(AckTime(h, key))
  {
    if h != [] {
      EntriesFirstAck(h[1..], key);
      assert EntryViews(h)[1..] == EntryViews(h[1..]);
    }
  }

  function RoundedTime(ms: Option<real>): Option<real> {
    match ms case Some(v) => Some(Rounded(v)) case None => None
  }

  /** The reader's view of one key: the time as printed, against the bound. */
  function FileClass(h: seq<Entry>, key: string, ackSecs: nat): Ack {
    Classify(RoundedTime(AckTime(h, key)), BoundOf(ackSecs))
  }

  /** The run's own view of one key: the raw time against the same bound. */
  function MemoryClass(h: seq<Entry>, key: string, ackSecs: nat): Ack {
    Classify(AckTime(h, key), BoundOf(ackSecs))
  }

  function FileBlocks(h: seq<Entry>, ackSecs: nat): (r: seq<Block>)
    ensures |r| == |SentBlocks(h)|
  {
    seq(|SentBlocks(h)|, i requires 0 <= i < |SentBlocks(h)| =>
      SentBlocks(h)[i].(ack := FileClass(h, SentBlocks(h)[i].key, ackSecs)))
  }

  /**
   The file of any run reads back as the blocks it sent, in order, each with the class its own
   first acknowledgement, as printed, gives it.
   */
  lemma {:induction false} FileReadsBack(ackSecs: nat, h: seq<Entry>)
    requires WellFormedAll(h)
    ensures Groups(Views(Lines(Unlines(LogLines(ackSecs, h))))) ==
              if SentBlocks(h) == [] then Err(NoGroups) else Ok(FileBlocks(h, ackSecs))
  {
    LogRead(ackSecs, h);
    LogRecords(ackSecs, h);
    LogSettles(ackSecs, h);
  }

  lemma {:induction false} LogSettles(ackSecs: nat, h: seq<Entry>)
    requires WellFormedAll(h)
    ensures SettledAll(SentBlocks(h), LogViews(ackSecs, h)) == FileBlocks(h, ackSecs)
  {
    LogRecords(ackSecs, h);
    var bs, vs := SentBlocks(h), LogViews(ackSecs, h);
    forall i | 0 <= i < |bs| ensures Settled(bs[i], vs) == bs[i].(ack := FileClass(h, bs[i].key, ackSecs)) {
      LogFirstAck(ackSecs, h, bs[i].key);
    }
  }

  lemma {:induction false} LogRecords(ackSecs: nat, h: seq<Entry>)
    requires WellFormedAll(h)
    ensures Records(LogViews(ackSecs, h)) == Ok(SentBlocks(h))
    ensures Bound(LogViews(ackSecs, h)) == Some(BoundOf(ackSecs))
  {
    EntriesRecords(h);
    assert LogViews(ackSecs, h)[1..] == EntryViews(h);
  }

  lemma {:induction false} LogFirstAck(ackSecs: nat, h: seq<Entry>, key: string)
    ensures FirstAck(LogViews(ackSecs, h), key) == RoundedTime(AckTime(h, key))
  {
    EntriesFirstAck(h, key);
    assert LogViews(ackSecs, h)[1..] == EntryViews(h);
  }

  /* ---------- the file against the run's memory ---------- */

  /** The one place printing can change a verdict: just past the bound, within half a tenth of it. */
  predicate Crosses(ms: Option<real>, ackSecs: nat) {
    ms.Some? && BoundOf(ackSecs) < ms.value <= BoundOf(ackSecs) + 0.05
  }

  predicate SameKind(a: Ack, b: Ack) {
    a.Within? == b.Within? && a.Late? == b.Late?
  }

  lemma RoundingCrosses(ms: real, ackSecs: nat)
    requires ms >= 0.0
    ensures Rounded(ms) <= BoundOf(ackSecs) <==> ms <= BoundOf(ackSecs) || Crosses(Some(ms), ackSecs)
  {
    var limit := ackSecs * 10000;
    var t := Tenths(ms);
    assert 10.0 * BoundOf(ackSecs) == limit as real;
    assert Rounded(ms) <= BoundOf(ackSecs) <==> t <= limit;
    if ms == BoundOf(ackSecs) + 0.05 {
      assert 10.0 * ms == limit as real + 0.5;
      assert (10.0 * ms).Floor == limit;
    }
  }

  /**
   The class a key reads back with: its first acknowledgement as printed, to one decimal, against the
   bound in seconds, or none.
   */
  lemma {:induction false} FileClassIs(h: seq<Entry>, key: string, ackSecs: nat)
    ensures forall i :: 0 <= i < |h| && h[i].Acked? && h[i].key == key
                        && (forall j :: 0 <= j < i ==> !(h[j].Acked? && h[j].key == key))
                        ==> FileClass(h, key, ackSecs) ==
                              if Rounded(h[i].ms) <= 1000.0 * ackSecs as real then Within(Rounded(h[i].ms))
                              else Late(Rounded(h[i].ms))
    ensures (forall i :: 0 <= i < |h| ==> !(h[i].Acked? && h[i].key == key)) ==> FileClass(h, key, ackSecs) == Never
  {
    FirstAckedIs(h, key);
  }

  lemma {:induction false} FirstAckedIs(h: seq<Entry>, key: string)
    ensures forall i :: 0 <= i < |h| && h[i].Acked? && h[i].key == key
                        && (forall j :: 0 <= j < i ==> !(h[j].Acked? && h[j].key == key))
                        ==> AckTime(h, key) == Some(h[i].ms)
    ensures (forall i :: 0 <= i < |h| ==> !(h[i].Acked? && h[i].key == key)) ==> AckTime(h, key).None?
  {
    if h != [] && !(h[0].Acked? && h[0].key == key) {
      FirstAckedIs(h[1..], key);
      assert forall i :: 0 < i < |h| ==> h[1..][i - 1] == h[i];
    }
  }

  /** File and memory give one key the same class exactly when rounding does not cross the bound. */
  lemma ClassesAgreeIff(h: seq<Entry>, key: string, ackSecs: nat)
    requires AckTime(h, key).Some? ==> AckTime(h, key).value >= 0.0
    ensures SameKind(FileClass(h, key, ackSecs), MemoryClass(h, key, ackSecs))
            <==> !Crosses(AckTime(h, key), ackSecs)
  {
    if AckTime(h, key).Some? {
      RoundingCrosses(AckTime(h, key).value, ackSecs);
    }
  }

  lemma {:induction false} AckTimeNonNegative(h: seq<Entry>, key: string)
    requires WellFormedAll(h) && AckTime(h, key).Some?
    ensures AckTime(h, key).value >= 0.0
  {
    assert WellFormed(h[0]);
    if !(h[0].Acked? && h[0].key == key) {
      AckTimeNonNegative(h[1..], key);
    }
  }
}
