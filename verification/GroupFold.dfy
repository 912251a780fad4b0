/** What the fold of `parse_groups` keeps as an append-only group log grows. */
module GroupFold {
  import opened Base
  import opened Text
  import opened GroupLog

  /** The twelve words of a block's line, as every tool that reads the log expects them. */
  lemma BlockLineWords(b: Block)
    requires |b.seed| > 0 && IsWord(b.key)
    ensures Words(BlockLine(b)) ==
              ["GROUP", Decimal(b.gid), Decimal(b.m), if b.arm.Full? then "full" else "control",
               "BLOCK", Decimal(b.idx), if b.parity then "parity" else "data", b.key, Decimal(b.tSend),
               (match b.ack case Within(ms) => Fixed1(ms) case Late(ms) => "LATE:" + Fixed1(ms) case Never => "NEVER"),
               Decimal(b.size), Hexify(b.seed)]
  {
    FieldsAreWords(b);
    WordsOfJoin(Fields(b));
  }

  /* ---------- a line with one word that is not what it should be ---------- */

  /** A number that is none: the file is refused, unless it is the send time or the size. */
  lemma DamagedNumber(b: Block, w: string)
    requires Writable(b)
    ensures ParseUnsigned(w, U64).None? ==>
              && ParseRecord(Fields(b)[1 := w]) == ParseRecord(Fields(b)[2 := w]) == Bad(BadNumber)
              && ParseRecord(Fields(b)[5 := w]) == Bad(BadNumber)
              && ParseRecord(Fields(b)[10 := w]) == Rec(b.(ack := RoundedAck(b.ack), size := 0))
    ensures ParseUnsigned(w, U128).None? ==>
              ParseRecord(Fields(b)[8 := w]) == Rec(b.(ack := RoundedAck(b.ack), tSend := 0))
  {
    FieldsRead(b);
  }

  /** An arm, an outcome or a seed that is none: the file is refused. */
  lemma DamagedField(b: Block, w: string)
    requires Writable(b)
    ensures w != "full" && w != "control" ==> ParseRecord(Fields(b)[3 := w]) == Bad(BadArm)
    ensures ParseAck(w).None? ==> ParseRecord(Fields(b)[9 := w]) == Bad(BadAck)
    ensures |w| != 32 ==> ParseRecord(Fields(b)[11 := w]) == Bad(BadSeed)
  {
    FieldsRead(b);
  }

  /** A line is a header by how it starts; a bound that is no number is taken for thirty seconds. */
  lemma HeaderIs(l: string)
    ensures View(l).header.Some? <==> "# ack-bound-ms " <= l
    ensures "# ack-bound-ms " <= l ==>
              match ParseReal(Trim(l[15..]))
              case Some(bound) => View(l).header == Some(bound)
              case None => View(l).header == Some(30000.0)
  {
    if HEADER <= l {
      assert l == HEADER + l[15..];
      StripPrefixOf(HEADER, l[15..]);
    }
  }

  /* ---------- the fold, line by line ---------- */

  /** The line at `i` is the first to acknowledge this key. */
  ghost predicate FirstAckAt(vs: seq<LineView>, key: string, i: nat, ms: real) {
    && i < |vs| && vs[i].ack == Some((key, ms))
    && forall j :: 0 <= j < i ==> !(vs[j].ack.Some? && vs[j].ack.value.0 == key)
  }

  /** The line at `i` is the first header. */
  ghost predicate FirstHeaderAt(vs: seq<LineView>, i: nat, bound: real) {
    i < |vs| && vs[i].header == Some(bound) && forall j :: 0 <= j < i ==> vs[j].header.None?
  }

  lemma {:induction false} FirstAckIs(vs: seq<LineView>, key: string)
    ensures forall i: nat, ms :: FirstAckAt(vs, key, i, ms) ==> FirstAck(vs, key) == Some(ms)
    ensures (forall v :: v in vs ==> !(v.ack.Some? && v.ack.value.0 == key)) ==> FirstAck(vs, key).None?
  {
    if vs != [] {
      FirstAckIs(vs[1..], key);
      forall i: nat, ms | FirstAckAt(vs, key, i, ms) ensures FirstAck(vs, key) == Some(ms) {
        if i > 0 {
          assert forall j :: 0 <= j < i ==> vs[1..][j] == vs[j + 1];
          assert FirstAckAt(vs[1..], key, i - 1, ms);
        }
      }
    }
  }

  lemma {:induction false} BoundIs(vs: seq<LineView>)
    ensures forall i: nat, bound :: FirstHeaderAt(vs, i, bound) ==> Bound(vs) == Some(bound)
    ensures (forall v :: v in vs ==> v.header.None?) ==> Bound(vs).None?
  {
    if vs != [] {
      BoundIs(vs[1..]);
      forall i: nat, bound | FirstHeaderAt(vs, i, bound) ensures Bound(vs) == Some(bound) {
        if i > 0 {
          assert forall j :: 0 <= j < i ==> vs[1..][j] == vs[j + 1];
          assert FirstHeaderAt(vs[1..], i - 1, bound);
        }
      }
    }
  }

  /**
   With a header, wherever it stands, a block's outcome is its key's first acknowledgement against the
   first header's bound, whatever the record said; without an acknowledgement it was never answered.
   */
  lemma NewFormatOutcome(vs: seq<LineView>, n: nat, h: nat, bound: real)
    requires Groups(vs).Ok? && n < |Groups(vs).value| && FirstHeaderAt(vs, h, bound)
    ensures var key, ack := Groups(vs).value[n].key, Groups(vs).value[n].ack;
            && (forall i: nat, ms :: FirstAckAt(vs, key, i, ms) ==> ack == if ms <= bound then Within(ms) else Late(ms))
            && ((forall v :: v in vs ==> !(v.ack.Some? && v.ack.value.0 == key)) ==> ack == Never)
  {
    BoundIs(vs);
    FirstAckIs(vs, Records(vs).value[n].key);
  }

  /**
   Without one, an outcome the record carries is kept, however it is acknowledged later; a record that
   says never is late by its key's first acknowledgement, and stays never when there is none.
   */
  lemma OldFormatOutcome(vs: seq<LineView>, n: nat)
    requires Groups(vs).Ok? && n < |Groups(vs).value| && forall v :: v in vs ==> v.header.None?
    ensures n < |Records(vs).value|
    ensures var recorded, out := Records(vs).value[n], Groups(vs).value[n];
            && out == recorded.(ack := out.ack)
            && (!recorded.ack.Never? ==> out == recorded)
            && (recorded.ack.Never? ==>
                  && (forall i: nat, ms :: FirstAckAt(vs, out.key, i, ms) ==> out.ack == Late(ms))
                  && ((forall v :: v in vs ==> !(v.ack.Some? && v.ack.value.0 == out.key)) ==> out.ack == Never))
  {
    BoundIs(vs);
    FirstAckIs(vs, Records(vs).value[n].key);
  }

  function RecOf(p: Parsed): Option<Block> { match p case Rec(b) => Some(b) case _ => None }

  function RecsOf(vs: seq<LineView>): (rs: seq<Option<Block>>)
    ensures |rs| == |vs|
  {
    seq(|vs|, i requires 0 <= i < |vs| => RecOf(vs[i].rec))
  }

  /** Unless some line's record is bad, the records are those of the lines that have one, in order. */
  lemma {:induction false} RecordsAre(vs: seq<LineView>)
    requires forall v :: v in vs ==> !v.rec.Bad?
    ensures Records(vs) == Ok(Somes(RecsOf(vs)))
  {
    if vs != [] {
      var rest, first := vs[1..], RecOf(vs[0].rec);
      RecordsAre(rest);
      assert RecsOf(vs)[1..] == RecsOf(rest) && RecsOf(vs)[0] == first;
      SomesFirst(RecsOf(vs));
    }
  }

  /** And when one is, the first of them decides. */
  lemma {:induction false} FirstBadRecord(vs: seq<LineView>, i: nat)
    requires i < |vs| && vs[i].rec.Bad? && forall j :: 0 <= j < i ==> !vs[j].rec.Bad?
    ensures Records(vs) == Err(vs[i].rec.error)
  {
    if i > 0 {
      assert forall j :: 0 <= j < i ==> vs[1..][j] == vs[j + 1];
      FirstBadRecord(vs[1..], i - 1);
    }
  }

  /* ---------- as a file grows ---------- */

  /** A decided outcome is the one this first acknowledgement gets under this bound. */
  predicate AgreesWith(ack: Ack, first: Option<real>, bound: real) {
    match ack
    case Within(ms) => first == Some(ms) && ms <= bound
    case Late(ms) => first == Some(ms) && ms > bound
    case Never => first.None?
  }

  /**
   Whatever lines are appended, every block stays with all its fields but the outcome. A decided
   outcome stays exactly when the file does not change format, or the header that changes it gives
   the key's first acknowledgement that very outcome.
   */
  lemma {:induction false} DecidedStaysIff(vs: seq<LineView>, more: seq<LineView>, i: nat)
    requires Groups(vs).Ok? && Groups(vs + more).Ok? && i < |Groups(vs).value|
    ensures i < |Groups(vs + more).value|
    ensures var before, after := Groups(vs).value[i], Groups(vs + more).value[i];
            && after == before.(ack := after.ack)
            && (!before.ack.Never? ==>
                  (after == before <==>
                     || Bound(vs).Some? || Bound(more).None?
                     || AgreesWith(before.ack, FirstAck(vs + more, before.key), Bound(more).value)))
  {
    RecordsSplit(vs, more);
    BoundSplit(vs, more);
    FirstAckSplit(vs, more, Records(vs).value[i].key);
  }

  /** A line that is a header and nothing else. */
  predicate IsHeader(v: LineView) { v.header.Some? && v.rec.Skip? && v.ack.None? }

  lemma {:induction false} HeaderAppended(vs: seq<LineView>, header: LineView, i: nat)
    requires Groups(vs).Ok? && Bound(vs).None? && i < |Groups(vs).value| && IsHeader(header)
    ensures Groups(vs + [header]).Ok? && i < |Groups(vs + [header]).value|
    ensures var before := Groups(vs).value[i];
            Groups(vs + [header]).value[i]
              == before.(ack := Classify(FirstAck(vs, before.key), header.header.value))
  {
    RecordsSplit(vs, [header]);
    BoundSplit(vs, [header]);
    FirstAckSplit(vs, [header], Groups(vs).value[i].key);
    assert [header][1..] == [];
    assert Records([header]) == Ok([]);
    assert Records(vs).value + [] == Records(vs).value;
  }

  /** A header appended to an old file throws away an outcome that only the record carried. */
  lemma {:induction false} LateHeaderForgets(vs: seq<LineView>, header: LineView, i: nat)
    requires Groups(vs).Ok? && Bound(vs).None? && i < |Groups(vs).value| && IsHeader(header)
    requires !Groups(vs).value[i].ack.Never? && FirstAck(vs, Groups(vs).value[i].key).None?
    ensures Groups(vs + [header]).Ok? && i < |Groups(vs + [header]).value|
    ensures Groups(vs + [header]).value[i] == Groups(vs).value[i].(ack := Never)
  {
    HeaderAppended(vs, header, i);
  }

  /** And it turns a correction, late by definition, into an answer within any bound it meets. */
  lemma {:induction false} LateHeaderForgives(vs: seq<LineView>, header: LineView, i: nat, ms: real)
    requires Groups(vs).Ok? && Bound(vs).None? && i < |Groups(vs).value| && IsHeader(header)
    requires Records(vs).value[i].ack.Never? && FirstAck(vs, Records(vs).value[i].key) == Some(ms)
    requires ms <= header.header.value
    ensures Groups(vs).value[i].ack == Late(ms)
    ensures Groups(vs + [header]).Ok? && i < |Groups(vs + [header]).value|
    ensures Groups(vs + [header]).value[i] == Groups(vs).value[i].(ack := Within(ms))
  {
    HeaderAppended(vs, header, i);
  }

  /** The first word of a line that does not start with white space starts the line. */
  lemma FirstWordStarts(l: string)
    requires l != "" && !IsWhite(l[0])
    ensures Words(l) != [] && Words(l)[0] != "" && Words(l)[0][0] == l[0]
  {
    assert WordEnd(l) > 0;
  }

  /** An `ACK` line is neither a record nor a header. */
  lemma AckLineIsOnlyThat(l: string)
    requires View(l).ack.Some?
    ensures View(l).rec.Skip? && View(l).header.None?
  {
    assert Words(l)[0] == "ACK";
    if l != "" && !IsWhite(l[0]) {
      FirstWordStarts(l);
    }
    assert HEADER[0] == '#' && !IsWhite('#');
  }

  /**
   A repeated acknowledgement line changes nothing, wherever it is inserted after the first and
   whatever time it carries, in either format.
   */
  lemma RepeatedAckIsInert(a: seq<string>, l: string, b: seq<string>)
    ensures View(l).ack.Some? && FirstAck(Views(a), View(l).ack.value.0).Some?
            ==> Groups(Views(a + [l] + b)) == Groups(Views(a + b))
  {
    if View(l).ack.Some? && FirstAck(Views(a), View(l).ack.value.0).Some? {
      AckLineIsOnlyThat(l);
      ViewsSplit(a + [l], b);
      ViewsSplit(a, [l]);
      ViewsSplit(a, b);
      assert Views([l]) == [View(l)];
      InertView(Views(a), View(l), Views(b));
    }
  }

  lemma InertView(a: seq<LineView>, v: LineView, b: seq<LineView>)
    requires v.rec.Skip? && v.header.None?
    requires v.ack.Some? ==> FirstAck(a, v.ack.value.0).Some?
    ensures Groups(a + [v] + b) == Groups(a + b)
  {
    RecordsSplit(a + [v], b);
    RecordsSplit(a, [v]);
    RecordsSplit(a, b);
    BoundSplit(a + [v], b);
    BoundSplit(a, [v]);
    BoundSplit(a, b);
    assert [v][1..] == [];
    assert Records([v]) == Ok([]);
    if Records(a).Ok? {
      assert Records(a).value + [] == Records(a).value;
    }
    forall key ensures FirstAck(a + [v] + b, key) == FirstAck(a + b, key) {
      FirstAckSplit(a + [v], b, key);
      FirstAckSplit(a, [v], key);
      FirstAckSplit(a, b, key);
    }
    if Records(a + b).Ok? {
      SettledSame(Records(a + b).value, a + [v] + b, a + b);
    }
  }

  lemma {:induction false} SettledSame(bs: seq<Block>, xs: seq<LineView>, ys: seq<LineView>)
    requires Bound(xs) == Bound(ys)
    requires forall key :: FirstAck(xs, key) == FirstAck(ys, key)
    ensures SettledAll(bs, xs) == SettledAll(bs, ys)
  {
    forall i | 0 <= i < |bs| ensures SettledAll(bs, xs)[i] == SettledAll(bs, ys)[i] {
      assert FirstAck(xs, bs[i].key) == FirstAck(ys, bs[i].key);
    }
  }
}
