/**
 The two ends of a cross-node run, put together: the `PUT` lines of the put role, the `READ` lines
 of the reader, and what `src/xnode.rs` makes of the pair.
 */
module Pairing {
  import opened Base
  import PutRole

  type Arm = PutRole.Arm

  datatype Send = Send(
    key: string, sentNs: nat, confirmMs: Option<real>, size: nat, arm: Arm,
    unackedAtT: Option<bool>, hedged: bool, ackMs: Option<real>)

  datatype Hit = Hit(key: string, size: nat, atMs: real)

  datatype Joined = Joined(
    size: nat, farMs: real, arm: Arm, unackedAtT: Option<bool>, hedged: bool, ackMs: Option<real>)

  datatype Paired = Paired(deltas: seq<Joined>, refusedNegative: nat, unmatched: nat)

  function Ms(ns: int): real { ns as real / 1000000.0 }

  /* ---------- pairing hits with sends ---------- */

  /** The first send with this key. */
  function FindSend(sends: seq<Send>, key: string): (r: Option<Send>)
    ensures r.Some? ==> r.value in sends && r.value.key == key
    ensures r.None? <==> forall s :: s in sends ==> s.key != key
  {
    if sends == [] then None
    else if sends[0].key == key then Some(sends[0])
    else FindSend(sends[1..], key)
  }

  function Delta(s: Send, h: Hit): real { h.atMs - Ms(s.sentNs) }

  function JoinedOf(s: Send, h: Hit): Joined {
    Joined(h.size, Delta(s, h), s.arm, s.unackedAtT, s.hedged, s.ackMs)
  }

  /** What becomes of one hit. */
  datatype Fate = Unmatched | Refused | Sound(row: Joined)

  function FateOf(sends: seq<Send>, h: Hit): Fate {
    match FindSend(sends, h.key)
    case None => Unmatched
    case Some(s) => if Delta(s, h) < 0.0 then Refused else Sound(JoinedOf(s, h))
  }

  function Rows(sends: seq<Send>, hits: seq<Hit>): seq<Joined> {
    if hits == [] then []
    else
      var before, fate := Rows(sends, hits[..|hits| - 1]), FateOf(sends, hits[|hits| - 1]);
      if fate.Sound? then before + [fate.row] else before
  }

  function CountFate(sends: seq<Send>, hits: seq<Hit>, fate: Fate): nat {
    if hits == [] then 0
    else CountFate(sends, hits[..|hits| - 1], fate)
         + (if FateOf(sends, hits[|hits| - 1]) == fate then 1 else 0)
  }

  /** Pairing takes the first send of a key, whatever comes after it. */
  lemma {:induction false} FirstSendIsTaken(sends: seq<Send>, key: string, i: nat)
    requires i < |sends| && sends[i].key == key && forall j :: 0 <= j < i ==> sends[j].key != key
    ensures FindSend(sends, key) == Some(sends[i])
  {
    if i > 0 {
      FirstSendIsTaken(sends[1..], key, i - 1);
    }
  }

  /** The row each hit should give: the reader's clock less the send's own reading, when that is not negative. */
  function Measured(sends: seq<Send>, h: Hit): Option<Joined> {
    match FindSend(sends, h.key)
    case None => None
    case Some(s) =>
      var far := h.atMs - s.sentNs as real / 1000000.0;
      if far < 0.0 then None else Some(Joined(h.size, far, s.arm, s.unackedAtT, s.hedged, s.ackMs))
  }

  function MeasuredAll(sends: seq<Send>, hits: seq<Hit>): seq<Option<Joined>> {
    seq(|hits|, i requires 0 <= i < |hits| => Measured(sends, hits[i]))
  }

  /** The hits whose key was never sent. */
  function StrangersOf(sends: seq<Send>, hits: seq<Hit>): seq<Option<Hit>> {
    seq(|hits|, i requires 0 <= i < |hits| =>
      if forall s :: s in sends ==> s.key != hits[i].key then Some(hits[i]) else None)
  }

  method Pair(sends: seq<Send>, hits: seq<Hit>) returns (out: Paired)
    ensures out == Paired(Rows(sends, hits), CountFate(sends, hits, Refused), CountFate(sends, hits, Unmatched))
    ensures |out.deltas| + out.refusedNegative + out.unmatched == |hits|
    ensures forall j :: j in out.deltas ==> j.farMs >= 0.0
    ensures out.deltas == Somes(MeasuredAll(sends, hits))
    ensures out.unmatched == |Somes(StrangersOf(sends, hits))|
  {
    out := Paired([], 0, 0);
    for i := 0 to |hits|
      invariant out.deltas == Rows(sends, hits[..i])
      invariant out.refusedNegative == CountFate(sends, hits[..i], Refused)
      invariant out.unmatched == CountFate(sends, hits[..i], Unmatched)
      invariant |out.deltas| + out.refusedNegative + out.unmatched == i
      invariant forall j :: j in out.deltas ==> j.farMs >= 0.0
    {
      var h := hits[i];
      assert hits[..i + 1][..i] == hits[..i];
      match FindSend(sends, h.key) {
        case None => out := out.(unmatched := out.unmatched + 1);
        case Some(s) =>
          var d := h.atMs - Ms(s.sentNs);
          if d < 0.0 {
            out := out.(refusedNegative := out.refusedNegative + 1);
          } else {
            out := out.(deltas := out.deltas + [Joined(h.size, d, s.arm, s.unackedAtT, s.hedged, s.ackMs)]);
          }
      }
    }
    assert hits[..|hits|] == hits;
    RowsAreMeasured(sends, hits);
    UnmatchedAreStrangers(sends, hits);
  }

  lemma {:induction false} UnmatchedAreStrangers(sends: seq<Send>, hits: seq<Hit>)
    ensures CountFate(sends, hits, Unmatched) == |Somes(StrangersOf(sends, hits))|
  {
    if hits != [] {
      var last := |hits| - 1;
      UnmatchedAreStrangers(sends, hits[..last]);
      assert StrangersOf(sends, hits)[..last] == StrangersOf(sends, hits[..last]);
    }
  }

  lemma {:induction false} RowsAreMeasured(sends: seq<Send>, hits: seq<Hit>)
    ensures Rows(sends, hits) == Somes(MeasuredAll(sends, hits))
  {
    if hits != [] {
      var last := |hits| - 1;
      RowsAreMeasured(sends, hits[..last]);
      assert MeasuredAll(sends, hits)[..last] == MeasuredAll(sends, hits[..last]);
    }
  }

  /** The rows are the sound pairs and nothing else. */
  lemma {:induction false} RowIffSound(sends: seq<Send>, hits: seq<Hit>, row: Joined)
    ensures row in Rows(sends, hits) <==> exists h :: h in hits && FateOf(sends, h) == Sound(row)
  {
    if hits != [] {
      var last := |hits| - 1;
      RowIffSound(sends, hits[..last], row);
      assert hits == hits[..last] + [hits[last]];
    }
  }

  /* ---------- the conditioned populations ---------- */

  datatype Conditioned = Conditioned(n: nat, far: seq<real>, ack: seq<real>, neverAcked: nat)

  predicate InPopulation(r: Joined, arm: Arm) { r.arm == arm && r.unackedAtT == Some(true) }

  function Population(rows: seq<Joined>, arm: Arm): seq<Joined> {
    if rows == [] then []
    else Population(rows[..|rows| - 1], arm)
         + (if InPopulation(rows[|rows| - 1], arm) then [rows[|rows| - 1]] else [])
  }

  function FarTimes(rows: seq<Joined>): seq<real> {
    seq(|rows|, i requires 0 <= i < |rows| => rows[i].farMs)
  }

  function AckTimes(rows: seq<Joined>): seq<real> {
    if rows == [] then []
    else AckTimes(rows[..|rows| - 1])
         + (if rows[|rows| - 1].ackMs.Some? then [rows[|rows| - 1].ackMs.value] else [])
  }

  /** The far times and the acknowledgements of an arm's rows that were unacknowledged at T. */
  function FarOf(rows: seq<Joined>, arm: Arm): seq<Option<real>> {
    seq(|rows|, i requires 0 <= i < |rows| =>
      if rows[i].arm == arm && rows[i].unackedAtT == Some(true) then Some(rows[i].farMs) else None)
  }

  function AckOf(rows: seq<Joined>, arm: Arm): seq<Option<real>> {
    seq(|rows|, i requires 0 <= i < |rows| =>
      if rows[i].arm == arm && rows[i].unackedAtT == Some(true) then rows[i].ackMs else None)
  }

  method Conditional(rows: seq<Joined>, arm: Arm) returns (out: Conditioned)
    ensures var p := Population(rows, arm);
            && out.n == |p| && out.far == FarTimes(p) && out.ack == AckTimes(p)
            && out.n == |out.ack| + out.neverAcked
    ensures out.far == Somes(FarOf(rows, arm)) && out.ack == Somes(AckOf(rows, arm))
  {
    out := Conditioned(0, [], [], 0);
    for i := 0 to |rows|
      invariant var p := Population(rows[..i], arm);
                && out.n == |p| && out.far == FarTimes(p) && out.ack == AckTimes(p)
                && out.n == |out.ack| + out.neverAcked
    {
      var r := rows[i];
      ghost var p := Population(rows[..i], arm);
      assert rows[..i + 1][..i] == rows[..i];
      assert Population(rows[..i + 1], arm) == if InPopulation(r, arm) then p + [r] else p;
      if InPopulation(r, arm) {
        assert (p + [r])[..|p|] == p;
        out := out.(n := out.n + 1, far := out.far + [r.farMs]);
        match r.ackMs {
          case Some(a) => out := out.(ack := out.ack + [a]);
          case None => out := out.(neverAcked := out.neverAcked + 1);
        }
      }
    }
    assert rows[..|rows|] == rows;
    PopulationTimes(rows, arm);
  }

  lemma {:induction false} PopulationTimes(rows: seq<Joined>, arm: Arm)
    ensures FarTimes(Population(rows, arm)) == Somes(FarOf(rows, arm))
    ensures AckTimes(Population(rows, arm)) == Somes(AckOf(rows, arm))
  {
    if rows != [] {
      var last := |rows| - 1;
      var p, r := Population(rows[..last], arm), rows[last];
      PopulationTimes(rows[..last], arm);
      assert FarOf(rows, arm)[..last] == FarOf(rows[..last], arm);
      assert AckOf(rows, arm)[..last] == AckOf(rows[..last], arm);
      OneMoreRow(p, r);
      assert p + [] == p;
    }
  }

  lemma OneMoreRow(p: seq<Joined>, r: Joined)
    ensures FarTimes(p + [r]) == FarTimes(p) + [r.farMs]
    ensures AckTimes(p + [r]) == if r.ackMs.Some? then AckTimes(p) + [r.ackMs.value] else AckTimes(p)
  {
    assert (p + [r])[..|p|] == p;
    assert AckTimes(p) + [] == AckTimes(p);
  }

  lemma {:induction false} PopulationIff(rows: seq<Joined>, arm: Arm, r: Joined)
    ensures r in Population(rows, arm) <==> r in rows && InPopulation(r, arm)
  {
    if rows != [] {
      var last := |rows| - 1;
      PopulationIff(rows[..last], arm, r);
      assert rows == rows[..last] + [rows[last]];
    }
  }

  const FLOOR: nat := 20

  datatype Verdict = NoFinding(smallerArm: nat) | Comparable(smallerArm: nat)

  /** A run is only as strong as its smaller conditioned population. */
  method VerdictOf(rows: seq<Joined>) returns (v: Verdict)
    ensures v.Comparable? <==> forall arm :: |Population(rows, arm)| >= 20
    ensures exists arm :: v.smallerArm == |Population(rows, arm)|
    ensures forall arm :: v.smallerArm <= |Population(rows, arm)|
  {
    var control := Conditional(rows, PutRole.Control);
    var hedge := Conditional(rows, PutRole.Hedge);
    var smaller := if control.n <= hedge.n then control.n else hedge.n;
    assert smaller == |Population(rows, if control.n <= hedge.n then PutRole.Control else PutRole.Hedge)|;
    v := if smaller < FLOOR then NoFinding(smaller) else Comparable(smaller);
  }

  /* ---------- what comes first ---------- */

  datatype Proxy = Proxy(
    both: nat, farFirst: nat, ackFirst: nat, withinMargin: nat, gaps: seq<real>, farWithoutAck: nat)

  datatype Order = FarFirst | AckFirst | Undecided | NoAck

  function OrderOf(r: Joined, margin: real): Order {
    match r.ackMs
    case None => NoAck
    case Some(a) =>
      if r.farMs + margin < a then FarFirst else if a + margin < r.farMs then AckFirst else Undecided
  }

  function CountOrder(rows: seq<Joined>, margin: real, o: Order): nat {
    if rows == [] then 0
    else CountOrder(rows[..|rows| - 1], margin, o) + (if OrderOf(rows[|rows| - 1], margin) == o then 1 else 0)
  }

  /** By how much each acknowledgement came after the far read; negative when it came before. */
  function GapsOf(rows: seq<Joined>): (gs: seq<Option<real>>)
    ensures |gs| == |rows|
  {
    seq(|rows|, i requires 0 <= i < |rows| =>
      match rows[i].ackMs case None => None case Some(a) => Some(a - rows[i].farMs))
  }

  lemma OneMoreGap(rows: seq<Joined>, i: nat)
    requires i < |rows|
    ensures var before := Somes(GapsOf(rows)[..i]);
            Somes(GapsOf(rows)[..i + 1]) ==
              match rows[i].ackMs case None => before case Some(a) => before + [a - rows[i].farMs]
  {
    assert GapsOf(rows)[..i + 1][..i] == GapsOf(rows)[..i];
  }

  method ProxyOf(rows: seq<Joined>, margin: real) returns (out: Proxy)
    ensures out.farFirst == CountOrder(rows, margin, FarFirst)
    ensures out.ackFirst == CountOrder(rows, margin, AckFirst)
    ensures out.withinMargin == CountOrder(rows, margin, Undecided)
    ensures out.farWithoutAck == CountOrder(rows, margin, NoAck)
    ensures out.both == out.farFirst + out.ackFirst + out.withinMargin == |out.gaps|
    ensures out.both + out.farWithoutAck == |rows|
    ensures out.gaps == Somes(GapsOf(rows))
  {
    out := Proxy(0, 0, 0, 0, [], 0);
    for i := 0 to |rows|
      invariant out.farFirst == CountOrder(rows[..i], margin, FarFirst)
      invariant out.ackFirst == CountOrder(rows[..i], margin, AckFirst)
      invariant out.withinMargin == CountOrder(rows[..i], margin, Undecided)
      invariant out.farWithoutAck == CountOrder(rows[..i], margin, NoAck)
      invariant out.both == out.farFirst + out.ackFirst + out.withinMargin == |out.gaps|
      invariant out.both + out.farWithoutAck == i
      invariant out.gaps == Somes(GapsOf(rows)[..i])
    {
      var r := rows[i];
      OneMoreGap(rows, i);
      assert rows[..i + 1][..i] == rows[..i];
      match r.ackMs {
        case None => out := out.(farWithoutAck := out.farWithoutAck + 1);
        case Some(a) =>
          out := out.(both := out.both + 1, gaps := out.gaps + [a - r.farMs]);
          if r.farMs + margin < a {
            out := out.(farFirst := out.farFirst + 1);
          } else if a + margin < r.farMs {
            out := out.(ackFirst := out.ackFirst + 1);
          } else {
            out := out.(withinMargin := out.withinMargin + 1);
          }
      }
    }
    assert rows[..|rows|] == rows && GapsOf(rows)[..|rows|] == GapsOf(rows);
  }

  /** The order a row's two times really had, if the reader's clock runs `offset` ahead of the writer's. */
  ghost predicate FarTrulyFirst(r: Joined, offset: real) {
    r.ackMs.Some? && r.farMs - offset < r.ackMs.value
  }

  ghost predicate AckTrulyFirst(r: Joined, offset: real) {
    r.ackMs.Some? && r.ackMs.value < r.farMs - offset
  }

  predicate Within(offset: real, margin: real) { -margin <= offset <= margin }

  /**
   The margin decides the order exactly when the clocks cannot have: a pair is called when every
   offset within the margin gives it that order, and left undecided when they disagree.
   */
  lemma DecidedIffEveryOffsetAgrees(r: Joined, margin: real)
    requires margin >= 0.0
    ensures OrderOf(r, margin) == FarFirst <==> forall o :: Within(o, margin) ==> FarTrulyFirst(r, o)
    ensures OrderOf(r, margin) == AckFirst <==> forall o :: Within(o, margin) ==> AckTrulyFirst(r, o)
    ensures OrderOf(r, margin) == NoAck <==> r.ackMs.None?
  {
    assert Within(margin, margin) && Within(-margin, margin);
  }

  /** A larger margin only ever turns a decided pair into an undecided one. */
  lemma {:induction false} MarginOnlyUndecides(rows: seq<Joined>, m: real, wider: real)
    requires 0.0 <= m <= wider
    ensures CountOrder(rows, wider, FarFirst) <= CountOrder(rows, m, FarFirst)
    ensures CountOrder(rows, wider, AckFirst) <= CountOrder(rows, m, AckFirst)
    ensures CountOrder(rows, wider, Undecided) >= CountOrder(rows, m, Undecided)
    ensures CountOrder(rows, wider, NoAck) == CountOrder(rows, m, NoAck)
  {
    if rows != [] {
      MarginOnlyUndecides(rows[..|rows| - 1], m, wider);
    }
  }
}
