/** What the paired files of a whole cross-node run can and cannot say. */
module PairingRun {
  import opened Base
  import opened Text
  import opened Pairing
  import opened PairingLines
  import PutRole

  /* ---------- the reader's times ---------- */

  /** The value a `READ` line carries: the hit, counted from the send time the key list gave (0 for a mint list). */
  function PrintedMs(hitAt: nat, listed: nat): real { Ms(if hitAt >= listed then hitAt - listed else 0) }

  function ReadFields(key: string, size: nat, hitAt: nat, listed: nat): seq<string> {
    ["READ", key, Decimal(size), Fixed1(PrintedMs(hitAt, listed))]
  }

  lemma ReadLineParses(key: string, size: nat, hitAt: nat, listed: nat)
    requires IsWord(key) && size < U64
    ensures ParseHit(Words(Join(ReadFields(key, size, hitAt, listed))))
            == Some(Hit(key, size, Rounded(PrintedMs(hitAt, listed))))
  {
    var f := ReadFields(key, size, hitAt, listed);
    DecimalIsWord(size);
    Fixed1IsWord(PrintedMs(hitAt, listed));
    assert IsWord("READ");
    WordsOfJoin(f);
    ParseDecimal(size, U64);
    ParseFixed1(PrintedMs(hitAt, listed));
  }

  /** The row is there, and its delta is the true elapsed time to the one decimal printed. */
  predicate Measures(fate: Fate, elapsedNs: int) {
    fate.Sound? && -0.05 <= fate.row.farMs - Ms(elapsedNs) <= 0.05
  }

  /** What becomes of a hit that the reader printed against the send time its key list gave. */
  function PrintedFate(sends: seq<Send>, key: string, size: nat, hitAt: nat, listed: nat): Fate {
    FateOf(sends, Hit(key, size, Rounded(PrintedMs(hitAt, listed))))
  }

  /** A key list gives no send time, or a real one: more than a tenth of a millisecond past the epoch. */
  predicate PlausibleList(s: Send, listed: nat) {
    listed == 0 || (listed > 100_000 && s.sentNs > 0)
  }

  /**
   A hit is measured exactly when the key list gave no send time, and rounding did not carry the
   hit to before its send.
   */
  lemma HitMeasuredIff(sends: seq<Send>, s: Send, hitAt: nat, listed: nat, size: nat)
    requires FindSend(sends, s.key) == Some(s) && hitAt >= s.sentNs && PlausibleList(s, listed)
    ensures Measures(PrintedFate(sends, s.key, size, hitAt, listed), hitAt - s.sentNs)
            <==> listed == 0 && Rounded(Ms(hitAt)) >= Ms(s.sentNs)
  {
  }

  /**
   So, before anything is read: every hit that takes the least printable time is going to be measured
   exactly when the key list carries no send time. A mint list carries none.
   */
  lemma ListMeasuresIff(sends: seq<Send>, s: Send, listed: nat, size: nat)
    requires FindSend(sends, s.key) == Some(s) && PlausibleList(s, listed)
    ensures (forall hitAt: nat :: hitAt >= s.sentNs + 50_000 ==>
               Measures(PrintedFate(sends, s.key, size, hitAt, listed), hitAt - s.sentNs))
            <==> listed == 0
  {
    forall hitAt: nat | hitAt >= s.sentNs + 50_000
      ensures Measures(PrintedFate(sends, s.key, size, hitAt, listed), hitAt - s.sentNs) <==> listed == 0
    {
      HitMeasuredIff(sends, s, hitAt, listed, size);
    }
    var soonest: nat := s.sentNs + 50_000;
    assert Measures(PrintedFate(sends, s.key, size, soonest, listed), soonest - s.sentNs) <==> listed == 0;
  }

  /**
   The put role's own file lists the send times themselves, and pairing takes them away a second
   time. No hit is measured: it is refused, or its row is short by the whole reading of the clock.
   */
  lemma PutListNeverMeasures(sends: seq<Send>, s: Send, hitAt: nat, size: nat)
    requires FindSend(sends, s.key) == Some(s) && hitAt >= s.sentNs > 100_000
    ensures var fate := PrintedFate(sends, s.key, size, hitAt, s.sentNs);
            && !Measures(fate, hitAt - s.sentNs)
            && (fate.Refused? || Measures(fate, hitAt - s.sentNs - s.sentNs))
  {
    HitMeasuredIff(sends, s, hitAt, s.sentNs, size);
  }

  /* ---------- rows and the trials behind them ---------- */

  /** The sends a put run leaves in its file. */
  function SendsOf(ts: seq<PutRole.Trial>, sentNs: seq<nat>): seq<Send>
    requires |sentNs| == |ts|
  {
    seq(|ts|, i requires 0 <= i < |ts| => Kept(SendOf(ts[i], sentNs[i])))
  }

  /** The state a put run is in after these steps. */
  function RunOf(c: PutRole.Config, clock: int, actions: seq<PutRole.Action>): PutRole.State {
    PutRole.Exec(c, PutRole.START.(clock := clock), actions)
  }

  lemma RowHasTrial(ts: seq<PutRole.Trial>, sentNs: seq<nat>, hits: seq<Hit>, row: Joined) returns (i: nat)
    requires |sentNs| == |ts| && row in Rows(SendsOf(ts, sentNs), hits)
    ensures i < |ts| && row.arm == ts[i].plan.arm && row.unackedAtT == ts[i].unackedAtT
    ensures row.hedged == ts[i].hedged && row.ackMs == RoundedMs(MsOf(ts[i].ack))
  {
    var sends := SendsOf(ts, sentNs);
    RowIffSound(sends, hits, row);
    var h :| h in hits && FateOf(sends, h) == Sound(row);
    var s := FindSend(sends, h.key).value;
    i :| 0 <= i < |sends| && sends[i] == s;
  }

  /** A time at or after a point of the one-decimal grid still is once printed. */
  lemma RoundedStaysPast(x: real, ns: nat)
    requires x >= Ms(ns) && ns % 100_000 == 0
    ensures Rounded(x) >= Ms(ns)
  {
    var tenths := ns / 100_000;
    assert 10.0 * Ms(ns) == tenths as real;
    assert Tenths(x) >= tenths;
  }

  /**
   For every run of the put role and every reader file: in the rows that are compared, `hedged` is
   exactly the hedge arm's conditioned population, and no acknowledgement in either population is
   earlier than T, even after printing, when T is on the printed grid.
   */
  lemma PairedRunIsConditioned(
    c: PutRole.Config, clock: int, actions: seq<PutRole.Action>, sentNs: seq<nat>, hits: seq<Hit>, row: Joined)
    requires PutRole.Forward(PutRole.START.(clock := clock), actions)
    requires |sentNs| == |RunOf(c, clock, actions).trials|
    requires row in Rows(SendsOf(RunOf(c, clock, actions).trials, sentNs), hits)
    ensures row.hedged <==> InPopulation(row, PutRole.Hedge)
    ensures row.unackedAtT == Some(true) ==> c.hedge.Some?
    ensures row.unackedAtT == Some(true) && row.ackMs.Some? && c.hedge.value % 100_000 == 0
            ==> row.ackMs.value >= Ms(c.hedge.value)
  {
    var s := RunOf(c, clock, actions);
    PutRole.StartOk(c, clock);
    PutRole.EveryRunKeepsItsMarks(c, PutRole.START.(clock := clock), actions);
    var i := RowHasTrial(s.trials, sentNs, hits, row);
    assert PutRole.TrialOk(c, s.trials[i], s.clock);
    if row.unackedAtT == Some(true) && row.ackMs.Some? && c.hedge.value % 100_000 == 0 {
      assert Ms(s.trials[i].ack.value) >= Ms(c.hedge.value);
      RoundedStaysPast(Ms(s.trials[i].ack.value), c.hedge.value);
    }
  }

  /* ---------- a comparison needs the milestone ---------- */

  ghost predicate DistinctHits(hits: seq<Hit>) {
    forall i, j :: 0 <= i < j < |hits| ==> hits[i].key != hits[j].key
  }

  function RowKeys(sends: seq<Send>, hits: seq<Hit>, arm: Arm): set<string> {
    if hits == [] then {}
    else
      var before, h := RowKeys(sends, hits[..|hits| - 1], arm), hits[|hits| - 1];
      var fate := FateOf(sends, h);
      if fate.Sound? && InPopulation(fate.row, arm) then before + {h.key} else before
  }

  function TrialKeys(ts: seq<PutRole.Trial>, arm: Arm): (keys: set<string>)
    ensures forall i :: 0 <= i < |ts| && PutRole.InPopulation(ts[i], arm) ==> ts[i].plan.key in keys
    ensures |keys| <= PutRole.Conditioned(ts, arm)
  {
    if ts == [] then {}
    else
      var before, t := TrialKeys(ts[..|ts| - 1], arm), ts[|ts| - 1];
      if PutRole.InPopulation(t, arm) then before + {t.plan.key} else before
  }

  lemma {:induction false} RowKeysWereHit(sends: seq<Send>, hits: seq<Hit>, arm: Arm, key: string)
    requires key in RowKeys(sends, hits, arm)
    ensures exists i :: 0 <= i < |hits| && hits[i].key == key
  {
    var last := |hits| - 1;
    if key != hits[last].key {
      RowKeysWereHit(sends, hits[..last], arm, key);
    }
  }

  /** One key for each row of a population, when no key was read twice. */
  lemma {:induction false} RowsHaveTheirKeys(sends: seq<Send>, hits: seq<Hit>, arm: Arm)
    requires DistinctHits(hits)
    ensures |RowKeys(sends, hits, arm)| == |Population(Rows(sends, hits), arm)|
  {
    if hits != [] {
      var last := |hits| - 1;
      RowsHaveTheirKeys(sends, hits[..last], arm);
      if hits[last].key in RowKeys(sends, hits[..last], arm) {
        RowKeysWereHit(sends, hits[..last], arm, hits[last].key);
        assert false;
      }
    }
  }

  lemma {:induction false} RowKeysAreTrialKeys(ts: seq<PutRole.Trial>, sentNs: seq<nat>, hits: seq<Hit>, arm: Arm)
    requires |sentNs| == |ts|
    ensures RowKeys(SendsOf(ts, sentNs), hits, arm) <= TrialKeys(ts, arm)
  {
    if hits != [] {
      var sends, h := SendsOf(ts, sentNs), hits[|hits| - 1];
      RowKeysAreTrialKeys(ts, sentNs, hits[..|hits| - 1], arm);
      var found := FindSend(sends, h.key);
      if found.Some? {
        var i :| 0 <= i < |sends| && sends[i] == found.value;
        assert ts[i].plan.key == h.key;
      }
    }
  }

  lemma {:induction false} SubsetIsSmaller<T>(a: set<T>, b: set<T>)
    requires a <= b
    ensures |a| <= |b|
  {
    assert b == a + (b - a);
  }

  /**
   The reader can only thin a population, so files that pair into a comparison come from a put run
   that had reached the milestone of as many conditioned trials in both arms.
   */
  lemma ComparableNeedsTheMilestone(s: PutRole.State, sentNs: seq<nat>, hits: seq<Hit>)
    requires |sentNs| == |s.trials| && DistinctHits(hits)
    ensures forall arm ::
              |Population(Rows(SendsOf(s.trials, sentNs), hits), arm)| <= PutRole.Conditioned(s.trials, arm)
    ensures (forall arm :: |Population(Rows(SendsOf(s.trials, sentNs), hits), arm)| >= FLOOR)
            ==> PutRole.Milestone(s, FLOOR)
  {
    forall arm ensures |Population(Rows(SendsOf(s.trials, sentNs), hits), arm)| <= PutRole.Conditioned(s.trials, arm) {
      RowsHaveTheirKeys(SendsOf(s.trials, sentNs), hits, arm);
      RowKeysAreTrialKeys(s.trials, sentNs, hits, arm);
      SubsetIsSmaller(RowKeys(SendsOf(s.trials, sentNs), hits, arm), TrialKeys(s.trials, arm));
    }
  }
}
