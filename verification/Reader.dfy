/**
 The cross-node reader of `src/xnode.rs`: at most thirty-two probes a round, rotating through a
 list that shrinks as keys are read, with a cursor that is not adjusted when it shrinks.
 */
module Reader {
  import opened Base
  import Arith

  const BURST: nat := 32

  function Burst(len: nat): nat { if len < BURST then len else BURST }

  /** `len.div_ceil(BURST)`: the rounds one cycle takes while nothing is removed. */
  function Cycle(len: nat): nat { (len + BURST - 1) / BURST }

  datatype State<K> = State(pending: seq<K>, cursor: nat, found: seq<K>)

  /** The key probed at one step of a round. */
  function At<K>(s: State<K>, step: nat): K
    requires s.pending != []
  {
    s.pending[(s.cursor + step) % |s.pending|]
  }

  /** The keys that answered, out of the probes made before the deadline cut the round. */
  function Seen<K>(s: State<K>, answers: seq<bool>): seq<K>
    requires s.pending != []
  {
    if answers == [] then []
    else Seen(s, answers[..|answers| - 1]) + (if answers[|answers| - 1] then [At(s, |answers| - 1)] else [])
  }

  function Without<K(==)>(s: seq<K>, seen: seq<K>): (r: seq<K>)
    ensures |r| <= |s|
  {
    if s == [] then [] else (if s[0] in seen then [] else [s[0]]) + Without(s[1..], seen)
  }

  function Within<K(==)>(s: seq<K>, seen: seq<K>): seq<K> {
    if s == [] then [] else (if s[0] in seen then [s[0]] else []) + Within(s[1..], seen)
  }

  /** One round: `answers` says, probe by probe, whether this node served the key. */
  function Round<K(==)>(s: State<K>, answers: seq<bool>): State<K>
    requires s.pending != []
  {
    var seen := Seen(s, answers);
    State(Without(s.pending, seen), (s.cursor + Burst(|s.pending|)) % |s.pending|,
          s.found + Within(s.pending, seen))
  }

  class Scheduler<K(==)> {
    var pending: seq<K>
    var cursor: nat
    var found: seq<K>

    function Now(): State<K>
      reads this
    {
      State(pending, cursor, found)
    }

    constructor (cold: seq<K>)
      ensures Now() == State(cold, 0, [])
    {
      pending, cursor, found := cold, 0, [];
    }

    method OneRound(answers: seq<bool>)
      requires pending != [] && |answers| <= Burst(|pending|)
      modifies this
      ensures Now() == Round(old(Now()), answers)
    {
      var seen: seq<K> := [];
      for step := 0 to |answers|
        invariant unchanged(this)
        invariant seen == Seen(Now(), answers[..step])
      {
        assert answers[..step + 1][..step] == answers[..step];
        if answers[step] {
          seen := seen + [pending[(cursor + step) % |pending|]];
        }
      }
      assert answers[..|answers|] == answers;
      cursor := (cursor + Burst(|pending|)) % |pending|;
      var hits, still := Split(pending, seen);
      found := found + hits;
      pending := still;
    }
  }

  /** Key by key: one that was seen, and one that was not. */
  function HitsOf<K(==)>(pending: seq<K>, seen: seq<K>): (hs: seq<Option<K>>)
    ensures |hs| == |pending|
  {
    seq(|pending|, i requires 0 <= i < |pending| => if pending[i] in seen then Some(pending[i]) else None)
  }

  function MissesOf<K(==)>(pending: seq<K>, seen: seq<K>): (ms: seq<Option<K>>)
    ensures |ms| == |pending|
  {
    seq(|pending|, i requires 0 <= i < |pending| => if pending[i] in seen then None else Some(pending[i]))
  }

  lemma SplitIs<K>(pending: seq<K>, seen: seq<K>)
    ensures Within(pending, seen) == Somes(HitsOf(pending, seen))
    ensures Without(pending, seen) == Somes(MissesOf(pending, seen))
  {
    WithinIs(pending, seen);
    WithoutIs(pending, seen);
  }

  lemma {:induction false} WithinIs<K>(pending: seq<K>, seen: seq<K>)
    ensures Within(pending, seen) == Somes(HitsOf(pending, seen))
  {
    if pending != [] {
      var rest := Within(pending[1..], seen);
      WithinIs(pending[1..], seen);
      assert HitsOf(pending, seen)[1..] == HitsOf(pending[1..], seen);
      SomesFirst(HitsOf(pending, seen));
      assert [] + rest == rest;
    }
  }

  lemma {:induction false} WithoutIs<K>(pending: seq<K>, seen: seq<K>)
    ensures Without(pending, seen) == Somes(MissesOf(pending, seen))
  {
    if pending != [] {
      var rest := Without(pending[1..], seen);
      WithoutIs(pending[1..], seen);
      assert MissesOf(pending, seen)[1..] == MissesOf(pending[1..], seen);
      SomesFirst(MissesOf(pending, seen));
      assert [] + rest == rest;
    }
  }

  /** Walk the list once, setting aside the keys that were seen. */
  method Split<K(==)>(pending: seq<K>, seen: seq<K>) returns (hits: seq<K>, still: seq<K>)
    ensures hits == Within(pending, seen) && still == Without(pending, seen)
    ensures hits == Somes(HitsOf(pending, seen)) && still == Somes(MissesOf(pending, seen))
  {
    ghost var hs, ms := HitsOf(pending, seen), MissesOf(pending, seen);
    hits, still := [], [];
    for i := 0 to |pending|
      invariant hits == Somes(hs[..i]) && still == Somes(ms[..i])
    {
      SomesNext(hs, i);
      SomesNext(ms, i);
      if pending[i] in seen {
        hits := hits + [pending[i]];
      } else {
        still := still + [pending[i]];
      }
    }
    assert hs[..|pending|] == hs && ms[..|pending|] == ms;
    SplitIs(pending, seen);
  }

  /* ---------- where a probe lands ---------- */

  /** How far ahead of the cursor a position is, going round. */
  function Gap(p: nat, cursor: nat, len: nat): (g: nat)
    requires p < len
    ensures g < len
  {
    if p >= cursor % len then p - cursor % len else p + len - cursor % len
  }

  /** Going round at most once: the remainder without the division. */
  lemma Wrap(cursor: nat, len: nat, step: nat)
    requires step <= len && len > 0
    ensures var at := cursor % len + step;
            (cursor + step) % len == if at < len then at else at - len
  {
    var at := cursor % len + step;
    Arith.ModAdd(cursor, step, len);
    if at < len {
      Arith.DivUnique(at, len, 0, at);
    } else {
      Arith.DivUnique(at, len, 1, at - len);
    }
  }

  /** The step that probes a position is its gap, and no other. */
  lemma StepIsGap(p: nat, cursor: nat, len: nat, step: nat)
    requires p < len && step < len
    ensures (cursor + step) % len == p <==> step == Gap(p, cursor, len)
  {
    Wrap(cursor, len, step);
  }

  /** A round never probes a position twice. */
  lemma NoPositionTwice(cursor: nat, len: nat, i: nat, j: nat)
    requires i < j < Burst(len)
    ensures (cursor + i) % len != (cursor + j) % len
  {
    StepIsGap((cursor + i) % len, cursor, len, i);
    StepIsGap((cursor + i) % len, cursor, len, j);
  }

  /** A round takes a whole burst off the gap of every position it does not reach. */
  lemma GapShrinks(p: nat, cursor: nat, len: nat)
    requires p < len && Gap(p, cursor, len) >= Burst(len)
    ensures Gap(p, (cursor + Burst(len)) % len, len) == Gap(p, cursor, len) - Burst(len)
  {
    var next := (cursor + Burst(len)) % len;
    Wrap(cursor, len, Burst(len));
    Arith.DivUnique(next, len, 0, next);
  }

  /* ---------- runs ---------- */

  /** A run of whole rounds: every round but a run's last makes its full burst of probes. */
  ghost predicate Whole<K>(s: State<K>, rounds: seq<seq<bool>>)
    decreases |rounds|
  {
    rounds == []
    || (s.pending != [] && |rounds[0]| == Burst(|s.pending|) && Whole(Round(s, rounds[0]), rounds[1..]))
  }

  predicate Removes<K>(s: State<K>, answers: seq<bool>)
    requires s.pending != []
  {
    exists i :: 0 <= i < |answers| && answers[i]
  }

  /** The rounds of a run that read, and so removed, at least one key. */
  function Removals<K(==)>(s: State<K>, rounds: seq<seq<bool>>): nat
    requires Whole(s, rounds)
    decreases |rounds|
  {
    if rounds == [] then 0
    else (if Removes(s, rounds[0]) then 1 else 0) + Removals(Round(s, rounds[0]), rounds[1..])
  }

  ghost predicate ProbedIn<K>(s: State<K>, answers: seq<bool>, k: K)
    requires s.pending != []
  {
    exists step: nat :: step < |answers| && At(s, step) == k
  }

  ghost predicate Probed<K>(s: State<K>, rounds: seq<seq<bool>>, k: K)
    requires Whole(s, rounds)
    decreases |rounds|
  {
    rounds != [] && (ProbedIn(s, rounds[0], k) || Probed(Round(s, rounds[0]), rounds[1..], k))
  }

  lemma {:induction false} SeenWasProbed<K>(s: State<K>, answers: seq<bool>, k: K)
    requires s.pending != [] && k in Seen(s, answers)
    ensures ProbedIn(s, answers, k) && Removes(s, answers)
  {
    var n := |answers|;
    var before := answers[..n - 1];
    if answers[n - 1] && At(s, n - 1) == k {
      assert answers[n - 1];
    } else {
      SeenWasProbed(s, before, k);
      var step: nat :| step < |before| && At(s, step) == k;
      assert step < n;
      var i :| 0 <= i < |before| && before[i];
      assert answers[i];
    }
  }

  lemma {:induction false} NothingSeen<K>(s: State<K>, answers: seq<bool>)
    requires s.pending != [] && !Removes(s, answers)
    ensures Seen(s, answers) == []
  {
    if answers != [] {
      assert !answers[|answers| - 1];
      NothingSeen(s, answers[..|answers| - 1]);
    }
  }

  lemma {:induction false} WithoutNone<K>(s: seq<K>)
    ensures Without(s, []) == s
  {
    if s != [] {
      WithoutNone(s[1..]);
    }
  }

  lemma {:induction false} WithoutKeeps<K>(s: seq<K>, seen: seq<K>, k: K)
    ensures k in Without(s, seen) <==> k in s && k !in seen
  {
    if s != [] {
      WithoutKeeps(s[1..], seen, k);
    }
  }

  /** One of the round's probes is of this key and is served. */
  ghost predicate ServedIn<K>(s: State<K>, answers: seq<bool>, k: K)
    requires s.pending != []
  {
    exists step: nat :: step < |answers| && answers[step] && s.pending[(s.cursor + step) % |s.pending|] == k
  }

  lemma {:induction false} SeenIff<K>(s: State<K>, answers: seq<bool>, k: K)
    requires s.pending != []
    ensures k in Seen(s, answers) <==> ServedIn(s, answers, k)
  {
    if answers != [] {
      var n := |answers| - 1;
      SeenIff(s, answers[..n], k);
      if ServedIn(s, answers[..n], k) {
        var step: nat :| step < n && answers[..n][step] && s.pending[(s.cursor + step) % |s.pending|] == k;
        assert answers[step];
      }
      if ServedIn(s, answers, k) {
        var step: nat :| step < |answers| && answers[step] && s.pending[(s.cursor + step) % |s.pending|] == k;
        assert step < n ==> answers[..n][step];
      }
    }
  }

  /**
   What one round does: the served keys move from the pending ones to those found, the others keep
   their order, and the cursor goes on by a burst of thirty-two on the list as it was.
   */
  lemma {:induction false} RoundIs<K>(s: State<K>, answers: seq<bool>)
    requires s.pending != []
    ensures var t, len := Round(s, answers), |s.pending|;
            && t.cursor == (s.cursor + if len < 32 then len else 32) % len
            && t.pending == Somes(MissesOf(s.pending, Seen(s, answers)))
            && t.found == s.found + Somes(HitsOf(s.pending, Seen(s, answers)))
    ensures forall k :: k in Seen(s, answers) <==> ServedIn(s, answers, k)
  {
    SplitIs(s.pending, Seen(s, answers));
    forall k ensures k in Seen(s, answers) <==> ServedIn(s, answers, k) {
      SeenIff(s, answers, k);
    }
  }

  /** A key not probed stays pending. */
  lemma UnprobedStays<K>(s: State<K>, answers: seq<bool>, k: K)
    requires s.pending != [] && k in s.pending && !ProbedIn(s, answers, k)
    ensures k in Round(s, answers).pending
  {
    WithoutKeeps(s.pending, Seen(s, answers), k);
    if k in Seen(s, answers) {
      SeenWasProbed(s, answers, k);
    }
  }

  /** How many whole rounds pass before a position is probed, if nothing is removed. */
  function Delay(p: nat, cursor: nat, len: nat): nat
    requires p < len
  {
    Gap(p, cursor, len) / Burst(len)
  }

  lemma DelayBelowCycle(p: nat, cursor: nat, len: nat)
    requires p < len
    ensures Delay(p, cursor, len) <= Cycle(len) - 1
  {
    var gap := Gap(p, cursor, len);
    if len < BURST {
      Arith.DivUnique(gap, len, 0, gap);
    }
  }

  lemma UnprobedWaits<K>(s: State<K>, answers: seq<bool>, p: nat)
    requires p < |s.pending| && |answers| == Burst(|s.pending|)
    requires !ProbedIn(s, answers, s.pending[p])
    ensures Gap(p, s.cursor, |s.pending|) >= Burst(|s.pending|)
    ensures Delay(p, s.cursor, |s.pending|) >= 1
    ensures Delay(p, (s.cursor + Burst(|s.pending|)) % |s.pending|, |s.pending|) == Delay(p, s.cursor, |s.pending|) - 1
  {
    var len := |s.pending|;
    var gap, n := Gap(p, s.cursor, len), Burst(len);
    StepIsGap(p, s.cursor, len, gap);
    assert At(s, gap) == s.pending[p];
    GapShrinks(p, s.cursor, len);
    Arith.DivAdd(gap - n, n, 1);
    Arith.DivMonotone(n, gap, n);
  }

  /** The rounds that removals can cost. */
  function Extra(removals: nat, len: nat): int { removals * (Cycle(len) - 1) }

  /**
   A key that a whole run never probed has outlasted at most one cycle, less a round, for each
   removal and one more.
   */
  lemma {:induction false} UnprobedBound<K>(s: State<K>, rounds: seq<seq<bool>>, p: nat, len: nat)
    requires Whole(s, rounds) && p < |s.pending| <= len
    requires !Probed(s, rounds, s.pending[p])
    ensures |rounds| <= Delay(p, s.cursor, |s.pending|) + Extra(Removals(s, rounds), len)
    decreases |rounds|
  {
    if rounds != [] {
      var t, rest := Round(s, rounds[0]), rounds[1..];
      UnprobedWaits(s, rounds[0], p);
      if Removes(s, rounds[0]) {
        UnprobedStays(s, rounds[0], s.pending[p]);
        var p' :| 0 <= p' < |t.pending| && t.pending[p'] == s.pending[p];
        UnprobedBound(t, rest, p', len);
        DelayBelowCycle(p', t.cursor, |t.pending|);
        OneMore(Removals(t, rest), len);
      } else {
        KeepsPending(s, rounds[0]);
        UnprobedBound(t, rest, p, len);
      }
    }
  }

  lemma KeepsPending<K>(s: State<K>, answers: seq<bool>)
    requires s.pending != [] && !Removes(s, answers)
    ensures Round(s, answers).pending == s.pending
  {
    NothingSeen(s, answers);
    WithoutNone(s.pending);
  }

  lemma OneMore(removals: nat, len: nat)
    requires len > 0
    ensures Extra(removals + 1, len) == Extra(removals, len) + (Cycle(len) - 1)
  {
    var c := Cycle(len) - 1;
    assert (removals + 1) * c == removals * c + c;
  }

  /**
   No starvation: in any run of whole rounds longer than one round less than a cycle, taken once
   for each round that removed something and once more, every key pending at the start is probed.
   */
  lemma EveryKeyIsProbed<K>(s: State<K>, rounds: seq<seq<bool>>, k: K)
    requires Whole(s, rounds) && k in s.pending
    requires |rounds| > (Removals(s, rounds) + 1) * (Cycle(|s.pending|) - 1)
    ensures Probed(s, rounds, k)
  {
    if !Probed(s, rounds, k) {
      var p :| 0 <= p < |s.pending| && s.pending[p] == k;
      var len, r := |s.pending|, Removals(s, rounds);
      UnprobedBound(s, rounds, p, len);
      DelayBelowCycle(p, s.cursor, len);
      CycleTimes(r, Cycle(len));
    }
  }

  lemma CycleTimes(r: nat, c: nat)
    ensures (c - 1) + r * (c - 1) == (r + 1) * (c - 1)
  {
  }

  /** One cycle is enough when nothing is removed in it. */
  lemma OneCycleProbesEveryKey<K>(s: State<K>, rounds: seq<seq<bool>>, k: K)
    requires Whole(s, rounds) && k in s.pending
    requires Removals(s, rounds) == 0 && |rounds| >= (|s.pending| + 31) / 32
    ensures Probed(s, rounds, k)
  {
    assert (0 + 1) * (Cycle(|s.pending|) - 1) == Cycle(|s.pending|) - 1;
    EveryKeyIsProbed(s, rounds, k);
  }

  /* ---------- when one cycle is enough ---------- */

  lemma {:induction false} WithoutOthers<K>(s: seq<K>, seen: seq<K>)
    requires forall k :: k in s ==> k !in seen
    ensures Without(s, seen) == s
  {
    if s != [] {
      assert s[0] in s;
      WithoutOthers(s[1..], seen);
    }
  }

  lemma {:induction false} WithoutAt<K>(s: seq<K>, i: nat)
    requires i < |s| && Distinct(s)
    ensures Without(s, [s[i]]) == s[..i] + s[i + 1..]
  {
    if i == 0 {
      WithoutOthers(s[1..], [s[0]]);
    } else {
      assert s[0] != s[i] && s[1..][i - 1] == s[i];
      WithoutAt(s[1..], i - 1);
      assert s[1..][i..] == s[i + 1..] && [s[0]] + s[1..][..i - 1] == s[..i];
    }
  }

  /** A round in which only its first probe is served, and one in which none is. */
  function OneServed(n: nat): seq<bool> { seq(n, i => i == 0) }
  function NoneServed(n: nat): seq<bool> { seq(n, i => false) }

  lemma {:induction false} SeenFirst<K>(s: State<K>, n: nat)
    requires s.pending != [] && n >= 1
    ensures Seen(s, OneServed(n)) == [At(s, 0)]
  {
    var answers := OneServed(n);
    if n == 1 {
      assert answers[..0] == [];
    } else {
      SeenFirst(s, n - 1);
      assert answers[..n - 1] == OneServed(n - 1);
    }
  }

  /** A key is probed in a whole round exactly when its gap is below the burst. */
  lemma {:induction false} ProbedInIff<K>(s: State<K>, answers: seq<bool>, p: nat)
    requires p < |s.pending| && Distinct(s.pending) && |answers| == Burst(|s.pending|)
    ensures ProbedIn(s, answers, s.pending[p]) <==> Gap(p, s.cursor, |s.pending|) < Burst(|s.pending|)
  {
    var len := |s.pending|;
    var gap := Gap(p, s.cursor, len);
    StepIsGap(p, s.cursor, len, gap);
    assert At(s, gap) == s.pending[p];
    forall step: nat | step < |answers| && At(s, step) == s.pending[p] ensures step == gap {
      StepIsGap(p, s.cursor, len, step);
      assert s.pending[(s.cursor + step) % len] == s.pending[p];
    }
  }

  /** While nothing is served a key waits out as many bursts as its gap holds. */
  lemma {:induction false} QuietRoundsMiss<K>(s: State<K>, p: nat, n: nat) returns (rounds: seq<seq<bool>>)
    requires p < |s.pending| && Distinct(s.pending) && |s.pending| >= BURST
    requires Gap(p, s.cursor, |s.pending|) >= BURST * n
    ensures |rounds| == n && Whole(s, rounds) && Removals(s, rounds) == 0 && !Probed(s, rounds, s.pending[p])
    decreases n
  {
    rounds := [];
    if n > 0 {
      var quiet := NoneServed(BURST);
      assert !Removes(s, quiet);
      KeepsPending(s, quiet);
      ProbedInIff(s, quiet, p);
      GapShrinks(p, s.cursor, |s.pending|);
      var rest := QuietRoundsMiss(Round(s, quiet), p, n - 1);
      rounds := [quiet] + rest;
      assert rounds[1..] == rest;
    }
  }

  /**
   One served key, the first of its burst, makes the cursor step over the next key to be probed:
   that key is then a whole turn of the list away.
   */
  lemma {:induction false} OneServedSkips<K>(s: State<K>, at: nat)
    requires Distinct(s.pending) && s.cursor == at && at + BURST < |s.pending|
    ensures var answers := OneServed(BURST);
            var t, p := Round(s, answers), at + BURST - 1;
            && |answers| == Burst(|s.pending|) && Removes(s, answers)
            && |t.pending| == |s.pending| - 1 && Distinct(t.pending)
            && t.pending[p] == s.pending[at + BURST] && Gap(p, t.cursor, |t.pending|) == |t.pending| - 1
            && !ProbedIn(s, answers, s.pending[at + BURST])
  {
    var answers, len := OneServed(BURST), |s.pending|;
    assert answers[0];
    SeenFirst(s, BURST);
    Arith.DivUnique(at, len, 0, at);
    Arith.DivUnique(at + BURST, len, 0, at + BURST);
    WithoutAt(s.pending, at);
    var t := Round(s, answers);
    assert t.pending == s.pending[..at] + s.pending[at + 1..] && t.cursor == at + BURST;
    ProbedInIff(s, answers, at + BURST);
    if t.cursor == len - 1 {
      Arith.DivUnique(t.cursor, len - 1, 1, 0);
    } else {
      Arith.DivUnique(t.cursor, len - 1, 0, t.cursor);
    }
  }

  /**
   From thirty-four keys to sixty-four, one read in the first round makes one cycle miss a key. The
   run attains the bound of `EveryKeyIsProbed`: it has that many rounds and not one more.
   */
  lemma {:induction false} OneCycleCanMiss<K>(cold: seq<K>) returns (rounds: seq<seq<bool>>)
    requires Distinct(cold) && BURST + 2 <= |cold| <= 2 * BURST
    ensures var s := State(cold, 0, []);
            && Whole(s, rounds) && !Probed(s, rounds, cold[BURST]) && Removals(s, rounds) == 1
            && |rounds| == Cycle(|cold|) == (Removals(s, rounds) + 1) * (Cycle(|cold|) - 1)
  {
    var s := State(cold, 0, []);
    OneServedSkips(s, 0);
    var t := Round(s, OneServed(BURST));
    var rest := QuietRoundsMiss(t, BURST - 1, 1);
    rounds := [OneServed(BURST)] + rest;
    assert rounds[1..] == rest;
  }

  /** And so does one read in the second round of any longer list. */
  lemma {:induction false} OneCycleCanMissLater<K>(cold: seq<K>) returns (rounds: seq<seq<bool>>)
    requires Distinct(cold) && |cold| > 2 * BURST
    ensures var s := State(cold, 0, []);
            && Whole(s, rounds) && !Probed(s, rounds, cold[2 * BURST]) && Removals(s, rounds) == 1
            && |rounds| == Cycle(|cold|)
  {
    var s, quiet := State(cold, 0, []), NoneServed(BURST);
    assert !Removes(s, quiet);
    KeepsPending(s, quiet);
    ProbedInIff(s, quiet, 2 * BURST);
    var s1 := Round(s, quiet);
    Arith.DivUnique(BURST, |cold|, 0, BURST);
    OneServedSkips(s1, BURST);
    var t := Round(s1, OneServed(BURST));
    var rest := QuietRoundsMiss(t, 2 * BURST - 1, Cycle(|cold|) - 2);
    var served := [OneServed(BURST)] + rest;
    assert served[1..] == rest;
    rounds := [quiet] + served;
    assert rounds[1..] == served;
  }

  /** Up to one key more than a burst, a cycle probes every key whatever is served. */
  lemma {:induction false} ShortListIsProbed<K>(s: State<K>, rounds: seq<seq<bool>>, k: K)
    requires |s.pending| <= BURST + 1 && k in s.pending
    requires Whole(s, rounds) && |rounds| >= Cycle(|s.pending|)
    ensures Probed(s, rounds, k)
  {
    if |s.pending| <= BURST || Removals(s, rounds) == 0 {
      EveryKeyIsProbed(s, rounds, k);
    } else if !ProbedIn(s, rounds[0], k) {
      var t := Round(s, rounds[0]);
      UnprobedStays(s, rounds[0], k);
      if Removes(s, rounds[0]) {
        RemovalShortens(s, rounds[0]);
        EveryKeyIsProbed(t, rounds[1..], k);
      } else {
        var p :| 0 <= p < |s.pending| && s.pending[p] == k;
        KeepsPending(s, rounds[0]);
        UnprobedWaits(s, rounds[0], p);
        SecondRound(t, rounds[1..], p);
      }
    }
  }

  /** Whatever else happens later, the next round probes a key whose turn it is. */
  lemma SecondRound<K>(t: State<K>, rounds: seq<seq<bool>>, p: nat)
    requires Whole(t, rounds) && rounds != [] && p < |t.pending|
    requires Delay(p, t.cursor, |t.pending|) == 0
    ensures Probed(t, rounds, t.pending[p])
  {
    if !ProbedIn(t, rounds[0], t.pending[p]) {
      UnprobedWaits(t, rounds[0], p);
    }
  }

  lemma {:induction false} RemovalShortens<K>(s: State<K>, answers: seq<bool>)
    requires s.pending != [] && Removes(s, answers)
    ensures |Round(s, answers).pending| < |s.pending|
  {
    var i :| 0 <= i < |answers| && answers[i];
    SeenHas(s, answers, i);
    WithoutShortens(s.pending, Seen(s, answers), (s.cursor + i) % |s.pending|);
  }

  lemma {:induction false} SeenHas<K>(s: State<K>, answers: seq<bool>, i: nat)
    requires s.pending != [] && i < |answers| && answers[i]
    ensures At(s, i) in Seen(s, answers)
  {
    if i < |answers| - 1 {
      SeenHas(s, answers[..|answers| - 1], i);
    }
  }

  lemma {:induction false} WithoutShortens<K>(s: seq<K>, seen: seq<K>, i: nat)
    requires i < |s| && s[i] in seen
    ensures |Without(s, seen)| < |s|
  {
    if i > 0 {
      WithoutShortens(s[1..], seen, i - 1);
    }
  }

  /** Whatever the node serves, one cycle from the start probes every key. */
  ghost predicate OneCycleSuffices<K(!new)>(cold: seq<K>) {
    forall rounds, k :: Whole(State(cold, 0, []), rounds) && |rounds| >= Cycle(|cold|) && k in cold
                        ==> Probed(State(cold, 0, []), rounds, k)
  }

  /** One cycle is enough, whatever is served, exactly when there is at most one key more than a burst. */
  lemma {:induction false} OneCycleSufficesIff<K(!new)>(cold: seq<K>)
    requires Distinct(cold)
    ensures OneCycleSuffices(cold) <==> |cold| <= 33
  {
    if |cold| <= BURST + 1 {
      forall rounds, k | Whole(State(cold, 0, []), rounds) && |rounds| >= Cycle(|cold|) && k in cold
        ensures Probed(State(cold, 0, []), rounds, k)
      {
        ShortListIsProbed(State(cold, 0, []), rounds, k);
      }
    } else if |cold| <= 2 * BURST {
      var rounds := OneCycleCanMiss(cold);
      assert cold[BURST] in cold;
    } else {
      var rounds := OneCycleCanMissLater(cold);
      assert cold[2 * BURST] in cold;
    }
  }

  /* ---------- nothing is lost ---------- */

  lemma {:induction false} Partition<K>(s: seq<K>, seen: seq<K>)
    ensures multiset(Without(s, seen)) + multiset(Within(s, seen)) == multiset(s)
  {
    if s != [] {
      Partition(s[1..], seen);
      var kept, hits := Without(s[1..], seen), Within(s[1..], seen);
      assert multiset(s) == multiset([s[0]] + s[1..]) == multiset{s[0]} + multiset(s[1..]) by {
        assert s == [s[0]] + s[1..];
      }
      if s[0] in seen {
        assert Without(s, seen) == kept;
        assert multiset([s[0]] + hits) == multiset{s[0]} + multiset(hits);
      } else {
        assert Within(s, seen) == hits;
        assert multiset([s[0]] + kept) == multiset{s[0]} + multiset(kept);
      }
    }
  }

  function Exec<K(==)>(s: State<K>, rounds: seq<seq<bool>>): State<K>
    decreases |rounds|
  {
    if rounds == [] || s.pending == [] then s else Exec(Round(s, rounds[0]), rounds[1..])
  }

  /** Read keys and pending keys always partition the cold ones, however rounds are cut short. */
  lemma {:induction false} ReadAndPendingPartition<K>(s: State<K>, rounds: seq<seq<bool>>)
    ensures var t := Exec(s, rounds);
            multiset(t.found) + multiset(t.pending) == multiset(s.found) + multiset(s.pending)
    decreases |rounds|
  {
    if rounds != [] && s.pending != [] {
      Partition(s.pending, Seen(s, rounds[0]));
      ReadAndPendingPartition(Round(s, rounds[0]), rounds[1..]);
    }
  }
}
