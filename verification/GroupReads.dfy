/**
 The read role of `src/parity.rs` and what `score` makes of its file: every wanted key ends as
 exactly one READ or MISS line, so the keys asked are the keys wanted.
 */
module GroupReads {
  import opened Base
  import opened Text
  import GroupLog

  /** One block the reader asks for. */
  datatype Want = Want(gid: nat, key: string)

  /** One bounded ask; `PastDeadline` is the check that skips the rest of the round. */
  datatype Probe = Fetched(ms: real, len: nat) | NotYet | PastDeadline

  datatype Outcome = Read(want: Want, ms: real, len: nat) | Miss(want: Want)

  function Name(o: Outcome): string { o.want.key }

  function WantKeys(ws: seq<Want>): multiset<string> {
    if ws == [] then multiset{} else multiset{ws[0].key} + WantKeys(ws[1..])
  }

  function LineKeys(os: seq<Outcome>): multiset<string> {
    if os == [] then multiset{} else multiset{Name(os[0])} + LineKeys(os[1..])
  }

  lemma {:induction false} WantKeysSplit(a: seq<Want>, b: seq<Want>)
    ensures WantKeys(a + b) == WantKeys(a) + WantKeys(b)
  {
    if a == [] {
      assert a + b == b;
    } else {
      assert (a + b)[1..] == a[1..] + b && (a + b)[0] == a[0];
      WantKeysSplit(a[1..], b);
    }
  }

  lemma {:induction false} LineKeysSplit(a: seq<Outcome>, b: seq<Outcome>)
    ensures LineKeys(a + b) == LineKeys(a) + LineKeys(b)
  {
    if a == [] {
      assert a + b == b;
    } else {
      assert (a + b)[1..] == a[1..] + b && (a + b)[0] == a[0];
      LineKeysSplit(a[1..], b);
    }
  }

  lemma WantKeysOne(w: Want)
    ensures WantKeys([w]) == multiset{w.key}
  {
    assert [w][1..] == [];
  }

  lemma LineKeysOne(o: Outcome)
    ensures LineKeys([o]) == multiset{Name(o)}
  {
    assert [o][1..] == [];
  }

  /** The READ lines of one round, from position `i` on. */
  function RoundReads(open: seq<Want>, round: nat, probe: (nat, nat) -> Probe, i: nat): seq<Outcome>
    requires i <= |open|
    decreases |open| - i
  {
    if i == |open| then []
    else (match probe(round, i) case Fetched(ms, len) => [Read(open[i], ms, len)] case _ => [])
         + RoundReads(open, round, probe, i + 1)
  }

  /** The keys one round leaves open, in their order. */
  function RoundStill(open: seq<Want>, round: nat, probe: (nat, nat) -> Probe, i: nat): seq<Want>
    requires i <= |open|
    decreases |open| - i
  {
    if i == |open| then []
    else (if probe(round, i).Fetched? then [] else [open[i]]) + RoundStill(open, round, probe, i + 1)
  }

  function Misses(open: seq<Want>): seq<Outcome> {
    if open == [] then [] else [Miss(open[0])] + Misses(open[1..])
  }

  /** Every line a run writes, from this round on. */
  function RunLines(open: seq<Want>, round: nat, rounds: nat, probe: (nat, nat) -> Probe): seq<Outcome>
    decreases rounds - round
  {
    if open == [] || round >= rounds then Misses(open)
    else RoundReads(open, round, probe, 0) + RunLines(RoundStill(open, round, probe, 0), round + 1, rounds, probe)
  }

  lemma {:induction false} RoundKeys(open: seq<Want>, round: nat, probe: (nat, nat) -> Probe, i: nat)
    requires i <= |open|
    ensures LineKeys(RoundReads(open, round, probe, i)) + WantKeys(RoundStill(open, round, probe, i))
              == WantKeys(open[i..])
    decreases |open| - i
  {
    if i < |open| {
      RoundKeys(open, round, probe, i + 1);
      assert open[i..][1..] == open[i + 1..];
      match probe(round, i) {
        case Fetched(ms, len) =>
          LineKeysSplit([Read(open[i], ms, len)], RoundReads(open, round, probe, i + 1));
          LineKeysOne(Read(open[i], ms, len));
          assert [] + RoundStill(open, round, probe, i + 1) == RoundStill(open, round, probe, i + 1);
        case _ =>
          WantKeysSplit([open[i]], RoundStill(open, round, probe, i + 1));
          WantKeysOne(open[i]);
          assert [] + RoundReads(open, round, probe, i + 1) == RoundReads(open, round, probe, i + 1);
      }
    }
  }

  lemma {:induction false} MissKeys(open: seq<Want>)
    ensures LineKeys(Misses(open)) == WantKeys(open)
  {
    if open != [] {
      MissKeys(open[1..]);
      assert Misses(open)[1..] == Misses(open[1..]);
    }
  }

  /** Whatever the node answers and wherever the deadline falls: one line for each wanted key. */
  lemma {:induction false} OneLineEach(open: seq<Want>, round: nat, rounds: nat, probe: (nat, nat) -> Probe)
    ensures LineKeys(RunLines(open, round, rounds, probe)) == WantKeys(open)
    decreases rounds - round
  {
    if open == [] || round >= rounds {
      MissKeys(open);
    } else {
      var still := RoundStill(open, round, probe, 0);
      RoundKeys(open, round, probe, 0);
      assert open[0..] == open;
      OneLineEach(still, round + 1, rounds, probe);
      LineKeysSplit(RoundReads(open, round, probe, 0), RunLines(still, round + 1, rounds, probe));
    }
  }

  /**
   The round-robin of `read`: at most `rounds` passes before the deadline, each probing every
   key still open. `probe(round, position)` is whatever the node answered there.
   */
  method ReadRole(wanted: seq<Want>, rounds: nat, probe: (nat, nat) -> Probe) returns (out: seq<Outcome>)
    ensures out == RunLines(wanted, 0, rounds, probe)
  {
    var open := wanted;
    out := [];
    var round := 0;
    while open != [] && round < rounds
      invariant round <= rounds
      invariant out + RunLines(open, round, rounds, probe) == RunLines(wanted, 0, rounds, probe)
      decreases rounds - round
    {
      var fetched, still := OneRound(open, round, probe);
      ghost var rest := RunLines(still, round + 1, rounds, probe);
      assert out + (fetched + rest) == (out + fetched) + rest;
      out := out + fetched;
      open := still;
      round := round + 1;
    }
    for i := 0 to |open|
      invariant out + Misses(open[i..]) == RunLines(wanted, 0, rounds, probe)
    {
      assert open[i..][1..] == open[i + 1..];
      assert out + ([Miss(open[i])] + Misses(open[i + 1..])) == (out + [Miss(open[i])]) + Misses(open[i + 1..]);
      out := out + [Miss(open[i])];
    }
    assert open[|open|..] == [];
  }

  method OneRound(open: seq<Want>, round: nat, probe: (nat, nat) -> Probe)
    returns (fetched: seq<Outcome>, still: seq<Want>)
    ensures fetched == RoundReads(open, round, probe, 0)
    ensures still == RoundStill(open, round, probe, 0)
  {
    fetched, still := [], [];
    for i := 0 to |open|
      invariant fetched + RoundReads(open, round, probe, i) == RoundReads(open, round, probe, 0)
      invariant still + RoundStill(open, round, probe, i) == RoundStill(open, round, probe, 0)
    {
      ghost var ahead, left := RoundReads(open, round, probe, i + 1), RoundStill(open, round, probe, i + 1);
      match probe(round, i) {
        case Fetched(ms, len) =>
          assert fetched + ([Read(open[i], ms, len)] + ahead) == (fetched + [Read(open[i], ms, len)]) + ahead;
          fetched := fetched + [Read(open[i], ms, len)];
        case _ =>
          assert still + ([open[i]] + left) == (still + [open[i]]) + left;
          still := still + [open[i]];
      }
    }
  }

  /* ---------- the file and its reader ---------- */

  function OutcomeFields(o: Outcome, secs: nat): seq<string> {
    match o
    case Read(w, ms, len) => ["READ", Decimal(w.gid), w.key, Fixed1(ms), Decimal(len)]
    case Miss(w) => ["MISS", Decimal(w.gid), w.key, Decimal(secs)]
  }

  function OutcomeLine(o: Outcome, secs: nat): string { Join(OutcomeFields(o, secs)) }

  /** What `parse_reads` takes from one line: the key, and its time if it was read. */
  function ReadView(l: string): Option<(string, Option<real>)> { FieldsView(Words(l)) }

  function FieldsView(f: seq<string>): Option<(string, Option<real>)> {
    if |f| >= 4 && f[0] == "READ" then Some((f[2], ParseReal(f[3])))
    else if |f| >= 3 && f[0] == "MISS" then Some((f[2], None))
    else None
  }

  function ReadViews(ls: seq<string>): (vs: seq<Option<(string, Option<real>)>>)
    ensures |vs| == |ls| && forall i :: 0 <= i < |ls| ==> vs[i] == ReadView(ls[i])
  {
    seq(|ls|, i requires 0 <= i < |ls| => ReadView(ls[i]))
  }

  /** `parse_reads`: a later line for a key replaces an earlier one. */
  function ReadsOf(vs: seq<Option<(string, Option<real>)>>): map<string, Option<real>> {
    if vs == [] then map[]
    else
      var before, v := ReadsOf(vs[..|vs| - 1]), vs[|vs| - 1];
      if v.None? then before else before[v.value.0 := v.value.1]
  }

  method ParseReads(text: string) returns (times: map<string, Option<real>>)
    ensures times == ReadsOf(ReadViews(Lines(text)))
  {
    var vs := ReadViews(Lines(text));
    times := map[];
    for i := 0 to |vs|
      invariant times == ReadsOf(vs[..i])
    {
      assert vs[..i + 1][..i] == vs[..i];
      if vs[i].Some? {
        times := times[vs[i].value.0 := vs[i].value.1];
      }
    }
    assert vs[..|vs|] == vs;
  }

  ghost predicate Writable(o: Outcome) { IsWord(Name(o)) }

  function Taken(o: Outcome): (string, Option<real>) {
    (Name(o), match o case Read(_, ms, _) => Some(Rounded(ms)) case Miss(_) => None)
  }

  lemma ReadLineRead(w: Want, ms: real, len: nat, secs: nat)
    requires IsWord(w.key)
    ensures IsLine(OutcomeLine(Read(w, ms, len), secs))
    ensures ReadView(OutcomeLine(Read(w, ms, len), secs)) == Some((w.key, Some(Rounded(ms))))
  {
    var f := OutcomeFields(Read(w, ms, len), secs);
    DecimalIsWord(w.gid);
    DecimalIsWord(len);
    Fixed1IsWord(ms);
    ParseFixed1(ms);
    assert IsWord("READ");
    JoinIsLine(f);
    WordsOfJoin(f);
  }

  lemma MissLineRead(w: Want, secs: nat)
    requires IsWord(w.key)
    ensures IsLine(OutcomeLine(Miss(w), secs))
    ensures ReadView(OutcomeLine(Miss(w), secs)) == Some((w.key, None))
  {
    var f := OutcomeFields(Miss(w), secs);
    DecimalIsWord(w.gid);
    DecimalIsWord(secs);
    assert IsWord("MISS");
    JoinIsLine(f);
    WordsOfJoin(f);
    assert "MISS"[0] != "READ"[0];
  }

  lemma OutcomeRead(o: Outcome, secs: nat)
    requires Writable(o)
    ensures IsLine(OutcomeLine(o, secs)) && ReadView(OutcomeLine(o, secs)) == Some(Taken(o))
  {
    match o {
      case Read(w, ms, len) => ReadLineRead(w, ms, len, secs);
      case Miss(w) => MissLineRead(w, secs);
    }
  }

  function OutcomeLines(os: seq<Outcome>, secs: nat): seq<string> {
    seq(|os|, i requires 0 <= i < |os| => OutcomeLine(os[i], secs))
  }

  function Views(os: seq<Outcome>): seq<Option<(string, Option<real>)>> {
    seq(|os|, i requires 0 <= i < |os| => Some(Taken(os[i])))
  }

  lemma {:induction false} FileRead(os: seq<Outcome>, secs: nat)
    requires forall o :: o in os ==> Writable(o)
    ensures ReadViews(Lines(Unlines(OutcomeLines(os, secs)))) == Views(os)
  {
    var ls := OutcomeLines(os, secs);
    forall i | 0 <= i < |os| ensures IsLine(ls[i]) && ReadView(ls[i]) == Some(Taken(os[i])) {
      OutcomeRead(os[i], secs);
    }
    LinesOfUnlines(ls);
  }

  lemma {:induction false} ReadsHold(os: seq<Outcome>)
    ensures forall key :: key in ReadsOf(Views(os)) <==> key in LineKeys(os)
    ensures forall i :: 0 <= i < |os| && LineKeys(os)[Name(os[i])] == 1 ==>
              Name(os[i]) in ReadsOf(Views(os)) && ReadsOf(Views(os))[Name(os[i])] == Taken(os[i]).1
  {
    if os != [] {
      var before, o := os[..|os| - 1], os[|os| - 1];
      ReadsHold(before);
      assert os == before + [o];
      LineKeysSplit(before, [o]);
      LineKeysOne(o);
      assert Views(os)[..|os| - 1] == Views(before);
      var times := ReadsOf(Views(os));
      assert times == ReadsOf(Views(before))[Name(o) := Taken(o).1];
      forall i | 0 <= i < |os| && LineKeys(os)[Name(os[i])] == 1
        ensures Name(os[i]) in times && times[Name(os[i])] == Taken(os[i]).1
      {
        if i < |before| {
          LineKeysHas(before, i);
          assert Name(os[i]) != Name(o);
          assert LineKeys(before)[Name(before[i])] == 1;
        }
      }
    }
  }

  lemma {:induction false} LineKeysHas(os: seq<Outcome>, i: nat)
    requires i < |os|
    ensures Name(os[i]) in LineKeys(os)
  {
    if i > 0 {
      LineKeysHas(os[1..], i - 1);
    }
  }

  lemma {:induction false} WantKeysHas(ws: seq<Want>, key: string)
    ensures key in WantKeys(ws) <==> exists i :: 0 <= i < |ws| && ws[i].key == key
  {
    if ws != [] {
      WantKeysHas(ws[1..], key);
      if key in WantKeys(ws[1..]) {
        var i :| 0 <= i < |ws[1..]| && ws[1..][i].key == key;
        assert ws[i + 1].key == key;
      }
      if exists i :: 0 <= i < |ws| && ws[i].key == key {
        var i :| 0 <= i < |ws| && ws[i].key == key;
        if i > 0 {
          assert ws[1..][i - 1].key == key;
        }
      }
    }
  }

  /* ---------- what `score` takes as asked ---------- */

  /** The blocks `read` asks for: every member, but no parity of a control group. */
  predicate IsWanted(b: GroupLog.Block) { b.arm == GroupLog.Full || !b.parity }

  function Wanted(bs: seq<GroupLog.Block>): (ws: seq<Want>)
    ensures forall w :: w in ws ==> exists b :: b in bs && IsWanted(b) && b.key == w.key
    ensures forall b :: b in bs && IsWanted(b) ==> Want(b.gid, b.key) in ws
  {
    if bs == [] then []
    else (if IsWanted(bs[0]) then [Want(bs[0].gid, bs[0].key)] else []) + Wanted(bs[1..])
  }

  /** What the read role writes for a log with these blocks. */
  function RoleLines(bs: seq<GroupLog.Block>, rounds: nat, probe: (nat, nat) -> Probe): seq<Outcome> {
    RunLines(Wanted(bs), 0, rounds, probe)
  }

  ghost predicate KeysAreWords(bs: seq<GroupLog.Block>) { forall b :: b in bs ==> IsWord(b.key) }

  /** The scored times, read back from the role's file. */
  function ScoredTimes(os: seq<Outcome>, secs: nat): map<string, Option<real>> {
    ReadsOf(ReadViews(Lines(Unlines(OutcomeLines(os, secs)))))
  }

  lemma {:induction false} WantedKeys(bs: seq<GroupLog.Block>, key: string)
    ensures key in WantKeys(Wanted(bs)) <==> exists w :: w in bs && IsWanted(w) && w.key == key
  {
    var ws := Wanted(bs);
    WantKeysHas(ws, key);
    if w :| w in bs && IsWanted(w) && w.key == key {
      var i :| 0 <= i < |ws| && ws[i] == Want(w.gid, w.key);
      assert ws[i].key == key;
    }
  }

  lemma {:induction false} RoleReadsBack(bs: seq<GroupLog.Block>, rounds: nat, probe: (nat, nat) -> Probe, secs: nat)
    requires KeysAreWords(bs)
    ensures var os := RoleLines(bs, rounds, probe);
            LineKeys(os) == WantKeys(Wanted(bs)) && ScoredTimes(os, secs) == ReadsOf(Views(os))
  {
    var os := RoleLines(bs, rounds, probe);
    OneLineEach(Wanted(bs), 0, rounds, probe);
    forall o | o in os ensures Writable(o) {
      var i :| 0 <= i < |os| && os[i] == o;
      LineKeysHas(os, i);
      WantedKeys(bs, Name(o));
    }
    FileRead(os, secs);
  }

  /**
   For every run of the read role, a key counts as asked in `score` exactly when it was wanted: a
   control group's parity is asked only if it shares a wanted block's key.
   */
  lemma {:induction false} AskedIsWanted(
    bs: seq<GroupLog.Block>, rounds: nat, probe: (nat, nat) -> Probe, secs: nat, key: string)
    requires KeysAreWords(bs)
    ensures key in ScoredTimes(RoleLines(bs, rounds, probe), secs)
            <==> exists w :: w in bs && (w.arm == GroupLog.Full || !w.parity) && w.key == key
  {
    RoleReadsBack(bs, rounds, probe, secs);
    ReadsHold(RoleLines(bs, rounds, probe));
    WantedKeys(bs, key);
  }

  /** With distinct wanted keys, each key's scored time is its own line's, rounded, or a miss. */
  lemma {:induction false} EachKeyHasItsOwnLine(
    bs: seq<GroupLog.Block>, rounds: nat, probe: (nat, nat) -> Probe, secs: nat, i: nat)
    requires KeysAreWords(bs) && i < |RoleLines(bs, rounds, probe)|
    requires forall key :: WantKeys(Wanted(bs))[key] <= 1
    ensures var os, times := RoleLines(bs, rounds, probe), ScoredTimes(RoleLines(bs, rounds, probe), secs);
            Name(os[i]) in times && times[Name(os[i])] == Taken(os[i]).1
  {
    var os := RoleLines(bs, rounds, probe);
    RoleReadsBack(bs, rounds, probe, secs);
    ReadsHold(os);
    LineKeysHas(os, i);
  }
}
