/** What the lines of the read role say about the probes it made. */
module GroupProbes {
  import opened Base
  import opened Text
  import opened GroupReads

  type Probes = (nat, nat) -> Probe

  /** How many of the first `p` probes of a round brought nothing. */
  function Unserved(round: nat, probe: Probes, p: nat): (n: nat)
    ensures n <= p
  {
    if p == 0 then 0 else Unserved(round, probe, p - 1) + if probe(round, p - 1).Fetched? then 0 else 1
  }

  /** Where a round puts a key: among its lines with what the probe brought, or among the keys still open. */
  ghost predicate Placed(open: seq<Want>, round: nat, probe: Probes, p: nat, i: nat,
                         lines: seq<Outcome>, still: seq<Want>)
    requires i <= p < |open|
  {
    var before := Unserved(round, probe, p) - Unserved(round, probe, i);
    var at := p - i - before;
    match probe(round, p)
    case Fetched(ms, len) => 0 <= at < |lines| && lines[at] == Read(open[p], ms, len)
    case _ => 0 <= before < |still| && still[before] == open[p]
  }

  lemma PlacedLater(open: seq<Want>, round: nat, probe: Probes, p: nat, i: nat,
                    lines: seq<Outcome>, still: seq<Want>, l: seq<Outcome>, s: seq<Want>)
    requires i < p < |open| && Placed(open, round, probe, p, i + 1, lines, still)
    requires if probe(round, i).Fetched? then |l| == 1 && s == [] else l == [] && |s| == 1
    ensures Placed(open, round, probe, p, i, l + lines, s + still)
  {
  }

  /**
   One round from position `i` on, exactly: a line for each key its probe fetched, with what it brought,
   and every other key still open, both in their order.
   */
  lemma {:induction false} RoundIs(open: seq<Want>, round: nat, probe: Probes, i: nat)
    requires i <= |open|
    ensures |RoundStill(open, round, probe, i)| == Unserved(round, probe, |open|) - Unserved(round, probe, i)
    ensures |RoundReads(open, round, probe, i)| + |RoundStill(open, round, probe, i)| == |open| - i
    ensures forall p :: i <= p < |open| ==>
              Placed(open, round, probe, p, i, RoundReads(open, round, probe, i), RoundStill(open, round, probe, i))
    decreases |open| - i
  {
    if i < |open| {
      RoundIs(open, round, probe, i + 1);
      var lines, still := RoundReads(open, round, probe, i + 1), RoundStill(open, round, probe, i + 1);
      var s := if probe(round, i).Fetched? then [] else [open[i]];
      var l := match probe(round, i) case Fetched(ms, len) => [Read(open[i], ms, len)] case _ => [];
      forall p | i <= p < |open| ensures Placed(open, round, probe, p, i, l + lines, s + still) {
        if p > i {
          PlacedLater(open, round, probe, p, i, lines, still, l, s);
        }
      }
    }
  }

  /** The keys open when round `r` begins. */
  function OpenAt(open: seq<Want>, round: nat, probe: Probes, r: nat): seq<Want>
    requires round <= r
    decreases r - round
  {
    if r == round then open else OpenAt(RoundStill(open, round, probe, 0), round + 1, probe, r)
  }

  /** In round `r` the probe at `p` is made of this key and brings these bytes. */
  ghost predicate Brought(open: seq<Want>, round: nat, rounds: nat, probe: Probes, r: nat, p: nat,
                          w: Want, ms: real, len: nat)
  {
    && round <= r < rounds && p < |OpenAt(open, round, probe, r)|
    && OpenAt(open, round, probe, r)[p] == w && probe(r, p) == Fetched(ms, len)
  }

  /** What one probe writes. */
  ghost predicate Wrote(open: seq<Want>, round: nat, probe: Probes, p: nat, o: Outcome) {
    p < |open| && probe(round, p).Fetched? && o == Read(open[p], probe(round, p).ms, probe(round, p).len)
  }

  lemma RoundReadsIn(open: seq<Want>, round: nat, probe: Probes, i: nat, o: Outcome)
    requires i < |open|
    ensures o in RoundReads(open, round, probe, i)
            <==> Wrote(open, round, probe, i, o) || o in RoundReads(open, round, probe, i + 1)
  {
  }

  lemma {:induction false} ProbeOfLine(open: seq<Want>, round: nat, probe: Probes, i: nat, o: Outcome)
    returns (p: nat)
    requires i <= |open| && o in RoundReads(open, round, probe, i)
    ensures Wrote(open, round, probe, p, o)
    decreases |open| - i
  {
    RoundReadsIn(open, round, probe, i, o);
    p := i;
    if !Wrote(open, round, probe, i, o) {
      p := ProbeOfLine(open, round, probe, i + 1, o);
    }
  }

  lemma {:induction false} LineOfProbe(open: seq<Want>, round: nat, probe: Probes, i: nat, o: Outcome, p: nat)
    requires i <= p < |open| && Wrote(open, round, probe, p, o)
    ensures o in RoundReads(open, round, probe, i)
    decreases p - i
  {
    if i < p {
      LineOfProbe(open, round, probe, i + 1, o, p);
    }
    RoundReadsIn(open, round, probe, i, o);
  }

  lemma {:induction false} OnlyMisses(open: seq<Want>, o: Outcome)
    ensures o in Misses(open) <==> o.Miss? && o.want in open
  {
    if open != [] {
      OnlyMisses(open[1..], o);
    }
  }

  lemma {:induction false} NothingOpen(round: nat, probe: Probes, r: nat)
    requires round <= r
    ensures OpenAt([], round, probe, r) == []
    decreases r - round
  {
    if r > round {
      NothingOpen(round + 1, probe, r);
    }
  }

  /**
   In every run of the read role, a key has a READ line with this time and size exactly when some
   probe made of it brought them.
   */
  lemma {:induction false} ReadIffFetched(
    open: seq<Want>, round: nat, rounds: nat, probe: Probes, w: Want, ms: real, len: nat)
    ensures Read(w, ms, len) in RunLines(open, round, rounds, probe)
            <==> exists r: nat, p: nat :: Brought(open, round, rounds, probe, r, p, w, ms, len)
    decreases rounds - round
  {
    var o := Read(w, ms, len);
    if open == [] || round >= rounds {
      OnlyMisses(open, o);
      forall r: nat, p: nat ensures !Brought(open, round, rounds, probe, r, p, w, ms, len) {
        if round <= r < rounds {
          NothingOpen(round, probe, r);
        }
      }
    } else {
      var still, next := RoundStill(open, round, probe, 0), round + 1;
      ReadIffFetched(still, next, rounds, probe, w, ms, len);
      if o in RoundReads(open, round, probe, 0) {
        var p := ProbeOfLine(open, round, probe, 0, o);
        assert Brought(open, round, rounds, probe, round, p, w, ms, len);
      }
      if r: nat, p: nat :| Brought(still, next, rounds, probe, r, p, w, ms, len) {
        assert Brought(open, round, rounds, probe, r, p, w, ms, len);
      }
      if r: nat, p: nat :| Brought(open, round, rounds, probe, r, p, w, ms, len) {
        assert r > round ==> Brought(still, next, rounds, probe, r, p, w, ms, len);
        if r == round {
          LineOfProbe(open, round, probe, 0, o, p);
        }
      }
    }
  }

  lemma {:induction false} NameCounts(os: seq<Outcome>, i: nat, j: nat)
    requires i < j < |os| && Name(os[i]) == Name(os[j])
    ensures LineKeys(os)[Name(os[i])] >= 2
  {
    if i == 0 {
      LineKeysHas(os[1..], j - 1);
    } else {
      NameCounts(os[1..], i - 1, j - 1);
    }
  }

  /**
   And when no two of its keys are the same, it has a MISS line exactly when it was asked for and no
   probe made of it brought anything.
   */
  lemma {:induction false} MissIffNeverFetched(open: seq<Want>, rounds: nat, probe: Probes, w: Want)
    requires forall i, j :: 0 <= i < j < |open| ==> open[i].key != open[j].key
    ensures Miss(w) in RunLines(open, 0, rounds, probe)
            <==> w in open && !exists r: nat, p: nat, ms, len :: Brought(open, 0, rounds, probe, r, p, w, ms, len)
  {
    var os := RunLines(open, 0, rounds, probe);
    OneLineEach(open, 0, rounds, probe);
    OncePerKey(open);
    if Miss(w) in os {
      var i :| 0 <= i < |os| && os[i] == Miss(w);
      WantOfLine(open, 0, rounds, probe, os[i]);
      forall r: nat, p: nat, ms, len ensures !Brought(open, 0, rounds, probe, r, p, w, ms, len) {
        ReadIffFetched(open, 0, rounds, probe, w, ms, len);
        if Read(w, ms, len) in os {
          var j :| 0 <= j < |os| && os[j] == Read(w, ms, len);
          assert WantKeys(open)[w.key] <= 1;
          NameCounts(os, if i < j then i else j, if i < j then j else i);
        }
      }
    } else if w in open {
      LineOfWant(open, os, w);
      var o :| o in os && Name(o) == w.key;
      WantOfLine(open, 0, rounds, probe, o);
      assert o.want == w;
      ReadIffFetched(open, 0, rounds, probe, w, o.ms, o.len);
    }
  }

  lemma {:induction false} OncePerKey(open: seq<Want>)
    requires forall i, j :: 0 <= i < j < |open| ==> open[i].key != open[j].key
    ensures forall key :: WantKeys(open)[key] <= 1
  {
    if open != [] {
      OncePerKey(open[1..]);
      WantKeysHas(open[1..], open[0].key);
    }
  }

  lemma {:induction false} LineOfWant(open: seq<Want>, os: seq<Outcome>, w: Want)
    requires w in open && LineKeys(os) == WantKeys(open)
    ensures exists o :: o in os && Name(o) == w.key
  {
    WantKeysHas(open, w.key);
    var i :| 0 <= i < |open| && open[i] == w;
    assert open[i].key == w.key;
    KeyHasLine(os, w.key);
  }

  lemma {:induction false} KeyHasLine(os: seq<Outcome>, key: string)
    requires key in LineKeys(os)
    ensures exists o :: o in os && Name(o) == key
  {
    if Name(os[0]) != key {
      KeyHasLine(os[1..], key);
    }
  }

  /** Every line is of a key that was asked for. */
  lemma {:induction false} WantOfLine(open: seq<Want>, round: nat, rounds: nat, probe: Probes, o: Outcome)
    requires o in RunLines(open, round, rounds, probe)
    ensures o.want in open
    decreases rounds - round
  {
    if open == [] || round >= rounds {
      OnlyMisses(open, o);
    } else {
      var still := RoundStill(open, round, probe, 0);
      if o in RoundReads(open, round, probe, 0) {
        var p := ProbeOfLine(open, round, probe, 0, o);
      } else {
        WantOfLine(still, round + 1, rounds, probe, o);
        StillWasOpen(open, round, probe, 0, o.want);
      }
    }
  }

  lemma {:induction false} StillWasOpen(open: seq<Want>, round: nat, probe: Probes, i: nat, w: Want)
    requires i <= |open| && w in RoundStill(open, round, probe, i)
    ensures w in open
    decreases |open| - i
  {
    if w !in (if probe(round, i).Fetched? then [] else [open[i]]) {
      StillWasOpen(open, round, probe, i + 1, w);
    }
  }

  /* ---------- what the lines carry ---------- */

  lemma ReadLineWords(w: Want, ms: real, len: nat, secs: nat)
    requires IsWord(w.key)
    ensures Words(OutcomeLine(Read(w, ms, len), secs)) == ["READ", Decimal(w.gid), w.key, Fixed1(ms), Decimal(len)]
  {
    DecimalIsWord(w.gid);
    DecimalIsWord(len);
    Fixed1IsWord(ms);
    WordsOfJoin(OutcomeFields(Read(w, ms, len), secs));
  }

  /** Every number of a READ line can be read back from it. */
  lemma ReadLineSays(w: Want, ms: real, len: nat, secs: nat)
    requires IsWord(w.key) && w.gid < U64 && len < U64
    ensures var f := Words(OutcomeLine(Read(w, ms, len), secs));
            && |f| == 5 && f[2] == w.key
            && ParseUnsigned(f[1], U64) == Some(w.gid)
            && ParseReal(f[3]) == Some(Rounded(ms))
            && ParseUnsigned(f[4], U64) == Some(len)
  {
    ReadLineWords(w, ms, len, secs);
    ParseDecimal(w.gid, U64);
    ParseDecimal(len, U64);
    ParseFixed1(ms);
  }

  /** And of a MISS line. */
  lemma MissLineSays(w: Want, secs: nat)
    requires IsWord(w.key) && w.gid < U64 && secs < U64
    ensures var f := Words(OutcomeLine(Miss(w), secs));
            && |f| == 4 && f[2] == w.key
            && ParseUnsigned(f[1], U64) == Some(w.gid) && ParseUnsigned(f[3], U64) == Some(secs)
  {
    DecimalIsWord(w.gid);
    ParseDecimal(w.gid, U64);
    DecimalIsWord(secs);
    ParseDecimal(secs, U64);
    WordsOfJoin(OutcomeFields(Miss(w), secs));
  }

  /* ---------- what `parse_reads` makes of any file ---------- */

  /** A READ line of four words or more gives its key a time, if the word is one; a MISS line gives it none. */
  lemma LineTakes(l: string)
    ensures ReadView(l).Some? <==>
              (|Words(l)| >= 4 && Words(l)[0] == "READ") || (|Words(l)| >= 3 && Words(l)[0] == "MISS")
    ensures ReadView(l).Some? ==>
              ReadView(l).value == (Words(l)[2], if Words(l)[0] == "READ" then ParseReal(Words(l)[3]) else None)
  {
    assert "READ"[0] != "MISS"[0];
  }

  /** Of several lines for a key the last one stands. */
  lemma {:induction false} LastLineStands(vs: seq<Option<(string, Option<real>)>>, key: string, i: nat)
    requires i < |vs| && vs[i].Some? && vs[i].value.0 == key
    requires forall j :: i < j < |vs| && vs[j].Some? ==> vs[j].value.0 != key
    ensures key in ReadsOf(vs) && ReadsOf(vs)[key] == vs[i].value.1
  {
    if i < |vs| - 1 {
      LastLineStands(vs[..|vs| - 1], key, i);
    }
  }
}
