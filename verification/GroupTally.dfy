/**
 The writer's closing check: the outcomes its file reads back as, against those of the keyed
 operations in the connection's recording.

 A tally over blocks and one over keys are compared; what makes them differ is what has gone wrong.
 */
module GroupTally {
  import opened Base
  import L = Ledger
  import LedgerKeyed
  import opened GroupLog
  import opened GroupWriter

  /* ---------- what the recording says of a key ---------- */

  predicate IsAsked(s: L.State, i: nat) { L.Edge(L.SEND, L.Asked, L.Label(L.Contract, i)) in s.rec }
  predicate IsReplied(s: L.State, i: nat) { L.Edge(L.RECV, L.Replied, L.Label(L.Contract, i)) in s.rec }

  /** The key was sent under its own label. */
  predicate AskedKey(s: L.State, key: string) {
    key in s.contracts && IsAsked(s, L.IndexOf(s.contracts, key))
  }

  /** Some answer is recorded under the key's label. */
  predicate RepliedKey(s: L.State, key: string) {
    key in s.contracts && IsReplied(s, L.IndexOf(s.contracts, key))
  }

  /** Labels in the recording are labels of the table. */
  ghost predicate Known(s: L.State) {
    LedgerKeyed.TableOk(s) && EdgesKnown(s.rec, |s.contracts|)
  }

  ghost predicate EdgesKnown(rec: seq<L.Event>, labels: nat) {
    forall e :: e in rec && e.Edge? && e.id.kind == L.Contract ==> e.id.ordinal < labels
  }

  /** What a connection that only sends keyed puts does to its ledger. */
  predicate WriterCall(call: L.Call) { call.AskKeyed? || call.Answered? || call.Response? }

  /** The key under which a call records an answer, if any: a message that names none goes by position. */
  function AnswersFor(s: L.State, call: L.Call): Option<L.Label> {
    match call
    case Answered(key) => Some(L.Label(L.Contract, L.IndexOf(s.contracts, key)))
    case Response => if s.owed == 0 && s.open != [] then Some(s.open[0]) else None
    case _ => None
  }

  lemma {:induction false} InternedLabel(names: seq<string>, seen: string, key: string)
    ensures key in L.Interned(names, seen) <==> key in names || key == seen
    ensures key in names ==> L.IndexOf(L.Interned(names, seen), key) == L.IndexOf(names, key)
    ensures L.IndexOf(L.Interned(names, seen), seen) == L.IndexOf(names, seen) < |L.Interned(names, seen)|
    ensures Distinct(names) ==> Distinct(L.Interned(names, seen))
  {
    if seen !in names {
      LedgerKeyed.IndexOfNew(names, seen);
      if key in names {
        LedgerKeyed.IndexOfStays(names, [seen], key);
      }
    }
  }

  lemma {:induction false} KnownStep(s: L.State, call: L.Call, opOf: L.Label -> L.OpId)
    requires Known(s) && WriterCall(call)
    ensures Known(L.Step(s, call, opOf))
  {
    NewEdgesKnown(s, call, opOf);
    if !call.Response? {
      LedgerKeyed.KeyedStep(s, call, opOf, call.key);
    }
  }

  lemma {:induction false} NewEdgesKnown(s: L.State, call: L.Call, opOf: L.Label -> L.OpId)
    requires Known(s) && WriterCall(call)
    ensures EdgesKnown(L.Step(s, call, opOf).rec, |L.Step(s, call, opOf).contracts|)
  {
    var labels := |L.Step(s, call, opOf).contracts|;
    if !call.Response? {
      InternedLabel(s.contracts, call.key, call.key);
    }
    assert labels >= |s.contracts|;
    assert EdgesKnown(L.Appended(s, call, opOf), labels);
  }

  /** Which labels a call adds an edge for. */
  lemma {:induction false} EdgesStep(s: L.State, call: L.Call, opOf: L.Label -> L.OpId, i: nat)
    requires WriterCall(call)
    ensures var t := L.Step(s, call, opOf);
            && (IsAsked(t, i) <==> IsAsked(s, i) || (call.AskKeyed? && L.IndexOf(s.contracts, call.key) == i))
            && (IsReplied(t, i) <==> IsReplied(s, i) || AnswersFor(s, call) == Some(L.Label(L.Contract, i)))
  {
    var es := L.Appended(s, call, opOf);
    match call {
      case AskKeyed(_, _) => assert es[0].Edge? && !es[1].Edge? && !es[2].Edge?;
      case Answered(_) => assert es[0].Edge? && !es[1].Edge?;
      case Response =>
        if s.owed == 0 && s.open != [] {
          assert es[0] == L.Edge(L.RECV, L.Replied, s.open[0]);
        }
    }
  }

  /** In a table without repeats two keys have two labels, and a new label has no edges yet. */
  lemma {:induction false} LabelsApart(s: L.State, seen: string, key: string)
    requires Known(s)
    ensures seen !in s.contracts ==>
              !IsAsked(s, L.IndexOf(s.contracts, seen)) && !IsReplied(s, L.IndexOf(s.contracts, seen))
    ensures key in s.contracts && key != seen ==> L.IndexOf(s.contracts, key) != L.IndexOf(s.contracts, seen)
  {
  }

  /** A send asks for its own key and nothing else; only a message recorded under a key's label replies to it. */
  lemma {:induction false} KeysStep(s: L.State, call: L.Call, opOf: L.Label -> L.OpId, key: string)
    requires Known(s) && WriterCall(call)
    ensures AskedKey(L.Step(s, call, opOf), key) <==> AskedKey(s, key) || (call.AskKeyed? && call.key == key)
    ensures RepliedKey(L.Step(s, call, opOf), key)
            <==> RepliedKey(s, key) || (call.Answered? && call.key == key) || PlacedOn(s, call, key)
  {
    var t := L.Step(s, call, opOf);
    if call.Response? {
      EdgesStep(s, call, opOf, L.IndexOf(s.contracts, key));
    } else {
      InternedLabel(s.contracts, call.key, key);
      LabelsApart(s, call.key, key);
      EdgesStep(s, call, opOf, L.IndexOf(t.contracts, key));
    }
  }

  /** A message that names no key is recorded, by its position, as this key's reply. */
  predicate PlacedOn(s: L.State, call: L.Call, key: string) {
    call.Response? && key in s.contracts && AnswersFor(s, call) == Some(LedgerKeyed.KeyLabel(s, key))
  }

  /* ---------- the keyed operations of a recording ---------- */

  /** The keys a recording asked for, one for each label, as `answers` lists them. */
  function AskedKeys(s: L.State, n: nat): seq<string>
    requires n <= |s.contracts|
  {
    if n == 0 then []
    else AskedKeys(s, n - 1) + (if IsAsked(s, n - 1) then [s.contracts[n - 1]] else [])
  }

  lemma {:induction false} AskedKeysAre(s: L.State, n: nat)
    requires Distinct(s.contracts) && n <= |s.contracts|
    ensures Distinct(AskedKeys(s, n))
    ensures forall key :: key in AskedKeys(s, n)
                          <==> key in s.contracts && L.IndexOf(s.contracts, key) < n && AskedKey(s, key)
  {
    if n > 0 {
      AskedKeysAre(s, n - 1);
      var last := s.contracts[n - 1];
      assert L.IndexOf(s.contracts, last) == n - 1;
    }
  }

  /* ---------- counting classes ---------- */

  datatype Tally = Tally(within: nat, late: nat, never: nat)

  function Add(t: Tally, a: Ack): Tally {
    match a
    case Within(_) => t.(within := t.within + 1)
    case Late(_) => t.(late := t.late + 1)
    case Never => t.(never := t.never + 1)
  }

  function TallyOf(keys: seq<string>, class_: string -> Ack): Tally {
    if keys == [] then Tally(0, 0, 0) else Add(TallyOf(keys[..|keys| - 1], class_), class_(keys[|keys| - 1]))
  }

  lemma {:induction false} TallyTotal(keys: seq<string>, class_: string -> Ack)
    ensures var t := TallyOf(keys, class_); t.within + t.late + t.never == |keys|
  {
    if keys != [] {
      TallyTotal(keys[..|keys| - 1], class_);
    }
  }

  lemma {:induction false} TallyWithout(keys: seq<string>, i: nat, class_: string -> Ack)
    requires i < |keys|
    ensures TallyOf(keys, class_) == Add(TallyOf(keys[..i] + keys[i + 1..], class_), class_(keys[i]))
  {
    var last := |keys| - 1;
    if i == last {
      assert keys[..i] + keys[i + 1..] == keys[..last];
    } else {
      var rest := keys[..i] + keys[i + 1..];
      TallyWithout(keys[..last], i, class_);
      assert rest[..|rest| - 1] == keys[..last][..i] + keys[..last][i + 1..];
    }
  }

  lemma {:induction false} OneLess(keys: seq<string>, i: nat)
    requires i < |keys|
    ensures multiset(keys[..i] + keys[i + 1..]) == multiset(keys) - multiset{keys[i]}
  {
    assert keys == keys[..i] + [keys[i]] + keys[i + 1..];
  }

  /** A tally does not depend on the order of its keys. */
  lemma {:induction false} TallyOrderFree(a: seq<string>, b: seq<string>, class_: string -> Ack)
    requires multiset(a) == multiset(b)
    ensures TallyOf(a, class_) == TallyOf(b, class_)
    decreases |a|
  {
    assert |a| == |multiset(a)| == |multiset(b)| == |b|;
    if a != [] {
      var x, before := a[|a| - 1], a[..|a| - 1];
      assert x in multiset(b);
      var i :| 0 <= i < |b| && b[i] == x;
      var rest := b[..i] + b[i + 1..];
      OneLess(a, |a| - 1);
      OneLess(b, i);
      assert before + a[|a|..] == before;
      TallyOrderFree(before, rest, class_);
      TallyWithout(b, i, class_);
    }
  }

  /** The recording calls late what the file calls within or never; nothing moves the other way. */
  predicate OnlyLater(file: Ack, rec: Ack) { SameKind(file, rec) || rec.Late? }

  /** Differences of that kind cannot hide each other. */
  lemma {:induction false} TallyShift(keys: seq<string>, file: string -> Ack, rec: string -> Ack)
    requires forall key :: key in keys ==> OnlyLater(file(key), rec(key))
    ensures var f, r := TallyOf(keys, file), TallyOf(keys, rec);
            && f.within >= r.within && f.never >= r.never
            && (f == r <==> AgreeOn(keys, file, rec))
  {
    if keys != [] {
      var last, before := keys[|keys| - 1], keys[..|keys| - 1];
      TallyTotal(before, file);
      TallyTotal(before, rec);
      assert last in keys;
      TallyShift(before, file, rec);
      AgreeOnMore(before, last, file, rec);
      assert keys == before + [last];
      OneMore(TallyOf(before, file), TallyOf(before, rec), file(last), rec(last));
    }
  }

  predicate AgreeOn(keys: seq<string>, file: string -> Ack, rec: string -> Ack) {
    forall key :: key in keys ==> SameKind(file(key), rec(key))
  }

  lemma {:induction false} AgreeOnMore(keys: seq<string>, last: string, file: string -> Ack, rec: string -> Ack)
    ensures AgreeOn(keys + [last], file, rec) <==> AgreeOn(keys, file, rec) && SameKind(file(last), rec(last))
  {
    assert last in keys + [last];
  }

  lemma OneMore(f: Tally, r: Tally, file: Ack, rec: Ack)
    requires OnlyLater(file, rec) && f.within >= r.within && f.never >= r.never
    requires f.within + f.late + f.never == r.within + r.late + r.never
    ensures Add(f, file).within >= Add(r, rec).within && Add(f, file).never >= Add(r, rec).never
    ensures Add(f, file) == Add(r, rec) <==> f == r && SameKind(file, rec)
  {
  }

  /* ---------- repeats ---------- */

  lemma {:induction false} DistinctOnce(a: seq<string>)
    ensures Distinct(a) <==> forall key :: multiset(a)[key] <= 1
  {
    if a != [] {
      var last, before := |a| - 1, a[..|a| - 1];
      assert a == before + [a[last]];
      DistinctOnce(before);
      if Distinct(a) {
        assert a[last] !in before;
      }
      if forall key :: multiset(a)[key] <= 1 {
        assert multiset(a)[a[last]] <= 1;
        assert a[last] !in multiset(before);
        forall key ensures multiset(before)[key] <= 1 {
          assert multiset(a)[key] <= 1;
        }
      }
    }
  }

  /**
   Two lists of the same keys, one without repeats: the other is as long only if it has none, and
   then it is a permutation.
   */
  lemma {:induction false} SameKeys(a: seq<string>, b: seq<string>)
    requires Distinct(a) && forall key :: key in a <==> key in b
    ensures |a| == |b| <==> Distinct(b)
    ensures Distinct(b) ==> multiset(a) == multiset(b)
  {
    DistinctOnce(a);
    DistinctOnce(b);
    forall key ensures multiset(a)[key] <= multiset(b)[key] {
      assert key in a <==> key in multiset(a);
      assert key in b <==> key in multiset(b);
    }
    var extra := multiset(b) - multiset(a);
    assert multiset(b) == multiset(a) + extra;
    assert |b| == |a| + |extra| by {
      assert |multiset(a)| == |a| && |multiset(b)| == |b|;
    }
    if Distinct(b) {
      forall key ensures multiset(a)[key] == multiset(b)[key] {
        assert key in b <==> key in multiset(b);
        assert key in a <==> key in multiset(a);
      }
      assert multiset(a) == multiset(b);
    }
    if |a| == |b| {
      assert extra == multiset{};
      assert multiset(b) == multiset(a);
    }
  }

  /* ---------- the check ---------- */

  function KeysOf(bs: seq<Block>): (keys: seq<string>)
    ensures |keys| == |bs| && forall i :: 0 <= i < |bs| ==> keys[i] == bs[i].key
  {
    seq(|bs|, i requires 0 <= i < |bs| => bs[i].key)
  }

  function SentKeys(h: seq<Entry>): seq<string> { KeysOf(SentBlocks(h)) }

  /** How the closing loop classes a keyed operation: by the recording, and by the time kept if there is one. */
  function RecClass(replied: bool, ms: Option<real>, ackSecs: nat): Ack {
    if !replied then Never
    else match ms
      case Some(v) => if v <= BoundOf(ackSecs) then Within(v) else Late(v)
      case None => Late(0.0)
  }

  function FileClasses(h: seq<Entry>, ackSecs: nat): string -> Ack { key => FileClass(h, key, ackSecs) }

  function RecClasses(s: L.State, h: seq<Entry>, ackSecs: nat): string -> Ack {
    key => RecClass(RepliedKey(s, key), AckTime(h, key), ackSecs)
  }

  function FileTally(h: seq<Entry>, ackSecs: nat): Tally { TallyOf(SentKeys(h), FileClasses(h, ackSecs)) }

  function RecordingTally(s: L.State, h: seq<Entry>, ackSecs: nat): Tally {
    TallyOf(AskedKeys(s, |s.contracts|), RecClasses(s, h, ackSecs))
  }

  /** The next label, as the closing loop counts it. */
  lemma {:induction false} OneMoreLabel(s: L.State, h: seq<Entry>, ackSecs: nat, i: nat)
    requires Distinct(s.contracts) && i < |s.contracts|
    ensures var classes := RecClasses(s, h, ackSecs);
            var before := TallyOf(AskedKeys(s, i), classes);
            TallyOf(AskedKeys(s, i + 1), classes) ==
              if IsAsked(s, i) then Add(before, RecClass(IsReplied(s, i), AckTime(h, s.contracts[i]), ackSecs))
              else before
  {
    var before, key := AskedKeys(s, i), s.contracts[i];
    assert L.IndexOf(s.contracts, key) == i;
    assert before + [] == before;
    assert (before + [key])[..|before|] == before;
  }

  /** The recording has the keys that were sent, and a reply for every time that was filed. */
  ghost predicate InStep(s: L.State, h: seq<Entry>) {
    && Known(s)
    && (forall key :: AskedKey(s, key) <==> key in SentKeys(h))
    && (forall key :: AckTime(h, key).Some? ==> RepliedKey(s, key))
  }

  /** The recording has a reply for a key that no time was filed for. */
  predicate Misfiled(s: L.State, h: seq<Entry>, key: string) { RepliedKey(s, key) && AckTime(h, key).None? }

  lemma {:induction false} KeyAgreesIff(s: L.State, h: seq<Entry>, ackSecs: nat, key: string)
    requires WellFormedAll(h) && InStep(s, h)
    ensures var file, rec := FileClasses(h, ackSecs)(key), RecClasses(s, h, ackSecs)(key);
            && OnlyLater(file, rec)
            && (SameKind(file, rec) <==> !Crosses(AckTime(h, key), ackSecs) && !Misfiled(s, h, key))
  {
    if AckTime(h, key).Some? {
      AckTimeNonNegative(h, key);
      ClassesAgreeIff(h, key, ackSecs);
      RoundingCrosses(AckTime(h, key).value, ackSecs);
    }
  }

  /**
   The file's tally is the recording's exactly when no key was sent twice, no time lies within half
   a tenth of a millisecond past the bound, and the recording has no reply that was not filed.
   */
  lemma {:induction false} SelfCheckPassesIff(s: L.State, h: seq<Entry>, ackSecs: nat)
    requires WellFormedAll(h) && InStep(s, h)
    ensures FileTally(h, ackSecs) == RecordingTally(s, h, ackSecs)
            <==> && Distinct(SentKeys(h))
                 && forall key :: key in SentKeys(h) ==>
                      !Crosses(AckTime(h, key), ackSecs) && !Misfiled(s, h, key)
  {
    var asked, sent := AskedKeys(s, |s.contracts|), SentKeys(h);
    var file, rec := FileClasses(h, ackSecs), RecClasses(s, h, ackSecs);
    AskedKeysAre(s, |s.contracts|);
    SameKeys(asked, sent);
    TallyTotal(sent, file);
    TallyTotal(asked, rec);
    forall key ensures OnlyLater(file(key), rec(key))
               ensures SameKind(file(key), rec(key))
                       <==> !Crosses(AckTime(h, key), ackSecs) && !Misfiled(s, h, key)
    {
      KeyAgreesIff(s, h, ackSecs, key);
    }
    TallyShift(sent, file, rec);
    if Distinct(sent) {
      TallyOrderFree(asked, sent, rec);
    }
  }
}
