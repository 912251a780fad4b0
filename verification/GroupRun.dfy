/**
 The write role as it runs: one growing file, the two maps it keeps beside it, and the recording its
 connection keeps of the same traffic.
 */
module GroupRun {
  import opened Base
  import opened Text
  import L = Ledger
  import LedgerKeyed
  import opened GroupLog
  import opened GroupWriter
  import opened GroupTally

  /** `Instant::elapsed`, which never goes below zero. */
  function Elapsed(from: real, to: real): (ms: real)
    ensures ms >= 0.0
  {
    if to >= from then to - from else 0.0
  }

  /** A receive that ends the drain: nothing more in time, or the connection gone. */
  predicate Stops(a: Arrival) { a.ConnectionEnded? || a.Quiet? }

  /** What one arrival files: the first answer to a key that was sent, and nothing else. */
  function Filing(sentAt: map<string, real>, acked: set<string>, a: Arrival): (filed: seq<Entry>)
    ensures |filed| <= 1
  {
    if a.PutResponse? && a.key in sentAt && a.key !in acked then
      [Acked(a.key, Elapsed(sentAt[a.key], a.at))]
    else []
  }

  function AckedAfter(acked: set<string>, filed: seq<Entry>): set<string> {
    if |filed| == 1 && filed[0].Acked? then acked + {filed[0].key} else acked
  }

  /** Everything one drain files, in order of arrival. */
  function Drain(sentAt: map<string, real>, acked: set<string>, left: int, arrivals: seq<Arrival>): seq<Entry>
    decreases |arrivals|
  {
    if left <= 0 || arrivals == [] || Stops(arrivals[0]) then []
    else
      var filed := Filing(sentAt, acked, arrivals[0]);
      filed + Drain(sentAt, AckedAfter(acked, filed), left - |filed|, arrivals[1..])
  }

  /** The arrivals one drain leaves unread. */
  function Unread(sentAt: map<string, real>, acked: set<string>, left: int, arrivals: seq<Arrival>): seq<Arrival>
    decreases |arrivals|
  {
    if left <= 0 || arrivals == [] || Stops(arrivals[0]) then arrivals
    else
      var filed := Filing(sentAt, acked, arrivals[0]);
      Unread(sentAt, AckedAfter(acked, filed), left - |filed|, arrivals[1..])
  }

  /** The time of the first answer to a key before the drain stops. */
  function FirstAnswer(sentAt: map<string, real>, arrivals: seq<Arrival>, key: string): Option<real>
    requires key in sentAt
  {
    if arrivals == [] || Stops(arrivals[0]) then None
    else if arrivals[0].PutResponse? && arrivals[0].key == key then Some(Elapsed(sentAt[key], arrivals[0].at))
    else FirstAnswer(sentAt, arrivals[1..], key)
  }

  /** The message at `i` is the first to answer this key, and nothing before it ends the drain. */
  ghost predicate FirstToAnswer(arrivals: seq<Arrival>, key: string, i: nat) {
    && i < |arrivals| && arrivals[i].PutResponse? && arrivals[i].key == key
    && forall j :: 0 <= j < i ==>
         && !arrivals[j].Quiet? && !arrivals[j].ConnectionEnded?
         && !(arrivals[j].PutResponse? && arrivals[j].key == key)
  }

  lemma {:induction false} FirstAnswerAt(sentAt: map<string, real>, arrivals: seq<Arrival>, key: string, i: nat)
    requires key in sentAt && FirstToAnswer(arrivals, key, i)
    ensures FirstAnswer(sentAt, arrivals, key) ==
              Some(if arrivals[i].at >= sentAt[key] then arrivals[i].at - sentAt[key] else 0.0)
  {
    if i > 0 {
      assert arrivals[1..][i - 1] == arrivals[i];
      assert forall j :: 0 <= j < i - 1 ==> arrivals[1..][j] == arrivals[j + 1];
      FirstAnswerAt(sentAt, arrivals[1..], key, i - 1);
    }
  }

  lemma {:induction false} SomethingAnswered(sentAt: map<string, real>, arrivals: seq<Arrival>, key: string)
    requires key in sentAt && FirstAnswer(sentAt, arrivals, key).Some?
    ensures exists i: nat :: FirstToAnswer(arrivals, key, i)
  {
    if arrivals[0].PutResponse? && arrivals[0].key == key {
      assert FirstToAnswer(arrivals, key, 0);
    } else {
      SomethingAnswered(sentAt, arrivals[1..], key);
      var i: nat :| FirstToAnswer(arrivals[1..], key, i);
      assert forall j :: 0 < j <= i ==> arrivals[j] == arrivals[1..][j - 1];
      assert FirstToAnswer(arrivals, key, i + 1);
    }
  }

  /** `waiting` is the keys sent and not yet answered. */
  ghost predicate AreWaiting(waiting: set<string>, sentAt: map<string, real>, acked: set<string>) {
    forall k :: k in waiting <==> k in sentAt && k !in acked
  }

  /** The quota covers every key still unanswered, so it cannot cut a drain short. */
  ghost predicate Covers(left: int, waiting: set<string>) { left >= |waiting| }

  function StillWaiting(waiting: set<string>, filed: seq<Entry>): set<string> {
    if |filed| == 1 && filed[0].Acked? then waiting - {filed[0].key} else waiting
  }

  lemma CoversStep(left: int, waiting: set<string>, filed: seq<Entry>)
    requires Covers(left, waiting)
    requires |filed| <= 1 && (filed != [] ==> filed[0].Acked? && filed[0].key in waiting)
    ensures Covers(left - |filed|, StillWaiting(waiting, filed))
  {
  }

  lemma CoversOneMore(left: int, waiting: set<string>, key: string)
    requires Covers(left, waiting)
    ensures Covers(left + 1, waiting) && Covers(left + 1, waiting + {key})
  {
    if key !in waiting {
      assert |waiting + {key}| == |waiting| + 1;
    } else {
      assert waiting + {key} == waiting;
    }
  }

  /**
   One drain files, for each key sent and not yet answered, its first answer and no other; a
   foreign or already answered key gets nothing.
   */
  lemma {:induction false} DrainFilesFirstAnswers(
      sentAt: map<string, real>, acked: set<string>, left: int, arrivals: seq<Arrival>, key: string,
      waiting: set<string>)
    requires AreWaiting(waiting, sentAt, acked) && Covers(left, waiting)
    ensures AckTime(Drain(sentAt, acked, left, arrivals), key) ==
              if key in sentAt && key !in acked then FirstAnswer(sentAt, arrivals, key) else None
    decreases |arrivals|
  {
    if left <= 0 {
      assert key !in waiting;
    } else if arrivals != [] && !Stops(arrivals[0]) {
      var filed := Filing(sentAt, acked, arrivals[0]);
      CoversStep(left, waiting, filed);
      DrainFilesFirstAnswers(sentAt, AckedAfter(acked, filed), left - |filed|, arrivals[1..], key,
                             StillWaiting(waiting, filed));
      FirstAnswersStep(sentAt, acked, left, arrivals, key);
    }
  }

  lemma {:induction false} FirstAnswersStep(
      sentAt: map<string, real>, acked: set<string>, left: int, arrivals: seq<Arrival>, key: string)
    requires left > 0 && arrivals != [] && !Stops(arrivals[0])
    requires var filed := Filing(sentAt, acked, arrivals[0]);
             var after := AckedAfter(acked, filed);
             AckTime(Drain(sentAt, after, left - |filed|, arrivals[1..]), key) ==
               if key in sentAt && key !in after then FirstAnswer(sentAt, arrivals[1..], key) else None
    ensures AckTime(Drain(sentAt, acked, left, arrivals), key) ==
              if key in sentAt && key !in acked then FirstAnswer(sentAt, arrivals, key) else None
  {
    var filed := Filing(sentAt, acked, arrivals[0]);
    AckTimeSplit(filed, Drain(sentAt, AckedAfter(acked, filed), left - |filed|, arrivals[1..]), key);
    FilingTime(sentAt, acked, arrivals[0], key);
  }

  lemma FilingTime(sentAt: map<string, real>, acked: set<string>, a: Arrival, key: string)
    ensures AckTime(Filing(sentAt, acked, a), key) ==
              if a.PutResponse? && a.key == key && key in sentAt && key !in acked
              then Some(Elapsed(sentAt[key], a.at)) else None
    ensures key in AckedAfter(acked, Filing(sentAt, acked, a))
            <==> key in acked || (a.PutResponse? && a.key == key && key in sentAt)
  {
    var filed := Filing(sentAt, acked, a);
    assert filed != [] ==> filed[1..] == [];
  }

  lemma {:induction false} AckTimeSplit(a: seq<Entry>, b: seq<Entry>, key: string)
    ensures AckTime(a + b, key) == if AckTime(a, key).Some? then AckTime(a, key) else AckTime(b, key)
  {
    if a == [] {
      assert a + b == b;
    } else {
      assert (a + b)[1..] == a[1..] + b && (a + b)[0] == a[0];
      AckTimeSplit(a[1..], b, key);
    }
  }

  /* ---------- what the recording hears ---------- */

  /** `Client::recv`: an answer that names its key is paired by it, anything else by position. */
  function Heard(a: Arrival): Option<L.Call> {
    match a
    case PutResponse(key, _) => Some(L.Answered(key))
    case OtherMessage(Some(key)) => Some(L.Answered(key))
    case OtherMessage(None) => Some(L.Response)
    case ConnectionEnded => Some(L.Response)
    case Quiet => None
  }

  /** What a message does to a connection's ledger. */
  type Hearing = (L.State, Arrival) -> L.State

  function HearingWith(opOf: L.Label -> L.OpId): Hearing {
    (led, a) => match Heard(a) case None => led case Some(call) => L.Step(led, call, opOf)
  }

  /** Hearing keeps the recording in step with the file, and an answer is heard under its key. */
  lemma {:induction false} HearingKeeps(led: L.State, h: seq<Entry>, a: Arrival, opOf: L.Label -> L.OpId)
    requires InStep(led, h)
    ensures InStep(HearingWith(opOf)(led, a), h)
    ensures a.PutResponse? ==> RepliedKey(HearingWith(opOf)(led, a), a.key)
  {
    if Heard(a).Some? {
      var call := Heard(a).value;
      KnownStep(led, call, opOf);
      forall key
        ensures AskedKey(L.Step(led, call, opOf), key) <==> AskedKey(led, key)
        ensures RepliedKey(led, key) ==> RepliedKey(L.Step(led, call, opOf), key)
        ensures a.PutResponse? && key == a.key ==> RepliedKey(L.Step(led, call, opOf), key)
      {
        KeysStep(led, call, opOf, key);
      }
    }
  }

  /**
   Exactly which keys one message is a reply for: the key it names, or, when it names none and when the
   connection is lost, the key of the oldest open entry; nothing in time is no reply.
   */
  lemma {:induction false} HeardIff(led: L.State, a: Arrival, opOf: L.Label -> L.OpId, key: string)
    requires Known(led)
    ensures RepliedKey(HearingWith(opOf)(led, a), key) <==>
              || RepliedKey(led, key)
              || (a.PutResponse? && a.key == key)
              || (a.OtherMessage? && a.names == Some(key))
              || ((a.ConnectionEnded? || a == OtherMessage(None)) && PlacedOn(led, L.Response, key))
  {
    if Heard(a).Some? {
      KeysStep(led, Heard(a).value, opOf, key);
    }
  }

  /** Where a drain has got to: the file, what is answered and what is still wanted, the recording, what is to come. */
  datatype Progress = Progress(
    history: seq<Entry>, acked: set<string>, left: int, led: L.State, rest: seq<Arrival>)

  /** One message taken and filed. */
  function TakeOne(p: Progress, hear: Hearing, sentAt: map<string, real>): Progress
    requires p.rest != [] && !Stops(p.rest[0])
  {
    var filed := Filing(sentAt, p.acked, p.rest[0]);
    Progress(p.history + filed, AckedAfter(p.acked, filed), p.left - |filed|,
             hear(p.led, p.rest[0]), p.rest[1..])
  }

  lemma TakeOneIs(p: Progress, hear: Hearing, sentAt: map<string, real>)
    requires p.rest != [] && !Stops(p.rest[0])
    ensures var a := p.rest[0];
            TakeOne(p, hear, sentAt) ==
              if a.PutResponse? && a.key in sentAt && a.key !in p.acked then
                Progress(p.history + [Acked(a.key, Elapsed(sentAt[a.key], a.at))], p.acked + {a.key}, p.left - 1,
                         hear(p.led, a), p.rest[1..])
              else p.(led := hear(p.led, a), rest := p.rest[1..])
  {
    assert p.history + [] == p.history;
  }

  function Drained(p: Progress, hear: Hearing, sentAt: map<string, real>): Progress
    decreases |p.rest|
  {
    if p.left <= 0 || p.rest == [] || Stops(p.rest[0]) then p
    else Drained(TakeOne(p, hear, sentAt), hear, sentAt)
  }

  /** A lost connection is heard too. */
  function LedAfter(p: Progress, hear: Hearing): L.State {
    if p.left > 0 && p.rest != [] && p.rest[0].ConnectionEnded? then hear(p.led, p.rest[0]) else p.led
  }

  /** The whole drain, from the messages it files and those it leaves. */
  lemma {:induction false} DrainedIs(p: Progress, hear: Hearing, sentAt: map<string, real>)
    ensures var q, filed := Drained(p, hear, sentAt), Drain(sentAt, p.acked, p.left, p.rest);
            && q.history == p.history + filed
            && q.left == p.left - |filed|
            && q.rest == Unread(sentAt, p.acked, p.left, p.rest)
    decreases |p.rest|
  {
    if p.left <= 0 || p.rest == [] || Stops(p.rest[0]) {
      assert p.history + [] == p.history;
    } else {
      var q, one := TakeOne(p, hear, sentAt), Filing(sentAt, p.acked, p.rest[0]);
      DrainedIs(q, hear, sentAt);
      Regrouped(p.history, one, Drain(sentAt, q.acked, q.left, q.rest));
    }
  }

  /** An answer to a put that went out, or nothing more in time. */
  predicate Ordinary(a: Arrival, sentAt: map<string, real>) {
    a.Quiet? || (a.PutResponse? && a.key in sentAt)
  }

  predicate AllOrdinary(arrivals: seq<Arrival>, sentAt: map<string, real>) {
    forall a :: a in arrivals ==> Ordinary(a, sentAt)
  }

  ghost predicate NothingMisfiled(led: L.State, h: seq<Entry>) { forall key :: !Misfiled(led, h, key) }

  lemma {:induction false} InStepSent(led: L.State, h: seq<Entry>, what: string, b: Block, opOf: L.Label -> L.OpId)
    requires InStep(led, h)
    ensures InStep(L.Step(led, L.AskKeyed(what, b.key), opOf), h + [Sent(b)])
  {
    var call := L.AskKeyed(what, b.key);
    KnownStep(led, call, opOf);
    SentAppend(h, Sent(b));
    SentHasNoTime(h, b);
    forall key
      ensures AskedKey(L.Step(led, call, opOf), key) <==> AskedKey(led, key) || key == b.key
      ensures RepliedKey(L.Step(led, call, opOf), key) <==> RepliedKey(led, key)
    {
      KeysStep(led, call, opOf, key);
    }
  }

  /** A send leaves every key as it was filed. */
  lemma {:induction false} SentMisfilesNothing(
      led: L.State, h: seq<Entry>, what: string, b: Block, opOf: L.Label -> L.OpId)
    requires Known(led) && NothingMisfiled(led, h)
    ensures NothingMisfiled(L.Step(led, L.AskKeyed(what, b.key), opOf), h + [Sent(b)])
  {
    SentHasNoTime(h, b);
    forall key ensures !Misfiled(L.Step(led, L.AskKeyed(what, b.key), opOf), h + [Sent(b)], key) {
      KeysStep(led, L.AskKeyed(what, b.key), opOf, key);
      assert !Misfiled(led, h, key);
    }
  }

  lemma {:induction false} InStepFiled(led: L.State, h: seq<Entry>, k: string, ms: real)
    requires InStep(led, h) && RepliedKey(led, k)
    ensures InStep(led, h + [Acked(k, ms)])
  {
    SentAppend(h, Acked(k, ms));
    forall key
      ensures AckTime(h + [Acked(k, ms)], key)
              == if AckTime(h, key).None? && key == k then Some(ms) else AckTime(h, key)
    {
      AckTimeSplit(h, [Acked(k, ms)], key);
      assert [Acked(k, ms)][1..] == [];
    }
  }

  lemma {:induction false} SentAppend(h: seq<Entry>, e: Entry)
    ensures SentBlocks(h + [e]) == SentBlocks(h) + if e.Sent? then [e.block] else []
    ensures forall key :: key in SentKeys(h + [e]) <==> key in SentKeys(h) || (e.Sent? && key == e.block.key)
  {
    SentSplit(h, e);
    var bs := SentBlocks(h);
    if e.Sent? {
      assert KeysOf(bs + [e.block]) == KeysOf(bs) + [e.block.key];
    } else {
      assert bs + [] == bs;
    }
  }

  lemma {:induction false} SentSplit(h: seq<Entry>, e: Entry)
    ensures SentBlocks(h + [e]) == SentBlocks(h) + if e.Sent? then [e.block] else []
  {
    if h == [] {
      assert [e][1..] == [] && h + [e] == [e];
    } else {
      assert (h + [e])[1..] == h[1..] + [e] && (h + [e])[0] == h[0];
      SentSplit(h[1..], e);
    }
  }

  /** The keys with a time in a history. */
  ghost predicate AreFiled(acked: set<string>, h: seq<Entry>) {
    forall key :: key in acked <==> AckTime(h, key).Some?
  }

  /** An ordinary answer is filed as it is recorded. */
  lemma {:induction false} OrdinaryIsFiled(
      led: L.State, opOf: L.Label -> L.OpId, h: seq<Entry>, sentAt: map<string, real>, acked: set<string>, a: Arrival)
    requires Known(led) && NothingMisfiled(led, h) && AreFiled(acked, h) && a.PutResponse? && a.key in sentAt
    ensures var filed := Filing(sentAt, acked, a);
            && Known(HearingWith(opOf)(led, a)) && NothingMisfiled(HearingWith(opOf)(led, a), h + filed)
            && AreFiled(AckedAfter(acked, filed), h + filed)
  {
    var filed, call := Filing(sentAt, acked, a), L.Answered(a.key);
    KnownStep(led, call, opOf);
    forall key
      ensures !Misfiled(L.Step(led, call, opOf), h + filed, key)
      ensures key in AckedAfter(acked, filed) <==> AckTime(h + filed, key).Some?
    {
      KeysStep(led, call, opOf, key);
      AckTimeSplit(h, filed, key);
      FilingTime(sentAt, acked, a, key);
      assert !Misfiled(led, h, key);
    }
  }

  lemma {:induction false} TakeOneInStep(p: Progress, opOf: L.Label -> L.OpId, sentAt: map<string, real>)
    requires InStep(p.led, p.history) && p.rest != [] && !Stops(p.rest[0])
    ensures var q := TakeOne(p, HearingWith(opOf), sentAt); InStep(q.led, q.history)
  {
    var a := p.rest[0];
    HearingKeeps(p.led, p.history, a, opOf);
    TakeOneIs(p, HearingWith(opOf), sentAt);
    if a.PutResponse? && a.key in sentAt && a.key !in p.acked {
      InStepFiled(HearingWith(opOf)(p.led, a), p.history, a.key, Elapsed(sentAt[a.key], a.at));
    }
  }

  /** A drain keeps the recording in step with the file. */
  lemma {:induction false} DrainedInStep(p: Progress, opOf: L.Label -> L.OpId, sentAt: map<string, real>)
    requires InStep(p.led, p.history)
    ensures var q := Drained(p, HearingWith(opOf), sentAt); InStep(LedAfter(q, HearingWith(opOf)), q.history)
    decreases |p.rest|
  {
    if p.left > 0 && p.rest != [] {
      if Stops(p.rest[0]) {
        HearingKeeps(p.led, p.history, p.rest[0], opOf);
      } else {
        TakeOneInStep(p, opOf, sentAt);
        DrainedInStep(TakeOne(p, HearingWith(opOf), sentAt), opOf, sentAt);
      }
    }
  }

  /** So a drain that hears nothing else leaves no reply unfiled. */
  lemma {:induction false} OrdinaryDrainFilesAll(p: Progress, opOf: L.Label -> L.OpId, sentAt: map<string, real>)
    requires Known(p.led) && NothingMisfiled(p.led, p.history) && AreFiled(p.acked, p.history)
    requires forall a :: a in p.rest ==> Ordinary(a, sentAt)
    ensures var q := Drained(p, HearingWith(opOf), sentAt);
            NothingMisfiled(q.led, q.history) && LedAfter(q, HearingWith(opOf)) == q.led
    decreases |p.rest|
  {
    if p.rest != [] {
      assert Ordinary(p.rest[0], sentAt);
      if p.left > 0 && !Stops(p.rest[0]) {
        OrdinaryIsFiled(p.led, opOf, p.history, sentAt, p.acked, p.rest[0]);
        OrdinaryDrainFilesAll(TakeOne(p, HearingWith(opOf), sentAt), opOf, sentAt);
      }
    }
  }

  /** A message that names no key, a lost connection among them, is put down to the oldest key still open. */
  lemma {:induction false} UnnamedIsPutDownTo(led: L.State, key: string, opOf: L.Label -> L.OpId)
    requires Known(led) && key in led.contracts && led.owed == 0
    requires led.open != [] && led.open[0] == LedgerKeyed.KeyLabel(led, key)
    ensures RepliedKey(L.Step(led, L.Response, opOf), key)
  {
    KeysStep(led, L.Response, opOf, key);
  }

  lemma {:induction false} SentHasNoTime(h: seq<Entry>, b: Block)
    ensures forall key :: AckTime(h + [Sent(b)], key) == AckTime(h, key)
  {
    forall key ensures AckTime(h + [Sent(b)], key) == AckTime(h, key) {
      AckTimeSplit(h, [Sent(b)], key);
      assert [Sent(b)][1..] == [];
    }
  }

  class Writer {
    const ackSecs: nat
    const opOf: L.Label -> L.OpId
    const hear: Hearing
    var sentAt: map<string, real>
    var ackMs: map<string, real>
    var seen: nat
    var nBlocks: nat
    /** What has been appended after the header, one line each. */
    var history: seq<Entry>
    /** The connection's own ledger. */
    var led: L.State
    /** The keys sent and not yet answered. */
    ghost var waiting: set<string>

    /** The times are the first acknowledgements the file carries, and the quota never cuts a drain short. */
    ghost predicate Valid()
      reads this
    {
      && WellFormedAll(history)
      && (forall key :: key in sentAt ==> IsWord(key))
      && (forall key :: AckTime(history, key) == if key in ackMs then Some(ackMs[key]) else None)
      && AreWaiting(waiting, sentAt, ackMs.Keys) && Covers(nBlocks - seen, waiting)
    }

    /** And the recording has what the file has. */
    ghost predicate Ready()
      reads this
    {
      Valid() && hear == HearingWith(opOf) && InStep(led, history)
    }

    constructor (ackSecs: nat, opOf: L.Label -> L.OpId)
      ensures Ready() && NothingMisfiled(led, history)
      ensures this.ackSecs == ackSecs && this.opOf == opOf && hear == HearingWith(opOf)
      ensures history == [] && sentAt == map[] && ackMs == map[] && seen == nBlocks == 0 && led == L.EMPTY
    {
      this.ackSecs, this.opOf, hear := ackSecs, opOf, HearingWith(opOf);
      sentAt, ackMs, seen, nBlocks, history, led, waiting := map[], map[], 0, 0, [], L.EMPTY, {};
    }

    /** The bytes written so far. */
    function FileText(): string
      reads this
    {
      Unlines(LogLines(ackSecs, history))
    }

    function Now(rest: seq<Arrival>): Progress
      reads this
    {
      Progress(history, ackMs.Keys, nBlocks - seen, led, rest)
    }

    /** One block goes out under its key: its record is appended with the outcome unknown. */
    method Send(b: Block, now: real)
      requires Ready() && Writable(b) && b.ack == Never
      modifies this
      ensures Ready()
      ensures history == old(history) + [Sent(b)] && nBlocks == old(nBlocks) + 1
      ensures sentAt == old(sentAt)[b.key := now] && ackMs == old(ackMs) && seen == old(seen)
      ensures led == L.Step(old(led), L.AskKeyed("put", b.key), opOf)
      ensures NothingMisfiled(old(led), old(history)) ==> NothingMisfiled(led, history)
    {
      InStepSent(led, history, "put", b, opOf);
      if NothingMisfiled(led, history) {
        SentMisfilesNothing(led, history, "put", b, opOf);
      }
      led := L.Step(led, L.AskKeyed("put", b.key), opOf);
      Record(b, now);
    }

    method Record(b: Block, now: real)
      requires Valid() && Writable(b) && b.ack == Never
      modifies this`sentAt, this`nBlocks, this`history, this`waiting
      ensures Valid()
      ensures history == old(history) + [Sent(b)] && nBlocks == old(nBlocks) + 1
      ensures sentAt == old(sentAt)[b.key := now]
    {
      CoversOneMore(nBlocks - seen, waiting, b.key);
      SentHasNoTime(history, b);
      sentAt := sentAt[b.key := now];
      nBlocks := nBlocks + 1;
      history := history + [Sent(b)];
      if b.key !in ackMs {
        waiting := waiting + {b.key};
      }
    }

    /** `drain_acks`: file what has arrived, each key once, until enough are seen or nothing comes. */
    method DrainAcks(arrivals: seq<Arrival>) returns (open: bool)
      requires Ready()
      modifies this
      ensures Ready()
      ensures sentAt == old(sentAt) && nBlocks == old(nBlocks)
      ensures var q := Drained(old(Now(arrivals)), hear, sentAt);
              && history == q.history && nBlocks - seen == q.left && led == LedAfter(q, hear)
              && (open <==> seen >= nBlocks || q.rest == [] || !q.rest[0].ConnectionEnded?)
      ensures forall key, i: nat :: key in sentAt && key !in old(ackMs) && FirstToAnswer(arrivals, key, i) ==>
                && key in ackMs
                && ackMs[key] == if arrivals[i].at >= sentAt[key] then arrivals[i].at - sentAt[key] else 0.0
      ensures forall key :: key in ackMs && key !in old(ackMs) ==>
                key in sentAt && exists i: nat :: FirstToAnswer(arrivals, key, i)
      ensures forall key :: key in old(ackMs) ==> key in ackMs && ackMs[key] == old(ackMs[key])
      ensures seen - |ackMs| == old(seen - |ackMs|)
    {
      DrainedInStep(Now(arrivals), opOf, sentAt);
      DrainedTimes(arrivals);
      open := TakeAll(arrivals);
    }

    method TakeAll(arrivals: seq<Arrival>) returns (open: bool)
      requires Valid()
      modifies this
      ensures Valid() && sentAt == old(sentAt) && nBlocks == old(nBlocks)
      ensures var q := Drained(old(Now(arrivals)), hear, sentAt);
              && history == q.history && nBlocks - seen == q.left && led == LedAfter(q, hear)
              && (open <==> seen >= nBlocks || q.rest == [] || !q.rest[0].ConnectionEnded?)
      ensures seen - |ackMs| == old(seen - |ackMs|)
    {
      var rest := arrivals;
      while rest != [] && seen < nBlocks && !Stops(rest[0])
        invariant Valid() && sentAt == old(sentAt) && nBlocks == old(nBlocks)
        invariant seen - |ackMs| == old(seen - |ackMs|)
        invariant Drained(Now(rest), hear, sentAt) == Drained(old(Now(arrivals)), hear, sentAt)
        decreases |rest|
      {
        Take(rest);
        rest := rest[1..];
      }
      open := seen >= nBlocks || rest == [] || rest[0].Quiet?;
      if !open {
        led := hear(led, rest[0]);
      }
    }

    /** What a drain of these messages files, and what it leaves. */
    lemma DrainPlan(arrivals: seq<Arrival>)
      requires Valid()
      ensures var q, filed := Drained(Now(arrivals), hear, sentAt), Drain(sentAt, ackMs.Keys, nBlocks - seen, arrivals);
              && q.history == history + filed && q.left == nBlocks - seen - |filed|
              && q.rest == Unread(sentAt, ackMs.Keys, nBlocks - seen, arrivals)
              && (forall key :: key in sentAt && key !in ackMs
                                ==> AckTime(q.history, key) == FirstAnswer(sentAt, arrivals, key))
    {
      DrainedIs(Now(arrivals), hear, sentAt);
      FiledFirstAnswers(arrivals);
    }

    /**
     The recording stays in step with the file, whatever arrives; and if nothing arrives but answers to
     what was sent, it has no reply without a time in the file.
     */
    lemma DrainKeepsInStep(arrivals: seq<Arrival>)
      requires Ready()
      ensures var q := Drained(Now(arrivals), hear, sentAt);
              && InStep(LedAfter(q, hear), q.history)
              && (NothingMisfiled(led, history) && AllOrdinary(arrivals, sentAt)
                  ==> NothingMisfiled(LedAfter(q, hear), q.history))
    {
      DrainedInStep(Now(arrivals), opOf, sentAt);
      if NothingMisfiled(led, history) && AllOrdinary(arrivals, sentAt) {
        OrdinaryDrainFilesAll(Now(arrivals), opOf, sentAt);
      }
    }

    /** What the whole drain files is each waiting key's first answer: its quota covers them all. */
    lemma FiledFirstAnswers(arrivals: seq<Arrival>)
      requires Valid()
      ensures var filed := Drain(sentAt, ackMs.Keys, nBlocks - seen, arrivals);
              forall key :: key in sentAt && key !in ackMs
                            ==> AckTime(history + filed, key) == FirstAnswer(sentAt, arrivals, key)
    {
      var filed := Drain(sentAt, ackMs.Keys, nBlocks - seen, arrivals);
      forall key | key in sentAt && key !in ackMs
        ensures AckTime(history + filed, key) == FirstAnswer(sentAt, arrivals, key)
      {
        DrainFilesFirstAnswers(sentAt, ackMs.Keys, nBlocks - seen, arrivals, key, waiting);
        AckTimeSplit(history, filed, key);
      }
    }

    /** The times in the file after a drain, from its messages. */
    lemma DrainedTimes(arrivals: seq<Arrival>)
      requires Valid()
      ensures var h := Drained(Now(arrivals), hear, sentAt).history;
              && (forall key, i: nat :: key in sentAt && key !in ackMs && FirstToAnswer(arrivals, key, i) ==>
                    AckTime(h, key) ==
                      Some(if arrivals[i].at >= sentAt[key] then arrivals[i].at - sentAt[key] else 0.0))
              && (forall key :: key !in ackMs && AckTime(h, key).Some? ==>
                    key in sentAt && exists i: nat :: FirstToAnswer(arrivals, key, i))
              && (forall key :: key in ackMs ==> AckTime(h, key) == Some(ackMs[key]))
    {
      var filed := Drain(sentAt, ackMs.Keys, nBlocks - seen, arrivals);
      DrainedIs(Now(arrivals), hear, sentAt);
      forall key
        ensures AckTime(history + filed, key) ==
                  if key in ackMs then Some(ackMs[key])
                  else if key in sentAt then FirstAnswer(sentAt, arrivals, key) else None
        ensures key in sentAt && FirstAnswer(sentAt, arrivals, key).Some?
                ==> exists i: nat :: FirstToAnswer(arrivals, key, i)
      {
        DrainFilesFirstAnswers(sentAt, ackMs.Keys, nBlocks - seen, arrivals, key, waiting);
        AckTimeSplit(history, filed, key);
        if key in sentAt && FirstAnswer(sentAt, arrivals, key).Some? {
          SomethingAnswered(sentAt, arrivals, key);
        }
      }
      forall key, i: nat | key in sentAt && FirstToAnswer(arrivals, key, i)
        ensures FirstAnswer(sentAt, arrivals, key) ==
                  Some(if arrivals[i].at >= sentAt[key] then arrivals[i].at - sentAt[key] else 0.0)
      {
        FirstAnswerAt(sentAt, arrivals, key, i);
      }
    }

    /** Hear the next message, and file it if its key was sent and has not answered before. */
    method Take(rest: seq<Arrival>)
      requires Valid() && rest != [] && !Stops(rest[0])
      modifies this
      ensures Valid() && sentAt == old(sentAt) && nBlocks == old(nBlocks)
      ensures Now(rest[1..]) == TakeOne(old(Now(rest)), hear, sentAt)
      ensures seen - |ackMs| == old(seen - |ackMs|)
    {
      var a := rest[0];
      TakeOneIs(Now(rest), hear, sentAt);
      led := hear(led, a);
      if a.PutResponse? && a.key in sentAt && a.key !in ackMs {
        FileAck(a.key, Elapsed(sentAt[a.key], a.at));
      }
    }

    /** The first answer for a key is its time and one line of the file. */
    method FileAck(k: string, ms: real)
      requires Valid() && k in sentAt && k !in ackMs && ms >= 0.0
      modifies this`ackMs, this`seen, this`history, this`waiting
      ensures Valid()
      ensures history == old(history) + [Acked(k, ms)]
      ensures ackMs == old(ackMs)[k := ms] && ackMs.Keys == old(ackMs).Keys + {k} && seen == old(seen) + 1
      ensures |ackMs| == |old(ackMs)| + 1
    {
      CoversStep(nBlocks - seen, waiting, [Acked(k, ms)]);
      AckedHasTime(history, k, ms);
      ackMs := ackMs[k := ms];
      seen := seen + 1;
      history := history + [Acked(k, ms)];
      waiting := waiting - {k};
    }

    /**
     The run's closing check: does the file read back as what the recording says? It does exactly
     when something was sent, no key twice, no time was kept that lies within half a tenth of a
     millisecond past the bound, and the recording has no reply for a sent key without a time.
     */
    method SelfCheck() returns (ok: bool)
      requires Ready()
      ensures ok <==> && SentBlocks(history) != []
                      && Distinct(SentKeys(history))
                      && forall key :: key in SentKeys(history) ==>
                           if key in ackMs then !(BoundOf(ackSecs) < ackMs[key] <= BoundOf(ackSecs) + 0.05)
                           else !RepliedKey(led, key)
    {
      FileReadsBack(ackSecs, history);
      var back := ParseGroups(FileText());
      if back.Err? {
        return false;
      }
      var fromFile := CountOutcomes(back.value);
      var fromRecording := CountRecording(led, ackMs, ackSecs, history);
      ok := fromFile == fromRecording;
      TalliesMatch(SentBlocks(history), FileBlocks(history, ackSecs), history, ackSecs);
      SelfCheckPassesIff(led, history, ackSecs);
    }
  }

  lemma {:induction false} AckedHasTime(h: seq<Entry>, k: string, ms: real)
    requires AckTime(h, k).None?
    ensures forall key :: AckTime(h + [Acked(k, ms)], key) == if key == k then Some(ms) else AckTime(h, key)
  {
    forall key ensures AckTime(h + [Acked(k, ms)], key) == if key == k then Some(ms) else AckTime(h, key) {
      AckTimeSplit(h, [Acked(k, ms)], key);
      assert [Acked(k, ms)][1..] == [];
    }
  }

  /** The class of each keyed operation in the recording, by the time this run kept for its key. */
  method CountRecording(led: L.State, ackMs: map<string, real>, ackSecs: nat, ghost h: seq<Entry>) returns (t: Tally)
    requires Distinct(led.contracts)
    requires forall key :: AckTime(h, key) == if key in ackMs then Some(ackMs[key]) else None
    ensures t == RecordingTally(led, h, ackSecs)
  {
    t := Tally(0, 0, 0);
    for i := 0 to |led.contracts|
      invariant t == TallyOf(AskedKeys(led, i), RecClasses(led, h, ackSecs))
    {
      OneMoreLabel(led, h, ackSecs, i);
      if IsAsked(led, i) {
        var key := led.contracts[i];
        var ms := if key in ackMs then Some(ackMs[key]) else None;
        t := Add(t, RecClass(IsReplied(led, i), ms, ackSecs));
      }
    }
  }

  /** One keyed put out, and the connection ends. */
  function PutThenLost(key: string, opOf: L.Label -> L.OpId): L.State {
    L.Step(L.Step(L.EMPTY, L.AskKeyed("put", key), opOf), L.Response, opOf)
  }

  lemma {:induction false} LostIsAReply(key: string, opOf: L.Label -> L.OpId)
    ensures RepliedKey(PutThenLost(key, opOf), key)
  {
    var sent := L.Step(L.EMPTY, L.AskKeyed("put", key), opOf);
    KnownStep(L.EMPTY, L.AskKeyed("put", key), opOf);
    assert sent.contracts == [key] && sent.open == [L.Label(L.Contract, 0)] && sent.owed == 0;
    UnnamedIsPutDownTo(sent, key, opOf);
  }

  method PutAndLose(b: Block, opOf: L.Label -> L.OpId) returns (w: Writer)
    requires Writable(b) && b.ack == Never
    ensures fresh(w) && w.Ready() && w.history == [Sent(b)] && w.led == PutThenLost(b.key, opOf)
    ensures w.ackMs == map[]
  {
    w := new Writer(30, opOf);
    w.Send(b, 0.0);
    ghost var before := w.Now([ConnectionEnded]);
    var open := w.DrainAcks([ConnectionEnded]);
    assert Drained(before, w.hear, w.sentAt) == before;
    assert forall key :: key !in w.ackMs by {
      assert forall i: nat, key :: !FirstToAnswer([ConnectionEnded], key, i);
    }
  }

  /** It happens: the recording has a reply for the put, the file has none, and the check refuses the file. */
  method LostConnectionFailsTheCheck(b: Block, opOf: L.Label -> L.OpId) returns (ok: bool)
    requires Writable(b) && b.ack == Never
    ensures !ok
  {
    var w := PutAndLose(b, opOf);
    LostIsAReply(b.key, opOf);
    assert SentBlocks([Sent(b)]) == [b] by { assert [Sent(b)][1..] == []; }
    assert SentKeys(w.history)[0] == b.key;
    ok := w.SelfCheck();
  }

  function Outcomes(blocks: seq<Block>): Tally {
    if blocks == [] then Tally(0, 0, 0) else Add(Outcomes(blocks[..|blocks| - 1]), blocks[|blocks| - 1].ack)
  }

  method CountOutcomes(blocks: seq<Block>) returns (t: Tally)
    ensures t == Outcomes(blocks)
  {
    t := Tally(0, 0, 0);
    for i := 0 to |blocks|
      invariant t == Outcomes(blocks[..i])
    {
      assert blocks[..i + 1][..i] == blocks[..i];
      t := Add(t, blocks[i].ack);
    }
    assert blocks[..|blocks|] == blocks;
  }

  /** The outcomes a file reads back as are the classes of the keys sent. */
  lemma {:induction false} TalliesMatch(bs: seq<Block>, fs: seq<Block>, h: seq<Entry>, ackSecs: nat)
    requires |fs| == |bs|
    requires forall i :: 0 <= i < |bs| ==> fs[i] == bs[i].(ack := FileClass(h, bs[i].key, ackSecs))
    ensures Outcomes(fs) == TallyOf(KeysOf(bs), FileClasses(h, ackSecs))
  {
    if bs != [] {
      var n := |bs| - 1;
      TalliesMatch(bs[..n], fs[..n], h, ackSecs);
      assert KeysOf(bs)[..n] == KeysOf(bs[..n]);
    }
  }
}
