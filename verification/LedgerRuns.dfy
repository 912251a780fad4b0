/** What every run of calls on the request ledger keeps. */
module LedgerRuns {
  import opened Base
  import opened Ledger

  function OpsOf(open: seq<Label>): (ops: seq<OpId>)
    ensures |ops| == |open|
    ensures forall i :: 0 <= i < |open| ==> ops[i] == OpId(open[i].ordinal)
  {
    if open == [] then [] else [OpId(open[0].ordinal)] + OpsOf(open[1..])
  }

  /** Request labels, oldest first, none twice. */
  ghost predicate InIssueOrder(open: seq<Label>) {
    && (forall i :: 0 <= i < |open| ==> open[i].kind == Request)
    && (forall i, j :: 0 <= i < j < |open| ==> open[i].ordinal < open[j].ordinal)
  }

  /** The labels in play are the ones handed out, and the open ones keep their order. */
  ghost predicate Tidy(s: State) {
    && LabelsFresh(s)
    && InIssueOrder(s.open)
    && (forall i :: 0 <= i < |s.open| ==> s.open[i].ordinal < s.next)
  }

  /** The incremental list is the replay of the whole recording. */
  ghost predicate ListIsReplay(s: State) {
    Running(s.rec) == OpsOf(s.open)
  }

  /** An issued request is open exactly when the recording never ended it. */
  ghost predicate OpenIsNotEnded(s: State) {
    && (forall n: nat :: n < s.next ==> (Ended(s.rec, OpId(n)) <==> Label(Request, n) !in s.open))
    && (forall op :: Ended(s.rec, op) ==> op.OpId? && op.n < s.next)
  }

  /** A caller can finish only a label that a send handed it. */
  predicate Issued(s: State, id: Label) {
    id.ordinal < (if id.kind == Request then s.next else |s.contracts|)
  }

  /** A call on a connection whose sends are all unkeyed. */
  predicate Positional(s: State, call: Call) {
    match call
    case AskKeyed(_, _) => false
    case Finish(id, _) => id.kind == Request && Issued(s, id)
    case _ => true
  }

  ghost predicate PositionalRun(s: State, calls: seq<Call>, opOf: Label -> OpId)
    decreases |calls|
  {
    calls == [] || (Positional(s, calls[0]) && PositionalRun(Step(s, calls[0], opOf), calls[1..], opOf))
  }

  lemma {:induction false} EndedAppend(a: seq<Event>, b: seq<Event>, op: OpId)
    ensures Ended(a + b, op) <==> Ended(a, op) || Ended(b, op)
  {
    if Ended(a, op) {
      var i :| 0 <= i < |a| && a[i].Exit? && a[i].op == op;
      assert (a + b)[i] == a[i];
    }
    if Ended(b, op) {
      var i :| 0 <= i < |b| && b[i].Exit? && b[i].op == op;
      assert (a + b)[|a| + i] == b[i];
    }
  }

  lemma {:induction false} RemoveFirstInOrder(open: seq<Label>, id: Label)
    requires InIssueOrder(open)
    ensures InIssueOrder(RemoveFirst(open, id))
    ensures forall l :: l in RemoveFirst(open, id) <==> l in open && l != id
  {
    if id in open {
      var i :| 0 <= i < |open| && open[i] == id;
      OthersStay(open, i);
      RemoveFirstAt(open, i, id);
    }
  }

  lemma {:induction false} OthersStay(open: seq<Label>, i: nat)
    requires i < |open| && InIssueOrder(open)
    ensures forall l :: l in open[..i] + open[i + 1..] <==> l in open && l != open[i]
  {
    var rest := open[..i] + open[i + 1..];
    forall l | l in open && l != open[i] ensures l in rest {
      var j :| 0 <= j < |open| && open[j] == l;
      assert j < i ==> rest[j] == l;
      assert j > i ==> rest[j - 1] == l;
    }
  }

  lemma {:induction false} RemoveFirstOps(open: seq<Label>, id: Label)
    requires forall i :: 0 <= i < |open| ==> open[i].kind == Request
    requires id.kind == Request
    ensures RemoveFirst(OpsOf(open), OpId(id.ordinal)) == OpsOf(RemoveFirst(open, id))
  {
    if open != [] {
      assert OpsOf(open)[1..] == OpsOf(open[1..]);
      if open[0] != id {
        assert open[0].ordinal != id.ordinal;
        RemoveFirstOps(open[1..], id);
      }
    }
  }

  /** The label, if any, that a positional call closes. */
  function Closed(s: State, call: Call): Option<Label> {
    match call
    case Finish(id, _) => Some(id)
    case Response => if s.owed == 0 && s.open != [] then Some(s.open[0]) else None
    case _ => None
  }

  /** A positional call either opens the next request or closes at most one label. */
  function OpenNext(s: State, call: Call): seq<Label> {
    if call.Ask? then s.open + [Label(Request, s.next)]
    else match Closed(s, call)
      case None => s.open
      case Some(id) => RemoveFirst(s.open, id)
  }

  lemma {:induction false} OpenAfterCall(s: State, call: Call, opOf: Label -> OpId)
    requires Tidy(s) && Positional(s, call)
    ensures Step(s, call, opOf).open == OpenNext(s, call)
  {
    if call.Ask? {
      FreshLabel(s, call.what);
    } else if call.Answered? {
      assert Label(Contract, IndexOf(s.contracts, call.key)) !in s.open;
    }
  }

  lemma {:induction false} LabelsStep(s: State, call: Call, opOf: Label -> OpId)
    requires LabelsFresh(s) && Positional(s, call)
    ensures LabelsFresh(Step(s, call, opOf))
    ensures Step(s, call, opOf).next == s.next + if call.Ask? then 1 else 0
  {
    if call.Ask? {
      FreshLabel(s, call.what);
      RequestSuffix(call.what, s.next);
    }
  }

  lemma {:induction false} TidyStep(s: State, call: Call, opOf: Label -> OpId)
    requires Tidy(s) && Positional(s, call)
    ensures Tidy(Step(s, call, opOf))
  {
    LabelsStep(s, call, opOf);
    OpenAfterCall(s, call, opOf);
    match Closed(s, call) {
      case None =>
      case Some(id) =>
        RemoveFirstInOrder(s.open, id);
        var rest := RemoveFirst(s.open, id);
        forall i | 0 <= i < |rest| ensures rest[i].ordinal < s.next {
          assert rest[i] in s.open;
        }
    }
  }

  lemma {:induction false} ReplayStep(s: State, call: Call, opOf: Label -> OpId)
    requires Tidy(s) && Positional(s, call) && ListIsReplay(s)
    ensures ListIsReplay(Step(s, call, opOf))
  {
    RunningStep(s, call, opOf);
    OpenAfterCall(s, call, opOf);
    if call.Ask? {
      FreshLabel(s, call.what);
    }
    match Closed(s, call) {
      case None =>
      case Some(id) => RemoveFirstOps(s.open, id);
    }
  }

  /** A positional call ends exactly the operation whose label it closes. */
  lemma {:induction false} EndedStep(s: State, call: Call, opOf: Label -> OpId, op: OpId)
    requires Positional(s, call)
    ensures Ended(Step(s, call, opOf).rec, op)
            <==> Ended(s.rec, op) || (Closed(s, call).Some? && op == OpId(Closed(s, call).value.ordinal))
  {
    var es := Appended(s, call, opOf);
    EndedAppend(s.rec, es, op);
    if Closed(s, call).Some? {
      var e := if call.Finish? then es[0] else es[1];
      assert e in es && e.Exit? && e.op == OpId(Closed(s, call).value.ordinal);
    }
  }

  lemma {:induction false} NotEndedStep(s: State, call: Call, opOf: Label -> OpId)
    requires Tidy(s) && Positional(s, call) && OpenIsNotEnded(s)
    ensures OpenIsNotEnded(Step(s, call, opOf))
  {
    var t := Step(s, call, opOf);
    LabelsStep(s, call, opOf);
    OpenAfterCall(s, call, opOf);
    match Closed(s, call) {
      case None =>
      case Some(id) => RemoveFirstInOrder(s.open, id); assert id.kind == Request && id.ordinal < s.next;
    }
    forall op | Ended(t.rec, op) ensures op.OpId? && op.n < t.next {
      EndedStep(s, call, opOf, op);
    }
    forall n: nat | n < t.next ensures Ended(t.rec, OpId(n)) <==> Label(Request, n) !in t.open {
      EndedStep(s, call, opOf, OpId(n));
      if call.Ask? {
        assert Label(Request, n) in t.open <==> Label(Request, n) in s.open || n == s.next;
      }
    }
  }

  ghost predicate Inv(s: State) { Tidy(s) && ListIsReplay(s) && OpenIsNotEnded(s) }

  lemma {:induction false} EmptyInv()
    ensures Inv(EMPTY)
  {
    assert Running(EMPTY.rec) == [];
  }

  lemma {:induction false} InvRun(s: State, calls: seq<Call>, opOf: Label -> OpId)
    requires Inv(s) && PositionalRun(s, calls, opOf)
    ensures Inv(Exec(s, calls, opOf))
    decreases |calls|
  {
    if calls != [] {
      TidyStep(s, calls[0], opOf);
      ReplayStep(s, calls[0], opOf);
      NotEndedStep(s, calls[0], opOf);
      InvRun(Step(s, calls[0], opOf), calls[1..], opOf);
    }
  }

  /**
   In every run of unkeyed sends, the incremental list equals, in issue order and without
   repeats, the replay of the whole recording: what was entered and never ended.
   */
  lemma {:induction false} OpenIsTheReplay(calls: seq<Call>, opOf: Label -> OpId)
    requires PositionalRun(EMPTY, calls, opOf)
    ensures var s := Exec(EMPTY, calls, opOf);
            ListIsReplay(s) && OpenIsNotEnded(s) && InIssueOrder(s.open)
  {
    EmptyInv();
    InvRun(EMPTY, calls, opOf);
  }

  /**
   Whatever unkeyed run came before, `response` ends at most one operation, and one that was
   running and had never ended; once an answer is owed it ends none.
   */
  lemma {:induction false} ResponseEndsOnlyARunningOperation(calls: seq<Call>, opOf: Label -> OpId, op: OpId)
    requires PositionalRun(EMPTY, calls, opOf)
    ensures var s := Exec(EMPTY, calls, opOf);
            Ended(ResponseEvents(s), op) ==>
              !Ended(s.rec, op) && s.owed == 0 && Running(s.rec) == [op] + Running(Step(s, Response, opOf).rec)
  {
    var s := Exec(EMPTY, calls, opOf);
    EmptyInv();
    InvRun(EMPTY, calls, opOf);
    if Ended(ResponseEvents(s), op) {
      ReplayStep(s, Response, opOf);
      assert s.open[0] == Label(Request, s.open[0].ordinal) && s.open[0] in s.open;
    }
  }

  /* ---------- the counters ---------- */

  function Count(which: Call -> bool, calls: seq<Call>): nat {
    if calls == [] then 0 else (if which(calls[0]) then 1 else 0) + Count(which, calls[1..])
  }

  function IsSend(c: Call): bool { c.Ask? || c.AskKeyed? }
  function IsAnswer(c: Call): bool { c.Response? || c.Answered? }
  function Finished(c: Call, o: Outcome): bool { c.Finish? && c.outcome == o }
  function GivesUp(c: Call): bool { Finished(c, Timeout) || Finished(c, Blocked) }

  /** Unnamed answers that arrive once an answer is owed. */
  function LateResponses(calls: seq<Call>, lost: bool): nat {
    if calls == [] then 0
    else (if lost && calls[0].Response? then 1 else 0)
         + LateResponses(calls[1..], lost || GivesUp(calls[0]))
  }

  lemma {:induction false} TotalUpToThree(es: seq<Event>, key: Key)
    requires |es| <= 3
    ensures Total(es, key) ==
              (if |es| > 0 && es[0].Counter? && es[0].key == key then es[0].value else 0)
              + (if |es| > 1 && es[1].Counter? && es[1].key == key then es[1].value else 0)
              + (if |es| > 2 && es[2].Counter? && es[2].key == key then es[2].value else 0)
  {
    if |es| > 1 {
      assert es[1..][1..] == es[2..];
      if |es| > 2 {
        assert es[2..][1..] == [];
        assert Total(es[2..], key) == if es[2].Counter? && es[2].key == key then es[2].value else 0;
      }
    }
  }

  lemma {:induction false} TotalStep(s: State, call: Call, opOf: Label -> OpId, key: Key)
    ensures Total(Step(s, call, opOf).rec, key) == Total(s.rec, key) +
              match key
              case Sent => if IsSend(call) then 1 else 0
              case Received => if IsAnswer(call) then 1 else 0
              case Owed => if GivesUp(call) then 1 else 0
              case Ambiguous => if call.Response? && s.owed > 0 then 1 else 0
  {
    var es := Appended(s, call, opOf);
    TotalAppend(s.rec, es, key);
    TotalUpToThree(es, key);
  }

  /** In every run, keyed or not, the totals of the recording are the call counts. */
  lemma {:induction false} TotalsAreCallCounts(s: State, calls: seq<Call>, opOf: Label -> OpId)
    ensures var t := Exec(s, calls, opOf);
            && Total(t.rec, Sent) == Total(s.rec, Sent) + Count(IsSend, calls)
            && Total(t.rec, Received) == Total(s.rec, Received) + Count(IsAnswer, calls)
            && Total(t.rec, Owed) == Total(s.rec, Owed) + Count(GivesUp, calls)
            && t.owed == s.owed + Count(GivesUp, calls)
            && Total(t.rec, Ambiguous) == Total(s.rec, Ambiguous) + LateResponses(calls, s.owed > 0)
    decreases |calls|
  {
    if calls != [] {
      TotalStep(s, calls[0], opOf, Sent);
      TotalStep(s, calls[0], opOf, Received);
      TotalStep(s, calls[0], opOf, Owed);
      TotalStep(s, calls[0], opOf, Ambiguous);
      TotalsAreCallCounts(Step(s, calls[0], opOf), calls[1..], opOf);
    }
  }

  /** What a call counts goes under its own key's operation if it names a key, and under none otherwise. */
  lemma {:induction false} CountedUnder(s: State, call: Call, opOf: Label -> OpId, e: Event)
    requires e in Appended(s, call, opOf) && e.Counter?
    ensures Step(s, call, opOf).rec == s.rec + Appended(s, call, opOf)
    ensures e.op == if call.AskKeyed? || call.Answered? then opOf(Label(Contract, IndexOf(s.contracts, call.key)))
                    else NoOp
  {
    var es := Appended(s, call, opOf);
    var i :| 0 <= i < |es| && es[i] == e;
  }

  /* ---------- after the first give-up ---------- */

  /** In every run the ledger owes one more answer for each `Timeout` and each `Blocked`, and for no other finish. */
  lemma {:induction false} OwedIsTimeoutsAndBlocked(s: State, calls: seq<Call>, opOf: Label -> OpId)
    ensures Exec(s, calls, opOf).owed == s.owed
              + Count(c => Finished(c, Timeout), calls) + Count(c => Finished(c, Blocked), calls)
    decreases |calls|
  {
    if calls != [] {
      OwedIsTimeoutsAndBlocked(Step(s, calls[0], opOf), calls[1..], opOf);
    }
  }

  /**
   From the first give-up on, through any further calls whatever, no answer taken by position
   ends an operation or changes what is open.
   */
  lemma {:induction false} NoResponseClosesAfterAGiveUp(s: State, calls: seq<Call>, opOf: Label -> OpId)
    requires Count(GivesUp, calls) > 0 || s.owed > 0
    ensures var t := Exec(s, calls, opOf);
            && t.owed > 0
            && Step(t, Response, opOf).open == t.open
            && Running(Step(t, Response, opOf).rec) == Running(t.rec)
            && (forall op :: !Ended(ResponseEvents(t), op))
  {
    TotalsAreCallCounts(s, calls, opOf);
    RunningStep(Exec(s, calls, opOf), Response, opOf);
  }

  lemma {:induction false} FoundIsCounted(which: Call -> bool, calls: seq<Call>, i: nat)
    requires i < |calls| && which(calls[i])
    ensures Count(which, calls) > 0
  {
    if i > 0 {
      FoundIsCounted(which, calls[1..], i - 1);
    }
  }

  /** After one finish with `Timeout` or `Blocked`, no later unnamed answer of the run ends or closes anything. */
  lemma {:induction false} NothingEndsAfter(s: State, calls: seq<Call>, opOf: Label -> OpId, i: nat, k: nat)
    requires i < k < |calls| && calls[k].Response?
    requires calls[i].Finish? && (calls[i].outcome == Timeout || calls[i].outcome == Blocked)
    ensures var t := Exec(s, calls[..k], opOf);
            && Step(t, calls[k], opOf).open == t.open
            && forall op :: !Ended(Appended(t, calls[k], opOf), op)
  {
    FoundIsCounted(GivesUp, calls[..k], i);
    NoResponseClosesAfterAGiveUp(s, calls[..k], opOf);
  }
}
