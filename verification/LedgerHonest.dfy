/** What the ledger's `Ok` reports are worth against a node that answers each request at most once. */
module LedgerHonest {
  import opened Base
  import opened Ledger
  import opened LedgerRuns
  import opened LedgerNode

  /* ---------- which operation is ended ---------- */

  predicate EndedOk(rec: seq<Event>, op: OpId) {
    exists i :: 0 <= i < |rec| && rec[i].Exit? && rec[i].op == op && rec[i].outcome == Outcome.Ok
  }

  /** No operation is reported `Ok` without its own answer. */
  ghost predicate Honest(w: World) {
    forall op :: EndedOk(w.led.rec, op) ==> op.OpId? && Label(Request, op.n) in w.answered
  }

  lemma {:induction false} EndedOkAppend(a: seq<Event>, b: seq<Event>, op: OpId)
    ensures EndedOk(a + b, op) <==> EndedOk(a, op) || EndedOk(b, op)
  {
    if EndedOk(a, op) {
      var i :| 0 <= i < |a| && a[i].Exit? && a[i].op == op && a[i].outcome == Outcome.Ok;
      assert (a + b)[i] == a[i];
    }
    if EndedOk(b, op) {
      var i :| 0 <= i < |b| && b[i].Exit? && b[i].op == op && b[i].outcome == Outcome.Ok;
      assert (a + b)[|a| + i] == b[i];
    }
  }

  /** The operation a move reports `Ok`, if any. */
  function Reported(s: State, m: Move): Option<Label> {
    match m
    case Unnamed(_) => if s.owed == 0 && s.open != [] then Some(s.open[0]) else None
    case Named(_, _, Some(e)) => if e.outcome == Outcome.Ok then Some(e.op) else None
    case _ => None
  }

  lemma {:induction false} FinishOk(s: State, id: Label, outcome: Outcome, opOf: Label -> OpId, op: OpId)
    ensures EndedOk(Step(s, Finish(id, outcome), opOf).rec, op)
            <==> EndedOk(s.rec, op) || (outcome == Outcome.Ok && op == OpId(id.ordinal))
  {
    var es := Appended(s, Finish(id, outcome), opOf);
    EndedOkAppend(s.rec, es, op);
    assert es[0] == Exit(SEND, OpId(id.ordinal), outcome);
  }

  lemma {:induction false} OkAfter(s: State, m: Move, opOf: Label -> OpId, op: OpId)
    requires m.GiveUp? ==> m.outcome == Timeout || m.outcome == Blocked
    ensures EndedOk(LedgerAfter(s, m, opOf).rec, op)
            <==> EndedOk(s.rec, op) || (Reported(s, m).Some? && op == OpId(Reported(s, m).value.ordinal))
  {
    match m {
      case Send(what, _) => EndedOkAppend(s.rec, Appended(s, Ask(what), opOf), op);
      case Unnamed(_) =>
        EndedOkAppend(s.rec, ResponseEvents(s), op);
        if s.owed == 0 && s.open != [] {
          assert ResponseEvents(s)[1] == Exit(SEND, OpId(s.open[0].ordinal), Outcome.Ok);
        }
      case Named(key, _, ending) =>
        EndedOkAppend(s.rec, Appended(s, Answered(key), opOf), op);
        if ending.Some? {
          FinishOk(Step(s, Answered(key), opOf), ending.value.op, ending.value.outcome, opOf, op);
        }
      case GiveUp(id, outcome) => FinishOk(s, id, outcome, opOf, op);
    }
  }

  /** The operation a move reports has its answer, from this message or from an earlier one. */
  predicate Sound(w: World, m: Move) {
    var op := Reported(w.led, m);
    op.Some? ==> op.value !in w.unanswered || Settled(m) == op
  }

  lemma {:induction false} HonestStepIff(w: World, m: Move, opOf: Label -> OpId)
    requires Shape(w) && Honest(w) && Enabled(w, m)
    ensures Honest(Next(w, m, opOf)) <==> Sound(w, m)
  {
    var v, told := Next(w, m, opOf), Reported(w.led, m);
    if told.Some? {
      var l := told.value;
      assert l == Label(Request, l.ordinal);
      OkAfter(w.led, m, opOf, OpId(l.ordinal));
    }
    if Sound(w, m) {
      forall op | EndedOk(v.led.rec, op) ensures op.OpId? && Label(Request, op.n) in v.answered {
        OkAfter(w.led, m, opOf, op);
      }
    }
  }

  ghost predicate AlwaysHonest(w: World, moves: seq<Move>, opOf: Label -> OpId)
    decreases |moves|
  {
    Honest(w) && (moves == [] || AlwaysHonest(Next(w, moves[0], opOf), moves[1..], opOf))
  }

  ghost predicate AlwaysSound(w: World, moves: seq<Move>, opOf: Label -> OpId)
    decreases |moves|
  {
    moves == [] || (Sound(w, moves[0]) && AlwaysSound(Next(w, moves[0], opOf), moves[1..], opOf))
  }

  /**
   Over every run, from any honest point on, as its start is: at no moment is an operation reported
   `Ok` without its own answer, exactly when each message that ended one as `Ok` settled that very
   one, or found it settled.
   */
  lemma {:induction false} HonestExactlyWhenSound(w: World, moves: seq<Move>, opOf: Label -> OpId)
    requires Shape(w) && Honest(w) && Run(w, moves, opOf)
    ensures AlwaysHonest(w, moves, opOf) <==> AlwaysSound(w, moves, opOf)
    decreases |moves|
  {
    if moves != [] {
      ShapeStep(w, moves[0], opOf);
      HonestStepIff(w, moves[0], opOf);
      if Sound(w, moves[0]) {
        HonestExactlyWhenSound(Next(w, moves[0], opOf), moves[1..], opOf);
      }
    }
  }

  /* ---------- what position can know ---------- */

  /**
   A message taken by position says nothing of what it settles. Whichever request it was for, if any,
   the reports stay true exactly when none is ended: an answer is owed, nothing is open, or the
   oldest open request had its answer before.
   */
  lemma {:induction false} PositionIsEnoughIff(w: World, opOf: Label -> OpId)
    requires Shape(w) && Honest(w)
    ensures (forall to :: Enabled(w, Unnamed(to)) ==> Honest(Next(w, Unnamed(to), opOf)))
            <==> w.led.owed > 0 || w.led.open == [] || w.led.open[0] !in w.unanswered
  {
    forall to | Enabled(w, Unnamed(to)) ensures Honest(Next(w, Unnamed(to), opOf)) <==> Sound(w, Unnamed(to)) {
      HonestStepIff(w, Unnamed(to), opOf);
    }
    assert Enabled(w, Unnamed(None));
  }

  /**
   The commonest input: a receive error, with one request out and nobody having given up. It is taken
   for the request's answer, which is still to come.
   */
  lemma {:induction false} ErrorEndsTheOldest(what: string, key: string, opOf: Label -> OpId)
    ensures var w := Next(START, Send(what, key), opOf);
            var v := Next(w, Unnamed(None), opOf);
            && Enabled(w, Unnamed(None)) && v.led.owed == 0
            && EndedOk(v.led.rec, OpId(0)) && v.unanswered == [Label(Request, 0)] && !Honest(v)
  {
    var w := Next(START, Send(what, key), opOf);
    AskedOnce(what, key, opOf);
    ShapeStep(w, Unnamed(None), opOf);
    OkAfter(w.led, Unnamed(None), opOf, OpId(0));
    assert Label(Request, 0) in w.unanswered;
  }

  /* ---------- what the caller of a key can know ---------- */

  /** Another unanswered request asked for this one's key. */
  predicate Shared(w: World, op: Label, key: string) {
    exists i :: 0 <= i < |w.unanswered| && w.unanswered[i] != op && AskedFor(w, w.unanswered[i], key)
  }

  predicate AskedBefore(w: World, op: Label, key: string) {
    exists i :: 0 <= i < |w.unanswered| && w.unanswered[i].ordinal < op.ordinal && AskedFor(w, w.unanswered[i], key)
  }

  /** The first unanswered request for a key: what a node that answers each key in order settles. */
  predicate IsOldestFor(w: World, id: Label, key: string) {
    id in w.unanswered && AskedFor(w, id, key) && !AskedBefore(w, id, key)
  }

  /** The caller waiting on `op` takes an answer that names its key. */
  function Take(key: string, id: Label, op: Label): Move {
    Named(key, Some(id), Some(Ending(op, Outcome.Ok)))
  }

  /**
   A caller recognises an answer by its key alone. Whichever request of that key the answer was for,
   its report is true exactly when no other unanswered request has the key.
   */
  lemma {:induction false} KeyIsEnoughIff(w: World, key: string, op: Label, opOf: Label -> OpId)
    requires Shape(w) && Honest(w) && op in w.unanswered && AskedFor(w, op, key)
    ensures (forall id :: Enabled(w, Take(key, id, op)) ==> Honest(Next(w, Take(key, id, op), opOf)))
            <==> !Shared(w, op, key)
  {
    forall id | Enabled(w, Take(key, id, op)) ensures Honest(Next(w, Take(key, id, op), opOf)) <==> id == op {
      HonestStepIff(w, Take(key, id, op), opOf);
    }
    if Shared(w, op, key) {
      var i :| 0 <= i < |w.unanswered| && w.unanswered[i] != op && AskedFor(w, w.unanswered[i], key);
      assert Enabled(w, Take(key, w.unanswered[i], op));
    }
  }

  /** From a node that answers each key in order, exactly when no earlier unanswered request has it. */
  lemma {:induction false} OldestAnswerHonestIff(w: World, key: string, id: Label, op: Label, opOf: Label -> OpId)
    requires Shape(w) && Honest(w) && op in w.unanswered && AskedFor(w, op, key) && IsOldestFor(w, id, key)
    ensures Honest(Next(w, Take(key, id, op), opOf)) <==> !AskedBefore(w, op, key)
  {
    HonestStepIff(w, Take(key, id, op), opOf);
    var i :| 0 <= i < |w.unanswered| && w.unanswered[i] == id;
    var j :| 0 <= j < |w.unanswered| && w.unanswered[j] == op;
    if id != op {
      assert !(w.unanswered[j].ordinal < id.ordinal);
      assert w.unanswered[i].ordinal < op.ordinal;
    }
  }

  lemma {:induction false} TakenForAnother(w: World, key: string, id: Label, op: Label, opOf: Label -> OpId)
    requires Shape(w) && Enabled(w, Take(key, id, op)) && op in w.unanswered && id != op
    ensures var v := Next(w, Take(key, id, op), opOf);
            EndedOk(v.led.rec, OpId(op.ordinal)) && v.unanswered == RemoveFirst(w.unanswered, id) && !Honest(v)
  {
    ShapeStep(w, Take(key, id, op), opOf);
    OkAfter(w.led, Take(key, id, op), opOf, OpId(op.ordinal));
    assert Label(Request, op.ordinal) == op;
  }

  /** A key asked for, given up on and asked for again. */
  function AskedTwice(what: string, key: string, opOf: Label -> OpId): World {
    Next(Next(Next(START, Send(what, key), opOf), GiveUp(Label(Request, 0), Timeout), opOf), Send(what, key), opOf)
  }

  lemma {:induction false} AskedTwiceIs(what: string, key: string, opOf: Label -> OpId)
    ensures var ask, quit := Send(what, key), GiveUp(Label(Request, 0), Timeout);
            Enabled(Next(START, ask, opOf), quit)
    ensures var w := AskedTwice(what, key, opOf);
            Shape(w) && w.unanswered == [Label(Request, 0), Label(Request, 1)] && w.asked == [key, key]
  {
    var ask, quit := Send(what, key), GiveUp(Label(Request, 0), Timeout);
    var w1 := Next(START, ask, opOf);
    ShapeStep(START, ask, opOf);
    var w2 := Next(w1, quit, opOf);
    ShapeStep(w1, quit, opOf);
    ShapeStep(w2, ask, opOf);
  }

  /**
   It happens: the first request's late answer is taken for the second's, which is reported `Ok`
   while its own answer is still to come.
   */
  lemma {:induction false} AskedAgainIsMistaken(what: string, key: string, opOf: Label -> OpId)
    ensures var w, first, again := AskedTwice(what, key, opOf), Label(Request, 0), Label(Request, 1);
            var v := Next(w, Take(key, first, again), opOf);
            && Enabled(Next(START, Send(what, key), opOf), GiveUp(first, Timeout))
            && Enabled(w, Take(key, first, again))
            && EndedOk(v.led.rec, OpId(1)) && v.unanswered == [again] && !Honest(v)
  {
    AskedTwiceIs(what, key, opOf);
    TakenForAnother(AskedTwice(what, key, opOf), key, Label(Request, 0), Label(Request, 1), opOf);
  }

  /* ---------- an orderly node ---------- */

  /**
   Unnamed answers come oldest first for as long as position is used; answers naming a key come
   oldest first among those of that key, and nobody ends on one while an older request of the key
   is unanswered. Nothing else is asked of the order, and nothing at all once an answer is owed
   except of the keys.
   */
  predicate Orderly(w: World, m: Move) {
    match m
    case Unnamed(to) =>
      w.led.owed == 0 && w.led.open != [] && w.led.open[0] in w.unanswered ==> to == Some(w.unanswered[0])
    case Named(key, to, Some(e)) =>
      e.op in w.unanswered ==> to.Some? && IsOldestFor(w, to.value, key) && !AskedBefore(w, e.op, key)
    case _ => true
  }

  ghost predicate OrderlyRun(w: World, moves: seq<Move>, opOf: Label -> OpId)
    decreases |moves|
  {
    moves == [] || (Orderly(w, moves[0]) && OrderlyRun(Next(w, moves[0], opOf), moves[1..], opOf))
  }

  /** While nothing is owed, every unanswered request is open. */
  ghost predicate InStep(w: World) {
    Shape(w) && Honest(w) && (w.led.owed == 0 ==> forall l :: l in w.unanswered ==> l in w.led.open)
  }

  /** The open entry an orderly move closes is not left unanswered. */
  lemma {:induction false} OrderlyCloses(w: World, m: Move)
    requires InStep(w) && Enabled(w, m) && Orderly(w, m) && !m.GiveUp?
    ensures Sound(w, m)
    ensures w.led.owed == 0 && Closes(w.led, m).Some?
            ==> Closes(w.led, m).value !in w.unanswered || Settled(m) == Closes(w.led, m)
  {
    match m {
      case Unnamed(to) =>
        if w.led.owed == 0 && w.led.open != [] && w.led.open[0] in w.unanswered {
          var oldest := w.unanswered[0];
          assert oldest in w.unanswered;
          var i :| 0 <= i < |w.led.open| && w.led.open[i] == oldest;
          var j :| 0 <= j < |w.unanswered| && w.unanswered[j] == w.led.open[0];
          assert oldest.ordinal <= w.led.open[0].ordinal <= oldest.ordinal;
        }
      case _ =>
    }
  }

  lemma {:induction false} InStepNext(w: World, m: Move, opOf: Label -> OpId)
    requires InStep(w) && Enabled(w, m) && Orderly(w, m)
    ensures InStep(Next(w, m, opOf)) && Sound(w, m)
  {
    var v := Next(w, m, opOf);
    ShapeStep(w, m, opOf);
    HonestStepIff(w, m, opOf);
    if !m.GiveUp? {
      OrderlyCloses(w, m);
      OwedAfter(w, m, opOf);
      OpenAfter(w.led, m, opOf);
      if Settled(m).Some? {
        RemoveFirstInOrder(w.unanswered, Settled(m).value);
      }
      if Closes(w.led, m).Some? {
        RemoveFirstInOrder(w.led.open, Closes(w.led, m).value);
      }
    }
  }

  lemma {:induction false} OrderlyIsSound(w: World, moves: seq<Move>, opOf: Label -> OpId)
    requires InStep(w) && Run(w, moves, opOf) && OrderlyRun(w, moves, opOf)
    ensures InStep(Play(w, moves, opOf)) && AlwaysSound(w, moves, opOf)
    decreases |moves|
  {
    if moves != [] {
      InStepNext(w, moves[0], opOf);
      OrderlyIsSound(Next(w, moves[0], opOf), moves[1..], opOf);
    }
  }

  /**
   Against an orderly node, however late the owed answers arrive: at no moment is an operation
   reported `Ok` without its own answer, and until the first give-up every unanswered request is open.
   */
  lemma {:induction false} NeverOkWithoutItsAnswer(moves: seq<Move>, opOf: Label -> OpId)
    requires Run(START, moves, opOf) && OrderlyRun(START, moves, opOf)
    ensures AlwaysHonest(START, moves, opOf)
    ensures var w := Play(START, moves, opOf);
            w.led.owed == 0 ==> forall l :: l in w.unanswered ==> l in w.led.open
  {
    OrderlyIsSound(START, moves, opOf);
    HonestExactlyWhenSound(START, moves, opOf);
  }
}
