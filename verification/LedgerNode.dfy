/**
 The ledger against a node that answers each request at most once: what its list is worth.
 `LedgerHonest` says what its reports are.
 */
module LedgerNode {
  import opened Base
  import opened Ledger
  import opened LedgerRuns

  // The world remembers what the ledger cannot see: which request a message settles, if any. An
  // unnamed message is taken by position; a named one carries a key, and the caller that was waiting
  // for that key may end its own operation on it.

  /** A caller ends the operation it was waiting on. */
  datatype Ending = Ending(op: Label, outcome: Outcome)

  /** `to` is the request a message settles; none for an error, a notification, a repeated answer. */
  datatype Move =
    | Send(what: string, key: string)
    | Unnamed(to: Option<Label>)
    | Named(key: string, to: Option<Label>, ending: Option<Ending>)
    | GiveUp(id: Label, outcome: Outcome)

  /** `asked[n]` is the key request `n` asked for. */
  datatype World = World(led: State, asked: seq<string>, unanswered: seq<Label>, answered: set<Label>)

  const START: World := World(EMPTY, [], [], {})

  predicate AskedFor(w: World, id: Label, key: string) {
    id.kind == Request && id.ordinal < |w.asked| && w.asked[id.ordinal] == key
  }

  /** The outcomes after which the answer may still come. */
  predicate StillOwed(o: Outcome) { o.Timeout? || o.Blocked? }

  /** A message settles an unanswered request; a named one names that request's key, and its caller's. */
  predicate Enabled(w: World, m: Move) {
    match m
    case Send(_, _) => true
    case Unnamed(to) => to.Some? ==> to.value in w.unanswered
    case Named(key, to, ending) =>
      && (to.Some? ==> to.value in w.unanswered && AskedFor(w, to.value, key))
      && (ending.Some? ==> AskedFor(w, ending.value.op, key) && !StillOwed(ending.value.outcome))
    case GiveUp(id, outcome) => id.kind == Request && Issued(w.led, id) && StillOwed(outcome)
  }

  function LedgerAfter(s: State, m: Move, opOf: Label -> OpId): State {
    match m
    case Send(what, _) => Step(s, Ask(what), opOf)
    case Unnamed(_) => Step(s, Response, opOf)
    case Named(key, _, None) => Step(s, Answered(key), opOf)
    case Named(key, _, Some(e)) => Step(Step(s, Answered(key), opOf), Finish(e.op, e.outcome), opOf)
    case GiveUp(id, outcome) => Step(s, Finish(id, outcome), opOf)
  }

  /** The request a move settles. */
  function Settled(m: Move): Option<Label> {
    match m
    case Unnamed(to) => to
    case Named(_, to, _) => to
    case _ => None
  }

  function Next(w: World, m: Move, opOf: Label -> OpId): World {
    var led := LedgerAfter(w.led, m, opOf);
    if m.Send? then
      World(led, w.asked + [m.key], w.unanswered + [Label(Request, w.led.next)], w.answered)
    else match Settled(m)
      case None => w.(led := led)
      case Some(id) => w.(led := led, unanswered := RemoveFirst(w.unanswered, id), answered := w.answered + {id})
  }

  ghost predicate Run(w: World, moves: seq<Move>, opOf: Label -> OpId)
    decreases |moves|
  {
    moves == [] || (Enabled(w, moves[0]) && Run(Next(w, moves[0], opOf), moves[1..], opOf))
  }

  function Play(w: World, moves: seq<Move>, opOf: Label -> OpId): World
    decreases |moves|
  {
    if moves == [] then w else Play(Next(w, moves[0], opOf), moves[1..], opOf)
  }

  /* ---------- the shape every run keeps ---------- */

  /** Every request is answered or unanswered, and not both. */
  ghost predicate Shape(w: World) {
    && Tidy(w.led) && |w.asked| == w.led.next
    && InIssueOrder(w.unanswered)
    && (forall l :: l in w.unanswered ==> l.ordinal < w.led.next && l !in w.answered)
    && (forall l :: l in w.answered ==> l.ordinal < w.led.next)
    && (forall n: nat :: n < w.led.next ==> Label(Request, n) in w.unanswered || Label(Request, n) in w.answered)
  }

  lemma {:induction false} LedgerTidy(s: State, m: Move, opOf: Label -> OpId)
    requires Tidy(s)
    requires m.GiveUp? ==> m.id.kind == Request && Issued(s, m.id)
    requires m.Named? && m.ending.Some? ==> m.ending.value.op.kind == Request && Issued(s, m.ending.value.op)
    ensures Tidy(LedgerAfter(s, m, opOf))
    ensures LedgerAfter(s, m, opOf).next == s.next + if m.Send? then 1 else 0
  {
    match m {
      case Send(what, _) => TidyStep(s, Ask(what), opOf);
      case Unnamed(_) => TidyStep(s, Response, opOf);
      case Named(key, _, ending) =>
        TidyStep(s, Answered(key), opOf);
        if ending.Some? {
          TidyStep(Step(s, Answered(key), opOf), Finish(ending.value.op, ending.value.outcome), opOf);
        }
      case GiveUp(id, outcome) => TidyStep(s, Finish(id, outcome), opOf);
    }
  }

  /** The open entry a move closes. */
  function Closes(s: State, m: Move): Option<Label> {
    match m
    case Send(_, _) => None
    case Unnamed(_) => if s.owed == 0 && s.open != [] then Some(s.open[0]) else None
    case Named(_, _, ending) => if ending.Some? && ending.value.op in s.open then Some(ending.value.op) else None
    case GiveUp(id, _) => if id in s.open then Some(id) else None
  }

  function OpenAfterMove(s: State, m: Move): seq<Label> {
    if m.Send? then s.open + [Label(Request, s.next)]
    else match Closes(s, m)
      case None => s.open
      case Some(id) => RemoveFirst(s.open, id)
  }

  lemma {:induction false} OpenAfter(s: State, m: Move, opOf: Label -> OpId)
    requires LabelsFresh(s) && forall i :: 0 <= i < |s.open| ==> s.open[i].kind == Request
    ensures LedgerAfter(s, m, opOf).open == OpenAfterMove(s, m)
  {
    if m.Send? {
      FreshLabel(s, m.what);
    } else if m.Named? {
      var named := Label(Contract, IndexOf(s.contracts, m.key));
      assert RemoveFirst(s.open, named) == s.open;
    }
  }

  lemma {:induction false} ShapeStep(w: World, m: Move, opOf: Label -> OpId)
    requires Shape(w) && Enabled(w, m)
    ensures Shape(Next(w, m, opOf))
  {
    LedgerTidy(w.led, m, opOf);
    if m.Send? {
      assert InIssueOrder(w.unanswered + [Label(Request, w.led.next)]);
    } else if Settled(m).Some? {
      RemoveFirstInOrder(w.unanswered, Settled(m).value);
    }
  }

  /* ---------- how many are open ---------- */

  /** Messages that settle a request and close no entry. */
  function Unclosed(w: World, moves: seq<Move>, opOf: Label -> OpId): nat
    decreases |moves|
  {
    if moves == [] then 0
    else (if Settled(moves[0]).Some? && Closes(w.led, moves[0]).None? then 1 else 0)
         + Unclosed(Next(w, moves[0], opOf), moves[1..], opOf)
  }

  /** Messages that settle no request and close an entry. */
  function Unsettled(w: World, moves: seq<Move>, opOf: Label -> OpId): nat
    decreases |moves|
  {
    if moves == [] then 0
    else (if Settled(moves[0]).None? && Closes(w.led, moves[0]).Some? then 1 else 0)
         + Unsettled(Next(w, moves[0], opOf), moves[1..], opOf)
  }

  /**
   One step moves the two counts apart by what it settles and closes: a true count stays true exactly
   when the step closes an entry if and only if it settles a request.
   */
  lemma {:induction false} CountStep(w: World, m: Move, opOf: Label -> OpId)
    requires Shape(w) && Enabled(w, m)
    ensures var v := Next(w, m, opOf);
            |v.led.open| - |v.unanswered| == |w.led.open| - |w.unanswered|
              + (if Settled(m).Some? then 1 else 0) - (if Closes(w.led, m).Some? then 1 else 0)
    ensures |w.led.open| == |w.unanswered| ==>
              (|Next(w, m, opOf).led.open| == |Next(w, m, opOf).unanswered|
               <==> (Settled(m).Some? <==> Closes(w.led, m).Some?))
  {
    OpenAfter(w.led, m, opOf);
  }

  /**
   Over every run, from any point on, the open list outgrows the node's unanswered requests by exactly
   the messages that settled a request and closed nothing, less those that closed an entry and
   settled nothing. A run starts with both empty.
   */
  lemma {:induction false} OutstandingIsOffByWhatSlipped(w: World, moves: seq<Move>, opOf: Label -> OpId)
    requires Shape(w) && Run(w, moves, opOf)
    ensures var v := Play(w, moves, opOf);
            |v.led.open| + Unsettled(w, moves, opOf) + |w.unanswered|
              == |v.unanswered| + Unclosed(w, moves, opOf) + |w.led.open|
    decreases |moves|
  {
    if moves != [] {
      ShapeStep(w, moves[0], opOf);
      CountStep(w, moves[0], opOf);
      OutstandingIsOffByWhatSlipped(Next(w, moves[0], opOf), moves[1..], opOf);
    }
  }

  /** Nothing but answers reaches this connection, and nobody has given up on one. */
  ghost predicate OnlyAnswers(moves: seq<Move>) {
    forall i :: 0 <= i < |moves| ==> moves[i].Send? || Settled(moves[i]).Some?
  }

  /** Named answers that no caller ended an open operation on. */
  function Unfinished(w: World, moves: seq<Move>, opOf: Label -> OpId): nat
    decreases |moves|
  {
    if moves == [] then 0
    else (if moves[0].Named? && Closes(w.led, moves[0]).None? then 1 else 0)
         + Unfinished(Next(w, moves[0], opOf), moves[1..], opOf)
  }

  lemma OwedAfter(w: World, m: Move, opOf: Label -> OpId)
    requires Enabled(w, m) && !m.GiveUp?
    ensures Next(w, m, opOf).led.owed == w.led.owed
  {
  }

  lemma {:induction false} AnswersRun(w: World, moves: seq<Move>, opOf: Label -> OpId)
    requires Shape(w) && Run(w, moves, opOf) && OnlyAnswers(moves)
    requires w.led.owed == 0 && |w.led.open| >= |w.unanswered|
    ensures Unsettled(w, moves, opOf) == 0 && Unclosed(w, moves, opOf) == Unfinished(w, moves, opOf)
    decreases |moves|
  {
    if moves != [] {
      var m := moves[0];
      assert m.Send? || Settled(m).Some?;
      ShapeStep(w, m, opOf);
      CountStep(w, m, opOf);
      OwedAfter(w, m, opOf);
      assert m.Unnamed? ==> w.unanswered != [];
      AnswersRun(Next(w, m, opOf), moves[1..], opOf);
    }
  }

  /**
   Against a node that only ever answers, each request at most once and in any order, and until the
   first give-up: the ledger holds open the unanswered requests and one more for each named answer
   that ended no open operation. So it has their true number exactly when there was none.
   */
  lemma {:induction false} OutstandingIsTheUnansweredCountIff(moves: seq<Move>, opOf: Label -> OpId)
    requires Run(START, moves, opOf) && OnlyAnswers(moves)
    ensures var w := Play(START, moves, opOf);
            && |w.led.open| == |w.unanswered| + Unfinished(START, moves, opOf)
            && (|w.led.open| == |w.unanswered| <==> Unfinished(START, moves, opOf) == 0)
  {
    OutstandingIsOffByWhatSlipped(START, moves, opOf);
    AnswersRun(START, moves, opOf);
  }

  /**
   The common case: a put sent without its key is answered by an answer that names it, and whoever
   sent it ends nothing. The node owes nothing; the ledger shows one outstanding, for ever.
   */
  lemma {:induction false} NamedAnswerLeavesItOpen(what: string, key: string, opOf: Label -> OpId)
    ensures var id := Label(Request, 0);
            var w, m := Next(START, Send(what, key), opOf), Named(key, Some(id), None);
            var v := Next(w, m, opOf);
            && Enabled(w, m) && |w.led.open| == |w.unanswered|
            && v.led.open == [id] && v.unanswered == [] && v.led.owed == 0
  {
    AskedOnce(what, key, opOf);
    OpenAfter(Next(START, Send(what, key), opOf).led, Named(key, Some(Label(Request, 0)), None), opOf);
  }

  lemma {:induction false} AskedOnce(what: string, key: string, opOf: Label -> OpId)
    ensures var w := Next(START, Send(what, key), opOf);
            && Shape(w) && w.asked == [key] && w.unanswered == [Label(Request, 0)]
            && w.led.open == [Label(Request, 0)] && w.led.owed == 0
  {
    OpenAfter(EMPTY, Send(what, key), opOf);
    ShapeStep(START, Send(what, key), opOf);
  }
}
