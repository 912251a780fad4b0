/**
 The request ledger of `src/probe.rs`: an append-only event recording beside an incrementally
 kept list of open requests.
 */
module Ledger {
  import opened Base
  import Text

  // `Step` says what each call does to the ledger's state; the class `Ledger` is the ledger
  // itself, proved against `Step`; the lemmas are about whole runs of calls.

  datatype Kind = Request | Contract

  /** `req#3`, `contract#3`: a kind and the order in which its key was first seen. */
  datatype Label = Label(kind: Kind, ordinal: nat)

  datatype OpId = NoOp | OpId(n: nat)

  datatype Outcome = Ok | Missing | Timeout | Blocked | Refused(code: int)

  datatype Key = Sent | Received | Owed | Ambiguous

  datatype Site = SEND | RECV

  datatype Dir = Asked | Replied

  datatype Event =
    | Edge(site: Site, dir: Dir, id: Label)
    | Counter(site: Site, op: OpId, key: Key, value: nat)
    | Enter(site: Site, op: OpId)
    | Exit(site: Site, op: OpId, outcome: Outcome)

  /** Everything a ledger remembers. `requests` and `contracts` are the two label tables. */
  datatype State = State(
    rec: seq<Event>, open: seq<Label>, owed: nat, next: nat,
    requests: seq<string>, contracts: seq<string>)

  datatype Call =
    | Ask(what: string)
    | AskKeyed(what: string, key: string)
    | Response
    | Answered(key: string)
    | Finish(id: Label, outcome: Outcome)

  const EMPTY: State := State([], [], 0, 0, [], [])

  /* ---------- what one call does ---------- */

  function IndexOf(names: seq<string>, key: string): (i: nat)
    ensures i <= |names|
    ensures key in names ==> i < |names| && names[i] == key
    ensures key !in names ==> i == |names|
    ensures forall j :: 0 <= j < i ==> names[j] != key
  {
    if names == [] || names[0] == key then 0 else 1 + IndexOf(names[1..], key)
  }

  /** `Labels::label`: a key seen before keeps its ordinal, a new one gets the next. */
  function Interned(names: seq<string>, key: string): seq<string> {
    if key in names then names else names + [key]
  }

  function RequestKey(what: string, n: nat): string { what + "/" + Text.Decimal(n) }

  function IsGiveUp(o: Outcome): bool { o == Timeout || o == Blocked }

  function SendEvents(id: Label, counted: OpId, entered: OpId): seq<Event> {
    [Edge(SEND, Asked, id), Counter(SEND, counted, Sent, 1), Enter(SEND, entered)]
  }

  function Step(s: State, call: Call, opOf: Label -> OpId): State {
    match call
    case Ask(what) =>
      var key := RequestKey(what, s.next);
      var id := Label(Request, IndexOf(s.requests, key));
      s.(next := s.next + 1,
         requests := Interned(s.requests, key),
         rec := s.rec + SendEvents(id, NoOp, OpId(id.ordinal)),
         open := s.open + [id])
    case AskKeyed(_, key) =>
      var id := Label(Contract, IndexOf(s.contracts, key));
      s.(contracts := Interned(s.contracts, key),
         rec := s.rec + SendEvents(id, opOf(id), opOf(id)),
         open := s.open + [id])
    case Answered(key) =>
      var id := Label(Contract, IndexOf(s.contracts, key));
      s.(contracts := Interned(s.contracts, key),
         rec := s.rec + [Edge(RECV, Replied, id), Counter(RECV, opOf(id), Received, 1)],
         open := RemoveFirst(s.open, id))
    case Finish(id, outcome) =>
      s.(rec := s.rec + [Exit(SEND, OpId(id.ordinal), outcome)]
           + (if IsGiveUp(outcome) then [Counter(SEND, NoOp, Owed, 1)] else []),
         owed := s.owed + (if IsGiveUp(outcome) then 1 else 0),
         open := RemoveFirst(s.open, id))
    case Response => s.(rec := s.rec + ResponseEvents(s), open := ResponseOpen(s))
  }

  function ResponseEvents(s: State): seq<Event> {
    if s.owed > 0 then
      [Counter(RECV, NoOp, Received, 1), Counter(RECV, NoOp, Ambiguous, 1)]
    else
      (if s.open == [] then []
       else [Edge(RECV, Replied, s.open[0]), Exit(SEND, OpId(s.open[0].ordinal), Outcome.Ok)])
      + [Counter(RECV, NoOp, Received, 1)]
  }

  function ResponseOpen(s: State): seq<Label> {
    if s.owed > 0 || s.open == [] then s.open else s.open[1..]
  }

  function Exec(s: State, calls: seq<Call>, opOf: Label -> OpId): State
    decreases |calls|
  {
    if calls == [] then s else Exec(Step(s, calls[0], opOf), calls[1..], opOf)
  }

  /* ---------- the ledger object ---------- */

  class Ledger {
    var rec: seq<Event>
    var open: seq<Label>
    var owed: nat
    var next: nat
    var requests: seq<string>
    var contracts: seq<string>
    /** How the instrument turns a label into an operation id; only keyed sends use it. */
    const opOf: Label -> OpId

    function Snapshot(): State
      reads this
    {
      State(rec, open, owed, next, requests, contracts)
    }

    constructor (opOf: Label -> OpId)
      ensures Snapshot() == EMPTY && this.opOf == opOf
    {
      rec, open, owed, next, requests, contracts := [], [], 0, 0, [], [];
      this.opOf := opOf;
    }

    method Record(e: Event)
      modifies this`rec
      ensures rec == old(rec) + [e]
    {
      rec := rec + [e];
    }

    method RequestLabel(key: string) returns (id: Label)
      modifies this`requests
      ensures id == Label(Kind.Request, IndexOf(old(requests), key))
      ensures requests == Interned(old(requests), key)
    {
      id := Label(Kind.Request, IndexOf(requests, key));
      if key !in requests {
        requests := requests + [key];
      }
    }

    method ContractLabel(key: string) returns (id: Label)
      modifies this`contracts
      ensures id == Label(Contract, IndexOf(old(contracts), key))
      ensures contracts == Interned(old(contracts), key)
    {
      id := Label(Contract, IndexOf(contracts, key));
      if key !in contracts {
        contracts := contracts + [key];
      }
    }

    /** Drop the first open entry carrying this label, by a left-to-right search. */
    method Close(id: Label)
      modifies this`open
      ensures open == RemoveFirst(old(open), id)
    {
      var i := 0;
      while i < |open| && open[i] != id
        invariant 0 <= i <= |open|
        invariant forall j :: 0 <= j < i ==> open[j] != id
      {
        i := i + 1;
      }
      if i < |open| {
        RemoveFirstAt(open, i, id);
        open := open[..i] + open[i + 1..];
      }
    }

    method Request(what: string) returns (id: Label)
      modifies this
      ensures Snapshot() == Step(old(Snapshot()), Ask(what), opOf)
      ensures id == Label(Kind.Request, IndexOf(old(requests), what + "/" + Text.Decimal(old(next))))
    {
      var n := next;
      next := next + 1;
      id := RequestLabel(RequestKey(what, n));
      Record(Edge(SEND, Asked, id));
      Record(Counter(SEND, NoOp, Sent, 1));
      Record(Enter(SEND, OpId(id.ordinal)));
      open := open + [id];
    }

    method RequestKeyed(what: string, key: string) returns (id: Label)
      modifies this
      ensures Snapshot() == Step(old(Snapshot()), AskKeyed(what, key), opOf)
      ensures id == Label(Contract, IndexOf(old(contracts), key))
    {
      id := ContractLabel(key);
      Record(Edge(SEND, Asked, id));
      Record(Counter(SEND, opOf(id), Sent, 1));
      Record(Enter(SEND, opOf(id)));
      open := open + [id];
    }

    method AnsweredBy(key: string) returns (id: Label)
      modifies this
      ensures Snapshot() == Step(old(Snapshot()), Answered(key), opOf)
      ensures id == Label(Contract, IndexOf(old(contracts), key))
    {
      id := ContractLabel(key);
      Record(Edge(RECV, Replied, id));
      Record(Counter(RECV, opOf(id), Received, 1));
      Close(id);
    }

    method FinishWith(id: Label, outcome: Outcome)
      modifies this
      ensures Snapshot() == Step(old(Snapshot()), Finish(id, outcome), opOf)
      ensures owed == old(owed) + if outcome == Timeout || outcome == Blocked then 1 else 0
    {
      Record(Exit(SEND, OpId(id.ordinal), outcome));
      if outcome == Timeout || outcome == Blocked {
        owed := owed + 1;
        Record(Counter(SEND, NoOp, Owed, 1));
      }
      Close(id);
    }

    method ResponseArrived()
      modifies this
      ensures Snapshot() == Step(old(Snapshot()), Response, opOf)
    {
      if owed > 0 {
        Record(Counter(RECV, NoOp, Received, 1));
        Record(Counter(RECV, NoOp, Ambiguous, 1));
        return;
      }
      if open != [] {
        var id := open[0];
        open := open[1..];
        Record(Edge(RECV, Replied, id));
        Record(Exit(SEND, OpId(id.ordinal), Outcome.Ok));
      }
      Record(Counter(RECV, NoOp, Received, 1));
    }
  }

  /* ---------- reading the recording back ---------- */

  function ReplayOne(running: seq<OpId>, e: Event): seq<OpId> {
    match e
    case Enter(_, op) => running + [op]
    case Exit(_, op, _) => RemoveFirst(running, op)
    case _ => running
  }

  /** Spans entered and not ended, in the order they were entered. */
  function Replay(running: seq<OpId>, rec: seq<Event>): seq<OpId>
    decreases |rec|
  {
    if rec == [] then running else Replay(ReplayOne(running, rec[0]), rec[1..])
  }

  function Running(rec: seq<Event>): seq<OpId> { Replay([], rec) }

  function Total(rec: seq<Event>, key: Key): nat {
    if rec == [] then 0
    else (if rec[0].Counter? && rec[0].key == key then rec[0].value else 0) + Total(rec[1..], key)
  }

  predicate Ended(rec: seq<Event>, op: OpId) {
    exists i :: 0 <= i < |rec| && rec[i].Exit? && rec[i].op == op
  }

  lemma {:induction false} ReplayAppend(running: seq<OpId>, a: seq<Event>, b: seq<Event>)
    ensures Replay(running, a + b) == Replay(Replay(running, a), b)
    decreases |a|
  {
    if a == [] {
      assert a + b == b;
    } else {
      assert (a + b)[1..] == a[1..] + b;
      ReplayAppend(ReplayOne(running, a[0]), a[1..], b);
    }
  }

  lemma {:induction false} TotalAppend(a: seq<Event>, b: seq<Event>, key: Key)
    ensures Total(a + b, key) == Total(a, key) + Total(b, key)
  {
    if a == [] {
      assert a + b == b;
    } else {
      assert (a + b)[1..] == a[1..] + b;
      TotalAppend(a[1..], b, key);
    }
  }

  /** The events one call appends. */
  function Appended(s: State, call: Call, opOf: Label -> OpId): (events: seq<Event>)
    ensures Step(s, call, opOf).rec == s.rec + events
  {
    match call
    case Ask(what) =>
      var id := Label(Request, IndexOf(s.requests, RequestKey(what, s.next)));
      SendEvents(id, NoOp, OpId(id.ordinal))
    case AskKeyed(_, key) =>
      var id := Label(Contract, IndexOf(s.contracts, key));
      SendEvents(id, opOf(id), opOf(id))
    case Answered(key) =>
      var id := Label(Contract, IndexOf(s.contracts, key));
      [Edge(RECV, Replied, id), Counter(RECV, opOf(id), Received, 1)]
    case Finish(id, outcome) =>
      [Exit(SEND, OpId(id.ordinal), outcome)]
      + (if IsGiveUp(outcome) then [Counter(SEND, NoOp, Owed, 1)] else [])
    case Response => ResponseEvents(s)
  }

  /** The running spans after one call, from those before it. */
  function RunningAfter(running: seq<OpId>, s: State, call: Call, opOf: Label -> OpId): seq<OpId> {
    match call
    case Ask(what) => running + [OpId(IndexOf(s.requests, RequestKey(what, s.next)))]
    case AskKeyed(_, key) => running + [opOf(Label(Contract, IndexOf(s.contracts, key)))]
    case Answered(_) => running
    case Finish(id, _) => RemoveFirst(running, OpId(id.ordinal))
    case Response =>
      if s.owed > 0 || s.open == [] then running
      else RemoveFirst(running, OpId(s.open[0].ordinal))
  }

  lemma RunningStep(s: State, call: Call, opOf: Label -> OpId)
    ensures Running(Step(s, call, opOf).rec) == RunningAfter(Running(s.rec), s, call, opOf)
  {
    var new_, running := Appended(s, call, opOf), Running(s.rec);
    ReplayAppend([], s.rec, new_);
    match call {
      case Ask(_) => ReplayThree(running, new_);
      case AskKeyed(_, _) => ReplayThree(running, new_);
      case Answered(_) => ReplayTwo(running, new_);
      case Finish(_, outcome) =>
        if IsGiveUp(outcome) { ReplayTwo(running, new_); } else { ReplayShort(running, new_); }
      case Response =>
        if s.owed > 0 { ReplayTwo(running, new_); }
        else if s.open == [] { ReplayShort(running, new_); }
        else { ReplayThree(running, new_); }
    }
  }

  lemma ReplayShort(running: seq<OpId>, es: seq<Event>)
    requires |es| == 1
    ensures Replay(running, es) == ReplayOne(running, es[0])
  {
    assert Replay(ReplayOne(running, es[0]), es[1..]) == ReplayOne(running, es[0]);
  }

  lemma ReplayTwo(running: seq<OpId>, es: seq<Event>)
    requires |es| == 2
    ensures Replay(running, es) == ReplayOne(ReplayOne(running, es[0]), es[1])
  {
    ReplayShort(ReplayOne(running, es[0]), es[1..]);
  }

  lemma ReplayThree(running: seq<OpId>, es: seq<Event>)
    requires |es| == 3
    ensures Replay(running, es) == ReplayOne(ReplayOne(ReplayOne(running, es[0]), es[1]), es[2])
  {
    ReplayTwo(ReplayOne(running, es[0]), es[1..]);
  }

  /* ---------- labels ---------- */

  /** The part of a request key after its last slash: the sequence number. */
  function Suffix(name: string): string {
    if name == "" || name[|name| - 1] == '/' then ""
    else Suffix(name[..|name| - 1]) + [name[|name| - 1]]
  }

  lemma {:induction false} SuffixOf(a: string, x: string)
    requires '/' !in x
    ensures Suffix(a + "/" + x) == x
  {
    var s := a + "/" + x;
    if x == "" {
      assert s[|s| - 1] == '/';
    } else {
      var y, c := x[..|x| - 1], x[|x| - 1];
      assert s[..|s| - 1] == a + "/" + y && s[|s| - 1] == c;
      assert c in x && x == y + [c];
      SuffixOf(a, y);
    }
  }

  /** The n-th request got the n-th label. */
  ghost predicate LabelsFresh(s: State) {
    && |s.requests| == s.next
    && forall i: nat :: i < |s.requests| ==> Suffix(s.requests[i]) == Text.Decimal(i)
  }

  lemma {:induction false} RequestSuffix(what: string, n: nat)
    ensures Suffix(RequestKey(what, n)) == Text.Decimal(n)
  {
    assert '/' !in Text.Decimal(n);
    SuffixOf(what, Text.Decimal(n));
  }

  /** Two requests always get two labels: the n-th request is `req#n`. */
  lemma FreshLabel(s: State, what: string)
    requires LabelsFresh(s)
    ensures IndexOf(s.requests, RequestKey(what, s.next)) == s.next
    ensures RequestKey(what, s.next) !in s.requests
  {
    RequestSuffix(what, s.next);
    forall i: nat | i < |s.requests| ensures s.requests[i] != RequestKey(what, s.next) {
      Text.DecimalValue(i);
      Text.DecimalValue(s.next);
    }
  }
}
