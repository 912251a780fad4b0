/**
 Keyed sends: what pairing by key guarantees, and where the recording and the open list part
 company. `opOf` is how the instrument turns a label into an operation id.

 A key's label does not change once it has one, so its operations can be counted over a run.
 */
module LedgerKeyed {
  import opened Base
  import opened Ledger

  function KeyLabel(s: State, key: string): Label { Label(Contract, IndexOf(s.contracts, key)) }

  /* ---------- pairing by key ---------- */

  /** A call on a connection whose sends are all keyed; errors and other unnamed messages arrive too. */
  predicate Keyed(s: State, call: Call) {
    match call
    case AskKeyed(_, _) => true
    case Answered(_) => true
    case Response => true
    case Finish(id, _) => id.kind == Contract && id.ordinal < |s.contracts|
    case Ask(_) => false
  }

  ghost predicate KeyedRun(s: State, calls: seq<Call>, opOf: Label -> OpId)
    decreases |calls|
  {
    calls == [] || (Keyed(s, calls[0]) && KeyedRun(Step(s, calls[0], opOf), calls[1..], opOf))
  }

  /**
   Does this call settle an operation that asked for `key`? A message that names nothing settles the
   oldest open one, until the first give-up.
   */
  predicate Settles(s: State, call: Call, key: string) {
    match call
    case Answered(k) => k == key
    case Finish(id, _) => id.ordinal < |s.contracts| && s.contracts[id.ordinal] == key
    case Response =>
      && s.owed == 0 && s.open != []
      && s.open[0].ordinal < |s.contracts| && s.contracts[s.open[0].ordinal] == key
    case _ => false
  }

  /** How many sends of `key` are still waiting: each settling call settles one. */
  function Waiting(s: State, calls: seq<Call>, opOf: Label -> OpId, key: string, before: nat): nat
    decreases |calls|
  {
    if calls == [] then before
    else
      var now := if calls[0].AskKeyed? && calls[0].key == key then before + 1
                 else if Settles(s, calls[0], key) && before > 0 then before - 1
                 else before;
      Waiting(Step(s, calls[0], opOf), calls[1..], opOf, key, now)
  }

  ghost predicate TableOk(s: State) {
    && Distinct(s.contracts)
    && forall i :: 0 <= i < |s.open| ==> s.open[i].kind == Contract && s.open[i].ordinal < |s.contracts|
  }

  lemma {:induction false} RemoveFirstCount<T>(s: seq<T>, x: T)
    ensures multiset(RemoveFirst(s, x)) == multiset(s) - multiset{x}
  {
    if s != [] {
      assert s == [s[0]] + s[1..];
      if s[0] != x {
        RemoveFirstCount(s[1..], x);
      }
    }
  }

  lemma IndexOfStays(names: seq<string>, more: seq<string>, key: string)
    requires key in names
    ensures IndexOf(names + more, key) == IndexOf(names, key)
  {
    var i, j := IndexOf(names, key), IndexOf(names + more, key);
    assert (names + more)[i] == key;
    assert forall k :: 0 <= k < |names| ==> (names + more)[k] == names[k];
  }

  /** Open entries of a key: those carrying its label, none if the key was never seen. */
  function OpenOf(s: State, key: string): nat {
    if key in s.contracts then multiset(s.open)[KeyLabel(s, key)] else 0
  }

  /** Seeing a key, new or not, changes no key's open count. */
  lemma {:induction false} InternKeeps(s: State, seen: string, key: string)
    requires TableOk(s)
    ensures TableOk(s.(contracts := Interned(s.contracts, seen)))
    ensures OpenOf(s.(contracts := Interned(s.contracts, seen)), key) == OpenOf(s, key)
  {
    if seen !in s.contracts {
      assert Label(Contract, |s.contracts|) !in s.open;
      if key in s.contracts {
        IndexOfStays(s.contracts, [seen], key);
      }
    }
  }

  /** In a table without repeats, labels and keys match one to one. */
  lemma LabelIsKey(s: State, id: Label, key: string)
    requires TableOk(s) && key in s.contracts && id.kind == Contract && id.ordinal < |s.contracts|
    ensures id == KeyLabel(s, key) <==> s.contracts[id.ordinal] == key
  {
    var i := IndexOf(s.contracts, key);
    assert s.contracts[id.ordinal] == key ==> i <= id.ordinal;
  }

  lemma {:induction false} CloseCounts(s: State, id: Label, key: string)
    requires TableOk(s) && id.kind == Contract && id.ordinal < |s.contracts|
    ensures TableOk(s.(open := RemoveFirst(s.open, id)))
    ensures OpenOf(s.(open := RemoveFirst(s.open, id)), key) ==
              if s.contracts[id.ordinal] == key && OpenOf(s, key) > 0 then OpenOf(s, key) - 1
              else OpenOf(s, key)
  {
    var rest := RemoveFirst(s.open, id);
    RemoveFirstCount(s.open, id);
    forall i | 0 <= i < |rest| ensures rest[i] in s.open {
      assert rest[i] in multiset(rest);
    }
    if key in s.contracts {
      LabelIsKey(s, id, key);
    }
  }

  lemma {:induction false} KeyedStep(s: State, call: Call, opOf: Label -> OpId, key: string)
    requires TableOk(s) && Keyed(s, call)
    ensures TableOk(Step(s, call, opOf))
    ensures OpenOf(Step(s, call, opOf), key) ==
              if call.AskKeyed? && call.key == key then OpenOf(s, key) + 1
              else if Settles(s, call, key) && OpenOf(s, key) > 0 then OpenOf(s, key) - 1
              else OpenOf(s, key)
  {
    match call {
      case AskKeyed(_, k) =>
        InternKeeps(s, k, key);
        var mid := s.(contracts := Interned(s.contracts, k));
        assert KeyLabel(mid, k) == KeyLabel(s, k) by {
          if k in s.contracts {} else { assert mid.contracts[|s.contracts|] == k; IndexOfNew(s.contracts, k); }
        }
        if key in mid.contracts {
          LabelIsKey(mid, KeyLabel(mid, k), key);
        }
        AppendCounts(mid, KeyLabel(mid, k), key);
      case Answered(k) =>
        InternKeeps(s, k, key);
        var mid := s.(contracts := Interned(s.contracts, k));
        if k !in s.contracts { IndexOfNew(s.contracts, k); }
        CloseCounts(mid, KeyLabel(mid, k), key);
      case Finish(id, _) => CloseCounts(s, id, key);
      case Response =>
        if s.owed == 0 && s.open != [] {
          CloseCounts(s, s.open[0], key);
        }
    }
  }

  lemma IndexOfNew(names: seq<string>, key: string)
    requires key !in names
    ensures IndexOf(names + [key], key) == |names|
  {
    assert (names + [key])[|names|] == key;
    assert forall i :: 0 <= i < |names| ==> (names + [key])[i] == names[i];
  }

  lemma AppendCounts(s: State, id: Label, key: string)
    requires TableOk(s) && id.kind == Contract && id.ordinal < |s.contracts|
    ensures TableOk(s.(open := s.open + [id]))
    ensures OpenOf(s.(open := s.open + [id]), key) ==
              OpenOf(s, key) + if s.contracts[id.ordinal] == key then 1 else 0
  {
    if key in s.contracts {
      LabelIsKey(s, id, key);
    }
  }

  /**
   In every keyed run, with give-ups, foreign or repeated answers, errors and messages that name
   nothing, a key has exactly as many open operations as it has sends that nothing settled.
   */
  lemma {:induction false} KeyedPairingIsExact(s: State, calls: seq<Call>, opOf: Label -> OpId, key: string)
    requires TableOk(s) && KeyedRun(s, calls, opOf)
    ensures OpenOf(Exec(s, calls, opOf), key) == Waiting(s, calls, opOf, key, OpenOf(s, key))
    decreases |calls|
  {
    if calls != [] {
      KeyedStep(s, calls[0], opOf, key);
      KeyedPairingIsExact(Step(s, calls[0], opOf), calls[1..], opOf, key);
    }
  }

  /* ---------- where the recording disagrees ---------- */

  function EnteredOp(id: Label, opOf: Label -> OpId): OpId {
    if id.kind == Request then OpId(id.ordinal) else opOf(id)
  }

  function EnteredOps(open: seq<Label>, opOf: Label -> OpId): (ops: seq<OpId>)
    ensures |ops| == |open|
  {
    if open == [] then [] else [EnteredOp(open[0], opOf)] + EnteredOps(open[1..], opOf)
  }

  /** The spans the recording has running are the ones the open list holds. */
  ghost predicate RecordingAgrees(s: State, opOf: Label -> OpId) {
    Running(s.rec) == EnteredOps(s.open, opOf)
  }

  lemma {:induction false} EnteredOpsRemove(open: seq<Label>, id: Label, opOf: Label -> OpId)
    requires id in open
    ensures multiset(EnteredOps(RemoveFirst(open, id), opOf)) ==
              multiset(EnteredOps(open, opOf)) - multiset{EnteredOp(id, opOf)}
  {
    var ops := EnteredOps(open, opOf);
    assert ops == [EnteredOp(open[0], opOf)] + EnteredOps(open[1..], opOf);
    if open[0] != id {
      EnteredOpsRemove(open[1..], id, opOf);
      var rest := RemoveFirst(open[1..], id);
      assert EnteredOps([open[0]] + rest, opOf) == [EnteredOp(open[0], opOf)] + EnteredOps(rest, opOf);
      assert multiset(EnteredOps(open[1..], opOf))[EnteredOp(id, opOf)] > 0 by {
        EnteredOpsHas(open[1..], id, opOf);
      }
    }
  }

  lemma {:induction false} EnteredOpsHas(open: seq<Label>, id: Label, opOf: Label -> OpId)
    requires id in open
    ensures EnteredOp(id, opOf) in EnteredOps(open, opOf)
  {
    if open[0] != id {
      EnteredOpsHas(open[1..], id, opOf);
    }
  }

  lemma DifferentCuts(m: multiset<OpId>, a: OpId, b: OpId)
    requires a != b && a in m
    ensures m - multiset{a} != m - multiset{b}
  {
    assert (m - multiset{a})[a] != (m - multiset{b})[a];
  }

  /** A self-naming answer closes the entry but ends no span. */
  lemma {:induction false} AnsweredAgreesIff(s: State, key: string, opOf: Label -> OpId)
    requires RecordingAgrees(s, opOf)
    ensures RecordingAgrees(Step(s, Answered(key), opOf), opOf) <==> KeyLabel(s, key) !in s.open
  {
    RunningStep(s, Answered(key), opOf);
  }

  /**
   Finishing a keyed operation ends the span `OpId(ordinal)`, which is not the one it entered:
   the recording stays right exactly when the label was not open and no other operation was
   running under that number.
   */
  lemma {:induction false} KeyedFinishAgreesIff(s: State, id: Label, outcome: Outcome, opOf: Label -> OpId)
    requires RecordingAgrees(s, opOf)
    requires id.kind == Contract && opOf(id) != OpId(id.ordinal)
    ensures RecordingAgrees(Step(s, Finish(id, outcome), opOf), opOf)
            <==> id !in s.open && OpId(id.ordinal) !in Running(s.rec)
  {
    var op := OpId(id.ordinal);
    RunningStep(s, Finish(id, outcome), opOf);
    if id in s.open && op in Running(s.rec) {
      RemoveFirstCount(Running(s.rec), op);
      EnteredOpsRemove(s.open, id, opOf);
      EnteredOpsHas(s.open, id, opOf);
      DifferentCuts(multiset(Running(s.rec)), op, opOf(id));
    }
  }

  /** A keyed give-up on a mixed connection makes the recording end somebody else's request. */
  lemma {:induction false} KeyedGiveUpEndsAnotherRequest(opOf: Label -> OpId)
    requires opOf(Label(Contract, 0)) != OpId(0)
    ensures var calls := [Ask("get"), AskKeyed("put", "K"), Finish(Label(Contract, 0), Timeout)];
            var s := Exec(EMPTY, calls, opOf);
            && s.open == [Label(Request, 0)]
            && Running(s.rec) == [opOf(Label(Contract, 0))]
  {
    var s1 := Step(EMPTY, Ask("get"), opOf);
    var s2 := Step(s1, AskKeyed("put", "K"), opOf);
    var last := Finish(Label(Contract, 0), Timeout);
    var s3 := Step(s2, last, opOf);
    RunningStep(EMPTY, Ask("get"), opOf);
    RunningStep(s1, AskKeyed("put", "K"), opOf);
    RunningStep(s2, last, opOf);
    assert s1.open == [Label(Request, 0)];
    assert s2.open == [Label(Request, 0), Label(Contract, 0)];
    assert s2.open[1..] == [Label(Contract, 0)];
    assert Running(s1.rec) == [OpId(0)];
    assert Running(s2.rec) == [OpId(0), opOf(Label(Contract, 0))];
    var calls := [Ask("get"), AskKeyed("put", "K"), last];
    assert calls[1..] == [AskKeyed("put", "K"), last] && calls[1..][1..] == [last];
    assert Exec(s2, [last], opOf) == Exec(s3, [], opOf);
  }
}
