/**
 The contract of `fixtures/validate-cost-contract`: append-only byte strings, merged longer-wins,
 synchronised by length summaries and tail deltas.
 */
module Replicas {
  import opened Base
  import opened Pack

  type State = seq<byte>

  const TAG_APPEND: byte := 0x01
  const TAG_NOOP: byte := 0xFF

  /** One item of `update_state`'s data; `Other` is every kind it skips. */
  datatype Update =
    | Full(state: State)
    | Delta(bytes: seq<byte>)
    | FullAndDelta(state: State, bytes: seq<byte>)
    | Other

  datatype Error = InvalidUpdate

  /** `[mode, repeat_le32, salt..]`, or nothing when it is too short. */
  function ParamsOf(p: seq<byte>): Option<(byte, nat)> {
    if |p| < 5 then None else Some((p[0], FromLittleEndian(p[1..5])))
  }

  /** A full state is merged monotonically: the longer one wins, and a tie keeps ours. */
  function Longer(mine: State, theirs: State): State {
    if |theirs| > |mine| then theirs else mine
  }

  function ApplyOne(s: State, u: Update): Result<State, Error> {
    match u
    case Full(t) => Ok(Longer(s, t))
    case FullAndDelta(t, _) => Ok(Longer(s, t))
    case Other => Ok(s)
    case Delta(d) =>
      if d == [] then Err(InvalidUpdate)
      else if d[0] == TAG_NOOP then Ok(s)
      else if d[0] == TAG_APPEND then Ok(s + d[1..])
      else Err(InvalidUpdate)
  }

  /** Items in order; the first that is refused refuses them all. */
  function ApplyAll(s: State, us: seq<Update>): Result<State, Error>
    decreases |us|
  {
    if us == [] then Ok(s)
    else match ApplyOne(s, us[0])
      case Err(e) => Err(e)
      case Ok(t) => ApplyAll(t, us[1..])
  }

  /** `burn` is the first byte of the chained digest of a state. */
  function Updated(params: seq<byte>, s: State, us: seq<Update>, burn: (State, nat) -> byte): Result<State, Error> {
    match ParamsOf(params)
    case None => Err(InvalidUpdate)
    case Some((mode, repeat)) =>
      match ApplyAll(s, us)
      case Err(e) => Err(e)
      case Ok(t) => if mode == 1 && burn(t, repeat) == 0xAB && t == [] then Err(InvalidUpdate) else Ok(t)
  }

  method UpdateState(params: seq<byte>, s: State, us: seq<Update>, burn: (State, nat) -> byte)
    returns (r: Result<State, Error>)
    ensures r == Updated(params, s, us, burn)
  {
    var settings := ParamsOf(params);
    if settings.None? {
      return Err(InvalidUpdate);
    }
    var (mode, repeat) := settings.value;
    var next := s;
    for i := 0 to |us|
      invariant ApplyAll(s, us) == ApplyAll(next, us[i..])
    {
      assert us[i..][1..] == us[i + 1..];
      match us[i] {
        case Full(t) => if |t| > |next| { next := t; }
        case FullAndDelta(t, _) => if |t| > |next| { next := t; }
        case Other =>
        case Delta(d) =>
          if d == [] {
            return Err(InvalidUpdate);
          }
          if d[0] == TAG_APPEND {
            next := next + d[1..];
          } else if d[0] != TAG_NOOP {
            return Err(InvalidUpdate);
          }
      }
    }
    assert us[|us|..] == [];
    if mode == 1 && burn(next, repeat) == 0xAB && next == [] {
      return Err(InvalidUpdate);
    }
    r := Ok(next);
  }

  /* ---------- what a list of items does ---------- */

  /** An item no replica takes: a delta that is empty or starts with neither tag. */
  predicate Malformed(u: Update) { u.Delta? && (u.bytes == [] || (u.bytes[0] != 0x01 && u.bytes[0] != 0xFF)) }

  lemma {:induction false} ApplySplit(s: State, us: seq<Update>, vs: seq<Update>)
    ensures ApplyAll(s, us + vs) == match ApplyAll(s, us) case Err(e) => Err(e) case Ok(t) => ApplyAll(t, vs)
    decreases |us|
  {
    if us == [] {
      assert us + vs == vs;
    } else {
      assert (us + vs)[1..] == us[1..] + vs && (us + vs)[0] == us[0];
      if ApplyOne(s, us[0]).Ok? {
        ApplySplit(ApplyOne(s, us[0]).value, us[1..], vs);
      }
    }
  }

  /** Whatever came before, one more item appends its tail, is merged longer-wins, or changes nothing. */
  lemma {:induction false} OneMoreItem(s: State, us: seq<Update>, u: Update)
    requires ApplyAll(s, us).Ok? && !Malformed(u)
    ensures var t := ApplyAll(s, us).value;
            ApplyAll(s, us + [u]) == Ok(
              match u
              case Full(theirs) => if |theirs| > |t| then theirs else t
              case FullAndDelta(theirs, _) => if |theirs| > |t| then theirs else t
              case Delta(d) => if d[0] == 0x01 then t + d[1..] else t
              case Other => t)
  {
    ApplySplit(s, us, [u]);
    assert [u][1..] == [];
  }

  lemma {:induction false} RefusedIffMalformed(s: State, us: seq<Update>)
    ensures ApplyAll(s, us).Err? <==> exists i :: 0 <= i < |us| && Malformed(us[i])
    decreases |us|
  {
    if us != [] {
      if ApplyOne(s, us[0]).Ok? {
        RefusedIffMalformed(ApplyOne(s, us[0]).value, us[1..]);
        assert forall i :: 0 < i < |us| ==> us[i] == us[1..][i - 1];
      } else {
        assert Malformed(us[0]);
      }
    }
  }

  /**
   When an update is refused, for every list of items: the parameters are too short, some item is
   malformed wherever it stands, or, in mode 1 and for one digest byte, nothing would be left behind.
   */
  lemma UpdateRefusedIff(params: seq<byte>, s: State, us: seq<Update>, burn: (State, nat) -> byte)
    ensures Updated(params, s, us, burn).Err? <==>
              || |params| < 5
              || (exists i :: 0 <= i < |us| && Malformed(us[i]))
              || (ApplyAll(s, us) == Ok([]) && params[0] == 1 && burn([], FromLittleEndian(params[1..5])) == 0xAB)
    ensures Updated(params, s, us, burn).Ok? ==> Updated(params, s, us, burn) == ApplyAll(s, us)
  {
    RefusedIffMalformed(s, us);
  }

  /** The length, as eight bytes; it says nothing about content. */
  function Summarize(s: State): seq<byte> { LittleEndian(|s|, 8) }

  /** What a peer's summary says it holds; a summary of another size says nothing. */
  function Known(summary: seq<byte>): nat { if |summary| == 8 then FromLittleEndian(summary) else 0 }

  /** Everything past the peer's known length. */
  function DeltaFor(s: State, summary: seq<byte>): seq<byte> {
    if Known(summary) >= |s| then [] else [TAG_APPEND] + s[Known(summary)..]
  }

  const U64: nat := Pow256(8)

  lemma SummaryRead(s: State)
    requires |s| < U64
    ensures Known(Summarize(s)) == |s|
  {
    LittleEndianRead(|s|, 8);
  }

  /* ---------- one exchange ---------- */

  /** A peer that is behind on the same log becomes the sender; one that is not refuses the empty delta. */
  lemma ExchangeCatchesUp(mine: State, theirs: State)
    requires theirs <= mine && |mine| < U64
    ensures ApplyOne(theirs, Delta(DeltaFor(mine, Summarize(theirs)))) ==
              if |theirs| < |mine| then Ok(mine) else Err(InvalidUpdate)
  {
    SummaryRead(theirs);
    if |theirs| < |mine| {
      var d := DeltaFor(mine, Summarize(theirs));
      assert d[1..] == mine[|theirs|..];
      assert theirs + mine[|theirs|..] == mine;
    }
  }

  /** A summary that is not eight bytes long says nothing, and gets everything. */
  lemma OddSummaryGetsEverything(s: State, summary: seq<byte>)
    requires |summary| != 8
    ensures DeltaFor(s, summary) == if s == [] then [] else [0x01] + s
    ensures ApplyOne([], Delta(DeltaFor(s, summary))) == if s == [] then Err(InvalidUpdate) else Ok(s)
  {
    assert s[0..] == s && [] + s == s;
    assert ([TAG_APPEND] + s)[1..] == s;
  }

  /**
   A delta is only good for the state it was computed against: applied to another prefix of the
   log it gives the sender's state exactly when that prefix has the summarised length.
   */
  lemma StaleDeltaIff(mine: State, summary: seq<byte>, now: State)
    requires now <= mine && Known(summary) < |mine|
    ensures ApplyOne(now, Delta(DeltaFor(mine, summary))) == Ok(mine) <==> |now| == Known(summary)
  {
    var d := DeltaFor(mine, summary);
    assert d[1..] == mine[Known(summary)..];
    if |now| == Known(summary) {
      assert now + mine[Known(summary)..] == mine;
    }
  }

  /* ---------- longer-wins is a join on prefixes of one log ---------- */

  lemma LongerIsJoin(log: State, a: State, b: State, c: State)
    requires a <= log && b <= log && c <= log
    ensures Longer(a, a) == a
    ensures Longer(a, b) == Longer(b, a)
    ensures Longer(a, Longer(b, c)) == Longer(Longer(a, b), c)
    ensures a <= Longer(a, b) && b <= Longer(a, b) <= log
    ensures a <= c && b <= c ==> Longer(a, b) <= c
  {
    assert |a| == |b| ==> a == b by {
      assert |a| == |b| ==> a == log[..|a|] == b;
    }
    assert |a| <= |b| ==> a <= b by {
      if |a| <= |b| { assert a == log[..|a|] && b[..|a|] == log[..|a|]; }
    }
    assert |b| <= |a| ==> b <= a by {
      if |b| <= |a| { assert b == log[..|b|] && a[..|b|] == log[..|b|]; }
    }
    assert |b| == |c| ==> b == c by {
      assert |b| == |c| ==> b == log[..|b|] == c;
    }
    assert |a| == |c| ==> a == c by {
      assert |a| == |c| ==> a == log[..|a|] == c;
    }
  }

  /**
   Exactly when longer-wins is a join: its result has both states as prefixes only if one already
   was the other's, and the order of a merge never matters unless two states of one length differ.
   */
  lemma LongerIsJoinIff(a: State, b: State)
    ensures a <= Longer(a, b) && b <= Longer(a, b) <==> a <= b || b <= a
    ensures Longer(a, b) == Longer(b, a) <==> |a| != |b| || a == b
  {
    if b <= a && |b| == |a| {
      assert a == b;
    }
  }

  /* ---------- runs of one writer and its replicas ---------- */

  /** What a node runs: the contract's parameters, and the digest that burns its time. */
  datatype Code = Code(params: seq<byte>, burn: (State, nat) -> byte)

  /** Replica 0 is the writer's. */
  datatype World = World(replicas: seq<State>)

  datatype Move =
    | Append(tail: seq<byte>)
    | NoOp(at: nat, tail: seq<byte>)
    | Merge(from: nat, into: nat)
    /** A summary, the delta computed against it, and its application, with nothing in between. */
    | Sync(from: nat, into: nat)

  /** The moves name replicas there are, and the log stays shorter than a 64-bit length can say. */
  ghost predicate Legal(w: World, m: Move)
    requires w.replicas != []
  {
    match m
    case Append(tail) => |w.replicas[0]| + |tail| < U64
    case NoOp(at, _) => at < |w.replicas|
    case Merge(from, into) => from < |w.replicas| && into < |w.replicas|
    case Sync(from, into) => from < |w.replicas| && into < |w.replicas|
  }

  /** The replica a move updates, and the item it is handed. */
  function UpdateOf(w: World, m: Move): (nat, Update)
    requires w.replicas != [] && Legal(w, m)
  {
    match m
    case Append(tail) => (0, Delta([TAG_APPEND] + tail))
    case NoOp(at, tail) => (at, Delta([TAG_NOOP] + tail))
    case Merge(from, into) => (into, Full(w.replicas[from]))
    case Sync(from, into) => (into, Delta(DeltaFor(w.replicas[from], Summarize(w.replicas[into]))))
  }

  /** A refused update leaves the replica as it was. */
  function Next(c: Code, w: World, m: Move): World
    requires w.replicas != [] && Legal(w, m)
    ensures Next(c, w, m).replicas != []
  {
    var (at, u) := UpdateOf(w, m);
    match Updated(c.params, w.replicas[at], [u], c.burn)
    case Err(_) => w
    case Ok(t) => w.(replicas := w.replicas[at := t])
  }

  /** A single item is refused on its own account, for bad parameters, or for leaving nothing behind. */
  lemma UpdatedByOne(c: Code, s: State, u: Update)
    ensures var r := Updated(c.params, s, [u], c.burn);
            && (r.Ok? ==> r == ApplyOne(s, u))
            && (ParamsOf(c.params).Some? && ApplyOne(s, u).Ok? && ApplyOne(s, u).value != [] ==> r == ApplyOne(s, u))
  {
    assert [u][1..] == [];
    assert ApplyOne(s, u).Ok? ==> ApplyAll(ApplyOne(s, u).value, []) == ApplyOne(s, u);
  }

  ghost predicate Run(c: Code, w: World, ms: seq<Move>)
    requires w.replicas != []
    decreases |ms|
  {
    ms == [] || (Legal(w, ms[0]) && Run(c, Next(c, w, ms[0]), ms[1..]))
  }

  function Play(c: Code, w: World, ms: seq<Move>): World
    requires w.replicas != [] && Run(c, w, ms)
    decreases |ms|
  {
    if ms == [] then w else Play(c, Next(c, w, ms[0]), ms[1..])
  }

  /** Every replica holds a prefix of the writer's log. */
  ghost predicate OneLog(w: World) {
    && w.replicas != [] && |w.replicas[0]| < U64
    && forall i :: 0 <= i < |w.replicas| ==> w.replicas[i] <= w.replicas[0]
  }

  lemma {:induction false} MoveKeepsOneLog(c: Code, w: World, m: Move)
    requires OneLog(w) && Legal(w, m)
    ensures OneLog(Next(c, w, m)) && |Next(c, w, m).replicas| == |w.replicas|
    ensures forall i :: 0 <= i < |w.replicas| ==> w.replicas[i] <= Next(c, w, m).replicas[i]
  {
    var log := w.replicas[0];
    var (at, u) := UpdateOf(w, m);
    UpdatedByOne(c, w.replicas[at], u);
    if ApplyOne(w.replicas[at], u).Ok? {
      var t := ApplyOne(w.replicas[at], u).value;
      match m {
        case Append(tail) =>
          assert ([TAG_APPEND] + tail)[1..] == tail;
        case NoOp(_, tail) => assert t == w.replicas[at];
        case Merge(from, into) => LongerIsJoin(log, w.replicas[into], w.replicas[from], log);
        case Sync(from, into) =>
          var mine, theirs := w.replicas[from], w.replicas[into];
          SummaryRead(theirs);
          if |theirs| < |mine| {
            assert theirs == log[..|theirs|] && mine[..|theirs|] == log[..|theirs|];
            ExchangeCatchesUp(mine, theirs);
          }
      }
      assert w.replicas[at] <= t && (at != 0 ==> t <= log);
    }
  }

  /**
   Under any run of appends, no-op deltas, full-state merges and atomic exchanges, every replica
   stays a prefix of the writer's log and none ever loses a byte.
   */
  lemma {:induction false} ReplicasFollowOneLog(c: Code, w: World, ms: seq<Move>)
    requires OneLog(w) && Run(c, w, ms)
    ensures OneLog(Play(c, w, ms)) && |Play(c, w, ms).replicas| == |w.replicas|
    ensures forall i :: 0 <= i < |w.replicas| ==> w.replicas[i] <= Play(c, w, ms).replicas[i]
    decreases |ms|
  {
    if ms != [] {
      var v := Next(c, w, ms[0]);
      MoveKeepsOneLog(c, w, ms[0]);
      ReplicasFollowOneLog(c, v, ms[1..]);
    }
  }

  /** After any run, one exchange with the writer brings any replica up to date and touches no other. */
  lemma {:induction false} OneExchangeConverges(c: Code, w: World, i: nat)
    requires OneLog(w) && i < |w.replicas| && ParamsOf(c.params).Some?
    ensures Next(c, w, Sync(0, i)).replicas[i] == w.replicas[0]
    ensures forall j :: 0 <= j < |w.replicas| && j != i ==> Next(c, w, Sync(0, i)).replicas[j] == w.replicas[j]
  {
    var log, theirs := w.replicas[0], w.replicas[i];
    var (at, u) := UpdateOf(w, Sync(0, i));
    UpdatedByOne(c, theirs, u);
    ExchangeCatchesUp(log, theirs);
    assert |theirs| == |log| ==> theirs == log;
  }
}
