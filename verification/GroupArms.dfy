/**
 The read side of one group in `src/group.rs`, in the two arms that poll: asking for every piece
 until each has been served or the deadline has passed.
 */
module GroupArms {
  import opened Base
  import Stats

  /** What one look at a piece comes to: there was no time left, the piece was served, or it was not. */
  datatype Look = NoTime | Served(ms: real) | NotServed

  datatype Arm = Raw | Baseline

  /** One pass: what each look comes to by position, and whether a hedge is due once it is over. */
  datatype Pass = Pass(look: nat -> Look, hedgeDue: bool)

  /** The positions still to be served, their times, and the counters, after a group's passes. */
  datatype Group = Group(outstanding: seq<nat>, hits: seq<real>, attempts: nat, hedged: nat)

  function Times(open: seq<nat>, look: nat -> Look, i: nat): seq<real>
    requires i <= |open|
    decreases |open| - i
  {
    if i == |open| then []
    else match look(i)
      case Served(ms) => [ms] + Times(open, look, i + 1)
      case _ => Times(open, look, i + 1)
  }

  function Still(open: seq<nat>, look: nat -> Look, i: nat): seq<nat>
    requires i <= |open|
    decreases |open| - i
  {
    if i == |open| then []
    else match look(i)
      case Served(ms) => Still(open, look, i + 1)
      case _ => [open[i]] + Still(open, look, i + 1)
  }

  function Looks(open: seq<nat>, look: nat -> Look, i: nat): nat
    requires i <= |open|
    decreases |open| - i
  {
    if i == |open| then 0 else (if look(i).NoTime? then 0 else 1) + Looks(open, look, i + 1)
  }

  /** One pass of the read loop, and the re-puts the baseline arm makes after it. */
  function OnePass(arm: Arm, g: Group, p: Pass): Group {
    var still := Still(g.outstanding, p.look, 0);
    Group(still, g.hits + Times(g.outstanding, p.look, 0), g.attempts + Looks(g.outstanding, p.look, 0),
          g.hedged + if arm == Baseline && p.hedgeDue then |still| else 0)
  }

  function Passes(arm: Arm, g: Group, ps: seq<Pass>): Group
    decreases |ps|
  {
    if ps == [] || g.outstanding == [] then g else Passes(arm, OnePass(arm, g, ps[0]), ps[1..])
  }

  /** Look by look: the time of a piece that is served, a piece that stays, a look that was made. */
  function TimesAt(n: nat, look: nat -> Look): (ts: seq<Option<real>>)
    ensures |ts| == n
  {
    seq(n, i requires 0 <= i < n => match look(i) case Served(ms) => Some(ms) case _ => None)
  }

  function StaysAt(open: seq<nat>, look: nat -> Look): (ps: seq<Option<nat>>)
    ensures |ps| == |open|
  {
    seq(|open|, i requires 0 <= i < |open| => if look(i).Served? then None else Some(open[i]))
  }

  function LookedAt(n: nat, look: nat -> Look): (ls: seq<Option<Look>>)
    ensures |ls| == n
  {
    seq(n, i requires 0 <= i < n => if look(i).NoTime? then None else Some(look(i)))
  }

  /** The inner loop of a pass: the pieces that are left, the times of those that are not. */
  method LookAtEach(open: seq<nat>, look: nat -> Look) returns (still: seq<nat>, times: seq<real>, attempts: nat)
    ensures still == Still(open, look, 0)
    ensures times == Times(open, look, 0)
    ensures attempts == Looks(open, look, 0)
    ensures times == Somes(TimesAt(|open|, look)) && still == Somes(StaysAt(open, look))
    ensures attempts == |Somes(LookedAt(|open|, look))|
  {
    PassIs(open, look);
    still, times, attempts := [], [], 0;
    for i := 0 to |open|
      invariant still + Still(open, look, i) == Still(open, look, 0)
      invariant times + Times(open, look, i) == Times(open, look, 0)
      invariant attempts + Looks(open, look, i) == Looks(open, look, 0)
    {
      ghost var left, ahead := Still(open, look, i + 1), Times(open, look, i + 1);
      match look(i) {
        case NoTime =>
          assert still + ([open[i]] + left) == (still + [open[i]]) + left;
          still := still + [open[i]];
        case NotServed =>
          assert still + ([open[i]] + left) == (still + [open[i]]) + left;
          attempts := attempts + 1;
          still := still + [open[i]];
        case Served(ms) =>
          assert times + ([ms] + ahead) == (times + [ms]) + ahead;
          attempts := attempts + 1;
          times := times + [ms];
      }
    }
  }

  lemma {:induction false} PassFrom(open: seq<nat>, look: nat -> Look, i: nat)
    requires i <= |open|
    ensures Times(open, look, i) == Somes(TimesAt(|open|, look)[i..])
    ensures Still(open, look, i) == Somes(StaysAt(open, look)[i..])
    ensures Looks(open, look, i) == |Somes(LookedAt(|open|, look)[i..])|
    decreases |open| - i
  {
    if i < |open| {
      PassFrom(open, look, i + 1);
      var ts, ps, ls := TimesAt(|open|, look)[i..], StaysAt(open, look)[i..], LookedAt(|open|, look)[i..];
      SomesFirst(ts);
      SomesFirst(ps);
      SomesFirst(ls);
      assert ts[1..] == TimesAt(|open|, look)[i + 1..];
      assert ps[1..] == StaysAt(open, look)[i + 1..];
      assert ls[1..] == LookedAt(|open|, look)[i + 1..];
    }
  }

  /** What one pass makes of the pieces, look by look. */
  lemma PassIs(open: seq<nat>, look: nat -> Look)
    ensures Times(open, look, 0) == Somes(TimesAt(|open|, look))
    ensures Still(open, look, 0) == Somes(StaysAt(open, look))
    ensures Looks(open, look, 0) == |Somes(LookedAt(|open|, look))|
  {
    PassFrom(open, look, 0);
    assert TimesAt(|open|, look)[0..] == TimesAt(|open|, look);
    assert StaysAt(open, look)[0..] == StaysAt(open, look);
    assert LookedAt(|open|, look)[0..] == LookedAt(|open|, look);
  }

  /** Pass by pass: times are added in order, looks are counted, and a due hedge re-puts what is left. */
  lemma OnePassMore(arm: Arm, g: Group, p: Pass)
    requires g.outstanding != []
    ensures var r, n := Passes(arm, g, [p]), |g.outstanding|;
            && r.outstanding == Somes(StaysAt(g.outstanding, p.look))
            && r.hits == g.hits + Somes(TimesAt(n, p.look))
            && r.attempts == g.attempts + |Somes(LookedAt(n, p.look))|
            && r.hedged == g.hedged + if arm.Baseline? && p.hedgeDue then |r.outstanding| else 0
  {
    PassIs(g.outstanding, p.look);
    assert [p][1..] == [];
  }

  /** And a run of passes is those before the last, then the last. */
  lemma {:induction false} PassesSplit(arm: Arm, g: Group, ps: seq<Pass>, qs: seq<Pass>)
    ensures Passes(arm, g, ps + qs) == Passes(arm, Passes(arm, g, ps), qs)
    decreases |ps|
  {
    if ps == [] {
      assert ps + qs == qs;
    } else if g.outstanding != [] {
      assert (ps + qs)[1..] == ps[1..] + qs && (ps + qs)[0] == ps[0];
      PassesSplit(arm, OnePass(arm, g, ps[0]), ps[1..], qs);
    }
  }

  /**
   The read loop of `one_group`, to the deadline: `passes` are those it has time for. A piece leaves
   `outstanding` when it is served, and only then.
   */
  method ReadSide(arm: Arm, n: nat, passes: seq<Pass>) returns (g: Group)
    ensures g == Passes(arm, Start(n), passes)
  {
    g := Start(n);
    var k := 0;
    while g.outstanding != [] && k < |passes|
      invariant k <= |passes|
      invariant Passes(arm, g, passes[k..]) == Passes(arm, Start(n), passes)
      decreases |passes| - k
    {
      var p := passes[k];
      ghost var before := g;
      var still, times, attempts := LookAtEach(g.outstanding, p.look);
      g := Group(still, g.hits + times, g.attempts + attempts, g.hedged);
      if arm == Baseline && p.hedgeDue {
        for i := 0 to |still|
          invariant g == OnePass(arm, before, p).(hedged := before.hedged + i)
        {
          g := g.(hedged := g.hedged + 1);
        }
      }
      assert g == OnePass(arm, before, p);
      assert passes[k..][0] == p && passes[k..][1..] == passes[k + 1..];
      k := k + 1;
    }
  }

  function Start(n: nat): Group { Group(Positions(n), [], 0, 0) }

  function Positions(n: nat): (s: seq<nat>)
    ensures |s| == n && forall i :: 0 <= i < n ==> s[i] == i
  {
    seq(n, i requires 0 <= i < n => i)
  }

  /* ---------- what a group's counters say ---------- */

  lemma {:induction false} PassConserves(open: seq<nat>, look: nat -> Look, i: nat)
    requires i <= |open|
    ensures |Times(open, look, i)| + |Still(open, look, i)| == |open| - i
    ensures |Times(open, look, i)| <= Looks(open, look, i) <= |open| - i
    ensures forall x :: x in Still(open, look, i) ==> x in open[i..]
    decreases |open| - i
  {
    if i < |open| {
      PassConserves(open, look, i + 1);
      assert open[i..] == [open[i]] + open[i + 1..];
    }
  }

  /**
   Over a whole group: every piece has a time or is still outstanding, no piece has two, each time
   cost at least one attempt, and no pass costs more re-puts than pieces nobody could read.
   */
  lemma {:induction false} GroupConserves(arm: Arm, g: Group, ps: seq<Pass>)
    ensures var r := Passes(arm, g, ps);
            && |r.hits| + |r.outstanding| == |g.hits| + |g.outstanding|
            && |r.hits| - |g.hits| <= r.attempts - g.attempts <= |ps| * |g.outstanding|
            && (arm == Raw ==> r.hedged == g.hedged)
            && r.hedged - g.hedged <= |ps| * |g.outstanding|
            && (forall x :: x in r.outstanding ==> x in g.outstanding)
    decreases |ps|
  {
    if ps != [] && g.outstanding != [] {
      var next := OnePass(arm, g, ps[0]);
      PassConserves(g.outstanding, ps[0].look, 0);
      GroupConserves(arm, next, ps[1..]);
      MulLess(|ps| - 1, |next.outstanding|, |g.outstanding|);
    }
  }

  /**
   The two times a group reports, for every run: all `n` pieces have a time exactly when nothing is
   outstanding, the first `k` do exactly when at most `n - k` are, and never later than all of them.
   */
  lemma GroupTimes(arm: Arm, n: nat, k: nat, ps: seq<Pass>)
    requires 1 <= k <= n
    ensures var r := Passes(arm, Start(n), ps);
            && (Stats.ToNth(r.hits, n).Some? <==> r.outstanding == [])
            && (Stats.ToNth(r.hits, k).Some? <==> |r.outstanding| <= n - k)
            && (r.outstanding == [] ==> Stats.ToNth(r.hits, k).value <= Stats.ToNth(r.hits, n).value)
  {
    var r := Passes(arm, Start(n), ps);
    GroupConserves(arm, Start(n), ps);
    if r.outstanding == [] {
      Stats.FirstKBeforeAll(r.hits, k, n);
    }
  }

  lemma MulLess(k: nat, a: nat, b: nat)
    requires a <= b
    ensures k * a + b <= (k + 1) * b
  {
    assert (k + 1) * b == k * b + b;
    assert k * (b - a) >= 0;
    assert k * b == k * a + k * (b - a);
  }
}
