/** The confirmation of a put: the first time the node that sent it serves it back. */
module PutConfirm {
  import opened Base
  import opened PutRole
  import opened PutReadBack

  /** The first read-back that asks about this trial and is served; the number of actions when none is. */
  function FirstServed(c: Config, s: State, actions: seq<Action>, i: nat): (k: nat)
    ensures k <= |actions|
    ensures k < |actions| ==> actions[k].ReadBack? && actions[k].served
    decreases |actions|
  {
    if actions == [] || (actions[0].ReadBack? && actions[0].served && Turn(s) == Some(i)) then 0
    else 1 + FirstServed(c, Step(c, s, actions[0]), actions[1..], i)
  }

  /** A trial that has its confirmation keeps it, and no action moves when it was sent. */
  lemma {:induction false} ConfirmationStays(c: Config, s: State, actions: seq<Action>, i: nat)
    requires i < |s.trials| && s.trials[i].confirm.Some?
    ensures i < |Exec(c, s, actions).trials| && Exec(c, s, actions).trials[i].confirm == s.trials[i].confirm
    decreases |actions|
  {
    if actions != [] {
      ConfirmationStep(c, s, actions[0], i);
      ConfirmationStays(c, Step(c, s, actions[0]), actions[1..], i);
    }
  }

  lemma {:induction false} ConfirmationStep(c: Config, s: State, a: Action, i: nat)
    requires i < |s.trials|
    ensures i < |Step(c, s, a).trials|
    ensures var t, u := s.trials[i], Step(c, s, a).trials[i];
            && u.t0 == t.t0
            && u.confirm == if t.confirm.None? && a.ReadBack? && a.served && Turn(s) == Some(i)
                            then Some(a.now - t.t0) else t.confirm
  {
    if a.ReadBack? && Turn(s).Some? {
      TurnIsOpen(s.trials, s.next, 0);
    }
  }

  lemma {:induction false} TurnIsOpen(ts: seq<Trial>, next: nat, looked: nat)
    requires looked <= |ts| && Looks(ts, next, looked) < |ts|
    ensures ts[(next + Looks(ts, next, looked)) % |ts|].confirm.None?
    decreases |ts| - looked
  {
    var open := ts[(next + looked) % |ts|].confirm.None?;
    if !open {
      TurnIsOpen(ts, next, looked + 1);
    }
  }

  /** What the actions from `k` on make of the confirmation of a trial that has none yet. */
  function ConfirmedAt(t: Trial, actions: seq<Action>, k: nat): Option<int> {
    if k < |actions| then Some(actions[k].now - t.t0) else None
  }

  lemma ConfirmedLater(t: Trial, u: Trial, actions: seq<Action>, k: nat)
    requires actions != [] && u.t0 == t.t0
    ensures ConfirmedAt(t, actions, 1 + k) == ConfirmedAt(u, actions[1..], k)
  {
  }

  /**
   Whatever a run does, a trial's confirmation is the time from its own send to the first read-back
   that asks about it and is served, and there is none when no read-back is.
   */
  lemma {:induction false} ConfirmationIsTheFirstServed(c: Config, s: State, actions: seq<Action>, i: nat)
    requires IsOpen(s.trials, i)
    ensures i < |Exec(c, s, actions).trials|
    ensures Exec(c, s, actions).trials[i].confirm == ConfirmedAt(s.trials[i], actions, FirstServed(c, s, actions, i))
    decreases |actions|
  {
    if actions != [] {
      var t, rest := Step(c, s, actions[0]), actions[1..];
      ConfirmationStep(c, s, actions[0], i);
      if t.trials[i].confirm.None? {
        ConfirmationIsTheFirstServed(c, t, rest, i);
        ConfirmedLater(s.trials[i], t.trials[i], actions, FirstServed(c, t, rest, i));
      } else {
        ConfirmationStays(c, t, rest, i);
      }
    }
  }
}
