/** The lines of the two roles' files, as `src/xnode.rs` prints and reads them. */
module PairingLines {
  import opened Base
  import opened Text
  import opened Pairing
  import PutRole

  /** A trial of the put role with the wall-clock reading taken as it was sent; its clock in nanoseconds. */
  function SendOf(t: PutRole.Trial, sentNs: nat): Send {
    Send(t.plan.key, sentNs, MsOf(t.confirm), t.plan.size, t.plan.arm, t.unackedAtT, t.hedged, MsOf(t.ack))
  }

  function MsOf(ns: Option<int>): Option<real> { match ns case None => None case Some(v) => Some(Ms(v)) }

  function NumberOrDash(o: Option<real>): string { match o case None => "-" case Some(v) => Fixed1(v) }

  function ArmName(a: Arm): string { if a == PutRole.Hedge then "hedge" else "control" }

  /** An arm this version does not know is a control. */
  function ParseArm(f: seq<string>): Arm {
    if |f| > 5 && f[5] == "hedge" then PutRole.Hedge else PutRole.Control
  }

  function MarkName(u: Option<bool>): string {
    match u case None => "-" case Some(unacked) => if unacked then "unacked" else "acked"
  }

  function ParseMark(f: seq<string>): Option<bool> {
    if |f| > 6 && f[6] == "unacked" then Some(true)
    else if |f| > 6 && f[6] == "acked" then Some(false)
    else None
  }

  function HedgedName(hedged: bool): string { if hedged then "hedged" else "-" }

  function PutFields(s: Send): seq<string> {
    ["PUT", s.key, Decimal(s.sentNs), NumberOrDash(s.confirmMs), Decimal(s.size),
     ArmName(s.arm), MarkName(s.unackedAtT), HedgedName(s.hedged), NumberOrDash(s.ackMs)]
  }

  function PutLine(s: Send): string { Join(PutFields(s)) }

  function FieldReal(f: seq<string>, i: nat): Option<real> { if i < |f| then ParseReal(f[i]) else None }

  /** One line of the put role's file; older files carry fewer fields. */
  function ParseSend(f: seq<string>): Option<Send> {
    if |f| < 5 || f[0] != "PUT" then None
    else Some(Send(
      f[1], GetOr(ParseUnsigned(f[2], U128), 0), ParseReal(f[3]), GetOr(ParseUnsigned(f[4], U64), 0),
      ParseArm(f), ParseMark(f), |f| > 7 && f[7] == "hedged", FieldReal(f, 8)))
  }

  function ParseHit(f: seq<string>): Option<Hit> {
    if |f| < 4 || f[0] != "READ" then None
    else Some(Hit(f[1], GetOr(ParseUnsigned(f[2], U64), 0), GetOr(ParseReal(f[3]), 0.0)))
  }

  function RoundedMs(o: Option<real>): Option<real> { match o case None => None case Some(v) => Some(Rounded(v)) }

  /** What a file keeps of a send: everything, its two times to one decimal. */
  function Kept(s: Send): Send { s.(confirmMs := RoundedMs(s.confirmMs), ackMs := RoundedMs(s.ackMs)) }

  predicate Printable(s: Send) { IsWord(s.key) && s.sentNs < U128 && s.size < U64 }

  lemma NumberOrDashRead(o: Option<real>)
    ensures ParseReal(NumberOrDash(o)) == RoundedMs(o)
  {
    match o {
      case None => assert "-"[1..] == "";
      case Some(v) => ParseFixed1(v);
    }
  }

  lemma NumberOrDashIsWord(o: Option<real>)
    ensures IsWord(NumberOrDash(o))
  {
    if o.Some? {
      Fixed1IsWord(o.value);
    }
  }

  lemma TagsAreWords(s: Send)
    ensures IsWord(ArmName(s.arm)) && IsWord(MarkName(s.unackedAtT)) && IsWord(HedgedName(s.hedged))
  {
    assert IsWord("hedge") && IsWord("control");
    assert IsWord("unacked") && IsWord("acked") && IsWord("hedged") && IsWord("-");
  }

  lemma NineWords(f: seq<string>)
    requires |f| == 9 && IsWord(f[0]) && IsWord(f[1]) && IsWord(f[2]) && IsWord(f[3]) && IsWord(f[4])
    requires IsWord(f[5]) && IsWord(f[6]) && IsWord(f[7]) && IsWord(f[8])
    ensures forall w :: w in f ==> IsWord(w)
  {
  }

  lemma PutFieldsAreWords(s: Send)
    requires IsWord(s.key)
    ensures forall w :: w in PutFields(s) ==> IsWord(w)
  {
    DecimalIsWord(s.sentNs);
    DecimalIsWord(s.size);
    NumberOrDashIsWord(s.confirmMs);
    NumberOrDashIsWord(s.ackMs);
    TagsAreWords(s);
    assert IsWord("PUT");
    NineWords(PutFields(s));
  }

  lemma TagsRead(f: seq<string>, s: Send)
    requires |f| == 9 && f[5] == ArmName(s.arm) && f[6] == MarkName(s.unackedAtT) && f[7] == HedgedName(s.hedged)
    ensures ParseArm(f) == s.arm && ParseMark(f) == s.unackedAtT && (f[7] == "hedged" <==> s.hedged)
  {
    assert "control"[0] != "hedge"[0] && "-"[0] != "unacked"[0] && "-"[0] != "acked"[0] && "-"[0] != "hedged"[0];
    assert "acked"[0] != "unacked"[0];
  }

  lemma SendFrom(f: seq<string>, s: Send)
    requires |f| == 9 && f[0] == "PUT" && f[1] == s.key
    requires ParseUnsigned(f[2], U128) == Some(s.sentNs) && ParseUnsigned(f[4], U64) == Some(s.size)
    requires ParseReal(f[3]) == s.confirmMs && ParseReal(f[8]) == s.ackMs
    requires ParseArm(f) == s.arm && ParseMark(f) == s.unackedAtT && (f[7] == "hedged" <==> s.hedged)
    ensures ParseSend(f) == Some(s)
  {
  }

  lemma NumbersRead(f: seq<string>, s: Send)
    requires s.sentNs < U128 && s.size < U64 && |f| == 9
    requires f[2] == Decimal(s.sentNs) && f[4] == Decimal(s.size)
    requires f[3] == NumberOrDash(s.confirmMs) && f[8] == NumberOrDash(s.ackMs)
    ensures ParseUnsigned(f[2], U128) == Some(s.sentNs) && ParseUnsigned(f[4], U64) == Some(s.size)
    ensures ParseReal(f[3]) == RoundedMs(s.confirmMs) && ParseReal(f[8]) == RoundedMs(s.ackMs)
  {
    ParseDecimal(s.sentNs, U128);
    ParseDecimal(s.size, U64);
    NumberOrDashRead(s.confirmMs);
    NumberOrDashRead(s.ackMs);
  }

  lemma PutFieldsRead(s: Send)
    requires s.sentNs < U128 && s.size < U64
    ensures ParseSend(PutFields(s)) == Some(Kept(s))
  {
    NumbersRead(PutFields(s), s);
    TagsRead(PutFields(s), s);
    SendFrom(PutFields(s), Kept(s));
  }

  /** Whatever the put role learned of a trial, the pairing reads back from its line. */
  lemma PutLineRoundTrip(s: Send)
    requires Printable(s)
    ensures ParseSend(Words(PutLine(s))) == Some(Kept(s))
  {
    PutFieldsAreWords(s);
    WordsOfJoin(PutFields(s));
    PutFieldsRead(s);
  }

  /** The nine words of a `PUT` line. */
  lemma PutLineWords(s: Send)
    requires IsWord(s.key)
    ensures Words(PutLine(s)) ==
              ["PUT", s.key, Decimal(s.sentNs), if s.confirmMs.Some? then Fixed1(s.confirmMs.value) else "-",
               Decimal(s.size), if s.arm.Hedge? then "hedge" else "control",
               (match s.unackedAtT case None => "-" case Some(u) => if u then "unacked" else "acked"),
               if s.hedged then "hedged" else "-", if s.ackMs.Some? then Fixed1(s.ackMs.value) else "-"]
  {
    PutFieldsAreWords(s);
    WordsOfJoin(PutFields(s));
  }

  /** A line of an older file, which has only the first words, is read the same as far as it goes. */
  lemma OlderLine(s: Send, n: nat)
    requires s.sentNs < U128 && s.size < U64 && 5 <= n < 9
    ensures ParseSend(PutFields(s)[..n]) == Some(Kept(s).(
              arm := if n > 5 then s.arm else PutRole.Control, unackedAtT := if n > 6 then s.unackedAtT else None,
              hedged := n > 7 && s.hedged, ackMs := None))
    ensures ParseSend(PutFields(s)[..4]).None?
  {
    var f := PutFields(s);
    NumbersRead(f, s);
    TagsRead(f, s);
    ShortFrom(f, Kept(s), n);
  }

  lemma ShortFrom(f: seq<string>, s: Send, n: nat)
    requires |f| == 9 && 5 <= n < 9 && f[0] == "PUT" && f[1] == s.key
    requires ParseUnsigned(f[2], U128) == Some(s.sentNs) && ParseUnsigned(f[4], U64) == Some(s.size)
    requires ParseReal(f[3]) == s.confirmMs
    requires ParseArm(f) == s.arm && ParseMark(f) == s.unackedAtT && (f[7] == "hedged" <==> s.hedged)
    ensures ParseSend(f[..n]) == Some(s.(
              arm := if n > 5 then s.arm else PutRole.Control, unackedAtT := if n > 6 then s.unackedAtT else None,
              hedged := n > 7 && s.hedged, ackMs := None))
  {
  }
}
