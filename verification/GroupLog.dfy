/**
 The group log of `src/parity.rs`: one text line per block, one per acknowledgement, folded
 back into per-key outcomes. Two historical formats, told apart by the `# ack-bound-ms` header.

 What the fold keeps, line by line and as a file grows, is in `GroupFold`.
 */
module GroupLog {
  import opened Base
  import opened Text

  datatype Arm = Full | Control

  /** How a put's acknowledgement turned out, in milliseconds. */
  datatype Ack = Within(ms: real) | Late(ms: real) | Never

  datatype Block = Block(
    seed: seq<byte>, gid: nat, m: nat, arm: Arm, idx: nat, parity: bool,
    key: string, tSend: nat, ack: Ack, size: nat)

  datatype Error = BadSeed | BadNumber | BadArm | BadAck | NoGroups

  const HEADER: string := "# ack-bound-ms "

  /* ---------- the fields of a line ---------- */

  function HexDigit(d: nat): (c: char)
    requires d < 16
    ensures !IsWhite(c)
  {
    if d < 10 then '0' + (d as char) else 'a' + ((d - 10) as char)
  }

  function HexVal(c: char): Option<nat> {
    if '0' <= c <= '9' then Some((c - '0') as int)
    else if 'a' <= c <= 'f' then Some((c - 'a') as int + 10)
    else if 'A' <= c <= 'F' then Some((c - 'A') as int + 10)
    else None
  }

  function Hexify(b: seq<byte>): (s: string)
    ensures |s| == 2 * |b|
    ensures forall i :: 0 <= i < |s| ==> !IsWhite(s[i])
  {
    if b == [] then ""
    else [HexDigit(b[0] as int / 16), HexDigit(b[0] as int % 16)] + Hexify(b[1..])
  }

  /** `u8::from_str_radix(.., 16)` on two characters: a leading `+` is accepted. */
  function HexPair(hi: char, lo: char): Option<byte> {
    match HexVal(lo)
    case None => None
    case Some(l) =>
      if hi == '+' then Some(l as byte)
      else match HexVal(hi)
        case None => None
        case Some(h) => if h < 16 && l < 16 then Some((16 * h + l) as byte) else None
  }

  function HexBytes(s: string): Option<seq<byte>>
    requires |s| % 2 == 0
  {
    if s == "" then Some([])
    else match HexPair(s[0], s[1])
      case None => None
      case Some(b) =>
        match HexBytes(s[2..])
        case None => None
        case Some(rest) => Some([b] + rest)
  }

  /** Exactly sixteen bytes in thirty-two characters. */
  function Unhexify(s: string): Option<seq<byte>> {
    if |s| != 32 then None else HexBytes(s)
  }

  function ArmTag(a: Arm): string { if a == Full then "full" else "control" }

  function ParseArm(s: string): Option<Arm> {
    if s == "full" then Some(Full) else if s == "control" then Some(Control) else None
  }

  function AckTag(a: Ack): string {
    match a
    case Within(ms) => Fixed1(ms)
    case Late(ms) => "LATE:" + Fixed1(ms)
    case Never => "NEVER"
  }

  function ParseAck(s: string): Option<Ack> {
    if s == "NEVER" then Some(Never)
    else match StripPrefix(s, "LATE:")
      case Some(rest) => (match ParseReal(rest) case Some(ms) => Some(Late(ms)) case None => None)
      case None => (match ParseReal(s) case Some(ms) => Some(Within(ms)) case None => None)
  }

  /** What survives being printed to one decimal. */
  function RoundedAck(a: Ack): Ack {
    match a
    case Within(ms) => Within(Rounded(ms))
    case Late(ms) => Late(Rounded(ms))
    case Never => Never
  }

  function PartTag(b: Block): string { if b.parity then "parity" else "data" }

  function Fields(b: Block): seq<string> {
    ["GROUP", Decimal(b.gid), Decimal(b.m), ArmTag(b.arm), "BLOCK", Decimal(b.idx),
     PartTag(b), b.key, Decimal(b.tSend), AckTag(b.ack),
     Decimal(b.size), Hexify(b.seed)]
  }

  /** `Block::line`. */
  function BlockLine(b: Block): string { Join(Fields(b)) }

  /* ---------- reading one line ---------- */

  datatype Parsed = Skip | Bad(error: Error) | Rec(block: Block)

  function ParseRecord(f: seq<string>): Parsed {
    if |f| < 12 || f[0] != "GROUP" || f[4] != "BLOCK" then Skip
    else if Unhexify(f[11]).None? then Bad(BadSeed)
    else if ParseUnsigned(f[1], U64).None? || ParseUnsigned(f[2], U64).None? then Bad(BadNumber)
    else if ParseArm(f[3]).None? then Bad(BadArm)
    else if ParseUnsigned(f[5], U64).None? then Bad(BadNumber)
    else if ParseAck(f[9]).None? then Bad(BadAck)
    else Rec(Block(
      Unhexify(f[11]).value, ParseUnsigned(f[1], U64).value, ParseUnsigned(f[2], U64).value,
      ParseArm(f[3]).value, ParseUnsigned(f[5], U64).value, f[6] == "parity", f[7],
      GetOr(ParseUnsigned(f[8], U128), 0), ParseAck(f[9]).value,
      GetOr(ParseUnsigned(f[10], U64), 0)))
  }

  /** The key and time of an `ACK` line that parses. */
  function ParseAckLine(f: seq<string>): Option<(string, real)> {
    if |f| >= 3 && f[0] == "ACK" && ParseReal(f[2]).Some? then Some((f[1], ParseReal(f[2]).value)) else None
  }

  /** What one line of a file can be: a record, an acknowledgement, a header with its bound. */
  datatype LineView = LineView(rec: Parsed, ack: Option<(string, real)>, header: Option<real>)

  /** A malformed bound falls back to thirty seconds. */
  function HeaderBound(l: string): Option<real> {
    match StripPrefix(l, HEADER)
    case None => None
    case Some(rest) => Some(GetOr(ParseReal(Trim(rest)), 30000.0))
  }

  function View(l: string): LineView {
    var f := Words(l);
    LineView(ParseRecord(f), ParseAckLine(f), HeaderBound(l))
  }

  function Views(ls: seq<string>): (vs: seq<LineView>)
    ensures |vs| == |ls| && forall i :: 0 <= i < |ls| ==> vs[i] == View(ls[i])
  {
    seq(|ls|, i requires 0 <= i < |ls| => View(ls[i]))
  }

  /* ---------- reading a file ---------- */

  /** Every record in order, or the first error. */
  function Records(vs: seq<LineView>): Result<seq<Block>, Error> {
    if vs == [] then Ok([])
    else match vs[0].rec
      case Skip => Records(vs[1..])
      case Bad(e) => Err(e)
      case Rec(b) =>
        match Records(vs[1..])
        case Err(e) => Err(e)
        case Ok(bs) => Ok([b] + bs)
  }

  /** The first acknowledgement a file carries for a key. */
  function FirstAck(vs: seq<LineView>, key: string): Option<real> {
    if vs == [] then None
    else if vs[0].ack.Some? && vs[0].ack.value.0 == key then Some(vs[0].ack.value.1)
    else FirstAck(vs[1..], key)
  }

  /** The bound in force, from the first header; no header is the old format. */
  function Bound(vs: seq<LineView>): Option<real> {
    if vs == [] then None else if vs[0].header.Some? then vs[0].header else Bound(vs[1..])
  }

  function Classify(ms: Option<real>, bound: real): Ack {
    match ms
    case None => Never
    case Some(v) => if v <= bound then Within(v) else Late(v)
  }

  /** One outcome, in whichever format the file is in. */
  function SettledAck(recorded: Ack, bound: Option<real>, ms: Option<real>): Ack {
    match bound
    case Some(b) => Classify(ms, b)
    case None => if recorded.Never? && ms.Some? then Late(ms.value) else recorded
  }

  function Settled(b: Block, vs: seq<LineView>): Block {
    b.(ack := SettledAck(b.ack, Bound(vs), FirstAck(vs, b.key)))
  }

  function SettledAll(bs: seq<Block>, vs: seq<LineView>): (r: seq<Block>)
    ensures |r| == |bs|
    ensures forall i :: 0 <= i < |bs| ==> r[i] == Settled(bs[i], vs)
  {
    seq(|bs|, i requires 0 <= i < |bs| => Settled(bs[i], vs))
  }

  /** What `parse_groups` returns for a file with these lines. */
  function Groups(vs: seq<LineView>): Result<seq<Block>, Error> {
    match Records(vs)
    case Err(e) => Err(e)
    case Ok(bs) => if bs == [] then Err(NoGroups) else Ok(SettledAll(bs, vs))
  }

  /* ---------- parse_groups ---------- */

  lemma {:induction false} ViewsSplit(a: seq<string>, b: seq<string>)
    ensures Views(a + b) == Views(a) + Views(b)
  {
  }

  lemma {:induction false} RecordsSplit(vs: seq<LineView>, more: seq<LineView>)
    ensures Records(vs + more) ==
              match Records(vs)
              case Err(e) => Err(e)
              case Ok(bs) => (match Records(more) case Err(e) => Err(e) case Ok(cs) => Ok(bs + cs))
  {
    if vs == [] {
      assert vs + more == more;
      assert forall cs: seq<Block> :: [] + cs == cs;
    } else {
      assert (vs + more)[1..] == vs[1..] + more && (vs + more)[0] == vs[0];
      RecordsSplit(vs[1..], more);
      if vs[0].rec.Rec? && Records(vs[1..]).Ok? && Records(more).Ok? {
        var bs, cs := Records(vs[1..]).value, Records(more).value;
        assert [vs[0].rec.block] + (bs + cs) == [vs[0].rec.block] + bs + cs;
      }
    }
  }

  lemma {:induction false} FirstAckSplit(vs: seq<LineView>, more: seq<LineView>, key: string)
    ensures FirstAck(vs + more, key) == if FirstAck(vs, key).Some? then FirstAck(vs, key) else FirstAck(more, key)
  {
    if vs == [] {
      assert vs + more == more;
    } else {
      assert (vs + more)[1..] == vs[1..] + more && (vs + more)[0] == vs[0];
      FirstAckSplit(vs[1..], more, key);
    }
  }

  lemma {:induction false} BoundSplit(vs: seq<LineView>, more: seq<LineView>)
    ensures Bound(vs + more) == if Bound(vs).Some? then Bound(vs) else Bound(more)
  {
    if vs == [] {
      assert vs + more == more;
    } else {
      assert (vs + more)[1..] == vs[1..] + more && (vs + more)[0] == vs[0];
      BoundSplit(vs[1..], more);
    }
  }

  /** `acks`: the first time each key is acknowledged. */
  ghost predicate HoldsFirstAcks(acks: map<string, real>, vs: seq<LineView>) {
    forall key :: FirstAck(vs, key) == if key in acks then Some(acks[key]) else None
  }

  method CollectAcks(vs: seq<LineView>) returns (acks: map<string, real>)
    ensures HoldsFirstAcks(acks, vs)
  {
    acks := map[];
    for i := 0 to |vs|
      invariant HoldsFirstAcks(acks, vs[..i])
    {
      var a := vs[i].ack;
      ghost var was := acks;
      if a.Some? && a.value.0 !in acks {
        acks := acks[a.value.0 := a.value.1];
      }
      forall key ensures FirstAck(vs[..i + 1], key) == if key in acks then Some(acks[key]) else None {
        assert vs[..i + 1] == vs[..i] + [vs[i]];
        FirstAckSplit(vs[..i], [vs[i]], key);
        assert FirstAck(vs[..i], key) == if key in was then Some(was[key]) else None;
        assert FirstAck([vs[i]], key) == if a.Some? && a.value.0 == key then Some(a.value.1) else FirstAck([], key);
      }
    }
    assert vs[..|vs|] == vs;
  }

  method ReadRecords(vs: seq<LineView>) returns (r: Result<seq<Block>, Error>)
    ensures r == Records(vs)
  {
    var out: seq<Block> := [];
    for i := 0 to |vs|
      invariant Records(vs[..i]) == Ok(out)
    {
      assert vs[..i + 1] == vs[..i] + [vs[i]] && vs == vs[..i + 1] + vs[i + 1..];
      RecordsSplit(vs[..i], [vs[i]]);
      RecordsSplit(vs[..i + 1], vs[i + 1..]);
      assert [vs[i]][1..] == [];
      match vs[i].rec {
        case Skip => assert out + [] == out;
        case Bad(e) => return Err(e);
        case Rec(b) => assert out + [b] == out + ([b] + []); out := out + [b];
      }
    }
    assert vs[..|vs|] == vs;
    r := Ok(out);
  }

  /** `parse_groups`, on the text of the file. */
  method ParseGroups(text: string) returns (r: Result<seq<Block>, Error>)
    ensures r == Groups(Views(Lines(text)))
  {
    var vs := Views(Lines(text));
    r := ReadRecords(vs);
    if r.Err? {
      return;
    }
    var out := r.value;
    if out == [] {
      return Err(NoGroups);
    }
    var acks := CollectAcks(vs);
    var bound := Bound(vs);
    ghost var records := out;
    for i := 0 to |out|
      invariant |out| == |records|
      invariant forall j :: 0 <= j < i ==> out[j] == Settled(records[j], vs)
      invariant forall j :: i <= j < |out| ==> out[j] == records[j]
    {
      var b := out[i];
      assert FirstAck(vs, b.key) == if b.key in acks then Some(acks[b.key]) else None;
      if bound.Some? {
        var ack := if b.key !in acks then Never
                   else if acks[b.key] <= bound.value then Within(acks[b.key])
                   else Late(acks[b.key]);
        out := out[i := b.(ack := ack)];
      } else if b.ack.Never? && b.key in acks {
        out := out[i := b.(ack := Late(acks[b.key]))];
      }
    }
    assert out == SettledAll(records, vs);
    r := Ok(out);
  }

  /* ---------- a line read back is the block that was written ---------- */

  /** What the writer can put on a line: 64-bit counts, a 128-bit time, a 16-byte seed, a word for a key. */
  ghost predicate Writable(b: Block) {
    && |b.seed| == 16 && IsWord(b.key)
    && b.gid < U64 && b.m < U64 && b.idx < U64 && b.size < U64 && b.tSend < U128
  }

  lemma {:induction false} HexRoundTrip(b: seq<byte>)
    ensures HexBytes(Hexify(b)) == Some(b)
  {
    if b != [] {
      var hi, lo := b[0] as int / 16, b[0] as int % 16;
      var s := Hexify(b);
      assert s[2..] == Hexify(b[1..]) && s[0] == HexDigit(hi) && s[1] == HexDigit(lo);
      assert HexVal(s[0]) == Some(hi) && HexVal(s[1]) == Some(lo);
      assert 16 * hi + lo == b[0] as int;
      HexRoundTrip(b[1..]);
      assert [b[0]] + b[1..] == b;
    }
  }

  lemma AckRoundTrip(a: Ack)
    ensures ParseAck(AckTag(a)) == Some(RoundedAck(a))
  {
    match a {
      case Within(ms) =>
        ParseFixed1(ms);
      case Late(ms) =>
        ParseFixed1(ms);
        assert AckTag(a)[0] == 'L' && AckTag(a)[1] == 'A';
        StripPrefixOf("LATE:", Fixed1(ms));
      case Never =>
    }
  }

  lemma AckTagIsWord(a: Ack)
    ensures IsWord(AckTag(a))
  {
    if !a.Never? {
      Fixed1IsWord(a.ms);
    }
    if a.Late? {
      var tag, number := AckTag(a), Fixed1(a.ms);
      assert tag == "LATE:" + number;
      forall i | 0 <= i < |tag| ensures !IsWhite(tag[i]) {
        assert i >= 5 ==> tag[i] == number[i - 5];
      }
    }
  }

  lemma FieldsAreWords(b: Block)
    requires |b.seed| > 0 && IsWord(b.key)
    ensures forall w :: w in Fields(b) ==> IsWord(w)
  {
    DecimalIsWord(b.gid);
    DecimalIsWord(b.m);
    DecimalIsWord(b.idx);
    DecimalIsWord(b.tSend);
    DecimalIsWord(b.size);
    AckTagIsWord(b.ack);
  }

  lemma SeedRead(seed: seq<byte>)
    requires |seed| == 16
    ensures Unhexify(Hexify(seed)) == Some(seed)
  {
    HexRoundTrip(seed);
  }

  lemma FieldsRead(b: Block)
    requires Writable(b)
    ensures ParseRecord(Fields(b)) == Rec(b.(ack := RoundedAck(b.ack)))
  {
    SeedRead(b.seed);
    ParseDecimal(b.gid, U64);
    ParseDecimal(b.m, U64);
    ParseDecimal(b.idx, U64);
    ParseDecimal(b.size, U64);
    ParseDecimal(b.tSend, U128);
    AckRoundTrip(b.ack);
    assert "data"[0] != "parity"[0];
    assert ParseArm(ArmTag(b.arm)) == Some(b.arm);
  }

  /**
   Whatever the block, what `Block::line` writes is read back as the same block, its
   acknowledgement rounded to the one decimal the line carries.
   */
  lemma LineRoundTrip(b: Block)
    requires Writable(b)
    ensures IsLine(BlockLine(b))
    ensures Words(BlockLine(b)) == Fields(b)
    ensures View(BlockLine(b)) == LineView(Rec(b.(ack := RoundedAck(b.ack))), None, None)
  {
    FieldsAreWords(b);
    JoinIsLine(Fields(b));
    WordsOfJoin(Fields(b));
    FieldsRead(b);
    assert Fields(b)[0] == "GROUP" && "GROUP" != "ACK";
    assert BlockLine(b)[0] == 'G';
    assert !(HEADER <= BlockLine(b));
  }
}
