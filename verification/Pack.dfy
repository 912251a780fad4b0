/** The pack encoding of `src/pack.rs` and the exact sizing of the pack fixture in `src/kill9.rs`. */
module Pack {
  import opened Base
  import Arith
  import opened Sorting

  datatype Member = Member(kind: byte, body: seq<byte>)

  /** `PK01`. */
  const MAGIC: seq<byte> := [0x50, 0x4B, 0x30, 0x31]

  const U16: nat := 0x1_0000
  const U32: nat := 0x1_0000_0000

  function Pow256(w: nat): (p: nat)
    ensures p >= 1
  {
    if w == 0 then 1 else 256 * Pow256(w - 1)
  }

  /** `to_le_bytes` of the low `w` bytes of a number: what is above is cut off, as a cast does. */
  function LittleEndian(n: nat, w: nat): (b: seq<byte>)
    ensures |b| == w
  {
    if w == 0 then [] else [(n % 256) as byte] + LittleEndian(n / 256, w - 1)
  }

  function FromLittleEndian(b: seq<byte>): nat {
    if b == [] then 0 else b[0] as nat + 256 * FromLittleEndian(b[1..])
  }

  lemma {:induction false} LittleEndianRead(n: nat, w: nat)
    ensures FromLittleEndian(LittleEndian(n, w)) < Pow256(w)
    ensures n < Pow256(w) ==> FromLittleEndian(LittleEndian(n, w)) == n
  {
    if w > 0 {
      LittleEndianRead(n / 256, w - 1);
      var b := LittleEndian(n, w);
      assert b[1..] == LittleEndian(n / 256, w - 1);
      assert n == 256 * (n / 256) + n % 256;
    }
  }

  lemma Widths()
    ensures Pow256(2) == U16 && Pow256(4) == U32
  {
    assert Pow256(1) == 256 && Pow256(3) == 256 * Pow256(2);
  }

  /** The low byte comes first. */
  lemma LowFirst(n: nat)
    ensures LittleEndian(n, 2) == [(n % 256) as byte, (n / 256 % 256) as byte]
    ensures LittleEndian(n, 4) ==
              [(n % 256) as byte, (n / 256 % 256) as byte,
               (n / 256 / 256 % 256) as byte, (n / 256 / 256 / 256 % 256) as byte]
  {
    assert LittleEndian(n / 256 / 256 / 256 / 256, 0) == [];
    assert LittleEndian(n / 256, 1) == [(n / 256 % 256) as byte];
    assert LittleEndian(n / 256 / 256 / 256, 1) == [(n / 256 / 256 / 256 % 256) as byte];
    assert LittleEndian(n / 256 / 256, 2) == [(n / 256 / 256 % 256) as byte] + LittleEndian(n / 256 / 256 / 256, 1);
  }

  function Frame(m: Member): seq<byte> { [m.kind] + LittleEndian(|m.body|, 4) + m.body }

  function Frames(ms: seq<Member>): seq<byte> {
    if ms == [] then [] else Frame(ms[0]) + Frames(ms[1..])
  }

  /** A pack body, member for member, in the order given. */
  function WireBytes(ms: seq<Member>): seq<byte> { MAGIC + LittleEndian(|ms|, 2) + Frames(ms) }

  lemma {:induction false} FramesAppend(ms: seq<Member>, m: Member)
    ensures Frames(ms + [m]) == Frames(ms) + Frame(m)
  {
    if ms == [] {
      assert [m][1..] == [] && [] + [m] == [m];
    } else {
      FramesAppend(ms[1..], m);
      assert (ms + [m])[1..] == ms[1..] + [m];
      assert Frame(ms[0]) + (Frames(ms[1..]) + Frame(m)) == Frame(ms[0]) + Frames(ms[1..]) + Frame(m);
    }
  }

  method Wire(ms: seq<Member>) returns (out: seq<byte>)
    ensures out == WireBytes(ms)
    ensures |out| >= 6 && out[..4] == [0x50, 0x4B, 0x30, 0x31]
    ensures out[4] as nat == |ms| % 256 && out[5] as nat == |ms| / 256 % 256
  {
    LowFirst(|ms|);
    out := MAGIC;
    out := out + LittleEndian(|ms|, 2);
    ghost var head := out;
    for i := 0 to |ms|
      invariant out == head + Frames(ms[..i])
    {
      assert ms[..i + 1] == ms[..i] + [ms[i]];
      FramesAppend(ms[..i], ms[i]);
      out := out + [ms[i].kind];
      out := out + LittleEndian(|ms[i].body|, 4);
      out := out + ms[i].body;
      assert out == head + (Frames(ms[..i]) + Frame(ms[i]));
    }
    assert ms[..|ms|] == ms;
  }

  /* ---------- reading a pack back ---------- */

  /** Exactly `n` members and nothing after them. */
  function ReadMembers(b: seq<byte>, n: nat): Option<seq<Member>> {
    if n == 0 then (if b == [] then Some([]) else None)
    else if |b| < 5 then None
    else
      var len := FromLittleEndian(b[1..5]);
      if |b| < 5 + len then None
      else match ReadMembers(b[5 + len..], n - 1)
        case None => None
        case Some(rest) => Some([Member(b[0], b[5..5 + len])] + rest)
  }

  function ReadPack(b: seq<byte>): Option<seq<Member>> {
    if |b| < 6 || b[..4] != MAGIC then None
    else ReadMembers(b[6..], FromLittleEndian(b[4..6]))
  }

  ghost predicate Fits(ms: seq<Member>) {
    |ms| < U16 && forall i :: 0 <= i < |ms| ==> |ms[i].body| < U32
  }

  lemma {:induction false} MembersRoundTrip(ms: seq<Member>)
    requires forall i :: 0 <= i < |ms| ==> |ms[i].body| < U32
    ensures ReadMembers(Frames(ms), |ms|) == Some(ms)
  {
    if ms != [] {
      var m := ms[0];
      var b := Frames(ms);
      var rest := Frames(ms[1..]);
      LittleEndianRead(|m.body|, 4);
      Widths();
      assert b == [m.kind] + LittleEndian(|m.body|, 4) + m.body + rest;
      assert b[1..5] == LittleEndian(|m.body|, 4);
      assert b[5..5 + |m.body|] == m.body;
      assert b[5 + |m.body|..] == rest;
      MembersRoundTrip(ms[1..]);
      assert [Member(b[0], m.body)] + ms[1..] == ms;
    }
  }

  lemma {:induction false} ReadMembersFit(b: seq<byte>, n: nat)
    requires ReadMembers(b, n).Some?
    ensures |ReadMembers(b, n).value| == n
    ensures forall i :: 0 <= i < n ==> |ReadMembers(b, n).value[i].body| < U32
  {
    if n > 0 {
      var len := FromLittleEndian(b[1..5]);
      FourBytes(b[1..5]);
      ReadMembersFit(b[5 + len..], n - 1);
    }
  }

  lemma FourBytes(b: seq<byte>)
    requires |b| == 4
    ensures FromLittleEndian(b) < U32
  {
    Bounded(b);
    Widths();
  }

  lemma {:induction false} Bounded(b: seq<byte>)
    ensures FromLittleEndian(b) < Pow256(|b|)
  {
    if b != [] {
      Bounded(b[1..]);
    }
  }

  /** A pack reads back as its members exactly when count and lengths fit their fields. */
  lemma {:induction false} PackRoundTripIff(ms: seq<Member>)
    ensures ReadPack(WireBytes(ms)) == Some(ms) <==> Fits(ms)
  {
    var b := WireBytes(ms);
    Widths();
    assert b[..4] == MAGIC && b[4..6] == LittleEndian(|ms|, 2) && b[6..] == Frames(ms);
    LittleEndianRead(|ms|, 2);
    if Fits(ms) {
      MembersRoundTrip(ms);
    } else if ReadPack(b) == Some(ms) {
      ReadMembersFit(b[6..], FromLittleEndian(b[4..6]));
    }
  }

  /* ---------- canonical order ---------- */

  /** Members in ascending order of their own block id. */
  function Ordered(ms: seq<Member>, blockId: Member -> real): seq<Member> { Sort(ms, blockId) }

  /** A block state: its kind and its body. */
  function Encode(kind: byte, body: seq<byte>): seq<byte> { [kind] + body }

  function Packed(kind: byte, ms: seq<Member>, blockId: Member -> real): seq<byte> {
    Encode(kind, WireBytes(Ordered(ms, blockId)))
  }

  lemma {:induction false} FitsReordered(ms: seq<Member>, ns: seq<Member>)
    requires multiset(ms) == multiset(ns) && Fits(ms)
    ensures Fits(ns)
  {
    assert |ms| == |multiset(ms)| == |multiset(ns)| == |ns|;
    forall i | 0 <= i < |ns| ensures |ns[i].body| < U32 {
      assert ns[i] in multiset(ms);
    }
  }

  /**
   Two lists pack to the same bytes exactly when they hold the same members: the order they are
   given in never matters, and nothing else is lost.
   */
  lemma {:induction false} SamePackIffSameMembers(kind: byte, a: seq<Member>, b: seq<Member>, blockId: Member -> real)
    requires Fits(a) && Fits(b) && RankInjective(a, blockId)
    ensures Packed(kind, a, blockId) == Packed(kind, b, blockId) <==> multiset(a) == multiset(b)
  {
    if multiset(a) == multiset(b) {
      SortIgnoresOrder(a, b, blockId);
    }
    if Packed(kind, a, blockId) == Packed(kind, b, blockId) {
      var x, y := Ordered(a, blockId), Ordered(b, blockId);
      assert Packed(kind, a, blockId)[1..] == WireBytes(x);
      assert Packed(kind, b, blockId)[1..] == WireBytes(y);
      SortSorts(a, blockId);
      SortSorts(b, blockId);
      FitsReordered(a, x);
      FitsReordered(b, y);
      PackRoundTripIff(x);
      PackRoundTripIff(y);
    }
  }

  /* ---------- the fixture's sizing ---------- */

  const MEMBER: nat := 65536
  const PACK_HEADER: nat := 6
  const PER_MEMBER: nat := 5

  function Minus(a: nat, b: nat): nat { if a >= b then a - b else 0 }

  function CeilDiv(a: nat, b: nat): nat
    requires b > 0
  {
    (a + b - 1) / b
  }

  function BodyCap(target: nat, maxPack: nat): nat {
    var body := Minus(target, 1);
    if body < maxPack then body else maxPack
  }

  function MemberCount(cap: nat): (n: nat)
    ensures n >= 1
  {
    var n := CeilDiv(Minus(cap, PACK_HEADER), MEMBER + PER_MEMBER);
    if n >= 1 then n else 1
  }

  function Sum(ns: seq<nat>): nat { if ns == [] then 0 else Sum(ns[..|ns| - 1]) + ns[|ns| - 1] }

  /** `make_pack` up to the random bytes: the member lengths, or no room. */
  method MemberLengths(target: nat, maxPack: nat) returns (r: Option<seq<nat>>)
    ensures r.Some? <==> target >= 12 && maxPack >= 11
    ensures r.Some? ==>
              var cap, ns := if target - 1 < maxPack then target - 1 else maxPack, r.value;
              && |ns| == (cap - 6 + 65540) / 65541
              && 6 + 5 * |ns| + Sum(ns) == cap
              && (forall i :: 0 <= i < |ns| - 1 ==> ns[i] <= 65536 && ns[i] == (cap - 6 - 5 * |ns|) / |ns|)
              && ns[|ns| - 1] < 65536 + |ns|
  {
    var cap := BodyCap(target, maxPack);
    var count := MemberCount(cap);
    RoomIff(cap);
    if cap < PACK_HEADER + count * PER_MEMBER {
      return None;
    }
    var avail := cap - (PACK_HEADER + count * PER_MEMBER);
    var each := avail / count;
    EachIsSmall(cap);
    var ns: seq<nat> := [];
    assert each * (count - 1) <= avail by { Shares(avail, count); }
    for i := 0 to count
      invariant |ns| == i
      invariant forall j :: 0 <= j < i && j + 1 < count ==> ns[j] == each
      invariant Sum(ns) == if i < count then each * i else avail
      invariant i == count ==> ns[count - 1] == avail - each * (count - 1)
    {
      var len := if i + 1 == count then avail - each * (count - 1) else each;
      assert (ns + [len])[..i] == ns;
      assert each * (i + 1) == each * i + each;
      ns := ns + [len];
    }
    Shares(avail, count);
    r := Some(ns);
  }

  /** An even share goes round, and what is left over is less than one each. */
  lemma Shares(avail: nat, count: nat)
    requires count > 0
    ensures (avail / count) * (count - 1) <= avail
    ensures avail - (avail / count) * (count - 1) == avail / count + avail % count
  {
    var each := avail / count;
    assert avail == count * each + avail % count;
    assert each * (count - 1) == count * each - each;
  }

  lemma RoomIff(cap: nat)
    ensures cap >= PACK_HEADER + MemberCount(cap) * PER_MEMBER <==> cap >= PACK_HEADER + PER_MEMBER
  {
    var room, unit := Minus(cap, PACK_HEADER), MEMBER + PER_MEMBER;
    var n := CeilDiv(room, unit);
    if n >= 2 {
      assert unit * n <= room + unit - 1;
    }
  }

  lemma EachIsSmall(cap: nat)
    requires cap >= PACK_HEADER + MemberCount(cap) * PER_MEMBER
    ensures (cap - (PACK_HEADER + MemberCount(cap) * PER_MEMBER)) / MemberCount(cap) <= MEMBER
  {
    var count := MemberCount(cap);
    var avail := cap - (PACK_HEADER + count * PER_MEMBER);
    var room, unit := Minus(cap, PACK_HEADER), MEMBER + PER_MEMBER;
    assert room + unit - 1 == unit * CeilDiv(room, unit) + (room + unit - 1) % unit;
    assert room <= unit * count;
    assert unit * count == MEMBER * count + PER_MEMBER * count;
    assert avail <= MEMBER * count;
    Arith.DivMonotone(avail, MEMBER * count, count);
    Arith.DivUnique(MEMBER * count, count, MEMBER, 0);
  }
}
