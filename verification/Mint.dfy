/**
 Blocks made from seeds: the body stream of `src/xnode.rs`, the mint file the put role is driven
 by, and the re-mint `src/parity.rs` does from a line of its log.
 */
module Mint {
  import opened Base
  import opened Text
  import opened GroupLog
  import Pack
  import PairingLines
  import PutRole

  // The hash and the key derivation are parameters; a state is the kind byte followed by the body.

  type Hash = seq<byte> -> seq<byte>

  const DIGEST: nat := 32

  ghost predicate IsHash(h: Hash) { forall x :: |h(x)| == DIGEST }

  /** One digest of the stream: the seed and a 64-bit counter. */
  function Digest(h: Hash, seed: seq<byte>, counter: nat): (d: seq<byte>)
    requires IsHash(h)
    ensures |d| == DIGEST
  {
    h(seed + Pack.LittleEndian(counter, 8))
  }

  function StreamByte(h: Hash, seed: seq<byte>, i: nat): byte
    requires IsHash(h)
  {
    Digest(h, seed, i / DIGEST)[i % DIGEST]
  }

  /** `body_from_seed`: the first `size` bytes of the stream. */
  function Body(h: Hash, seed: seq<byte>, size: nat): (b: seq<byte>)
    requires IsHash(h)
    ensures |b| == size && forall i :: 0 <= i < size ==> b[i] == StreamByte(h, seed, i)
  {
    seq(size, i requires 0 <= i < size => StreamByte(h, seed, i))
  }

  method BodyFromSeed(h: Hash, seed: seq<byte>, size: nat) returns (out: seq<byte>)
    requires IsHash(h)
    ensures out == Body(h, seed, size)
    ensures |out| == size
    ensures forall i :: 0 <= i < size ==> out[i] == h(seed + Pack.LittleEndian(i / 32, 8))[i % 32]
  {
    out := [];
    var counter := 0;
    while |out| < size
      invariant |out| == DIGEST * counter < size + DIGEST
      invariant forall i :: 0 <= i < |out| ==> out[i] == StreamByte(h, seed, i)
    {
      var d := Digest(h, seed, counter);
      forall i | |out| <= i < |out| + DIGEST ensures (out + d)[i] == StreamByte(h, seed, i) {}
      out := out + d;
      counter := counter + 1;
    }
    out := out[..size];
  }

  function StateOf(h: Hash, kind: byte, seed: seq<byte>, size: nat): (s: seq<byte>)
    requires IsHash(h)
    ensures |s| == size + 1
  {
    [kind] + Body(h, seed, size)
  }

  /** How a state names its block: the code is fixed, the parameters are the state's hash. */
  type KeyOf = seq<byte> -> string

  function KeyFrom(h: Hash, keyOf: KeyOf, kind: byte, seed: seq<byte>, size: nat): string
    requires IsHash(h)
  {
    keyOf(h(StateOf(h, kind, seed, size)))
  }

  /* ---------- re-minting from the log ---------- */

  /** `size.saturating_sub(1)`. */
  function BodySize(size: nat): nat { if size == 0 then 0 else size - 1 }

  /** What `reput` checks of each stuck block before it puts it again. */
  predicate RebuildsItsKey(h: Hash, keyOf: KeyOf, kind: byte, b: Block)
    requires IsHash(h)
  {
    KeyFrom(h, keyOf, kind, b.seed, BodySize(b.size)) == b.key
  }

  /**
   Whatever block the writer minted and logged, the seed and size read back from its line rebuild
   the identical state, and so the identical key: the check in `reput` passes.
   */
  lemma ReMintIsTheSameBlock(h: Hash, keyOf: KeyOf, kind: byte, b: Block, size: nat)
    requires IsHash(h) && Writable(b)
    requires b.key == KeyFrom(h, keyOf, kind, b.seed, size) && b.size == |StateOf(h, kind, b.seed, size)|
    ensures View(BlockLine(b)).rec.Rec?
    ensures var read := View(BlockLine(b)).rec.block;
            && StateOf(h, kind, read.seed, BodySize(read.size)) == StateOf(h, kind, b.seed, size)
            && read.key == b.key && RebuildsItsKey(h, keyOf, kind, read)
  {
    LineRoundTrip(b);
  }

  /* ---------- the mint file ---------- */

  datatype Minted = Minted(key: string, size: nat, seed: seq<byte>, arm: PutRole.Arm)

  function ArmAt(arms: bool, n: nat): PutRole.Arm {
    if arms && n % 2 == 1 then PutRole.Hedge else PutRole.Control
  }

  /** `mint_only`: `samples` blocks of each size, the arms interleaved. `seeds(n)` is the n-th random seed. */
  method MintOnly(
    h: Hash, keyOf: KeyOf, kind: byte, samples: nat, sizes: seq<nat>, arms: bool, seeds: nat -> seq<byte>)
    returns (out: seq<Minted>)
    requires IsHash(h)
    ensures |out| == samples * |sizes|
    ensures forall n :: 0 <= n < |out| ==>
              && out[n].seed == seeds(n)
              && out[n].arm == (if arms && n % 2 == 1 then PutRole.Hedge else PutRole.Control)
              && out[n].key == keyOf(h([kind] + Body(h, seeds(n), out[n].size)))
    ensures forall i, k :: 0 <= i < |sizes| && 0 <= k < samples ==>
              0 <= At(samples, i, k) < |out| && out[At(samples, i, k)].size == sizes[i]
  {
    out := [];
    for i := 0 to |sizes|
      invariant |out| == samples * i
      invariant forall n :: 0 <= n < |out| ==>
                  && out[n].seed == seeds(n) && out[n].arm == ArmAt(arms, n)
                  && out[n].key == KeyFrom(h, keyOf, kind, seeds(n), out[n].size)
      invariant forall j, k :: 0 <= j < i && 0 <= k < samples ==>
                  0 <= At(samples, j, k) < |out| && out[At(samples, j, k)].size == sizes[j]
    {
      ghost var done := out;
      for k := 0 to samples
        invariant |out| == samples * i + k
        invariant done <= out
        invariant forall n :: 0 <= n < |out| ==>
                    && out[n].seed == seeds(n) && out[n].arm == ArmAt(arms, n)
                    && out[n].key == KeyFrom(h, keyOf, kind, seeds(n), out[n].size)
        invariant forall n :: samples * i <= n < |out| ==> out[n].size == sizes[i]
      {
        var n := |out|;
        out := out + [Minted(KeyFrom(h, keyOf, kind, seeds(n), sizes[i]), sizes[i], seeds(n), ArmAt(arms, n))];
      }
      assert samples * (i + 1) == samples * i + samples;
      forall k | 0 <= k < samples ensures At(samples, i, k) == samples * i + k {}
    }
  }

  /** Where the `k`-th block of the `i`-th size is. */
  function At(samples: nat, i: nat, k: nat): nat { samples * i + k }

  function CountHedge(ms: seq<Minted>): nat {
    if ms == [] then 0
    else CountHedge(ms[..|ms| - 1]) + (if ms[|ms| - 1].arm == PutRole.Hedge then 1 else 0)
  }

  /** Wherever a run stops, the two arms have had the same share of it, give or take one. */
  lemma {:induction false} ArmsShareEveryPrefix(ms: seq<Minted>)
    requires forall n :: 0 <= n < |ms| ==> ms[n].arm == if n % 2 == 1 then PutRole.Hedge else PutRole.Control
    ensures CountHedge(ms) == |ms| / 2
  {
    if ms != [] {
      ArmsShareEveryPrefix(ms[..|ms| - 1]);
    }
  }

  function MintFields(m: Minted): seq<string> {
    ["MINT", m.key, Decimal(m.size), Hexify(m.seed), PairingLines.ArmName(m.arm)]
  }

  /** What the put role takes from a line; a seed field too short to slice is a panic, an error here. */
  datatype PlanLine = NotMint | ShortSeed | Planned(seed: seq<byte>, size: nat, arm: PutRole.Arm)

  /** A pair of characters that is no byte is taken for zero. */
  function SeedField(s: string): (seed: seq<byte>)
    requires |s| >= 32
    ensures |seed| == 16
  {
    seq(16, i requires 0 <= i < 16 => GetOr(HexPair(s[2 * i], s[2 * i + 1]), 0 as byte))
  }

  function ParseMint(f: seq<string>): PlanLine {
    if |f| < 4 || f[0] != "MINT" then NotMint
    else if |f[3]| < 32 then ShortSeed
    else Planned(
      SeedField(f[3]), GetOr(ParseUnsigned(f[2], U64), 0),
      if |f| > 4 && f[4] == "hedge" then PutRole.Hedge else PutRole.Control)
  }

  lemma {:induction false} HexPairsRead(s: string, seed: seq<byte>, i: nat)
    requires |s| % 2 == 0 && HexBytes(s) == Some(seed) && 2 * i < |s|
    ensures i < |seed| && HexPair(s[2 * i], s[2 * i + 1]) == Some(seed[i])
  {
    if i > 0 {
      HexPairsRead(s[2..], HexBytes(s[2..]).value, i - 1);
    }
  }

  lemma SeedFieldReads(seed: seq<byte>)
    requires |seed| == 16
    ensures SeedField(Hexify(seed)) == seed
  {
    HexRoundTrip(seed);
    forall i | 0 <= i < 16 ensures SeedField(Hexify(seed))[i] == seed[i] {
      HexPairsRead(Hexify(seed), seed, i);
    }
  }

  lemma MintFieldsAreWords(m: Minted)
    requires IsWord(m.key) && |m.seed| == 16
    ensures forall w :: w in MintFields(m) ==> IsWord(w)
  {
    DecimalIsWord(m.size);
    assert IsWord("MINT") && IsWord("hedge") && IsWord("control");
  }

  lemma MintLineWords(m: Minted)
    requires IsWord(m.key) && |m.seed| == 16
    ensures Words(Join(MintFields(m))) ==
              ["MINT", m.key, Decimal(m.size), Hexify(m.seed), if m.arm.Hedge? then "hedge" else "control"]
  {
    MintFieldsAreWords(m);
    WordsOfJoin(MintFields(m));
  }

  /**
   The put role plans exactly the block that was minted: from the line it reads the same seed, size
   and arm, so what it puts carries the key that was printed before anything was put.
   */
  lemma PlanIsWhatWasMinted(h: Hash, keyOf: KeyOf, kind: byte, m: Minted)
    requires IsHash(h) && IsWord(m.key) && |m.seed| == 16 && m.size < U64
    requires m.key == KeyFrom(h, keyOf, kind, m.seed, m.size)
    ensures var p := ParseMint(Words(Join(MintFields(m))));
            p == Planned(m.seed, m.size, m.arm) && KeyFrom(h, keyOf, kind, p.seed, p.size) == m.key
  {
    MintFieldsAreWords(m);
    WordsOfJoin(MintFields(m));
    ParseDecimal(m.size, U64);
    SeedFieldReads(m.seed);
    assert "control"[0] != "hedge"[0];
  }
}
