/**
 The text primitives the run files are written and read with: `lines`, `split_whitespace`,
 decimal and one-decimal formatting, and the matching parsers.

 Each formatter comes with the lemma that its parser gives the value back. What the standard
 library's parsers accept beyond that is written out where a file could hold it: one leading plus
 sign, a point without digits on one side, a carriage return before a line's end.
 */
module Text {
  import opened Base

  /* ---------- digits and decimal numbers ---------- */

  predicate IsDigit(c: char) { '0' <= c <= '9' }

  function DigitChar(d: nat): (c: char)
    requires d < 10
    ensures IsDigit(c) && DigitVal(c) == d
  {
    '0' + (d as char)
  }

  function DigitVal(c: char): (d: nat)
    requires IsDigit(c)
    ensures d < 10
  {
    (c - '0') as int
  }

  predicate AllDigits(s: string) { forall i :: 0 <= i < |s| ==> IsDigit(s[i]) }

  function DigitsValue(s: string): nat
    requires AllDigits(s)
  {
    if s == [] then 0 else DigitsValue(s[..|s| - 1]) * 10 + DigitVal(s[|s| - 1])
  }

  /** `format!("{n}")` for an unsigned integer. */
  function Decimal(n: nat): (s: string)
    ensures |s| > 0 && AllDigits(s)
  {
    if n < 10 then [DigitChar(n)] else Decimal(n / 10) + [DigitChar(n % 10)]
  }

  lemma {:induction false} DecimalValue(n: nat)
    ensures DigitsValue(Decimal(n)) == n
  {
    if n >= 10 {
      DecimalValue(n / 10);
      var s := Decimal(n);
      assert s[..|s| - 1] == Decimal(n / 10);
    }
  }

  /** The bounds of the unsigned types that files are parsed into. */
  const U64: nat := 0x1_0000_0000_0000_0000
  const U128: nat := U64 * U64

  /** `str::parse` of an unsigned type holding values below `bound`: one leading `+` is accepted. */
  function ParseUnsigned(s: string, bound: nat): Option<nat> {
    var t := if |s| > 0 && s[0] == '+' then s[1..] else s;
    if t == [] || !AllDigits(t) then None
    else if DigitsValue(t) < bound then Some(DigitsValue(t))
    else None
  }

  lemma ParseDecimal(n: nat, bound: nat)
    ensures ParseUnsigned(Decimal(n), bound) == if n < bound then Some(n) else None
  {
    DecimalValue(n);
    assert IsDigit(Decimal(n)[0]);
  }

  /* ---------- decimal fractions ---------- */

  function Pow10(n: nat): (p: int)
    ensures p >= 1
  {
    if n == 0 then 1 else 10 * Pow10(n - 1)
  }

  /** Everything before the first `c`; the whole string when there is none. */
  function Before(s: string, c: char): (n: nat)
    ensures n <= |s|
    ensures forall i :: 0 <= i < n ==> s[i] != c
    ensures n < |s| ==> s[n] == c
  {
    if s == [] || s[0] == c then 0 else 1 + Before(s[1..], c)
  }

  function ParseMagnitude(s: string): Option<real> {
    var dot := Before(s, '.');
    var whole, part := s[..dot], if dot < |s| then s[dot + 1..] else "";
    if !AllDigits(whole) || !AllDigits(part) || |whole| + |part| == 0 then None
    else Some(DigitsValue(whole) as real + DigitsValue(part) as real / Pow10(|part|) as real)
  }

  /** `str::parse::<f64>` on decimal fractions; exponents, `inf` and `nan` are not part of this model. */
  function ParseReal(s: string): Option<real> {
    if |s| > 0 && s[0] == '+' then ParseMagnitude(s[1..])
    else if |s| > 0 && s[0] == '-' then
      match ParseMagnitude(s[1..])
      case None => None
      case Some(v) => Some(-v)
    else ParseMagnitude(s)
  }

  /** The number of tenths `{:.1}` prints for a magnitude: nearest, ties to even. */
  function Tenths(x: real): (t: nat)
    requires x >= 0.0
    ensures -0.5 <= 10.0 * x - t as real <= 0.5
  {
    var f := (10.0 * x).Floor;
    var rest := 10.0 * x - f as real;
    if rest < 0.5 || (rest == 0.5 && f % 2 == 0) then f else f + 1
  }

  function Magnitude1(t: nat): string {
    Decimal(t / 10) + "." + [DigitChar(t % 10)]
  }

  /** `format!("{x:.1}")`. */
  function Fixed1(x: real): string {
    if x < 0.0 then "-" + Magnitude1(Tenths(-x)) else Magnitude1(Tenths(x))
  }

  /** The value a reader gets back from `{x:.1}`. */
  function Rounded(x: real): real {
    if x < 0.0 then -(Tenths(-x) as real / 10.0) else Tenths(x) as real / 10.0
  }

  lemma BeforeIs(a: string, c: char, b: string)
    requires c !in a
    ensures Before(a + [c] + b, c) == |a|
  {
    var s := a + [c] + b;
    assert s[|a|] == c;
    assert forall i :: 0 <= i < |a| ==> s[i] == a[i];
  }

  lemma ParseMagnitude1(t: nat)
    ensures ParseMagnitude(Magnitude1(t)) == Some(t as real / 10.0)
  {
    var whole, part := Decimal(t / 10), [DigitChar(t % 10)];
    var s := whole + "." + part;
    assert Magnitude1(t) == s;
    assert '.' !in whole;
    BeforeIs(whole, '.', part);
    assert s[..|whole|] == whole && s[|whole| + 1..] == part;
    DecimalValue(t / 10);
    assert part[..0] == [];
    assert DigitsValue(part) == t % 10;
    assert Pow10(1) == 10 by { assert Pow10(0) == 1; }
    assert t == 10 * (t / 10) + t % 10;
  }

  lemma ParseFixed1(x: real)
    ensures ParseReal(Fixed1(x)) == Some(Rounded(x))
  {
    if x < 0.0 {
      ParseMagnitude1(Tenths(-x));
      assert Fixed1(x)[1..] == Magnitude1(Tenths(-x));
    } else {
      var s := Magnitude1(Tenths(x));
      ParseMagnitude1(Tenths(x));
      assert IsDigit(s[0]) by { assert s[0] == Decimal(Tenths(x) / 10)[0]; }
    }
  }

  lemma {:induction false} ParseMagnitudeDecimal(s: string)
    requires AllDigits(s) && s != ""
    ensures ParseMagnitude(s) == Some(DigitsValue(s) as real)
  {
    assert '.' !in s;
    assert s[..|s|] == s;
    assert Pow10(0) == 1 && DigitsValue("") == 0;
  }

  lemma ParseRealDecimal(n: nat)
    ensures ParseReal(Decimal(n)) == Some(n as real)
  {
    var s := Decimal(n);
    DecimalValue(n);
    assert IsDigit(s[0]);
    ParseMagnitudeDecimal(s);
  }

  /* ---------- white space ---------- */

  /** Unicode `White_Space`, the class `char::is_whitespace` tests. */
  predicate IsWhite(c: char) {
    '\U{0009}' <= c <= '\U{000D}' || c == ' ' || c == '\U{0085}' || c == '\U{00A0}' || c == '\U{1680}'
    || '\U{2000}' <= c <= '\U{200A}' || c == '\U{2028}' || c == '\U{2029}' || c == '\U{202F}'
    || c == '\U{205F}' || c == '\U{3000}'
  }

  /** A non-empty run of non-white characters: what `split_whitespace` yields. */
  predicate IsWord(s: string) {
    |s| > 0 && forall i :: 0 <= i < |s| ==> !IsWhite(s[i])
  }

  function WordEnd(s: string): (n: nat)
    ensures n <= |s|
    ensures forall i :: 0 <= i < n ==> !IsWhite(s[i])
    ensures n < |s| ==> IsWhite(s[n])
  {
    if s == [] || IsWhite(s[0]) then 0 else 1 + WordEnd(s[1..])
  }

  function Words(s: string): (ws: seq<string>)
    ensures forall w :: w in ws ==> IsWord(w)
    decreases |s|
  {
    if s == [] then []
    else if IsWhite(s[0]) then Words(s[1..])
    else [s[..WordEnd(s)]] + Words(s[WordEnd(s)..])
  }

  function Join(ws: seq<string>): string {
    if ws == [] then "" else if |ws| == 1 then ws[0] else ws[0] + " " + Join(ws[1..])
  }

  lemma {:induction false} WordsOfJoin(ws: seq<string>)
    requires forall w :: w in ws ==> IsWord(w)
    ensures Words(Join(ws)) == ws
  {
    if ws != [] {
      var rest := if |ws| == 1 then "" else " " + Join(ws[1..]);
      var s := ws[0] + rest;
      assert Join(ws) == s;
      assert IsWord(ws[0]);
      assert forall i :: 0 <= i < |ws[0]| ==> s[i] == ws[0][i];
      assert rest != "" ==> s[|ws[0]|] == ' ';
      assert WordEnd(s) == |ws[0]|;
      assert s[..|ws[0]|] == ws[0] && s[|ws[0]|..] == rest;
      WordsOfJoin(ws[1..]);
      if |ws| == 1 {
        assert ws[1..] == [];
      } else {
        assert rest[1..] == Join(ws[1..]);
      }
      assert ws == [ws[0]] + ws[1..];
    }
  }

  /** `str::trim`. */
  function Trim(s: string): string
    decreases |s|
  {
    if s == [] then ""
    else if IsWhite(s[0]) then Trim(s[1..])
    else if IsWhite(s[|s| - 1]) then Trim(s[..|s| - 1])
    else s
  }

  /** `strip_prefix`. */
  function StripPrefix(s: string, prefix: string): Option<string> {
    if prefix <= s then Some(s[|prefix|..]) else None
  }

  lemma StripPrefixOf(prefix: string, s: string)
    ensures StripPrefix(prefix + s, prefix) == Some(s)
  {
    assert (prefix + s)[|prefix|..] == s;
  }

  /* ---------- lines ---------- */

  function StripCr(s: string): string {
    if |s| > 0 && s[|s| - 1] == '\r' then s[..|s| - 1] else s
  }

  /** `str::lines`: the final terminator is optional, and `\r\n` counts as one. */
  function Lines(s: string): seq<string>
    decreases |s|
  {
    if s == [] then []
    else
      var n := Before(s, '\n');
      if n == |s| then [s] else [StripCr(s[..n])] + Lines(s[n + 1..])
  }

  /** The text `writeln!` produces for these lines. */
  function Unlines(ls: seq<string>): string {
    if ls == [] then "" else ls[0] + "\n" + Unlines(ls[1..])
  }

  predicate IsLine(s: string) {
    '\n' !in s && (|s| > 0 ==> s[|s| - 1] != '\r')
  }

  /** Reading takes one terminated line off the front. */
  lemma LinesOfOne(l: string, rest: string)
    requires IsLine(l)
    ensures Lines(l + "\n" + rest) == [l] + Lines(rest)
  {
    var s := l + "\n" + rest;
    BeforeIs(l, '\n', rest);
    assert s[..|l|] == l && s[|l| + 1..] == rest;
  }

  lemma {:induction false} LinesOfUnlines(ls: seq<string>)
    requires forall l :: l in ls ==> IsLine(l)
    ensures Lines(Unlines(ls)) == ls
  {
    if ls != [] {
      assert ls[0] in ls;
      LinesOfOne(ls[0], Unlines(ls[1..]));
      LinesOfUnlines(ls[1..]);
    }
  }

  /** Words joined by single spaces make one line. */
  lemma {:induction false} JoinIsLine(ws: seq<string>)
    requires forall w :: w in ws ==> IsWord(w)
    ensures IsLine(Join(ws))
  {
    if ws != [] {
      assert IsWord(ws[0]);
      if |ws| > 1 {
        JoinIsLine(ws[1..]);
        assert IsWord(ws[1]);
        var s := Join(ws);
        var rest := Join(ws[1..]);
        assert s == ws[0] + " " + rest;
        assert s[|s| - 1] == rest[|rest| - 1];
        assert '\n' !in ws[0];
      }
    }
  }

  lemma {:induction false} DecimalIsWord(n: nat)
    ensures IsWord(Decimal(n))
  {
    var s := Decimal(n);
    forall i | 0 <= i < |s| ensures !IsWhite(s[i]) { assert IsDigit(s[i]); }
  }

  lemma Fixed1IsWord(x: real)
    ensures IsWord(Fixed1(x))
  {
    var t := if x < 0.0 then Tenths(-x) else Tenths(x);
    DecimalIsWord(t / 10);
    var s := Magnitude1(t);
    forall i | 0 <= i < |s| ensures !IsWhite(s[i]) {
      assert s[i] in Decimal(t / 10) || s[i] == '.' || s[i] == DigitChar(t % 10);
    }
  }

  /* ---------- text cut short ---------- */

  lemma {:induction false} LinesOfCut(ls: seq<string>, piece: string)
    requires (forall l :: l in ls ==> IsLine(l)) && '\n' !in piece
    ensures Lines(Unlines(ls) + piece) == ls + if piece == "" then [] else [piece]
  {
    if ls == [] {
      assert Unlines(ls) + piece == piece;
      if piece != "" {
        NotBefore(piece, '\n');
      }
    } else {
      assert ls[0] in ls;
      assert Unlines(ls) + piece == ls[0] + "\n" + (Unlines(ls[1..]) + piece);
      LinesOfOne(ls[0], Unlines(ls[1..]) + piece);
      LinesOfCut(ls[1..], piece);
    }
  }

  lemma NotBefore(s: string, c: char)
    requires c !in s
    ensures Before(s, c) == |s|
  {
  }

  /** The beginning of a file is some of its lines and a piece of the next. */
  lemma {:induction false} CutIsAPiece(ls: seq<string>, p: string) returns (j: nat, piece: string)
    requires p <= Unlines(ls)
    ensures j <= |ls| && p == Unlines(ls[..j]) + piece
    ensures if j < |ls| then piece <= ls[j] else piece == ""
  {
    if ls == [] || |p| <= |ls[0]| {
      j, piece := 0, p;
      assert ls != [] ==> Unlines(ls)[..|p|] == ls[0][..|p|];
      assert Unlines(ls[..0]) + p == p;
    } else {
      var n, rest := |ls[0]| + 1, Unlines(ls[1..]);
      assert Unlines(ls) == ls[0] + "\n" + rest;
      assert p[..n] == Unlines(ls)[..n] == ls[0] + "\n";
      assert p[n..] == Unlines(ls)[n..|p|] == rest[..|p| - n];
      var i;
      i, piece := CutIsAPiece(ls[1..], p[n..]);
      j := i + 1;
      assert ls[..j][0] == ls[0] && ls[..j][1..] == ls[1..][..i];
      assert p == p[..n] + p[n..];
      assert ls[0] + "\n" + (Unlines(ls[1..][..i]) + piece) == ls[0] + "\n" + Unlines(ls[1..][..i]) + piece;
    }
  }

  function CutWords(ws: seq<string>, m: nat): seq<string> {
    if ws == [] || m == 0 then []
    else if m <= |ws[0]| then [ws[0][..m]]
    else [ws[0]] + CutWords(ws[1..], m - |ws[0]| - 1)
  }

  lemma {:induction false} WordsOfCut(ws: seq<string>, m: nat)
    requires (forall w :: w in ws ==> IsWord(w)) && m <= |Join(ws)|
    ensures Words(Join(ws)[..m]) == CutWords(ws, m)
    decreases |ws|
  {
    var s := Join(ws)[..m];
    if ws != [] && m > 0 {
      assert IsWord(ws[0]);
      if m <= |ws[0]| {
        assert s == ws[0][..m] && WordEnd(s) == m;
        assert s[..m] == s && s[m..] == "" && Words("") == [];
      } else {
        var n, rest := |ws[0]|, Join(ws[1..]);
        assert Join(ws) == ws[0] + " " + rest;
        assert s == ws[0] + " " + rest[..m - n - 1];
        assert s[n] == ' ' && WordEnd(s) == n;
        assert s[..n] == ws[0] && s[n..][1..] == rest[..m - n - 1];
        WordsOfCut(ws[1..], m - n - 1);
      }
    }
  }

  /** Where the last word starts. */
  function LastStart(ws: seq<string>): int
    requires ws != []
  {
    |Join(ws)| - |ws[|ws| - 1]|
  }

  /** Up to where its last word starts a line has fewer words; past it, all of them, the last one cut. */
  lemma {:induction false} CutAtLast(ws: seq<string>, m: nat)
    requires ws != [] && m <= |Join(ws)|
    ensures 0 <= LastStart(ws)
    ensures m <= LastStart(ws) ==> |CutWords(ws, m)| < |ws|
    ensures m > LastStart(ws) ==>
              CutWords(ws, m) == ws[..|ws| - 1] + [ws[|ws| - 1][..m - LastStart(ws)]]
    decreases |ws|
  {
    if |ws| == 1 {
      assert ws[..0] == [];
    } else {
      var n, rest := |ws[0]|, ws[1..];
      assert |Join(ws)| == n + 1 + |Join(rest)|;
      assert LastStart(ws) == n + 1 + LastStart(rest);
      CutAtLast(rest, if m > n then m - n - 1 else 0);
      assert ws[..|ws| - 1] == [ws[0]] + rest[..|rest| - 1];
    }
  }

  lemma {:induction false} PrefixIsLess(s: string, n: nat)
    requires AllDigits(s) && n <= |s|
    ensures DigitsValue(s[..n]) <= DigitsValue(s)
  {
    if n == |s| {
      assert s[..n] == s;
    } else {
      PrefixIsLess(s[..|s| - 1], n);
      assert s[..|s| - 1][..n] == s[..n];
    }
  }
}
