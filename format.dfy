/** Text building blocks the report and PC.toString rely on: repeated
    characters, java.util.Formatter's right-justified `%Ns` / `%Nd`
    conversions (`%Nd` with the ASCII digits 0-9), and Java's decimal
    rendering of an `int`. */
module Format {

  function Max(a: int, b: int): int
  {
    if a < b then b else a
  }

  /** `n` copies of the character `c`. */
  function Repeat(c: char, n: nat): (r: string)
    ensures |r| == n
  {
    seq(n, _ => c)
  }

  /** Every character of `Repeat(c, n)` is `c`. */
  lemma RepeatChars(c: char, n: nat)
    ensures forall i | 0 <= i < n :: Repeat(c, n)[i] == c
  {
  }

  /** One more copy appended at the end. */
  lemma RepeatSnoc(c: char, n: nat)
    ensures Repeat(c, n) + [c] == Repeat(c, n + 1)
  {
  }

  /** A `%Ns` conversion: `s` right-justified in a cell of width `w`.
      Spaces are added on the left only when `s` is shorter than `w`;
      a longer `s` is never truncated. */
  function PadLeft(s: string, w: nat): (r: string)
    ensures |r| == Max(w, |s|)
  {
    if |s| >= w then s else Repeat(' ', w - |s|) + s
  }

  /** The padded cell ends with the whole of `s`. */
  lemma PadLeftKeepsText(s: string, w: nat)
    ensures var r := PadLeft(s, w);
      |s| <= |r| && r[|r| - |s|..] == s
  {
    if |s| < w {
      SliceRight(Repeat(' ', w - |s|), s, 0, |s|);
    }
  }

  /** Everything before `s` in the padded cell is a space. */
  lemma PadLeftFillsSpaces(s: string, w: nat)
    ensures var r := PadLeft(s, w);
      forall i | 0 <= i < |r| - |s| :: r[i] == ' '
  {
  }

  /** Padding a cell that is already full changes nothing: the cell is
      never cut down to the width. */
  lemma PadLeftNoTruncation(s: string, w: nat)
    requires w <= |s|
    ensures PadLeft(s, w) == s
  {
  }

  /** Padding is idempotent: a padded cell is already full. */
  lemma PadLeftIdempotent(s: string, w: nat)
    ensures PadLeft(PadLeft(s, w), w) == PadLeft(s, w)
  {
  }

  /** A slice inside the left operand of a concatenation. */
  lemma SliceLeft(p: string, q: string, i: nat, j: nat)
    requires i <= j <= |p|
    ensures (p + q)[i..j] == p[i..j]
  {
  }

  /** A slice inside the right operand of a concatenation. */
  lemma SliceRight(p: string, q: string, i: nat, j: nat)
    requires i <= j <= |q|
    ensures (p + q)[|p| + i..|p| + j] == q[i..j]
  {
  }

  /** When `t == pre + piece` begins `s`, `piece` sits in `s` right after
      `pre`. */
  lemma PieceOfPrefix(s: string, t: string, pre: string, piece: string)
    requires |t| <= |s| && s[..|t|] == t && t == pre + piece
    ensures |pre| + |piece| <= |s|
    ensures s[|pre|..|pre| + |piece|] == piece
  {
    assert s[|pre|..|pre| + |piece|] == (pre + piece)[|pre|..];
  }

  /** The end of a cell: when `r[a..b]` ends with `s`, so does `r[..b]`. */
  lemma CellEnd(r: string, a: nat, b: nat, s: string)
    requires a <= b <= |r| && |s| <= b - a
    requires r[a..b][b - a - |s|..] == s
    ensures r[b - |s|..b] == s
  {
  }

  /** The three operands of `a + b + c` at their places. */
  lemma ThreeParts(a: string, b: string, c: string)
    ensures (a + b + c)[..|a|] == a
    ensures (a + b + c)[|a|..|a| + |b|] == b
    ensures (a + b + c)[|a| + |b|..] == c
  {
    SliceLeft(a + b, c, 0, |a|);
    SliceLeft(a, b, 0, |a|);
    SliceLeft(a + b, c, |a|, |a| + |b|);
    SliceRight(a, b, 0, |b|);
  }

  /** A slice of the middle operand of `a + m + z`. */
  lemma PieceOfMiddle(a: string, m: string, z: string, i: nat, j: nat)
    requires i <= j <= |m|
    ensures (a + m + z)[|a| + i..|a| + j] == m[i..j]
  {
    SliceLeft(a + m, z, |a| + i, |a| + j);
    SliceRight(a, m, i, j);
  }

  lemma ConcatAssoc(a: string, b: string, c: string)
    ensures (a + b) + c == a + (b + c)
  {
  }

  predicate IsDigit(c: char)
  {
    '0' <= c <= '9'
  }

  predicate AllDigits(s: string)
  {
    forall i | 0 <= i < |s| :: IsDigit(s[i])
  }

  function DigitChar(d: nat): (c: char)
    requires d < 10
  {
    ('0' as int + d) as char
  }

  /** Decimal digits of `n`, most significant first, without leading zeros
      (the rendering `Integer.toString` uses for a non-negative int, with the
      ASCII digits 0-9). */
  function DecimalText(n: nat): (r: string)
    ensures 1 <= |r|
  {
    if n < 10 then [DigitChar(n)] else DecimalText(n / 10) + [DigitChar(n % 10)]
  }

  /** Only digits, and no leading zero unless `n` is zero. */
  lemma {:induction false} DecimalTextDigits(n: nat)
    ensures AllDigits(DecimalText(n))
    ensures DecimalText(n)[0] == '0' ==> n == 0
  {
    if n >= 10 {
      DecimalTextDigits(n / 10);
    }
  }

  /** The value a string of decimal digits denotes. */
  function ParseDecimal(s: string): nat
    requires AllDigits(s)
  {
    if s == [] then 0
    else ParseDecimal(s[..|s| - 1]) * 10 + (s[|s| - 1] as int - '0' as int)
  }

  /** Reading back the digits of `n` gives `n`. */
  lemma {:induction false} ParseDecimalText(n: nat)
    ensures AllDigits(DecimalText(n)) && ParseDecimal(DecimalText(n)) == n
  {
    var r := DecimalText(n);
    DecimalTextDigits(n);
    if n >= 10 {
      ParseDecimalText(n / 10);
      assert r[..|r| - 1] == DecimalText(n / 10);
    }
  }

  function Pow10(k: nat): (r: nat)
    ensures 1 <= r
  {
    if k == 0 then 1 else 10 * Pow10(k - 1)
  }

  /** A number below 10^k has at most k digits. */
  lemma {:induction false} DecimalTextLength(n: nat, k: nat)
    requires 1 <= k && n < Pow10(k)
    ensures |DecimalText(n)| <= k
  {
    if n >= 10 {
      assert k >= 2;
      DecimalTextLength(n / 10, k - 1);
    }
  }

  /** `Integer.toString(n)`: a minus sign before the digits of the
      magnitude when `n` is negative. */
  function IntText(n: int): (r: string)
    ensures 1 <= |r|
  {
    if n < 0 then "-" + DecimalText(-n) else DecimalText(n)
  }

  /** The value an optionally signed decimal string denotes. */
  function ParseInt(s: string): int
    requires 1 <= |s|
    requires AllDigits(if s[0] == '-' then s[1..] else s)
  {
    if s[0] == '-' then -(ParseDecimal(s[1..]) as int) else ParseDecimal(s)
  }

  /** Reading back `Integer.toString(n)` gives `n`. */
  lemma IntTextRoundTrip(n: int)
    ensures var r := IntText(n);
      AllDigits(if r[0] == '-' then r[1..] else r) && ParseInt(r) == n
  {
    var r := IntText(n);
    if n < 0 {
      assert r[1..] == DecimalText(-n);
      ParseDecimalText(-n);
    } else {
      ParseDecimalText(n);
      assert IsDigit(r[0]);
    }
  }

  /** The strings of `ss` joined end to end (what successive appends to a
      `StringBuffer` leave behind). */
  function Concat(ss: seq<string>): string
  {
    if ss == [] then "" else Concat(ss[..|ss| - 1]) + ss[|ss| - 1]
  }

  lemma ConcatSnoc(ss: seq<string>, i: nat)
    requires i < |ss|
    ensures Concat(ss[..i + 1]) == Concat(ss[..i]) + ss[i]
  {
    assert ss[..i + 1][..i] == ss[..i];
  }

  /** Joining a prefix of `ss` gives a prefix of the joined whole: later
      pieces never alter earlier ones. */
  lemma {:induction false} ConcatPrefix(ss: seq<string>, j: nat)
    requires j <= |ss|
    ensures |Concat(ss[..j])| <= |Concat(ss)|
    ensures Concat(ss)[..|Concat(ss[..j])|] == Concat(ss[..j])
    decreases |ss|
  {
    if j < |ss| {
      var init := ss[..|ss| - 1];
      assert init[..j] == ss[..j];
      ConcatPrefix(init, j);
      SliceLeft(Concat(init), ss[|ss| - 1], 0, |Concat(ss[..j])|);
    } else {
      assert ss[..j] == ss;
    }
  }

  /** Piece k of `ss` sits in the joined text right after the pieces before
      it. */
  lemma ConcatAt(ss: seq<string>, k: nat)
    requires k < |ss|
    ensures var b := |Concat(ss[..k])|;
      b + |ss[k]| <= |Concat(ss)| && Concat(ss)[b..b + |ss[k]|] == ss[k]
  {
    ConcatSnoc(ss, k);
    ConcatPrefix(ss, k + 1);
    PieceOfPrefix(Concat(ss), Concat(ss[..k + 1]), Concat(ss[..k]), ss[k]);
  }

  /** Piece k of `ss`, joined between a prefix `a` and a suffix `z`, sits
      right after `a` and the pieces before it. */
  lemma PieceOfJoined(a: string, ss: seq<string>, z: string, k: nat)
    requires k < |ss|
    ensures var start := |a| + |Concat(ss[..k])|;
      start + |ss[k]| <= |a + Concat(ss) + z| &&
      (a + Concat(ss) + z)[start..start + |ss[k]|] == ss[k]
  {
    ConcatAt(ss, k);
    PieceOfMiddle(a, Concat(ss), z, |Concat(ss[..k])|, |Concat(ss[..k])| + |ss[k]|);
  }

  /** Pieces all of length `w` join to a text of length `w` times their
      number. */
  lemma {:induction false} ConcatUniform(ss: seq<string>, w: nat)
    requires forall i | 0 <= i < |ss| :: |ss[i]| == w
    ensures |Concat(ss)| == w * |ss|
    decreases |ss|
  {
    if ss != [] {
      ConcatUniform(ss[..|ss| - 1], w);
    }
  }
}
