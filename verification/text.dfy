/**
 Character-level helpers shared by the serialisers: decimal rendering with
 Python's `d` format spec, whitespace stripping as `str.strip()` does it,
 single-character replacement as `str.replace` does it, and counting.
 */
module Text {

  datatype Option<T> = None | Some(value: T)

  function Pow10(k: nat): (r: nat)
    ensures r >= 1
  {
    if k == 0 then 1 else 10 * Pow10(k - 1)
  }

  // ---------------------------------------------------------------------------
  // Decimal digits

  predicate IsDigit(c: char) {
    '0' <= c <= '9'
  }

  predicate AllDigits(s: string) {
    forall i :: 0 <= i < |s| ==> IsDigit(s[i])
  }

  function DigitChar(d: nat): (c: char)
    requires d < 10
    ensures IsDigit(c) && (c as int) - ('0' as int) == d
  {
    ('0' as int + d) as char
  }

  /** `str(n)` for a natural number: shortest decimal form, no leading zero. */
  function Decimal(n: nat): (r: string)
    ensures 1 <= |r|
  {
    if n < 10 then [DigitChar(n)] else Decimal(n / 10) + [DigitChar(n % 10)]
  }

  /** The decimal form consists of digits and starts with `0` only for zero. */
  lemma {:induction false} DecimalDigits(n: nat)
    ensures AllDigits(Decimal(n))
    ensures Decimal(n)[0] == '0' ==> n == 0
  {
    if n >= 10 {
      DecimalDigits(n / 10);
      assert Decimal(n)[0] == Decimal(n / 10)[0];
    }
  }

  /** The number a string of decimal digits denotes (leading zeros allowed). */
  function DigitsValue(s: string): nat
    requires AllDigits(s)
  {
    if s == [] then 0
    else 10 * DigitsValue(s[..|s| - 1]) + ((s[|s| - 1] as int) - ('0' as int))
  }

  function Zeros(k: nat): (r: string)
    ensures |r| == k
  {
    if k == 0 then [] else Zeros(k - 1) + ['0']
  }

  /** Python's `f"{n:0wd}"` for a natural number: zero padded to at least `width` characters. */
  function ZeroPad(n: nat, width: nat): (r: string)
    ensures |r| >= width && |r| >= 1
  {
    var d := Decimal(n);
    if |d| >= width then d else Zeros(width - |d|) + d
  }

  /**
   Python's `f"{n:0wd}"` for any integer: the `0` flag pads after the sign,
   so `f"{-5:03d}"` is `-05` and `f"{-1:02d}"` is `-1`.
   */
  function FormatInt(n: int, width: nat): string {
    if n >= 0 then ZeroPad(n, width)
    else "-" + ZeroPad(-n, if width == 0 then 0 else width - 1)
  }

  lemma {:induction false} DigitsValueAppend(s: string, t: string)
    requires AllDigits(s) && AllDigits(t)
    ensures AllDigits(s + t)
    ensures DigitsValue(s + t) == DigitsValue(s) * Pow10(|t|) + DigitsValue(t)
    decreases |t|
  {
    if t == [] {
      assert s + t == s;
    } else {
      var t' := t[..|t| - 1];
      var last := (t[|t| - 1] as int) - ('0' as int);
      assert (s + t)[..|s + t| - 1] == s + t';
      assert (s + t)[|s + t| - 1] == t[|t| - 1];
      DigitsValueAppend(s, t');
      var x, p, y := DigitsValue(s), Pow10(|t'|), DigitsValue(t');
      assert DigitsValue(s + t) == 10 * (x * p + y) + last;
      assert DigitsValue(t) == 10 * y + last;
      assert Pow10(|t|) == 10 * p;
      ScaleProduct(x, p);
    }
  }

  lemma ScaleProduct(x: int, p: int)
    ensures 10 * (x * p) == x * (10 * p)
  {
  }

  lemma {:induction false} ZerosValue(k: nat)
    ensures AllDigits(Zeros(k)) && DigitsValue(Zeros(k)) == 0
  {
    if k > 0 {
      assert Zeros(k)[..k - 1] == Zeros(k - 1);
      ZerosValue(k - 1);
    }
  }

  lemma ZeroPadDigits(n: nat, width: nat)
    ensures AllDigits(ZeroPad(n, width))
  {
    DecimalDigits(n);
    if |Decimal(n)| < width {
      ZerosValue(width - |Decimal(n)|);
      DigitsValueAppend(Zeros(width - |Decimal(n)|), Decimal(n));
    }
  }

  /** Reading back the decimal rendering of `n` gives `n`. */
  lemma {:induction false} DecimalRoundTrip(n: nat)
    ensures AllDigits(Decimal(n)) && DigitsValue(Decimal(n)) == n
  {
    DecimalDigits(n);
    if n >= 10 {
      DecimalDigits(n / 10);
      var d := Decimal(n);
      assert d[..|d| - 1] == Decimal(n / 10);
      DecimalRoundTrip(n / 10);
    }
  }

  /** Zero padding does not change the value read back. */
  lemma ZeroPadRoundTrip(n: nat, width: nat)
    ensures AllDigits(ZeroPad(n, width)) && DigitsValue(ZeroPad(n, width)) == n
  {
    ZeroPadDigits(n, width);
    var d := Decimal(n);
    DecimalRoundTrip(n);
    if |d| < width {
      var z := Zeros(width - |d|);
      ZerosValue(width - |d|);
      DigitsValueAppend(z, d);
      assert ZeroPad(n, width) == z + d;
      assert DigitsValue(z + d) == 0 * Pow10(|d|) + n;
    }
  }

  /** A number below 10^k has at most k digits. */
  lemma {:induction false} DecimalLength(n: nat, k: nat)
    requires 1 <= k && n < Pow10(k)
    ensures |Decimal(n)| <= k
  {
    if n >= 10 {
      assert k >= 2;
      DecimalLength(n / 10, k - 1);
    }
  }

  /** Zero padding to `width` gives exactly `width` characters for numbers below 10^width. */
  lemma ZeroPadExact(n: nat, width: nat)
    requires 1 <= width && n < Pow10(width)
    ensures |ZeroPad(n, width)| == width
  {
    DecimalLength(n, width);
  }

  /** Two-digit zero padding spelled out digit by digit. */
  lemma TwoDigits(n: nat)
    requires n < 100
    ensures ZeroPad(n, 2) == [DigitChar(n / 10), DigitChar(n % 10)]
  {
    if n >= 10 {
      assert Decimal(n) == Decimal(n / 10) + [DigitChar(n % 10)];
    }
  }

  /** Three-digit zero padding spelled out digit by digit. */
  lemma ThreeDigits(n: nat)
    requires n < 1000
    ensures ZeroPad(n, 3) == [DigitChar(n / 100), DigitChar(n / 10 % 10), DigitChar(n % 10)]
  {
    var a, b, c := DigitChar(n / 100), DigitChar(n / 10 % 10), DigitChar(n % 10);
    if n >= 100 {
      assert n / 10 / 10 == n / 100;
      assert Decimal(n / 10) == [a, b];
      assert Decimal(n) == [a, b, c];
    } else if n >= 10 {
      assert n / 100 == 0 && n / 10 % 10 == n / 10;
      assert Decimal(n) == [b, c];
      assert Zeros(1) == [a];
      assert ZeroPad(n, 3) == [a] + [b, c];
    } else {
      assert n / 100 == 0 && n / 10 % 10 == 0;
      assert Zeros(2) == [a, b];
      assert ZeroPad(n, 3) == [a, b] + [c];
    }
  }

  // ---------------------------------------------------------------------------
  // Whitespace and str.strip()

  /** The characters for which Python's `str.isspace()` holds. */
  predicate IsWhitespace(c: char) {
    || c == '\t' || c == '\n' || c == '\U{000B}' || c == '\U{000C}' || c == '\r'
    || c == '\U{001C}' || c == '\U{001D}' || c == '\U{001E}' || c == '\U{001F}'
    || c == ' ' || c == '\U{0085}' || c == '\U{00A0}' || c == '\U{1680}'
    || ('\U{2000}' <= c <= '\U{200A}')
    || c == '\U{2028}' || c == '\U{2029}' || c == '\U{202F}' || c == '\U{205F}'
    || c == '\U{3000}'
  }

  predicate AllWhitespace(s: string) {
    forall i :: 0 <= i < |s| ==> IsWhitespace(s[i])
  }

  /** Neither end of `s` is whitespace (vacuously so for the empty string). */
  predicate Trimmed(s: string) {
    s == [] || (!IsWhitespace(s[0]) && !IsWhitespace(s[|s| - 1]))
  }

  /** `str.lstrip()`: drops the longest all-whitespace prefix. */
  function TrimStart(s: string): (r: string)
    ensures |r| <= |s|
  {
    if s != [] && IsWhitespace(s[0]) then TrimStart(s[1..]) else s
  }

  /** `str.rstrip()`: drops the longest all-whitespace suffix. */
  function TrimEnd(s: string): (r: string)
    ensures |r| <= |s|
  {
    if s != [] && IsWhitespace(s[|s| - 1]) then TrimEnd(s[..|s| - 1]) else s
  }

  /** `str.strip()`. */
  function Strip(s: string): string {
    TrimEnd(TrimStart(s))
  }

  lemma {:induction false} TrimStartSpec(s: string)
    ensures var r := TrimStart(s);
            && r == s[|s| - |r|..]
            && AllWhitespace(s[..|s| - |r|])
            && (r == [] || !IsWhitespace(r[0]))
  {
    if s != [] && IsWhitespace(s[0]) {
      TrimStartSpec(s[1..]);
      var r := TrimStart(s);
      assert s[..|s| - |r|] == [s[0]] + s[1..][..|s| - 1 - |r|];
    }
  }

  lemma {:induction false} TrimEndSpec(s: string)
    ensures var r := TrimEnd(s);
            && r == s[..|r|]
            && AllWhitespace(s[|r|..])
            && (r == [] || !IsWhitespace(r[|r| - 1]))
  {
    if s != [] && IsWhitespace(s[|s| - 1]) {
      TrimEndSpec(s[..|s| - 1]);
      var r := TrimEnd(s);
      assert s[|r|..] == s[..|s| - 1][|r|..] + [s[|s| - 1]];
    }
  }

  /**
   What `str.strip()` returns: a contiguous slice of `s` with no whitespace
   at either end, everything cut off on either side being whitespace.
   */
  lemma StripSpec(s: string)
    ensures var r := Strip(s);
            && Trimmed(r)
            && exists lo :: 0 <= lo <= |s| - |r|
                         && r == s[lo..lo + |r|]
                         && AllWhitespace(s[..lo]) && AllWhitespace(s[lo + |r|..])
  {
    var a := TrimStart(s);
    var r := TrimEnd(a);
    TrimStartSpec(s);
    TrimEndSpec(a);
    var lo := |s| - |a|;
    assert r == s[lo..lo + |r|];
    assert s[lo + |r|..] == a[|r|..];
  }

  lemma {:induction false} TrimStartCut(a: string, t: string)
    requires AllWhitespace(a) && (t == [] || !IsWhitespace(t[0]))
    ensures TrimStart(a + t) == t
    decreases |a|
  {
    if a == [] {
      assert a + t == t;
    } else {
      assert (a + t)[0] == a[0];
      assert (a + t)[1..] == a[1..] + t;
      TrimStartCut(a[1..], t);
    }
  }

  lemma {:induction false} TrimEndCut(t: string, b: string)
    requires AllWhitespace(b) && (t == [] || !IsWhitespace(t[|t| - 1]))
    ensures TrimEnd(t + b) == t
    decreases |b|
  {
    if b == [] {
      assert t + b == t;
    } else {
      assert (t + b)[|t + b| - 1] == b[|b| - 1];
      assert (t + b)[..|t + b| - 1] == t + b[..|b| - 1];
      TrimEndCut(t, b[..|b| - 1]);
    }
  }

  /**
   Strip is characterised by its cut: whenever `s` is a whitespace run, then
   a trimmed core, then a whitespace run, stripping `s` returns that core.
   */
  lemma StripUnique(a: string, core: string, b: string)
    requires AllWhitespace(a) && AllWhitespace(b) && Trimmed(core)
    ensures Strip(a + core + b) == core
  {
    if core == [] {
      assert a + core + b == (a + b) + [];
      TrimStartCut(a + b, []);
      assert TrimEnd([]) == [];
    } else {
      assert a + core + b == a + (core + b);
      assert (core + b)[0] == core[0];
      TrimStartCut(a, core + b);
      TrimEndCut(core, b);
    }
  }

  /** Stripping is idempotent. */
  lemma StripIdempotent(s: string)
    ensures Strip(Strip(s)) == Strip(s)
  {
    StripSpec(s);
    var r := Strip(s);
    assert [] + r + [] == r;
    StripUnique([], r, []);
  }

  /** Stripping leaves nothing exactly when the string is all whitespace. */
  lemma StripEmpty(s: string)
    ensures Strip(s) == [] <==> AllWhitespace(s)
  {
    if AllWhitespace(s) {
      assert s + [] + [] == s;
      StripUnique(s, [], []);
    }
    if Strip(s) == [] {
      StripSpec(s);
      var lo :| 0 <= lo <= |s| && AllWhitespace(s[..lo]) && AllWhitespace(s[lo..]);
      forall i | 0 <= i < |s|
        ensures IsWhitespace(s[i])
      {
        if i < lo {
          assert s[..lo][i] == s[i];
        } else {
          assert s[lo..][i - lo] == s[i];
        }
      }
    }
  }

  // ---------------------------------------------------------------------------
  // str.replace with one-character arguments, counting, concatenation

  /** `s.replace(from, to)` for single characters `from` and `to`. */
  function ReplaceChar(s: string, from: char, to: char): (r: string)
    ensures |r| == |s|
  {
    if s == [] then [] else ReplaceChar(s[..|s| - 1], from, to) + [if s[|s| - 1] == from then to else s[|s| - 1]]
  }

  /** Replacement works position by position. */
  lemma {:induction false} ReplaceCharPointwise(s: string, from: char, to: char)
    ensures forall i :: 0 <= i < |s| ==> ReplaceChar(s, from, to)[i] == (if s[i] == from then to else s[i])
  {
    if s != [] {
      ReplaceCharPointwise(s[..|s| - 1], from, to);
    }
  }

  /** Number of occurrences of `c` in `s`. */
  function Count(s: string, c: char): (n: nat)
    ensures n <= |s|
  {
    if s == [] then 0 else Count(s[..|s| - 1], c) + (if s[|s| - 1] == c then 1 else 0)
  }

  /** A character occurs zero times exactly when it is absent. */
  lemma {:induction false} CountZero(s: string, c: char)
    ensures Count(s, c) == 0 <==> c !in s
  {
    if s != [] {
      CountZero(s[..|s| - 1], c);
      assert s == s[..|s| - 1] + [s[|s| - 1]];
    }
  }

  lemma {:induction false} CountAppend(s: string, t: string, c: char)
    ensures Count(s + t, c) == Count(s, c) + Count(t, c)
    decreases |t|
  {
    if t != [] {
      assert (s + t)[..|s + t| - 1] == s + t[..|t| - 1];
      CountAppend(s, t[..|t| - 1], c);
    } else {
      assert s + t == s;
    }
  }

  /** Changing one character of a concatenation changes it in the part that holds it. */
  lemma UpdateAppend(a: string, b: string, k: nat, c: char)
    requires k < |a| + |b|
    ensures (a + b)[k := c] == if k < |a| then a[k := c] + b else a + b[k - |a| := c]
  {
  }

  /** Joins a sequence of strings end to end (`"".join(parts)`). */
  function Concat(parts: seq<string>): string {
    if parts == [] then [] else parts[0] + Concat(parts[1..])
  }

  lemma {:induction false} ConcatAppend(p: seq<string>, q: seq<string>)
    ensures Concat(p + q) == Concat(p) + Concat(q)
  {
    if p == [] {
      assert p + q == q;
    } else {
      assert (p + q)[1..] == p[1..] + q;
      ConcatAppend(p[1..], q);
    }
  }

  /**
   `f(first, xs[0]) + f(first + 1, xs[1]) + …`: what a loop over
   `enumerate(xs, first)` writes when each step writes `f(i, x)`.
   */
  function Numbered<T>(f: (nat, T) -> string, xs: seq<T>, first: nat): string {
    if xs == [] then [] else f(first, xs[0]) + Numbered(f, xs[1..], first + 1)
  }

  /** What a loop over `xs` writes when each step writes `f(x)`. */
  function ConcatMap<T>(f: T -> string, xs: seq<T>): string {
    if xs == [] then [] else f(xs[0]) + ConcatMap(f, xs[1..])
  }

  /** The pieces `f(first + i, xs[i])`, in order. */
  function NumberedPieces<T>(f: (nat, T) -> string, xs: seq<T>, first: nat): (r: seq<string>)
    ensures |r| == |xs|
    ensures forall i :: 0 <= i < |xs| ==> r[i] == f(first + i, xs[i])
  {
    if xs == [] then [] else [f(first, xs[0])] + NumberedPieces(f, xs[1..], first + 1)
  }

  /** The numbered loop writes exactly its pieces, in order. */
  lemma {:induction false} NumberedParts<T>(f: (nat, T) -> string, xs: seq<T>, first: nat)
    ensures Numbered(f, xs, first) == Concat(NumberedPieces(f, xs, first))
  {
    if xs != [] {
      assert NumberedPieces(f, xs, first)[1..] == NumberedPieces(f, xs[1..], first + 1);
      NumberedParts(f, xs[1..], first + 1);
    }
  }

  /** Running the numbered loop over `a + b` continues the numbering into `b`. */
  lemma {:induction false} NumberedAppend<T>(f: (nat, T) -> string, a: seq<T>, b: seq<T>, first: nat)
    ensures Numbered(f, a + b, first) == Numbered(f, a, first) + Numbered(f, b, first + |a|)
  {
    if a == [] {
      assert a + b == b;
    } else {
      assert (a + b)[0] == a[0];
      assert (a + b)[1..] == a[1..] + b;
      NumberedAppend(f, a[1..], b, first + 1);
    }
  }

  /** The pieces `f(xs[i])`, in order. */
  function Pieces<T>(f: T -> string, xs: seq<T>): (r: seq<string>)
    ensures |r| == |xs|
    ensures forall i :: 0 <= i < |xs| ==> r[i] == f(xs[i])
  {
    if xs == [] then [] else [f(xs[0])] + Pieces(f, xs[1..])
  }

  /** The loop writes exactly its pieces, in order. */
  lemma {:induction false} ConcatMapParts<T>(f: T -> string, xs: seq<T>)
    ensures ConcatMap(f, xs) == Concat(Pieces(f, xs))
  {
    if xs != [] {
      assert Pieces(f, xs)[1..] == Pieces(f, xs[1..]);
      ConcatMapParts(f, xs[1..]);
    }
  }

  /** When every piece holds `c` exactly `k` times, the whole holds it `k * |xs|` times. */
  lemma {:induction false} CountConcatMap<T>(f: T -> string, xs: seq<T>, c: char, k: nat)
    requires forall i :: 0 <= i < |xs| ==> Count(f(xs[i]), c) == k
    ensures Count(ConcatMap(f, xs), c) == k * |xs|
  {
    if xs != [] {
      assert forall i :: 0 <= i < |xs| - 1 ==> xs[1..][i] == xs[i + 1];
      CountConcatMap(f, xs[1..], c, k);
      CountAppend(f(xs[0]), ConcatMap(f, xs[1..]), c);
      assert k * |xs| == k + k * (|xs| - 1);
    }
  }
}
