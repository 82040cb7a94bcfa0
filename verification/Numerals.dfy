/** Fixed-base numerals as the tools print and read them: `%d`, `%08X`, `{:08x}` and `int(text, 16)`. */
module Numerals {

  const LOWER_HEX: string := "0123456789abcdef"
  const UPPER_HEX: string := "0123456789ABCDEF"
  const DECIMAL: string := "0123456789"

  /** A digit alphabet; the position of a character is the digit it stands for. */
  ghost predicate Alphabet(alpha: string) {
    && |alpha| >= 2
    && alpha[0] == '0'
    && forall i, j :: 0 <= i < j < |alpha| ==> alpha[i] != alpha[j]
  }

  predicate DigitsOf(s: string, alpha: string) {
    forall c :: c in s ==> c in alpha
  }

  function Render(n: nat, alpha: string): (s: string)
    requires |alpha| >= 2
    ensures |s| >= 1 && DigitsOf(s, alpha)
    decreases n
  {
    if n < |alpha| then [alpha[n]] else Render(n / |alpha|, alpha) + [alpha[n % |alpha|]]
  }

  /** Zero padding on the left up to `width` characters; longer numerals are not cut. */
  function Padded(s: string, width: nat): (r: string)
    ensures |r| == if |s| < width then width else |s|
    decreases width - |s|
  {
    if |s| >= width then s else Padded("0" + s, width)
  }

  function IndexOf(c: char, alpha: string): (i: nat)
    requires c in alpha
    ensures i < |alpha| && alpha[i] == c
  {
    if alpha[0] == c then 0 else 1 + IndexOf(c, alpha[1..])
  }

  function Parse(s: string, alpha: string): nat
    requires DigitsOf(s, alpha)
  {
    if s == "" then 0
    else
      assert forall c :: c in s[..|s| - 1] ==> c in s;
      Parse(s[..|s| - 1], alpha) * |alpha| + IndexOf(s[|s| - 1], alpha)
  }

  lemma IndexOfDigit(d: nat, alpha: string)
    requires Alphabet(alpha) && d < |alpha|
    ensures IndexOf(alpha[d], alpha) == d
  {
  }

  lemma ParseSnoc(q: string, c: char, alpha: string)
    requires DigitsOf(q, alpha) && c in alpha
    ensures DigitsOf(q + [c], alpha)
    ensures Parse(q + [c], alpha) == Parse(q, alpha) * |alpha| + IndexOf(c, alpha)
  {
  }

  lemma DivMod(n: nat, b: nat)
    requires b >= 2
    ensures n / b * b + n % b == n && n % b < b && (n >= b ==> n / b < n)
  {
  }

  lemma RenderSplits(n: nat, alpha: string)
    requires 2 <= |alpha| <= n
    ensures Render(n, alpha) == Render(n / |alpha|, alpha) + [alpha[n % |alpha|]]
  {
  }

  lemma {:induction false} ParseRender(n: nat, alpha: string)
    requires Alphabet(alpha)
    ensures Parse(Render(n, alpha), alpha) == n
    decreases n
  {
    if n < |alpha| {
      ParseDigit("", 0, n, alpha);
      assert Render(n, alpha) == "" + [alpha[n]];
    } else {
      hide Parse, Render;
      DivMod(n, |alpha|);
      RenderSplits(n, alpha);
      var q, r := n / |alpha|, n % |alpha|;
      ParseRender(q, alpha);
      ParseDigit(Render(q, alpha), q, r, alpha);
    }
  }

  /** One more digit behind a numeral for q. */
  lemma ParseDigit(s: string, q: nat, r: nat, alpha: string)
    requires Alphabet(alpha) && r < |alpha| && DigitsOf(s, alpha) && Parse(s, alpha) == q
    ensures DigitsOf(s + [alpha[r]], alpha) && Parse(s + [alpha[r]], alpha) == q * |alpha| + r
  {
    hide Parse, IndexOf;
    IndexOfDigit(r, alpha);
    ParseSnoc(s, alpha[r], alpha);
  }

  lemma {:induction false} ParseLeadingZero(s: string, alpha: string)
    requires Alphabet(alpha) && DigitsOf(s, alpha)
    ensures DigitsOf("0" + s, alpha)
    ensures Parse("0" + s, alpha) == Parse(s, alpha)
    decreases |s|
  {
    assert '0' == alpha[0];
    assert IndexOf('0', alpha) == 0;
    var z := "0" + s;
    if s == "" {
      assert z[..0] == "";
    } else {
      assert z[..|z| - 1] == "0" + s[..|s| - 1];
      ParseLeadingZero(s[..|s| - 1], alpha);
    }
  }

  lemma {:induction false} ParsePadded(s: string, width: nat, alpha: string)
    requires Alphabet(alpha) && DigitsOf(s, alpha)
    ensures DigitsOf(Padded(s, width), alpha)
    ensures Parse(Padded(s, width), alpha) == Parse(s, alpha)
    decreases width - |s|
  {
    if |s| < width {
      ParseLeadingZero(s, alpha);
      ParsePadded("0" + s, width, alpha);
    }
  }

  /** Padding never merges two numerals: the padded text determines the number. */
  lemma PaddedInjective(m: nat, n: nat, width: nat, alpha: string)
    requires Alphabet(alpha)
    requires Padded(Render(m, alpha), width) == Padded(Render(n, alpha), width)
    ensures m == n
  {
    ParseRender(m, alpha);
    ParseRender(n, alpha);
    ParsePadded(Render(m, alpha), width, alpha);
    ParsePadded(Render(n, alpha), width, alpha);
  }

  function Power(base: nat, e: nat): (p: nat)
    ensures base > 0 ==> p > 0
  {
    if e == 0 then 1 else base * Power(base, e - 1)
  }

  /** A numeral fits in `width` digits exactly when the number is below base^width. */
  lemma {:induction false} RenderFits(n: nat, width: nat, alpha: string)
    requires Alphabet(alpha) && width >= 1
    ensures |Render(n, alpha)| <= width <==> n < Power(|alpha|, width)
    decreases width
  {
    if width == 1 {
      assert Power(|alpha|, 1) == |alpha| * Power(|alpha|, 0);
    } else if n < |alpha| {
      PowerAtLeastBase(|alpha|, width);
    } else {
      RenderFits(n / |alpha|, width - 1, alpha);
      DivideBelow(n, |alpha|, Power(|alpha|, width - 1));
    }
  }

  lemma {:induction false} PowerAtLeastBase(base: nat, e: nat)
    requires base >= 2 && e >= 1
    ensures Power(base, e) >= base
  {
    if e > 1 {
      PowerAtLeastBase(base, e - 1);
      assert base * Power(base, e - 1) >= base * 1;
    }
  }

  lemma DivideBelow(n: nat, b: nat, p: nat)
    requires b >= 1
    ensures n / b < p <==> n < b * p
  {
    assert n == b * (n / b) + n % b;
    if n / b < p {
      assert b * (n / b + 1) <= b * p;
    } else {
      assert b * (n / b) >= b * p;
    }
  }

  lemma {:induction false} ParseBelow(s: string, alpha: string)
    requires DigitsOf(s, alpha) && |alpha| >= 2
    ensures Parse(s, alpha) < Power(|alpha|, |s|)
    decreases |s|
  {
    if s != "" {
      ParseBelow(s[..|s| - 1], alpha);
      MulGap(Parse(s[..|s| - 1], alpha), Power(|alpha|, |s| - 1), |alpha|);
    }
  }

  lemma {:induction false} ParseInjective(s: string, t: string, alpha: string)
    requires Alphabet(alpha) && DigitsOf(s, alpha) && DigitsOf(t, alpha) && |s| == |t|
    requires Parse(s, alpha) == Parse(t, alpha)
    ensures s == t
    decreases |s|
  {
    if s != "" {
      var n := |s| - 1;
      var b := |alpha|;
      var p, q := Parse(s[..n], alpha), Parse(t[..n], alpha);
      var i, j := IndexOf(s[n], alpha), IndexOf(t[n], alpha);
      assert p * b + i == q * b + j;
      SameQuotient(p, i, q, j, b);
      ParseInjective(s[..n], t[..n], alpha);
      assert s == s[..n] + [s[n]] && t == t[..n] + [t[n]];
    }
  }

  lemma SameQuotient(p: nat, i: nat, q: nat, j: nat, b: nat)
    requires i < b && j < b && p * b + i == q * b + j
    ensures p == q && i == j
  {
    MulGap(p, q, b);
    MulGap(q, p, b);
  }

  lemma MulGap(p: nat, q: nat, b: nat)
    ensures p < q ==> p * b + b <= q * b
  {
    if p < q {
      assert (p + 1) * b <= q * b;
    }
  }
}
