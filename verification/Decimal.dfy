/**
  Decimal numerals as strings: what strconv writes and reads, and how far the string order
  of unpadded numerals agrees with the order of the numbers.
 */
module Decimal {
  import opened Basics

  predicate IsDigit(c: char) { '0' <= c <= '9' }

  predicate AllDigits(s: string) {
    forall k | 0 <= k < |s| :: IsDigit(s[k])
  }

  function DigitValue(c: char): (d: nat)
    requires IsDigit(c)
    ensures d < 10
  {
    c as int - '0' as int
  }

  function Digit(d: nat): (c: char)
    requires d < 10
    ensures IsDigit(c) && DigitValue(c) == d
  {
    ('0' as int + d) as char
  }

  /** The numeral of n, without leading zeros. */
  function Dec(n: nat): string {
    if n < 10 then [Digit(n)] else Dec(n / 10) + [Digit(n % 10)]
  }

  /** The number that a digit string denotes; leading zeros are allowed. */
  function Val(s: string): nat
    requires AllDigits(s)
  {
    if s == [] then 0 else Val(s[..|s| - 1]) * 10 + DigitValue(s[|s| - 1])
  }

  predicate Canonical(s: string) {
    s != [] && AllDigits(s) && (|s| > 1 ==> s[0] != '0')
  }

  lemma {:induction false} DecReads(n: nat)
    ensures Canonical(Dec(n)) && Val(Dec(n)) == n && (n > 0 ==> Dec(n)[0] != '0')
  {
    if n >= 10 {
      DecReads(n / 10);
      assert Dec(n)[..|Dec(n)| - 1] == Dec(n / 10);
    }
  }

  lemma {:induction false} ValPositive(s: string)
    requires s != [] && AllDigits(s) && s[0] != '0'
    ensures Val(s) > 0
  {
    if |s| > 1 {
      ValPositive(s[..|s| - 1]);
    } else {
      assert s[..0] == [];
    }
  }

  /** Canonical numerals are exactly the ones Dec writes. */
  lemma {:induction false} DecWrites(s: string)
    requires Canonical(s)
    ensures Dec(Val(s)) == s
  {
    if |s| > 1 {
      var front := s[..|s| - 1];
      ValPositive(front);
      DecWrites(front);
      assert s == front + [s[|s| - 1]];
    } else {
      assert s[..0] == [] && s == [s[0]];
    }
  }

  lemma DecInjective(m: nat, n: nat)
    requires Dec(m) == Dec(n)
    ensures m == n
  {
    DecReads(m);
    DecReads(n);
  }

  /** %0wd: zeros in front up to the given width. */
  function Padded(n: nat, width: nat): string {
    var s := Dec(n);
    Zeros(if |s| < width then width - |s| else 0) + s
  }

  function Zeros(k: nat): string { if k == 0 then "" else Zeros(k - 1) + "0" }

  lemma {:induction false} ZerosRead(k: nat)
    ensures |Zeros(k)| == k && AllDigits(Zeros(k)) && Val(Zeros(k)) == 0
  {
    if k > 0 {
      ZerosRead(k - 1);
      assert Zeros(k)[..k - 1] == Zeros(k - 1);
    }
  }

  lemma {:induction false} ZerosInFront(k: nat, s: string)
    requires AllDigits(s)
    ensures AllDigits(Zeros(k) + s) && Val(Zeros(k) + s) == Val(s) && |Zeros(k)| == k
    decreases |s|
  {
    hide Zeros;
    ZerosRead(k);
    if s == [] {
      assert Zeros(k) + [] == Zeros(k);
    } else {
      ZerosInFront(k, s[..|s| - 1]);
      assert (Zeros(k) + s)[..|Zeros(k) + s| - 1] == Zeros(k) + s[..|s| - 1];
    }
  }

  lemma PaddedReads(n: nat, width: nat)
    ensures AllDigits(Padded(n, width)) && Val(Padded(n, width)) == n
  {
    DecReads(n);
    ZerosInFront(if |Dec(n)| < width then width - |Dec(n)| else 0, Dec(n));
  }

  // ---------------------------------------------------------------------------
  // String order
  // ---------------------------------------------------------------------------

  /** Strict lexicographic order, as strings.Compare and the ordered store have it. */
  predicate Less(s: string, t: string) {
    t != [] && (s == [] || s[0] < t[0] || (s[0] == t[0] && Less(s[1..], t[1..])))
  }

  lemma {:induction false} LessTotal(s: string, t: string)
    ensures Less(s, t) || s == t || Less(t, s)
    ensures !(Less(s, t) && Less(t, s)) && !Less(s, s)
    decreases |s|
  {
    if s != [] {
      LessTotal(s[1..], if t == [] then [] else t[1..]);
      assert t != [] && s[0] == t[0] && s[1..] == t[1..] ==> s == t by {
        assert s == [s[0]] + s[1..] && (t != [] ==> t == [t[0]] + t[1..]);
      }
    }
  }

  lemma {:induction false} LessTransitive(s: string, t: string, u: string)
    requires Less(s, t) && Less(t, u)
    ensures Less(s, u)
    decreases |s|
  {
    if s != [] && s[0] == t[0] == u[0] {
      LessTransitive(s[1..], t[1..], u[1..]);
    }
  }

  lemma {:induction false} LessExtended(s: string, x: string, t: string, y: string)
    requires |s| == |t|
    ensures Less(s + x, t + y) <==> Less(s, t) || (s == t && Less(x, y))
    decreases |s|
  {
    if s == [] {
      assert s + x == x && t + y == y;
    } else {
      assert (s + x)[1..] == s[1..] + x && (t + y)[1..] == t[1..] + y;
      assert s == t <==> s[0] == t[0] && s[1..] == t[1..] by {
        assert s == [s[0]] + s[1..] && t == [t[0]] + t[1..];
      }
      LessExtended(s[1..], x, t[1..], y);
    }
  }

  /** Among digit strings of one length the string order is the numeric order. */
  lemma {:induction false} SameLengthOrder(s: string, t: string)
    requires AllDigits(s) && AllDigits(t) && |s| == |t|
    ensures Less(s, t) <==> Val(s) < Val(t)
    ensures s == t <==> Val(s) == Val(t)
  {
    if s != [] {
      var n := |s| - 1;
      SameLengthOrder(s[..n], t[..n]);
      assert s == s[..n] + [s[n]] && t == t[..n] + [t[n]];
      LessExtended(s[..n], [s[n]], t[..n], [t[n]]);
    }
  }

  function Shifted(n: nat, digits: nat): nat {
    if digits == 0 then n else Shifted(n / 10, digits - 1)
  }

  lemma {:induction false} DecPrefix(n: nat, digits: nat)
    requires digits < |Dec(n)|
    ensures Dec(n)[..|Dec(n)| - digits] == Dec(Shifted(n, digits))
    decreases digits
  {
    if digits > 0 {
      var s := Dec(n);
      assert s[..|s| - 1] == Dec(n / 10);
      DecPrefix(n / 10, digits - 1);
      assert s[..|s| - digits] == Dec(n / 10)[..|s| - digits];
    } else {
      assert Dec(n)[..|Dec(n)|] == Dec(n);
    }
  }

  lemma {:induction false} DecLength(m: nat, n: nat)
    requires m <= n
    ensures |Dec(m)| <= |Dec(n)|
  {
    if m >= 10 {
      DecLength(m / 10, n / 10);
    }
  }

  /**
    Unpadded numerals of m < n are stored in numeric order exactly when m does not exceed the
    leading digits of n; with equally many digits that is always so.
   */
  lemma UnpaddedOrder(m: nat, n: nat)
    requires m < n
    ensures |Dec(m)| <= |Dec(n)|
    ensures Less(Dec(m), Dec(n)) <==> m <= Shifted(n, |Dec(n)| - |Dec(m)|)
    ensures |Dec(m)| == |Dec(n)| ==> Less(Dec(m), Dec(n))
  {
    DecLength(m, n);
    var s, t := Dec(m), Dec(n);
    var front, rest := t[..|s|], t[|s|..];
    DecPrefix(n, |t| - |s|);
    DecReads(m);
    DecReads(Shifted(n, |t| - |s|));
    assert t == front + rest && s == s + [];
    LessExtended(s, [], front, rest);
    SameLengthOrder(s, front);
    assert Less([], rest) <==> rest != [];
    if rest == [] {
      assert front == t;
    }
  }

  // ---------------------------------------------------------------------------
  // Signed numerals
  // ---------------------------------------------------------------------------

  function FormatInt(x: int): string {
    if x < 0 then "-" + Dec(-x) else Dec(x)
  }

  /** An optional sign, then at least one digit; out of range is an error. */
  function ParseInt(s: string): Option<int> {
    if s == "" then None
    else
      var sign := s[0] == '-' || s[0] == '+';
      var digits := if sign then s[1..] else s;
      if digits == "" || !AllDigits(digits) then None
      else
        var v: int := Val(digits);
        var x := if s[0] == '-' then -v else v;
        if Int64(x) then Some(x) else None
  }

  lemma ParseFormats(x: int)
    requires Int64(x)
    ensures ParseInt(FormatInt(x)) == Some(x)
  {
    hide Dec, Val;
    if x < 0 {
      DecReads(-x);
      assert ("-" + Dec(-x))[1..] == Dec(-x);
    } else {
      DecReads(x);
      assert IsDigit(Dec(x)[0]);
    }
  }

  lemma SignShows(x: int)
    ensures FormatInt(x) != "" && (FormatInt(x)[0] == '-' <==> x < 0)
  {
    DecReads(if x < 0 then -x else x);
  }

  lemma FormatInjective(x: int, y: int)
    requires FormatInt(x) == FormatInt(y)
    ensures x == y
  {
    SignShows(x);
    SignShows(y);
    if x < 0 {
      assert Dec(-x) == FormatInt(x)[1..] == FormatInt(y)[1..] == Dec(-y);
      DecInjective(-x, -y);
    } else {
      DecInjective(x, y);
    }
  }
}
