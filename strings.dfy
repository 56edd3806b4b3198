/**
 * The JavaScript string operations the core relies on, over `seq<char>`:
 * relational comparison (`<`, `<=` on strings), `split`, `slice`,
 * `padStart`, decimal formatting of integers and `Number(...)` on decimal
 * strings.
 */
module Strings {
  import opened Options
  import opened Seqs

  // ---------------------------------------------------------------------
  // Lexicographic order, as JavaScript's `<` on two strings

  predicate LexLess(a: string, b: string)
    decreases |a|
  {
    if |a| == 0 then |b| > 0
    else if |b| == 0 then false
    else if a[0] != b[0] then a[0] < b[0]
    else LexLess(a[1..], b[1..])
  }

  /** JavaScript's `a <= b` on strings. */
  predicate LexLe(a: string, b: string) {
    a == b || LexLess(a, b)
  }

  lemma {:induction false} LexLessIrreflexive(a: string)
    ensures !LexLess(a, a)
    decreases |a|
  {
    if |a| > 0 {
      LexLessIrreflexive(a[1..]);
    }
  }

  lemma {:induction false} LexLessTrichotomy(a: string, b: string)
    ensures a == b || LexLess(a, b) || LexLess(b, a)
    ensures !(LexLess(a, b) && LexLess(b, a))
    decreases |a|
  {
    if |a| > 0 && |b| > 0 && a[0] == b[0] {
      LexLessTrichotomy(a[1..], b[1..]);
      if a[1..] == b[1..] {
        assert a == [a[0]] + a[1..] && b == [b[0]] + b[1..];
      }
    }
  }

  lemma {:induction false} LexLessTransitive(a: string, b: string, c: string)
    requires LexLess(a, b) && LexLess(b, c)
    ensures LexLess(a, c)
    decreases |a|
  {
    if |a| > 0 && a[0] == b[0] && b[0] == c[0] {
      LexLessTransitive(a[1..], b[1..], c[1..]);
    }
  }

  lemma LexLeTransitive(a: string, b: string, c: string)
    requires LexLe(a, b) && LexLe(b, c)
    ensures LexLe(a, c)
  {
    if a != b && b != c {
      LexLessTransitive(a, b, c);
    }
  }

  lemma LexLeTotal(a: string, b: string)
    ensures LexLe(a, b) || LexLe(b, a)
    ensures LexLe(a, b) && LexLe(b, a) ==> a == b
    ensures LexLe(a, b) <==> !LexLess(b, a)
  {
    LexLessTrichotomy(a, b);
    LexLessIrreflexive(a);
  }

  /** Strings sharing a first character compare as their tails. */
  lemma LexLessCons(c: char, a: string, b: string)
    ensures LexLess([c] + a, [c] + b) == LexLess(a, b)
  {
    assert ([c] + a)[1..] == a && ([c] + b)[1..] == b;
  }

  /** Two strings with a common prefix compare as what follows it. */
  lemma {:induction false} LexLessCommonPrefix(p: string, a: string, b: string)
    ensures LexLess(p + a, p + b) == LexLess(a, b)
    decreases |p|
  {
    if |p| > 0 {
      assert (p + a)[0] == p[0] == (p + b)[0];
      assert (p + a)[1..] == p[1..] + a && (p + b)[1..] == p[1..] + b;
      LexLessCommonPrefix(p[1..], a, b);
    } else {
      assert p + a == a && p + b == b;
    }
  }

  /** Strings of one length compare on their first difference, whatever follows. */
  lemma {:induction false} LexLessSameLength(a: string, b: string, a': string, b': string)
    requires |a| == |b| && LexLess(a, b)
    ensures LexLess(a + a', b + b')
    decreases |a|
  {
    if a[0] == b[0] {
      assert (a + a')[1..] == a[1..] + a' && (b + b')[1..] == b[1..] + b';
      LexLessSameLength(a[1..], b[1..], a', b');
    }
  }

  // ---------------------------------------------------------------------
  // Decimal digits

  predicate IsDigit(c: char) { '0' <= c <= '9' }

  predicate AllDigits(s: string) { forall i :: 0 <= i < |s| ==> IsDigit(s[i]) }

  function DigitValue(c: char): nat
    requires IsDigit(c)
  {
    (c as int - '0' as int) as nat
  }

  function DigitChar(n: nat): (c: char)
    requires n < 10
    ensures IsDigit(c) && DigitValue(c) == n
  {
    ('0' as int + n) as char
  }

  /** The value of a string of decimal digits, leading zeros allowed. */
  function DigitsValue(s: string): nat
    requires AllDigits(s)
  {
    if s == [] then 0 else DigitsValue(s[..|s| - 1]) * 10 + DigitValue(s[|s| - 1])
  }

  /** `String(n)` for a natural number: shortest decimal form. */
  function NatToString(n: nat): string
  {
    if n < 10 then [DigitChar(n)] else NatToString(n / 10) + [DigitChar(n % 10)]
  }

  /** `String(i)` for an integer. */
  function IntToString(i: int): string {
    if i < 0 then "-" + NatToString(-i) else NatToString(i)
  }

  function Zeros(k: nat): (z: string)
    ensures |z| == k && AllDigits(z)
  {
    if k == 0 then [] else Zeros(k - 1) + "0"
  }

  /** `s.padStart(w, '0')`. */
  function PadStart(s: string, w: nat): string {
    if |s| >= w then s else Zeros(w - |s|) + s
  }

  /** `String(n).padStart(w, '0')`. */
  function Pad(n: nat, w: nat): string {
    PadStart(NatToString(n), w)
  }

  lemma {:induction false} NatToStringDigits(n: nat)
    ensures AllDigits(NatToString(n)) && |NatToString(n)| >= 1
    ensures DigitsValue(NatToString(n)) == n
    ensures n >= 10 ==> |NatToString(n)| >= 2
  {
    if n >= 10 {
      NatToStringDigits(n / 10);
      var s := NatToString(n);
      assert s[..|s| - 1] == NatToString(n / 10);
    }
  }

  lemma {:induction false} NatToStringLength(n: nat, w: nat)
    requires n < Power10(w) && w >= 1
    ensures |NatToString(n)| <= w
    decreases w
  {
    if n >= 10 {
      NatToStringLength(n / 10, w - 1);
    }
  }

  function Power10(w: nat): (p: nat)
    ensures p >= 1
  {
    if w == 0 then 1 else 10 * Power10(w - 1)
  }

  lemma {:induction false} ZerosValue(k: nat)
    ensures DigitsValue(Zeros(k)) == 0
  {
    if k > 0 {
      ZerosValue(k - 1);
      assert Zeros(k)[..k - 1] == Zeros(k - 1);
    }
  }

  lemma {:induction false} LeadingZeros(k: nat, s: string)
    requires AllDigits(s)
    ensures AllDigits(Zeros(k) + s) && DigitsValue(Zeros(k) + s) == DigitsValue(s)
    decreases |s|
  {
    var t := Zeros(k) + s;
    if s == [] {
      assert t == Zeros(k);
      ZerosValue(k);
    } else {
      var u := s[..|s| - 1];
      assert t[..|t| - 1] == Zeros(k) + u && t[|t| - 1] == s[|s| - 1];
      LeadingZeros(k, u);
    }
  }

  /** `String(n).padStart(w, '0')` is a run of digits of value `n`, `w` long when `n` fits. */
  lemma PadDigits(n: nat, w: nat)
    ensures AllDigits(Pad(n, w)) && DigitsValue(Pad(n, w)) == n
    ensures w >= 1 && n < Power10(w) ==> |Pad(n, w)| == w
    ensures |Pad(n, w)| >= w
  {
    NatToStringDigits(n);
    var s := NatToString(n);
    if |s| < w {
      LeadingZeros(w - |s|, s);
    }
    if w >= 1 && n < Power10(w) {
      NatToStringLength(n, w);
    }
  }

  /** Two strings of digits of equal length compare as their values. */
  lemma {:induction false} DigitsOrder(a: string, b: string)
    requires AllDigits(a) && AllDigits(b) && |a| == |b|
    ensures LexLess(a, b) <==> DigitsValue(a) < DigitsValue(b)
    ensures a == b <==> DigitsValue(a) == DigitsValue(b)
    decreases |a|
  {
    if |a| > 0 {
      var a0, b0 := a[..|a| - 1], b[..|b| - 1];
      DigitsOrder(a0, b0);
      assert a == a0 + [a[|a| - 1]] && b == b0 + [b[|b| - 1]];
      if a0 == b0 {
        LexLessCommonPrefix(a0, [a[|a| - 1]], [b[|b| - 1]]);
      } else if LexLess(a0, b0) {
        LexLessSameLength(a0, b0, [a[|a| - 1]], [b[|b| - 1]]);
      } else {
        LexLessTrichotomy(a0, b0);
        LexLessSameLength(b0, a0, [b[|b| - 1]], [a[|a| - 1]]);
        LexLessTrichotomy(a, b);
      }
    }
  }

  // ---------------------------------------------------------------------
  // split, slice

  /** `s.split(sep)` with a one-character separator. */
  function Split(s: string, sep: char): (parts: seq<string>)
    ensures |parts| >= 1
    decreases |s|
  {
    if s == [] then [[]]
    else if s[0] == sep then [[]] + Split(s[1..], sep)
    else var rest := Split(s[1..], sep); [[s[0]] + rest[0]] + rest[1..]
  }

  /** `parts.join(sep)`. */
  function Join(parts: seq<string>, sep: char): string
    requires |parts| >= 1
  {
    if |parts| == 1 then parts[0] else parts[0] + [sep] + Join(parts[1..], sep)
  }

  /** Splitting loses nothing: joining the parts again gives the string back. */
  lemma {:induction false} SplitJoin(s: string, sep: char)
    ensures Join(Split(s, sep), sep) == s
    ensures forall i :: 0 <= i < |Split(s, sep)| ==> sep !in Split(s, sep)[i]
    decreases |s|
  {
    if s != [] {
      SplitJoin(s[1..], sep);
      assert s == [s[0]] + s[1..];
      if s[0] != sep {
        var rest := Split(s[1..], sep);
        if |rest| > 1 {
          var j := Join(rest[1..], sep);
          assert Join(rest, sep) == rest[0] + [sep] + j;
          AppendAssoc([s[0]], rest[0], [sep]);
          AppendAssoc([s[0]], rest[0] + [sep], j);
        }
      }
    }
  }

  lemma {:induction false} SplitNoSeparator(s: string, sep: char)
    requires sep !in s
    ensures Split(s, sep) == [s]
    decreases |s|
  {
    if s != [] {
      SplitNoSeparator(s[1..], sep);
      assert s == [s[0]] + s[1..];
    }
  }

  lemma {:induction false} SplitAtSeparator(a: string, sep: char, b: string)
    requires sep !in a
    ensures Split(a + [sep] + b, sep) == [a] + Split(b, sep)
    decreases |a|
  {
    if a == [] {
      assert a + [sep] + b == [sep] + b;
      assert ([sep] + b)[1..] == b;
    } else {
      assert (a + [sep] + b)[1..] == a[1..] + [sep] + b;
      SplitAtSeparator(a[1..], sep, b);
      assert a == [a[0]] + a[1..];
    }
  }

  /** `s.slice(0, n)` for n >= 0. */
  function Prefix(s: string, n: nat): (p: string)
    ensures |p| == if |s| < n then |s| else n
  {
    if |s| <= n then s else s[..n]
  }

  // ---------------------------------------------------------------------
  // Number(...) on a string

  /**
   * `Number(s)` for the decimal forms: the empty string is 0, an optional sign
   * followed by digits is that integer, anything else is NaN (None here).
   */
  function JsNumber(s: string): Option<int> {
    if s == [] then Some(0)
    else if AllDigits(s) then Some(DigitsValue(s))
    else if |s| > 1 && s[0] == '+' && AllDigits(s[1..]) then Some(DigitsValue(s[1..]))
    else if |s| > 1 && s[0] == '-' && AllDigits(s[1..]) then Some(0 - DigitsValue(s[1..]) as int)
    else None
  }

  lemma JsNumberOfPad(n: nat, w: nat)
    ensures JsNumber(Pad(n, w)) == Some(n)
  {
    PadDigits(n, w);
  }
}
