/** The java.lang.String operations the tracker relies on: digits, trim,
    split on a single separator, case-insensitive equality, padding and
    truncation for display. */
module Text {

  datatype Option<T> = None | Some(value: T)

  predicate IsDigit(c: char) { '0' <= c <= '9' }

  predicate AllDigits(s: string) { forall i :: 0 <= i < |s| ==> IsDigit(s[i]) }

  function DigitValue(c: char): (n: nat)
    requires IsDigit(c)
    ensures n < 10
  {
    c as int - '0' as int
  }

  function DigitChar(n: nat): (c: char)
    requires n < 10
    ensures IsDigit(c) && DigitValue(c) == n
  {
    ('0' as int + n) as char
  }

  function Pow10(k: nat): (p: nat)
    ensures p >= 1
  {
    if k == 0 then 1 else 10 * Pow10(k - 1)
  }

  /** Decimal rendering without leading zeros, as Long.toString does for a non-negative value. */
  function NatToText(n: nat): (s: string)
    ensures 1 <= |s| && AllDigits(s)
    decreases n
  {
    if n < 10 then [DigitChar(n)] else NatToText(n / 10) + [DigitChar(n % 10)]
  }

  /** The value of a string of decimal digits (the empty string is 0). */
  function TextToNat(s: string): (n: nat)
    requires AllDigits(s)
    ensures n < Pow10(|s|)
  {
    if s == [] then 0 else 10 * TextToNat(s[..|s| - 1]) + DigitValue(s[|s| - 1])
  }

  lemma {:induction false} TextToNatOfNatToText(n: nat)
    ensures TextToNat(NatToText(n)) == n
    decreases n
  {
    if n >= 10 {
      var s := NatToText(n);
      assert s[..|s| - 1] == NatToText(n / 10);
      TextToNatOfNatToText(n / 10);
    }
  }

  /** A number below 10^k needs at most k digits, and one at least 10^k more than k. */
  lemma {:induction false} NatToTextLength(n: nat, k: nat)
    requires k >= 1
    ensures n < Pow10(k) ==> |NatToText(n)| <= k
    ensures n >= Pow10(k) ==> |NatToText(n)| > k
    decreases n
  {
    if n >= 10 {
      if k >= 2 {
        NatToTextLength(n / 10, k - 1);
      } else {
        assert Pow10(1) == 10;
        assert |NatToText(n)| == |NatToText(n / 10)| + 1;
      }
    } else {
      assert Pow10(k) >= 10 by { Pow10AtLeast(k); }
    }
  }

  lemma {:induction false} Pow10AtLeast(k: nat)
    requires k >= 1
    ensures Pow10(k) >= 10
    decreases k
  {
    if k > 1 { Pow10AtLeast(k - 1); }
  }

  /** Two fixed digits, leading zero kept (the "MM", "dd", "HH", "mm", "ss" fields). */
  function Pad2(n: nat): (s: string)
    requires n < 100
    ensures |s| == 2 && AllDigits(s)
  {
    [DigitChar(n / 10), DigitChar(n % 10)]
  }

  /** Four fixed digits, leading zeros kept (a "yyyy" year below 10000). */
  function Pad4(n: nat): (s: string)
    requires n < 10000
    ensures |s| == 4 && AllDigits(s)
  {
    [DigitChar(n / 1000), DigitChar(n / 100 % 10), DigitChar(n / 10 % 10), DigitChar(n % 10)]
  }

  lemma Pad2Value(n: nat)
    requires n < 100
    ensures TextToNat(Pad2(n)) == n
  {
    var s := Pad2(n);
    assert s[..1][..0] == [];
    assert s[..|s| - 1] == [DigitChar(n / 10)];
    assert TextToNat(s[..|s| - 1]) == n / 10;
    assert TextToNat(s) == 10 * (n / 10) + n % 10;
  }

  lemma Pad4Value(n: nat)
    requires n < 10000
    ensures TextToNat(Pad4(n)) == n
  {
    var s := Pad4(n);
    var a, b, c, d := n / 1000, n / 100 % 10, n / 10 % 10, n % 10;
    assert s[..1][..0] == [];
    assert s[..3][..2] == s[..2];
    assert s[..2][..1] == s[..1];
    assert TextToNat(s[..1]) == a;
    assert TextToNat(s[..2]) == 10 * a + b;
    assert TextToNat(s[..3]) == 100 * a + 10 * b + c;
    assert TextToNat(s) == 1000 * a + 100 * b + 10 * c + d;
    DigitsOfFour(n);
  }

  lemma DigitsOfFour(n: nat)
    requires n < 10000
    ensures n == 1000 * (n / 1000) + 100 * (n / 100 % 10) + 10 * (n / 10 % 10) + n % 10
  {
    var h := n / 100;
    assert n == 100 * h + n % 100;
    assert h == 10 * (h / 10) + h % 10;
    assert h / 10 == n / 1000;
    assert n % 100 == 10 * (n / 10 % 10) + n % 10;
  }

  /** Fixed-width parsing is the inverse of fixed-width rendering. */
  lemma Pad2OfText(s: string)
    requires |s| == 2 && AllDigits(s)
    ensures TextToNat(s) < 100 && Pad2(TextToNat(s)) == s
  {
    assert s[..1][..0] == [];
    var a, b := DigitValue(s[0]), DigitValue(s[1]);
    assert TextToNat(s[..1]) == a;
    assert TextToNat(s) == 10 * a + b;
    assert (10 * a + b) / 10 == a && (10 * a + b) % 10 == b;
    DigitInverse(s[0]);
    DigitInverse(s[1]);
  }

  lemma Pad4OfText(s: string)
    requires |s| == 4 && AllDigits(s)
    ensures TextToNat(s) < 10000 && Pad4(TextToNat(s)) == s
  {
    assert s[..1][..0] == [];
    assert s[..3][..2] == s[..2];
    assert s[..2][..1] == s[..1];
    var a, b, c, d := DigitValue(s[0]), DigitValue(s[1]), DigitValue(s[2]), DigitValue(s[3]);
    assert TextToNat(s[..1]) == a;
    assert TextToNat(s[..2]) == 10 * a + b;
    assert TextToNat(s[..3]) == 100 * a + 10 * b + c;
    var v := 1000 * a + 100 * b + 10 * c + d;
    assert TextToNat(s) == v;
    FourDigits(a, b, c, d);
    DigitInverse(s[0]);
    DigitInverse(s[1]);
    DigitInverse(s[2]);
    DigitInverse(s[3]);
  }

  lemma FourDigits(a: nat, b: nat, c: nat, d: nat)
    requires a < 10 && b < 10 && c < 10 && d < 10
    ensures var v := 1000 * a + 100 * b + 10 * c + d;
      v < 10000 && v / 1000 == a && v / 100 % 10 == b && v / 10 % 10 == c && v % 10 == d
  {
    var v := 1000 * a + 100 * b + 10 * c + d;
    assert v / 100 == 10 * a + b;
    assert v / 10 == 100 * a + 10 * b + c;
  }

  lemma DigitInverse(c: char)
    requires IsDigit(c)
    ensures DigitChar(DigitValue(c)) == c
  {
  }

  lemma AllDigitsAppend(a: string, b: string)
    requires AllDigits(a) && AllDigits(b)
    ensures AllDigits(a + b)
  {
    forall i | 0 <= i < |a + b| ensures IsDigit((a + b)[i]) {
      if i < |a| { assert (a + b)[i] == a[i]; } else { assert (a + b)[i] == b[i - |a|]; }
    }
  }

  /** TextToNat reads a concatenation positionally. */
  lemma {:induction false} TextToNatAppend(a: string, b: string)
    requires AllDigits(a) && AllDigits(b)
    ensures AllDigits(a + b)
    ensures TextToNat(a + b) == TextToNat(a) * Pow10(|b|) + TextToNat(b)
    decreases |b|
  {
    AllDigitsAppend(a, b);
    if b == [] {
      assert a + b == a;
    } else {
      var b' := b[..|b| - 1];
      var d := DigitValue(b[|b| - 1]);
      assert (a + b)[..|a + b| - 1] == a + b';
      assert (a + b)[|a + b| - 1] == b[|b| - 1];
      TextToNatAppend(a, b');
      ShiftStep(TextToNat(a), Pow10(|b'|), TextToNat(b'), d);
    }
  }

  /** The same for two trailing digits, in linear form. */
  lemma TextToNatAppend2(a: string, b: string)
    requires AllDigits(a) && AllDigits(b) && |b| == 2
    ensures AllDigits(a + b)
    ensures TextToNat(a + b) == 100 * TextToNat(a) + TextToNat(b)
  {
    TextToNatAppend(a, b);
    assert Pow10(2) == 100;
  }

  lemma ShiftStep(x: int, p: int, t: int, d: int)
    ensures 10 * (x * p + t) + d == x * (10 * p) + (10 * t + d)
  {
  }

  // ---------------------------------------------------------------- trim

  /** String.trim removes every character at or below U+0020 from both ends. */
  predicate IsBlank(c: char) { c <= ' ' }

  /** The index of the first non-blank character of s at or after i, or |s|. */
  function SkipBlanks(s: string, i: nat): (k: nat)
    requires i <= |s|
    ensures i <= k <= |s| && (k < |s| ==> !IsBlank(s[k]))
    ensures forall m :: i <= m < k ==> IsBlank(s[m])
    decreases |s| - i
  {
    if i < |s| && IsBlank(s[i]) then SkipBlanks(s, i + 1) else i
  }

  /** The end of the last non-blank character of s[lo..j], or lo. */
  function SkipBlanksBack(s: string, lo: nat, j: nat): (k: nat)
    requires lo <= j <= |s|
    ensures lo <= k <= j && (k > lo ==> !IsBlank(s[k - 1]))
    ensures forall m :: k <= m < j ==> IsBlank(s[m])
  {
    if j > lo && IsBlank(s[j - 1]) then SkipBlanksBack(s, lo, j - 1) else j
  }

  /** String.trim: the input without its leading and trailing blanks. */
  function Trim(s: string): (r: string)
    ensures |r| <= |s|
    ensures r == [] || (!IsBlank(r[0]) && !IsBlank(r[|r| - 1]))
    ensures r == [] <==> forall i :: 0 <= i < |s| ==> IsBlank(s[i])
    ensures s == [] || (!IsBlank(s[0]) && !IsBlank(s[|s| - 1])) ==> r == s
    ensures exists i, j :: 0 <= i <= j <= |s| && r == s[i..j] && forall k :: 0 <= k < i || j <= k < |s| ==> IsBlank(s[k])
  {
    var a := SkipBlanks(s, 0);
    var b := SkipBlanksBack(s, a, |s|);
    assert s != [] && !IsBlank(s[0]) && !IsBlank(s[|s| - 1]) ==> a == 0 && b == |s|;
    s[a..b]
  }

  // ---------------------------------------------------------------- split

  /** The pieces of s between occurrences of sep, empty pieces included. */
  function Fields(s: string, sep: char): (r: seq<string>)
    ensures |r| >= 1
  {
    if s == [] then [[]]
    else
      var rest := Fields(s[1..], sep);
      if s[0] == sep then [[]] + rest else [[s[0]] + rest[0]] + rest[1..]
  }

  function DropTrailingEmpty(p: seq<string>): (r: seq<string>)
    ensures |r| <= |p| && r == p[..|r|]
    ensures r == [] || r[|r| - 1] != []
  {
    if p != [] && p[|p| - 1] == [] then DropTrailingEmpty(p[..|p| - 1]) else p
  }

  /** String.split with a one-character pattern: no match gives the whole string;
      otherwise the pieces, with trailing empty pieces removed. */
  function Split(s: string, sep: char): seq<string>
  {
    if sep !in s then [s] else DropTrailingEmpty(Fields(s, sep))
  }

  lemma {:induction false} FieldsOfPlain(a: string, sep: char)
    requires sep !in a
    ensures Fields(a, sep) == [a]
    decreases |a|
  {
    if a != [] {
      FieldsOfPlain(a[1..], sep);
      assert [a[0]] + a[1..] == a;
    }
  }

  lemma {:induction false} FieldsOfJoin(a: string, sep: char, b: string)
    requires sep !in a
    ensures Fields(a + [sep] + b, sep) == [a] + Fields(b, sep)
    decreases |a|
  {
    var s := a + [sep] + b;
    if a == [] {
      assert s[1..] == b;
    } else {
      assert s[1..] == a[1..] + [sep] + b;
      FieldsOfJoin(a[1..], sep, b);
      assert [a[0]] + a[1..] == a;
    }
  }

  /** Pieces joined with a separator between each two. */
  function Join(parts: seq<string>, sep: char): (s: string)
    requires |parts| >= 1
    decreases |parts|
  {
    if |parts| == 1 then parts[0] else parts[0] + [sep] + Join(parts[1..], sep)
  }

  /** Splitting at every separator gives back the joined pieces when none of
      them contains the separator. */
  lemma {:induction false} FieldsOfJoinAll(parts: seq<string>, sep: char)
    requires |parts| >= 1 && forall i :: 0 <= i < |parts| ==> sep !in parts[i]
    ensures Fields(Join(parts, sep), sep) == parts
    decreases |parts|
  {
    if |parts| == 1 {
      FieldsOfPlain(parts[0], sep);
    } else {
      FieldsOfJoin(parts[0], sep, Join(parts[1..], sep));
      FieldsOfJoinAll(parts[1..], sep);
    }
  }

  /** String.split undoes a join of two or more pieces free of the separator
      whose last piece is not empty. */
  lemma SplitJoin(parts: seq<string>, sep: char)
    requires |parts| >= 2 && forall i :: 0 <= i < |parts| ==> sep !in parts[i]
    requires parts[|parts| - 1] != []
    ensures Split(Join(parts, sep), sep) == parts
  {
    FieldsOfJoinAll(parts, sep);
    assert Join(parts, sep)[|parts[0]|] == sep;
  }

  // ---------------------------------------------------------------- case

  function ToUpperAscii(c: char): char
  {
    if 'a' <= c <= 'z' then (c as int - 32) as char else c
  }

  function ToLowerAscii(c: char): char
  {
    if 'A' <= c <= 'Z' then (c as int + 32) as char else c
  }

  /** The per-character test of String.regionMatches(ignoreCase = true). */
  predicate CharsEqualIgnoringCase(a: char, b: char)
  {
    a == b || ToUpperAscii(a) == ToUpperAscii(b)
    || ToLowerAscii(ToUpperAscii(a)) == ToLowerAscii(ToUpperAscii(b))
  }

  /** String.equalsIgnoreCase: same length and every position matches ignoring case. */
  predicate EqualsIgnoreCase(a: string, b: string)
  {
    |a| == |b| && forall i :: 0 <= i < |a| ==> CharsEqualIgnoringCase(a[i], b[i])
  }

  function LowerText(s: string): (r: string)
    ensures |r| == |s|
  {
    seq(|s|, i requires 0 <= i < |s| => ToLowerAscii(s[i]))
  }

  lemma CharsEqualIgnoringCaseIsLower(a: char, b: char)
    ensures CharsEqualIgnoringCase(a, b) <==> ToLowerAscii(a) == ToLowerAscii(b)
  {
  }

  /** Ignoring case means comparing the lower-cased texts, so a longer text
      (a vendor that merely contains the query) never matches. */
  lemma EqualsIgnoreCaseIsLowerEquality(a: string, b: string)
    ensures EqualsIgnoreCase(a, b) <==> LowerText(a) == LowerText(b)
    ensures EqualsIgnoreCase(a, b) ==> |a| == |b|
  {
    if LowerText(a) == LowerText(b) {
      forall i | 0 <= i < |a| ensures CharsEqualIgnoringCase(a[i], b[i]) {
        assert LowerText(a)[i] == LowerText(b)[i];
        CharsEqualIgnoringCaseIsLower(a[i], b[i]);
      }
    }
    if EqualsIgnoreCase(a, b) {
      forall i | 0 <= i < |a| ensures LowerText(a)[i] == LowerText(b)[i] {
        CharsEqualIgnoringCaseIsLower(a[i], b[i]);
      }
    }
  }

  // ---------------------------------------------------------------- display

  /** "%-ws": the text left-justified, padded with spaces on the right up to width w. */
  function PadRight(s: string, w: nat): (r: string)
    ensures |r| == if |s| < w then w else |s|
    ensures r[..|s|] == s
    ensures forall i :: |s| <= i < |r| ==> r[i] == ' '
  {
    if |s| < w then s + seq(w - |s|, _ => ' ') else s
  }

  /** toString's truncation: a text longer than w becomes its first w - 3 characters and "...". */
  function Truncate(s: string, w: nat): (r: string)
    requires w >= 3
    ensures |r| <= w
    ensures |s| <= w ==> r == s
    ensures |s| > w ==> |r| == w && r[..w - 3] == s[..w - 3] && r[w - 3..] == "..."
  {
    if |s| > w then s[..w - 3] + "..." else s
  }
}
