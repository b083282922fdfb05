/**
 * The string operations of the JavaScript host that the upload handler applies
 * to cell values: `trim`, case mapping, `includes`, the decimal rendering of an
 * integer by `String(n)`, and the digit cleaning of `cleanNum`.
 */
module JsText {

  /** WhiteSpace or LineTerminator code points, the characters that
      String.prototype.trim removes (ECMA-262, sections 12.2 and 12.3). */
  predicate IsSpace(c: char) {
    var n := c as int;
    (0x09 <= n <= 0x0D)
    || n == 0x20 || n == 0xA0 || n == 0x1680
    || (0x2000 <= n <= 0x200A)
    || n == 0x2028 || n == 0x2029 || n == 0x202F || n == 0x205F
    || n == 0x3000 || n == 0xFEFF
  }

  /** s[i..j] is what trimming s leaves: only spaces outside it, none at its ends. */
  ghost predicate TrimmedAt(s: string, i: nat, j: nat) {
    && i <= j <= |s|
    && (forall k | 0 <= k < i :: IsSpace(s[k]))
    && (forall k | j <= k < |s| :: IsSpace(s[k]))
    && (i < j ==> !IsSpace(s[i]) && !IsSpace(s[j - 1]))
  }

  /** Number of leading spaces. */
  function LeadingSpaces(s: string): (i: nat)
    ensures i <= |s|
    ensures forall k | 0 <= k < i :: IsSpace(s[k])
    ensures i < |s| ==> !IsSpace(s[i])
  {
    if |s| == 0 || !IsSpace(s[0]) then 0 else 1 + LeadingSpaces(s[1..])
  }

  /** Length of s once its trailing spaces are dropped. */
  function TrailingCut(s: string): (j: nat)
    ensures j <= |s|
    ensures forall k | j <= k < |s| :: IsSpace(s[k])
    ensures 0 < j ==> !IsSpace(s[j - 1])
  {
    if |s| == 0 || !IsSpace(s[|s| - 1]) then |s| else TrailingCut(s[..|s| - 1])
  }

  /** String.prototype.trim. */
  function Trim(s: string): (r: string)
    ensures var i := LeadingSpaces(s); TrimmedAt(s, i, i + |r|) && r == s[i..i + |r|]
  {
    var i := LeadingSpaces(s);
    var j := TrailingCut(s);
    if j <= i then
      []
    else
      assert TrimmedAt(s, i, j);
      s[i..j]
  }

  /** A string with no space at either end is its own trim. */
  lemma TrimUnspaced(s: string)
    requires s == [] || (!IsSpace(s[0]) && !IsSpace(s[|s| - 1]))
    ensures Trim(s) == s
  {
    if s != [] {
      assert LeadingSpaces(s) == 0;
      assert |Trim(s)| == |s|;
    }
  }

  /** A trimmed string has no space at either end. */
  lemma TrimEnds(s: string)
    ensures var t := Trim(s); t == [] || (!IsSpace(t[0]) && !IsSpace(t[|t| - 1]))
  {
    var i := LeadingSpaces(s);
    assert TrimmedAt(s, i, i + |Trim(s)|);
  }

  /** String.prototype.toLowerCase on one character, ASCII letters only. */
  function LowerChar(c: char): char {
    if 'A' <= c <= 'Z' then (c as int + 32) as char else c
  }

  /** String.prototype.toUpperCase on one character, ASCII letters only. */
  function UpperChar(c: char): char {
    if 'a' <= c <= 'z' then (c as int - 32) as char else c
  }

  function Lower(s: string): (r: string)
    ensures |r| == |s|
    ensures forall k | 0 <= k < |s| :: r[k] == LowerChar(s[k])
  {
    seq(|s|, k requires 0 <= k < |s| => LowerChar(s[k]))
  }

  function Upper(s: string): (r: string)
    ensures |r| == |s|
    ensures forall k | 0 <= k < |s| :: r[k] == UpperChar(s[k])
  {
    seq(|s|, k requires 0 <= k < |s| => UpperChar(s[k]))
  }

  /** Lower-casing leaves no ASCII capital, moves each capital 32 code points
      down, keeps every other character, and is idempotent. */
  lemma LowerCases(s: string)
    ensures forall k | 0 <= k < |s| :: !('A' <= Lower(s)[k] <= 'Z')
    ensures forall k | 0 <= k < |s| && 'A' <= s[k] <= 'Z' :: Lower(s)[k] as int == s[k] as int + 32
    ensures forall k | 0 <= k < |s| && !('A' <= s[k] <= 'Z') :: Lower(s)[k] == s[k]
    ensures Lower(Lower(s)) == Lower(s)
  {
  }

  /** Upper-casing leaves no ASCII small letter, moves each small letter 32 code
      points up, keeps every other character, and is idempotent. */
  lemma UpperCases(s: string)
    ensures forall k | 0 <= k < |s| :: !('a' <= Upper(s)[k] <= 'z')
    ensures forall k | 0 <= k < |s| && 'a' <= s[k] <= 'z' :: Upper(s)[k] as int == s[k] as int - 32
    ensures forall k | 0 <= k < |s| && !('a' <= s[k] <= 'z') :: Upper(s)[k] == s[k]
    ensures Upper(Upper(s)) == Upper(s)
  {
  }

  /** An upper-cased trimmed string has no space at either end and no ASCII small letter. */
  lemma UpperTrimmed(s: string)
    ensures var t := Upper(Trim(s));
            && (t == [] || (!IsSpace(t[0]) && !IsSpace(t[|t| - 1])))
            && (forall k | 0 <= k < |t| :: !('a' <= t[k] <= 'z'))
  {
    TrimEnds(s);
    UpperCases(Trim(s));
  }

  /** Lower-casing a trimmed string leaves nothing more to trim, so the second
      trim of a header label changes nothing. */
  lemma TrimLowerTrim(s: string)
    ensures Trim(Lower(Trim(s))) == Lower(Trim(s))
  {
    TrimEnds(s);
    TrimUnspaced(Lower(Trim(s)));
  }

  /** String.prototype.includes: part occurs in s at some offset. */
  function Contains(s: string, part: string): (r: bool)
    ensures r <==> exists i | 0 <= i <= |s| :: part <= s[i..]
    decreases |s|
  {
    if part <= s then
      assert part <= s[0..];
      true
    else if |s| == 0 then
      false
    else
      var r := Contains(s[1..], part);
      assert forall i | 1 <= i <= |s| :: s[1..][i - 1..] == s[i..];
      r
  }

  predicate IsDigit(c: char) {
    '0' <= c <= '9'
  }

  predicate AllDigits(s: string) {
    forall k | 0 <= k < |s| :: IsDigit(s[k])
  }

  function DigitValue(c: char): (v: nat)
    requires IsDigit(c)
    ensures v < 10
  {
    c as int - '0' as int
  }

  function DigitChar(d: nat): (c: char)
    requires d < 10
    ensures IsDigit(c) && DigitValue(c) == d
  {
    ('0' as int + d) as char
  }

  function Pow10(n: nat): (p: nat)
    ensures 0 < p
  {
    if n == 0 then 1 else 10 * Pow10(n - 1)
  }

  /** What `replace(/[^\d]/g, '')` leaves: the ASCII digits of s, in order. */
  function KeepDigits(s: string): (r: string)
    ensures AllDigits(r)
    ensures |r| <= |s|
    ensures AllDigits(s) ==> r == s
    ensures (forall k | 0 <= k < |s| :: !IsDigit(s[k])) ==> r == []
  {
    if s == [] then []
    else
      var rest := KeepDigits(s[1..]);
      assert AllDigits(s) ==> AllDigits(s[1..]);
      assert (forall k | 0 <= k < |s| :: !IsDigit(s[k])) ==> (forall k | 0 <= k < |s[1..]| :: !IsDigit(s[1..][k]));
      (if IsDigit(s[0]) then [s[0]] else []) + rest
  }

  lemma {:induction false} KeepDigitsAppend(a: string, b: string)
    ensures KeepDigits(a + b) == KeepDigits(a) + KeepDigits(b)
    decreases |a|
  {
    if a != [] {
      var head := if IsDigit(a[0]) then [a[0]] else [];
      assert (a + b)[0] == a[0];
      assert (a + b)[1..] == a[1..] + b;
      assert KeepDigits(a + b) == head + KeepDigits(a[1..] + b);
      KeepDigitsAppend(a[1..], b);
      assert KeepDigits(a) == head + KeepDigits(a[1..]);
    } else {
      assert a + b == b;
    }
  }

  /** parseInt(d, 10) of a string of decimal digits, most significant first. */
  function DecimalValue(d: string): nat
    requires AllDigits(d)
  {
    if d == [] then 0 else DecimalValue(d[..|d| - 1]) * 10 + DigitValue(d[|d| - 1])
  }

  lemma ShiftDigit(x: int, p: int, y: int, t: int)
    ensures (x * p + y) * 10 + t == x * (10 * p) + (y * 10 + t)
  {
  }

  /** Reading a concatenation shifts the first part by the length of the second. */
  lemma {:induction false} DecimalValueAppend(a: string, b: string)
    requires AllDigits(a) && AllDigits(b)
    ensures DecimalValue(a + b) == DecimalValue(a) * Pow10(|b|) + DecimalValue(b)
    decreases |b|
  {
    if b == [] {
      assert a + b == a;
    } else {
      var b' := b[..|b| - 1];
      assert (a + b)[..|a + b| - 1] == a + b';
      DecimalValueAppend(a, b');
      assert (a + b)[|a + b| - 1] == b[|b| - 1];
      ShiftDigit(DecimalValue(a), Pow10(|b'|), DecimalValue(b'), DigitValue(b[|b| - 1]));
    }
  }

  /** A digit string reads as zero exactly when every digit is '0'. */
  lemma {:induction false} DecimalValueZero(d: string)
    requires AllDigits(d)
    ensures DecimalValue(d) == 0 <==> forall k | 0 <= k < |d| :: d[k] == '0'
    decreases |d|
  {
    if d != [] {
      var d' := d[..|d| - 1];
      DecimalValueZero(d');
      if forall k | 0 <= k < |d| :: d[k] == '0' {
        assert forall k | 0 <= k < |d'| :: d'[k] == '0' by {
          forall k | 0 <= k < |d'| ensures d'[k] == '0' {
            assert d'[k] == d[k];
          }
        }
      }
      if DecimalValue(d) == 0 {
        forall k | 0 <= k < |d| ensures d[k] == '0' {
          if k < |d| - 1 {
            assert d[k] == d'[k];
          }
        }
      }
    }
  }

  /** `cleanNum`: the decimal value of the digits that survive the cleaning, 0 when none do. */
  function CleanNum(s: string): (r: nat)
    ensures r == 0 <==> forall k | 0 <= k < |s| :: IsDigit(s[k]) ==> s[k] == '0'
  {
    var d := KeepDigits(s);
    CleanNumZero(s);
    if d == [] then 0 else DecimalValue(d)
  }

  /** The digits kept are all '0' exactly when every digit of s is '0'. */
  lemma {:induction false} KeepDigitsZeros(s: string)
    ensures (forall k | 0 <= k < |KeepDigits(s)| :: KeepDigits(s)[k] == '0')
        <==> (forall k | 0 <= k < |s| :: IsDigit(s[k]) ==> s[k] == '0')
    decreases |s|
  {
    if s != [] {
      KeepDigitsZeros(s[1..]);
      var head := if IsDigit(s[0]) then [s[0]] else [];
      assert KeepDigits(s) == head + KeepDigits(s[1..]);
      if forall k | 0 <= k < |s| :: IsDigit(s[k]) ==> s[k] == '0' {
        assert forall k | 0 <= k < |s[1..]| :: IsDigit(s[1..][k]) ==> s[1..][k] == '0' by {
          forall k | 0 <= k < |s[1..]| ensures IsDigit(s[1..][k]) ==> s[1..][k] == '0' {
            assert s[1..][k] == s[k + 1];
          }
        }
      }
      if forall k | 0 <= k < |KeepDigits(s)| :: KeepDigits(s)[k] == '0' {
        assert forall k | 0 <= k < |KeepDigits(s[1..])| :: KeepDigits(s[1..])[k] == '0' by {
          forall k | 0 <= k < |KeepDigits(s[1..])| ensures KeepDigits(s[1..])[k] == '0' {
            assert KeepDigits(s)[|head| + k] == KeepDigits(s[1..])[k];
          }
        }
        forall k | 0 <= k < |s| ensures IsDigit(s[k]) ==> s[k] == '0' {
          if k > 0 {
            assert s[k] == s[1..][k - 1];
          } else if IsDigit(s[0]) {
            assert KeepDigits(s)[0] == s[0];
          }
        }
      }
    }
  }

  lemma CleanNumZero(s: string)
    ensures (if KeepDigits(s) == [] then 0 else DecimalValue(KeepDigits(s))) == 0
        <==> forall k | 0 <= k < |s| :: IsDigit(s[k]) ==> s[k] == '0'
  {
    KeepDigitsZeros(s);
    DecimalValueZero(KeepDigits(s));
  }

  /** Cleaning a concatenation: the digits of the second part follow those of the first. */
  lemma CleanNumAppend(a: string, b: string)
    ensures CleanNum(a + b) == CleanNum(a) * Pow10(|KeepDigits(b)|) + CleanNum(b)
  {
    KeepDigitsAppend(a, b);
    DecimalValueAppend(KeepDigits(a), KeepDigits(b));
    if KeepDigits(a) == [] {
      assert KeepDigits(a) + KeepDigits(b) == KeepDigits(b);
    }
    if KeepDigits(b) == [] {
      assert KeepDigits(a) + KeepDigits(b) == KeepDigits(a);
    }
  }

  /** Decimal digits of a natural number, as `String(n)` writes them. */
  function NatText(n: nat): (r: string)
    ensures 0 < |r|
    ensures AllDigits(r)
    ensures r[0] == '0' ==> n == 0
  {
    if n < 10 then [DigitChar(n)] else NatText(n / 10) + [DigitChar(n % 10)]
  }

  /** `String(n)` for an integer n: a minus sign exactly for a negative n,
      followed by the digits of its magnitude. */
  function IntText(n: int): (r: string)
    ensures 0 < |r|
    ensures r[0] == '-' <==> n < 0
    ensures n < 0 ==> AllDigits(r[1..]) && DecimalValue(r[1..]) == -n
    ensures 0 <= n ==> AllDigits(r) && DecimalValue(r) == n
  {
    if n < 0 then
      DecimalValueNatText(-n);
      assert ("-" + NatText(-n))[1..] == NatText(-n);
      "-" + NatText(-n)
    else
      DecimalValueNatText(n);
      NatText(n)
  }

  /** Reading back the rendering of n gives n. */
  lemma {:induction false} DecimalValueNatText(n: nat)
    ensures DecimalValue(NatText(n)) == n
  {
    if 10 <= n {
      var r := NatText(n);
      assert r[..|r| - 1] == NatText(n / 10);
      DecimalValueNatText(n / 10);
    }
  }

  /** `cleanNum(String(n))` is the magnitude of n: the sign is dropped with the other non-digits. */
  lemma CleanNumIntText(n: int)
    ensures CleanNum(IntText(n)) == if n < 0 then -n else n
  {
    var m: nat := if n < 0 then -n else n;
    DecimalValueNatText(m);
    if n < 0 {
      KeepDigitsAppend("-", NatText(m));
      assert KeepDigits("-") == [];
      assert KeepDigits(IntText(n)) == NatText(m);
    }
  }
}
