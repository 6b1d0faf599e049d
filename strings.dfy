/** String helpers shared by the model: JavaScript's trim, ASCII case mapping,
    includes/startsWith, split on one separator, decimal printing and parsing,
    and the collation order that stands in for localeCompare. */
module Strings {
  import opened Wrappers

  /** The characters String.prototype.trim removes: ECMAScript WhiteSpace
      (tab, vertical tab, form feed, space, no-break space, byte-order mark and
      the Unicode space separators) and LineTerminator. */
  predicate IsWhitespace(c: char)
  {
    ('\U{9}' <= c <= '\U{D}') || c == '\U{20}' ||
    ('\U{A0}' <= c &&
      (c == '\U{A0}' || c == '\U{1680}' || ('\U{2000}' <= c <= '\U{200A}') ||
       c == '\U{2028}' || c == '\U{2029}' || c == '\U{202F}' || c == '\U{205F}' ||
       c == '\U{3000}' || c == '\U{FEFF}'))
  }

  /** The first index at or after from whose character is not whitespace. */
  function SkipWhitespace(s: string, from: nat): (k: nat)
    requires from <= |s|
    ensures from <= k <= |s|
    ensures forall i :: from <= i < k ==> IsWhitespace(s[i])
    ensures k == |s| || !IsWhitespace(s[k])
    decreases |s| - from
  {
    if from < |s| && IsWhitespace(s[from]) then SkipWhitespace(s, from + 1) else from
  }

  /** The end of s[..upto] once its trailing whitespace is dropped. */
  function SkipTrailingWhitespace(s: string, upto: nat): (k: nat)
    requires upto <= |s|
    ensures k <= upto
    ensures forall i :: k <= i < upto ==> IsWhitespace(s[i])
    ensures k == 0 || !IsWhitespace(s[k - 1])
  {
    if upto > 0 && IsWhitespace(s[upto - 1]) then SkipTrailingWhitespace(s, upto - 1) else upto
  }

  function TrimStart(s: string): (r: string)
    ensures |r| <= |s| && r == s[|s| - |r|..]
    ensures r == [] || !IsWhitespace(r[0])
    ensures forall i :: 0 <= i < |s| - |r| ==> IsWhitespace(s[i])
  {
    s[SkipWhitespace(s, 0)..]
  }

  function TrimEnd(s: string): (r: string)
    ensures |r| <= |s| && r == s[..|r|]
    ensures r == [] || !IsWhitespace(r[|r| - 1])
    ensures forall i :: |r| <= i < |s| ==> IsWhitespace(s[i])
  {
    s[..SkipTrailingWhitespace(s, |s|)]
  }

  /** TrimStart cuts exactly the whitespace before the first other character. */
  lemma TrimStartAt(s: string, k: nat)
    requires k <= |s| && (k == |s| || !IsWhitespace(s[k]))
    requires forall i :: 0 <= i < k ==> IsWhitespace(s[i])
    ensures TrimStart(s) == s[k..]
  {
  }

  /** String.prototype.trim. */
  function Trim(s: string): (r: string)
  {
    TrimEnd(TrimStart(s))
  }

  /** Text with no whitespace at either end is its own trim. */
  lemma TrimUnpadded(s: string)
    requires s == [] || (!IsWhitespace(s[0]) && !IsWhitespace(s[|s| - 1]))
    ensures TrimStart(s) == s && Trim(s) == s
  {
    if s != [] {
      assert SkipWhitespace(s, 0) == 0;
      assert SkipTrailingWhitespace(s, |s|) == |s|;
    }
  }

  /** s holds sub at offset k. */
  predicate OccursAt(s: string, sub: string, k: int)
  {
    0 <= k <= |s| - |sub| && s[k..k + |sub|] == sub
  }

  /** Trim keeps a slice of its input: the one starting where TrimStart stopped. */
  lemma TrimSlice(s: string)
    ensures OccursAt(s, Trim(s), |s| - |TrimStart(s)|)
  {
    var t := TrimStart(s);
    var r := TrimEnd(t);
    var k := |s| - |t|;
    assert s[k..k + |r|] == r by {
      assert r == t[..|r|] && t == s[k..];
      assert s[k..][..|r|] == s[k..k + |r|];
    }
  }

  /** What trim promises about the ends: the result has no whitespace at either
      end, and only whitespace was cut off on either side. */
  lemma TrimEnds(s: string)
    ensures Trim(s) == [] || (!IsWhitespace(Trim(s)[0]) && !IsWhitespace(Trim(s)[|Trim(s)| - 1]))
    ensures forall i :: 0 <= i < |s| - |TrimStart(s)| ==> IsWhitespace(s[i])
    ensures forall i :: |s| - |TrimStart(s)| + |Trim(s)| <= i < |s| ==> IsWhitespace(s[i])
  {
    var t := TrimStart(s);
    var r := TrimEnd(t);
    var k := |s| - |t|;
    assert r != [] ==> r[0] == t[0] by {
      assert r == t[..|r|];
    }
    forall i | k + |r| <= i < |s| ensures IsWhitespace(s[i]) {
      assert t == s[k..];
      assert s[i] == t[i - k];
    }
  }

  /** Trimming twice is trimming once. */
  lemma TrimIdempotent(s: string)
    ensures Trim(Trim(s)) == Trim(s)
  {
    var r := Trim(s);
    TrimEnds(s);
    assert TrimStart(r) == r;
    assert TrimEnd(r) == r;
  }

  function UpperChar(c: char): char
  {
    if 'a' <= c <= 'z' then (c as int - 32) as char else c
  }

  function LowerChar(c: char): char
  {
    if 'A' <= c <= 'Z' then (c as int + 32) as char else c
  }

  /** String.prototype.toUpperCase, on ASCII letters. */
  function ToUpper(s: string): (r: string)
    ensures |r| == |s|
    ensures forall i :: 0 <= i < |s| ==> r[i] == UpperChar(s[i])
    ensures HasNoLower(r)
  {
    seq(|s|, i requires 0 <= i < |s| => UpperChar(s[i]))
  }

  /** String.prototype.toLowerCase, on ASCII letters. */
  function ToLower(s: string): (r: string)
    ensures |r| == |s|
    ensures forall i :: 0 <= i < |s| ==> r[i] == LowerChar(s[i])
    ensures HasNoUpper(r)
  {
    seq(|s|, i requires 0 <= i < |s| => LowerChar(s[i]))
  }

  predicate HasNoLower(s: string)
  {
    forall i :: 0 <= i < |s| ==> !('a' <= s[i] <= 'z')
  }

  predicate HasNoUpper(s: string)
  {
    forall i :: 0 <= i < |s| ==> !('A' <= s[i] <= 'Z')
  }

  /** Lower-casing text with no upper-case letter changes nothing. */
  lemma LowerOfLower(s: string)
    requires HasNoUpper(s)
    ensures ToLower(s) == s
  {
  }

  /** s startsWith p. */
  predicate StartsWith(s: string, p: string)
  {
    |p| <= |s| && s[..|p|] == p
  }

  /** s.includes(sub): sub occurs somewhere in s. */
  predicate Contains(s: string, sub: string)
    decreases |s|
  {
    StartsWith(s, sub) || (s != [] && Contains(s[1..], sub))
  }

  /** includes, as an index: the recursive definition finds an occurrence. */
  lemma {:induction false} ContainsAt(s: string, sub: string)
    ensures Contains(s, sub) <==> exists k :: OccursAt(s, sub, k)
    decreases |s|
  {
    if StartsWith(s, sub) {
      assert OccursAt(s, sub, 0);
    } else if s != [] {
      ContainsAt(s[1..], sub);
      if exists k :: OccursAt(s[1..], sub, k) {
        var k :| OccursAt(s[1..], sub, k);
        assert s[k + 1..k + 1 + |sub|] == s[1..][k..k + |sub|];
        assert OccursAt(s, sub, k + 1);
      }
      if exists k :: OccursAt(s, sub, k) {
        var k :| OccursAt(s, sub, k);
        assert k != 0;
        assert s[1..][k - 1..k - 1 + |sub|] == s[k..k + |sub|];
        assert OccursAt(s[1..], sub, k - 1);
      }
    } else {
      assert forall k :: !OccursAt(s, sub, k);
    }
  }

  /** A prefix of a substring of s is a substring of s. */
  lemma {:induction false} ContainsPrefixOfInfix(s: string, w: string, p: string)
    requires Contains(s, w) && StartsWith(w, p)
    ensures Contains(s, p)
    decreases |s|
  {
    if StartsWith(s, w) {
      assert s[..|p|] == w[..|p|];
    } else {
      ContainsPrefixOfInfix(s[1..], w, p);
    }
  }

  /** String.prototype.split with a one-character separator. */
  function Split(s: string, sep: char): (r: seq<string>)
    ensures |r| >= 1
  {
    if s == [] then [[]]
    else
      var rest := Split(s[1..], sep);
      if s[0] == sep then [[]] + rest else [[s[0]] + rest[0]] + rest[1..]
  }

  /** Every piece of a split is a substring of the split string; the first
      piece is a prefix of it. */
  lemma {:induction false} SplitPiecesAreInfixes(s: string, sep: char)
    ensures StartsWith(s, Split(s, sep)[0])
    ensures forall w :: w in Split(s, sep) ==> Contains(s, w)
  {
    if s != [] {
      var rest := Split(s[1..], sep);
      SplitPiecesAreInfixes(s[1..], sep);
      assert forall w :: w in rest ==> Contains(s, w);
      if s[0] == sep {
        assert StartsWith(s, []);
      } else {
        var first := [s[0]] + rest[0];
        assert s[..|first|] == [s[0]] + s[1..][..|rest[0]|];
        assert StartsWith(s, first);
        forall w | w in Split(s, sep) ensures Contains(s, w) {
          if w != first {
            assert w in rest[1..];
          }
        }
      }
    }
  }

  predicate IsDigit(c: char)
  {
    '0' <= c <= '9'
  }

  predicate AllDigits(s: string)
  {
    forall i :: 0 <= i < |s| ==> IsDigit(s[i])
  }

  function DigitChar(d: nat): (c: char)
    requires d < 10
    ensures IsDigit(c)
  {
    ('0' as int + d) as char
  }

  function DigitValue(c: char): (d: nat)
    requires IsDigit(c)
    ensures d < 10
  {
    c as int - '0' as int
  }

  /** The decimal text of n, as `${n}` prints a non-negative integer. */
  function NatToString(n: nat): (r: string)
    ensures |r| >= 1 && AllDigits(r)
  {
    if n < 10 then [DigitChar(n)] else NatToString(n / 10) + [DigitChar(n % 10)]
  }

  /** The value of a run of decimal digits. */
  function DigitsValue(s: string): (n: nat)
    requires AllDigits(s)
  {
    if s == [] then 0 else DigitsValue(s[..|s| - 1]) * 10 + DigitValue(s[|s| - 1])
  }

  /** Reading back printed digits gives the number that was printed. */
  lemma {:induction false} DigitsValueOfNatToString(n: nat)
    ensures DigitsValue(NatToString(n)) == n
  {
    if n >= 10 {
      var s := NatToString(n);
      DigitsValueOfNatToString(n / 10);
      assert s[..|s| - 1] == NatToString(n / 10);
    }
  }

  /** Different numbers print differently. */
  lemma NatToStringInjective(m: nat, n: nat)
    requires NatToString(m) == NatToString(n)
    ensures m == n
  {
    DigitsValueOfNatToString(m);
    DigitsValueOfNatToString(n);
  }

  /** The text `${n}` gives an integer: a minus sign before negative ones. */
  function IntToString(n: int): (r: string)
    ensures |r| >= 1
  {
    if n < 0 then "-" + NatToString(-n) else NatToString(n)
  }

  /** Printed integers carry no surrounding whitespace. */
  lemma IntToStringUnpadded(n: int)
    ensures Trim(IntToString(n)) == IntToString(n)
  {
    var s := IntToString(n);
    var digits := NatToString(if n < 0 then -n else n);
    assert s[|s| - 1] == digits[|digits| - 1] by {
      assert s == (if n < 0 then "-" else "") + digits;
    }
    assert IsDigit(s[|s| - 1]);
    assert s[0] == '-' || IsDigit(s[0]);
    TrimUnpadded(s);
  }

  /** The longest run of digits at the start of s. */
  function LeadingDigits(s: string): (r: string)
    ensures StartsWith(s, r) && AllDigits(r)
    ensures |r| == |s| || !IsDigit(s[|r|])
  {
    if s != [] && IsDigit(s[0]) then [s[0]] + LeadingDigits(s[1..]) else []
  }

  /** An ASCII letter, as the regular-expression class [A-Za-z] matches. */
  predicate IsLetter(c: char)
  {
    'A' <= c <= 'Z' || 'a' <= c <= 'z'
  }

  /** The longest run of letters at the start of s. */
  function LeadingLetters(s: string): (r: string)
    ensures StartsWith(s, r) && forall i :: 0 <= i < |r| ==> IsLetter(r[i])
    ensures |r| == |s| || !IsLetter(s[|r|])
  {
    if s != [] && IsLetter(s[0]) then [s[0]] + LeadingLetters(s[1..]) else []
  }

  /** When s has letters before index k and none at k, they are its leading letters. */
  lemma {:induction false} LeadingLettersUpTo(s: string, k: nat)
    requires k < |s| && !IsLetter(s[k])
    requires forall i :: 0 <= i < k ==> IsLetter(s[i])
    ensures |LeadingLetters(s)| == k
  {
    if k > 0 {
      LeadingLettersUpTo(s[1..], k - 1);
    }
  }

  /** A digit of base 16, as parseInt reads them after a "0x" prefix. */
  predicate IsHexDigit(c: char)
  {
    IsDigit(c) || 'a' <= c <= 'f' || 'A' <= c <= 'F'
  }

  function HexDigitValue(c: char): (d: nat)
    requires IsHexDigit(c)
    ensures d < 16
    ensures IsDigit(c) ==> d == DigitValue(c)
  {
    if IsDigit(c) then DigitValue(c)
    else if 'a' <= c <= 'f' then c as int - 'a' as int + 10
    else c as int - 'A' as int + 10
  }

  /** The longest run of base-16 digits at the start of s. */
  function LeadingHexDigits(s: string): (r: string)
    ensures StartsWith(s, r) && forall i :: 0 <= i < |r| ==> IsHexDigit(r[i])
    ensures |r| == |s| || !IsHexDigit(s[|r|])
  {
    if s != [] && IsHexDigit(s[0]) then [s[0]] + LeadingHexDigits(s[1..]) else []
  }

  /** The value of a run of base-16 digits. */
  function HexValue(s: string): (n: nat)
    requires forall i :: 0 <= i < |s| ==> IsHexDigit(s[i])
  {
    if s == [] then 0 else HexValue(s[..|s| - 1]) * 16 + HexDigitValue(s[|s| - 1])
  }

  /** "0x" or "0X" at the start: with no radix given, parseInt reads base 16. */
  predicate HasHexPrefix(s: string)
  {
    |s| >= 2 && s[0] == '0' && (s[1] == 'x' || s[1] == 'X')
  }

  /** The value of the digits at the start of an unsigned numeral, in base 16
      after a hex prefix and in base 10 otherwise; None when there are none. */
  function UnsignedPrefixValue(body: string): (r: Option<nat>)
    ensures HasHexPrefix(body) ==> (r.None? <==> LeadingHexDigits(body[2..]) == [])
    ensures !HasHexPrefix(body) ==> (r.None? <==> LeadingDigits(body) == [])
  {
    if HasHexPrefix(body) then
      var hex := LeadingHexDigits(body[2..]);
      if hex == [] then None else Some(HexValue(hex))
    else
      var digits := LeadingDigits(body);
      if digits == [] then None else Some(DigitsValue(digits))
  }

  /** parseInt(s) with no radix, for its integral result: leading whitespace,
      an optional sign, an optional "0x"/"0X" prefix for base 16, then at
      least one digit of the base; None stands for NaN. */
  function ParseInt(s: string): (r: Option<int>)
  {
    var t := TrimStart(s);
    var negative := t != [] && t[0] == '-';
    var body := if t != [] && (t[0] == '-' || t[0] == '+') then t[1..] else t;
    match UnsignedPrefixValue(body)
    case None => None
    case Some(v) =>
      var magnitude: int := v;
      Some(if negative then -magnitude else magnitude)
  }

  /** A run of decimal digits parses to its value. */
  lemma ParseIntOfDigits(s: string)
    requires s != [] && AllDigits(s)
    ensures ParseInt(s) == Some(DigitsValue(s))
  {
    assert IsDigit(s[0]);
    TrimStartAt(s, 0);
    assert TrimStart(s) == s;
    assert s[0] != '-' && s[0] != '+';
    UnsignedOfDigits(s);
    SignlessParse(s, DigitsValue(s));
  }

  /** Text that starts unsigned and unpadded parses to its unsigned value. */
  lemma SignlessParse(s: string, v: nat)
    requires TrimStart(s) == s && s != [] && s[0] != '-' && s[0] != '+'
    requires UnsignedPrefixValue(s) == Some(v)
    ensures ParseInt(s) == Some(v)
  {
  }

  lemma UnsignedOfDigits(s: string)
    requires s != [] && AllDigits(s)
    ensures UnsignedPrefixValue(s) == Some(DigitsValue(s))
  {
    assert |s| >= 2 ==> IsDigit(s[1]);
    LeadingAllDigits(s);
  }

  /** parseInt reads back what `${n}` printed. */
  lemma ParseIntOfNatToString(n: nat)
    ensures ParseInt(NatToString(n)) == Some(n)
  {
    ParseIntOfDigits(NatToString(n));
    DigitsValueOfNatToString(n);
  }

  /** After "0x" the digits are read in base 16: parseInt("0x" + h) is the
      base-16 value of h. */
  lemma ParseIntOfHex(h: string)
    requires h != [] && forall i :: 0 <= i < |h| ==> IsHexDigit(h[i])
    ensures ParseInt("0x" + h) == Some(HexValue(h))
  {
    var s := "0x" + h;
    TrimStartAt(s, 0);
    assert TrimStart(s) == s;
    assert HasHexPrefix(s);
    assert s[2..] == h;
    LeadingAllHexDigits(h);
    assert UnsignedPrefixValue(s) == Some(HexValue(h));
    SignlessParse(s, HexValue(h));
  }

  lemma {:induction false} LeadingAllHexDigits(s: string)
    requires forall i :: 0 <= i < |s| ==> IsHexDigit(s[i])
    ensures LeadingHexDigits(s) == s
  {
    if s != [] {
      LeadingAllHexDigits(s[1..]);
    }
  }

  lemma {:induction false} LeadingAllDigits(s: string)
    requires AllDigits(s)
    ensures LeadingDigits(s) == s
  {
    if s != [] {
      LeadingAllDigits(s[1..]);
    }
  }

  /** The rest of s from its first character satisfying p on, or empty when
      none does: where the first match of a character-class regex begins. */
  function FromFirst(s: string, p: char -> bool): (r: string)
    ensures |r| <= |s| && r == s[|s| - |r|..]
    ensures r != [] ==> p(r[0])
    ensures forall i :: 0 <= i < |s| - |r| ==> !p(s[i])
  {
    if s == [] || p(s[0]) then s else FromFirst(s[1..], p)
  }

  /** Code-point lexicographic order: the collation localeCompare stands for. */
  predicate LexLe(a: string, b: string)
  {
    a == [] || (b != [] && (a[0] < b[0] || (a[0] == b[0] && LexLe(a[1..], b[1..]))))
  }

  lemma {:induction false} LexLeTotal(a: string, b: string)
    ensures LexLe(a, b) || LexLe(b, a)
  {
    if a != [] && b != [] && a[0] == b[0] {
      LexLeTotal(a[1..], b[1..]);
    }
  }

  lemma {:induction false} LexLeAntisymmetric(a: string, b: string)
    requires LexLe(a, b) && LexLe(b, a)
    ensures a == b
  {
    if a != [] && b != [] {
      LexLeAntisymmetric(a[1..], b[1..]);
      assert a == [a[0]] + a[1..];
      assert b == [b[0]] + b[1..];
    }
  }

  lemma {:induction false} LexLeTransitive(a: string, b: string, c: string)
    requires LexLe(a, b) && LexLe(b, c)
    ensures LexLe(a, c)
  {
    if a != [] && b != [] && c != [] && a[0] == b[0] && b[0] == c[0] {
      LexLeTransitive(a[1..], b[1..], c[1..]);
    }
  }

  lemma {:induction false} LexLeReflexive(a: string)
    ensures LexLe(a, a)
  {
    if a != [] {
      LexLeReflexive(a[1..]);
    }
  }
}
