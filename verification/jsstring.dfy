/**
  The parts of JavaScript string and number semantics that the token logic
  relies on: `String.prototype.trim`, `String.prototype.split(".")`, and the
  `Number(string)` conversion (StringToNumber, section 7.1.4.1.1 of
  ECMA-262). A Dafny `char` is a Unicode scalar value; every character the
  model names lies in the Basic Multilingual Plane, where it is also one
  UTF-16 code unit.

  `Number` is modelled for strings without '.', which is every piece that
  `split(".")` returns and so every string the server converts. `ToNumber`
  keeps the exact mathematical value; `RoundsTo` states when the double
  that `Number` returns for it is 1 or 2, the only values the server tests.
 */
module JsString {
  import opened Wrappers

  // ---------------------------------------------------------------------
  // Whitespace and trim

  /** WhiteSpace and LineTerminator code units (sections 12.2 and 12.3 of ECMA-262). */
  const JsSpaces: set<char> := {
    '\t', '\n', '\U{000B}', '\U{000C}', '\r', ' ', '\U{00A0}', '\U{1680}',
    '\U{2000}', '\U{2001}', '\U{2002}', '\U{2003}', '\U{2004}', '\U{2005}',
    '\U{2006}', '\U{2007}', '\U{2008}', '\U{2009}', '\U{200A}',
    '\U{2028}', '\U{2029}', '\U{202F}', '\U{205F}', '\U{3000}', '\U{FEFF}'
  }

  predicate IsJsSpace(ch: char)
  {
    ch in JsSpaces
  }

  /** Whitespace code units lie below '0' or at and above U+00A0; none of them is '.'. */
  lemma SpaceRange(ch: char)
    requires IsJsSpace(ch)
    ensures ch < '.' || '\U{00A0}' <= ch
  {
  }

  predicate AllSpace(s: string)
  {
    forall i :: 0 <= i < |s| ==> IsJsSpace(s[i])
  }

  /** Number of whitespace code units at the start of s. */
  function LeadingSpace(s: string): (n: nat)
    ensures n <= |s|
    ensures forall k :: 0 <= k < n ==> IsJsSpace(s[k])
    ensures n < |s| ==> !IsJsSpace(s[n])
  {
    if |s| > 0 && IsJsSpace(s[0]) then 1 + LeadingSpace(s[1..]) else 0
  }

  /** Length of s without the whitespace at its end. */
  function TrailingStart(s: string): (n: nat)
    ensures n <= |s|
    ensures forall k :: n <= k < |s| ==> IsJsSpace(s[k])
    ensures n > 0 ==> !IsJsSpace(s[n - 1])
  {
    if |s| > 0 && IsJsSpace(s[|s| - 1]) then TrailingStart(s[..|s| - 1]) else |s|
  }

  /** The contract of `LeadingSpace` determines its value. */
  lemma LeadingSpaceUnique(s: string, n: nat)
    requires n <= |s|
    requires forall k :: 0 <= k < n ==> IsJsSpace(s[k])
    requires n < |s| ==> !IsJsSpace(s[n])
    ensures LeadingSpace(s) == n
  {
  }

  /** The contract of `TrailingStart` determines its value. */
  lemma TrailingStartUnique(s: string, n: nat)
    requires n <= |s|
    requires forall k :: n <= k < |s| ==> IsJsSpace(s[k])
    requires n > 0 ==> !IsJsSpace(s[n - 1])
    ensures TrailingStart(s) == n
  {
  }

  /** `s.trim()`: s without its leading and trailing whitespace. */
  function Trim(s: string): (t: string)
    ensures t == [] || (!IsJsSpace(t[0]) && !IsJsSpace(t[|t| - 1]))
    ensures t == [] <==> AllSpace(s)
  {
    var i := LeadingSpace(s);
    if i == |s| then []
    else
      var j := TrailingStart(s);
      assert i < j;
      s[i..j]
  }

  /** Trimming whitespace, then text with non-space ends, then whitespace, gives that text. */
  lemma TrimPadded(a: string, t: string, b: string)
    requires AllSpace(a) && AllSpace(b)
    requires t == [] || (!IsJsSpace(t[0]) && !IsJsSpace(t[|t| - 1]))
    ensures Trim(a + t + b) == t
  {
    var s := a + t + b;
    assert forall k :: 0 <= k < |a| ==> s[k] == a[k];
    assert forall k :: 0 <= k < |t| ==> s[|a| + k] == t[k];
    assert forall k :: 0 <= k < |b| ==> s[|a| + |t| + k] == b[k];
    if t == [] {
      assert AllSpace(s);
    } else {
      LeadingSpaceUnique(s, |a|);
      TrailingStartUnique(s, |a| + |t|);
      assert s[|a|..|a| + |t|] == t;
    }
  }

  /** Every string is its trimmed text with whitespace around it. */
  lemma TrimSplits(s: string) returns (a: string, b: string)
    ensures AllSpace(a) && AllSpace(b) && s == a + Trim(s) + b
  {
    var i := LeadingSpace(s);
    if i == |s| {
      a, b := s, [];
      assert Trim(s) == [];
      assert s == a + [] + b;
    } else {
      var j := TrailingStart(s);
      assert Trim(s) == s[i..j];
      a, b := s[..i], s[j..];
      assert forall k :: 0 <= k < |a| ==> a[k] == s[k];
      assert forall k :: 0 <= k < |b| ==> b[k] == s[j + k];
      assert s == a + s[i..j] + b;
    }
  }

  /** Trimming twice is trimming once. */
  lemma TrimIdempotent(s: string)
    ensures Trim(Trim(s)) == Trim(s)
  {
    TrimPadded([], Trim(s), []);
    assert [] + Trim(s) + [] == Trim(s);
  }

  // ---------------------------------------------------------------------
  // split(".") and its inverse join(".")

  /** Index of the first '.' in s. */
  function DotIndex(s: string): (i: nat)
    requires '.' in s
    ensures i < |s| && s[i] == '.' && '.' !in s[..i]
  {
    if s[0] == '.' then 0
    else
      var j := DotIndex(s[1..]);
      assert s[..j + 1] == [s[0]] + s[1..][..j];
      j + 1
  }

  /** `s.split(".")`: the pieces of s between dots; one piece when there is no dot. */
  function Split(s: string): (parts: seq<string>)
    ensures |parts| >= 1
    ensures forall i :: 0 <= i < |parts| ==> '.' !in parts[i]
    decreases |s|
  {
    if '.' in s then
      var i := DotIndex(s);
      [s[..i]] + Split(s[i + 1..])
    else
      [s]
  }

  /** `parts.join(".")`. */
  function Join(parts: seq<string>): string
    requires |parts| >= 1
  {
    if |parts| == 1 then parts[0] else parts[0] + "." + Join(parts[1..])
  }

  /** Splitting a string whose first piece is dot-free peels that piece off. */
  lemma SplitCons(a: string, b: string)
    requires '.' !in a
    ensures Split(a + "." + b) == [a] + Split(b)
  {
    var s := a + "." + b;
    assert s[|a|] == '.';
    assert s[..|a|] == a;
    assert s[|a| + 1..] == b;
  }

  /** Splitting at a dot between x and y splits x and y separately. */
  lemma {:induction false} SplitAppend(x: string, y: string)
    ensures Split(x + "." + y) == Split(x) + Split(y)
    decreases |x|
  {
    if '.' in x {
      var i := DotIndex(x);
      var x0, x1 := x[..i], x[i + 1..];
      assert x == x0 + "." + x1;
      assert x + "." + y == x0 + "." + (x1 + "." + y);
      SplitCons(x0, x1 + "." + y);
      SplitCons(x0, x1);
      SplitAppend(x1, y);
    } else {
      SplitCons(x, y);
    }
  }

  /** Joining the pieces of a split gives back the string. */
  lemma {:induction false} JoinSplit(s: string)
    ensures Join(Split(s)) == s
    decreases |s|
  {
    if '.' in s {
      var i := DotIndex(s);
      JoinSplit(s[i + 1..]);
      assert s == s[..i] + "." + s[i + 1..];
    }
  }

  /** Splitting a join of dot-free pieces gives back the pieces. */
  lemma {:induction false} SplitJoin(parts: seq<string>)
    requires |parts| >= 1
    requires forall i :: 0 <= i < |parts| ==> '.' !in parts[i]
    ensures Split(Join(parts)) == parts
  {
    if |parts| > 1 {
      SplitJoin(parts[1..]);
      SplitCons(parts[0], Join(parts[1..]));
      assert parts == [parts[0]] + parts[1..];
    }
  }

  // ---------------------------------------------------------------------
  // Number(string)

  /** A Number value: NaN, an infinity, or a finite value (kept exact). */
  datatype NumValue = NaN | Infinity(negative: bool) | Finite(value: real)

  /** The value of a digit character in bases up to 16; 16 for any other character. */
  function DigitValue(ch: char): nat
  {
    if '0' <= ch <= '9' then ch as nat - '0' as nat
    else if 'a' <= ch <= 'f' then ch as nat - 'a' as nat + 10
    else if 'A' <= ch <= 'F' then ch as nat - 'A' as nat + 10
    else 16
  }

  /** Every character of ds is a digit of the given radix. */
  predicate AllDigits(ds: string, radix: nat)
  {
    forall i :: 0 <= i < |ds| ==> DigitValue(ds[i]) < radix
  }

  /** The value of the digit string ds in the given radix, most significant digit first. */
  function DigitsValue(ds: string, radix: nat): nat
  {
    if |ds| == 0 then 0
    else DigitsValue(ds[..|ds| - 1], radix) * radix + DigitValue(ds[|ds| - 1])
  }

  function Pow10(n: nat): (p: nat)
    ensures p >= 1
  {
    if n == 0 then 1 else 10 * Pow10(n - 1)
  }

  /** m times ten to the power e, exactly. */
  function ScaleByTen(m: nat, e: int): real
  {
    if e >= 0 then (m * Pow10(e)) as real else m as real / Pow10(-e) as real
  }

  /** NonDecimalIntegerLiteral after its prefix: at least one digit of the radix. */
  function RadixInteger(ds: string, radix: nat): NumValue
  {
    if |ds| >= 1 && AllDigits(ds, radix) then Finite(DigitsValue(ds, radix) as real) else NaN
  }

  /** Index of the first exponent indicator 'e' or 'E' in u, or |u| when there is none. */
  function ExponentIndex(u: string): (k: nat)
    ensures k <= |u|
    ensures forall i :: 0 <= i < k ==> u[i] != 'e' && u[i] != 'E'
    ensures k < |u| ==> u[k] == 'e' || u[k] == 'E'
  {
    if |u| == 0 || u[0] == 'e' || u[0] == 'E' then 0 else 1 + ExponentIndex(u[1..])
  }

  /** SignedInteger of an exponent: an optional sign and at least one decimal digit. */
  function SignedInteger(x: string): Option<int>
  {
    var neg := |x| >= 1 && x[0] == '-';
    var ds := if |x| >= 1 && (x[0] == '+' || x[0] == '-') then x[1..] else x;
    if |ds| >= 1 && AllDigits(ds, 10) then
      Some(if neg then -(DigitsValue(ds, 10) as int) else DigitsValue(ds, 10) as int)
    else None
  }

  /** StrUnsignedDecimalLiteral without a fraction: "Infinity", or digits with an optional exponent. */
  function UnsignedDecimal(u: string, negative: bool): NumValue
  {
    if u == "Infinity" then Infinity(negative)
    else
      var k := ExponentIndex(u);
      var m := u[..k];
      var e := if k == |u| then Some(0) else SignedInteger(u[k + 1..]);
      if |m| == 0 || !AllDigits(m, 10) || e.None? then NaN
      else
        var v := ScaleByTen(DigitsValue(m, 10), e.value);
        Finite(if negative then -v else v)
  }

  /**
    StringNumericLiteral on already-trimmed text without '.': the empty
    string is 0; "0x", "0o" and "0b" (either case) introduce an unsigned
    integer in base 16, 8 or 2; otherwise an optional sign precedes
    "Infinity" or decimal digits with an optional exponent. Anything else
    is NaN.
   */
  function NumericLiteral(t: string): NumValue
  {
    if t == [] then Finite(0.0)
    else if |t| >= 2 && t[0] == '0' && (t[1] == 'x' || t[1] == 'X') then RadixInteger(t[2..], 16)
    else if |t| >= 2 && t[0] == '0' && (t[1] == 'o' || t[1] == 'O') then RadixInteger(t[2..], 8)
    else if |t| >= 2 && t[0] == '0' && (t[1] == 'b' || t[1] == 'B') then RadixInteger(t[2..], 2)
    else if t[0] == '+' then UnsignedDecimal(t[1..], false)
    else if t[0] == '-' then UnsignedDecimal(t[1..], true)
    else UnsignedDecimal(t, false)
  }

  /** `Number(s)` for a string without '.': the numeric literal that s is, once trimmed. */
  function ToNumber(s: string): NumValue
    requires '.' !in s
  {
    NumericLiteral(Trim(s))
  }

  // ---------------------------------------------------------------------
  // Rounding to the doubles 1 and 2

  const TwoTo52: real := 4503599627370496.0
  const TwoTo53: real := 9007199254740992.0
  const TwoTo54: real := 18014398509481984.0

  /**
    The double that `Number` returns for v is k, for k = 1 or 2: the exact
    value rounds to k under round-to-nearest, ties-to-even (section 6.1.6.1
    of ECMA-262). The doubles next to 1 are 1 - 2^-53 and 1 + 2^-52, those
    next to 2 are 2 - 2^-52 and 2 + 2^-51, and the midpoints round to k,
    whose significand is even. No other k is needed.
   */
  predicate RoundsTo(v: NumValue, k: int)
  {
    && v.Finite?
    && ((k == 1 && 1.0 - 1.0 / TwoTo54 <= v.value <= 1.0 + 1.0 / TwoTo53)
     || (k == 2 && 2.0 - 1.0 / TwoTo53 <= v.value <= 2.0 + 1.0 / TwoTo52))
  }

  /** An integer value rounds to 1 or 2 exactly when it is that integer, and no value rounds to both. */
  lemma RoundsToIntegers(n: int, k: int)
    ensures RoundsTo(Finite(n as real), k) <==> (k == 1 || k == 2) && n == k
    ensures !(RoundsTo(Finite(n as real), 1) && RoundsTo(Finite(n as real), 2))
  {
  }
  /** No value rounds to both 1 and 2. */
  lemma RoundsToOneOrTwo(v: NumValue)
    ensures !(RoundsTo(v, 1) && RoundsTo(v, 2))
  {
  }


  /** Whitespace around a string does not change its Number value. */
  lemma NumberIgnoresPadding(a: string, s: string, b: string)
    requires '.' !in a + s + b
    requires AllSpace(a) && AllSpace(b)
    ensures '.' !in s
    ensures ToNumber(a + s + b) == ToNumber(s)
  {
    assert forall i :: 0 <= i < |s| ==> s[i] == (a + s + b)[|a| + i];
    TrimAbsorbs(a, s, b);
  }

  /** Whitespace around a string does not change its trimmed text. */
  lemma TrimAbsorbs(a: string, s: string, b: string)
    requires AllSpace(a) && AllSpace(b)
    ensures Trim(a + s + b) == Trim(s)
  {
    var t := Trim(s);
    var a', b' := TrimSplits(s);
    Regroup(a, a', t, b', b);
    AllSpaceConcat(a, a');
    AllSpaceConcat(b', b);
    TrimPadded(a + a', t, b' + b);
  }

  lemma Regroup(a: string, a': string, t: string, b': string, b: string)
    ensures a + (a' + t + b') + b == (a + a') + t + (b' + b)
  {
  }

  lemma AllSpaceConcat(a: string, b: string)
    requires AllSpace(a) && AllSpace(b)
    ensures AllSpace(a + b)
  {
    assert forall k :: 0 <= k < |a + b| ==> (a + b)[k] == if k < |a| then a[k] else b[k - |a|];
  }

  /** Text without surrounding whitespace converts as the literal it is. */
  lemma NumberOfTrimmed(t: string)
    requires '.' !in t
    requires t == [] || (!IsJsSpace(t[0]) && !IsJsSpace(t[|t| - 1]))
    ensures ToNumber(t) == NumericLiteral(t)
  {
    TrimPadded([], t, []);
    assert [] + t + [] == t;
  }

  // ---------------------------------------------------------------------
  // Decimal rendering of naturals, String(n)

  function DigitChar(d: nat): (ch: char)
    requires d < 10
    ensures DigitValue(ch) == d && '0' <= ch <= '9'
  {
    ['0', '1', '2', '3', '4', '5', '6', '7', '8', '9'][d]
  }

  /** `String(n)` for a natural number n: its decimal digits, without leading zeros. */
  function DecimalString(n: nat): (s: string)
    ensures |s| >= 1 && AllDigits(s, 10)
    ensures forall i :: 0 <= i < |s| ==> '0' <= s[i] <= '9'
    ensures |s| > 1 ==> s[0] != '0'
    ensures DigitsValue(s, 10) == n
  {
    if n < 10 then [DigitChar(n)]
    else
      var s := DecimalString(n / 10) + [DigitChar(n % 10)];
      assert s[..|s| - 1] == DecimalString(n / 10);
      s
  }

  /** A decimal rendering holds neither whitespace nor '.'. */
  lemma DecimalPlain(n: nat)
    ensures forall i :: 0 <= i < |DecimalString(n)| ==>
      !IsJsSpace(DecimalString(n)[i]) && DecimalString(n)[i] != '.'
  {
    var s := DecimalString(n);
    forall i | 0 <= i < |s|
      ensures !IsJsSpace(s[i]) && s[i] != '.'
    {
      if IsJsSpace(s[i]) {
        SpaceRange(s[i]);
      }
    }
  }

  /** Number(String(n)) == n: the decimal rendering converts back to the same value. */
  lemma NumberOfDecimal(n: nat)
    ensures '.' !in DecimalString(n)
    ensures ToNumber(DecimalString(n)) == Finite(n as real)
  {
    var s := DecimalString(n);
    DecimalPlain(n);
    NumberOfTrimmed(s);
    DecimalLiteral(n);
  }

  lemma DecimalLiteral(n: nat)
    ensures NumericLiteral(DecimalString(n)) == Finite(n as real)
  {
    var s := DecimalString(n);
    assert s != "Infinity" by {
      assert s[0] != "Infinity"[0];
    }
    assert ExponentIndex(s) == |s|;
    assert s[..|s|] == s;
  }

  /** A decimal mantissa with a negative decimal exponent, "<m>e-<e>", is m / 10^e exactly. */
  lemma NumberOfScientific(m: nat, e: nat)
    ensures '.' !in DecimalString(m) + "e-" + DecimalString(e)
    ensures ToNumber(DecimalString(m) + "e-" + DecimalString(e))
      == Finite(m as real / Pow10(e) as real)
  {
    var d, x := DecimalString(m), DecimalString(e);
    var s := d + ("e" + ("-" + x));
    assert d + "e-" + x == s;
    DecimalPlain(m);
    DecimalPlain(e);
    ScientificPlain(d, x);
    NumberOfTrimmed(s);
    ScientificLiteral(d, x);
  }

  /** Digits, "e-" and digits: no '.', and no whitespace at either end. */
  lemma ScientificPlain(d: string, x: string)
    requires |d| >= 1 && |x| >= 1
    requires forall i :: 0 <= i < |d| ==> '0' <= d[i] <= '9'
    requires forall i :: 0 <= i < |x| ==> '0' <= x[i] <= '9'
    ensures var s := d + ("e" + ("-" + x));
      '.' !in s && !IsJsSpace(s[0]) && !IsJsSpace(s[|s| - 1])
  {
    var s := d + ("e" + ("-" + x));
    assert forall i :: 0 <= i < |s| ==>
      s[i] == if i < |d| then d[i] else if i == |d| then 'e' else if i == |d| + 1 then '-' else x[i - |d| - 2];
    if IsJsSpace(s[0]) {
      SpaceRange(s[0]);
    }
    if IsJsSpace(s[|s| - 1]) {
      SpaceRange(s[|s| - 1]);
    }
  }

  /** The literal "<d>e-<x>" has the value of d divided by ten to the power x. */
  lemma ScientificLiteral(d: string, x: string)
    requires |d| >= 1 && |x| >= 1
    requires forall i :: 0 <= i < |d| ==> '0' <= d[i] <= '9'
    requires AllDigits(d, 10) && AllDigits(x, 10)
    ensures NumericLiteral(d + ("e" + ("-" + x)))
      == Finite(DigitsValue(d, 10) as real / Pow10(DigitsValue(x, 10)) as real)
  {
    var s := d + ("e" + ("-" + x));
    assert s[0] == d[0];
    assert s[1] == if |d| >= 2 then d[1] else 'e';
    DigitLiteral(s);
    assert s != "Infinity" by {
      assert s[0] != "Infinity"[0];
    }
    ExponentAfterDigits(d, "e" + ("-" + x));
    assert s[..|d|] == d;
    assert s[|d| + 1..] == "-" + x;
    MinusExponent(x);
    ScaleDown(DigitsValue(d, 10), DigitsValue(x, 10));
  }

  /** A negative exponent divides; exponent 0 leaves the value alone either way. */
  lemma ScaleDown(m: nat, n: nat)
    ensures ScaleByTen(m, -(n as int)) == m as real / Pow10(n) as real
  {
    if n == 0 {
      assert Pow10(0) == 1;
    }
  }

  /** A literal that starts with a decimal digit and no radix prefix is read as an unsigned decimal. */
  lemma DigitLiteral(t: string)
    requires |t| >= 2 && '0' <= t[0] <= '9'
    requires t[1] !in "xXoObB"
    ensures NumericLiteral(t) == UnsignedDecimal(t, false)
  {
  }

  /** The exponent indicator after a run of decimal digits is found right after them. */
  lemma {:induction false} ExponentAfterDigits(d: string, t: string)
    requires forall i :: 0 <= i < |d| ==> '0' <= d[i] <= '9'
    requires |t| >= 1 && t[0] == 'e'
    ensures ExponentIndex(d + t) == |d|
    decreases |d|
  {
    if |d| > 0 {
      assert (d + t)[1..] == d[1..] + t;
      ExponentAfterDigits(d[1..], t);
    }
  }

  /** A minus sign before decimal digits gives the negated exponent. */
  lemma MinusExponent(x: string)
    requires |x| >= 1 && AllDigits(x, 10)
    ensures SignedInteger("-" + x) == Some(-(DigitsValue(x, 10) as int))
  {
    assert ("-" + x)[1..] == x;
  }

  /** 10^(a+b) = 10^a * 10^b. */
  lemma {:induction false} Pow10Add(a: nat, b: nat)
    ensures Pow10(a + b) == Pow10(a) * Pow10(b)
    decreases b
  {
    if b > 0 {
      Pow10Add(a, b - 1);
    }
  }

  lemma {:induction false} Pow10Monotone(a: nat, b: nat)
    requires a <= b
    ensures Pow10(a) <= Pow10(b)
    decreases b
  {
    if a < b {
      Pow10Monotone(a, b - 1);
    }
  }

  /**
    For e >= 16, the string "1", e - 1 zeros, "1e-", e (for instance
    "10000000000000001e-16") is 1 + 10^-e, which lies closer to 1 than to
    the next double 1 + 2^-52, so `Number` returns 1 for it although its
    exact value is not 1.
   */
  lemma JustAboveOneRounds(e: nat)
    requires e >= 16
    ensures '.' !in DecimalString(Pow10(e) + 1) + "e-" + DecimalString(e)
    ensures var n := ToNumber(DecimalString(Pow10(e) + 1) + "e-" + DecimalString(e));
      n.Finite? && n.value > 1.0 && RoundsTo(n, 1)
  {
    MantissaAboveOne(Pow10(e) + 1, e);
  }

  lemma MantissaAboveOne(m: nat, e: nat)
    requires e >= 16 && m == Pow10(e) + 1
    ensures '.' !in DecimalString(m) + "e-" + DecimalString(e)
    ensures var n := ToNumber(DecimalString(m) + "e-" + DecimalString(e));
      n.Finite? && n.value > 1.0 && RoundsTo(n, 1)
  {
    NumberOfScientific(m, e);
    Pow10Large(e);
    OneOverLarge(m, Pow10(e));
  }

  /** 10^e >= 2^53 once e >= 16. */
  lemma Pow10Large(e: nat)
    requires e >= 16
    ensures Pow10(e) as real >= TwoTo53
  {
    assert Pow10(4) == 10000;
    Pow10Add(4, 4);
    Pow10Add(8, 8);
    Pow10Monotone(16, e);
  }

  /** m / p, for m = p + 1, lies above 1 and within 2^-53 of it once p >= 2^53. */
  lemma OneOverLarge(m: nat, p: nat)
    requires m == p + 1 && p as real >= TwoTo53
    ensures 1.0 < m as real / p as real <= 1.0 + 1.0 / TwoTo53
  {
    var q := p as real;
    assert m as real == q + 1.0;
    var y := 1.0 / q;
    assert (q + 1.0) / q == 1.0 + y;
    assert 0.0 < y;
    assert y <= 1.0 / TwoTo53 by {
      assert y * q == 1.0;
      assert y * TwoTo53 <= y * q;
    }
  }

  /** A numeral padded with a space and a line feed reads as 1. */
  lemma NumberOfPaddedOne()
    ensures ToNumber(" 1\n") == Finite(1.0)
  {
    NumberOfDecimal(1);
    assert DecimalString(1) == "1";
    NumberIgnoresPadding(" ", "1", "\n");
    assert " " + "1" + "\n" == " 1\n";
  }

  /** A decimal numeral with a plus sign keeps its value. */
  lemma PlusDecimal(n: nat)
    ensures '.' !in "+" + DecimalString(n)
    ensures ToNumber("+" + DecimalString(n)) == Finite(n as real)
  {
    var d := DecimalString(n);
    DecimalPlain(n);
    assert ("+" + d)[|d|] == d[|d| - 1];
    NumberOfTrimmed("+" + d);
    SignLiteral(d);
    DecimalUnsigned(n);
  }

  /** A decimal numeral with a minus sign is negated. */
  lemma MinusDecimal(n: nat)
    ensures '.' !in "-" + DecimalString(n)
    ensures ToNumber("-" + DecimalString(n)) == Finite(-(n as real))
  {
    var d := DecimalString(n);
    DecimalPlain(n);
    assert ("-" + d)[|d|] == d[|d| - 1];
    NumberOfTrimmed("-" + d);
    SignLiteral(d);
    DecimalUnsigned(n);
  }

  /** A leading sign hands the rest of the literal to the unsigned decimal grammar. */
  lemma SignLiteral(u: string)
    ensures NumericLiteral("+" + u) == UnsignedDecimal(u, false)
    ensures NumericLiteral("-" + u) == UnsignedDecimal(u, true)
  {
    assert ("+" + u)[0] == '+' && ("+" + u)[1..] == u;
    assert ("-" + u)[0] == '-' && ("-" + u)[1..] == u;
  }

  lemma DecimalUnsigned(n: nat)
    ensures UnsignedDecimal(DecimalString(n), false) == Finite(n as real)
    ensures UnsignedDecimal(DecimalString(n), true) == Finite(-(n as real))
  {
    var s := DecimalString(n);
    assert s != "Infinity" by {
      assert s[0] != "Infinity"[0];
    }
    assert ExponentIndex(s) == |s|;
    assert s[..|s|] == s;
  }

  /** A hexadecimal prefix leaves the value 2. */
  lemma HexSpellingOfTwo()
    ensures ToNumber("0x2") == Finite(2.0)
  {
    NumberOfTrimmed("0x2");
    assert "0x2"[2..] == "2";
  }

  /** An exponent of zero leaves the value 2. */
  lemma ExponentSpellingOfTwo()
    ensures ToNumber("2e0") == Finite(2.0)
  {
    NumberOfTrimmed("2e0");
    assert ExponentIndex("2e0") == 1;
    assert "2e0"[..1] == "2";
    assert "2e0"[2..] == "0";
  }

  /** The empty string reads as 0, and a trailing letter makes NaN. */
  lemma NonColourSpellings()
    ensures ToNumber("") == Finite(0.0)
    ensures ToNumber("1x") == NaN
  {
    NumberOfTrimmed("");
    NumberOfTrimmed("1x");
    assert ExponentIndex("1x") == 2;
    assert "1x"[..2] == "1x";
    assert DigitValue("1x"[1]) == 16;
  }
}
