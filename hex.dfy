/** The command-line parser for keys and blocks: `charToDigit` reads one hexadecimal digit,
    and `hexStringToShort` accumulates the digits of a string, most significant first, into
    a 16-bit `short`, answering -1 at the first character that is not a digit. */
module HexParsing {
  datatype Option<T> = None | Some(value: T)

  /** The answer of both functions for a character that is not a hexadecimal digit. */
  const Invalid := -1

  /** The digit characters of value 0..15: '0'-'9' and then the upper-case letters. */
  const UpperDigits := "0123456789ABCDEF"

  /** The same values with lower-case letters. */
  const LowerDigits := "0123456789abcdef"

  /** `charToDigit`: '0'-'9' give 0-9, 'A'-'F' and 'a'-'f' give 10-15, anything else -1. */
  function CharToDigit(c: char): (d: int)
    ensures -1 <= d < 16
  {
    if '0' <= c <= '9' then c as int - '0' as int
    else if 'A' <= c <= 'F' then 10 + (c as int - 'A' as int)
    else if 'a' <= c <= 'f' then 10 + (c as int - 'a' as int)
    else Invalid
  }

  /** Each digit value is read back from its upper- and its lower-case character. */
  lemma CharToDigitOfDigit(n: nat)
    requires n < 16
    ensures CharToDigit(UpperDigits[n]) == n && CharToDigit(LowerDigits[n]) == n
  {
  }

  /** The other direction: the only characters read as a digit value are its upper- and
      lower-case characters, and every other character is rejected with -1. */
  lemma CharToDigitOnlyDigits(c: char)
    ensures CharToDigit(c) != Invalid ==>
      c == UpperDigits[CharToDigit(c)] || c == LowerDigits[CharToDigit(c)]
    ensures CharToDigit(c) == Invalid <==> c !in UpperDigits && c !in LowerDigits
  {
  }

  /** The characters `hexStringToShort` reads: those before the first NUL, or all of them
      when there is none. */
  function Terminated(s: seq<char>): (t: seq<char>)
    ensures |t| <= |s| && t == s[..|t|]
    ensures forall k :: 0 <= k < |t| ==> t[k] != '\0'
    ensures |t| < |s| ==> s[|t|] == '\0'
  {
    if |s| == 0 || s[0] == '\0' then [] else [s[0]] + Terminated(s[1..])
  }

  /** A string of digits holds no NUL, so the loop reads all of it. */
  lemma {:induction false} TerminatedWithoutNul(s: seq<char>)
    requires forall k :: 0 <= k < |s| ==> CharToDigit(s[k]) != Invalid
    ensures Terminated(s) == s
  {
    if |s| > 0 {
      assert forall k :: 0 <= k < |s| - 1 ==> s[1..][k] == s[k + 1];
      TerminatedWithoutNul(s[1..]);
      assert s == [s[0]] + s[1..];
    }
  }

  /** The conversion of an `int` into a `short`: reduction modulo 2^16 into -2^15..2^15-1. */
  function ToShort(n: int): (r: int)
    ensures -0x8000 <= r < 0x8000
  {
    (n + 0x8000) % 0x10000 - 0x8000
  }

  /** Adding a multiple of 2^16 does not change the `short`. */
  lemma ToShortMultiple(n: int, k: int)
    ensures ToShort(n + k * 0x10000) == ToShort(n)
  {
    var a := n + 0x8000;
    var q, r := a / 0x10000, a % 0x10000;
    assert a == q * 0x10000 + r;
    assert a + k * 0x10000 == (q + k) * 0x10000 + r;
  }

  /** Converting an intermediate value to `short` early does not change the final `short`. */
  lemma ToShortScaled(x: int, y: int, z: int)
    ensures ToShort(ToShort(x) * y + z) == ToShort(x * y + z)
  {
    var q := (x + 0x8000) / 0x10000;
    assert ToShort(x) == x - q * 0x10000;
    assert ToShort(x) * y + z == x * y + z + (- q * y) * 0x10000;
    ToShortMultiple(x * y + z, - q * y);
  }

  /** One step of the loop: `(result << 4) | digit` converted back to `short`. The shift
      leaves the four low bits zero, so the or adds the digit. */
  function ShiftIn(result: int, digit: nat): int
    requires digit < 16
  {
    ToShort(result * 16 + digit)
  }

  /** The loop from accumulator `result` over the characters `t`: None at the first
      character that is not a digit, otherwise the final `short`. */
  function Accumulate(result: int, t: seq<char>): Option<int>
    decreases |t|
  {
    if |t| == 0 then Some(result)
    else
      var digit := CharToDigit(t[0]);
      if digit == Invalid then None else Accumulate(ShiftIn(result, digit), t[1..])
  }

  /** `hexStringToShort`. */
  function HexToShort(s: seq<char>): int {
    match Accumulate(0, Terminated(s))
    case None => Invalid
    case Some(v) => v
  }

  /** `hexStringToShort` as the loop it is: the pointer becomes the index i. */
  method HexStringToShort(str: seq<char>) returns (result: int)
    ensures result == HexToShort(str)
  {
    ghost var t := Terminated(str);
    result := 0;
    var i := 0;
    while i < |str| && str[i] != '\0'
      invariant i <= |t|
      invariant Accumulate(result, t[i..]) == Accumulate(0, t)
    {
      var digit := CharToDigit(str[i]);
      if digit == Invalid {
        return Invalid;
      }
      result := ShiftIn(result, digit);
      i := i + 1;
    }
  }

  /** The parse fails exactly when one of the characters is not a hexadecimal digit. */
  lemma {:induction false} AccumulateFails(result: int, t: seq<char>)
    ensures Accumulate(result, t).None? <==> exists k :: 0 <= k < |t| && CharToDigit(t[k]) == Invalid
    decreases |t|
  {
    if |t| > 0 && CharToDigit(t[0]) != Invalid {
      AccumulateFails(ShiftIn(result, CharToDigit(t[0])), t[1..]);
      assert forall k :: 1 <= k < |t| ==> t[k] == t[1..][k - 1];
    }
  }

  function Pow16(n: nat): nat {
    if n == 0 then 1 else 16 * Pow16(n - 1)
  }

  /** The positional value of a string of digits, most significant first, as an unbounded
      number. */
  function HexNumber(t: seq<char>): nat
    requires forall k :: 0 <= k < |t| ==> CharToDigit(t[k]) != Invalid
  {
    if |t| == 0 then 0 else CharToDigit(t[0]) * Pow16(|t| - 1) + HexNumber(t[1..])
  }

  /** The meaning of the loop: starting from `result`, it leaves the number formed by
      `result` followed by the digits of t, converted to `short`. */
  lemma {:induction false} AccumulateValue(result: int, t: seq<char>)
    requires -0x8000 <= result < 0x8000
    requires forall k :: 0 <= k < |t| ==> CharToDigit(t[k]) != Invalid
    ensures Accumulate(result, t) == Some(ToShort(result * Pow16(|t|) + HexNumber(t)))
    decreases |t|
  {
    if |t| == 0 {
      assert result * Pow16(0) + HexNumber([]) == result;
      ToShortOfShort(result);
    } else {
      var digit := CharToDigit(t[0]);
      var p, rest := Pow16(|t| - 1), HexNumber(t[1..]);
      assert forall k :: 0 <= k < |t| - 1 ==> t[1..][k] == t[k + 1];
      calc {
        Accumulate(result, t);
        Accumulate(ShiftIn(result, digit), t[1..]);
        { AccumulateValue(ShiftIn(result, digit), t[1..]); }
        Some(ToShort(ToShort(result * 16 + digit) * p + rest));
        { ToShortScaled(result * 16 + digit, p, rest); }
        Some(ToShort((result * 16 + digit) * p + rest));
        { ShiftInArithmetic(result, digit, p, rest); }
        Some(ToShort(result * (16 * p) + (digit * p + rest)));
        { assert HexNumber(t) == digit * p + rest && Pow16(|t|) == 16 * p; }
        Some(ToShort(result * Pow16(|t|) + HexNumber(t)));
      }
    }
  }

  /** A value already in the range of `short` is unchanged by the conversion. */
  lemma ToShortOfShort(n: int)
    requires -0x8000 <= n < 0x8000
    ensures ToShort(n) == n
  {
  }

  /** The arithmetic of one step of AccumulateValue: the digit moves from the accumulator
      into the number. */
  lemma ShiftInArithmetic(result: int, digit: int, p: int, rest: int)
    ensures (result * 16 + digit) * p + rest == result * (16 * p) + (digit * p + rest)
  {
  }

  /** The `short` of a number is -1 exactly when the number's low 16 bits are all ones. */
  lemma ToShortIsMinusOne(n: int)
    ensures ToShort(n) == Invalid <==> n % 0x10000 == 0xFFFF
  {
    var a := n + 0x8000;
    assert a == a / 0x10000 * 0x10000 + a % 0x10000;
    assert n == n / 0x10000 * 0x10000 + n % 0x10000;
  }

  /** `hexStringToShort` answers -1 exactly when a character before the terminator is not a
      digit, or when all of them are digits and the number they spell is 0xFFFF modulo
      2^16 (the bits of the `short` -1). */
  lemma HexToShortInvalid(s: seq<char>)
    ensures HexToShort(s) == Invalid <==>
      (exists k :: 0 <= k < |Terminated(s)| && CharToDigit(Terminated(s)[k]) == Invalid)
      || ((forall k :: 0 <= k < |Terminated(s)| ==> CharToDigit(Terminated(s)[k]) != Invalid)
          && HexNumber(Terminated(s)) % 0x10000 == 0xFFFF)
  {
    var t := Terminated(s);
    AccumulateFails(0, t);
    if forall k :: 0 <= k < |t| ==> CharToDigit(t[k]) != Invalid {
      AccumulateValue(0, t);
      assert 0 * Pow16(|t|) + HexNumber(t) == HexNumber(t);
      ToShortIsMinusOne(HexNumber(t));
    }
  }

  /** On a string of digits, `hexStringToShort` is the `short` of the string's number:
      the number reduced modulo 2^16 into -2^15..2^15-1. */
  lemma HexToShortValue(s: seq<char>)
    requires forall k :: 0 <= k < |Terminated(s)| ==> CharToDigit(Terminated(s)[k]) != Invalid
    ensures HexToShort(s) == ToShort(HexNumber(Terminated(s)))
  {
    AccumulateValue(0, Terminated(s));
  }

  /** The loop over p followed by q is the loop over q from where the loop over p ends. */
  lemma {:induction false} AccumulateAppend(result: int, p: seq<char>, q: seq<char>)
    ensures Accumulate(result, p + q)
            == match Accumulate(result, p) case None => None case Some(v) => Accumulate(v, q)
    decreases |p|
  {
    if |p| > 0 {
      assert (p + q)[0] == p[0] && (p + q)[1..] == p[1..] + q;
      var digit := CharToDigit(p[0]);
      if digit != Invalid {
        AccumulateAppend(ShiftIn(result, digit), p[1..], q);
      }
    } else {
      assert p + q == q;
    }
  }

  /** Only the last four digits survive: on a string of digits, the answer is that of its
      last four characters, whatever comes before them. */
  lemma LastFourDigits(t: seq<char>)
    requires |t| >= 4
    requires forall k :: 0 <= k < |t| ==> CharToDigit(t[k]) != Invalid
    ensures Accumulate(0, t) == Accumulate(0, t[|t| - 4..])
  {
    var p, q := t[..|t| - 4], t[|t| - 4..];
    assert t == p + q;
    AccumulateAppend(0, p, q);
    AccumulateValue(0, p);
    var x := Accumulate(0, p).value;
    AccumulateValue(x, q);
    AccumulateValue(0, q);
    assert Pow16(4) == 0x10000;
    ToShortMultiple(HexNumber(q), x);
  }

  /** The four upper-case digits of a 16-bit value, most significant first (the "%04X"
      form in which the program prints its results). */
  function FormatHex(u: nat): (s: seq<char>)
    requires u < 0x10000
    ensures |s| == 4
  {
    [UpperDigits[u / 0x1000], UpperDigits[u / 0x100 % 0x10],
     UpperDigits[u / 0x10 % 0x10], UpperDigits[u % 0x10]]
  }

  /** The value of four digits. */
  lemma HexNumberOfFour(s: seq<char>)
    requires |s| == 4
    requires forall k :: 0 <= k < 4 ==> CharToDigit(s[k]) != Invalid
    ensures HexNumber(s) == CharToDigit(s[0]) * 0x1000 + CharToDigit(s[1]) * 0x100
                            + CharToDigit(s[2]) * 0x10 + CharToDigit(s[3])
  {
    var s1, s2, s3 := s[1..], s[2..], s[3..];
    assert s1[1..] == s2 && s2[1..] == s3 && s3[1..] == [];
    assert HexNumber(s3) == CharToDigit(s[3]);
    assert HexNumber(s2) == CharToDigit(s[2]) * 0x10 + HexNumber(s3);
    assert Pow16(2) == 0x100 && Pow16(3) == 0x1000;
    assert HexNumber(s1) == CharToDigit(s[1]) * 0x100 + HexNumber(s2);
  }

  /** A 16-bit value is the positional value of its four hexadecimal digits. */
  lemma FourDigitsOf(u: nat)
    requires u < 0x10000
    ensures u / 0x1000 < 0x10
    ensures u == u / 0x1000 * 0x1000 + u / 0x100 % 0x10 * 0x100 + u / 0x10 % 0x10 * 0x10 + u % 0x10
  {
    var a := u / 0x10;
    var b := a / 0x10;
    var c := b / 0x10;
    assert u == a * 0x10 + u % 0x10;
    assert a == b * 0x10 + a % 0x10;
    assert b == c * 0x10 + b % 0x10;
    assert a == u / 0x10 && b == u / 0x100 && c == u / 0x1000;
  }

  /** Parsing the printed form of a 16-bit value gives the `short` with those bits. */
  lemma ParseFormatted(u: nat)
    requires u < 0x10000
    ensures HexToShort(FormatHex(u)) == ToShort(u)
  {
    var s := FormatHex(u);
    FourDigitsOf(u);
    CharToDigitOfDigit(u / 0x1000);
    CharToDigitOfDigit(u / 0x100 % 0x10);
    CharToDigitOfDigit(u / 0x10 % 0x10);
    CharToDigitOfDigit(u % 0x10);
    TerminatedWithoutNul(s);
    HexNumberOfFour(s);
    HexToShortValue(s);
  }

  /** An invalid character gives the error answer -1... */
  lemma InvalidGivesSentinel()
    ensures HexToShort("G") == Invalid
  {
    assert Terminated("G") == "G";
  }

  /** ...and so does the valid input "FFFF", so the error cannot be told apart from it. */
  lemma AllOnesGivesSentinel()
    ensures HexToShort("FFFF") == Invalid
  {
    var ones := "FFFF";
    assert forall k :: 0 <= k < 4 ==> CharToDigit(ones[k]) == 15;
    TerminatedWithoutNul(ones);
    HexNumberOfFour(ones);
    assert HexNumber(ones) == 0xFFFF;
    assert ToShort(0xFFFF) == Invalid;
    HexToShortValue(ones);
  }
}
