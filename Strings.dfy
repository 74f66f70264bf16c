/**
 * The few .NET string operations the core relies on, stated on `seq<char>`:
 * `String.IndexOf(char)`, `String.Split(char)`, `Int32.Parse`/`Int32.TryParse`
 * with the sign symbols `-` and `+`, and `Int32.ToString()` / `Boolean.ToString()`.
 */
module Strings {
  import opened Wrappers

  const Int32Min: int := -0x8000_0000
  const Int32Max: int := 0x7fff_ffff

  predicate InInt32(n: int) {
    Int32Min <= n <= Int32Max
  }

  /** `String.IndexOf(char)`: the position of the first `c`, or -1. */
  function IndexOf(s: string, c: char): (i: int)
    ensures -1 <= i < |s|
    ensures i == -1 ==> forall j | 0 <= j < |s| :: s[j] != c
    ensures 0 <= i ==> s[i] == c && forall j | 0 <= j < i :: s[j] != c
  {
    if |s| == 0 then -1
    else if s[0] == c then 0
    else
      var j := IndexOf(s[1..], c);
      if j == -1 then -1 else j + 1
  }

  /** `String.Split(char)` without options: every field, empty ones included. */
  function Split(s: string, c: char): (fields: seq<string>)
    ensures |fields| == multiset(s)[c] + 1
    decreases |s|
  {
    var i := IndexOf(s, c);
    if i < 0 then
      assert multiset(s)[c] == 0;
      [s]
    else
      assert s == s[..i] + [c] + s[i + 1..];
      assert multiset(s[..i])[c] == 0;
      [s[..i]] + Split(s[i + 1..], c)
  }

  /** A string holding exactly one `c` splits into the text before and after it. */
  lemma SplitAtOnlySeparator(s: string, c: char)
    requires multiset(s)[c] == 1
    ensures 0 <= IndexOf(s, c)
    ensures Split(s, c) == [s[..IndexOf(s, c)], s[IndexOf(s, c) + 1..]]
  {
    assert c in multiset(s);
    var i := IndexOf(s, c);
    assert 0 <= i;
    var rest := s[i + 1..];
    assert s == s[..i] + [c] + rest;
    assert multiset(s) == multiset(s[..i]) + multiset{c} + multiset(rest);
    assert multiset(s[..i])[c] == 0;
    assert multiset(rest)[c] == 0;
    assert Split(rest, c) == [rest];
    assert Split(s, c) == [s[..i]] + Split(rest, c);
  }

  /** Joining two `c`-free texts with one `c` and splitting on `c` gives the two texts back. */
  lemma SplitJoined(left: string, right: string, c: char)
    requires multiset(left)[c] == 0 && multiset(right)[c] == 0
    ensures IndexOf(left + [c] + right, c) == |left|
    ensures Split(left + [c] + right, c) == [left, right]
  {
    var s := left + [c] + right;
    assert multiset(s) == multiset(left) + multiset{c} + multiset(right);
    SplitAtOnlySeparator(s, c);
    assert s[|left|] == c;
    assert s[..|left|] == left;
    assert s[|left| + 1..] == right;
  }

  /** The characters `Char.IsWhiteSpace` accepts among those `Int32.Parse` trims. */
  predicate IsWhite(ch: char) {
    ch == ' ' || 9 <= ch as int <= 13
  }

  predicate IsDigit(ch: char) {
    '0' <= ch <= '9'
  }

  predicate AllDigits(s: string) {
    forall i | 0 <= i < |s| :: IsDigit(s[i])
  }

  function TrimStart(s: string): string {
    if |s| > 0 && IsWhite(s[0]) then TrimStart(s[1..]) else s
  }

  function TrimEnd(s: string): string {
    if |s| > 0 && IsWhite(s[|s| - 1]) then TrimEnd(s[..|s| - 1]) else s
  }

  function DigitValue(ch: char): nat
    requires IsDigit(ch)
  {
    ch as int - '0' as int
  }

  /** The value of a run of decimal digits, most significant first; `None` if some character is not a digit. */
  function DigitsValue(s: string): Option<nat> {
    if |s| == 0 then Some(0)
    else match DigitsValue(s[..|s| - 1])
      case None => None
      case Some(v) => if IsDigit(s[|s| - 1]) then Some(10 * v + DigitValue(s[|s| - 1])) else None
  }

  datatype NumberError = FormatError | OverflowError

  /** The value of a trimmed number: an optional sign and the digits after it. */
  function ParseSigned(t: string): Result<int, NumberError> {
    var negative := |t| > 0 && t[0] == '-';
    var digits := if |t| > 0 && (t[0] == '-' || t[0] == '+') then t[1..] else t;
    if |digits| == 0 then Failure(FormatError)
    else match DigitsValue(digits)
      case None => Failure(FormatError)
      case Some(magnitude) =>
        var v := if negative then -(magnitude as int) else magnitude as int;
        if InInt32(v) then Success(v) else Failure(OverflowError)
  }

  /**
   * `Int32.Parse` with `NumberStyles.Integer`: optional white space, an optional
   * `-` or `+`, one or more ASCII digits, optional white space. Text of another
   * shape is a `FormatException`; a well-formed number outside the 32-bit range
   * is an `OverflowException`. `Int32.TryParse` succeeds exactly when this does.
   */
  function ParseInt32(s: string): (r: Result<int, NumberError>)
    ensures r.Success? ==> InInt32(r.value)
  {
    ParseSigned(TrimEnd(TrimStart(s)))
  }

  function DigitChar(d: nat): (ch: char)
    requires d < 10
    ensures IsDigit(ch) && DigitValue(ch) == d
  {
    ('0' as int + d) as char
  }

  /** `ToString()` of a non-negative integer: decimal, no leading zeros. */
  function NatToString(n: nat): (s: string)
    ensures |s| > 0 && AllDigits(s)
  {
    if n < 10 then [DigitChar(n)] else NatToString(n / 10) + [DigitChar(n % 10)]
  }

  /** `Int32.ToString()`, with `-` as the negative sign. */
  function IntToString(n: int): (s: string)
    ensures |s| > 0
  {
    if n < 0 then "-" + NatToString(-n) else NatToString(n)
  }

  /** `Boolean.ToString()`. */
  function BoolToString(b: bool): string {
    if b then "True" else "False"
  }

  lemma {:induction false} DigitsOfNatToString(n: nat)
    ensures DigitsValue(NatToString(n)) == Some(n)
  {
    var s := NatToString(n);
    if n >= 10 {
      DigitsOfNatToString(n / 10);
      assert s[..|s| - 1] == NatToString(n / 10);
    }
  }

  /** Formatting an in-range integer and parsing the text gives the integer back. */
  lemma ParseIntToString(n: int)
    requires InInt32(n)
    ensures ParseInt32(IntToString(n)) == Success(n)
  {
    var s := IntToString(n);
    var d := NatToString(if n < 0 then -n else n);
    DigitsOfNatToString(if n < 0 then -n else n);
    assert !IsWhite(s[0]);
    assert TrimStart(s) == s;
    assert IsDigit(s[|s| - 1]);
    assert TrimEnd(s) == s;
    if n < 0 {
      assert s[1..] == d;
    } else {
      assert s[0] != '-' && s[0] != '+';
    }
  }

  /** Formatting an integer outside 32 bits and parsing the text is an overflow, not a format error. */
  lemma ParseIntToStringOverflow(n: int)
    requires !InInt32(n)
    ensures ParseInt32(IntToString(n)) == Failure(OverflowError)
  {
    var s := IntToString(n);
    var d := NatToString(if n < 0 then -n else n);
    DigitsOfNatToString(if n < 0 then -n else n);
    assert !IsWhite(s[0]);
    assert TrimStart(s) == s;
    assert IsDigit(s[|s| - 1]);
    assert TrimEnd(s) == s;
    if n < 0 {
      assert s[1..] == d;
    } else {
      assert s[0] != '-' && s[0] != '+';
    }
  }

  /**
   * Any well-formed number outside 32 bits is an overflow: after trimming white
   * space it is an optional sign and a run of digits (leading zeros allowed)
   * whose signed value does not fit.
   */
  lemma ParseOverflow(s: string, sign: string, digits: string, n: nat)
    requires TrimEnd(TrimStart(s)) == sign + digits
    requires sign == "" || sign == "-" || sign == "+"
    requires |digits| > 0 && IsDigit(digits[0]) && DigitsValue(digits) == Some(n)
    requires !InInt32(if sign == "-" then -(n as int) else n)
    ensures ParseInt32(s) == Failure(OverflowError)
  {
    var t := sign + digits;
    if sign == "" {
      assert t == digits;
    } else {
      assert t[1..] == digits;
    }
  }

  lemma {:induction false} TrimStartKeeps(s: string, ch: char)
    requires ch in s && !IsWhite(ch)
    ensures ch in TrimStart(s)
  {
    if |s| > 0 && IsWhite(s[0]) {
      assert ch in s[1..];
      TrimStartKeeps(s[1..], ch);
    }
  }

  lemma {:induction false} TrimEndKeeps(s: string, ch: char)
    requires ch in s && !IsWhite(ch)
    ensures ch in TrimEnd(s)
  {
    if |s| > 0 && IsWhite(s[|s| - 1]) {
      assert ch in s[..|s| - 1];
      TrimEndKeeps(s[..|s| - 1], ch);
    }
  }

  lemma {:induction false} DigitsRejectNonDigit(s: string, j: int)
    requires 0 <= j < |s| && !IsDigit(s[j])
    ensures DigitsValue(s) == None
  {
    if j < |s| - 1 {
      DigitsRejectNonDigit(s[..|s| - 1], j);
    }
  }

  /** Text holding a character that is neither white space, a sign nor a digit never parses. */
  lemma ParseRejectsForeignChar(s: string, ch: char)
    requires ch in s && !IsWhite(ch) && !IsDigit(ch) && ch != '-' && ch != '+'
    ensures ParseInt32(s) == Failure(FormatError)
  {
    TrimStartKeeps(s, ch);
    TrimEndKeeps(TrimStart(s), ch);
    var t := TrimEnd(TrimStart(s));
    var i :| 0 <= i < |t| && t[i] == ch;
    var digits := if t[0] == '-' || t[0] == '+' then t[1..] else t;
    var j := if t[0] == '-' || t[0] == '+' then i - 1 else i;
    assert 0 <= j < |digits| && digits[j] == ch;
    DigitsRejectNonDigit(digits, j);
  }
}
