/**
 * Go's `strconv.Atoi` on a 64-bit platform, the decimal parser both CSV
 * loaders use: an optional sign, then decimal digits, with a syntax error for
 * anything else and a range error for values outside `int64`.
 */
module Strconv {
  import opened Machine
  import opened Wrappers

  datatype NumErrorKind = ErrSyntax | ErrRange

  /** Go's `*strconv.NumError`: the function, the rejected input and the reason. */
  datatype NumError = NumError(func: string, num: string, err: NumErrorKind)

  predicate IsDigit(c: char) {
    '0' <= c <= '9'
  }

  predicate AllDigits(t: string) {
    forall i :: 0 <= i < |t| ==> IsDigit(t[i])
  }

  /** The length of the run of digits that `t` starts with. */
  function DigitRun(t: string): (n: nat)
    ensures n <= |t|
    ensures AllDigits(t[..n])
    ensures n < |t| ==> !IsDigit(t[n])
  {
    if t == [] || !IsDigit(t[0]) then 0
    else
      var n := 1 + DigitRun(t[1..]);
      assert t[..n] == [t[0]] + t[1..][..n - 1];
      n
  }

  /** The value of a string of decimal digits, most significant first. */
  function DecimalValue(t: string): nat
    requires AllDigits(t)
  {
    if t == [] then 0
    else 10 * DecimalValue(t[..|t| - 1]) + (t[|t| - 1] as int - '0' as int)
  }

  /**
   * `strconv.Atoi(s)`. The scan stops with a range error as soon as the digits
   * read so far exceed 2^64 - 1, and with a syntax error at the first
   * character that is not a digit; a value that fits `uint64` but not `int64`
   * is a range error too.
   */
  function Atoi(s: string): Result<i64, NumError> {
    var fail := (kind: NumErrorKind) => NumError("Atoi", s, kind);
    if s == "" then Err(fail(ErrSyntax))
    else
      var neg := s[0] == '-';
      var t := if s[0] == '-' || s[0] == '+' then s[1..] else s;
      if t == "" then Err(fail(ErrSyntax))
      else
        var k := DigitRun(t);
        if DecimalValue(t[..k]) >= TWO_64 then Err(fail(ErrRange))
        else if k < |t| then Err(fail(ErrSyntax))
        else
          assert t[..k] == t;
          var v: int := DecimalValue(t);
          if !neg && v >= TWO_63 then Err(fail(ErrRange))
          else if neg && v > TWO_63 then Err(fail(ErrRange))
          else Ok(if neg then -v else v)
  }

  /** An error names `Atoi` and the whole input; a success had only a sign and digits. */
  lemma AtoiShape(s: string)
    ensures Atoi(s).Err? ==> Atoi(s).error.func == "Atoi" && Atoi(s).error.num == s
    ensures Atoi(s).Ok? ==> s != "" && AllDigits(if s[0] == '-' || s[0] == '+' then s[1..] else s)
  {
    if Atoi(s).Ok? {
      var t := if s[0] == '-' || s[0] == '+' then s[1..] else s;
      assert t[..DigitRun(t)] == t;
    }
  }

  /** A plain run of digits whose value fits `int64` parses to that value. */
  lemma AtoiDigits(t: string)
    requires t != "" && AllDigits(t) && DecimalValue(t) < TWO_63
    ensures Atoi(t) == Ok(DecimalValue(t))
    ensures Atoi("-" + t) == Ok(-(DecimalValue(t) as int))
  {
    assert t[..|t|] == t;
    assert ("-" + t)[1..] == t;
  }

  /** A string with a character that is neither a digit nor a leading sign is rejected. */
  lemma AtoiRejectsNonDigit(s: string, i: nat)
    requires i < |s| && !IsDigit(s[i])
    requires i > 0 || (s[0] != '-' && s[0] != '+')
    ensures Atoi(s).Err?
  {
  }

  /** The digit character for `d`. */
  function Digit(d: nat): (c: char)
    requires d < 10
    ensures IsDigit(c) && c as int - '0' as int == d
  {
    ('0' as int + d) as char
  }

  /** `%d` of a non-negative integer: its decimal digits, with no leading zero. */
  function FormatUint(n: nat): (t: string)
    ensures t != [] && AllDigits(t)
    ensures |t| > 1 ==> t[0] != '0'
  {
    if n < 10 then [Digit(n)] else FormatUint(n / 10) + [Digit(n % 10)]
  }

  /** The digits `%d` prints have the value printed. */
  lemma {:induction false} DecimalValueFormatUint(n: nat)
    ensures DecimalValue(FormatUint(n)) == n
  {
    if n >= 10 {
      var t := FormatUint(n);
      assert t[..|t| - 1] == FormatUint(n / 10);
      DecimalValueFormatUint(n / 10);
    }
  }

  /** `Atoi` reads back what `%d` prints, for every value that fits `int64`. */
  lemma AtoiFormatUint(n: nat)
    requires n < TWO_63
    ensures Atoi(FormatUint(n)) == Ok(n)
  {
    DecimalValueFormatUint(n);
    AtoiDigits(FormatUint(n));
  }
}
