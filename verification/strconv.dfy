/** The two conversions of Go's package strconv that the hook relies on:
    ParseUint(s, 10, 64) for decoding a counter and Itoa for encoding one.
    Both work on the bytes of an ASCII string. */
module Strconv {
  import opened Types

  /** The byte '0' (ASCII 48); the ten digits are '0' .. '9'. */
  const Zero: byte := 48
  /** The byte '-' (ASCII 45) that Itoa writes in front of a negative value. */
  const Minus: byte := 45

  /** The two failures ParseUint reports (strconv.ErrSyntax and strconv.ErrRange). */
  datatype NumError = ErrSyntax | ErrRange

  predicate IsDigit(c: byte) {
    Zero <= c <= Zero + 9
  }

  predicate AllDigits(s: seq<byte>) {
    forall i :: 0 <= i < |s| ==> IsDigit(s[i])
  }

  /** The value of a string of decimal digits, most significant first; leading zeros are allowed. */
  function DigitsValue(s: seq<byte>): nat
    requires AllDigits(s)
  {
    if |s| == 0 then 0 else DigitsValue(s[..|s| - 1]) * 10 + (s[|s| - 1] - Zero)
  }

  /** The length of the longest prefix of `s` made of digits only. */
  function DigitRun(s: seq<byte>): (k: nat)
    ensures k <= |s|
    ensures AllDigits(s[..k])
    ensures k < |s| ==> !IsDigit(s[k])
  {
    if |s| == 0 || !IsDigit(s[0]) then 0
    else
      var k' := DigitRun(s[1..]);
      assert s[..1 + k'] == [s[0]] + s[1..][..k'];
      1 + k'
  }

  /** The texts ParseUint(s, 10, 64) accepts: non-empty, digits only, value at most 2^64 - 1. */
  predicate ValidUint64Text(s: seq<byte>) {
    |s| > 0 && AllDigits(s) && DigitsValue(s) <= MaxUint64
  }

  /** Any accumulated value at or above this overflows when multiplied by ten. */
  const Cutoff: nat := MaxUint64 / 10 + 1

  /** The digit loop of ParseUint, from position `i` with `n` accumulated so far.
      Go checks `n1 < n || n1 > maxVal` on wrapping uint64 arithmetic; with
      unbounded integers both cases are `n1 > MaxUint64`. */
  function Scan(s: seq<byte>, i: nat, n: uint64): Result<uint64, NumError>
    requires i <= |s|
    decreases |s| - i
  {
    if i == |s| then Ok(n)
    else if !IsDigit(s[i]) then Err(ErrSyntax)
    else if n >= Cutoff then Err(ErrRange)
    else
      var n1 := n * 10 + (s[i] - Zero);
      if n1 > MaxUint64 then Err(ErrRange) else Scan(s, i + 1, n1)
  }

  /** ParseUint(s, 10, 64): no sign, no prefix, no underscores. The range error
      is reported when the digits before the first non-digit already overflow;
      every other failure is a syntax error. */
  function ParseUint64(s: seq<byte>): (r: Result<uint64, NumError>)
    ensures r.Ok? <==> ValidUint64Text(s)
    ensures r.Ok? ==> r.value == DigitsValue(s)
    ensures r == Err(ErrRange) <==> DigitsValue(s[..DigitRun(s)]) > MaxUint64
  {
    if |s| == 0 then Err(ErrSyntax)
    else
      assert s[..0] == [] && s[..|s|] == s;
      ScanFollowsDigitRun(s, 0);
      Scan(s, 0, 0)
  }

  /** Itoa on a 64-bit int: base-10 ASCII, with a leading '-' when negative. */
  function Itoa(n: int64): (r: seq<byte>)
    ensures n >= 0 ==> Canonical(r) && DigitsValue(r) == n
    ensures n < 0 ==> |r| > 1 && r[0] == Minus && Canonical(r[1..]) && DigitsValue(r[1..]) == -(n as int)
  {
    if n < 0 then [Minus] + Decimal(-(n as int)) else Decimal(n)
  }

  /** The shortest decimal rendering of `n`: no leading zero unless `n` is zero. */
  function Decimal(n: nat): (s: seq<byte>)
    ensures |s| > 0 && AllDigits(s) && DigitsValue(s) == n
    ensures |s| > 1 ==> s[0] != Zero
  {
    if n < 10 then [Zero + n]
    else
      var t := Decimal(n / 10);
      assert (t + [Zero + n % 10])[..|t|] == t;
      t + [Zero + n % 10]
  }

  /** A digit string without a superfluous leading zero. */
  predicate Canonical(s: seq<byte>) {
    |s| > 0 && AllDigits(s) && (|s| == 1 || s[0] != Zero)
  }

  // ---------------------------------------------------------------------------
  // Lemmas

  /** A prefix of a digit string is worth no more than the whole string. */
  lemma {:induction false} DigitsValuePrefix(s: seq<byte>, i: nat)
    requires AllDigits(s) && i <= |s|
    ensures AllDigits(s[..i]) && DigitsValue(s[..i]) <= DigitsValue(s)
    decreases |s|
  {
    if i < |s| {
      var t := s[..|s| - 1];
      assert t[..i] == s[..i];
      DigitsValuePrefix(t, i);
    } else {
      assert s[..i] == s;
    }
  }

  /** Scan, started on a digit prefix whose value fits, ends in the outcome
      determined by the leading digit run. */
  lemma {:induction false} ScanFollowsDigitRun(s: seq<byte>, i: nat)
    requires i <= DigitRun(s)
    requires AllDigits(s[..i]) && DigitsValue(s[..i]) <= MaxUint64
    ensures Scan(s, i, DigitsValue(s[..i])) ==
      var k := DigitRun(s);
      if DigitsValue(s[..k]) > MaxUint64 then Err(ErrRange)
      else if k < |s| then Err(ErrSyntax)
      else Ok(DigitsValue(s))
    decreases |s| - i
  {
    var k := DigitRun(s);
    var n := DigitsValue(s[..i]);
    if i == |s| {
      assert s[..i] == s;
    } else if i == k {
    } else {
      assert s[..k][i] == s[i];
      var d := s[i] - Zero;
      assert s[..i + 1][..i] == s[..i];
      assert DigitsValue(s[..i + 1]) == n * 10 + d;
      assert s[..k][..i + 1] == s[..i + 1];
      DigitsValuePrefix(s[..k], i + 1);
      if n < Cutoff && n * 10 + d <= MaxUint64 {
        ScanFollowsDigitRun(s, i + 1);
      }
    }
  }

  /** Rendering the value of a canonical digit string gives back that string. */
  lemma {:induction false} DecimalOfDigitsValue(s: seq<byte>)
    requires Canonical(s)
    ensures Decimal(DigitsValue(s)) == s
    decreases |s|
  {
    var last := s[|s| - 1] - Zero;
    var t := s[..|s| - 1];
    if |s| == 1 {
      assert t == [];
    } else {
      LeadingDigitPositive(t);
      DecimalOfDigitsValue(t);
      assert t + [s[|s| - 1]] == s;
    }
  }

  /** A digit string that does not start with '0' has a positive value. */
  lemma {:induction false} LeadingDigitPositive(s: seq<byte>)
    requires |s| > 0 && AllDigits(s) && s[0] != Zero
    ensures DigitsValue(s) >= 1
    decreases |s|
  {
    if |s| > 1 {
      LeadingDigitPositive(s[..|s| - 1]);
    } else {
      assert s[..0] == [];
    }
  }

  /** Itoa followed by ParseUint gives back every non-negative value, and
      fails with a syntax error on every negative one (ParseUint takes no sign). */
  lemma ItoaParseUint64(n: int64)
    ensures n >= 0 ==> ParseUint64(Itoa(n)) == Ok(n)
    ensures n < 0 ==> ParseUint64(Itoa(n)) == Err(ErrSyntax)
  {
    if n < 0 {
      var s := Itoa(n);
      assert !IsDigit(s[0]);
      assert DigitRun(s) == 0;
      assert s[..0] == [];
    }
  }

  /** ParseUint followed by rendering gives back every canonical text it accepts. */
  lemma ParseUint64Decimal(s: seq<byte>)
    requires ParseUint64(s).Ok?
    requires |s| == 1 || s[0] != Zero
    ensures Decimal(ParseUint64(s).value) == s
  {
    DecimalOfDigitsValue(s);
  }
}
