/** Decimal numbers as `strconv` reads them and as the server prints them. */
module Decimal {

  const MAX_INT64 := 0x7fff_ffff_ffff_ffff
  const MAX_UINT64 := 0xffff_ffff_ffff_ffff

  predicate IsInt64(n: int) {
    -MAX_INT64 - 1 <= n <= MAX_INT64
  }

  predicate Digit(c: char) {
    '0' <= c <= '9'
  }

  /** What a conversion ends in; an overflow leaves the nearest limit. */
  datatype Number = Number(value: int) | OutOfRange(nearest: int) | NotANumber

  /** ParseUint: from left to right, stopping at the first character that is no digit or makes the value too large. */
  function Scan(s: string, n: nat): (r: Number)
    ensures r.Number? ==> r.value >= 0
    decreases |s|
  {
    if s == "" then Number(n)
    else if !Digit(s[0]) then NotANumber
    else if n * 10 + (s[0] as int - '0' as int) > MAX_UINT64 then OutOfRange(MAX_UINT64)
    else Scan(s[1..], n * 10 + (s[0] as int - '0' as int))
  }

  /** strconv.ParseInt(s, 10, 64), and strconv.Atoi on a 64-bit machine. */
  function ParseInt(s: string): Number {
    if s == "" then NotANumber
    else
      var negative, body := s[0] == '-', if s[0] == '-' || s[0] == '+' then s[1..] else s;
      if body == "" then NotANumber
      else match Scan(body, 0)
        case NotANumber => NotANumber
        case OutOfRange(_) => OutOfRange(if negative then -MAX_INT64 - 1 else MAX_INT64)
        case Number(v) =>
          if negative then (if v > MAX_INT64 + 1 then OutOfRange(-MAX_INT64 - 1) else Number(-v))
          else if v > MAX_INT64 then OutOfRange(MAX_INT64) else Number(v)
  }

  /** The number a caller of Atoi goes on with when it ignores the error. */
  function Atoi(s: string): int {
    match ParseInt(s)
    case Number(v) => v
    case OutOfRange(v) => v
    case NotANumber => 0
  }

  function Digits(n: nat): (s: string)
    ensures s != "" && forall i | 0 <= i < |s| :: Digit(s[i])
  {
    if n < 10 then [(n + '0' as int) as char] else Digits(n / 10) + [(n % 10 + '0' as int) as char]
  }

  function FormatInt(n: int): string {
    if n < 0 then "-" + Digits(-n) else Digits(n)
  }

  lemma {:induction false} ScanDigits(n: nat, rest: string)
    requires n <= MAX_UINT64
    ensures Scan(Digits(n) + rest, 0) == Scan(rest, n)
  {
    var c := (n % 10 + '0' as int) as char;
    assert ([c] + rest)[1..] == rest;
    if n < 10 {
      assert Digits(n) == [c];
    } else {
      ScanDigits(n / 10, [c] + rest);
      assert Digits(n) + rest == Digits(n / 10) + ([c] + rest);
      assert n / 10 * 10 + n % 10 == n;
    }
  }

  /** Every 64-bit number reads back from its decimal form. */
  lemma ParseOfFormat(n: int)
    requires IsInt64(n)
    ensures ParseInt(FormatInt(n)) == Number(n) && Atoi(FormatInt(n)) == n
  {
    var m := if n < 0 then -n else n;
    ScanDigits(m, "");
    assert Digits(m) + "" == Digits(m);
    assert Scan("", m) == Number(m);
    assert Digit(Digits(m)[0]);
    if n < 0 {
      assert FormatInt(n)[1..] == Digits(m);
    }
  }

  /** Decimal: the digits of the tens, then the unit. */
  lemma DigitsInOrder(n: nat, d: nat)
    requires d < 10
    ensures Digits(d) == [['0', '1', '2', '3', '4', '5', '6', '7', '8', '9'][d]]
    ensures n > 0 ==> Digits(10 * n + d) == Digits(n) + Digits(d)
  {
    assert (10 * n + d) / 10 == n && (10 * n + d) % 10 == d;
  }

  lemma {:induction false} ScanOverflows(n: nat, rest: string)
    requires n > MAX_UINT64
    ensures Scan(Digits(n) + rest, 0) == OutOfRange(MAX_UINT64)
  {
    var c := (n % 10 + '0' as int) as char;
    assert Digits(n) + rest == Digits(n / 10) + ([c] + rest);
    assert ([c] + rest)[0] == c && n / 10 * 10 + n % 10 == n;
    if n / 10 > MAX_UINT64 {
      ScanOverflows(n / 10, [c] + rest);
    } else {
      ScanDigits(n / 10, [c] + rest);
    }
  }

  /** A number beyond 64 bits ends in the nearest limit. */
  lemma ParseOutOfRange(n: int)
    requires !IsInt64(n)
    ensures var nearest := if n < 0 then -9_223_372_036_854_775_808 else 9_223_372_036_854_775_807;
            ParseInt(FormatInt(n)) == OutOfRange(nearest) && Atoi(FormatInt(n)) == nearest
  {
    var m := if n < 0 then -n else n;
    assert Digits(m) + "" == Digits(m);
    if m > MAX_UINT64 {
      ScanOverflows(m, "");
    } else {
      ScanDigits(m, "");
      assert Scan("", m) == Number(m);
    }
    assert Digit(Digits(m)[0]);
    if n < 0 {
      assert FormatInt(n)[1..] == Digits(m);
    }
  }

  /** A plus sign in front changes nothing, a second sign is none. */
  lemma SignInFront(n: nat, rest: string)
    ensures ParseInt("+" + Digits(n)) == ParseInt(Digits(n))
    ensures ParseInt("--" + rest) == ParseInt("+-" + rest) == ParseInt("-+" + rest) == NotANumber
  {
    var s := Digits(n);
    assert ("+" + s)[1..] == s && Digit(s[0]);
    assert ("--" + rest)[1..] == "-" + rest && ("+-" + rest)[1..] == "-" + rest && ("-+" + rest)[1..] == "+" + rest;
  }

  /** A text with a character that is no digit, or without a digit, is no number; an ignored error leaves zero. */
  lemma NoNumber(n: nat, c: char, rest: string)
    requires n <= MAX_UINT64 && !Digit(c)
    ensures ParseInt(Digits(n) + [c] + rest) == NotANumber && Atoi(Digits(n) + [c] + rest) == 0
    ensures ParseInt("") == NotANumber && ParseInt("-") == NotANumber && ParseInt("+") == NotANumber
  {
    var s := Digits(n) + [c] + rest;
    assert s == Digits(n) + ([c] + rest);
    ScanDigits(n, [c] + rest);
    assert ([c] + rest)[0] == c;
    assert Digit(s[0]) by {
      assert s[0] == Digits(n)[0];
    }
  }
}
