/** Times on the command line: parse_ts of tools/wr-dio-cmd.c and tools/wr-dio-ruler.c,
and the format in which the ruler prints them.  The two scanf formats are written out
for all strings: a %ld skips blanks and takes a sign, a dot stands for itself. */
module ParseTs {
  import opened Common
  import opened Timespec

  predicate IsDigit(c: char) { '0' <= c <= '9' }

  predicate Digits(s: string) { forall i :: 0 <= i < |s| ==> IsDigit(s[i]) }

  predicate IsSpace(c: char) { c == ' ' || '\t' <= c <= '\r' }

  predicate IsSign(c: char) { c == '+' || c == '-' }

  function Val(s: string): nat
    requires Digits(s)
  {
    if s == "" then 0 else 10 * Val(s[..|s| - 1]) + (s[|s| - 1] as int - '0' as int)
  }

  function Pow10(n: nat): (p: nat)
    ensures p > 0
  {
    if n == 0 then 1 else 10 * Pow10(n - 1)
  }

  /** How many digits a string starts with. */
  function Lead(s: string): (k: nat)
    ensures k <= |s| && Digits(s[..k]) && (k < |s| ==> !IsDigit(s[k]))
  {
    if s == "" || !IsDigit(s[0]) then 0
    else
      var k := 1 + Lead(s[1..]);
      assert s[..k] == [s[0]] + s[1..][..k - 1];
      k
  }

  /** ... and how many blanks. */
  function Blanks(s: string): (k: nat)
    ensures k <= |s| && (k < |s| ==> !IsSpace(s[k]))
    ensures forall i :: 0 <= i < k ==> IsSpace(s[i])
  {
    if s == "" || !IsSpace(s[0]) then 0 else 1 + Blanks(s[1..])
  }

  /** A number and how many characters it took. */
  datatype Number = Number(value: int, len: nat)

  /** %ld */
  function ScanLong(s: string): (r: Option<Number>)
    ensures r.Some? ==> 0 < r.value.len <= |s| && IsDigit(s[r.value.len - 1])
    ensures r.Some? ==> '.' !in s[..r.value.len] && (r.value.len < |s| ==> !IsDigit(s[r.value.len]))
  {
    var k := Blanks(s);
    var j := if k < |s| && IsSign(s[k]) then k + 1 else k;
    var m := Lead(s[j..]);
    if m == 0 then None
    else
      var digits := s[j..][..m];
      assert s[..j + m] == s[..j] + digits && '.' !in digits;
      assert forall i :: 0 <= i < j ==> s[i] != '.';
      assert '.' !in s[..j];
      assert digits[m - 1] == s[j + m - 1];
      Some(Number(if s[k] == '-' then -(Val(digits) as int) else Val(digits), j + m))
  }

  /** The conversions done by a format, and their values. */
  datatype Scan = Scan(count: nat, sec: int, nano: int)

  /** sscanf(s, ".%ld%c", &nano, &c); what does not match counts as 0. */
  function ScanFraction(s: string): Scan {
    if s == "" || s[0] != '.' then Scan(0, 0, 0)
    else match ScanLong(s[1..])
      case None => Scan(0, 0, 0)
      case Some(x) => Scan(if 1 + x.len < |s| then 2 else 1, 0, x.value)
  }

  /** sscanf(s, "%ld.%ld%c", &sec, &nano, &c), if there is more than blanks. */
  function ScanTime(s: string): Scan {
    match ScanLong(s)
    case None => Scan(0, 0, 0)
    case Some(x) =>
      var f := ScanFraction(s[x.len..]);
      Scan(1 + f.count, x.value, f.nano)
  }

  function AfterDot(s: string): string
    requires '.' in s
  {
    if s[0] == '.' then s[1..] else AfterDot(s[1..])
  }

  /** A number written with `n` characters behind the dot, in nanoseconds. */
  function Fraction(value: int, n: nat): int
    requires n <= 9
  {
    value * Pow10(9 - n)
  }

  /** Is the whole string one %ld? */
  predicate IsLong(s: string) { ScanLong(s).Some? && ScanLong(s).value.len == |s| }

  /** Does a string end the seconds for good? */
  predicate Stops(rest: string) { rest == "" || rest[0] != '.' || ScanLong(rest[1..]).None? }

  /** The meaning of a string: a number in front is seconds.  If a dot and another number
      follow, that is a fraction, which has to go to the end and to be at most nine
      characters long; it may also stand alone.  Anything else after the seconds is ignored. */
  function Parsed(s: string): Option<Timespec>
    requires s != ""
  {
    var head := ScanLong(s);
    var sec, rest := if head.Some? then head.value.value else 0, if head.Some? then s[head.value.len..] else s;
    if Stops(rest) then if head.Some? then Some(Timespec(sec, 0)) else None
    else
      var b := rest[1..];
      if IsLong(b) && |b| <= 9 then Some(Timespec(sec, Fraction(ScanLong(b).value.value, |b|))) else None
  }

  lemma {:induction false} FirstDot(s: string, k: nat)
    requires k < |s| && s[k] == '.' && '.' !in s[..k]
    ensures '.' in s && AfterDot(s) == s[k + 1..]
  {
    if k > 0 {
      assert s[0] == s[..k][0];
      assert s[1..][..k - 1] == s[..k][1..];
      FirstDot(s[1..], k - 1);
    }
  }

  /** parse_ts; None stands for -1. */
  method Parse(s: string) returns (r: Option<Timespec>)
    requires Blanks(s) < |s|
    ensures r == Parsed(s)
  {
    hide Val, Lead, Blanks, AfterDot, Pow10, ScanLong, Fraction;
    var scan := ScanTime(s);
    if scan.count == 1 {
      return Some(Timespec(scan.sec, 0));
    }
    if scan.count == 3 {
      return None;
    }
    var nano := scan.nano;
    if scan.count == 0 {
      var fraction := ScanFraction(s);
      if fraction.count != 1 {
        return None;
      }
      nano := fraction.nano;
    }
    FirstDot(s, if scan.count == 0 then 0 else ScanLong(s).value.len);
    r := Scale(AfterDot(s), scan.sec, nano);
  }

  /** The end of parse_ts: trailing zeros that were not written. */
  method Scale(b: string, sec: int, nano: int) returns (r: Option<Timespec>)
    ensures r == if |b| > 9 then None else Some(Timespec(sec, Fraction(nano, |b|)))
  {
    if |b| > 9 {
      return None;
    }
    var n, x := |b|, nano;
    while n < 9
      invariant |b| <= n <= 9 && x * Pow10(9 - n) == nano * Pow10(9 - |b|)
    {
      assert x * Pow10(9 - n) == x * 10 * Pow10(9 - (n + 1));
      n, x := n + 1, x * 10;
    }
    r := Some(Timespec(sec, x));
  }

  // ------------------------------------------------------------------ exactness

  lemma {:induction false} ValConcat(a: string, b: string)
    requires Digits(a) && Digits(b)
    ensures Digits(a + b) && Val(a + b) == Val(a) * Pow10(|b|) + Val(b)
  {
    if b == "" {
      assert a + b == a;
    } else {
      var c := b[..|b| - 1];
      ValConcat(a, c);
      assert (a + b)[..|a + b| - 1] == a + c;
      TenTimes(Val(a), Pow10(|c|));
    }
  }

  lemma TenTimes(x: nat, p: nat)
    ensures x * (10 * p) == 10 * (x * p)
  {
  }

  lemma {:induction false} ValBound(b: string)
    requires Digits(b)
    ensures Val(b) < Pow10(|b|)
  {
    if b != "" {
      ValBound(b[..|b| - 1]);
    }
  }

  lemma {:induction false} Pow10Add(m: nat, n: nat)
    ensures Pow10(m + n) == Pow10(m) * Pow10(n)
  {
    if m > 0 {
      Pow10Add(m - 1, n);
      assert Pow10(m) * Pow10(n) == 10 * (Pow10(m - 1) * Pow10(n));
    }
  }

  lemma LeadWhole(s: string)
    ensures Lead(s) == |s| <==> Digits(s)
  {
    assert s[..|s|] == s;
  }

  lemma ValEmpty()
    ensures Val("") == 0
  {
  }

  lemma {:induction false} LeadOf(a: string, rest: string)
    requires Digits(a) && (rest != "" ==> !IsDigit(rest[0]))
    ensures Lead(a + rest) == |a|
  {
    if a != "" {
      LeadOf(a[1..], rest);
      assert (a + rest)[1..] == a[1..] + rest;
    }
  }

  lemma {:induction false} BlanksOf(a: string, rest: string)
    requires Blanks(a) < |a|
    ensures Blanks(a + rest) == Blanks(a)
  {
    if IsSpace(a[0]) {
      BlanksOf(a[1..], rest);
      assert (a + rest)[1..] == a[1..] + rest;
    }
  }

  /** A number ends where its digits do. */
  lemma LongOf(a: string, rest: string)
    requires IsLong(a) && (rest != "" ==> !IsDigit(rest[0]))
    ensures ScanLong(a + rest) == ScanLong(a)
  {
    hide Blanks, Lead, Val;
    var s, k := a + rest, Blanks(a);
    BlanksOf(a, rest);
    var j := if k < |a| && IsSign(a[k]) then k + 1 else k;
    var d := a[j..];
    assert s[j..] == d + rest;
    LeadWhole(d);
    LeadOf(d, rest);
    Front(d, rest);
  }

  lemma Front(d: string, rest: string)
    ensures d[..|d|] == d == (d + rest)[..|d|]
  {
  }

  lemma DigitsAreLong(a: string)
    requires Digits(a) && a != ""
    ensures ScanLong(a) == Some(Number(Val(a), |a|))
  {
    hide Val, Lead;
    LeadWhole(a);
    assert Blanks(a) == 0 && a[0..] == a && a[..|a|] == a;
  }

  lemma MinusIsLong(a: string)
    requires Digits(a) && a != ""
    ensures ScanLong("-" + a) == Some(Number(-(Val(a) as int), 1 + |a|))
  {
    hide Val, Lead;
    LeadWhole(a);
    var s := "-" + a;
    assert Blanks(s) == 0 && s[1..] == a && a[..|a|] == a;
  }

  lemma NoLong(b: string)
    ensures ScanLong("." + b) == None
  {
    assert Blanks("." + b) == 0 && ("." + b)[0..] == "." + b;
  }

  lemma ParsedDecimal(a: string, b: string)
    requires Digits(a) && Digits(b) && 1 <= |b| <= 9
    ensures Parsed(a + "." + b) == Some(Timespec(Val(a), Fraction(Val(b), |b|)))
  {
    hide ScanLong, Val, Fraction;
    var s := a + "." + b;
    assert s == a + ("." + b);
    DigitsAreLong(b);
    if a == "" {
      NoLong(b);
      assert s == "." + b && s[1..] == b;
      ValEmpty();
    } else {
      DigitsAreLong(a);
      LongOf(a, "." + b);
      assert s[|a|..] == "." + b && s[|a|..][1..] == b;
    }
  }

  /** A minus sign in front applies to the seconds and not to what is behind the dot:
      "-1.5" is half a second before zero. */
  lemma MinusMeansSeconds(a: string, b: string)
    requires Digits(a) && a != "" && Digits(b) && 1 <= |b| <= 9
    ensures Parsed("-" + a + "." + b) == Some(Timespec(-(Val(a) as int), Fraction(Val(b), |b|)))
  {
    hide ScanLong, Val, Fraction;
    var s, m := "-" + a + "." + b, "-" + a;
    assert s == m + ("." + b);
    MinusIsLong(a);
    DigitsAreLong(b);
    LongOf(m, "." + b);
    assert s[|m|..] == "." + b && s[|m|..][1..] == b;
  }

  /** ... where a sign of its own is taken, and counts as a decimal: "1.-5" is fifty
      milliseconds before one, with negative nanoseconds. */
  lemma MinusInFraction(a: string, b: string)
    requires Digits(a) && Digits(b) && 1 <= |b| <= 8
    ensures Parsed(a + ".-" + b) == Some(Timespec(Val(a), -Fraction(Val(b), |b| + 1)))
  {
    hide ScanLong, Val, Fraction, Parsed;
    var s, m := a + ".-" + b, "-" + b;
    assert s == a + "." + m;
    MinusIsLong(b);
    if a == "" {
      ValEmpty();
    } else {
      DigitsAreLong(a);
    }
    OnlyDecimal(s, a, m);
    Negated(Val(b), |b| + 1);
  }

  lemma Negated(v: int, n: nat)
    requires n <= 9
    ensures Fraction(-v, n) == -Fraction(v, n)
  {
  }

  lemma Scaled(sec: nat, v: nat, p: nat, q: nat)
    requires p * q == GIGA && v < p
    ensures v * q < GIGA && (sec * GIGA + v * q) * p == (sec * p + v) * GIGA
  {
  }

  lemma Splits(n: nat)
    requires n <= 9
    ensures Pow10(n) * Pow10(9 - n) == GIGA
  {
    Pow10Add(n, 9 - n);
  }

  /** Digits, a dot and one to nine digits (the first ones may be missing) give exactly
      that decimal number: its digits without the dot, over 10 to the number of decimals. */
  lemma DecimalIsExact(a: string, b: string)
    requires Digits(a) && Digits(b) && 1 <= |b| <= 9
    ensures Digits(a + b) && Parsed(a + "." + b).Some?
    ensures var t := Parsed(a + "." + b).value;
            Normal(t) && t.sec == Val(a) && Ns(t) * Pow10(|b|) == Val(a + b) * GIGA
  {
    hide Lead, Val, Parsed, Pow10;
    ParsedDecimal(a, b);
    ValConcat(a, b);
    ValBound(b);
    Splits(|b|);
    Scaled(Val(a), Val(b), Pow10(|b|), Pow10(9 - |b|));
  }

  /** A minus sign in front of a decimal number does what it says if and only if the
      fraction is zero. */
  lemma MinusIsExactIff(a: string, b: string)
    requires Digits(a) && a != "" && Digits(b) && 1 <= |b| <= 9
    ensures Digits(a + b) && Parsed("-" + a + "." + b).Some?
    ensures Ns(Parsed("-" + a + "." + b).value) * Pow10(|b|) == -(Val(a + b) * GIGA) <==> Val(b) == 0
  {
    hide Lead, Val, Parsed, Pow10;
    MinusMeansSeconds(a, b);
    ValConcat(a, b);
    Splits(|b|);
    Opposite(Val(a), Val(b), Pow10(|b|), Pow10(9 - |b|));
  }

  lemma Opposite(sec: int, v: int, p: int, q: int)
    requires p * q == GIGA
    ensures (-sec * GIGA + v * q) * p == -((sec * p + v) * GIGA) <==> v == 0
  {
    calc {
      (-sec * GIGA + v * q) * p;
    ==
      -sec * GIGA * p + v * q * p;
    == { assert v * q * p == v * (p * q); }
      -sec * GIGA * p + v * GIGA;
    }
    assert (sec * p + v) * GIGA == sec * GIGA * p + v * GIGA;
  }

  /** `s` is a number, and then something that is not part of it and does not matter. */
  ghost predicate IsSeconds(s: string, a: string, rest: string) {
    IsLong(a) && (rest != "" ==> !IsDigit(rest[0])) && Stops(rest) && s == a + rest
  }

  /** `s` is a number or nothing, a dot, and a number of at most nine characters. */
  ghost predicate IsDecimal(s: string, a: string, b: string) {
    (a == "" || IsLong(a)) && IsLong(b) && |b| <= 9 && s == a + "." + b
  }

  lemma OnlySeconds(s: string, a: string, rest: string)
    requires IsSeconds(s, a, rest)
    ensures Parsed(s) == Some(Timespec(ScanLong(a).value.value, 0))
  {
    hide ScanLong;
    LongOf(a, rest);
    assert s[|a|..] == rest;
  }

  lemma OnlyDecimal(s: string, a: string, b: string)
    requires IsDecimal(s, a, b)
    ensures Parsed(s) == Some(Timespec(if a == "" then 0 else ScanLong(a).value.value,
                                       Fraction(ScanLong(b).value.value, |b|)))
  {
    hide ScanLong, Fraction;
    assert s == a + ("." + b);
    if a == "" {
      NoLong(b);
      assert s == "." + b && s[1..] == b;
    } else {
      LongOf(a, "." + b);
      assert s[|a|..] == "." + b && s[|a|..][1..] == b;
    }
  }

  lemma Prefix(s: string)
    requires ScanLong(s).Some?
    ensures IsLong(s[..ScanLong(s).value.len])
  {
    hide Val, Lead, Blanks;
    var k := Blanks(s);
    var j := if k < |s| && IsSign(s[k]) then k + 1 else k;
    var m := Lead(s[j..]);
    var a := s[..j + m];
    BlanksBefore(s, j + m);
    assert a[j..] == s[j..][..m];
    LeadWhole(a[j..]);
    assert a[j..][..m] == a[j..];
  }

  lemma {:induction false} BlanksBefore(s: string, n: nat)
    requires Blanks(s) < n <= |s|
    ensures Blanks(s[..n]) == Blanks(s)
  {
    if IsSpace(s[0]) {
      BlanksBefore(s[1..], n - 1);
      assert s[..n][1..] == s[1..][..n - 1];
    }
  }

  lemma AcceptedParts(s: string)
    requires s != "" && Parsed(s).Some?
    ensures var n := if ScanLong(s).Some? then ScanLong(s).value.len else 0;
            IsSeconds(s, s[..n], s[n..]) || (n < |s| && IsDecimal(s, s[..n], s[n + 1..]))
  {
    hide ScanLong, Fraction;
    var n := if ScanLong(s).Some? then ScanLong(s).value.len else 0;
    if ScanLong(s).Some? {
      Prefix(s);
    }
    assert s == s[..n] + s[n..];
    if !Stops(s[n..]) {
      assert s[n..][1..] == s[n + 1..] && s == s[..n] + "." + s[n + 1..];
    }
  }

  /** The strings that are accepted: seconds, with anything behind them that cannot be
      taken for a fraction, or a decimal number. */
  lemma AcceptedIff(s: string)
    requires s != ""
    ensures Parsed(s).Some? <==>
            (exists a, rest :: IsSeconds(s, a, rest)) || (exists a, b :: IsDecimal(s, a, b))
  {
    hide *;
    forall a, rest | IsSeconds(s, a, rest)
      ensures Parsed(s).Some?
    {
      OnlySeconds(s, a, rest);
    }
    forall a, b | IsDecimal(s, a, b)
      ensures Parsed(s).Some?
    {
      OnlyDecimal(s, a, b);
    }
    if Parsed(s).Some? {
      AcceptedParts(s);
    }
  }

  lemma {:induction false} Pow10Grows(m: nat, n: nat)
    requires m <= n
    ensures Pow10(m) <= Pow10(n)
  {
    if m < n {
      Pow10Grows(m, n - 1);
    }
  }

  /** A number is as long as its digits at least, and its sign. */
  lemma LongBound(b: string)
    requires IsLong(b)
    ensures var v := ScanLong(b).value.value;
            v < Pow10(|b|) && -v < Pow10(|b| - 1)
  {
    hide Val, Lead, Pow10;
    var k := Blanks(b);
    var j := if k < |b| && IsSign(b[k]) then k + 1 else k;
    var digits := b[j..][..Lead(b[j..])];
    ValBound(digits);
    Pow10Grows(|digits|, |b|);
    if b[k] == '-' {
      Pow10Grows(|digits|, |b| - 1);
    } else {
      OnePower(|b| - 1);
    }
  }

  lemma OnePower(n: nat)
    ensures Pow10(n) > 0
  {
  }

  const TENTH: int := 100_000_000

  lemma Tenth()
    ensures Pow10(8) == TENTH && Pow10(9) == GIGA
  {
  }

  /** The nanoseconds of a decimal number. */
  lemma FractionBound(v: int, n: nat)
    requires 1 <= n <= 9 && v < Pow10(n) && -v < Pow10(n - 1)
    ensures -TENTH < Fraction(v, n) < GIGA && (Fraction(v, n) < 0 <==> v < 0)
  {
    hide Pow10;
    var q := Pow10(9 - n);
    Tenth();
    Splits(n);
    Pow10Add(n - 1, 9 - n);
    Times(v, Pow10(n), q);
    Times(-v, Pow10(n - 1), q);
    if v < 0 {
      Times(v, 0, q);
    } else {
      Times(-1, v, q);
    }
  }

  lemma Times(x: int, y: int, q: int)
    requires x < y && q > 0
    ensures x * q < y * q && x * q + q <= y * q
  {
    assert (y - x - 1) * q >= 0;
  }

  /** What comes out lies within what the ruler can print in nine characters, and is a
      normal time if and only if the part behind the dot is not negative. */
  lemma NormalIff(s: string)
    requires s != "" && Parsed(s).Some?
    ensures -TENTH < Parsed(s).value.nsec < GIGA
    ensures Normal(Parsed(s).value) <==> forall a, b :: IsDecimal(s, a, b) ==> ScanLong(b).value.value >= 0
  {
    hide ScanLong, Fraction, Pow10, Parsed, IsSeconds;
    forall a, b | IsDecimal(s, a, b)
      ensures var t := Parsed(s).value; -TENTH < t.nsec < GIGA && (t.nsec < 0 <==> ScanLong(b).value.value < 0)
    {
      OnlyDecimal(s, a, b);
      LongBound(b);
      NotEmpty(b);
      FractionBound(ScanLong(b).value.value, |b|);
    }
    AcceptedParts(s);
    var n := if ScanLong(s).Some? then ScanLong(s).value.len else 0;
    if IsSeconds(s, s[..n], s[n..]) {
      OnlySeconds(s, s[..n], s[n..]);
    }
  }

  lemma NotEmpty(b: string)
    requires IsLong(b)
    ensures b != ""
  {
  }

  // ----------------------------------------------------------------- round trip

  function DigitChar(d: nat): char
    requires d < 10
  {
    ('0' as int + d) as char
  }

  function Show(n: nat): (s: string)
    ensures Digits(s) && s != "" && Val(s) == n
  {
    if n < 10 then [DigitChar(n)] else Show(n / 10) + [DigitChar(n % 10)]
  }

  function ShowPadded(n: nat, width: nat): (s: string)
    requires n < Pow10(width)
    ensures Digits(s) && |s| == width && Val(s) == n
  {
    if width == 0 then "" else ShowPadded(n / 10, width - 1) + [DigitChar(n % 10)]
  }

  /** %li */
  function ShowLong(n: int): string { if n < 0 then "-" + Show(-n) else Show(n) }

  /** %09li, of a number that fits in nine characters */
  function ShowNine(n: int): (s: string)
    requires -TENTH < n < GIGA
    ensures |s| == 9
  {
    Tenth();
    if n < 0 then "-" + ShowPadded(-n, 8) else ShowPadded(n, 9)
  }

  /** Reading back what "%li.%09li" printed gives the same time, normal or not. */
  lemma PrintThenParse(t: Timespec)
    requires -TENTH < t.nsec < GIGA
    ensures Parsed(ShowLong(t.sec) + "." + ShowNine(t.nsec)) == Some(t)
  {
    hide Parsed, Show, ShowPadded, Val, Pow10, ScanLong;
    Tenth();
    var a, b := ShowLong(t.sec), ShowNine(t.nsec);
    ShownIsLong(Show(if t.sec < 0 then -t.sec else t.sec));
    ShownIsLong(if t.nsec < 0 then ShowPadded(-t.nsec, 8) else ShowPadded(t.nsec, 9));
    Whole(t.nsec);
    OnlyDecimal(a + "." + b, a, b);
  }

  lemma ShownIsLong(d: string)
    requires Digits(d) && d != ""
    ensures ScanLong(d) == Some(Number(Val(d), |d|))
    ensures ScanLong("-" + d) == Some(Number(-(Val(d) as int), 1 + |d|))
  {
    DigitsAreLong(d);
    MinusIsLong(d);
  }

  lemma Whole(n: int)
    ensures Fraction(n, 9) == n
  {
    assert Pow10(0) == 1;
  }

  /** So the delay that the ruler reports is the one it was given, for every argument it
      accepts. */
  lemma ReportedDelay(s: string)
    requires s != "" && Parsed(s).Some?
    ensures -TENTH < Parsed(s).value.nsec < GIGA
    ensures var t := Parsed(s).value; Parsed(ShowLong(t.sec) + "." + ShowNine(t.nsec)) == Some(t)
  {
    hide Parsed;
    NormalIff(s);
    PrintThenParse(Parsed(s).value);
  }
}
