/** The C and C++ library routines the benchmark harness leans on, written out
    so that their behaviour can be reasoned about: `int` as a 32-bit range,
    `isspace`/`isdigit` in the "C" locale, `atoi` from <cstdlib>,
    `std::to_string(int)` and `std::string::find` for one character. */
module CLib {

  const IntMin: int := -0x8000_0000
  const IntMax: int := 0x7fff_ffff

  /** `x` is in the range of a C `int` (32-bit two's complement). */
  predicate IsInt32(x: int) { IntMin <= x <= IntMax }

  /** The values of a C `int`. */
  type Int32 = x: int | IsInt32(x)

  /** `std::string::npos` is `None`. */
  datatype Option<T> = None | Some(value: T)

  /** `isspace` in the "C" locale: space, \t, \n, \v, \f and \r. */
  predicate IsSpace(c: char)
  {
    c == ' ' || c == '\t' || c == '\n' || c == '\U{0B}' || c == '\U{0C}' || c == '\r'
  }

  predicate IsDigit(c: char) { '0' <= c <= '9' }

  predicate AllDigits(s: string) { forall i :: 0 <= i < |s| ==> IsDigit(s[i]) }

  function DigitValue(c: char): (v: nat)
    requires IsDigit(c)
    ensures v < 10
  {
    c as int - '0' as int
  }

  function DigitChar(v: nat): (c: char)
    requires v < 10
    ensures IsDigit(c) && DigitValue(c) == v
  {
    ('0' as int + v) as char
  }

  /** The value of a run of decimal digits, most significant first. */
  function DigitsValue(ds: string): nat
    requires AllDigits(ds)
  {
    if ds == [] then 0 else 10 * DigitsValue(ds[..|ds| - 1]) + DigitValue(ds[|ds| - 1])
  }

  /** The longest prefix of `s` made of decimal digits. */
  function LeadingDigits(s: string): (r: string)
    ensures |r| <= |s| && AllDigits(r)
  {
    if s != [] && IsDigit(s[0]) then [s[0]] + LeadingDigits(s[1..]) else []
  }

  /** `LeadingDigits` is a prefix and stops only at the end or at a
      non-digit: it is the longest run of digits `s` starts with. */
  lemma {:induction false} LeadingDigitsLongest(s: string)
    ensures LeadingDigits(s) <= s
    ensures |LeadingDigits(s)| == |s| || !IsDigit(s[|LeadingDigits(s)|])
  {
    if s != [] && IsDigit(s[0]) {
      LeadingDigitsLongest(s[1..]);
      assert s == [s[0]] + s[1..];
    }
  }

  /** C `atoi`: skip white space, take an optional sign, then the longest run
      of digits; no digits gives 0. The result is the mathematical value;
      `atoi` is undefined when it does not fit an `int`, so callers that need
      a C `int` check `IsInt32` of it. */
  function Atoi(s: string): int
    decreases |s|
  {
    if s != [] && IsSpace(s[0]) then Atoi(s[1..])
    else if s != [] && (s[0] == '-' || s[0] == '+') then
      var v: int := DigitsValue(LeadingDigits(s[1..]));
      if s[0] == '-' then -v else v
    else
      DigitsValue(LeadingDigits(s))
  }

  /** `atoi` passes over any white space in front of the number. */
  lemma {:induction false} AtoiSkipsSpace(w: string, t: string)
    requires forall i :: 0 <= i < |w| ==> IsSpace(w[i])
    ensures Atoi(w + t) == Atoi(t)
  {
    if w != [] {
      assert (w + t)[0] == w[0];
      assert (w + t)[1..] == w[1..] + t;
      AtoiSkipsSpace(w[1..], t);
    } else {
      assert w + t == t;
    }
  }

  /** Decimal digits of `n`, most significant first, no leading zeros. */
  function NatToDigits(n: nat): (r: string)
    ensures |r| > 0 && AllDigits(r)
    ensures |r| > 1 ==> r[0] != '0'
    ensures DigitsValue(r) == n
  {
    if n < 10 then [DigitChar(n)]
    else
      var r := NatToDigits(n / 10) + [DigitChar(n % 10)];
      assert r[..|r| - 1] == NatToDigits(n / 10);
      r
  }

  /** `std::to_string(int)`: an optional '-' followed by the decimal digits. */
  function IntToString(d: int): (r: string)
    ensures r != [] && (IsDigit(r[0]) || r[0] == '-')
    ensures forall i :: 0 < i < |r| ==> IsDigit(r[i])
  {
    if d < 0 then "-" + NatToDigits(-d) else NatToDigits(d)
  }

  /** No character other than a digit or '-' occurs in `std::to_string`. */
  lemma IntToStringAvoids(d: int, c: char)
    requires !IsDigit(c) && c != '-'
    ensures c !in IntToString(d)
  {
    var r := IntToString(d);
    assert forall j :: 0 <= j < |r| ==> r[j] != c;
  }

  /** `s.find(c)`: the first position of `c` in `s`, or `None` for `npos`. */
  function Find(s: string, c: char): (r: Option<nat>)
    ensures r.Some? ==> r.value < |s| && s[r.value] == c
  {
    if s == [] then None
    else if s[0] == c then Some(0)
    else match Find(s[1..], c)
      case None => None
      case Some(i) => Some(i + 1)
  }

  /** `find` answers `npos` exactly when `c` does not occur, and otherwise
      the position of its first occurrence. */
  lemma {:induction false} FindFirst(s: string, c: char)
    ensures Find(s, c).None? <==> c !in s
    ensures Find(s, c).Some? ==> c !in s[..Find(s, c).value]
  {
    if s != [] && s[0] != c {
      FindFirst(s[1..], c);
      assert s == [s[0]] + s[1..];
      if Find(s[1..], c).Some? {
        var i := Find(s[1..], c).value;
        assert s[..i + 1] == [s[0]] + s[1..][..i];
      }
    }
  }

  /** A character at which `atoi` stops reading whatever came before it. */
  predicate StopsAtoi(c: char)
  {
    !IsSpace(c) && !IsDigit(c) && c != '+' && c != '-'
  }

  lemma {:induction false} LeadingDigitsAppend(s: string, t: string)
    requires t == [] || !IsDigit(t[0])
    ensures LeadingDigits(s + t) == LeadingDigits(s)
  {
    if s != [] {
      assert (s + t)[0] == s[0];
      if IsDigit(s[0]) {
        assert (s + t)[1..] == s[1..] + t;
        LeadingDigitsAppend(s[1..], t);
      }
    } else {
      assert s + t == t;
    }
  }

  lemma {:induction false} LeadingDigitsOfDigits(ds: string)
    requires AllDigits(ds)
    ensures LeadingDigits(ds) == ds
  {
    if ds != [] {
      LeadingDigitsOfDigits(ds[1..]);
    }
  }

  lemma {:induction false} AtoiStopsAppend(s: string, t: string)
    requires t == [] || StopsAtoi(t[0])
    ensures Atoi(s + t) == Atoi(s)
    decreases |s|
  {
    if s == [] {
      assert s + t == t;
      LeadingDigitsAppend([], t);
    } else {
      assert (s + t)[0] == s[0] && (s + t)[1..] == s[1..] + t;
      if IsSpace(s[0]) {
        AtoiStopsAppend(s[1..], t);
      } else if s[0] == '-' || s[0] == '+' {
        LeadingDigitsAppend(s[1..], t);
      } else {
        LeadingDigitsAppend(s, t);
      }
    }
  }

  /** `atoi` reads nothing past a character at which it stops: a comma ends
      the number, so `atoi` of "12,34" is `atoi` of "12". */
  lemma AtoiStops(s: string, i: nat)
    requires i <= |s|
    requires i == |s| || StopsAtoi(s[i])
    ensures Atoi(s) == Atoi(s[..i])
  {
    assert s == s[..i] + s[i..];
    assert i == |s| || s[i..][0] == s[i];
    AtoiStopsAppend(s[..i], s[i..]);
  }

  /** A run of digits reads back as its decimal value. */
  lemma AtoiOfDigits(ds: string)
    requires AllDigits(ds)
    ensures Atoi(ds) == DigitsValue(ds)
  {
    LeadingDigitsOfDigits(ds);
  }

  /** Digits followed by anything but a digit. */
  lemma AtoiUnsigned(ds: string, t: string)
    requires ds != [] && AllDigits(ds)
    requires t == [] || !IsDigit(t[0])
    ensures Atoi(ds + t) == DigitsValue(ds)
  {
    LeadingDigitsOfDigits(ds);
    LeadingDigitsAppend(ds, t);
    assert (ds + t)[0] == ds[0];
  }

  lemma AtoiMinus(u: string)
    ensures Atoi(['-'] + u) == -(DigitsValue(LeadingDigits(u)) as int)
  {
    assert (['-'] + u)[1..] == u;
  }

  /** '-', then digits, then anything but a digit. */
  lemma AtoiNegative(ds: string, t: string)
    requires ds != [] && AllDigits(ds)
    requires t == [] || !IsDigit(t[0])
    ensures Atoi("-" + ds + t) == -(DigitsValue(ds) as int)
  {
    assert "-" + ds + t == ['-'] + (ds + t);
    AtoiMinus(ds + t);
    LeadingDigitsOfDigits(ds);
    LeadingDigitsAppend(ds, t);
  }

  /** `atoi` inverts `std::to_string` on every `int`, also when the text is
      followed by anything that is not a digit. */
  lemma AtoiOfIntToString(d: int, t: string)
    requires t == [] || !IsDigit(t[0])
    ensures Atoi(IntToString(d) + t) == d
  {
    if d < 0 {
      AtoiNegative(NatToDigits(-d), t);
    } else {
      AtoiUnsigned(NatToDigits(d), t);
    }
  }


}
