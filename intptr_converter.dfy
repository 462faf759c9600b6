/** The JSON converter for pointer-width integers (IPPC-Library/Serialization/Converters/IntPtrConverter.cs):
    a `nint` travels as a JSON string holding its decimal text. The model fixes the width at 64 bits. */
module IntPtrConversion {
  import opened Outcomes

  const MinPtr: int := -0x8000_0000_0000_0000
  const MaxPtr: int := 0x7FFF_FFFF_FFFF_FFFF

  /** `nint` in a 64-bit process. */
  newtype NInt = x: int | -0x8000_0000_0000_0000 <= x <= 0x7FFF_FFFF_FFFF_FFFF

  /** The token the JSON reader stands on, as far as `GetString` distinguishes tokens. */
  datatype JsonToken = StringToken(text: string) | NullToken | OtherToken

  predicate IsDigit(c: char) { '0' <= c <= '9' }

  predicate AllDigits(s: string) { forall i :: 0 <= i < |s| ==> IsDigit(s[i]) }

  /** The white space `NumberStyles.Integer` skips: tab, line feed, vertical tab, form feed, carriage return, space. */
  predicate IsWhite(c: char) { c == ' ' || '\t' <= c <= '\r' }

  function DigitChar(d: nat): (c: char)
    requires d < 10
    ensures IsDigit(c)
  {
    ('0' as int + d) as char
  }

  function DigitValue(c: char): (d: nat)
    requires IsDigit(c)
    ensures d < 10 && DigitChar(d) == c
  {
    (c as int - '0' as int)
  }

  /** The decimal digits of n, most significant first, without leading zeros. */
  function NatText(n: nat): string
  {
    if n < 10 then [DigitChar(n)] else NatText(n / 10) + [DigitChar(n % 10)]
  }

  /** `ToString()` of an integer: an optional minus sign and its decimal digits. */
  function IntText(n: int): (s: string)
    ensures Canonical(s)
    ensures s[0] == '-' <==> n < 0
  {
    NatTextCanonical(if n < 0 then -n else n);
    if n < 0 then "-" + NatText(-n) else NatText(n)
  }

  /** The number a string of digits denotes. */
  function DigitsValue(s: string): nat
    requires AllDigits(s)
  {
    if s == [] then 0 else DigitsValue(s[..|s| - 1]) * 10 + DigitValue(s[|s| - 1])
  }

  function TrimStart(s: string): string
  {
    if s != [] && IsWhite(s[0]) then TrimStart(s[1..]) else s
  }

  function TrimEnd(s: string): string
  {
    if s != [] && IsWhite(s[|s| - 1]) then TrimEnd(s[..|s| - 1]) else s
  }

  /** The number a trimmed text denotes: one optional sign, then at least one decimal digit. */
  function SignedValue(t: string): Option<int>
  {
    var signed := |t| > 0 && (t[0] == '-' || t[0] == '+');
    var digits := if signed then t[1..] else t;
    if digits == [] || !AllDigits(digits) then None
    else
      var m: int := DigitsValue(digits);
      Some(if signed && t[0] == '-' then -m else m)
  }

  /** `nint.Parse` with `NumberStyles.Integer`: surrounding white space, one optional sign, then
      at least one decimal digit; a well-formed number outside the range overflows. */
  function Parse(s: string): (r: Result<NInt>)
    ensures r.Ok? ==> IntegerText(s, r.value as int)
    ensures r.Err? ==> r.error == BadFormat || r.error == Overflow
    ensures r == Err(Overflow) ==> exists m :: IntegerText(s, m) && !(MinPtr <= m <= MaxPtr)
  {
    ParseSound(s);
    match SignedValue(TrimEnd(TrimStart(s)))
    case None => Err(BadFormat)
    case Some(n) => if MinPtr <= n <= MaxPtr then Ok(n as NInt) else Err(Overflow)
  }

  predicate AllWhite(s: string) { forall i :: 0 <= i < |s| ==> IsWhite(s[i]) }

  /** A non-empty run of decimal digits. */
  predicate DigitRun(d: string) { |d| > 0 && AllDigits(d) }

  /** u is an optional sign followed by digits denoting m. */
  predicate SignedDigits(u: string, m: int)
  {
    (|u| > 0 && u[0] == '-' && DigitRun(u[1..]) && m == -(DigitsValue(u[1..]) as int)) ||
    (|u| > 0 && u[0] == '+' && DigitRun(u[1..]) && m == DigitsValue(u[1..])) ||
    (DigitRun(u) && m == DigitsValue(u))
  }

  /** The grammar `NumberStyles.Integer` accepts, stated independently of `Parse`: white space, an optionally
      signed run of digits denoting m, white space. */
  predicate IntegerText(s: string, m: int)
  {
    exists a, b :: 0 <= a <= b <= |s| && AllWhite(s[..a]) && AllWhite(s[b..]) && SignedDigits(s[a..b], m)
  }

  lemma SignedValueSound(t: string)
    ensures SignedValue(t).Some? ==> SignedDigits(t, SignedValue(t).value)
  {
  }

  lemma SignedValueComplete(u: string, m: int)
    requires SignedDigits(u, m)
    ensures SignedValue(u) == Some(m)
  {
  }

  /** Whatever `Parse` does not reject as malformed is integer text. */
  lemma ParseSound(s: string)
    ensures SignedValue(TrimEnd(TrimStart(s))).Some? ==> IntegerText(s, SignedValue(TrimEnd(TrimStart(s))).value)
  {
    var u := TrimStart(s);
    TrimStartSuffix(s);
    var t := TrimEnd(u);
    TrimEndPrefix(u);
    SignedValueSound(t);
    if SignedValue(t).Some? {
      var a, b := |s| - |u|, |s| - |u| + |t|;
      assert s[a..b] == t;
      assert forall j :: 0 <= j < a ==> s[..a][j] == s[j];
      assert forall j :: 0 <= j < |s| - b ==> s[b..][j] == u[|t| + j];
      assert 0 <= a <= b <= |s| && AllWhite(s[..a]) && AllWhite(s[b..]) && SignedDigits(s[a..b], SignedValue(t).value);
    }
  }

  lemma {:induction false} TrimStartWhitePrefix(s: string, a: nat)
    requires a <= |s| && AllWhite(s[..a]) && (a < |s| ==> !IsWhite(s[a]))
    ensures TrimStart(s) == s[a..]
  {
    if a > 0 {
      assert IsWhite(s[..a][0]);
      assert s[1..][..a - 1] == s[1..a];
      assert forall j :: 0 <= j < a - 1 ==> s[1..a][j] == s[..a][j + 1];
      TrimStartWhitePrefix(s[1..], a - 1);
      assert s[1..][a - 1..] == s[a..];
    } else {
      assert s != [] ==> !IsWhite(s[0]);
    }
  }

  lemma {:induction false} TrimEndWhiteSuffix(s: string, b: nat)
    requires b <= |s| && AllWhite(s[b..]) && (b > 0 ==> !IsWhite(s[b - 1]))
    ensures TrimEnd(s) == s[..b]
  {
    if b < |s| {
      assert IsWhite(s[b..][|s| - 1 - b]);
      var s' := s[..|s| - 1];
      assert s'[b..] == s[b..|s| - 1];
      assert forall j :: 0 <= j < |s'| - b ==> s'[b..][j] == s[b..][j];
      TrimEndWhiteSuffix(s', b);
      assert s'[..b] == s[..b];
    } else {
      assert s[..b] == s;
    }
  }

  /** Trimming white space around text whose ends are not white leaves exactly that text. */
  lemma TrimAround(s: string, a: nat, b: nat)
    requires a < b <= |s| && AllWhite(s[..a]) && AllWhite(s[b..])
    requires !IsWhite(s[a]) && !IsWhite(s[b - 1])
    ensures TrimEnd(TrimStart(s)) == s[a..b]
  {
    TrimStartWhitePrefix(s, a);
    var x := s[a..];
    assert x[b - a..] == s[b..] && x[..b - a] == s[a..b];
    TrimEndWhiteSuffix(x, b - a);
  }

  /** An optionally signed digit run starts with a sign or a digit and ends with a digit. */
  lemma SignedDigitsEnds(u: string, m: int)
    requires SignedDigits(u, m)
    ensures |u| > 0 && !IsWhite(u[0]) && IsDigit(u[|u| - 1])
  {
    if u[0] == '-' || u[0] == '+' {
      assert u[|u| - 1] == u[1..][|u| - 2];
    }
  }

  /** Integer text, once trimmed, is a signed digit run denoting its number. */
  lemma TrimmedValue(s: string, m: int)
    requires IntegerText(s, m)
    ensures SignedValue(TrimEnd(TrimStart(s))) == Some(m)
  {
    var a, b :| 0 <= a <= b <= |s| && AllWhite(s[..a]) && AllWhite(s[b..]) && SignedDigits(s[a..b], m);
    var u := s[a..b];
    SignedDigitsEnds(u, m);
    assert u[0] == s[a] && u[|u| - 1] == s[b - 1];
    TrimAround(s, a, b);
    SignedValueComplete(u, m);
  }

  /** Every integer text parses to its number when that fits in the range, and overflows otherwise. */
  lemma ParseComplete(s: string, m: int)
    requires IntegerText(s, m)
    ensures Parse(s) == if MinPtr <= m <= MaxPtr then Ok(m as NInt) else Err(Overflow)
  {
    TrimmedValue(s, m);
  }

  /** `Parse` succeeds with n exactly on integer text denoting n. */
  lemma ParseCharacterised(s: string, n: NInt)
    ensures Parse(s) == Ok(n) <==> IntegerText(s, n as int)
  {
    if IntegerText(s, n as int) {
      ParseComplete(s, n as int);
    }
  }

  /** `Parse` overflows exactly on integer text whose number lies outside the range. */
  lemma ParseOverflows(s: string)
    ensures Parse(s) == Err(Overflow) <==> exists m :: IntegerText(s, m) && !(MinPtr <= m <= MaxPtr)
  {
    if m :| IntegerText(s, m) && !(MinPtr <= m <= MaxPtr) {
      ParseComplete(s, m);
    }
  }

  /** `Parse` reports a format error exactly on text that is not integer text at all. */
  lemma ParseRejects(s: string)
    ensures Parse(s) == Err(BadFormat) <==> forall m :: !IntegerText(s, m)
  {
    if m :| IntegerText(s, m) {
      ParseComplete(s, m);
    }
  }

  /** The text `Write` produces: "0", or a decimal number without leading zeros, negative ones with a minus sign. */
  predicate CanonicalDigits(d: string)
  {
    |d| > 0 && AllDigits(d) && (d[0] == '0' ==> |d| == 1)
  }

  predicate Canonical(s: string)
  {
    if |s| > 0 && s[0] == '-' then CanonicalDigits(s[1..]) && s[1..] != "0" else CanonicalDigits(s)
  }

  /** `Write`: the value as a JSON string token holding its canonical decimal text, never a JSON number. */
  function Write(v: NInt): (tok: JsonToken)
    ensures tok.StringToken? && Canonical(tok.text)
  {
    StringToken(IntText(v as int))
  }

  /** `Read`: a null token is refused, a token that is not a string makes `GetString` throw,
      and a string is parsed. */
  function Read(tok: JsonToken): (r: Result<NInt>)
    ensures tok.NullToken? ==> r == Err(NullString)
    ensures tok.OtherToken? ==> r == Err(NotAString)
    ensures tok.StringToken? ==> r == Parse(tok.text)
  {
    match tok
    case NullToken => Err(NullString)
    case OtherToken => Err(NotAString)
    case StringToken(s) => Parse(s)
  }

  lemma {:induction false} NatTextCanonical(n: nat)
    ensures CanonicalDigits(NatText(n))
    ensures NatText(n) == "0" <==> n == 0
    ensures n > 0 ==> NatText(n)[0] != '0'
  {
    if n >= 10 {
      NatTextCanonical(n / 10);
      assert NatText(n)[0] == NatText(n / 10)[0];
    }
  }

  lemma {:induction false} DigitsValueAppend(s: string, c: char)
    requires AllDigits(s) && IsDigit(c)
    ensures AllDigits(s + [c]) && DigitsValue(s + [c]) == DigitsValue(s) * 10 + DigitValue(c)
  {
  }

  /** Reading the digits of n gives back n. */
  lemma {:induction false} NatTextValue(n: nat)
    ensures AllDigits(NatText(n)) && DigitsValue(NatText(n)) == n
  {
    NatTextCanonical(n);
    if n < 10 {
      assert NatText(n) == [] + [DigitChar(n)];
      DigitsValueAppend([], DigitChar(n));
    } else {
      NatTextValue(n / 10);
      DigitsValueAppend(NatText(n / 10), DigitChar(n % 10));
    }
  }

  /** Digits without a leading zero denote a number at least one. */
  lemma {:induction false} LeadingDigitPositive(d: string)
    requires |d| > 0 && AllDigits(d) && d[0] != '0'
    ensures DigitsValue(d) >= 1
  {
    if |d| > 1 {
      LeadingDigitPositive(d[..|d| - 1]);
    }
  }

  /** Canonical digits are the digits of the number they denote. */
  lemma {:induction false} CanonicalDigitsText(d: string)
    requires CanonicalDigits(d)
    ensures NatText(DigitsValue(d)) == d
  {
    var init, last := d[..|d| - 1], d[|d| - 1];
    if |d| == 1 {
      assert d == [last];
    } else {
      assert d[0] != '0';
      assert init[0] == d[0];
      LeadingDigitPositive(init);
      CanonicalDigitsText(init);
      var n := DigitsValue(d);
      assert n / 10 == DigitsValue(init) && n % 10 == DigitValue(last);
      assert d == init + [last];
    }
  }

  /** Parsing the decimal text of any integer gives it back when it fits, and overflows otherwise. */
  lemma {:induction false} ParseIntText(n: int)
    ensures Parse(IntText(n)) == if MinPtr <= n <= MaxPtr then Ok(n as NInt) else Err(Overflow)
  {
    var m: nat := if n < 0 then -n else n;
    NatTextValue(m);
    NatTextCanonical(m);
    var s := IntText(n);
    assert s[0..|s|] == s;
    if n < 0 {
      assert s[0] == '-' && s[1..] == NatText(m);
      assert DigitRun(s[1..]) && n == -(DigitsValue(s[1..]) as int);
    } else {
      assert DigitRun(s) && n == DigitsValue(s);
    }
    assert SignedDigits(s[0..|s|], n) && AllWhite(s[..0]) && AllWhite(s[|s|..]);
    ParseComplete(s, n);
  }

  /** `Read` inverts `Write` on the whole pointer-width range, negatives included. */
  lemma ReadWrite(v: NInt)
    ensures Read(Write(v)) == Ok(v)
  {
    ParseIntText(v as int);
  }

  /** Canonical text is integer text, and it is the decimal text of the number it denotes. */
  lemma CanonicalDenotes(s: string) returns (m: int)
    requires Canonical(s)
    ensures IntegerText(s, m) && IntText(m) == s
  {
    assert s[0..|s|] == s && AllWhite(s[..0]) && AllWhite(s[|s|..]);
    if |s| > 0 && s[0] == '-' {
      var d := s[1..];
      assert d[0] != '0';
      LeadingDigitPositive(d);
      CanonicalDigitsText(d);
      m := -(DigitsValue(d) as int);
      assert SignedDigits(s[0..|s|], m);
      assert s == "-" + d;
    } else {
      CanonicalDigitsText(s);
      m := DigitsValue(s);
      assert SignedDigits(s[0..|s|], m);
    }
  }

  /** `Write` inverts `Read` on the text `Write` itself produces. */
  lemma {:induction false} WriteRead(s: string)
    requires Canonical(s) && Read(StringToken(s)).Ok?
    ensures Write(Read(StringToken(s)).value) == StringToken(s)
  {
    var m := CanonicalDenotes(s);
    ParseComplete(s, m);
  }

  lemma {:induction false} TrimStartSuffix(s: string)
    ensures |TrimStart(s)| <= |s| && TrimStart(s) == s[|s| - |TrimStart(s)|..]
    ensures forall j :: 0 <= j < |s| - |TrimStart(s)| ==> IsWhite(s[j])
  {
    if s != [] && IsWhite(s[0]) {
      TrimStartSuffix(s[1..]);
    }
  }

  lemma {:induction false} TrimEndPrefix(s: string)
    ensures |TrimEnd(s)| <= |s| && TrimEnd(s) == s[..|TrimEnd(s)|]
    ensures forall j :: |TrimEnd(s)| <= j < |s| ==> IsWhite(s[j])
  {
    if s != [] && IsWhite(s[|s| - 1]) {
      TrimEndPrefix(s[..|s| - 1]);
    }
  }

  /** Text holding any character that is neither a digit, a sign nor white space is not a number. */
  lemma ParseRejectsForeignChar(s: string, i: nat)
    requires i < |s| && !IsDigit(s[i]) && !IsWhite(s[i]) && s[i] != '-' && s[i] != '+'
    ensures Parse(s) == Err(BadFormat)
  {
    var u := TrimStart(s);
    TrimStartSuffix(s);
    var k := |s| - |u|;
    assert u[i - k] == s[i];
    var t := TrimEnd(u);
    TrimEndPrefix(u);
    assert t[i - k] == s[i];
    if |t| > 0 && (t[0] == '-' || t[0] == '+') {
      assert t[1..][i - k - 1] == s[i];
    }
  }

  /** Text with no digit at all, such as the empty string, a lone sign or only white space, is not a number. */
  lemma ParseRejectsNoDigits(s: string)
    requires forall i :: 0 <= i < |s| ==> !IsDigit(s[i])
    ensures Parse(s) == Err(BadFormat)
  {
    var u := TrimStart(s);
    TrimStartSuffix(s);
    var t := TrimEnd(u);
    TrimEndPrefix(u);
    assert forall j :: 0 <= j < |t| ==> t[j] == s[|s| - |u| + j];
    if |t| > 0 && (t[0] == '-' || t[0] == '+') {
      assert |t| > 1 ==> t[1..][0] == t[1];
    } else {
      assert |t| > 0 ==> t[0] == s[|s| - |u|];
    }
  }
}
