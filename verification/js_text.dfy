/** The few JavaScript string and number built-ins the payload builders and
    `slugify` rely on, over strings whose characters are UTF-16 code units:
    `Number.prototype.toString(radix)` for non-negative integers,
    `String.prototype.padStart` with a one-character filler, ASCII
    `toUpperCase`/`toLowerCase`, `substring(0, n)` and `toFixed(2)` on an
    amount held as integer cents. */
module JsText {

  predicate IsDigit(c: char) { '0' <= c <= '9' }

  predicate IsLowerHexDigit(c: char) { IsDigit(c) || 'a' <= c <= 'f' }

  predicate IsUpperHexDigit(c: char) { IsDigit(c) || 'A' <= c <= 'F' }

  predicate AllDigits(s: string) { forall i :: 0 <= i < |s| ==> IsDigit(s[i]) }

  /** Numeric value of a digit in either case; 0 for any other character. */
  function DigitValue(c: char): (d: nat)
    ensures d < 16
  {
    if IsDigit(c) then c as int - '0' as int
    else if 'a' <= c <= 'f' then c as int - 'a' as int + 10
    else if 'A' <= c <= 'F' then c as int - 'A' as int + 10
    else 0
  }

  /** The lower-case digit JavaScript prints for `d`. */
  function DigitChar(d: nat): (c: char)
    requires d < 16
    ensures DigitValue(c) == d
    ensures IsLowerHexDigit(c)
    ensures d < 10 <==> IsDigit(c)
  {
    if d < 10 then ('0' as int + d) as char else ('a' as int + d - 10) as char
  }

  /** The number a digit string denotes in the given base, most significant
      digit first. */
  function Value(s: string, base: nat): nat
  {
    if s == [] then 0 else Value(s[..|s| - 1], base) * base + DigitValue(s[|s| - 1])
  }

  function Pow(base: nat, k: nat): nat
  {
    if k == 0 then 1 else base * Pow(base, k - 1)
  }

  lemma ValueSnoc(p: string, c: char, base: nat)
    ensures Value(p + [c], base) == Value(p, base) * base + DigitValue(c)
  {
    assert (p + [c])[..|p|] == p;
  }

  lemma DivMod(n: nat, base: nat)
    requires base >= 2
    ensures (n / base) * base + n % base == n
    ensures 0 <= n % base < base
    ensures n >= base ==> 0 < n / base < n
  {
  }

  /** `n.toString(base)` for a non-negative integer `n`: the shortest digit
      string, lower-case letters above 9. */
  function ToBase(n: nat, base: nat): (r: string)
    requires 2 <= base <= 16
    ensures 1 <= |r|
    ensures forall i :: 0 <= i < |r| ==> IsLowerHexDigit(r[i]) && DigitValue(r[i]) < base
    ensures |r| > 1 ==> r[0] != '0'
    decreases n
  {
    if n < base then [DigitChar(n)]
    else
      DivMod(n, base);
      ToBase(n / base, base) + [DigitChar(n % base)]
  }

  /** Reading back what `ToBase` printed gives the number again. */
  lemma {:induction false} ValueToBase(n: nat, base: nat)
    requires 2 <= base <= 16
    ensures Value(ToBase(n, base), base) == n
    decreases n
  {
    if n >= base {
      DivMod(n, base);
      var q, d := n / base, DigitChar(n % base);
      assert ToBase(n, base) == ToBase(q, base) + [d];
      ValueToBase(q, base);
      ValueSnoc(ToBase(q, base), d, base);
    }
  }

  /** `String(n)` for a non-negative integer. */
  function Decimal(n: nat): (r: string)
    ensures 1 <= |r| && AllDigits(r)
  {
    var r := ToBase(n, 10);
    assert forall i :: 0 <= i < |r| ==> DigitValue(r[i]) < 10 && IsLowerHexDigit(r[i]);
    r
  }

  /** A number below `base^k` needs at most `k` digits. */
  lemma {:induction false} ToBaseLength(n: nat, base: nat, k: nat)
    requires 2 <= base <= 16
    requires 1 <= k && n < Pow(base, k)
    ensures |ToBase(n, base)| <= k
    decreases k
  {
    if n >= base {
      var p := Pow(base, k - 1);
      assert Pow(base, 1) == base * Pow(base, 0);
      assert k > 1;
      QuotientBound(n, base, p);
      ToBaseLength(n / base, base, k - 1);
    }
  }

  lemma QuotientBound(n: nat, base: nat, p: nat)
    requires base >= 2 && n < base * p
    ensures n / base < p
  {
  }

  /** From 100 on, a decimal rendering has at least three digits. */
  lemma DecimalAtLeastThree(n: nat)
    requires n >= 100
    ensures |Decimal(n)| >= 3
  {
    assert n / 10 >= 10;
    assert |ToBase(n / 10, 10)| >= 2;
  }

  /** Concatenation regrouped. */
  lemma Concat3(a: string, b: string, c: string)
    ensures a + (b + c) == a + b + c
  {
  }

  function Repeat(c: char, n: nat): (r: string)
    ensures |r| == n && forall i :: 0 <= i < n ==> r[i] == c
  {
    seq(n, _ => c)
  }

  /** `s.padStart(len, fill)` with a one-character filler: pads on the left,
      and never truncates a string that is already long enough. */
  function PadStart(s: string, len: nat, fill: char): (r: string)
    ensures |r| == if |s| >= len then |s| else len
    ensures forall i :: 0 <= i < |s| ==> r[|r| - |s| + i] == s[i]
    ensures forall i :: 0 <= i < |r| - |s| ==> r[i] == fill
  {
    if |s| >= len then s else Repeat(fill, len - |s|) + s
  }

  function UpperChar(c: char): char
  {
    if 'a' <= c <= 'z' then (c as int - 32) as char else c
  }

  /** The ASCII capitals and the Latin-1 capitals U+00C0..U+00DE (all but the
      multiplication sign U+00D7). In both blocks the small letter lies 32
      code points above its capital. */
  predicate IsCapital(c: char)
  {
    'A' <= c <= 'Z' || ('\U{C0}' <= c <= '\U{DE}' && c != '\U{D7}')
  }

  function LowerChar(c: char): char
  {
    if IsCapital(c) then (c as int + 32) as char else c
  }

  /** `toUpperCase` restricted to ASCII letters: no small ASCII letter is
      left, only the letter case changes, and every other character stays. */
  function ToUpper(s: string): (r: string)
    ensures |r| == |s|
    ensures forall i :: 0 <= i < |r| ==> !('a' <= r[i] <= 'z')
    ensures forall i :: 0 <= i < |r| ==> LowerChar(r[i]) == LowerChar(s[i])
    ensures forall i :: 0 <= i < |r| && !('a' <= s[i] <= 'z') ==> r[i] == s[i]
  {
    seq(|s|, i requires 0 <= i < |s| => UpperChar(s[i]))
  }

  /** `toLowerCase` restricted to ASCII and Latin-1 letters: no capital is
      left, each capital becomes its small letter, and every other character
      stays. */
  function ToLower(s: string): (r: string)
    ensures |r| == |s|
    ensures forall i :: 0 <= i < |r| ==> !IsCapital(r[i])
    ensures forall i :: 0 <= i < |r| && IsCapital(s[i]) ==> r[i] as int == s[i] as int + 32
    ensures forall i :: 0 <= i < |r| && !IsCapital(s[i]) ==> r[i] == s[i]
  {
    seq(|s|, i requires 0 <= i < |s| => LowerChar(s[i]))
  }

  /** `s.substring(0, n)` for `n >= 0`. */
  function Prefix(s: string, n: nat): (r: string)
    ensures |r| <= n && |r| <= |s|
    ensures r == s[..|r|]
    ensures |s| <= n ==> r == s
    ensures |s| > n ==> |r| == n
  {
    if |s| <= n then s else s[..n]
  }

  /** The unsigned part of `toFixed(2)` for `m` hundredths: integer part, a
      point and exactly two fractional digits. */
  function Fixed2Body(m: nat): (r: string)
    ensures |r| >= 4 && IsDigit(r[0])
  {
    Decimal(m / 100) + "." + PadStart(Decimal(m % 100), 2, '0')
  }

  /** Integer digits from `start` on, then a point and two fraction digits. */
  predicate AmountShape(r: string, start: nat)
  {
    && |r| >= start + 4
    && r[|r| - 3] == '.' && IsDigit(r[|r| - 2]) && IsDigit(r[|r| - 1])
    && forall i :: start <= i < |r| - 3 ==> IsDigit(r[i])
  }

  /** `Fixed2Body` is integer digits, a point and two fraction digits. */
  lemma Fixed2BodyShape(m: nat)
    ensures AmountShape(Fixed2Body(m), 0)
  {
    var ip, frac := Decimal(m / 100), PadStart(Decimal(m % 100), 2, '0');
    ToBaseLength(m % 100, 10, 2);
    assert |frac| == 2 && IsDigit(frac[0]) && IsDigit(frac[1]);
    DotParts(ip, frac);
  }

  /** Where the integer digits, the point and the fraction sit. */
  lemma DotParts(ip: string, frac: string)
    requires |frac| == 2
    ensures var r := ip + "." + frac;
      && r[|r| - 3] == '.' && r[|r| - 2] == frac[0] && r[|r| - 1] == frac[1]
      && forall i :: 0 <= i < |ip| ==> r[i] == ip[i]
  {
  }

  function Fixed2BodyValue(s: string): nat
  {
    if |s| >= 3 then Value(s[..|s| - 3], 10) * 100 + Value(s[|s| - 2..], 10) else 0
  }

  /** Reads back an amount written by `ToFixed2`. */
  function Fixed2Value(s: string): int
  {
    if |s| > 0 && s[0] == '-' then -(Fixed2BodyValue(s[1..]) as int) else Fixed2BodyValue(s)
  }

  /** Leading zeros do not change a digit string's value. */
  lemma {:induction false} ValueLeadingZeros(s: string, k: nat, base: nat)
    ensures Value(Repeat('0', k) + s, base) == Value(s, base)
    decreases |s|
  {
    if s == [] {
      ValueZeros(k, base);
      assert Repeat('0', k) + s == Repeat('0', k);
    } else {
      var init, last := s[..|s| - 1], s[|s| - 1];
      assert Repeat('0', k) + s == (Repeat('0', k) + init) + [last];
      assert s == init + [last];
      ValueSnoc(Repeat('0', k) + init, last, base);
      ValueSnoc(init, last, base);
      ValueLeadingZeros(init, k, base);
    }
  }

  lemma {:induction false} ValueZeros(k: nat, base: nat)
    ensures Value(Repeat('0', k), base) == 0
  {
    if k > 0 {
      assert Repeat('0', k)[..k - 1] == Repeat('0', k - 1);
      ValueZeros(k - 1, base);
    }
  }

  /** Zero-padding keeps a digit string's value. */
  lemma PadStartValue(s: string, len: nat, base: nat)
    ensures Value(PadStart(s, len, '0'), base) == Value(s, base)
  {
    if |s| < len {
      ValueLeadingZeros(s, len - |s|, base);
    }
  }

  /** Upper-casing keeps a digit string's value. */
  lemma {:induction false} ValueToUpper(s: string, base: nat)
    ensures Value(ToUpper(s), base) == Value(s, base)
    decreases |s|
  {
    if s != [] {
      assert ToUpper(s)[..|s| - 1] == ToUpper(s[..|s| - 1]);
      ValueToUpper(s[..|s| - 1], base);
    }
  }

  /** Upper-casing before or after zero-padding gives the same string,
      because '0' has no upper-case form. */
  lemma UpperPadCommute(s: string, len: nat)
    ensures ToUpper(PadStart(s, len, '0')) == PadStart(ToUpper(s), len, '0')
  {
    var a, b := ToUpper(PadStart(s, len, '0')), PadStart(ToUpper(s), len, '0');
    assert |a| == |b|;
    forall i | 0 <= i < |a|
      ensures a[i] == b[i]
    {
      if i < |a| - |s| {
        assert PadStart(s, len, '0')[i] == '0';
      } else {
        assert PadStart(s, len, '0')[i] == s[i - (|a| - |s|)];
      }
    }
  }

  lemma Fixed2BodyRoundTrip(m: nat)
    ensures Fixed2BodyValue(Fixed2Body(m)) == m
  {
    var ip, frac := Decimal(m / 100), PadStart(Decimal(m % 100), 2, '0');
    ToBaseLength(m % 100, 10, 2);
    PadStartValue(Decimal(m % 100), 2, 10);
    ValueToBase(m / 100, 10);
    ValueToBase(m % 100, 10);
    var body := Fixed2Body(m);
    assert body == ip + "." + frac;
    DotSplit(ip, frac);
    assert Value(ip, 10) == m / 100 && Value(frac, 10) == m % 100;
    assert Fixed2BodyValue(body) == (m / 100) * 100 + m % 100;
    DivMod(m, 100);
  }

  /** Where the two sides of the decimal point sit. */
  lemma DotSplit(ip: string, frac: string)
    requires |frac| == 2
    ensures var body := ip + "." + frac;
      body[..|body| - 3] == ip && body[|body| - 2..] == frac
  {
  }

  /** `valor.toFixed(2)` for an amount of `cents` hundredths: a minus sign
      exactly for negative amounts, then `Fixed2Body`. */
  function ToFixed2(cents: int): (r: string)
    ensures |r| >= 4
    ensures (r[0] == '-') <==> cents < 0
  {
    if cents < 0 then "-" + Fixed2Body(-cents) else Fixed2Body(cents)
  }

  /** `toFixed(2)` writes integer digits, after the sign if any, a point and
      exactly two fraction digits, with no leading zero unless the integer
      part is the single digit "0". */
  lemma ToFixed2Shape(cents: int)
    ensures AmountShape(ToFixed2(cents), if cents < 0 then 1 else 0)
    ensures var r, start := ToFixed2(cents), if cents < 0 then 1 else 0;
      r[start] != '0' || start == |r| - 4
  {
    var m: nat := if cents < 0 then -cents else cents;
    Fixed2BodyShape(m);
    Fixed2BodyLead(m);
    if cents < 0 {
      MinusShape(Fixed2Body(m));
      assert ToFixed2(cents)[1] == Fixed2Body(m)[0];
    }
  }

  /** The integer digits of `Fixed2Body` start with '0' only when "0" is all
      of them. */
  lemma Fixed2BodyLead(m: nat)
    ensures var b := Fixed2Body(m); b[0] != '0' || |b| == 4
  {
    var ip, frac := Decimal(m / 100), PadStart(Decimal(m % 100), 2, '0');
    ToBaseLength(m % 100, 10, 2);
    assert Fixed2Body(m) == ip + "." + frac;
    assert Fixed2Body(m)[0] == ip[0];
  }

  lemma MinusShape(b: string)
    requires AmountShape(b, 0)
    ensures AmountShape("-" + b, 1)
  {
    var r := "-" + b;
    assert forall i :: 1 <= i < |r| ==> r[i] == b[i - 1];
  }

  /** The rendering reads back as the same number of cents. */
  lemma ToFixed2RoundTrip(cents: int)
    ensures Fixed2Value(ToFixed2(cents)) == cents
  {
    var m: nat := if cents < 0 then -cents else cents;
    Fixed2BodyRoundTrip(m);
    SignedValue(Fixed2Body(m));
  }

  /** A body starting with a digit reads as itself, and with a minus sign in
      front as its negation. */
  lemma SignedValue(b: string)
    requires |b| > 0 && IsDigit(b[0])
    ensures Fixed2Value(b) == Fixed2BodyValue(b)
    ensures Fixed2Value("-" + b) == -(Fixed2BodyValue(b) as int)
  {
    assert ("-" + b)[1..] == b;
  }

}
