/** The ID-length-value data objects of a BR Code payload (EMV QR Code
    Specification for Payment Systems, Merchant-Presented Mode, section 4):
    a two-character ID, the value's length as two decimal digits, the value. */
module Tlv {
  import opened JsText
  import opened Wrappers

  /** `String(n).padStart(2, "0")`: two digits for 0..99 and, since
      `padStart` never truncates, the plain decimal form from 100 on. */
  function Pad2(n: nat): (r: string)
    ensures AllDigits(r)
    ensures n <= 99 <==> |r| == 2
  {
    DecimalTwoDigits(n);
    PadStart(Decimal(n), 2, '0')
  }

  /** `Pad2` keeps the number: its digits read back as `n`. */
  lemma Pad2Value(n: nat)
    ensures Value(Pad2(n), 10) == n
  {
    ValueToBase(n, 10);
    PadStartValue(Decimal(n), 2, 10);
  }

  /** `padStart` never truncates: from 100 on, `Pad2` is the plain decimal
      rendering, three digits or more. */
  lemma Pad2NoTruncation(n: nat)
    requires n >= 100
    ensures Pad2(n) == Decimal(n) && |Pad2(n)| >= 3
  {
    DecimalTwoDigits(n);
  }

  /** Two decimal digits suffice exactly for 0..99. */
  lemma DecimalTwoDigits(n: nat)
    ensures n <= 99 <==> |Decimal(n)| <= 2
  {
    if n <= 99 {
      ToBaseLength(n, 10, 2);
    } else {
      DecimalAtLeastThree(n);
    }
  }

  /** `formatTLV(id, value)`: the ID, the value's length through `Pad2`, the
      value. Values longer than 99 characters get a three-digit length. */
  function FormatTlv(id: string, value: string): (r: string)
    ensures |value| <= 99 ==> |r| == |id| + 2 + |value|
    ensures |value| > 99 ==> |r| > |id| + 2 + |value|
  {
    id + Pad2(|value|) + value
  }

  /** One data object of the payload. */
  datatype Field = Field(id: string, value: string)

  /** A field whose serialisation the two-digit length can describe. */
  predicate WellFormed(f: Field)
  {
    |f.id| == 2 && |f.value| <= 99
  }

  predicate AllWellFormed(fs: seq<Field>)
  {
    forall i :: 0 <= i < |fs| ==> WellFormed(fs[i])
  }

  /** Concatenation of the serialised fields, in order. */
  function Encode(fs: seq<Field>): (r: string)
    ensures |r| >= 2 * |fs|
  {
    if fs == [] then [] else FormatTlv(fs[0].id, fs[0].value) + Encode(fs[1..])
  }

  /** Walks a string as 2-character ID, 2-digit length, value, until it is
      used up; `None` when a length is not two digits or runs past the end. */
  function Parse(s: string): Option<seq<Field>>
    decreases |s|
  {
    if s == [] then Some([])
    else if |s| < 4 || !IsDigit(s[2]) || !IsDigit(s[3]) then None
    else
      var n := DigitValue(s[2]) * 10 + DigitValue(s[3]);
      if |s| < 4 + n then None
      else
        match Parse(s[4 + n..])
        case None => None
        case Some(rest) => Some([Field(s[..2], s[4..4 + n])] + rest)
  }

  lemma TwoDigitValue(r: string)
    requires |r| == 2
    ensures Value(r, 10) == DigitValue(r[0]) * 10 + DigitValue(r[1])
  {
    var h := r[..1];
    assert h[..0] == [] && h[0] == r[0];
    assert Value(h, 10) == DigitValue(r[0]);
    assert r[..|r| - 1] == h;
  }

  /** Two two-digit strings with the same value are the same string. */
  lemma TwoDigitsUnique(a: string, b: string)
    requires |a| == 2 && |b| == 2 && AllDigits(a) && AllDigits(b)
    requires Value(a, 10) == Value(b, 10)
    ensures a == b
  {
    TwoDigitValue(a);
    TwoDigitValue(b);
    assert a[0] == b[0] && a[1] == b[1];
  }

  /** Encoding distributes over concatenation of field lists. */
  lemma {:induction false} EncodeAppend(a: seq<Field>, b: seq<Field>)
    ensures Encode(a + b) == Encode(a) + Encode(b)
    decreases |a|
  {
    if a == [] {
      assert a + b == b;
    } else {
      var f, rest := a[0], a[1..];
      assert a == [f] + rest;
      assert a + b == [f] + (rest + b);
      EncodeCons(f, rest + b);
      EncodeCons(f, rest);
      EncodeAppend(rest, b);
      Concat3(FormatTlv(f.id, f.value), Encode(rest), Encode(b));
    }
  }

  /** Parsing one serialised well-formed field followed by anything. */
  lemma ParseFormatTlv(f: Field, tail: string)
    requires WellFormed(f)
    ensures Parse(FormatTlv(f.id, f.value) + tail) ==
      match Parse(tail)
      case None => None
      case Some(rest) => Some([f] + rest)
  {
    var p := Pad2(|f.value|);
    var s := f.id + p + f.value + tail;
    assert FormatTlv(f.id, f.value) + tail == s;
    TwoDigitValue(p);
    Pad2Value(|f.value|);
    Slices(f.id, p, f.value, tail);
  }

  /** Where the four parts of a serialised field sit. */
  lemma Slices(id: string, len: string, v: string, tail: string)
    requires |id| == 2 && |len| == 2
    ensures var s := id + len + v + tail;
      && s[2] == len[0] && s[3] == len[1] && s[..2] == id
      && s[4..4 + |v|] == v && s[4 + |v|..] == tail
  {
  }

  lemma PairLiteral(f: Field, g: Field)
    ensures [f] + [g] == [f, g]
  {
  }

  /** A single serialised well-formed field reads back as itself. */
  lemma ParseOne(f: Field)
    requires WellFormed(f)
    ensures Parse(FormatTlv(f.id, f.value)) == Some([f])
  {
    var s := FormatTlv(f.id, f.value);
    assert s + [] == s;
    ParseFormatTlv(f, []);
    assert Parse(s + []) == Some([f] + []);
    assert [f] + [] == [f];
  }

  /** Two serialised well-formed fields read back as the pair. */
  lemma ParseTwo(f: Field, g: Field)
    requires WellFormed(f) && WellFormed(g)
    ensures Parse(FormatTlv(f.id, f.value) + FormatTlv(g.id, g.value)) == Some([f, g])
  {
    var t := FormatTlv(g.id, g.value);
    ParseOne(g);
    ParseFormatTlv(f, t);
    assert Parse(FormatTlv(f.id, f.value) + t) == Some([f] + [g]);
    PairLiteral(f, g);
  }

  /** Appending one serialised well-formed field to an encoding appends it
      to what is read back. */
  lemma ParseAppended(fs: seq<Field>, g: Field)
    requires AllWellFormed(fs) && WellFormed(g)
    ensures Parse(Encode(fs) + Encode([g])) == Some(fs + [g])
  {
    EncodeAppend(fs, [g]);
    WellFormedConcat(fs, [g]);
    ParseEncode(fs + [g]);
  }

  /** Joining two well-formed runs gives a well-formed run. */
  lemma WellFormedConcat(a: seq<Field>, b: seq<Field>)
    requires AllWellFormed(a) && AllWellFormed(b)
    ensures AllWellFormed(a + b)
  {
  }


  /** Round trip: walking the encoding of well-formed fields gives the fields
      back. */
  lemma {:induction false} ParseEncode(fs: seq<Field>)
    requires AllWellFormed(fs)
    ensures Parse(Encode(fs)) == Some(fs)
    decreases |fs|
  {
    if fs != [] {
      var f, rest := fs[0], fs[1..];
      assert [f] + rest == fs;
      var t := Encode(rest);
      assert Encode(fs) == FormatTlv(f.id, f.value) + t;
      ParseEncode(rest);
      ParseFormatTlv(f, t);
    }
  }

  /** The converse: whatever `Parse` accepts is well-formed and is exactly
      the encoding of the fields it returns. */
  lemma {:induction false} EncodeParse(s: string)
    requires Parse(s).Some?
    ensures AllWellFormed(Parse(s).value)
    ensures Encode(Parse(s).value) == s
    decreases |s|
  {
    if s != [] {
      var n := DigitValue(s[2]) * 10 + DigitValue(s[3]);
      var id, len, v, tail := s[..2], s[2..4], s[4..4 + n], s[4 + n..];
      Split4(s, 2, 4, 4 + n);
      assert len[0] == s[2] && len[1] == s[3];
      forall i | 0 <= i < 2
        ensures IsDigit(len[i])
      {
      }
      TwoDigitValue(len);
      PadOfDigits(len);
      EncodeParse(tail);
      var rest := Parse(tail).value;
      var f := Field(id, v);
      assert Parse(s) == Some([f] + rest);
      EncodeCons(f, rest);
      WellFormedCons(f, rest);
    }
  }

  /** A string cut at three points is the concatenation of its four pieces. */
  lemma Split4(s: string, i: nat, j: nat, k: nat)
    requires i <= j <= k <= |s|
    ensures s == s[..i] + s[i..j] + s[j..k] + s[k..]
  {
  }

  /** Two digits read as a length are what `Pad2` writes for it. */
  lemma PadOfDigits(len: string)
    requires |len| == 2 && AllDigits(len)
    ensures Value(len, 10) <= 99 && Pad2(Value(len, 10)) == len
  {
    var n := Value(len, 10);
    TwoDigitValue(len);
    assert DigitValue(len[0]) <= 9 && DigitValue(len[1]) <= 9;
    Pad2Value(n);
    TwoDigitsUnique(Pad2(n), len);
  }

  lemma EncodeCons(f: Field, rest: seq<Field>)
    ensures Encode([f] + rest) == FormatTlv(f.id, f.value) + Encode(rest)
  {
    assert ([f] + rest)[0] == f && ([f] + rest)[1..] == rest;
  }

  lemma WellFormedCons(f: Field, rest: seq<Field>)
    requires WellFormed(f) && AllWellFormed(rest)
    ensures AllWellFormed([f] + rest)
  {
    assert forall i :: 1 <= i < |rest| + 1 ==> ([f] + rest)[i] == rest[i - 1];
  }

}
