/** What both payload builders share: the request they are called with and
    the checksum test a reader of the payload applies. */
module BrCode {
  import opened JsText
  import opened Crc
  import opened Tlv
  import opened Wrappers

  /** `{ chave, valor, nome, cidade, id }`, with the amount `valor` held as
      integer hundredths. */
  datatype Request = Request(chave: string, cents: int, nome: string, cidade: string, id: string)

  /** The globally unique identifier of the Pix arrangement. */
  const Gui := "BR.GOV.BCB.PIX"

  /** A reader's acceptance test: the payload ends in "6304" and four
      upper-case hex digits whose value is CRC-16/CCITT-FALSE over everything
      before those digits, "6304" included. The CRC is taken over the low
      byte of each UTF-16 code unit, so this agrees with a reader of the
      payload's bytes only when every character is ASCII. */
  predicate ChecksumOk(p: string)
  {
    && |p| >= 8
    && p[|p| - 8..|p| - 4] == "6304"
    && (forall i :: |p| - 4 <= i < |p| ==> IsUpperHexDigit(p[i]))
    && Value(p[|p| - 4..], 16) == CcittFalse(Bytes(p[..|p| - 4])) as int
  }

  /** The "00" object of the merchant account template, written out. */
  lemma GuiObject()
    ensures FormatTlv("00", Gui) == "0014" + Gui
  {
    assert |Gui| == 14;
    Pad2Fourteen();
    FourteenObject(Gui);
  }

  /** A value whose length is written "14" goes under "00" as "0014" and the
      value. */
  lemma FourteenObject(v: string)
    requires Pad2(|v|) == "14"
    ensures FormatTlv("00", v) == "0014" + v
  {
    assert FormatTlv("00", v) == "00" + "14" + v;
    assert "00" + "14" == "0014";
  }

  lemma Pad2Fourteen()
    ensures Pad2(14) == "14"
  {
    assert ToBase(14, 10) == ToBase(1, 10) + [DigitChar(4)] == "14";
  }

  /** A string framed as `head + middle + tail` and closed by `c` starts
      with `head`, has `tail` just before `c`, and ends with `c`. */
  lemma Framed(head: string, middle: string, tail: string, c: string)
    ensures var p := head + middle + tail + c;
      && |p| == |head| + |middle| + |tail| + |c|
      && p[..|head|] == head
      && p[|head|..|head| + |middle|] == middle
      && p[|head| + |middle|..|p| - |c|] == tail
      && p[..|p| - |c|] == head + middle + tail
      && p[|p| - |c|..] == c
  {
  }

  /** The same for a string with no part before the middle. */
  lemma Sealed(middle: string, tail: string, c: string)
    ensures var p := middle + tail + c;
      && |p| == |middle| + |tail| + |c|
      && p[..|middle|] == middle
      && p[|middle|..|p| - |c|] == tail
      && p[..|p| - |c|] == middle + tail
      && p[|p| - |c|..] == c
  {
  }

  /** The data objects both builders write between the header and the
      checksum, in their order: merchant account information, category code
      "0000", currency "986", amount, country "BR", merchant name, merchant
      city and additional data. */
  function Layout(account: string, amount: string, name: string, city: string,
                  additional: string): (fs: seq<Field>)
  {
    [ Field("26", account), Field("52", "0000"), Field("53", "986"), Field("54", amount),
      Field("58", "BR"), Field("59", name), Field("60", city), Field("62", additional) ]
  }

  /** The layout's tags are two characters and its constant values short, so
      it is well formed once the five variable values fit two-digit lengths. */
  lemma LayoutWellFormed(account: string, amount: string, name: string, city: string,
                         additional: string)
    requires |account| <= 99 && |amount| <= 99 && |name| <= 99 && |city| <= 99
    requires |additional| <= 99
    ensures AllWellFormed(Layout(account, amount, name, city, additional))
  {
  }

  /** Where each variable value sits in the layout. */
  lemma LayoutValues(account: string, amount: string, name: string, city: string,
                     additional: string)
    ensures var fs := Layout(account, amount, name, city, additional);
      fs[0].value == account && fs[3].value == amount && fs[5].value == name &&
      fs[6].value == city && fs[7].value == additional
  {
  }

  /** "000201" and "6304" are the data objects "00" = "01" and the head of
      "63" with length 4. */
  lemma FixedObjects(crc: string)
    requires |crc| == 4
    ensures Encode([Field("00", "01")]) == "000201"
    ensures Encode([Field("63", crc)]) == "6304" + crc
  {
    assert Decimal(2) == "2" && Decimal(4) == "4";
    assert Pad2(2) == "02" && Pad2(4) == "04";
  }

  /** A run of well-formed objects closed by "6304" and four checksum
      characters reads back as the run followed by the "63" field. */
  lemma ParseSealed(fs: seq<Field>, crc: string)
    requires AllWellFormed(fs) && |crc| == 4
    ensures Parse(Encode(fs) + "6304" + crc) == Some(fs + [Field("63", crc)])
  {
    FixedObjects(crc);
    ParseAppended(fs, Field("63", crc));
    Concat3(Encode(fs), "6304", crc);
  }


}
