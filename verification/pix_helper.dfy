/** `src/helpers/pix.js`: `generatePixPayload` with its inner `formatTLV`, and
    the module's `crc16`. Modelled as written, including its departures from
    the other builder: no "01" field, name and city cut to 25 and 15
    characters and each wrapped in a further "02"/"03" data object inside
    "59"/"60". */
module PixHelper {
  import opened JsText
  import opened Wrappers
  import opened Tlv
  import opened Crc
  import opened BrCode

  /** `crc16(str)`: the register loop, then
      `crc.toString(16).padStart(4, "0").toUpperCase()`. */
  function Crc16(str: string): (hex: string)
    ensures |hex| == 4
    ensures forall i :: 0 <= i < 4 ==> IsUpperHexDigit(hex[i])
  {
    var crc := JsRegister(str) as int;
    RegisterValue(str);
    HexRendering(crc);
    ToUpper(PadStart(ToBase(crc, 16), 4, '0'))
  }

  /** The four digits denote the CRC-16/CCITT-FALSE of the string's bytes. */
  lemma Crc16Value(str: string)
    ensures Value(Crc16(str), 16) == CcittFalse(Bytes(str)) as int
  {
    RegisterValue(str);
    HexRenderingValue(JsRegister(str) as int);
  }

  /** The data objects `generatePixPayload` writes between "000201" and
      "6304", in order: merchant account (GUI and key), category code,
      currency, amount, country, name (cut to 25, wrapped in "02"), city (cut
      to 15, wrapped in "03") and additional data (the txid in "05"). */
  function Objects(req: Request): (fs: seq<Field>)
    ensures |fs| == 8
    ensures [fs[0].id, fs[1].id, fs[2].id, fs[3].id, fs[4].id, fs[5].id, fs[6].id, fs[7].id] ==
            ["26", "52", "53", "54", "58", "59", "60", "62"]
    ensures fs[1].value == "0000" && fs[2].value == "986" && fs[4].value == "BR"
  {
    Layout(FormatTlv("00", Gui) + FormatTlv("01", req.chave), ToFixed2(req.cents),
           FormatTlv("02", Prefix(req.nome, 25)), FormatTlv("03", Prefix(req.cidade, 15)),
           FormatTlv("05", req.id))
  }

  /** The payload around a run of data objects: "000201" before them, and
      "6304" with its `crc16` after them. */
  function Frame(fields: string): (payload: string)
    ensures |payload| == |fields| + 14
    ensures payload[..6] == "000201"
    ensures payload[6..|payload| - 8] == fields
    ensures payload[|payload| - 8..|payload| - 4] == "6304"
    ensures payload[|payload| - 4..] == Crc16(payload[..|payload| - 4])
  {
    var body := "000201" + fields + "6304";
    var crc := Crc16(body);
    Framed("000201", fields, "6304", crc);
    body + crc
  }

  /** `generatePixPayload({ chave, valor, nome, cidade, id })`: the payload
      opens with "000201", and its last eight characters are "6304" followed
      by the `crc16` of everything before those four digits. */
  function GeneratePixPayload(req: Request): (payload: string)
    ensures |payload| >= 14
    ensures payload[..6] == "000201"
    ensures payload[|payload| - 8..|payload| - 4] == "6304"
    ensures payload[|payload| - 4..] == Crc16(payload[..|payload| - 4])
  {
    Frame(Encode(Objects(req)))
  }

  /** A reader's checksum test accepts every framed payload. */
  lemma FrameVerifies(fields: string)
    ensures ChecksumOk(Frame(fields))
  {
    var p := Frame(fields);
    Crc16Value(p[..|p| - 4]);
  }

  /** ... so in particular every payload `generatePixPayload` builds. */
  lemma PayloadVerifies(req: Request)
    ensures ChecksumOk(GeneratePixPayload(req))
  {
    FrameVerifies(Encode(Objects(req)));
  }

  /** Framing a run of objects with "000201" and "6304" plus a checksum is
      encoding the list with the "00" field in front and "63" behind. */
  lemma EncodeFramed(fs: seq<Field>, crc: string)
    requires |crc| == 4
    ensures Encode([Field("00", "01")] + fs + [Field("63", crc)]) ==
            "000201" + Encode(fs) + "6304" + crc
  {
    FixedObjects(crc);
    EncodeAppend([Field("00", "01")], fs);
    EncodeAppend([Field("00", "01")] + fs, [Field("63", crc)]);
  }

  /** A framed run of well-formed objects reads back as that run between the
      "00" and "63" fields. */
  lemma ParseFramed(fs: seq<Field>, crc: string)
    requires AllWellFormed(fs) && |crc| == 4
    ensures Parse("000201" + Encode(fs) + "6304" + crc) ==
            Some([Field("00", "01")] + fs + [Field("63", crc)])
  {
    EncodeFramed(fs, crc);
    WellFormedConcat([Field("00", "01")], fs);
    WellFormedConcat([Field("00", "01")] + fs, [Field("63", crc)]);
    ParseEncode([Field("00", "01")] + fs + [Field("63", crc)]);
  }

  /** Under those length bounds every object has a two-character tag and a
      value of at most 99 characters. */
  lemma ObjectsWellFormed(req: Request)
    requires |req.chave| <= 77 && |ToFixed2(req.cents)| <= 99 && |req.id| <= 95
    ensures AllWellFormed(Objects(req))
  {
    assert |FormatTlv("00", Gui)| == 18;
    LayoutWellFormed(FormatTlv("00", Gui) + FormatTlv("01", req.chave), ToFixed2(req.cents),
                     FormatTlv("02", Prefix(req.nome, 25)),
                     FormatTlv("03", Prefix(req.cidade, 15)), FormatTlv("05", req.id));
  }

  /** When the key, the amount and the txid are short enough for two-digit
      lengths, the payload reads back as exactly the "00" field, the objects
      in `generatePixPayload`'s order, and the "63" checksum field. */
  lemma PayloadObjects(req: Request)
    requires |req.chave| <= 77 && |ToFixed2(req.cents)| <= 99 && |req.id| <= 95
    ensures var p := GeneratePixPayload(req);
      Parse(p) == Some([Field("00", "01")] + Objects(req) + [Field("63", p[|p| - 4..])])
  {
    var p := GeneratePixPayload(req);
    ObjectsWellFormed(req);
    ParseFramed(Objects(req), p[|p| - 4..]);
  }

  /** For every request: field "26" is the GUI object followed by the "01"
      object of the key, "59" holds exactly one "02" object with the name cut
      to 25 characters, and "60" exactly one "03" object with the city cut to
      15. */
  lemma NameCityObjects(req: Request)
    ensures Objects(req)[0].value == "0014" + Gui + FormatTlv("01", req.chave)
    ensures Parse(Objects(req)[5].value) == Some([Field("02", Prefix(req.nome, 25))])
    ensures Parse(Objects(req)[6].value) == Some([Field("03", Prefix(req.cidade, 15))])
  {
    var account := FormatTlv("00", Gui) + FormatTlv("01", req.chave);
    var name := FormatTlv("02", Prefix(req.nome, 25));
    var city := FormatTlv("03", Prefix(req.cidade, 15));
    var additional := FormatTlv("05", req.id);
    LayoutValues(account, ToFixed2(req.cents), name, city, additional);
    GuiObject();
    assert Parse(name) == Some([Field("02", Prefix(req.nome, 25))]) by {
      ParseOne(Field("02", Prefix(req.nome, 25)));
    }
    assert Parse(city) == Some([Field("03", Prefix(req.cidade, 15))]) by {
      ParseOne(Field("03", Prefix(req.cidade, 15)));
    }
  }

  /** With a key and a txid that fit two-digit lengths, "26" reads back as
      the GUI under "00" and the key under "01", and "62" as the txid under
      "05". */
  lemma NestedObjects(req: Request)
    requires |req.chave| <= 99 && |req.id| <= 99
    ensures Parse(Objects(req)[0].value) == Some([Field("00", Gui), Field("01", req.chave)])
    ensures Parse(Objects(req)[7].value) == Some([Field("05", req.id)])
  {
    var account := FormatTlv("00", Gui) + FormatTlv("01", req.chave);
    var name := FormatTlv("02", Prefix(req.nome, 25));
    var city := FormatTlv("03", Prefix(req.cidade, 15));
    var additional := FormatTlv("05", req.id);
    LayoutValues(account, ToFixed2(req.cents), name, city, additional);
    assert Parse(account) == Some([Field("00", Gui), Field("01", req.chave)]) by {
      ParseTwo(Field("00", Gui), Field("01", req.chave));
    }
    assert Parse(additional) == Some([Field("05", req.id)]) by {
      ParseOne(Field("05", req.id));
    }
  }

}
