/** `components/PixPage.jsx`: the page's own `crc16`, `pad2` and
    `pixPayload`. This builder writes the "01" initiation-method field, keeps
    name and city whole and puts them straight into "59"/"60", and collects
    its data objects in an array that it joins. Its `pad2` is `Tlv.Pad2` and
    its `add(id, val)` is `Tlv.FormatTlv`. */
module PixPage {
  import opened JsText
  import opened Wrappers
  import opened Tlv
  import opened Crc
  import opened BrCode
  import PixHelper

  /** `crc16(str)`: the same register loop as the helper's, rendered as
      `crc.toString(16).toUpperCase().padStart(4, "0")` — upper-casing before
      padding — which yields the same four digits. */
  function Crc16(str: string): (hex: string)
    ensures hex == PixHelper.Crc16(str)
    ensures |hex| == 4
  {
    var crc := JsRegister(str) as int;
    UpperPadCommute(ToBase(crc, 16), 4);
    PadStart(ToUpper(ToBase(crc, 16)), 4, '0')
  }

  /** The `f` array of `pixPayload`: "00" = "01", "01" = "12", then the
      merchant account built from the `merchant` array, and the remaining
      objects with name and city as given. */
  function Objects(req: Request): (fs: seq<Field>)
    ensures |fs| == 10
    ensures [fs[0].id, fs[1].id, fs[2].id, fs[3].id, fs[4].id, fs[5].id, fs[6].id, fs[7].id,
             fs[8].id, fs[9].id] == ["00", "01", "26", "52", "53", "54", "58", "59", "60", "62"]
    ensures fs[0].value == "01" && fs[1].value == "12"
    ensures fs[3].value == "0000" && fs[4].value == "986" && fs[6].value == "BR"
  {
    [Field("00", "01"), Field("01", "12")] +
    Layout(FormatTlv("00", Gui) + FormatTlv("01", req.chave), ToFixed2(req.cents),
           req.nome, req.cidade, FormatTlv("05", req.id))
  }

  /** `body + crc16(body)` with `body` the joined objects and "6304": the
      payload ends in "6304" and the `crc16` of everything before the last
      four characters. */
  function Close(fields: string): (payload: string)
    ensures |payload| == |fields| + 8
    ensures payload[..|fields|] == fields
    ensures payload[|payload| - 8..|payload| - 4] == "6304"
    ensures payload[|payload| - 4..] == Crc16(payload[..|payload| - 4])
  {
    var body := fields + "6304";
    var crc := Crc16(body);
    Sealed(fields, "6304", crc);
    body + crc
  }

  /** `pixPayload({ chave, valor, nome, cidade, id })`: the joined objects
      and "6304", followed by the `crc16` of all of that. Whatever the
      request, it opens with the "00" = "01" and "01" = "12" objects. */
  function PixPayload(req: Request): (payload: string)
    ensures |payload| >= 20
    ensures payload[..12] == "000201010212"
    ensures payload[|payload| - 8..|payload| - 4] == "6304"
    ensures payload[|payload| - 4..] == Crc16(payload[..|payload| - 4])
  {
    var fields := Encode(Objects(req));
    var rest := Layout(FormatTlv("00", Gui) + FormatTlv("01", req.chave), ToFixed2(req.cents),
                       req.nome, req.cidade, FormatTlv("05", req.id));
    HeaderEncoding(rest);
    var payload := Close(fields);
    PrefixOfPrefix(payload, fields, "000201010212", Encode(rest));
    payload
  }

  /** The two header objects serialise as "000201010212". */
  lemma HeaderEncoding(rest: seq<Field>)
    ensures Encode([Field("00", "01"), Field("01", "12")] + rest) == "000201010212" + Encode(rest)
  {
    EncodeTwo(Field("00", "01"), Field("01", "12"), rest);
    HeaderObjects();
    HeaderJoin(Encode(rest));
  }

  /** Two fields in front of a list serialise in front of its encoding. */
  lemma EncodeTwo(f: Field, g: Field, rest: seq<Field>)
    ensures Encode([f, g] + rest) == FormatTlv(f.id, f.value) + FormatTlv(g.id, g.value) + Encode(rest)
  {
    assert [f, g] + rest == [f] + ([g] + rest);
    EncodeCons(f, [g] + rest);
    EncodeCons(g, rest);
    Concat3(FormatTlv(f.id, f.value), FormatTlv(g.id, g.value), Encode(rest));
  }

  lemma HeaderObjects()
    ensures FormatTlv("00", "01") == "000201"
    ensures FormatTlv("01", "12") == "010212"
  {
    TwoCharObject("00", "01");
    TwoCharObject("01", "12");
  }

  lemma HeaderJoin(e: string)
    ensures "000201" + "010212" + e == "000201010212" + e
  {
    assert "000201" + "010212" == "000201010212";
  }

  /** A two-character value is written with the length "02". */
  lemma TwoCharObject(id: string, v: string)
    requires |v| == 2
    ensures FormatTlv(id, v) == id + "02" + v
  {
    Pad2Two();
  }

  lemma Pad2Two()
    ensures Pad2(2) == "02"
  {
    assert Decimal(2) == "2";
  }

  /** A string that starts with `h + t` starts with `h`. */
  lemma PrefixOfPrefix(p: string, f: string, h: string, t: string)
    requires |f| <= |p| && p[..|f|] == f && f == h + t
    ensures p[..|h|] == h
  {
    assert forall i :: 0 <= i < |h| ==> p[i] == f[i] == h[i];
  }

  /** A reader's checksum test accepts every payload the page builds. */
  lemma PayloadVerifies(req: Request)
    ensures ChecksumOk(PixPayload(req))
  {
    var p := PixPayload(req);
    PixHelper.Crc16Value(p[..|p| - 4]);
  }

  /** With every variable value short enough for a two-digit length, the
      payload reads back as "00", "01", the shared layout with name and city
      unchanged, and the "63" checksum field. */
  lemma PayloadObjects(req: Request)
    requires |req.chave| <= 77 && |ToFixed2(req.cents)| <= 99
    requires |req.nome| <= 99 && |req.cidade| <= 99 && |req.id| <= 95
    ensures var p := PixPayload(req);
      Parse(p) == Some(Objects(req) + [Field("63", p[|p| - 4..])])
  {
    var p := PixPayload(req);
    ObjectsWellFormed(req);
    ParseSealed(Objects(req), p[|p| - 4..]);
  }

  /** Under those bounds every object of the array is well formed. */
  lemma ObjectsWellFormed(req: Request)
    requires |req.chave| <= 77 && |ToFixed2(req.cents)| <= 99
    requires |req.nome| <= 99 && |req.cidade| <= 99 && |req.id| <= 95
    ensures AllWellFormed(Objects(req))
  {
    NestedLengths(Gui, req.chave, req.id);
    HeaderLayoutWellFormed(FormatTlv("00", Gui) + FormatTlv("01", req.chave), ToFixed2(req.cents),
                           req.nome, req.cidade, FormatTlv("05", req.id));
  }

  /** The "26" value holding a GUI of 14 characters and a key of at most 77
      characters, and the "62" value holding a txid of at most 95 characters,
      fit two-digit lengths. */
  lemma NestedLengths(gui: string, chave: string, id: string)
    requires |gui| == 14 && |chave| <= 77 && |id| <= 95
    ensures |FormatTlv("00", gui) + FormatTlv("01", chave)| <= 99
    ensures |FormatTlv("05", id)| <= 99
  {
  }

  /** The header "00" = "01", "01" = "12" followed by a layout whose values
      fit two-digit lengths is well formed. */
  lemma HeaderLayoutWellFormed(account: string, amount: string, name: string, city: string,
                               additional: string)
    requires |account| <= 99 && |amount| <= 99 && |name| <= 99 && |city| <= 99
    requires |additional| <= 99
    ensures AllWellFormed([Field("00", "01"), Field("01", "12")] +
                          Layout(account, amount, name, city, additional))
  {
    LayoutWellFormed(account, amount, name, city, additional);
    WellFormedConcat([Field("00", "01"), Field("01", "12")],
                     Layout(account, amount, name, city, additional));
  }

  /** For every request: field "26" is the GUI object followed by the "01"
      object of the key, and "59" and "60" are the name and city exactly as
      given. */
  lemma NameCityObjects(req: Request)
    ensures Objects(req)[2].value == "0014" + Gui + FormatTlv("01", req.chave)
    ensures Objects(req)[7].value == req.nome && Objects(req)[8].value == req.cidade
  {
    var account := FormatTlv("00", Gui) + FormatTlv("01", req.chave);
    var additional := FormatTlv("05", req.id);
    ShiftedValues([Field("00", "01"), Field("01", "12")],
                  account, ToFixed2(req.cents), req.nome, req.cidade, additional);
    GuiObject();
  }

  /** With a key and a txid that fit two-digit lengths, "26" reads back as
      the GUI under "00" and the key under "01", and "62" as the txid under
      "05". */
  lemma NestedObjects(req: Request)
    requires |req.chave| <= 99 && |req.id| <= 99
    ensures Parse(Objects(req)[2].value) == Some([Field("00", Gui), Field("01", req.chave)])
    ensures Parse(Objects(req)[9].value) == Some([Field("05", req.id)])
  {
    var account := FormatTlv("00", Gui) + FormatTlv("01", req.chave);
    var additional := FormatTlv("05", req.id);
    ShiftedValues([Field("00", "01"), Field("01", "12")],
                  account, ToFixed2(req.cents), req.nome, req.cidade, additional);
    assert Parse(account) == Some([Field("00", Gui), Field("01", req.chave)]) by {
      ParseTwo(Field("00", Gui), Field("01", req.chave));
    }
    assert Parse(additional) == Some([Field("05", req.id)]) by {
      ParseOne(Field("05", req.id));
    }
  }

  /** Where the variable values sit once a two-field header precedes the
      layout. */
  lemma ShiftedValues(head: seq<Field>, account: string, amount: string, name: string,
                      city: string, additional: string)
    requires |head| == 2
    ensures var fs := head + Layout(account, amount, name, city, additional);
      fs[2].value == account && fs[7].value == name && fs[8].value == city &&
      fs[9].value == additional
  {
    LayoutValues(account, amount, name, city, additional);
  }

}
