/** The numbers, codes, widths and names of the two formats, spelled out as ITU-T T.81 (table B.1) and
    ISO/IEC 14496-12 (sections 4.2, 8.11.3 and 8.11.6) list them. */
module MediaTables {
  import opened LibraryStore
  import opened MetadataRanges

  /** Fixed-width fields are big-endian. */
  lemma FieldsAreBigEndian(b: Bytes, o: nat)
    ensures o + 2 <= |b| ==> U16(b, o) == Be(b[o..o + 2]) == b[o] as nat * 256 + b[o + 1]
    ensures o + 4 <= |b| ==>
              U32(b, o) == Be(b[o..o + 4]) == b[o] as nat * 16_777_216 + b[o + 1] as nat * 65_536 + b[o + 2] as nat * 256 + b[o + 3]
    ensures o + 8 <= |b| ==> U64(b, o) == Be(b[o..o + 8]) == 4_294_967_296 * U32(b, o) + U32(b, o + 4)
  {
    if o + 2 <= |b| {
      TwoBytes(b[o..o + 2]);
    }
    if o + 4 <= |b| {
      FourBytes(b, o);
    }
    if o + 8 <= |b| {
      FourBytes(b, o);
      FourBytes(b, o + 4);
      var s := b[o..o + 8];
      assert s[..4] == b[o..o + 4] && s[4..] == b[o + 4..o + 8];
      Behind(s);
    }
  }

  lemma TwoBytes(s: Bytes)
    requires |s| == 2
    ensures Be(s) == s[0] as nat * 256 + s[1]
  {
    assert s[..1][..0] == [];
    assert Be(s[..1]) == s[0];
  }

  lemma FourBytes(b: Bytes, o: nat)
    requires o + 4 <= |b|
    ensures U32(b, o) == Be(b[o..o + 4]) == b[o] as nat * 16_777_216 + b[o + 1] as nat * 65_536 + b[o + 2] as nat * 256 + b[o + 3]
  {
    var s := b[o..o + 4];
    TwoBytes(s[..2]);
    Last(s[..3]);
    Last(s);
    assert s[..3][..2] == s[..2];
  }

  lemma Last(s: Bytes)
    requires s != []
    ensures Be(s) == 256 * Be(s[..|s| - 1]) + s[|s| - 1]
  {
  }

  lemma Behind(s: Bytes)
    requires |s| == 8
    ensures Be(s) == 4_294_967_296 * Be(s[..4]) + Be(s[4..])
  {
    FourBytes(s[4..], 0);
    Last(s);
    Last(s[..7]);
    Last(s[..6]);
    Last(s[..5]);
    hide Be, U32;
    assert s[..7][..6] == s[..6] && s[..6][..5] == s[..5] && s[..5][..4] == s[..4];
    assert s[4..][0..4] == s[4..];
  }

  /** The frame headers SOF0 to SOF15 without DHT, JPG and DAC, and the start of the scan. */
  lemma MarkersAreListed(marker: Byte)
    ensures StopsJpeg(marker) <==> marker in {0xC0, 0xC1, 0xC2, 0xC3, 0xC5, 0xC6, 0xC7, 0xC9, 0xCA, 0xCB, 0xCD, 0xCE, 0xCF, 0xDA}
    ensures IsApp(marker) <==> marker in {0xE0, 0xE1, 0xE2, 0xE3, 0xE4, 0xE5, 0xE6, 0xE7, 0xE8, 0xE9, 0xEA, 0xEB, 0xEC, 0xED, 0xEE, 0xEF}
  {
  }

  function Spelled(name: string): Bytes {
    seq(|name|, i requires 0 <= i < |name| => name[i] as int % 256)
  }

  lemma NamesAreSpelled()
    ensures FTYP == Spelled("ftyp") && MOOV == Spelled("moov") && META == Spelled("meta") && IINF == Spelled("iinf")
    ensures INFE == Spelled("infe") && ILOC == Spelled("iloc") && EXIF == Spelled("Exif") && MIME == Spelled("mime")
  {
  }

  /** Item ids have two bytes in versions 0 and 1 and four from version 2 on; versions 1 and 2 have a
      construction method and an extent index. */
  lemma WidthsAreListed(h: IlocHead)
    ensures IdWidth(h.version) == if h.version == 0 || h.version == 1 then 2 else 4
    ensures HasMethod(h.version) <==> 0 < h.version < 3
    ensures ExtentSize(h) == h.offSize + h.lenSize + h.indexSize
  {
  }

  lemma LimitsAre()
    ensures JPEG_HEAD == 4_194_304 && META_MAX == 16_777_216 && U64_MAX + 1 == 18_446_744_073_709_551_616
    ensures forall a: nat, b: nat :: Min(a, b) == if a <= b then a else b
  {
  }

  /** An extent has a range if and only if its bounds fit 64 bits: from base plus offset, over its length, or to
      the end of the file if that is zero. */
  lemma ExtentSpans(base: nat, off: nat, len: nat, fileLen: nat)
    ensures ExtentRange(base, off, len, fileLen).Some? <==> base + off + len < 18_446_744_073_709_551_616
    ensures forall r | ExtentRange(base, off, len, fileLen) == Some(r) ::
              r.start == base + off && r.end == (if len == 0 then fileLen else r.start + len)
  {
  }

  /** Of several boxes of one type the first counts. */
  lemma {:induction false} FirstBoxIsFound(kids: seq<Box>, typ: Bytes, i: nat)
    requires i < |kids| && kids[i].typ == typ && forall j | 0 <= j < i :: kids[j].typ != typ
    ensures FindBox(kids, typ) == Some(kids[i])
  {
    if i > 0 {
      FirstBoxIsFound(kids[1..], typ, i - 1);
    }
  }

  lemma {:induction false} NoBoxIsFound(kids: seq<Box>, typ: Bytes)
    requires forall j | 0 <= j < |kids| :: kids[j].typ != typ
    ensures FindBox(kids, typ) == None
  {
    if kids != [] {
      NoBoxIsFound(kids[1..], typ);
    }
  }
}
