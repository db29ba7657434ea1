/** The smallest PE file around a version resource: building it in place, reading it back, and why bytes behind
    the end of a file never change what is read. */
module PeRoundTrip {
  import opened LibraryStore
  import opened PeVersion
  import opened PeBuilder

  /** Bytes written into a buffer at an offset. */
  function Poke(s: Bytes, off: nat, bytes: Bytes): (r: Bytes)
    requires off + |bytes| <= |s|
    ensures |r| == |s|
    ensures forall i | 0 <= i < |r| :: r[i] == if off <= i < off + |bytes| then bytes[i - off] else s[i]
  {
    s[..off] + bytes + s[off + |bytes|..]
  }

  const ROOM := 0x600

  /** DOS header, signature, COFF header and optional header. */
  function WithHeaders(s: Bytes): (r: Bytes)
    requires |s| == ROOM
    ensures |r| == ROOM
  {
    var a := Poke(Poke(Poke(s, 0, MZ), 0x3c, Le32(0x80)), 0x80, SIGNATURE);
    var b := Poke(Poke(Poke(a, 0x86, Le16(1)), 0x94, Le16(240)), 0x98, Le16(0x20b));
    var c := Poke(Poke(Poke(Poke(Poke(b, 0xb8, Le32(0x1000)), 0xbc, Le32(0x200)), 0xd0, Le32(0x2000)), 0xd4, Le32(0x200)),
                  0x104, Le32(16));
    Poke(Poke(c, 0xdc, Le16(2)), 0x118, Le32(0x1000) + Le32(0x800))
  }

  const RSRC: Bytes := [0x2e, 0x72, 0x73, 0x72, 0x63, 0, 0, 0]

  function WithSection(s: Bytes): (r: Bytes)
    requires |s| == ROOM
    ensures |r| == ROOM
  {
    var a := Poke(s, 0x188, RSRC);
    var b := Poke(a, 0x190, Le32(0x400) + Le32(0x1000) + Le32(0x400) + Le32(0x200));
    Poke(b, 0x1ac, Le32(0x4000_0040))
  }

  /** Root, type, name and language directory, and the data entry with the length of the resource. */
  function WithResources(s: Bytes, n: nat): (r: Bytes)
    requires |s| == ROOM && n < 0x1_0000_0000
    ensures |r| == ROOM
  {
    var a := Poke(Poke(s, 0x20e, Le16(1)), 0x210, Le32(RT_VERSION) + Le32(0x8000_0018));
    var b := Poke(Poke(a, 0x226, Le16(1)), 0x228, Le32(1) + Le32(0x8000_0030));
    var c := Poke(Poke(b, 0x23e, Le16(1)), 0x240, Le32(1033) + Le32(0x48));
    Poke(c, 0x248, Le32(0x1100) + Le32(n) + Le32(1200))
  }

  function Image(n: nat): (r: Bytes)
    requires n < 0x1_0000_0000
    ensures |r| == ROOM
  {
    WithResources(WithSection(WithHeaders(Zeros(ROOM))), n)
  }

  /** Python's slice assignment: the resource takes the place of the bytes it covers, and the file grows if it
      covers more than there are. */
  function Placed(image: Bytes, blob: Bytes): Bytes
    requires |image| == ROOM
  {
    image[..0x300] + blob + image[Min(0x300 + |blob|, ROOM)..]
  }

  function BuildPe(blob: Bytes, payload: Bytes): Bytes
    requires |blob| < 0x1_0000_0000
  {
    Placed(Image(|blob|), blob) + payload
  }

  method PackInto(pe: array<Byte>, off: nat, bytes: Bytes)
    requires off + |bytes| <= pe.Length
    modifies pe
    ensures pe[..] == Poke(old(pe[..]), off, bytes)
  {
    for i := 0 to |bytes|
      invariant forall k | 0 <= k < pe.Length :: pe[k] == if off <= k < off + i then bytes[k - off] else old(pe[k])
    {
      pe[off + i] := bytes[i];
    }
  }

  method BuildPeInPlace(blob: Bytes, payload: Bytes) returns (file: Bytes)
    requires |blob| < 0x1_0000_0000
    ensures file == BuildPe(blob, payload)
  {
    hide Poke, Le16, Le32;
    var pe := new Byte[ROOM](_ => 0);
    assert pe[..] == Zeros(ROOM);
    PackInto(pe, 0, MZ);
    PackInto(pe, 0x3c, Le32(0x80));
    PackInto(pe, 0x80, SIGNATURE);
    PackInto(pe, 0x86, Le16(1));
    PackInto(pe, 0x94, Le16(240));
    PackInto(pe, 0x98, Le16(0x20b));
    PackInto(pe, 0xb8, Le32(0x1000));
    PackInto(pe, 0xbc, Le32(0x200));
    PackInto(pe, 0xd0, Le32(0x2000));
    PackInto(pe, 0xd4, Le32(0x200));
    PackInto(pe, 0x104, Le32(16));
    PackInto(pe, 0xdc, Le16(2));
    PackInto(pe, 0x118, Le32(0x1000) + Le32(0x800));
    assert pe[..] == WithHeaders(Zeros(ROOM));
    PackInto(pe, 0x188, RSRC);
    PackInto(pe, 0x190, Le32(0x400) + Le32(0x1000) + Le32(0x400) + Le32(0x200));
    PackInto(pe, 0x1ac, Le32(0x4000_0040));
    PackInto(pe, 0x20e, Le16(1));
    PackInto(pe, 0x210, Le32(RT_VERSION) + Le32(0x8000_0018));
    PackInto(pe, 0x226, Le16(1));
    PackInto(pe, 0x228, Le32(1) + Le32(0x8000_0030));
    PackInto(pe, 0x23e, Le16(1));
    PackInto(pe, 0x240, Le32(1033) + Le32(0x48));
    PackInto(pe, 0x248, Le32(0x1100) + Le32(|blob|) + Le32(1200));
    var image := pe[..];
    assert image == Image(|blob|);
    file := image[..0x300] + blob + image[Min(0x300 + |blob|, ROOM)..] + payload;
  }

  // --- reading the image back -----------------------------------------------------------

  lemma Le32IsRead(v: nat)
    requires v < 0x1_0000_0000
    ensures U32(Le32(v), 0) == Ok(v)
  {
    var (a, b) := (v / 0x100, v / 0x1_0000);
    assert b == a / 0x100 && v / 0x100_0000 == b / 0x100;
    assert v == 0x100 * a + v % 0x100 && a == 0x100 * b + a % 0x100 && b == 0x100 * (b / 0x100) + b % 0x100;
  }

  /** Four bytes that are those of a number. */
  ghost predicate Holds32(b: Bytes, off: nat, v: nat)
    requires v < 0x1_0000_0000
  {
    off + 4 <= |b| && b[off] == Le32(v)[0] && b[off + 1] == Le32(v)[1] && b[off + 2] == Le32(v)[2] && b[off + 3] == Le32(v)[3]
  }

  lemma Holds32IsRead(b: Bytes, off: nat, v: nat)
    requires v < 0x1_0000_0000 && Holds32(b, off, v)
    ensures U32(b, off) == Ok(v)
  {
    Le32IsRead(v);
    hide Le32;
  }

  lemma HeaderFields(s: Bytes)
    requires |s| == ROOM
    ensures var r := WithHeaders(s);
            && r[..2] == MZ && Holds32(r, 0x3c, 0x80) && r[0x80..0x84] == SIGNATURE
            && U16(r, 0x86) == Ok(1) && U16(r, 0x94) == Ok(240) && U16(r, 0x98) == Ok(0x20b) && Holds32(r, 0x118, 0x1000)
            && forall i | 0x120 <= i < ROOM :: r[i] == s[i]
  {
    hide Poke, Le32, Le16;
    var r := WithHeaders(s);
    assert Le16(1) == [1, 0] && Le16(240) == [240, 0] && Le16(0x20b) == [0x0b, 2] by {
      assert U16(Le16(1), 0) == Ok(1) && U16(Le16(240), 0) == Ok(240) && U16(Le16(0x20b), 0) == Ok(0x20b);
    }
  }

  lemma SectionFields(s: Bytes)
    requires |s| == ROOM
    ensures var r := WithSection(s);
            && Holds32(r, 0x190, 0x400) && Holds32(r, 0x194, 0x1000) && Holds32(r, 0x198, 0x400) && Holds32(r, 0x19c, 0x200)
            && forall i | 0 <= i < ROOM && (i < 0x188 || i >= 0x1b0) :: r[i] == s[i]
  {
    hide Poke, Le32;
  }

  lemma ResourceFields(s: Bytes, n: nat)
    requires |s| == ROOM && n < 0x1_0000_0000
    requires forall i | 0x200 <= i < ROOM :: s[i] == 0
    ensures var r := WithResources(s, n);
            && U16(r, 0x20c) == Ok(0) && U16(r, 0x20e) == Ok(1) && Holds32(r, 0x210, RT_VERSION) && Holds32(r, 0x214, 0x8000_0018)
            && U16(r, 0x224) == Ok(0) && U16(r, 0x226) == Ok(1) && Holds32(r, 0x22c, 0x8000_0030)
            && U16(r, 0x23c) == Ok(0) && U16(r, 0x23e) == Ok(1) && Holds32(r, 0x244, 0x48)
            && Holds32(r, 0x248, 0x1100) && Holds32(r, 0x24c, n)
            && forall i | 0 <= i < 0x200 :: r[i] == s[i]
  {
    hide Poke, Le32, Le16;
    assert Le16(1) == [1, 0] by {
      assert U16(Le16(1), 0) == Ok(1);
    }
  }

  const RSRC_SECTION := Section(0x1000, 0x400, 0x400, 0x200)

  /** Two images that agree up to some offset hold the same numbers before it. */
  ghost predicate Agree(r: Bytes, c: Bytes, end: nat) {
    |r| == |c| == ROOM && end <= ROOM && forall i | 0 <= i < end :: r[i] == c[i]
  }

  lemma WordAgrees(r: Bytes, c: Bytes, end: nat, off: nat, v: nat)
    requires v < 0x1_0000_0000 && Agree(r, c, end) && off + 4 <= end && Holds32(c, off, v)
    ensures U32(r, off) == Ok(v)
  {
    assert Holds32(r, off, v) by {
      hide Le32;
    }
    hide Le32, U32;
    Holds32IsRead(r, off, v);
  }

  lemma HalfAgrees(r: Bytes, c: Bytes, end: nat, off: nat)
    requires Agree(r, c, end) && off + 2 <= end
    ensures U16(r, off) == U16(c, off)
  {
  }

  lemma SliceAgrees(r: Bytes, c: Bytes, end: nat, i: nat, j: nat)
    requires Agree(r, c, end) && i <= j <= end
    ensures r[i..j] == c[i..j]
  {
  }

  /** What the later writes leave alone. */
  lemma HeadersStay(n: nat)
    requires n < 0x1_0000_0000
    ensures Agree(Image(n), WithSection(WithHeaders(Zeros(ROOM))), 0x200)
    ensures Agree(Image(n), WithHeaders(Zeros(ROOM)), 0x188)
  {
    var h := WithHeaders(Zeros(ROOM));
    hide WithHeaders, WithSection, WithResources, Image, Holds32, U16, U32;
    ResourceFieldsOf(n);
    SectionFields(h);
  }

  lemma SectionName(s: Bytes)
    requires |s| == ROOM
    ensures forall i | 0 <= i < 8 :: WithSection(s)[0x188 + i] == RSRC[i]
  {
    hide Poke, Le32;
  }

  /** Where things are in the file: the name of its one section, the resource, and the payload behind everything. */
  lemma FileLayout(blob: Bytes, payload: Bytes)
    requires |blob| < 0x1_0000_0000
    ensures var f := BuildPe(blob, payload);
            && |f| == (if |blob| <= 768 then 1536 else 768 + |blob|) + |payload|
            && f[0x188..0x190] == [0x2e, 0x72, 0x73, 0x72, 0x63, 0, 0, 0]
            && f[0x300..0x300 + |blob|] == blob && f[|f| - |payload|..] == payload
  {
    HeadersStay(|blob|);
    SectionName(WithHeaders(Zeros(ROOM)));
    hide WithHeaders, WithSection, WithResources, Image;
    var (image, f) := (Image(|blob|), BuildPe(blob, payload));
    assert f == image[..0x300] + blob + image[Min(0x300 + |blob|, ROOM)..] + payload;
    forall i | 0 <= i < 8
      ensures f[0x188..0x190][i] == RSRC[i]
    {
      assert f[0x188 + i] == image[0x188 + i] == WithSection(WithHeaders(Zeros(ROOM)))[0x188 + i];
    }
  }

  lemma HeaderFieldsOf(n: nat)
    requires n < 0x1_0000_0000
    ensures var r := Image(n);
            && r[..2] == MZ && U32(r, 0x3c) == Ok(0x80) && r[0x80..0x84] == SIGNATURE
            && U16(r, 0x86) == Ok(1) && U16(r, 0x94) == Ok(240) && U16(r, 0x98) == Ok(0x20b) && U32(r, 0x118) == Ok(0x1000)
            && U32(r, 0x190) == Ok(0x400) && U32(r, 0x194) == Ok(0x1000) && U32(r, 0x198) == Ok(0x400) && U32(r, 0x19c) == Ok(0x200)
  {
    hide WithHeaders, WithSection, WithResources, Image, Holds32, Agree, U16, U32, Le32;
    var r, h := Image(n), WithHeaders(Zeros(ROOM));
    var c := WithSection(h);
    HeadersStay(n);
    HeaderFields(Zeros(ROOM));
    SectionFields(h);
    WordAgrees(r, h, 0x188, 0x3c, 0x80);
    WordAgrees(r, h, 0x188, 0x118, 0x1000);
    HalfAgrees(r, h, 0x188, 0x86);
    HalfAgrees(r, h, 0x188, 0x94);
    HalfAgrees(r, h, 0x188, 0x98);
    SliceAgrees(r, h, 0x188, 0, 2);
    SliceAgrees(r, h, 0x188, 0x80, 0x84);
    WordAgrees(r, c, 0x200, 0x190, 0x400);
    WordAgrees(r, c, 0x200, 0x194, 0x1000);
    WordAgrees(r, c, 0x200, 0x198, 0x400);
    WordAgrees(r, c, 0x200, 0x19c, 0x200);
  }

  lemma SameReads(f: Bytes, r: Bytes, off: nat)
    requires |f| >= 0x300 && |r| >= 0x300 && f[..0x300] == r[..0x300] && off + 4 <= 0x300
    ensures U16(f, off) == U16(r, off) && U32(f, off) == U32(r, off)
  {
    forall i | off <= i < off + 4
      ensures f[i] == r[i]
    {
      assert f[..0x300][i] == r[..0x300][i];
    }
  }

  lemma SameSlices(f: Bytes, r: Bytes, i: nat, j: nat)
    requires |f| >= 0x300 && |r| >= 0x300 && f[..0x300] == r[..0x300] && i <= j <= 0x300
    ensures f[i..j] == r[i..j]
  {
    forall k | i <= k < j
      ensures f[k] == r[k]
    {
      assert f[..0x300][k] == r[..0x300][k];
    }
  }

  lemma HeadersFromFields(f: Bytes)
    requires |f| >= 0x300 && f[..2] == MZ && f[0x80..0x84] == SIGNATURE
    requires U32(f, 0x3c) == Ok(0x80) && U16(f, 0x86) == Ok(1) && U16(f, 0x94) == Ok(240) && U16(f, 0x98) == Ok(0x20b)
    requires U32(f, 0x118) == Ok(0x1000)
    ensures HeadersOf(f) == Ok(Headers(0x1000, 0x188, 1))
  {
    hide U16, U32;
  }

  lemma SectionsFromFields(f: Bytes)
    requires U32(f, 0x190) == Ok(0x400) && U32(f, 0x194) == Ok(0x1000) && U32(f, 0x198) == Ok(0x400) && U32(f, 0x19c) == Ok(0x200)
    ensures Sections(f, 0x188, 1) == Ok([RSRC_SECTION])
  {
    hide U16, U32;
    assert Sections(f, 0x188, 0) == Ok([]);
    assert SectionAt(f, 0x188) == Ok(RSRC_SECTION);
    assert [] + [RSRC_SECTION] == [RSRC_SECTION];
  }

  lemma HeadersAreRead(f: Bytes, n: nat)
    requires n < 0x1_0000_0000 && |f| >= 0x300 && f[..0x300] == Image(n)[..0x300]
    ensures HeadersOf(f) == Ok(Headers(0x1000, 0x188, 1)) && Sections(f, 0x188, 1) == Ok([RSRC_SECTION])
  {
    var r := Image(n);
    HeaderFieldsOf(n);
    hide Image, U16, U32, HeadersOf, Sections, MZ, SIGNATURE;
    SameSlices(f, r, 0, 2);
    SameSlices(f, r, 0x80, 0x84);
    SameReads(f, r, 0x3c);
    SameReads(f, r, 0x86);
    SameReads(f, r, 0x94);
    SameReads(f, r, 0x98);
    SameReads(f, r, 0x118);
    HeadersFromFields(f);
    SameReads(f, r, 0x190);
    SameReads(f, r, 0x194);
    SameReads(f, r, 0x198);
    SameReads(f, r, 0x19c);
    SectionsFromFields(f);
  }

  lemma ResourceFieldsOf(n: nat)
    requires n < 0x1_0000_0000
    ensures var r := Image(n);
            && U16(r, 0x20c) == Ok(0) && U16(r, 0x20e) == Ok(1) && Holds32(r, 0x210, RT_VERSION) && Holds32(r, 0x214, 0x8000_0018)
            && U16(r, 0x224) == Ok(0) && U16(r, 0x226) == Ok(1) && Holds32(r, 0x22c, 0x8000_0030)
            && U16(r, 0x23c) == Ok(0) && U16(r, 0x23e) == Ok(1) && Holds32(r, 0x244, 0x48)
            && Holds32(r, 0x248, 0x1100) && Holds32(r, 0x24c, n)
            && forall i | 0 <= i < 0x200 :: r[i] == WithSection(WithHeaders(Zeros(ROOM)))[i]
  {
    var z := Zeros(ROOM);
    HeaderFields(z);
    SectionFields(WithHeaders(z));
    hide WithHeaders, WithSection, WithResources, Le32, Poke, Holds32, U16;
    ResourceFields(WithSection(WithHeaders(z)), n);
  }

  lemma EntryIsCounted(f: Bytes, r: Bytes, d: nat)
    requires |f| >= 0x300 && |r| >= 0x300 && f[..0x300] == r[..0x300] && d + 18 <= 0x300
    requires U16(r, d + 12) == Ok(0) && U16(r, d + 14) == Ok(1)
    ensures EntryCount(f, d) == Ok(1)
  {
    SameReads(f, r, d + 12);
    SameReads(f, r, d + 14);
    hide U16, U32;
  }

  lemma FieldIsRead(f: Bytes, r: Bytes, off: nat, v: nat)
    requires |f| >= 0x300 && |r| >= 0x300 && f[..0x300] == r[..0x300] && off + 4 <= 0x300
    requires v < 0x1_0000_0000 && Holds32(r, off, v)
    ensures U32(f, off) == Ok(v)
  {
    Holds32IsRead(r, off, v);
    SameReads(f, r, off);
  }

  lemma DirectoriesFromFields(f: Bytes)
    requires EntryCount(f, 0x218) == Ok(1) && EntryCount(f, 0x230) == Ok(1)
    requires U32(f, 0x210) == Ok(RT_VERSION) && U32(f, 0x214) == Ok(0x8000_0018)
    requires U32(f, 0x22c) == Ok(0x8000_0030) && U32(f, 0x244) == Ok(0x48)
    ensures SubdirById(f, 0x200, 0x200, RT_VERSION, 0, 1) == Ok(0x218)
    ensures FirstEntry(f, 0x218) == Ok(0x8000_0030) && FirstEntry(f, 0x230) == Ok(0x48)
  {
    hide EntryCount, U32;
  }

  lemma ResourceFromFields(f: Bytes, n: nat)
    requires |f| >= 0x300 + n && EntryCount(f, 0x200) == Ok(1)
    requires SubdirById(f, 0x200, 0x200, RT_VERSION, 0, 1) == Ok(0x218)
    requires FirstEntry(f, 0x218) == Ok(0x8000_0030) && FirstEntry(f, 0x230) == Ok(0x48)
    requires U32(f, 0x248) == Ok(0x1100) && U32(f, 0x24c) == Ok(n)
    ensures ResourceOf(f, [RSRC_SECTION], 0x200) == Ok(f[0x300..0x300 + n])
  {
    hide EntryCount, U32, SubdirById, FirstEntry;
    assert RvaToOffset([RSRC_SECTION], 0x1100) == Ok(0x300);
    assert Slice(f, 0x300, 0x300 + n) == f[0x300..0x300 + n];
  }

  lemma ResourceIsRead(f: Bytes, n: nat)
    requires n < 0x1_0000_0000 && |f| >= 0x300 + n && f[..0x300] == Image(n)[..0x300]
    ensures ResourceOf(f, [RSRC_SECTION], 0x200) == Ok(f[0x300..0x300 + n])
  {
    ResourceFieldsOf(n);
    hide WithHeaders, WithSection, Le32, Image, Holds32, U16, U32, EntryCount, Zeros, SubdirById, FirstEntry, ResourceOf;
    var r := Image(n);
    EntryIsCounted(f, r, 0x200);
    EntryIsCounted(f, r, 0x218);
    EntryIsCounted(f, r, 0x230);
    FieldIsRead(f, r, 0x210, RT_VERSION);
    FieldIsRead(f, r, 0x214, 0x8000_0018);
    FieldIsRead(f, r, 0x22c, 0x8000_0030);
    FieldIsRead(f, r, 0x244, 0x48);
    DirectoriesFromFields(f);
    FieldIsRead(f, r, 0x248, 0x1100);
    FieldIsRead(f, r, 0x24c, n);
    ResourceFromFields(f, n);
  }

  function MakePe(version: Units, key: Units, payload: Bytes): Option<Bytes> {
    match BuildVersionBlob(version, key)
    case Some(blob) => if |blob| < 0x1_0000_0000 then Some(BuildPe(blob, payload)) else None
    case None => None
  }

  lemma BuiltFileIsRead(blob: Bytes, payload: Bytes)
    requires |blob| < 0x1_0000_0000
    ensures FileVersion(BuildPe(blob, payload)) == VersionInBlob(blob)
  {
    var f := BuildPe(blob, payload);
    assert f[..0x300] == Image(|blob|)[..0x300];
    assert f[0x300..0x300 + |blob|] == blob;
    HeadersAreRead(f, |blob|);
    ResourceIsRead(f, |blob|);
    hide HeadersOf, Sections, ResourceOf, Image, VersionInBlob;
    assert RvaToOffset([RSRC_SECTION], 0x1000) == Ok(0x200);
  }

  /** The file round trip, for every version that fits, every key and every payload. */
  lemma RoundTrip(version: Units, key: Units, payload: Bytes)
    requires 0 !in key && MakePe(version, key, payload).Some?
    ensures FileVersion(MakePe(version, key, payload).value)
            == if IsFileVersion(key) then Expected(version) else Err(NoFileVersion)
  {
    var blob := BuildVersionBlob(version, key).value;
    BuiltBlobIsRead(version, key);
    hide BuildPe, FileVersion, VersionInBlob, BuildVersionBlob, IsFileVersion;
    BuiltFileIsRead(blob, payload);
  }

  /** A file can be made exactly when the resource fits 16 bits; the payload does not matter. */
  lemma FileIsMadeExactlyWhen(version: Units, key: Units, payload: Bytes)
    ensures MakePe(version, key, payload).Some? <==> BlobSize(|key|, |version|) < 65_536
  {
    hide BuildVersionBlob, BuildPe, BlobSize;
    BlobIsBuiltExactlyWhen(version, key);
  }

  // --- when the version comes back as it was --------------------------------------------------

  lemma {:induction false} UpToNulShrinks(s: Units)
    ensures |UpToNul(s)| <= |s| && (UpToNul(s) == s <==> 0 !in s) && (|UpToNul(s)| == |s| ==> UpToNul(s) == s)
  {
    if s != [] && s[0] != 0 {
      UpToNulShrinks(s[1..]);
      assert s == [s[0]] + s[1..];
      assert UpToNul(s) == s ==> UpToNul(s)[1..] == s[1..];
    }
  }

  lemma {:induction false} DecodedKeepsLength(s: Units)
    ensures |Decoded(s)| == |s|
  {
    if s == [] {
    } else if HighSurrogate(s[0]) && |s| > 1 && LowSurrogate(s[1]) {
      DecodedKeepsLength(s[2..]);
    } else {
      DecodedKeepsLength(s[1..]);
    }
  }

  lemma {:induction false} StripLeftShrinks(s: Units)
    ensures |StripLeft(s)| <= |s| && (|StripLeft(s)| == |s| ==> StripLeft(s) == s)
  {
    if s != [] && IsSpace(s[0]) {
      StripLeftShrinks(s[1..]);
    }
  }

  lemma {:induction false} StripRightShrinks(s: Units)
    ensures |StripRight(s)| <= |s| && (|StripRight(s)| == |s| ==> StripRight(s) == s)
  {
    if s != [] && IsSpace(s[|s| - 1]) {
      StripRightShrinks(s[..|s| - 1]);
    }
  }

  /** The version comes back unchanged if and only if it is not empty, holds no NUL, no unpaired surrogate, and
      no space at its ends. */
  lemma ComesBackExactlyWhen(version: Units, payload: Bytes)
    requires MakePe(version, FILE_VERSION_KEY, payload).Some?
    ensures FileVersion(MakePe(version, FILE_VERSION_KEY, payload).value) == Ok(version)
            <==> version != [] && 0 !in version && Decoded(version) == version && Strip(version) == version
  {
    WordsAreWords();
    RoundTrip(version, FILE_VERSION_KEY, payload);
    hide MakePe, FileVersion, IsFileVersion, FILE_VERSION_KEY, UpToNul, Decoded, StripLeft, StripRight;
    UpToNulShrinks(version);
    DecodedKeepsLength(UpToNul(version));
    StripLeftShrinks(Decoded(UpToNul(version)));
    StripRightShrinks(StripLeft(Decoded(UpToNul(version))));
  }

  // --- bytes behind the end --------------------------------------------------------------------

  lemma ReadsAgree(data: Bytes, more: Bytes, off: nat)
    ensures U16(data, off).Ok? ==> U16(data + more, off) == U16(data, off)
    ensures U32(data, off).Ok? ==> U32(data + more, off) == U32(data, off)
  {
  }

  lemma HeadersAgree(data: Bytes, more: Bytes)
    requires HeadersOf(data).Ok?
    ensures HeadersOf(data + more) == HeadersOf(data)
  {
    var all := data + more;
    assert all[..2] == data[..2];
    var pe := U32(data, 0x3c).value;
    ReadsAgree(data, more, 0x3c);
    ReadsAgree(data, more, pe + 6);
    ReadsAgree(data, more, pe + 20);
    ReadsAgree(data, more, pe + 24);
    ReadsAgree(data, more, pe + 24 + 96 + 16);
    ReadsAgree(data, more, pe + 24 + 112 + 16);
    hide U16, U32;
    assert pe + 4 <= |data| && all[pe..pe + 4] == data[pe..pe + 4];
  }

  lemma {:induction false} SectionsAgree(data: Bytes, more: Bytes, table: nat, n: nat)
    requires Sections(data, table, n).Ok?
    ensures Sections(data + more, table, n) == Sections(data, table, n)
  {
    if n > 0 {
      SectionsAgree(data, more, table, n - 1);
      var off := table + (n - 1) * 40;
      ReadsAgree(data, more, off + 8);
      ReadsAgree(data, more, off + 12);
      ReadsAgree(data, more, off + 16);
      ReadsAgree(data, more, off + 20);
      hide U32;
    }
  }

  lemma EntriesAgree(data: Bytes, more: Bytes, d: nat)
    ensures EntryCount(data, d).Ok? ==> EntryCount(data + more, d) == EntryCount(data, d)
    ensures FirstEntry(data, d).Ok? ==> FirstEntry(data + more, d) == FirstEntry(data, d)
  {
    ReadsAgree(data, more, d + 12);
    ReadsAgree(data, more, d + 14);
    ReadsAgree(data, more, d + 20);
    hide U16, U32;
  }

  lemma {:induction false} SubdirsAgree(data: Bytes, more: Bytes, base: nat, d: nat, wanted: nat, i: nat, n: nat)
    requires SubdirById(data, base, d, wanted, i, n).Ok?
    ensures SubdirById(data + more, base, d, wanted, i, n) == SubdirById(data, base, d, wanted, i, n)
    decreases n - i
  {
    ReadsAgree(data, more, d + 16 + i * 8);
    ReadsAgree(data, more, d + 16 + i * 8 + 4);
    hide U32;
    var name := U32(data, d + 16 + i * 8).value;
    if name >= HIGH_BIT || name != wanted {
      SubdirsAgree(data, more, base, d, wanted, i + 1, n);
    }
  }

  lemma ResourcesAgree(data: Bytes, more: Bytes, sections: seq<Section>, base: nat)
    requires ResourceOf(data, sections, base).Ok?
    ensures ResourceOf(data + more, sections, base) == ResourceOf(data, sections, base)
  {
    hide U16, U32, EntryCount, FirstEntry, SubdirById, RvaToOffset;
    var all := data + more;
    EntriesAgree(data, more, base);
    var n := EntryCount(data, base).value;
    SubdirsAgree(data, more, base, base, RT_VERSION, 0, n);
    var typeDir := SubdirById(data, base, base, RT_VERSION, 0, n).value;
    EntriesAgree(data, more, typeDir);
    var sub := FirstEntry(data, typeDir).value;
    EntriesAgree(data, more, base + (sub - HIGH_BIT));
    var leaf := FirstEntry(data, base + (sub - HIGH_BIT)).value;
    ReadsAgree(data, more, base + leaf);
    ReadsAgree(data, more, base + leaf + 4);
    var at := RvaToOffset(sections, U32(data, base + leaf).value).value;
    var size := U32(data, base + leaf + 4).value;
    assert Slice(all, at, at + size) == Slice(data, at, at + size);
  }

  /** Appending bytes to any file that is accepted changes nothing: an installer's overlay is never read. */
  lemma AppendedBytesDoNotMatter(data: Bytes, more: Bytes)
    requires FileVersion(data).Ok?
    ensures FileVersion(data + more) == FileVersion(data)
  {
    hide HeadersOf, Sections, ResourceOf, VersionInBlob, RvaToOffset;
    HeadersAgree(data, more);
    var h := HeadersOf(data).value;
    SectionsAgree(data, more, h.table, h.sections);
    var sections := Sections(data, h.table, h.sections).value;
    ResourcesAgree(data, more, sections, RvaToOffset(sections, h.resources).value);
  }
}
