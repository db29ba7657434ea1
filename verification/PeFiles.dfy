/** Reading the version of any executable: which files are accepted, with whatever sections, header sizes and
    resource entries in front, and what is then read. */
module PeFiles {
  import opened LibraryStore
  import opened PeVersion

  /** A little-endian 16-bit number. */
  predicate Half(data: Bytes, off: nat, v: nat) {
    off + 2 <= |data| && v == data[off] as int + 256 * data[off + 1] as int
  }

  /** A little-endian 32-bit number. */
  predicate Word(data: Bytes, off: nat, v: nat) {
    && off + 4 <= |data|
    && v == data[off] as int + 256 * data[off + 1] as int + 65536 * data[off + 2] as int + 16777216 * data[off + 3] as int
  }

  lemma HalfIsRead(data: Bytes, off: nat, v: nat)
    ensures Half(data, off, v) <==> U16(data, off).Ok? && U16(data, off).value as nat == v
  {
  }

  lemma WordIsRead(data: Bytes, off: nat, v: nat)
    ensures Word(data, off, v) <==> U32(data, off) == Ok(v)
  {
  }

  // --- sections ---------------------------------------------------------------------------

  /** The address lies in the section, by its size in memory or by its size in the file. */
  predicate Within(s: Section, rva: nat) {
    s.va <= rva && (rva < s.va + s.vsize || rva < s.va + s.rsize)
  }

  /** The first section that the address lies in says where it is in the file. */
  ghost predicate Located(sections: seq<Section>, rva: nat, off: nat) {
    exists i :: 0 <= i < |sections| && LocatedIn(sections, rva, off, i)
  }

  ghost predicate LocatedIn(sections: seq<Section>, rva: nat, off: nat, i: nat)
    requires i < |sections|
  {
    && Within(sections[i], rva) && off == sections[i].rptr + (rva - sections[i].va)
    && forall j | 0 <= j < i :: !Within(sections[j], rva)
  }

  /** For every section table: an address is found if and only if some section covers it, and then where the first of
      them says. */
  lemma {:induction false} RvaIsFoundExactlyWhen(sections: seq<Section>, rva: nat)
    ensures RvaToOffset(sections, rva).Ok? <==> exists s :: s in sections && Within(s, rva)
    ensures forall off: nat :: RvaToOffset(sections, rva) == Ok(off) <==> Located(sections, rva, off)
  {
    if sections != [] {
      var rest := sections[1..];
      RvaIsFoundExactlyWhen(rest, rva);
      assert forall s :: s in sections <==> s == sections[0] || s in rest;
      forall off: nat
        ensures RvaToOffset(sections, rva) == Ok(off) <==> Located(sections, rva, off)
      {
        if Within(sections[0], rva) {
          FirstCovers(sections, rva, off);
        } else {
          FirstPasses(sections, rva, off);
        }
      }
    }
  }

  lemma FirstCovers(sections: seq<Section>, rva: nat, off: nat)
    requires sections != [] && Within(sections[0], rva)
    ensures Located(sections, rva, off) <==> off == sections[0].rptr + (rva - sections[0].va)
  {
    if off == sections[0].rptr + (rva - sections[0].va) {
      assert LocatedIn(sections, rva, off, 0);
    }
  }

  lemma FirstPasses(sections: seq<Section>, rva: nat, off: nat)
    requires sections != [] && !Within(sections[0], rva)
    ensures Located(sections, rva, off) <==> Located(sections[1..], rva, off)
  {
    hide Within;
    var rest := sections[1..];
    if i :| 0 <= i < |sections| && LocatedIn(sections, rva, off, i) {
      assert i > 0;
      assert forall j | 0 <= j < i - 1 :: rest[j] == sections[j + 1];
      assert LocatedIn(rest, rva, off, i - 1);
    }
    if i :| 0 <= i < |rest| && LocatedIn(rest, rva, off, i) {
      forall j | 0 <= j < i + 1
        ensures !Within(sections[j], rva)
      {
        assert j > 0 ==> sections[j] == rest[j - 1];
      }
      assert LocatedIn(sections, rva, off, i + 1);
    }
  }

  ghost predicate SectionStands(data: Bytes, off: nat, s: Section) {
    Word(data, off + 8, s.vsize) && Word(data, off + 12, s.va) && Word(data, off + 16, s.rsize) && Word(data, off + 20, s.rptr)
  }

  ghost predicate TableStands(data: Bytes, table: nat, sections: seq<Section>) {
    forall i | 0 <= i < |sections| :: SectionStands(data, table + i * 40, sections[i])
  }

  lemma SectionIsRead(data: Bytes, off: nat, s: Section)
    ensures SectionStands(data, off, s) <==> SectionAt(data, off) == Ok(s)
  {
    WordIsRead(data, off + 8, s.vsize);
    WordIsRead(data, off + 12, s.va);
    WordIsRead(data, off + 16, s.rsize);
    WordIsRead(data, off + 20, s.rptr);
    hide Word, U32;
  }

  lemma {:induction false} TableIsRead(data: Bytes, table: nat, sections: seq<Section>)
    ensures TableStands(data, table, sections) <==> Sections(data, table, |sections|) == Ok(sections)
  {
    hide SectionStands, SectionAt;
    if sections != [] {
      var n := |sections| - 1;
      var init := sections[..n];
      TableIsRead(data, table, init);
      SectionIsRead(data, table + n * 40, sections[n]);
      assert sections == init + [sections[n]];
      LastOfTable(data, table, sections);
    }
  }

  lemma LastOfTable(data: Bytes, table: nat, sections: seq<Section>)
    requires sections != []
    ensures var n := |sections| - 1;
            TableStands(data, table, sections) <==>
              TableStands(data, table, sections[..n]) && SectionStands(data, table + n * 40, sections[n])
  {
    hide SectionStands;
    var init := sections[..|sections| - 1];
    assert forall i | 0 <= i < |init| :: init[i] == sections[i];
  }

  lemma {:induction false} SectionsHaveLength(data: Bytes, table: nat, n: nat)
    ensures Sections(data, table, n).Ok? ==> |Sections(data, table, n).value| == n
  {
    if n > 0 {
      SectionsHaveLength(data, table, n - 1);
    }
  }

  // --- headers -----------------------------------------------------------------------------

  /** `wide`: the optional header is that of 64-bit files. */
  ghost predicate HeadersStand(data: Bytes, pe: nat, optional: nat, wide: bool, resources: nat, sections: nat) {
    && |data| >= 64 && data[0] == 0x4D && data[1] == 0x5A && Word(data, 60, pe)
    && pe + 4 <= |data| && data[pe] == 0x50 && data[pe + 1] == 0x45 && data[pe + 2] == 0 && data[pe + 3] == 0
    && Half(data, pe + 6, sections) && Half(data, pe + 20, optional)
    && Half(data, pe + 24, if wide then 0x20B else 0x10B)
    && Word(data, pe + 24 + (if wide then 128 else 112), resources) && resources != 0
  }

  lemma SignatureIsRead(data: Bytes, pe: nat)
    ensures Slice(data, pe, pe + 4) == SIGNATURE
            <==> pe + 4 <= |data| && data[pe] == 0x50 && data[pe + 1] == 0x45 && data[pe + 2] == 0 && data[pe + 3] == 0
  {
    var s := Slice(data, pe, pe + 4);
    if s == SIGNATURE {
      assert |s| == 4 && s[0] == 0x50 && s[1] == 0x45 && s[2] == 0 && s[3] == 0;
    }
  }

  lemma HeadersAreReadAsTheyStand(data: Bytes, pe: nat, optional: nat, wide: bool, resources: nat, sections: nat)
    requires HeadersStand(data, pe, optional, wide, resources, sections)
    ensures HeadersOf(data) == Ok(Headers(resources, pe + 24 + optional, sections))
  {
    assert data[..2] == MZ;
    SignatureIsRead(data, pe);
    WordIsRead(data, 60, pe);
    HalfIsRead(data, pe + 6, sections);
    HalfIsRead(data, pe + 20, optional);
    HalfIsRead(data, pe + 24, if wide then 0x20B else 0x10B);
    WordIsRead(data, pe + 24 + (if wide then 128 else 112), resources);
    hide Half, Word, U16, U32, Slice;
  }

  lemma AcceptedHeadersStand(data: Bytes) returns (pe: nat, optional: nat, wide: bool)
    requires HeadersOf(data).Ok?
    ensures var h := HeadersOf(data).value;
            HeadersStand(data, pe, optional, wide, h.resources, h.sections) && h.table == pe + 24 + optional
  {
    assert data[..2] == MZ && data[..2][0] == 0x4D && data[..2][1] == 0x5A;
    pe := U32(data, 0x3c).value;
    optional := U16(data, pe + 20).value;
    wide := U16(data, pe + 24).value == 0x20b;
    SignatureIsRead(data, pe);
    hide Slice;
  }

  // --- resources -----------------------------------------------------------------------------

  /** A directory with so many entries: those with a name and those with a number. */
  predicate Counts(data: Bytes, d: nat, n: nat) {
    && d + 16 <= |data|
    && n == data[d + 12] as int + 256 * data[d + 13] as int + (data[d + 14] as int + 256 * data[d + 15] as int)
  }

  lemma CountIsRead(data: Bytes, d: nat, n: nat)
    ensures Counts(data, d, n) <==> EntryCount(data, d) == Ok(n)
  {
  }

  /** The entry at place `j` has a name, or another number than 16. */
  predicate OtherEntry(data: Bytes, d: nat, j: nat) {
    d + 16 + j * 8 + 4 <= |data| && !Word(data, d + 16 + j * 8, 16)
  }

  /** The entry of a directory with the number 16, at place `i`, behind entries with names or other numbers; it leads to
      the directory `sub` places behind the base. */
  ghost predicate VersionEntry(data: Bytes, d: nat, n: nat, i: nat, sub: nat) {
    && i < n
    && (forall j | 0 <= j < i :: OtherEntry(data, d, j))
    && Word(data, d + 16 + i * 8, 16) && Word(data, d + 16 + i * 8 + 4, 0x8000_0000 + sub)
  }

  /** From the entry `from` on. */
  ghost predicate VersionEntryFrom(data: Bytes, d: nat, n: nat, from: nat, i: nat, sub: nat) {
    && from <= i < n
    && (forall j | from <= j < i :: OtherEntry(data, d, j))
    && Word(data, d + 16 + i * 8, 16) && Word(data, d + 16 + i * 8 + 4, 0x8000_0000 + sub)
  }

  lemma OtherIsPassed(data: Bytes, base: nat, d: nat, n: nat, from: nat)
    requires from < n && OtherEntry(data, d, from)
    ensures SubdirById(data, base, d, RT_VERSION, from, n) == SubdirById(data, base, d, RT_VERSION, from + 1, n)
  {
    WordIsRead(data, d + 16 + from * 8, 16);
    hide Word;
  }

  lemma {:induction false} SubdirIsFound(data: Bytes, base: nat, d: nat, n: nat, from: nat, i: nat, sub: nat)
    requires VersionEntryFrom(data, d, n, from, i, sub)
    ensures SubdirById(data, base, d, RT_VERSION, from, n) == Ok(base + sub)
    decreases i - from
  {
    hide Word, OtherEntry, U32;
    if from < i {
      assert OtherEntry(data, d, from);
      OtherIsPassed(data, base, d, n, from);
      SubdirIsFound(data, base, d, n, from + 1, i, sub);
    } else {
      WordIsRead(data, d + 16 + i * 8, 16);
      WordIsRead(data, d + 16 + i * 8 + 4, 0x8000_0000 + sub);
    }
  }

  lemma {:induction false} FoundSubdirStands(data: Bytes, base: nat, d: nat, n: nat, from: nat) returns (i: nat, sub: nat)
    requires SubdirById(data, base, d, RT_VERSION, from, n).Ok?
    ensures VersionEntryFrom(data, d, n, from, i, sub) && SubdirById(data, base, d, RT_VERSION, from, n) == Ok(base + sub)
    decreases n - from
  {
    var name := U32(data, d + 16 + from * 8).value;
    WordIsRead(data, d + 16 + from * 8, name);
    WordIsRead(data, d + 16 + from * 8, 16);
    assert d + 16 + from * 8 + 4 <= |data|;
    if name == 16 {
      i := from;
      sub := U32(data, d + 16 + from * 8 + 4).value - HIGH_BIT;
      WordIsRead(data, d + 16 + i * 8 + 4, 0x8000_0000 + sub);
    } else {
      assert OtherEntry(data, d, from);
      hide U32, Word, OtherEntry;
      OtherIsPassed(data, base, d, n, from);
      i, sub := FoundSubdirStands(data, base, d, n, from + 1);
    }
  }

  /** A directory with at least one entry; the first leads to `target`. */
  ghost predicate FirstLeadsTo(data: Bytes, d: nat, target: nat) {
    (exists n: nat :: n > 0 && Counts(data, d, n)) && Word(data, d + 20, target)
  }

  lemma FirstIsRead(data: Bytes, d: nat, target: nat)
    ensures FirstLeadsTo(data, d, target) <==> FirstEntry(data, d) == Ok(target)
  {
    hide Counts, U32, Word, EntryCount;
    WordIsRead(data, d + 20, target);
    if EntryCount(data, d).Ok? {
      CountIsRead(data, d, EntryCount(data, d).value);
    }
    forall n: nat | Counts(data, d, n)
      ensures EntryCount(data, d) == Ok(n)
    {
      CountIsRead(data, d, n);
    }
  }

  /** The version resource of a file: the number 16 at place `i` of the root, then the first name, then the first
      language, then a description of the data. All places are relative to the base. */
  datatype Resource = Resource(count: nat, i: nat, typeDir: nat, nameDir: nat, leaf: nat, rva: nat, at: nat, blob: Bytes)

  ghost predicate ResourceStands(data: Bytes, sections: seq<Section>, base: nat, r: Resource) {
    && Counts(data, base, r.count) && VersionEntry(data, base, r.count, r.i, r.typeDir)
    && FirstLeadsTo(data, base + r.typeDir, 0x8000_0000 + r.nameDir)
    && FirstLeadsTo(data, base + r.nameDir, r.leaf) && r.leaf < 0x8000_0000
    && Word(data, base + r.leaf, r.rva) && Word(data, base + r.leaf + 4, |r.blob|)
    && Located(sections, r.rva, r.at)
    && (r.blob != [] ==> r.at + |r.blob| <= |data| && data[r.at..r.at + |r.blob|] == r.blob)
  }

  lemma BlobIsSliced(data: Bytes, at: nat, blob: Bytes)
    ensures (blob != [] ==> at + |blob| <= |data| && data[at..at + |blob|] == blob) <==> Slice(data, at, at + |blob|) == blob
  {
  }

  lemma ResourceIsReadAsItStands(data: Bytes, sections: seq<Section>, base: nat, r: Resource)
    requires ResourceStands(data, sections, base, r)
    ensures ResourceOf(data, sections, base) == Ok(r.blob)
  {
    hide Counts, Word, Located, FirstLeadsTo, VersionEntryFrom, EntryCount, FirstEntry, SubdirById, RvaToOffset, U32, Slice;
    CountIsRead(data, base, r.count);
    FromStart(data, base, r.count, r.i, r.typeDir);
    SubdirIsFound(data, base, base, r.count, 0, r.i, r.typeDir);
    FirstIsRead(data, base + r.typeDir, 0x8000_0000 + r.nameDir);
    FirstIsRead(data, base + r.nameDir, r.leaf);
    WordIsRead(data, base + r.leaf, r.rva);
    WordIsRead(data, base + r.leaf + 4, |r.blob|);
    RvaIsFoundExactlyWhen(sections, r.rva);
    BlobIsSliced(data, r.at, r.blob);
  }

  lemma FromStart(data: Bytes, d: nat, n: nat, i: nat, sub: nat)
    ensures VersionEntry(data, d, n, i, sub) <==> VersionEntryFrom(data, d, n, 0, i, sub)
  {
    hide Word;
  }

  lemma AcceptedResourceStands(data: Bytes, sections: seq<Section>, base: nat) returns (r: Resource)
    requires ResourceOf(data, sections, base).Ok?
    ensures ResourceStands(data, sections, base, r) && ResourceOf(data, sections, base) == Ok(r.blob)
  {
    hide Counts, Word, Located, FirstLeadsTo, VersionEntryFrom, EntryCount, FirstEntry, SubdirById, RvaToOffset, U32, Slice;
    var n := EntryCount(data, base).value;
    CountIsRead(data, base, n);
    var i, typeDir := FoundSubdirStands(data, base, base, n, 0);
    FromStart(data, base, n, i, typeDir);
    var sub := FirstEntry(data, base + typeDir).value;
    FirstIsRead(data, base + typeDir, sub);
    var nameDir := sub - HIGH_BIT;
    var leaf := FirstEntry(data, base + nameDir).value;
    FirstIsRead(data, base + nameDir, leaf);
    var rva := U32(data, base + leaf).value;
    WordIsRead(data, base + leaf, rva);
    RvaIsFoundExactlyWhen(sections, rva);
    var at := RvaToOffset(sections, rva).value;
    var size := U32(data, base + leaf + 4).value;
    WordIsRead(data, base + leaf + 4, size);
    var blob := Slice(data, at, at + size);
    BlobIsSliced(data, at, blob);
    r := Resource(n, i, typeDir, nameDir, leaf, rva, at, blob);
  }

  // --- files ---------------------------------------------------------------------------------------

  /** An executable: its headers, its sections, and where its resources and its version resource are. */
  datatype Executable = Executable(
    pe: nat, optional: nat, wide: bool, sections: seq<Section>, resources: nat, base: nat, version: Resource)

  ghost predicate Stands(data: Bytes, f: Executable) {
    && HeadersStand(data, f.pe, f.optional, f.wide, f.resources, |f.sections|)
    && TableStands(data, f.pe + 24 + f.optional, f.sections)
    && Located(f.sections, f.resources, f.base)
    && ResourceStands(data, f.sections, f.base, f.version)
  }

  /** Whatever executable stands there, reading the file is reading its version resource. */
  lemma ExecutableIsRead(data: Bytes, f: Executable)
    requires Stands(data, f)
    ensures FileVersion(data) == VersionInBlob(f.version.blob)
  {
    hide HeadersStand, TableStands, Located, ResourceStands, HeadersOf, Sections, RvaToOffset, ResourceOf, VersionInBlob;
    HeadersAreReadAsTheyStand(data, f.pe, f.optional, f.wide, f.resources, |f.sections|);
    TableIsRead(data, f.pe + 24 + f.optional, f.sections);
    RvaIsFoundExactlyWhen(f.sections, f.resources);
    ResourceIsReadAsItStands(data, f.sections, f.base, f.version);
  }

  lemma AcceptedExecutableStands(data: Bytes) returns (f: Executable)
    requires FileVersion(data).Ok?
    ensures Stands(data, f)
  {
    hide HeadersStand, TableStands, Located, ResourceStands, HeadersOf, Sections, RvaToOffset, ResourceOf, VersionInBlob;
    var h := HeadersOf(data).value;
    var pe, optional, wide := AcceptedHeadersStand(data);
    var sections := Sections(data, h.table, h.sections).value;
    SectionsHaveLength(data, h.table, h.sections);
    TableIsRead(data, h.table, sections);
    RvaIsFoundExactlyWhen(sections, h.resources);
    var base := RvaToOffset(sections, h.resources).value;
    var version := AcceptedResourceStands(data, sections, base);
    f := Executable(pe, optional, wide, sections, h.resources, base, version);
  }

  /** On any bytes: a version is read if and only if an executable stands there whose version resource gives it. */
  lemma VersionIsReadExactlyWhen(data: Bytes, v: Units)
    ensures FileVersion(data) == Ok(v) <==> exists f :: Stands(data, f) && VersionInBlob(f.version.blob) == Ok(v)
  {
    hide Stands, FileVersion, VersionInBlob;
    if FileVersion(data) == Ok(v) {
      var f := AcceptedExecutableStands(data);
      ExecutableIsRead(data, f);
      assert Stands(data, f);
    }
    if f :| Stands(data, f) && VersionInBlob(f.version.blob) == Ok(v) {
      ExecutableIsRead(data, f);
    }
  }
}
