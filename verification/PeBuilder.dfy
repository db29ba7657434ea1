/** Building the smallest PE file that carries a FileVersion, and what reading it gives back. */
module PeBuilder {
  import opened LibraryStore
  import opened PeVersion

  function Zeros(n: nat): Bytes {
    seq(n, _ => 0)
  }

  function Le16(v: nat): (b: Bytes)
    requires v < 0x1_0000
    ensures |b| == 2 && U16(b, 0) == Ok(v)
  {
    [v % 0x100, v / 0x100]
  }

  function Le32(v: nat): (b: Bytes)
    requires v < 0x1_0000_0000
    ensures |b| == 4
  {
    [v % 0x100, v / 0x100 % 0x100, v / 0x1_0000 % 0x100, v / 0x100_0000]
  }

  function Pad(b: Bytes): Bytes {
    b + Zeros(Align4(|b|) - |b|)
  }

  function Utf16(s: Units): (b: Bytes)
    ensures |b| == 2 * |s|
  {
    if s == [] then [] else Le16(s[0]) + Utf16(s[1..])
  }

  function Utf16z(s: Units): (b: Bytes)
    ensures |b| == 2 * |s| + 2
  {
    Utf16(s) + [0, 0]
  }

  // --- blocks ------------------------------------------------------------------------

  function Ty(text: bool): nat {
    if text then 1 else 0
  }

  function Head(key: Units, units: nat, text: bool): Bytes
    requires units < 0x1_0000
  {
    Pad([0, 0] + Le16(units) + Le16(Ty(text)) + Utf16z(key))
  }

  /** A block before its length is written into the first two bytes. */
  function Raw(key: Units, value: Bytes, units: nat, text: bool, children: Bytes): Bytes
    requires units < 0x1_0000
  {
    Pad(Pad(Head(key, units, text) + value) + children)
  }

  /** `None` is the error of packing a length that does not fit into 16 bits. */
  function BlockOf(key: Units, value: Bytes, units: nat, text: bool, children: Bytes): Option<Bytes>
  {
    if units >= 0x1_0000 then None
    else
      var raw := Raw(key, value, units, text, children);
      if |raw| >= 0x1_0000 then None else Some(Le16(|raw|) + raw[2..])
  }

  /** What a block needs to be read back: a key without terminator inside, a value of the announced length,
      aligned children. */
  ghost predicate Readable(key: Units, value: Bytes, units: nat, text: bool, children: Bytes) {
    && 0 !in key
    && |value| == (if text then 2 * units else units)
    && |children| % 4 == 0
  }

  lemma {:induction false} KeyIsRead(block: Bytes, i: nat, key: Units)
    requires 0 !in key && i + 2 * |key| + 2 <= |block| && block[i..i + 2 * |key| + 2] == Utf16z(key)
    ensures KeyAt(block, i) == Ok((key, i + 2 * |key| + 2))
    decreases |key|
  {
    var z := Utf16z(key);
    assert block[i] == z[0] && block[i + 1] == z[1];
    if key != [] {
      assert Utf16(key) == Le16(key[0]) + Utf16(key[1..]);
      assert z[2..] == Utf16z(key[1..]);
      assert block[i + 2..i + 2 * |key| + 2] == z[2..];
      KeyIsRead(block, i + 2, key[1..]);
      assert key == [key[0]] + key[1..];
    }
  }

  lemma PadIsAligned(b: Bytes)
    ensures |Pad(b)| % 4 == 0 && |Pad(b)| == Align4(|b|) && b <= Pad(b)
    ensures |b| % 4 == 0 ==> Pad(b) == b
  {
  }

  lemma HeadLayout(key: Units, units: nat, text: bool)
    requires units < 0x1_0000
    ensures var head := Head(key, units, text);
            && |head| == Align4(8 + 2 * |key|)
            && head[2..4] == Le16(units) && head[4..6] == Le16(Ty(text)) && head[6..8 + 2 * |key|] == Utf16z(key)
  {
    hide Utf16z, Le16;
    var plain := [0, 0] + Le16(units) + Le16(Ty(text)) + Utf16z(key);
    PadIsAligned(plain);
    var head := Head(key, units, text);
    assert head[..|plain|] == plain;
    assert head[2..4] == plain[2..4] && head[4..6] == plain[4..6] && head[6..|plain|] == plain[6..];
  }

  lemma RawLayout(key: Units, value: Bytes, units: nat, text: bool, children: Bytes)
    requires units < 0x1_0000 && |children| % 4 == 0
    ensures var head := Head(key, units, text);
            var raw := Raw(key, value, units, text, children);
            var at := Align4(|head| + |value|);
            && |raw| == at + |children| && |raw| % 4 == 0
            && raw[..|head|] == head && raw[|head|..|head| + |value|] == value && raw[at..] == children
  {
    var head := Head(key, units, text);
    var withValue := Pad(head + value);
    PadIsAligned(head + value);
    PadIsAligned(withValue + children);
    hide Head, Pad, Align4;
    var raw := Raw(key, value, units, text, children);
    assert raw == withValue + children;
    assert withValue[..|head + value|] == head + value;
    assert raw[..|head| + |value|] == head + value;
    assert raw[..|head| + |value|][..|head|] == head && raw[..|head| + |value|][|head|..] == value;
  }

  lemma LengthIsWritten(raw: Bytes, length: Bytes, i: nat, j: nat)
    requires |length| == 2 && 2 <= i <= j <= |raw|
    ensures (length + raw[2..])[i..j] == raw[i..j]
  {
  }

  lemma SliceOfPrefix(s: Bytes, p: Bytes, i: nat, j: nat)
    requires i <= j <= |p| <= |s| && s[..|p|] == p
    ensures s[i..j] == p[i..j]
  {
    forall k | i <= k < j
      ensures s[k] == p[k]
    {
      assert s[..|p|][k] == p[k];
    }
  }

  /** The parts of a block: header and key up to `h` at most, the value at `h`, the children at `at`. */
  ghost predicate Laid(b: Bytes, key: Units, h: nat, value: Bytes, units: Unit, text: bool, at: nat, children: Bytes) {
    && 8 + 2 * |key| <= h && h + |value| <= at && |b| == at + |children| && |b| < 0x1_0000
    && b[..2] == Le16(|b|) && b[2..4] == Le16(units) && b[4..6] == Le16(Ty(text)) && b[6..8 + 2 * |key|] == Utf16z(key)
    && b[h..h + |value|] == value && b[at..|b|] == children
  }

  lemma BuiltLayout(key: Units, value: Bytes, units: nat, text: bool, children: Bytes)
    requires |children| % 4 == 0 && BlockOf(key, value, units, text, children).Some?
    ensures units < 0x1_0000 && |BlockOf(key, value, units, text, children).value| % 4 == 0
    ensures var h := Align4(8 + 2 * |key|);
            Laid(BlockOf(key, value, units, text, children).value, key, h, value, units, text, Align4(h + |value|), children)
  {
    var raw := Raw(key, value, units, text, children);
    var head := Head(key, units, text);
    HeadLayout(key, units, text);
    RawLayout(key, value, units, text, children);
    hide Head, Raw, Utf16z, Le16, Align4, Pad;
    var n := |raw|;
    var b := Le16(n) + raw[2..];
    var at := Align4(|head| + |value|);
    SliceOfPrefix(raw, head, 2, 4);
    SliceOfPrefix(raw, head, 4, 6);
    SliceOfPrefix(raw, head, 6, 8 + 2 * |key|);
    LengthIsWritten(raw, Le16(n), 2, 4);
    LengthIsWritten(raw, Le16(n), 4, 6);
    LengthIsWritten(raw, Le16(n), 6, 8 + 2 * |key|);
    LengthIsWritten(raw, Le16(n), |head|, |head| + |value|);
    LengthIsWritten(raw, Le16(n), at, n);
    assert raw[at..n] == raw[at..];
  }

  /** Reading inverts building, whatever follows the block. */
  lemma BlockIsRead(key: Units, value: Bytes, units: nat, text: bool, children: Bytes, tail: Bytes)
    requires Readable(key, value, units, text, children)
    requires BlockOf(key, value, units, text, children).Some?
    ensures var b := BlockOf(key, value, units, text, children).value;
            && |b| % 4 == 0 && 6 <= |b| < 0x1_0000
            && BlockAt(b + tail, 0) == Ok(Block(key, value, children, |b|))
  {
    var b := BlockOf(key, value, units, text, children).value;
    BuiltLayout(key, value, units, text, children);
    hide BlockOf, Utf16z, Le16, BlockAt, KeyAt, U16, Align4;
    HeaderIsRead(b, tail, |b|, units, text);
    KeyIsRead(b, 6, key);
    assert b[Align4(Align4(8 + 2 * |key|) + |value|)..] == b[Align4(Align4(8 + 2 * |key|) + |value|)..|b|];
    PartsAreRead(b, tail, key, value, units, text, children);
  }

  lemma PartsAreRead(b: Bytes, tail: Bytes, key: Units, value: Bytes, units: nat, text: bool, children: Bytes)
    requires Readable(key, value, units, text, children) && 6 <= |b| < 0x1_0000 && units < 0x1_0000
    requires U16(b + tail, 0) == Ok(|b|) && U16(b + tail, 2) == Ok(units) && U16(b + tail, 4) == Ok(Ty(text))
    requires KeyAt(b, 6) == Ok((key, 8 + 2 * |key|))
    requires var h := Align4(8 + 2 * |key|);
             var at := Align4(h + |value|);
             |b| == at + |children| && b[h..h + |value|] == value && b[at..] == children
    ensures BlockAt(b + tail, 0) == Ok(Block(key, value, children, |b|))
  {
    hide U16, KeyAt, Align4;
    assert (b + tail)[0..0 + |b|] == b;
  }

  lemma HeaderIsRead(b: Bytes, tail: Bytes, length: nat, units: nat, text: bool)
    requires length < 0x1_0000 && units < 0x1_0000 && |b| >= 6
    requires b[..2] == Le16(length) && b[2..4] == Le16(units) && b[4..6] == Le16(Ty(text))
    ensures U16(b + tail, 0) == Ok(length) && U16(b + tail, 2) == Ok(units) && U16(b + tail, 4) == Ok(Ty(text))
  {
    assert b[..2][0] == b[0] && b[..2][1] == b[1];
    assert b[2..4][0] == b[2] && b[2..4][1] == b[3];
    assert b[4..6][0] == b[4] && b[4..6][1] == b[5];
  }

  // --- sequences of blocks --------------------------------------------------------------

  datatype Entry = Entry(key: Units, value: Bytes, units: nat, text: bool, children: Bytes)

  function Built(e: Entry): Option<Bytes>
  {
    BlockOf(e.key, e.value, e.units, e.text, e.children)
  }

  ghost predicate Fit(es: seq<Entry>) {
    forall e | e in es :: Readable(e.key, e.value, e.units, e.text, e.children) && Built(e).Some?
  }

  ghost function BuiltAll(es: seq<Entry>): Bytes
    requires Fit(es)
  {
    if es == [] then [] else Built(es[0]).value + BuiltAll(es[1..])
  }

  function FirstWanted(es: seq<Entry>, wanted: Units -> bool): (r: Option<Entry>)
    ensures r.Some? ==> r.value in es
  {
    if es == [] then None else if wanted(es[0].key) then Some(es[0]) else FirstWanted(es[1..], wanted)
  }

  /** The block that reading a built entry gives. */
  function ReadBack(e: Entry): Block
    requires Built(e).Some?
  {
    Block(e.key, e.value, e.children, |Built(e).value|)
  }

  ghost function ReadBackFirst(es: seq<Entry>, wanted: Units -> bool): Result<Option<Block>>
    requires Fit(es)
  {
    match FirstWanted(es, wanted)
    case Some(e) => Ok(Some(ReadBack(e)))
    case None => Ok(None)
  }

  lemma BlockAtShift(p: Bytes, s: Bytes)
    ensures BlockAt(p + s, |p|) == BlockAt(s, 0)
  {
    var b := p + s;
    hide Align4, KeyAt;
    assert U16(b, |p|) == U16(s, 0) && U16(b, |p| + 2) == U16(s, 2) && U16(b, |p| + 4) == U16(s, 4);
    if U16(s, 0).Ok? && U16(s, 0).value <= |s| {
      assert b[|p|..|p| + U16(s, 0).value] == s[0..0 + U16(s, 0).value];
    }
    hide U16, KeyAt, Align4;
  }

  lemma EntryReads(e: Entry, tail: Bytes)
    requires Readable(e.key, e.value, e.units, e.text, e.children) && Built(e).Some?
    ensures BlockAt(Built(e).value + tail, 0) == Ok(ReadBack(e))
    ensures 6 <= |Built(e).value| && |Built(e).value| % 4 == 0
  {
    BlockIsRead(e.key, e.value, e.units, e.text, e.children, tail);
  }

  /** Walking over built blocks visits them in order, and stops at the first wanted one. */
  lemma {:induction false} ChildrenAreWalked(p: Bytes, es: seq<Entry>, wanted: Units -> bool)
    requires Fit(es)
    ensures FirstChild(p + BuiltAll(es), |p|, wanted) == ReadBackFirst(es, wanted)
    decreases |es|
  {
    hide BlockAt, Readable, Built, BlockOf;
    var buf := p + BuiltAll(es);
    if es != [] {
      var e := es[0];
      assert e in es && forall f | f in es[1..] :: f in es;
      var b := Built(e).value;
      var rest := BuiltAll(es[1..]);
      EntryReads(e, rest);
      BlockAtShift(p, b + rest);
      assert buf == p + (b + rest) == (p + b) + rest;
      ChildrenAreWalked(p + b, es[1..], wanted);
      assert Align4(|b|) == |b|;
    }
  }

  // --- the version resource -----------------------------------------------------------------

  const PRODUCT_VERSION := Ascii("ProductVersion")
  const FILE_VERSION_KEY := Ascii("FileVersion")
  const LANGUAGE := Ascii("040904B0")

  function StringEntry(key: Units, version: Units): Entry {
    Entry(key, Utf16z(version), |version| + 1, true, [])
  }

  function Parent(key: Units, children: Bytes): Entry {
    Entry(key, [], 0, true, children)
  }

  function Root(children: Bytes): Entry {
    Entry(ROOT, Zeros(52), 52, false, children)
  }

  function BuildVersionBlob(version: Units, key: Units): Option<Bytes> {
    match (Built(StringEntry(key, version)), Built(StringEntry(PRODUCT_VERSION, version)))
    case (Some(a), Some(b)) =>
      (match Built(Parent(LANGUAGE, a + b))
       case Some(table) =>
         (match Built(Parent(STRING_FILE_INFO, table))
          case Some(sfi) => Built(Root(sfi))
          case None => None)
       case None => None)
    case _ => None
  }

  lemma WordsAreWords()
    ensures 0 !in ROOT && 0 !in STRING_FILE_INFO && 0 !in LANGUAGE && 0 !in PRODUCT_VERSION && 0 !in FILE_VERSION_KEY
    ensures IsFileVersion(FILE_VERSION_KEY) && !IsFileVersion(PRODUCT_VERSION)
    ensures IsStringFileInfo(STRING_FILE_INFO)
  {
    assert |PRODUCT_VERSION| == 14 && |FILE_VERSION| == 11;
    assert Lower(FILE_VERSION_KEY) == FILE_VERSION;
  }

  function UpToNul(s: Units): Units {
    if s == [] || s[0] == 0 then [] else [s[0]] + UpToNul(s[1..])
  }

  lemma {:induction false} ValueIsRead(b: Bytes, i: nat, s: Units)
    requires i + 2 * |s| + 2 <= |b| && b[i..i + 2 * |s| + 2] == Utf16z(s)
    ensures ValueUnits(b, i) == UpToNul(s)
    decreases |s|
  {
    var z := Utf16z(s);
    assert b[i] == z[0] && b[i + 1] == z[1];
    if s != [] {
      assert Utf16(s) == Le16(s[0]) + Utf16(s[1..]);
      assert z[2..] == Utf16z(s[1..]);
      assert b[i + 2..i + 2 * |s| + 2] == z[2..];
      ValueIsRead(b, i + 2, s[1..]);
    }
  }

  /** What is read from a built version resource: the version up to its first NUL, stripped. */
  function Expected(version: Units): Result<Units> {
    var v := Strip(Decoded(UpToNul(version)));
    if v == [] then Err(EmptyVersion) else Ok(v)
  }

  lemma OneIsWalked(e: Entry, wanted: Units -> bool)
    requires Fit([e])
    ensures FirstChild(Built(e).value, 0, wanted) == if wanted(e.key) then Ok(Some(ReadBack(e))) else Ok(None)
  {
    hide FirstChild, Readable, Built;
    ChildrenAreWalked([], [e], wanted);
    assert BuiltAll([e]) == Built(e).value + BuiltAll([]);
    assert [] + BuiltAll([e]) == Built(e).value;
    assert FirstWanted([e], wanted) == if wanted(e.key) then Some(e) else None;
  }

  lemma TwoAreWalked(d: Entry, e: Entry, wanted: Units -> bool)
    requires Fit([d, e])
    ensures FirstChild(Built(d).value + Built(e).value, 0, wanted)
            == if wanted(d.key) then Ok(Some(ReadBack(d))) else if wanted(e.key) then Ok(Some(ReadBack(e))) else Ok(None)
  {
    hide FirstChild, Readable, Built;
    var es := [d, e];
    assert es[1..] == [e] && [e][1..] == [];
    ChildrenAreWalked([], es, wanted);
    assert BuiltAll(es) == Built(d).value + (Built(e).value + BuiltAll([]));
    assert [] + BuiltAll(es) == Built(d).value + Built(e).value;
    assert FirstWanted(es, wanted) == if wanted(d.key) then Some(d) else FirstWanted([e], wanted);
    assert FirstWanted([e], wanted) == if wanted(e.key) then Some(e) else None;
  }

  /** The two strings of a table: the first is found by its key. */
  lemma StringsAreRead(version: Units, key: Units)
    requires 0 !in key
    requires Built(StringEntry(key, version)).Some? && Built(StringEntry(PRODUCT_VERSION, version)).Some?
    ensures var a := Built(StringEntry(key, version)).value;
            var b := Built(StringEntry(PRODUCT_VERSION, version)).value;
            && |a + b| % 4 == 0
            && FirstChild(a + b, 0, IsFileVersion)
               == if IsFileVersion(key) then Ok(Some(Block(key, Utf16z(version), [], |a|))) else Ok(None)
  {
    hide Built, IsFileVersion, FirstChild, Utf16z, PRODUCT_VERSION, BlockAt;
    assert 0 !in PRODUCT_VERSION && !IsFileVersion(PRODUCT_VERSION) by {
      WordsAreWords();
    }
    var d, e := StringEntry(key, version), StringEntry(PRODUCT_VERSION, version);
    assert Readable(d.key, d.value, d.units, d.text, d.children) && Readable(e.key, e.value, e.units, e.text, e.children);
    hide Readable;
    assert Fit([d, e]);
    TwoAreWalked(d, e, IsFileVersion);
    EntryReads(d, []);
    EntryReads(e, []);
  }

  lemma TablesAreWalked(table: Entry)
    requires Fit([table]) && FirstChild(table.children, 0, IsFileVersion).Ok?
    ensures FirstVersion(Built(table).value, 0) == FirstChild(table.children, 0, IsFileVersion)
  {
    hide Built, BlockAt, FirstChild, IsFileVersion, Readable;
    assert table in [table];
    EntryReads(table, []);
    var b := Built(table).value;
    assert b + [] == b && Align4(|b|) == |b|;
    assert FirstVersion(b, |b|) == Ok(None);
  }

  /** The version resource round trip, with any key: a FileVersion is found and read up to its NUL, stripped;
      any other key is reported as a missing FileVersion. */
  lemma BuiltBlobIsRead(version: Units, key: Units)
    requires 0 !in key && BuildVersionBlob(version, key).Some?
    ensures VersionInBlob(BuildVersionBlob(version, key).value)
            == if IsFileVersion(key) then Expected(version) else Err(NoFileVersion)
  {
    WordsAreWords();
    hide Built, BlockAt, FirstChild, FirstVersion, IsFileVersion, Utf16z, ROOT, STRING_FILE_INFO, LANGUAGE, ValueUnits;
    var a, b := Built(StringEntry(key, version)).value, Built(StringEntry(PRODUCT_VERSION, version)).value;
    StringsAreRead(version, key);
    var table := Parent(LANGUAGE, a + b);
    EntryReads(table, []);
    TablesAreWalked(table);
    var sfi := Parent(STRING_FILE_INFO, Built(table).value);
    EntryReads(sfi, []);
    OneIsWalked(sfi, IsStringFileInfo);
    var root := Root(Built(sfi).value);
    EntryReads(root, []);
    assert Built(root).value + [] == Built(root).value;
    ValueIsRead(Utf16z(version), 0, version);
    assert Utf16z(version)[0..0 + 2 * |version| + 2] == Utf16z(version);
  }

  // --- when it can be built -----------------------------------------------------------------------

  function Rounded(n: nat): nat {
    if n % 4 == 0 then n else n + (4 - n % 4)
  }

  /** The size of a block: its parts, each filled up to a multiple of four. */
  function BlockSize(keyLength: nat, valueLength: nat, childrenLength: nat): nat {
    Rounded(Rounded(Rounded(8 + 2 * keyLength) + valueLength) + childrenLength)
  }

  lemma PaddedLength(b: Bytes)
    ensures |Pad(b)| == Rounded(|b|)
  {
  }

  lemma BlockIsBuiltExactlyWhen(key: Units, value: Bytes, units: nat, text: bool, children: Bytes)
    ensures BlockOf(key, value, units, text, children).Some?
            <==> units < 65_536 && BlockSize(|key|, |value|, |children|) < 65_536
    ensures BlockOf(key, value, units, text, children).Some?
            ==> |BlockOf(key, value, units, text, children).value| == BlockSize(|key|, |value|, |children|)
  {
    if units < 65_536 {
      PaddedLength([0, 0] + Le16(units) + Le16(Ty(text)) + Utf16z(key));
      PaddedLength(Head(key, units, text) + value);
      PaddedLength(Pad(Head(key, units, text) + value) + children);
      hide Pad, Rounded;
      assert |Raw(key, value, units, text, children)| == BlockSize(|key|, |value|, |children|);
    }
  }

  /** The size of the whole resource, by the lengths of key and version. */
  function BlobSize(keyLength: nat, versionLength: nat): nat {
    152 + Rounded(Rounded(8 + 2 * keyLength) + 2 * versionLength + 2) + Rounded(38 + 2 * versionLength)
  }

  /** A version resource can be built if and only if its size fits 16 bits; then it has that size. */
  lemma BlobIsBuiltExactlyWhen(version: Units, key: Units)
    ensures BuildVersionBlob(version, key).Some? <==> BlobSize(|key|, |version|) < 65_536
    ensures BuildVersionBlob(version, key).Some? ==> |BuildVersionBlob(version, key).value| == BlobSize(|key|, |version|)
  {
    hide BlockOf, Rounded, Pad, Utf16z;
    var (a, b) := (Built(StringEntry(key, version)), Built(StringEntry(PRODUCT_VERSION, version)));
    var v := |version|;
    assert |Utf16z(version)| == 2 * v + 2;
    BlockIsBuiltExactlyWhen(key, Utf16z(version), v + 1, true, []);
    BlockIsBuiltExactlyWhen(PRODUCT_VERSION, Utf16z(version), v + 1, true, []);
    SizesAdd(|key|, v);
    if a.Some? && b.Some? {
      var table := Built(Parent(LANGUAGE, a.value + b.value));
      BlockIsBuiltExactlyWhen(LANGUAGE, [], 0, true, a.value + b.value);
      if table.Some? {
        var sfi := Built(Parent(STRING_FILE_INFO, table.value));
        BlockIsBuiltExactlyWhen(STRING_FILE_INFO, [], 0, true, table.value);
        if sfi.Some? {
          BlockIsBuiltExactlyWhen(ROOT, Zeros(52), 52, false, sfi.value);
        }
      }
    }
  }

  lemma RoundedIs(n: nat)
    ensures Rounded(n) % 4 == 0 && n <= Rounded(n) < n + 4 && (n % 4 == 0 ==> Rounded(n) == n)
  {
  }

  lemma AlignedParents(q: nat)
    ensures BlockSize(8, 0, 4 * q) == 24 + 4 * q && BlockSize(14, 0, 4 * q) == 36 + 4 * q && BlockSize(15, 52, 4 * q) == 92 + 4 * q
  {
    assert Rounded(24) == 24 && Rounded(36) == 36 && Rounded(38) == 40 && Rounded(92) == 92;
    RoundedIs(4 * (q + 6));
    RoundedIs(4 * (q + 9));
    RoundedIs(4 * (q + 23));
  }

  lemma SizesAdd(k: nat, v: nat)
    ensures var (a, b) := (BlockSize(k, 2 * v + 2, 0), BlockSize(14, 2 * v + 2, 0));
            && BlockSize(8, 0, a + b) == 24 + a + b
            && BlockSize(14, 0, 24 + a + b) == 60 + a + b
            && BlockSize(15, 52, 60 + a + b) == 152 + a + b == BlobSize(k, v)
            && v + 1 <= a
  {
    var p, q := EntrySizes(k, v);
    hide Rounded, BlockSize, BlobSize;
    AlignedParents(p + q);
    AlignedParents(p + q + 6);
    AlignedParents(p + q + 15);
  }

  lemma EntrySizes(k: nat, v: nat) returns (p: nat, q: nat)
    ensures var (a, b) := (BlockSize(k, 2 * v + 2, 0), BlockSize(14, 2 * v + 2, 0));
            a == 4 * p && b == 4 * q && v + 1 <= a && BlobSize(k, v) == 152 + a + b
  {
    assert Rounded(36) == 36;
    hide Rounded;
    RoundedIs(8 + 2 * k);
    RoundedIs(Rounded(8 + 2 * k) + 2 * v + 2);
    RoundedIs(38 + 2 * v);
    RoundedIs(Rounded(Rounded(8 + 2 * k) + 2 * v + 2));
    RoundedIs(Rounded(38 + 2 * v));
    p, q := BlockSize(k, 2 * v + 2, 0) / 4, BlockSize(14, 2 * v + 2, 0) / 4;
  }
}
