/** Reading the FileVersion string that a Windows executable reports about itself: the resource directory of a
    PE file, then the nested, 4-byte aligned blocks of its version resource. */
module PeVersion {
  import opened LibraryStore

  datatype Error =
    | OutOfBounds | NotPe | UnknownMagic | NoResources | NoSection | NoSuchId | EmptyDirectory | WrongShape
    | BadLength | WrongRoot | NoStringFileInfo | NoFileVersion | EmptyVersion

  datatype Result<+T> = Ok(value: T) | Err(error: Error) {
    predicate IsFailure() {
      Err?
    }
    function PropagateFailure<U>(): Result<U>
      requires Err?
    {
      Err(error)
    }
    function Extract(): T
      requires Ok?
    {
      value
    }
  }

  /** A UTF-16 code unit. */
  type Unit = u: int | 0 <= u < 0x1_0000
  type Units = seq<Unit>

  function U16(b: Bytes, off: nat): Result<Unit> {
    if off + 2 > |b| then Err(OutOfBounds) else Ok((b[off] as int) + 0x100 * (b[off + 1] as int))
  }

  function U32(b: Bytes, off: nat): Result<nat> {
    if off + 4 > |b| then Err(OutOfBounds)
    else
      Ok((b[off] as int) + 0x100 * (b[off + 1] as int) + 0x1_0000 * (b[off + 2] as int) + 0x100_0000 * (b[off + 3] as int))
  }

  function Align4(n: nat): (r: nat)
    ensures n <= r < n + 4 && r % 4 == 0
  {
    (n + 3) / 4 * 4
  }

  function Min(a: nat, b: nat): nat {
    if a < b then a else b
  }

  /** Python's `b[from:to]` for non-negative bounds. */
  function Slice(b: Bytes, from: nat, to: nat): Bytes {
    if from >= |b| || to <= from then [] else b[from..Min(to, |b|)]
  }

  const HIGH_BIT := 0x8000_0000

  // --- version blocks ----------------------------------------------------------------

  datatype Block = Block(key: Units, value: Bytes, children: Bytes, length: nat)

  /** The zero-terminated key at `i`, and where it ends. */
  function KeyAt(block: Bytes, i: nat): Result<(Units, nat)>
    decreases |block| - i
  {
    var u :- U16(block, i);
    if u == 0 then Ok(([], i + 2))
    else
      var rest :- KeyAt(block, i + 2);
      Ok(([u] + rest.0, rest.1))
  }

  function BlockAt(buf: Bytes, off: nat): (r: Result<Block>)
    ensures r.Ok? ==> 6 <= r.value.length <= |buf| - off && |r.value.children| < r.value.length
  {
    var length :- U16(buf, off);
    var valueLength :- U16(buf, off + 2);
    var ty :- U16(buf, off + 4);
    if length < 6 || off + length > |buf| then Err(BadLength)
    else
      var block := buf[off..off + length];
      var key :- KeyAt(block, 6);
      var afterKey := Align4(key.1);
      if afterKey > |block| then Err(OutOfBounds)
      else
        var valueEnd := Min(afterKey + if ty == 1 then (valueLength as int) * 2 else valueLength as int, |block|);
        var childrenStart := Min(Align4(valueEnd), |block|);
        KeyEnds(block, 6);
        Ok(Block(key.0, block[afterKey..valueEnd], block[childrenStart..], length))
  }

  lemma {:induction false} KeyEnds(block: Bytes, i: nat)
    requires KeyAt(block, i).Ok?
    ensures i + 2 <= KeyAt(block, i).value.1 <= |block|
    decreases |block| - i
  {
    if U16(block, i).value != 0 {
      KeyEnds(block, i + 2);
    }
  }

  /** The first child block, from `off` on, whose key is wanted. Blocks behind it are not read. */
  function FirstChild(buf: Bytes, off: nat, wanted: Units -> bool): Result<Option<Block>>
    decreases |buf| - off
  {
    if off + 6 > |buf| then Ok(None)
    else
      var child :- BlockAt(buf, off);
      if wanted(child.key) then Ok(Some(child)) else FirstChild(buf, off + Align4(child.length), wanted)
  }

  // --- strings ---------------------------------------------------------------------------

  function Ascii(s: string): Units
    requires forall c | c in s :: c < '\U{80}'
  {
    seq<Unit>(|s|, i requires 0 <= i < |s| => assert s[i] in s; s[i] as Unit)
  }

  function ValueUnits(b: Bytes, i: nat): Units
    decreases |b| - i
  {
    if i + 1 >= |b| then []
    else
      var u: Unit := (b[i] as int) + 0x100 * (b[i + 1] as int);
      if u == 0 then [] else [u] + ValueUnits(b, i + 2)
  }

  predicate HighSurrogate(u: Unit) {
    0xd800 <= u < 0xdc00
  }

  predicate LowSurrogate(u: Unit) {
    0xdc00 <= u < 0xe000
  }

  /** Decoding with replacement: a surrogate without its partner becomes U+FFFD. */
  function Decoded(s: Units): Units {
    if s == [] then []
    else if HighSurrogate(s[0]) && |s| > 1 && LowSurrogate(s[1]) then s[..2] + Decoded(s[2..])
    else if HighSurrogate(s[0]) || LowSurrogate(s[0]) then [0xfffd] + Decoded(s[1..])
    else [s[0]] + Decoded(s[1..])
  }

  /** The characters that `str.strip` removes; all of them are single code units. */
  predicate IsSpace(u: Unit) {
    || 0x09 <= u <= 0x0d || 0x1c <= u <= 0x20 || u == 0x85 || u == 0xa0 || u == 0x1680
    || 0x2000 <= u <= 0x200a || u == 0x2028 || u == 0x2029 || u == 0x202f || u == 0x205f || u == 0x3000
  }

  function StripLeft(s: Units): Units {
    if s != [] && IsSpace(s[0]) then StripLeft(s[1..]) else s
  }

  function StripRight(s: Units): Units {
    if s != [] && IsSpace(s[|s| - 1]) then StripRight(s[..|s| - 1]) else s
  }

  function Strip(s: Units): Units {
    StripRight(StripLeft(s))
  }

  /** Lower case as far as it matters here: no character outside ASCII lowers into a letter of
      "fileversion" alone. */
  function Lower(s: Units): Units {
    seq<Unit>(|s|, i requires 0 <= i < |s| => if 0x41 <= s[i] <= 0x5a then s[i] + 0x20 else s[i])
  }

  const ROOT := Ascii("VS_VERSION_INFO")
  const STRING_FILE_INFO := Ascii("StringFileInfo")
  const FILE_VERSION := Ascii("fileversion")

  predicate IsStringFileInfo(key: Units) {
    key == STRING_FILE_INFO
  }

  predicate IsFileVersion(key: Units) {
    Lower(key) == FILE_VERSION
  }

  /** The value of the first FileVersion entry, table by table. */
  function FirstVersion(sfi: Bytes, off: nat): Result<Option<Block>>
    decreases |sfi| - off
  {
    if off + 6 > |sfi| then Ok(None)
    else
      var table :- BlockAt(sfi, off);
      var found :- FirstChild(table.children, 0, IsFileVersion);
      if found.Some? then Ok(found) else FirstVersion(sfi, off + Align4(table.length))
  }

  function VersionOf(value: Bytes): Result<Units> {
    var v := Strip(Decoded(ValueUnits(value, 0)));
    if v == [] then Err(EmptyVersion) else Ok(v)
  }

  function VersionInBlob(blob: Bytes): Result<Units> {
    var root :- BlockAt(blob, 0);
    if root.key != ROOT then Err(WrongRoot)
    else
      var sfi :- FirstChild(root.children, 0, IsStringFileInfo);
      if sfi.None? then Err(NoStringFileInfo)
      else
        var found :- FirstVersion(sfi.value.children, 0);
        if found.None? then Err(NoFileVersion) else VersionOf(found.value.value)
  }

  // --- the PE file ---------------------------------------------------------------------------

  datatype Section = Section(va: nat, vsize: nat, rsize: nat, rptr: nat)

  function SectionAt(data: Bytes, off: nat): Result<Section> {
    var va :- U32(data, off + 12);
    var vsize :- U32(data, off + 8);
    var rsize :- U32(data, off + 16);
    var rptr :- U32(data, off + 20);
    Ok(Section(va, vsize, rsize, rptr))
  }

  /** The first `n` entries of the section table. */
  function Sections(data: Bytes, table: nat, n: nat): Result<seq<Section>> {
    if n == 0 then Ok([])
    else
      var init :- Sections(data, table, n - 1);
      var last :- SectionAt(data, table + (n - 1) * 40);
      Ok(init + [last])
  }

  predicate Covers(s: Section, rva: nat) {
    s.va <= rva < s.va + (if s.vsize < s.rsize then s.rsize else s.vsize)
  }

  function RvaToOffset(sections: seq<Section>, rva: nat): Result<nat> {
    if sections == [] then Err(NoSection)
    else if Covers(sections[0], rva) then Ok(sections[0].rptr + (rva - sections[0].va))
    else RvaToOffset(sections[1..], rva)
  }

  function EntryCount(data: Bytes, d: nat): Result<nat> {
    var named :- U16(data, d + 12);
    var ids :- U16(data, d + 14);
    Ok(named + ids)
  }

  /** The subdirectory with this id, from entry `i` of `n` on. */
  function SubdirById(data: Bytes, base: nat, d: nat, wanted: nat, i: nat, n: nat): Result<nat>
    decreases n - i
  {
    if i >= n then Err(NoSuchId)
    else
      var name :- U32(data, d + 16 + i * 8);
      if name < HIGH_BIT && name == wanted then
        var sub :- U32(data, d + 16 + i * 8 + 4);
        if sub < HIGH_BIT then Err(WrongShape) else Ok(base + (sub - HIGH_BIT))
      else SubdirById(data, base, d, wanted, i + 1, n)
  }

  function FirstEntry(data: Bytes, d: nat): Result<nat> {
    var n :- EntryCount(data, d);
    if n == 0 then Err(EmptyDirectory) else U32(data, d + 16 + 4)
  }

  const MZ: Bytes := [0x4d, 0x5a]
  const SIGNATURE: Bytes := [0x50, 0x45, 0, 0]
  const RT_VERSION := 16

  /** Where the headers say that resources and sections are. */
  datatype Headers = Headers(resources: nat, table: nat, sections: nat)

  function HeadersOf(data: Bytes): Result<Headers> {
    if |data| < 0x40 || data[..2] != MZ then Err(NotPe)
    else
      var pe :- U32(data, 0x3c);
      if Slice(data, pe, pe + 4) != SIGNATURE then Err(NotPe)
      else
        var sections :- U16(data, pe + 6);
        var optional :- U16(data, pe + 20);
        var opt := pe + 24;
        var magic :- U16(data, opt);
        if magic != 0x10b && magic != 0x20b then Err(UnknownMagic)
        else
          var resources :- U32(data, opt + (if magic == 0x10b then 96 else 112) + 16);
          if resources == 0 then Err(NoResources) else Ok(Headers(resources, opt + optional, sections))
  }

  /** The version resource: root, type, name, language, data. */
  function ResourceOf(data: Bytes, sections: seq<Section>, base: nat): Result<Bytes> {
    var n :- EntryCount(data, base);
    var typeDir :- SubdirById(data, base, base, RT_VERSION, 0, n);
    var sub :- FirstEntry(data, typeDir);
    if sub < HIGH_BIT then Err(WrongShape)
    else
      var leaf :- FirstEntry(data, base + (sub - HIGH_BIT));
      if leaf >= HIGH_BIT then Err(WrongShape)
      else
        var rva :- U32(data, base + leaf);
        var at :- RvaToOffset(sections, rva);
        var size :- U32(data, base + leaf + 4);
        var blob := Slice(data, at, at + size);
        if |blob| != size then Err(OutOfBounds) else Ok(blob)
  }

  function FileVersion(data: Bytes): Result<Units> {
    var h :- HeadersOf(data);
    var sections :- Sections(data, h.table, h.sections);
    var base :- RvaToOffset(sections, h.resources);
    var blob :- ResourceOf(data, sections, base);
    VersionInBlob(blob)
  }

  // --- the loops of the program -------------------------------------------------------------------

  method ReadKey(block: Bytes, start: nat) returns (r: Result<(Units, nat)>)
    ensures r == KeyAt(block, start)
  {
    var i := start;
    var units: Units := [];
    assert KeyAt(block, start).Ok? ==> [] + KeyAt(block, start).value.0 == KeyAt(block, start).value.0;
    while true
      invariant KeyAt(block, start) == match KeyAt(block, i) case Ok(rest) => Ok((units + rest.0, rest.1)) case Err(e) => Err(e)
      decreases |block| - i
    {
      var u :- U16(block, i);
      i := i + 2;
      if u == 0 {
        assert units + [] == units;
        return Ok((units, i));
      }
      assert KeyAt(block, i).Ok? ==> units + ([u] + KeyAt(block, i).value.0) == units + [u] + KeyAt(block, i).value.0;
      units := units + [u];
    }
  }

  method ReadBlock(buf: Bytes, off: nat) returns (r: Result<Block>)
    ensures r == BlockAt(buf, off)
  {
    hide U16, KeyAt, Align4;
    var length :- U16(buf, off);
    var valueLength :- U16(buf, off + 2);
    var ty :- U16(buf, off + 4);
    if length < 6 || off + length > |buf| {
      return Err(BadLength);
    }
    var block := buf[off..off + length];
    var key :- ReadKey(block, 6);
    var afterKey := Align4(key.1);
    if afterKey > |block| {
      return Err(OutOfBounds);
    }
    var valueEnd := Min(afterKey + if ty == 1 then (valueLength as int) * 2 else valueLength as int, |block|);
    var childrenStart := Min(Align4(valueEnd), |block|);
    return Ok(Block(key.0, block[afterKey..valueEnd], block[childrenStart..], length));
  }

  method FindChild(buf: Bytes, wanted: Units -> bool) returns (r: Result<Option<Block>>)
    ensures r == FirstChild(buf, 0, wanted)
  {
    hide BlockAt, Align4;
    var off := 0;
    while off + 6 <= |buf|
      invariant FirstChild(buf, 0, wanted) == FirstChild(buf, off, wanted)
      decreases |buf| - off
    {
      var child :- ReadBlock(buf, off);
      if wanted(child.key) {
        return Ok(Some(child));
      }
      off := off + Align4(child.length);
    }
    return Ok(None);
  }

  method FileVersionFromBlob(blob: Bytes) returns (r: Result<Units>)
    ensures r == VersionInBlob(blob)
  {
    hide BlockAt, FirstChild, VersionOf, ROOT, Align4;
    var root :- ReadBlock(blob, 0);
    if root.key != ROOT {
      return Err(WrongRoot);
    }
    var sfi :- FindChild(root.children, IsStringFileInfo);
    if sfi.None? {
      return Err(NoStringFileInfo);
    }
    var tables := sfi.value.children;
    var off := 0;
    while off + 6 <= |tables|
      invariant FirstVersion(tables, 0) == FirstVersion(tables, off)
      decreases |tables| - off
    {
      var table :- ReadBlock(tables, off);
      var found :- FindChild(table.children, IsFileVersion);
      if found.Some? {
        return VersionOf(found.value.value);
      }
      off := off + Align4(table.length);
    }
    return Err(NoFileVersion);
  }

  method FindSubdir(data: Bytes, base: nat, d: nat, wanted: nat) returns (r: Result<nat>)
    ensures EntryCount(data, d).Ok? ==> r == SubdirById(data, base, d, wanted, 0, EntryCount(data, d).value)
    ensures EntryCount(data, d).Err? ==> r == Err(EntryCount(data, d).error)
  {
    var n :- EntryCount(data, d);
    for i := 0 to n
      invariant SubdirById(data, base, d, wanted, 0, n) == SubdirById(data, base, d, wanted, i, n)
    {
      var name :- U32(data, d + 16 + i * 8);
      if name >= HIGH_BIT {
        continue;
      }
      if name == wanted {
        var sub :- U32(data, d + 16 + i * 8 + 4);
        if sub < HIGH_BIT {
          return Err(WrongShape);
        }
        return Ok(base + (sub - HIGH_BIT));
      }
    }
    return Err(NoSuchId);
  }

  method ReadFileVersion(data: Bytes) returns (r: Result<Units>)
    ensures r == FileVersion(data)
  {
    hide U32, U16, SubdirById, EntryCount, FirstEntry, RvaToOffset, VersionInBlob, HeadersOf, SectionAt;
    var h :- HeadersOf(data);
    var sections: seq<Section> := [];
    for i := 0 to h.sections
      invariant Sections(data, h.table, i) == Ok(sections)
    {
      var next := SectionAt(data, h.table + i * 40);
      if next.Err? {
        SectionsFail(data, h.table, i + 1, h.sections);
        return Err(next.error);
      }
      sections := sections + [next.value];
    }
    var base :- RvaToOffset(sections, h.resources);
    var typeDir :- FindSubdir(data, base, base, RT_VERSION);
    var sub :- FirstEntry(data, typeDir);
    if sub < HIGH_BIT {
      return Err(WrongShape);
    }
    var leaf :- FirstEntry(data, base + (sub - HIGH_BIT));
    if leaf >= HIGH_BIT {
      return Err(WrongShape);
    }
    var rva :- U32(data, base + leaf);
    var at :- RvaToOffset(sections, rva);
    var size :- U32(data, base + leaf + 4);
    var blob := Slice(data, at, at + size);
    if |blob| != size {
      return Err(OutOfBounds);
    }
    r := FileVersionFromBlob(blob);
  }

  lemma {:induction false} SectionsFail(data: Bytes, table: nat, m: nat, n: nat)
    requires m <= n && Sections(data, table, m).Err?
    ensures Sections(data, table, n) == Sections(data, table, m)
  {
    if m < n {
      SectionsFail(data, table, m, n - 1);
    }
  }
}
