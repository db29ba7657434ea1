/** Where the metadata of a photo or video lies: JPEG APPn segments, ISO-BMFF `moov`/`meta` boxes and the
    file extents of Exif and XMP items. Functions say what a byte string means; the methods are the loops
    of the program, proved to compute those functions without ever reading out of bounds. */
module MetadataRanges {
  import opened LibraryStore

  datatype Range = Range(start: nat, end: nat)

  const JPEG_HEAD: nat := 4 * 1024 * 1024
  const META_MAX: nat := 16 * 1024 * 1024
  const U64_MAX: nat := 0xFFFF_FFFF_FFFF_FFFF

  const FTYP: Bytes := [0x66, 0x74, 0x79, 0x70]
  const MOOV: Bytes := [0x6D, 0x6F, 0x6F, 0x76]
  const META: Bytes := [0x6D, 0x65, 0x74, 0x61]
  const IINF: Bytes := [0x69, 0x69, 0x6E, 0x66]
  const INFE: Bytes := [0x69, 0x6E, 0x66, 0x65]
  const ILOC: Bytes := [0x69, 0x6C, 0x6F, 0x63]
  const EXIF: Bytes := [0x45, 0x78, 0x69, 0x66]
  const MIME: Bytes := [0x6D, 0x69, 0x6D, 0x65]

  function Min(a: nat, b: nat): nat {
    if a < b then a else b
  }

  /** Big-endian value. */
  function Be(s: Bytes): nat {
    if s == [] then 0 else Be(s[..|s| - 1]) * 256 + s[|s| - 1]
  }

  /** Big-endian 16-bit field at `o`. */
  function U16(b: Bytes, o: nat): nat
    requires o + 2 <= |b|
  {
    b[o] as nat * 256 + b[o + 1]
  }

  /** Big-endian 32-bit field at `o`. */
  function U32(b: Bytes, o: nat): nat
    requires o + 4 <= |b|
  {
    U16(b, o) * 0x1_0000 + U16(b, o + 2)
  }

  /** Big-endian 64-bit field at `o`. */
  function U64(b: Bytes, o: nat): nat
    requires o + 8 <= |b|
  {
    U32(b, o) * 0x1_0000_0000 + U32(b, o + 4)
  }

  // --- JPEG -------------------------------------------------------------

  /** SOS, or a SOF marker: no APPn follows. */
  predicate StopsJpeg(marker: Byte) {
    marker == 0xDA || (0xC0 <= marker <= 0xCF && marker != 0xC4 && marker != 0xC8 && marker != 0xCC)
  }

  predicate IsApp(marker: Byte) {
    0xE0 <= marker <= 0xEF
  }

  /** The end of the last APPn segment at or after `o`; `end` is the end of the last one before `o`. */
  function AppEnd(b: Bytes, o: nat, end: nat): Option<nat>
    decreases |b| - o
  {
    if o + 4 > |b| then Some(end)
    else if b[o] != 0xFF then None
    else if b[o + 1] == 0xFF then AppEnd(b, o + 1, end)
    else if StopsJpeg(b[o + 1]) then Some(end)
    else
      var len := U16(b, o + 2);
      if len < 2 || o + 2 + len > |b| then None
      else AppEnd(b, o + 2 + len, if IsApp(b[o + 1]) then o + 2 + len else end)
  }

  method Jpeg(b: Bytes) returns (r: Option<seq<Range>>)
    ensures r == match AppEnd(b, 2, 2) case Some(end) => Some([Range(0, end)]) case None => None
  {
    var o: nat, end: nat := 2, 2;
    while o + 4 <= |b|
      invariant AppEnd(b, o, end) == AppEnd(b, 2, 2)
      decreases |b| - o
    {
      if b[o] != 0xFF {
        return None;
      }
      var marker := b[o + 1];
      if marker == 0xFF {
        o := o + 1;
        continue;
      }
      if StopsJpeg(marker) {
        break;
      }
      var len := U16(b, o + 2);
      if len < 2 || o + 2 + len > |b| {
        return None;
      }
      if IsApp(marker) {
        end := o + 2 + len;
      }
      o := o + 2 + len;
    }
    return Some([Range(0, end)]);
  }

  // --- boxes --------------------------------------------------------------

  datatype Box = Box(typ: Bytes, start: nat, body: nat, end: nat)

  /** The box whose header starts at `o`, inside `[o, limit)`. */
  function ReadBox(b: Bytes, o: nat, limit: nat): (r: Option<Box>)
    requires limit <= |b|
    ensures r.Some? ==> r.value.start == o && o + 8 <= r.value.body <= r.value.end <= limit
  {
    if o + 8 > limit then None
    else
      var size32 := U32(b, o);
      var typ := b[o + 4..o + 8];
      if size32 == 1 && o + 16 > |b| then None
      else
        var hdr := if size32 == 1 then 16 else 8;
        var size := if size32 == 0 then limit - o else if size32 == 1 then U64(b, o + 8) else size32;
        if size < hdr || o + size > limit then None
        else Some(Box(typ, o, o + hdr, o + size))
  }

  /** The boxes that follow each other from `o` to `end`. */
  function Children(b: Bytes, o: nat, end: nat): Option<seq<Box>>
    requires end <= |b|
    decreases end - o
  {
    if o >= end then Some([])
    else match ReadBox(b, o, end)
      case None => None
      case Some(h) =>
        match Children(b, h.end, end)
        case None => None
        case Some(rest) => Some([h] + rest)
  }

  /** Boxes found so far, followed by what a scan still finds. */
  function Found<T>(out: seq<T>, rest: Option<seq<T>>): (r: Option<seq<T>>)
    ensures out == [] ==> r == rest
    ensures rest == Some([]) ==> r == Some(out)
  {
    match rest
    case None => None
    case Some(more) =>
      assert [] + more == more && out + [] == out;
      Some(out + more)
  }

  lemma FoundMore<T>(out: seq<T>, next: seq<T>, rest: Option<seq<T>>)
    ensures Found(out, Found(next, rest)) == Found(out + next, rest)
  {
    if rest.Some? {
      assert out + (next + rest.value) == out + next + rest.value;
    }
  }

  method ReadChildren(b: Bytes, start: nat, end: nat) returns (r: Option<seq<Box>>)
    requires end <= |b|
    ensures r == Children(b, start, end)
  {
    var out := [];
    var o := start;
    while o < end
      invariant Found(out, Children(b, o, end)) == Children(b, start, end)
      decreases end - o
    {
      var h := ReadBox(b, o, end);
      if h.None? {
        return None;
      }
      FoundMore(out, [h.value], Children(b, h.value.end, end));
      o := h.value.end;
      out := out + [h.value];
    }
    return Some(out);
  }

  function FindBox(kids: seq<Box>, typ: Bytes): Option<Box> {
    if kids == [] then None
    else if kids[0].typ == typ then Some(kids[0])
    else FindBox(kids[1..], typ)
  }

  ghost predicate Inside(kids: seq<Box>, end: nat) {
    forall i | 0 <= i < |kids| :: kids[i].end <= end
  }

  lemma {:induction false} FoundBoxIsInside(kids: seq<Box>, typ: Bytes, end: nat)
    requires Inside(kids, end)
    ensures FindBox(kids, typ).Some? ==> FindBox(kids, typ).value.end <= end
  {
    if kids != [] && kids[0].typ != typ {
      FoundBoxIsInside(kids[1..], typ, end);
    }
  }

  // --- item ids (iinf) ------------------------------------------------------

  /** Bytes `[p, p + n)`, if they exist. */
  function Slice(b: Bytes, p: nat, n: nat): Option<Bytes> {
    if p + n <= |b| then Some(b[p..p + n]) else None
  }

  datatype ItemEntry = Unreadable | Skipped | Metadata(id: nat)

  /** One child of `iinf`: an `infe` box of version 2 or later whose item type is Exif or mime counts. */
  function ReadEntry(b: Bytes, infe: Box): ItemEntry {
    if infe.typ != INFE then Skipped
    else match Slice(b, infe.body, 1)
      case None => Unreadable
      case Some(v) =>
        if v[0] < 2 then Skipped
        else
          var width := if v[0] == 2 then 2 else 4;
          var p := infe.body + 4;
          match (Slice(b, p, width), Slice(b, p + width + 2, 4))
          case (Some(id), Some(typ)) => if typ == EXIF || typ == MIME then Metadata(Be(id)) else Skipped
          case _ => Unreadable
  }

  function EntryIds(b: Bytes, entries: seq<Box>): Option<seq<nat>> {
    if entries == [] then Some([])
    else match ReadEntry(b, entries[0])
      case Unreadable => None
      case Skipped => EntryIds(b, entries[1..])
      case Metadata(id) => Found([id], EntryIds(b, entries[1..]))
  }

  function ItemIds(b: Bytes, kids: seq<Box>): Option<seq<nat>>
    requires Inside(kids, |b|)
  {
    FoundBoxIsInside(kids, IINF, |b|);
    match FindBox(kids, IINF)
    case None => Some([])
    case Some(iinf) =>
      match Slice(b, iinf.body, 1)
      case None => None
      case Some(version) =>
        match Children(b, iinf.body + 4 + (if version[0] == 0 then 2 else 4), iinf.end)
        case None => None
        case Some(entries) => EntryIds(b, entries)
  }

  method MetadataItemIds(b: Bytes, kids: seq<Box>) returns (r: Option<seq<nat>>)
    requires Inside(kids, |b|)
    ensures r == ItemIds(b, kids)
  {
    var found := FindBox(kids, IINF);
    if found.None? {
      return Some([]);
    }
    var iinf := found.value;
    FoundBoxIsInside(kids, IINF, |b|);
    var version := Slice(b, iinf.body, 1);
    if version.None? {
      return None;
    }
    var entries := ReadChildren(b, iinf.body + 4 + (if version.value[0] == 0 then 2 else 4), iinf.end);
    if entries.None? {
      return None;
    }
    var ids: seq<nat> := [];
    var i := 0;
    assert entries.value[0..] == entries.value;
    while i < |entries.value|
      invariant 0 <= i <= |entries.value|
      invariant Found(ids, EntryIds(b, entries.value[i..])) == EntryIds(b, entries.value)
    {
      var rest := EntryIds(b, entries.value[i + 1..]);
      assert entries.value[i..][1..] == entries.value[i + 1..];
      match ReadEntry(b, entries.value[i]) {
        case Unreadable =>
          return None;
        case Skipped =>
        case Metadata(id) =>
          FoundMore(ids, [id], rest);
          ids := ids + [id];
      }
      i := i + 1;
    }
    return Some(ids);
  }

  // --- item extents (iloc) ----------------------------------------------------

  /** A cursor over `b` that stops at `end`. */
  class Reader {
    const b: Bytes
    const end: nat
    var p: nat

    constructor (b: Bytes, p: nat, end: nat)
      ensures this.b == b && this.end == end && this.p == p
    {
      this.b := b;
      this.end := end;
      this.p := p;
    }

    method Uint(n: nat) returns (v: Option<nat>)
      requires end <= |b|
      modifies this
      ensures v.Some? <==> UintAt(b, old(p), end, n).Some?
      ensures v.Some? ==> v == UintAt(b, old(p), end, n) && p == old(p) + n
      ensures v.None? ==> p == old(p)
    {
      if n > 8 || p + n > end {
        return None;
      }
      var value: nat, i: nat := 0, 0;
      while i < n
        invariant i <= n && value == Be(b[p..p + i])
      {
        assert b[p..p + i + 1][..i] == b[p..p + i];
        value := value * 256 + b[p + i];
        i := i + 1;
      }
      p := p + n;
      return Some(value);
    }
  }

  /** An unsigned integer of `n` bytes at `p`, not crossing `end`. */
  function UintAt(b: Bytes, p: nat, end: nat, n: nat): Option<nat>
    requires end <= |b|
  {
    if n > 8 || p + n > end then None else Some(Be(b[p..p + n]))
  }

  /** The layout that the head of an `iloc` box announces. */
  datatype IlocHead = IlocHead(version: nat, offSize: nat, lenSize: nat, baseSize: nat, indexSize: nat, count: nat)

  function IdWidth(version: nat): nat {
    if version < 2 then 2 else 4
  }

  predicate HasMethod(version: nat) {
    version == 1 || version == 2
  }

  function ReadIlocHead(b: Bytes, p: nat, end: nat): Option<IlocHead>
    requires end <= |b|
  {
    if p + 6 > end then None
    else
      var version := b[p];
      match UintAt(b, p + 6, end, IdWidth(version))
      case None => None
      case Some(count) =>
        Some(IlocHead(version, b[p + 4] / 16, b[p + 4] % 16, b[p + 5] / 16,
                      if HasMethod(version) then b[p + 5] % 16 else 0, count))
  }

  /** The file range of one extent. A zero length means "to the end of the file". */
  function ExtentRange(base: nat, off: nat, len: nat, fileLen: nat): Option<Range> {
    var start := base + off;
    if start > U64_MAX then None
    else if len == 0 then Some(Range(start, fileLen))
    else if start + len > U64_MAX then None
    else Some(Range(start, start + len))
  }

  /** One extent at `p`: offset and length (the index is read and dropped). */
  function ReadExtent(b: Bytes, p: nat, end: nat, h: IlocHead): Option<(nat, nat)>
    requires end <= |b|
  {
    var q := p + h.indexSize;
    match (UintAt(b, p, end, h.indexSize), UintAt(b, q, end, h.offSize), UintAt(b, q + h.offSize, end, h.lenSize))
    case (Some(_), Some(off), Some(len)) => Some((off, len))
    case _ => None
  }

  function ExtentSize(h: IlocHead): nat {
    h.indexSize + h.offSize + h.lenSize
  }

  /** The next `count` extents at `p`: the ranges to report, and where the cursor ends. */
  function Extents(b: Bytes, p: nat, end: nat, h: IlocHead, base: nat, count: nat, wanted: bool, fileLen: nat)
    : Option<(seq<Range>, nat)>
    requires end <= |b|
    decreases count
  {
    if count == 0 then Some(([], p))
    else match ReadExtent(b, p, end, h)
      case None => None
      case Some(extent) =>
        var next := Extents(b, p + ExtentSize(h), end, h, base, count - 1, wanted, fileLen);
        if !wanted then next
        else (match ExtentRange(base, extent.0, extent.1, fileLen)
              case None => None
              case Some(range) => Reported([range], next))
  }

  function Reported(out: seq<Range>, rest: Option<(seq<Range>, nat)>): (r: Option<(seq<Range>, nat)>)
    ensures out == [] ==> r == rest
    ensures rest.Some? && rest.value.0 == [] ==> r == Some((out, rest.value.1))
  {
    match rest
    case None => None
    case Some(more) =>
      assert [] + more.0 == more.0 && out + [] == out;
      Some((out + more.0, more.1))
  }

  lemma ReportedMore(out: seq<Range>, next: seq<Range>, rest: Option<(seq<Range>, nat)>)
    ensures Reported(out, Reported(next, rest)) == Reported(out + next, rest)
  {
    if rest.Some? {
      assert out + (next + rest.value.0) == out + next + rest.value.0;
    }
  }

  /** The head of one item: its id, construction method, base offset and number of extents. */
  datatype ItemHead = ItemHead(id: nat, construction: nat, base: nat, extents: nat, next: nat)

  function ReadItemHead(b: Bytes, p: nat, end: nat, h: IlocHead): Option<ItemHead>
    requires end <= |b|
  {
    var q := p + IdWidth(h.version);
    var s := q + if HasMethod(h.version) then 2 else 0;
    match UintAt(b, p, end, IdWidth(h.version))
    case None => None
    case Some(id) =>
      match if HasMethod(h.version) then UintAt(b, q, end, 2) else Some(0)
      case None => None
      case Some(construction) =>
        if s + 2 > end then None
        else match (UintAt(b, s + 2, end, h.baseSize), UintAt(b, s + 2 + h.baseSize, end, 2))
          case (Some(base), Some(extents)) => Some(ItemHead(id, construction % 16, base, extents, s + 2 + h.baseSize + 2))
          case _ => None
  }

  /** One item at `p`: the ranges it contributes, and where the next item starts. */
  function ReadItem(b: Bytes, p: nat, end: nat, h: IlocHead, ids: seq<nat>, fileLen: nat): Option<(seq<Range>, nat)>
    requires end <= |b|
  {
    match ReadItemHead(b, p, end, h)
    case None => None
    case Some(item) =>
      Extents(b, item.next, end, h, item.base, item.extents, item.id in ids && item.construction == 0, fileLen)
  }

  /** The next `count` items at `p`. */
  function Items(b: Bytes, p: nat, end: nat, h: IlocHead, count: nat, ids: seq<nat>, fileLen: nat)
    : Option<(seq<Range>, nat)>
    requires end <= |b|
    decreases count
  {
    if count == 0 then Some(([], p))
    else match ReadItem(b, p, end, h, ids, fileLen)
      case None => None
      case Some(found) => Reported(found.0, Items(b, found.1, end, h, count - 1, ids, fileLen))
  }

  function ItemExtents(b: Bytes, kids: seq<Box>, ids: seq<nat>, fileLen: nat): Option<seq<Range>>
    requires Inside(kids, |b|)
  {
    FoundBoxIsInside(kids, ILOC, |b|);
    match FindBox(kids, ILOC)
    case None => None
    case Some(iloc) =>
      match ReadIlocHead(b, iloc.body, iloc.end)
      case None => None
      case Some(h) =>
        match Items(b, iloc.body + 6 + IdWidth(h.version), iloc.end, h, h.count, ids, fileLen)
        case None => None
        case Some(found) => Some(found.0)
  }

  method NextExtent(r: Reader, h: IlocHead) returns (extent: Option<(nat, nat)>)
    requires r.end <= |r.b|
    modifies r
    ensures extent == ReadExtent(r.b, old(r.p), r.end, h)
    ensures extent.Some? ==> r.p == old(r.p) + ExtentSize(h)
  {
    var index := r.Uint(h.indexSize);
    if index.None? {
      return None;
    }
    var off := r.Uint(h.offSize);
    if off.None? {
      return None;
    }
    var len := r.Uint(h.lenSize);
    if len.None? {
      return None;
    }
    return Some((off.value, len.value));
  }

  lemma NoExtents(b: Bytes, p: nat, end: nat, h: IlocHead, base: nat, wanted: bool, fileLen: nat)
    requires end <= |b|
    ensures Extents(b, p, end, h, base, 0, wanted, fileLen) == Some(([], p))
  {
  }

  /** The first extent and the others. */
  lemma FirstExtent(b: Bytes, p: nat, end: nat, h: IlocHead, base: nat, count: nat, wanted: bool, fileLen: nat)
    requires end <= |b| && count > 0
    ensures var extent := ReadExtent(b, p, end, h);
            var all := Extents(b, p, end, h, base, count, wanted, fileLen);
            && (extent.None? ==> all.None?)
            && (extent.Some? ==>
                  var next := Extents(b, p + ExtentSize(h), end, h, base, count - 1, wanted, fileLen);
                  var range := ExtentRange(base, extent.value.0, extent.value.1, fileLen);
                  && (!wanted ==> all == next)
                  && (wanted && range.None? ==> all.None?)
                  && (wanted && range.Some? ==> all == Reported([range.value], next)))
  {
    hide ReadExtent, ExtentRange, ExtentSize;
  }

  method ReadExtents(r: Reader, h: IlocHead, base: nat, count: nat, wanted: bool, fileLen: nat)
      returns (out: Option<seq<Range>>)
    requires r.end <= |r.b|
    modifies r
    ensures out.None? <==> Extents(r.b, old(r.p), r.end, h, base, count, wanted, fileLen).None?
    ensures out.Some? ==> Extents(r.b, old(r.p), r.end, h, base, count, wanted, fileLen) == Some((out.value, r.p))
  {
    hide Extents, ReadExtent, ExtentRange, ExtentSize;
    var ranges: seq<Range> := [];
    var left := count;
    ghost var all := Extents(r.b, r.p, r.end, h, base, count, wanted, fileLen);
    while left > 0
      invariant Reported(ranges, Extents(r.b, r.p, r.end, h, base, left, wanted, fileLen)) == all
    {
      FirstExtent(r.b, r.p, r.end, h, base, left, wanted, fileLen);
      var extent := NextExtent(r, h);
      if extent.None? {
        return None;
      }
      if wanted {
        var range := ExtentRange(base, extent.value.0, extent.value.1, fileLen);
        if range.None? {
          return None;
        }
        ReportedMore(ranges, [range.value], Extents(r.b, r.p, r.end, h, base, left - 1, wanted, fileLen));
        ranges := ranges + [range.value];
      }
      left := left - 1;
    }
    NoExtents(r.b, r.p, r.end, h, base, wanted, fileLen);
    return Some(ranges);
  }

  method NextItem(r: Reader, h: IlocHead, ids: seq<nat>, fileLen: nat) returns (out: Option<seq<Range>>)
    requires r.end <= |r.b|
    modifies r
    ensures out.None? <==> ReadItem(r.b, old(r.p), r.end, h, ids, fileLen).None?
    ensures out.Some? ==> ReadItem(r.b, old(r.p), r.end, h, ids, fileLen) == Some((out.value, r.p))
  {
    var read := ReadItemHead(r.b, r.p, r.end, h);
    if read.None? {
      return None;
    }
    var item := read.value;
    r.p := item.next;
    out := ReadExtents(r, h, item.base, item.extents, item.id in ids && item.construction == 0, fileLen);
  }

  method ReadItems(r: Reader, h: IlocHead, ids: seq<nat>, fileLen: nat) returns (out: Option<seq<Range>>)
    requires r.end <= |r.b|
    modifies r
    ensures out.None? <==> Items(r.b, old(r.p), r.end, h, h.count, ids, fileLen).None?
    ensures out.Some? ==> Items(r.b, old(r.p), r.end, h, h.count, ids, fileLen) == Some((out.value, r.p))
  {
    var ranges: seq<Range> := [];
    var left := h.count;
    ghost var all := Items(r.b, r.p, r.end, h, left, ids, fileLen);
    while left > 0
      invariant Reported(ranges, Items(r.b, r.p, r.end, h, left, ids, fileLen)) == all
    {
      var item := NextItem(r, h, ids, fileLen);
      if item.None? {
        return None;
      }
      ReportedMore(ranges, item.value, Items(r.b, r.p, r.end, h, left - 1, ids, fileLen));
      ranges := ranges + item.value;
      left := left - 1;
    }
    return Some(ranges);
  }

  /** Which table is read, and from where. */
  lemma ItemExtentsOf(b: Bytes, kids: seq<Box>, ids: seq<nat>, fileLen: nat)
    requires Inside(kids, |b|)
    ensures FindBox(kids, ILOC).None? ==> ItemExtents(b, kids, ids, fileLen).None?
    ensures FindBox(kids, ILOC).Some? ==>
              var iloc := FindBox(kids, ILOC).value;
              && iloc.end <= |b|
              && var head := ReadIlocHead(b, iloc.body, iloc.end);
                 && (head.None? ==> ItemExtents(b, kids, ids, fileLen).None?)
                 && (head.Some? ==>
                       var h := head.value;
                       var items := Items(b, iloc.body + 6 + IdWidth(h.version), iloc.end, h, h.count, ids, fileLen);
                       && (items.None? ==> ItemExtents(b, kids, ids, fileLen).None?)
                       && (items.Some? ==> ItemExtents(b, kids, ids, fileLen) == Some(items.value.0)))
  {
    FoundBoxIsInside(kids, ILOC, |b|);
    hide Items, ReadIlocHead, FindBox, Inside, IdWidth;
  }

  method ReadItemExtents(b: Bytes, kids: seq<Box>, ids: seq<nat>, fileLen: nat) returns (out: Option<seq<Range>>)
    requires Inside(kids, |b|)
    ensures out == ItemExtents(b, kids, ids, fileLen)
  {
    ItemExtentsOf(b, kids, ids, fileLen);
    hide Items, ItemExtents, ReadIlocHead, FindBox, Inside, IdWidth;
    var found := FindBox(kids, ILOC);
    if found.None? {
      return None;
    }
    var iloc := found.value;
    var head := ReadIlocHead(b, iloc.body, iloc.end);
    if head.None? {
      return None;
    }
    var r := new Reader(b, iloc.body + 6 + IdWidth(head.value.version), iloc.end);
    out := ReadItems(r, head.value, ids, fileLen);
  }

  // --- top level ------------------------------------------------------------

  /** The extents of the Exif and XMP items that the children of a `meta` box describe. */
  function MetaExtents(m: Bytes, kids: seq<Box>, fileLen: nat): Option<seq<Range>>
    requires Inside(kids, |m|)
  {
    match ItemIds(m, kids)
    case None => None
    case Some(ids) => if ids == [] then Some([]) else ItemExtents(m, kids, ids, fileLen)
  }

  /** What the items of a `meta` box contribute. `meta` is a full box: its children start 4 bytes into
      the body. */
  function ItemRanges(m: Bytes, body: nat, fileLen: nat): Option<seq<Range>> {
    if |m| > META_MAX then None
    else
      ChildrenInside(m, body + 4, |m|);
      match Children(m, body + 4, |m|)
      case None => None
      case Some(kids) => MetaExtents(m, kids, fileLen)
  }

  /** What one top-level box contributes: `moov` and `meta` in full, and the items of `meta`. */
  function BoxRanges(b: Bytes, box: Box): Option<seq<Range>>
    requires box.start <= box.body <= box.end <= |b|
  {
    if box.typ == MOOV then Some([Range(box.start, box.end)])
    else if box.typ != META then Some([])
    else Found([Range(box.start, box.end)], ItemRanges(b[box.start..box.end], box.body - box.start, |b|))
  }

  /** The walk over the top-level boxes from `o`. */
  function TopRanges(b: Bytes, o: nat): Option<seq<Range>>
    decreases |b| - o
  {
    if o >= |b| then Some([])
    else match ReadBox(b, o, |b|)
      case None => None
      case Some(box) =>
        match BoxRanges(b, box)
        case None => None
        case Some(ranges) => Found(ranges, TopRanges(b, box.end))
  }

  lemma {:induction false} ChildrenInside(b: Bytes, o: nat, end: nat)
    requires end <= |b|
    ensures Children(b, o, end).Some? ==> Inside(Children(b, o, end).value, end)
    decreases end - o
  {
    if o < end && ReadBox(b, o, end).Some? {
      ChildrenInside(b, ReadBox(b, o, end).value.end, end);
    }
  }

  method ReadMetaExtents(m: Bytes, kids: seq<Box>, fileLen: nat) returns (r: Option<seq<Range>>)
    requires Inside(kids, |m|)
    ensures r == MetaExtents(m, kids, fileLen)
  {
    var ids := MetadataItemIds(m, kids);
    if ids.None? {
      return None;
    }
    if ids.value == [] {
      return Some([]);
    }
    r := ReadItemExtents(m, kids, ids.value, fileLen);
  }

  method ReadItemRanges(m: Bytes, body: nat, fileLen: nat) returns (r: Option<seq<Range>>)
    ensures r == ItemRanges(m, body, fileLen)
  {
    if |m| > META_MAX {
      return None;
    }
    var kids := ReadChildren(m, body + 4, |m|);
    if kids.None? {
      return None;
    }
    ChildrenInside(m, body + 4, |m|);
    r := ReadMetaExtents(m, kids.value, fileLen);
  }

  method ReadBoxRanges(b: Bytes, h: Box) returns (out: Option<seq<Range>>)
    requires h.start <= h.body <= h.end <= |b|
    ensures out == BoxRanges(b, h)
  {
    hide ItemRanges;
    if h.typ == MOOV {
      return Some([Range(h.start, h.end)]);
    }
    if h.typ != META {
      return Some([]);
    }
    var items := ReadItemRanges(b[h.start..h.end], h.body - h.start, |b|);
    return Found([Range(h.start, h.end)], items);
  }

  method IsoBmff(b: Bytes) returns (r: Option<seq<Range>>)
    ensures r == TopRanges(b, 0)
  {
    var out: seq<Range> := [];
    var o := 0;
    while o < |b|
      invariant Found(out, TopRanges(b, o)) == TopRanges(b, 0)
      decreases |b| - o
    {
      var box := ReadBox(b, o, |b|);
      if box.None? {
        return None;
      }
      var found := ReadBoxRanges(b, box.value);
      if found.None? {
        return None;
      }
      FoundMore(out, found.value, TopRanges(b, box.value.end));
      out := out + found.value;
      o := box.value.end;
    }
    return Some(out);
  }

  /** What the program answers for a file. */
  function Ranges(b: Bytes): Option<seq<Range>> {
    if |b| >= 2 && b[0] == 0xFF && b[1] == 0xD8 then
      (match AppEnd(b[..Min(|b|, JPEG_HEAD)], 2, 2)
       case None => None
       case Some(end) => Some([Range(0, end)]))
    else if |b| >= 12 && b[4..8] == FTYP then TopRanges(b, 0)
    else None
  }

  method ReadRanges(b: Bytes) returns (r: Option<seq<Range>>)
    ensures r == Ranges(b)
  {
    if |b| >= 2 && b[0] == 0xFF && b[1] == 0xD8 {
      r := Jpeg(b[..Min(|b|, JPEG_HEAD)]);
    } else if |b| >= 12 && b[4..8] == FTYP {
      r := IsoBmff(b);
    } else {
      r := None;
    }
  }

  /** The contributions of a list of top-level boxes, in file order. */
  function Collect(b: Bytes, boxes: seq<Box>): Option<seq<Range>>
    requires forall k | k in boxes :: k.start <= k.body <= k.end <= |b|
  {
    if boxes == [] then Some([])
    else match BoxRanges(b, boxes[0])
      case None => None
      case Some(ranges) => Found(ranges, Collect(b, boxes[1..]))
  }
}
