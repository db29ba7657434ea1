/** Writers for the structures that `MetadataRanges` reads, after ITU-T T.81 Annex B (JPEG marker segments)
    and ISO/IEC 14496-12 sections 4.2 (boxes), 8.11.3 (`iloc`) and 8.11.6 (`iinf`); and the proof that the
    reader finds in every written file exactly what was put there. */
module MediaFormats {
  import opened LibraryStore
  import opened MetadataRanges

  // --- big-endian numbers -------------------------------------------------------

  function Pow256(n: nat): (r: nat)
    ensures r > 0
  {
    if n == 0 then 1 else Pow256(n - 1) * 256
  }

  function WriteBe(v: nat, n: nat): (s: Bytes)
    ensures |s| == n
  {
    if n == 0 then [] else WriteBe(v / 256, n - 1) + [v % 256]
  }

  lemma {:induction false} ReadsBack(v: nat, n: nat)
    requires v < Pow256(n)
    ensures Be(WriteBe(v, n)) == v
  {
    if n > 0 {
      var s := WriteBe(v, n);
      assert s[..n - 1] == WriteBe(v / 256, n - 1);
      ReadsBack(v / 256, n - 1);
    }
  }

  /** `s` stands in `b` at `p`. */
  ghost predicate At(b: Bytes, p: nat, s: Bytes) {
    p + |s| <= |b| && forall i {:trigger s[i]} | 0 <= i < |s| :: b[p + i] == s[i]
  }

  lemma AtParts(b: Bytes, p: nat, s: Bytes, t: Bytes)
    requires At(b, p, s + t)
    ensures At(b, p, s) && At(b, p + |s|, t)
  {
    assert forall i | 0 <= i < |s| :: s[i] == (s + t)[i];
    assert forall i | 0 <= i < |t| :: t[i] == (s + t)[|s| + i];
  }

  lemma AtBe(b: Bytes, p: nat, v: nat, n: nat)
    requires At(b, p, WriteBe(v, n)) && v < Pow256(n)
    ensures Be(b[p..p + n]) == v
  {
    assert b[p..p + n] == WriteBe(v, n);
    ReadsBack(v, n);
  }

  lemma AtUint(b: Bytes, p: nat, end: nat, v: nat, n: nat)
    requires At(b, p, WriteBe(v, n)) && p + n <= end <= |b| && n <= 8 && v < Pow256(n)
    ensures UintAt(b, p, end, n) == Some(v)
  {
    AtBe(b, p, v, n);
  }

  // --- JPEG -----------------------------------------------------------------------

  /** A marker segment with its length field, preceded by `fill` fill bytes. */
  datatype Segment = Segment(fill: nat, marker: Byte, payload: Bytes)

  predicate ValidSegment(s: Segment) {
    s.marker != 0xFF && !StopsJpeg(s.marker) && |s.payload| + 2 < 0x1_0000
  }

  function Fill(n: nat): (s: Bytes)
    ensures |s| == n
  {
    seq(n, _ => 0xFF)
  }

  function Length(s: Segment): (r: Bytes)
    requires ValidSegment(s)
    ensures |r| == 2
  {
    [(|s.payload| + 2) / 256, (|s.payload| + 2) % 256]
  }

  function WriteSegment(s: Segment): (r: Bytes)
    requires ValidSegment(s)
    ensures |r| == s.fill + 4 + |s.payload|
  {
    Fill(s.fill) + ([0xFF, s.marker] + (Length(s) + s.payload))
  }

  function WriteSegments(segments: seq<Segment>): Bytes
    requires forall s | s in segments :: ValidSegment(s)
  {
    if segments == [] then [] else WriteSegment(segments[0]) + WriteSegments(segments[1..])
  }

  /** Where the last APPn segment of a list that starts at `o` ends. */
  function LastAppEnd(segments: seq<Segment>, o: nat, end: nat): nat
    requires forall s | s in segments :: ValidSegment(s)
    decreases |segments|
  {
    if segments == [] then end
    else
      var next := o + |WriteSegment(segments[0])|;
      LastAppEnd(segments[1..], next, if IsApp(segments[0].marker) then next else end)
  }

  lemma {:induction false} FillIsSkipped(b: Bytes, o: nat, end: nat, n: nat)
    requires n > 0 ==> o + n + 3 <= |b| && forall i | o <= i <= o + n :: b[i] == 0xFF
    ensures AppEnd(b, o, end) == AppEnd(b, o + n, end)
    decreases n
  {
    if n > 0 {
      FillIsSkipped(b, o + 1, end, n - 1);
    }
  }

  lemma MarkerIsWalked(b: Bytes, p: nat, end: nat, s: Segment)
    requires ValidSegment(s) && p + 4 + |s.payload| <= |b|
    requires b[p] == 0xFF && b[p + 1] == s.marker && U16(b, p + 2) == |s.payload| + 2
    ensures var next := p + 4 + |s.payload|;
            AppEnd(b, p, end) == AppEnd(b, next, if IsApp(s.marker) then next else end)
  {
  }

  lemma SegmentIsWalked(b: Bytes, o: nat, end: nat, s: Segment)
    requires ValidSegment(s) && At(b, o, WriteSegment(s))
    ensures var next := o + |WriteSegment(s)|;
            AppEnd(b, o, end) == AppEnd(b, next, if IsApp(s.marker) then next else end)
  {
    var p := o + s.fill;
    var w := WriteSegment(s);
    assert b[p] == w[s.fill] && b[p + 1] == w[s.fill + 1] && b[p + 2] == w[s.fill + 2] && b[p + 3] == w[s.fill + 3];
    forall i | o <= i <= p
      ensures b[i] == 0xFF
    {
      assert b[o + (i - o)] == w[i - o];
    }
    FillIsSkipped(b, o, end, s.fill);
    MarkerIsWalked(b, p, end, s);
  }

  lemma FirstSegment(b: Bytes, o: nat, segments: seq<Segment>)
    requires segments != [] && forall s | s in segments :: ValidSegment(s)
    requires At(b, o, WriteSegments(segments))
    ensures At(b, o, WriteSegment(segments[0]))
    ensures At(b, o + |WriteSegment(segments[0])|, WriteSegments(segments[1..]))
    ensures |WriteSegments(segments)| == |WriteSegment(segments[0])| + |WriteSegments(segments[1..])|
  {
    AtParts(b, o, WriteSegment(segments[0]), WriteSegments(segments[1..]));
  }

  /** For every JPEG header written from segments, up to a SOS or SOF marker, the reported range ends just
      past the last APPn segment. */
  lemma {:induction false} JpegRangeEndsAtLastApp(b: Bytes, o: nat, end: nat, segments: seq<Segment>)
    requires forall s | s in segments :: ValidSegment(s)
    requires At(b, o, WriteSegments(segments))
    requires AtStop(b, o + |WriteSegments(segments)|)
    ensures AppEnd(b, o, end) == Some(LastAppEnd(segments, o, end))
    decreases |segments|
  {
    if segments == [] {
      assert o + |WriteSegments(segments)| == o;
      var n :| StopsAfter(b, o, n);
      FillIsSkipped(b, o, end, n);
    } else {
      FirstSegment(b, o, segments);
      SegmentIsWalked(b, o, end, segments[0]);
      var next := o + |WriteSegment(segments[0])|;
      JpegRangeEndsAtLastApp(b, next, if IsApp(segments[0].marker) then next else end, segments[1..]);
    }
  }

  /** The header is over: after `n` fill bytes, a SOS or SOF marker, or not enough bytes for another segment. */
  ghost predicate StopsAfter(b: Bytes, o: nat, n: nat) {
    && (n > 0 ==> o + n + 3 <= |b| && forall i | o <= i <= o + n :: b[i] == 0xFF)
    && (o + n + 4 <= |b| ==> b[o + n] == 0xFF && StopsJpeg(b[o + n + 1]))
  }

  ghost predicate AtStop(b: Bytes, o: nat) {
    exists n: nat :: StopsAfter(b, o, n)
  }

  // --- boxes ----------------------------------------------------------------------

  /** How the size of a box is written: in 32 bits, in 64 bits, or "to the end". */
  datatype SizeForm = Compact | Large | ToEnd

  datatype BoxSpec = BoxSpec(typ: Bytes, form: SizeForm, payload: Bytes)

  function HeaderLen(s: BoxSpec): nat {
    if s.form.Large? then 16 else 8
  }

  function BoxLen(s: BoxSpec): nat {
    HeaderLen(s) + |s.payload|
  }

  /** The box `s` stands at `o`; only a box that ends at `end` may leave its size open. */
  ghost predicate BoxAt(b: Bytes, o: nat, end: nat, s: BoxSpec) {
    && o + BoxLen(s) <= end <= |b|
    && b[o + 4..o + 8] == s.typ
    && b[o + HeaderLen(s)..o + BoxLen(s)] == s.payload
    && match s.form
       case Compact => U32(b, o) == BoxLen(s)
       case Large => U32(b, o) == 1 && U64(b, o + 8) == BoxLen(s)
       case ToEnd => U32(b, o) == 0 && o + BoxLen(s) == end
  }

  /** The boxes `specs` fill `[o, end)` one after the other, without gap or overlap. */
  ghost predicate BoxesAt(b: Bytes, o: nat, end: nat, specs: seq<BoxSpec>)
    decreases |specs|
  {
    if specs == [] then o == end <= |b|
    else BoxAt(b, o, end, specs[0]) && BoxesAt(b, o + BoxLen(specs[0]), end, specs[1..])
  }

  /** The boxes that a reader should report for a list that starts at `o`. */
  function Layout(specs: seq<BoxSpec>, o: nat): seq<Box>
    decreases |specs|
  {
    if specs == [] then []
    else
      [Box(specs[0].typ, o, o + HeaderLen(specs[0]), o + BoxLen(specs[0]))]
      + Layout(specs[1..], o + BoxLen(specs[0]))
  }

  /** A list of boxes is read back as itself. */
  lemma {:induction false} BoxesAreRead(b: Bytes, o: nat, end: nat, specs: seq<BoxSpec>)
    requires BoxesAt(b, o, end, specs)
    ensures o <= end <= |b| && Children(b, o, end) == Some(Layout(specs, o))
    decreases |specs|
  {
    if specs != [] {
      BoxesAreRead(b, o + BoxLen(specs[0]), end, specs[1..]);
    }
  }

  lemma AcceptedBox(b: Bytes, o: nat, end: nat) returns (s: BoxSpec)
    requires end <= |b| && ReadBox(b, o, end).Some?
    ensures BoxAt(b, o, end, s)
    ensures ReadBox(b, o, end).value == Box(s.typ, o, o + HeaderLen(s), o + BoxLen(s))
  {
    var h := ReadBox(b, o, end).value;
    var form := if U32(b, o) == 0 then ToEnd else if U32(b, o) == 1 then Large else Compact;
    s := BoxSpec(h.typ, form, b[h.body..h.end]);
  }

  /** The reader accepts nothing else: whatever it accepts is a list of boxes that fills the range. */
  lemma {:induction false} AcceptedBoxesTile(b: Bytes, o: nat, end: nat) returns (specs: seq<BoxSpec>)
    requires o <= end <= |b| && Children(b, o, end).Some?
    ensures BoxesAt(b, o, end, specs) && Layout(specs, o) == Children(b, o, end).value
    decreases end - o
  {
    hide ReadBox, BoxAt, BoxLen, HeaderLen;
    if o == end {
      specs := [];
    } else {
      var first := AcceptedBox(b, o, end);
      var rest := AcceptedBoxesTile(b, o + BoxLen(first), end);
      specs := [first] + rest;
    }
  }

  // --- item locations (iloc) ----------------------------------------------------

  datatype ExtentSpec = ExtentSpec(index: nat, off: nat, len: nat)

  /** The construction method of an item is in the low four bits of `construction`; the others are reserved. */
  datatype ItemSpec = ItemSpec(id: nat, construction: nat, reference: nat, base: nat, extents: seq<ExtentSpec>)

  predicate ValidHead(h: IlocHead) {
    && h.version < 256 && h.offSize < 16 && h.lenSize < 16 && h.baseSize < 16 && h.indexSize < 16
    && (!HasMethod(h.version) ==> h.indexSize == 0)
    && h.count < Pow256(IdWidth(h.version))
  }

  /** The reader takes numbers of up to eight bytes. */
  predicate ValidExtent(h: IlocHead, e: ExtentSpec) {
    && h.indexSize <= 8 && h.offSize <= 8 && h.lenSize <= 8
    && e.index < Pow256(h.indexSize) && e.off < Pow256(h.offSize) && e.len < Pow256(h.lenSize)
  }

  predicate ValidItem(h: IlocHead, i: ItemSpec) {
    && i.id < Pow256(IdWidth(h.version))
    && h.baseSize <= 8 && i.construction < Pow256(2) && (!HasMethod(h.version) ==> i.construction == 0)
    && i.reference < Pow256(2) && i.base < Pow256(h.baseSize) && |i.extents| < Pow256(2)
    && forall e | e in i.extents :: ValidExtent(h, e)
  }

  function WriteExtent(h: IlocHead, e: ExtentSpec): (r: Bytes)
    ensures |r| == ExtentSize(h)
  {
    WriteBe(e.index, h.indexSize) + (WriteBe(e.off, h.offSize) + WriteBe(e.len, h.lenSize))
  }

  function WriteExtents(h: IlocHead, extents: seq<ExtentSpec>): Bytes {
    if extents == [] then [] else WriteExtent(h, extents[0]) + WriteExtents(h, extents[1..])
  }

  /** The ranges an item stands for: `base + off`, `len` bytes, or to the end of the file for length zero. */
  function ExtentRanges(base: nat, extents: seq<ExtentSpec>, fileLen: nat): Option<seq<Range>> {
    if extents == [] then Some([])
    else match ExtentRange(base, extents[0].off, extents[0].len, fileLen)
      case None => None
      case Some(range) => Found([range], ExtentRanges(base, extents[1..], fileLen))
  }

  lemma ExtentIsRead(b: Bytes, p: nat, end: nat, h: IlocHead, e: ExtentSpec)
    requires ValidHead(h) && ValidExtent(h, e) && At(b, p, WriteExtent(h, e)) && p + ExtentSize(h) <= end <= |b|
    ensures ReadExtent(b, p, end, h) == Some((e.off, e.len))
  {
    var index, off, len := WriteBe(e.index, h.indexSize), WriteBe(e.off, h.offSize), WriteBe(e.len, h.lenSize);
    AtParts(b, p, index, off + len);
    AtParts(b, p + h.indexSize, off, len);
    AtUint(b, p, end, e.index, h.indexSize);
    AtUint(b, p + h.indexSize, end, e.off, h.offSize);
    AtUint(b, p + h.indexSize + h.offSize, end, e.len, h.lenSize);
  }

  lemma {:induction false} ExtentsAreRead(b: Bytes, p: nat, end: nat, h: IlocHead, base: nat, extents: seq<ExtentSpec>,
                                          wanted: bool, fileLen: nat)
    requires ValidHead(h) && forall e | e in extents :: ValidExtent(h, e)
    requires At(b, p, WriteExtents(h, extents)) && p + |WriteExtents(h, extents)| <= end <= |b|
    requires wanted ==> ExtentRanges(base, extents, fileLen).Some?
    ensures Extents(b, p, end, h, base, |extents|, wanted, fileLen)
            == Some((if wanted then ExtentRanges(base, extents, fileLen).value else [], p + |WriteExtents(h, extents)|))
    decreases |extents|
  {
    hide WriteExtent, ReadExtent, ExtentRange, At, ValidHead, ValidExtent;
    if extents != [] {
      var first, rest := WriteExtent(h, extents[0]), WriteExtents(h, extents[1..]);
      assert WriteExtents(h, extents) == first + rest;
      AtParts(b, p, first, rest);
      ExtentIsRead(b, p, end, h, extents[0]);
      ExtentsAreRead(b, p + ExtentSize(h), end, h, base, extents[1..], wanted, fileLen);
    }
  }

  function WriteItemHead(h: IlocHead, i: ItemSpec): Bytes {
    WriteBe(i.id, IdWidth(h.version))
    + ((if HasMethod(h.version) then WriteBe(i.construction, 2) else [])
       + (WriteBe(i.reference, 2) + (WriteBe(i.base, h.baseSize) + WriteBe(|i.extents|, 2))))
  }

  function WriteItem(h: IlocHead, i: ItemSpec): Bytes {
    WriteItemHead(h, i) + WriteExtents(h, i.extents)
  }

  function WriteItems(h: IlocHead, items: seq<ItemSpec>): Bytes {
    if items == [] then [] else WriteItem(h, items[0]) + WriteItems(h, items[1..])
  }

  lemma ItemHeadParts(b: Bytes, p: nat, h: IlocHead, i: ItemSpec)
    requires At(b, p, WriteItemHead(h, i))
    ensures At(b, p, WriteBe(i.id, IdWidth(h.version)))
    ensures var q := p + IdWidth(h.version);
            var s := q + if HasMethod(h.version) then 2 else 0;
            && (HasMethod(h.version) ==> At(b, q, WriteBe(i.construction, 2)))
            && At(b, s + 2, WriteBe(i.base, h.baseSize))
            && At(b, s + 2 + h.baseSize, WriteBe(|i.extents|, 2))
            && p + |WriteItemHead(h, i)| == s + 2 + h.baseSize + 2
  {
    hide At, WriteBe;
    var id, reference := WriteBe(i.id, IdWidth(h.version)), WriteBe(i.reference, 2);
    var construction := if HasMethod(h.version) then WriteBe(i.construction, 2) else [];
    var base, count := WriteBe(i.base, h.baseSize), WriteBe(|i.extents|, 2);
    AtParts(b, p, id, construction + (reference + (base + count)));
    AtParts(b, p + |id|, construction, reference + (base + count));
    AtParts(b, p + |id| + |construction|, reference, base + count);
    AtParts(b, p + |id| + |construction| + 2, base, count);
  }

  lemma ItemHeadFields(b: Bytes, p: nat, end: nat, h: IlocHead, i: ItemSpec)
    requires ValidHead(h) && ValidItem(h, i) && At(b, p, WriteItemHead(h, i)) && p + |WriteItemHead(h, i)| <= end <= |b|
    ensures var q := p + IdWidth(h.version);
            var s := q + if HasMethod(h.version) then 2 else 0;
            && p + |WriteItemHead(h, i)| == s + 2 + h.baseSize + 2
            && UintAt(b, p, end, IdWidth(h.version)) == Some(i.id)
            && (HasMethod(h.version) ==> UintAt(b, q, end, 2) == Some(i.construction))
            && UintAt(b, s + 2, end, h.baseSize) == Some(i.base)
            && UintAt(b, s + 2 + h.baseSize, end, 2) == Some(|i.extents|)
  {
    assert Pow256(2) == 0x1_0000;
    ItemHeadParts(b, p, h, i);
    hide At, UintAt, WriteBe, WriteItemHead, Be, Pow256;
    var s := p + IdWidth(h.version) + if HasMethod(h.version) then 2 else 0;
    AtUint(b, p, end, i.id, IdWidth(h.version));
    if HasMethod(h.version) {
      AtUint(b, p + IdWidth(h.version), end, i.construction, 2);
    }
    AtUint(b, s + 2, end, i.base, h.baseSize);
    AtUint(b, s + 2 + h.baseSize, end, |i.extents|, 2);
  }

  lemma ItemHeadIsRead(b: Bytes, p: nat, end: nat, h: IlocHead, i: ItemSpec)
    requires ValidHead(h) && ValidItem(h, i) && At(b, p, WriteItemHead(h, i)) && p + |WriteItemHead(h, i)| <= end <= |b|
    ensures ReadItemHead(b, p, end, h)
            == Some(ItemHead(i.id, i.construction % 16, i.base, |i.extents|, p + |WriteItemHead(h, i)|))
  {
    ItemHeadFields(b, p, end, h, i);
    hide At, UintAt, WriteItemHead, ValidHead, ValidItem, Pow256, Be;
  }

  /** What the items with one of the wanted ids and construction method 0 stand for, in file order. */
  function ItemsRanges(items: seq<ItemSpec>, ids: seq<nat>, fileLen: nat): Option<seq<Range>> {
    if items == [] then Some([])
    else if items[0].id in ids && items[0].construction % 16 == 0 then
      (match ExtentRanges(items[0].base, items[0].extents, fileLen)
       case None => None
       case Some(ranges) => Found(ranges, ItemsRanges(items[1..], ids, fileLen)))
    else ItemsRanges(items[1..], ids, fileLen)
  }

  lemma ItemIsRead(b: Bytes, p: nat, end: nat, h: IlocHead, i: ItemSpec, ids: seq<nat>, fileLen: nat)
    requires ValidHead(h) && ValidItem(h, i) && At(b, p, WriteItem(h, i)) && p + |WriteItem(h, i)| <= end <= |b|
    requires ItemsRanges([i], ids, fileLen).Some?
    ensures ReadItem(b, p, end, h, ids, fileLen)
            == Some((ItemsRanges([i], ids, fileLen).value, p + |WriteItem(h, i)|))
  {
    hide ReadItemHead, WriteItemHead, WriteExtents, ValidHead, ExtentRange, At;
    var head, extents := WriteItemHead(h, i), WriteExtents(h, i.extents);
    AtParts(b, p, head, extents);
    ItemHeadIsRead(b, p, end, h, i);
    ExtentsAreRead(b, p + |head|, end, h, i.base, i.extents, i.id in ids && i.construction % 16 == 0, fileLen);
  }

  /** Every written item table is read back: each extent of each wanted method-0 item is reported, nothing
      else is. */
  lemma {:induction false} ItemsAreRead(b: Bytes, p: nat, end: nat, h: IlocHead, items: seq<ItemSpec>, ids: seq<nat>,
                                        fileLen: nat)
    requires ValidHead(h) && forall i | i in items :: ValidItem(h, i)
    requires At(b, p, WriteItems(h, items)) && p + |WriteItems(h, items)| <= end <= |b|
    requires ItemsRanges(items, ids, fileLen).Some?
    ensures Items(b, p, end, h, |items|, ids, fileLen)
            == Some((ItemsRanges(items, ids, fileLen).value, p + |WriteItems(h, items)|))
    decreases |items|
  {
    hide WriteItem, ReadItem, ExtentRanges, At, ValidHead, ValidItem;
    if items != [] {
      var first, rest := WriteItem(h, items[0]), WriteItems(h, items[1..]);
      AtParts(b, p, first, rest);
      ItemIsRead(b, p, end, h, items[0], ids, fileLen);
      ItemsAreRead(b, p + |first|, end, h, items[1..], ids, fileLen);
    }
  }

  // --- item types (iinf) ----------------------------------------------------------

  /** An `infe` entry of version 2 or 3: version, flags, id, protection index, item type. */
  datatype EntrySpec = EntrySpec(version: Byte, flags: Bytes, id: nat, protection: Bytes, itemType: Bytes, name: Bytes)

  predicate ValidEntry(e: EntrySpec) {
    && e.version >= 2 && |e.flags| == 3 && |e.protection| == 2 && |e.itemType| == 4
    && e.id < Pow256(EntryWidth(e))
  }

  function EntryWidth(e: EntrySpec): nat {
    if e.version == 2 then 2 else 4
  }

  function WriteEntry(e: EntrySpec): Bytes {
    [e.version] + (e.flags + (WriteBe(e.id, EntryWidth(e)) + (e.protection + (e.itemType + e.name))))
  }

  /** What is in `iinf`: entries as above, `infe` boxes of version 0 or 1, which have no item type, and boxes of
      other types. */
  datatype ListChild = Typed(entry: EntrySpec) | Untyped | Foreign

  predicate IsMetadata(c: ListChild) {
    c.Typed? && (c.entry.itemType == EXIF || c.entry.itemType == MIME)
  }

  /** The ids of the Exif and XMP entries. */
  function MetadataIds(children: seq<ListChild>): seq<nat> {
    if children == [] then []
    else (if IsMetadata(children[0]) then [children[0].entry.id] else []) + MetadataIds(children[1..])
  }

  lemma EntryIsRead(b: Bytes, infe: Box, e: EntrySpec)
    requires ValidEntry(e) && infe.typ == INFE && At(b, infe.body, WriteEntry(e))
    ensures ReadEntry(b, infe) == if e.itemType == EXIF || e.itemType == MIME then Metadata(e.id) else Skipped
  {
    var p := infe.body;
    var id := WriteBe(e.id, EntryWidth(e));
    AtParts(b, p, [e.version], e.flags + (id + (e.protection + (e.itemType + e.name))));
    AtParts(b, p + 1, e.flags, id + (e.protection + (e.itemType + e.name)));
    AtParts(b, p + 4, id, e.protection + (e.itemType + e.name));
    AtParts(b, p + 4 + |id|, e.protection, e.itemType + e.name);
    AtParts(b, p + 6 + |id|, e.itemType, e.name);
    AtBe(b, p + 4, e.id, EntryWidth(e));
    assert b[p] == [e.version][0];
    assert b[p + 6 + |id|..p + 10 + |id|] == e.itemType;
    assert At(b, p, WriteEntry(e));
  }

  ghost predicate ChildAt(b: Bytes, infe: Box, c: ListChild) {
    match c
    case Typed(e) => infe.typ == INFE && ValidEntry(e) && At(b, infe.body, WriteEntry(e))
    case Untyped => infe.typ == INFE && infe.body < |b| && b[infe.body] < 2
    case Foreign => infe.typ != INFE
  }

  /** The boxes at `infes` are those children. */
  ghost predicate EntriesAt(b: Bytes, infes: seq<Box>, children: seq<ListChild>) {
    |infes| == |children| && forall i | 0 <= i < |infes| :: ChildAt(b, infes[i], children[i])
  }

  lemma ChildIsRead(b: Bytes, infe: Box, c: ListChild)
    requires ChildAt(b, infe, c)
    ensures ReadEntry(b, infe) == if IsMetadata(c) then Metadata(c.entry.id) else Skipped
  {
    if c.Typed? {
      EntryIsRead(b, infe, c.entry);
    }
  }

  lemma {:induction false} EntriesAreRead(b: Bytes, infes: seq<Box>, children: seq<ListChild>)
    requires EntriesAt(b, infes, children)
    ensures EntryIds(b, infes) == Some(MetadataIds(children))
    decreases |infes|
  {
    if infes != [] {
      ChildIsRead(b, infes[0], children[0]);
      hide ReadEntry, ChildAt, IsMetadata;
      EntriesAreRead(b, infes[1..], children[1..]);
      assert [] + MetadataIds(children[1..]) == MetadataIds(children[1..]);
    }
  }

  /** `reserved` is the nibble that holds the index size in versions 1 and 2 and is reserved in the others. */
  function WriteIlocHead(h: IlocHead, flags: Bytes, reserved: nat): Bytes
    requires ValidHead(h) && reserved < 16
  {
    var low := if HasMethod(h.version) then h.indexSize else reserved;
    ([h.version] + (flags + [h.offSize * 16 + h.lenSize, h.baseSize * 16 + low])) + WriteBe(h.count, IdWidth(h.version))
  }

  lemma IlocHeadIsRead(b: Bytes, p: nat, end: nat, h: IlocHead, flags: Bytes, reserved: nat)
    requires ValidHead(h) && |flags| == 3 && reserved < 16
    requires At(b, p, WriteIlocHead(h, flags, reserved)) && p + |WriteIlocHead(h, flags, reserved)| <= end <= |b|
    ensures ReadIlocHead(b, p, end) == Some(h)
    ensures |WriteIlocHead(h, flags, reserved)| == 6 + IdWidth(h.version)
  {
    var sizes := [h.offSize * 16 + h.lenSize, h.baseSize * 16 + if HasMethod(h.version) then h.indexSize else reserved];
    var count := WriteBe(h.count, IdWidth(h.version));
    AtParts(b, p, [h.version] + (flags + sizes), count);
    AtParts(b, p, [h.version], flags + sizes);
    AtParts(b, p + 1, flags, sizes);
    assert b[p] == [h.version][0] && b[p + 4] == sizes[0] && b[p + 5] == sizes[1];
    AtUint(b, p + 6, end, h.count, IdWidth(h.version));
  }

  /** An `iinf` box with what is in it, and an `iloc` box with its table. */
  datatype ItemList = ItemList(box: Box, infes: seq<BoxSpec>, children: seq<ListChild>)

  datatype ItemTable = ItemTable(box: Box, head: IlocHead, flags: Bytes, reserved: nat, items: seq<ItemSpec>)

  /** A `meta` box in full. */
  datatype MetaSpec = MetaSpec(kids: seq<BoxSpec>, list: Option<ItemList>, table: Option<ItemTable>)

  /** The boxes fill what is left between `o` and `end`, which may be nothing. */
  ghost predicate BoxesFrom(b: Bytes, o: nat, end: nat, specs: seq<BoxSpec>) {
    if o >= end then specs == [] && end <= |b| else BoxesAt(b, o, end, specs)
  }

  ghost predicate ListAt(m: Bytes, l: ItemList) {
    && l.box.body < |m|
    && var first := l.box.body + 4 + (if m[l.box.body] == 0 then 2 else 4);
       BoxesFrom(m, first, l.box.end, l.infes) && EntriesAt(m, Layout(l.infes, first), l.children)
  }

  ghost predicate TableAt(m: Bytes, t: ItemTable) {
    && ValidHead(t.head) && |t.flags| == 3 && t.reserved < 16 && t.head.count == |t.items|
    && (forall i | i in t.items :: ValidItem(t.head, i))
    && At(m, t.box.body, WriteIlocHead(t.head, t.flags, t.reserved) + WriteItems(t.head, t.items))
    && t.box.body + |WriteIlocHead(t.head, t.flags, t.reserved) + WriteItems(t.head, t.items)| <= t.box.end <= |m|
  }

  /** The ids of the metadata items of a `meta` box. */
  function Wanted(s: MetaSpec): seq<nat> {
    if s.list.Some? then MetadataIds(s.list.value.children) else []
  }

  /** The `meta` box `m`, whose body starts at `body`, is as `s` says. Without metadata items its item table does
      not matter. */
  ghost predicate MetaAt(m: Bytes, body: nat, s: MetaSpec) {
    var kids := Layout(s.kids, body + 4);
    && |m| <= META_MAX && BoxesFrom(m, body + 4, |m|, s.kids)
    && FindBox(kids, IINF) == (if s.list.Some? then Some(s.list.value.box) else None)
    && (s.list.Some? ==> ListAt(m, s.list.value))
    && (Wanted(s) != [] ==> s.table.Some? && FindBox(kids, ILOC) == Some(s.table.value.box) && TableAt(m, s.table.value))
  }

  /** What its metadata items stand for. */
  function MetaRanges(s: MetaSpec, fileLen: nat): Option<seq<Range>>
    requires Wanted(s) != [] ==> s.table.Some?
  {
    if Wanted(s) == [] then Some([]) else ItemsRanges(s.table.value.items, Wanted(s), fileLen)
  }

  lemma BoxesFromAreRead(b: Bytes, o: nat, end: nat, specs: seq<BoxSpec>)
    requires BoxesFrom(b, o, end, specs)
    ensures end <= |b| && Children(b, o, end) == Some(Layout(specs, o))
  {
    if o < end {
      BoxesAreRead(b, o, end, specs);
    }
  }

  lemma MetaIdsAreRead(m: Bytes, body: nat, s: MetaSpec)
    requires MetaAt(m, body, s)
    ensures Children(m, body + 4, |m|) == Some(Layout(s.kids, body + 4))
    ensures Inside(Layout(s.kids, body + 4), |m|) && ItemIds(m, Layout(s.kids, body + 4)) == Some(Wanted(s))
  {
    hide At, BoxesFrom, ReadBox, ReadEntry, TableAt, EntriesAt, Layout;
    BoxesFromAreRead(m, body + 4, |m|, s.kids);
    ChildrenInside(m, body + 4, |m|);
    if s.list.Some? {
      var l := s.list.value;
      var first := l.box.body + 4 + (if m[l.box.body] == 0 then 2 else 4);
      BoxesFromAreRead(m, first, l.box.end, l.infes);
      EntriesAreRead(m, Layout(l.infes, first), l.children);
    }
  }

  lemma MetaTableIsRead(m: Bytes, kids: seq<Box>, t: ItemTable, ids: seq<nat>, fileLen: nat)
    requires Inside(kids, |m|) && FindBox(kids, ILOC) == Some(t.box) && TableAt(m, t)
    requires ItemsRanges(t.items, ids, fileLen).Some?
    ensures ItemExtents(m, kids, ids, fileLen) == ItemsRanges(t.items, ids, fileLen)
  {
    hide At, ReadItem, WriteItem, ReadIlocHead, WriteBe, ItemsRanges, ValidItem;
    var p := t.box.body;
    var head, items := WriteIlocHead(t.head, t.flags, t.reserved), WriteItems(t.head, t.items);
    AtParts(m, p, head, items);
    IlocHeadIsRead(m, p, t.box.end, t.head, t.flags, t.reserved);
    ItemsAreRead(m, p + |head|, t.box.end, t.head, t.items, ids, fileLen);
  }

  /** HEIF: the reader finds, in every `meta` box of this form, every extent of every method-0 item that
      `iinf` types as Exif or mime, and no other. */
  lemma MetaItemsAreFound(m: Bytes, body: nat, s: MetaSpec, fileLen: nat)
    requires MetaAt(m, body, s) && MetaRanges(s, fileLen).Some?
    ensures ItemRanges(m, body, fileLen) == MetaRanges(s, fileLen)
  {
    MetaIdsAreRead(m, body, s);
    hide BoxesFrom, Layout, Children, ItemIds, ItemExtents, ItemsRanges, TableAt, ListAt, MetadataIds;
    if Wanted(s) != [] {
      MetaTableIsRead(m, Layout(s.kids, body + 4), s.table.value, Wanted(s), fileLen);
    }
  }

  // --- whole files --------------------------------------------------------------------

  lemma {:induction false} TopIsCollect(b: Bytes, o: nat)
    requires o <= |b| && Children(b, o, |b|).Some?
    ensures forall k | k in Children(b, o, |b|).value :: k.start <= k.body <= k.end <= |b|
    ensures TopRanges(b, o) == Collect(b, Children(b, o, |b|).value)
    decreases |b| - o
  {
    hide BoxRanges;
    if o < |b| {
      TopIsCollect(b, ReadBox(b, o, |b|).value.end);
    }
  }

  lemma {:induction false} AcceptedIsTiled(b: Bytes, o: nat)
    requires o <= |b| && TopRanges(b, o).Some?
    ensures Children(b, o, |b|).Some?
    decreases |b| - o
  {
    hide BoxRanges;
    if o < |b| {
      AcceptedIsTiled(b, ReadBox(b, o, |b|).value.end);
    }
  }

  lemma {:induction false} CollectedInFull(b: Bytes, boxes: seq<Box>, k: Box)
    requires (forall k | k in boxes :: k.start <= k.body <= k.end <= |b|) && Collect(b, boxes).Some? && k in boxes
    ensures BoxRanges(b, k).Some? && forall r | r in BoxRanges(b, k).value :: r in Collect(b, boxes).value
  {
    hide BoxRanges;
    if k != boxes[0] {
      CollectedInFull(b, boxes[1..], k);
    }
  }

  /** When the reader answers for an ISO-BMFF file, the top-level boxes tile the file exactly, every `moov`
      and `meta` box is reported in full, and so are all item ranges found in a `meta` box. */
  lemma AnswerCoversFile(b: Bytes) returns (specs: seq<BoxSpec>)
    requires TopRanges(b, 0).Some?
    ensures BoxesAt(b, 0, |b|, specs)
    ensures forall k | k in Layout(specs, 0) && (k.typ == MOOV || k.typ == META) ::
              Range(k.start, k.end) in TopRanges(b, 0).value
    ensures forall k | k in Layout(specs, 0) && k.typ == META ::
              && k.start <= k.body <= k.end <= |b|
              && ItemRanges(b[k.start..k.end], k.body - k.start, |b|).Some?
              && forall r | r in ItemRanges(b[k.start..k.end], k.body - k.start, |b|).value :: r in TopRanges(b, 0).value
  {
    AcceptedIsTiled(b, 0);
    specs := AcceptedBoxesTile(b, 0, |b|);
    var boxes := Children(b, 0, |b|).value;
    TopIsCollect(b, 0);
    hide ItemRanges, BoxesAt, Collect, TopRanges, Children, Layout;
    forall k | k in boxes && (k.typ == MOOV || k.typ == META)
      ensures Range(k.start, k.end) in TopRanges(b, 0).value
      ensures k.typ == META ==>
                && ItemRanges(b[k.start..k.end], k.body - k.start, |b|).Some?
                && forall r | r in ItemRanges(b[k.start..k.end], k.body - k.start, |b|).value :: r in TopRanges(b, 0).value
    {
      CollectedInFull(b, boxes, k);
      assert MOOV[1] != META[1];
      assert Range(k.start, k.end) in BoxRanges(b, k).value;
    }
  }
}
