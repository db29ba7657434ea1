/** The converse of `MediaFormats`: whatever bytes the reader accepts have one of the written forms, and the answer
    is what that form stands for. */
module MediaAcceptance {
  import opened LibraryStore
  import opened MetadataRanges
  import opened MediaFormats

  // --- numbers ---------------------------------------------------------------------

  lemma {:induction false} WritesBack(s: Bytes)
    ensures Be(s) < Pow256(|s|) && WriteBe(Be(s), |s|) == s
    decreases |s|
  {
    if s != [] {
      var init, last := s[..|s| - 1], s[|s| - 1];
      WritesBack(init);
      assert Be(s) / 256 == Be(init) && Be(s) % 256 == last;
      assert s == init + [last];
    }
  }

  lemma SliceStands(b: Bytes, p: nat, q: nat)
    requires p <= q <= |b|
    ensures At(b, p, b[p..q])
  {
  }

  lemma AtJoin(b: Bytes, p: nat, s: Bytes, t: Bytes)
    requires At(b, p, s) && At(b, p + |s|, t)
    ensures At(b, p, s + t)
  {
    forall i | 0 <= i < |s + t|
      ensures b[p + i] == (s + t)[i]
    {
      assert i >= |s| ==> b[p + |s| + (i - |s|)] == t[i - |s|];
    }
  }

  lemma NumberStands(b: Bytes, p: nat, n: nat)
    requires p + n <= |b|
    ensures Be(b[p..p + n]) < Pow256(n) && At(b, p, WriteBe(Be(b[p..p + n]), n))
  {
    hide *;
    WritesBack(b[p..p + n]);
    SliceStands(b, p, p + n);
  }

  lemma UintStands(b: Bytes, p: nat, end: nat, n: nat)
    requires end <= |b| && UintAt(b, p, end, n).Some?
    ensures n <= 8 && p + n <= end && UintAt(b, p, end, n).value < Pow256(n)
    ensures At(b, p, WriteBe(UintAt(b, p, end, n).value, n))
  {
    hide At, WriteBe, Be, Pow256;
    NumberStands(b, p, n);
  }

  lemma ByteStands(b: Bytes, p: nat)
    requires p < |b|
    ensures At(b, p, [b[p]])
  {
  }

  // --- JPEG --------------------------------------------------------------------------

  /** Whatever the marker loop accepts is a list of segments up to a stop. */
  lemma {:induction false} AcceptedSegments(b: Bytes, o: nat, end: nat) returns (segments: seq<Segment>)
    requires o <= |b| && AppEnd(b, o, end).Some?
    ensures forall s | s in segments :: ValidSegment(s)
    ensures At(b, o, WriteSegments(segments)) && AtStop(b, o + |WriteSegments(segments)|)
    ensures AppEnd(b, o, end) == Some(LastAppEnd(segments, o, end))
    decreases |b| - o
  {
    hide At, AtStop, WriteSegments, LastAppEnd;
    if o + 4 > |b| || StopsJpeg(b[o + 1]) {
      StopsHere(b, o);
      NoSegments(b, o, end);
      segments := [];
    } else if b[o + 1] == 0xFF {
      var rest := AcceptedSegments(b, o + 1, end);
      segments := OneMoreFill(b, o, end, rest);
    } else {
      var next := o + 2 + U16(b, o + 2);
      var app := if IsApp(b[o + 1]) then next else end;
      var rest := AcceptedSegments(b, next, app);
      segments := OneMoreSegment(b, o, end, rest);
    }
  }

  lemma StopsHere(b: Bytes, o: nat)
    requires o <= |b| && (o + 4 <= |b| ==> b[o] == 0xFF && StopsJpeg(b[o + 1]))
    ensures AtStop(b, o)
  {
    assert StopsAfter(b, o, 0);
  }

  lemma NoSegments(b: Bytes, o: nat, end: nat)
    requires o <= |b|
    ensures WriteSegments([]) == [] && At(b, o, []) && LastAppEnd([], o, end) == end && o + |WriteSegments([])| == o
  {
  }

  lemma OneMoreFill(b: Bytes, o: nat, end: nat, rest: seq<Segment>) returns (segments: seq<Segment>)
    requires o + 4 <= |b| && b[o] == b[o + 1] == 0xFF
    requires forall s | s in rest :: ValidSegment(s)
    requires At(b, o + 1, WriteSegments(rest)) && AtStop(b, o + 1 + |WriteSegments(rest)|)
    ensures forall s | s in segments :: ValidSegment(s)
    ensures At(b, o, WriteSegments(segments)) && AtStop(b, o + |WriteSegments(segments)|)
    ensures LastAppEnd(segments, o, end) == LastAppEnd(rest, o + 1, end)
  {
    if rest == [] {
      var n: nat :| StopsAfter(b, o + 1, n);
      assert StopsAfter(b, o, n + 1);
      segments := [];
    } else {
      var first := rest[0].(fill := rest[0].fill + 1);
      segments := [first] + rest[1..];
      hide AtStop, ValidSegment, StopsJpeg, IsApp;
      FillInFront(rest[0]);
      assert segments[1..] == rest[1..];
      assert WriteSegments(segments) == [0xFF] + WriteSegments(rest);
      AtJoin(b, o, [0xFF], WriteSegments(rest));
    }
  }

  lemma FillInFront(s: Segment)
    requires ValidSegment(s)
    ensures ValidSegment(s.(fill := s.fill + 1)) && WriteSegment(s.(fill := s.fill + 1)) == [0xFF] + WriteSegment(s)
  {
    assert Fill(s.fill + 1) == [0xFF] + Fill(s.fill);
  }

  lemma OneMoreSegment(b: Bytes, o: nat, end: nat, rest: seq<Segment>) returns (segments: seq<Segment>)
    requires o + 4 <= |b| && b[o] == 0xFF && b[o + 1] != 0xFF && !StopsJpeg(b[o + 1])
    requires 2 <= U16(b, o + 2) && o + 2 + U16(b, o + 2) <= |b|
    requires forall s | s in rest :: ValidSegment(s)
    requires var next := o + 2 + U16(b, o + 2); At(b, next, WriteSegments(rest)) && AtStop(b, next + |WriteSegments(rest)|)
    ensures forall s | s in segments :: ValidSegment(s)
    ensures At(b, o, WriteSegments(segments)) && AtStop(b, o + |WriteSegments(segments)|)
    ensures var next := o + 2 + U16(b, o + 2);
            LastAppEnd(segments, o, end) == LastAppEnd(rest, next, if IsApp(b[o + 1]) then next else end)
  {
    var first := Segment(0, b[o + 1], b[o + 4..o + 2 + U16(b, o + 2)]);
    SegmentStands(b, o);
    hide AtStop, ValidSegment, StopsJpeg, IsApp, WriteSegment;
    segments := [first] + rest;
    assert segments[1..] == rest;
    assert WriteSegments(segments) == WriteSegment(first) + WriteSegments(rest);
    AtJoin(b, o, WriteSegment(first), WriteSegments(rest));
  }

  lemma SegmentStands(b: Bytes, o: nat)
    requires o + 4 <= |b| && b[o] == 0xFF && b[o + 1] != 0xFF && !StopsJpeg(b[o + 1])
    requires 2 <= U16(b, o + 2) && o + 2 + U16(b, o + 2) <= |b|
    ensures var first := Segment(0, b[o + 1], b[o + 4..o + 2 + U16(b, o + 2)]);
            && ValidSegment(first) && At(b, o, WriteSegment(first)) && |WriteSegment(first)| == 2 + U16(b, o + 2)
  {
    var first := Segment(0, b[o + 1], b[o + 4..o + 2 + U16(b, o + 2)]);
    assert Fill(0) == [];
    assert Length(first) == [b[o + 2], b[o + 3]];
    assert WriteSegment(first) == b[o..o + 2 + U16(b, o + 2)];
    SliceStands(b, o, o + 2 + U16(b, o + 2));
  }

  // --- item entries ------------------------------------------------------------------------

  lemma AcceptedChild(b: Bytes, infe: Box) returns (c: ListChild)
    requires ReadEntry(b, infe) != Unreadable
    ensures ChildAt(b, infe, c)
  {
    if infe.typ != INFE {
      c := ListChild.Foreign;
    } else if b[infe.body] < 2 {
      c := Untyped;
    } else {
      var e := EntryStands(b, infe);
      c := Typed(e);
    }
  }

  lemma EntryStands(b: Bytes, infe: Box) returns (e: EntrySpec)
    requires infe.typ == INFE && ReadEntry(b, infe) != Unreadable && infe.body < |b| && b[infe.body] >= 2
    ensures ValidEntry(e) && At(b, infe.body, WriteEntry(e))
  {
    var p := infe.body;
    var w := if b[p] == 2 then 2 else 4;
    var q := p + 4 + w;
    e := EntrySpec(b[p], b[p + 1..p + 4], Be(b[p + 4..q]), b[q..q + 2], b[q + 2..q + 6], []);
    hide Be, WriteBe, Pow256, ReadEntry, At;
    NumberStands(b, p + 4, w);
    ByteStands(b, p);
    SliceStands(b, p + 1, p + 4);
    SliceStands(b, q, q + 2);
    SliceStands(b, q + 2, q + 6);
    NothingStands(b, q + 6);
    var id := WriteBe(e.id, w);
    AtJoin(b, q + 2, e.itemType, []);
    AtJoin(b, q, e.protection, e.itemType + []);
    AtJoin(b, p + 4, id, e.protection + (e.itemType + []));
    AtJoin(b, p + 1, e.flags, id + (e.protection + (e.itemType + [])));
    AtJoin(b, p, [b[p]], e.flags + (id + (e.protection + (e.itemType + []))));
  }

  lemma NothingStands(b: Bytes, p: nat)
    requires p <= |b|
    ensures At(b, p, [])
  {
  }

  /** Whatever list of entries is accepted is one of entries and of boxes that are skipped. */
  lemma {:induction false} AcceptedEntries(b: Bytes, infes: seq<Box>) returns (children: seq<ListChild>)
    requires EntryIds(b, infes).Some?
    ensures EntriesAt(b, infes, children)
    decreases |infes|
  {
    hide ReadEntry, ChildAt;
    if infes == [] {
      children := [];
    } else {
      var first := AcceptedChild(b, infes[0]);
      var rest := AcceptedEntries(b, infes[1..]);
      children := [first] + rest;
      forall i | 0 <= i < |infes|
        ensures ChildAt(b, infes[i], children[i])
      {
        assert i > 0 ==> ChildAt(b, infes[1..][i - 1], rest[i - 1]);
      }
    }
  }

  // --- item table ----------------------------------------------------------------------------

  lemma AcceptedHead(b: Bytes, p: nat, end: nat) returns (flags: Bytes, reserved: nat)
    requires end <= |b| && ReadIlocHead(b, p, end).Some?
    ensures var h := ReadIlocHead(b, p, end).value;
            && ValidHead(h) && |flags| == 3 && reserved < 16
            && At(b, p, WriteIlocHead(h, flags, reserved)) && |WriteIlocHead(h, flags, reserved)| == 6 + IdWidth(h.version)
            && p + 6 + IdWidth(h.version) <= end
  {
    var h := ReadIlocHead(b, p, end).value;
    flags, reserved := b[p + 1..p + 4], b[p + 5] % 16;
    var w := IdWidth(h.version);
    assert UintAt(b, p + 6, end, w) == Some(h.count) && h.version == b[p];
    assert h.offSize * 16 + h.lenSize == b[p + 4];
    assert h.baseSize * 16 + (if HasMethod(h.version) then h.indexSize else reserved) == b[p + 5];
    hide WriteBe, Pow256, ReadIlocHead, At, UintAt;
    UintStands(b, p + 6, end, w);
    ByteStands(b, p);
    SliceStands(b, p + 1, p + 4);
    ByteStands(b, p + 4);
    ByteStands(b, p + 5);
    AtJoin(b, p + 4, [b[p + 4]], [b[p + 5]]);
    var sizes := [b[p + 4], b[p + 5]];
    assert [b[p + 4]] + [b[p + 5]] == sizes;
    AtJoin(b, p + 1, flags, sizes);
    AtJoin(b, p, [b[p]], flags + sizes);
    AtJoin(b, p, [b[p]] + (flags + sizes), WriteBe(h.count, w));
  }

  lemma AcceptedExtent(b: Bytes, p: nat, end: nat, h: IlocHead) returns (e: ExtentSpec)
    requires end <= |b| && ReadExtent(b, p, end, h).Some?
    ensures ValidExtent(h, e) && At(b, p, WriteExtent(h, e)) && p + ExtentSize(h) <= end
    ensures ReadExtent(b, p, end, h) == Some((e.off, e.len))
  {
    var q := p + h.indexSize;
    var r := q + h.offSize;
    e := ExtentSpec(UintAt(b, p, end, h.indexSize).value, UintAt(b, q, end, h.offSize).value, UintAt(b, r, end, h.lenSize).value);
    hide At, WriteBe, UintAt, Pow256;
    UintStands(b, p, end, h.indexSize);
    UintStands(b, q, end, h.offSize);
    UintStands(b, r, end, h.lenSize);
    AtJoin(b, q, WriteBe(e.off, h.offSize), WriteBe(e.len, h.lenSize));
    AtJoin(b, p, WriteBe(e.index, h.indexSize), WriteBe(e.off, h.offSize) + WriteBe(e.len, h.lenSize));
  }

  lemma {:induction false} AcceptedExtents(b: Bytes, p: nat, end: nat, h: IlocHead, base: nat, count: nat, wanted: bool,
                                           fileLen: nat) returns (extents: seq<ExtentSpec>)
    requires p <= end <= |b| && Extents(b, p, end, h, base, count, wanted, fileLen).Some?
    ensures |extents| == count && forall e | e in extents :: ValidExtent(h, e)
    ensures At(b, p, WriteExtents(h, extents)) && p + |WriteExtents(h, extents)| <= end
    ensures Extents(b, p, end, h, base, count, wanted, fileLen).value.1 == p + |WriteExtents(h, extents)|
    ensures wanted ==> ExtentRanges(base, extents, fileLen).Some?
    decreases count
  {
    hide At, ReadExtent, ValidExtent, WriteExtent, ExtentRange;
    if count == 0 {
      extents := [];
      SliceStands(b, p, p);
    } else {
      var first := AcceptedExtent(b, p, end, h);
      var rest := AcceptedExtents(b, p + ExtentSize(h), end, h, base, count - 1, wanted, fileLen);
      extents := [first] + rest;
      assert extents[1..] == rest;
      AtJoin(b, p, WriteExtent(h, first), WriteExtents(h, rest));
    }
  }

  /** The numbers in an accepted item head. */
  lemma ItemHeadNumbers(b: Bytes, p: nat, end: nat, h: IlocHead)
    requires end <= |b| && ReadItemHead(b, p, end, h).Some?
    ensures var head := ReadItemHead(b, p, end, h).value;
            var w := IdWidth(h.version);
            var s := p + w + if HasMethod(h.version) then 2 else 0;
            && UintAt(b, p, end, w) == Some(head.id)
            && UintAt(b, p + w, end, if HasMethod(h.version) then 2 else 0).Some?
            && UintAt(b, p + w, end, if HasMethod(h.version) then 2 else 0).value % 16 == head.construction
            && (!HasMethod(h.version) ==> UintAt(b, p + w, end, 0) == Some(0))
            && UintAt(b, s, end, 2).Some?
            && UintAt(b, s + 2, end, h.baseSize) == Some(head.base)
            && UintAt(b, s + 2 + h.baseSize, end, 2) == Some(head.extents)
            && head.next == s + 2 + h.baseSize + 2
  {
  }

  lemma ItemHeadStands(b: Bytes, p: nat, end: nat, h: IlocHead, i: ItemSpec)
    requires end <= |b| && (!HasMethod(h.version) ==> i.construction == 0)
    requires var w := IdWidth(h.version);
             var c := if HasMethod(h.version) then 2 else 0;
             var s := p + w + c;
             && UintAt(b, p, end, w) == Some(i.id) && UintAt(b, p + w, end, c) == Some(i.construction)
             && UintAt(b, s, end, 2) == Some(i.reference) && UintAt(b, s + 2, end, h.baseSize) == Some(i.base)
             && UintAt(b, s + 2 + h.baseSize, end, 2) == Some(|i.extents|)
    ensures At(b, p, WriteItemHead(h, i)) && p + |WriteItemHead(h, i)| <= end
    ensures |WriteItemHead(h, i)| == IdWidth(h.version) + (if HasMethod(h.version) then 2 else 0) + 2 + h.baseSize + 2
    ensures h.baseSize <= 8 && i.id < Pow256(IdWidth(h.version)) && i.construction < Pow256(2)
    ensures i.reference < Pow256(2) && i.base < Pow256(h.baseSize) && |i.extents| < Pow256(2)
  {
    var w := IdWidth(h.version);
    var c := if HasMethod(h.version) then 2 else 0;
    var s := p + w + c;
    assert Pow256(2) > 0;
    hide At, WriteBe, UintAt, Pow256;
    UintStands(b, p, end, w);
    UintStands(b, p + w, end, c);
    UintStands(b, s, end, 2);
    UintStands(b, s + 2, end, h.baseSize);
    UintStands(b, s + 2 + h.baseSize, end, 2);
    var (id, construction, reference) := (WriteBe(i.id, w), WriteBe(i.construction, c), WriteBe(i.reference, 2));
    var (base, count) := (WriteBe(i.base, h.baseSize), WriteBe(|i.extents|, 2));
    AtJoin(b, s + 2, base, count);
    AtJoin(b, s, reference, base + count);
    AtJoin(b, p + w, construction, reference + (base + count));
    AtJoin(b, p, id, construction + (reference + (base + count)));
    assert !HasMethod(h.version) ==> construction == [];
  }

  lemma AcceptedItemHead(b: Bytes, p: nat, end: nat, h: IlocHead, extents: seq<ExtentSpec>) returns (i: ItemSpec)
    requires end <= |b| && ReadItemHead(b, p, end, h).Some? && |extents| == ReadItemHead(b, p, end, h).value.extents
    requires forall e | e in extents :: ValidExtent(h, e)
    ensures ValidItem(h, i) && i.extents == extents
    ensures At(b, p, WriteItemHead(h, i)) && p + |WriteItemHead(h, i)| <= end
    ensures ReadItemHead(b, p, end, h)
            == Some(ItemHead(i.id, i.construction % 16, i.base, |i.extents|, p + |WriteItemHead(h, i)|))
  {
    hide At, UintAt, Pow256, ValidExtent, ReadItemHead, WriteItemHead;
    ItemHeadNumbers(b, p, end, h);
    var head := ReadItemHead(b, p, end, h).value;
    var w := IdWidth(h.version);
    var c := if HasMethod(h.version) then 2 else 0;
    i := ItemSpec(head.id, UintAt(b, p + w, end, c).value, UintAt(b, p + w + c, end, 2).value, head.base, extents);
    ItemHeadStands(b, p, end, h, i);
  }

  lemma AcceptedItem(b: Bytes, p: nat, end: nat, h: IlocHead, ids: seq<nat>, fileLen: nat) returns (i: ItemSpec)
    requires p <= end <= |b| && ReadItem(b, p, end, h, ids, fileLen).Some?
    ensures ValidItem(h, i) && At(b, p, WriteItem(h, i)) && p + |WriteItem(h, i)| <= end
    ensures ReadItem(b, p, end, h, ids, fileLen).value.1 == p + |WriteItem(h, i)|
    ensures ItemsRanges([i], ids, fileLen).Some?
  {
    hide At, ReadItemHead, WriteItemHead, ValidExtent, WriteExtents, ExtentRange, ValidItem;
    var head := ReadItemHead(b, p, end, h).value;
    ItemHeadEnds(b, p, end, h);
    var wanted := head.id in ids && head.construction == 0;
    var extents := AcceptedExtents(b, head.next, end, h, head.base, head.extents, wanted, fileLen);
    i := AcceptedItemHead(b, p, end, h, extents);
    AtJoin(b, p, WriteItemHead(h, i), WriteExtents(h, i.extents));
  }

  lemma ItemHeadEnds(b: Bytes, p: nat, end: nat, h: IlocHead)
    requires end <= |b| && ReadItemHead(b, p, end, h).Some?
    ensures p <= ReadItemHead(b, p, end, h).value.next <= end
  {
  }

  lemma {:induction false} AcceptedItems(b: Bytes, p: nat, end: nat, h: IlocHead, count: nat, ids: seq<nat>, fileLen: nat)
      returns (items: seq<ItemSpec>)
    requires p <= end <= |b| && Items(b, p, end, h, count, ids, fileLen).Some?
    ensures |items| == count && forall i | i in items :: ValidItem(h, i)
    ensures At(b, p, WriteItems(h, items)) && p + |WriteItems(h, items)| <= end
    ensures ItemsRanges(items, ids, fileLen).Some?
    decreases count
  {
    hide At, ReadItem, ValidItem, WriteItem, ExtentRanges;
    if count == 0 {
      items := [];
      SliceStands(b, p, p);
    } else {
      var first := AcceptedItem(b, p, end, h, ids, fileLen);
      var rest := AcceptedItems(b, p + |WriteItem(h, first)|, end, h, count - 1, ids, fileLen);
      items := [first] + rest;
      assert items[1..] == rest;
      AtJoin(b, p, WriteItem(h, first), WriteItems(h, rest));
      FirstItemRanges(first, rest, ids, fileLen);
    }
  }

  lemma FirstItemRanges(first: ItemSpec, rest: seq<ItemSpec>, ids: seq<nat>, fileLen: nat)
    requires ItemsRanges([first], ids, fileLen).Some? && ItemsRanges(rest, ids, fileLen).Some?
    ensures ItemsRanges([first] + rest, ids, fileLen).Some?
  {
    assert ([first] + rest)[1..] == rest;
  }

  // --- meta boxes --------------------------------------------------------------------------------

  lemma AcceptedBoxesFrom(b: Bytes, o: nat, end: nat) returns (specs: seq<BoxSpec>)
    requires end <= |b| && Children(b, o, end).Some?
    ensures BoxesFrom(b, o, end, specs) && Layout(specs, o) == Children(b, o, end).value
  {
    if o < end {
      specs := AcceptedBoxesTile(b, o, end);
    } else {
      specs := [];
    }
  }

  lemma AcceptedList(m: Bytes, kids: seq<Box>) returns (l: ItemList)
    requires Inside(kids, |m|) && FindBox(kids, IINF).Some? && ItemIds(m, kids).Some?
    ensures FindBox(kids, IINF) == Some(l.box) && ListAt(m, l) && ItemIds(m, kids) == Some(MetadataIds(l.children))
  {
    FoundBoxIsInside(kids, IINF, |m|);
    var box := FindBox(kids, IINF).value;
    var first := box.body + 4 + (if m[box.body] == 0 then 2 else 4);
    hide BoxesFrom, Layout, EntriesAt, Children, EntryIds;
    var infes := AcceptedBoxesFrom(m, first, box.end);
    var children := AcceptedEntries(m, Layout(infes, first));
    EntriesAreRead(m, Layout(infes, first), children);
    l := ItemList(box, infes, children);
  }

  lemma AcceptedTable(m: Bytes, kids: seq<Box>, ids: seq<nat>, fileLen: nat) returns (t: ItemTable)
    requires Inside(kids, |m|) && ItemExtents(m, kids, ids, fileLen).Some?
    ensures FindBox(kids, ILOC) == Some(t.box) && TableAt(m, t) && ItemsRanges(t.items, ids, fileLen).Some?
  {
    hide At, ReadIlocHead, WriteIlocHead, WriteItems, Items, ItemsRanges, ValidHead, ValidItem, FindBox;
    FoundBoxIsInside(kids, ILOC, |m|);
    var box := FindBox(kids, ILOC).value;
    t := TableStands(m, box, ids, fileLen);
  }

  lemma TableStands(m: Bytes, box: Box, ids: seq<nat>, fileLen: nat) returns (t: ItemTable)
    requires box.end <= |m| && ReadIlocHead(m, box.body, box.end).Some?
    requires var h := ReadIlocHead(m, box.body, box.end).value;
             Items(m, box.body + 6 + IdWidth(h.version), box.end, h, h.count, ids, fileLen).Some?
    ensures t.box == box && TableAt(m, t) && ItemsRanges(t.items, ids, fileLen).Some?
  {
    hide At, ReadIlocHead, WriteIlocHead, WriteItems, Items, ItemsRanges, ValidHead, ValidItem;
    var h := ReadIlocHead(m, box.body, box.end).value;
    var flags, reserved := AcceptedHead(m, box.body, box.end);
    var items := AcceptedItems(m, box.body + 6 + IdWidth(h.version), box.end, h, h.count, ids, fileLen);
    AtJoin(m, box.body, WriteIlocHead(h, flags, reserved), WriteItems(h, items));
    t := ItemTable(box, h, flags, reserved, items);
  }

  /** Whatever `meta` box the reader accepts is one of the described form, and what it reports is what the item
      tables in it stand for. */
  lemma AcceptedMeta(m: Bytes, body: nat, fileLen: nat) returns (s: MetaSpec)
    requires ItemRanges(m, body, fileLen).Some?
    ensures MetaAt(m, body, s) && ItemRanges(m, body, fileLen) == MetaRanges(s, fileLen)
    ensures Wanted(s) != [] ==> s.table.Some?
  {
    hide ListAt, TableAt, ItemsRanges, Layout, MetaExtents, MetadataIds, BoxesFrom, Children;
    ChildrenInside(m, body + 4, |m|);
    var kids := Children(m, body + 4, |m|).value;
    var specs := AcceptedBoxesFrom(m, body + 4, |m|);
    s := AcceptedTables(m, kids, fileLen, specs);
    MetaItemsAreFound(m, body, s, fileLen);
  }

  lemma AcceptedTables(m: Bytes, kids: seq<Box>, fileLen: nat, specs: seq<BoxSpec>) returns (s: MetaSpec)
    requires Inside(kids, |m|) && MetaExtents(m, kids, fileLen).Some?
    ensures s.kids == specs
    ensures FindBox(kids, IINF) == (if s.list.Some? then Some(s.list.value.box) else None)
    ensures s.list.Some? ==> ListAt(m, s.list.value)
    ensures Wanted(s) != [] ==> s.table.Some? && FindBox(kids, ILOC) == Some(s.table.value.box) && TableAt(m, s.table.value)
    ensures MetaRanges(s, fileLen).Some?
  {
    hide ListAt, TableAt, ItemExtents, ItemsRanges, FindBox;
    s := MetaSpec(specs, None, None);
    if FindBox(kids, IINF).Some? {
      var l := AcceptedList(m, kids);
      hide ItemIds, MetadataIds;
      s := MetaSpec(specs, Some(l), None);
      if Wanted(s) != [] {
        var t := AcceptedTable(m, kids, Wanted(s), fileLen);
        s := MetaSpec(specs, Some(l), Some(t));
      }
    }
  }

  // --- every extent is reported --------------------------------------------------------------------

  lemma {:induction false} TypedIsWanted(children: seq<ListChild>, c: ListChild)
    requires c in children && IsMetadata(c)
    ensures c.entry.id in MetadataIds(children)
    decreases |children|
  {
    if c != children[0] {
      TypedIsWanted(children[1..], c);
    }
  }

  lemma {:induction false} ExtentIsListed(base: nat, extents: seq<ExtentSpec>, fileLen: nat, e: ExtentSpec)
    requires ExtentRanges(base, extents, fileLen).Some? && e in extents
    ensures ExtentRange(base, e.off, e.len, fileLen).Some?
    ensures ExtentRange(base, e.off, e.len, fileLen).value in ExtentRanges(base, extents, fileLen).value
    decreases |extents|
  {
    if e != extents[0] {
      ExtentIsListed(base, extents[1..], fileLen, e);
    }
  }

  lemma {:induction false} ItemIsListed(items: seq<ItemSpec>, ids: seq<nat>, fileLen: nat, i: ItemSpec, e: ExtentSpec)
    requires ItemsRanges(items, ids, fileLen).Some? && i in items && i.id in ids && i.construction % 16 == 0 && e in i.extents
    ensures ExtentRange(i.base, e.off, e.len, fileLen).Some?
    ensures ExtentRange(i.base, e.off, e.len, fileLen).value in ItemsRanges(items, ids, fileLen).value
    decreases |items|
  {
    hide ExtentRange, ExtentRanges;
    if i == items[0] {
      ExtentIsListed(i.base, i.extents, fileLen, e);
    } else {
      ItemIsListed(items[1..], ids, fileLen, i, e);
    }
  }

  /** Every extent of every item of the table that is stored in the file and that the list types as Exif or mime
      is in the answer. */
  ghost predicate AllReported(s: MetaSpec, fileLen: nat, answer: seq<Range>) {
    s.list.Some? ==>
      forall c | c in s.list.value.children && IsMetadata(c) ::
        && s.table.Some?
        && forall i, e | i in s.table.value.items && i.id == c.entry.id && i.construction % 16 == 0 && e in i.extents ::
             ExtentRange(i.base, e.off, e.len, fileLen).Some? && ExtentRange(i.base, e.off, e.len, fileLen).value in answer
  }

  lemma MetaIsReported(s: MetaSpec, fileLen: nat, answer: seq<Range>)
    requires Wanted(s) != [] ==> s.table.Some?
    requires MetaRanges(s, fileLen).Some? && forall r | r in MetaRanges(s, fileLen).value :: r in answer
    ensures AllReported(s, fileLen, answer)
  {
    if s.list.Some? {
      forall c | c in s.list.value.children && IsMetadata(c)
        ensures s.table.Some?
        ensures forall i, e | i in s.table.value.items && i.id == c.entry.id && i.construction % 16 == 0 && e in i.extents ::
                  ExtentRange(i.base, e.off, e.len, fileLen).Some? && ExtentRange(i.base, e.off, e.len, fileLen).value in answer
      {
        TypedIsWanted(s.list.value.children, c);
        hide ExtentRange, ItemsRanges, MetadataIds;
        forall i, e | i in s.table.value.items && i.id == c.entry.id && i.construction % 16 == 0 && e in i.extents
          ensures ExtentRange(i.base, e.off, e.len, fileLen).Some? && ExtentRange(i.base, e.off, e.len, fileLen).value in answer
        {
          ItemIsListed(s.table.value.items, Wanted(s), fileLen, i, e);
        }
      }
    }
  }

  /** On any bytes: when the reader answers for an ISO-BMFF file, boxes tile the file, every `moov` and `meta` box
      is reported in full, and every `meta` box has the described form, with every extent of every method-0 item
      that its list types as Exif or mime in the answer. */
  lemma AnswerReportsEverything(b: Bytes) returns (specs: seq<BoxSpec>)
    requires TopRanges(b, 0).Some?
    ensures BoxesAt(b, 0, |b|, specs)
    ensures forall k | k in Layout(specs, 0) && (k.typ == MOOV || k.typ == META) ::
              Range(k.start, k.end) in TopRanges(b, 0).value
    ensures forall k | k in Layout(specs, 0) && k.typ == META ::
              && k.start <= k.body <= k.end <= |b|
              && exists s :: MetaAt(b[k.start..k.end], k.body - k.start, s) && AllReported(s, |b|, TopRanges(b, 0).value)
  {
    hide *;
    specs := AnswerCoversFile(b);
    forall k | k in Layout(specs, 0) && k.typ == META
      ensures k.start <= k.body <= k.end <= |b|
      ensures exists s :: MetaAt(b[k.start..k.end], k.body - k.start, s) && AllReported(s, |b|, TopRanges(b, 0).value)
    {
      var s := MetaReports(b[k.start..k.end], k.body - k.start, |b|, TopRanges(b, 0).value);
    }
  }

  lemma MetaReports(m: Bytes, body: nat, fileLen: nat, answer: seq<Range>) returns (s: MetaSpec)
    requires ItemRanges(m, body, fileLen).Some? && forall r | r in ItemRanges(m, body, fileLen).value :: r in answer
    ensures MetaAt(m, body, s) && AllReported(s, fileLen, answer)
  {
    hide *;
    s := AcceptedMeta(m, body, fileLen);
    MetaHasTable(m, body, s);
    MetaIsReported(s, fileLen, answer);
  }

  lemma MetaHasTable(m: Bytes, body: nat, s: MetaSpec)
    requires MetaAt(m, body, s)
    ensures Wanted(s) != [] ==> s.table.Some?
  {
  }

  /** For JPEG, on any bytes: the reader answers exactly when the header is a list of segments up to a stop, and
      then with the end of the last application segment. */
  lemma JpegAnswersExactlyWhen(b: Bytes, o: nat, end: nat)
    requires o <= |b|
    ensures AppEnd(b, o, end).Some?
            <==> exists segments :: (forall s | s in segments :: ValidSegment(s))
                                    && At(b, o, WriteSegments(segments)) && AtStop(b, o + |WriteSegments(segments)|)
    ensures forall segments | (forall s | s in segments :: ValidSegment(s))
                              && At(b, o, WriteSegments(segments)) && AtStop(b, o + |WriteSegments(segments)|) ::
              AppEnd(b, o, end) == Some(LastAppEnd(segments, o, end))
  {
    hide At, AtStop, WriteSegments, AppEnd, LastAppEnd, ValidSegment;
    forall segments | (forall s | s in segments :: ValidSegment(s))
                      && At(b, o, WriteSegments(segments)) && AtStop(b, o + |WriteSegments(segments)|)
      ensures AppEnd(b, o, end) == Some(LastAppEnd(segments, o, end))
    {
      JpegRangeEndsAtLastApp(b, o, end, segments);
    }
    if AppEnd(b, o, end).Some? {
      var segments := AcceptedSegments(b, o, end);
    }
  }
}
