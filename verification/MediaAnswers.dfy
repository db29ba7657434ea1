/** What the program answers for a whole file, on any bytes: exactly when it has an answer, and exactly which ranges
    are in it. */
module MediaAnswers {
  import opened LibraryStore
  import opened MetadataRanges
  import opened MediaFormats
  import opened MediaAcceptance

  // --- JPEG ------------------------------------------------------------------------------

  predicate StartsLikeJpeg(file: Bytes) {
    |file| >= 2 && file[0] == 0xFF && file[1] == 0xD8
  }

  /** The first four mebibytes, or the whole file if it is shorter. */
  function Head(file: Bytes): Bytes {
    if |file| <= 4_194_304 then file else file[..4_194_304]
  }

  /** Behind the first two bytes: segments, and then the end of the header. */
  ghost predicate Header(head: Bytes, segments: seq<Segment>) {
    && (forall s | s in segments :: ValidSegment(s))
    && At(head, 2, WriteSegments(segments)) && AtStop(head, 2 + |WriteSegments(segments)|)
  }

  /** A file that starts like a JPEG has an answer if and only if its head is a list of segments up to a stop; then it
      is one range, from the start to the end of the last application segment. */
  lemma JpegFileAnswersExactlyWhen(file: Bytes)
    requires StartsLikeJpeg(file)
    ensures Ranges(file).Some? <==> exists segments :: Header(Head(file), segments)
    ensures forall segments | Header(Head(file), segments) :: Ranges(file) == Some([Range(0, LastAppEnd(segments, 2, 2))])
  {
    var head := Head(file);
    assert Min(|file|, JPEG_HEAD) == |head| && file[..|head|] == head;
    JpegAnswersExactlyWhen(head, 2, 2);
    hide At, AtStop, WriteSegments, LastAppEnd, AppEnd, ValidSegment, Head;
    if Ranges(file).Some? {
      var segments :| (forall s | s in segments :: ValidSegment(s))
                      && At(head, 2, WriteSegments(segments)) && AtStop(head, 2 + |WriteSegments(segments)|);
      assert Header(head, segments);
    }
  }

  // --- ISO-BMFF ------------------------------------------------------------------------------

  /** The first box is `ftyp`, and there is something behind its head. */
  predicate StartsLikeIso(file: Bytes) {
    |file| >= 12 && file[4..8] == [0x66, 0x74, 0x79, 0x70] && !StartsLikeJpeg(file)
  }

  /** The `meta` box `m` has these tables, and they say where its metadata items are. */
  ghost predicate Says(m: Bytes, body: nat, fileLen: nat, s: MetaSpec) {
    MetaAt(m, body, s) && MetaRanges(s, fileLen).Some?
  }

  ghost predicate Speaks(m: Bytes, body: nat, fileLen: nat) {
    exists s :: Says(m, body, fileLen, s)
  }

  /** One of the ranges that its tables give. */
  ghost predicate Names(m: Bytes, body: nat, fileLen: nat, r: Range) {
    exists s :: Says(m, body, fileLen, s) && r in MetaRanges(s, fileLen).value
  }

  lemma SaidIsRead(m: Bytes, body: nat, fileLen: nat, s: MetaSpec)
    requires Says(m, body, fileLen, s)
    ensures ItemRanges(m, body, fileLen) == MetaRanges(s, fileLen)
  {
    hide MetaRanges, ItemRanges;
    MetaItemsAreFound(m, body, s, fileLen);
  }

  lemma MetaIsReadExactlyWhen(m: Bytes, body: nat, fileLen: nat)
    ensures ItemRanges(m, body, fileLen).Some? <==> Speaks(m, body, fileLen)
    ensures forall s | Says(m, body, fileLen, s) :: ItemRanges(m, body, fileLen) == MetaRanges(s, fileLen)
  {
    hide MetaRanges, ItemRanges;
    if ItemRanges(m, body, fileLen).Some? {
      var s := AcceptedMeta(m, body, fileLen);
      assert Says(m, body, fileLen, s);
    }
    forall s | Says(m, body, fileLen, s)
      ensures ItemRanges(m, body, fileLen) == MetaRanges(s, fileLen)
    {
      SaidIsRead(m, body, fileLen, s);
    }
  }

  lemma NamedExactlyWhen(m: Bytes, body: nat, fileLen: nat, r: Range)
    requires ItemRanges(m, body, fileLen).Some?
    ensures r in ItemRanges(m, body, fileLen).value <==> Names(m, body, fileLen, r)
  {
    MetaIsReadExactlyWhen(m, body, fileLen);
    hide Says, MetaRanges, ItemRanges;
  }

  /** The `meta` box at `k` has tables that say where its metadata items are. */
  ghost predicate Readable(b: Bytes, k: Box) {
    k.start <= k.body <= k.end <= |b| && Speaks(b[k.start..k.end], k.body - k.start, |b|)
  }

  /** Boxes tile the file, and its `meta` boxes can be read. */
  ghost predicate Tiled(b: Bytes, specs: seq<BoxSpec>) {
    BoxesAt(b, 0, |b|, specs) && forall k | k in Layout(specs, 0) && k.typ == META :: Readable(b, k)
  }

  lemma BoxContributesExactlyWhen(b: Bytes, k: Box)
    requires k.start <= k.body <= k.end <= |b|
    ensures BoxRanges(b, k).Some? <==> (k.typ == META ==> Readable(b, k))
  {
    hide ItemRanges, Speaks, Says, MetaRanges;
    assert MOOV[1] != META[1];
    if k.typ == META {
      MetaIsReadExactlyWhen(b[k.start..k.end], k.body - k.start, |b|);
    }
  }

  lemma {:induction false} CollectsExactlyWhen(b: Bytes, boxes: seq<Box>)
    requires forall k | k in boxes :: k.start <= k.body <= k.end <= |b|
    ensures Collect(b, boxes).Some? <==> forall k | k in boxes :: BoxRanges(b, k).Some?
  {
    hide BoxRanges;
    if boxes != [] {
      CollectsExactlyWhen(b, boxes[1..]);
      assert forall k :: k in boxes <==> k == boxes[0] || k in boxes[1..];
    }
  }

  lemma {:induction false} CollectedFrom(b: Bytes, boxes: seq<Box>, r: Range)
    requires (forall k | k in boxes :: k.start <= k.body <= k.end <= |b|) && Collect(b, boxes).Some?
    ensures r in Collect(b, boxes).value <==> exists k :: k in boxes && BoxRanges(b, k).Some? && r in BoxRanges(b, k).value
  {
    hide BoxRanges;
    if boxes != [] {
      CollectedFrom(b, boxes[1..], r);
      assert forall k :: k in boxes <==> k == boxes[0] || k in boxes[1..];
    }
  }

  /** A box list at the top of the file is what the walk collects from. */
  lemma TiledIsCollected(b: Bytes, specs: seq<BoxSpec>)
    requires BoxesAt(b, 0, |b|, specs)
    ensures forall k | k in Layout(specs, 0) :: k.start <= k.body <= k.end <= |b|
    ensures TopRanges(b, 0) == Collect(b, Layout(specs, 0))
  {
    hide Collect, BoxesAt;
    BoxesAreRead(b, 0, |b|, specs);
    TopIsCollect(b, 0);
  }

  /** Such a file has an answer if and only if boxes tile it and its `meta` boxes can be read. */
  lemma IsoFileAnswersExactlyWhen(file: Bytes)
    requires StartsLikeIso(file)
    ensures Ranges(file).Some? <==> exists specs :: Tiled(file, specs)
  {
    assert Ranges(file) == TopRanges(file, 0);
    hide Ranges, TopRanges, BoxesAt, Layout, Readable, Collect, BoxRanges;
    if TopRanges(file, 0).Some? {
      var specs := AnswerCoversFile(file);
      TiledIsCollected(file, specs);
      CollectsExactlyWhen(file, Layout(specs, 0));
      forall k | k in Layout(specs, 0) && k.typ == META
        ensures Readable(file, k)
      {
        BoxContributesExactlyWhen(file, k);
      }
      assert Tiled(file, specs);
    }
    if specs :| Tiled(file, specs) {
      TiledIsCollected(file, specs);
      forall k | k in Layout(specs, 0)
        ensures BoxRanges(file, k).Some?
      {
        BoxContributesExactlyWhen(file, k);
      }
      CollectsExactlyWhen(file, Layout(specs, 0));
    }
  }

  /** The range of a `moov` or `meta` box, or of a metadata item of a `meta` box. */
  ghost predicate Contributes(b: Bytes, k: Box, r: Range) {
    || ((k.typ == [0x6D, 0x6F, 0x6F, 0x76] || k.typ == [0x6D, 0x65, 0x74, 0x61]) && r == Range(k.start, k.end))
    || (k.typ == [0x6D, 0x65, 0x74, 0x61] && k.start <= k.body <= k.end <= |b|
        && Names(b[k.start..k.end], k.body - k.start, |b|, r))
  }

  lemma MetaBoxRanges(b: Bytes, k: Box)
    requires k.start <= k.body <= k.end <= |b| && BoxRanges(b, k).Some? && k.typ == META
    ensures var items := ItemRanges(b[k.start..k.end], k.body - k.start, |b|);
            items.Some? && BoxRanges(b, k) == Some([Range(k.start, k.end)] + items.value)
  {
    hide ItemRanges;
    assert MOOV[1] != META[1];
  }

  lemma BoxContributes(b: Bytes, k: Box, r: Range)
    requires k.start <= k.body <= k.end <= |b| && BoxRanges(b, k).Some?
    ensures r in BoxRanges(b, k).value <==> Contributes(b, k, r)
  {
    hide ItemRanges, Names;
    assert MOOV == [0x6D, 0x6F, 0x6F, 0x76] && META == [0x6D, 0x65, 0x74, 0x61] && MOOV[1] != META[1];
    if k.typ == META {
      NamedExactlyWhen(b[k.start..k.end], k.body - k.start, |b|, r);
      MetaBoxRanges(b, k);
      hide BoxRanges;
    }
  }

  /** The answer holds those ranges and no others. */
  lemma IsoAnswerIsExact(file: Bytes, specs: seq<BoxSpec>, r: Range)
    requires StartsLikeIso(file) && Tiled(file, specs)
    ensures Ranges(file).Some?
    ensures r in Ranges(file).value <==> exists k :: k in Layout(specs, 0) && Contributes(file, k, r)
  {
    IsoFileAnswersExactlyWhen(file);
    assert Ranges(file) == TopRanges(file, 0);
    hide Ranges, TopRanges, BoxesAt, Layout, Readable, Collect, BoxRanges, Contributes;
    TiledIsCollected(file, specs);
    CollectsExactlyWhen(file, Layout(specs, 0));
    CollectedFrom(file, Layout(specs, 0), r);
    forall k | k in Layout(specs, 0)
      ensures BoxRanges(file, k).Some? && (r in BoxRanges(file, k).value <==> Contributes(file, k, r))
    {
      BoxContributes(file, k, r);
    }
  }

  /** What a box adds to the list: a `moov` box itself, a `meta` box itself and then the ranges its tables give, in
      their order, and nothing for any other. */
  ghost predicate Part(b: Bytes, k: Box, part: seq<Range>) {
    if k.typ == [0x6D, 0x6F, 0x6F, 0x76] then part == [Range(k.start, k.end)]
    else if k.typ == [0x6D, 0x65, 0x74, 0x61] then
      && k.start <= k.body <= k.end <= |b|
      && exists s :: Says(b[k.start..k.end], k.body - k.start, |b|, s) && part == [Range(k.start, k.end)] + MetaRanges(s, |b|).value
    else part == []
  }

  function Joined(parts: seq<seq<Range>>): seq<Range> {
    if parts == [] then [] else parts[0] + Joined(parts[1..])
  }

  lemma PartIsRead(b: Bytes, k: Box, part: seq<Range>)
    requires k.start <= k.body <= k.end <= |b| && Part(b, k, part)
    ensures BoxRanges(b, k) == Some(part)
  {
    hide ItemRanges, MetaRanges, Says;
    assert MOOV == [0x6D, 0x6F, 0x6F, 0x76] && META == [0x6D, 0x65, 0x74, 0x61] && MOOV[1] != META[1];
    if k.typ == META {
      SaidPartIsRead(b, k, part);
    }
  }

  lemma SaidPartIsRead(b: Bytes, k: Box, part: seq<Range>)
    requires k.start <= k.body <= k.end <= |b| && k.typ == META && Part(b, k, part)
    ensures BoxRanges(b, k) == Some(part)
  {
    hide BoxRanges, ItemRanges, MetaRanges, ListAt, TableAt, BoxesFrom, FindBox, Layout;
    var s :| Says(b[k.start..k.end], k.body - k.start, |b|, s) && part == [Range(k.start, k.end)] + MetaRanges(s, |b|).value;
    SaidIsRead(b[k.start..k.end], k.body - k.start, |b|, s);
    MetaBoxIsRead(b, k, MetaRanges(s, |b|).value);
  }

  lemma MetaBoxIsRead(b: Bytes, k: Box, items: seq<Range>)
    requires k.start <= k.body <= k.end <= |b| && k.typ == META
    requires ItemRanges(b[k.start..k.end], k.body - k.start, |b|) == Some(items)
    ensures BoxRanges(b, k) == Some([Range(k.start, k.end)] + items)
  {
    hide ItemRanges;
    assert MOOV[1] != META[1];
  }

  lemma {:induction false} CollectJoins(b: Bytes, boxes: seq<Box>, parts: seq<seq<Range>>)
    requires forall k | k in boxes :: k.start <= k.body <= k.end <= |b|
    requires |parts| == |boxes| && forall i | 0 <= i < |boxes| :: BoxRanges(b, boxes[i]) == Some(parts[i])
    ensures Collect(b, boxes) == Some(Joined(parts))
  {
    hide BoxRanges;
    if boxes != [] {
      CollectJoins(b, boxes[1..], parts[1..]);
    }
  }

  /** The answer is those parts one after another. */
  lemma IsoAnswerIsInOrder(file: Bytes, specs: seq<BoxSpec>, parts: seq<seq<Range>>)
    requires StartsLikeIso(file) && Tiled(file, specs) && |parts| == |Layout(specs, 0)|
    requires forall i | 0 <= i < |parts| :: Part(file, Layout(specs, 0)[i], parts[i])
    ensures Ranges(file) == Some(Joined(parts))
  {
    assert Ranges(file) == TopRanges(file, 0);
    hide Ranges, TopRanges, BoxesAt, Layout, Readable, Collect, BoxRanges, Part, Joined;
    TiledIsCollected(file, specs);
    var boxes := Layout(specs, 0);
    forall i | 0 <= i < |boxes|
      ensures BoxRanges(file, boxes[i]) == Some(parts[i])
    {
      assert boxes[i] in boxes;
      PartIsRead(file, boxes[i], parts[i]);
    }
    CollectJoins(file, boxes, parts);
  }

  /** Every box of a file with an answer has its part. */
  lemma EveryBoxHasItsPart(file: Bytes, k: Box) returns (part: seq<Range>)
    requires k.start <= k.body <= k.end <= |file| && (k.typ == META ==> Readable(file, k))
    ensures Part(file, k, part)
  {
    hide MetaRanges;
    assert MOOV[1] != META[1];
    if k.typ == META {
      var s :| Says(file[k.start..k.end], k.body - k.start, |file|, s);
      part := [Range(k.start, k.end)] + MetaRanges(s, |file|).value;
    } else {
      part := if k.typ == MOOV then [Range(k.start, k.end)] else [];
    }
  }

  /** A file that starts otherwise has no answer. */
  lemma OtherFilesHaveNone(file: Bytes)
    requires !StartsLikeJpeg(file) && !StartsLikeIso(file)
    ensures Ranges(file).None?
  {
  }
}
