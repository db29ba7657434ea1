/** Reading any version resource: which blobs have a version, with whatever blocks and tables in front, and what
    it says. */
module PeBlobs {
  import opened LibraryStore
  import opened PeVersion
  import opened PeFiles

  // --- blocks ------------------------------------------------------------------------------

  /** Code units one after another from `i`, up to a zero. */
  ghost predicate KeyStands(block: Bytes, i: nat, key: Units) {
    && (forall k | 0 <= k < |key| :: key[k] != 0 && Half(block, i + 2 * k, key[k]))
    && Half(block, i + 2 * |key|, 0)
  }

  lemma {:induction false} KeyIsReadExactlyWhen(block: Bytes, i: nat, key: Units, end: nat)
    ensures KeyAt(block, i) == Ok((key, end)) <==> KeyStands(block, i, key) && end == i + 2 * |key| + 2
    decreases |key|
  {
    hide Half;
    HalfIsRead(block, i, 0);
    if key == [] {
    } else {
      HalfIsRead(block, i, key[0]);
      KeyIsReadExactlyWhen(block, i + 2, key[1..], end);
      FirstUnitStands(block, i, key);
      assert key == [key[0]] + key[1..];
    }
  }

  lemma FirstUnitStands(block: Bytes, i: nat, key: Units)
    requires key != []
    ensures KeyStands(block, i, key) <==> key[0] != 0 && Half(block, i, key[0]) && KeyStands(block, i + 2, key[1..])
  {
    hide Half;
    if KeyStands(block, i, key) {
      assert Half(block, i + 2 * 0, key[0]);
      forall k | 0 <= k < |key[1..]|
        ensures key[1..][k] != 0 && Half(block, i + 2 + 2 * k, key[1..][k])
      {
        assert Half(block, i + 2 * (k + 1), key[k + 1]);
      }
    }
    if key[0] != 0 && Half(block, i, key[0]) && KeyStands(block, i + 2, key[1..]) {
      forall k | 0 <= k < |key|
        ensures key[k] != 0 && Half(block, i + 2 * k, key[k])
      {
        assert k > 0 ==> Half(block, i + 2 + 2 * (k - 1), key[1..][k - 1]);
      }
    }
  }

  /** The next multiple of four. */
  function Round4(n: nat): nat {
    if n % 4 == 0 then n else n + (4 - n % 4)
  }

  lemma Align4Rounds(n: nat)
    ensures Align4(n) == Round4(n)
  {
  }

  /** A block: its length, the length of its value (in units if its type is text) and its type; its key; its value,
      which starts aligned and may be cut short by the end of the block; and what is behind that, aligned again. */
  ghost predicate BlockStands(buf: Bytes, off: nat, b: Block) {
    exists valueLength: nat, ty: nat :: BlockWith(buf, off, b, valueLength, ty)
  }

  ghost predicate BlockWith(buf: Bytes, off: nat, b: Block, valueLength: nat, ty: nat) {
    && Half(buf, off, b.length) && Half(buf, off + 2, valueLength) && Half(buf, off + 4, ty)
    && 6 <= b.length && off + b.length <= |buf|
    && var block := buf[off..off + b.length];
       var from := Round4(6 + 2 * |b.key| + 2);
       && KeyStands(block, 6, b.key) && from <= b.length
       && PartsStand(block, from, if ty == 1 then 2 * valueLength else valueLength, b)
  }

  ghost predicate PartsStand(block: Bytes, from: nat, size: nat, b: Block) {
    var to := if from + size <= |block| then from + size else |block|;
    && from <= |block| && b.value == block[from..to]
    && b.children == if Round4(to) <= |block| then block[Round4(to)..] else []
  }

  lemma HalvesAreRead(buf: Bytes, off: nat, v: nat)
    ensures Half(buf, off, v) <==> off + 2 <= |buf| && U16(buf, off).Ok? && U16(buf, off).value as nat == v
  {
  }

  lemma PartsAreRead(block: Bytes, key: Units, after: nat, size: nat, length: nat, b: Block)
    requires after <= |block|
    ensures var valueEnd := Min(after + size, |block|);
            var childrenStart := Min(Align4(valueEnd), |block|);
            Block(key, block[after..valueEnd], block[childrenStart..], length) == b
            <==> b.key == key && b.length == length && PartsStand(block, after, size, b)
  {
    Align4Rounds(Min(after + size, |block|));
    hide Align4, Round4;
    assert block[|block|..] == [];
  }

  /** On any bytes: a block is read if and only if it stands there. */
  lemma BlockIsReadExactlyWhen(buf: Bytes, off: nat, b: Block)
    ensures BlockAt(buf, off) == Ok(b) <==> BlockStands(buf, off, b)
  {
    hide KeyStands, PartsStand, Round4, Align4, KeyAt, Half, U16;
    if BlockAt(buf, off) == Ok(b) {
      ReadBlockStands(buf, off, b);
    }
    if BlockStands(buf, off, b) {
      var valueLength: nat, ty: nat :| BlockWith(buf, off, b, valueLength, ty);
      StandingBlockIsRead(buf, off, b, valueLength, ty);
    }
  }

  lemma ReadBlockStands(buf: Bytes, off: nat, b: Block)
    requires BlockAt(buf, off) == Ok(b)
    ensures BlockStands(buf, off, b)
  {
    hide KeyStands, PartsStand, Round4, Align4, KeyAt, Half, U16;
    var length: nat, valueLength: nat, ty: nat := U16(buf, off).value, U16(buf, off + 2).value, U16(buf, off + 4).value;
    var block := buf[off..off + length];
    var key := KeyAt(block, 6).value;
    HalvesAreRead(buf, off, length);
    HalvesAreRead(buf, off + 2, valueLength);
    HalvesAreRead(buf, off + 4, ty);
    HalvesExist(buf, off);
    HalvesExist(buf, off + 2);
    HalvesExist(buf, off + 4);
    KeyIsReadExactlyWhen(block, 6, key.0, key.1);
    Align4Rounds(key.1);
    PartsAreRead(block, key.0, Align4(key.1), if ty == 1 then 2 * valueLength else valueLength, length, b);
    assert BlockWith(buf, off, b, valueLength, ty);
  }

  lemma HalvesExist(buf: Bytes, off: nat)
    ensures U16(buf, off).Ok? <==> off + 2 <= |buf|
  {
  }

  lemma StandingBlockIsRead(buf: Bytes, off: nat, b: Block, valueLength: nat, ty: nat)
    requires BlockWith(buf, off, b, valueLength, ty)
    ensures BlockAt(buf, off) == Ok(b)
  {
    hide KeyStands, PartsStand, Round4, Align4, KeyAt, Half, U16;
    var block := buf[off..off + b.length];
    var end := 6 + 2 * |b.key| + 2;
    HalvesAreRead(buf, off, b.length);
    HalvesAreRead(buf, off + 2, valueLength);
    HalvesAreRead(buf, off + 4, ty);
    KeyIsReadExactlyWhen(block, 6, b.key, end);
    Align4Rounds(end);
    PartsAreRead(block, b.key, Align4(end), if ty == 1 then 2 * valueLength else valueLength, b.length, b);
  }

  // --- lists of blocks ---------------------------------------------------------------------------

  /** Blocks one after another, each from the next aligned place on, with `end` behind the last. */
  ghost predicate Row(buf: Bytes, off: nat, blocks: seq<Block>, end: nat)
    decreases |blocks|
  {
    if blocks == [] then end == off
    else BlockStands(buf, off, blocks[0]) && Row(buf, off + Round4(blocks[0].length), blocks[1..], end)
  }

  /** Behind blocks that are not wanted stands one that is. */
  ghost predicate FirstWantedIs(buf: Bytes, off: nat, wanted: Units -> bool, b: Block) {
    exists before, end :: FirstWantedAt(buf, off, wanted, b, before, end)
  }

  ghost predicate FirstWantedAt(buf: Bytes, off: nat, wanted: Units -> bool, b: Block, before: seq<Block>, end: nat) {
    && Row(buf, off, before, end) && BlockStands(buf, end, b)
    && (forall x | x in before :: !wanted(x.key)) && wanted(b.key)
  }

  /** Blocks that are not wanted, to the end: fewer than six bytes are left. */
  ghost predicate NoneWanted(buf: Bytes, off: nat, wanted: Units -> bool) {
    exists before, end :: NoneWantedIn(buf, off, wanted, before, end)
  }

  ghost predicate NoneWantedIn(buf: Bytes, off: nat, wanted: Units -> bool, before: seq<Block>, end: nat) {
    Row(buf, off, before, end) && end + 6 > |buf| && forall x | x in before :: !wanted(x.key)
  }

  lemma BlockFits(buf: Bytes, off: nat, b: Block)
    requires BlockStands(buf, off, b)
    ensures off + 6 <= |buf| && 6 <= b.length
  {
    hide KeyStands, PartsStand, Round4, Half;
  }

  lemma OneBlockStands(buf: Bytes, off: nat, a: Block, b: Block)
    requires BlockStands(buf, off, a) && BlockStands(buf, off, b)
    ensures a == b
  {
    hide BlockStands, BlockAt;
    BlockIsReadExactlyWhen(buf, off, a);
    BlockIsReadExactlyWhen(buf, off, b);
  }

  /** Nothing is wanted first where too little is left. */
  lemma EndOfList(buf: Bytes, off: nat, wanted: Units -> bool)
    requires off + 6 > |buf|
    ensures forall b :: !FirstWantedIs(buf, off, wanted, b)
    ensures NoneWanted(buf, off, wanted)
  {
    hide BlockStands;
    assert NoneWantedIn(buf, off, wanted, [], off);
    forall b, before, end
      ensures !FirstWantedAt(buf, off, wanted, b, before, end)
    {
      if FirstWantedAt(buf, off, wanted, b, before, end) {
        BlockFits(buf, off, if before == [] then b else before[0]);
      }
    }
  }

  lemma WantedIsFirst(buf: Bytes, off: nat, wanted: Units -> bool, a: Block)
    requires BlockStands(buf, off, a) && wanted(a.key)
    ensures forall b :: FirstWantedIs(buf, off, wanted, b) <==> b == a
    ensures !NoneWanted(buf, off, wanted)
  {
    hide BlockStands;
    BlockFits(buf, off, a);
    assert FirstWantedAt(buf, off, wanted, a, [], off);
    forall b, before, end | FirstWantedAt(buf, off, wanted, b, before, end)
      ensures b == a
    {
      OneBlockStands(buf, off, a, if before == [] then b else before[0]);
    }
    forall before, end
      ensures !NoneWantedIn(buf, off, wanted, before, end)
    {
      if NoneWantedIn(buf, off, wanted, before, end) && before != [] {
        OneBlockStands(buf, off, a, before[0]);
      }
    }
  }

  lemma UnwantedIsPassed(buf: Bytes, off: nat, wanted: Units -> bool, a: Block)
    requires BlockStands(buf, off, a) && !wanted(a.key)
    ensures var next := off + Round4(a.length);
            && (forall b :: FirstWantedIs(buf, off, wanted, b) <==> FirstWantedIs(buf, next, wanted, b))
            && (NoneWanted(buf, off, wanted) <==> NoneWanted(buf, next, wanted))
  {
    hide BlockStands, Round4;
    BlockFits(buf, off, a);
    var next := off + Round4(a.length);
    forall b, before, end | FirstWantedAt(buf, off, wanted, b, before, end)
      ensures FirstWantedIs(buf, next, wanted, b)
    {
      OneBlockStands(buf, off, a, if before == [] then b else before[0]);
      assert FirstWantedAt(buf, next, wanted, b, before[1..], end);
    }
    forall b, before, end | FirstWantedAt(buf, next, wanted, b, before, end)
      ensures FirstWantedIs(buf, off, wanted, b)
    {
      assert ([a] + before)[1..] == before;
      assert FirstWantedAt(buf, off, wanted, b, [a] + before, end);
    }
    forall before, end | NoneWantedIn(buf, off, wanted, before, end)
      ensures NoneWanted(buf, next, wanted)
    {
      OneBlockStands(buf, off, a, before[0]);
      assert NoneWantedIn(buf, next, wanted, before[1..], end);
    }
    forall before, end | NoneWantedIn(buf, next, wanted, before, end)
      ensures NoneWanted(buf, off, wanted)
    {
      assert ([a] + before)[1..] == before;
      assert NoneWantedIn(buf, off, wanted, [a] + before, end);
    }
  }

  lemma NothingStands(buf: Bytes, off: nat, wanted: Units -> bool)
    requires off + 6 <= |buf| && forall a :: !BlockStands(buf, off, a)
    ensures forall b :: !FirstWantedIs(buf, off, wanted, b)
    ensures !NoneWanted(buf, off, wanted)
  {
    hide BlockStands;
  }

  /** On any bytes: the walk over a list of blocks finds the first that is wanted, or none, exactly when it is so. */
  lemma {:induction false} FirstChildIsFoundExactlyWhen(buf: Bytes, off: nat, wanted: Units -> bool)
    ensures forall b :: FirstChild(buf, off, wanted) == Ok(Some(b)) <==> FirstWantedIs(buf, off, wanted, b)
    ensures FirstChild(buf, off, wanted) == Ok(None) <==> NoneWanted(buf, off, wanted)
    decreases |buf| - off
  {
    hide BlockStands, BlockAt, FirstWantedIs, NoneWanted, Round4, Align4;
    if off + 6 > |buf| {
      EndOfList(buf, off, wanted);
    } else {
      forall a
        ensures BlockAt(buf, off) == Ok(a) <==> BlockStands(buf, off, a)
      {
        BlockIsReadExactlyWhen(buf, off, a);
      }
      if BlockAt(buf, off).Err? {
        NothingStands(buf, off, wanted);
      } else {
        var a := BlockAt(buf, off).value;
        BlockFits(buf, off, a);
        if wanted(a.key) {
          WantedIsFirst(buf, off, wanted, a);
        } else {
          Align4Rounds(a.length);
          FirstChildIsFoundExactlyWhen(buf, off + Align4(a.length), wanted);
          UnwantedIsPassed(buf, off, wanted, a);
        }
      }
    }
  }

  // --- tables ------------------------------------------------------------------------------------

  /** Behind tables without the entry stands one that has it. */
  ghost predicate VersionIs(sfi: Bytes, off: nat, e: Block) {
    exists before, end, table :: VersionAt(sfi, off, e, before, end, table)
  }

  ghost predicate VersionAt(sfi: Bytes, off: nat, e: Block, before: seq<Block>, end: nat, table: Block) {
    && Row(sfi, off, before, end) && BlockStands(sfi, end, table)
    && (forall x | x in before :: NoneWanted(x.children, 0, IsFileVersion))
    && FirstWantedIs(table.children, 0, IsFileVersion, e)
  }

  lemma FirstTableHasVersion(sfi: Bytes, off: nat, table: Block, e: Block)
    requires BlockStands(sfi, off, table) && !NoneWanted(table.children, 0, IsFileVersion)
    ensures VersionIs(sfi, off, e) <==> FirstWantedIs(table.children, 0, IsFileVersion, e)
  {
    hide BlockStands, FirstWantedIs, NoneWanted;
    if FirstWantedIs(table.children, 0, IsFileVersion, e) {
      assert VersionAt(sfi, off, e, [], off, table);
    }
    forall before, end, t | VersionAt(sfi, off, e, before, end, t)
      ensures FirstWantedIs(table.children, 0, IsFileVersion, e)
    {
      OneBlockStands(sfi, off, table, if before == [] then t else before[0]);
    }
  }

  lemma TableWithoutIsPassed(sfi: Bytes, off: nat, table: Block, e: Block)
    requires BlockStands(sfi, off, table) && NoneWanted(table.children, 0, IsFileVersion)
    requires !FirstWantedIs(table.children, 0, IsFileVersion, e)
    ensures VersionIs(sfi, off, e) <==> VersionIs(sfi, off + Round4(table.length), e)
  {
    hide BlockStands, FirstWantedIs, NoneWanted, Round4;
    var next := off + Round4(table.length);
    forall before, end, t | VersionAt(sfi, off, e, before, end, t)
      ensures VersionIs(sfi, next, e)
    {
      OneBlockStands(sfi, off, table, if before == [] then t else before[0]);
      assert VersionAt(sfi, next, e, before[1..], end, t);
    }
    forall before, end, t | VersionAt(sfi, next, e, before, end, t)
      ensures VersionIs(sfi, off, e)
    {
      assert ([table] + before)[1..] == before;
      assert VersionAt(sfi, off, e, [table] + before, end, t);
    }
  }

  lemma NoTableStands(sfi: Bytes, off: nat, e: Block)
    requires forall a :: !BlockStands(sfi, off, a)
    ensures !VersionIs(sfi, off, e)
  {
    hide BlockStands, FirstWantedIs, NoneWanted;
  }

  lemma NoTableFits(sfi: Bytes, off: nat, e: Block)
    requires off + 6 > |sfi|
    ensures !VersionIs(sfi, off, e)
  {
    hide BlockStands, VersionIs;
    forall a
      ensures !BlockStands(sfi, off, a)
    {
      if BlockStands(sfi, off, a) {
        BlockFits(sfi, off, a);
      }
    }
    NoTableStands(sfi, off, e);
  }

  /** All string tables are looked through, in order, up to the first that has the entry. */
  lemma {:induction false} VersionIsFoundExactlyWhen(sfi: Bytes, off: nat, e: Block)
    ensures FirstVersion(sfi, off) == Ok(Some(e)) <==> VersionIs(sfi, off, e)
    decreases |sfi| - off
  {
    hide BlockStands, BlockAt, FirstWantedIs, NoneWanted, Round4, Align4, VersionIs, FirstChild;
    if off + 6 > |sfi| {
      NoTableFits(sfi, off, e);
    } else {
      forall a
        ensures BlockAt(sfi, off) == Ok(a) <==> BlockStands(sfi, off, a)
      {
        BlockIsReadExactlyWhen(sfi, off, a);
      }
      if BlockAt(sfi, off).Err? {
        NoTableStands(sfi, off, e);
      } else {
        var table := BlockAt(sfi, off).value;
        FirstChildIsFoundExactlyWhen(table.children, 0, IsFileVersion);
        if FirstChild(table.children, 0, IsFileVersion) == Ok(None) {
          Align4Rounds(table.length);
          VersionIsFoundExactlyWhen(sfi, off + Align4(table.length), e);
          TableWithoutIsPassed(sfi, off, table, e);
        } else {
          FirstTableHasVersion(sfi, off, table, e);
        }
      }
    }
  }

  // --- text ----------------------------------------------------------------------------------------

  /** The code units of a value up to a zero or its end; an odd last byte does not count. */
  ghost predicate TextStands(value: Bytes, i: nat, s: Units) {
    && i + 2 * |s| <= |value|
    && (forall k | 0 <= k < |s| :: s[k] != 0 && Half(value, i + 2 * k, s[k]))
    && (i + 2 * |s| + 2 > |value| || Half(value, i + 2 * |s|, 0))
  }

  lemma {:induction false} TextIsReadExactly(value: Bytes, i: nat)
    requires i <= |value|
    ensures TextStands(value, i, ValueUnits(value, i))
    decreases |value| - i
  {
    if i + 2 <= |value| && !Half(value, i, 0) {
      TextIsReadExactly(value, i + 2);
      hide Half;
      var rest := ValueUnits(value, i + 2);
      var s := ValueUnits(value, i);
      assert s == [s[0]] + rest;
      HalfIsRead(value, i, s[0]);
      forall k | 0 <= k < |s|
        ensures s[k] != 0 && Half(value, i + 2 * k, s[k])
      {
        assert k > 0 ==> s[k] == rest[k - 1] && Half(value, i + 2 + 2 * (k - 1), rest[k - 1]);
      }
    }
  }

  predicate High(u: Unit) {
    0xD800 <= u <= 0xDBFF
  }

  predicate Low(u: Unit) {
    0xDC00 <= u <= 0xDFFF
  }

  /** A high surrogate with a low one behind it, or a low one with a high one before it. */
  predicate Paired(s: Units, i: nat)
    requires i < |s|
  {
    || (High(s[i]) && i + 1 < |s| && Low(s[i + 1]))
    || (Low(s[i]) && i > 0 && High(s[i - 1]))
  }

  /** What a unit is decoded to where it stands. */
  function UnitAt(s: Units, i: nat): Unit
    requires i < |s|
  {
    if (High(s[i]) || Low(s[i])) && !Paired(s, i) then 0xFFFD else s[i]
  }

  function FirstWidth(s: Units): nat {
    if |s| > 1 && High(s[0]) && Low(s[1]) then 2 else 1
  }

  lemma FirstIsDecoded(s: Units)
    requires s != []
    ensures var n := FirstWidth(s);
            && n <= |s| && |Decoded(s)| == n + |Decoded(s[n..])|
            && (forall i | 0 <= i < n :: Decoded(s)[i] == UnitAt(s, i))
            && Decoded(s)[n..] == Decoded(s[n..])
  {
  }

  lemma LaterUnits(s: Units, i: nat)
    requires s != [] && FirstWidth(s) <= i < |s|
    ensures UnitAt(s, i) == UnitAt(s[FirstWidth(s)..], i - FirstWidth(s))
  {
    var n := FirstWidth(s);
    var rest := s[n..];
    assert rest[i - n] == s[i];
    assert i > n ==> rest[i - n - 1] == s[i - 1];
    assert i + 1 < |s| ==> rest[i - n + 1] == s[i + 1];
  }

  /** Decoding keeps pairs and all other units, and replaces surrogates that stand alone. */
  lemma {:induction false} DecodingIsExact(s: Units)
    ensures |Decoded(s)| == |s|
    ensures forall i | 0 <= i < |s| :: Decoded(s)[i] == UnitAt(s, i)
  {
    hide UnitAt;
    if s != [] {
      var n := FirstWidth(s);
      FirstIsDecoded(s);
      hide Decoded, FirstWidth;
      DecodingIsExact(s[n..]);
      forall i: nat | n <= i < |s|
        ensures Decoded(s)[i] == UnitAt(s, i)
      {
        LaterUnits(s, i);
        assert Decoded(s)[n..][i - n] == Decoded(s)[i];
      }
    }
  }

  lemma SpacesAreListed(u: Unit)
    ensures IsSpace(u) <==> u in {0x09, 0x0A, 0x0B, 0x0C, 0x0D, 0x1C, 0x1D, 0x1E, 0x1F, 0x20, 0x85, 0xA0, 0x1680, 0x2000, 0x2001,
              0x2002, 0x2003, 0x2004, 0x2005, 0x2006, 0x2007, 0x2008, 0x2009, 0x200A, 0x2028, 0x2029, 0x202F, 0x205F, 0x3000}
  {
  }

  ghost predicate Blank(s: Units) {
    forall u | u in s :: IsSpace(u)
  }

  ghost predicate Tight(s: Units) {
    s != [] ==> !IsSpace(s[0]) && !IsSpace(s[|s| - 1])
  }

  lemma {:induction false} LeftSplits(s: Units) returns (lead: Units)
    ensures s == lead + StripLeft(s) && Blank(lead) && (StripLeft(s) != [] ==> !IsSpace(StripLeft(s)[0]))
  {
    hide IsSpace;
    lead := [];
    if s != [] && IsSpace(s[0]) {
      var rest := LeftSplits(s[1..]);
      lead := [s[0]] + rest;
    }
  }

  lemma {:induction false} RightSplits(s: Units) returns (tail: Units)
    ensures s == StripRight(s) + tail && Blank(tail) && (StripRight(s) != [] ==> !IsSpace(StripRight(s)[|StripRight(s)| - 1]))
  {
    hide IsSpace;
    tail := [];
    if s != [] && IsSpace(s[|s| - 1]) {
      var rest := RightSplits(s[..|s| - 1]);
      tail := rest + [s[|s| - 1]];
      assert s == StripRight(s) + tail;
    }
  }

  /** Stripping takes the blanks at both ends and nothing else. */
  lemma StrippedSplits(s: Units) returns (lead: Units, tail: Units)
    ensures s == lead + Strip(s) + tail && Blank(lead) && Blank(tail) && Tight(Strip(s))
  {
    hide IsSpace, StripLeft, StripRight;
    lead := LeftSplits(s);
    tail := RightSplits(StripLeft(s));
    var t := StripLeft(s);
    assert StripRight(t) != [] ==> StripRight(t)[0] == t[0];
    assert lead + (StripRight(t) + tail) == lead + StripRight(t) + tail;
  }

  /** The entry is called FileVersion, in any mixture of capitals and small letters. */
  lemma FileVersionIsNamed(key: Units)
    ensures IsFileVersion(key) <==>
            |key| == 11 && forall i | 0 <= i < 11 :: key[i] == "fileversion"[i] as int || key[i] == "FILEVERSION"[i] as int
  {
    if |key| == 11 {
      forall i | 0 <= i < 11
        ensures Lower(key)[i] == FILE_VERSION[i] <==> key[i] == "fileversion"[i] as int || key[i] == "FILEVERSION"[i] as int
      {
      }
    }
  }

  /** The text of a value, decoded and stripped. */
  ghost predicate SaysVersion(value: Bytes, v: Units) {
    exists s, d, lead, tail ::
      TextStands(value, 0, s) && DecodesTo(s, d) && d == lead + v + tail && Blank(lead) && Blank(tail) && Tight(v) && v != []
  }

  ghost predicate DecodesTo(s: Units, d: Units) {
    && |d| == |s|
    && forall i | 0 <= i < |s| :: d[i] == UnitAt(s, i)
  }

  lemma TextIsOne(value: Bytes, s: Units, t: Units)
    requires TextStands(value, 0, s) && TextStands(value, 0, t)
    ensures s == t
  {
    TextIsNotLonger(value, s, t);
    TextIsNotLonger(value, t, s);
    forall k | 0 <= k < |s|
      ensures s[k] == t[k]
    {
      assert Half(value, 0 + 2 * k, s[k]) && Half(value, 0 + 2 * k, t[k]);
    }
  }

  lemma TextGoesOn(value: Bytes, t: Units, k: nat)
    requires TextStands(value, 0, t) && k < |t|
    ensures 2 * k + 2 <= |value| && !Half(value, 2 * k, 0)
  {
    assert Half(value, 0 + 2 * k, t[k]);
  }

  lemma TextIsNotLonger(value: Bytes, s: Units, t: Units)
    requires TextStands(value, 0, s) && TextStands(value, 0, t)
    ensures |t| <= |s|
  {
    if |s| < |t| {
      TextGoesOn(value, t, |s|);
      assert false;
    }
  }

  lemma {:induction false} LeftIsExact(lead: Units, rest: Units)
    requires Blank(lead) && rest != [] && !IsSpace(rest[0])
    ensures StripLeft(lead + rest) == rest
  {
    hide IsSpace;
    if lead == [] {
      assert lead + rest == rest;
    } else {
      assert lead[0] in lead;
      assert (lead + rest)[1..] == lead[1..] + rest;
      LeftIsExact(lead[1..], rest);
    }
  }

  lemma {:induction false} RightIsExact(rest: Units, tail: Units)
    requires Blank(tail) && rest != [] && !IsSpace(rest[|rest| - 1])
    ensures StripRight(rest + tail) == rest
  {
    hide IsSpace;
    if tail == [] {
      assert rest + tail == rest;
    } else {
      assert tail[|tail| - 1] in tail;
      assert (rest + tail)[..|rest + tail| - 1] == rest + tail[..|tail| - 1];
      RightIsExact(rest, tail[..|tail| - 1]);
    }
  }

  /** A value is accepted as a version if and only if its text is one. */
  lemma VersionIsSaidExactlyWhen(value: Bytes, v: Units)
    ensures VersionOf(value) == Ok(v) <==> SaysVersion(value, v)
  {
    hide VersionOf, SaysVersion;
    if VersionOf(value) == Ok(v) {
      AcceptedIsSaid(value, v);
    }
    if SaysVersion(value, v) {
      SaidIsAccepted(value, v);
    }
  }

  lemma AcceptedIsSaid(value: Bytes, v: Units)
    requires VersionOf(value) == Ok(v)
    ensures SaysVersion(value, v)
  {
    hide Strip, Decoded, ValueUnits, TextStands, UnitAt, IsSpace;
    var s := ValueUnits(value, 0);
    var d := Decoded(s);
    TextIsReadExactly(value, 0);
    DecodingIsExact(s);
    var lead, tail := StrippedSplits(d);
    assert DecodesTo(s, d);
  }

  lemma SaidIsAccepted(value: Bytes, v: Units)
    requires SaysVersion(value, v)
    ensures VersionOf(value) == Ok(v)
  {
    hide StripLeft, StripRight, Decoded, ValueUnits, TextStands, UnitAt, IsSpace, Blank;
    var s := ValueUnits(value, 0);
    TextIsReadExactly(value, 0);
    DecodingIsExact(s);
    var t, d, lead, tail :|
      TextStands(value, 0, t) && DecodesTo(t, d) && d == lead + v + tail && Blank(lead) && Blank(tail) && Tight(v) && v != [];
    TextIsOne(value, s, t);
    DecodedIsOne(s, Decoded(s), d);
    hide DecodesTo;
    assert lead + v + tail == lead + (v + tail);
    LeftIsExact(lead, v + tail);
    RightIsExact(v, tail);
  }

  lemma DecodedIsOne(s: Units, d: Units, e: Units)
    requires |d| == |s|
    requires forall i | 0 <= i < |s| :: d[i] == UnitAt(s, i)
    requires DecodesTo(s, e)
    ensures d == e
  {
    hide UnitAt;
  }

  // --- the whole resource ------------------------------------------------------------------------

  predicate Named(key: Units, name: string) {
    |key| == |name| && forall i | 0 <= i < |name| :: key[i] as int == name[i] as int
  }

  lemma NamesAreExact(key: Units)
    ensures key == ROOT <==> Named(key, "VS_VERSION_INFO")
    ensures IsStringFileInfo(key) <==> Named(key, "StringFileInfo")
  {
  }

  /** A version resource: the root block, among its children the first StringFileInfo, among that one's tables the
      first with a FileVersion entry. */
  ghost predicate BlobSays(blob: Bytes, v: Units) {
    exists root, sfi, e :: BlobWith(blob, v, root, sfi, e)
  }

  ghost predicate BlobWith(blob: Bytes, v: Units, root: Block, sfi: Block, e: Block) {
    && BlockStands(blob, 0, root) && Named(root.key, "VS_VERSION_INFO")
    && FirstWantedIs(root.children, 0, IsStringFileInfo, sfi)
    && VersionIs(sfi.children, 0, e) && SaysVersion(e.value, v)
  }

  /** On any bytes: a version resource gives a version if and only if it says so. */
  lemma VersionInBlobExactlyWhen(blob: Bytes, v: Units)
    ensures VersionInBlob(blob) == Ok(v) <==> BlobSays(blob, v)
  {
    hide BlockAt, BlockStands, FirstChild, FirstWantedIs, FirstVersion, VersionIs, VersionOf, SaysVersion, Named, IsStringFileInfo;
    if VersionInBlob(blob) == Ok(v) {
      var root := BlockAt(blob, 0).value;
      var sfi := FirstChild(root.children, 0, IsStringFileInfo).value.value;
      var e := FirstVersion(sfi.children, 0).value.value;
      BlockIsReadExactlyWhen(blob, 0, root);
      NamesAreExact(root.key);
      FirstChildIsFoundExactlyWhen(root.children, 0, IsStringFileInfo);
      VersionIsFoundExactlyWhen(sfi.children, 0, e);
      VersionIsSaidExactlyWhen(e.value, v);
      assert BlobWith(blob, v, root, sfi, e);
    }
    if BlobSays(blob, v) {
      var root, sfi, e :| BlobWith(blob, v, root, sfi, e);
      BlockIsReadExactlyWhen(blob, 0, root);
      NamesAreExact(root.key);
      FirstChildIsFoundExactlyWhen(root.children, 0, IsStringFileInfo);
      VersionIsFoundExactlyWhen(sfi.children, 0, e);
      VersionIsSaidExactlyWhen(e.value, v);
    }
  }

  /** The whole way, on any bytes: the program answers with a version if and only if an executable stands there
      whose version resource says it. */
  lemma ExecutableSaysVersionExactlyWhen(data: Bytes, v: Units)
    ensures FileVersion(data) == Ok(v) <==> exists f :: Stands(data, f) && BlobSays(f.version.blob, v)
  {
    hide Stands, FileVersion, VersionInBlob, BlobSays;
    VersionIsReadExactlyWhen(data, v);
    forall f: Executable
      ensures VersionInBlob(f.version.blob) == Ok(v) <==> BlobSays(f.version.blob, v)
    {
      VersionInBlobExactlyWhen(f.version.blob, v);
    }
  }
}
