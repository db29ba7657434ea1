/** ADR-006 made precise: the index is a function of the tree, and what an ingest wrote comes back. */
module RebuildTheorems {
  import opened LibraryStore
  import opened Text
  import opened LibraryLayout
  import opened Rebuild
  import Protocol = IngestProtocol
  import IngestTheorems

  /** Two trees that show the same files give the same index, however their directories are listed and
      whatever else lies in them. */
  lemma IndexDependsOnlyOnVisibleFiles(a: seq<Entry>, b: seq<Entry>, media: map<string, string>, local: Device, rows: map<Hash, Row>)
    requires WellFormed(a) && WellFormed(b)
    requires forall p, content :: Shows(a, media, p, content) <==> Shows(b, media, p, content)
    ensures Scanned(a, media, local, rows).rows == Scanned(b, media, local, rows).rows
  {
    AdoptionIsExact(a, media, local, rows);
    AdoptionIsExact(b, media, local, rows);
    hide Scanned, Shows, RowOf;
    var s, t := Scanned(a, media, local, rows), Scanned(b, media, local, rows);
    assert forall h :: h in s.rows <==> h in t.rows;
    forall h | h in s.rows
      ensures s.rows[h] == t.rows[h]
    {
      if h !in rows {
        var p :| FirstWith(a, media, p, h.content);
        assert FirstWith(b, media, p, h.content);
      }
    }
  }

  /** The second adoption of the same tree adopts nothing. */
  lemma SecondAdoptionIsIdle(entries: seq<Entry>, media: map<string, string>, local: Device, rows: map<Hash, Row>)
    requires WellFormed(entries)
    ensures var s := Scanned(entries, media, local, rows);
            var again := Scanned(entries, media, local, s.rows);
            again.rows == s.rows && again.inserted == 0
  {
    AdoptionIsExact(entries, media, local, rows);
    AdoptionIsExact(entries, media, local, Scanned(entries, media, local, rows).rows);
    hide Scanned, Shows, RowOf, FirstWith;
    var s := Scanned(entries, media, local, rows);
    var again := Scanned(entries, media, local, s.rows);
    assert again.rows.Keys == s.rows.Keys;
    assert |again.rows| == |again.rows.Keys| && |s.rows| == |s.rows.Keys|;
  }

  // --- paths and strings ------------------------------------------------------------

  lemma {:induction false} JoinIsInjective(p: Rel, q: Rel)
    requires forall name | name in p :: '/' !in name
    requires forall name | name in q :: '/' !in name
    requires JoinRel(p) == JoinRel(q)
    ensures p == q
  {
    if p == [] || q == [] {
      JoinShowsEmptiness(p);
      JoinShowsEmptiness(q);
    } else {
      var (pi, pl) := (p[..|p| - 1], p[|p| - 1]);
      var (qi, ql) := (q[..|q| - 1], q[|q| - 1]);
      LastSeparator(JoinRel(pi), '/', pl);
      LastSeparator(JoinRel(qi), '/', ql);
      assert JoinRel(p) == JoinRel(pi) + ['/'] + pl && JoinRel(q) == JoinRel(qi) + ['/'] + ql;
      assert JoinRel(p)[..|JoinRel(pi)|] == JoinRel(pi) && JoinRel(q)[..|JoinRel(qi)|] == JoinRel(qi);
      JoinIsInjective(pi, qi);
      assert p == pi + [pl] && q == qi + [ql];
    }
  }

  lemma JoinShowsEmptiness(p: Rel)
    requires forall name | name in p :: '/' !in name
    ensures p == [] <==> AfterLast(JoinRel(p), '/') == 0
  {
    if p == [] {
      assert '/' !in "originals";
    } else {
      LastSeparator(JoinRel(p[..|p| - 1]), '/', p[|p| - 1]);
      assert JoinRel(p) == JoinRel(p[..|p| - 1]) + ['/'] + p[|p| - 1];
    }
  }

  lemma {:induction false} FoundNamesHaveNoSlash(entries: seq<Entry>, path: Rel)
    requires WellFormed(entries) && Lookup(entries, path).Some?
    ensures forall name | name in path :: '/' !in name
    decreases |path|
  {
    FoundIsWellFormed(entries, path[0]);
    if Find(entries, path[0]).value.Dir? {
      FoundNamesHaveNoSlash(Find(entries, path[0]).value.entries, path[1..]);
    }
    assert path == [path[0]] + path[1..];
  }

  lemma {:induction false} FoundIsWellFormed(entries: seq<Entry>, name: string)
    requires WellFormed(entries) && Find(entries, name).Some?
    ensures '/' !in name
    ensures Find(entries, name).value.Dir? ==> WellFormed(Find(entries, name).value.entries)
  {
    if entries[0].name != name {
      FoundIsWellFormed(entries[1..], name);
    }
  }

  // --- what an ingest wrote comes back ---------------------------------------------------

  function PlacedAt(id: Device, yyyy: string, mm: string, name: string): Rel {
    [Hex(id), yyyy, mm, name]
  }

  lemma PlacedAtJoins(id: Device, yyyy: string, mm: string, name: string)
    ensures JoinRel(PlacedAt(id, yyyy, mm, name)) == PlacedPath(id, yyyy, mm, name)
  {
    var path := PlacedAt(id, yyyy, mm, name);
    assert path[..3][..2][..1][..0] == [];
    assert path[..3][..2][..1] == [Hex(id)] && path[..3][..2] == [Hex(id), yyyy] && path[..3] == [Hex(id), yyyy, mm];
    assert JoinRel([Hex(id)]) == "originals" + "/" + Hex(id);
    assert JoinRel([Hex(id), yyyy]) == JoinRel([Hex(id)]) + "/" + yyyy;
    assert JoinRel([Hex(id), yyyy, mm]) == JoinRel([Hex(id), yyyy]) + "/" + mm;
    assert JoinRel(path) == JoinRel([Hex(id), yyyy, mm]) + "/" + name;
    hide JoinRel, Hex;
    assert "originals" + "/" == "originals/";
  }

  lemma PlacedIsVisible(media: map<string, string>, id: Device, yyyy: string, mm: string, name: string, i: nat)
    requires "" !in media && IsMedia(media, name) && !Hidden(name) && !Hidden(yyyy) && !Hidden(mm)
    ensures forall c | c in PlacedAt(id, yyyy, mm, Candidate(name, i)) :: !Hidden(c)
    ensures IsMedia(media, Candidate(name, i))
  {
    CandidateKeepsKind(media, name, i);
    HexDigitsOnly(id);
    assert Hex(id) != [] ==> Hex(id)[0] in Hex(id);
    hide Hex, Candidate;
  }

  /** ADR-006 for one photo, exactly. A non-empty file that an ingest has placed for a device, under a visible
      media name, comes back with the same hash, path, length and owner when the index is wiped and rebuilt
      if and only if no equal file sorts before it and the owner is readable from the path. */
  lemma PlacedFileComesBackExactlyWhen(
      entries: seq<Entry>, media: map<string, string>, local: Device,
      id: Device, yyyy: string, mm: string, name: string, i: nat, content: Bytes)
    requires WellFormed(entries) && content != []
    requires "" !in media && IsMedia(media, name) && !Hidden(name) && !Hidden(yyyy) && !Hidden(mm)
    requires Lookup(entries, PlacedAt(id, yyyy, mm, Candidate(name, i))) == Some(content)
    ensures var path := PlacedAt(id, yyyy, mm, Candidate(name, i));
            var rows := Scanned(entries, media, local, map[]).rows;
            && HashOf(content) in rows
            && (rows[HashOf(content)] == Row(PlacedPath(id, yyyy, mm, Candidate(name, i)), |content|, id, 0)
                <==> FirstWith(entries, media, path, content) && (|id| == 32 || id == local))
  {
    var h := HashOf(content);
    var path := PlacedAt(id, yyyy, mm, Candidate(name, i));
    PlacedIsVisible(media, id, yyyy, mm, name, i);
    PlacedAtJoins(id, yyyy, mm, Candidate(name, i));
    DeviceIsReadBackExactlyWhen32Bytes(id, yyyy, mm, Candidate(name, i), local);
    FoundNamesHaveNoSlash(entries, path);
    assert path[|path| - 1] == Candidate(name, i);
    assert Shows(entries, media, path, content);
    VisibleIsScanned(entries, media, local, map[], path, content);
    NewRowIsOfFirst(entries, media, local, map[], h);
    hide Scanned, JoinRel, DeviceAt, PlacedPath, PlacedAt, AtOrBefore, Candidate;
    var p :| FirstWith(entries, media, p, content);
    FoundNamesHaveNoSlash(entries, p);
    hide Lookup, VisibleMedia;
    if Scanned(entries, media, local, map[]).rows[h].relPath == JoinRel(path) {
      JoinIsInjective(p, path);
    }
    if FirstWith(entries, media, path, content) {
      FirstIsUnique(p, path);
    }
  }

  // --- after a crash -----------------------------------------------------------------------

  /** The tree below `originals/` is what the files of a protocol state look like. */
  ghost predicate TreeOf(entries: seq<Entry>, disk: map<Protocol.File, Bytes>) {
    forall p: Rel, content ::
      Lookup(entries, p) == Some(content) ==> Protocol.Holds(disk, Protocol.Library(JoinRel(p)), content)
  }

  ghost predicate SameRows(rows: map<Hash, Row>, relPaths: map<Hash, string>) {
    && (forall h :: h in rows <==> h in relPaths)
    && (forall h | h in rows :: rows[h].relPath == relPaths[h])
  }

  /** Concurrent ingests, a crash anywhere, then adoption: afterwards every visible, non-empty photo has its
      one row, and every row's file holds exactly the row's bytes. */
  lemma AdoptionCompletesInterruptedIngests(
      s: Protocol.Sys, run: seq<Protocol.Event>,
      entries: seq<Entry>, media: map<string, string>, local: Device, rows: map<Hash, Row>)
    requires IngestTheorems.AtRest(s) && Protocol.Feasible(s, run) && Protocol.CarefulRun(s, run)
    requires WellFormed(entries) && TreeOf(entries, Protocol.After(s, run).disk)
    requires SameRows(rows, Protocol.After(s, run).rows)
    ensures var disk := Protocol.After(s, run).disk;
            var adopted := Scanned(entries, media, local, rows).rows;
            && (forall h | h in adopted :: Protocol.Holds(disk, Protocol.Library(adopted[h].relPath), h.content))
            && (forall p, content | Shows(entries, media, p, content) && content != [] :: HashOf(content) in adopted)
  {
    IngestTheorems.IndexStaysTrue(s, run);
    AdoptionIsExact(entries, media, local, rows);
    var t := Protocol.After(s, run);
    hide Scanned, Protocol.After, AtOrBefore, VisibleMedia, DeviceAt, Protocol.Feasible, Protocol.CarefulRun;
    var adopted := Scanned(entries, media, local, rows).rows;
    forall h | h in adopted
      ensures Protocol.Holds(t.disk, Protocol.Library(adopted[h].relPath), h.content)
    {
      if h in rows {
        assert Protocol.Indexed(t, h);
      } else {
        var p :| FirstWith(entries, media, p, h.content);
      }
    }
    forall p, content | Shows(entries, media, p, content) && content != []
      ensures HashOf(content) in adopted
    {
      VisibleIsScanned(entries, media, local, rows, p, content);
    }
  }
}
