/** Rebuilding the index from the tree (ADR-006), and adopting files that have no row. Both run one scan: list
    the visible media files, sort them, insert a row for every content that has none. */
module Rebuild {
  import opened LibraryStore
  import opened LibraryLayout

  /** A path below `originals/`, component by component. */
  type Rel = seq<string>

  /** `Other`: a symbolic link, a socket and so on. */
  datatype Node = File(content: Bytes) | Dir(entries: seq<Entry>) | Other

  datatype Entry = Entry(name: string, node: Node)

  function Find(entries: seq<Entry>, name: string): Option<Node> {
    if entries == [] then None
    else if entries[0].name == name then Some(entries[0].node)
    else Find(entries[1..], name)
  }

  /** The regular file at a path. */
  function Lookup(entries: seq<Entry>, path: Rel): Option<Bytes>
    decreases |path|
  {
    if path == [] then None
    else
      match Find(entries, path[0])
      case Some(File(content)) => if |path| == 1 then Some(content) else None
      case Some(Dir(sub)) => Lookup(sub, path[1..])
      case _ => None
  }

  /** Names in a directory are distinct and hold no separator, all the way down. */
  predicate WellFormed(entries: seq<Entry>)
    decreases entries
  {
    entries == [] || (
      && '/' !in entries[0].name
      && Find(entries[1..], entries[0].name) == None
      && (entries[0].node.Dir? ==> WellFormed(entries[0].node.entries))
      && WellFormed(entries[1..]))
  }

  ghost predicate VisibleMedia(entries: seq<Entry>, media: map<string, string>, path: Rel) {
    && Lookup(entries, path).Some?
    && (forall name | name in path :: !Hidden(name))
    && IsMedia(media, path[|path| - 1])
  }

  // --- the walk ------------------------------------------------------------------

  function Collected(entries: seq<Entry>, prefix: Rel, media: map<string, string>): seq<Rel>
    decreases entries
  {
    if entries == [] then [] else CollectedAt(entries[0], prefix, media) + Collected(entries[1..], prefix, media)
  }

  function CollectedAt(e: Entry, prefix: Rel, media: map<string, string>): seq<Rel>
    decreases e
  {
    if Hidden(e.name) then []
    else
      match e.node
      case Dir(sub) => Collected(sub, prefix + [e.name], media)
      case File(_) => if IsMedia(media, e.name) then [prefix + [e.name]] else []
      case Other => []
  }

  method CollectFiles(entries: seq<Entry>, prefix: Rel, media: map<string, string>, found: seq<Rel>) returns (out: seq<Rel>)
    ensures out == found + Collected(entries, prefix, media)
    decreases entries
  {
    out := found;
    ghost var done := [];
    for i := 0 to |entries|
      invariant out == found + done
      invariant done + Collected(entries[i..], prefix, media) == Collected(entries, prefix, media)
    {
      var e := entries[i];
      assert entries[i..][0] == e && entries[i..][1..] == entries[i + 1..];
      ghost var rest := Collected(entries[i + 1..], prefix, media);
      assert done + (CollectedAt(e, prefix, media) + rest) == (done + CollectedAt(e, prefix, media)) + rest;
      done := done + CollectedAt(e, prefix, media);
      hide Collected, IsMedia, Hidden;
      if !Hidden(e.name) {
        match e.node {
          case Dir(sub) => out := CollectFiles(sub, prefix + [e.name], media, out);
          case File(_) =>
            if IsMedia(media, e.name) {
              out := out + [prefix + [e.name]];
            }
          case Other =>
        }
      }
    }
  }

  lemma {:induction false} WalkStaysBelow(entries: seq<Entry>, prefix: Rel, media: map<string, string>)
    ensures forall p | p in Collected(entries, prefix, media) :: |p| > |prefix| && prefix <= p
    decreases entries
  {
    if entries != [] {
      WalkStaysAt(entries[0], prefix, media);
      WalkStaysBelow(entries[1..], prefix, media);
    }
  }

  lemma {:induction false} WalkStaysAt(e: Entry, prefix: Rel, media: map<string, string>)
    ensures forall p | p in CollectedAt(e, prefix, media) :: |p| > |prefix| && prefix <= p && p[|prefix|] == e.name
    decreases e
  {
    if e.node.Dir? {
      var below := prefix + [e.name];
      WalkStaysBelow(e.node.entries, below, media);
      forall p | p in CollectedAt(e, prefix, media)
        ensures |p| > |prefix| && prefix <= p && p[|prefix|] == e.name
      {
        assert p[..|below|] == below && below[..|prefix|] == prefix;
      }
    }
  }

  lemma {:induction false} WalkFindsAt(e: Entry, prefix: Rel, media: map<string, string>, path: Rel)
    requires e.node.Dir? ==> WellFormed(e.node.entries)
    ensures prefix + path in CollectedAt(e, prefix, media) <==> VisibleMedia([e], media, path)
    decreases e
  {
    if path == [] || path[0] != e.name {
      WalkStaysAt(e, prefix, media);
      assert path != [] ==> (prefix + path)[|prefix|] == path[0] && Find([e], path[0]) == None;
    } else {
      var rest := path[1..];
      assert prefix + path == prefix + [e.name] + rest && path == [e.name] + rest;
      assert path[0] in path && Find([e], path[0]) == Some(e.node);
      match e.node {
        case Dir(sub) =>
          WalkFindsExactly(sub, prefix + [e.name], media, rest);
          assert Lookup([e], path) == Lookup(sub, rest);
          assert rest != [] ==> rest[|rest| - 1] == path[|path| - 1];
        case File(_) => assert prefix + path == prefix + [e.name] ==> |rest| == 0;
        case Other =>
      }
    }
  }

  /** The walk finds every visible media file, and nothing else. */
  lemma {:induction false} WalkFindsExactly(entries: seq<Entry>, prefix: Rel, media: map<string, string>, path: Rel)
    requires WellFormed(entries)
    ensures prefix + path in Collected(entries, prefix, media) <==> VisibleMedia(entries, media, path)
    decreases entries
  {
    if entries != [] {
      WalkFindsAt(entries[0], prefix, media, path);
      WalkFindsExactly(entries[1..], prefix, media, path);
      hide IsMedia, Hidden, CollectedAt;
      if path != [] {
        assert Find([entries[0]], path[0]) == if path[0] == entries[0].name then Some(entries[0].node) else None;
      }
    }
  }

  /** No path is found twice. */
  lemma {:induction false} WalkFindsOnceAt(e: Entry, prefix: Rel, media: map<string, string>)
    requires e.node.Dir? ==> WellFormed(e.node.entries)
    ensures forall p :: multiset(CollectedAt(e, prefix, media))[p] <= 1
    decreases e
  {
    if e.node.Dir? {
      WalkFindsOnce(e.node.entries, prefix + [e.name], media);
    }
  }

  lemma {:induction false} WalkFindsOnce(entries: seq<Entry>, prefix: Rel, media: map<string, string>)
    requires WellFormed(entries)
    ensures forall p :: multiset(Collected(entries, prefix, media))[p] <= 1
    decreases entries
  {
    if entries != [] {
      var here, others := CollectedAt(entries[0], prefix, media), Collected(entries[1..], prefix, media);
      WalkFindsOnceAt(entries[0], prefix, media);
      WalkFindsOnce(entries[1..], prefix, media);
      WalkStaysAt(entries[0], prefix, media);
      WalkStaysBelow(entries[1..], prefix, media);
      forall p | p in others
        ensures p !in here
      {
        assert prefix + p[|prefix|..] == p;
        WalkFindsExactly(entries[1..], prefix, media, p[|prefix|..]);
        assert p[|prefix|..][0] == p[|prefix|];
      }
      assert forall p :: p in multiset(here) <==> p in here;
      assert forall p :: p in multiset(others) <==> p in others;
    }
  }

  // --- the order of paths -------------------------------------------------------------

  predicate StringBefore(a: string, b: string) {
    b != [] && (a == [] || a[0] < b[0] || (a[0] == b[0] && StringBefore(a[1..], b[1..])))
  }

  /** The order of `Path`: component by component. */
  predicate Before(p: Rel, q: Rel) {
    q != [] && (p == [] || StringBefore(p[0], q[0]) || (p[0] == q[0] && Before(p[1..], q[1..])))
  }

  /** Alphabetic order: at the first place where the strings differ the smaller character comes first, and a
      string that ends there comes before the longer one. */
  lemma {:induction false} StringOrderIsAlphabetic(a: string, b: string)
    ensures StringBefore(a, b) <==>
            exists k: nat :: k <= |a| && k < |b| && a[..k] == b[..k] && (k < |a| ==> a[k] < b[k])
  {
    if a != [] && b != [] && a[0] == b[0] {
      StringOrderIsAlphabetic(a[1..], b[1..]);
      if StringBefore(a, b) {
        var k: nat :| k <= |a[1..]| && k < |b[1..]| && a[1..][..k] == b[1..][..k] && (k < |a[1..]| ==> a[1..][k] < b[1..][k]);
        assert a[..k + 1] == [a[0]] + a[1..][..k] && b[..k + 1] == [b[0]] + b[1..][..k];
      }
      forall k: nat | k <= |a| && k < |b| && a[..k] == b[..k] && (k < |a| ==> a[k] < b[k])
        ensures StringBefore(a, b)
      {
        assert k > 0;
        assert a[1..][..k - 1] == a[..k][1..] && b[1..][..k - 1] == b[..k][1..];
      }
    } else if StringBefore(a, b) {
      assert a[..0] == b[..0];
    } else {
      forall k: nat | 0 < k <= |a| && k < |b|
        ensures a[..k] != b[..k]
      {
        assert a[..k][0] == a[0] && b[..k][0] == b[0];
      }
    }
  }

  /** Paths likewise, by their first components that differ. */
  lemma {:induction false} PathOrderIsByComponent(p: Rel, q: Rel)
    ensures Before(p, q) <==>
            exists k: nat :: k <= |p| && k < |q| && p[..k] == q[..k] && (k < |p| ==> StringBefore(p[k], q[k]))
  {
    if p != [] && q != [] && p[0] == q[0] {
      StringNeverBeforeItself(p[0]);
      PathOrderIsByComponent(p[1..], q[1..]);
      if Before(p, q) {
        var k: nat :| k <= |p[1..]| && k < |q[1..]| && p[1..][..k] == q[1..][..k]
                      && (k < |p[1..]| ==> StringBefore(p[1..][k], q[1..][k]));
        assert p[..k + 1] == [p[0]] + p[1..][..k] && q[..k + 1] == [q[0]] + q[1..][..k];
      }
      forall k: nat | k <= |p| && k < |q| && p[..k] == q[..k] && (k < |p| ==> StringBefore(p[k], q[k]))
        ensures Before(p, q)
      {
        assert k > 0;
        assert p[1..][..k - 1] == p[..k][1..] && q[1..][..k - 1] == q[..k][1..];
      }
    } else if Before(p, q) {
      assert p[..0] == q[..0];
    } else {
      forall k: nat | 0 < k <= |p| && k < |q|
        ensures p[..k] != q[..k]
      {
        assert p[..k][0] == p[0] && q[..k][0] == q[0];
      }
    }
  }

  lemma {:induction false} StringsAreOrdered(a: string, b: string)
    ensures StringBefore(a, b) || a == b || StringBefore(b, a)
  {
    if a != [] && b != [] && a[0] == b[0] {
      StringsAreOrdered(a[1..], b[1..]);
      assert a == [a[0]] + a[1..] && b == [b[0]] + b[1..];
    }
  }

  lemma {:induction false} StringOrderIsTransitive(a: string, b: string, c: string)
    requires StringBefore(a, b) && StringBefore(b, c)
    ensures StringBefore(a, c)
  {
    if a != [] && a[0] == b[0] == c[0] {
      StringOrderIsTransitive(a[1..], b[1..], c[1..]);
    }
  }

  lemma {:induction false} PathsAreOrdered(p: Rel, q: Rel)
    ensures Before(p, q) || p == q || Before(q, p)
  {
    if p != [] && q != [] {
      StringsAreOrdered(p[0], q[0]);
      if p[0] == q[0] {
        PathsAreOrdered(p[1..], q[1..]);
        assert p == [p[0]] + p[1..] && q == [q[0]] + q[1..];
      }
    }
  }

  lemma {:induction false} PathOrderIsTransitive(p: Rel, q: Rel, r: Rel)
    requires Before(p, q) && Before(q, r)
    ensures Before(p, r)
  {
    if p != [] {
      if StringBefore(p[0], q[0]) && StringBefore(q[0], r[0]) {
        StringOrderIsTransitive(p[0], q[0], r[0]);
      } else if p[0] == q[0] == r[0] {
        PathOrderIsTransitive(p[1..], q[1..], r[1..]);
      }
    }
  }

  predicate AtOrBefore(p: Rel, q: Rel) {
    p == q || Before(p, q)
  }

  lemma AtOrBeforeIsTransitive(p: Rel, q: Rel, r: Rel)
    requires AtOrBefore(p, q) && AtOrBefore(q, r)
    ensures AtOrBefore(p, r)
  {
    if p != q && q != r {
      PathOrderIsTransitive(p, q, r);
    }
  }

  function Insert(p: Rel, s: seq<Rel>): (r: seq<Rel>)
    ensures multiset(r) == multiset(s) + multiset{p}
  {
    if s == [] || AtOrBefore(p, s[0]) then [p] + s
    else
      assert s == [s[0]] + s[1..];
      [s[0]] + Insert(p, s[1..])
  }

  function Sorted(s: seq<Rel>): (r: seq<Rel>)
    ensures multiset(r) == multiset(s)
  {
    if s == [] then []
    else
      assert s == [s[0]] + s[1..];
      Insert(s[0], Sorted(s[1..]))
  }

  ghost predicate Ordered(s: seq<Rel>) {
    forall i, j | 0 <= i < j < |s| :: AtOrBefore(s[i], s[j])
  }

  lemma {:induction false} InsertKeepsOrder(p: Rel, s: seq<Rel>)
    requires Ordered(s)
    ensures Ordered(Insert(p, s))
  {
    hide Before;
    if s == [] {
    } else if AtOrBefore(p, s[0]) {
      forall j | 0 <= j < |s|
        ensures AtOrBefore(p, s[j])
      {
        AtOrBeforeIsTransitive(p, s[0], s[j]);
      }
    } else {
      var r := Insert(p, s[1..]);
      InsertKeepsOrder(p, s[1..]);
      PathsAreOrdered(p, s[0]);
      forall j | 0 <= j < |r|
        ensures AtOrBefore(s[0], r[j])
      {
        assert r[j] in multiset(r);
        assert r[j] in multiset(s[1..]) || r[j] == p;
      }
    }
  }

  lemma {:induction false} SortedIsOrdered(s: seq<Rel>)
    ensures Ordered(Sorted(s))
  {
    if s != [] {
      SortedIsOrdered(s[1..]);
      InsertKeepsOrder(s[0], Sorted(s[1..]));
    }
  }

  // --- the scan -----------------------------------------------------------------------

  function JoinRel(path: Rel): string {
    if path == [] then "originals" else JoinRel(path[..|path| - 1]) + "/" + path[|path| - 1]
  }

  function RowOf(path: Rel, content: Bytes, local: Device): Row {
    Row(JoinRel(path), |content|, DeviceAt(JoinRel(path), local), 0)
  }

  datatype Scan = Scan(rows: map<Hash, Row>, inserted: nat, skipped: nat, empty: nat)

  function ScanFile(scan: Scan, path: Rel, content: Bytes, local: Device): Scan {
    if content == [] then scan.(empty := scan.empty + 1)
    else if HashOf(content) in scan.rows then scan.(skipped := scan.skipped + 1)
    else scan.(rows := scan.rows[HashOf(content) := RowOf(path, content, local)], inserted := scan.inserted + 1)
  }

  function ScanFiles(entries: seq<Entry>, files: seq<Rel>, local: Device, rows: map<Hash, Row>): Scan
    requires forall p | p in files :: Lookup(entries, p).Some?
  {
    if files == [] then Scan(rows, 0, 0, 0)
    else
      var last := files[|files| - 1];
      ScanFile(ScanFiles(entries, files[..|files| - 1], local, rows), last, Lookup(entries, last).value, local)
  }

  /** The files that a scan of a tree goes through, in order. */
  function FilesOf(entries: seq<Entry>, media: map<string, string>): (files: seq<Rel>)
    requires WellFormed(entries)
    ensures forall p :: p in files <==> VisibleMedia(entries, media, p)
    ensures Ordered(files)
    ensures multiset(files) == multiset(Collected(entries, [], media))
  {
    var found := Collected(entries, [], media);
    var files := Sorted(found);
    SortedIsOrdered(found);
    assert forall p :: p in files <==> VisibleMedia(entries, media, p) by {
      forall p
        ensures p in files <==> VisibleMedia(entries, media, p)
      {
        assert [] + p == p;
        WalkFindsExactly(entries, [], media, p);
        assert p in files <==> p in multiset(files);
        assert p in found <==> p in multiset(found);
      }
    }
    files
  }

  /** The scan of a tree with these rows in the index. */
  function Scanned(entries: seq<Entry>, media: map<string, string>, local: Device, rows: map<Hash, Row>): Scan
    requires WellFormed(entries)
  {
    ScanFiles(entries, FilesOf(entries, media), local, rows)
  }

  /** The first of these files with this content. */
  ghost predicate FirstIn(entries: seq<Entry>, files: seq<Rel>, path: Rel, content: Bytes) {
    && path in files && Lookup(entries, path) == Some(content)
    && forall q | q in files && Lookup(entries, q) == Some(content) :: AtOrBefore(path, q)
  }

  lemma FirstInPrefix(entries: seq<Entry>, files: seq<Rel>, path: Rel, content: Bytes)
    requires files != [] && Ordered(files) && FirstIn(entries, files[..|files| - 1], path, content)
    ensures FirstIn(entries, files, path, content)
  {
    hide AtOrBefore;
    var init := files[..|files| - 1];
    assert files == init + [files[|files| - 1]];
    var i :| 0 <= i < |init| && init[i] == path;
    assert AtOrBefore(files[i], files[|files| - 1]);
  }

  /** A scan counts every file once, keeps the rows it finds, and leaves no content without a row. */
  lemma {:induction false} ScanCounts(entries: seq<Entry>, files: seq<Rel>, local: Device, rows: map<Hash, Row>)
    requires forall p | p in files :: Lookup(entries, p).Some?
    ensures var s := ScanFiles(entries, files, local, rows);
            && s.inserted + s.skipped + s.empty == |files|
            && |s.rows| == |rows| + s.inserted
            && (forall h | h in rows :: h in s.rows && s.rows[h] == rows[h])
            && (forall p | p in files && Lookup(entries, p).value != [] :: HashOf(Lookup(entries, p).value) in s.rows)
  {
    hide Lookup, RowOf;
    if files != [] {
      var init := files[..|files| - 1];
      assert files == init + [files[|files| - 1]];
      ScanCounts(entries, init, local, rows);
    }
  }

  lemma OnceStaysOnce(init: seq<Rel>, last: Rel)
    requires forall p :: multiset(init + [last])[p] <= 1
    ensures forall p :: multiset(init)[p] <= 1
    ensures last !in init
  {
    var all := multiset(init) + multiset{last};
    assert multiset(init + [last]) == all;
    forall p
      ensures multiset(init)[p] <= 1
    {
      assert all[p] <= 1;
    }
    assert all[last] <= 1;
    assert last in init <==> last in multiset(init);
  }

  ghost function EmptyAmong(entries: seq<Entry>, files: seq<Rel>): set<Rel> {
    set p | p in files && Lookup(entries, p) == Some([])
  }

  /** Left aside as empty are the files without content, each one once. */
  lemma {:induction false} EmptyFilesAreCounted(entries: seq<Entry>, files: seq<Rel>, local: Device, rows: map<Hash, Row>)
    requires forall p | p in files :: Lookup(entries, p).Some?
    requires forall p :: multiset(files)[p] <= 1
    ensures ScanFiles(entries, files, local, rows).empty == |EmptyAmong(entries, files)|
  {
    hide Lookup, RowOf;
    if files != [] {
      var init, last := files[..|files| - 1], files[|files| - 1];
      assert files == init + [last];
      OnceStaysOnce(init, last);
      EmptyFilesAreCounted(entries, init, local, rows);
      var before, after := EmptyAmong(entries, init), EmptyAmong(entries, files);
      if Lookup(entries, last) == Some([]) {
        assert after == before + {last};
      } else {
        assert after == before;
      }
    }
  }

  /** Every new row is the row of the first file with its content. */
  lemma {:induction false} ScanFindsFirst(entries: seq<Entry>, files: seq<Rel>, local: Device, rows: map<Hash, Row>, h: Hash)
    requires Ordered(files) && forall p | p in files :: Lookup(entries, p).Some?
    requires h in ScanFiles(entries, files, local, rows).rows && h !in rows
    ensures h.content != []
    ensures exists p :: FirstIn(entries, files, p, h.content)
                        && ScanFiles(entries, files, local, rows).rows[h] == RowOf(p, h.content, local)
  {
    hide AtOrBefore, Lookup, RowOf, Ordered;
    var init, last := files[..|files| - 1], files[|files| - 1];
    assert files == init + [last];
    OrderedPrefix(files);
    var before := ScanFiles(entries, init, local, rows);
    ScanCounts(entries, init, local, rows);
    if h in before.rows {
      ScanFindsFirst(entries, init, local, rows, h);
      var p :| FirstIn(entries, init, p, h.content) && before.rows[h] == RowOf(p, h.content, local);
      hide FirstIn;
      FirstInPrefix(entries, files, p, h.content);
    } else {
      NewIsFirst(entries, files, h.content);
      hide FirstIn;
    }
  }

  lemma OrderedPrefix(files: seq<Rel>)
    requires files != [] && Ordered(files)
    ensures Ordered(files[..|files| - 1])
  {
    hide AtOrBefore;
  }

  lemma NewIsFirst(entries: seq<Entry>, files: seq<Rel>, content: Bytes)
    requires files != [] && Lookup(entries, files[|files| - 1]) == Some(content)
    requires forall p | p in files[..|files| - 1] :: Lookup(entries, p) != Some(content)
    ensures FirstIn(entries, files, files[|files| - 1], content)
  {
    assert files == files[..|files| - 1] + [files[|files| - 1]];
  }

  // --- the operations --------------------------------------------------------------------

  /** The content at a visible path. */
  ghost predicate Shows(entries: seq<Entry>, media: map<string, string>, path: Rel, content: Bytes) {
    VisibleMedia(entries, media, path) && Lookup(entries, path) == Some(content)
  }

  /** The first of the visible paths with this content. */
  ghost predicate FirstWith(entries: seq<Entry>, media: map<string, string>, path: Rel, content: Bytes) {
    && Shows(entries, media, path, content)
    && forall q | Shows(entries, media, q, content) :: AtOrBefore(path, q)
  }

  class Index {
    var rows: map<Hash, Row>

    constructor (rows: map<Hash, Row>)
      ensures this.rows == rows
    {
      this.rows := rows;
    }

    method IndexMissingFiles(entries: seq<Entry>, media: map<string, string>, local: Device)
      returns (inserted: nat, skipped: nat, empty: nat)
      requires WellFormed(entries)
      modifies this
      ensures Scan(rows, inserted, skipped, empty) == Scanned(entries, media, local, old(rows))
    {
      var found := CollectFiles(entries, [], media, []);
      var files := Sorted(found);
      assert found == Collected(entries, [], media) && files == FilesOf(entries, media);
      hide Collected, Sorted, Lookup, ScanFiles;
      inserted, skipped, empty := IndexFiles(entries, files, local);
    }

    method IndexFiles(entries: seq<Entry>, files: seq<Rel>, local: Device)
      returns (inserted: nat, skipped: nat, empty: nat)
      requires forall p | p in files :: Lookup(entries, p).Some?
      modifies this
      ensures Scan(rows, inserted, skipped, empty) == ScanFiles(entries, files, local, old(rows))
    {
      hide DeviceAt, JoinRel, Lookup;
      inserted, skipped, empty := 0, 0, 0;
      for i := 0 to |files|
        invariant forall p | p in files[..i] :: Lookup(entries, p).Some?
        invariant Scan(rows, inserted, skipped, empty) == ScanFiles(entries, files[..i], local, old(rows))
      {
        assert files[..i + 1] == files[..i] + [files[i]] && files[..i + 1][..i] == files[..i];
        var content := Lookup(entries, files[i]).value;
        if content == [] {
          empty := empty + 1;
        } else if HashOf(content) in rows {
          skipped := skipped + 1;
        } else {
          var relPath := JoinRel(files[i]);
          var device := DeviceOf(relPath, local);
          rows := rows[HashOf(content) := Row(relPath, |content|, device, 0)];
          inserted := inserted + 1;
        }
      }
      assert files[..|files|] == files;
    }

    /** The old rows do not matter. */
    method Rebuild(entries: seq<Entry>, media: map<string, string>, local: Device) returns (indexed: nat, duplicates: nat)
      requires WellFormed(entries)
      modifies this
      ensures var s := Scanned(entries, media, local, map[]);
              rows == s.rows && indexed == s.inserted && duplicates == s.skipped
    {
      rows := map[];
      var empty;
      indexed, duplicates, empty := IndexMissingFiles(entries, media, local);
    }

    method AdoptOrphans(entries: seq<Entry>, media: map<string, string>, local: Device)
      returns (adopted: nat, alreadyIndexed: nat, skippedEmpty: nat)
      requires WellFormed(entries)
      modifies this
      ensures Scan(rows, adopted, alreadyIndexed, skippedEmpty) == Scanned(entries, media, local, old(rows))
    {
      adopted, alreadyIndexed, skippedEmpty := IndexMissingFiles(entries, media, local);
    }
  }

  /** A row of a scan is the row of the first path, among all visible ones, with that content. */
  lemma NewRowIsOfFirst(entries: seq<Entry>, media: map<string, string>, local: Device, rows: map<Hash, Row>, h: Hash)
    requires WellFormed(entries)
    requires h in Scanned(entries, media, local, rows).rows && h !in rows
    ensures h.content != []
    ensures exists p :: FirstWith(entries, media, p, h.content)
    ensures forall p | FirstWith(entries, media, p, h.content) ::
              Scanned(entries, media, local, rows).rows[h] == RowOf(p, h.content, local)
  {
    var files := FilesOf(entries, media);
    ScanFindsFirst(entries, files, local, rows, h);
    hide AtOrBefore, Lookup, RowOf, FilesOf, ScanFiles, VisibleMedia;
    var q :| FirstIn(entries, files, q, h.content)
             && ScanFiles(entries, files, local, rows).rows[h] == RowOf(q, h.content, local);
    assert FirstWith(entries, media, q, h.content);
    forall p | FirstWith(entries, media, p, h.content)
      ensures p == q
    {
      FirstIsUnique(p, q);
    }
  }

  lemma VisibleIsScanned(entries: seq<Entry>, media: map<string, string>, local: Device, rows: map<Hash, Row>, p: Rel, content: Bytes)
    requires WellFormed(entries) && Shows(entries, media, p, content) && content != []
    ensures HashOf(content) in Scanned(entries, media, local, rows).rows
  {
    var files := FilesOf(entries, media);
    ScanCounts(entries, files, local, rows);
    hide Lookup, FilesOf, ScanFiles, VisibleMedia, Ordered;
    assert p in files;
  }

  lemma {:induction false} OnceMeansAsManyAsPaths(files: seq<Rel>)
    requires forall p :: multiset(files)[p] <= 1
    ensures |set p | p in files| == |files|
  {
    if files != [] {
      var init, last := files[..|files| - 1], files[|files| - 1];
      assert files == init + [last];
      OnceStaysOnce(init, last);
      OnceMeansAsManyAsPaths(init);
      assert (set p | p in files) == (set p | p in init) + {last};
    }
  }

  lemma SameMembers(a: seq<Rel>, b: seq<Rel>)
    requires multiset(a) == multiset(b)
    ensures forall p :: p in a <==> p in b
  {
    forall p
      ensures p in a <==> p in b
    {
      assert p in a <==> p in multiset(a);
      assert p in b <==> p in multiset(b);
    }
  }

  lemma SameSets(entries: seq<Entry>, media: map<string, string>, files: seq<Rel>, found: seq<Rel>)
    requires multiset(files) == multiset(found)
    requires forall p | p in files :: VisibleMedia(entries, media, p)
    ensures (set p | p in files) == set p | p in found
    ensures EmptyAmong(entries, files) == set p | p in found && Shows(entries, media, p, [])
  {
    SameMembers(files, found);
    hide VisibleMedia, Lookup;
  }

  lemma EachVisibleFileIsCounted(entries: seq<Entry>, media: map<string, string>, local: Device, rows: map<Hash, Row>)
    requires WellFormed(entries)
    ensures var s := Scanned(entries, media, local, rows);
            && s.inserted + s.skipped + s.empty == |set p | p in Collected(entries, [], media)|
            && s.empty == |set p | p in Collected(entries, [], media) && Shows(entries, media, p, [])|
  {
    hide Lookup, RowOf, FilesOf, ScanFiles, Collected, Sorted, Ordered, Shows, VisibleMedia;
    var files := FilesOf(entries, media);
    WalkFindsOnce(entries, [], media);
    assert forall p | p in files :: Lookup(entries, p).Some? by {
      VisibleIsThere(entries, media, files);
    }
    ScanCounts(entries, files, local, rows);
    EmptyFilesAreCounted(entries, files, local, rows);
    OnceMeansAsManyAsPaths(files);
    SameSets(entries, media, files, Collected(entries, [], media));
  }

  lemma VisibleIsThere(entries: seq<Entry>, media: map<string, string>, files: seq<Rel>)
    requires forall p | p in files :: VisibleMedia(entries, media, p)
    ensures forall p | p in files :: Lookup(entries, p).Some?
  {
  }

  /** Adoption, exactly: rows stay; a content gets a row if and only if some visible, non-empty media file has
      it; the row is the one of the first such path; and every file is counted once. */
  lemma AdoptionIsExact(entries: seq<Entry>, media: map<string, string>, local: Device, rows: map<Hash, Row>)
    requires WellFormed(entries)
    ensures var s := Scanned(entries, media, local, rows);
            && (forall h | h in rows :: h in s.rows && s.rows[h] == rows[h])
            && (forall h | h !in rows :: h in s.rows <==> h.content != [] && exists p :: Shows(entries, media, p, h.content))
            && (forall h | h in s.rows && h !in rows ::
                  && (exists p :: FirstWith(entries, media, p, h.content))
                  && (forall p | FirstWith(entries, media, p, h.content) :: s.rows[h] == RowOf(p, h.content, local)))
            && |s.rows| == |rows| + s.inserted
            && s.inserted + s.skipped + s.empty == |set p | p in Collected(entries, [], media)|
            && s.empty == |set p | p in Collected(entries, [], media) && Shows(entries, media, p, [])|
  {
    var files := FilesOf(entries, media);
    var s := Scanned(entries, media, local, rows);
    ScanCounts(entries, files, local, rows);
    EachVisibleFileIsCounted(entries, media, local, rows);
    hide AtOrBefore, Lookup, RowOf, FilesOf, ScanFiles, Collected, VisibleMedia, Scanned, FirstIn;
    forall h | h in s.rows && h !in rows
      ensures h.content != []
      ensures exists p :: FirstWith(entries, media, p, h.content)
      ensures forall p | FirstWith(entries, media, p, h.content) :: s.rows[h] == RowOf(p, h.content, local)
    {
      NewRowIsOfFirst(entries, media, local, rows, h);
    }
    forall h: Hash | h.content != [] && exists p :: Shows(entries, media, p, h.content)
      ensures h in s.rows
    {
      var p :| Shows(entries, media, p, h.content);
      VisibleIsScanned(entries, media, local, rows, p, h.content);
    }
  }

  lemma FirstIsUnique(p: Rel, q: Rel)
    requires AtOrBefore(p, q) && AtOrBefore(q, p)
    ensures p == q
  {
    if p != q {
      PathOrderIsTransitive(p, q, p);
      NeverBeforeItself(p);
    }
  }

  lemma {:induction false} StringNeverBeforeItself(a: string)
    ensures !StringBefore(a, a)
  {
    if a != [] {
      StringNeverBeforeItself(a[1..]);
    }
  }

  lemma {:induction false} NeverBeforeItself(p: Rel)
    ensures !Before(p, p)
  {
    if p != [] {
      StringNeverBeforeItself(p[0]);
      NeverBeforeItself(p[1..]);
    }
  }
}
