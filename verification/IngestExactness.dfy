/** The rules of `IngestProtocol` are needed, each exactly: what a duplicate, or a failing insert, can cost; and
    how a library at rest comes to the scene where it happens. */
module IngestExactness {
  import opened LibraryStore
  import opened IngestProtocol
  import opened IngestSafety
  import opened IngestTheorems

  // --- duplicates ------------------------------------------------------------------

  /** Nobody has the bytes but that incoming file and, perhaps, the file at `rel`. */
  ghost predicate OnlyComingIn(disk: map<File, Bytes>, id: nat, rel: string, content: Bytes) {
    && (forall r | Holds(disk, Library(r), content) :: r == rel)
    && (forall k | Holds(disk, Incoming(k), content) :: k == id)
  }

  /** When an ingest finds its hash in the index and looks whether the row's file exists, its bytes are safe in
      every later run that obeys the rules if and only if a file found there holds them. */
  lemma DuplicateIsSafeExactlyWhenTrue(s: Sys, id: nat)
    requires Inv(s) && Enabled(s, Advance(id, CheckFile))
    requires OnlyComingIn(s.disk, id, s.jobs[id].pc.rel, s.jobs[id].content)
    ensures !Doomed(Do(s, Advance(id, CheckFile)), s.jobs[id].content) <==> TrueDuplicate(s, id)
  {
    var e, content := Advance(id, CheckFile), s.jobs[id].content;
    assert FilesInv(s.disk, s.pid, id, s.jobs[id]);
    assert Holds(s.disk, Incoming(id), content) && content != [];
    if TrueDuplicate(s, id) {
      assert Polite(s, e);
      StaysSafe(s, e, content);
    } else {
      FalseDuplicateDooms(s, id);
    }
  }

  /** A step that obeys the rules leaves present bytes safe. */
  lemma StaysSafe(s: Sys, e: Event, content: Bytes)
    requires Inv(s) && Enabled(s, e) && Polite(s, e) && content != [] && Present(s, content)
    ensures !Doomed(Do(s, e), content)
  {
    hide *;
    EventKeeps(s, e);
    EventKeepsPresent(s, e, content);
    NotDoomed(Do(s, e), content);
  }

  lemma NotDoomed(s: Sys, content: Bytes)
    requires Inv(s) && content != [] && Present(s, content)
    ensures !Doomed(s, content)
  {
    hide Inv, Present;
    forall run | Feasible(s, run) && PoliteRun(s, run)
      ensures Present(After(s, run), content)
    {
      NothingIsLost(s, run, content);
    }
  }

  lemma FalseDuplicateDooms(s: Sys, id: nat)
    requires Enabled(s, Advance(id, CheckFile)) && !TrueDuplicate(s, id)
    requires OnlyComingIn(s.disk, id, s.jobs[id].pc.rel, s.jobs[id].content)
    ensures Doomed(Do(s, Advance(id, CheckFile)), s.jobs[id].content)
  {
    var content := s.jobs[id].content;
    var t := Do(s, Advance(id, CheckFile));
    assert t.jobs[id].pc == Duplicate && t.disk == s.disk;
    var u := Do(t, Advance(id, Forget));
    assert u.disk == s.disk - {Incoming(id)};
    assert forall f | f in u.disk :: f in s.disk && u.disk[f] == s.disk[f] && f != Incoming(id);
    assert !Present(u, content) by {
      if Kept(u.disk, content) {
        var r :| Holds(u.disk, Library(r), content);
        assert Holds(s.disk, Library(r), content);
      }
      if Waiting(u.disk, content) {
        var k :| Holds(u.disk, Incoming(k), content);
        assert Holds(s.disk, Incoming(k), content);
      }
    }
    DoomedNow(u, content);
    DoomedBefore(t, Advance(id, Forget), content);
  }

  // --- inserts -----------------------------------------------------------------------

  /** When an ingest inserts the row of the only copy of some bytes, they are safe in every later run that obeys
      the rules if and only if the insert does not fail for another reason than a taken hash. */
  lemma InsertIsSafeExactlyWhenNoError(s: Sys, id: nat, dbError: bool)
    requires Inv(s) && Enabled(s, Advance(id, Insert(dbError)))
    requires OnlyAt(s.disk, s.jobs[id].pc.rel, s.jobs[id].content)
    ensures !Doomed(Do(s, Advance(id, Insert(dbError))), s.jobs[id].content) <==> !dbError
  {
    var content := s.jobs[id].content;
    assert FilesInv(s.disk, s.pid, id, s.jobs[id]);
    assert Kept(s.disk, content) && content != [];
    if dbError {
      FailedInsertTakesBack(s, id);
    } else {
      assert Polite(s, Advance(id, Insert(false)));
      StaysSafe(s, Advance(id, Insert(false)), content);
    }
  }

  lemma FailedInsertTakesBack(s: Sys, id: nat)
    requires Enabled(s, Advance(id, Insert(true)))
    requires OnlyAt(s.disk, s.jobs[id].pc.rel, s.jobs[id].content)
    ensures Doomed(Do(s, Advance(id, Insert(true))), s.jobs[id].content)
  {
    var content, rel := s.jobs[id].content, s.jobs[id].pc.rel;
    var t := Do(s, Advance(id, Insert(true)));
    assert t.jobs[id].pc == Undoing(rel) && t.disk == s.disk;
    var u := Do(t, Advance(id, Undo(false)));
    assert forall f | f in u.disk :: f in s.disk && f != Library(rel) && u.disk[f] == s.disk[f];
    assert !Present(u, content) by {
      if Kept(u.disk, content) {
        var r :| Holds(u.disk, Library(r), content);
        assert Holds(s.disk, Library(r), content);
      }
    }
    DoomedNow(u, content);
    DoomedBefore(t, Advance(id, Undo(false)), content);
  }

  // --- how it comes to that --------------------------------------------------------------

  /** What is done to the library from outside, between the steps of the ingests: a file is deleted. */
  function Deleted(s: Sys, rel: string): Sys {
    s.(disk := s.disk - {Library(rel)})
  }

  function OnePhoto(content: Bytes, name: string): Sys {
    Sys(map[Library(name) := content], map[HashOf(content) := name], map[], {}, 0)
  }

  /** The other photo has taken the free name; its ingest has not evicted the row yet. */
  function NameTaken(content: Bytes, other: Bytes, dir: string, name: string): Sys {
    Sys(map[Library(name) := other], map[HashOf(content) := name],
        map[0 := Job(dir, [name], other, false, Placed(name))], {}, 0)
  }

  /** The scene of `StaleRowDooms` is within reach: from a library at rest with one photo, somebody deletes its
      file, and a run that obeys the rules brings another photo to that name and the first one back to staging. */
  lemma StaleSceneIsReached(content: Bytes, other: Bytes, dir: string, name: string)
    requires content != [] && other != [] && content != other
    ensures AtRest(OnePhoto(content, name))
    ensures Reaches(Deleted(OnePhoto(content, name), name), StaleScene(content, other, dir, name))
  {
    assert AtRest(OnePhoto(content, name));
    OtherPhotoTakesName(content, other, dir, name);
    PhotoComesBack(content, other, dir, name);
    ReachesThrough(Deleted(OnePhoto(content, name), name), NameTaken(content, other, dir, name), StaleScene(content, other, dir, name));
  }

  lemma {:induction false} RunsJoin(s: Sys, first: seq<Event>, second: seq<Event>)
    requires Feasible(s, first) && PoliteRun(s, first)
    requires Feasible(After(s, first), second) && PoliteRun(After(s, first), second)
    ensures Feasible(s, first + second) && PoliteRun(s, first + second)
    ensures After(s, first + second) == After(After(s, first), second)
    decreases |first|
  {
    if first == [] {
      assert first + second == second;
    } else {
      hide Do, Polite;
      RunsJoin(Do(s, first[0]), first[1..], second);
      assert first + second == [first[0]] + (first[1..] + second);
      Prepend(s, first[0], first[1..] + second);
    }
  }

  lemma ReachesThrough(s: Sys, t: Sys, u: Sys)
    requires Reaches(s, t) && Reaches(t, u)
    ensures Reaches(s, u)
  {
    var first :| Feasible(s, first) && PoliteRun(s, first) && After(s, first) == t;
    var second :| Feasible(t, second) && PoliteRun(t, second) && After(t, second) == u;
    RunsJoin(s, first, second);
  }

  /** A file arrives, and its ingest has hashed it. */
  function HashedIn(s: Sys, id: nat, content: Bytes, dir: string, name: string): Sys {
    s.(disk := s.disk[Incoming(id) := content], jobs := s.jobs[id := Job(dir, [name], content, false, Hashed)])
  }

  lemma FileIsHashed(s: Sys, id: nat, content: Bytes, dir: string, name: string)
    requires content != [] && Incoming(id) !in s.disk && id !in s.jobs
    ensures Reaches(s, HashedIn(s, id, content, dir, name))
  {
    var s0 := s.(disk := s.disk[Incoming(id) := content]);
    var s1 := s0.(jobs := s.jobs[id := Job(dir, [name], [], false, Started)]);
    var s2 := HashedIn(s, id, content, dir, name);
    assert Do(s, Deliver(id, content)) == s0;
    assert Do(s0, Begin(id, dir, [name])) == s1;
    assert s1.jobs[id := s2.jobs[id]] == s2.jobs;
    assert Do(s1, Advance(id, ReadHash)) == s2;
    hide EffectOf, DoStep, Do, Reaches, HashedIn;
    ReachesItself(s2);
    ReachesBefore(s1, Advance(id, ReadHash), s2);
    ReachesBefore(s0, Begin(id, dir, [name]), s2);
    ReachesBefore(s, Deliver(id, content), s2);
  }

  lemma OtherPhotoTakesName(content: Bytes, other: Bytes, dir: string, name: string)
    requires content != [] && other != [] && content != other
    ensures Reaches(Deleted(OnePhoto(content, name), name), NameTaken(content, other, dir, name))
  {
    var s := Deleted(OnePhoto(content, name), name);
    assert s.disk == map[];
    FileIsHashed(s, 0, other, dir, name);
    HashedFileIsPlaced(content, other, dir, name);
    hide Reaches, HashedIn, NameTaken, OnePhoto;
    ReachesThrough(s, HashedIn(s, 0, other, dir, name), NameTaken(content, other, dir, name));
  }

  /** The other photo is hashed, and no file has the name. */
  function OtherHashed(content: Bytes, other: Bytes, dir: string, name: string): Sys {
    Sys(map[Incoming(0) := other], map[HashOf(content) := name], map[0 := Job(dir, [name], other, false, Hashed)], {}, 0)
  }

  lemma HashedFileIsPlaced(content: Bytes, other: Bytes, dir: string, name: string)
    requires content != [] && other != [] && content != other
    ensures Reaches(HashedIn(Deleted(OnePhoto(content, name), name), 0, other, dir, name), NameTaken(content, other, dir, name))
  {
    var s, u := OtherHashed(content, other, dir, name), NameTaken(content, other, dir, name);
    assert HashedIn(Deleted(OnePhoto(content, name), name), 0, other, dir, name) == s;
    var t := s.(jobs := map[0 := Job(dir, [name], other, false, Trying(0))]);
    assert Do(s, Advance(0, Lookup)) == t;
    hide EffectOf, DoStep, Do, Reaches, HashedIn, NameTaken, OtherHashed;
    PublishedFileIsPlaced(content, other, dir, name);
    ReachesBefore(s, Advance(0, Lookup), u);
  }

  /** It has the name now and is still in staging. */
  function OtherPublished(content: Bytes, other: Bytes, dir: string, name: string): Sys {
    Sys(map[Incoming(0) := other, Library(name) := other], map[HashOf(content) := name],
        map[0 := Job(dir, [name], other, false, Published(name, None))], {}, 0)
  }

  lemma OtherIsPublished(content: Bytes, other: Bytes, dir: string, name: string)
    requires content != [] && other != [] && content != other
    ensures var s := OtherHashed(content, other, dir, name).(jobs := map[0 := Job(dir, [name], other, false, Trying(0))]);
            Enabled(s, Advance(0, Link(false))) && Do(s, Advance(0, Link(false))) == OtherPublished(content, other, dir, name)
  {
    hide Reaches, OtherAt;
  }

  lemma PublishedFileIsPlaced(content: Bytes, other: Bytes, dir: string, name: string)
    requires content != [] && other != [] && content != other
    ensures Reaches(OtherHashed(content, other, dir, name).(jobs := map[0 := Job(dir, [name], other, false, Trying(0))]),
                    NameTaken(content, other, dir, name))
  {
    var s := OtherHashed(content, other, dir, name).(jobs := map[0 := Job(dir, [name], other, false, Trying(0))]);
    var t, u := OtherPublished(content, other, dir, name), NameTaken(content, other, dir, name);
    OtherIsPublished(content, other, dir, name);
    assert t.disk - {Incoming(0)} == u.disk;
    assert Do(t, Advance(0, DropIncoming)) == u;
    hide EffectOf, DoStep, Do, Reaches, NameTaken, OtherHashed, OtherPublished;
    ReachesItself(u);
    ReachesBefore(t, Advance(0, DropIncoming), u);
    ReachesBefore(s, Advance(0, Link(false)), u);
  }

  lemma PhotoComesBack(content: Bytes, other: Bytes, dir: string, name: string)
    requires content != [] && other != [] && content != other
    ensures Reaches(NameTaken(content, other, dir, name), StaleScene(content, other, dir, name))
  {
    var s := NameTaken(content, other, dir, name);
    var t := HashedIn(s, 1, content, dir, name);
    var u := StaleScene(content, other, dir, name);
    FileIsHashed(s, 1, content, dir, name);
    assert Do(t, Advance(1, Lookup)) == u;
    hide EffectOf, DoStep, Do, Reaches, HashedIn, NameTaken, StaleScene;
    ReachesItself(u);
    ReachesBefore(t, Advance(1, Lookup), u);
    ReachesThrough(s, t, u);
  }

  // --- two rows on one path -------------------------------------------------------------------

  function TwoPhotos(content: Bytes, other: Bytes, rel: string, name: string): Sys {
    Sys(map[Library(rel) := content, Library(name) := other], map[HashOf(content) := rel, HashOf(other) := name], map[], {}, 0)
  }

  /** Both files have been deleted, and the first photo comes in again, under the other's name. */
  function ComesAgain(content: Bytes, other: Bytes, dir: string, rel: string, name: string, pc: Pc): Sys {
    Sys(map[Incoming(0) := content], map[HashOf(content) := rel, HashOf(other) := name],
        map[0 := Job(dir, [name], content, pc.Trying?, pc)], {}, 0)
  }

  function PublishedAgain(content: Bytes, other: Bytes, dir: string, rel: string, name: string): Sys {
    ComesAgain(content, other, dir, rel, name, Trying(0)).(
      disk := map[Incoming(0) := content, Library(name) := content],
      jobs := map[0 := Job(dir, [name], content, true, Published(name, None))])
  }

  function PlacedAgain(content: Bytes, other: Bytes, dir: string, rel: string, name: string): Sys {
    PublishedAgain(content, other, dir, rel, name).(
      disk := map[Library(name) := content], jobs := map[0 := Job(dir, [name], content, true, Placed(name))])
  }

  /** Both rows at the one path. */
  function OnePath(content: Bytes, other: Bytes, name: string): Sys {
    Sys(map[Library(name) := content], map[HashOf(content) := name, HashOf(other) := name], map[], {}, 0)
  }

  /** Two rows come to one path without breaking any rule. From a library at rest with two photos, somebody
      deletes both files, and the first photo is uploaded again under the second one's name: its row is
      re-pointed there, and the second row stays. */
  lemma TwoRowsOnOnePath(content: Bytes, other: Bytes, dir: string, rel: string, name: string)
    requires content != [] && other != [] && content != other && rel != name
    ensures AtRest(TwoPhotos(content, other, rel, name))
    ensures Reaches(Deleted(Deleted(TwoPhotos(content, other, rel, name), rel), name), OnePath(content, other, name))
  {
    var start := TwoPhotos(content, other, rel, name);
    assert AtRest(start);
    var s := Deleted(Deleted(start, rel), name);
    assert s.disk == map[];
    FileIsHashed(s, 0, content, dir, name);
    assert HashedIn(s, 0, content, dir, name) == ComesAgain(content, other, dir, rel, name, Hashed);
    hide Reaches, HashedIn, ComesAgain, TwoPhotos, OnePath;
    MissingFileIsFound(content, other, dir, rel, name);
    PhotoIsPlacedAgain(content, other, dir, rel, name);
    var t, u := ComesAgain(content, other, dir, rel, name, Hashed), ComesAgain(content, other, dir, rel, name, Trying(0));
    ReachesThrough(t, u, OnePath(content, other, name));
    ReachesThrough(s, t, OnePath(content, other, name));
  }

  /** The row's file is missing, so the photo is placed again. */
  lemma MissingFileIsFound(content: Bytes, other: Bytes, dir: string, rel: string, name: string)
    requires content != [] && other != [] && content != other && rel != name
    ensures Reaches(ComesAgain(content, other, dir, rel, name, Hashed), ComesAgain(content, other, dir, rel, name, Trying(0)))
  {
    var s := ComesAgain(content, other, dir, rel, name, Hashed);
    var t := ComesAgain(content, other, dir, rel, name, Known(rel));
    var u := ComesAgain(content, other, dir, rel, name, Trying(0));
    assert Do(s, Advance(0, Lookup)) == t;
    assert Do(t, Advance(0, CheckFile)) == u;
    hide EffectOf, DoStep, Do, Reaches, ComesAgain;
    ReachesItself(u);
    ReachesBefore(t, Advance(0, CheckFile), u);
    ReachesBefore(s, Advance(0, Lookup), u);
  }

  lemma PhotoIsPlacedAgain(content: Bytes, other: Bytes, dir: string, rel: string, name: string)
    requires content != [] && other != [] && content != other && rel != name
    ensures Reaches(ComesAgain(content, other, dir, rel, name, Trying(0)), OnePath(content, other, name))
  {
    var s, t := ComesAgain(content, other, dir, rel, name, Trying(0)), PublishedAgain(content, other, dir, rel, name);
    var u, v := PlacedAgain(content, other, dir, rel, name), OnePath(content, other, name);
    AgainIsPublished(content, other, dir, rel, name);
    AgainIsPlaced(content, other, dir, rel, name);
    AgainIsSettled(content, other, dir, rel, name);
    hide EffectOf, DoStep, Do, Reaches, ComesAgain, PublishedAgain, PlacedAgain, OnePath, Enabled;
    ReachesItself(v);
    ReachesBefore(u, Advance(0, Settle), v);
    ReachesBefore(t, Advance(0, DropIncoming), v);
    ReachesBefore(s, Advance(0, Link(false)), v);
  }

  lemma AgainIsPublished(content: Bytes, other: Bytes, dir: string, rel: string, name: string)
    ensures var s := ComesAgain(content, other, dir, rel, name, Trying(0));
            Enabled(s, Advance(0, Link(false))) && Do(s, Advance(0, Link(false))) == PublishedAgain(content, other, dir, rel, name)
  {
    hide Reaches, OtherAt;
  }

  lemma AgainIsPlaced(content: Bytes, other: Bytes, dir: string, rel: string, name: string)
    ensures var s := PublishedAgain(content, other, dir, rel, name);
            Enabled(s, Advance(0, DropIncoming)) && Do(s, Advance(0, DropIncoming)) == PlacedAgain(content, other, dir, rel, name)
  {
    hide Reaches, OtherAt;
    assert PublishedAgain(content, other, dir, rel, name).disk - {Incoming(0)} == map[Library(name) := content];
  }

  lemma AgainIsSettled(content: Bytes, other: Bytes, dir: string, rel: string, name: string)
    requires content != other
    ensures var s := PlacedAgain(content, other, dir, rel, name);
            Enabled(s, Advance(0, Settle)) && Do(s, Advance(0, Settle)) == OnePath(content, other, name)
  {
    hide Reaches, OtherAt;
    var s := PlacedAgain(content, other, dir, rel, name);
    assert s.rows[HashOf(content) := name] == OnePath(content, other, name).rows;
    assert s.jobs - {0} == map[];
  }
}
