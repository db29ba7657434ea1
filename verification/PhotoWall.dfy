/** The photo wall: a held prefix window of the timeline is reconciled with a freshly fetched one, in place. */
module PhotoWall {
  import opened LibraryStore

  /** What a cell shows besides its photo. */
  datatype Shown = Shown(mediaType: string, width: Option<nat>, height: Option<nat>, bytes: nat, srcDevice: string)

  /** One cell of the wall; `identity` tells objects apart and is never compared. The hash, a fixed-length
      lower-case hex string, is ordered like the number it spells. */
  datatype Photo = Photo(hash: nat, takenAt: Option<int>, shown: Shown, identity: nat)

  function Time(p: Photo): int {
    if p.takenAt.Some? then p.takenAt.value else 0
  }

  /** Newest first, then by hash. */
  function ComparePhotoOrder(a: Photo, b: Photo): int {
    if Time(a) != Time(b) then Time(b) - Time(a) else if a.hash < b.hash then -1 else if a.hash > b.hash then 1 else 0
  }

  predicate SamePhoto(a: Photo, b: Photo) {
    && a.takenAt == b.takenAt
    && a.shown.mediaType == b.shown.mediaType
    && a.shown.width == b.shown.width
    && a.shown.height == b.shown.height
    && a.shown.bytes == b.shown.bytes
    && a.shown.srcDevice == b.shown.srcDevice
  }

  /** Inside the closed range of sort keys that the fetch covers. */
  predicate InRange(p: Photo, latest: seq<Photo>) {
    latest != [] && ComparePhotoOrder(latest[0], p) <= 0 && ComparePhotoOrder(p, latest[|latest| - 1]) <= 0
  }

  predicate Before(a: Photo, b: Photo) {
    ComparePhotoOrder(a, b) < 0
  }

  /** No field that is shown is left out of the comparison. */
  lemma SamePhotoExactlyWhenOnlyTheObjectDiffers(a: Photo, b: Photo)
    requires a.hash == b.hash
    ensures SamePhoto(a, b) <==> a == b.(identity := a.identity)
  {
  }

  /** Newest first, a photo without a time being as old as time zero, and by hash where the times are equal. */
  lemma BeforeMeansNewerOrSmaller(a: Photo, b: Photo)
    ensures var (s, t) := (match a.takenAt case Some(s) => s case None => 0, match b.takenAt case Some(t) => t case None => 0);
            Before(a, b) <==> s > t || (s == t && a.hash < b.hash)
    ensures Before(a, b) <==> !Before(b, a) && (Time(a), a.hash) != (Time(b), b.hash)
  {
  }

  /** The range reaches from the first to the last fetched photo, both included. */
  lemma InRangeIsClosed(p: Photo, latest: seq<Photo>)
    ensures InRange(p, latest) <==> latest != [] && !Before(p, latest[0]) && !Before(latest[|latest| - 1], p)
  {
  }

  ghost predicate Sorted(s: seq<Photo>) {
    forall i, j | 0 <= i < j < |s| :: Before(s[i], s[j])
  }

  ghost predicate Unique(s: seq<Photo>) {
    forall i, j | 0 <= i < j < |s| :: s[i].hash != s[j].hash
  }

  // --- the merge as a function ----------------------------------------------------------

  /** The last photo with this hash, as a `Map` built from the list has it. */
  function Find(s: seq<Photo>, hash: nat): Option<Photo> {
    if s == [] then None
    else if s[|s| - 1].hash == hash then Some(s[|s| - 1])
    else Find(s[..|s| - 1], hash)
  }

  /** What becomes of a held cell. */
  function Patched(cur: Photo, latest: seq<Photo>, reachedEnd: bool): seq<Photo> {
    match Find(latest, cur.hash)
    case Some(next) => if SamePhoto(cur, next) then [cur] else [next]
    case None => if reachedEnd || InRange(cur, latest) then [] else [cur]
  }

  function Kept(held: seq<Photo>, latest: seq<Photo>, reachedEnd: bool): seq<Photo> {
    if held == [] then []
    else Kept(held[..|held| - 1], latest, reachedEnd) + Patched(held[|held| - 1], latest, reachedEnd)
  }

  /** How many held cells are replaced by their newer version. */
  function Updates(held: seq<Photo>, latest: seq<Photo>): nat {
    if held == [] then 0
    else
      var cur := held[|held| - 1];
      var next := Find(latest, cur.hash);
      Updates(held[..|held| - 1], latest) + if next.Some? && !SamePhoto(cur, next.value) then 1 else 0
  }

  /** Where a binary search puts an item. */
  function Slot(s: seq<Photo>, p: Photo, lo: nat, hi: nat): (k: nat)
    requires lo <= hi <= |s|
    ensures lo <= k <= hi
    decreases hi - lo
  {
    if lo == hi then lo
    else
      var mid := (lo + hi) / 2;
      if ComparePhotoOrder(s[mid], p) <= 0 then Slot(s, p, mid + 1, hi) else Slot(s, p, lo, mid)
  }

  function Inserted(s: seq<Photo>, p: Photo): seq<Photo> {
    var k := Slot(s, p, 0, |s|);
    s[..k] + [p] + s[k..]
  }

  function InsertedAll(s: seq<Photo>, arrivals: seq<Photo>): seq<Photo> {
    if arrivals == [] then s else Inserted(InsertedAll(s, arrivals[..|arrivals| - 1]), arrivals[|arrivals| - 1])
  }

  function Arrivals(held: seq<Photo>, latest: seq<Photo>): seq<Photo> {
    if latest == [] then []
    else
      var init, last := Arrivals(held, latest[..|latest| - 1]), latest[|latest| - 1];
      if Find(held, last.hash).Some? then init else init + [last]
  }

  function Reconciled(held: seq<Photo>, latest: seq<Photo>, reachedEnd: bool): seq<Photo> {
    InsertedAll(Kept(held, latest, reachedEnd), Arrivals(held, latest))
  }

  // --- the program --------------------------------------------------------------------------

  /** A JavaScript array is a list that grows: here a sequence that is reassigned. */
  method InsertSorted(arr: seq<Photo>, item: Photo) returns (out: seq<Photo>)
    ensures out == Inserted(arr, item)
  {
    var lo, hi := 0, |arr|;
    while lo < hi
      invariant lo <= hi <= |arr| && Slot(arr, item, 0, |arr|) == Slot(arr, item, lo, hi)
    {
      var mid := (lo + hi) / 2;
      if ComparePhotoOrder(arr[mid], item) <= 0 {
        lo := mid + 1;
      } else {
        hi := mid;
      }
    }
    out := arr[..lo] + [item] + arr[lo..];
  }

  method ReconcilePhotoWall(held: seq<Photo>, latest: seq<Photo>, reachedEnd: bool)
    returns (items: seq<Photo>, added: nat, updated: nat, removed: nat)
    ensures items == Reconciled(held, latest, reachedEnd)
    ensures |items| + removed == |held| + added && added == |Arrivals(held, latest)| && updated == Updates(held, latest)
  {
    items := [];
    added, updated, removed := 0, 0, 0;
    for i := 0 to |held|
      invariant items == Kept(held[..i], latest, reachedEnd) && |items| + removed == i && updated == Updates(held[..i], latest)
    {
      var cur := held[i];
      assert held[..i + 1][..i] == held[..i];
      match Find(latest, cur.hash) {
        case Some(next) =>
          if SamePhoto(cur, next) {
            items := items + [cur];
          } else {
            items := items + [next];
            updated := updated + 1;
          }
        case None =>
          if reachedEnd || InRange(cur, latest) {
            removed := removed + 1;
          } else {
            items := items + [cur];
          }
      }
    }
    assert held[..|held|] == held;
    ghost var kept := items;
    for i := 0 to |latest|
      invariant items == InsertedAll(kept, Arrivals(held, latest[..i])) && added == |Arrivals(held, latest[..i])|
      invariant |items| == |kept| + added
    {
      var it := latest[i];
      assert latest[..i + 1][..i] == latest[..i];
      ghost var arrivals := Arrivals(held, latest[..i]);
      assert (arrivals + [it])[..|arrivals|] == arrivals;
      if Find(held, it.hash).None? {
        items := InsertSorted(items, it);
        added := added + 1;
      }
    }
    assert latest[..|latest|] == latest;
  }
}
