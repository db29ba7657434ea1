/** The reconciled wall agrees with the truth it has just seen, and keeps everything it cannot disprove. */
module PhotoWallTheorems {
  import opened LibraryStore
  import opened PhotoWall

  /** The same photo with the same shown fields, perhaps another object. */
  predicate Alike(a: Photo, b: Photo) {
    a.hash == b.hash && SamePhoto(a, b)
  }

  predicate SameKey(a: Photo, b: Photo) {
    a.hash == b.hash && Time(a) == Time(b)
  }

  ghost predicate AlikeLists(s: seq<Photo>, t: seq<Photo>) {
    |s| == |t| && forall i | 0 <= i < |s| :: Alike(s[i], t[i])
  }

  lemma {:induction false} FindIsIn(s: seq<Photo>, hash: nat)
    ensures Find(s, hash).Some? ==> Find(s, hash).value in s && Find(s, hash).value.hash == hash
    ensures Find(s, hash).None? ==> forall p | p in s :: p.hash != hash
  {
    if s != [] {
      FindIsIn(s[..|s| - 1], hash);
      assert s == s[..|s| - 1] + [s[|s| - 1]];
    }
  }

  /** Of several photos with one hash the last counts. */
  lemma {:induction false} FindIsTheLast(s: seq<Photo>, i: nat)
    requires i < |s| && forall j | i < j < |s| :: s[j].hash != s[i].hash
    ensures Find(s, s[i].hash) == Some(s[i])
  {
    if i < |s| - 1 {
      FindIsTheLast(s[..|s| - 1], i);
    }
  }

  lemma FindIsTheOne(s: seq<Photo>, p: Photo)
    requires Unique(s) && p in s
    ensures Find(s, p.hash) == Some(p)
  {
    FindIsIn(s, p.hash);
  }

  // --- inserting ---------------------------------------------------------------------------

  /** In a sorted list without the item's key, everything before the slot sorts before the item and everything
      from it on sorts after it. */
  lemma {:induction false} SlotIsRight(s: seq<Photo>, p: Photo, lo: nat, hi: nat)
    requires lo <= hi <= |s| && Sorted(s)
    requires forall x | x in s :: ComparePhotoOrder(x, p) != 0
    requires forall i | 0 <= i < lo :: Before(s[i], p)
    requires forall i | hi <= i < |s| :: Before(p, s[i])
    ensures forall i | 0 <= i < Slot(s, p, lo, hi) :: Before(s[i], p)
    ensures forall i | Slot(s, p, lo, hi) <= i < |s| :: Before(p, s[i])
    decreases hi - lo
  {
    if lo < hi {
      var mid := (lo + hi) / 2;
      assert s[mid] in s;
      if ComparePhotoOrder(s[mid], p) <= 0 {
        forall i | 0 <= i < mid + 1
          ensures Before(s[i], p)
        {
          assert i < mid ==> Before(s[i], s[mid]);
        }
        SlotIsRight(s, p, mid + 1, hi);
      } else {
        forall i | mid <= i < |s|
          ensures Before(p, s[i])
        {
          assert i > mid ==> Before(s[mid], s[i]);
        }
        SlotIsRight(s, p, lo, mid);
      }
    }
  }

  lemma InsertKeepsSorted(s: seq<Photo>, p: Photo)
    requires Sorted(s) && forall x | x in s :: x.hash != p.hash
    ensures Sorted(Inserted(s, p))
  {
    assert forall x | x in s :: ComparePhotoOrder(x, p) != 0;
    SlotIsRight(s, p, 0, |s|);
    hide Before;
    var k := Slot(s, p, 0, |s|);
    var r := Inserted(s, p);
    forall i, j | 0 <= i < j < |r|
      ensures Before(r[i], r[j])
    {
      assert r[i] == if i < k then s[i] else if i == k then p else s[i - 1];
      assert r[j] == if j < k then s[j] else if j == k then p else s[j - 1];
    }
  }

  lemma InsertAdds(s: seq<Photo>, p: Photo)
    ensures multiset(Inserted(s, p)) == multiset(s) + multiset{p}
  {
    var k := Slot(s, p, 0, |s|);
    assert s == s[..k] + s[k..];
  }

  lemma {:induction false} InsertAllAdds(s: seq<Photo>, arrivals: seq<Photo>)
    ensures multiset(InsertedAll(s, arrivals)) == multiset(s) + multiset(arrivals)
  {
    if arrivals != [] {
      var init, last := arrivals[..|arrivals| - 1], arrivals[|arrivals| - 1];
      InsertAllAdds(s, init);
      InsertAdds(InsertedAll(s, init), last);
      assert arrivals == init + [last];
    }
  }

  lemma InsertAllMembers(s: seq<Photo>, arrivals: seq<Photo>, x: Photo)
    ensures x in InsertedAll(s, arrivals) <==> x in s || x in arrivals
  {
    InsertAllAdds(s, arrivals);
    assert x in InsertedAll(s, arrivals) <==> x in multiset(InsertedAll(s, arrivals));
    assert (x in s <==> x in multiset(s)) && (x in arrivals <==> x in multiset(arrivals));
  }

  lemma {:induction false} InsertAllKeepsSorted(s: seq<Photo>, arrivals: seq<Photo>)
    requires Sorted(s) && Unique(arrivals)
    requires forall x, y | x in s && y in arrivals :: x.hash != y.hash
    ensures Sorted(InsertedAll(s, arrivals))
  {
    hide Before, Inserted;
    if arrivals != [] {
      var n := |arrivals| - 1;
      var init, last := arrivals[..n], arrivals[n];
      assert forall y | y in init :: y in arrivals;
      InsertAllKeepsSorted(s, init);
      forall x | x in InsertedAll(s, init)
        ensures x.hash != last.hash
      {
        InsertAllMembers(s, init, x);
        if x in init {
          var i :| 0 <= i < n && init[i] == x;
          assert arrivals[i].hash != arrivals[n].hash;
        }
      }
      InsertKeepsSorted(InsertedAll(s, init), last);
    }
  }

  // --- who is on the wall --------------------------------------------------------------------

  /** What the fetch and the wall must have in common: both in order, no photo twice, and a photo on both has
      kept its time. */
  ghost predicate Agreeing(held: seq<Photo>, latest: seq<Photo>) {
    && Sorted(held) && Unique(held) && Sorted(latest) && Unique(latest)
    && forall a, b | a in held && b in latest && a.hash == b.hash :: Time(a) == Time(b)
  }

  lemma {:induction false} KeptMembers(held: seq<Photo>, latest: seq<Photo>, reachedEnd: bool, x: Photo)
    ensures x in Kept(held, latest, reachedEnd) <==> exists c :: c in held && x in Patched(c, latest, reachedEnd)
  {
    hide Patched;
    if held != [] {
      var init, last := held[..|held| - 1], held[|held| - 1];
      KeptMembers(init, latest, reachedEnd, x);
      assert held == init + [last];
      if x in Kept(held, latest, reachedEnd) {
        if x in Kept(init, latest, reachedEnd) {
          var c :| c in init && x in Patched(c, latest, reachedEnd);
          assert c in held;
        } else {
          assert last in held && x in Patched(last, latest, reachedEnd);
        }
      }
    }
  }

  lemma {:induction false} ArrivalsMembers(held: seq<Photo>, latest: seq<Photo>, x: Photo)
    ensures x in Arrivals(held, latest) <==> x in latest && Find(held, x.hash).None?
  {
    if latest != [] {
      ArrivalsMembers(held, latest[..|latest| - 1], x);
      assert latest == latest[..|latest| - 1] + [latest[|latest| - 1]];
    }
  }

  lemma {:induction false} ArrivalsAreUnique(held: seq<Photo>, latest: seq<Photo>)
    requires Unique(latest)
    ensures Unique(Arrivals(held, latest))
  {
    if latest != [] {
      var n := |latest| - 1;
      var init, last := latest[..n], latest[n];
      ArrivalsAreUnique(held, init);
      var a := Arrivals(held, init);
      forall i | 0 <= i < |a|
        ensures a[i].hash != last.hash
      {
        ArrivalsMembers(held, init, a[i]);
        assert a[i] in init;
        var j :| 0 <= j < n && init[j] == a[i];
        assert latest[j].hash != latest[n].hash;
      }
    }
  }

  lemma PatchedKeepsHash(c: Photo, latest: seq<Photo>, reachedEnd: bool)
    ensures |Patched(c, latest, reachedEnd)| <= 1
    ensures forall x | x in Patched(c, latest, reachedEnd) :: x.hash == c.hash
  {
    FindIsIn(latest, c.hash);
  }

  lemma {:induction false} KeptIsUnique(held: seq<Photo>, latest: seq<Photo>, reachedEnd: bool)
    requires Unique(held)
    ensures Unique(Kept(held, latest, reachedEnd))
  {
    if held != [] {
      var n := |held| - 1;
      var init, last := held[..n], held[n];
      KeptIsUnique(init, latest, reachedEnd);
      PatchedKeepsHash(last, latest, reachedEnd);
      hide Patched;
      var k, z := Kept(init, latest, reachedEnd), Patched(last, latest, reachedEnd);
      assert Kept(held, latest, reachedEnd) == k + z;
      forall i | 0 <= i < |k|
        ensures k[i].hash != last.hash
      {
        KeptMembers(init, latest, reachedEnd, k[i]);
        var c :| c in init && k[i] in Patched(c, latest, reachedEnd);
        PatchedKeepsHash(c, latest, reachedEnd);
        var j :| 0 <= j < n && init[j] == c;
        assert held[j].hash != held[n].hash;
      }
      hide Kept;
      assert z != [] ==> z == [z[0]] && z[0] in z;
    }
  }

  /** With kept times, the patched wall is still in order. */
  lemma {:induction false} KeptIsSorted(held: seq<Photo>, latest: seq<Photo>, reachedEnd: bool)
    requires Sorted(held)
    requires forall a, b | a in held && b in latest && a.hash == b.hash :: Time(a) == Time(b)
    ensures Sorted(Kept(held, latest, reachedEnd))
  {
    hide Patched, Before, SameKey, ComparePhotoOrder;
    if held != [] {
      var n := |held| - 1;
      var init, last := held[..n], held[n];
      assert forall c | c in init :: c in held;
      KeptIsSorted(init, latest, reachedEnd);
      assert last in held;
      PatchedKeepsKey(last, latest, reachedEnd);
      var k, z := Kept(init, latest, reachedEnd), Patched(last, latest, reachedEnd);
      forall i | 0 <= i < |k|
        ensures Before(k[i], last)
      {
        KeptMembers(init, latest, reachedEnd, k[i]);
        var c :| c in init && k[i] in Patched(c, latest, reachedEnd);
        PatchedKeepsKey(c, latest, reachedEnd);
        var j :| 0 <= j < n && init[j] == c;
        assert Before(held[j], held[n]);
        SameKeySortsAlike(k[i], c, last);
      }
      AppendKeepsSorted(k, z, last);
    }
  }

  lemma SameKeySortsAlike(x: Photo, c: Photo, last: Photo)
    requires SameKey(x, c) && Before(c, last)
    ensures Before(x, last)
  {
  }

  lemma AppendKeepsSorted(k: seq<Photo>, z: seq<Photo>, last: Photo)
    requires Sorted(k) && |z| <= 1
    requires forall i | 0 <= i < |k| :: Before(k[i], last)
    requires forall x | x in z :: SameKey(x, last)
    ensures Sorted(k + z)
  {
    assert z != [] ==> z[0] in z;
    assert forall i | 0 <= i < |k| :: z != [] ==> Before(k[i], z[0]);
    hide Before;
  }

  lemma PatchedKeepsKey(c: Photo, latest: seq<Photo>, reachedEnd: bool)
    requires forall b | b in latest && b.hash == c.hash :: Time(b) == Time(c)
    ensures |Patched(c, latest, reachedEnd)| <= 1
    ensures forall x | x in Patched(c, latest, reachedEnd) :: SameKey(x, c)
  {
    FindIsIn(latest, c.hash);
  }

  lemma KeptAndArrivalsAreApart(held: seq<Photo>, latest: seq<Photo>, reachedEnd: bool)
    ensures forall x, y | x in Kept(held, latest, reachedEnd) && y in Arrivals(held, latest) :: x.hash != y.hash
  {
    forall x, y | x in Kept(held, latest, reachedEnd) && y in Arrivals(held, latest)
      ensures x.hash != y.hash
    {
      KeptMembers(held, latest, reachedEnd, x);
      var c :| c in held && x in Patched(c, latest, reachedEnd);
      PatchedKeepsHash(c, latest, reachedEnd);
      ArrivalsMembers(held, latest, y);
      FindIsIn(held, y.hash);
    }
  }

  // --- the result ------------------------------------------------------------------------------

  function InWindow(s: seq<Photo>, latest: seq<Photo>): seq<Photo> {
    if s == [] then []
    else
      var init, last := InWindow(s[..|s| - 1], latest), s[|s| - 1];
      if InRange(last, latest) then init + [last] else init
  }

  lemma {:induction false} WindowMembers(s: seq<Photo>, latest: seq<Photo>, x: Photo)
    ensures x in InWindow(s, latest) <==> x in s && InRange(x, latest)
  {
    hide InRange;
    if s != [] {
      WindowMembers(s[..|s| - 1], latest, x);
      assert s == s[..|s| - 1] + [s[|s| - 1]];
    }
  }

  lemma {:induction false} WindowIsSorted(s: seq<Photo>, latest: seq<Photo>)
    requires Sorted(s)
    ensures Sorted(InWindow(s, latest))
  {
    hide Before, InRange;
    if s != [] {
      var n := |s| - 1;
      WindowIsSorted(s[..n], latest);
      var w := InWindow(s[..n], latest);
      forall i | 0 <= i < |w|
        ensures Before(w[i], s[n])
      {
        WindowMembers(s[..n], latest, w[i]);
        var j :| 0 <= j < n && s[..n][j] == w[i];
        assert Before(s[j], s[n]);
      }
    }
  }

  ghost predicate HasAlike(x: Photo, t: seq<Photo>) {
    exists y :: y in t && Alike(x, y)
  }

  /** Every photo of one list has its like in the other. */
  ghost predicate Covered(s: seq<Photo>, t: seq<Photo>) {
    forall x | x in s :: HasAlike(x, t)
  }

  /** Two sorted lists with the same photos are the same list, up to the objects. */
  lemma {:induction false} SortedListsAgree(s: seq<Photo>, t: seq<Photo>)
    requires Sorted(s) && Sorted(t) && Covered(s, t) && Covered(t, s)
    ensures AlikeLists(s, t)
  {
    hide Sorted, Alike, Covered, HasAlike;
    if s == [] {
      if t != [] {
        CoveredNeedsOne(t, s);
      }
    } else {
      CoveredNeedsOne(s, t);
      FirstsAgree(s, t);
      FirstsAgree(t, s);
      TailIsCovered(s, t);
      TailIsCovered(t, s);
      TailIsSorted(s);
      TailIsSorted(t);
      SortedListsAgree(s[1..], t[1..]);
      assert forall i | 0 < i < |s| :: s[i] == s[1..][i - 1] && t[i] == t[1..][i - 1];
    }
  }

  lemma CoveredNeedsOne(s: seq<Photo>, t: seq<Photo>)
    requires Covered(s, t) && s != []
    ensures t != []
  {
    assert HasAlike(s[0], t);
  }

  lemma TailIsSorted(s: seq<Photo>)
    requires Sorted(s) && s != []
    ensures Sorted(s[1..])
  {
    hide Before;
  }

  lemma FirstsAgree(s: seq<Photo>, t: seq<Photo>)
    requires Sorted(s) && Sorted(t) && Covered(s, t) && Covered(t, s) && s != [] && t != []
    ensures Alike(s[0], t[0])
  {
    hide Covered, Sorted;
    var y := AlikeIn(s[0], s, t);
    var x := AlikeIn(t[0], t, s);
    FirstIsLeast(s, x);
    FirstIsLeast(t, y);
  }

  lemma AlikeIn(x: Photo, s: seq<Photo>, t: seq<Photo>) returns (y: Photo)
    requires Covered(s, t) && x in s
    ensures y in t && Alike(x, y)
  {
    assert HasAlike(x, t);
    y :| y in t && Alike(x, y);
  }

  lemma FirstIsLeast(s: seq<Photo>, x: Photo)
    requires Sorted(s) && x in s
    ensures x == s[0] || Before(s[0], x)
  {
    hide Before;
  }

  lemma TailIsCovered(s: seq<Photo>, t: seq<Photo>)
    requires Sorted(s) && Covered(s, t) && s != [] && t != [] && Alike(s[0], t[0])
    ensures Covered(s[1..], t[1..])
  {
    forall x | x in s[1..]
      ensures HasAlike(x, t[1..])
    {
      var i :| 0 <= i < |s| - 1 && s[1..][i] == x;
      assert Before(s[0], s[i + 1]);
      assert x in s && HasAlike(x, t);
      hide Covered, Sorted;
      var y :| y in t && Alike(x, y);
      assert y != t[0];
      assert t == [t[0]] + t[1..];
    }
  }

  lemma ResultIsOrdered(held: seq<Photo>, latest: seq<Photo>, reachedEnd: bool)
    requires Agreeing(held, latest)
    ensures Sorted(Reconciled(held, latest, reachedEnd)) && Unique(Reconciled(held, latest, reachedEnd))
  {
    var k, a := Kept(held, latest, reachedEnd), Arrivals(held, latest);
    KeptIsSorted(held, latest, reachedEnd);
    KeptIsUnique(held, latest, reachedEnd);
    ArrivalsAreUnique(held, latest);
    KeptAndArrivalsAreApart(held, latest, reachedEnd);
    InsertAllKeepsSorted(k, a);
    InsertAllKeepsUnique(k, a);
  }

  lemma {:induction false} InsertAllKeepsUnique(s: seq<Photo>, arrivals: seq<Photo>)
    requires Unique(s) && Unique(arrivals)
    requires forall x, y | x in s && y in arrivals :: x.hash != y.hash
    ensures Unique(InsertedAll(s, arrivals))
  {
    if arrivals != [] {
      var n := |arrivals| - 1;
      var init, last := arrivals[..n], arrivals[n];
      assert forall y | y in init :: y in arrivals;
      InsertAllKeepsUnique(s, init);
      var r := InsertedAll(s, init);
      forall i | 0 <= i < |r|
        ensures r[i].hash != last.hash
      {
        InsertAllMembers(s, init, r[i]);
        if r[i] in init {
          var j :| 0 <= j < n && init[j] == r[i];
          assert arrivals[j].hash != arrivals[n].hash;
        }
      }
      hide InsertedAll;
      InsertKeepsUnique(r, last);
      assert InsertedAll(s, arrivals) == Inserted(r, last) by {
        InsertAllUnfolds(s, arrivals);
      }
    }
  }

  lemma InsertAllUnfolds(s: seq<Photo>, arrivals: seq<Photo>)
    requires arrivals != []
    ensures InsertedAll(s, arrivals) == Inserted(InsertedAll(s, arrivals[..|arrivals| - 1]), arrivals[|arrivals| - 1])
  {
  }

  lemma InsertKeepsUnique(s: seq<Photo>, p: Photo)
    requires Unique(s) && forall i | 0 <= i < |s| :: s[i].hash != p.hash
    ensures Unique(Inserted(s, p))
  {
    var k := Slot(s, p, 0, |s|);
    var r := Inserted(s, p);
    forall i, j | 0 <= i < j < |r|
      ensures r[i].hash != r[j].hash
    {
      assert r[i] == if i < k then s[i] else if i == k then p else s[i - 1];
      assert r[j] == if j < k then s[j] else if j == k then p else s[j - 1];
    }
  }

  /** Who is on the result: what became of the held cells, and the arrivals. */
  lemma ResultMembers(held: seq<Photo>, latest: seq<Photo>, reachedEnd: bool, x: Photo)
    ensures x in Reconciled(held, latest, reachedEnd) <==>
              || (exists c :: c in held && x in Patched(c, latest, reachedEnd))
              || (x in latest && Find(held, x.hash).None?)
  {
    InsertAllMembers(Kept(held, latest, reachedEnd), Arrivals(held, latest), x);
    KeptMembers(held, latest, reachedEnd, x);
    ArrivalsMembers(held, latest, x);
  }

  /** Every fetched photo is on the result, as it was fetched or as an identical cell. */
  lemma FetchedIsShown(held: seq<Photo>, latest: seq<Photo>, reachedEnd: bool, y: Photo)
    requires Unique(latest) && y in latest
    ensures exists x :: x in Reconciled(held, latest, reachedEnd) && Alike(x, y)
  {
    FindIsTheOne(latest, y);
    if Find(held, y.hash).Some? {
      FindIsIn(held, y.hash);
      var c := Find(held, y.hash).value;
      var x := if SamePhoto(c, y) then c else y;
      assert x in Patched(c, latest, reachedEnd);
      ResultMembers(held, latest, reachedEnd, x);
      assert Alike(x, y);
    } else {
      ResultMembers(held, latest, reachedEnd, y);
      assert Alike(y, y);
    }
  }

  /** Inside the window, or everywhere after a fetch to the end, only fetched photos are shown. */
  lemma ShownIsFetched(held: seq<Photo>, latest: seq<Photo>, reachedEnd: bool, x: Photo)
    requires x in Reconciled(held, latest, reachedEnd) && (reachedEnd || InRange(x, latest))
    ensures exists y :: y in latest && Alike(x, y)
  {
    ResultMembers(held, latest, reachedEnd, x);
    if x in latest {
      assert Alike(x, x);
    } else {
      var c :| c in held && x in Patched(c, latest, reachedEnd);
      FindIsIn(latest, c.hash);
      assert Find(latest, c.hash).Some?;
      assert Alike(x, Find(latest, c.hash).value);
    }
  }

  lemma FetchedIsInRange(latest: seq<Photo>, y: Photo)
    requires Sorted(latest) && y in latest
    ensures InRange(y, latest)
  {
    var i :| 0 <= i < |latest| && latest[i] == y;
    assert i > 0 ==> Before(latest[0], latest[i]);
    assert i < |latest| - 1 ==> Before(latest[i], latest[|latest| - 1]);
  }

  lemma AlikeIsSymmetric(x: Photo, y: Photo)
    requires Alike(x, y)
    ensures Alike(y, x)
  {
  }

  lemma AlikeIsInRange(x: Photo, y: Photo, latest: seq<Photo>)
    requires Alike(x, y) && InRange(y, latest)
    ensures InRange(x, latest)
  {
  }

  /** Agreement. The result is in order without repetition; inside the range that was fetched it is the fetch,
      cell by cell; after a fetch to the end it is the fetch altogether. */
  lemma WallAgrees(held: seq<Photo>, latest: seq<Photo>, reachedEnd: bool)
    requires Agreeing(held, latest)
    ensures var r := Reconciled(held, latest, reachedEnd);
            && Sorted(r) && Unique(r)
            && AlikeLists(InWindow(r, latest), latest)
            && (reachedEnd ==> AlikeLists(r, latest))
  {
    var r := Reconciled(held, latest, reachedEnd);
    var w := InWindow(r, latest);
    ResultIsOrdered(held, latest, reachedEnd);
    WindowIsSorted(r, latest);
    hide Reconciled, InWindow, InRange, Before, Alike, Sorted, Unique, HasAlike;
    assert Covered(latest, w) && Covered(latest, r) by {
      forall y | y in latest
        ensures HasAlike(y, w) && HasAlike(y, r)
      {
        FetchedHasCell(held, latest, reachedEnd, y);
      }
    }
    assert Covered(w, latest) by {
      forall x | x in w
        ensures HasAlike(x, latest)
      {
        WindowMembers(r, latest, x);
        CellIsFetched(held, latest, reachedEnd, x);
      }
    }
    assert reachedEnd ==> Covered(r, latest) by {
      forall x | x in r && reachedEnd
        ensures HasAlike(x, latest)
      {
        CellIsFetched(held, latest, reachedEnd, x);
      }
    }
    hide Covered;
    SortedListsAgree(w, latest);
    if reachedEnd {
      SortedListsAgree(r, latest);
    }
  }

  lemma FetchedHasCell(held: seq<Photo>, latest: seq<Photo>, reachedEnd: bool, y: Photo)
    requires Sorted(latest) && Unique(latest) && y in latest
    ensures var r := Reconciled(held, latest, reachedEnd); HasAlike(y, InWindow(r, latest)) && HasAlike(y, r)
  {
    var r := Reconciled(held, latest, reachedEnd);
    FetchedIsShown(held, latest, reachedEnd, y);
    hide Reconciled;
    var x :| x in r && Alike(x, y);
    AlikeIsSymmetric(x, y);
    FetchedIsInRange(latest, y);
    AlikeIsInRange(x, y, latest);
    WindowMembers(r, latest, x);
    hide InRange, Alike;
    assert x in InWindow(r, latest) && Alike(y, x);
  }

  lemma CellIsFetched(held: seq<Photo>, latest: seq<Photo>, reachedEnd: bool, x: Photo)
    requires x in Reconciled(held, latest, reachedEnd) && (reachedEnd || InRange(x, latest))
    ensures HasAlike(x, latest)
  {
    ShownIsFetched(held, latest, reachedEnd, x);
  }

  /** Nothing is dropped that cannot be disproved, and what has not changed stays the same object: a held cell
      leaves the wall if and only if the fetch lacks its photo and either covers its place or reached the end;
      a cell whose photo looks the same stays itself. */
  lemma HeldStaysExactly(held: seq<Photo>, latest: seq<Photo>, reachedEnd: bool, c: Photo)
    requires Unique(held) && Unique(latest) && c in held
    ensures var r := Reconciled(held, latest, reachedEnd);
            && ((forall x | x in r :: x.hash != c.hash) <==> Find(latest, c.hash).None? && (reachedEnd || InRange(c, latest)))
            && (c in r <==> match Find(latest, c.hash)
                            case Some(next) => SamePhoto(c, next) || c == next
                            case None => !reachedEnd && !InRange(c, latest))
  {
    var r := Reconciled(held, latest, reachedEnd);
    FindIsTheOne(held, c);
    FindIsIn(latest, c.hash);
    ResultMembers(held, latest, reachedEnd, c);
    forall x | x in r && x.hash == c.hash
      ensures x in Patched(c, latest, reachedEnd)
    {
      ResultMembers(held, latest, reachedEnd, x);
      var d :| d in held && x in Patched(d, latest, reachedEnd);
      PatchedKeepsHash(d, latest, reachedEnd);
      FindIsTheOne(held, d);
    }
    forall x | x in Patched(c, latest, reachedEnd)
      ensures x in r
    {
      ResultMembers(held, latest, reachedEnd, x);
    }
    PatchedKeepsHash(c, latest, reachedEnd);
    assert Patched(c, latest, reachedEnd) != [] ==> Patched(c, latest, reachedEnd)[0] in Patched(c, latest, reachedEnd);
  }

  lemma SortedBeforeInsert(s: seq<Photo>, p: Photo)
    requires Sorted(Inserted(s, p))
    ensures Sorted(s)
  {
    hide Before;
    var k := Slot(s, p, 0, |s|);
    var r := Inserted(s, p);
    forall i, j | 0 <= i < j < |s|
      ensures Before(s[i], s[j])
    {
      var (a, b) := (if i < k then i else i + 1, if j < k then j else j + 1);
      assert r[a] == s[i] && r[b] == s[j] && a < b;
    }
  }

  lemma {:induction false} SortedBeforeInserts(s: seq<Photo>, arrivals: seq<Photo>)
    requires Sorted(InsertedAll(s, arrivals))
    ensures Sorted(s)
  {
    if arrivals != [] {
      var init, last := arrivals[..|arrivals| - 1], arrivals[|arrivals| - 1];
      SortedBeforeInsert(InsertedAll(s, init), last);
      SortedBeforeInserts(s, init);
    }
  }

  /** A held cell stays on the wall: it was fetched, or the fetch says nothing about it. */
  predicate Stays(c: Photo, latest: seq<Photo>, reachedEnd: bool) {
    Find(latest, c.hash).Some? || !(reachedEnd || InRange(c, latest))
  }

  /** The photo as the fetch has it, or else as it was held. */
  function Now(c: Photo, latest: seq<Photo>): Photo {
    if Find(latest, c.hash).Some? then Find(latest, c.hash).value else c
  }

  /** The held cells that stay are in order by what is now known of them. */
  ghost predicate StillOrdered(held: seq<Photo>, latest: seq<Photo>, reachedEnd: bool) {
    forall i, j | 0 <= i < j < |held| && Stays(held[i], latest, reachedEnd) && Stays(held[j], latest, reachedEnd) ::
      Before(Now(held[i], latest), Now(held[j], latest))
  }

  lemma PatchedIsNow(c: Photo, latest: seq<Photo>, reachedEnd: bool)
    ensures var z := Patched(c, latest, reachedEnd);
            (z != [] <==> Stays(c, latest, reachedEnd)) && (z != [] ==> z == [z[0]] && SameKey(z[0], Now(c, latest)))
  {
    FindIsIn(latest, c.hash);
    hide InRange;
  }

  lemma SameKeysSortAlike(x: Photo, y: Photo, a: Photo, b: Photo)
    requires SameKey(x, a) && SameKey(y, b)
    ensures Before(x, y) <==> Before(a, b)
  {
  }

  lemma OneMoreSorted(k: seq<Photo>, z: seq<Photo>)
    requires |z| <= 1
    ensures Sorted(k + z) <==> Sorted(k) && (z != [] ==> forall x | x in k :: Before(x, z[0]))
  {
    hide Before;
    var r := k + z;
    if Sorted(r) {
      assert forall i | 0 <= i < |k| :: r[i] == k[i];
      if z != [] {
        forall x | x in k
          ensures Before(x, z[0])
        {
          var i :| 0 <= i < |k| && k[i] == x;
          assert Before(r[i], r[|k|]);
        }
      }
    }
  }

  lemma OneMoreStillOrdered(held: seq<Photo>, latest: seq<Photo>, reachedEnd: bool)
    requires held != []
    ensures var init, last := held[..|held| - 1], held[|held| - 1];
            StillOrdered(held, latest, reachedEnd) <==>
              && StillOrdered(init, latest, reachedEnd)
              && (Stays(last, latest, reachedEnd) ==>
                    forall c | c in init && Stays(c, latest, reachedEnd) :: Before(Now(c, latest), Now(last, latest)))
  {
    hide Before, Now, Stays;
    var n := |held| - 1;
    var init, last := held[..n], held[n];
    if StillOrdered(held, latest, reachedEnd) {
      forall c | c in init && Stays(c, latest, reachedEnd) && Stays(last, latest, reachedEnd)
        ensures Before(Now(c, latest), Now(last, latest))
      {
        var i :| 0 <= i < n && init[i] == c;
        assert held[i] == c;
      }
      assert forall i | 0 <= i < n :: init[i] == held[i];
    } else {
      var i, j :| 0 <= i < j < |held| && Stays(held[i], latest, reachedEnd) && Stays(held[j], latest, reachedEnd)
                  && !Before(Now(held[i], latest), Now(held[j], latest));
      assert init[i] == held[i] && init[i] in init;
      assert j < n ==> init[j] == held[j];
    }
  }

  /** Whoever is kept sorts before a cell exactly when every held cell that stays does. */
  lemma KeptSortBefore(held: seq<Photo>, latest: seq<Photo>, reachedEnd: bool, z: Photo, last: Photo)
    requires SameKey(z, last)
    ensures (forall x | x in Kept(held, latest, reachedEnd) :: Before(x, z)) <==>
              forall c | c in held && Stays(c, latest, reachedEnd) :: Before(Now(c, latest), last)
  {
    hide Before, Patched, Now, Stays, SameKey, Kept;
    if forall x | x in Kept(held, latest, reachedEnd) :: Before(x, z) {
      forall c | c in held && Stays(c, latest, reachedEnd)
        ensures Before(Now(c, latest), last)
      {
        PatchedIsNow(c, latest, reachedEnd);
        var x := Patched(c, latest, reachedEnd)[0];
        KeptMembers(held, latest, reachedEnd, x);
        SameKeysSortAlike(x, z, Now(c, latest), last);
      }
    }
    if forall c | c in held && Stays(c, latest, reachedEnd) :: Before(Now(c, latest), last) {
      forall x | x in Kept(held, latest, reachedEnd)
        ensures Before(x, z)
      {
        KeptMembers(held, latest, reachedEnd, x);
        var c :| c in held && x in Patched(c, latest, reachedEnd);
        PatchedIsNow(c, latest, reachedEnd);
        SameKeysSortAlike(x, z, Now(c, latest), last);
      }
    }
  }

  lemma {:induction false} KeptIsSortedExactlyWhen(held: seq<Photo>, latest: seq<Photo>, reachedEnd: bool)
    ensures Sorted(Kept(held, latest, reachedEnd)) <==> StillOrdered(held, latest, reachedEnd)
  {
    if held != [] {
      var init, last := held[..|held| - 1], held[|held| - 1];
      var k, z := Kept(init, latest, reachedEnd), Patched(last, latest, reachedEnd);
      assert Kept(held, latest, reachedEnd) == k + z;
      KeptIsSortedExactlyWhen(init, latest, reachedEnd);
      hide Before, Now, Stays, SameKey, StillOrdered, Sorted, Kept, Patched;
      PatchedIsNow(last, latest, reachedEnd);
      OneMoreSorted(k, z);
      OneMoreStillOrdered(held, latest, reachedEnd);
      if z != [] {
        KeptSortBefore(init, latest, reachedEnd, z[0], Now(last, latest));
      }
    }
  }

  /** When times may have changed: the result is in order if and only if the held cells that stay are, each with
      the time that the fetch gives it. */
  lemma OrderedExactlyWhenStillOrdered(held: seq<Photo>, latest: seq<Photo>, reachedEnd: bool)
    requires Unique(latest)
    ensures Sorted(Reconciled(held, latest, reachedEnd)) <==> StillOrdered(held, latest, reachedEnd)
  {
    var k, a := Kept(held, latest, reachedEnd), Arrivals(held, latest);
    ArrivalsAreUnique(held, latest);
    KeptAndArrivalsAreApart(held, latest, reachedEnd);
    KeptIsSortedExactlyWhen(held, latest, reachedEnd);
    hide Sorted, Unique, Kept, Arrivals, InsertedAll, StillOrdered;
    if Sorted(k) {
      InsertAllKeepsSorted(k, a);
    }
    if Sorted(InsertedAll(k, a)) {
      SortedBeforeInserts(k, a);
    }
  }

  /** A photo whose time has changed is replaced where it stands: then the wall can fall out of order. */
  lemma ChangedTimeBreaksOrder()
    ensures var s := Shown("", None, None, 0, "");
            var (a, b, c) := (Photo(1, Some(20), s, 0), Photo(2, Some(10), s, 1), Photo(2, Some(30), s, 2));
            && Sorted([a, b]) && Unique([a, b]) && Sorted([c, a]) && Unique([c, a])
            && Reconciled([a, b], [c, a], false) == [a, c] && !Sorted([a, c])
  {
    var s := Shown("", None, None, 0, "");
    var (a, b, c) := (Photo(1, Some(20), s, 0), Photo(2, Some(10), s, 1), Photo(2, Some(30), s, 2));
    var latest := [c, a];
    assert latest[..1] == [c] && [a, b][..1] == [a];
    assert Find(latest, 1) == Some(a) && Find(latest, 2) == Some(c);
    assert Kept([a], latest, false) == [a] by {
      assert [a][..0] == [];
    }
    assert Kept([a, b], latest, false) == [a] + [c];
    assert Find([a, b], 1).Some? && Find([a, b], 2).Some?;
    assert Arrivals([a, b], [c]) == [] by {
      assert [c][..0] == [];
    }
    assert Arrivals([a, b], latest) == [];
    assert !Before([a, c][0], [a, c][1]);
  }
}
