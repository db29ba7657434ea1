/** Planning, applying, repairing and sweeping a replacement, as the calls of the program. The steps of one
    call run without interference here; `SupersedeProtocol` interleaves them. */
module Supersede {
  import opened LibraryStore
  import opened Patching
  import opened MetadataRanges
  import opened SupersedeProtocol
  import opened SupersedeSafety

  const MAX_REGION_BYTES: nat := 8 * 1024 * 1024

  datatype Plan = Plan(oldHash: Hash, relPath: string, len: nat, ranges: seq<Range>)

  datatype Check = Ready(plan: Plan) | AlreadyDone | NotPlanned(reason: string)

  datatype Applied = Replaced(relPath: string) | Refused(reason: string) | Error

  datatype Verdict = Accepted | Rejected(reason: string) | CallFailed

  const NO_FAULTS := Faults(false, false, false, false, false, false)

  /** Which of the fallible calls of one replacement fail. */
  datatype Faults = Faults(copy: bool, sync: bool, tx: bool, query: bool, rename: bool, clear: bool)

  /** The non-empty ranges that lie inside a file of `len` bytes. */
  function Retain(ranges: seq<Range>, len: nat): seq<Range> {
    if ranges == [] then []
    else (if ranges[0].start < ranges[0].end <= len then [ranges[0]] else []) + Retain(ranges[1..], len)
  }

  predicate Usable(r: Range, len: nat) {
    r.start < r.end <= len
  }

  /** `at` are the places of all usable ranges, in order, and `out` is what stands there. */
  ghost predicate Picks(at: seq<nat>, out: seq<Range>, ranges: seq<Range>, len: nat) {
    && |at| == |out|
    && (forall i | 0 <= i < |at| :: at[i] < |ranges| && out[i] == ranges[at[i]])
    && (forall i, j | 0 <= i < j < |at| :: at[i] < at[j])
    && (forall k | 0 <= k < |ranges| :: k in at <==> Usable(ranges[k], len))
  }

  /** `out` is what is left of the reported ranges: the non-empty ones inside the file, all of them, each as often as it
      was reported, and in that order. */
  ghost predicate LeftOf(out: seq<Range>, ranges: seq<Range>, len: nat) {
    exists at :: Picks(at, out, ranges, len)
  }

  function TotalBytes(ranges: seq<Range>): int {
    if ranges == [] then 0 else ranges[0].end - ranges[0].start + TotalBytes(ranges[1..])
  }

  predicate Covered(r: Range, pieces: seq<Piece>) {
    exists i | 0 <= i < |pieces| :: pieces[i].off <= r.start && r.end <= pieces[i].off + |pieces[i].buf|
  }

  /** The pieces cover every planned range and none of them reaches past the end. */
  predicate Complete(plan: Plan, size: nat, pieces: seq<Piece>) {
    && (forall i | 0 <= i < |plan.ranges| :: Covered(plan.ranges[i], pieces))
    && (forall i | 0 <= i < |pieces| :: pieces[i].off + |pieces[i].buf| <= size)
  }

  class Ingestor {
    const pid: nat
    var disk: map<Path, Bytes>
    var rows: map<Hash, Row>
    var alias: map<Hash, Hash>
    var pending: map<Hash, Swap>

    constructor (pid: nat, store: Store)
      ensures this.pid == pid && View() == store
    {
      this.pid := pid;
      disk, rows, alias, pending := store.disk, store.rows, store.alias, store.pending;
    }

    ghost function View(): Store
      reads this
    {
      Store(disk, rows, alias, pending)
    }

    /** What stands in the way of planning, in the order of the checks. */
    ghost function PlanRefusal(oldHash: Hash, uploader: Device): Option<string>
      reads this
    {
      if oldHash !in rows then Some("old_missing")
      else if rows[oldHash].device != uploader then Some("not_uploader")
      else if Original(rows[oldHash].relPath) !in disk then Some("old_missing")
      else
        var file := disk[Original(rows[oldHash].relPath)];
        if Ranges(file).None? || (forall r | r in Ranges(file).value :: !(r.start < r.end <= |file|)) then Some("unknown_format")
        else if TotalBytes(Retain(Ranges(file).value, |file|)) > 8_388_608 then Some("region_too_large")
        else None
    }

    method PlanSupersede(oldHash: Hash, newHash: Hash, uploader: Device) returns (r: Check)
      ensures r.AlreadyDone? <==> oldHash in alias && alias[oldHash] == newHash && HasDurableCopy(View(), newHash)
      ensures !r.AlreadyDone? ==>
                match PlanRefusal(oldHash, uploader)
                case Some(reason) => r == NotPlanned(reason)
                case None =>
                  && r.Ready? && r.plan.oldHash == oldHash && r.plan.relPath == rows[oldHash].relPath
                  && r.plan.len == |disk[Original(r.plan.relPath)]| && r.plan.ranges != []
                  && LeftOf(r.plan.ranges, Ranges(disk[Original(r.plan.relPath)]).value, r.plan.len)
                  && TotalBytes(r.plan.ranges) <= 8_388_608
    {
      hide Ranges, HasDurableCopy, LeftOf, Retain, TotalBytes;
      if oldHash in alias && alias[oldHash] == newHash && HasDurableCopy(Store(disk, rows, alias, pending), newHash) {
        return AlreadyDone;
      }
      if oldHash !in rows {
        return NotPlanned("old_missing");
      }
      var asset := rows[oldHash];
      if asset.device != uploader {
        return NotPlanned("not_uploader");
      }
      if Original(asset.relPath) !in disk {
        return NotPlanned("old_missing");
      }
      var file := disk[Original(asset.relPath)];
      var found := ReadRanges(file);
      if found.None? {
        return NotPlanned("unknown_format");
      }
      var ranges := Retain(found.value, |file|);
      RetainedLieInside(found.value, |file|);
      RetainedIsLeft(found.value, |file|);
      if ranges == [] {
        return NotPlanned("unknown_format");
      }
      if TotalBytes(ranges) > MAX_REGION_BYTES {
        return NotPlanned("region_too_large");
      }
      return Ready(Plan(oldHash, asset.relPath, |file|, ranges));
    }

    /** `swap_in`: false is a failed call. */
    method SwapInFile(newHash: Hash, swap: Swap, renameFails: bool, clearFails: bool) returns (ok: bool)
      modifies this
      ensures rows == old(rows) && alias == old(alias)
      ensures ok <==> !clearFails && !(renameFails && swap.staged in old(disk))
      ensures View() == Swapped(old(View()), newHash, swap, renameFails, clearFails)
    {
      if swap.staged in disk {
        if renameFails {
          return false;
        }
        disk := (disk - {swap.staged})[Original(swap.relPath) := disk[swap.staged]];
      }
      if clearFails {
        return false;
      }
      pending := pending - {newHash};
      return true;
    }

    /** The splice: an error is a read past the end of the copy. */
    method Splice(staged: Path, pieces: seq<Piece>) returns (r: Patched)
      requires staged in disk
      modifies this`disk
      ensures r == PatchAll(old(disk[staged]), pieces)
      ensures staged in disk && disk - {staged} == old(disk) - {staged}
      ensures r.Patched? ==> disk[staged] == r.content
    {
      var i := 0;
      assert pieces[0..] == pieces;
      while i < |pieces|
        invariant 0 <= i <= |pieces| && staged in disk && disk - {staged} == old(disk) - {staged}
        invariant PatchAll(disk[staged], pieces[i..]) == PatchAll(old(disk[staged]), pieces)
      {
        assert pieces[i..][1..] == pieces[i + 1..];
        var one := PatchOne(disk[staged], pieces[i]);
        if !one.Patched? {
          return one;
        }
        disk := disk[staged := one.content];
        i := i + 1;
      }
      return Patched(disk[staged]);
    }

    /** Copying, splicing and checking. The staged file is removed unless the result is `Accepted`. */
    method Stage(plan: Plan, newHash: Hash, pieces: seq<Piece>, faults: Faults) returns (v: Verdict)
      modifies this`disk
      ensures v == (if faults.copy then CallFailed else Expected(old(View()), plan, newHash, pieces, faults.sync))
      ensures var staged := StagedPath(newHash, pid);
              disk == if v.Accepted? then old(disk)[staged := newHash.content] else old(disk) - {staged}
    {
      var staged, source := StagedPath(newHash, pid), Original(plan.relPath);
      ghost var before := disk;
      if faults.copy || source !in disk {
        disk := disk - {staged};
        return CallFailed;
      }
      disk := disk[staged := disk[source]];
      if HashOf(disk[staged]) != plan.oldHash {
        disk := disk - {staged};
        return Rejected("old_changed");
      }
      assert disk - {staged} == before - {staged};
      var spliced := Splice(staged, pieces);
      if spliced == Patched(newHash.content) && !faults.sync {
        assert disk == (disk - {staged})[staged := newHash.content];
        assert before[staged := newHash.content] == (before - {staged})[staged := newHash.content];
        return Accepted;
      }
      disk := disk - {staged};
      return match spliced
        case NotARedaction => Rejected("not_a_redaction")
        case ShortRead => CallFailed
        case Patched(_) => if faults.sync then CallFailed else Rejected("hash_mismatch");
    }

    /** The transaction and the swap of a verified staged file. */
    method CommitAndSwap(plan: Plan, newHash: Hash, size: nat, asset: Row, faults: Faults) returns (ok: bool)
      requires plan.oldHash in rows && asset == rows[plan.oldHash]
      requires var staged := StagedPath(newHash, pid); staged in disk && disk[staged] == newHash.content
      modifies this
      ensures ok <==> !faults.tx && newHash !in old(rows) - {plan.oldHash} && !faults.rename && !faults.clear
      ensures ok ==> View() == ReplacedStore(old(View()), plan, newHash, size, StagedPath(newHash, pid))
      ensures !ok ==> View() == Unfinished(old(View()), plan, newHash, size, StagedPath(newHash, pid), faults)
      ensures (&& Guarded(old(View()), plan, newHash, StagedPath(newHash, pid))
               && FileIs(old(View()), plan.relPath, plan.oldHash)
               && RedactionOf(plan.oldHash.content, newHash.content)) ==> Agreement(View())
    {
      var staged := StagedPath(newHash, pid);
      ghost var verified := View();
      if faults.tx || newHash in rows - {plan.oldHash} {
        if !faults.query && newHash !in pending {
          disk := disk - {staged};
          UnnamedFileIsIrrelevant(verified, View(), staged);
        }
        return false;
      }
      var row := asset.(bytes := size, thumbState := 0);
      rows := (rows - {plan.oldHash})[newHash := row];
      alias := Repoint(alias, plan.oldHash, newHash)[plan.oldHash := newHash];
      pending := pending[newHash := Swap(row.relPath, staged)];
      ghost var committed := View();
      assert SupersedeAsset(verified, plan.oldHash, newHash, row, staged) == Some(committed);
      ok := SwapInFile(newHash, Swap(plan.relPath, staged), faults.rename, faults.clear);
      if Guarded(verified, plan, newHash, staged) && FileIs(verified, plan.relPath, plan.oldHash)
         && RedactionOf(plan.oldHash.content, newHash.content) {
        CommitAndSwapAgree(verified, committed, View(), plan.oldHash, newHash, row, staged);
      }
    }

    /** `apply_supersede`. `Error` is a failed call; the index may then be ahead of the disk by one open swap. */
    method ApplySupersede(plan: Plan, newHash: Hash, size: nat, pieces: seq<Piece>, faults: Faults) returns (r: Applied)
      modifies this
      ensures r.Refused? ==> ApplyRefusal(old(View()), plan, newHash, size, pieces) == Some(r.reason)
      ensures r.Refused? ==> View() == old(View()) || View() == Remove(old(View()), StagedPath(newHash, pid))
      ensures r.Replaced? ==>
                && Acceptable(old(View()), plan, newHash, size, pieces)
                && RedactionOf(plan.oldHash.content, newHash.content)
                && r.relPath == plan.relPath
                && View() == ReplacedStore(old(View()), plan, newHash, size, StagedPath(newHash, pid))
      ensures (&& Acceptable(old(View()), plan, newHash, size, pieces)
               && (newHash == plan.oldHash || newHash !in old(rows))
               && faults == NO_FAULTS) ==> r.Replaced?
      ensures r.Error? ==>
                var st, staged := old(View()), StagedPath(newHash, pid);
                && plan.oldHash in st.rows
                && View() == if !faults.copy && Expected(st, plan, newHash, pieces, faults.sync).Accepted?
                             then Unfinished(Write(st, staged, newHash.content), plan, newHash, size, staged, faults)
                             else Remove(st, staged)
      ensures Guarded(old(View()), plan, newHash, StagedPath(newHash, pid)) ==> Agreement(View())
    {
      var staged := StagedPath(newHash, pid);
      if size != plan.len {
        return Refused("size_mismatch");
      }
      if !Complete(plan, size, pieces) {
        return Refused("incomplete_ranges");
      }
      if plan.oldHash !in rows {
        return Refused("old_missing");
      }
      var asset := rows[plan.oldHash];
      ghost var before := View();
      var verdict := Stage(plan, newHash, pieces, faults);
      assert disk - {staged} == before.disk - {staged};
      UnnamedFileIsIrrelevant(before, View(), staged);
      match verdict {
        case Rejected(reason) => return Refused(reason);
        case CallFailed => return Error;
        case Accepted =>
      }
      PatchAllKeepsRedaction(plan.oldHash.content, plan.oldHash.content, pieces);
      hide Agreement, RedactionOf, Complete, PatchAll;
      var ok := CommitAndSwap(plan, newHash, size, asset, faults);
      assert before.disk[staged := newHash.content] - {staged} == before.disk - {staged};
      return if ok then Replaced(plan.relPath) else Error;
    }

    /** `finish_pending_swaps`: the renames or clears of the hashes in `failing` fail; the first failure ends
        the call. */
    method FinishPendingSwaps(failing: set<Hash>) returns (r: Option<nat>)
      modifies this
      ensures rows == old(rows) && alias == old(alias)
      ensures r.Some? ==> pending == map[] && r.value == |old(pending)|
      ensures failing !! old(pending).Keys ==> r.Some?
      ensures r.None? ==> exists h :: h in failing && h in pending && pending[h].staged in disk
      ensures forall h | h in pending :: h in old(pending) && pending[h] == old(pending)[h]
      ensures forall p | Untouched(old(pending), p) :: SameFile(old(View()), View(), p)
      ensures old(pending) == map[] ==> r == Some(0) && View() == old(View())
      ensures old(Agreement(View())) ==> Agreement(View())
      ensures old(Agreement(View())) && r.Some? ==> forall h | h in rows :: FileIs(View(), rows[h].relPath, h)
    {
      hide Agreement, SwapIn, Swapped, SameFile, FileIs;
      var todo := pending.Keys;
      var n := |pending|;
      assert old(pending) == map[] ==> todo == {};
      NothingSwappedYet(View());
      while todo != {}
        invariant rows == old(rows) && alias == old(alias)
        invariant pending.Keys == todo <= old(pending).Keys
        invariant forall h | h in pending :: pending[h] == old(pending)[h]
        invariant forall p | Untouched(old(pending), p) :: SameFile(old(View()), View(), p)
        invariant todo == {} && old(pending) == map[] ==> View() == old(View())
        invariant old(Agreement(View())) ==> Agreement(View())
        decreases todo
      {
        var h :| h in todo;
        ghost var before := View();
        var ok := SwapInFile(h, pending[h], h in failing, false);
        OneSwapAgrees(before, h, h in failing);
        forall p | Untouched(old(pending), p)
          ensures SameFile(old(View()), View(), p)
        {
          SwapTouchesOnly(old(View()), before, h, h in failing, p);
        }
        if !ok {
          return None;
        }
        todo := todo - {h};
      }
      if old(Agreement(View())) {
        NoRecordMeansTrueRows(View());
      }
      return Some(n);
    }

    /** `sweep_supersede_staging` over a directory listing that may be stale: entries may be gone by now. */
    method SweepStaging(listing: seq<DirItem>) returns (out: ResidueSweep)
      modifies this`disk
      ensures disk == old(disk) - set i | 0 <= i < |listing| && Residue(listing[i], pid, pending) :: listing[i].path
      ensures forall hash, owner :: DirItem(Staging(StagedName(hash, owner)), true) in listing && owner != Some(pid)
                && hash !in pending && (forall h | h in pending :: pending[h].staged != Staging(StagedName(hash, owner)))
                ==> Staging(StagedName(hash, owner)) !in disk
      ensures out.kept == KeptReasons(listing, old(disk), pid, pending)
      ensures out.removed + |out.kept| == |listing|
      ensures old(Agreement(View())) ==> Agreement(View())
      ensures old(Agreement(View())) ==> forall p | p in old(disk) && !Unnamed(old(View()), p) :: p in disk
    {
      out := ResidueSweep(0, []);
      var i := 0;
      ghost var gone: set<Path> := {};
      while i < |listing|
        invariant 0 <= i <= |listing|
        invariant gone == set j | 0 <= j < i && Residue(listing[j], pid, pending) :: listing[j].path
        invariant disk == old(disk) - gone
        invariant out.kept == KeptReasons(listing[..i], old(disk), pid, pending)
        invariant out.removed + |out.kept| == i
      {
        var item := listing[i];
        assert listing[..i + 1][..i] == listing[..i];
        assert (exists j | 0 <= j < i :: Residue(listing[j], pid, pending) && listing[j].path == item.path)
               <==> item.path in gone;
        if Residue(item, pid, pending) {
          gone := gone + {item.path};
          if item.path in disk {
            disk := disk - {item.path};
            out := out.(removed := out.removed + 1);
          } else {
            out := out.(kept := out.kept + ["remove_failed"]);
          }
        } else {
          out := out.(kept := out.kept + [KeepReason(item, pid, pending)]);
        }
        i := i + 1;
      }
      assert listing[..i] == listing;
      AllResidueIsGone(listing, old(disk), pid, pending);
      if old(Agreement(View())) {
        SweptAgreement(old(View()), View(), listing, pid);
      }
    }
  }

  lemma NothingSwappedYet(st: Store)
    ensures forall p :: SameFile(st, st, p)
  {
  }

  lemma NoRecordMeansTrueRows(st: Store)
    requires Agreement(st) && st.pending == map[]
    ensures forall h | h in st.rows :: FileIs(st, st.rows[h].relPath, h)
  {
    assert forall h | h in st.rows :: RowAgrees(st, h);
  }

  lemma OneSwapAgrees(st: Store, h: Hash, renameFails: bool)
    requires h in st.pending
    ensures var t := Swapped(st, h, st.pending[h], renameFails, false);
            && (Agreement(st) ==> Agreement(t))
            && (renameFails && st.pending[h].staged in st.disk ==> t == st)
            && (!(renameFails && st.pending[h].staged in st.disk) ==> t.pending == st.pending - {h})
  {
    if Agreement(st) {
      SwapInAgreement(st, h);
      ClearAgreement(SwapIn(st, st.pending[h]), h);
    }
    hide Agreement;
  }

  lemma SwapTouchesOnly(first: Store, st: Store, h: Hash, renameFails: bool, p: Path)
    requires h in st.pending && p != Original(st.pending[h].relPath) && p != st.pending[h].staged
    requires SameFile(first, st, p)
    ensures SameFile(first, Swapped(st, h, st.pending[h], renameFails, false), p)
  {
  }

  /** Neither the path nor the staged file of a record. */
  ghost predicate Untouched(pending: map<Hash, Swap>, p: Path) {
    forall h | h in pending :: p != Original(pending[h].relPath) && p != pending[h].staged
  }

  /** An entry of the staging directory. */
  datatype DirItem = DirItem(path: Path, isFile: bool)

  datatype ResidueSweep = ResidueSweep(removed: nat, kept: seq<string>)

  predicate Residue(item: DirItem, pid: nat, pending: map<Hash, Swap>) {
    item.isFile && Unclaimed(item.path, pid, pending)
  }

  /** What the sweep takes: a file with a name like ours, written by another process, whose hash has no record and
      which no record names. */
  lemma ResidueExactlyWhen(item: DirItem, pid: nat, pending: map<Hash, Swap>)
    ensures Residue(item, pid, pending) <==>
            exists hash, owner :: item == DirItem(Staging(StagedName(hash, owner)), true) && owner != Some(pid)
                                  && hash !in pending && forall h | h in pending :: pending[h].staged != item.path
  {
    if Residue(item, pid, pending) {
      var hash, owner := item.path.name.hash, item.path.name.pid;
      assert item == DirItem(Staging(StagedName(hash, owner)), true);
    }
  }

  /** Why an entry stays: the first of the four reasons that holds. */
  lemma KeepReasonsAreExact(item: DirItem, pid: nat, pending: map<Hash, Swap>)
    requires !Residue(item, pid, pending)
    ensures var reason := KeepReason(item, pid, pending);
            match item
            case DirItem(_, false) => reason == "not_a_file"
            case DirItem(Staging(StagedName(hash, owner)), true) =>
              if owner == Some(pid) then reason == "in_flight"
              else reason == "swap_pending" && (hash in pending || exists h :: h in pending && pending[h].staged == item.path)
            case DirItem(_, true) => reason == "unrecognized_name"
  {
  }

  function KeepReason(item: DirItem, pid: nat, pending: map<Hash, Swap>): string {
    if !item.isFile then "not_a_file"
    else if !(item.path.Staging? && item.path.name.StagedName?) then "unrecognized_name"
    else if item.path.name.pid == Some(pid) then "in_flight"
    else "swap_pending"
  }

  /** What is reported as kept: a residue entry only when its file was already gone. */
  ghost function KeptReasons(listing: seq<DirItem>, disk: map<Path, Bytes>, pid: nat, pending: map<Hash, Swap>): seq<string>
    decreases |listing|
  {
    if listing == [] then []
    else
      var n := |listing| - 1;
      var item := listing[n];
      var rest := KeptReasons(listing[..n], disk, pid, pending);
      if !Residue(item, pid, pending) then rest + [KeepReason(item, pid, pending)]
      else if item.path !in disk || exists j | 0 <= j < n :: Residue(listing[j], pid, pending) && listing[j].path == item.path
      then rest + ["remove_failed"]
      else rest
  }

  lemma AllResidueIsGone(listing: seq<DirItem>, disk: map<Path, Bytes>, pid: nat, pending: map<Hash, Swap>)
    ensures var left := disk - set i | 0 <= i < |listing| && Residue(listing[i], pid, pending) :: listing[i].path;
            forall hash, owner :: DirItem(Staging(StagedName(hash, owner)), true) in listing && owner != Some(pid)
              && hash !in pending && (forall h | h in pending :: pending[h].staged != Staging(StagedName(hash, owner)))
              ==> Staging(StagedName(hash, owner)) !in left
  {
    forall hash, owner | DirItem(Staging(StagedName(hash, owner)), true) in listing && owner != Some(pid)
      && hash !in pending && forall h | h in pending :: pending[h].staged != Staging(StagedName(hash, owner))
      ensures Staging(StagedName(hash, owner)) !in disk - set i | 0 <= i < |listing| && Residue(listing[i], pid, pending) :: listing[i].path
    {
      var item := DirItem(Staging(StagedName(hash, owner)), true);
      ResidueExactlyWhen(item, pid, pending);
      var i :| 0 <= i < |listing| && listing[i] == item;
      assert Residue(listing[i], pid, pending);
    }
  }

  lemma SweptAgreement(a: Store, b: Store, listing: seq<DirItem>, pid: nat)
    requires Agreement(a)
    requires b == a.(disk := a.disk - set i | 0 <= i < |listing| && Residue(listing[i], pid, a.pending) :: listing[i].path)
    ensures Agreement(b)
    ensures forall p | p in a.disk && !Unnamed(a, p) :: p in b.disk
  {
    forall p: Path | p.Original? || !Unnamed(a, p)
      ensures SameFile(a, b, p)
    {
    }
    VisibleKeepsAgreement(a, b);
  }

  /** Planning the same request after a replacement answers "already done", and the replaced hash counts as
      stored. */
  lemma ReplayIsAlreadyDone(st: Store, plan: Plan, newHash: Hash, size: nat, staged: Path)
    requires plan.oldHash in st.rows && st.rows[plan.oldHash].relPath == plan.relPath
    ensures var t := ReplacedStore(st, plan, newHash, size, staged);
            && plan.oldHash in t.alias && t.alias[plan.oldHash] == newHash
            && HasDurableCopy(t, newHash) && HasDurableCopy(t, plan.oldHash)
  {
  }

  /** How staging should end. */
  ghost function Expected(st: Store, plan: Plan, newHash: Hash, pieces: seq<Piece>, syncFails: bool): Verdict {
    if Original(plan.relPath) !in st.disk then CallFailed
    else if !FileIs(st, plan.relPath, plan.oldHash) then Rejected("old_changed")
    else match PatchAll(plan.oldHash.content, pieces)
      case NotARedaction => Rejected("not_a_redaction")
      case ShortRead => CallFailed
      case Patched(content) =>
        if syncFails then CallFailed else if content == newHash.content then Accepted else Rejected("hash_mismatch")
  }

  /** Why a request is refused, in the order of the checks. `None`: accepted, or a call that fails. */
  ghost function ApplyRefusal(st: Store, plan: Plan, newHash: Hash, size: nat, pieces: seq<Piece>): Option<string> {
    if size != plan.len then Some("size_mismatch")
    else if !Complete(plan, size, pieces) then Some("incomplete_ranges")
    else if plan.oldHash !in st.rows then Some("old_missing")
    else if Original(plan.relPath) !in st.disk then None
    else if !FileIs(st, plan.relPath, plan.oldHash) then Some("old_changed")
    else match PatchAll(plan.oldHash.content, pieces)
      case NotARedaction => Some("not_a_redaction")
      case ShortRead => None
      case Patched(content) => if content == newHash.content then None else Some("hash_mismatch")
  }

  ghost predicate Acceptable(st: Store, plan: Plan, newHash: Hash, size: nat, pieces: seq<Piece>) {
    && size == plan.len && Complete(plan, size, pieces)
    && plan.oldHash in st.rows && FileIs(st, plan.relPath, plan.oldHash)
    && PatchAll(plan.oldHash.content, pieces) == Patched(newHash.content)
  }

  /** A request to replace a hash by itself is not refused: the file's own bytes, as one piece, cover every
      range of a plan and change nothing. */
  lemma SelfRequestIsAcceptable(st: Store, plan: Plan)
    requires plan.oldHash in st.rows && FileIs(st, plan.relPath, plan.oldHash) && plan.len == |plan.oldHash.content|
    requires forall r | r in plan.ranges :: r.start < r.end <= plan.len
    ensures Acceptable(st, plan, plan.oldHash, plan.len, [Piece(0, plan.oldHash.content)])
  {
    var own := Piece(0, plan.oldHash.content);
    assert PatchOne(own.buf, own) == Patched(own.buf);
    forall i | 0 <= i < |plan.ranges|
      ensures Covered(plan.ranges[i], [own])
    {
      assert [own][0].off <= plan.ranges[i].start && plan.ranges[i].end <= [own][0].off + |[own][0].buf|;
    }
  }

  /** The library after a replacement: new bytes under the old path, the row and every alias moved along,
      no record and no staged file left. */
  ghost function ReplacedStore(st: Store, plan: Plan, newHash: Hash, size: nat, staged: Path): Store
    requires plan.oldHash in st.rows
  {
    Store(
      (st.disk - {staged})[Original(plan.relPath) := newHash.content],
      (st.rows - {plan.oldHash})[newHash := st.rows[plan.oldHash].(bytes := size, thumbState := 0)],
      Repoint(st.alias, plan.oldHash, newHash)[plan.oldHash := newHash],
      st.pending - {newHash})
  }

  /** The fields that a replacement changes, and all that it leaves as it was. */
  lemma ReplacedMeans(st: Store, plan: Plan, newHash: Hash, size: nat, name: StagedName)
    requires plan.oldHash in st.rows
    ensures var t := ReplacedStore(st, plan, newHash, size, Staging(name));
            var row := st.rows[plan.oldHash];
            && newHash in t.rows && t.rows[newHash] == Row(row.relPath, size, row.device, 0)
            && (plan.oldHash != newHash ==> plan.oldHash !in t.rows)
            && (forall h | h != plan.oldHash && h != newHash :: (h in t.rows <==> h in st.rows) && (h in st.rows ==> t.rows[h] == st.rows[h]))
            && Original(plan.relPath) in t.disk && t.disk[Original(plan.relPath)] == newHash.content
            && Staging(name) !in t.disk
            && (forall p | p != Original(plan.relPath) && p != Staging(name) :: SameFile(st, t, p))
    ensures var t := ReplacedStore(st, plan, newHash, size, Staging(name));
            && plan.oldHash in t.alias && t.alias[plan.oldHash] == newHash
            && (forall h | h != plan.oldHash :: h in t.alias <==> h in st.alias)
            && (forall h | h != plan.oldHash && h in st.alias ::
                  t.alias[h] == if st.alias[h] == plan.oldHash then newHash else st.alias[h])
            && newHash !in t.pending
            && forall h | h != newHash :: (h in t.pending <==> h in st.pending) && (h in st.pending ==> t.pending[h] == st.pending[h])
  {
    assert Original(plan.relPath) != Staging(name);
  }

  lemma CompleteExactlyWhen(plan: Plan, size: nat, pieces: seq<Piece>)
    ensures Complete(plan, size, pieces) <==>
            && (forall r | r in plan.ranges :: exists p :: p in pieces && p.off <= r.start && r.end <= p.off + |p.buf|)
            && forall p | p in pieces :: p.off + |p.buf| <= size
  {
    if Complete(plan, size, pieces) {
      forall r | r in plan.ranges
        ensures exists p :: p in pieces && p.off <= r.start && r.end <= p.off + |p.buf|
      {
        assert Covered(r, pieces);
        var i :| 0 <= i < |pieces| && pieces[i].off <= r.start && r.end <= pieces[i].off + |pieces[i].buf|;
        assert pieces[i] in pieces;
      }
    }
    if forall r | r in plan.ranges :: exists p :: p in pieces && p.off <= r.start && r.end <= p.off + |p.buf| {
      forall i | 0 <= i < |plan.ranges|
        ensures Covered(plan.ranges[i], pieces)
      {
        var p :| p in pieces && p.off <= plan.ranges[i].start && plan.ranges[i].end <= p.off + |p.buf|;
      }
    }
  }

  /** An honest request, whose pieces are cut from the new content, is acceptable if and only if the file is still the
      planned one, each planned range lies in one piece, and the new content differs from the old one only where
      that has zeros and some piece is. */
  lemma HonestRequestIsAcceptableExactlyWhen(st: Store, plan: Plan, newHash: Hash, pieces: seq<Piece>)
    requires CutFrom(pieces, newHash.content)
    ensures var (redacted, full) := (plan.oldHash.content, newHash.content);
            Acceptable(st, plan, newHash, |full|, pieces) <==>
            && plan.oldHash in st.rows && Original(plan.relPath) in st.disk && st.disk[Original(plan.relPath)] == redacted
            && plan.len == |full| == |redacted|
            && (forall r | r in plan.ranges :: exists p :: p in pieces && p.off <= r.start && r.end <= p.off + |p.buf|)
            && forall i: nat | i < |full| && redacted[i] != full[i] :: redacted[i] == 0 && Touched(pieces, |pieces|, i)
  {
    HonestSpliceSucceedsExactlyWhen(plan.oldHash.content, newHash.content, pieces);
    CompleteExactlyWhen(plan, |newHash.content|, pieces);
    hide Complete, PatchAll, Touched;
  }

  /** After `swap_in`, as far as it went: renamed if the staged file was there, and then cleared. */
  ghost function Swapped(st: Store, newHash: Hash, swap: Swap, renameFails: bool, clearFails: bool): Store {
    if renameFails && swap.staged in st.disk then st
    else if clearFails then SwapIn(st, swap)
    else ClearPending(SwapIn(st, swap), newHash)
  }

  /** What a failing call leaves behind, once the staged file holds the new content: before the transaction nothing but
      that file, which is removed if a look at the records shows that none is for the new hash; behind it the new index
      with the staged file waiting, or swapped in already. */
  ghost function Unfinished(st: Store, plan: Plan, newHash: Hash, size: nat, staged: Path, faults: Faults): Store
    requires plan.oldHash in st.rows
  {
    var row := st.rows[plan.oldHash].(bytes := size, thumbState := 0);
    match if faults.tx then None else SupersedeAsset(st, plan.oldHash, newHash, row, staged)
    case None => if !faults.query && newHash !in st.pending then Remove(st, staged) else st
    case Some(committed) => Swapped(committed, newHash, Swap(plan.relPath, staged), faults.rename, faults.clear)
  }

  /** The rule of `SupersedeProtocol.Exclusive` for one call, and a plan that still names the row's path. */
  ghost predicate Guarded(st: Store, plan: Plan, newHash: Hash, staged: Path) {
    && Agreement(st) && newHash != plan.oldHash && Unnamed(st, staged)
    && (plan.oldHash in st.rows ==> st.rows[plan.oldHash].relPath == plan.relPath)
  }

  lemma UnnamedFileIsIrrelevant(a: Store, b: Store, staged: Path)
    requires staged.Staging? && b == a.(disk := b.disk) && b.disk - {staged} == a.disk - {staged}
    ensures Agreement(a) && Unnamed(a, staged) ==> Agreement(b)
  {
    if Agreement(a) && Unnamed(a, staged) {
      forall p: Path | p != staged
        ensures SameFile(a, b, p)
      {
        assert p in a.disk <==> p in a.disk - {staged};
        assert p in b.disk <==> p in b.disk - {staged};
        assert p in a.disk ==> (a.disk - {staged})[p] == a.disk[p];
        assert p in b.disk ==> (b.disk - {staged})[p] == b.disk[p];
      }
      VisibleKeepsAgreement(a, b);
    }
  }

  lemma CommitAndSwapAgree(a: Store, b: Store, c: Store, oldHash: Hash, newHash: Hash, row: Row, staged: Path)
    requires Agreement(a) && oldHash != newHash
    requires oldHash in a.rows && a.rows[oldHash].relPath == row.relPath
    requires FileIs(a, row.relPath, oldHash)
    requires IsStagedOf(staged, newHash) && Unnamed(a, staged)
    requires staged in a.disk && HashOf(a.disk[staged]) == newHash
    requires RedactionOf(oldHash.content, newHash.content)
    requires SupersedeAsset(a, oldHash, newHash, row, staged) == Some(b)
    requires var swapped := SwapIn(b, Swap(row.relPath, staged)); c in {b, swapped, ClearPending(swapped, newHash)}
    ensures Agreement(c)
  {
    CommittedAgreement(a, oldHash, newHash, row, staged);
    SwapInAgreement(b, newHash);
    ClearAgreement(SwapIn(b, b.pending[newHash]), newHash);
  }

  /** A range is retained if and only if it was reported, is not empty, and lies inside the file. */
  lemma {:induction false} RetainedLieInside(ranges: seq<Range>, len: nat)
    ensures forall r :: r in Retain(ranges, len) <==> r in ranges && r.start < r.end <= len
    ensures Retain(ranges, len) == [] <==> forall r | r in ranges :: !(r.start < r.end <= len)
  {
    if ranges != [] {
      RetainedLieInside(ranges[1..], len);
      assert ranges == [ranges[0]] + ranges[1..];
    }
  }

  /** Order and number stay as well. */
  lemma {:induction false} RetainedIsLeft(ranges: seq<Range>, len: nat)
    ensures LeftOf(Retain(ranges, len), ranges, len)
  {
    if ranges == [] {
      assert Picks([], [], ranges, len);
    } else {
      RetainedIsLeft(ranges[1..], len);
      OneInFront(ranges, len, Retain(ranges[1..], len));
    }
  }

  function Shifted(at: seq<nat>): seq<nat> {
    seq<nat>(|at|, i requires 0 <= i < |at| => at[i] + 1)
  }

  lemma ShiftedHolds(at: seq<nat>, k: nat)
    ensures k in Shifted(at) <==> k > 0 && k - 1 in at
  {
    if k > 0 && k - 1 in at {
      var i :| 0 <= i < |at| && at[i] == k - 1;
      assert Shifted(at)[i] == k;
    }
  }

  lemma SkippedInFront(at: seq<nat>, ranges: seq<Range>, len: nat, rest: seq<Range>)
    requires ranges != [] && Picks(at, rest, ranges[1..], len) && !Usable(ranges[0], len)
    ensures Picks(Shifted(at), rest, ranges, len)
  {
    hide Usable;
    forall k | 0 <= k < |ranges|
      ensures k in Shifted(at) <==> Usable(ranges[k], len)
    {
      ShiftedHolds(at, k);
      assert k > 0 ==> ranges[k] == ranges[1..][k - 1];
    }
  }

  function WithFirst(at: seq<nat>): (all: seq<nat>)
    ensures |all| == |at| + 1 && all[0] == 0 && forall i | 0 < i < |all| :: all[i] == at[i - 1] + 1
  {
    [0] + Shifted(at)
  }

  lemma WithFirstHolds(at: seq<nat>, k: nat)
    ensures k in WithFirst(at) <==> k == 0 || k - 1 in at
  {
    ShiftedHolds(at, k);
    hide Shifted;
    assert k in [0] + Shifted(at) <==> k == 0 || k in Shifted(at);
  }

  lemma KeptMembers(at: seq<nat>, ranges: seq<Range>, len: nat, rest: seq<Range>, k: nat)
    requires ranges != [] && Picks(at, rest, ranges[1..], len) && Usable(ranges[0], len) && k < |ranges|
    ensures k in WithFirst(at) <==> Usable(ranges[k], len)
  {
    hide Usable, WithFirst;
    WithFirstHolds(at, k);
    assert k > 0 ==> ranges[k] == ranges[1..][k - 1];
  }

  lemma KeptPlaces(at: seq<nat>, ranges: seq<Range>, len: nat, rest: seq<Range>, i: nat)
    requires ranges != [] && Picks(at, rest, ranges[1..], len) && i <= |at|
    ensures WithFirst(at)[i] < |ranges| && ([ranges[0]] + rest)[i] == ranges[WithFirst(at)[i]]
  {
    hide Usable, WithFirst;
    if i > 0 {
      assert ([ranges[0]] + rest)[i] == rest[i - 1] == ranges[1..][at[i - 1]];
    }
  }

  lemma KeptInFront(at: seq<nat>, ranges: seq<Range>, len: nat, rest: seq<Range>)
    requires ranges != [] && Picks(at, rest, ranges[1..], len) && Usable(ranges[0], len)
    ensures Picks(WithFirst(at), [ranges[0]] + rest, ranges, len)
  {
    hide Usable, WithFirst;
    forall k: nat | k < |ranges| {
      KeptMembers(at, ranges, len, rest, k);
    }
    forall i: nat | i <= |at| {
      KeptPlaces(at, ranges, len, rest, i);
    }
    assert forall i, j | 0 <= i < j < |WithFirst(at)| :: WithFirst(at)[i] < WithFirst(at)[j];
  }

  lemma OneInFront(ranges: seq<Range>, len: nat, rest: seq<Range>)
    requires ranges != [] && LeftOf(rest, ranges[1..], len)
    ensures LeftOf((if Usable(ranges[0], len) then [ranges[0]] else []) + rest, ranges, len)
  {
    var at :| Picks(at, rest, ranges[1..], len);
    hide Picks, Usable;
    if Usable(ranges[0], len) {
      KeptInFront(at, ranges, len, rest);
    } else {
      SkippedInFront(at, ranges, len, rest);
      assert [] + rest == rest;
    }
  }

  /** The size of a plan is the sum of its ranges, however they are grouped. */
  lemma {:induction false} TotalBytesAdds(a: seq<Range>, b: seq<Range>)
    ensures TotalBytes(a + b) == TotalBytes(a) + TotalBytes(b)
    ensures |a| == 1 ==> TotalBytes(a) == a[0].end - a[0].start
  {
    if a == [] {
      assert a + b == b;
    } else {
      TotalBytesAdds(a[1..], b);
      assert (a + b)[1..] == a[1..] + b;
      assert |a| == 1 ==> TotalBytes(a[1..]) == 0;
    }
  }
}
