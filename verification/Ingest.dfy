/** One ingest, step by step: publishing a file under a free name without clobbering any, and keeping the
    index in line. `IngestProtocol` has the interleavings and the failures. */
module Ingest {
  import opened LibraryStore
  import opened LibraryLayout
  import opened Text
  import opened IngestProtocol

  const ATTEMPTS := 10_000

  datatype Outcome = Added(rel: string) | AlreadyThere | Relocated(rel: string) | NameSpaceExhausted

  /** What the file systems can do: hard links from the source into the library, and inside the library. */
  datatype Links = Links(fromSource: bool, inside: bool)

  function CandidatePath(dir: string, name: string, i: nat): string {
    dir + "/" + Candidate(name, i)
  }

  ghost predicate TakenBelow(disk: map<File, Bytes>, dir: string, name: string, n: nat) {
    forall i | 0 <= i < n :: Library(CandidatePath(dir, name, i)) in disk
  }

  lemma CandidatePathsAreDistinct(dir: string, name: string, i: nat, j: nat)
    requires i != j
    ensures CandidatePath(dir, name, i) != CandidatePath(dir, name, j)
  {
    CandidatesAreDistinct(name, i, j);
    hide Candidate;
    var (p, q) := (CandidatePath(dir, name, i), CandidatePath(dir, name, j));
    assert p[|dir| + 1..] == Candidate(name, i) && q[|dir| + 1..] == Candidate(name, j);
  }

  /** The paths tried: the name itself in the directory, then with a number in front of its extension. */
  lemma CandidatePathIs(dir: string, stem: string, ext: string, i: nat)
    requires stem != "" && ext != "" && '.' !in ext
    ensures CandidatePath(dir, stem + "." + ext, i)
         == dir + "/" + (if i == 0 then stem + "." + ext else stem + "-" + Decimal(i) + "." + ext)
  {
    CandidateIsSuffixed(stem, ext, i);
    hide Candidate;
  }

  /** The whole effect of a placement: the file has moved to the first free one of the candidate names, and
      nothing else has changed. */
  ghost predicate MovedToFirstFree(before: map<File, Bytes>, after: map<File, Bytes>, src: File, dir: string, name: string, rel: string) {
    && src in before
    && after == (before - {src})[Library(rel) := before[src]]
    && Library(rel) !in before
    && exists i: nat :: i < 10_000 && rel == CandidatePath(dir, name, i) && TakenBelow(before, dir, name, i)
  }

  class Ingestor {
    const pid: nat
    var clock: nat
    var disk: map<File, Bytes>
    var rows: map<Hash, Row>

    constructor (pid: nat, disk: map<File, Bytes>, rows: map<Hash, Row>)
      ensures this.pid == pid && this.disk == disk && this.rows == rows && clock == 0
    {
      this.pid, this.clock, this.disk, this.rows := pid, 0, disk, rows;
    }

    /** The complete copy in the target directory, once there is one. */
    ghost predicate Copied(src: File, temp: Option<File>, before: map<File, Bytes>)
      reads this
    {
      && src in before && !src.Temp?
      && (match temp
          case None => disk == before
          case Some(t) => t.Temp? && t !in before && disk == before[t := before[src]])
    }

    /** `taken` is the "already exists" of the operating system, after which the caller tries another name. */
    method PublishNoClobber(src: File, dest: string, dir: string, temp: Option<File>, links: Links, ghost before: map<File, Bytes>)
      returns (taken: bool, left: Option<File>)
      requires Copied(src, temp, before) && Temp(dir, pid, clock) !in before && src != Library(dest)
      modifies this`disk
      ensures taken <==> Library(dest) in before
      ensures taken ==> Copied(src, left, before)
      ensures !taken ==> left.None? && disk == (before - {src})[Library(dest) := before[src]]
    {
      left := temp;
      if temp.None? && links.fromSource {
        if Library(dest) in disk {
          return true, temp;
        }
        disk := disk[Library(dest) := disk[src]];
        disk := disk - {src};
        return false, None;
      }
      var copy := if temp.Some? then temp.value else Temp(dir, pid, clock);
      if temp.None? {
        disk := disk[copy := disk[src]];
      }
      left := Some(copy);
      if Library(dest) in disk {
        return true, left;
      }
      if links.inside {
        disk := disk[Library(dest) := disk[copy]];
        disk := disk - {copy};
      } else {
        disk := disk[Library(dest) := []];
        disk := (disk - {copy})[Library(dest) := disk[copy]];
      }
      disk := disk - {src};
      return false, None;
    }

    method PlaceBlocking(src: File, dir: string, fileName: string, links: Links) returns (r: Option<string>)
      requires src in disk && src.Incoming? && Temp(dir, pid, clock) !in disk
      modifies this`disk
      ensures var name := SanitizeFileName(fileName);
              match r
              case Some(rel) => MovedToFirstFree(old(disk), disk, src, dir, name, rel) && Holds(disk, Library(rel), old(disk)[src])
              case None => TakenBelow(old(disk), dir, name, 10_000) && disk == old(disk)
    {
      hide SanitizeFileName, Candidate;
      var name := SanitizeFileName(fileName);
      var temp: Option<File> := None;
      ghost var before := disk;
      for i := 0 to ATTEMPTS
        invariant Copied(src, temp, before)
        invariant TakenBelow(before, dir, name, i)
      {
        var taken, left := PublishNoClobber(src, CandidatePath(dir, name, i), dir, temp, links, before);
        temp := left;
        if !taken {
          return Some(CandidatePath(dir, name, i));
        }
      }
      if temp.Some? {
        disk := disk - {temp.value};
      }
      return None;
    }

    /** No two rows share a path. */
    ghost predicate PathsUnique()
      reads this`rows
    {
      forall g, h | g in rows && h in rows && g != h :: rows[g].relPath != rows[h].relPath
    }

    /** The rows of all paths but one have their files. */
    ghost predicate TrueExceptAt(rel: Option<string>)
      reads this
    {
      forall h | h in rows && rel != Some(rows[h].relPath) :: Holds(disk, Library(rows[h].relPath), h.content)
    }

    method HashAtRelPath(rel: string) returns (g: Option<Hash>)
      ensures g.Some? ==> g.value in rows && rows[g.value].relPath == rel
      ensures g.None? ==> forall h | h in rows :: rows[h].relPath != rel
    {
      if h :| h in rows && rows[h].relPath == rel {
        return Some(h);
      }
      return None;
    }

    /** The row of a new file; another row at the same path gives way. */
    method Register(h: Hash, rel: string, device: Device)
      requires h !in rows && Holds(disk, Library(rel), h.content)
      modifies this`rows
      ensures Registered(old(rows), rows, h, Row(rel, |h.content|, device, 0))
      ensures old(PathsUnique()) ==> PathsUnique() && (old(TrueExceptAt(Some(rel))) ==> TrueExceptAt(None))
    {
      var evicted := HashAtRelPath(rel);
      if evicted.Some? && evicted.value != h {
        rows := rows - {evicted.value};
      }
      rows := rows[h := Row(rel, |h.content|, device, 0)];
    }

    method IngestInner(src: File, dir: string, fileName: string, device: Device, links: Links) returns (o: Outcome)
      requires src in disk && !src.Temp? && Temp(dir, pid, clock) !in disk
      modifies this`disk, this`rows
      ensures var h := HashOf(old(disk)[src]);
              match o
              case AlreadyThere =>
                && h in old(rows) && Library(old(rows)[h].relPath) in old(disk) && disk == old(disk) && rows == old(rows)
              case Relocated(rel) =>
                && h in old(rows) && Library(old(rows)[h].relPath) !in old(disk)
                && rows == old(rows)[h := old(rows)[h].(relPath := rel)]
                && Holds(disk, Library(rel), h.content)
              case Added(rel) =>
                && h !in old(rows) && Registered(old(rows), rows, h, Row(rel, |h.content|, device, 0))
                && Holds(disk, Library(rel), h.content)
                && (old(PathsUnique()) ==> PathsUnique() && (old(TrueExceptAt(Some(rel))) ==> TrueExceptAt(None)))
              case NameSpaceExhausted =>
                disk == old(disk) && rows == old(rows) && TakenBelow(disk, dir, SanitizeFileName(fileName), 10_000)
      ensures src.Library? ==> disk == old(disk) && !o.NameSpaceExhausted? && (o.Added? || o.Relocated? ==> o.rel == src.rel)
      ensures src.Incoming? && (o.Added? || o.Relocated?) ==>
                MovedToFirstFree(old(disk), disk, src, dir, SanitizeFileName(fileName), o.rel)
    {
      hide SanitizeFileName, Candidate, TakenBelow, PathsUnique;
      var h := HashOf(disk[src]);
      if h in rows && Library(rows[h].relPath) in disk {
        return AlreadyThere;
      }
      var rel: string;
      if src.Library? {
        rel := src.rel;
      } else {
        var placed := PlaceBlocking(src, dir, fileName, links);
        if placed.None? {
          return NameSpaceExhausted;
        }
        rel := placed.value;
      }
      if h in rows {
        rows := rows[h := rows[h].(relPath := rel)];
        return Relocated(rel);
      }
      assert old(TrueExceptAt(Some(rel))) ==> TrueExceptAt(Some(rel));
      hide MovedToFirstFree, TrueExceptAt;
      Register(h, rel, device);
      return Added(rel);
    }
  }

  /** The new row is in, rows at other paths are as before, and no row came from nowhere. */
  ghost predicate Registered(before: map<Hash, Row>, after: map<Hash, Row>, h: Hash, row: Row) {
    && h in after && after[h] == row
    && (forall g | g in before && before[g].relPath != row.relPath :: g in after && (g != h ==> after[g] == before[g]))
    && (forall g | g in after && g != h :: g in before && after[g] == before[g])
  }
}
