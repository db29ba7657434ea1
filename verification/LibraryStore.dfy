/** The state that every library operation works on: the files on disk, and the three index tables
    (`asset`, `asset_alias`, `asset_swap_pending`) with the atomic operations of the storage layer. */
module LibraryStore {

  datatype Option<+T> = None | Some(value: T)

  type Byte = b: int | 0 <= b < 256
  type Bytes = seq<Byte>

  /** A content hash. BLAKE3 is modelled as the free injective function: two files have the same hash
      exactly when they have the same bytes. */
  datatype Hash = Digest(content: Bytes)

  function HashOf(content: Bytes): Hash {
    Digest(content)
  }

  /** A name below `.ppf/supersede-staging`: the new hash and the pid of the writer (absent in the old
      naming), or a name that is not ours. `StagedNames` proves that printing such a name loses nothing. */
  datatype StagedName = StagedName(hash: Hash, pid: Option<nat>) | Foreign(name: string)

  datatype Path =
    | Original(rel: string)
    | Staging(name: StagedName)

  type Device = seq<Byte>

  /** One row of the `asset` table, keyed by hash. */
  datatype Row = Row(relPath: string, bytes: int, device: Device, thumbState: int)

  /** One row of `asset_swap_pending`, keyed by the new hash. */
  datatype Swap = Swap(relPath: string, staged: Path)

  datatype Store = Store(
    disk: map<Path, Bytes>,
    rows: map<Hash, Row>,
    alias: map<Hash, Hash>,
    pending: map<Hash, Swap>)

  /** `UPDATE asset_alias SET new_hash = new WHERE new_hash = oldHash`. */
  function Repoint(alias: map<Hash, Hash>, oldHash: Hash, newHash: Hash): map<Hash, Hash> {
    map h | h in alias :: if alias[h] == oldHash then newHash else alias[h]
  }

  /** The one transaction of a replacement. `None` is the unique violation on `asset.hash`: everything
      rolls back. */
  function SupersedeAsset(s: Store, oldHash: Hash, newHash: Hash, row: Row, staged: Path): Option<Store> {
    var rows := s.rows - {oldHash};
    if newHash in rows then None
    else Some(s.(
      rows := rows[newHash := row],
      alias := Repoint(s.alias, oldHash, newHash)[oldHash := newHash],
      pending := s.pending[newHash := Swap(row.relPath, staged)]))
  }

  /** `rename(from, to)`: the target is replaced atomically. */
  function Rename(s: Store, from: Path, to: Path): Store
    requires from in s.disk
  {
    s.(disk := (s.disk - {from})[to := s.disk[from]])
  }

  function Remove(s: Store, p: Path): Store {
    s.(disk := s.disk - {p})
  }

  function Write(s: Store, p: Path, content: Bytes): Store {
    s.(disk := s.disk[p := content])
  }

  function ClearPending(s: Store, newHash: Hash): Store {
    s.(pending := s.pending - {newHash})
  }

  /** `has_durable_copy`: the row of this hash, or of the hash that replaced it, has a file. */
  predicate HasDurableCopy(s: Store, h: Hash) {
    if h in s.rows then Original(s.rows[h].relPath) in s.disk
    else h in s.alias && s.alias[h] in s.rows && Original(s.rows[s.alias[h]].relPath) in s.disk
  }

  /** `redacted` is `full` with some bytes zeroed: same length, and equal wherever `redacted` is nonzero. */
  ghost predicate RedactionOf(redacted: Bytes, full: Bytes) {
    && |redacted| == |full|
    && forall i | 0 <= i < |redacted| :: redacted[i] != 0 ==> full[i] == redacted[i]
  }

  /** A staged file that nobody wants: named like ours, written by another process, and named by no pending
      record, by path or by hash. */
  predicate Unclaimed(p: Path, pid: nat, pending: map<Hash, Swap>) {
    && p.Staging? && p.name.StagedName?
    && p.name.pid != Some(pid)
    && p.name.hash !in pending
    && forall h | h in pending :: pending[h].staged != p
  }
}
