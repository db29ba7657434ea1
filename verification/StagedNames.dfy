/** The names of staged files: what `.ppf/supersede-staging` holds after a crash is told apart by name alone. */
module StagedNames {
  import opened LibraryStore
  import opened Text

  const SUFFIX := ".part"
  const PIDS := 0x1_0000_0000

  /** `<64 hex>-<pid>.part`, and `<64 hex>.part` in the old naming. */
  function Print(hash: Bytes, pid: Option<nat>): string {
    match pid
    case Some(p) => Hex(hash) + "-" + Decimal(p) + SUFFIX
    case None => Hex(hash) + SUFFIX
  }

  /** Exactly 64 lower-case digits. (A name with other than ASCII characters never is, counted in bytes or in
      characters.) */
  function ParseHex32(s: string): Option<Bytes> {
    if |s| != 64 then None else Pairs(StrictPair, s, 32)
  }

  function ParsePid(s: string): Option<nat> {
    if s == [] || !AllDigits(s) || Value(s) >= PIDS then None else Some(Value(s))
  }

  function Parse(name: string): Option<(Bytes, Option<nat>)> {
    if |name| < |SUFFIX| || name[|name| - |SUFFIX|..] != SUFFIX then None
    else
      var stem := name[..|name| - |SUFFIX|];
      var dash := IndexFrom(stem, '-', 0);
      if dash < |stem| then
        match (ParsePid(stem[dash + 1..]), ParseHex32(stem[..dash]))
        case (Some(pid), Some(hash)) => Some((hash, Some(pid)))
        case _ => None
      else
        match ParseHex32(stem)
        case Some(hash) => Some((hash, None))
        case None => None
  }

  method ParseHex32InPlace(s: string) returns (r: Option<Bytes>)
    ensures r == ParseHex32(s)
  {
    if |s| != 64 {
      return None;
    }
    var out := new Byte[32](i => 0);
    for i := 0 to 32
      invariant Pairs(StrictPair, s, i) == Some(out[..i])
    {
      var b := StrictPair(s[2 * i], s[2 * i + 1]);
      if b.None? {
        PairsFail(s, i + 1, 32);
        return None;
      }
      out[i] := b.value;
      assert out[..i + 1] == out[..i] + [b.value];
    }
    assert out[..32] == out[..];
    return Some(out[..]);
  }

  lemma {:induction false} PairsFail(s: string, n: nat, m: nat)
    requires n <= m && 2 * m <= |s| && Pairs(StrictPair, s, n).None?
    ensures Pairs(StrictPair, s, m).None?
  {
    if n < m {
      PairsFail(s, n, m - 1);
    }
  }

  lemma HexHasNoDash(hash: Bytes)
    ensures '-' !in Hex(hash)
  {
    HexDigitsOnly(hash);
  }

  /** A printed name is read back: no staged file is mistaken for another hash's or another process's. */
  lemma PrintedNameIsRead(hash: Bytes, pid: Option<nat>)
    requires |hash| == 32 && (pid.Some? ==> pid.value < PIDS)
    ensures Parse(Print(hash, pid)) == Some((hash, pid))
  {
    StrictPairReadsHex();
    HexReadsBack(StrictPair, hash);
    HexHasNoDash(hash);
    var name := Print(hash, pid);
    var stem := name[..|name| - |SUFFIX|];
    assert name[|name| - |SUFFIX|..] == SUFFIX;
    match pid {
      case Some(p) =>
        DecimalReadsBack(p);
        FirstComponent(Hex(hash), '-', Decimal(p));
        assert stem == Hex(hash) + ['-'] + Decimal(p);
        assert stem[..|Hex(hash)|] == Hex(hash) && stem[|Hex(hash)| + 1..] == Decimal(p);
      case None =>
        assert stem == Hex(hash);
    }
  }

  /** Any decimal spelling of a process id that fits 32 bits is read, and no other. */
  lemma SpelledNameIsReadExactlyWhen(hash: Bytes, digits: string)
    requires |hash| == 32 && digits != "" && AllDigits(digits)
    ensures Parse(Hex(hash) + "-" + digits + ".part")
         == if Value(digits) < 4_294_967_296 then Some((hash, Some(Value(digits)))) else None
    ensures Parse(Hex(hash) + ".part") == Some((hash, None))
  {
    StrictPairReadsHex();
    HexReadsBack(StrictPair, hash);
    HexHasNoDash(hash);
    PrintedNameIsRead(hash, None);
    var name := Hex(hash) + "-" + digits + ".part";
    var stem := name[..|name| - 5];
    assert name[|name| - 5..] == ".part";
    FirstComponent(Hex(hash), '-', digits);
    assert stem == Hex(hash) + ['-'] + digits;
    assert stem[..|Hex(hash)|] == Hex(hash) && stem[|Hex(hash)| + 1..] == digits;
  }

  /** The printed name, letter by letter: the digits of the hash, a dash, the process id without leading zeros, the suffix. */
  lemma PrintedNameIs(hash: Bytes, pid: nat)
    ensures Print(hash, None) == Hex(hash) + ".part"
    ensures exists digits :: Print(hash, Some(pid)) == Hex(hash) + "-" + digits + ".part" && AllDigits(digits)
                             && digits != "" && Value(digits) == pid && (pid > 0 ==> digits[0] != '0') && (pid == 0 ==> digits == "0")
  {
    DecimalReadsBack(pid);
    DecimalIsShortest(pid);
    assert Print(hash, Some(pid)) == Hex(hash) + "-" + Decimal(pid) + ".part";
  }

  lemma NamesAreDistinct(g: Bytes, p: Option<nat>, h: Bytes, q: Option<nat>)
    requires |g| == 32 && |h| == 32 && (p.Some? ==> p.value < PIDS) && (q.Some? ==> q.value < PIDS)
    requires Print(g, p) == Print(h, q)
    ensures g == h && p == q
  {
    PrintedNameIsRead(g, p);
    PrintedNameIsRead(h, q);
  }

  /** A name that reads as one of ours is spelled like ours, up to leading zeros of the pid: no file is taken
      for ours by accident of case, length or trailing text. */
  lemma ReadNameIsSpelledLikeOurs(name: string)
    requires Parse(name).Some?
    ensures var (hash, pid) := Parse(name).value;
            && |hash| == 32
            && match pid
               case None => name == Print(hash, None)
               case Some(p) =>
                 && p < 4_294_967_296
                 && exists digits :: name == Hex(hash) + "-" + digits + SUFFIX && AllDigits(digits) && digits != [] && Value(digits) == p
  {
    var stem := name[..|name| - |SUFFIX|];
    assert name == stem + SUFFIX;
    var dash := IndexFrom(stem, '-', 0);
    assert dash == |stem| ==> stem[..dash] == stem;
    StrictPairsAreHex(stem[..dash], 32);
    assert stem[..dash][..64] == stem[..dash];
    if dash < |stem| {
      var digits := stem[dash + 1..];
      assert stem == stem[..dash] + "-" + digits;
      assert name == Hex(Parse(name).value.0) + "-" + digits + SUFFIX;
    }
  }
}
