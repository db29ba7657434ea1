/** The names an ingest gives, and what can be read back from them: the tree alone has to tell which device a
    photo came from and that it is a photo (ADR-006). Strings are sequences of characters; directory names
    with other than ASCII characters are never a device's, whether counted in bytes or in characters. */
module LibraryLayout {
  import opened LibraryStore
  import opened Text

  // --- file names ----------------------------------------------------------------

  /** The characters that `str::trim` removes (Unicode White_Space). */
  predicate IsSpace(c: char) {
    || '\t' <= c <= '\r' || c == ' ' || c == '\U{85}' || c == '\U{a0}' || c == '\U{1680}'
    || '\U{2000}' <= c <= '\U{200a}' || c == '\U{2028}' || c == '\U{2029}' || c == '\U{202f}'
    || c == '\U{205f}' || c == '\U{3000}'
  }

  function TrimLeft(s: string): (r: string)
    ensures |r| <= |s| && r == s[|s| - |r|..] && (r != [] ==> !IsSpace(r[0]))
  {
    if s != [] && IsSpace(s[0]) then TrimLeft(s[1..]) else s
  }

  function TrimRight(s: string): (r: string)
    ensures r <= s && (r != [] ==> !IsSpace(r[|r| - 1]))
  {
    if s != [] && IsSpace(s[|s| - 1]) then TrimRight(s[..|s| - 1]) else s
  }

  function Trim(s: string): string {
    TrimRight(TrimLeft(s))
  }

  function Max(a: nat, b: nat): nat {
    if a < b then b else a
  }

  function SanitizeFileName(name: string): string {
    var last := Trim(name[Max(AfterLast(name, '/'), AfterLast(name, '\\'))..]);
    if last == "" || last == "." || last == ".." then "unnamed.bin" else last
  }

  /** One component, never a step up or in place, and nothing left to trim. */
  ghost predicate SafeName(s: string) {
    && s != "" && s != "." && s != ".." && '/' !in s && '\\' !in s
    && !IsSpace(s[0]) && !IsSpace(s[|s| - 1])
  }

  lemma SpacesAreListed(c: char)
    ensures IsSpace(c) <==> c in {'\t', '\n', '\U{b}', '\U{c}', '\r', ' ', '\U{85}', '\U{a0}', '\U{1680}', '\U{2000}',
              '\U{2001}', '\U{2002}', '\U{2003}', '\U{2004}', '\U{2005}', '\U{2006}', '\U{2007}', '\U{2008}', '\U{2009}',
              '\U{200a}', '\U{2028}', '\U{2029}', '\U{202f}', '\U{205f}', '\U{3000}'}
  {
  }

  ghost predicate Blank(s: string) {
    forall c | c in s :: IsSpace(c)
  }

  /** Nothing to trim at either end. */
  ghost predicate Tight(s: string) {
    s != "" ==> !IsSpace(s[0]) && !IsSpace(s[|s| - 1])
  }

  lemma TrimmedIsSlice(s: string) returns (i: nat, j: nat)
    ensures i <= j <= |s| && Trim(s) == s[i..j]
    ensures i < j ==> !IsSpace(s[i]) && !IsSpace(s[j - 1])
    ensures s != "" && !IsSpace(s[0]) && !IsSpace(s[|s| - 1]) ==> i == 0 && j == |s|
    ensures Blank(s[..i]) && Blank(s[j..])
  {
    hide IsSpace, Blank;
    var t := TrimLeft(s);
    i := |s| - |t|;
    j := i + |TrimRight(t)|;
    assert s[i..j] == t[..j - i];
    TrimLeftTakesBlanks(s);
    TrimRightTakesBlanks(t);
    assert s[j..] == t[j - i..];
  }

  lemma {:induction false} TrimLeftTakesBlanks(s: string)
    ensures Blank(s[..|s| - |TrimLeft(s)|])
  {
    if s != [] && IsSpace(s[0]) {
      TrimLeftTakesBlanks(s[1..]);
      var n := |s| - |TrimLeft(s)|;
      assert s[..n] == [s[0]] + s[1..][..n - 1];
    }
  }

  lemma {:induction false} TrimRightTakesBlanks(s: string)
    ensures Blank(s[|TrimRight(s)|..])
  {
    if s != [] && IsSpace(s[|s| - 1]) {
      var init := s[..|s| - 1];
      TrimRightTakesBlanks(init);
      var n := |TrimRight(s)|;
      assert s[n..] == init[n..] + [s[|s| - 1]];
    }
  }

  lemma {:induction false} TrimLeftIsExact(lead: string, rest: string)
    requires Blank(lead) && (rest != "" ==> !IsSpace(rest[0]))
    ensures TrimLeft(lead + rest) == rest
  {
    if lead == "" {
      assert lead + rest == rest;
    } else {
      assert lead[0] in lead;
      assert (lead + rest)[1..] == lead[1..] + rest;
      TrimLeftIsExact(lead[1..], rest);
    }
  }

  lemma {:induction false} TrimRightIsExact(rest: string, tail: string)
    requires Blank(tail) && (rest != "" ==> !IsSpace(rest[|rest| - 1]))
    ensures TrimRight(rest + tail) == rest
  {
    if tail == "" {
      assert rest + tail == rest;
    } else {
      assert tail[|tail| - 1] in tail;
      var s := rest + tail;
      assert s[..|s| - 1] == rest + tail[..|tail| - 1];
      TrimRightIsExact(rest, tail[..|tail| - 1]);
    }
  }

  /** Trimming takes the blanks at both ends and nothing else. */
  lemma TrimIsExact(lead: string, core: string, tail: string)
    requires Blank(lead) && Blank(tail) && Tight(core)
    ensures Trim(lead + core + tail) == core
  {
    hide IsSpace;
    assert lead + core + tail == lead + (core + tail);
    if core == "" {
      assert core + tail == tail + "";
      assert lead + tail + "" == (lead + tail) + "";
      assert forall c | c in lead + tail :: c in lead || c in tail;
      TrimLeftIsExact(lead + tail, "");
      assert lead + core + tail == lead + tail + "";
    } else {
      TrimLeftIsExact(lead, core + tail);
      TrimRightIsExact(core, tail);
    }
  }

  /** For every name: what is behind its last separator, trimmed, and a placeholder when that is nothing or
      no name. */
  lemma SanitizedNameIsExact(front: string, lead: string, core: string, tail: string)
    requires front == "" || front[|front| - 1] == '/' || front[|front| - 1] == '\\'
    requires forall c | c in lead + core + tail :: c != '/' && c != '\\'
    requires Blank(lead) && Blank(tail) && Tight(core)
    ensures SanitizeFileName(front + (lead + core + tail)) == if core in ["", ".", ".."] then "unnamed.bin" else core
  {
    hide *;
    var part := lead + core + tail;
    LastPartIsCut(front, part);
    TrimIsExact(lead, core, tail);
    SanitizedIsTrimmed(front + part, part);
  }

  lemma SanitizedIsTrimmed(name: string, part: string)
    requires part == name[Max(AfterLast(name, '/'), AfterLast(name, '\\'))..]
    ensures SanitizeFileName(name) == if Trim(part) in ["", ".", ".."] then "unnamed.bin" else Trim(part)
  {
    hide Trim, AfterLast;
  }

  lemma LastPartIsCut(front: string, part: string)
    requires front == "" || front[|front| - 1] == '/' || front[|front| - 1] == '\\'
    requires forall c | c in part :: c != '/' && c != '\\'
    ensures var name := front + part; name[Max(AfterLast(name, '/'), AfterLast(name, '\\'))..] == part
  {
    LastIsInFront(front, '/', part);
    LastIsInFront(front, '\\', part);
  }

  lemma {:induction false} LastIsInFront(a: string, c: char, b: string)
    requires c !in b
    ensures AfterLast(a + b, c) == AfterLast(a, c)
  {
    if b == "" {
      assert a + b == a;
    } else {
      assert (a + b)[..|a + b| - 1] == a + b[..|b| - 1];
      LastIsInFront(a, c, b[..|b| - 1]);
    }
  }

  lemma EveryNameSplits(name: string) returns (front: string, lead: string, core: string, tail: string)
    ensures name == front + (lead + core + tail)
    ensures front == "" || front[|front| - 1] == '/' || front[|front| - 1] == '\\'
    ensures forall c | c in lead + core + tail :: c != '/' && c != '\\'
    ensures Blank(lead) && Blank(tail) && Tight(core)
  {
    hide IsSpace, Trim, Blank, AfterLast;
    var from := Max(AfterLast(name, '/'), AfterLast(name, '\\'));
    var part := name[from..];
    assert '/' !in part && '\\' !in part;
    front := name[..from];
    assert part == name[from..];
    hide Max;
    lead, core, tail := TrimmedSplits(part);
    assert part == lead + core + tail;
    assert name == front + part;
  }

  lemma TrimmedSplits(s: string) returns (lead: string, core: string, tail: string)
    ensures s == lead + core + tail && core == Trim(s) && Blank(lead) && Blank(tail) && Tight(core)
  {
    hide IsSpace, Trim, Blank;
    var i, j := TrimmedIsSlice(s);
    lead, core, tail := s[..i], s[i..j], s[j..];
  }

  lemma SanitizedNameIsSafe(name: string)
    ensures SafeName(SanitizeFileName(name))
    ensures SafeName(name) ==> SanitizeFileName(name) == name
  {
    hide IsSpace, Trim, Blank, SanitizeFileName;
    var front, lead, core, tail := EveryNameSplits(name);
    SanitizedNameIsExact(front, lead, core, tail);
    assert forall c | c in core :: c in lead + core + tail;
    PlaceholderIsSafe();
    if SafeName(name) {
      assert name == "" + ("" + name + "");
      BlankIsEmpty();
      SanitizedNameIsExact("", "", name, "");
    }
  }

  lemma BlankIsEmpty()
    ensures Blank("")
  {
  }

  lemma PlaceholderIsSafe()
    ensures SafeName("unnamed.bin")
  {
  }

  /** `rsplit_once('.')`, with the dot counted only inside the name. */
  function SplitName(name: string): (string, Option<string>) {
    var dot := AfterLast(name, '.');
    if dot > 1 && dot < |name| then (name[..dot - 1], Some(name[dot..])) else (name, None)
  }

  function Candidate(name: string, i: nat): string {
    if i == 0 then name
    else
      match SplitName(name)
      case (stem, Some(ext)) => stem + "-" + Decimal(i) + "." + ext
      case (stem, None) => stem + "-" + Decimal(i)
  }

  /** The names tried are pairwise distinct: a name that is taken is never tried again. */
  lemma CandidatesAreDistinct(name: string, i: nat, j: nat)
    requires i != j
    ensures Candidate(name, i) != Candidate(name, j)
  {
    DecimalReadsBack(i);
    DecimalReadsBack(j);
    var (stem, ext) := SplitName(name);
    var tail := if ext.Some? then "." + ext.value else "";
    assert name == stem + tail;
    assert i > 0 ==> Candidate(name, i) == stem + "-" + Decimal(i) + tail;
    assert j > 0 ==> Candidate(name, j) == stem + "-" + Decimal(j) + tail;
    if i > 0 && j > 0 && Candidate(name, i) == Candidate(name, j) {
      MiddleIsCutOut(stem + "-", Decimal(i), Decimal(j), tail);
      DecimalInjective(i, j);
    }
  }

  /** The names tried: the suffix goes in front of the extension, which counts as one only if something is on
      both sides of its dot. */
  lemma CandidateIsSuffixed(stem: string, ext: string, i: nat)
    requires '.' !in ext
    ensures Candidate(stem + "." + ext, 0) == stem + "." + ext
    ensures i > 0 && stem != "" && ext != "" ==> Candidate(stem + "." + ext, i) == stem + "-" + Decimal(i) + "." + ext
    ensures i > 0 && (stem == "" || ext == "") ==> Candidate(stem + "." + ext, i) == stem + "." + ext + "-" + Decimal(i)
    ensures i > 0 ==> Candidate(ext, i) == ext + "-" + Decimal(i)
  {
    hide Decimal, AfterLast;
    SplitIsExact(stem, ext);
  }

  lemma SplitIsExact(stem: string, ext: string)
    requires '.' !in ext
    ensures SplitName(stem + "." + ext) == if stem != "" && ext != "" then (stem, Some(ext)) else (stem + "." + ext, None)
    ensures SplitName(ext) == (ext, None)
  {
    LastSeparator(stem, '.', ext);
    LastIsInFront("", '.', ext);
    hide AfterLast;
    assert stem + "." + ext == stem + ['.'] + ext && "" + ext == ext;
    assert (stem + "." + ext)[..|stem|] == stem;
    assert AfterLast("", '.') == 0 by {
      NothingIsAfter();
    }
  }

  lemma NothingIsAfter()
    ensures AfterLast("", '.') == 0
  {
  }

  lemma MiddleIsCutOut(a: string, x: string, y: string, b: string)
    requires a + x + b == a + y + b
    ensures x == y
  {
    var s := a + x + b;
    assert s[|a|..|s| - |b|] == x;
    assert s[|a|..|s| - |b|] == y;
  }

  // --- what is a photo ------------------------------------------------------------

  /** `Path::extension`: behind the last dot, unless nothing is before it. */
  function Extension(name: string): Option<string> {
    var dot := AfterLast(name, '.');
    if name == ".." || dot <= 1 then None else Some(name[dot..])
  }

  lemma ExtensionIsExact(stem: string, ext: string)
    requires '.' !in ext
    ensures Extension(stem + "." + ext) == if stem == "" || (stem == "." && ext == "") then None else Some(ext)
    ensures Extension(ext) == None
  {
    LastSeparator(stem, '.', ext);
    assert stem + "." + ext == stem + ['.'] + ext;
    LastIsInFront("", '.', ext);
    assert "" + ext == ext;
    if stem != "" && stem + "." + ext == ".." {
      assert |".."| == |stem| + 1 + |ext|;
      assert (stem + "." + ext)[0] == stem[0];
    }
  }

  /** `media` is the table of media extensions; its lookup ignores case and belongs to the table. */
  predicate IsMedia(media: map<string, string>, name: string) {
    Extension(name).Some? && Extension(name).value in media
  }

  predicate Hidden(name: string) {
    name != [] && name[0] == '.'
  }

  /** A suffixed name is as visible, and as much a photo of the same type, as the name asked for. */
  lemma CandidateKeepsKind(media: map<string, string>, name: string, i: nat)
    requires "" !in media && IsMedia(media, name)
    ensures IsMedia(media, Candidate(name, i)) && Extension(Candidate(name, i)) == Extension(name)
    ensures Hidden(Candidate(name, i)) == Hidden(name)
  {
    if i > 0 {
      var dot := AfterLast(name, '.');
      var ext := name[dot..];
      assert ext != "" && SplitName(name) == (name[..dot - 1], Some(ext));
      var s := Candidate(name, i);
      assert s == (name[..dot - 1] + "-" + Decimal(i)) + ['.'] + ext;
      assert '.' !in ext;
      LastSeparator(name[..dot - 1] + "-" + Decimal(i), '.', ext);
    }
  }

  lemma {:induction false} LastSeparator(a: string, c: char, b: string)
    requires c !in b
    ensures AfterLast(a + [c] + b, c) == |a| + 1 && (a + [c] + b)[|a| + 1..] == b
  {
    if b != [] {
      var init := b[..|b| - 1];
      assert (a + [c] + b)[..|a + [c] + b| - 1] == a + [c] + init;
      LastSeparator(a, c, init);
    }
  }

  // --- the device directory ------------------------------------------------------------

  /** `u8::from_str_radix` on two characters: digits of either case, and a sign in front of one digit. */
  function LenientNibble(c: char): Option<nat> {
    if 'A' <= c <= 'F' then Some(c as nat - 'A' as nat + 10) else Nibble(c)
  }

  function RadixPair(a: char, b: char): Option<Byte> {
    match (LenientNibble(a), LenientNibble(b))
    case (Some(x), Some(y)) => if x < 16 && y < 16 then Some(16 * x + y) else None
    case (None, Some(y)) => if a == '+' && y < 16 then Some(y) else None
    case _ => None
  }

  lemma RadixPairReadsHex()
    ensures ReadsHex(RadixPair)
  {
    hide StrictPair, HexDigit, RadixPair;
    forall b: Byte
      ensures RadixPair(HexDigit(b / 16), HexDigit(b % 16)) == Some(b)
    {
      PairReads(b);
      RadixReadsStrict(HexDigit(b / 16), HexDigit(b % 16));
    }
  }

  lemma RadixReadsStrict(a: char, b: char)
    requires StrictPair(a, b).Some?
    ensures RadixPair(a, b) == StrictPair(a, b)
  {
  }

  /** What the pairs say, digit by digit, and what a sign says. */
  lemma PairsSay(x: nat, y: nat)
    requires x < 16 && y < 16
    ensures var small, capital := "0123456789abcdef", "0123456789ABCDEF";
            && HexDigit(x) == small[x]
            && RadixPair(small[x], small[y]) == RadixPair(small[x], capital[y]) == Some(16 * x + y)
            && RadixPair(capital[x], small[y]) == RadixPair(capital[x], capital[y]) == Some(16 * x + y)
            && RadixPair('+', small[y]) == RadixPair('+', capital[y]) == Some(y)
  {
    DigitSays(x);
    DigitSays(y);
    hide LenientNibble, HexDigit;
    assert 16 * x + y < 256;
  }

  lemma DigitSays(x: nat)
    requires x < 16
    ensures HexDigit(x) == "0123456789abcdef"[x]
    ensures LenientNibble("0123456789abcdef"[x]) == LenientNibble("0123456789ABCDEF"[x]) == Some(x)
    ensures LenientNibble('+') == None
  {
  }

  /** The owner that a path says: the device whose directory it lies in, or this machine. */
  function DeviceAt(relPath: string, local: Device): Device {
    var dir := Component(relPath, '/', 1);
    if |dir| != 64 then local
    else match Pairs(RadixPair, dir, 32) case Some(id) => id case None => local
  }

  method DeviceOf(relPath: string, local: Device) returns (id: Device)
    ensures id == DeviceAt(relPath, local)
  {
    var dir := Component(relPath, '/', 1);
    if |dir| != 64 {
      return local;
    }
    id := [];
    for i := 0 to 32
      invariant Pairs(RadixPair, dir, i) == Some(id)
    {
      var b := RadixPair(dir[2 * i], dir[2 * i + 1]);
      if b.None? {
        PairsFail(dir, i + 1, 32);
        return local;
      }
      id := id + [b.value];
    }
  }

  lemma {:induction false} PairsFail(s: string, n: nat, m: nat)
    requires n <= m && 2 * m <= |s| && Pairs(RadixPair, s, n).None?
    ensures Pairs(RadixPair, s, m).None?
  {
    if n < m {
      PairsFail(s, n, m - 1);
    }
  }

  /** `originals/<device>/<yyyy>/<mm>`. */
  function DeviceDir(id: Device, yyyy: string, mm: string): string {
    "originals/" + Hex(id) + "/" + yyyy + "/" + mm
  }

  function PlacedPath(id: Device, yyyy: string, mm: string, name: string): string {
    DeviceDir(id, yyyy, mm) + "/" + name
  }

  lemma HexHasNoSlash(id: Device)
    ensures '/' !in Hex(id)
  {
    HexDigitsOnly(id);
  }

  lemma SecondComponentIsDevice(id: Device, yyyy: string, mm: string, name: string)
    ensures Component(PlacedPath(id, yyyy, mm, name), '/', 1) == Hex(id)
  {
    HexHasNoSlash(id);
    hide Component, Hex;
    var top, rest := "originals", yyyy + "/" + mm + "/" + name;
    assert '/' !in top;
    assert PlacedPath(id, yyyy, mm, name) == top + ['/'] + (Hex(id) + ['/'] + rest);
    FirstComponent(top, '/', Hex(id) + ['/'] + rest);
    FirstComponent(Hex(id), '/', rest);
  }

  /** The path of a placed file, component by component. */
  lemma PlacedPathIs(id: Device, yyyy: string, mm: string, name: string)
    requires '/' !in yyyy && '/' !in mm
    ensures var path := PlacedPath(id, yyyy, mm, name);
            && Component(path, '/', 0) == "originals" && Component(path, '/', 1) == Hex(id)
            && Component(path, '/', 2) == yyyy && Component(path, '/', 3) == mm
            && ('/' !in name ==> Component(path, '/', 4) == name)
  {
    HexHasNoSlash(id);
    hide Component, Hex;
    var (c, b) := (mm + ['/'] + name, yyyy + ['/'] + (mm + ['/'] + name));
    var top := "originals";
    assert '/' !in top;
    assert PlacedPath(id, yyyy, mm, name) == top + ['/'] + (Hex(id) + ['/'] + b);
    FirstComponent(top, '/', Hex(id) + ['/'] + b);
    FirstComponent(Hex(id), '/', b);
    FirstComponent(yyyy, '/', c);
    FirstComponent(mm, '/', name);
    if '/' !in name {
      OnlyComponent(name, '/');
    }
  }

  lemma OnlyComponent(s: string, c: char)
    requires c !in s
    ensures Component(s, c, 0) == s
  {
    var i := IndexFrom(s, c, 0);
    assert forall k | 0 <= k < |s| :: s[k] in s;
    assert i == |s|;
  }

  /** ADR-006, exactly: the path of a placed file gives its device back if and only if the device id has 32
      bytes (or happens to be this machine's own). */
  lemma DeviceIsReadBackExactlyWhen32Bytes(id: Device, yyyy: string, mm: string, name: string, local: Device)
    ensures DeviceAt(PlacedPath(id, yyyy, mm, name), local) == id <==> |id| == 32 || id == local
  {
    hide Component, RadixPair, Hex, PlacedPath, Pairs, ReadsHex;
    RadixPairReadsHex();
    HexReadsBack(RadixPair, id);
    SecondComponentIsDevice(id, yyyy, mm, name);
  }

  /** Different devices never share a directory. */
  lemma DevicesAreApart(g: Device, h: Device)
    requires Hex(g) == Hex(h)
    ensures g == h
  {
    StrictPairReadsHex();
    HexReadsBack(StrictPair, g);
    HexReadsBack(StrictPair, h);
  }

  predicate LowerHex(c: char) {
    '0' <= c <= '9' || 'a' <= c <= 'f'
  }

  /** 64 characters, in pairs: a digit of either case or a plus sign, then a digit. */
  predicate ReadsAsDevice(dir: string) {
    && |dir| == 64
    && forall k | 0 <= k < 32 ::
         (LowerHex(dir[2 * k]) || 'A' <= dir[2 * k] <= 'F' || dir[2 * k] == '+')
         && (LowerHex(dir[2 * k + 1]) || 'A' <= dir[2 * k + 1] <= 'F')
  }

  lemma PairIsReadExactlyWhen(a: char, b: char)
    ensures RadixPair(a, b).Some?
            <==> (LowerHex(a) || 'A' <= a <= 'F' || a == '+') && (LowerHex(b) || 'A' <= b <= 'F')
    ensures LowerHex(a) && LowerHex(b) ==> StrictPair(a, b).Some? && StrictPair(a, b) == RadixPair(a, b)
  {
  }

  lemma {:induction false} PairsAreReadExactlyWhen(s: string, n: nat)
    requires 2 * n <= |s|
    ensures Pairs(RadixPair, s, n).Some? <==> forall k | 0 <= k < n :: RadixPair(s[2 * k], s[2 * k + 1]).Some?
    ensures Pairs(RadixPair, s, n).Some? ==> |Pairs(RadixPair, s, n).value| == n
    ensures (forall k | 0 <= k < n :: StrictPair(s[2 * k], s[2 * k + 1]).Some? && StrictPair(s[2 * k], s[2 * k + 1]) == RadixPair(s[2 * k], s[2 * k + 1]))
            ==> Pairs(StrictPair, s, n) == Pairs(RadixPair, s, n)
  {
    hide RadixPair, StrictPair;
    if n > 0 {
      PairsAreReadExactlyWhen(s, n - 1);
      assert s[2 * n - 2] == s[2 * (n - 1)] && s[2 * n - 1] == s[2 * (n - 1) + 1];
    }
  }

  /** Exactly which directories are taken for devices: the second component decides, whatever this machine is,
      if and only if it reads as a device; then it is one that we could have written if and only if it has no
      capitals and no sign. */
  lemma DirectoryIsADeviceExactlyWhen(relPath: string)
    ensures var dir := Component(relPath, '/', 1);
            && ((forall l, m :: DeviceAt(relPath, l) == DeviceAt(relPath, m)) <==> ReadsAsDevice(dir))
            && (!ReadsAsDevice(dir) ==> forall l :: DeviceAt(relPath, l) == l)
            && (ReadsAsDevice(dir) ==> forall l ::
                  && |DeviceAt(relPath, l)| == 32
                  && (Hex(DeviceAt(relPath, l)) == dir <==> forall c | c in dir :: LowerHex(c)))
  {
    hide Component, RadixPair, StrictPair, Hex, Pairs, LowerHex;
    var dir := Component(relPath, '/', 1);
    if |dir| == 64 {
      forall k | 0 <= k < 32 {
        PairIsReadExactlyWhen(dir[2 * k], dir[2 * k + 1]);
      }
      PairsAreReadExactlyWhen(dir, 32);
      if ReadsAsDevice(dir) {
        SpelledLikeOursExactlyWhen(dir);
      }
    }
    if !ReadsAsDevice(dir) {
      assert DeviceAt(relPath, []) == [] && DeviceAt(relPath, [0]) == [0];
    }
  }

  lemma SpelledLikeOursExactlyWhen(dir: string)
    requires |dir| == 64 && Pairs(RadixPair, dir, 32).Some?
    ensures Hex(Pairs(RadixPair, dir, 32).value) == dir <==> forall c | c in dir :: LowerHex(c)
  {
    var id := Pairs(RadixPair, dir, 32).value;
    hide Pairs, RadixPair, StrictPair, Hex;
    HexDigitsOnly(id);
    if forall c | c in dir :: LowerHex(c) {
      forall k | 0 <= k < 32 {
        PairIsReadExactlyWhen(dir[2 * k], dir[2 * k + 1]);
      }
      PairsAreReadExactlyWhen(dir, 32);
      StrictPairsAreHex(dir, 32);
      assert dir[..64] == dir;
    }
  }
}
