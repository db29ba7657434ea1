/** The library directory in `config.toml`: written in one of four notations, read back line by line by a
    reader that knows only two of them. */
module Config {
  import opened LibraryStore
  import opened Text
  import opened TomlString
  import Layout = LibraryLayout

  // --- separators ------------------------------------------------------------------

  const SEP := '\\'

  function Leading(p: string): (n: nat)
    ensures n <= |p| && (forall i | 0 <= i < n :: p[i] == SEP) && (n < |p| ==> p[n] != SEP)
  {
    if p != [] && p[0] == SEP then Leading(p[1..]) + 1 else 0
  }

  /** The characters behind the leading separators, with repetitions dropped, and whether the last was one. */
  function Collapsed(s: string): (string, bool) {
    if s == [] then ([], false)
    else
      var (out, prevSep) := Collapsed(s[..|s| - 1]);
      var c := s[|s| - 1];
      if c != SEP then (out + [c], false) else if prevSep then (out, true) else (out + [c], true)
  }

  function Lead(n: nat): string {
    if n == 0 then "" else if n == 1 then [SEP] else [SEP, SEP]
  }

  function Normalize(p: string): string {
    Lead(Leading(p)) + Collapsed(p[Leading(p)..]).0
  }

  method NormalizeSeparators(p: string) returns (out: string)
    ensures out == Normalize(p)
  {
    var leading := 0;
    while leading < |p| && p[leading] == SEP
      invariant leading <= |p| && Leading(p) == leading + Leading(p[leading..])
    {
      leading := leading + 1;
    }
    out := match leading case 0 => "" case 1 => [SEP] case _ => [SEP, SEP];
    out := Collapse(out, p[leading..]);
  }

  method Collapse(start: string, rest: string) returns (out: string)
    ensures out == start + Collapsed(rest).0
  {
    out := start;
    var prevSep := false;
    assert rest[..0] == [] && start + [] == start;
    for i := 0 to |rest|
      invariant out == start + Collapsed(rest[..i]).0 && prevSep == Collapsed(rest[..i]).1
    {
      var c := rest[i];
      assert rest[..i + 1][..i] == rest[..i];
      assert start + (Collapsed(rest[..i]).0 + [c]) == out + [c];
      if c == SEP {
        if !prevSep {
          out := out + [c];
        }
        prevSep := true;
      } else {
        out := out + [c];
        prevSep := false;
      }
    }
    assert rest[..|rest|] == rest;
  }

  /** No separator follows another, but for a leading pair. */
  ghost predicate Normal(s: string) {
    && (forall i | 1 <= i < |s| - 1 :: !(s[i] == '\\' && s[i + 1] == '\\'))
    && !(|s| >= 3 && s[0] == s[1] == s[2] == '\\')
  }

  ghost predicate Single(s: string) {
    forall i | 0 <= i < |s| - 1 :: !(s[i] == SEP && s[i + 1] == SEP)
  }

  lemma {:induction false} CollapsedIsSingle(s: string)
    ensures var (out, prevSep) := Collapsed(s);
            && Single(out)
            && (prevSep <==> out != [] && out[|out| - 1] == SEP)
            && (s != [] && s[0] != SEP ==> out != [] && out[0] == s[0])
            && (Single(s) ==> out == s)
  {
    hide Single, Collapsed;
    CollapsedOfNone();
    if s == [] {
      SingleIsShort();
    } else {
      var init, c := s[..|s| - 1], s[|s| - 1];
      CollapsedIsSingle(init);
      CollapsedOfLast(s);
      assert s == init + [c];
      assert init != [] ==> init[0] == s[0];
      SingleAppend(init, c);
      SingleAppend(Collapsed(init).0, c);
    }
  }

  lemma CollapsedOfNone()
    ensures Collapsed([]) == ([], false)
  {
  }

  lemma CollapsedOfLast(s: string)
    requires s != []
    ensures var (out, prevSep) := Collapsed(s[..|s| - 1]);
            var c := s[|s| - 1];
            Collapsed(s) == if c != SEP then (out + [c], false) else if prevSep then (out, true) else (out + [c], true)
  {
  }

  lemma SingleIsShort()
    ensures Single([])
  {
  }

  lemma SingleAppend(s: string, c: char)
    ensures Single(s + [c]) <==> Single(s) && !(s != [] && s[|s| - 1] == SEP && c == SEP)
  {
    var t := s + [c];
    assert forall i | 0 <= i < |s| :: t[i] == s[i];
    if s != [] {
      assert t[|s| - 1] == s[|s| - 1] && t[|s|] == c;
    }
  }

  /** A path is a lead of separators and a body; only the lead may have two in a row. */
  lemma NormalSplits(lead: string, body: string)
    requires forall c | c in lead :: c == SEP
    requires body == [] || body[0] != SEP
    ensures Normal(lead + body) <==> |lead| <= 2 && Single(body)
  {
    var s := lead + body;
    assert forall i | 0 <= i < |lead| :: s[i] in lead;
    assert |lead| >= 3 ==> s[0] == s[1] == s[2] == SEP;
    forall i | 0 <= i < |body|
      ensures s[|lead| + i] == body[i]
    {
    }
    if |lead| <= 2 && Single(body) {
      forall i | 1 <= i < |s| - 1
        ensures !(s[i] == SEP && s[i + 1] == SEP)
      {
        assert i >= |lead| ==> s[i] == body[i - |lead|] && s[i + 1] == body[i + 1 - |lead|];
        assert i + 1 >= |lead|;
      }
    }
    if Normal(s) {
      forall i | 0 <= i < |body| - 1
        ensures !(body[i] == SEP && body[i + 1] == SEP)
      {
        assert s[|lead| + i] == body[i] && s[|lead| + i + 1] == body[i + 1];
      }
    }
  }

  /** Normalizing gives a normal path, keeps a leading pair a pair and a leading single a single, and leaves a
      normal path as it is, so doing it again changes nothing. */
  lemma NormalizeIsNormal(p: string)
    ensures Normal(Normalize(p))
    ensures Leading(Normalize(p)) == if Leading(p) >= 2 then 2 else Leading(p)
    ensures Normalize(p) == p <==> Normal(p)
  {
    hide *;
    var n := Leading(p);
    var rest := p[n..];
    var body, lead := Collapsed(rest).0, Lead(n);
    CollapsedIsSingle(rest);
    NormalizeParts(p);
    LeadingOf(lead, body);
    NormalSplits(lead, body);
    NormalSplits(p[..n], rest);
    if n <= 2 && Single(rest) {
      assert body == rest && lead == p[..n];
    }
  }

  lemma NormalizeParts(p: string)
    ensures var n := Leading(p);
            && p == p[..n] + p[n..] && Normalize(p) == Lead(n) + Collapsed(p[n..]).0
            && (forall c | c in p[..n] :: c == SEP) && (forall c | c in Lead(n) :: c == SEP)
            && (p[n..] == [] || p[n..][0] != SEP) && (p[n..] == [] ==> Collapsed(p[n..]).0 == [])
            && |Lead(n)| == (if n >= 2 then 2 else n) && (n <= 2 ==> p[..n] == Lead(n))
  {
    hide Collapsed, Leading;
    CollapsedOfNone();
  }

  lemma LeadingOf(lead: string, body: string)
    requires forall c | c in lead :: c == SEP
    requires body == [] || body[0] != SEP
    ensures Leading(lead + body) == |lead|
  {
    var s := lead + body;
    assert forall i | 0 <= i < |lead| :: s[i] in lead;
    assert body != [] ==> s[|lead|] == body[0];
  }

  /** What stands between the separators. */
  function Parts(s: string): (r: seq<string>)
    ensures s != "" && s[|s| - 1] != SEP ==> r != []
  {
    if s == "" then []
    else
      var init, c := s[..|s| - 1], s[|s| - 1];
      if c == SEP then Parts(init)
      else if init == "" || init[|init| - 1] == SEP then Parts(init) + [[c]]
      else Parts(init)[..|Parts(init)| - 1] + [Parts(init)[|Parts(init)| - 1] + [c]]
  }

  lemma LastCharacter(s: string, c: char)
    ensures Parts(s + [c]) == if c == SEP then Parts(s)
                              else if s == "" || s[|s| - 1] == SEP then Parts(s) + [[c]]
                              else Parts(s)[..|Parts(s)| - 1] + [Parts(s)[|Parts(s)| - 1] + [c]]
  {
    assert (s + [c])[..|s|] == s;
  }

  lemma {:induction false} CollapsedKeepsParts(s: string)
    ensures var out := Collapsed(s).0;
            && Parts(out) == Parts(s)
            && (out == "" <==> s == "")
            && (s != "" ==> (out[|out| - 1] == SEP <==> s[|s| - 1] == SEP))
  {
    hide Collapsed, Parts, Single;
    CollapsedOfNone();
    if s != "" {
      var init, c := s[..|s| - 1], s[|s| - 1];
      CollapsedKeepsParts(init);
      CollapsedOfLast(s);
      CollapsedIsSingle(init);
      assert s == init + [c];
      LastCharacter(init, c);
      LastCharacter(Collapsed(init).0, c);
    }
  }

  lemma {:induction false} OnlySeparators(lead: string)
    requires forall i | 0 <= i < |lead| :: lead[i] == SEP
    ensures Parts(lead) == []
  {
    if lead != "" {
      OnlySeparators(lead[..|lead| - 1]);
    }
  }

  lemma {:induction false} LeadIsNoPart(lead: string, body: string)
    requires forall i | 0 <= i < |lead| :: lead[i] == SEP
    ensures Parts(lead + body) == Parts(body)
  {
    hide Parts;
    OnlySeparators(lead);
    if body == "" {
      OnlySeparators("");
      assert lead + body == lead;
    } else {
      var init, c := body[..|body| - 1], body[|body| - 1];
      LeadIsNoPart(lead, init);
      LastCharacter(lead + init, c);
      LastCharacter(init, c);
      assert lead + body == (lead + init) + [c] && body == init + [c];
    }
  }

  /** Nothing but separators is ever dropped: what stands between them stays, in order, and so does whether the path
      ends with one. */
  lemma NormalizeKeepsParts(p: string)
    ensures Parts(Normalize(p)) == Parts(p)
    ensures Normalize(p) == "" <==> p == ""
    ensures p != "" ==> (Normalize(p)[|Normalize(p)| - 1] == '\\' <==> p[|p| - 1] == '\\')
  {
    hide Collapsed, Parts, Leading, Lead;
    var n := Leading(p);
    var rest := p[n..];
    NormalizeParts(p);
    CollapsedKeepsParts(rest);
    assert forall i | 0 <= i < n :: p[..n][i] in p[..n];
    assert forall i | 0 <= i < |Lead(n)| :: Lead(n)[i] in Lead(n);
    LeadIsNoPart(p[..n], rest);
    LeadIsNoPart(Lead(n), Collapsed(rest).0);
  }

  lemma NormalizeIsIdempotent(p: string)
    ensures Normalize(Normalize(p)) == Normalize(p)
  {
    NormalizeIsNormal(p);
    NormalizeIsNormal(Normalize(p));
  }

  // --- reading ---------------------------------------------------------------------------

  /** The escapes that the reader knows; any other stays as it is. */
  function Replacement(d: char): string {
    match d
    case '\\' => ['\\']
    case '"' => ['"']
    case 'n' => ['\n']
    case 'r' => ['\r']
    case 't' => ['\t']
    case other => ['\\', other]
  }

  function Unescape(s: string): string {
    if s == [] then []
    else if s[0] != '\\' then [s[0]] + Unescape(s[1..])
    else if |s| == 1 then ['\\']
    else Replacement(s[1]) + Unescape(s[2..])
  }

  method UnescapeTomlBasic(s: string) returns (out: string)
    ensures out == Unescape(s)
  {
    hide Replacement;
    out := [];
    var i := 0;
    assert s[0..] == s;
    while i < |s|
      invariant i <= |s| && out + Unescape(s[i..]) == Unescape(s)
    {
      var piece, next := [s[i]], i + 1;
      assert s[i..][1..] == s[i + 1..];
      if s[i] == '\\' && i + 1 < |s| {
        piece, next := Replacement(s[i + 1]), i + 2;
        assert s[i..][2..] == s[i + 2..];
      }
      assert Unescape(s[i..]) == piece + Unescape(s[next..]);
      assert out + (piece + Unescape(s[next..])) == (out + piece) + Unescape(s[next..]);
      out, i := out + piece, next;
    }
    assert out + [] == out;
  }

  function StripCr(s: string): string {
    if s != [] && s[|s| - 1] == '\r' then s[..|s| - 1] else s
  }

  /** `str::lines`. */
  function Lines(s: string): seq<string>
    decreases |s|
  {
    if s == [] then []
    else
      var i := IndexFrom(s, '\n', 0);
      if i == |s| then [s] else [StripCr(s[..i])] + Lines(s[i + 1..])
  }

  const KEY := "data_dir"

  predicate StartsWith(s: string, p: string) {
    p <= s
  }

  function TrimQuotesLeft(s: string): string {
    if s != [] && s[0] == '\'' then TrimQuotesLeft(s[1..]) else s
  }

  function TrimQuotesRight(s: string): string {
    if s != [] && s[|s| - 1] == '\'' then TrimQuotesRight(s[..|s| - 1]) else s
  }

  function Unquoted(val: string): string {
    if |val| >= 2 && val[0] == '"' && val[|val| - 1] == '"' then Unescape(val[1..|val| - 1])
    else TrimQuotesRight(TrimQuotesLeft(val))
  }

  /** The value in a line that starts with the key, given what is behind the key. */
  function ValueIn(rest: string): Option<string> {
    var r := Layout.TrimLeft(rest);
    if r == [] || r[0] != '=' then None
    else
      var val := Layout.Trim(Unquoted(Layout.Trim(r[1..])));
      if val == [] then None else Some(val)
  }

  function ReadLines(lines: seq<string>): Option<string> {
    if lines == [] then None
    else
      var line := Layout.Trim(lines[0]);
      if StartsWith(line, KEY) then ValueIn(line[|KEY|..]) else ReadLines(lines[1..])
  }

  function ReadDataDir(text: string): Option<string> {
    ReadLines(Lines(text))
  }

  method ReadConfigDataDir(text: string) returns (r: Option<string>)
    ensures r == ReadDataDir(text)
  {
    hide Lines, ValueIn, Layout.Trim;
    var lines := Lines(text);
    for i := 0 to |lines|
      invariant ReadLines(lines) == ReadLines(lines[i..])
    {
      var line := Layout.Trim(lines[i]);
      assert lines[i..][1..] == lines[i + 1..];
      if StartsWith(line, KEY) {
        return ValueIn(line[|KEY|..]);
      }
    }
    return None;
  }

  // --- writing -------------------------------------------------------------------------------

  function Kept(lines: seq<string>): seq<string> {
    if lines == [] then []
    else if StartsWith(Layout.TrimLeft(lines[0]), KEY) then Kept(lines[1..])
    else [lines[0]] + Kept(lines[1..])
  }

  function Join(lines: seq<string>): string {
    if lines == [] then "" else if |lines| == 1 then lines[0] else lines[0] + "\n" + Join(lines[1..])
  }

  /** Everything in a document but its `data_dir` lines. */
  function Body(doc: string): string {
    Join(Kept(Lines(doc)))
  }

  function MergeLibraryDir(doc: string, dir: string): string {
    KEY + " = " + ToToml(Normalize(dir)) + "\n" + Body(doc) + "\n"
  }

  // --- paths that contain each other --------------------------------------------------------------

  function TrimSeparators(p: string): string {
    if p != [] && (p[|p| - 1] == '/' || p[|p| - 1] == '\\') then TrimSeparators(p[..|p| - 1]) else p
  }

  function ForwardSlashes(p: string): string {
    seq(|p|, i requires 0 <= i < |p| => if p[i] == '\\' then '/' else p[i])
  }

  /** `lower` is Unicode lower-casing. */
  function Folded(p: string, lower: string -> string): string {
    lower(ForwardSlashes(TrimSeparators(p)))
  }

  lemma {:induction false} TrailingSeparatorsGo(core: string, seps: string)
    requires forall i | 0 <= i < |seps| :: seps[i] == '/' || seps[i] == '\\'
    requires core == "" || (core[|core| - 1] != '/' && core[|core| - 1] != '\\')
    ensures TrimSeparators(core + seps) == core
  {
    if seps == "" {
      assert core + seps == core;
    } else {
      assert (core + seps)[..|core + seps| - 1] == core + seps[..|seps| - 1];
      TrailingSeparatorsGo(core, seps[..|seps| - 1]);
    }
  }

  /** Folding: separators at the end go, backslashes become slashes, and the rest is lowered. */
  lemma FoldedIsExact(core: string, seps: string, folded: string, lower: string -> string)
    requires forall i | 0 <= i < |seps| :: seps[i] == '/' || seps[i] == '\\'
    requires core == "" || (core[|core| - 1] != '/' && core[|core| - 1] != '\\')
    requires |folded| == |core| && forall i | 0 <= i < |core| :: folded[i] == if core[i] == '\\' then '/' else core[i]
    ensures Folded(core + seps, lower) == lower(folded)
  {
    TrailingSeparatorsGo(core, seps);
    assert ForwardSlashes(core) == folded;
  }

  predicate Contains(outer: string, inner: string) {
    |outer| > |inner| && inner <= outer && outer[|inner|] == '/'
  }

  predicate PathsOverlap(a: string, b: string, lower: string -> string) {
    var (x, y) := (Folded(a, lower), Folded(b, lower));
    x == y || Contains(x, y) || Contains(y, x)
  }

  function Components(s: string): seq<string>
    decreases |s|
  {
    var i := IndexFrom(s, '/', 0);
    if i == |s| then [s] else [s[..i]] + Components(s[i + 1..])
  }

  lemma FirstSlashInPrefix(x: string, y: string)
    requires x <= y
    ensures var (i, j) := (IndexFrom(x, '/', 0), IndexFrom(y, '/', 0));
            (i < |x| ==> i == j) && (i == |x| ==> j >= i)
  {
    hide IndexFrom;
  }

  lemma {:induction false} ContainedIsPrefix(x: string, y: string)
    ensures Components(x) <= Components(y) <==> x == y || Contains(y, x)
    decreases |x|
  {
    hide *;
    var i, j := IndexFrom(x, '/', 0), IndexFrom(y, '/', 0);
    if i == |x| {
      OneComponentContained(x, y);
    } else if j == |y| {
      OneComponentContains(x, y);
    } else {
      ContainedIsPrefix(x[i + 1..], y[j + 1..]);
      FirstComponentOff(x);
      FirstComponentOff(y);
      PrefixOfCons(x[..i], Components(x[i + 1..]), y[..j], Components(y[j + 1..]));
      ContainsBehind(x, y, i, j);
    }
  }

  lemma FirstComponentOff(s: string)
    ensures var i := IndexFrom(s, '/', 0);
            Components(s) == if i == |s| then [s] else [s[..i]] + Components(s[i + 1..])
  {
    hide IndexFrom;
  }

  lemma OneComponentContained(x: string, y: string)
    requires IndexFrom(x, '/', 0) == |x|
    ensures Components(x) <= Components(y) <==> x == y || Contains(y, x)
  {
    FirstComponentOff(x);
    FirstComponentOff(y);
    hide IndexFrom, Components;
    assert Components(x) <= Components(y) <==> Components(y)[0] == x;
    if x <= y {
      FirstSlashInPrefix(x, y);
    }
  }

  lemma OneComponentContains(x: string, y: string)
    requires IndexFrom(x, '/', 0) < |x| && IndexFrom(y, '/', 0) == |y|
    ensures !(Components(x) <= Components(y)) && x != y && !Contains(y, x)
  {
    FirstComponentOff(x);
    FirstComponentOff(y);
    ComponentsAreThere(x[IndexFrom(x, '/', 0) + 1..]);
    hide IndexFrom, Components;
    if x <= y {
      FirstSlashInPrefix(x, y);
    }
  }

  lemma ComponentsAreThere(s: string)
    ensures Components(s) != []
  {
  }

  lemma PrefixOfCons(a: string, xs: seq<string>, b: string, ys: seq<string>)
    ensures [a] + xs <= [b] + ys <==> a == b && xs <= ys
  {
    var (s, t) := ([a] + xs, [b] + ys);
    assert s[1..] == xs && t[1..] == ys;
    if s <= t {
      assert s == t[..|s|] && s[0] == t[0];
      assert xs == ys[..|xs|];
    }
    if a == b && xs <= ys {
      assert s == t[..|s|];
    }
  }

  lemma ContainsBehind(x: string, y: string, i: nat, j: nat)
    requires i < |x| && j < |y| && x[i] == '/' && y[j] == '/' && '/' !in x[..i] && '/' !in y[..j]
    ensures (x == y || Contains(y, x)) <==> x[..i] == y[..j] && (x[i + 1..] == y[j + 1..] || Contains(y[j + 1..], x[i + 1..]))
  {
    forall k | 0 <= k < i
      ensures x[k] != '/'
    {
      assert x[..i][k] == x[k];
    }
    forall k | 0 <= k < j
      ensures y[k] != '/'
    {
      assert y[..j][k] == y[k];
    }
    if x <= y {
      assert i == j;
      assert x[..i] == y[..i];
    }
    if x[..i] == y[..j] {
      assert i == j;
      PrefixBehind(x, y, i + 1);
    }
  }

  lemma PrefixBehind(x: string, y: string, n: nat)
    requires n <= |x| && n <= |y| && x[..n] == y[..n]
    ensures x <= y <==> x[n..] <= y[n..]
    ensures x == y <==> x[n..] == y[n..]
  {
    assert x == x[..n] + x[n..] && y == y[..n] + y[n..];
    if x[n..] <= y[n..] {
      assert y[n..][..|x| - n] == x[n..];
      assert y[..|x|] == x;
    }
    if x <= y {
      assert y[n..][..|x| - n] == x[n..];
    }
  }

  /** Two paths overlap exactly when, after folding, the components of one begin with all those of the other. */
  lemma OverlapIsComponentPrefix(a: string, b: string, lower: string -> string)
    ensures var (x, y) := (Components(Folded(a, lower)), Components(Folded(b, lower)));
            PathsOverlap(a, b, lower) <==> x <= y || y <= x
  {
    ContainedIsPrefix(Folded(a, lower), Folded(b, lower));
    ContainedIsPrefix(Folded(b, lower), Folded(a, lower));
  }
}
