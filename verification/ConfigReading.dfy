/** Which directory the reader finds in a document: for every document whatever, said without the reader. */
module ConfigReading {
  import opened LibraryStore
  import opened Text
  import opened Config
  import opened LibraryLayout
  import opened ConfigMerge

  // --- lines ---------------------------------------------------------------------

  function Line(l: string): string {
    if l != "" && l[|l| - 1] == '\r' then l[..|l| - 1] else l
  }

  function AsRead(lines: seq<string>, last: string): seq<string> {
    if lines != [] then [Line(lines[0])] + AsRead(lines[1..], last) else if last == "" then [] else [last]
  }

  /** A document is lines that end in a newline, and perhaps one that does not; only the former lose a carriage
      return. */
  lemma {:induction false} LinesAreExact(lines: seq<string>, last: string)
    requires '\n' !in last && forall l | l in lines :: '\n' !in l
    ensures Lines(Written(lines) + last) == AsRead(lines, last)
  {
    hide Lines, IndexFrom;
    if lines == [] {
      assert Written(lines) + last == last;
      LastLineIsRead(last);
    } else {
      LineIsRead(lines[0], Written(lines[1..]) + last);
      LinesAreExact(lines[1..], last);
      assert Written(lines) + last == lines[0] + "\n" + (Written(lines[1..]) + last);
    }
  }

  lemma LineIsRead(l: string, rest: string)
    requires '\n' !in l
    ensures Lines(l + "\n" + rest) == [Line(l)] + Lines(rest)
  {
    var doc := l + "\n" + rest;
    assert doc == l + ['\n'] + rest;
    FirstComponent(l, '\n', rest);
    hide IndexFrom, Component;
    assert doc[..|l|] == l && doc[|l| + 1..] == rest;
  }

  lemma LastLineIsRead(last: string)
    requires '\n' !in last
    ensures Lines(last) == if last == "" then [] else [last]
  {
    assert forall k | 0 <= k < |last| :: last[k] in last;
    assert IndexFrom(last, '\n', 0) == |last|;
    hide IndexFrom;
  }

  lemma {:induction false} EveryDocumentSplits(doc: string) returns (lines: seq<string>, last: string)
    ensures doc == Written(lines) + last && '\n' !in last && forall l | l in lines :: '\n' !in l
    decreases |doc|
  {
    var i := IndexFrom(doc, '\n', 0);
    if i == |doc| {
      lines, last := [], doc;
      assert Written([]) + doc == doc;
    } else {
      var l := doc[..i];
      lines, last := EveryDocumentSplits(doc[i + 1..]);
      assert doc == (l + "\n") + doc[i + 1..];
      assert ([l] + lines)[1..] == lines;
      lines := [l] + lines;
      assert (l + "\n") + (Written(lines[1..]) + last) == ((l + "\n") + Written(lines[1..])) + last;
    }
  }

  // --- trimming --------------------------------------------------------------------

  ghost predicate TrimmedTo(s: string, t: string) {
    Tight(t) && exists lead, tail :: Blank(lead) && Blank(tail) && s == lead + t + tail
  }

  lemma TrimmedToIsTrim(s: string, t: string)
    ensures TrimmedTo(s, t) <==> Trim(s) == t
  {
    hide IsSpace, Trim, Blank, Tight;
    var front, core, back := TrimmedSplits(s);
    if TrimmedTo(s, t) {
      var lead, tail :| Blank(lead) && Blank(tail) && s == lead + t + tail;
      TrimIsExact(lead, t, tail);
    }
  }

  ghost predicate Quotes(s: string) {
    forall c | c in s :: c == '\''
  }

  /** `m` is `q` without the single quotes at its ends. */
  ghost predicate UnquotedTo(q: string, m: string) {
    && (m != "" ==> m[0] != '\'' && m[|m| - 1] != '\'')
    && exists lead, tail :: Quotes(lead) && Quotes(tail) && q == lead + m + tail
  }

  lemma {:induction false} LeftQuotes(lead: string, rest: string)
    requires Quotes(lead) && (rest != "" ==> rest[0] != '\'')
    ensures TrimQuotesLeft(lead + rest) == rest
  {
    if lead == "" {
      assert lead + rest == rest;
    } else {
      assert lead[0] in lead;
      assert (lead + rest)[1..] == lead[1..] + rest;
      assert forall c | c in lead[1..] :: c in lead;
      LeftQuotes(lead[1..], rest);
    }
  }

  lemma FewerQuotes(s: string)
    requires Quotes(s) && s != ""
    ensures Quotes(s[..|s| - 1])
  {
    var init := s[..|s| - 1];
    forall c | c in init
      ensures c == '\''
    {
      assert c in s;
    }
  }

  lemma {:induction false} RightQuotes(rest: string, tail: string)
    requires Quotes(tail) && (rest != "" ==> rest[|rest| - 1] != '\'')
    ensures TrimQuotesRight(rest + tail) == rest
  {
    if tail == "" {
      assert rest + tail == rest;
    } else {
      assert tail[|tail| - 1] in tail;
      assert (rest + tail)[..|rest + tail| - 1] == rest + tail[..|tail| - 1];
      FewerQuotes(tail);
      RightQuotes(rest, tail[..|tail| - 1]);
    }
  }

  lemma {:induction false} LeftQuotesSplit(s: string) returns (i: nat)
    ensures i <= |s| && TrimQuotesLeft(s) == s[i..] && Quotes(s[..i]) && (i < |s| ==> s[i] != '\'')
  {
    if s != "" && s[0] == '\'' {
      i := LeftQuotesSplit(s[1..]);
      assert s[..i + 1] == [s[0]] + s[1..][..i] && s[i + 1..] == s[1..][i..];
      i := i + 1;
    } else {
      i := 0;
    }
  }

  lemma {:induction false} RightQuotesSplit(s: string) returns (j: nat)
    ensures j <= |s| && TrimQuotesRight(s) == s[..j] && Quotes(s[j..]) && (j > 0 ==> s[j - 1] != '\'')
  {
    if s != "" && s[|s| - 1] == '\'' {
      var init := s[..|s| - 1];
      j := RightQuotesSplit(init);
      assert s[..j] == init[..j] && s[j..] == init[j..] + [s[|s| - 1]];
    } else {
      j := |s|;
      assert s[..j] == s;
    }
  }

  lemma UnquotedToIsTrimQuotes(q: string, m: string)
    ensures UnquotedTo(q, m) <==> TrimQuotesRight(TrimQuotesLeft(q)) == m
  {
    hide Quotes, TrimQuotesLeft, TrimQuotesRight;
    var i, j := QuotesSplit(q);
    assert q == q[..i] + q[i..j] + q[j..];
    if UnquotedTo(q, m) {
      var lead, tail :| Quotes(lead) && Quotes(tail) && q == lead + m + tail;
      UnquotedFrom(lead, m, tail);
    }
  }

  lemma QuotesSplit(q: string) returns (i: nat, j: nat)
    ensures i <= j <= |q| && TrimQuotesRight(TrimQuotesLeft(q)) == q[i..j] && Quotes(q[..i]) && Quotes(q[j..])
    ensures i < j ==> q[i] != '\'' && q[j - 1] != '\''
  {
    hide Quotes, TrimQuotesLeft, TrimQuotesRight;
    i := LeftQuotesSplit(q);
    var n := RightQuotesSplit(q[i..]);
    j := i + n;
    assert q[i..][..n] == q[i..j] && q[i..][n..] == q[j..];
  }

  lemma UnquotedFrom(lead: string, m: string, tail: string)
    requires Quotes(lead) && Quotes(tail) && (m != "" ==> m[0] != '\'' && m[|m| - 1] != '\'')
    ensures TrimQuotesRight(TrimQuotesLeft(lead + m + tail)) == m
  {
    hide TrimQuotesLeft, TrimQuotesRight;
    if m == "" {
      assert forall c | c in lead + tail :: c in lead || c in tail;
      LeftQuotes(lead + tail, "");
      assert lead + m + tail == (lead + tail) + "";
      RightQuotes("", "");
      assert TrimQuotesRight("" + "") == "" && "" + "" == "";
    } else {
      LeftQuotes(lead, m + tail);
      assert lead + m + tail == lead + (m + tail);
      RightQuotes(m, tail);
    }
  }

  // --- values ------------------------------------------------------------------------

  /** A character, or a backslash with the character behind it. */
  datatype Piece = Plain(c: char) | Escaped(c: char)

  function Source(pieces: seq<Piece>): string {
    if pieces == [] then ""
    else (if pieces[0].Plain? then [pieces[0].c] else ['\\', pieces[0].c]) + Source(pieces[1..])
  }

  function MeaningOf(p: Piece): string {
    match p
    case Escaped('n') => "\n"
    case Escaped('r') => "\r"
    case Escaped('t') => "\t"
    case Escaped('"') => "\""
    case Escaped('\\') => "\\"
    case Escaped(c) => ['\\', c]
    case Plain(c) => [c]
  }

  function Meaning(pieces: seq<Piece>): string {
    if pieces == [] then "" else MeaningOf(pieces[0]) + Meaning(pieces[1..])
  }

  /** Five escapes are read, all others stay as they are, and so does a backslash at the end. */
  lemma {:induction false} EscapesAreReadExactly(pieces: seq<Piece>, end: string)
    requires end == "" || end == "\\"
    requires forall p | p in pieces && p.Plain? :: p.c != '\\'
    ensures Unescape(Source(pieces) + end) == Meaning(pieces) + end
  {
    hide Unescape, Meaning;
    if pieces == [] {
      assert Source(pieces) + end == end && Meaning(pieces) + end == end by {
        NoPieces();
      }
      EndIsRead(end);
    } else {
      var rest := Source(pieces[1..]) + end;
      EscapesAreReadExactly(pieces[1..], end);
      assert pieces[0] in pieces;
      PieceIsRead(pieces[0], rest);
      FirstPiece(pieces, end);
    }
  }

  lemma NoPieces()
    ensures Meaning([]) == ""
  {
  }

  lemma EndIsRead(end: string)
    requires end == "" || end == "\\"
    ensures Unescape(end) == end
  {
  }

  lemma PieceIsRead(p: Piece, rest: string)
    requires p.Plain? ==> p.c != '\\'
    ensures Unescape(Source([p]) + rest) == Meaning([p]) + Unescape(rest)
  {
    var s := if p.Plain? then [p.c] else ['\\', p.c];
    assert [p][1..] == [] && Source([p]) == s;
    assert s[0] == (s + rest)[0] && (s + rest)[|s|..] == rest;
    assert MeaningOf(p) == if p.Plain? then [p.c] else Replacement(p.c);
    assert Meaning([p]) == MeaningOf(p);
  }

  lemma FirstPiece(pieces: seq<Piece>, end: string)
    requires pieces != []
    ensures Source(pieces) + end == Source([pieces[0]]) + (Source(pieces[1..]) + end)
    ensures Meaning(pieces) + end == Meaning([pieces[0]]) + (Meaning(pieces[1..]) + end)
  {
    hide *;
    FirstSource(pieces);
    FirstMeaning(pieces);
    Regroup(Source([pieces[0]]), Source(pieces[1..]), end);
    Regroup(Meaning([pieces[0]]), Meaning(pieces[1..]), end);
  }

  lemma Regroup(a: string, b: string, c: string)
    ensures a + b + c == a + (b + c)
  {
  }

  lemma FirstSource(pieces: seq<Piece>)
    requires pieces != []
    ensures Source(pieces) == Source([pieces[0]]) + Source(pieces[1..])
  {
    assert [pieces[0]][1..] == [];
  }

  lemma FirstMeaning(pieces: seq<Piece>)
    requires pieces != []
    ensures Meaning(pieces) == Meaning([pieces[0]]) + Meaning(pieces[1..])
  {
    hide MeaningOf;
    assert [pieces[0]][1..] == [] && Meaning([]) == "";
    assert MeaningOf(pieces[0]) + "" == MeaningOf(pieces[0]);
  }

  lemma {:induction false} EveryTextIsPieces(s: string) returns (pieces: seq<Piece>, end: string)
    ensures s == Source(pieces) + end && (end == "" || end == "\\")
    ensures forall p | p in pieces && p.Plain? :: p.c != '\\'
  {
    if s == "" || s == "\\" {
      pieces, end := [], s;
    } else {
      var n := if s[0] == '\\' then 2 else 1;
      var first := if s[0] == '\\' then Escaped(s[1]) else Plain(s[0]);
      var rest;
      rest, end := EveryTextIsPieces(s[n..]);
      pieces := [first] + rest;
      assert pieces[1..] == rest;
      assert s == s[..n] + s[n..];
    }
  }

  /** `q` is a value in one of the two notations the reader knows, and `v` is what it stands for. */
  ghost predicate Means(q: string, v: string) {
    if |q| >= 2 && q[0] == '"' && q[|q| - 1] == '"' then TrimmedTo(Unescape(q[1..|q| - 1]), v)
    else exists m :: UnquotedTo(q, m) && TrimmedTo(m, v)
  }

  /** A value in either notation, with any blanks around it. */
  ghost predicate Spells(z: string, v: string) {
    v != "" && exists q :: TrimmedTo(z, q) && Means(q, v)
  }

  /** Blanks, an equals sign and a value. */
  ghost predicate Assigns(rest: string, v: string) {
    exists lead, z :: Blank(lead) && rest == lead + ("=" + z) && Spells(z, v)
  }

  lemma MeansIsUnquoted(q: string, v: string)
    ensures Means(q, v) <==> Trim(Unquoted(q)) == v
  {
    hide Trim, TrimmedTo, UnquotedTo, Unescape;
    if |q| >= 2 && q[0] == '"' && q[|q| - 1] == '"' {
      TrimmedToIsTrim(Unescape(q[1..|q| - 1]), v);
    } else {
      var m := TrimQuotesRight(TrimQuotesLeft(q));
      forall x
        ensures UnquotedTo(q, x) <==> x == m
      {
        UnquotedToIsTrimQuotes(q, x);
      }
      TrimmedToIsTrim(m, v);
    }
  }

  // --- lines that set the key --------------------------------------------------------------

  /** The value behind the key, if there is one. */
  lemma ValueIsReadExactlyWhen(rest: string, v: string)
    ensures ValueIn(rest) == Some(v) <==> Assigns(rest, v)
  {
    hide ValueIn, Assigns;
    if ValueIn(rest) == Some(v) {
      ReadIsAssigned(rest, v);
    }
    if Assigns(rest, v) {
      AssignedIsRead(rest, v);
    }
  }

  lemma ReadIsAssigned(rest: string, v: string)
    requires ValueIn(rest) == Some(v)
    ensures Assigns(rest, v)
  {
    hide IsSpace, Trim, Blank, Spells, Unquoted;
    var r := TrimLeft(rest);
    var lead := rest[..|rest| - |r|];
    TrimLeftTakesBlanks(rest);
    SpelledIsTrimmed(r[1..], v);
    assert rest == lead + ("=" + r[1..]);
  }

  lemma AssignedIsRead(rest: string, v: string)
    requires Assigns(rest, v)
    ensures ValueIn(rest) == Some(v)
  {
    hide IsSpace, Trim, Blank, Spells, Unquoted;
    var a, z :| Blank(a) && rest == a + ("=" + z) && Spells(z, v);
    EqualsIsNoSpace();
    TrimLeftIsExact(a, "=" + z);
    assert ("=" + z)[1..] == z;
    SpelledIsTrimmed(z, v);
  }

  lemma EqualsIsNoSpace()
    ensures !IsSpace('=') && !IsSpace('d') && !IsSpace('r')
  {
  }

  lemma SpelledIsTrimmed(z: string, v: string)
    ensures Spells(z, v) <==> v != "" && Trim(Unquoted(Trim(z))) == v
  {
    hide Trim, Unquoted, TrimmedTo, Means;
    forall q
      ensures TrimmedTo(z, q) <==> q == Trim(z)
    {
      TrimmedToIsTrim(z, q);
    }
    MeansIsUnquoted(Trim(z), v);
  }

  lemma TrimIgnoresTail(z: string, tail: string)
    requires Blank(tail)
    ensures Trim(z + tail) == Trim(z)
  {
    hide IsSpace, Trim;
    var front, core, back := TrimmedSplits(z);
    assert forall c | c in back + tail :: c in back || c in tail;
    assert z + tail == front + core + (back + tail);
    TrimIsExact(front, core, back + tail);
  }

  lemma AssignsIgnoresTail(rest: string, tail: string, v: string)
    requires Blank(tail)
    ensures Assigns(rest + tail, v) <==> Assigns(rest, v)
  {
    hide Spells;
    if Assigns(rest, v) {
      var lead, z :| Blank(lead) && rest == lead + ("=" + z) && Spells(z, v);
      SpellsIgnoresTail(z, tail, v);
      assert rest + tail == lead + ("=" + (z + tail));
    }
    if Assigns(rest + tail, v) {
      var lead, z :| Blank(lead) && rest + tail == lead + ("=" + z) && Spells(z, v);
      EqualsIsInFront(rest, tail, lead, z);
      var inner := rest[|lead| + 1..];
      SpellsIgnoresTail(inner, tail, v);
      assert rest == lead + ("=" + inner) && z == inner + tail;
    }
  }

  lemma SpellsIgnoresTail(z: string, tail: string, v: string)
    requires Blank(tail)
    ensures Spells(z + tail, v) <==> Spells(z, v)
  {
    hide Spells, Trim, Unquoted, Blank;
    TrimIgnoresTail(z, tail);
    SpelledIsTrimmed(z, v);
    SpelledIsTrimmed(z + tail, v);
  }

  lemma EqualsIsInFront(rest: string, tail: string, lead: string, z: string)
    requires Blank(tail) && rest + tail == lead + ("=" + z)
    ensures |lead| < |rest| && rest == lead + ("=" + rest[|lead| + 1..]) && z == rest[|lead| + 1..] + tail
  {
    var n := |lead|;
    var s := rest + tail;
    assert s[n] == '=' && s[..n] == lead && s[n + 1..] == z;
    EqualsIsNoSpace();
    hide IsSpace;
    forall k | |rest| <= k < |s|
      ensures s[k] != '='
    {
      assert s[k] == tail[k - |rest|] && tail[k - |rest|] in tail;
    }
    assert n < |rest|;
    assert rest[..n] == s[..n] && rest[n] == s[n];
    assert rest == rest[..n] + [rest[n]] + rest[n + 1..];
  }

  /** The line begins, behind blanks, like the key. */
  ghost predicate BeginsLikeKey(line: string) {
    exists lead, rest :: Blank(lead) && line == lead + ("data_dir" + rest)
  }

  /** The key, an equals sign and a value, with any blanks around them. */
  ghost predicate SetsTo(line: string, v: string) {
    exists lead, rest :: Blank(lead) && line == lead + ("data_dir" + rest) && Assigns(rest, v)
  }

  /** A line that begins like the key is read as one, and so is what it sets it to. */
  lemma KeyLineIsRead(lead: string, rest: string)
    requires Blank(lead)
    ensures var line := Trim(lead + ("data_dir" + rest));
            StartsWith(line, KEY) && forall v :: ValueIn(line[|KEY|..]) == Some(v) <==> Assigns(rest, v)
  {
    hide ValueIn, Assigns;
    var core := TrimRight(rest);
    var tail := rest[|core|..];
    TrimRightTakesBlanks(rest);
    assert rest == core + tail;
    var line := lead + ("data_dir" + rest);
    assert line == lead + ("data_dir" + core) + tail;
    KeyIsTight(core);
    TrimIsExact(lead, "data_dir" + core, tail);
    assert ("data_dir" + core)[8..] == core;
    forall v
      ensures ValueIn(core) == Some(v) <==> Assigns(rest, v)
    {
      ValueIsReadExactlyWhen(core, v);
      AssignsIgnoresTail(core, tail, v);
    }
  }

  lemma KeyIsTight(core: string)
    requires core != "" ==> !IsSpace(core[|core| - 1])
    ensures Tight("data_dir" + core)
  {
    EqualsIsNoSpace();
    assert ("data_dir" + core)[0] == 'd';
    assert core == "" ==> "data_dir" + core == "data_dir";
  }

  lemma KeyIsSeenExactlyWhen(line: string)
    ensures StartsWith(Trim(line), KEY) <==> BeginsLikeKey(line)
  {
    hide IsSpace, Trim, Assigns;
    if BeginsLikeKey(line) {
      var lead, rest :| Blank(lead) && line == lead + ("data_dir" + rest);
      KeyLineIsRead(lead, rest);
    }
    if StartsWith(Trim(line), KEY) {
      var lead, core, tail := TrimmedSplits(line);
      assert core == "data_dir" + core[8..];
      assert line == lead + ("data_dir" + (core[8..] + tail));
    }
  }

  lemma LineSetsExactlyWhen(line: string, v: string)
    requires BeginsLikeKey(line)
    ensures StartsWith(Trim(line), KEY)
    ensures ValueIn(Trim(line)[|KEY|..]) == Some(v) <==> SetsTo(line, v)
  {
    hide IsSpace, Trim, Assigns, ValueIn;
    var lead, rest :| Blank(lead) && line == lead + ("data_dir" + rest);
    KeyLineIsRead(lead, rest);
    forall a, r | Blank(a) && line == a + ("data_dir" + r)
      ensures r == rest
    {
      EqualsIsNoSpace();
      TrimLeftIsExact(a, "data_dir" + r);
      TrimLeftIsExact(lead, "data_dir" + rest);
      assert ("data_dir" + r)[8..] == r && ("data_dir" + rest)[8..] == rest;
    }
  }

  /** The first of these lines that begins like the key. */
  ghost predicate FirstLike(lines: seq<string>, i: nat) {
    i < |lines| && BeginsLikeKey(lines[i]) && forall j | 0 <= j < i :: !BeginsLikeKey(lines[j])
  }

  ghost predicate FirstSetsTo(lines: seq<string>, v: string) {
    exists i: nat :: FirstLike(lines, i) && SetsTo(lines[i], v)
  }

  lemma {:induction false} LinesAreReadExactlyWhen(lines: seq<string>, v: string)
    ensures ReadLines(lines) == Some(v) <==> FirstSetsTo(lines, v)
  {
    hide BeginsLikeKey, SetsTo, Trim, ValueIn, StartsWith, FirstSetsTo, FirstLike;
    if lines == [] {
      NoLinesSet(v);
    } else {
      KeyIsSeenExactlyWhen(lines[0]);
      if BeginsLikeKey(lines[0]) {
        LineSetsExactlyWhen(lines[0], v);
        FirstLineSets(lines, v);
      } else {
        LinesAreReadExactlyWhen(lines[1..], v);
        LaterLineSets(lines, v);
      }
    }
  }

  lemma NoLinesSet(v: string)
    ensures !FirstSetsTo([], v)
  {
  }

  lemma FirstLineSets(lines: seq<string>, v: string)
    requires lines != [] && BeginsLikeKey(lines[0])
    ensures FirstSetsTo(lines, v) <==> SetsTo(lines[0], v)
  {
    hide BeginsLikeKey, SetsTo;
    assert FirstLike(lines, 0);
    assert forall i: nat | i > 0 :: !FirstLike(lines, i);
  }

  lemma LaterLineSets(lines: seq<string>, v: string)
    requires lines != [] && !BeginsLikeKey(lines[0])
    ensures FirstSetsTo(lines, v) <==> FirstSetsTo(lines[1..], v)
  {
    hide BeginsLikeKey, SetsTo;
    if FirstSetsTo(lines, v) {
      var i: nat :| FirstLike(lines, i) && SetsTo(lines[i], v);
      NotTheFirst(lines, i);
      LaterIsFirst(lines, i - 1);
      assert lines[1..][i - 1] == lines[i];
    }
    if FirstSetsTo(lines[1..], v) {
      var i: nat :| FirstLike(lines[1..], i) && SetsTo(lines[1..][i], v);
      LaterIsFirst(lines, i);
      assert lines[1..][i] == lines[i + 1];
    }
  }

  lemma NotTheFirst(lines: seq<string>, i: nat)
    requires lines != [] && !BeginsLikeKey(lines[0]) && FirstLike(lines, i)
    ensures i > 0
  {
    hide BeginsLikeKey;
  }

  lemma LaterIsFirst(lines: seq<string>, i: nat)
    requires lines != [] && !BeginsLikeKey(lines[0])
    ensures FirstLike(lines, i + 1) <==> FirstLike(lines[1..], i)
  {
    hide BeginsLikeKey;
    assert forall j | 0 <= j < |lines| - 1 :: lines[1..][j] == lines[j + 1];
    if FirstLike(lines[1..], i) {
      assert forall j | 1 <= j < i + 1 :: lines[j] == lines[1..][j - 1];
    }
  }

  /** The reader answers with a directory if and only if the first line that begins like the key sets it to that
      directory; lines behind it do not count, and nor does a first line that sets nothing. */
  lemma DirectoryIsReadExactlyWhen(doc: string, v: string)
    ensures ReadDataDir(doc) == Some(v) <==> FirstSetsTo(Lines(doc), v)
  {
    hide FirstSetsTo, Lines, ReadLines;
    LinesAreReadExactlyWhen(Lines(doc), v);
  }
}
