/** When a library directory survives being written and read back, exactly; and what a second write leaves. */
module ConfigTheorems {
  import opened LibraryStore
  import opened Text
  import opened TomlString
  import opened Config
  import Layout = LibraryLayout

  // --- escapes that the reader knows ---------------------------------------------------

  /** A control character that the writer escapes in a way the reader does not know. */
  predicate Foreign(c: char) {
    IsControl(c) && c != '\t' && c != '\n' && c != '\r'
  }

  lemma {:induction false} UnescapeAppend(s: string, t: string)
    requires s == [] || s[0] != '\\' || |s| >= 2
    ensures s != [] && s[0] != '\\' ==> Unescape(s + t) == [s[0]] + Unescape(s[1..] + t)
    ensures s != [] && s[0] == '\\' ==> Unescape(s + t) == Replacement(s[1]) + Unescape(s[2..] + t)
  {
    if s != [] {
      assert (s + t)[0] == s[0] && (s + t)[1..] == s[1..] + t;
      if |s| >= 2 {
        assert (s + t)[1] == s[1] && (s + t)[2..] == s[2..] + t;
      }
    }
  }

  /** What reading one written character gives. */
  function Reread(c: char): string {
    if Foreign(c) then Escape(c) else [c]
  }

  lemma EscapeIsReread(c: char, t: string)
    requires c != '\n'
    ensures Unescape(Escape(c) + t) == Reread(c) + Unescape(t)
  {
    if |Escape(c)| == 1 {
      assert Escape(c) == [c] && c != '\\' && !Foreign(c);
      hide Unescape, Escape;
      PlainIsReread([c], t);
    } else if |Escape(c)| == 2 {
      hide Unescape;
      ShortEscapeIsReread(c, t);
    } else {
      hide Unescape;
      LongEscapeIsReread(c, t);
    }
  }

  lemma ShortEscapeIsReread(c: char, t: string)
    requires |Escape(c)| == 2
    ensures Unescape(Escape(c) + t) == Reread(c) + Unescape(t)
  {
    var d := Escape(c)[1];
    assert Escape(c) == ['\\', d] && Replacement(d) == Reread(c);
    hide Unescape, Escape, Replacement, Reread;
    UnescapeAppend(['\\', d], t);
    assert ['\\', d][2..] + t == t;
  }

  lemma {:induction false} PlainIsReread(w: string, t: string)
    requires forall c | c in w :: c != '\\'
    ensures Unescape(w + t) == w + Unescape(t)
  {
    if w == [] {
      assert w + t == t;
    } else {
      assert w[0] in w && forall c | c in w[1..] :: c in w;
      UnescapeAppend(w, t);
      hide Unescape;
      PlainIsReread(w[1..], t);
      assert [w[0]] + (w[1..] + Unescape(t)) == w + Unescape(t);
    }
  }

  lemma LongEscapeIsReread(c: char, t: string)
    requires |Escape(c)| == 6
    ensures Unescape(Escape(c) + t) == Escape(c) + Unescape(t)
  {
    var e := Escape(c);
    var w := e[2..];
    assert e[0] == '\\' && e[1] == 'u' && forall d | d in w :: d != '\\';
    assert e == ['\\', 'u'] + w && Replacement('u') == ['\\', 'u'];
    hide Escape, Unescape, Replacement;
    UnescapeAppend(e, t);
    PlainIsReread(w, t);
    assert ['\\', 'u'] + (w + Unescape(t)) == e + Unescape(t);
  }

  function RereadAll(s: string): string {
    if s == [] then [] else Reread(s[0]) + RereadAll(s[1..])
  }

  lemma {:induction false} EscapedIsReread(s: string)
    requires '\n' !in s
    ensures Unescape(EscapeAll(s)) == RereadAll(s)
  {
    if s != [] {
      EscapeAllFromFront(s);
      assert s[0] in s;
      EscapeIsReread(s[0], EscapeAll(s[1..]));
      hide Escape, Reread;
      EscapedIsReread(s[1..]);
    }
  }

  lemma {:induction false} RereadIsSame(s: string)
    requires forall c | c in s :: !Foreign(c)
    ensures RereadAll(s) == s
  {
    if s != [] {
      assert s[0] in s;
      RereadIsSame(s[1..]);
      assert [s[0]] + s[1..] == s;
    }
  }

  lemma {:induction false} RereadLosesForeign(s: string, c: char)
    requires Foreign(c)
    ensures c !in RereadAll(s)
  {
    if s != [] {
      RereadLosesForeign(s[1..], c);
      EscapeIsPrintable(s[0]);
    }
  }

  lemma EscapeIsPrintable(c: char)
    ensures forall d | d in Reread(c) :: !Foreign(d)
  {
  }

  // --- the first line ------------------------------------------------------------------------

  /** The part of a written value that stands in the first line. */
  function FirstLineOf(v: string): string {
    var (literal, style) := Decide(Observed(v), v);
    if style == NewlineTriple then (if literal then "'''" else "\"\"\"") else ToToml(v)
  }

  lemma EscapeHasNoNewline(c: char)
    requires c != '\n'
    ensures '\n' !in Escape(c)
  {
  }

  lemma {:induction false} EscapedHasNoNewline(s: string)
    requires '\n' !in s
    ensures '\n' !in EscapeAll(s)
  {
    hide Escape;
    if s != [] {
      var init := s[..|s| - 1];
      assert s[|s| - 1] in s && forall c | c in init :: c in s;
      EscapedHasNoNewline(init);
      EscapeHasNoNewline(s[|s| - 1]);
    }
  }

  /** A value starts and ends with a quote, and its first line holds no newline. */
  lemma FirstLineShape(v: string)
    ensures var f := FirstLineOf(v);
            && f != [] && (f[0] == '"' || f[0] == '\'') && f[|f| - 1] == f[0] && '\n' !in f
            && (if '\n' in v then f + "\n" <= ToToml(v) else ToToml(v) == f)
  {
    DecisionMeans(v);
    hide Observed, Decide;
    var (literal, style) := Decide(Observed(v), v);
    var (start, end) := Delimiters(literal, style);
    var f, t := FirstLineOf(v), ToToml(v);
    if '\n' in v {
      assert start == f + "\n";
      assert t[..|start|] == start;
    } else {
      assert t == start + (if literal then v else EscapeAll(v)) + end;
      EscapedHasNoNewline(v);
      hide EscapeAll;
      assert t[0] == start[0] && t[|t| - 1] == end[|end| - 1];
      assert '\n' !in start && '\n' !in end;
    }
  }

  lemma FirstOfLines(a: string, b: string)
    requires '\n' !in a && a != [] && a[|a| - 1] != '\r'
    ensures Lines(a + "\n" + b) != [] && Lines(a + "\n" + b)[0] == a
    ensures Lines(a + "\n" + b)[1..] == Lines(b)
  {
    FirstComponent(a, '\n', b);
    var s := a + ['\n'] + b;
    assert s == a + "\n" + b && s[..|a|] == a && s[|a| + 1..] == b;
  }

  lemma TrimmedStays(s: string)
    requires s != [] && !Layout.IsSpace(s[0]) && !Layout.IsSpace(s[|s| - 1])
    ensures Layout.Trim(s) == s && Layout.TrimLeft(s) == s
  {
    var i, j := Layout.TrimmedIsSlice(s);
  }

  lemma TrimOfSpaced(s: string)
    requires s != [] && !Layout.IsSpace(s[0]) && !Layout.IsSpace(s[|s| - 1])
    ensures Layout.Trim([' '] + s) == s
  {
    assert ([' '] + s)[1..] == s;
    TrimmedStays(s);
  }

  /** What a quoted first line reads as. */
  function ReadQuoted(f: string): Option<string> {
    var val := Layout.Trim(Unquoted(f));
    if val == [] then None else Some(val)
  }

  lemma TrimLeftOfSpaced(s: string)
    requires s != [] && !Layout.IsSpace(s[0])
    ensures Layout.TrimLeft([' '] + s) == s
  {
    assert ([' '] + s)[1..] == s;
  }

  lemma ValueIsRead(f: string)
    requires f != [] && !Layout.IsSpace(f[0]) && !Layout.IsSpace(f[|f| - 1])
    ensures ValueIn(" = " + f) == ReadQuoted(f)
  {
    var r := ['='] + ([' '] + f);
    assert " = " + f == [' '] + r && r[1..] == [' '] + f;
    assert !Layout.IsSpace(r[0]);
    TrimLeftOfSpaced(r);
    TrimOfSpaced(f);
    hide Unquoted, Layout.Trim, Layout.TrimLeft, Layout.IsSpace;
  }

  lemma LineIsRead(key: string, f: string)
    requires key == KEY && f != [] && !Layout.IsSpace(f[0]) && !Layout.IsSpace(f[|f| - 1])
    ensures var line := key + (" = " + f);
            Layout.Trim(line) == line && StartsWith(line, KEY) && ValueIn(line[|KEY|..]) == ReadQuoted(f)
  {
    assert key != [] && !Layout.IsSpace(key[0]);
    ValueIsRead(f);
    hide KEY, ValueIn, ReadQuoted, Layout.IsSpace;
    var eq := " = " + f;
    var line := key + eq;
    assert line[0] == key[0] && line[|line| - 1] == eq[|eq| - 1] == f[|f| - 1];
    TrimmedStays(line);
    assert line[|key|..] == eq && line[..|key|] == key;
  }

  lemma FirstLineDecides(line: string, rest: string)
    requires '\n' !in line && line != [] && line[|line| - 1] != '\r'
    requires Layout.Trim(line) == line && StartsWith(line, KEY)
    ensures ReadDataDir(line + "\n" + rest) == ValueIn(line[|KEY|..])
  {
    FirstOfLines(line, rest);
    hide Lines, KEY, ValueIn, Layout.Trim;
  }

  lemma HeadHasNoNewline(key: string, f: string)
    requires key == KEY && '\n' !in f
    ensures '\n' !in key + (" = " + f)
  {
  }

  lemma SplitAfterLine(key: string, eq: string, f: string, more: string, end: string)
    ensures key + eq + ((f + "\n") + more) + end == (key + (eq + f)) + "\n" + (more + end)
  {
  }

  lemma SplitAtEnd(key: string, eq: string, f: string, rest: string)
    ensures key + eq + f + "\n" + rest == (key + (eq + f)) + "\n" + rest
  {
  }

  /** A text that starts with the key and a quoted value is decided by its first line. */
  lemma LineDecides(key: string, f: string, rest: string)
    requires key == KEY && f != [] && (f[0] == '"' || f[0] == '\'') && f[|f| - 1] == f[0] && '\n' !in f
    ensures ReadDataDir((key + (" = " + f)) + "\n" + rest) == ReadQuoted(f)
  {
    assert !Layout.IsSpace(f[0]) && f[0] != '\r';
    LineIsRead(key, f);
    HeadHasNoNewline(key, f);
    LastOfLine(key, " = ", f);
    hide *;
    FirstLineDecides(key + (" = " + f), rest);
  }

  lemma LastOfLine(key: string, eq: string, f: string)
    requires f != []
    ensures var line := key + (eq + f); line != [] && line[|line| - 1] == f[|f| - 1]
  {
  }

  /** Reading a merged document is reading its first line, whatever the document was. */
  lemma MergedIsRead(doc: string, dir: string)
    ensures ReadDataDir(MergeLibraryDir(doc, dir)) == ReadQuoted(FirstLineOf(Normalize(dir)))
  {
    var v := Normalize(dir);
    var f, t, key, body := FirstLineOf(v), ToToml(v), KEY, Body(doc);
    FirstLineShape(v);
    hide ToToml, FirstLineOf, Normalize, Body, ReadQuoted, ReadDataDir, KEY;
    assert MergeLibraryDir(doc, dir) == key + " = " + t + "\n" + body + "\n";
    assert key + " = " + t + "\n" + body + "\n" == key + " = " + t + ("\n" + body + "\n");
    hide MergeLibraryDir;
    if '\n' in v {
      var more := t[|f + "\n"|..];
      assert t == (f + "\n") + more;
      SplitAfterLine(key, " = ", f, more, "\n" + body + "\n");
      LineDecides(key, f, more + ("\n" + body + "\n"));
    } else {
      assert key + " = " + t + "\n" + body + "\n" == key + " = " + t + "\n" + (body + "\n");
      SplitAtEnd(key, " = ", f, body + "\n");
      LineDecides(key, f, body + "\n");
    }
  }

  // --- when the directory comes back ------------------------------------------------------------

  /** What a caller can check before writing: a trimmed, non-empty path without control characters other than
      tab and carriage return, that is not both written literally and quoted at its start. */
  ghost predicate Storable(v: string) {
    && v != "" && Layout.Trim(v) == v
    && (forall c | c in v :: IsControl(c) ==> c == '\t' || c == '\r')
    && !(WrittenLiterally(v) && v[0] == '\'')
  }

  lemma {:induction false} TrimQuotesOfQuoted(s: string)
    ensures TrimQuotesLeft("'" + s) == TrimQuotesLeft(s) && TrimQuotesRight(s + "'") == TrimQuotesRight(s)
  {
    assert ("'" + s)[1..] == s && (s + "'")[..|s|] == s;
  }

  lemma {:induction false} TrimQuotesLeftIsTail(s: string)
    ensures |TrimQuotesLeft(s)| <= |s| && TrimQuotesLeft(s) == s[|s| - |TrimQuotesLeft(s)|..]
    ensures s != [] && s[0] == '\'' ==> |TrimQuotesLeft(s)| < |s|
    ensures s != [] && s[|s| - 1] != '\'' ==> TrimQuotesLeft(s) != [] && TrimQuotesLeft(s)[|TrimQuotesLeft(s)| - 1] == s[|s| - 1]
  {
    if s != [] && s[0] == '\'' {
      TrimQuotesLeftIsTail(s[1..]);
    }
  }

  lemma QuotedIsUnquoted(e: string)
    ensures Unquoted("\"" + e + "\"") == Unescape(e)
  {
    var f := "\"" + e + "\"";
    assert f[1..|f| - 1] == e;
    hide Unescape;
  }

  lemma TrimKeepsOut(s: string, c: char)
    requires c !in s
    ensures c !in Layout.Trim(s)
  {
    var i, j := Layout.TrimmedIsSlice(s);
    assert c !in s[i..j];
  }

  lemma BasicIsReread(v: string)
    requires '\n' !in v
    ensures var t := Layout.Trim(RereadAll(v)); ReadQuoted("\"" + EscapeAll(v) + "\"") == if t == [] then None else Some(t)
  {
    QuotedIsUnquoted(EscapeAll(v));
    EscapedIsReread(v);
    hide Unquoted, Unescape, EscapeAll, RereadAll, Layout.Trim;
  }

  /** Written as a basic string in one line: what comes back is trimmed, and lacks the foreign controls. */
  lemma BasicComesBackWhen(v: string)
    requires '\n' !in v && !WrittenLiterally(v)
    ensures ReadQuoted("\"" + EscapeAll(v) + "\"") == Some(v)
            <==> v != "" && Layout.Trim(v) == v && forall c | c in v :: !Foreign(c)
  {
    BasicIsReread(v);
    hide *;
    if c :| c in v && Foreign(c) {
      RereadLosesForeign(v, c);
      TrimKeepsOut(RereadAll(v), c);
    } else {
      RereadIsSame(v);
    }
  }

  lemma LiteralIsUnquoted(v: string, triple: bool)
    requires v != [] && v[|v| - 1] != '\''
    ensures Unquoted(if triple then "'''" + v + "'''" else "'" + v + "'") == TrimQuotesLeft(v)
  {
    var q := if triple then "'''" else "'";
    var f := q + v + q;
    assert f[0] == '\'';
    assert Unquoted(f) == TrimQuotesRight(TrimQuotesLeft(f));
    QuotesComeOff(v, triple);
    TrimQuotesLeftIsTail(v);
    var u := TrimQuotesLeft(v);
    assert TrimQuotesRight(u) == u;
  }

  /** Written literally: the reader takes the quotes off, and with them quotes at the start of the value. */
  lemma LiteralComesBackWhen(v: string, triple: bool)
    requires v != [] && v[|v| - 1] != '\''
    ensures var f := if triple then "'''" + v + "'''" else "'" + v + "'";
            ReadQuoted(f) == Some(v) <==> Layout.Trim(v) == v && v[0] != '\''
  {
    LiteralIsUnquoted(v, triple);
    TrimQuotesLeftIsTail(v);
    TrimmedIsShorter(TrimQuotesLeft(v));
    if v[0] != '\'' {
      QuoteFreeStart(v);
    }
    hide Unquoted, TrimQuotesLeft, Layout.Trim;
  }

  lemma QuoteFreeStart(v: string)
    requires v != [] && v[0] != '\''
    ensures TrimQuotesLeft(v) == v
  {
  }

  lemma TrimmedIsShorter(s: string)
    ensures |Layout.Trim(s)| <= |s|
  {
    var i, j := Layout.TrimmedIsSlice(s);
  }

  lemma {:induction false} LeftStopsBefore(s: string, q: string)
    requires exists c :: c in s && c != '\''
    ensures TrimQuotesLeft(s + q) == TrimQuotesLeft(s) + q
  {
    if s[0] == '\'' {
      assert (s + q)[1..] == s[1..] + q;
      assert s == [s[0]] + s[1..];
      LeftStopsBefore(s[1..], q);
    }
  }

  lemma QuotePairComesOff(s: string)
    requires exists c :: c in s && c != '\''
    ensures TrimQuotesRight(TrimQuotesLeft("'" + s + "'")) == TrimQuotesRight(TrimQuotesLeft(s))
  {
    assert "'" + s + "'" == "'" + (s + "'");
    TrimQuotesOfQuoted(s + "'");
    LeftStopsBefore(s, "'");
    TrimQuotesOfQuoted(TrimQuotesLeft(s));
  }

  /** Three quotes on each side are one quote on each side, three times. */
  lemma TripleNests(q: string, qqq: string, v: string)
    requires qqq == q + q + q
    ensures qqq + v + qqq == q + (q + (q + v + q) + q) + q
  {
    var inner := q + v + q;
    assert q + (q + inner + q) + q == (q + q) + inner + (q + q);
    assert (q + q) + inner + (q + q) == (q + q + q) + v + (q + q + q);
  }

  lemma StaysInside(q: string, v: string, c: char)
    requires c in v
    ensures c in q + v + q
  {
  }

  lemma QuotesComeOff(v: string, triple: bool)
    requires v != [] && v[|v| - 1] != '\''
    ensures var q := if triple then "'''" else "'";
            TrimQuotesRight(TrimQuotesLeft(q + v + q)) == TrimQuotesRight(TrimQuotesLeft(v))
  {
    hide TrimQuotesLeft, TrimQuotesRight;
    var c := v[|v| - 1];
    assert c in v;
    QuotePairComesOff(v);
    if triple {
      StaysInside("'", v, c);
      QuotePairComesOff("'" + v + "'");
      StaysInside("'", "'" + v + "'", c);
      QuotePairComesOff("'" + ("'" + v + "'") + "'");
      TripleNests("'", "'''", v);
    }
  }

  /** The exact condition: writing a directory into any document and reading it back gives the normalized path
      if and only if that path is storable. */
  lemma ComesBackExactlyWhenStorable(doc: string, dir: string)
    ensures var v := Normalize(dir);
            ReadDataDir(MergeLibraryDir(doc, dir)) == Some(v) <==> Storable(v)
  {
    MergedIsRead(doc, dir);
    hide ReadDataDir, MergeLibraryDir;
    FirstLineComesBackWhen(Normalize(dir));
  }

  lemma FirstLineComesBackWhen(v: string)
    ensures ReadQuoted(FirstLineOf(v)) == Some(v) <==> Storable(v)
  {
    DecisionMeans(v);
    var (literal, style) := Decide(Observed(v), v);
    hide Observed, Decide, ReadQuoted, HasTriple, Layout.Trim;
    if style == NewlineTriple {
      assert '\n' in v && IsControl('\n');
      TriplesAreEmpty(v);
    } else if literal {
      LiteralComesBackWhen(v, style == OnelineTriple);
    } else {
      BasicComesBackWhen(v);
    }
  }

  lemma TriplesAreEmpty(v: string)
    requires '\n' in v
    ensures ReadQuoted("'''") != Some(v) && ReadQuoted("\"\"\"") != Some(v)
  {
    var (a, b) := ("'''", "\"\"\"");
    assert TrimQuotesLeft(a[1..][1..][1..]) == [];
    assert TrimQuotesLeft(a) == [];
    assert Unquoted(a) == [];
    assert b[1..|b| - 1] == "\"" && Unescape("\""[1..]) == [];
    assert Unquoted(b) == "\"";
    hide Unquoted;
    var i, j := Layout.TrimmedIsSlice([]);
    TrimmedStays("\"");
  }

  // --- the rest of the document ---------------------------------------------------------------------

  lemma {:induction false} LinesHaveNoNewline(s: string)
    ensures forall l | l in Lines(s) :: '\n' !in l
    ensures '\r' !in s ==> forall l | l in Lines(s) :: '\r' !in l
    decreases |s|
  {
    if s != [] {
      var i := IndexFrom(s, '\n', 0);
      var first := s[..i];
      assert forall c | c in first :: c in s && c != '\n';
      if i < |s| {
        var rest := s[i + 1..];
        assert forall c | c in rest :: c in s;
        LinesHaveNoNewline(rest);
        StrippedIsPart(first);
        assert Lines(s) == [StripCr(first)] + Lines(rest);
      } else {
        assert first == s && Lines(s) == [s];
      }
    }
  }

  lemma StrippedIsPart(s: string)
    ensures forall c | c in StripCr(s) :: c in s
  {
  }

  lemma {:induction false} KeptAreLines(lines: seq<string>)
    ensures forall l | l in Kept(lines) :: l in lines
    ensures Kept(Kept(lines)) == Kept(lines)
  {
    hide StartsWith, Layout.TrimLeft;
    if lines != [] {
      KeptAreLines(lines[1..]);
      assert lines == [lines[0]] + lines[1..];
    }
  }

  /** Splitting joined lines gives them back; no lines at all read as one empty line. */
  lemma {:induction false} JoinedIsSplit(lines: seq<string>)
    requires forall l | l in lines :: '\n' !in l && '\r' !in l
    ensures Lines(Join(lines) + "\n") == if lines == [] then [""] else lines
  {
    if |lines| <= 1 {
      var l := if lines == [] then "" else lines[0];
      assert lines != [] ==> lines[0] in lines;
      OneLine(l);
      assert lines != [] ==> lines == [lines[0]];
    } else {
      var head, rest := lines[0], lines[1..];
      assert head in lines && forall l | l in rest :: l in lines;
      JoinedIsSplit(rest);
      assert Join(lines) + "\n" == head + "\n" + (Join(rest) + "\n");
      hide Join;
      LineIsSplit(head, Join(rest) + "\n");
      assert lines == [head] + rest;
    }
  }

  lemma LineIsSplit(a: string, b: string)
    requires '\n' !in a && '\r' !in a
    ensures Lines(a + "\n" + b) == [a] + Lines(b)
  {
    FirstComponent(a, '\n', b);
    var s := a + ['\n'] + b;
    assert s == a + "\n" + b && s[..|a|] == a && s[|a| + 1..] == b;
    assert StripCr(a) == a;
  }

  lemma OneLine(l: string)
    requires '\n' !in l && '\r' !in l
    ensures Lines(l + "\n") == [l]
  {
    LineIsSplit(l, "");
    assert l + "\n" + "" == l + "\n";
  }

  lemma KeyLineIsDropped(line: string, rest: string)
    requires '\n' !in line && line != [] && line[|line| - 1] != '\r' && !Layout.IsSpace(line[0]) && StartsWith(line, KEY)
    ensures Kept(Lines(line + "\n" + rest)) == Kept(Lines(rest))
  {
    FirstOfLines(line, rest);
    assert Layout.TrimLeft(line) == line;
    hide Lines, KEY, Layout.TrimLeft;
  }

  lemma BodyStays(kept: seq<string>)
    requires Kept(kept) == kept && forall l | l in kept :: '\n' !in l && '\r' !in l
    ensures Join(Kept(Lines(Join(kept) + "\n"))) == Join(kept)
  {
    JoinedIsSplit(kept);
    EmptyLineIsKept();
    hide Kept, Lines;
  }

  lemma KeyLineShape(key: string, f: string)
    requires key == KEY && f != [] && '\n' !in f && !Layout.IsSpace(f[|f| - 1])
    ensures var line := key + (" = " + f);
            '\n' !in line && line != [] && line[|line| - 1] != '\r' && !Layout.IsSpace(line[0]) && StartsWith(line, KEY)
  {
    HeadHasNoNewline(key, f);
    LastOfLine(key, " = ", f);
    KeyStarts(key, " = " + f);
    assert Layout.IsSpace('\r');
    hide Layout.IsSpace;
  }

  /** Writing a one-line directory changes nothing else: without carriage returns in it, the document's other
      lines are what they were. */
  lemma OtherLinesStay(doc: string, dir: string)
    requires '\r' !in doc && '\n' !in Normalize(dir)
    ensures Body(MergeLibraryDir(doc, dir)) == Body(doc)
  {
    var t, key, kept := ToToml(Normalize(dir)), KEY, Kept(Lines(doc));
    FirstLineShape(Normalize(dir));
    assert !Layout.IsSpace(t[0]);
    LinesHaveNoNewline(doc);
    KeptAreLines(Lines(doc));
    KeyLineShape(key, t);
    RegroupMerged(key, " = ", t, Join(kept));
    assert MergeLibraryDir(doc, dir) == key + " = " + t + "\n" + Join(kept) + "\n";
    hide ToToml, Normalize, KEY, Lines, Kept, Join, StartsWith, MergeLibraryDir, Layout.IsSpace, FirstLineOf;
    KeyLineIsDropped(key + (" = " + t), Join(kept) + "\n");
    BodyStays(kept);
  }

  lemma RegroupMerged(key: string, eq: string, t: string, body: string)
    ensures key + eq + t + "\n" + body + "\n" == (key + (eq + t)) + "\n" + (body + "\n")
  {
  }

  lemma KeyStarts(key: string, rest: string)
    requires key == KEY
    ensures !Layout.IsSpace((key + rest)[0])
  {
  }

  lemma EmptyLineIsKept()
    ensures Kept([""]) == [""]
  {
    assert !StartsWith(Layout.TrimLeft(""), KEY);
    assert [""][1..] == [];
    assert Kept([]) == [];
    assert [""] + [] == [""];
  }

  /** A second choice fully replaces the first. */
  lemma SecondMergeReplacesFirst(doc: string, first: string, second: string)
    requires '\r' !in doc && '\n' !in Normalize(first)
    ensures MergeLibraryDir(MergeLibraryDir(doc, first), second) == MergeLibraryDir(doc, second)
  {
    OtherLinesStay(doc, first);
  }
}
