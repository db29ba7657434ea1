/** Storing a new library directory in a configuration file: exactly when everything else in the file stays as it is,
    byte for byte. */
module ConfigMerge {
  import opened LibraryStore
  import opened Text
  import opened Config
  import opened TomlString
  import Layout = LibraryLayout

  /** A line that sets the key: the key, blanks, an equals sign. */
  predicate SetsKey(line: string) {
    var t := Layout.TrimLeft(line);
    StartsWith(t, KEY) && var rest := Layout.TrimLeft(t[|KEY|..]); rest != [] && rest[0] == '='
  }

  /** A line that only begins with the letters of the key: another key, such as `data_dir_backup`. */
  predicate OnlyBeginsLikeKey(line: string) {
    StartsWith(Layout.TrimLeft(line), KEY) && !SetsKey(line)
  }

  /** The document without the lines that set the key, byte for byte. */
  function Others(doc: string): string
    decreases |doc|
  {
    if doc == [] then []
    else
      var i := IndexFrom(doc, '\n', 0);
      if i == |doc| then (if SetsKey(doc) then [] else doc)
      else (if SetsKey(StripCr(doc[..i])) then [] else doc[..i] + "\n") + Others(doc[i + 1..])
  }

  /** A line other than the key's that comes through unchanged: it ends with a newline and no carriage return before
      it, and does not begin like the key. */
  predicate Unharmed(line: string) {
    !OnlyBeginsLikeKey(StripCr(line)) && StripCr(line) == line
  }

  predicate AllUnharmed(doc: string)
    decreases |doc|
  {
    doc == [] ||
    var i := IndexFrom(doc, '\n', 0);
    if i == |doc| then SetsKey(doc)
    else (SetsKey(StripCr(doc[..i])) || Unharmed(doc[..i])) && AllUnharmed(doc[i + 1..])
  }

  /** What the merge writes: the lines that are kept, each with a newline. */
  function Written(lines: seq<string>): string {
    if lines == [] then [] else lines[0] + "\n" + Written(lines[1..])
  }

  lemma {:induction false} JoinIsWritten(lines: seq<string>)
    ensures Join(lines) + "\n" == if lines == [] then "\n" else Written(lines)
  {
    if |lines| == 1 {
      assert Written(lines[1..]) == [];
    } else if lines != [] {
      JoinIsWritten(lines[1..]);
      assert lines[0] + "\n" + Join(lines[1..]) + "\n" == lines[0] + "\n" + (Join(lines[1..]) + "\n");
    }
  }

  /** The text of the first line that is kept, and the rest. */
  lemma KeptOfFirst(line: string, rest: seq<string>)
    ensures Written(Kept([line] + rest)) == (if StartsWith(Layout.TrimLeft(line), KEY) then [] else line + "\n") + Written(Kept(rest))
  {
    assert ([line] + rest)[1..] == rest;
    if !StartsWith(Layout.TrimLeft(line), KEY) {
      assert ([line] + Kept(rest))[1..] == Kept(rest);
    }
  }

  lemma LastIsKept(line: string)
    ensures Written(Kept([line])) == if StartsWith(Layout.TrimLeft(line), KEY) then [] else line + "\n"
  {
    KeptOfFirst(line, []);
    assert [line] + [] == [line];
    assert Written(Kept([])) == [];
  }

  lemma KeyIsLong(line: string)
    requires StartsWith(Layout.TrimLeft(line), KEY)
    ensures |line| >= 8
  {
  }

  /** The merge can add one newline, and no more. */
  lemma {:induction false} WrittenIsNotLonger(doc: string)
    ensures |Written(Kept(Lines(doc)))| <= |Others(doc)| + 1
    decreases |doc|
  {
    if doc != [] {
      var i := IndexFrom(doc, '\n', 0);
      if i == |doc| {
        LastLine(doc);
        LastIsKept(doc);
      } else {
        WrittenIsNotLonger(doc[i + 1..]);
        FirstLine(doc, i);
        FirstOfOthers(doc, i);
        hide Layout.TrimLeft, Kept, Written, Lines, Others, AllUnharmed;
        KeptOfFirst(StripCr(doc[..i]), Lines(doc[i + 1..]));
      }
    }
  }

  /** One line, read and written: what it becomes and what it was agree exactly when it is unharmed. */
  lemma LineAgrees(line: string, written: string, others: string)
    requires |written| <= |others| + 1
    ensures var l := StripCr(line);
            var out := if StartsWith(Layout.TrimLeft(l), KEY) then [] else l + "\n";
            var was := if SetsKey(l) then [] else line + "\n";
            out + written == was + others <==> (SetsKey(l) || Unharmed(line)) && written == others
  {
    var l := StripCr(line);
    var out := if StartsWith(Layout.TrimLeft(l), KEY) then [] else l + "\n";
    var was := if SetsKey(l) then [] else line + "\n";
    if SetsKey(l) {
      assert out + written == written && was + others == others;
    } else if OnlyBeginsLikeKey(l) {
      KeyIsLong(l);
      assert |out + written| < |was + others|;
    } else if l == line {
      SamePrefix(out, written, others);
    } else {
      var k := |line| - 1;
      assert (out + written)[k] == '\n' && (was + others)[k] == '\r';
    }
  }

  lemma SamePrefix(p: string, a: string, b: string)
    ensures p + a == p + b <==> a == b
  {
    assert (p + a)[|p|..] == a && (p + b)[|p|..] == b;
  }

  lemma FirstOfOthers(doc: string, i: nat)
    requires doc != [] && i == IndexFrom(doc, '\n', 0) && i < |doc|
    ensures Others(doc) == (if SetsKey(StripCr(doc[..i])) then [] else doc[..i] + "\n") + Others(doc[i + 1..])
  {
    hide StripCr, SetsKey, IndexFrom;
  }

  lemma FirstOfUnharmed(doc: string, i: nat)
    requires doc != [] && i == IndexFrom(doc, '\n', 0) && i < |doc|
    ensures AllUnharmed(doc) <==> (SetsKey(StripCr(doc[..i])) || Unharmed(doc[..i])) && AllUnharmed(doc[i + 1..])
  {
    hide StripCr, SetsKey, Unharmed, IndexFrom;
  }

  lemma FirstLine(doc: string, i: nat)
    requires doc != [] && i == IndexFrom(doc, '\n', 0) && i < |doc|
    ensures Lines(doc) == [StripCr(doc[..i])] + Lines(doc[i + 1..])
  {
    hide StripCr, IndexFrom;
  }

  lemma LastLine(doc: string)
    requires doc != [] && IndexFrom(doc, '\n', 0) == |doc|
    ensures Lines(doc) == [doc] && Others(doc) == (if SetsKey(doc) then [] else doc)
    ensures AllUnharmed(doc) <==> SetsKey(doc)
  {
    hide StripCr, SetsKey, Unharmed;
  }

  lemma LastLineAgrees(doc: string)
    requires doc != [] && IndexFrom(doc, '\n', 0) == |doc|
    ensures Written(Kept(Lines(doc))) == Others(doc) <==> AllUnharmed(doc)
  {
    LastLine(doc);
    LastIsKept(doc);
    hide Kept, Written, Lines, Others, AllUnharmed;
  }

  /** What is written is what was there if and only if every line is unharmed. */
  lemma {:induction false} WrittenIsOthersExactlyWhen(doc: string)
    ensures Written(Kept(Lines(doc))) == Others(doc) <==> AllUnharmed(doc)
    decreases |doc|
  {
    if doc != [] {
      var i := IndexFrom(doc, '\n', 0);
      hide *;
      if i == |doc| {
        LastLineAgrees(doc);
      } else {
        var rest := doc[i + 1..];
        WrittenIsOthersExactlyWhen(rest);
        WrittenIsNotLonger(rest);
        FirstLine(doc, i);
        FirstOfOthers(doc, i);
        FirstOfUnharmed(doc, i);
        KeptOfFirst(StripCr(doc[..i]), Lines(rest));
        LineAgrees(doc[..i], Written(Kept(Lines(rest))), Others(rest));
      }
    }
  }

  /** When nothing is kept, nothing but lines that begin like the key was there. */
  lemma {:induction false} NothingKept(doc: string)
    requires Kept(Lines(doc)) == []
    ensures Others(doc) != "\n"
    decreases |doc|
  {
    if doc != [] {
      var i := IndexFrom(doc, '\n', 0);
      if i == |doc| {
        if StartsWith(Layout.TrimLeft(doc), KEY) {
          KeyIsLong(doc);
        }
      } else {
        FirstLine(doc, i);
        var l := StripCr(doc[..i]);
        assert Kept([l] + Lines(doc[i + 1..])) == [];
        assert ([l] + Lines(doc[i + 1..]))[1..] == Lines(doc[i + 1..]);
        KeyIsLong(l);
        NothingKept(doc[i + 1..]);
      }
    }
  }

  function KeyText(dir: string): string {
    KEY + " = " + ToToml(Normalize(dir)) + "\n"
  }

  /** The promise above the merge, "only the one line changes, all else stays byte for byte", for every document and
      directory: it holds if and only if there is another line at all, and each ends with a newline, without a
      carriage return before it, and does not begin like the key. */
  lemma OthersStayExactlyWhen(doc: string, dir: string)
    ensures MergeLibraryDir(doc, dir) == KeyText(dir) + Others(doc) <==> AllUnharmed(doc) && Others(doc) != []
  {
    var kept := Kept(Lines(doc));
    hide Kept, Lines, Others, AllUnharmed, ToToml, Normalize;
    assert MergeLibraryDir(doc, dir) == KeyText(dir) + (Join(kept) + "\n");
    SamePrefix(KeyText(dir), Join(kept) + "\n", Others(doc));
    JoinIsWritten(kept);
    WrittenIsOthersExactlyWhen(doc);
    if kept == [] {
      NothingKept(doc);
      assert Written(kept) == [];
    } else {
      assert |Written(kept)| > 0;
    }
  }

  const OTHER := "data_dir_backup ="

  lemma OtherOnlyBegins(line: string)
    requires OTHER <= line
    ensures OnlyBeginsLikeKey(line)
  {
    assert line[..17] == OTHER;
    assert !Layout.IsSpace(line[0]) && Layout.TrimLeft(line) == line;
    assert line[..8] == OTHER[..8] == KEY;
    assert line[8..][0] == line[..17][8] == '_' && !Layout.IsSpace('_');
    assert Layout.TrimLeft(line[8..]) == line[8..];
  }

  lemma LostLine(line: string)
    requires '\n' !in line && OnlyBeginsLikeKey(StripCr(line))
    ensures Others(line + "\n") == line + "\n" && Kept(Lines(line + "\n")) == []
  {
    var doc := line + "\n";
    NewlineAt(line);
    assert doc[..|line|] == line && doc[|line| + 1..] == [];
    FirstLine(doc, |line|);
    FirstOfOthers(doc, |line|);
    hide Layout.TrimLeft, SetsKey, StripCr, IndexFrom;
    assert Lines([]) == [] && Others([]) == [] && Kept([]) == [];
    assert ([StripCr(line)] + [])[1..] == [];
  }

  lemma StrippedStarts(line: string, p: string)
    requires p <= line && p != [] && p[|p| - 1] != '\r'
    ensures p <= StripCr(line)
  {
  }

  /** The failing documents: the line of another key that begins with the same letters is lost. */
  lemma OtherKeyIsLost(value: string, dir: string)
    requires '\n' !in value
    ensures var doc := OTHER + value + "\n";
            Others(doc) == doc && MergeLibraryDir(doc, dir) == KeyText(dir) + "\n"
  {
    assert OTHER[16] == '=' && '\n' !in OTHER;
    hide Kept, Lines, Others, ToToml, Normalize, OnlyBeginsLikeKey, StripCr, OTHER, KEY;
    var line := OTHER + value;
    StrippedStarts(line, OTHER);
    OtherOnlyBegins(StripCr(line));
    LostLine(line);
    assert Join([]) == "";
  }

  lemma NewlineAt(line: string)
    requires '\n' !in line
    ensures IndexFrom(line + "\n", '\n', 0) == |line|
  {
    FirstComponent(line, '\n', "");
    assert line + ['\n'] + "" == line + "\n";
  }
}
