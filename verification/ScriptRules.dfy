/** Where a slash starts a regular expression, spelled out: the characters, words and blanks that decide it. */
module ScriptRules {
  import opened LibraryStore
  import opened CommentStripper

  /** The class `\s` of ECMAScript. */
  lemma SpacesAreListed(c: char)
    ensures JsSpace(c) <==> c in {'\t', '\n', '\U{b}', '\U{c}', '\r', ' ', '\U{a0}', '\U{1680}', '\U{2000}', '\U{2001}',
              '\U{2002}', '\U{2003}', '\U{2004}', '\U{2005}', '\U{2006}', '\U{2007}', '\U{2008}', '\U{2009}', '\U{200a}',
              '\U{2028}', '\U{2029}', '\U{202f}', '\U{205f}', '\U{3000}', '\U{feff}'}
  {
  }

  /** The class `[\w$]`, by code point: dollar sign, digits, capitals, underscore, small letters. */
  lemma WordCharsAreListed(c: char)
    ensures WordChar(c) <==> var x := c as int; x == 36 || 48 <= x < 58 || 65 <= x < 91 || x == 95 || 97 <= x < 123
  {
  }

  ghost predicate Blank(s: string) {
    forall c | c in s :: JsSpace(c)
  }

  /** A word of its own at the end, with blanks behind it at most. */
  ghost predicate EndsWithWord(out: string, w: string) {
    exists front, blanks :: WordStands(out, front, w, blanks)
  }

  ghost predicate WordStands(out: string, front: string, w: string, blanks: string) {
    out == front + w + blanks && Blank(blanks) && (front == "" || !WordChar(front[|front| - 1]))
  }

  lemma {:induction false} TrimEndSplits(s: string) returns (blanks: string)
    ensures s == TrimEnd(s) + blanks && Blank(blanks)
    ensures TrimEnd(s) != "" ==> !JsSpace(TrimEnd(s)[|TrimEnd(s)| - 1])
  {
    hide JsSpace;
    blanks := "";
    if s != "" && JsSpace(s[|s| - 1]) {
      var rest := TrimEndSplits(s[..|s| - 1]);
      blanks := rest + [s[|s| - 1]];
      assert s == TrimEnd(s) + blanks;
    }
  }

  lemma {:induction false} TrimEndIsExact(core: string, blanks: string)
    requires Blank(blanks) && core != "" && !JsSpace(core[|core| - 1])
    ensures TrimEnd(core + blanks) == core
  {
    hide JsSpace;
    if blanks == "" {
      assert core + blanks == core;
    } else {
      assert blanks[|blanks| - 1] in blanks;
      assert (core + blanks)[..|core + blanks| - 1] == core + blanks[..|blanks| - 1];
      TrimEndIsExact(core, blanks[..|blanks| - 1]);
    }
  }

  /** The keywords, none of which ends with a blank. */
  lemma KeywordsAre(w: string)
    ensures w in REGEX_KEYWORDS <==> w in {"return", "typeof", "case", "do", "else", "in", "of", "void", "yield", "await"}
    ensures w in REGEX_KEYWORDS ==> w != "" && !JsSpace(w[|w| - 1])
  {
  }

  lemma KeywordIsAtEnd(s: string, blanks: string)
    requires EndsInKeyword(s) && Blank(blanks)
    ensures exists w :: w in REGEX_KEYWORDS && EndsWithWord(s + blanks, w)
  {
    hide JsSpace, WordChar, Blank, REGEX_KEYWORDS;
    var w :| w in REGEX_KEYWORDS && |w| <= |s| && s[|s| - |w|..] == w && (|w| == |s| || !WordChar(s[|s| - |w| - 1]));
    var front := s[..|s| - |w|];
    assert s == front + w;
    assert WordStands(s + blanks, front, w, blanks);
  }

  lemma WordIsKeyword(front: string, w: string, tail: string)
    requires w in REGEX_KEYWORDS && Blank(tail) && (front == "" || !WordChar(front[|front| - 1]))
    ensures EndsInKeyword(TrimEnd(front + w + tail))
  {
    KeywordsAre(w);
    hide JsSpace, WordChar, Blank, REGEX_KEYWORDS, TrimEnd;
    var s := front + w;
    TrimEndIsExact(s, tail);
    assert s[|s| - |w|..] == w;
    assert front != "" ==> s[|s| - |w| - 1] == front[|front| - 1];
  }

  lemma KeywordEndsExactlyWhen(out: string)
    ensures EndsInKeyword(TrimEnd(out)) <==> exists w :: w in REGEX_KEYWORDS && EndsWithWord(out, w)
  {
    hide JsSpace, WordChar, Blank, REGEX_KEYWORDS, EndsInKeyword, TrimEnd;
    var blanks := TrimEndSplits(out);
    if EndsInKeyword(TrimEnd(out)) {
      KeywordIsAtEnd(TrimEnd(out), blanks);
    }
    if w :| w in REGEX_KEYWORDS && EndsWithWord(out, w) {
      var front, tail :| WordStands(out, front, w, tail);
      WordIsKeyword(front, w, tail);
    }
  }

  /** A slash starts a regular expression at the beginning, behind one of these characters, and behind one of these
      words; nowhere else. */
  lemma RegexStartsExactlyWhen(lastSig: Option<char>, out: string)
    ensures StartsRegex(lastSig, out) <==>
            || lastSig == None
            || lastSig.value in {'(', ',', '=', ':', '[', '!', '&', '|', '?', '{', '}', ';', '+', '-', '*', '%', '<', '>', '~', '^'}
            || exists w :: w in {"return", "typeof", "case", "do", "else", "in", "of", "void", "yield", "await"} && EndsWithWord(out, w)
  {
    hide EndsWithWord, EndsInKeyword, TrimEnd;
    KeywordEndsExactlyWhen(out);
    forall w
      ensures w in REGEX_KEYWORDS <==> w in {"return", "typeof", "case", "do", "else", "in", "of", "void", "yield", "await"}
    {
      KeywordsAre(w);
    }
  }

  // --- Svelte ----------------------------------------------------------------------------------

  /** An opening tag of a script or style block: the name, then text that holds no `>` and does not go on with the
      name, then `>`. */
  ghost predicate TagStands(src: string, i: nat, tag: string, attrs: string) {
    && (tag == "script" || tag == "style")
    && i + |tag| + |attrs| + 2 <= |src| && src[i..i + |tag| + |attrs| + 2] == "<" + tag + attrs + ">"
    && '>' !in attrs && (attrs != "" ==> !WordChar(attrs[0]) || attrs[0] == '$')
    && |tag| + |attrs| + 2 <= 200
  }

  /** What stands where in the text of a tag. */
  lemma TagText(tag: string, attrs: string)
    requires '>' !in attrs
    ensures var (n, whole) := (|tag| + 1, "<" + tag + attrs + ">");
            && |whole| == n + |attrs| + 1 && whole[..n] == "<" + tag && whole[n + |attrs|] == '>'
            && (forall k | n <= k < n + |attrs| :: whole[k] != '>')
            && whole[n] == if attrs == "" then '>' else attrs[0]
  {
    var (n, whole) := (|tag| + 1, "<" + tag + attrs + ">");
    forall k | n <= k < n + |attrs|
      ensures whole[k] != '>'
    {
      assert whole[k] == attrs[k - n] && attrs[k - n] in attrs;
    }
  }

  lemma WindowHolds(src: string, i: nat, tag: string, attrs: string)
    requires i < |src| && TagStands(src, i, tag, attrs)
    ensures var window := src[i..Clip(src, i + 200)];
            var n := |tag| + 1;
            && At(window, 0, "<" + tag) && n + |attrs| < |window|
            && IndexOf(window, ">", n) == n + |attrs|
            && window[n] == if attrs == "" then '>' else attrs[0]
  {
    hide WordChar, At;
    var window := src[i..Clip(src, i + 200)];
    var (n, whole) := (|tag| + 1, "<" + tag + attrs + ">");
    TagText(tag, attrs);
    assert window[..|whole|] == src[i..i + |whole|] == whole;
    WindowStartsWith(window, whole, n, |attrs|);
  }

  lemma WindowStartsWith(window: string, whole: string, n: nat, m: nat)
    requires |whole| == n + m + 1 <= |window| && window[..|whole|] == whole && whole[n + m] == '>'
    requires forall k | n <= k < n + m :: whole[k] != '>'
    ensures At(window, 0, whole[..n]) && IndexOf(window, ">", n) == n + m && window[n] == whole[n]
  {
    assert forall k | 0 <= k < |whole| :: window[k] == window[..|whole|][k];
    assert window[0..n] == whole[..n];
    GreaterIsAt(window, n, n + m);
  }

  lemma OneTagOnly(window: string)
    requires At(window, 0, "<style")
    ensures !At(window, 0, "<script")
  {
    assert window[0..6][2] == "<style"[2] == 't' && "<script"[2] == 'c';
    assert |window| >= 7 ==> window[0..7][2] == window[2] == window[0..6][2];
  }

  lemma TagIsFound(src: string, i: nat, tag: string, attrs: string)
    requires i < |src| && TagStands(src, i, tag, attrs)
    ensures BlockTag(src, i) == Some((tag, i + |tag| + |attrs| + 2))
  {
    WindowHolds(src, i, tag, attrs);
    var window := src[i..Clip(src, i + 200)];
    assert !WordChar('>');
    hide At, IndexOf, WordChar;
    if tag == "style" {
      assert "<" + tag == "<style";
      OneTagOnly(window);
    } else {
      assert "<" + tag == "<script";
    }
  }

  lemma GreaterIsAt(text: string, from: nat, at: nat)
    requires from <= at < |text| && text[at] == '>' && forall k | from <= k < at :: text[k] != '>'
    ensures IndexOf(text, ">", from) == at
  {
    var j := IndexOf(text, ">", from);
    assert At(text, at, ">");
    if j < |text| {
      assert text[j..j + 1][0] == text[j];
    }
  }

  /** A block begins exactly where such a tag stands, and its body behind it. */
  lemma BlockTagExactlyWhen(src: string, i: nat, tag: string, end: nat)
    requires i < |src|
    ensures BlockTag(src, i) == Some((tag, end)) <==> exists attrs :: TagStands(src, i, tag, attrs) && end == i + |tag| + |attrs| + 2
  {
    hide WordChar, BlockTag;
    if BlockTag(src, i) == Some((tag, end)) {
      var attrs := FoundTagStands(src, i);
      assert TagStands(src, i, tag, attrs);
    }
    if attrs :| TagStands(src, i, tag, attrs) && end == i + |tag| + |attrs| + 2 {
      TagIsFound(src, i, tag, attrs);
    }
  }

  lemma FoundTagStands(src: string, i: nat) returns (attrs: string)
    requires i < |src| && BlockTag(src, i).Some?
    ensures var (tag, end) := BlockTag(src, i).value; TagStands(src, i, tag, attrs) && end == i + |tag| + |attrs| + 2
  {
    hide WordChar;
    var window := src[i..Clip(src, i + 200)];
    var tag := BlockTag(src, i).value.0;
    var n := |tag| + 1;
    var close := IndexOf(window, ">", n);
    attrs := window[n..close];
    var whole := "<" + tag + attrs + ">";
    assert At(window, 0, "<" + tag) && window[..n] == "<" + tag;
    assert window[close..close + 1] == ">" && window[close] == '>';
    assert window[..close + 1] == whole;
    assert src[i..i + close + 1] == window[..close + 1];
    forall k | n <= k < close
      ensures window[k] != '>'
    {
      assert !At(window, k, ">");
      assert window[k..k + 1] != ">";
    }
  }

  /** A closing tag of the markup ends behind the next brace, or with the text. */
  lemma BehindBraceIsExact(src: string, i: nat, j: nat)
    requires i <= j < |src| && src[j] == '}' && forall k | i <= k < j :: src[k] != '}'
    ensures BehindBrace(src, i) == j + 1
  {
    var found := IndexOf(src, "}", i);
    assert At(src, j, "}");
    if found < |src| {
      assert src[found..found + 1][0] == src[found];
    }
  }

  lemma NoBraceIsTheEnd(src: string, i: nat)
    requires i <= |src| && forall k | i <= k < |src| :: src[k] != '}'
    ensures BehindBrace(src, i) == |src|
  {
    forall k | i <= k < |src|
      ensures !At(src, k, "}")
    {
      assert src[k..k + 1][0] == src[k];
    }
    assert IndexOf(src, "}", i) == |src|;
  }
}
