/** Blanking the comments of JavaScript and Svelte sources. The source is cut into pieces, each of them a
    comment, a literal, a bit of template text or a single character at which no comment starts; comments
    become spaces, everything else stays where it is. A character is a Unicode scalar value; the program counts
    UTF-16 units, so a character beyond the basic plane counts once here and twice there. */
module CommentStripper {
  import opened LibraryStore

  // --- pieces -------------------------------------------------------------------------

  predicate At(src: string, i: nat, p: string) {
    i + |p| <= |src| && src[i..i + |p|] == p
  }

  /** A region from an opener to the first closer behind it, or to the end of the text when there is none. */
  predicate Delimited(text: string, s: nat, e: nat, open: string, close: string) {
    && At(text, s, open)
    && (|| (s + |open| + |close| <= e <= |text| && At(text, e - |close|, close)
            && forall i | s + |open| <= i < e - |close| :: !At(text, i, close))
        || (e == |text| && forall i | s + |open| <= i < |text| :: !At(text, i, close)))
  }

  /** To the end of its line. */
  predicate LineComment(text: string, s: nat, e: nat) {
    At(text, s, "//") && s < e <= |text| && (e == |text| || text[e] == '\n') && forall k | s <= k < e :: text[k] != '\n'
  }

  function Clip(text: string, i: nat): nat {
    if i < |text| then i else |text|
  }

  /** Where a string literal stops: at its quote, at a newline, or behind the end. */
  function StringStop(text: string, j: nat, quote: char): nat
    decreases |text| - j
  {
    if j >= |text| || text[j] == quote || text[j] == '\n' then j
    else StringStop(text, j + (if text[j] == '\\' then 2 else 1), quote)
  }

  /** Where a regular expression stops: at a slash outside a class, at a newline, or behind the end. */
  function RegexStop(text: string, j: nat, inClass: bool): nat
    decreases |text| - j
  {
    if j >= |text| || text[j] == '\n' then j
    else if text[j] == '\\' then RegexStop(text, j + 2, inClass)
    else if text[j] == '[' then RegexStop(text, j + 1, true)
    else if text[j] == ']' then RegexStop(text, j + 1, false)
    else if text[j] == '/' && !inClass then j
    else RegexStop(text, j + 1, inClass)
  }

  /** Where template text ends: behind its backtick, or (true) behind the `${` of an interpolation. */
  function TemplateEnd(text: string, j: nat): (nat, bool)
    decreases |text| - j
  {
    if j >= |text| then (|text|, false)
    else if text[j] == '\\' then TemplateEnd(text, j + 2)
    else if text[j] == '`' then (j + 1, false)
    else if text[j] == '$' && j + 1 < |text| && text[j + 1] == '{' then (j + 2, true)
    else TemplateEnd(text, j + 1)
  }

  datatype Kind = Comment | Str | Regex | Template | Plain | Css | Markup | Tag

  /** `limit`: where the text ends that the piece belongs to, the source or a script or style block in it. */
  datatype Piece = Piece(from: nat, to: nat, limit: nat, kind: Kind)

  predicate Is(text: string, s: nat, e: nat, kind: Kind) {
    && s < e <= |text|
    && match kind
       case Comment => LineComment(text, s, e) || Delimited(text, s, e, "/*", "*/") || Delimited(text, s, e, "<!--", "-->")
       case Str => (text[s] == '"' || text[s] == '\'') && e == Clip(text, StringStop(text, s + 1, text[s]) + 1)
       case Regex => text[s] == '/' && !At(text, s, "//") && !At(text, s, "/*") && e == Clip(text, RegexStop(text, s + 1, false) + 1)
       case Template => (text[s] == '`' || text[s] == '}') && e == TemplateEnd(text, s + 1).0
       case Plain => e == s + 1 && !At(text, s, "//") && !At(text, s, "/*") && text[s] != '"' && text[s] != '\'' && text[s] != '`'
       case Css => e == s + 1 && (At(text, s, "/*") ==> forall i | s + 2 <= i < |text| :: !At(text, i, "*/"))
       case Markup => e == s + 1 && !At(text, s, "<!--") && text[s] != '{'
       case Tag => !At(text, s, "<!--")
  }

  ghost predicate Sound(src: string, p: Piece) {
    p.limit <= |src| && Is(src[..p.limit], p.from, p.to, p.kind)
  }

  ghost predicate Tiles(pieces: seq<Piece>, a: nat, b: nat) {
    if pieces == [] then a == b
    else
      var last := pieces[|pieces| - 1];
      a <= last.from < last.to == b && Tiles(pieces[..|pieces| - 1], a, last.from)
  }

  ghost predicate InComment(pieces: seq<Piece>, k: int) {
    exists p :: p in pieces && p.kind.Comment? && p.from <= k < p.to
  }

  /** `out` stands for the source from `a` to `b`: sound pieces tile it; it is blank, but for newlines, in the
      comments, and as it was everywhere else. */
  ghost predicate Stripped(src: string, a: nat, b: nat, out: string, pieces: seq<Piece>) {
    && a <= b <= |src| && |out| == b - a && Tiles(pieces, a, b)
    && (forall p | p in pieces :: Sound(src, p))
    && forall k | a <= k < b :: out[k - a] == if InComment(pieces, k) && src[k] != '\n' then ' ' else src[k]
  }

  /** What a reader of the stripped text may rely on: same length, newlines where they were, and every other
      character unchanged or a space that stands for a character of a comment. */
  lemma PositionsStay(src: string, out: string, pieces: seq<Piece>)
    requires Stripped(src, 0, |src|, out, pieces)
    ensures |out| == |src|
    ensures forall k | 0 <= k < |src| :: out[k] == src[k] || (out[k] == ' ' && src[k] != '\n' && InComment(pieces, k))
    ensures forall k | 0 <= k < |src| && src[k] == '\n' :: out[k] == '\n'
    ensures forall k | 0 <= k < |src| && InComment(pieces, k) :: out[k] == ' ' || out[k] == '\n'
  {
    forall k | 0 <= k < |src|
      ensures out[k] == if InComment(pieces, k) && src[k] != '\n' then ' ' else src[k]
    {
      assert out[k - 0] == if InComment(pieces, k) && src[k] != '\n' then ' ' else src[k];
    }
  }

  lemma {:induction false} PiecesLieInside(pieces: seq<Piece>, a: nat, b: nat)
    requires Tiles(pieces, a, b)
    ensures a <= b && forall p | p in pieces :: a <= p.from < p.to <= b
  {
    if pieces != [] {
      var init, last := pieces[..|pieces| - 1], pieces[|pieces| - 1];
      PiecesLieInside(init, a, last.from);
      assert pieces == init + [last];
    }
  }

  lemma {:induction false} TilesAppend(p: seq<Piece>, q: seq<Piece>, a: nat, b: nat, c: nat)
    requires Tiles(p, a, b) && Tiles(q, b, c)
    ensures Tiles(p + q, a, c)
  {
    PiecesLieInside(p, a, b);
    if q == [] {
      assert p + q == p;
    } else {
      var init, last := q[..|q| - 1], q[|q| - 1];
      PiecesLieInside(init, b, last.from);
      TilesAppend(p, init, a, b, last.from);
      assert (p + q)[..|p + q| - 1] == p + init;
    }
  }

  lemma StrippedAppends(src: string, a: nat, b: nat, c: nat, out: string, pieces: seq<Piece>, more: string, morePieces: seq<Piece>)
    requires Stripped(src, a, b, out, pieces) && Stripped(src, b, c, more, morePieces)
    ensures Stripped(src, a, c, out + more, pieces + morePieces)
  {
    var all := out + more;
    TilesAppend(pieces, morePieces, a, b, c);
    PiecesLieInside(pieces, a, b);
    PiecesLieInside(morePieces, b, c);
    hide Sound, Tiles;
    forall k | a <= k < c
      ensures all[k - a] == if InComment(pieces + morePieces, k) && src[k] != '\n' then ' ' else src[k]
    {
      CommentInEither(pieces, morePieces, k);
      if k < b {
        assert all[k - a] == out[k - a] && !InComment(morePieces, k);
      } else {
        assert all[k - a] == more[k - b] && !InComment(pieces, k);
      }
    }
  }

  lemma CommentInEither(p: seq<Piece>, q: seq<Piece>, k: int)
    ensures InComment(p + q, k) <==> InComment(p, k) || InComment(q, k)
  {
    assert forall x :: x in p + q <==> x in p || x in q;
  }

  function Blank(s: string): (r: string)
    ensures |r| == |s|
    ensures forall i | 0 <= i < |s| :: r[i] == if s[i] == '\n' then '\n' else ' '
  {
    seq(|s|, i requires 0 <= i < |s| => if s[i] == '\n' then '\n' else ' ')
  }

  /** One piece of the source itself. */
  lemma OnePiece(src: string, a: nat, b: nat, kind: Kind)
    requires Is(src, a, b, kind)
    ensures Stripped(src, a, b, if kind.Comment? then Blank(src[a..b]) else src[a..b], [Piece(a, b, |src|, kind)])
  {
    var p := Piece(a, b, |src|, kind);
    assert src[..|src|] == src;
    assert Tiles([p][..0], a, a);
    assert Sound(src, p);
    hide Is, Sound;
    forall k | a <= k < b
      ensures InComment([p], k) <==> kind.Comment?
      ensures src[a..b][k - a] == src[k]
    {
      assert p in [p];
    }
  }

  lemma NoPiece(src: string, a: nat)
    requires a <= |src|
    ensures Stripped(src, a, a, "", [])
  {
  }

  // --- searching --------------------------------------------------------------------------

  /** `indexOf` from a position; the length of the text when there is none. */
  function IndexOf(text: string, p: string, from: nat): (i: nat)
    requires p != []
    ensures i <= |text| && (i < |text| ==> i >= from && At(text, i, p))
    ensures forall k | from <= k < i :: !At(text, k, p)
    decreases |text| - from
  {
    if from >= |text| then |text| else if At(text, from, p) then from else IndexOf(text, p, from + 1)
  }

  method ReadLineComment(src: string, i: nat) returns (piece: string, next: nat)
    requires At(src, i, "//")
    ensures i < next <= |src| && Stripped(src, i, next, piece, [Piece(i, next, |src|, Comment)])
  {
    next := IndexOf(src, "\n", i);
    assert src[i..i + 2][0] == src[i] && src[i] == '/';
    forall k: nat | i <= k < next
      ensures src[k] != '\n'
    {
      assert !At(src, k, "\n") && src[k..k + 1] == [src[k]];
    }
    assert next < |src| ==> src[next..next + 1][0] == src[next];
    OnePiece(src, i, next, Comment);
    piece := Blank(src[i..next]);
  }

  method ReadRegion(src: string, i: nat, open: string, close: string) returns (piece: string, next: nat)
    requires At(src, i, open)
    requires (open == "/*" && close == "*/") || (open == "<!--" && close == "-->")
    ensures i < next <= |src| && Delimited(src, i, next, open, close) && piece == Blank(src[i..next])
    ensures Stripped(src, i, next, piece, [Piece(i, next, |src|, Comment)])
  {
    var j := IndexOf(src, close, i + |open|);
    next := if j < |src| then j + |close| else |src|;
    assert Delimited(src, i, next, open, close) by {
      hide IndexOf;
    }
    OnePiece(src, i, next, Comment);
    piece := Blank(src[i..next]);
  }

  method ReadString(src: string, i: nat) returns (piece: string, next: nat)
    requires i < |src| && (src[i] == '"' || src[i] == '\'')
    ensures next > i && Stripped(src, i, Clip(src, next), piece, [Piece(i, Clip(src, next), |src|, Str)])
  {
    var j := i + 1;
    while j < |src| && src[j] != src[i] && src[j] != '\n'
      invariant j > i && StringStop(src, i + 1, src[i]) == StringStop(src, j, src[i])
      decreases |src| - j
    {
      j := j + if src[j] == '\\' then 2 else 1;
    }
    next := j + 1;
    OnePiece(src, i, Clip(src, next), Str);
    piece := src[i..Clip(src, next)];
  }

  method ReadRegex(src: string, i: nat) returns (piece: string, next: nat)
    requires i < |src| && src[i] == '/' && !At(src, i, "//") && !At(src, i, "/*")
    ensures next > i && Stripped(src, i, Clip(src, next), piece, [Piece(i, Clip(src, next), |src|, Regex)])
  {
    var j := i + 1;
    var inClass := false;
    while j < |src| && src[j] != '\n'
      invariant j > i && RegexStop(src, i + 1, false) == RegexStop(src, j, inClass)
      decreases |src| - j
    {
      if src[j] == '\\' {
        j := j + 2;
        continue;
      }
      if src[j] == '[' {
        inClass := true;
      } else if src[j] == ']' {
        inClass := false;
      } else if src[j] == '/' && !inClass {
        break;
      }
      j := j + 1;
    }
    next := j + 1;
    OnePiece(src, i, Clip(src, next), Regex);
    piece := src[i..Clip(src, next)];
  }

  lemma {:induction false} TemplateGoesOn(text: string, j: nat)
    ensures TemplateEnd(text, j).0 <= |text| && (j <= |text| ==> TemplateEnd(text, j).0 >= j)
    decreases |text| - j
  {
    if j < |text| && text[j] == '\\' {
      TemplateGoesOn(text, j + 2);
    } else if j < |text| && text[j] != '`' {
      TemplateGoesOn(text, j + 1);
    }
  }

  /** Template text, to its closing backtick (`entered` is false) or behind the `${` of the next interpolation. */
  method ReadTemplate(src: string, i: nat) returns (next: nat, entered: bool)
    requires i <= |src|
    ensures (next, entered) == TemplateEnd(src, i)
  {
    var j := i;
    while j < |src|
      invariant TemplateEnd(src, i) == TemplateEnd(src, j)
      decreases |src| - j
    {
      if src[j] == '\\' {
        j := j + 2;
        continue;
      }
      if src[j] == '`' {
        return j + 1, false;
      }
      if src[j] == '$' && j + 1 < |src| && src[j + 1] == '{' {
        return j + 2, true;
      }
      j := j + 1;
    }
    return |src|, false;
  }

  // --- JavaScript -----------------------------------------------------------------------------

  const REGEX_PRECEDERS := "(,=:[!&|?{};+-*%<>~^"
  const REGEX_KEYWORDS := ["return", "typeof", "case", "do", "else", "in", "of", "void", "yield", "await"]

  predicate JsSpace(c: char) {
    || '\t' <= c <= '\r' || c == ' ' || c == '\U{a0}' || c == '\U{1680}' || '\U{2000}' <= c <= '\U{200a}'
    || c == '\U{2028}' || c == '\U{2029}' || c == '\U{202f}' || c == '\U{205f}' || c == '\U{3000}' || c == '\U{feff}'
  }

  predicate WordChar(c: char) {
    'a' <= c <= 'z' || 'A' <= c <= 'Z' || '0' <= c <= '9' || c == '_' || c == '$'
  }

  function TrimEnd(s: string): string {
    if s != [] && JsSpace(s[|s| - 1]) then TrimEnd(s[..|s| - 1]) else s
  }

  predicate EndsInKeyword(s: string) {
    exists w | w in REGEX_KEYWORDS ::
      |w| <= |s| && s[|s| - |w|..] == w && (|w| == |s| || !WordChar(s[|s| - |w| - 1]))
  }

  /** Whether a slash starts a regular expression here. `lastSig` is the last significant character, `a` for a
      word or a literal; `None` at the start. */
  predicate StartsRegex(lastSig: Option<char>, out: string) {
    lastSig.None? || lastSig.value in REGEX_PRECEDERS || EndsInKeyword(TrimEnd(out))
  }

  /** Where the scanner stands: how many braces are open, at which depths interpolations were opened, and the last
      significant character. */
  datatype Context = Context(depth: int, templates: seq<int>, lastSig: Option<char>)

  const OUTSIDE := Context(0, [], None)

  /** A closing brace here goes back into the text of a template. */
  predicate ClosesInterpolation(c: Context) {
    c.templates != [] && c.templates[|c.templates| - 1] == c.depth - 1
  }

  /** What the piece is that starts at `i`, behind the stripped text `out`. */
  function KindAt(text: string, i: nat, c: Context, out: string): Kind
    requires i < |text|
  {
    if At(text, i, "//") || At(text, i, "/*") then Comment
    else if text[i] == '"' || text[i] == '\'' then Str
    else if text[i] == '`' || (text[i] == '}' && ClosesInterpolation(c)) then Template
    else if text[i] == '/' && StartsRegex(c.lastSig, out) then Regex
    else Plain
  }

  function BehindTemplate(c: Context, entered: bool): Context {
    if entered then Context(c.depth + 1, c.templates + [c.depth], Some('{')) else c.(lastSig := Some('a'))
  }

  /** Where the scanner stands behind a piece: comments do not count, literals are like words, braces are counted,
      and a template is left or goes on. */
  function Behind(text: string, c: Context, p: Piece): Context {
    if p.from >= |text| || p.kind.Comment? then c
    else
      var x := text[p.from];
      match p.kind
      case Template =>
        var outer := if x == '}' && c.templates != [] then c.(depth := c.depth - 1, templates := c.templates[..|c.templates| - 1]) else c;
        BehindTemplate(outer, TemplateEnd(text, p.from + 1).1)
      case Plain =>
        Context(c.depth + (if x == '{' then 1 else if x == '}' then -1 else 0), c.templates,
                if JsSpace(x) then c.lastSig else Some(if WordChar(x) then 'a' else x))
      case _ => c.(lastSig := Some('a'))
  }

  function ContextAfter(text: string, pieces: seq<Piece>): Context {
    if pieces == [] then OUTSIDE
    else Behind(text, ContextAfter(text, pieces[..|pieces| - 1]), pieces[|pieces| - 1])
  }

  /** The brace that closes the expression the scanner was called for. */
  predicate ClosesExpression(text: string, i: nat, c: Context) {
    i < |text| && text[i] == '}' && !ClosesInterpolation(c) && c.depth == 0
  }

  /** Piece `n` is of the kind that everything before it calls for, and does not start where scanning ends. */
  ghost predicate RightKind(text: string, start: nat, untilBrace: bool, out: string, pieces: seq<Piece>, n: nat)
    requires n < |pieces|
  {
    var p, c := pieces[n], ContextAfter(text, pieces[..n]);
    && start <= p.from < |text| && p.from - start <= |out| && p.limit == |text|
    && p.kind == KindAt(text, p.from, c, out[..p.from - start])
    && !(untilBrace && ClosesExpression(text, p.from, c))
  }

  /** `out` is the code from `start` to `end`, stripped, and `pieces` is how it is read: each piece is what its
      place makes it, and the reading ends at the end of the text or at the brace that closes the expression,
      not before and not behind. */
  ghost predicate JsStripped(text: string, start: nat, untilBrace: bool, out: string, end: nat, pieces: seq<Piece>) {
    && start <= end && Stripped(text, start, Clip(text, end), out, pieces)
    && (forall n | 0 <= n < |pieces| :: RightKind(text, start, untilBrace, out, pieces, n))
    && (end >= |text| || (untilBrace && ClosesExpression(text, end, ContextAfter(text, pieces))))
  }

  lemma NextPieceIsRight(
      text: string, start: nat, untilBrace: bool, out: string, pieces: seq<Piece>, piece: string, p: Piece)
    requires forall n | 0 <= n < |pieces| :: RightKind(text, start, untilBrace, out, pieces, n)
    requires start <= p.from < |text| && p.from - start == |out| && p.limit == |text|
    requires p.kind == KindAt(text, p.from, ContextAfter(text, pieces), out)
    requires !(untilBrace && ClosesExpression(text, p.from, ContextAfter(text, pieces)))
    ensures var more := pieces + [p];
            && (forall n | 0 <= n < |more| :: RightKind(text, start, untilBrace, out + piece, more, n))
            && ContextAfter(text, more) == Behind(text, ContextAfter(text, pieces), p)
  {
    var more := pieces + [p];
    assert more[..|pieces|] == pieces && (out + piece)[..|out|] == out;
    assert ContextAfter(text, more) == Behind(text, ContextAfter(text, pieces), p);
    hide KindAt, ContextAfter, ClosesExpression;
    forall n | 0 <= n < |pieces|
      ensures RightKind(text, start, untilBrace, out + piece, more, n)
    {
      RightKindStays(text, start, untilBrace, out, pieces, piece, p, n);
    }
  }

  lemma RightKindStays(
      text: string, start: nat, untilBrace: bool, out: string, pieces: seq<Piece>, piece: string, p: Piece, n: nat)
    requires n < |pieces| && RightKind(text, start, untilBrace, out, pieces, n)
    ensures RightKind(text, start, untilBrace, out + piece, pieces + [p], n)
  {
    hide KindAt, ContextAfter, ClosesExpression;
    assert (pieces + [p])[..n] == pieces[..n];
    var k := pieces[n].from - start;
    assert (out + piece)[..k] == out[..k];
  }

  lemma TakePiece(text: string, start: nat, untilBrace: bool, out: string, pieces: seq<Piece>, piece: string, p: Piece)
    requires Stripped(text, start, p.from, out, pieces) && Stripped(text, p.from, p.to, piece, [p])
    requires forall n | 0 <= n < |pieces| :: RightKind(text, start, untilBrace, out, pieces, n)
    requires p.from < |text| && p.limit == |text|
    requires p.kind == KindAt(text, p.from, ContextAfter(text, pieces), out)
    requires !(untilBrace && ClosesExpression(text, p.from, ContextAfter(text, pieces)))
    ensures var more := pieces + [p];
            && Stripped(text, start, p.to, out + piece, more)
            && (forall n | 0 <= n < |more| :: RightKind(text, start, untilBrace, out + piece, more, n))
            && ContextAfter(text, more) == Behind(text, ContextAfter(text, pieces), p)
  {
    hide *;
    StrippedSize(text, start, p.from, out, pieces);
    NextPieceIsRight(text, start, untilBrace, out, pieces, piece, p);
    StrippedAppends(text, start, p.from, p.to, out, pieces, piece, [p]);
  }

  lemma PlainPiece(text: string, i: nat)
    requires i < |text| && !At(text, i, "//") && !At(text, i, "/*") && text[i] != '"' && text[i] != '\'' && text[i] != '`'
    ensures Stripped(text, i, i + 1, [text[i]], [Piece(i, i + 1, |text|, Plain)])
  {
    hide Stripped, At;
    OnePiece(text, i, i + 1, Plain);
    assert text[i..i + 1] == [text[i]];
  }

  lemma SlashOpens(text: string, i: nat)
    requires At(text, i, "//") || At(text, i, "/*")
    ensures i < |text| && text[i] == '/'
  {
    assert text[i..i + 2][0] == text[i];
  }

  /** Code from `start` on, to the end or, for a Svelte expression, to the brace that closes it. */
  method StripJsFrom(src: string, start: nat, untilBrace: bool) returns (out: string, end: nat, ghost pieces: seq<Piece>)
    requires start <= |src|
    ensures JsStripped(src, start, untilBrace, out, end, pieces)
  {
    hide Stripped, StartsRegex, JsSpace, WordChar, At, TemplateEnd, Is;
    out, end, pieces := "", start, [];
    var depth: int := 0;
    var lastSig: Option<char> := None;
    var templates: seq<int> := [];
    NoPiece(src, start);
    while end < |src|
      invariant start <= end && Stripped(src, start, Clip(src, end), out, pieces)
      invariant forall n | 0 <= n < |pieces| :: RightKind(src, start, untilBrace, out, pieces, n)
      invariant Context(depth, templates, lastSig) == ContextAfter(src, pieces)
      decreases |src| - end
    {
      hide RightKind, ContextAfter;
      var i, c := end, src[end];
      ghost var before := Context(depth, templates, lastSig);
      var piece, next := [c], i + 1;
      ghost var kind := Plain;
      var sig := if JsSpace(c) then lastSig else Some(if WordChar(c) then 'a' else c);
      if At(src, i, "//") {
        SlashOpens(src, i);
        piece, next := ReadLineComment(src, i);
        kind, sig := Comment, lastSig;
      } else if At(src, i, "/*") {
        SlashOpens(src, i);
        piece, next := ReadRegion(src, i, "/*", "*/");
        kind, sig := Comment, lastSig;
      } else if c == '"' || c == '\'' {
        piece, next := ReadString(src, i);
        kind, sig := Str, Some('a');
      } else if c == '`' {
        piece, next, templates, depth, sig := StepThroughTemplate(src, i, templates, depth);
        kind := Template;
      } else if c == '/' && StartsRegex(lastSig, out) {
        piece, next := ReadRegex(src, i);
        kind, sig := Regex, Some('a');
      } else if c == '}' && templates != [] && templates[|templates| - 1] == depth - 1 {
        piece, next, templates, depth, sig := StepThroughTemplate(src, i, templates[..|templates| - 1], depth - 1);
        kind := Template;
      } else if c == '}' && untilBrace && depth == 0 {
        return;
      } else {
        depth := depth + if c == '{' then 1 else if c == '}' then -1 else 0;
        PlainPiece(src, i);
      }
      ghost var p := Piece(i, Clip(src, next), |src|, kind);
      assert Context(depth, templates, sig) == Behind(src, before, p);
      TakePiece(src, start, untilBrace, out, pieces, piece, p);
      out, pieces, end, lastSig := out + piece, pieces + [p], next, sig;
    }
  }

  lemma StrippedSize(src: string, a: nat, b: nat, out: string, pieces: seq<Piece>)
    requires Stripped(src, a, b, out, pieces)
    ensures a <= b <= |src| && |out| == b - a
  {
  }

  /** A backtick, or the brace that closes an interpolation, and the template text behind it. */
  method StepThroughTemplate(src: string, i: nat, templates: seq<int>, depth: int)
    returns (piece: string, next: nat, newTemplates: seq<int>, newDepth: int, sig: Option<char>)
    requires i < |src| && (src[i] == '`' || src[i] == '}')
    ensures i < next <= |src| && Stripped(src, i, next, piece, [Piece(i, next, |src|, Template)])
    ensures var entered := TemplateEnd(src, i + 1).1;
            && newTemplates == (if entered then templates + [depth] else templates)
            && newDepth == (if entered then depth + 1 else depth)
            && sig == Some(if entered then '{' else 'a')
  {
    var entered;
    TemplateGoesOn(src, i + 1);
    next, entered := ReadTemplate(src, i + 1);
    OnePiece(src, i, next, Template);
    piece := src[i..next];
    if entered {
      return piece, next, templates + [depth], depth + 1, Some('{');
    }
    return piece, next, templates, depth, Some('a');
  }

  /** A script has the same length and the same lines without its comments. */
  method StripJsComments(src: string) returns (out: string)
    ensures exists pieces :: JsStripped(src, 0, false, out, |src|, pieces)
    ensures |out| == |src| && forall k | 0 <= k < |src| :: out[k] == src[k] || (out[k] == ' ' && src[k] != '\n')
  {
    var end;
    ghost var pieces;
    out, end, pieces := StripJsFrom(src, 0, false);
    PositionsStay(src, out, pieces);
    hide Stripped, RightKind, ContextAfter;
    assert JsStripped(src, 0, false, out, |src|, pieces);
  }

  lemma JsKinds(text: string, start: nat, untilBrace: bool, out: string, end: nat, pieces: seq<Piece>)
    requires JsStripped(text, start, untilBrace, out, end, pieces)
    ensures Stripped(text, start, Clip(text, end), out, pieces)
    ensures forall p | p in pieces :: p.kind in {Comment, Str, Regex, Template, Plain}
  {
    hide Stripped, RightKind;
    forall p | p in pieces
      ensures p.kind in {Comment, Str, Regex, Template, Plain}
    {
      var n :| 0 <= n < |pieces| && pieces[n] == p;
      PieceFacts(text, start, untilBrace, out, end, pieces, n);
    }
  }

  // --- the reading is unique ------------------------------------------------------------------------

  lemma DelimitedEnd(text: string, s: nat, e: nat, open: string, close: string)
    requires Delimited(text, s, e, open, close) && close != []
    ensures var j := IndexOf(text, close, s + |open|); e == if j < |text| then j + |close| else |text|
  {
    hide IndexOf;
    var j := IndexOf(text, close, s + |open|);
    assert e >= s + |open| + |close| && At(text, e - |close|, close) ==> j <= e - |close|;
  }

  lemma CommentOpens(text: string, s: nat, e: nat)
    requires Is(text, s, e, Comment)
    ensures LineComment(text, s, e) <==> At(text, s, "//")
    ensures Delimited(text, s, e, "/*", "*/") <==> At(text, s, "/*")
    ensures Delimited(text, s, e, "<!--", "-->") <==> At(text, s, "<!--")
  {
    if At(text, s, "//") {
      assert text[s..s + 2][1] == text[s + 1] == '/';
    }
    if At(text, s, "/*") {
      assert text[s..s + 2][0] == text[s] == '/' && text[s..s + 2][1] == text[s + 1] == '*';
    }
    if At(text, s, "<!--") {
      assert text[s..s + 4][0] == text[s] == '<';
    }
  }

  /** Where a piece starts and its kind decide where it ends. */
  lemma EndIsUnique(text: string, s: nat, e: nat, f: nat, kind: Kind)
    requires Is(text, s, e, kind) && Is(text, s, f, kind) && kind != Tag
    ensures e == f
  {
    if kind == Comment {
      CommentOpens(text, s, e);
      CommentOpens(text, s, f);
      if At(text, s, "/*") {
        DelimitedEnd(text, s, e, "/*", "*/");
        DelimitedEnd(text, s, f, "/*", "*/");
      } else if At(text, s, "<!--") {
        DelimitedEnd(text, s, e, "<!--", "-->");
        DelimitedEnd(text, s, f, "<!--", "-->");
      }
    }
  }

  lemma {:induction false} TilesFollow(pieces: seq<Piece>, a: nat, b: nat, n: nat)
    requires Tiles(pieces, a, b) && n < |pieces|
    ensures pieces[n].from < pieces[n].to <= b
    ensures pieces[n].from == if n == 0 then a else pieces[n - 1].to
    ensures Tiles(pieces[..n], a, pieces[n].from)
    ensures forall m | n < m < |pieces| :: pieces[m].from >= pieces[n].to
    decreases |pieces|
  {
    var before := pieces[..|pieces| - 1];
    var last := pieces[|pieces| - 1];
    PiecesLieInside(before, a, last.from);
    if n < |pieces| - 1 {
      TilesFollow(before, a, last.from, n);
      assert before[..n] == pieces[..n];
      forall m | n < m < |pieces|
        ensures pieces[m].from >= pieces[n].to
      {
        if m < |pieces| - 1 {
          assert before[m] == pieces[m];
        }
      }
    } else {
      assert n > 0 ==> before[n - 1] == pieces[n - 1];
    }
  }

  /** What is stripped in front of piece `n` depends on the pieces in front of it only. */
  lemma PrefixOfOut(text: string, start: nat, b: nat, out: string, pieces: seq<Piece>, n: nat, k: nat)
    requires Stripped(text, start, b, out, pieces) && n < |pieces| && start <= k < pieces[n].from
    ensures pieces[n].from <= b
    ensures out[k - start] == if InComment(pieces[..n], k) && text[k] != '\n' then ' ' else text[k]
  {
    TilesFollow(pieces, start, b, n);
    if InComment(pieces, k) {
      var p :| p in pieces && p.kind.Comment? && p.from <= k < p.to;
      var m :| 0 <= m < |pieces| && pieces[m] == p;
      assert m < n && p in pieces[..n];
    }
  }

  lemma SameStart(a: nat, b: nat, c: nat, pieces: seq<Piece>, more: seq<Piece>, n: nat)
    requires Tiles(pieces, a, b) && Tiles(more, a, c) && n < |pieces| && n < |more| && pieces[..n] == more[..n]
    ensures a <= pieces[n].from == more[n].from && pieces[n].from <= b && more[n].from <= c
  {
    TilesFollow(pieces, a, b, n);
    TilesFollow(more, a, c, n);
    assert n > 0 ==> pieces[n - 1] == pieces[..n][n - 1] == more[..n][n - 1] == more[n - 1];
    PiecesLieInside(pieces[..n], a, pieces[n].from);
  }

  lemma SamePrefix(
      text: string, start: nat, b: nat, c: nat, out: string, other: string, pieces: seq<Piece>, more: seq<Piece>, n: nat)
    requires Stripped(text, start, b, out, pieces) && Stripped(text, start, c, other, more)
    requires n < |pieces| && n < |more| && pieces[..n] == more[..n]
    ensures pieces[n].from == more[n].from >= start
    ensures pieces[n].from - start <= |out| && pieces[n].from - start <= |other|
    ensures out[..pieces[n].from - start] == other[..pieces[n].from - start]
  {
    SameStart(start, b, c, pieces, more, n);
    var k := pieces[n].from;
    StrippedSize(text, start, b, out, pieces);
    StrippedSize(text, start, c, other, more);
    hide Stripped, InComment;
    forall i | 0 <= i < k - start
      ensures out[i] == other[i]
    {
      PrefixOfOut(text, start, b, out, pieces, n, i + start);
      PrefixOfOut(text, start, c, other, more, n, i + start);
    }
  }

  lemma NextPieceIsUnique(
      text: string, start: nat, untilBrace: bool,
      out: string, end: nat, pieces: seq<Piece>, other: string, stop: nat, more: seq<Piece>, n: nat)
    requires JsStripped(text, start, untilBrace, out, end, pieces) && JsStripped(text, start, untilBrace, other, stop, more)
    requires n < |pieces| && n < |more| && pieces[..n] == more[..n]
    ensures pieces[n] == more[n]
  {
    hide *;
    PieceFacts(text, start, untilBrace, out, end, pieces, n);
    PieceFacts(text, start, untilBrace, other, stop, more, n);
    SamePrefix(text, start, Clip(text, end), Clip(text, stop), out, other, pieces, more, n);
    SoundEndIsUnique(text, pieces[n], more[n]);
  }

  lemma PieceFacts(text: string, start: nat, untilBrace: bool, out: string, end: nat, pieces: seq<Piece>, n: nat)
    requires JsStripped(text, start, untilBrace, out, end, pieces) && n < |pieces|
    ensures Stripped(text, start, Clip(text, end), out, pieces)
    ensures var p := pieces[n];
            && Sound(text, p) && p.limit == |text| && p.kind in {Comment, Str, Regex, Template, Plain}
            && start <= p.from < |text| && p.from - start <= |out|
            && p.kind == KindAt(text, p.from, ContextAfter(text, pieces[..n]), out[..p.from - start])
  {
    hide *;
    PieceIsRight(text, start, untilBrace, out, end, pieces, n);
    PieceIsSound(text, start, Clip(text, end), out, pieces, n);
    KindAtIsCode(text, pieces[n].from, ContextAfter(text, pieces[..n]), out[..pieces[n].from - start]);
  }

  lemma PieceIsRight(text: string, start: nat, untilBrace: bool, out: string, end: nat, pieces: seq<Piece>, n: nat)
    requires JsStripped(text, start, untilBrace, out, end, pieces) && n < |pieces|
    ensures Stripped(text, start, Clip(text, end), out, pieces) && RightKind(text, start, untilBrace, out, pieces, n)
    ensures var p := pieces[n];
            && p.limit == |text| && start <= p.from < |text| && p.from - start <= |out|
            && p.kind == KindAt(text, p.from, ContextAfter(text, pieces[..n]), out[..p.from - start])
            && !(untilBrace && ClosesExpression(text, p.from, ContextAfter(text, pieces[..n])))
  {
    hide Stripped, ContextAfter, KindAt, ClosesExpression;
    assert RightKind(text, start, untilBrace, out, pieces, n);
  }

  lemma PieceIsSound(text: string, a: nat, b: nat, out: string, pieces: seq<Piece>, n: nat)
    requires Stripped(text, a, b, out, pieces) && n < |pieces|
    ensures Sound(text, pieces[n])
  {
    hide Sound;
  }

  lemma KindAtIsCode(text: string, i: nat, c: Context, out: string)
    requires i < |text|
    ensures KindAt(text, i, c, out) in {Comment, Str, Regex, Template, Plain}
  {
  }

  lemma SoundEndIsUnique(text: string, p: Piece, q: Piece)
    requires Sound(text, p) && Sound(text, q) && p.from == q.from && p.kind == q.kind != Tag
    requires p.limit == q.limit == |text|
    ensures p == q
  {
    assert text[..|text|] == text;
    hide Is;
    EndIsUnique(text, p.from, p.to, q.to, p.kind);
  }

  lemma {:induction false} ReadingsAgree(
      text: string, start: nat, untilBrace: bool,
      out: string, end: nat, pieces: seq<Piece>, other: string, stop: nat, more: seq<Piece>, n: nat)
    requires JsStripped(text, start, untilBrace, out, end, pieces) && JsStripped(text, start, untilBrace, other, stop, more)
    requires n <= |pieces| && n <= |more|
    ensures pieces[..n] == more[..n]
  {
    hide JsStripped;
    if n > 0 {
      ReadingsAgree(text, start, untilBrace, out, end, pieces, other, stop, more, n - 1);
      NextPieceIsUnique(text, start, untilBrace, out, end, pieces, other, stop, more, n - 1);
      assert pieces[..n] == pieces[..n - 1] + [pieces[n - 1]] && more[..n] == more[..n - 1] + [more[n - 1]];
    }
  }

  lemma NextStart(text: string, start: nat, b: nat, c: nat, out: string, other: string, pieces: seq<Piece>, more: seq<Piece>)
    requires Stripped(text, start, b, out, pieces) && Stripped(text, start, c, other, more)
    requires |pieces| < |more| && more[..|pieces|] == pieces
    ensures more[|pieces|].from == b
  {
    var n := |pieces|;
    TilesFollow(more, start, c, n);
    TilesEnd(pieces, start, b);
    assert n > 0 ==> more[n - 1] == more[..n][n - 1] == pieces[n - 1];
  }

  /** A reading that stops cannot be the beginning of another one. */
  lemma NoneGoesOn(
      text: string, start: nat, untilBrace: bool,
      out: string, end: nat, pieces: seq<Piece>, other: string, stop: nat, more: seq<Piece>)
    requires JsStripped(text, start, untilBrace, out, end, pieces) && JsStripped(text, start, untilBrace, other, stop, more)
    requires |pieces| <= |more| && more[..|pieces|] == pieces
    ensures |pieces| == |more|
  {
    hide Stripped, ContextAfter, ClosesExpression, RightKind;
    if |pieces| < |more| {
      PieceIsRight(text, start, untilBrace, other, stop, more, |pieces|);
      NextStart(text, start, Clip(text, end), Clip(text, stop), out, other, pieces, more);
      assert false;
    }
  }

  lemma TilesEnd(pieces: seq<Piece>, a: nat, b: nat)
    requires Tiles(pieces, a, b)
    ensures b == if pieces == [] then a else pieces[|pieces| - 1].to
  {
  }

  /** The contract of the scanner leaves no choice: a source has one reading, hence one stripped text. */
  lemma ReadingIsUnique(
      text: string, start: nat, untilBrace: bool,
      out: string, end: nat, pieces: seq<Piece>, other: string, stop: nat, more: seq<Piece>)
    requires JsStripped(text, start, untilBrace, out, end, pieces) && JsStripped(text, start, untilBrace, other, stop, more)
    ensures pieces == more && out == other && Clip(text, end) == Clip(text, stop)
  {
    var n := if |pieces| <= |more| then |pieces| else |more|;
    ReadingsAgree(text, start, untilBrace, out, end, pieces, other, stop, more, n);
    if |pieces| <= |more| {
      assert pieces[..n] == pieces;
      NoneGoesOn(text, start, untilBrace, out, end, pieces, other, stop, more);
    } else {
      assert more[..n] == more;
      NoneGoesOn(text, start, untilBrace, other, stop, more, out, end, pieces);
    }
    assert pieces == more;
    TilesEnd(pieces, start, Clip(text, end));
    TilesEnd(pieces, start, Clip(text, stop));
    assert forall i | 0 <= i < |out| :: out[i] == other[i] by {
      forall i | 0 <= i < |out|
        ensures out[i] == other[i]
      {
        var k := i + start;
        assert out[k - start] == if InComment(pieces, k) && text[k] != '\n' then ' ' else text[k];
      }
    }
  }

  // --- blocks of a larger source ------------------------------------------------------------------

  function Moved(p: Piece, d: nat): Piece {
    Piece(p.from + d, p.to + d, p.limit + d, p.kind)
  }

  function Shifted(pieces: seq<Piece>, d: nat): seq<Piece> {
    if pieces == [] then [] else Shifted(pieces[..|pieces| - 1], d) + [Moved(pieces[|pieces| - 1], d)]
  }

  lemma {:induction false} ShiftedMembers(pieces: seq<Piece>, d: nat)
    ensures forall p | p in pieces :: Moved(p, d) in Shifted(pieces, d)
    ensures forall q | q in Shifted(pieces, d) :: exists p :: p in pieces && q == Moved(p, d)
  {
    hide Moved;
    if pieces != [] {
      var init, last := pieces[..|pieces| - 1], pieces[|pieces| - 1];
      ShiftedMembers(init, d);
      assert pieces == init + [last];
      forall q | q in Shifted(pieces, d)
        ensures exists p :: p in pieces && q == Moved(p, d)
      {
        if q in Shifted(init, d) {
          var p :| p in init && q == Moved(p, d);
          assert p in pieces;
        } else {
          assert last in pieces;
        }
      }
    }
  }

  lemma {:induction false} ShiftedTiles(pieces: seq<Piece>, a: nat, b: nat, d: nat)
    requires Tiles(pieces, a, b)
    ensures Tiles(Shifted(pieces, d), a + d, b + d)
  {
    if pieces != [] {
      var init, last := pieces[..|pieces| - 1], pieces[|pieces| - 1];
      ShiftedTiles(init, a, last.from, d);
      assert Shifted(pieces, d)[..|Shifted(pieces, d)| - 1] == Shifted(init, d);
    }
  }

  lemma AtShifts(before: string, text: string, i: nat, p: string)
    ensures At(before + text, |before| + i, p) <==> At(text, i, p)
  {
    if i + |p| <= |text| {
      assert (before + text)[|before| + i..|before| + i + |p|] == text[i..i + |p|];
    }
  }

  lemma NoneShifts(before: string, text: string, from: nat, to: nat, p: string)
    ensures (forall i | from <= i < to :: !At(text, i, p))
            <==> forall i | |before| + from <= i < |before| + to :: !At(before + text, i, p)
  {
    hide At;
    if forall i | from <= i < to :: !At(text, i, p) {
      forall i: nat | |before| + from <= i < |before| + to
        ensures !At(before + text, i, p)
      {
        AtShifts(before, text, i - |before|, p);
      }
    } else {
      var i :| from <= i < to && At(text, i, p);
      AtShifts(before, text, i, p);
    }
  }

  lemma DelimitedShifts(before: string, text: string, s: nat, e: nat, open: string, close: string)
    requires Delimited(text, s, e, open, close) && close != []
    ensures Delimited(before + text, |before| + s, |before| + e, open, close)
  {
    AtShifts(before, text, s, open);
    if s + |open| + |close| <= e <= |text| && At(text, e - |close|, close) {
      AtShifts(before, text, e - |close|, close);
      NoneShifts(before, text, s + |open|, e - |close|, close);
    }
    NoneShifts(before, text, s + |open|, |text|, close);
    hide At;
  }

  lemma {:induction false} StringStopShifts(before: string, text: string, j: nat, quote: char)
    ensures StringStop(before + text, |before| + j, quote) == |before| + StringStop(text, j, quote)
    decreases |text| - j
  {
    if j < |text| && text[j] != quote && text[j] != '\n' {
      StringStopShifts(before, text, j + (if text[j] == '\\' then 2 else 1), quote);
    }
  }

  lemma {:induction false} RegexStopShifts(before: string, text: string, j: nat, inClass: bool)
    ensures RegexStop(before + text, |before| + j, inClass) == |before| + RegexStop(text, j, inClass)
    decreases |text| - j
  {
    if j < |text| && text[j] != '\n' {
      RegexStopShifts(before, text, j + 2, inClass);
      RegexStopShifts(before, text, j + 1, true);
      RegexStopShifts(before, text, j + 1, false);
    }
  }

  lemma {:induction false} TemplateEndShifts(before: string, text: string, j: nat)
    ensures TemplateEnd(before + text, |before| + j) == (|before| + TemplateEnd(text, j).0, TemplateEnd(text, j).1)
    decreases |text| - j
  {
    if j < |text| {
      TemplateEndShifts(before, text, j + 2);
      TemplateEndShifts(before, text, j + 1);
    }
  }

  lemma CommentShifts(before: string, text: string, s: nat, e: nat)
    requires Is(text, s, e, Comment)
    ensures Is(before + text, |before| + s, |before| + e, Comment)
  {
    if Delimited(text, s, e, "/*", "*/") {
      DelimitedShifts(before, text, s, e, "/*", "*/");
    } else if Delimited(text, s, e, "<!--", "-->") {
      DelimitedShifts(before, text, s, e, "<!--", "-->");
    } else {
      hide Delimited;
      AtShifts(before, text, s, "//");
    }
  }

  /** A piece of a block is the same piece of the source, up to the end of the block. */
  lemma PieceShifts(before: string, text: string, s: nat, e: nat, kind: Kind)
    requires Is(text, s, e, kind) && kind != Markup && kind != Tag
    ensures Is(before + text, |before| + s, |before| + e, kind)
  {
    var all := before + text;
    if kind.Comment? {
      CommentShifts(before, text, s, e);
    } else {
      AtShifts(before, text, s, "//");
      AtShifts(before, text, s, "/*");
      StringStopShifts(before, text, s + 1, text[s]);
      RegexStopShifts(before, text, s + 1, false);
      TemplateEndShifts(before, text, s + 1);
      NoneShifts(before, text, s + 2, |text|, "*/");
      hide At, StringStop, RegexStop, TemplateEnd;
      assert all[|before| + s] == text[s];
    }
  }

  lemma SoundShifts(src: string, a: nat, b: nat, p: Piece)
    requires a <= b <= |src| && Sound(src[a..b], p) && p.kind != Markup && p.kind != Tag
    ensures Sound(src, Moved(p, a))
  {
    var body := src[a..b];
    PieceShifts(src[..a], body[..p.limit], p.from, p.to, p.kind);
    hide Is;
    assert src[..a] + body[..p.limit] == src[..p.limit + a];
  }

  lemma InCommentShifts(pieces: seq<Piece>, d: nat, k: nat)
    ensures InComment(Shifted(pieces, d), k + d) <==> InComment(pieces, k)
  {
    ShiftedMembers(pieces, d);
    hide Shifted;
    if p :| p in pieces && p.kind.Comment? && p.from <= k < p.to {
      assert Moved(p, d) in Shifted(pieces, d);
    }
    if q :| q in Shifted(pieces, d) && q.kind.Comment? && q.from <= k + d < q.to {
      var p :| p in pieces && q == Moved(p, d);
    }
  }

  /** A block stripped on its own stands for its place in the source. */
  lemma BlockIsStripped(src: string, a: nat, b: nat, out: string, pieces: seq<Piece>)
    requires a <= b <= |src| && Stripped(src[a..b], 0, b - a, out, pieces)
    requires forall p | p in pieces :: p.kind != Markup && p.kind != Tag
    ensures Stripped(src, a, b, out, Shifted(pieces, a))
  {
    var body, moved := src[a..b], Shifted(pieces, a);
    ShiftedTiles(pieces, 0, b - a, a);
    hide Sound, InComment, Shifted, Tiles;
    forall q | q in moved
      ensures Sound(src, q)
    {
      ShiftedMembers(pieces, a);
      var p :| p in pieces && q == Moved(p, a);
      SoundShifts(src, a, b, p);
    }
    forall k | a <= k < b
      ensures out[k - a] == if InComment(moved, k) && src[k] != '\n' then ' ' else src[k]
    {
      InCommentShifts(pieces, a, k - a);
      assert body[k - a] == src[k];
      assert out[k - a - 0] == if InComment(pieces, k - a) && body[k - a] != '\n' then ' ' else body[k - a];
    }
  }

  // --- Svelte ---------------------------------------------------------------------------------------

  /** A style sheet without its closed comments. */
  ghost predicate CssStripped(body: string, out: string, pieces: seq<Piece>) {
    && Stripped(body, 0, |body|, out, pieces)
    && forall p | p in pieces :: p.limit == |body| && (p.kind == Css || (p.kind == Comment && ClosedAt(body, p.from)))
  }

  predicate ClosedAt(body: string, i: nat) {
    At(body, i, "/*") && IndexOf(body, "*/", i + 2) < |body|
  }

  /** The comments of a style sheet; one that is not closed stays. */
  method StripCss(body: string) returns (out: string, ghost pieces: seq<Piece>)
    ensures CssStripped(body, out, pieces)
  {
    hide Stripped;
    var i := 0;
    out, pieces := "", [];
    NoPiece(body, 0);
    while i < |body|
      invariant i <= |body| && Stripped(body, 0, i, out, pieces)
      invariant forall p | p in pieces :: p.limit == |body| && (p.kind == Css || (p.kind == Comment && ClosedAt(body, p.from)))
      decreases |body| - i
    {
      var piece, next := body[i..i + 1], i + 1;
      ghost var kind := Css;
      if ClosedAt(body, i) {
        piece, next := ReadRegion(body, i, "/*", "*/");
        kind := Comment;
      } else {
        OnePiece(body, i, i + 1, Css);
      }
      StrippedAppends(body, 0, i, next, out, pieces, piece, [Piece(i, next, |body|, kind)]);
      out, pieces, i := out + piece, pieces + [Piece(i, next, |body|, kind)], next;
    }
  }

  /** The end of the opening tag of a script or style block, looked for in the next 200 characters. */
  function BlockTag(src: string, i: nat): (r: Option<(string, nat)>)
    requires i < |src|
    ensures r.Some? ==> i < r.value.1 <= |src| && (r.value.0 == "script" || r.value.0 == "style")
  {
    var window := src[i..Clip(src, i + 200)];
    var tag := if At(window, 0, "<script") then "script" else "style";
    var n := |tag| + 1;
    if (At(window, 0, "<script") || At(window, 0, "<style")) && n < |window| && !(WordChar(window[n]) && window[n] != '$') then
      var close := IndexOf(window, ">", n);
      if close < |window| then Some((tag, i + close + 1)) else None
    else None
  }

  /** One step of the Svelte scan: an HTML comment, a script or style block, a closing tag, an expression, or a
      character of the markup. `inner` is how the code in it is read, and `end` where that ends. */
  datatype Region = Region(from: nat, to: nat, inner: seq<Piece>, end: nat)

  function ExpressionStart(src: string, i: nat): nat {
    i + 1 + if i + 1 < |src| && src[i + 1] in "#:@" then 1 else 0
  }

  function BehindBrace(src: string, i: nat): nat {
    var j := IndexOf(src, "}", i);
    if j < |src| then j + 1 else |src|
  }

  /** The body is stripped as JavaScript or as CSS; the opening tag in front of it stays. */
  ghost predicate BlockStripped(src: string, r: Region, tag: string, body: nat, text: string) {
    && r.from <= body <= r.to <= |src| && r.to == IndexOf(src, "</" + tag + ">", body) && |text| == r.to - r.from
    && text[..body - r.from] == src[r.from..body]
    && if tag == "script" then JsStripped(src[body..r.to], 0, false, text[body - r.from..], r.to - body, r.inner)
       else CssStripped(src[body..r.to], text[body - r.from..], r.inner)
  }

  /** The code is stripped as JavaScript up to the brace that closes it; the braces and the sigil stay. */
  ghost predicate ExpressionStripped(src: string, r: Region, text: string) {
    var code := ExpressionStart(src, r.from);
    && r.from < code <= r.end && code <= |src| && r.to == Clip(src, r.end + 1) && |text| == r.to - r.from
    && text[..code - r.from] == src[r.from..code]
    && JsStripped(src, code, true, text[code - r.from..Clip(src, r.end) - r.from], r.end, r.inner)
    && text[Clip(src, r.end) - r.from..] == src[Clip(src, r.end)..r.to]
  }

  /** `text` is what the region becomes. */
  ghost predicate RegionStripped(src: string, r: Region, text: string) {
    && r.from < r.to <= |src| && |text| == r.to - r.from
    && if At(src, r.from, "<!--") then Delimited(src, r.from, r.to, "<!--", "-->") && text == Blank(src[r.from..r.to])
       else if BlockTag(src, r.from).Some? then
         BlockStripped(src, r, BlockTag(src, r.from).value.0, BlockTag(src, r.from).value.1, text)
       else if At(src, r.from, "{/") then r.to == BehindBrace(src, r.from) && text == src[r.from..r.to]
       else if src[r.from] == '{' then ExpressionStripped(src, r, text)
       else r.to == r.from + 1 && text == src[r.from..r.to]
  }

  /** The regions follow each other from the start to `b`, and `out` is what they become. */
  ghost predicate SvelteStripped(src: string, b: nat, out: string, regions: seq<Region>) {
    if regions == [] then b == 0 && out == ""
    else
      var r := regions[|regions| - 1];
      && r.from < r.to == b && r.from <= |out|
      && RegionStripped(src, r, out[r.from..])
      && SvelteStripped(src, r.from, out[..r.from], regions[..|regions| - 1])
  }

  lemma NextRegion(src: string, b: nat, out: string, regions: seq<Region>, r: Region, text: string)
    requires SvelteStripped(src, b, out, regions) && r.from == b == |out| && RegionStripped(src, r, text)
    ensures SvelteStripped(src, r.to, out + text, regions + [r])
  {
    assert (regions + [r])[..|regions|] == regions;
    assert (out + text)[r.from..] == text && (out + text)[..r.from] == out;
  }

  /** A script or style block without its closing tag. */
  method StyleOrScript(src: string, i: nat, tag: string, bodyStart: nat)
    returns (piece: string, next: nat, ghost r: Region, ghost pieces: seq<Piece>)
    requires i < bodyStart <= |src| && tag != [] && !At(src, i, "<!--")
    ensures r.from == i < r.to == next <= |src| && BlockStripped(src, r, tag, bodyStart, piece)
    ensures Stripped(src, i, next, piece, pieces)
  {
    next := IndexOf(src, "</" + tag + ">", bodyStart);
    var body := src[bodyStart..next];
    var stripped;
    ghost var inner: seq<Piece>;
    if tag == "script" {
      stripped := StripJsComments(body);
      inner :| JsStripped(body, 0, false, stripped, |body|, inner);
      JsKinds(body, 0, false, stripped, |body|, inner);
    } else {
      stripped, inner := StripCss(body);
    }
    StrippedSize(body, 0, |body|, stripped, inner);
    OnePiece(src, i, bodyStart, Tag);
    BlockIsStripped(src, bodyStart, next, stripped, inner);
    ghost var opening := [Piece(i, bodyStart, |src|, Tag)];
    StrippedAppends(src, i, bodyStart, next, src[i..bodyStart], opening, stripped, Shifted(inner, bodyStart));
    piece, pieces := src[i..bodyStart] + stripped, opening + Shifted(inner, bodyStart);
    r := Region(i, next, inner, next);
    hide Stripped, JsStripped, CssStripped;
    assert piece[bodyStart - i..] == stripped;
  }

  /** An expression in braces. */
  method Expression(src: string, i: nat) returns (piece: string, next: nat, ghost r: Region, ghost pieces: seq<Piece>)
    requires i < |src| && src[i] == '{' && !At(src, i, "<!--")
    ensures i < next && r.from == i && r.to == Clip(src, next) && ExpressionStripped(src, r, piece)
    ensures Stripped(src, i, r.to, piece, pieces)
  {
    var sigil := if i + 1 < |src| && src[i + 1] in "#:@" then 1 else 0;
    var from := i + 1 + sigil;
    var expr, end;
    ghost var inner;
    expr, end, inner := StripJsFrom(src, from, true);
    hide RightKind, ContextAfter;
    next := end + 1;
    r := Region(i, Clip(src, next), inner, end);
    piece := src[i..from] + expr + if end < |src| then "}" else "";
    StrippedSize(src, from, Clip(src, end), expr, inner);
    pieces := ExpressionPieces(src, i, from, end, expr, inner);
    hide Stripped, JsStripped;
    assert piece[from - i..Clip(src, end) - i] == expr;
  }

  lemma ExpressionPieces(src: string, i: nat, from: nat, end: nat, expr: string, inner: seq<Piece>) returns (pieces: seq<Piece>)
    requires i < from <= |src| && from <= end && !At(src, i, "<!--") && (end < |src| ==> src[end] == '}')
    requires Stripped(src, from, Clip(src, end), expr, inner)
    ensures Stripped(src, i, Clip(src, end + 1), src[i..from] + expr + (if end < |src| then "}" else ""), pieces)
  {
    OnePiece(src, i, from, Tag);
    ghost var opening := [Piece(i, from, |src|, Tag)];
    StrippedAppends(src, i, from, Clip(src, end), src[i..from], opening, expr, inner);
    pieces := opening + inner;
    if end < |src| {
      assert !At(src, end, "<!--") by {
        if end + 4 <= |src| {
          assert src[end..end + 4][0] == '}';
        }
      }
      OnePiece(src, end, end + 1, Tag);
      assert src[end..end + 1] == "}";
      ghost var closing := [Piece(end, end + 1, |src|, Tag)];
      StrippedAppends(src, i, end, end + 1, src[i..from] + expr, pieces, "}", closing);
      pieces := pieces + closing;
    } else {
      assert src[i..from] + expr + "" == src[i..from] + expr;
    }
  }

  /** Through nested templates, blocks, expressions and whatever is left open. */
  method StripSvelteComments(src: string) returns (out: string)
    ensures exists regions :: SvelteStripped(src, |src|, out, regions)
    ensures exists pieces :: Stripped(src, 0, |src|, out, pieces)
    ensures |out| == |src| && forall k | 0 <= k < |src| :: out[k] == src[k] || (out[k] == ' ' && src[k] != '\n')
  {
    hide Stripped, BlockTag, SvelteStripped, BlockStripped, ExpressionStripped;
    var i := 0;
    out := "";
    ghost var regions: seq<Region>, pieces: seq<Piece> := [], [];
    NoPiece(src, 0);
    NoRegion(src);
    while i < |src|
      invariant SvelteStripped(src, Clip(src, i), out, regions)
      invariant Stripped(src, 0, Clip(src, i), out, pieces)
      decreases |src| - i
    {
      var piece, next := src[i..i + 1], i + 1;
      ghost var r := Region(i, i + 1, [], i + 1);
      ghost var more: seq<Piece>;
      if At(src, i, "<!--") {
        piece, next := ReadRegion(src, i, "<!--", "-->");
        r, more := Region(i, next, [], next), [Piece(i, next, |src|, Comment)];
      } else if BlockTag(src, i).Some? {
        var (tag, bodyStart) := BlockTag(src, i).value;
        piece, next, r, more := StyleOrScript(src, i, tag, bodyStart);
      } else if At(src, i, "{/") {
        next := BehindBrace(src, i);
        OnePiece(src, i, next, Tag);
        piece, r, more := src[i..next], Region(i, next, [], next), [Piece(i, next, |src|, Tag)];
      } else if src[i] == '{' {
        piece, next, r, more := Expression(src, i);
      } else {
        OnePiece(src, i, i + 1, Markup);
        more := [Piece(i, i + 1, |src|, Markup)];
      }
      StrippedSize(src, i, Clip(src, next), piece, more);
      StrippedSize(src, 0, i, out, pieces);
      NextRegion(src, i, out, regions, r, piece);
      StrippedAppends(src, 0, i, Clip(src, next), out, pieces, piece, more);
      out, regions, pieces, i := out + piece, regions + [r], pieces + more, next;
    }
    PositionsStay(src, out, pieces);
  }

  lemma NoRegion(src: string)
    ensures SvelteStripped(src, 0, "", [])
  {
  }
}
