/** Writing a string as a TOML value: the frozen choice of one of four notations, and an independent reader
    for TOML strings (TOML v1.0.0, section "String") that gives every string back. */
module TomlString {
  import opened LibraryStore

  datatype Style = NewlineTriple | OnelineTriple | OnelineSingle

  // --- the choice of a notation -----------------------------------------------------

  datatype Inference = Inference(style: Style, maxFound: nat, found: nat, preferLiteral: bool, pretty: bool)

  predicate IsControl(c: char) {
    c <= '\U{1f}' || c == '\U{7f}'
  }

  /** The inference after one more character. */
  function Observe(f: Inference, c: char): Inference {
    if !f.pretty then if c == '\n' then f.(style := NewlineTriple) else f
    else
      var g :=
        if c == '\'' then f.(found := f.found + 1, pretty := f.found + 1 < 3)
        else f.(found := 0, maxFound := if f.found > f.maxFound then f.found else f.maxFound);
      if c == '\t' then g
      else if c == '\\' then g.(preferLiteral := true)
      else if c == '\n' then g.(style := NewlineTriple)
      else if IsControl(c) then g.(pretty := false)
      else g
  }

  const FRESH := Inference(OnelineSingle, 0, 0, false, true)

  function Observed(s: string): Inference {
    if s == [] then FRESH else Observe(Observed(s[..|s| - 1]), s[|s| - 1])
  }

  /** Whether the value is written literally, and in which style. */
  function Decide(f: Inference, value: string): (bool, Style) {
    var endsInQuote := f.found > 0 && value != [] && value[|value| - 1] == '\'';
    if !f.pretty || endsInQuote || !f.preferLiteral then (false, f.style)
    else if f.style == OnelineSingle && (f.maxFound >= 1 || f.found >= 1) then (true, OnelineTriple)
    else (true, f.style)
  }

  function TrailingQuotes(s: string): nat {
    if s != [] && s[|s| - 1] == '\'' then TrailingQuotes(s[..|s| - 1]) + 1 else 0
  }

  /** Three single quotes in a row. */
  predicate HasTriple(s: string) {
    s != [] && (HasTriple(s[..|s| - 1]) || TrailingQuotes(s) >= 3)
  }

  predicate Unprintable(c: char) {
    IsControl(c) && c != '\t' && c != '\n'
  }

  /** When a value is written literally, said without the loop. */
  predicate WrittenLiterally(s: string) {
    && '\\' in s && !HasTriple(s) && s[|s| - 1] != '\''
    && forall c | c in s :: !Unprintable(c)
  }

  lemma {:induction false} ObservedMeans(s: string)
    ensures var f := Observed(s);
            && (f.pretty <==> !HasTriple(s) && forall c | c in s :: !Unprintable(c))
            && f.style == (if '\n' in s then NewlineTriple else OnelineSingle)
            && (f.pretty ==> f.found == TrailingQuotes(s))
            && (f.pretty ==> (f.preferLiteral <==> '\\' in s))
            && (f.pretty ==> (f.maxFound >= 1 || f.found >= 1 <==> '\'' in s))
  {
    if s != [] {
      var init, c := s[..|s| - 1], s[|s| - 1];
      ObservedMeans(init);
      assert s == init + [c];
      assert forall d :: d in s <==> d in init || d == c;
      assert (forall d | d in s :: !Unprintable(d)) <==> (forall d | d in init :: !Unprintable(d)) && !Unprintable(c);
      assert HasTriple(s) <==> HasTriple(init) || TrailingQuotes(s) >= 3;
    }
  }

  lemma DecisionMeans(s: string)
    ensures var (literal, style) := Decide(Observed(s), s);
            && (literal <==> WrittenLiterally(s))
            && (style == NewlineTriple <==> '\n' in s)
            && (literal ==> (style == OnelineSingle <==> '\n' !in s && '\'' !in s))
            && (!literal ==> style != OnelineTriple)
  {
    ObservedMeans(s);
  }

  predicate ThreeQuotesAt(s: string, i: nat) {
    i + 3 <= |s| && s[i] == '\'' && s[i + 1] == '\'' && s[i + 2] == '\''
  }

  lemma TrailingTriple(s: string)
    ensures TrailingQuotes(s) >= 3 <==> |s| >= 3 && ThreeQuotesAt(s, |s| - 3)
  {
    if |s| >= 3 {
      var (a, b) := (s[..|s| - 1], s[..|s| - 2]);
      assert a[..|a| - 1] == b;
      assert a[|a| - 1] == s[|s| - 2] && b[|b| - 1] == s[|s| - 3];
    } else {
      ShortHasFewQuotes(s);
    }
  }

  lemma {:induction false} ShortHasFewQuotes(s: string)
    ensures TrailingQuotes(s) <= |s|
  {
    if s != [] {
      ShortHasFewQuotes(s[..|s| - 1]);
    }
  }

  lemma {:induction false} HasTripleExactlyWhen(s: string)
    ensures HasTriple(s) <==> exists i: nat :: ThreeQuotesAt(s, i)
  {
    hide ThreeQuotesAt, TrailingQuotes;
    if s == [] {
      NoRoomForThree();
    } else {
      var init := s[..|s| - 1];
      HasTripleExactlyWhen(init);
      TrailingTriple(s);
      ThreeInFrontOrAtEnd(s);
      if i: nat :| ThreeQuotesAt(init, i) {
        assert ThreeQuotesAt(s, i);
      } else if i: nat :| ThreeQuotesAt(s, i) {
        assert i + 3 == |s| && ThreeQuotesAt(s, |s| - 3);
      }
    }
  }

  lemma NoRoomForThree()
    ensures forall i: nat :: !ThreeQuotesAt([], i)
  {
  }

  lemma ThreeInFrontOrAtEnd(s: string)
    requires s != []
    ensures forall i: nat :: ThreeQuotesAt(s, i) <==> ThreeQuotesAt(s[..|s| - 1], i) || (i + 3 == |s| && ThreeQuotesAt(s, i))
  {
  }

  /** A value is written literally if and only if it has a backslash, no three single quotes in a row, none at its end,
      and no control characters but tabs and newlines. */
  lemma LiteralExactlyWhen(s: string)
    ensures WrittenLiterally(s) <==>
            && '\\' in s && (forall i: nat :: !ThreeQuotesAt(s, i)) && s[|s| - 1] != '\''
            && forall c | c in s :: c in "\t\n" || (c as int >= 32 && c as int != 127)
  {
    HasTripleExactlyWhen(s);
    hide HasTriple, ThreeQuotesAt;
  }

  method InferStyle(value: string) returns (literal: bool, style: Style)
    ensures (literal, style) == Decide(Observed(value), value)
  {
    style := OnelineSingle;
    var maxFound, found := 0, 0;
    var preferLiteral, pretty := false, true;
    for i := 0 to |value|
      invariant Inference(style, maxFound, found, preferLiteral, pretty) == Observed(value[..i])
    {
      var c := value[i];
      assert value[..i + 1][..i] == value[..i] && value[..i + 1][i] == c;
      if pretty {
        if c == '\'' {
          found := found + 1;
          if found >= 3 {
            pretty := false;
          }
        } else {
          if found > maxFound {
            maxFound := found;
          }
          found := 0;
        }
        match c {
          case '\t' =>
          case '\\' => preferLiteral := true;
          case '\n' => style := NewlineTriple;
          case _ =>
            if IsControl(c) {
              pretty := false;
            }
        }
      } else if c == '\n' {
        style := NewlineTriple;
      }
    }
    assert value[..|value|] == value;
    if found > 0 && value != [] && value[|value| - 1] == '\'' {
      pretty := false;
    }
    if !preferLiteral {
      pretty := false;
    }
    if pretty {
      if found > maxFound {
        maxFound := found;
      }
      if style == OnelineSingle && maxFound >= 1 {
        style := OnelineTriple;
      }
      return true, style;
    }
    return false, style;
  }

  // --- writing --------------------------------------------------------------------------

  function UpperHexDigit(d: nat): char
    requires d < 16
  {
    if d < 10 then '0' + d as char else 'A' + (d - 10) as char
  }

  function Escape(c: char): string {
    if c == '\U{8}' then "\\b"
    else if c == '\t' then "\\t"
    else if c == '\n' then "\n"
    else if c == '\U{c}' then "\\f"
    else if c == '\r' then "\\r"
    else if c == '"' then "\\\""
    else if c == '\\' then "\\\\"
    else if IsControl(c) then "\\u00" + [UpperHexDigit(c as nat / 16), UpperHexDigit(c as nat % 16)]
    else [c]
  }

  function EscapeAll(s: string): string {
    if s == [] then [] else EscapeAll(s[..|s| - 1]) + Escape(s[|s| - 1])
  }

  function Delimiters(literal: bool, style: Style): (string, string) {
    match (literal, style)
    case (true, NewlineTriple) => ("'''\n", "'''")
    case (true, OnelineTriple) => ("'''", "'''")
    case (true, OnelineSingle) => ("'", "'")
    case (false, NewlineTriple) => ("\"\"\"\n", "\"\"\"")
    case _ => ("\"", "\"")
  }

  function ToToml(value: string): string {
    var (literal, style) := Decide(Observed(value), value);
    var (start, end) := Delimiters(literal, style);
    start + (if literal then value else EscapeAll(value)) + end
  }

  /** The escapes, spelled out: short ones where TOML has them, four upper-case hexadecimal digits for the other control
      characters, a newline and everything else as it is. */
  lemma EscapesAreFrozen(c: char)
    ensures Escape('\U{8}') == "\\b" && Escape('\U{9}') == "\\t" && Escape('\U{a}') == "\U{a}" && Escape('\U{c}') == "\\f"
    ensures Escape('\U{d}') == "\\r" && Escape('\U{22}') == "\\\"" && Escape('\U{5c}') == "\\\\" && Escape('\U{7f}') == "\\u007F"
    ensures c as int >= 32 && c as int !in {34, 92, 127} ==> Escape(c) == [c]
    ensures c as int < 32 && c as int !in {8, 9, 10, 12, 13} ==>
              Escape(c) == "\\u00" + [if c as int >= 16 then '1' else '0', "0123456789ABCDEF"[c as int % 16]]
  {
    if c as int < 32 {
      HexDigitsAre(c as int % 16);
      HexDigitsAre(c as int / 16);
    }
    HexDigitsAre(7);
    HexDigitsAre(15);
  }

  lemma HexDigitsAre(d: nat)
    requires d < 16
    ensures UpperHexDigit(d) == "0123456789ABCDEF"[d]
  {
  }

  lemma {:induction false} EscapedPieceByPiece(a: string, b: string)
    ensures EscapeAll(a + b) == EscapeAll(a) + EscapeAll(b)
  {
    hide Escape;
    if b == [] {
      assert a + b == a;
    } else {
      var init, c := b[..|b| - 1], b[|b| - 1];
      assert (a + b)[..|a + b| - 1] == a + init && (a + b)[|a + b| - 1] == c;
      EscapedPieceByPiece(a, init);
    }
  }

  lemma OneIsEscaped(c: char)
    ensures EscapeAll([c]) == Escape(c)
  {
    hide Escape;
    assert [c][..0] == [];
  }

  /** The frozen text, for every value: which quotes, and what is between them. */
  lemma TextIsFrozen(value: string)
    ensures ToToml(value)
         == if WrittenLiterally(value)
            then if '\n' in value then "'''\n" + value + "'''"
                 else if '\'' in value then "'''" + value + "'''"
                 else "'" + value + "'"
            else if '\n' in value then "\"\"\"\n" + EscapeAll(value) + "\"\"\""
                 else "\"" + EscapeAll(value) + "\""
  {
    DecisionMeans(value);
    hide Decide, Observed, WrittenLiterally, EscapeAll;
  }

  method TomlStringRepr(value: string) returns (out: string)
    ensures out == ToToml(value)
  {
    hide Observed, Decide, Escape;
    var literal, style := InferStyle(value);
    var (start, end) := Delimiters(literal, style);
    out := start;
    if literal {
      out := out + value;
    } else {
      for i := 0 to |value|
        invariant out == start + EscapeAll(value[..i])
      {
        assert value[..i + 1][..i] == value[..i] && value[..i + 1][i] == value[i];
        assert start + (EscapeAll(value[..i]) + Escape(value[i])) == out + Escape(value[i]);
        out := out + Escape(value[i]);
      }
      assert value[..|value|] == value;
    }
    out := out + end;
  }

  // --- reading, by the standard ------------------------------------------------------------

  function HexValue(c: char): Option<nat> {
    if '0' <= c <= '9' then Some(c as nat - '0' as nat)
    else if 'A' <= c <= 'F' then Some(c as nat - 'A' as nat + 10)
    else if 'a' <= c <= 'f' then Some(c as nat - 'a' as nat + 10)
    else None
  }

  function HexNumber(s: string): Option<nat> {
    if s == [] then Some(0)
    else
      match (HexNumber(s[..|s| - 1]), HexValue(s[|s| - 1]))
      case (Some(n), Some(d)) => Some(16 * n + d)
      case _ => None
  }

  /** The Unicode scalar value that `n` hexadecimal digits from `i` on name. */
  function ScalarAt(t: string, i: nat, n: nat): Option<char> {
    if i + n > |t| then None
    else
      match HexNumber(t[i..i + n])
      case Some(v) => if v < 0xd800 || 0xe000 <= v < 0x11_0000 then Some(v as char) else None
      case None => None
  }

  predicate StartsAt(t: string, i: nat, p: string) {
    i + |p| <= |t| && t[i..i + |p|] == p
  }

  /** The position behind a newline, if one is there. */
  function AfterNewline(t: string, i: nat): (j: nat)
    ensures j >= i
  {
    if StartsAt(t, i, "\n") then i + 1 else if StartsAt(t, i, "\r\n") then i + 2 else i
  }

  function SkipBlanks(t: string, i: nat): (j: nat)
    ensures j >= i
    decreases |t| - i
  {
    if i < |t| && (t[i] == ' ' || t[i] == '\t' || t[i] == '\n' || t[i] == '\r') then SkipBlanks(t, i + 1) else i
  }

  /** A backslash at the end of a line, before optional blanks. */
  predicate EndsLine(t: string, i: nat)
    decreases |t| - i
  {
    i < |t| && (t[i] == '\n' || StartsAt(t, i, "\r\n") || ((t[i] == ' ' || t[i] == '\t') && EndsLine(t, i + 1)))
  }

  function Cons(c: char, rest: Option<string>): Option<string> {
    match rest case Some(s) => Some([c] + s) case None => None
  }

  /** A character that may stand for itself. */
  predicate Plain(t: string, i: nat, multi: bool)
    requires i < |t|
  {
    || t[i] == '\t' || !IsControl(t[i])
    || (multi && (t[i] == '\n' || StartsAt(t, i, "\r\n")))
  }

  /** The quotes that may stand before a closing triple, or `None` if no closing triple ends the text here. */
  function Closing(t: string, i: nat, quote: char): Option<string> {
    if i > |t| then None
    else if t[i..] == [quote, quote, quote] then Some([])
    else if t[i..] == [quote, quote, quote, quote] then Some([quote])
    else if t[i..] == [quote, quote, quote, quote, quote] then Some([quote, quote])
    else None
  }

  function DecodeEscape(t: string, i: nat): Option<(char, nat)>
    requires i < |t|
    ensures DecodeEscape(t, i).Some? ==> DecodeEscape(t, i).value.1 > i
  {
    match t[i]
    case 'b' => Some(('\U{8}', i + 1))
    case 't' => Some(('\t', i + 1))
    case 'n' => Some(('\n', i + 1))
    case 'f' => Some(('\U{c}', i + 1))
    case 'r' => Some(('\r', i + 1))
    case '"' => Some(('"', i + 1))
    case '\\' => Some(('\\', i + 1))
    case 'u' => (match ScalarAt(t, i + 1, 4) case Some(c) => Some((c, i + 5)) case None => None)
    case 'U' => (match ScalarAt(t, i + 1, 8) case Some(c) => Some((c, i + 9)) case None => None)
    case _ => None
  }

  function DecodeBasic(t: string, i: nat, multi: bool): Option<string>
    decreases |t| - i
  {
    if i >= |t| then None
    else if t[i] == '"' then
      if !multi then if i == |t| - 1 then Some([]) else None
      else if Closing(t, i, '"').Some? then Closing(t, i, '"')
      else if StartsAt(t, i, "\"\"\"") then None
      else Cons('"', DecodeBasic(t, i + 1, multi))
    else if t[i] == '\\' then
      if i + 1 >= |t| then None
      else
        match DecodeEscape(t, i + 1)
        case Some((c, j)) => Cons(c, DecodeBasic(t, j, multi))
        case None => if multi && EndsLine(t, i + 1) then DecodeBasic(t, SkipBlanks(t, i + 1), multi) else None
    else if Plain(t, i, multi) then Cons(t[i], DecodeBasic(t, i + 1, multi))
    else None
  }

  function DecodeLiteral(t: string, i: nat, multi: bool): Option<string>
    decreases |t| - i
  {
    if i >= |t| then None
    else if t[i] == '\'' then
      if !multi then if i == |t| - 1 then Some([]) else None
      else if Closing(t, i, '\'').Some? then Closing(t, i, '\'')
      else if StartsAt(t, i, "'''") then None
      else Cons('\'', DecodeLiteral(t, i + 1, multi))
    else if Plain(t, i, multi) then Cons(t[i], DecodeLiteral(t, i + 1, multi))
    else None
  }

  function Decode(t: string): Option<string> {
    if StartsAt(t, 0, "\"\"\"") then DecodeBasic(t, AfterNewline(t, 3), true)
    else if StartsAt(t, 0, "\"") then DecodeBasic(t, 1, false)
    else if StartsAt(t, 0, "'''") then DecodeLiteral(t, AfterNewline(t, 3), true)
    else if StartsAt(t, 0, "'") then DecodeLiteral(t, 1, false)
    else None
  }

  // --- reading gives back what was written ------------------------------------------------------

  lemma HexDigitsAreRead(d: nat)
    requires d < 16
    ensures HexValue(UpperHexDigit(d)) == Some(d)
  {
  }

  lemma EscapeIsRead(t: string, i: nat, c: char)
    requires Escape(c)[0] == '\\' && StartsAt(t, i, Escape(c))
    ensures DecodeEscape(t, i + 1) == Some((c, i + |Escape(c)|))
  {
    var e := Escape(c);
    forall k | i <= k < i + |e|
      ensures t[k] == e[k - i]
    {
      assert t[i..i + |e|][k - i] == t[k];
    }
    if |e| == 6 {
      var (x, y) := (UpperHexDigit(c as nat / 16), UpperHexDigit(c as nat % 16));
      HexDigitsAreRead(c as nat / 16);
      HexDigitsAreRead(c as nat % 16);
      assert t[i + 2..i + 6] == ['0', '0', x, y];
      FourDigits(x, y);
    }
  }

  lemma FourDigits(x: char, y: char)
    requires HexValue(x).Some? && HexValue(y).Some?
    ensures HexNumber(['0', '0', x, y]) == Some(16 * HexValue(x).value + HexValue(y).value)
  {
    var s := ['0', '0', x, y];
    assert s[..3] == ['0', '0', x] && s[..3][..2] == ['0', '0'] && s[..3][..2][..1] == ['0'] && s[..3][..2][..1][..0] == [];
    hide HexValue;
    assert HexValue('0') == Some(0);
    assert HexNumber(['0']) == Some(0);
    assert HexNumber(['0', '0']) == Some(0);
    assert HexNumber(['0', '0', x]) == Some(HexValue(x).value);
  }

  lemma {:induction false} EscapeAllFromFront(s: string)
    requires s != []
    ensures EscapeAll(s) == Escape(s[0]) + EscapeAll(s[1..])
  {
    hide Escape;
    var n := |s| - 1;
    if n == 0 {
      assert s[..0] == [] && s[1..] == [];
    } else {
      EscapeAllFromFront(s[..n]);
      assert s[..n][1..] == s[1..][..n - 1] && s[1..][n - 1] == s[n];
      assert EscapeAll(s[1..]) == EscapeAll(s[1..][..n - 1]) + Escape(s[n]);
      assert Escape(s[0]) + EscapeAll(s[1..][..n - 1]) + Escape(s[n]) == Escape(s[0]) + (EscapeAll(s[1..][..n - 1]) + Escape(s[n]));
    }
  }

  function BasicClose(multi: bool): string {
    if multi then "\"\"\"" else "\""
  }

  function LiteralClose(multi: bool): string {
    if multi then "'''" else "'"
  }

  lemma PieceStarts(p: string, e: string, rest: string)
    ensures StartsAt(p + e + rest, |p|, e)
    ensures e != [] ==> |p| < |p + e + rest| && (p + e + rest)[|p|] == e[0]
  {
    var t := p + e + rest;
    assert t[|p|..|p| + |e|] == e;
  }

  /** Reading one written character. */
  lemma BasicStep(t: string, i: nat, c: char, multi: bool)
    requires StartsAt(t, i, Escape(c)) && (multi || c != '\n')
    ensures DecodeBasic(t, i, multi) == Cons(c, DecodeBasic(t, i + |Escape(c)|, multi))
  {
    var e := Escape(c);
    assert t[i] == e[0] by {
      assert t[i..i + |e|][0] == t[i];
    }
    if e[0] == '\\' {
      EscapeIsRead(t, i, c);
      hide DecodeEscape, Escape, Plain;
    } else {
      EscapeIsPlain(c);
      assert Plain(t, i, multi);
      hide DecodeEscape, Escape, Plain;
    }
  }

  lemma CloseIsRead(p: string, multi: bool)
    ensures DecodeBasic(p + BasicClose(multi), |p|, multi) == Some([])
  {
    var t := p + BasicClose(multi);
    assert t[|p|..] == BasicClose(multi);
  }

  lemma Regroup(p: string, e: string, m: string, close: string)
    ensures p + (e + m) + close == (p + e) + m + close
  {
  }

  lemma BasicAppend(p: string, c: char, m: string, close: string, multi: bool, tail: string)
    requires multi || c != '\n'
    requires DecodeBasic((p + Escape(c)) + m + close, |p + Escape(c)|, multi) == Some(tail)
    ensures DecodeBasic((p + Escape(c)) + m + close, |p|, multi) == Some([c] + tail)
  {
    hide DecodeBasic, Escape;
    var e := Escape(c);
    PieceStarts(p, e, m + close);
    assert (p + e) + m + close == p + e + (m + close);
    BasicStep((p + e) + m + close, |p|, c, multi);
  }

  lemma {:induction false} BasicIsRead(p: string, s: string, multi: bool)
    requires multi || '\n' !in s
    ensures DecodeBasic(p + EscapeAll(s) + BasicClose(multi), |p|, multi) == Some(s)
    decreases |s|
  {
    var close := BasicClose(multi);
    if s == [] {
      assert p + [] + close == p + close;
      CloseIsRead(p, multi);
      hide DecodeBasic, BasicClose;
    } else {
      var c, rest := s[0], EscapeAll(s[1..]);
      EscapeAllFromFront(s);
      hide DecodeBasic, Escape, EscapeAll, BasicClose;
      assert [c] + s[1..] == s;
      Regroup(p, Escape(c), rest, close);
      BasicIsRead(p + Escape(c), s[1..], multi);
      BasicAppend(p, c, rest, close, multi, s[1..]);
    }
  }

  lemma EscapeIsPlain(c: char)
    requires Escape(c)[0] != '\\'
    ensures Escape(c) == [c] && c != '"' && c != '\\' && (IsControl(c) ==> c == '\n')
  {
  }

  lemma {:induction false} TripleFromFront(s: string)
    requires s != [] && HasTriple(s[1..])
    ensures HasTriple(s)
  {
    var n := |s| - 1;
    assert s[1..][..n - 1] == s[..n][1..];
    if HasTriple(s[1..][..n - 1]) {
      TripleFromFront(s[..n]);
    } else {
      TrailingFromFront(s);
    }
  }

  lemma {:induction false} TrailingFromFront(s: string)
    requires s != []
    ensures TrailingQuotes(s) >= TrailingQuotes(s[1..])
  {
    var n := |s| - 1;
    if n > 0 {
      assert s[1..][..n - 1] == s[..n][1..] && s[1..][n - 1] == s[n];
      TrailingFromFront(s[..n]);
    }
  }

  /** Three quotes at the front are three quotes. */
  lemma {:induction false} TripleAtFront(s: string)
    requires |s| >= 3 && s[0] == s[1] == s[2] == '\''
    ensures HasTriple(s)
  {
    if |s| == 3 {
      assert TrailingQuotes(s[..2][..1][..0]) == 0;
      assert TrailingQuotes(s[..2][..1]) == 1 && TrailingQuotes(s[..2]) == 2;
    } else {
      TripleAtFront(s[..|s| - 1]);
    }
  }

  lemma {:induction false} LiteralIsRead(p: string, s: string, multi: bool)
    requires forall c | c in s :: !Unprintable(c)
    requires if multi then !HasTriple(s) && (s != [] ==> s[|s| - 1] != '\'') else '\n' !in s && '\'' !in s
    ensures DecodeLiteral(p + s + LiteralClose(multi), |p|, multi) == Some(s)
    decreases |s|
  {
    var close := LiteralClose(multi);
    var t := p + s + close;
    if s == [] {
      assert t[|p|..] == close;
    } else {
      var c := s[0];
      assert s == [c] + s[1..];
      assert t == (p + [c]) + s[1..] + close;
      if HasTriple(s[1..]) {
        TripleFromFront(s);
      }
      LiteralIsRead(p + [c], s[1..], multi);
      assert c in s;
      if c == '\'' {
        QuoteIsContent(p, s);
      } else {
        assert t[|p|] == c;
      }
    }
  }

  lemma QuoteIsContent(p: string, s: string)
    requires s != [] && s[0] == '\'' && s[|s| - 1] != '\'' && !HasTriple(s)
    ensures var t := p + s + "'''";
            t[|p|] == '\'' && Closing(t, |p|, '\'').None? && !StartsAt(t, |p|, "'''")
  {
    var t := p + s + "'''";
    var last := |p| + |s| - 1;
    assert t[last] == s[|s| - 1] && t[|p|..][|s| - 1] == t[last];
    if StartsAt(t, |p|, "'''") {
      assert t[|p|..|p| + 3][1] == t[|p| + 1] && t[|p|..|p| + 3][2] == t[|p| + 2];
      assert |s| >= 3;
      TripleAtFront(s);
    }
  }

  /** Every string comes back: whatever notation the inference chooses, the standard's reader gives back the
      value that was written. */
  lemma RoundTrip(value: string)
    ensures Decode(ToToml(value)) == Some(value)
  {
    var (literal, style) := Decide(Observed(value), value);
    DecisionMeans(value);
    hide Observed, Decide, WrittenLiterally, HasTriple;
    var t := ToToml(value);
    if literal {
      assert !HasTriple(value) && value != [] && value[|value| - 1] != '\'' by {
        LiteralIsDecent(value);
      }
      assert forall c | c in value :: !Unprintable(c) by {
        LiteralIsDecent(value);
      }
      LiteralRoundTrip(value, style);
    } else {
      BasicRoundTrip(value, style == NewlineTriple);
    }
  }

  lemma LiteralIsDecent(value: string)
    requires WrittenLiterally(value)
    ensures !HasTriple(value) && value != [] && value[|value| - 1] != '\''
    ensures forall c | c in value :: !Unprintable(c)
  {
  }

  lemma BasicRoundTrip(value: string, multi: bool)
    requires multi || '\n' !in value
    ensures Decode((if multi then "\"\"\"\n" else "\"") + EscapeAll(value) + BasicClose(multi)) == Some(value)
  {
    var start := if multi then "\"\"\"\n" else "\"";
    var t := start + EscapeAll(value) + BasicClose(multi);
    BasicIsRead(start, value, multi);
    hide DecodeBasic;
    if multi {
      assert t[0..3] == "\"\"\"" && t[3..4] == "\n";
    } else {
      assert t[0..1] == "\"";
      assert !StartsAt(t, 0, "\"\"\"") by {
        SingleIsNotTriple(value);
      }
    }
  }

  lemma SingleIsNotTriple(value: string)
    ensures !StartsAt("\"" + EscapeAll(value) + "\"", 0, "\"\"\"")
  {
    var t := "\"" + EscapeAll(value) + "\"";
    if value != [] {
      EscapeAllFromFront(value);
      assert EscapeAll(value)[0] == Escape(value[0])[0] != '"';
      assert t[0..3][1] == t[1] == EscapeAll(value)[0];
    }
  }

  lemma LiteralRoundTrip(value: string, style: Style)
    requires value != [] && !HasTriple(value) && value[|value| - 1] != '\''
    requires forall c | c in value :: !Unprintable(c)
    requires style == NewlineTriple <==> '\n' in value
    requires style == OnelineSingle <==> '\n' !in value && '\'' !in value
    ensures var (start, end) := Delimiters(true, style); Decode(start + value + end) == Some(value)
  {
    var (start, end) := Delimiters(true, style);
    LiteralIsRead(start, value, style != OnelineSingle);
    assert value[0] in value;
    hide DecodeLiteral, HasTriple, Decode;
    match style {
      case NewlineTriple => OpensWithNewline(value);
      case OnelineTriple => OpensTriple(value);
      case OnelineSingle => OpensSingle(value);
    }
  }

  lemma OpensWithNewline(value: string)
    ensures var t := "'''\n" + value + "'''"; Decode(t) == DecodeLiteral(t, 4, true)
  {
    hide DecodeLiteral;
    var t := "'''\n" + value + "'''";
    assert t[0..3] == "'''" && t[3..4] == "\n" && t[0] == '\'';
    NotThere(t, 0, 0, "\"");
    NotThere(t, 0, 0, "\"\"\"");
  }

  lemma OpensTriple(value: string)
    requires value != [] && value[0] != '\n' && value[0] != '\r'
    ensures var t := "'''" + value + "'''"; Decode(t) == DecodeLiteral(t, 3, true)
  {
    hide DecodeLiteral;
    var t := "'''" + value + "'''";
    assert t[0..3] == "'''" && t[0] == '\'' && t[3] == value[0];
    NotThere(t, 0, 0, "\"");
    NotThere(t, 0, 0, "\"\"\"");
    NotThere(t, 3, 0, "\n");
    NotThere(t, 3, 0, "\r\n");
  }

  lemma OpensSingle(value: string)
    requires value != [] && value[0] != '\''
    ensures var t := "'" + value + "'"; Decode(t) == DecodeLiteral(t, 1, false)
  {
    hide DecodeLiteral;
    var t := "'" + value + "'";
    assert t[0..1] == "'" && t[0] == '\'' && t[1] == value[0];
    NotThere(t, 0, 0, "\"");
    NotThere(t, 0, 0, "\"\"\"");
    NotThere(t, 0, 1, "'''");
  }

  lemma NotThere(t: string, i: nat, k: nat, p: string)
    requires k < |p| && (i + k < |t| ==> t[i + k] != p[k])
    ensures !StartsAt(t, i, p)
  {
    if i + |p| <= |t| {
      assert t[i..i + |p|][k] == t[i + k];
    }
  }
}
