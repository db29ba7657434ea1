/** The contract of the Svelte scan leaves no choice either: a component has one stripped text. */
module SvelteUniqueness {
  import opened LibraryStore
  import opened CommentStripper

  // --- style sheets -----------------------------------------------------------------

  lemma CssPiece(body: string, out: string, pieces: seq<Piece>, n: nat)
    requires CssStripped(body, out, pieces) && n < |pieces|
    ensures var p := pieces[n];
            && p.limit == |body| && p.from < p.to <= |body| && Is(body, p.from, p.to, p.kind)
            && p.kind == if ClosedAt(body, p.from) then Comment else Css
  {
    var p := pieces[n];
    assert p in pieces && Sound(body, p) && body[..|body|] == body;
    var j := IndexOf(body, "*/", p.from + 2);
    assert j < |body| ==> At(body, j, "*/");
  }

  lemma CssTiles(body: string, out: string, pieces: seq<Piece>)
    requires CssStripped(body, out, pieces)
    ensures Tiles(pieces, 0, |body|)
  {
  }

  lemma {:induction false} CssPiecesAgree(body: string, out: string, pieces: seq<Piece>, other: string, more: seq<Piece>, n: nat)
    requires CssStripped(body, out, pieces) && CssStripped(body, other, more) && n <= |pieces| && n <= |more|
    ensures pieces[..n] == more[..n]
    decreases n
  {
    hide *;
    if n > 0 {
      CssPiecesAgree(body, out, pieces, other, more, n - 1);
      CssTiles(body, out, pieces);
      CssTiles(body, other, more);
      SameStart(0, |body|, |body|, pieces, more, n - 1);
      CssPiece(body, out, pieces, n - 1);
      CssPiece(body, other, more, n - 1);
      var p, q := pieces[n - 1], more[n - 1];
      EndIsUnique(body, p.from, p.to, q.to, p.kind);
      assert pieces[..n] == pieces[..n - 1] + [p] && more[..n] == more[..n - 1] + [q];
    }
  }

  /** Two readings of a style sheet are the same. */
  lemma CssIsUnique(body: string, out: string, pieces: seq<Piece>, other: string, more: seq<Piece>)
    requires CssStripped(body, out, pieces) && CssStripped(body, other, more)
    ensures out == other
  {
    var n := if |pieces| <= |more| then |pieces| else |more|;
    CssPiecesAgree(body, out, pieces, other, more, n);
    if |pieces| <= |more| {
      assert pieces[..n] == pieces;
      CssEndsTogether(body, out, pieces, other, more);
    } else {
      assert more[..n] == more;
      CssEndsTogether(body, other, more, out, pieces);
    }
    assert pieces == more;
    SamePiecesSameText(body, 0, |body|, out, other, pieces);
  }

  lemma CssEndsTogether(body: string, out: string, pieces: seq<Piece>, other: string, more: seq<Piece>)
    requires CssStripped(body, out, pieces) && CssStripped(body, other, more)
    requires |pieces| <= |more| && more[..|pieces|] == pieces
    ensures |pieces| == |more|
  {
    if |pieces| < |more| {
      TilesFollow(more, 0, |body|, |pieces|);
      NextStart(body, 0, |body|, |body|, out, other, pieces, more);
      assert false;
    }
  }

  lemma SamePiecesSameText(src: string, a: nat, b: nat, out: string, other: string, pieces: seq<Piece>)
    requires Stripped(src, a, b, out, pieces) && Stripped(src, a, b, other, pieces)
    ensures out == other
  {
    assert forall i | 0 <= i < |out| :: out[i] == other[i] by {
      forall i | 0 <= i < |out|
        ensures out[i] == other[i]
      {
        var k := i + a;
        assert out[k - a] == if InComment(pieces, k) && src[k] != '\n' then ' ' else src[k];
      }
    }
  }

  // --- regions -------------------------------------------------------------------------

  lemma JsTextIsUnique(text: string, start: nat, untilBrace: bool, out: string, end: nat, p: seq<Piece>, other: string, stop: nat, q: seq<Piece>)
    requires JsStripped(text, start, untilBrace, out, end, p) && JsStripped(text, start, untilBrace, other, stop, q)
    ensures out == other && Clip(text, end) == Clip(text, stop)
  {
    hide *;
    ReadingIsUnique(text, start, untilBrace, out, end, p, other, stop, q);
  }

  lemma BlockIsUnique(src: string, r: Region, q: Region, tag: string, body: nat, text: string, other: string)
    requires BlockStripped(src, r, tag, body, text) && BlockStripped(src, q, tag, body, other) && r.from == q.from
    ensures r.to == q.to && text == other
  {
    hide JsStripped, CssStripped, IndexOf;
    var k := body - r.from;
    if tag == "script" {
      JsTextIsUnique(src[body..r.to], 0, false, text[k..], r.to - body, r.inner, other[k..], q.to - body, q.inner);
    } else {
      CssIsUnique(src[body..r.to], text[k..], r.inner, other[k..], q.inner);
    }
    assert text == text[..k] + text[k..] && other == other[..k] + other[k..];
  }

  lemma ExpressionIsUnique(src: string, r: Region, q: Region, text: string, other: string)
    requires ExpressionStripped(src, r, text) && ExpressionStripped(src, q, other) && r.from == q.from
    requires r.to <= |src| && q.to <= |src|
    ensures r.to == q.to && text == other
  {
    hide JsStripped;
    var code := ExpressionStart(src, r.from);
    var m := Clip(src, r.end) - r.from;
    var k := code - r.from;
    JsTextIsUnique(src, code, true, text[k..m], r.end, r.inner, other[k..Clip(src, q.end) - q.from], q.end, q.inner);
    assert r.to == q.to;
    assert text == text[..k] + text[k..m] + text[m..] && other == other[..k] + other[k..m] + other[m..];
  }

  /** Where a region starts decides where it ends and what it becomes. */
  lemma RegionIsUnique(src: string, r: Region, q: Region, text: string, other: string)
    requires RegionStripped(src, r, text) && RegionStripped(src, q, other) && r.from == q.from
    ensures r.to == q.to && text == other
  {
    hide BlockStripped, ExpressionStripped, Delimited, BlockTag;
    if At(src, r.from, "<!--") {
      DelimitedEnd(src, r.from, r.to, "<!--", "-->");
      DelimitedEnd(src, r.from, q.to, "<!--", "-->");
    } else if BlockTag(src, r.from).Some? {
      BlockIsUnique(src, r, q, BlockTag(src, r.from).value.0, BlockTag(src, r.from).value.1, text, other);
    } else if !At(src, r.from, "{/") && src[r.from] == '{' {
      ExpressionIsUnique(src, r, q, text, other);
    }
  }

  /** The regions one by one, from the start. */
  lemma {:induction false} RegionAt(src: string, b: nat, out: string, regions: seq<Region>, n: nat)
    requires SvelteStripped(src, b, out, regions) && n < |regions|
    ensures var r := regions[n];
            && r.from < r.to <= b == |out| && r.from == (if n == 0 then 0 else regions[n - 1].to)
            && RegionStripped(src, r, out[r.from..r.to])
    ensures regions[|regions| - 1].to == b
    decreases |regions|
  {
    hide RegionStripped;
    var last := regions[|regions| - 1];
    var init := regions[..|regions| - 1];
    TextLength(src, b, out, regions);
    if n < |init| {
      RegionAt(src, last.from, out[..last.from], init, n);
      assert init[n] == regions[n] && (n > 0 ==> init[n - 1] == regions[n - 1]);
      assert out[..last.from][regions[n].from..regions[n].to] == out[regions[n].from..regions[n].to];
    } else {
      assert out[last.from..] == out[last.from..last.to];
      if init != [] {
        RegionAt(src, last.from, out[..last.from], init, |init| - 1);
        assert init[|init| - 1] == regions[n - 1];
      }
    }
  }

  lemma TextLength(src: string, b: nat, out: string, regions: seq<Region>)
    requires SvelteStripped(src, b, out, regions)
    ensures |out| == b
  {
    if regions != [] {
      assert RegionStripped(src, regions[|regions| - 1], out[regions[|regions| - 1].from..]);
    }
  }

  /** The first `n` regions cover the same text and become the same. */
  lemma {:induction false} RegionsAgree(
      src: string, b: nat, out: string, regions: seq<Region>, c: nat, other: string, more: seq<Region>, n: nat)
    requires SvelteStripped(src, b, out, regions) && SvelteStripped(src, c, other, more) && 0 < n <= |regions| && n <= |more|
    ensures regions[n - 1].to == more[n - 1].to <= |out| && regions[n - 1].to <= |other|
    ensures out[..regions[n - 1].to] == other[..regions[n - 1].to]
    decreases n
  {
    hide *;
    RegionAt(src, b, out, regions, n - 1);
    RegionAt(src, c, other, more, n - 1);
    var r, q := regions[n - 1], more[n - 1];
    if n > 1 {
      RegionsAgree(src, b, out, regions, c, other, more, n - 1);
    }
    assert r.from == q.from && out[..r.from] == other[..r.from];
    RegionIsUnique(src, r, q, out[r.from..r.to], other[q.from..q.to]);
    assert out[..r.to] == out[..r.from] + out[r.from..r.to] && other[..q.to] == other[..q.from] + other[q.from..q.to];
  }

  /** A component has one stripped text. */
  lemma StrippedComponentIsUnique(src: string, out: string, regions: seq<Region>, other: string, more: seq<Region>)
    requires SvelteStripped(src, |src|, out, regions) && SvelteStripped(src, |src|, other, more)
    ensures out == other
  {
    if |regions| <= |more| {
      ShorterIsSame(src, out, regions, other, more);
    } else {
      ShorterIsSame(src, other, more, out, regions);
    }
  }

  lemma ShorterIsSame(src: string, out: string, regions: seq<Region>, other: string, more: seq<Region>)
    requires SvelteStripped(src, |src|, out, regions) && SvelteStripped(src, |src|, other, more) && |regions| <= |more|
    ensures out == other
  {
    hide *;
    TextLength(src, |src|, out, regions);
    TextLength(src, |src|, other, more);
    if regions == [] {
      NoRegions(src, |src|, out);
      assert other == "";
    } else {
      var n := |regions|;
      RegionAt(src, |src|, out, regions, n - 1);
      RegionsAgree(src, |src|, out, regions, |src|, other, more, n);
      assert out[..|src|] == out && other[..|src|] == other;
    }
  }

  lemma NoRegions(src: string, b: nat, out: string)
    requires SvelteStripped(src, b, out, [])
    ensures b == 0 && out == ""
  {
  }
}
