/** Splicing the received bytes of the original into the copy of the redacted file. */
module Patching {
  import opened LibraryStore

  /** Bytes received for one range of the original. */
  datatype Piece = Piece(off: nat, buf: Bytes)

  datatype Patched = Patched(content: Bytes) | NotARedaction | ShortRead

  /** One round of the splice loop: read as many bytes as the piece has, refuse if a differing byte of
      the copy is not zero, write the piece. */
  function PatchOne(copy: Bytes, p: Piece): Patched {
    if p.off + |p.buf| > |copy| then ShortRead
    else if exists i | 0 <= i < |p.buf| :: copy[p.off + i] != p.buf[i] && copy[p.off + i] != 0 then NotARedaction
    else Patched(copy[..p.off] + p.buf + copy[p.off + |p.buf|..])
  }

  /** The whole splice loop. */
  function PatchAll(copy: Bytes, pieces: seq<Piece>): Patched
    decreases |pieces|
  {
    if pieces == [] then Patched(copy)
    else match PatchOne(copy, pieces[0])
      case Patched(content) => PatchAll(content, pieces[1..])
      case refused => refused
  }

  /** A written piece only fills bytes that the redacted file has as zeros. */
  lemma PatchOneKeepsRedaction(redacted: Bytes, copy: Bytes, p: Piece)
    requires RedactionOf(redacted, copy) && PatchOne(copy, p).Patched?
    ensures RedactionOf(redacted, PatchOne(copy, p).content)
  {
    var out := PatchOne(copy, p).content;
    forall i | 0 <= i < |redacted| && redacted[i] != 0
      ensures out[i] == redacted[i]
    {
      if p.off <= i < p.off + |p.buf| {
        assert copy[p.off + (i - p.off)] != 0;
      }
    }
  }

  /** Whatever the pieces are, overlapping ones included: a finished splice keeps the length and every byte
      that was not zero. */
  lemma {:induction false} PatchAllKeepsRedaction(redacted: Bytes, copy: Bytes, pieces: seq<Piece>)
    requires RedactionOf(redacted, copy) && PatchAll(copy, pieces).Patched?
    ensures RedactionOf(redacted, PatchAll(copy, pieces).content)
    decreases |pieces|
  {
    if pieces != [] {
      PatchOneKeepsRedaction(redacted, copy, pieces[0]);
      PatchAllKeepsRedaction(redacted, PatchOne(copy, pieces[0]).content, pieces[1..]);
    }
  }

  // --- the splice, byte by byte ---------------------------------------------------------------

  predicate Touches(p: Piece, i: nat) {
    p.off <= i < p.off + |p.buf|
  }

  /** The byte at `i` after the first `n` pieces: what the last of them that touches it says. */
  function ByteAt(copy: Bytes, pieces: seq<Piece>, n: nat, i: nat): Byte
    requires n <= |pieces| && i < |copy|
  {
    if n == 0 then copy[i]
    else if Touches(pieces[n - 1], i) then pieces[n - 1].buf[i - pieces[n - 1].off]
    else ByteAt(copy, pieces, n - 1, i)
  }

  /** Piece `k` lies inside the file and, where it says something else than what is there by then, meets zeros. */
  ghost predicate Writable(copy: Bytes, pieces: seq<Piece>, k: nat)
    requires k < |pieces|
  {
    && pieces[k].off + |pieces[k].buf| <= |copy|
    && forall i | pieces[k].off <= i < pieces[k].off + |pieces[k].buf| ::
         ByteAt(copy, pieces, k, i) == 0 || ByteAt(copy, pieces, k, i) == pieces[k].buf[i - pieces[k].off]
  }

  lemma {:induction false} PatchAllEndsWith(copy: Bytes, pieces: seq<Piece>)
    requires pieces != []
    ensures var init, last := pieces[..|pieces| - 1], pieces[|pieces| - 1];
            PatchAll(copy, pieces) == match PatchAll(copy, init)
                                      case Patched(content) => PatchOne(content, last)
                                      case refused => refused
    decreases |pieces|
  {
    if |pieces| == 1 {
      assert pieces[1..] == [] && pieces[..0] == [];
    } else {
      assert pieces[1..][..|pieces| - 2] == pieces[..|pieces| - 1][1..];
      hide PatchOne;
      if PatchOne(copy, pieces[0]).Patched? {
        PatchAllEndsWith(PatchOne(copy, pieces[0]).content, pieces[1..]);
      }
    }
  }

  lemma {:induction false} ByteAtIgnoresLater(copy: Bytes, pieces: seq<Piece>, m: nat, n: nat, i: nat)
    requires n <= m <= |pieces| && i < |copy|
    ensures ByteAt(copy, pieces[..m], n, i) == ByteAt(copy, pieces, n, i)
  {
    if n > 0 {
      ByteAtIgnoresLater(copy, pieces, m, n - 1, i);
    }
  }

  /** The splice goes through if and only if every piece can be written; then each byte is what the last piece on it
      says, or what was there. */
  lemma {:induction false} SpliceIsExact(copy: Bytes, pieces: seq<Piece>)
    ensures PatchAll(copy, pieces).Patched? <==> forall k | 0 <= k < |pieces| :: Writable(copy, pieces, k)
    ensures PatchAll(copy, pieces).Patched? ==>
              && |PatchAll(copy, pieces).content| == |copy|
              && forall i | 0 <= i < |copy| :: PatchAll(copy, pieces).content[i] == ByteAt(copy, pieces, |pieces|, i)
  {
    if pieces != [] {
      var n := |pieces| - 1;
      var init := pieces[..n];
      SpliceIsExact(copy, init);
      PatchAllEndsWith(copy, pieces);
      forall k, i: nat | 0 <= k <= n && i < |copy|
        ensures ByteAt(copy, init, k, i) == ByteAt(copy, pieces, k, i)
      {
        ByteAtIgnoresLater(copy, pieces, n, k, i);
      }
      forall k | 0 <= k < n
        ensures Writable(copy, init, k) <==> Writable(copy, pieces, k)
      {
        assert init[k] == pieces[k];
      }
      hide PatchAll;
      if PatchAll(copy, init).Patched? {
        LastPieceIsWritten(copy, pieces, PatchAll(copy, init).content);
      }
    }
  }

  lemma LastPieceIsWritten(copy: Bytes, pieces: seq<Piece>, content: Bytes)
    requires pieces != [] && |content| == |copy|
    requires forall i | 0 <= i < |copy| :: content[i] == ByteAt(copy, pieces, |pieces| - 1, i)
    ensures var last := PatchOne(content, pieces[|pieces| - 1]);
            && (last.Patched? <==> Writable(copy, pieces, |pieces| - 1))
            && (last.Patched? ==>
                  && |last.content| == |copy|
                  && forall i | 0 <= i < |copy| :: last.content[i] == ByteAt(copy, pieces, |pieces|, i))
  {
    var p := pieces[|pieces| - 1];
    if PatchOne(content, p) == NotARedaction {
      var i :| 0 <= i < |p.buf| && content[p.off + i] != p.buf[i] && content[p.off + i] != 0;
      assert ByteAt(copy, pieces, |pieces| - 1, p.off + i) == content[p.off + i];
    }
    if PatchOne(content, p).Patched? {
      assert forall j | 0 <= j < |p.buf| :: content[p.off + j] == p.buf[j] || content[p.off + j] == 0;
      assert forall i {:trigger content[i]} | p.off <= i < p.off + |p.buf| :: content[i] == content[p.off + (i - p.off)];
    }
  }

  ghost predicate Touched(pieces: seq<Piece>, n: nat, i: nat)
    requires n <= |pieces|
  {
    exists k :: 0 <= k < n && Touches(pieces[k], i)
  }

  /** Pieces cut from the new content. */
  ghost predicate CutFrom(pieces: seq<Piece>, full: Bytes) {
    forall p | p in pieces :: p.off + |p.buf| <= |full| && p.buf == full[p.off..p.off + |p.buf|]
  }

  lemma {:induction false} ByteOfCutPieces(copy: Bytes, full: Bytes, pieces: seq<Piece>, n: nat, i: nat)
    requires |copy| == |full| && CutFrom(pieces, full) && n <= |pieces| && i < |copy|
    ensures ByteAt(copy, pieces, n, i) == if Touched(pieces, n, i) then full[i] else copy[i]
  {
    if n > 0 {
      ByteOfCutPieces(copy, full, pieces, n - 1, i);
      assert pieces[n - 1] in pieces;
    }
  }

  /** An honest request: pieces cut from the new content turn the old one into it if and only if the old one is the
      new one with bytes zeroed, and some piece is on each of those. */
  lemma HonestSpliceSucceedsExactlyWhen(copy: Bytes, full: Bytes, pieces: seq<Piece>)
    requires CutFrom(pieces, full)
    ensures PatchAll(copy, pieces) == Patched(full) <==>
            RedactionOf(copy, full) && forall i: nat | i < |full| && copy[i] != full[i] :: Touched(pieces, |pieces|, i)
  {
    hide Touched, PatchAll, CutFrom;
    if PatchAll(copy, pieces) == Patched(full) {
      SuccessTouchesAll(copy, full, pieces);
    }
    if RedactionOf(copy, full) && forall i: nat | i < |full| && copy[i] != full[i] :: Touched(pieces, |pieces|, i) {
      TouchedAllSucceeds(copy, full, pieces);
    }
  }

  lemma SuccessTouchesAll(copy: Bytes, full: Bytes, pieces: seq<Piece>)
    requires CutFrom(pieces, full) && PatchAll(copy, pieces) == Patched(full)
    ensures RedactionOf(copy, full)
    ensures forall i: nat | i < |full| && copy[i] != full[i] :: Touched(pieces, |pieces|, i)
  {
    hide Touched, PatchAll, Writable;
    SpliceIsExact(copy, pieces);
    PatchAllKeepsRedaction(copy, copy, pieces);
    forall i: nat | i < |full| && copy[i] != full[i]
      ensures Touched(pieces, |pieces|, i)
    {
      ByteOfCutPieces(copy, full, pieces, |pieces|, i);
    }
  }

  lemma TouchedAllSucceeds(copy: Bytes, full: Bytes, pieces: seq<Piece>)
    requires CutFrom(pieces, full) && RedactionOf(copy, full)
    requires forall i: nat | i < |full| && copy[i] != full[i] :: Touched(pieces, |pieces|, i)
    ensures PatchAll(copy, pieces) == Patched(full)
  {
    hide Touched, PatchAll, ByteAt;
    SpliceIsExact(copy, pieces);
    forall k | 0 <= k < |pieces|
      ensures Writable(copy, pieces, k)
    {
      CutPieceIsWritable(copy, full, pieces, k);
    }
    hide Writable;
    forall i: nat | i < |copy|
      ensures PatchAll(copy, pieces).content[i] == full[i]
    {
      ByteOfCutPieces(copy, full, pieces, |pieces|, i);
    }
    assert PatchAll(copy, pieces).content == full;
  }

  lemma CutPieceIsWritable(copy: Bytes, full: Bytes, pieces: seq<Piece>, k: nat)
    requires CutFrom(pieces, full) && RedactionOf(copy, full) && k < |pieces|
    ensures Writable(copy, pieces, k)
  {
    hide Touched, ByteAt;
    assert pieces[k] in pieces;
    forall i: nat | i < |copy| {
      ByteOfCutPieces(copy, full, pieces, k, i);
    }
  }
}
