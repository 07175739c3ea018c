/**
 * White space and comments as texts: which byte strings may stand between tokens. The functions of Text
 * skip exactly these, and a comment that nothing ends together with the rest of the text.
 */
module Gap {
  import opened Base
  import opened Text

  const SLASH: byte := '/' as int
  const STAR: byte := '*' as int
  const NEWLINE: byte := '\n' as int

  /** The two bytes that end a block comment stand at k. */
  predicate Ends(c: bytes, k: nat) {
    k + 1 < |c| && c[k] == STAR && c[k + 1] == SLASH
  }

  /** A block comment, which its first end mark ends and in which no NUL byte stands. */
  predicate IsBlock(c: bytes) {
    && |c| >= 4 && c[0] == SLASH && c[1] == STAR && Ends(c, |c| - 2)
    && forall k | 2 <= k < |c| - 2 :: c[k] != 0 && !Ends(c, k)
  }

  /** A line comment with its newline. */
  predicate IsLine(c: bytes) {
    && |c| >= 3 && c[0] == c[1] == SLASH && c[|c| - 1] == NEWLINE
    && forall k | 2 <= k < |c| - 1 :: c[k] != 0 && c[k] != NEWLINE
  }

  /** White space and complete comments. */
  ghost predicate IsGap(ws: bytes, comments: bool)
    decreases |ws|
  {
    || ws == []
    || (IsBlank(ws[0]) && IsGap(ws[1..], comments))
    || (comments && exists n | 0 < n <= |ws| :: (IsBlock(ws[..n]) || IsLine(ws[..n])) && IsGap(ws[n..], comments))
  }

  /** A comment that the end of the text ends, or a NUL byte that comes before its own end. */
  predicate IsOpenComment(c: bytes) {
    && |c| >= 2 && c[0] == SLASH
    && ((c[1] == STAR && forall k | 2 <= k < |c| && Ends(c, k) :: 0 in c[2..k])
        || (c[1] == SLASH && forall k | 2 <= k < |c| && c[k] == NEWLINE :: 0 in c[2..k]))
  }

  /** A byte that neither is white space nor starts a comment. */
  predicate EndsGap(b: byte) {
    !IsBlank(b) && b != SLASH
  }

  lemma {:induction false} BlankGap(ws: bytes, comments: bool)
    requires AllBlank(ws)
    ensures IsGap(ws, comments)
    decreases |ws|
  {
    if ws != [] {
      BlankGap(ws[1..], comments);
    }
  }

  lemma GapStart(ws: bytes, comments: bool)
    requires IsGap(ws, comments) && ws != []
    ensures IsBlank(ws[0]) || ws[0] == SLASH
  {
    var n := FirstOfGap(ws, comments);
    assert ws[..n][0] == ws[0];
  }

  // ----- What is skipped -----

  lemma BlankSkip(t: bytes, p: nat, comments: bool)
    requires p < |t| && IsBlank(t[p])
    ensures SpaceEnd(t, p, comments) == SpaceEnd(t, p + 1, comments)
  {
  }

  /** The search for the end of a block comment passes the bytes that do not end it. */
  lemma BlockStep(t: bytes, p: nat)
    requires p < |t| && t[p] != 0 && !(t[p] == STAR && At(t, p + 1) == SLASH)
    ensures BlockEnd(t, p) == BlockEnd(t, p + 1)
  {
  }

  lemma {:induction false} BlockSkip(t: bytes, p: nat, q: nat)
    requires p <= q && q + 2 <= |t| && t[q] == STAR && t[q + 1] == SLASH
    requires forall k | p <= k < q :: t[k] != 0 && !(t[k] == STAR && t[k + 1] == SLASH)
    ensures BlockEnd(t, p) == q + 2
    decreases q - p
  {
    if p < q {
      BlockStep(t, p);
      BlockSkip(t, p + 1, q);
    }
  }

  lemma {:induction false} LineSkip(t: bytes, p: nat, q: nat)
    requires p <= q < |t| && t[q] == NEWLINE
    requires forall k | p <= k < q :: t[k] != 0 && t[k] != NEWLINE
    ensures Find(t, p, NEWLINE) == q
    decreases q - p
  {
    if p < q {
      LineSkip(t, p + 1, q);
    }
  }

  /** Whether a NUL byte stands in t[p..k]. */
  predicate Nul(t: bytes, p: nat, k: nat) {
    p <= k <= |t| && 0 in t[p..k]
  }

  lemma NulStep(t: bytes, p: nat, k: nat)
    requires p < k <= |t| && t[p] != 0
    ensures Nul(t, p, k) <==> Nul(t, p + 1, k)
  {
    assert t[p..k] == [t[p]] + t[p + 1..k];
  }

  lemma {:induction false} OpenBlockSkip(t: bytes, p: nat)
    requires p <= |t| && forall k | p <= k < |t| && Ends(t, k) :: Nul(t, p, k)
    ensures BlockEnd(t, p) == |t|
    decreases |t| - p
  {
    if p < |t| && t[p] != 0 {
      if Ends(t, p) {
        assert false;
      }
      forall k | p + 1 <= k < |t| && Ends(t, k) ensures Nul(t, p + 1, k) {
        NulStep(t, p, k);
      }
      BlockStep(t, p);
      OpenBlockSkip(t, p + 1);
    }
  }

  lemma {:induction false} OpenLineSkip(t: bytes, p: nat)
    requires p <= |t| && forall k | p <= k < |t| && t[k] == NEWLINE :: Nul(t, p, k)
    ensures Find(t, p, NEWLINE) == |t|
    decreases |t| - p
  {
    if p < |t| && t[p] != 0 {
      if t[p] == NEWLINE {
        assert false;
      }
      forall k | p + 1 <= k < |t| && t[k] == NEWLINE ensures Nul(t, p + 1, k) {
        NulStep(t, p, k);
      }
      OpenLineSkip(t, p + 1);
    }
  }

  lemma CommentStep(t: bytes, p: nat)
    requires p < |t| && t[p] == SLASH
    ensures CommentEnd(t, p).Done? ==> SpaceEnd(t, p, true) == SpaceEnd(t, CommentEnd(t, p).pos, true)
    ensures CommentEnd(t, p).Fail? ==> SpaceEnd(t, p, true).Fail?
  {
    hide CommentEnd;
  }

  lemma BlockCommentSkip(t: bytes, p: nat, c: bytes)
    requires Occurs(t, p, c) && IsBlock(c)
    ensures SpaceEnd(t, p, true) == SpaceEnd(t, p + |c|, true)
  {
    hide SpaceEnd;
    var q := p + |c|;
    assert forall k | 0 <= k < |c| :: c[k] == t[p..q][k] == t[p + k];
    forall k | p + 2 <= k < q - 2 ensures t[k] != 0 && !(t[k] == STAR && t[k + 1] == SLASH) {
      assert c[k - p] == t[k] && c[k - p + 1] == t[k + 1];
    }
    BlockSkip(t, p + 2, q - 2);
    CommentStep(t, p);
  }

  lemma LineCommentSkip(t: bytes, p: nat, c: bytes)
    requires Occurs(t, p, c) && IsLine(c)
    ensures SpaceEnd(t, p, true) == SpaceEnd(t, p + |c|, true)
  {
    hide SpaceEnd;
    var q := p + |c|;
    assert forall k | 0 <= k < |c| :: c[k] == t[p..q][k] == t[p + k];
    forall k | p + 2 <= k < q - 1 ensures t[k] != 0 && t[k] != NEWLINE {
      assert c[k - p] == t[k];
    }
    LineSkip(t, p + 2, q - 1);
    CommentStep(t, p);
    BlankSkip(t, q - 1, true);
  }

  /** The first blank or comment of a gap. */
  lemma FirstOfGap(ws: bytes, comments: bool) returns (n: nat)
    requires IsGap(ws, comments) && ws != []
    ensures 0 < n <= |ws| && IsGap(ws[n..], comments)
    ensures (n == 1 && IsBlank(ws[0])) || (comments && (IsBlock(ws[..n]) || IsLine(ws[..n])))
  {
    hide IsBlock, IsLine;
    if IsBlank(ws[0]) && IsGap(ws[1..], comments) {
      n := 1;
    } else {
      n :| 0 < n <= |ws| && (IsBlock(ws[..n]) || IsLine(ws[..n])) && IsGap(ws[n..], comments);
    }
  }

  /** A gap is skipped: what ends the space behind it ends the space before it. */
  lemma {:induction false} GapSkip(t: bytes, p: nat, ws: bytes, comments: bool)
    requires IsGap(ws, comments) && Occurs(t, p, ws)
    ensures SpaceEnd(t, p, comments) == SpaceEnd(t, p + |ws|, comments)
    decreases |ws|
  {
    hide SpaceEnd, IsBlock, IsLine;
    if ws != [] {
      var n := FirstOfGap(ws, comments);
      hide IsGap;
      GapSplit(t, p, ws, n);
      if n == 1 && IsBlank(ws[0]) {
        BlankSkip(t, p, comments);
      } else if IsBlock(ws[..n]) {
        BlockCommentSkip(t, p, ws[..n]);
      } else {
        LineCommentSkip(t, p, ws[..n]);
      }
      GapSkip(t, p + n, ws[n..], comments);
    }
  }

  lemma GapSplit(t: bytes, p: nat, ws: bytes, n: nat)
    requires Occurs(t, p, ws) && 0 < n <= |ws|
    ensures Occurs(t, p, ws[..n]) && Occurs(t, p + n, ws[n..]) && t[p] == ws[0]
  {
    assert ws == ws[..n] + ws[n..];
    OccursSplit(t, p, ws[..n], ws[n..]);
    OccursAt(t, p, ws, 0);
  }

  lemma OpenBlock(t: bytes, p: nat)
    requires p <= |t| && IsOpenComment(t[p..]) && t[p + 1] == STAR
    ensures BlockEnd(t, p + 2) == |t|
  {
    var c := t[p..];
    assert forall k | 0 <= k < |c| :: c[k] == t[p + k];
    forall k | p + 2 <= k < |t| && Ends(t, k) ensures Nul(t, p + 2, k) {
      assert Ends(c, k - p);
      SliceOf(t, p, |t|, 2, k - p);
      assert t[p..|t|] == c;
    }
    hide IsOpenComment, Ends, Nul;
    OpenBlockSkip(t, p + 2);
  }

  lemma OpenLine(t: bytes, p: nat)
    requires p <= |t| && IsOpenComment(t[p..]) && t[p + 1] != STAR
    ensures Find(t, p + 2, NEWLINE) == |t|
  {
    var c := t[p..];
    assert forall k | 0 <= k < |c| :: c[k] == t[p + k];
    forall k | p + 2 <= k < |t| && t[k] == NEWLINE ensures Nul(t, p + 2, k) {
      assert c[k - p] == NEWLINE;
      SliceOf(t, p, |t|, 2, k - p);
      assert t[p..|t|] == c;
    }
    hide IsOpenComment, Nul;
    OpenLineSkip(t, p + 2);
  }

  lemma OpenStarts(t: bytes, p: nat)
    requires p <= |t| && IsOpenComment(t[p..])
    ensures p + 2 <= |t| && t[p] == SLASH && t[p + 1] in {STAR, SLASH}
  {
  }

  lemma OpenSkip(t: bytes, p: nat)
    requires p <= |t| && IsOpenComment(t[p..])
    ensures SpaceEnd(t, p, true) == Done((), |t|)
  {
    hide SpaceEnd, IsOpenComment;
    OpenStarts(t, p);
    CommentStep(t, p);
    SpaceEndIdempotent(t, |t|, true);
    if t[p + 1] == STAR {
      OpenBlock(t, p);
    } else {
      OpenLine(t, p);
    }
  }

  // ----- Nothing else is skipped -----

  lemma {:induction false} BlockSound(t: bytes, p: nat)
    requires p <= |t|
    ensures var q := BlockEnd(t, p);
      || (p + 2 <= q && Ends(t, q - 2) && forall k | p <= k < q - 2 :: t[k] != 0 && !Ends(t, k))
      || (q == |t| && forall k | p <= k < |t| && Ends(t, k) :: Nul(t, p, k))
    decreases |t| - p
  {
    if p < |t| {
      if t[p] == 0 {
        forall k | p <= k < |t| && Ends(t, k) ensures Nul(t, p, k) {
          assert t[p..k][0] == 0;
        }
      } else if !Ends(t, p) {
        BlockStep(t, p);
        BlockSound(t, p + 1);
        forall k | p < k < |t| && Nul(t, p + 1, k) ensures Nul(t, p, k) {
          NulStep(t, p, k);
        }
      }
    }
  }

  lemma {:induction false} LineSound(t: bytes, p: nat)
    requires p <= |t|
    ensures var q := Find(t, p, NEWLINE);
      || (q < |t| && t[q] == NEWLINE && forall k | p <= k < q :: t[k] != 0 && t[k] != NEWLINE)
      || (q == |t| && forall k | p <= k < |t| && t[k] == NEWLINE :: Nul(t, p, k))
    decreases |t| - p
  {
    if p < |t| {
      if t[p] == 0 {
        forall k | p <= k < |t| && t[k] == NEWLINE ensures Nul(t, p, k) {
          assert t[p..k][0] == 0;
        }
      } else if t[p] != NEWLINE {
        LineSound(t, p + 1);
        forall k | p < k < |t| && Nul(t, p + 1, k) ensures Nul(t, p, k) {
          NulStep(t, p, k);
        }
      }
    }
  }

  /** A comment at p ends, at n, or is open to the end of the text; the space goes on where it ends. */
  lemma CommentSound(t: bytes, p: nat) returns (n: nat)
    requires p < |t| && t[p] == SLASH && SpaceEnd(t, p, true).Done?
    ensures p < n <= |t| && SpaceEnd(t, p, true) == SpaceEnd(t, n, true)
    ensures IsBlock(t[p..n]) || IsLine(t[p..n]) || (n == |t| && IsOpenComment(t[p..n]))
  {
    CommentStep(t, p);
    hide SpaceEnd, IsBlock, IsLine, IsOpenComment;
    if At(t, p + 1) == STAR {
      BlockSound(t, p + 2);
      n := BlockEnd(t, p + 2);
      BlockShape(t, p, n);
    } else {
      LineSound(t, p + 2);
      var q := Find(t, p + 2, NEWLINE);
      if q < |t| {
        n := q + 1;
        BlankSkip(t, q, true);
      } else {
        n := q;
      }
      LineShape(t, p, n);
    }
  }

  lemma BlockShape(t: bytes, p: nat, n: nat)
    requires p + 2 <= n <= |t| && t[p] == SLASH && t[p + 1] == STAR
    requires
      || (p + 4 <= n && Ends(t, n - 2) && forall k | p + 2 <= k < n - 2 :: t[k] != 0 && !Ends(t, k))
      || (n == |t| && forall k | p + 2 <= k < |t| && Ends(t, k) :: Nul(t, p + 2, k))
    ensures IsBlock(t[p..n]) || (n == |t| && IsOpenComment(t[p..n]))
  {
    var c := t[p..n];
    assert forall k | 0 <= k < |c| :: c[k] == t[p + k];
    if p + 4 <= n && Ends(t, n - 2) && forall k | p + 2 <= k < n - 2 :: t[k] != 0 && !Ends(t, k) {
      forall k | 2 <= k < |c| - 2 ensures c[k] != 0 && !Ends(c, k) {
        assert t[p + k] != 0 && !Ends(t, p + k);
      }
    } else {
      forall k | 2 <= k < |c| && Ends(c, k) ensures 0 in c[2..k] {
        assert Ends(t, p + k);
        assert c[2..k] == t[p + 2..p + k];
      }
    }
  }

  lemma LineShape(t: bytes, p: nat, n: nat)
    requires p + 2 <= n <= |t| && t[p] == t[p + 1] == SLASH
    requires
      || (p + 3 <= n && t[n - 1] == NEWLINE && forall k | p + 2 <= k < n - 1 :: t[k] != 0 && t[k] != NEWLINE)
      || (n == |t| && forall k | p + 2 <= k < |t| && t[k] == NEWLINE :: Nul(t, p + 2, k))
    ensures IsLine(t[p..n]) || (n == |t| && IsOpenComment(t[p..n]))
  {
    var c := t[p..n];
    assert forall k | 0 <= k < |c| :: c[k] == t[p + k];
    if p + 3 <= n && t[n - 1] == NEWLINE && forall k | p + 2 <= k < n - 1 :: t[k] != 0 && t[k] != NEWLINE {
      forall k | 2 <= k < |c| - 1 ensures c[k] != 0 && c[k] != NEWLINE {
        assert t[p + k] != 0;
      }
    } else {
      forall k | 2 <= k < |c| && c[k] == NEWLINE ensures 0 in c[2..k] {
        assert t[p + k] == NEWLINE;
        assert c[2..k] == t[p + 2..p + k];
      }
    }
  }

  /** Where neither white space nor a comment starts nothing is skipped. */
  lemma SpaceCutStart(t: bytes, p: nat, comments: bool)
    requires p <= |t|
    ensures !IsBlank(At(t, p)) && (comments ==> At(t, p) != SLASH) ==> SpaceEnd(t, p, comments) == Done((), p)
    ensures IsGap(t[p..p], comments)
  {
  }

  lemma BlankBefore(t: bytes, p: nat, n: nat, comments: bool)
    requires p < n <= |t| && IsBlank(t[p]) && IsGap(t[p + 1..n], comments)
    ensures IsGap(t[p..n], comments)
  {
    SliceOf(t, p, n, 1, n - p);
    assert t[p..n][0] == t[p];
  }

  lemma CommentBefore(t: bytes, p: nat, m: nat, n: nat)
    requires p < m <= n <= |t| && (IsBlock(t[p..m]) || IsLine(t[p..m])) && IsGap(t[m..n], true)
    ensures IsGap(t[p..n], true)
  {
    hide IsBlock, IsLine;
    SliceOf(t, p, n, 0, m - p);
    SliceOf(t, p, n, m - p, n - p);
    var ws := t[p..n];
    assert ws[..m - p] == t[p..m] && ws[m - p..] == t[m..n];
  }

  /** What is skipped is a gap, up to a comment that is open to the end of the text. */
  lemma {:induction false} SpaceCut(t: bytes, p: nat, comments: bool) returns (n: nat)
    requires p <= |t| && SpaceEnd(t, p, comments).Done?
    ensures p <= n <= SpaceEnd(t, p, comments).pos && IsGap(t[p..n], comments)
    ensures n < SpaceEnd(t, p, comments).pos ==>
      comments && SpaceEnd(t, p, comments).pos == |t| && IsOpenComment(t[n..])
    decreases |t| - p
  {
    hide IsGap, IsBlock, IsLine, IsOpenComment, SpaceEnd;
    SpaceCutStart(t, p, comments);
    var b := At(t, p);
    if IsBlank(b) {
      BlankSkip(t, p, comments);
      n := SpaceCut(t, p + 1, comments);
      BlankBefore(t, p, n, comments);
    } else if comments && b == SLASH {
      var m := CommentSound(t, p);
      if IsBlock(t[p..m]) || IsLine(t[p..m]) {
        n := SpaceCut(t, m, comments);
        CommentBefore(t, p, m, n);
      } else {
        n := p;
        assert t[p..m] == t[p..];
      }
    } else {
      n := p;
    }
  }

  /** Space that ends before the end of the text is a gap. */
  lemma GapSound(t: bytes, p: nat, comments: bool)
    requires p <= |t| && SpaceEnd(t, p, comments).Done? && SpaceEnd(t, p, comments).pos < |t|
    ensures IsGap(t[p..SpaceEnd(t, p, comments).pos], comments)
  {
    var n := SpaceCut(t, p, comments);
  }
}
