/**
 * The block partitioner with its two flushing defects repaired, beside
 * inputs on which the loop as written departs from it.
 *
 *  - The loop as written flushes even an empty buffer, so a first
 *    paragraph over the limit produces an empty first block that holds no
 *    paragraph (EmptyFirstBlockWitness).
 *  - It seeds the new buffer with the paragraph verbatim, with no newline,
 *    so the next appended paragraph is glued onto it (GluedSeedWitness).
 *
 * The repaired loop flushes only a non-empty buffer and seeds it the way
 * the append branch would; RepairedPartitionGroups proves that every block
 * it emits is the newline-joined text of a non-empty run of consecutive
 * paragraphs, and that the runs cover the paragraphs exactly, in order.
 */
module BlocksRepaired {
  import opened Text
  import opened Blocks

  /** One iteration, repaired. */
  function RepairedFeed(st: Partial, p: string, limit: int, tok: string -> nat): Partial
  {
    if st.buffer != "" && st.count + tok(p) > limit then
      Partial(st.blocks + [Strip(st.buffer)], Strip(p) + "\n", tok(p))
    else
      Partial(st.blocks, st.buffer + Strip(p) + "\n", st.count + tok(p))
  }

  function RepairedScan(ps: seq<string>, limit: int, tok: string -> nat): Partial
  {
    if ps == [] then Partial([], "", 0)
    else RepairedFeed(RepairedScan(ps[..|ps| - 1], limit, tok), ps[|ps| - 1], limit, tok)
  }

  function RepairedPartition(ps: seq<string>, limit: int, tok: string -> nat): seq<string>
  {
    Finish(RepairedScan(ps, limit, tok))
  }

  /** Paragraph level: a paragraph closes the open group only when that group is non-empty. */
  function RepairedPlace(g: Groups, p: string, limit: int, tok: string -> nat): Groups
  {
    if g.open != [] && SumTok(g.open, tok) + tok(p) > limit then Groups(g.closed + [g.open], [p])
    else Groups(g.closed, g.open + [p])
  }

  function RepairedGrouping(ps: seq<string>, limit: int, tok: string -> nat): Groups
  {
    if ps == [] then Groups([], [])
    else RepairedPlace(RepairedGrouping(ps[..|ps| - 1], limit, tok), ps[|ps| - 1], limit, tok)
  }

  function RepairedBlockGroups(ps: seq<string>, limit: int, tok: string -> nat): seq<seq<string>>
  {
    var g := RepairedGrouping(ps, limit, tok);
    if g.open != [] then g.closed + [g.open] else g.closed
  }

  /** Loop state and groups agree: every buffer is the joined text of its group. */
  ghost predicate RepairedCoherent(st: Partial, g: Groups, tok: string -> nat)
  {
    && |st.blocks| == |g.closed|
    && (forall i :: 0 <= i < |g.closed| ==> st.blocks[i] == Strip(Joined(g.closed[i])))
    && st.buffer == Joined(g.open)
    && st.count == SumTok(g.open, tok)
  }

  /** The groups cover the paragraphs in order, none is empty, and runs of two or more fit the limit. */
  ghost predicate RepairedWellGrouped(g: Groups, ps: seq<string>, limit: int, tok: string -> nat)
  {
    && Flatten(g.closed) + g.open == ps
    && (forall i :: 0 <= i < |g.closed| ==> g.closed[i] != [])
    && (forall i :: 0 <= i < |g.closed| && |g.closed[i]| >= 2 ==> SumTok(g.closed[i], tok) <= limit)
    && (|g.open| >= 2 ==> SumTok(g.open, tok) <= limit)
  }

  /** A group of one paragraph: its text and its estimate. */
  lemma {:induction false} Singleton(p: string, tok: string -> nat)
    ensures Joined([p]) == Strip(p) + "\n"
    ensures SumTok([p], tok) == tok(p)
  {
    assert [p][..0] == [];
  }

  lemma {:induction false} RepairedFlushCoherent(st: Partial, g: Groups, p: string, tok: string -> nat)
    requires RepairedCoherent(st, g, tok)
    ensures RepairedCoherent(Partial(st.blocks + [Strip(st.buffer)], Strip(p) + "\n", tok(p)),
                             Groups(g.closed + [g.open], [p]), tok)
  {
    Singleton(p, tok);
    RepairedEmitsInStep(st, g, tok);
  }

  lemma {:induction false} RepairedFeedCoherent(st: Partial, g: Groups, p: string, limit: int, tok: string -> nat)
    requires RepairedCoherent(st, g, tok)
    ensures RepairedCoherent(RepairedFeed(st, p, limit, tok), RepairedPlace(g, p, limit, tok), tok)
  {
    JoinedNonEmpty(g.open);
    if g.open != [] && SumTok(g.open, tok) + tok(p) > limit {
      RepairedFlushCoherent(st, g, p, tok);
    } else {
      JoinedSnoc(g.open, p);
      SumTokSnoc(g.open, p, tok);
    }
  }

  lemma {:induction false} RepairedScanMatchesGrouping(ps: seq<string>, limit: int, tok: string -> nat)
    ensures RepairedCoherent(RepairedScan(ps, limit, tok), RepairedGrouping(ps, limit, tok), tok)
  {
    if ps != [] {
      var prev := ps[..|ps| - 1];
      RepairedScanMatchesGrouping(prev, limit, tok);
      RepairedFeedCoherent(RepairedScan(prev, limit, tok), RepairedGrouping(prev, limit, tok), ps[|ps| - 1], limit, tok);
    }
  }

  /** Closing a non-empty open group keeps the repaired groups well formed. */
  lemma {:induction false} RepairedCloseWellGrouped(g: Groups, ps: seq<string>, p: string, limit: int, tok: string -> nat)
    requires RepairedWellGrouped(g, ps, limit, tok) && g.open != []
    ensures RepairedWellGrouped(Groups(g.closed + [g.open], [p]), ps + [p], limit, tok)
  {
    var closed := g.closed + [g.open];
    FlattenSnoc(g.closed, g.open);
    forall i | 0 <= i < |closed|
      ensures closed[i] != []
    {
      if i < |g.closed| { assert closed[i] == g.closed[i]; } else { assert closed[i] == g.open; }
    }
    forall i | 0 <= i < |closed| && |closed[i]| >= 2
      ensures SumTok(closed[i], tok) <= limit
    {
      if i < |g.closed| { assert closed[i] == g.closed[i]; } else { assert closed[i] == g.open; }
    }
  }

  /** Adding a paragraph to the open group, when the group is empty or the paragraph fits, keeps them well formed. */
  lemma {:induction false} RepairedJoinWellGrouped(g: Groups, ps: seq<string>, p: string, limit: int, tok: string -> nat)
    requires RepairedWellGrouped(g, ps, limit, tok)
    requires g.open == [] || SumTok(g.open, tok) + tok(p) <= limit
    ensures RepairedWellGrouped(Groups(g.closed, g.open + [p]), ps + [p], limit, tok)
  {
    SumTokSnoc(g.open, p, tok);
    assert Flatten(g.closed) + (g.open + [p]) == (Flatten(g.closed) + g.open) + [p];
  }

  lemma {:induction false} RepairedPlaceWellGrouped(g: Groups, ps: seq<string>, p: string, limit: int, tok: string -> nat)
    requires RepairedWellGrouped(g, ps, limit, tok)
    ensures RepairedWellGrouped(RepairedPlace(g, p, limit, tok), ps + [p], limit, tok)
  {
    if g.open != [] && SumTok(g.open, tok) + tok(p) > limit {
      RepairedCloseWellGrouped(g, ps, p, limit, tok);
    } else {
      RepairedJoinWellGrouped(g, ps, p, limit, tok);
    }
  }

  lemma {:induction false} RepairedGroupingShape(ps: seq<string>, limit: int, tok: string -> nat)
    ensures RepairedWellGrouped(RepairedGrouping(ps, limit, tok), ps, limit, tok)
  {
    if ps != [] {
      var prev, p := ps[..|ps| - 1], ps[|ps| - 1];
      assert ps == prev + [p];
      RepairedGroupingShape(prev, limit, tok);
      RepairedPlaceWellGrouped(RepairedGrouping(prev, limit, tok), prev, p, limit, tok);
      assert RepairedGrouping(ps, limit, tok) == RepairedPlace(RepairedGrouping(prev, limit, tok), p, limit, tok);
    }
  }

  /**
   * Repaired behaviour: block i is the stripped, newline-joined text of
   * group i; every group is a non-empty run of consecutive paragraphs;
   * the runs cover the paragraphs exactly, in order; and every run of two
   * or more paragraphs fits the limit.
   */
  ghost predicate RepairedDescribes(blocks: seq<string>, gs: seq<seq<string>>, ps: seq<string>, limit: int, tok: string -> nat)
  {
    && |blocks| == |gs|
    && (forall i :: 0 <= i < |gs| ==> blocks[i] == Strip(Joined(gs[i])))
    && (forall i :: 0 <= i < |gs| ==> gs[i] != [])
    && (forall i :: 0 <= i < |gs| && |gs[i]| >= 2 ==> SumTok(gs[i], tok) <= limit)
    && Flatten(gs) == ps
  }

  lemma {:induction false} RepairedEmitsInStep(st: Partial, g: Groups, tok: string -> nat)
    requires RepairedCoherent(st, g, tok)
    ensures var blocks, gs := st.blocks + [Strip(st.buffer)], g.closed + [g.open];
      && |blocks| == |gs|
      && forall i :: 0 <= i < |gs| ==> blocks[i] == Strip(Joined(gs[i]))
  {
    var blocks, gs := st.blocks + [Strip(st.buffer)], g.closed + [g.open];
    forall i | 0 <= i < |gs|
      ensures blocks[i] == Strip(Joined(gs[i]))
    {
      if i < |g.closed| {
        assert blocks[i] == st.blocks[i] && gs[i] == g.closed[i];
      }
    }
  }

  lemma {:induction false} RepairedEmitsWellShaped(g: Groups, ps: seq<string>, limit: int, tok: string -> nat)
    requires RepairedWellGrouped(g, ps, limit, tok) && g.open != []
    ensures var gs := g.closed + [g.open];
      && (forall i :: 0 <= i < |gs| ==> gs[i] != [])
      && (forall i :: 0 <= i < |gs| && |gs[i]| >= 2 ==> SumTok(gs[i], tok) <= limit)
      && Flatten(gs) == ps
  {
    var gs := g.closed + [g.open];
    FlattenSnoc(g.closed, g.open);
    forall i | 0 <= i < |gs|
      ensures gs[i] == if i < |g.closed| then g.closed[i] else g.open
    {
    }
  }

  lemma {:induction false} RepairedPartitionGroups(ps: seq<string>, limit: int, tok: string -> nat)
    ensures RepairedDescribes(RepairedPartition(ps, limit, tok), RepairedBlockGroups(ps, limit, tok), ps, limit, tok)
  {
    RepairedScanMatchesGrouping(ps, limit, tok);
    RepairedGroupingShape(ps, limit, tok);
    var st, g := RepairedScan(ps, limit, tok), RepairedGrouping(ps, limit, tok);
    JoinedNonEmpty(g.open);
    if g.open != [] {
      assert RepairedPartition(ps, limit, tok) == st.blocks + [Strip(st.buffer)];
      RepairedEmitsInStep(st, g, tok);
      RepairedEmitsWellShaped(g, ps, limit, tok);
    } else {
      assert Flatten(g.closed) == ps;
    }
  }

  // ---------------------------------------------------------------------------
  // Inputs on which the loop as written departs from the repaired one
  // ---------------------------------------------------------------------------

  /** Stripping a text with no whitespace at its ends, followed by a newline, gives the text back. */
  lemma {:induction false} StripNewline(x: string)
    requires NoEdgeSpace(x)
    ensures Strip(x + "\n") == x
  {
    var s := x + "\n";
    assert s[|x|] == '\n';
    if x == [] {
      assert SkipSpace(s, 0) == 1;
    } else {
      assert s[0] == x[0] && s[|x| - 1] == x[|x| - 1];
      assert SkipSpace(s, 0) == 0;
      assert SkipSpaceBack(s, 0, |s|) == |x|;
      assert s[0..|x|] == x;
    }
  }

  /** Two non-empty texts with no edge whitespace, with anything between them, have no edge whitespace. */
  lemma {:induction false} NoEdgeSpaceAround(x: string, m: string, y: string)
    requires NoEdgeSpace(x) && NoEdgeSpace(y) && x != [] && y != []
    ensures NoEdgeSpace(x + m + y)
  {
    var s := x + m + y;
    assert s[0] == x[0] && s[|s| - 1] == y[|y| - 1];
  }

  /** One paragraph: the scan is one step from the empty state. */
  lemma {:induction false} ScanOne(a: string, limit: int, tok: string -> nat)
    ensures Scan([a], limit, tok) == Feed(Partial([], "", 0), a, limit, tok)
  {
    assert [a][..0] == [];
  }

  lemma {:induction false} RepairedScanOne(a: string, limit: int, tok: string -> nat)
    ensures RepairedScan([a], limit, tok) == RepairedFeed(Partial([], "", 0), a, limit, tok)
  {
    assert [a][..0] == [];
  }

  /** As written, a first paragraph over the limit is preceded by an empty block. */
  lemma {:induction false} OversizedFirstAsWritten(a: string, limit: int, tok: string -> nat)
    requires NoEdgeSpace(a) && a != ""
    requires tok(a) > limit
    ensures Partition([a], limit, tok) == ["", a]
  {
    ScanOne(a, limit, tok);
    assert Strip("") == "";
    assert Scan([a], limit, tok) == Partial([""], a, tok(a));
  }

  /** Repaired, the same paragraph gives its own block only. */
  lemma {:induction false} OversizedFirstRepaired(a: string, limit: int, tok: string -> nat)
    requires NoEdgeSpace(a)
    requires tok(a) > limit
    ensures RepairedPartition([a], limit, tok) == [a]
  {
    var st := RepairedScan([a], limit, tok);
    assert st == Partial([], a + "\n", tok(a)) by {
      RepairedScanOne(a, limit, tok);
      assert Strip(a) == a;
    }
    assert Finish(st) == [Strip(a + "\n")];
    StripNewline(a);
  }

  /**
   * A first paragraph that alone exceeds the limit: the loop as written
   * flushes the still-empty buffer, so the paragraph's single block is
   * preceded by an empty block that holds no paragraph; the repaired loop
   * emits the paragraph's block only.
   */
  lemma {:induction false} EmptyFirstBlockWitness(a: string, limit: int, tok: string -> nat)
    requires NoEdgeSpace(a) && a != ""
    requires tok(a) > limit
    ensures Partition([a], limit, tok) == ["", a]
    ensures RepairedPartition([a], limit, tok) == [a]
  {
    OversizedFirstAsWritten(a, limit, tok);
    OversizedFirstRepaired(a, limit, tok);
  }

  /** The as-written scan over the first paragraphs of the glued-seed input, one prefix at a time. */
  lemma {:induction false} GluedScanAB(a: string, b: string, limit: int, tok: string -> nat)
    requires NoEdgeSpace(a) && NoEdgeSpace(b)
    requires tok(a) <= limit < tok(a) + tok(b)
    ensures Scan([a, b], limit, tok) == Partial([a], b, tok(b))
  {
    assert Scan([a], limit, tok) == Partial([], a + "\n", tok(a)) by {
      ScanOne(a, limit, tok);
      assert Strip(a) == a;
    }
    assert [a, b][..1] == [a];
    StripNewline(a);
  }

  /** One more paragraph, at the level of the folds. */
  lemma {:induction false} ScanSnoc(ps: seq<string>, p: string, limit: int, tok: string -> nat)
    ensures Scan(ps + [p], limit, tok) == Feed(Scan(ps, limit, tok), p, limit, tok)
  {
    assert (ps + [p])[..|ps|] == ps;
  }

  lemma {:induction false} RepairedScanSnoc(ps: seq<string>, p: string, limit: int, tok: string -> nat)
    ensures RepairedScan(ps + [p], limit, tok) == RepairedFeed(RepairedScan(ps, limit, tok), p, limit, tok)
  {
    assert (ps + [p])[..|ps|] == ps;
  }

  /** A paragraph with no edge whitespace that fits is appended with a newline. */
  lemma {:induction false} FeedFits(st: Partial, p: string, limit: int, tok: string -> nat)
    requires NoEdgeSpace(p) && st.count + tok(p) <= limit
    ensures Feed(st, p, limit, tok) == Partial(st.blocks, st.buffer + p + "\n", st.count + tok(p))
  {
  }

  lemma {:induction false} RepairedFeedFits(st: Partial, p: string, limit: int, tok: string -> nat)
    requires NoEdgeSpace(p) && st.count + tok(p) <= limit
    ensures RepairedFeed(st, p, limit, tok) == Partial(st.blocks, st.buffer + p + "\n", st.count + tok(p))
  {
  }

  lemma {:induction false} GluedScanABC(a: string, b: string, c: string, limit: int, tok: string -> nat)
    requires NoEdgeSpace(a) && NoEdgeSpace(b) && NoEdgeSpace(c)
    requires tok(a) <= limit < tok(a) + tok(b) && tok(b) + tok(c) <= limit
    ensures Scan([a, b] + [c], limit, tok) == Partial([a], b + c + "\n", tok(b) + tok(c))
  {
    GluedScanAB(a, b, limit, tok);
    ScanSnoc([a, b], c, limit, tok);
    FeedFits(Partial([a], b, tok(b)), c, limit, tok);
  }

  lemma {:induction false} GluedAsWritten(a: string, b: string, c: string, limit: int, tok: string -> nat)
    requires NoEdgeSpace(a) && NoEdgeSpace(b) && NoEdgeSpace(c)
    requires b != "" && c != ""
    requires tok(a) <= limit < tok(a) + tok(b) && tok(b) + tok(c) <= limit
    ensures Partition([a, b, c], limit, tok) == [a, b + c]
  {
    GluedScanABC(a, b, c, limit, tok);
    assert [a, b] + [c] == [a, b, c];
    NoEdgeSpaceAround(b, "", c);
    assert b + "" + c == b + c;
    StripNewline(b + c);
  }

  /** The repaired scan over the same input, one prefix at a time. */
  lemma {:induction false} RepairedGluedScanAB(a: string, b: string, limit: int, tok: string -> nat)
    requires NoEdgeSpace(a) && NoEdgeSpace(b) && a != ""
    requires tok(a) <= limit < tok(a) + tok(b)
    ensures RepairedScan([a, b], limit, tok) == Partial([a], b + "\n", tok(b))
  {
    assert RepairedScan([a], limit, tok) == Partial([], a + "\n", tok(a)) by {
      RepairedScanOne(a, limit, tok);
      assert Strip(a) == a;
    }
    assert RepairedScan([a, b], limit, tok) == RepairedFeed(RepairedScan([a], limit, tok), b, limit, tok) by {
      assert [a, b][..1] == [a];
    }
    assert RepairedFeed(Partial([], a + "\n", tok(a)), b, limit, tok) == Partial([Strip(a + "\n")], Strip(b) + "\n", tok(b)) by {
      assert |a + "\n"| > 0;
    }
    StripNewline(a);
    assert Strip(b) == b;
  }

  lemma {:induction false} RepairedGluedScanABC(a: string, b: string, c: string, limit: int, tok: string -> nat)
    requires NoEdgeSpace(a) && NoEdgeSpace(b) && NoEdgeSpace(c) && a != ""
    requires tok(a) <= limit < tok(a) + tok(b) && tok(b) + tok(c) <= limit
    ensures RepairedScan([a, b] + [c], limit, tok) == Partial([a], b + "\n" + c + "\n", tok(b) + tok(c))
  {
    RepairedGluedScanAB(a, b, limit, tok);
    RepairedScanSnoc([a, b], c, limit, tok);
    RepairedFeedFits(Partial([a], b + "\n", tok(b)), c, limit, tok);
  }

  lemma {:induction false} GluedRepaired(a: string, b: string, c: string, limit: int, tok: string -> nat)
    requires NoEdgeSpace(a) && NoEdgeSpace(b) && NoEdgeSpace(c)
    requires a != "" && b != "" && c != ""
    requires tok(a) <= limit < tok(a) + tok(b) && tok(b) + tok(c) <= limit
    ensures RepairedPartition([a, b, c], limit, tok) == [a, b + "\n" + c]
  {
    RepairedGluedScanABC(a, b, c, limit, tok);
    assert [a, b] + [c] == [a, b, c];
    NoEdgeSpaceAround(b, "\n", c);
    StripNewline(b + "\n" + c);
  }

  /**
   * Three paragraphs where the second overflows the first block and the
   * third fits beside it: the loop as written seeds the new buffer with the
   * second paragraph and no newline, so the third is glued onto it with no
   * separator; the repaired loop separates them with a newline.
   */
  lemma {:induction false} GluedSeedWitness(a: string, b: string, c: string, limit: int, tok: string -> nat)
    requires NoEdgeSpace(a) && NoEdgeSpace(b) && NoEdgeSpace(c)
    requires a != "" && b != "" && c != ""
    requires tok(a) <= limit < tok(a) + tok(b) && tok(b) + tok(c) <= limit
    ensures Partition([a, b, c], limit, tok) == [a, b + c]
    ensures RepairedPartition([a, b, c], limit, tok) == [a, b + "\n" + c]
  {
    GluedAsWritten(a, b, c, limit, tok);
    GluedRepaired(a, b, c, limit, tok);
  }
}
