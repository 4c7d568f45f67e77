/**
 * `llm_chunkizer.split_document_into_blocks`: groups consecutive paragraphs
 * into blocks whose summed token estimate stays within a budget.
 *
 * The token estimator (a tokenizer call in the source) is the parameter
 * `tok`. The method mirrors the source loop; `Scan` is the same loop as a
 * left fold over a prefix of the paragraphs, and `Grouping` is an
 * independent, paragraph-level account of which paragraphs end up in which
 * block. `ScanMatchesGrouping` ties the two together, and the budget,
 * coverage and shape properties are proved on the groups.
 */
module Blocks {
  import opened Text

  /** Default value of the `block_token_limit` parameter. */
  const DefaultBlockTokenLimit: int := 5000

  /** Summed token estimate of a run of paragraphs. */
  function SumTok(ps: seq<string>, tok: string -> nat): nat
  {
    if ps == [] then 0 else SumTok(ps[..|ps| - 1], tok) + tok(ps[|ps| - 1])
  }

  /** Text that the append branch builds: each paragraph stripped and followed by a newline. */
  function Joined(ps: seq<string>): string
  {
    if ps == [] then "" else Joined(ps[..|ps| - 1]) + Strip(ps[|ps| - 1]) + "\n"
  }

  /**
   * Text of a buffer holding `group`. A seeded buffer (every buffer after
   * the first flush) starts with its first paragraph verbatim: not
   * stripped and not followed by a newline.
   */
  function BufferText(group: seq<string>, seeded: bool): string
  {
    if seeded && group != [] then group[0] + Joined(group[1..]) else Joined(group)
  }

  function Flatten(gs: seq<seq<string>>): seq<string>
  {
    if gs == [] then [] else Flatten(gs[..|gs| - 1]) + gs[|gs| - 1]
  }

  // ---------------------------------------------------------------------------
  // The loop, as the source writes it
  // ---------------------------------------------------------------------------

  /** The loop state: `blocks`, `current_block`, `current_token_count`. */
  datatype Partial = Partial(blocks: seq<string>, buffer: string, count: nat)

  /** One iteration of the loop, for paragraph `p`. */
  function Feed(st: Partial, p: string, limit: int, tok: string -> nat): Partial
  {
    if st.count + tok(p) > limit then
      Partial(st.blocks + [Strip(st.buffer)], p, tok(p))
    else
      Partial(st.blocks, st.buffer + Strip(p) + "\n", st.count + tok(p))
  }

  /** The loop state after the paragraphs `ps`. */
  function Scan(ps: seq<string>, limit: int, tok: string -> nat): Partial
  {
    if ps == [] then Partial([], "", 0)
    else Feed(Scan(ps[..|ps| - 1], limit, tok), ps[|ps| - 1], limit, tok)
  }

  /** The final flush: the buffer is emitted when it is not the empty string. */
  function Finish(st: Partial): seq<string>
  {
    if st.buffer != "" then st.blocks + [Strip(st.buffer)] else st.blocks
  }

  /** The result of the whole function. */
  function Partition(ps: seq<string>, limit: int, tok: string -> nat): seq<string>
  {
    Finish(Scan(ps, limit, tok))
  }

  method SplitDocumentIntoBlocks(paragraphs: seq<string>, blockTokenLimit: int, tok: string -> nat)
    returns (blocks: seq<string>)
    ensures blocks == Partition(paragraphs, blockTokenLimit, tok)
    ensures paragraphs == [] ==> blocks == []
    ensures forall i :: 0 <= i < |blocks| ==> NoEdgeSpace(blocks[i])
  {
    blocks := [];
    var currentBlock := "";
    var currentTokenCount: nat := 0;
    for i := 0 to |paragraphs|
      invariant Scan(paragraphs[..i], blockTokenLimit, tok) == Partial(blocks, currentBlock, currentTokenCount)
    {
      ghost var before := Partial(blocks, currentBlock, currentTokenCount);
      var paragraph := paragraphs[i];
      var paragraphTokenCount := tok(paragraph);
      if currentTokenCount + paragraphTokenCount > blockTokenLimit {
        blocks := blocks + [Strip(currentBlock)];
        currentBlock := paragraph;
        currentTokenCount := paragraphTokenCount;
      } else {
        currentBlock := currentBlock + Strip(paragraph) + "\n";
        currentTokenCount := currentTokenCount + paragraphTokenCount;
      }
      assert Partial(blocks, currentBlock, currentTokenCount) == Feed(before, paragraph, blockTokenLimit, tok);
      assert paragraphs[..i + 1][..i] == paragraphs[..i];
    }
    assert paragraphs[..|paragraphs|] == paragraphs;
    ghost var last := Partial(blocks, currentBlock, currentTokenCount);
    if currentBlock != "" {
      blocks := blocks + [Strip(currentBlock)];
    }
    assert blocks == Finish(last);
    BlocksStripped(paragraphs, blockTokenLimit, tok);
  }

  // ---------------------------------------------------------------------------
  // Paragraph-level reference: which paragraphs share a block
  // ---------------------------------------------------------------------------

  /** Groups already flushed, and the group in the open buffer. */
  datatype Groups = Groups(closed: seq<seq<string>>, open: seq<string>)

  /**
   * A paragraph closes the open group, and starts a new one, when its
   * estimate added to the open group's total exceeds the limit -- even when
   * the open group is empty; otherwise it joins the open group.
   */
  function Place(g: Groups, p: string, limit: int, tok: string -> nat): Groups
  {
    if SumTok(g.open, tok) + tok(p) > limit then Groups(g.closed + [g.open], [p])
    else Groups(g.closed, g.open + [p])
  }

  /** The groups after the paragraphs `ps`. */
  function Grouping(ps: seq<string>, limit: int, tok: string -> nat): Groups
  {
    if ps == [] then Groups([], [])
    else Place(Grouping(ps[..|ps| - 1], limit, tok), ps[|ps| - 1], limit, tok)
  }

  /** The groups behind the emitted blocks: the open group counts when its buffer text is not empty. */
  function Emitted(g: Groups): seq<seq<string>>
  {
    if BufferText(g.open, g.closed != []) != "" then g.closed + [g.open] else g.closed
  }

  function BlockGroups(ps: seq<string>, limit: int, tok: string -> nat): seq<seq<string>>
  {
    Emitted(Grouping(ps, limit, tok))
  }

  lemma {:induction false} JoinedSnoc(ps: seq<string>, p: string)
    ensures Joined(ps + [p]) == Joined(ps) + Strip(p) + "\n"
  {
    assert (ps + [p])[..|ps|] == ps;
  }

  lemma {:induction false} SumTokSnoc(ps: seq<string>, p: string, tok: string -> nat)
    ensures SumTok(ps + [p], tok) == SumTok(ps, tok) + tok(p)
  {
    assert (ps + [p])[..|ps|] == ps;
  }

  lemma {:induction false} FlattenSnoc(gs: seq<seq<string>>, g: seq<string>)
    ensures Flatten(gs + [g]) == Flatten(gs) + g
  {
    assert (gs + [g])[..|gs|] == gs;
  }

  /** Appending a paragraph to a buffer appends its stripped text and a newline. */
  lemma {:induction false} BufferTextSnoc(group: seq<string>, p: string, seeded: bool)
    requires seeded ==> group != []
    ensures BufferText(group + [p], seeded) == BufferText(group, seeded) + Strip(p) + "\n"
  {
    if seeded {
      assert (group + [p])[1..] == group[1..] + [p];
      JoinedSnoc(group[1..], p);
    } else {
      JoinedSnoc(group, p);
    }
  }

  /**
   * The string state of the loop is determined by the groups: each flushed
   * block is its group's buffer text stripped, the buffer is the open
   * group's text, and the running count is the open group's token total.
   */
  ghost predicate Coherent(st: Partial, g: Groups, tok: string -> nat)
  {
    && |st.blocks| == |g.closed|
    && (forall i :: 0 <= i < |g.closed| ==> st.blocks[i] == Strip(BufferText(g.closed[i], i > 0)))
    && st.buffer == BufferText(g.open, g.closed != [])
    && st.count == SumTok(g.open, tok)
    && (g.closed != [] ==> g.open != [])
  }

  /** A flush closes the open group: its buffer becomes the next block. */
  lemma {:induction false} FlushCoherent(st: Partial, g: Groups, p: string, limit: int, tok: string -> nat)
    requires Coherent(st, g, tok)
    ensures Coherent(Partial(st.blocks + [Strip(st.buffer)], p, tok(p)), Groups(g.closed + [g.open], [p]), tok)
  {
    var blocks, closed := st.blocks + [Strip(st.buffer)], g.closed + [g.open];
    assert SumTok([p], tok) == tok(p) by {
      assert [p][..0] == [];
    }
    assert BufferText([p], true) == p by {
      assert [p][1..] == [];
    }
    forall i | 0 <= i < |closed|
      ensures blocks[i] == Strip(BufferText(closed[i], i > 0))
    {
      if i < |g.closed| {
        assert blocks[i] == st.blocks[i] && closed[i] == g.closed[i];
      } else {
        assert blocks[i] == Strip(st.buffer) && closed[i] == g.open;
      }
    }
  }

  /** An append extends the open group and its buffer text alike. */
  lemma {:induction false} AppendCoherent(st: Partial, g: Groups, p: string, tok: string -> nat)
    requires Coherent(st, g, tok)
    ensures Coherent(Partial(st.blocks, st.buffer + Strip(p) + "\n", st.count + tok(p)), Groups(g.closed, g.open + [p]), tok)
  {
    BufferTextSnoc(g.open, p, g.closed != []);
    SumTokSnoc(g.open, p, tok);
  }

  lemma {:induction false} FeedCoherent(st: Partial, g: Groups, p: string, limit: int, tok: string -> nat)
    requires Coherent(st, g, tok)
    ensures Coherent(Feed(st, p, limit, tok), Place(g, p, limit, tok), tok)
  {
    if SumTok(g.open, tok) + tok(p) > limit {
      FlushCoherent(st, g, p, limit, tok);
    } else {
      AppendCoherent(st, g, p, tok);
    }
  }

  lemma {:induction false} ScanMatchesGrouping(ps: seq<string>, limit: int, tok: string -> nat)
    ensures Coherent(Scan(ps, limit, tok), Grouping(ps, limit, tok), tok)
  {
    if ps != [] {
      ScanMatchesGrouping(ps[..|ps| - 1], limit, tok);
      FeedCoherent(Scan(ps[..|ps| - 1], limit, tok), Grouping(ps[..|ps| - 1], limit, tok), ps[|ps| - 1], limit, tok);
    }
  }

  /**
   * The groups partition the paragraphs in order; every group of two or
   * more paragraphs is within the limit; only the very first group can be
   * empty; once a group has been closed the open group is never empty.
   */
  ghost predicate WellGrouped(g: Groups, ps: seq<string>, limit: int, tok: string -> nat)
  {
    && Flatten(g.closed) + g.open == ps
    && (forall i :: 0 <= i < |g.closed| && |g.closed[i]| >= 2 ==> SumTok(g.closed[i], tok) <= limit)
    && (|g.open| >= 2 ==> SumTok(g.open, tok) <= limit)
    && (forall i :: 0 < i < |g.closed| ==> g.closed[i] != [])
    && (g.closed != [] ==> g.open != [])
  }

  /** Closing the open group keeps the groups well formed. */
  lemma {:induction false} CloseWellGrouped(g: Groups, ps: seq<string>, p: string, limit: int, tok: string -> nat)
    requires WellGrouped(g, ps, limit, tok)
    ensures WellGrouped(Groups(g.closed + [g.open], [p]), ps + [p], limit, tok)
  {
    var closed := g.closed + [g.open];
    FlattenSnoc(g.closed, g.open);
    forall i | 0 <= i < |closed| && |closed[i]| >= 2
      ensures SumTok(closed[i], tok) <= limit
    {
      if i < |g.closed| { assert closed[i] == g.closed[i]; } else { assert closed[i] == g.open; }
    }
    forall i | 0 < i < |closed|
      ensures closed[i] != []
    {
      if i < |g.closed| { assert closed[i] == g.closed[i]; } else { assert closed[i] == g.open; }
    }
  }

  /** Adding a paragraph that fits to the open group keeps the groups well formed. */
  lemma {:induction false} JoinWellGrouped(g: Groups, ps: seq<string>, p: string, limit: int, tok: string -> nat)
    requires WellGrouped(g, ps, limit, tok)
    requires SumTok(g.open, tok) + tok(p) <= limit
    ensures WellGrouped(Groups(g.closed, g.open + [p]), ps + [p], limit, tok)
  {
    SumTokSnoc(g.open, p, tok);
    assert Flatten(g.closed) + (g.open + [p]) == (Flatten(g.closed) + g.open) + [p];
  }

  lemma {:induction false} PlaceWellGrouped(g: Groups, ps: seq<string>, p: string, limit: int, tok: string -> nat)
    requires WellGrouped(g, ps, limit, tok)
    ensures WellGrouped(Place(g, p, limit, tok), ps + [p], limit, tok)
  {
    if SumTok(g.open, tok) + tok(p) > limit {
      CloseWellGrouped(g, ps, p, limit, tok);
    } else {
      JoinWellGrouped(g, ps, p, limit, tok);
    }
  }

  lemma {:induction false} GroupingShape(ps: seq<string>, limit: int, tok: string -> nat)
    ensures WellGrouped(Grouping(ps, limit, tok), ps, limit, tok)
  {
    if ps != [] {
      var prev, p := ps[..|ps| - 1], ps[|ps| - 1];
      assert ps == prev + [p];
      GroupingShape(prev, limit, tok);
      PlaceWellGrouped(Grouping(prev, limit, tok), prev, p, limit, tok);
      assert Grouping(ps, limit, tok) == Place(Grouping(prev, limit, tok), p, limit, tok);
    }
  }

  lemma {:induction false} JoinedNonEmpty(ps: seq<string>)
    ensures Joined(ps) == "" <==> ps == []
  {
  }

  /**
   * What the partition emits. Block i is the stripped buffer text of
   * group i (group 0 unseeded, every later group seeded with its first
   * paragraph verbatim); every group of two or more paragraphs is within
   * the limit; only the first group can be empty (a flush before any
   * paragraph was buffered); and the groups hold the paragraphs in order,
   * except that a trailing empty paragraph seeded alone into the buffer is
   * never emitted.
   */
  ghost predicate Describes(blocks: seq<string>, gs: seq<seq<string>>, ps: seq<string>, limit: int, tok: string -> nat)
  {
    && |blocks| == |gs|
    && (forall i :: 0 <= i < |gs| ==> blocks[i] == Strip(BufferText(gs[i], i > 0)))
    && (forall i :: 0 <= i < |gs| && |gs[i]| >= 2 ==> SumTok(gs[i], tok) <= limit)
    && (forall i :: 0 < i < |gs| ==> gs[i] != [])
    && (Flatten(gs) == ps || Flatten(gs) + [""] == ps)
  }

  /** The final flush skips an empty buffer: its group is empty, or a lone empty paragraph. */
  lemma {:induction false} FinishSkips(st: Partial, g: Groups, ps: seq<string>, limit: int, tok: string -> nat)
    requires Coherent(st, g, tok) && WellGrouped(g, ps, limit, tok)
    requires BufferText(g.open, g.closed != []) == ""
    ensures Describes(Finish(st), Emitted(g), ps, limit, tok)
  {
    assert Emitted(g) == g.closed && Finish(st) == st.blocks;
    if g.closed != [] {
      JoinedNonEmpty(g.open[1..]);
      assert g.open == [g.open[0]] + g.open[1..];
      assert g.open == [""];
    } else {
      JoinedNonEmpty(g.open);
    }
  }

  /** Appending the open group (and its block) keeps blocks and groups in step. */
  lemma {:induction false} EmitsInStep(st: Partial, g: Groups, tok: string -> nat)
    requires Coherent(st, g, tok)
    ensures var blocks, gs := st.blocks + [Strip(st.buffer)], g.closed + [g.open];
      && |blocks| == |gs|
      && forall i :: 0 <= i < |gs| ==> blocks[i] == Strip(BufferText(gs[i], i > 0))
  {
    var blocks, gs := st.blocks + [Strip(st.buffer)], g.closed + [g.open];
    forall i | 0 <= i < |gs|
      ensures blocks[i] == Strip(BufferText(gs[i], i > 0))
    {
      if i < |g.closed| {
        assert blocks[i] == st.blocks[i] && gs[i] == g.closed[i];
      }
    }
  }

  /** Appending the open group keeps the budget and the non-emptiness of later groups. */
  lemma {:induction false} EmitsWellShaped(g: Groups, ps: seq<string>, limit: int, tok: string -> nat)
    requires WellGrouped(g, ps, limit, tok)
    ensures var gs := g.closed + [g.open];
      && (forall i :: 0 <= i < |gs| && |gs[i]| >= 2 ==> SumTok(gs[i], tok) <= limit)
      && (forall i :: 0 < i < |gs| ==> gs[i] != [])
      && Flatten(gs) == ps
  {
    var gs := g.closed + [g.open];
    FlattenSnoc(g.closed, g.open);
    forall i | 0 <= i < |gs|
      ensures gs[i] == if i < |g.closed| then g.closed[i] else g.open
    {
    }
  }

  /** The final flush emits a non-empty buffer as the last block. */
  lemma {:induction false} FinishEmits(st: Partial, g: Groups, ps: seq<string>, limit: int, tok: string -> nat)
    requires Coherent(st, g, tok) && WellGrouped(g, ps, limit, tok)
    requires BufferText(g.open, g.closed != []) != ""
    ensures Describes(Finish(st), Emitted(g), ps, limit, tok)
  {
    assert Emitted(g) == g.closed + [g.open];
    assert Finish(st) == st.blocks + [Strip(st.buffer)];
    EmitsInStep(st, g, tok);
    EmitsWellShaped(g, ps, limit, tok);
  }

  lemma {:induction false} PartitionGroups(ps: seq<string>, limit: int, tok: string -> nat)
    ensures Describes(Partition(ps, limit, tok), BlockGroups(ps, limit, tok), ps, limit, tok)
  {
    ScanMatchesGrouping(ps, limit, tok);
    GroupingShape(ps, limit, tok);
    var st, g := Scan(ps, limit, tok), Grouping(ps, limit, tok);
    if BufferText(g.open, g.closed != []) == "" {
      FinishSkips(st, g, ps, limit, tok);
    } else {
      FinishEmits(st, g, ps, limit, tok);
    }
  }

  /** Both emitting sites strip, so no block starts or ends with whitespace. */
  lemma {:induction false} BlocksStripped(ps: seq<string>, limit: int, tok: string -> nat)
    ensures forall i :: 0 <= i < |Partition(ps, limit, tok)| ==> NoEdgeSpace(Partition(ps, limit, tok)[i])
  {
    PartitionGroups(ps, limit, tok);
  }

  lemma {:induction false} SumTokBoundsMember(ps: seq<string>, j: nat, tok: string -> nat)
    requires j < |ps|
    ensures tok(ps[j]) <= SumTok(ps, tok)
  {
    if j < |ps| - 1 {
      SumTokBoundsMember(ps[..|ps| - 1], j, tok);
    }
  }

  /**
   * A paragraph whose own estimate exceeds the limit is alone in its
   * block: the budget is broken only by such singleton blocks.
   */
  lemma {:induction false} OversizedAlone(ps: seq<string>, limit: int, tok: string -> nat, i: nat, j: nat)
    requires i < |BlockGroups(ps, limit, tok)|
    requires j < |BlockGroups(ps, limit, tok)[i]|
    requires tok(BlockGroups(ps, limit, tok)[i][j]) > limit
    ensures |BlockGroups(ps, limit, tok)[i]| == 1
  {
    PartitionGroups(ps, limit, tok);
    SumTokBoundsMember(BlockGroups(ps, limit, tok)[i], j, tok);
  }

  /** Later paragraphs only append blocks: the blocks of a prefix are a prefix of the blocks. */
  lemma {:induction false} ScanBlocksGrow(ps: seq<string>, k: nat, limit: int, tok: string -> nat)
    requires k <= |ps|
    ensures Scan(ps[..k], limit, tok).blocks <= Scan(ps, limit, tok).blocks
  {
    if k < |ps| {
      ScanBlocksGrow(ps[..|ps| - 1], k, limit, tok);
      assert ps[..|ps| - 1][..k] == ps[..k];
    } else {
      assert ps[..k] == ps;
    }
  }

  /**
   * There is no non-empty guard on the flush: when the first paragraph
   * alone exceeds the limit, the empty buffer is flushed and the first
   * block is the empty string.
   */
  lemma {:induction false} FirstOversized(ps: seq<string>, limit: int, tok: string -> nat)
    requires ps != [] && tok(ps[0]) > limit
    ensures |Partition(ps, limit, tok)| >= 1
    ensures Partition(ps, limit, tok)[0] == ""
  {
    ScanBlocksGrow(ps, 1, limit, tok);
    assert ps[..1][..0] == [];
    assert Scan(ps[..1], limit, tok) == Partial([""], ps[0], tok(ps[0]));
  }

  /** While the paragraphs fit the budget nothing is flushed: the buffer is their joined text. */
  lemma {:induction false} ScanWithinLimit(ps: seq<string>, limit: int, tok: string -> nat)
    requires SumTok(ps, tok) <= limit
    ensures Scan(ps, limit, tok) == Partial([], Joined(ps), SumTok(ps, tok))
  {
    if ps != [] {
      ScanWithinLimit(ps[..|ps| - 1], limit, tok);
    }
  }

  /**
   * When all paragraphs together fit the budget, the result is one block:
   * the stripped paragraphs, each followed by a newline, stripped.
   */
  lemma {:induction false} SingleBlock(ps: seq<string>, limit: int, tok: string -> nat)
    requires ps != [] && SumTok(ps, tok) <= limit
    ensures Partition(ps, limit, tok) == [Strip(Joined(ps))]
  {
    ScanWithinLimit(ps, limit, tok);
  }

  /**
   * The final flush tests the buffer before stripping it: a non-empty
   * buffer is always emitted, and the emitted block is "" exactly when the
   * buffer is whitespace only.
   */
  lemma {:induction false} FinalFlush(ps: seq<string>, limit: int, tok: string -> nat)
    requires Scan(ps, limit, tok).buffer != ""
    ensures var st := Scan(ps, limit, tok);
      && |Partition(ps, limit, tok)| == |st.blocks| + 1
      && (Partition(ps, limit, tok)[|st.blocks|] == "" <==> AllSpace(st.buffer))
  {
    StripEmptyIff(Scan(ps, limit, tok).buffer);
  }

  /** A lone whitespace-only paragraph within the limit leaves "\n" in the buffer, emitted as "". */
  lemma {:induction false} WhitespaceOnlyParagraph(w: string, limit: int, tok: string -> nat)
    requires AllSpace(w) && tok(w) <= limit
    ensures Partition([w], limit, tok) == [""]
  {
    assert [w][..0] == [];
    assert SumTok([w], tok) == tok(w);
    SingleBlock([w], limit, tok);
    StripEmptyIff(w);
    assert Joined([w]) == "\n";
    StripEmptyIff("\n");
  }
}
