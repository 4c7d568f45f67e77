/**
 * `llm_chunkizer.chunk_text_with_llm`: asks a language model to cut each
 * block into chunks, carrying the last two chunks of one block into the
 * request for the next.
 *
 * The model call is the parameter `respond`, from the request text to the
 * response text. The method mirrors the source loop; `Run`
 * is the same loop as a left fold over a prefix of the blocks. The lemmas
 * describe the requests sent (the carry) and the shape of the output in
 * terms of the segments of each response.
 */
module Chunks {
  import opened Text

  /** The literal marker the model is told to put between chunks. */
  const Marker: string := "!-!-!-!-!-!-!-!-!-!-!"

  /**
   * The segments of the model's answer to the request text `text`. The
   * prompt (a fixed system instruction, and a user message that names the
   * marker and embeds `text`) is a fixed function of `text`, so the model
   * is the oracle `respond` from the request text to the response text.
   */
  function Answer(text: string, respond: string -> string): seq<string>
  {
    Split(respond(text), Marker)
  }

  /** The loop state: `final_chunks`, `last_chunk`, `last_chunk_1`, `last_chunk_2`. */
  datatype Carry = Carry(chunks: seq<string>, last: string, last1: string, last2: string)

  /** The segment `k` places from the end (0 is the last), or "" when there is none. */
  function FromEnd(segs: seq<string>, k: nat): string
  {
    if k < |segs| then segs[|segs| - 1 - k] else ""
  }

  /** The segments that stay in the output: all but the last two. */
  function AllButLastTwo(segs: seq<string>): seq<string>
  {
    if |segs| >= 2 then segs[..|segs| - 2] else []
  }

  /** One iteration of the loop, for `block`. */
  function Advance(st: Carry, block: string, respond: string -> string): Carry
  {
    var segs := Answer(st.last + "\n" + block, respond);
    var last1 := FromEnd(segs, 0);
    var last2 := FromEnd(segs, 1);
    Carry(st.chunks + AllButLastTwo(segs), last2 + "\n" + last1, last1, last2)
  }

  /** The loop state after the blocks `blocks`. */
  function Run(blocks: seq<string>, respond: string -> string): Carry
  {
    if blocks == [] then Carry([], "", "", "")
    else Advance(Run(blocks[..|blocks| - 1], respond), blocks[|blocks| - 1], respond)
  }

  /** The result: the collected chunks, then the final pair. */
  function ChunkText(blocks: seq<string>, respond: string -> string): seq<string>
  {
    var st := Run(blocks, respond);
    st.chunks + [st.last2, st.last1]
  }

  method ChunkTextWithLlm(blocks: seq<string>, respond: string -> string)
    returns (finalChunks: seq<string>)
    ensures finalChunks == ChunkText(blocks, respond)
    ensures |finalChunks| >= 2
  {
    finalChunks := [];
    var lastChunk, lastChunk2, lastChunk1 := "", "", "";
    for i := 0 to |blocks|
      invariant Run(blocks[..i], respond) == Carry(finalChunks, lastChunk, lastChunk1, lastChunk2)
    {
      ghost var before := Carry(finalChunks, lastChunk, lastChunk1, lastChunk2);
      var text := lastChunk + "\n" + blocks[i];
      var splittedArray := Split(respond(text), Marker);
      ghost var segs := splittedArray;
      if splittedArray != [] {
        lastChunk1 := splittedArray[|splittedArray| - 1];
        splittedArray := splittedArray[..|splittedArray| - 1];
      } else {
        lastChunk1 := "";
      }
      if splittedArray != [] {
        lastChunk2 := splittedArray[|splittedArray| - 1];
        splittedArray := splittedArray[..|splittedArray| - 1];
      } else {
        lastChunk2 := "";
      }
      lastChunk := lastChunk2 + "\n" + lastChunk1;
      finalChunks := finalChunks + splittedArray;
      assert splittedArray == AllButLastTwo(segs);
      assert Carry(finalChunks, lastChunk, lastChunk1, lastChunk2) == Advance(before, blocks[i], respond);
      assert blocks[..i + 1][..i] == blocks[..i];
    }
    assert blocks[..|blocks|] == blocks;
    finalChunks := finalChunks + [lastChunk2];
    finalChunks := finalChunks + [lastChunk1];
  }

  // ---------------------------------------------------------------------------
  // Requests and output, block by block
  // ---------------------------------------------------------------------------

  /** The text sent for block `i`. */
  function Request(blocks: seq<string>, respond: string -> string, i: nat): string
    requires i < |blocks|
  {
    Run(blocks[..i], respond).last + "\n" + blocks[i]
  }

  /** The segments of the response for block `i`. */
  function Segments(blocks: seq<string>, respond: string -> string, i: nat): seq<string>
    requires i < |blocks|
  {
    Answer(Request(blocks, respond, i), respond)
  }

  /** The chunks kept from the responses for the first `n` blocks, in block order. */
  function Kept(blocks: seq<string>, respond: string -> string, n: nat): seq<string>
    requires n <= |blocks|
  {
    if n == 0 then [] else Kept(blocks, respond, n - 1) + AllButLastTwo(Segments(blocks, respond, n - 1))
  }

  /** How many chunks the first `n` responses leave in the output: the sum of max(0, segments - 2). */
  function KeptCount(blocks: seq<string>, respond: string -> string, n: nat): nat
    requires n <= |blocks|
  {
    if n == 0 then 0
    else
      var k := |Segments(blocks, respond, n - 1)|;
      KeptCount(blocks, respond, n - 1) + (if k >= 2 then k - 2 else 0)
  }

  /** One more block: the state after it is determined by the segments of its response. */
  lemma {:induction false} RunStep(blocks: seq<string>, respond: string -> string, i: nat)
    requires i < |blocks|
    ensures var st, segs := Run(blocks[..i], respond), Segments(blocks, respond, i);
      Run(blocks[..i + 1], respond) ==
        Carry(st.chunks + AllButLastTwo(segs), FromEnd(segs, 1) + "\n" + FromEnd(segs, 0),
              FromEnd(segs, 0), FromEnd(segs, 1))
  {
    assert blocks[..i + 1][..i] == blocks[..i];
  }

  /** Before the first block the carry is empty: the first request is "" + "\n" + the block. */
  lemma {:induction false} FirstRequest(blocks: seq<string>, respond: string -> string)
    requires blocks != []
    ensures Request(blocks, respond, 0) == "" + "\n" + blocks[0]
  {
    assert blocks[..0] == [];
  }

  /**
   * The carry: the request for block i + 1 starts with the second-to-last
   * segment of response i (or "" when it has one segment only), a newline,
   * its last segment and a newline.
   */
  lemma {:induction false} CarryForward(blocks: seq<string>, respond: string -> string, i: nat)
    requires i + 1 < |blocks|
    ensures var segs := Segments(blocks, respond, i);
      && FromEnd(segs, 0) == segs[|segs| - 1]
      && FromEnd(segs, 1) == (if |segs| >= 2 then segs[|segs| - 2] else "")
      && Request(blocks, respond, i + 1) == FromEnd(segs, 1) + "\n" + FromEnd(segs, 0) + "\n" + blocks[i + 1]
  {
    RunStep(blocks, respond, i);
  }

  /** The chunks collected after `n` blocks are the kept segments of the first `n` responses. */
  lemma {:induction false} RunChunks(blocks: seq<string>, respond: string -> string, n: nat)
    requires n <= |blocks|
    ensures Run(blocks[..n], respond).chunks == Kept(blocks, respond, n)
  {
    if n == 0 {
      assert blocks[..0] == [];
    } else {
      RunChunks(blocks, respond, n - 1);
      RunStep(blocks, respond, n - 1);
    }
  }

  lemma {:induction false} KeptLength(blocks: seq<string>, respond: string -> string, n: nat)
    requires n <= |blocks|
    ensures |Kept(blocks, respond, n)| == KeptCount(blocks, respond, n)
  {
    if n > 0 {
      KeptLength(blocks, respond, n - 1);
    }
  }

  /**
   * The output is every response's segments but its last two, block by
   * block, followed by the second-to-last and the last segment of the
   * final response; with no blocks it is ["", ""].
   */
  lemma {:induction false} ChunkTextShape(blocks: seq<string>, respond: string -> string)
    ensures blocks == [] ==> ChunkText(blocks, respond) == ["", ""]
    ensures blocks != [] ==>
      var segs := Segments(blocks, respond, |blocks| - 1);
      ChunkText(blocks, respond) == Kept(blocks, respond, |blocks|) + [FromEnd(segs, 1), FromEnd(segs, 0)]
  {
    if blocks != [] {
      var n := |blocks|;
      RunChunks(blocks, respond, n);
      RunStep(blocks, respond, n - 1);
      assert blocks[..n] == blocks;
    }
  }

  /** The output has sum over blocks of max(0, segments - 2), plus 2, chunks. */
  lemma {:induction false} ChunkTextLength(blocks: seq<string>, respond: string -> string)
    ensures |ChunkText(blocks, respond)| == KeptCount(blocks, respond, |blocks|) + 2
  {
    assert blocks[..|blocks|] == blocks;
    RunChunks(blocks, respond, |blocks|);
    KeptLength(blocks, respond, |blocks|);
  }

  /**
   * A response made of three marker-separated pieces splits into those
   * pieces, when the first two contain no '!' and the third is shorter than
   * the marker.
   */
  lemma {:induction false} SplitThree(a: string, b: string, c: string)
    requires forall i :: 0 <= i < |a| ==> a[i] != '!'
    requires forall i :: 0 <= i < |b| ==> b[i] != '!'
    requires |c| < |Marker|
    ensures Split(a + Marker + b + Marker + c, Marker) == [a, b, c]
  {
    assert Split(c, Marker) == [c] by {
      assert Find(c, Marker, 0) == None;
    }
    assert Split(b + Marker + c, Marker) == [b, c] by {
      assert Marker[0] == '!';
      SplitAfterLeading(b, Marker, c);
    }
    assert a + Marker + b + Marker + c == a + Marker + (b + Marker + c);
    assert Marker[0] == '!';
    SplitAfterLeading(a, Marker, b + Marker + c);
  }

  /**
   * A single block whose response is "A" + marker + "B" + marker + "C"
   * gives ["A", "B", "C"]: "A" is kept, then "B" and "C" are appended as
   * the final pair.
   */
  lemma {:induction false} SingleBlockExample(block: string, respond: string -> string)
    requires respond("\n" + block) == "A" + Marker + "B" + Marker + "C"
    ensures ChunkText([block], respond) == ["A", "B", "C"]
  {
    assert [block][..0] == [];
    assert Run([], respond).last + "\n" + block == "\n" + block;
    SplitThree("A", "B", "C");
    assert Answer("\n" + block, respond) == ["A", "B", "C"];
    assert Run([block], respond) == Advance(Run([], respond), block, respond);
  }
}
