# LLMChunkizer: block partitioning and carry-over chunk refinement

LLMChunkizer cuts a document into chunks that each hold one complete idea. It does this in two passes, both in `LLMChunkizerLib/chunkizer.py`:

1. `split_document_into_blocks` groups consecutive paragraphs into blocks whose summed token estimate stays within a budget (`block_token_limit`, default 5000).
2. `chunk_text_with_llm` sends each block to a language model and asks it to separate chunks with the marker `!-!-!-!-!-!-!-!-!-!-!`. It carries the last two chunks of one block into the request for the next, so that an idea cut by a block boundary can be put back together.

The Dafny model has four modules:

- `Text` (`text.dfy`) models the Python string operations the code relies on:
  - `str.strip` as `Strip`;
  - `str.split` with a non-empty separator as `Split`.

  `Join` models `str.join`, which the code never calls. It is there only to state that `Split` loses nothing (`Text.SplitJoin`).
- `Blocks` (`blocks.dfy`) models the block partitioner.
  - `SplitDocumentIntoBlocks` is the source loop as a method. Its loop invariant ties its state to `Scan`, the same loop written as a fold over a prefix of the paragraphs.
  - `Grouping` is an independent, paragraph-level account of which paragraphs share a block, decided by summed token estimates only.
  - `ScanMatchesGrouping` proves the string-level loop and the paragraph-level account agree.
  - The budget, coverage, order and shape properties are proved about the groups.
- `Chunks` (`chunks.dfy`) models the refiner.
  - `ChunkTextWithLlm` is the source loop, including the two pops and their empty-string fallbacks. Its loop invariant ties it to `Run`.
  - The lemmas describe each request sent (the carry) and the output, in terms of the segments of each response.
- `BlocksRepaired` (`blocks_repaired.dfy`) holds the partitioner with its two flushing defects repaired, together with inputs on which the code as written departs from the repaired version (see Findings).

Two calls leave the program and become parameters:

- The token estimator `estimate_token_count` is the function parameter `tok: string -> nat`.
- The model call is the function parameter `respond: string -> string`, from the request text to the response text. The prompt wraps the request text in a fixed system instruction and user message, so it is a fixed function of that text.

The flush at `chunkizer.py:35` has no non-empty guard, and neither has `Blocks.Feed`; `Blocks.FirstOversized` states the consequence, an empty first block.

## Model

| member | source | states |
|---|---|---|
| Text.Strip | LLMChunkizerLib/chunkizer.py:36 | the stripped text has no whitespace at either end, and a text with none is returned unchanged |
| Text.StripKeepsMiddle | LLMChunkizerLib/chunkizer.py:46 | strip removes only whitespace, and only at the ends: the result is a slice of the input with only whitespace on either side |
| Text.StripEmptyIff | LLMChunkizerLib/chunkizer.py:45-46 | a text strips to "" exactly when it is whitespace only |
| Text.Split | LLMChunkizerLib/chunkizer.py:92 | splitting on the marker always yields at least one segment |
| Text.SplitJoin | LLMChunkizerLib/chunkizer.py:92 | no segment contains the marker, and joining the segments with the marker gives the response back |
| Text.SplitLeftmost | LLMChunkizerLib/chunkizer.py:92 | each cut is at the leftmost occurrence: no segment but the last, followed by the marker less its last character, contains the marker |
| Blocks.SplitDocumentIntoBlocks | LLMChunkizerLib/chunkizer.py:19-48 | the loop computes the partition; no paragraphs give no blocks; no block starts or ends with whitespace |
| Blocks.ScanMatchesGrouping | LLMChunkizerLib/chunkizer.py:30-42 | after every paragraph the running count is the summed estimate of the paragraphs in the buffer; the buffer is their text (the seed raw, later ones stripped with a newline); each flushed block is the stripped text of its group |
| Blocks.GroupingShape | LLMChunkizerLib/chunkizer.py:32-42 | the groups hold all paragraphs seen, in order; every closed group of two or more paragraphs is within the limit, and so is the open group when it holds two or more; only the first closed group can be empty |
| Blocks.PartitionGroups | LLMChunkizerLib/chunkizer.py:19-48 | block i is the stripped text of group i; groups of two or more paragraphs are within the limit; only the first group can be empty; the groups are the paragraphs in order, except for a trailing empty paragraph seeded alone |
| Blocks.BlocksStripped | LLMChunkizerLib/chunkizer.py:36-46 | every block of the partition is free of whitespace at both ends |
| Blocks.OversizedAlone | LLMChunkizerLib/chunkizer.py:35-39 | a paragraph whose own estimate exceeds the limit is alone in its block; with `Blocks.PartitionGroups`, only blocks of at most one paragraph can break the budget (with a negative limit the empty first block breaks it too) |
| Blocks.ScanBlocksGrow | LLMChunkizerLib/chunkizer.py:32-42 | later paragraphs only append blocks: the blocks after a prefix are a prefix of the final ones |
| Blocks.FirstOversized | LLMChunkizerLib/chunkizer.py:35-36 | when the first paragraph alone exceeds the limit, the first block is "" |
| Blocks.ScanWithinLimit | LLMChunkizerLib/chunkizer.py:40-42 | while the paragraphs fit the limit nothing is flushed, and the buffer is each stripped paragraph followed by a newline |
| Blocks.SingleBlock | LLMChunkizerLib/chunkizer.py:40-46 | when all paragraphs together fit the limit the result is exactly one block: the stripped concatenation of each stripped paragraph plus a newline |
| Blocks.FinalFlush | LLMChunkizerLib/chunkizer.py:44-46 | a non-empty leftover buffer always adds one block, and that block is "" exactly when the buffer is whitespace only |
| Blocks.WhitespaceOnlyParagraph | LLMChunkizerLib/chunkizer.py:40-46 | a lone whitespace-only paragraph within the limit gives the single block "" |
| Chunks.ChunkTextWithLlm | LLMChunkizerLib/chunkizer.py:52-103 | the loop, with its two pops and empty-string fallbacks, computes the refined chunk list, which has at least two elements |
| Chunks.FirstRequest | LLMChunkizerLib/chunkizer.py:78-83 | the request for block 0 is "" + "\n" + the block |
| Chunks.CarryForward | LLMChunkizerLib/chunkizer.py:95-97 | the request for block i+1 is the second-to-last segment of response i (or "" when it has one segment), a newline, its last segment, a newline and block i+1 |
| Chunks.RunChunks | LLMChunkizerLib/chunkizer.py:99 | the chunks collected after n blocks are, block by block in order, each response's segments minus its last two |
| Chunks.KeptLength | LLMChunkizerLib/chunkizer.py:99 | that collection has the sum over blocks of max(0, segments - 2) elements |
| Chunks.ChunkTextShape | LLMChunkizerLib/chunkizer.py:99-103 | the output is the collected segments followed by the final response's second-to-last (or "") and last segment; with no blocks it is ["", ""] |
| Chunks.ChunkTextLength | LLMChunkizerLib/chunkizer.py:99-103 | the output length is the sum over blocks of max(0, segments - 2), plus 2 |
| Chunks.SplitThree | LLMChunkizerLib/chunkizer.py:92 | a response made of three pieces separated by the marker, where the first two contain no `!` and the third is shorter than the marker, splits into exactly those pieces |
| Chunks.SingleBlockExample | LLMChunkizerLib/chunkizer.py:82-103 | one block whose response is "A", marker, "B", marker, "C" gives ["A", "B", "C"] |
| BlocksRepaired.RepairedScanMatchesGrouping | LLMChunkizerLib/chunkizer.py:30-42 | in the repaired loop the buffer is always the stripped, newline-terminated text of the open group and the count its summed estimate |
| BlocksRepaired.RepairedGroupingShape | LLMChunkizerLib/chunkizer.py:32-42 | repaired groups are non-empty, hold all paragraphs in order, and runs of two or more fit the limit |
| BlocksRepaired.RepairedPartitionGroups | LLMChunkizerLib/chunkizer.py:19-48 | each repaired block is the stripped newline-joined text of a non-empty run of consecutive paragraphs; the runs cover the paragraphs exactly, in order; runs of two or more fit the limit |
| BlocksRepaired.EmptyFirstBlockWitness | LLMChunkizerLib/chunkizer.py:35-36 | a lone first paragraph over the limit gives ["", paragraph] as written and [paragraph] repaired |
| BlocksRepaired.GluedSeedWitness | LLMChunkizerLib/chunkizer.py:38-41 | paragraphs a, b, c where b overflows and c fits beside it give [a, b + c] as written and [a, b + "\n" + c] repaired |

## Left out

- The tokenizer behind `estimate_token_count` (`chunkizer.py:7-15`) and its `tokenizer_model` argument. The estimator is the parameter `tok`, and every property holds for any estimator.
- `AzureChatOpenAI` and `llm.invoke` (`chunkizer.py:1, 84-90`). The model is the parameter `respond` on the request text. The system and user messages are not modelled, since they are a fixed wrapping of that text.
- A sampled model can answer the same request differently; `respond` is a function, so the model gives one answer per request text. No property depends on this, since each is stated per block in terms of that block's response.
- Exceptions raised by either call (network, authentication, tokenizer errors). The model assumes both calls return.
- Whitespace outside ASCII. Python's `str.strip` also removes Unicode spaces (for example U+0085 and U+00A0); `Text.IsSpace` knows only space, `\t`, `\n`, `\v`, `\f`, `\r` and `\x1c`-`\x1f`.
- `block_token_limit` has no default value in Dafny. The default is the constant `Blocks.DefaultBlockTokenLimit`, and callers pass the limit explicitly.
- The guard on line 95 is dead, because `Split` always returns at least one segment (`Text.Split`). The method keeps it as written.
- `setup.py`: package metadata, with no behaviour.

## Findings

| source | as written | input that shows it | evidently intended | confidence | as-written member | corrected member |
|---|---|---|---|---|---|---|
| LLMChunkizerLib/chunkizer.py:35-36 | the flush runs even when the buffer is still empty | one paragraph, non-empty with no edge whitespace, whose estimate exceeds the limit: the blocks are ["", paragraph] | flush only a non-empty buffer, so every block holds at least one paragraph | not executed | BlocksRepaired.EmptyFirstBlockWitness | BlocksRepaired.RepairedPartitionGroups |
| LLMChunkizerLib/chunkizer.py:38-41 | the overflowing paragraph seeds the buffer raw, with no trailing newline | paragraphs a, b, c with tok(a) within the limit, tok(a)+tok(b) over it, tok(b)+tok(c) within it: the second block is b + c with no separator | seed the buffer as the append branch does, stripped and followed by a newline, giving b + "\n" + c | not executed | BlocksRepaired.GluedSeedWitness | BlocksRepaired.RepairedPartitionGroups |
