# Verified model of the q3 inference runtime

A Dafny 4.11 model of the parts of the q3 runtime in which mistakes would be silent: the residency planner and the
double-buffered loader, the GGUF v3 writer and reader, the byte-level BPE tokenizer, the Q4_K quantizer and its decoders,
shared-prefix decision batching, the server's job protocol, and the JSON printer and parser. `dafny verify dfyconfig.toml`
checks everything.

## What is modelled

Each module follows one source file or one component of it. Code that updates objects is a class with those fields, loops
are loops, and every method is tied by its `ensures` to a function of its inputs or of the old state; the lemmas are about
those functions.

- **Planning and loading.** `ResidencyPlan` is the planner with its table, its spans and its error exits; `PlanProperties`
  proves partition, exclusion and minimality of the number of spans; `PlanAccounts` that its counters add up;
  `PlanValidate` is `plan_validate`. `Loader` is a
  transition system of a host thread, a FIFO device stream and one reuse event per staging slot, in which a copy reads its
  source when it executes, not when it is enqueued; every CUDA call may fail. `LoaderEndToEnd` joins planner and loader, and
  `WriterToDevice` joins writer, reader, planner and loader.
- **GGUF.** `GgufFormat` defines encoded values and skipping, `GgufReader` the cursor, the parser and its errors in order,
  `GgufAccess` the accessors, `GgufWriter` the writer; `GgufRoundTrip` and `GgufValues` prove them inverse. `GgufBounds` and
  `GgufCodes` say what a file that opens promises, and write the numbers of the format out.
- **Tokenizer.** `VocabTable` (hash), `ByteLevel`, `Bpe`, `PreTokenizer`, `Specials`, `Nfc`, `Tokenizer` (the object with
  encode and decode), `SpecialLoading` and `TokenizerFile` (loading). `TokenizerRoundTrip`, `EncodesAll`, `Reencoding` and
  `UnstableAlias` say when decoding undoes encoding, which inputs can be encoded, and when ids are stable; `PieceShapes`,
  `EncodingFacts` and `Utf8` what each step of encoding does, in code points and bytes. A `cstr` is a sequence of non-zero
  bytes.
- **Quantizer.** `QuantSums` and `QuantSearch` are the weighted least-squares search over reals, `Q4Block` the packed layout
  and both decoders over 8-bit vectors, `Q4Quantize` a block, a row, and decoding after quantizing. `QuantTrace` and
  `Q4Choice` say in plain numbers what the search looks at and what a block stores.
- **Decision batching.** `Forward` defines a causal forward pass with uninterpreted row-wise operations, `Prefix` the prefix
  cache, `Branches` the handles, `Packing` the ragged packing, `Decide` the packed pass and `q3_decide_run`.
- **Server.** `JobQueue` is the ring buffer; `JobProtocol` a transition system of any number of clients, one worker and the
  main thread, with the job mutex, early wake-ups, disconnects and shutdown.
- **JSON.** `Json` specifies printing and parsing, `JsonParser` and `JsonEmit` are the code, `JsonRoundTrip` the relation
  between them. `JsonGrammar` is the language the parser accepts, `JsonEscapes` what its strings stand for.

## What the code needs, and where it falls short

- *Tokenizer round trip.* Decoding undoes encoding on every input that can be encoded exactly if every special text is the
  first text of its id (`RoundTripsIffOneTextPerId`). For a tokenizer loaded from a file with distinct spellings and plain
  special texts this means: exactly if every alias of the chat template is spelled as in the file (`FileRoundTripsIff`); an
  alias that differs decodes to the spelling of the file. Every input can be encoded exactly if every byte has its symbol
  in the vocabulary or is a special text (`EncodesEverythingIff`, where the symbols of the four shortcut bytes are given).
- *Encoding again.* Without such aliases, what comes back is encoded to the same ids (`EncodingIsStable`). With aliases this
  can fail, because the decoded text may run into its neighbours (`AliasCanUnsettle`) or take an accent. Where no special
  text can run into a decoded one the exact condition is `StableIff`; texts in angle brackets, as all aliases are, meet it
  (`BracketedFileIsStable`).
- *Blanks.* A blank other than space and tab in front of a word, a no-break space say, takes the word's first code point
  like a symbol and cuts it off the word (`OtherBlankBeforeWord`).
- *Digits.* The letter ranges include the Arabic-Indic digits, so these never reach the number branch and are grouped into
  words, although the number class lists them (`ArabicDigitsAreGrouped`, `DigitsAreNumbersOutsideWords`).
- *Special tokens.* An empty special text makes the splitting loop stay for ever at every position where no other special
  text begins (`StallsIff`); the code has no check for it. So encoding needs a table without empty texts, which loading
  leaves exactly if no control token, needed text, required spelling or alias is empty (`Init`).
- *Prefix cache.* A second prefill that fails half-way leaves the token count of the first, so the prefix can be sealed over
  rows that are not its own (`SealedOverForeignRows`). It does no harm exactly if the rows of both token lists agree in the
  layers written by then (`StillHoldsIff`), in particular if the token lists agree as far as both go. The results about
  decisions need an intact prefix.
- *Quantizer.* The scale packer clamps from above only. That is sound because scales and negated minima are never negative
  (`SixBitsFit`), and it would not be otherwise (`NegativeWouldNotFit`).
- *Planner.* Span counts are minimal if the tensors are pairwise disjoint. Tensor indices are stored in 32 bits, so the
  loader results need at most 2^32 tensors.
- *JSON.* An escaped `\u0000` ends the parsed text, as texts are C strings; integers saturate at 64 bits. Printing nests
  without a limit while parsing stops at depth 512, so a printed value parses back if and only if its nesting is within the
  limit (`ParseOfEmit`).

## Model

| member | source | states |
|---|---|---|
| ResidencyPlan.SpanHasPleBetween | src/q3_residency_plan.c:38-58 | true exactly when some excluded tensor with a payload overlaps the span or begins between its end and the next entry |
| ResidencyPlan.SortEntries | src/q3_residency_plan.c:18-26 | the table after the sort is ordered by offset, then tensor index, and is a permutation of the collected entries |
| ResidencyPlan.PlannedEntriesIff | src/q3_residency_plan.c:93-117 | the table holds an entry for a tensor if and only if the tensor has a payload and is not excluded |
| ResidencyPlan.BuildSucceedsIff | src/q3_residency_plan.c:81-117 | a plan exists exactly for a positive span limit, tensors inside the file, and a byte total of 64 bits |
| ResidencyPlan.Plan.Collect | src/q3_residency_plan.c:93-117 | the collecting loop with its two overflow exits: what it counts, and that every failure leaves the plan empty |
| ResidencyPlan.Plan.ExtendSpans | src/q3_residency_plan.c:128-156 | one entry extends the last span or opens a new one, by the gap, size, order and exclusion tests |
| ResidencyPlan.Plan.Build | src/q3_residency_plan.c:71-158 | the whole build: error order, and the sorted entries, spans and totals of a successful plan |
| PlanAccounts.TensorsAddUp | src/q3_residency_plan.c:93-117 | every tensor with a payload is counted as planned or as excluded |
| PlanAccounts.BytesAddUp | src/q3_residency_plan.c:93-117 | planned and excluded bytes are all bytes of the model, up to the wrap of the 64-bit counter |
| ResidencyPlan.SpansHaveGreedyShape | src/q3_residency_plan.c:128-156 | consecutive spans are contiguous groups, each joined as long as the tests allow and closed only when they fail |
| PlanProperties.SpansPartitionEntries | src/q3_residency_plan.c:128-156 | every entry lies in exactly one span and inside its bytes, and a span above the size limit holds one entry |
| PlanProperties.SpansClearIffEntriesClear | src/q3_residency_plan.c:141-147 | no span touches an excluded range, if and only if no entry does: coalescing never pulls excluded bytes in |
| PlanProperties.JoinsIffLegal | src/q3_residency_plan.c:139-147 | for disjoint tensors the planner's join test is exactly legality of the extended group |
| PlanProperties.GreedyStaysAhead | src/q3_residency_plan.c:128-156 | after any number of groups the planner has covered at least as many entries as any legal grouping |
| PlanProperties.GreedyIsLegal | src/q3_residency_plan.c:128-156 | the planner's spans are themselves a legal grouping |
| PlanProperties.GreedyIsMinimal | src/q3_residency_plan.c:128-156 | no legal grouping into contiguous groups has fewer groups than the planner has spans |
| PlanProperties.DisjointTensorsGiveDisjointEntries | src/q3_residency_plan.c:93-120 | pairwise disjoint tensors give entries that are disjoint from each other and from the excluded tensors, also after sorting |
| PlanValidate.ValidateEntries | src/q3_main.c:261-279 | the entry loop accepts exactly ascending tables without 64-bit overflow and computes their total |
| PlanValidate.Validate | src/q3_main.c:261-307 | plan_validate returns true exactly for plans that meet its entry, total, containment and span-order conditions |
| PlanValidate.AcceptedMeans | src/q3_main.c:261-307 | the checks of plan_validate written out: order, 64-bit bounds, total, containment in spans, and spans in order |
| PlanValidate.BuiltPlanAcceptedIffDisjoint | src/q3_main.c:284-305 | a built plan is accepted if and only if no two planned tensors share a byte |
| PlanValidate.PlanAndValidate | src/q3_main.c:309-340 | building and then validating any plannable model reports exactly whether its planned tensors are disjoint |
| Loader.RecordFollows | cuda/q3_model_loader_cuda.cu:291-342 | once the log has moved past a span, the record of that span's slot stands between |
| Loader.WaitFreesSlot | cuda/q3_model_loader_cuda.cu:294-298 | when the wait on the slot's most recent event returns, no pending upload reads the slot |
| Loader.DeviceKeepsInv | cuda/q3_model_loader_cuda.cu:309-334 | executing the next stream operation, at any later time, finds its source bytes unchanged and fills exactly its target |
| Loader.StepKeepsInv | cuda/q3_model_loader_cuda.cu:291-349 | every host step, failure and device step of the load keeps the invariant |
| Loader.NoSlotOverwrittenWhilePending | cuda/q3_model_loader_cuda.cu:294-306 | in every interleaving the host fills a staging slot only while no enqueued upload still reads it |
| Loader.LoadedMeansResident | cuda/q3_model_loader_cuda.cu:344-372 | after the one final synchronisation every allocation holds exactly its entry's file bytes |
| Loader.LoadNeverGetsStuck | cuda/q3_model_loader_cuda.cu:291-349 | until the load has finished or failed, the host or the device can move |
| Loader.EveryStepProgresses | cuda/q3_model_loader_cuda.cu:291-349 | each step decreases a lexicographic measure, so no interleaving runs forever |
| LoaderEndToEnd.ComputeLargestSpan | cuda/q3_model_loader_cuda.cu:263-267 | the staging size is the size of the largest span |
| LoaderEndToEnd.LargestSpan | cuda/q3_model_loader_cuda.cu:263-267 | no span is larger than the staging size, and some span has it |
| LoaderEndToEnd.FillDescriptors | cuda/q3_model_loader_cuda.cu:236-258 | the allocation loop registers each entry's allocation under its tensor index |
| LoaderEndToEnd.DescriptorOfPlannedTensor | cuda/q3_model_loader_cuda.cu:236-258 | tensor i has a descriptor if and only if it is planned, and it points at tensor i's entry |
| LoaderEndToEnd.PlannerOutputIsLoadable | cuda/q3_model_loader_cuda.cu:265-342 | whatever the planner builds fits the staging buffers, also a tensor above the span limit alone in its span |
| LoaderEndToEnd.LoadedTensorsHoldFileBytes | cuda/q3_model_loader_cuda.cu:171-372 | planner to device: after the load each tensor's descriptor points at an allocation with exactly its file bytes |
| LoaderEndToEnd.PlannableModelsLoad | cuda/q3_model_loader_cuda.cu:183-194 | the previous result applies to every model the planner accepts |
| GgufFormat.ValueAt | src/q3_gguf.c:198-235 | every successful skip passes over exactly the encoding of a well-formed value of that type |
| GgufFormat.SkipIffEncoded | src/q3_gguf.c:198-235 | on any bytes a skip succeeds with a given end if and only if an encoded value of the type stands there and ends there |
| GgufReader.Cursor.SkipOne | src/q3_gguf.c:198-235 | the recursive cursor code computes that skip, with its depth limit and its first error |
| GgufReader.Cursor.ReadString | src/q3_gguf.c:65-73 | reading a length-prefixed text moves the cursor exactly behind it or records truncation |
| GgufReader.Model.ParseMetadata | src/q3_gguf.c:256-286 | the metadata loop fills the table, follows general.alignment, and rejects impossible counts |
| GgufReader.Model.ParseDimensions | src/q3_gguf.c:314-322 | dimensions and their product, with the overflow exit |
| GgufReader.Model.ParseOneTensor | src/q3_gguf.c:299-330 | one tensor table entry, with size 0 for unsupported types |
| GgufReader.Model.Place | src/q3_gguf.c:334-349 | absolute offsets, the bounds errors, and the largest tensor |
| GgufBounds.PlacesIfInside | src/q3_gguf.c:334-349 | placing succeeds if and only if every tensor stays within 64 bits and, where it has a payload, within the file |
| GgufBounds.PlaceError | src/q3_gguf.c:334-345 | the first tensor that does not decides the error, by the bound it breaks |
| GgufReader.Open | src/q3_gguf.c:352-437 | opening any bytes gives exactly the specified tables or the first error in the order of the checks |
| GgufBounds.OpensIffInside | src/q3_gguf.c:352-437 | once the tensor table has parsed, opening succeeds if and only if all tensors are inside the file |
| GgufBounds.OpenedTensorsInside | src/q3_gguf.c:334-349 | in any file that opens, every payload lies inside the file behind the data position, and the recorded maximum is the size of the largest tensor |
| GgufBounds.OpenedHeader | src/q3_gguf.c:397-421 | any file that opens begins with the bytes 47 47 55 46 03 00 00 00 |
| GgufBounds.LastAlignmentWins | src/q3_gguf.c:267-282 | the alignment is the last 32-bit general.alignment that is not 0, or 32 |
| GgufBounds.DataIsAligned | src/q3_gguf.c:75-78 | the data section begins at the first multiple of the alignment behind the tables |
| GgufCodes.SizeRoundsUp | src/q3_gguf.c:159-166 | the size of a tensor is that of the least number of blocks that holds its elements, or unknown if it leaves 64 bits |
| GgufCodes.PlainTypes | src/q3_gguf.c:115-146 | blocks of the unquantized tensor types |
| GgufCodes.SmallBlocks | src/q3_gguf.c:115-146 | blocks of 32 elements, by the parts they consist of |
| GgufCodes.LargeBlocks | src/q3_gguf.c:115-146 | K blocks of 256 elements, by the parts they consist of |
| GgufCodes.OtherBlocks | src/q3_gguf.c:115-146 | the remaining block sizes of the table |
| GgufReader.NextElements | src/q3_gguf.c:317-321 | the overflow guard lets a product through only if it is exact in 64 bits |
| GgufAccess.FindKv | src/q3_gguf.c:448-453 | finds the first entry with the key |
| GgufAccess.AccessorsNeverTruncate | src/q3_gguf.c:455-541 | after a successful parse each accessor fails only for a missing key or another type, never for lack of bytes |
| GgufAccess.ReadAllStrings | src/q3_gguf.c:543-555 | iterating a whole string array yields its texts and stops exactly where skipping stopped |
| GgufAccess.ReadAllInts | src/q3_gguf.c:565-584 | the same for INT32 and UINT32 arrays, read as signed 32-bit values |
| GgufWriter.AlignedOffset | tools/qwen3_write_gguf.py:318-320 | the least multiple of 32 that is not below the offset |
| GgufWriter.AssignOffsets | tools/qwen3_write_gguf.py:317-323 | the running-offset loop gives every entry its aligned offset and the length of the data section |
| GgufWriter.Writer.Add | tools/qwen3_write_gguf.py:100-133 | each add function appends the key, the type and the encoded value of its item |
| GgufWriter.Writer.TensorInfo | tools/qwen3_write_gguf.py:392-398 | one tensor table entry as bytes |
| GgufCodes.WrittenItem | tools/qwen3_write_gguf.py:95-133 | the bytes of each kind of metadata item: key with its length, type code 4, 6, 7, 8 or 9, and the value |
| GgufWriter.WriteData | tools/qwen3_write_gguf.py:410-425 | padding up to each entry's offset and its payload |
| GgufWriter.WriteFile | tools/qwen3_write_gguf.py:317-428 | the bytes of the whole file |
| GgufRoundTrip.DataPositionsAgree | src/q3_gguf.c:332 | the reader's aligned data position is the writer's padded header length |
| GgufRoundTrip.PayloadInData | tools/qwen3_write_gguf.py:410-425 | every payload stands at its own 32-byte offset of the data section |
| GgufRoundTrip.PayloadBytes | src/q3_gguf.c:159-166 | the reader computes the byte count the writer checked its payload against |
| GgufRoundTrip.OpenWritten | src/q3_gguf.c:352-437 | opening a written file succeeds and yields exactly the written tables |
| GgufRoundTrip.RoundTrip | tools/qwen3_write_gguf.py:345-428 | same keys, types, names, shapes, and every tensor's data slice is the payload written, at aligned offsets |
| GgufBounds.IncompleteFileFails | src/q3_gguf.c:341-345 | a written file that is cut off inside its last payload does not open: a tensor points outside the file |
| GgufValues.TextsUnique | src/q3_gguf.c:543-555 | an encoded run of texts can be read in one way only |
| GgufValues.WrittenValuesReturned | src/q3_gguf.c:448-584 | looking up any stored key returns the value of the first item stored under it, scalars and whole arrays |
| WriterToDevice.LaidOutDisjoint | tools/qwen3_write_gguf.py:317-323 | the tensors of a written file share no byte |
| WriterToDevice.WrittenFilePlannable | src/q3_residency_plan.c:71-158 | every written file can be planned |
| WriterToDevice.WrittenPayloadsAreResident | cuda/q3_model_loader_cuda.cu:171-372 | writer to device: in every interleaving of the load, the allocation registered for entry i ends up holding payload i |
| WriterToDevice.WrittenFilesLoad | cuda/q3_model_loader_cuda.cu:183-194 | the previous result applies to every written file |
| VocabTable.FreeMeansAbsent | src/q3_tokenizer.c:125 | a probe that reaches a free slot proves the key absent |
| VocabTable.FillRepresents | src/q3_tokenizer.c:124 | filling the free slot a probe found adds exactly that binding and keeps every other key reachable |
| VocabTable.Vocabulary.Probe | src/q3_tokenizer.c:124-125 | a probe ends at the key or at a free slot, because the table is at most half full |
| VocabTable.Vocabulary.Grow | src/q3_tokenizer.c:124 | doubling and rehashing preserves every binding and leaves the table less than half full |
| VocabTable.Vocabulary.Add | src/q3_tokenizer.c:124 | addv updates the map at the key: a duplicate takes the last id, nothing else changes |
| VocabTable.Vocabulary.Lookup | src/q3_tokenizer.c:125 | lookup answers exactly what the map says |
| ByteLevel.FillByteMap | src/q3_tokenizer.c:129 | the one-pass table is the byte-to-code-point mapping with consecutive code points from 0x100 |
| ByteLevel.CodePointInjective | src/q3_tokenizer.c:129 | no two bytes share a code point |
| EncodingFacts.CodePointTable | src/q3_tokenizer.c:129 | the map in closed form: printable bytes stay, the other 68 take 0x100 to 0x143 in order |
| ByteLevel.ByteForCodePoint | src/q3_tokenizer.c:561-576 | returns the byte with this code point, or none exactly if no byte has it |
| ByteLevel.SymbolShape | src/q3_tokenizer.c:129-133 | byte-level symbols show their width in the first byte, hold no space, and are plain ASCII only for themselves |
| ByteLevel.DecodesByteLevel | src/q3_tokenizer.c:577-578 | decoding byte-level text gives back the bytes, for every byte string |
| ByteLevel.ToByteLevel | src/q3_tokenizer.c:131 | the byte-level text of any bytes |
| ByteLevel.DecodeText | src/q3_tokenizer.c:577-578 | the decoder's inner loop computes that decoding, with its failure for foreign code points |
| Utf8.ReadsTwo | src/q3_tokenizer.c:134-163 | two-byte sequences are read as the code they encode |
| Utf8.ReadsThree | src/q3_tokenizer.c:134-163 | so are three-byte sequences |
| Utf8.ReadsFour | src/q3_tokenizer.c:134-163 | and four-byte sequences up to 0x10ffff |
| Utf8.ReadsOne | src/q3_tokenizer.c:134-163 | any byte that starts no complete sequence is read as its own code |
| Bpe.MergeRank | src/q3_tokenizer.c:127 | the rank of a pair is the index of its first rule |
| Bpe.PairTextInjective | src/q3_tokenizer.c:127 | a rule text belongs to one pair only, as symbols hold no space |
| Bpe.RuleFitsPair | src/q3_tokenizer.c:127 | a rule that applies to two symbols was written for exactly these two |
| Bpe.FindBest | src/q3_tokenizer.c:133 | the scan finds the leftmost pair of least rank, or reports that none has a rank |
| Bpe.MergeLoop | src/q3_tokenizer.c:133 | the in-place loop equals the recursive rule: merge the leftmost pair of least rank until none has a rank |
| EncodingFacts.MergesFirstRule | src/q3_tokenizer.c:133 | merging joins the leftmost pair that the first applicable rule is written for, and goes on from there |
| EncodingFacts.NoRuleNoMerge | src/q3_tokenizer.c:133 | where no rule applies to any pair nothing is merged |
| Bpe.MergedIsFinal | src/q3_tokenizer.c:133 | the rule stops only where no adjacent pair has a rank |
| Bpe.MergingKeepsText | src/q3_tokenizer.c:133 | merging never changes the concatenation of the symbols |
| Bpe.MergedSpell | src/q3_tokenizer.c:133 | after merging, the symbols spell contiguous pieces of the same input |
| Bpe.SplitSymbols | src/q3_tokenizer.c:133 | splitting byte-level text by first bytes gives one symbol per input byte |
| PreTokenizer.ScanPiece | src/q3_tokenizer.c:186-303 | one round of the cursor code ends the piece where the branch functions say; the shapes below say where that is |
| PreTokenizer.PieceEnd | src/q3_tokenizer.c:186-303 | every branch makes progress and stays inside the segment |
| PieceShapes.WordPiece | src/q3_tokenizer.c:209-215 | a piece that starts with a word code point is the whole run of these |
| PieceShapes.NumberPiece | src/q3_tokenizer.c:216-217 | a number outside the word classes is a piece by itself |
| PieceShapes.NewlinePiece | src/q3_tokenizer.c:218-224 | a piece that starts with a newline is the whole run of newlines |
| PieceShapes.BlankBeforeWord | src/q3_tokenizer.c:225-233 | a space or tab in front of a word takes exactly that blank and the whole run of word code points |
| PieceShapes.BlankBeforeSymbol | src/q3_tokenizer.c:234-242 | a blank in front of a symbol takes the run of symbols and the line ends behind it |
| PieceShapes.OtherBlankBeforeWord | src/q3_tokenizer.c:234-242 | any other blank in front of a word takes one code point of it and goes on with symbols |
| PieceShapes.SpacesBeforeWord | src/q3_tokenizer.c:243-258 | two or more spaces in front of a word: the first space by itself |
| PieceShapes.BlankRun | src/q3_tokenizer.c:243-271 | in all other cases the whole run of blanks |
| PieceShapes.ApostrophePiece | src/q3_tokenizer.c:193-208 | the contraction suffixes by letter, and otherwise the apostrophe alone |
| PieceShapes.EqualsWord | src/q3_tokenizer.c:272-300 | an equals sign in front of a word takes the word and the line ends behind it |
| PieceShapes.BackslashPiece | src/q3_tokenizer.c:272-300 | a backslash takes one of nine letters, then symbols and line ends |
| PieceShapes.SymbolPiece | src/q3_tokenizer.c:272-300 | any other symbol: the whole run of symbols, then the line ends |
| PieceShapes.TwoWords | src/q3_tokenizer.c:186-305 | two small-letter words with a space between are cut in front of the space |
| PieceShapes.LetterEdges | src/q3_tokenizer.c:165-170 | the letters by code point |
| PieceShapes.OtherEdges | src/q3_tokenizer.c:171-184 | marks, numbers and spaces at the edges of their ranges |
| PreTokenizer.ScanBlanks | src/q3_tokenizer.c:243-263 | the space look-ahead loop: two or more spaces in front of a word make the first space a piece by itself |
| PreTokenizer.PiecesCutSegment | src/q3_tokenizer.c:186-305 | the pieces are not empty and concatenate to the segment |
| PreTokenizer.DigitsStandAlone | src/q3_tokenizer.c:216-217 | an ASCII digit is a piece by itself, and no other piece has one inside |
| PreTokenizer.DigitsAreNumbersOutsideWords | src/q3_tokenizer.c:165-184 | the numbers that reach the number branch are exactly the ASCII digits |
| PreTokenizer.ArabicDigitsAreGrouped | src/q3_tokenizer.c:165-184 | a concrete input of two Arabic-Indic digits that makes one piece |
| Nfc.NormalizeNfc | src/q3_tokenizer.c:307-333 | the loop composes exactly the ten acute letters |
| EncodingFacts.AcuteLetters | src/q3_tokenizer.c:307-333 | the composed letters are the ten acute vowels, by code point |
| EncodingFacts.AccentComposes | src/q3_tokenizer.c:307-333 | wherever such a letter and the combining accent stand, the composed letter takes their place |
| Nfc.NormalizeTwice | src/q3_tokenizer.c:307-333 | normalising twice is normalising once |
| Specials.ChooseSpecial | src/q3_tokenizer.c:306 | the choice is leftmost, then longest, then first in the table |
| Specials.ChunksCutInput | src/q3_tokenizer.c:306 | plain segments and special tokens concatenate to the input |
| Specials.EveryChunkOk | src/q3_tokenizer.c:306 | every chosen special is the longest at its position, and no special text begins inside a plain segment |
| Specials.StallsIff | src/q3_tokenizer.c:306 | the splitting loop stays at a position exactly if some special text is empty and no non-empty one begins there |
| Specials.EndsOnEveryInputIff | src/q3_tokenizer.c:306 | so it ends on every input exactly if no special text is empty or every single byte is a special text |
| Tokenizer.VocabularyOf | src/q3_tokenizer.c:671-695 | the last id wins, and every id looked up spells the text looked up |
| Tokenizer.TokenizerObject.LoadTokens | src/q3_tokenizer.c:671-695 | loading the token array fills the spellings and the hash with that vocabulary |
| Tokenizer.TokenizerObject.EncodePiece | src/q3_tokenizer.c:133 | encode_piece: shortcuts, merging, lookup and the per-character fallback |
| EncodingFacts.ShortcutIds | src/q3_tokenizer.c:133 | the four single bytes with their ids 11, 0, 13 and 198 |
| EncodingFacts.PieceIdsOfMerged | src/q3_tokenizer.c:133 | the ids of any other piece are those of its merged symbols, one by one, if all are in the vocabulary |
| EncodingFacts.SymbolFallback | src/q3_tokenizer.c:133 | a merged symbol that is not in the vocabulary is encoded byte by byte, or encoding fails |
| Tokenizer.TokenizerObject.EncodeText | src/q3_tokenizer.c:186-305 | encode_text encodes the pieces in order and fails with the first that fails |
| EncodingFacts.TextIdsOfPieces | src/q3_tokenizer.c:186-305 | the ids of a segment are those of its pieces in order |
| Tokenizer.TokenizerObject.EncodeSpecial | src/q3_tokenizer.c:306 | encode_special encodes the chunks in order |
| Tokenizer.TokenizerObject.Encode | src/q3_tokenizer.c:529 | q3_tokenizer_encode computes the specified ids or fails |
| Tokenizer.TokenizerObject.Decode | src/q3_tokenizer.c:577-578 | q3_tokenizer_decode computes the specified bytes or fails |
| EncodingFacts.OneTokenDecodes | src/q3_tokenizer.c:554-578 | what any id decodes to, and when it cannot be decoded |
| EncodingFacts.DecodesIffAll | src/q3_tokenizer.c:577-578 | decoding succeeds if and only if every id can be decoded |
| EncodingFacts.SpellingStandsFor | src/q3_tokenizer.c:577-578 | a spelling with a code point that belongs to no byte cannot be decoded |
| TokenizerRoundTrip.PieceGives | src/q3_tokenizer.c:133 | whatever a piece is encoded to decodes to the piece |
| TokenizerRoundTrip.TextGives | src/q3_tokenizer.c:186-305 | the same for a whole plain segment |
| TokenizerRoundTrip.DecodesRespelled | src/q3_tokenizer.c:529-578 | for every input that can be encoded, decoding gives the normalised input with each special text replaced by the first text of its id |
| TokenizerRoundTrip.RoundTripsIffOneTextPerId | src/q3_tokenizer.c:529-578 | decoding undoes encoding on every input that can be encoded, if and only if every special text is the first text of the id it is encoded to |
| TokenizerRoundTrip.EncodingIsStable | src/q3_tokenizer.c:529-578 | where no special text is respelled, what decoding returns is encoded to the same ids again |
| EncodesAll.EncodesEverythingIff | src/q3_tokenizer.c:133 | given the symbols of the four shortcut bytes, every input can be encoded if and only if every other byte is a special text or has its symbol in the vocabulary |
| EncodesAll.RecoversEverythingIff | src/q3_tokenizer.c:529-578 | every input is encoded and comes back, if and only if in addition no special text is respelled |
| Reencoding.Rechunks | src/q3_tokenizer.c:306 | where no special text can run into a decoded one, the respelled input is cut at the same places |
| Reencoding.RespelledIsNormal | src/q3_tokenizer.c:307-333 | respelling leaves nothing to compose, if decoded texts take an accent only where the text they stand for does |
| Reencoding.StableIff | src/q3_tokenizer.c:529-578 | for such tables the ids are stable under decoding and encoding again, if and only if each decoded text is encoded to its id and ends in a letter that takes an accent only where its own text does |
| Reencoding.BracketedIsEnough | src/q3_tokenizer.c:581-593 | texts in angle brackets meet the conditions on overlaps and ends |
| UnstableAlias.AliasCanUnsettle | src/q3_tokenizer.c:306 | a concrete table whose alias is decoded to a text that runs into another special text, so that the ids change |
| SpecialLoading.LoadControlTokens | src/q3_tokenizer.c:711-731 | the table holds exactly the control tokens that have a spelling, in id order |
| SpecialLoading.RecoverNeeded | src/q3_tokenizer.c:737-772 | the texts added are exactly the needed texts that are in the vocabulary |
| SpecialLoading.VerifySpecials | src/q3_tokenizer.c:615-650 | fails exactly for a required id without vocabulary entry; otherwise exactly the spelling and the alias of every required token are added |
| SpecialLoading.OneTextIffAliasesAreSpellings | src/q3_tokenizer.c:615-650 | a loaded table has one text per id exactly when every template alias is the GGUF spelling of its token |
| SpecialLoading.LoadedRoundTripsIff | src/q3_tokenizer.c:529-650 | a table that was loaded and verified decodes what it encodes exactly when the aliases are the spellings |
| SpecialLoading.VerifiedKeepsIds | src/q3_tokenizer.c:615-650 | in a verified table the text an id is decoded to is encoded to that id, whatever the aliases |
| TokenizerFile.LoadMerges | src/q3_tokenizer.c:697-709 | the merge list in file order, each rule cut at its first NUL |
| TokenizerFile.Init | src/q3_tokenizer.c:656-776 | the whole load: when it fails, exactly which texts the special-token table holds afterwards, and that the tokenizer is ready for encoding if and only if none of them is empty |
| TokenizerFile.LoadedIffPlainTexts | src/q3_tokenizer.c:656-776 | what decoding relies on holds of the loaded tokenizer if and only if the texts of the table are ASCII and not empty |
| TokenizerFile.FileRoundTripsIff | src/q3_tokenizer.c:656-776 | from conditions on the file: a loaded tokenizer decodes what it encodes exactly when the aliases are the spellings, and recovers every input exactly when also every byte has its symbol |
| TokenizerFile.BracketedFileIsStable | src/q3_tokenizer.c:615-650 | where all special texts stand in angle brackets the ids are stable also with aliases that differ |
| TokenizerFile.AliasesAreBracketed | src/q3_tokenizer.c:585-593 | the aliases of the required tokens meet that condition |
| QuantSums.CovarianceNonNegative | tools/qwen3_q4.py:186-199 | where levels follow values, the weighted covariance of values and levels is not negative |
| QuantSums.ErrorExpands | tools/qwen3_q4.py:204-207 | the error loop computes the quadratic form in scale and minimum whose coefficients are the running sums |
| QuantSums.FittedIsOptimal | tools/qwen3_q4.py:197-203 | each candidate is the exact minimiser of the weighted squared error over all lines with a minimum at most 0, clamped or not |
| QuantSums.FittedScaleNonNegative | tools/qwen3_q4.py:197-203 | each candidate's scale is at least 0, clamped or not |
| QuantSums.ClampedNumerator | tools/qwen3_q4.py:200-203 | if the unconstrained minimum is positive, the numerator of the clamped scale is not negative |
| QuantSearch.LevelsForFollow | tools/qwen3_q4.py:189-192 | rounding to nearest and clamping keeps levels in the order of the values and in 0..15 |
| QuantSearch.StepKeepsGood | tools/qwen3_q4.py:182-212 | one step keeps scale and minimum signs, never increases the error, and beats the candidate it looked at |
| QuantSearch.QuantsAreGood | tools/qwen3_q4.py:144-213 | the returned line is no worse than the min-max line, and best for its levels if the search replaced that line |
| QuantTrace.QuantsTraced | tools/qwen3_q4.py:144-213 | the whole search as a sequence of lines: it starts from the line that spans the group and goes through all 21 candidates unless the minimum reaches the maximum |
| QuantTrace.StepIsDecided | tools/qwen3_q4.py:182-212 | candidate by candidate: its levels, that it is tried exactly if the determinant is positive, and that the best line for these levels replaces the current one exactly if its error is smaller |
| QuantTrace.InitialSpans | tools/qwen3_q4.py:167-179 | the first line spans the group in fifteen steps from its minimum, or 0 |
| QuantTrace.ExtremesAreAttained | tools/qwen3_q4.py:155-163 | minimum and maximum are values of the group |
| QuantSearch.Extremes | tools/qwen3_q4.py:155-166 | minimum, maximum and the two sums of the first loop |
| QuantSearch.TryLevels | tools/qwen3_q4.py:185-196 | the candidate loop fills the levels and the three sums over them |
| QuantSearch.SearchStep | tools/qwen3_q4.py:182-212 | one round on the level arrays: the best line changes as a whole or not at all |
| QuantSearch.MakeQkx2Quants | tools/qwen3_q4.py:144-213 | the whole search, with the early exits and the break on the updated minimum |
| Q4Block.PackScales | tools/qwen3_q4.py:260-272 | the scale loop leaves the twelve bytes of the packed layout |
| Q4Block.UnpacksScales | tools/qwen3_q4.py:216-224 | unpacking returns all eight pairs of six-bit scales and minima that were packed |
| Q4Block.PackLevels | tools/qwen3_q4.py:295-298 | the nibble loops put elements l and l + 32 of each 64 into one byte |
| Q4Block.UnpacksLevels | cuda/q3_cuda_primitives.cu:51-60 | decoding returns all 256 levels that were packed |
| Q4Choice.ScaleLayout | tools/qwen3_q4.py:260-272 | the twelve scale bytes bit by bit |
| Q4Choice.LevelLayout | tools/qwen3_q4.py:295-298 | which two levels each byte holds |
| Q4Choice.LevelBits | src/q3_quant.c:70-74 | which half of which byte each level is read from |
| Q4Choice.DecodedValue | cuda/q3_cuda_primitives.cu:50-59 | the decoded value: half float times scale times level, minus half float times minimum |
| Q4Block.DequantQ4 | src/q3_quant.c:57-76 | the streaming decoder writes, for every element, the value of the per-element form, and nothing else |
| Q4Block.DequantizeRow | src/q3_quant.c:105-120 | a row of Q4_K blocks decodes to what the kernel threads compute, one value per thread index; argument errors change nothing |
| Q4Quantize.GroupResultInRange | tools/qwen3_q4.py:243-255 | scale and negated minimum of every group are at least 0 |
| Q4Quantize.SixBitsFit | tools/qwen3_q4.py:262-265 | every packed scale and minimum lies in 0..63, although there is no clamp from below |
| Q4Quantize.NegativeWouldNotFit | tools/qwen3_q4.py:262-265 | a negative argument would be packed as a negative number |
| Q4Quantize.FinalLevelIsNearest | tools/qwen3_q4.py:289-292 | where the step is positive, no other of the sixteen levels comes closer to the element than the final one |
| Q4Quantize.QuantizeBlock | tools/qwen3_q4.py:227-300 | the block holds, packed, the choices that the rows on the block's scales and decoded values describe |
| Q4Choice.GroupSearched | tools/qwen3_q4.py:243-248 | each group of 32 is searched with the root mean square plus the size of the element as weight |
| Q4Choice.BlockScales | tools/qwen3_q4.py:252-279 | the stored half floats are the largest scale and the largest negated minimum over 63; every six-bit quantity is its group's value in these units to within half a unit; some group attains 63, or all are 0 |
| Q4Choice.FlatGroupDecodes | tools/qwen3_q4.py:283-288 | in a group with step 0 every element decodes to the packed minimum |
| Q4Choice.ConstantBlockDecodes | tools/qwen3_q4.py:227-300 | a block of one negative value decodes to that value up to the half float |
| Q4Quantize.DecodedIsNearest | tools/qwen3_q4.py:283-292 | the decoded value of an element whose group has a positive step is the nearest value the group can represent |
| Q4Quantize.QuantizeAndDecode | tools/qwen3_q4.py:303-313 | quantizing a whole row and decoding it again returns, for every element of a group with a positive step, the nearest value the group can represent |
| Forward.Causal | src/q3_forward.cu:1187-1357 | a position of the forward pass depends on no token behind it |
| Forward.AddressInjective | src/q3_forward.h:258-261 | different (branch, layer, position) triples have different rows |
| Forward.AddressInside | src/q3_forward.h:258-261 | every row of a valid branch lies inside the arena |
| Prefix.PrefixKv.Prefill | src/q3_decide.cu:103-144 | error order; exactly which rows a successful or failed prefill writes, and that all others stay; an intact prefix stays intact after a failed refill if and only if the rows of both token lists agree in the written layers |
| Prefix.PrefixKv.RunLayer | src/q3_forward.cu:1187-1357 | one layer of the prefill, which may fail before or after it appends its rows: those rows are written, everything else in the slab stays |
| Prefix.StillHoldsIff | src/q3_decide.cu:131-143 | a slab that held the rows of one token list holds them after an early-ended refill with another, if and only if the rows of both agree in the written layers |
| Prefix.AgreeingTokensAgreeInRows | src/q3_decide.cu:131-143 | a check before the call: if the token lists agree as far as both go, so do the rows of every layer |
| Prefix.RowsAgreeIffTokensAgree | src/q3_decide.cu:131-143 | for a network that tells tokens apart in its first layer that check is exact, as soon as one layer is written |
| Prefix.PrefixKv.Seal | src/q3_decide.cu:146-159 | sealing fails exactly for an empty prefix |
| Prefix.SealedOverForeignRows | src/q3_decide.cu:103-159 | a concrete run in which a failed second prefill leaves a prefix that can be sealed over rows that are not its own |
| Branches.BranchSet.Acquire | src/q3_decide.cu:275-292 | the lowest handle nobody holds, or failure exactly when all are held |
| Branches.BranchSet.Release | src/q3_decide.cu:301-307 | gives back a held handle and ignores every other |
| Branches.Run | src/q3_decide.cu:275-307 | over any run of calls each take returns the lowest handle free after the calls before it, or -1 when all are held; the live field counts the outstanding handles |
| Packing.PackItems | src/q3_decide.cu:440-464 | the cursor loop packs every token with its item, local and absolute position; it fails exactly for an invalid handle |
| Packing.TokenExists | src/q3_decide.cu:440-464 | every packed index stands for a local token of an item |
| Packing.TokenUnique | src/q3_decide.cu:440-464 | and for no other |
| Decide.ScatterTargetsDiffer | src/q3_forward.cu:529-550 | no two packed tokens are scattered to one address |
| Decide.Scatter | src/q3_forward.cu:529-550 | after the scatter every suffix token has its row in its own branch's slab |
| Decide.VisibleIsOwn | src/q3_forward.cu:418-525 | the two segments a token attends to are exactly the rows its own run computes up to its position |
| Decide.RunLayerPacked | src/q3_forward.cu:1437-1586 | a packed layer keeps every hidden row equal to that of the token's own run |
| Decide.RunPacked | src/q3_forward.cu:1588-1651 | each item's gathered row is the last row of prefix and own suffix run alone, whatever the arena held before |
| Decide.GatherLastRows | src/q3_forward.cu:553-564 | the row of each item's last token, and no other |
| Decide.DecideRun | src/q3_decide.cu:369-498 | accepted exactly if all six checks hold, each refusal exactly if its own check is the first that fails; then own logits and own first maximum for every item, and the prefix unchanged |
| JobQueue.Ring.Enqueue | src/server/q3_server.c:962-973 | appends to the bounded sequence, or refuses exactly when stopping or full |
| JobQueue.Ring.Dequeue | src/server/q3_server.c:975-988 | takes the oldest job, reports the end when empty and stopping, and otherwise waits |
| JobQueue.Ring.Stop | src/server/q3_server.c:990-995 | stopping keeps what is queued |
| JobProtocol.StepKeepsInv | src/server/q3_server.c:962-1015 | every step of a client, the worker or the main thread keeps the invariant |
| JobProtocol.AcceptedRunOnceInOrder | src/server/q3_server.c:1003-1015 | for any schedule, the jobs that ran are exactly the first accepted ones in order, once each; refused jobs never run |
| JobProtocol.EnqueueDecides | src/server/q3_server.c:962-973 | an enqueue is accepted if and only if the server has not stopped and the queue has room |
| JobProtocol.WorkerDecides | src/server/q3_server.c:975-1013 | the worker takes the oldest job, runs it and marks it done; it exits exactly when it is stopped and nothing waits |
| JobProtocol.WakeDecides | src/server/q3_server.c:1187-1200 | a job is cancelled exactly when its client is found to be gone before it is done |
| JobProtocol.StopDrains | src/server/q3_server.c:1546-1547 | once the worker is joined, every accepted job has run |
| JobProtocol.NoUseAfterFree | src/server/q3_server.c:1187-1287 | no thread touches a freed job, also after a disconnect |
| JobProtocol.FreedIsFinal | src/server/q3_server.c:1256-1287 | a freed job is not freed again |
| JobProtocol.RingUnusedAfterJoin | src/server/q3_server.c:1546-1553 | after the buffer is freed enqueue refuses before it looks at it |
| JobProtocol.WorkerIsNeverStuck | src/server/q3_server.c:1003-1015 | unless it waits for work, the worker can step or the client holding the mutex can |
| JobProtocol.ClientIsNeverStuck | src/server/q3_server.c:1187-1287 | the client of any job that is not freed can step, or the worker is about to unlock the job |
| JobProtocol.DoneJobIsFreed | src/server/q3_server.c:1187-1287 | once a job is done its client only moves towards freeing it |
| JobProtocol.ShutdownTerminates | src/server/q3_server.c:1546-1547 | after the stop every worker step brings its exit closer and no other step moves it away |
| JsonParser.Parser.String | src/io/hd_json.c:31-92 | the string loop computes the specified string, or its first error |
| JsonParser.Parser.Number | src/io/hd_json.c:156-178 | the number scanner, with saturation to 64 bits |
| JsonParser.Parser.ParseOne | src/io/hd_json.c:180-205 | the recursive parser computes the specified value and position, restores the depth, and reports the first error |
| JsonParser.ParseText | src/io/hd_json.c:207-222 | the whole parse, including trailing content |
| JsonGrammar.ParsesExactlyTheLanguage | src/io/hd_json.c:31-222 | a text parses to a value if and only if it spells the value in a grammar of plain characters, with white space around all tokens, and the value is nested at most 512 deep |
| JsonGrammar.NumberIsParsed | src/io/hd_json.c:156-178 | numbers by shape: integers cut to 64 bits, and doubles exactly with a point or an exponent |
| JsonRoundTrip.AcceptsExactlyTheGrammar | src/io/hd_json.c:31-92 | a string is accepted exactly if its body follows section 7 of RFC 8259, and the parser stops right behind it |
| JsonEscapes.UnicodeEscape | src/io/hd_json.c:57-82 | an escape of any code from 1 to ffff, in either case of digits, stands for one UTF-8 sequence that reads back as that code |
| JsonEscapes.NulEndsText | src/io/hd_json.c:57-92 | an escape of the code 0 ends the text in front of it |
| JsonEscapes.LetterEscapes | src/io/hd_json.c:45-56 | the eight escapes of one character, and the byte of each |
| JsonEscapes.PlainBytes | src/io/hd_json.c:37-87 | any other byte stands for itself, and a quote ends the string |
| JsonEscapes.StringErrors | src/io/hd_json.c:38-92 | control characters and broken escapes are errors, each its own |
| JsonRoundTrip.EscapedIsGrammatical | src/server/q3_server.c:290-310 | every printed string follows that grammar |
| JsonRoundTrip.EscapedParses | src/server/q3_server.c:290-310 | a printed string parses back to itself, whatever follows |
| JsonRoundTrip.ParsedFits | src/io/hd_json.c:180-205 | what parses is nested at most as deep as the limit, with 64-bit integers |
| JsonRoundTrip.ValueParses | src/server/q3_server.c:834-877 | a printed value parses back at any place in a document |
| JsonRoundTrip.ParseOfEmit | src/server/q3_server.c:834-877 | parsing the print of a value without doubles returns it, if and only if its nesting is within the limit |
| JsonEmit.Buffer.EmitValue | src/server/q3_server.c:834-877 | printing appends exactly the specified text |
| JsonEmit.SerializeRequest | src/server/q3_server.c:882-896 | the literal text around the parts is what printing the state-and-questions object gives |
| JsonRoundTrip.RequestParses | src/server/q3_server.c:882-896 | the normalised request parses back to the state and questions it was made from whenever the body parsed and holds no doubles |

## Left out

- CUDA kernels, matrix products, normalisation, rotary embedding, softmax: the row-wise operations of a layer and the attention of one token are uninterpreted functions; a cache row stands for the key and value row together.
- Floating point: the quantizer and the decoders are over reals, rounding is any function that is nearest, a half float any conversion that keeps values non-negative. `_nearest_int` is nearest only between -2^22 and 2^22 (tools/qwen3_q4.py:133-141).
- The vectorised NumPy and Torch quantizers, f16, bf16 and E4M3 conversions.
- Allocation failures of the C heap, and a `calloc` of no elements, which is taken to succeed. Failing CUDA calls of the loader are modelled.
- qsort is modelled by an insertion into a sorted sequence with the source's comparison; the comparison is total, so every sort gives this result.
- GGUF element counts within one block of 2^64, for which the block count of `q3_gguf_type_nbytes` wraps: the round trip needs smaller counts (`CountFits`).
- GGUF items named `general.alignment`: the writer writes none, and the round trip excludes other values than 0 and 32 (`KeepsAlignment`).
- Reading safetensors, converting payloads and streaming them in chunks: a payload is a sequence of bytes of the declared length.
- `tokenizer.json`, chat rendering, model configuration and binder checks.
- Tokenizer ids and merge counts beyond 31 bits, where the C code narrows them to `int`.
- Duplicate branch handles in one decision batch, which the code does not check: distinct handles are a precondition. So is a total token count below 2^32, the width of the code's sum.
- The softmax over candidates, and timing and statistics of the decision run.
- JSON doubles: their printing and reading is a parameter, and the round trips exclude them, because an integral double comes back as an integer and an infinity does not parse.
- HTTP, sockets, request validation beyond the two printed fields, CORS, command line options, telemetry.
- Fairness of the scheduler and condition variables: the worker is shown never to be stuck, and its remaining work to fall with each of its steps after the stop. Client threads are detached, so a client that is still sending when the process ends is not part of this model.
- Q4Block.DequantizeRow: does not model Q6_K rows, which the function also decodes; only Q4_K and unsupported types are told apart.
- Reencoding.StableIff: is exact only for tables in which no special text can run into a decoded one; with overlaps and aliases the ids may change or not, depending on all texts of the table together.
- EncodesAll.EncodesEverythingIff: takes the symbols of the four shortcut bytes as given, as a longer piece may merge these bytes before it needs their symbols.
