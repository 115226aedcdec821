# Verified core of the priority JSON streaming library

This project models the parts of the library whose correctness is hardest to see by reading, and
proves what each of them is for.

* **Streaming plan.** A document is sent as a skeleton, then as batches of patches in descending
  priority, then a completion frame. A `Set` carries a value with its arrays emptied, so one that
  arrived late would erase what was already appended. The proofs show that hoisted priorities and a
  stable sort prevent that, what the client shows after every prefix of the plan, and exactly which
  documents come back. (`PriorityPlan`, `PlanOrder`,
  `PlanRoundTrip`, `PlanContents`, `Reconstruction`, `ReconstructionLaws`)
* **Schema compression.** Dictionary, run-length, delta and hybrid encoding with their decoders:
  round trips with exact conditions, and an identity between the saving the dictionary builder
  predicts and the bytes really saved. (`Dictionary*`, `SerializerLaws`, `RunLength*`,
  `Delta*`)
* **Parser and depth scanner.** The zero-copy recursive-descent parser is proved equal to a grammar
  in both directions, complete for RFC 8259 text, and in agreement with the one-pass depth scanner.
  (`Utf8`, `Escapes`, `JsonText`, `ParserSpec`, `ParserGrammar`, `ParserDepth`, `ZeroCopyParser`,
  `ParserTheorems`,
  `DepthScanner`)
* **Rate limiter.** A trimmed log with eviction is shown to stand for the true request history in
  every run; window, retry-hint, connection and token-bucket guarantees follow. (`RateLimiter*`)
* **Byte-bounded channel.** A step system of concurrent senders, one receiver and permits that
  outlive the queue: conservation, order, progress, and when the byte bound holds.
  (`BoundedChannel`, `ByteBoundedChannel`, `ChannelAccounting`, `ChannelDelivery`)
* **Decompression guard.** A reader that checks limits periodically: exact overshoot, stickiness,
  and exactly when protected decompression returns its output. (`DecompressionGuard`)

Conventions. Objects are sequences of fields with distinct keys. Strings are sequences of UTF-8 code
units, so lengths are byte lengths. Integers are unbounded unless a width matters, and then the
truncation is written out. Instants are nanoseconds since the earliest representable one and are
arguments of the limiter's calls, each of which is one atomic step. The decoder behind the guard, the
scheduling of senders and the number-to-text conversion are parameters, arbitrary in every theorem.

Findings, each with its exact condition:

* A plan gives the document back if and only if the root is an array, null, or an object whose
  root-level keys outside the path syntax hold values equal to their placeholder
  (`PlanRoundTripIff`; `RootKeyComesBackIff` gives the keys).
* Run-length encoding with a minimum frequency above 1 stores a run of two up to that length once
  and so loses elements (`RepetitionsLost`); `RoundTripIff` is the exact condition for every setting.
* The comment at `crates/pjs-core/src/compression/mod.rs:62-71` says JSON escaping makes the
  dictionary cost model optimistic. The code gives the opposite sign: escaping adds to the saving
  (`ExactSaving`, `EscapeBonus`). What reduces it is one byte per sentinel-led string that the
  dictionary does not hold.
* Delta encoding restores a document numerically exactly when every number of a compressed array
  survives subtracting and adding back the base in floating point, besides the absence of marked
  arrays and the size limit (`DeltaRoundTripIff`, `HybridRoundTripIff`).
* The reconstructor ignores a position at the end of a path when it sets or removes: it goes by the last
  key (`PositionIgnored`), so an element of a named array cannot be set (`ElementNotSet`).
* The request limit holds for half-open intervals as long as the window and for no longer span: a
  closed interval of that length can hold one request more (`SpanBoundedIff`).
* The channel bounds live bytes if and only if its budget fits 32 bits (`MemoryBoundedIff`).

## Model

| member | source | states |
|---|---|---|
| Reconstruction.ApplyAt | crates/pjs-core/src/stream/reconstruction.rs:145-301 | at any path, array positions included, a refused operation leaves the document as it was |
| Reconstruction.KeyPathsAgree | crates/pjs-core/src/stream/reconstruction.rs:232-301 | on paths of keys alone, which are all a plan uses, that navigation is the one the plan's proofs reason about |
| ReconstructionLaws.SetLaw | crates/pjs-core/src/stream/reconstruction.rs:145-182 | at any path to an object's key, the key afterwards holds the value and every diverging path leads where it led; an array takes a key that spells a position it has; anything else is refused |
| ReconstructionLaws.AppendLaw | crates/pjs-core/src/stream/reconstruction.rs:185-200 | appending succeeds exactly on an array, which then ends in the new values, and changes nothing on a diverging path |
| ReconstructionLaws.RemoveLaw | crates/pjs-core/src/stream/reconstruction.rs:203-229 | the removed key is gone and its siblings stay; removing a position closes the gap; a position the array has not is ignored; scalars refuse |
| ReconstructionLaws.PositionIgnored | crates/pjs-core/src/stream/reconstruction.rs:145-160 | setting or removing at a path that ends in a position goes by the last key and never looks at the position |
| ReconstructionLaws.ElementNotSet | crates/pjs-core/src/stream/reconstruction.rs:145-182 | so an element of a named array that can be reached cannot be set |
| Reconstruction.ApplyPatchesConcat | crates/pjs-core/src/stream/reconstruction.rs:84-143 | applying patches in two lots is applying them in one, stopping at the first refusal |
| Reconstruction.JsonReconstructor.AddFrame | crates/pjs-core/src/stream/reconstruction.rs:55-61 | the queue grows by that frame at its end |
| Reconstruction.JsonReconstructor.ProcessFrame | crates/pjs-core/src/stream/reconstruction.rs:84-122 | state and success are those of applying the frame; completion is recorded |
| Reconstruction.JsonReconstructor.ProcessAllFrames | crates/pjs-core/src/stream/reconstruction.rs:73-81 | the queued frames are applied in order until one is refused; exactly the frames behind it stay queued |
| PriorityPlan.Hoist | crates/pjs-core/src/stream/priority.rs:252-261 | the result is the least priority that is at least the set's own and at least that of every append below it |
| PriorityPlan.PriorityStreamer.ExtractPatches | crates/pjs-core/src/stream/priority.rs:233-308 | the patches of the value follow those already collected, for every `max_patch_size` that does not panic |
| PriorityPlan.PriorityStreamer.ExtractFromField | crates/pjs-core/src/stream/priority.rs:241-272 | an encodable field adds its set, then its subtree; any other adds nothing |
| PriorityPlan.PriorityStreamer.Batch | crates/pjs-core/src/stream/priority.rs:145-174 | the batches concatenate to the patches, each has one priority and 1 to `max_patch_size` patches (1 when that is 0), and a batch followed by one of its own priority is full |
| PriorityPlan.PriorityStreamer.Analyze | crates/pjs-core/src/stream/priority.rs:127-181 | skeleton first, good batches of the stably sorted patches, completion last; a `max_patch_size` of 0 is allowed when no array has to be cut |
| PlanOrder.StableSortCorrect | crates/pjs-core/src/stream/priority.rs:142-143 | the sort is descending, a permutation, and keeps the order within each priority |
| PlanOrder.StableSortUnique | crates/pjs-core/src/stream/priority.rs:142-143 | a descending sequence with the same patches in the same order at each priority can only be this one |
| PlanOrder.StableSortOrdered | crates/pjs-core/src/stream/priority.rs:142-143 | if every set is hoisted and precedes the appends below it, it still does after the sort |
| PlanOrder.ExtractOrdered | crates/pjs-core/src/stream/priority.rs:233-308 | extraction yields hoisted sets that precede the appends at or below them |
| PlanOrder.ExtractDescribes | crates/pjs-core/src/stream/priority.rs:233-308 | every patch addresses a node of the document: a set carries its value with arrays emptied, an append addresses an array and has that array's priority |
| PlanOrder.ExtractAppends | crates/pjs-core/src/stream/priority.rs:274-301 | the appends on an array's path concatenate to its elements: none for an empty array, one up to ten elements, chunks of exactly the patch size beyond |
| PlanOrder.ExtractAppended | crates/pjs-core/src/stream/priority.rs:274-301 | the elements appended on an array's path are exactly its elements, in order |
| PlanOrder.ChunksConcat | crates/pjs-core/src/stream/priority.rs:276-291 | the chunks of an array concatenate to it, for every chunk size |
| PlanOrder.StableSortAppended | crates/pjs-core/src/stream/priority.rs:142-143 | the sort keeps the elements appended on one path in their order |
| PlanRoundTrip.PrefixState | crates/pjs-core/src/stream/priority.rs:143-308 | after every prefix of the plan no patch has been refused and the client's document is the view of that prefix |
| PlanRoundTrip.ProgressiveRefinement | crates/pjs-core/src/stream/priority.rs:143-308 | between any two points of the plan arrays only grow towards the final ones and scalars only go from placeholder to final value |
| PlanRoundTrip.PlanOrdering | crates/pjs-core/src/stream/priority.rs:142-174 | the batches hold the extracted patches in descending priority, every set precedes the appends below it, appends on a path keep element order |
| PlanRoundTrip.BlankIffPlaceholder | crates/pjs-core/src/stream/priority.rs:184-206 | a value equals its placeholder exactly when it is null, false, integer zero, an empty array, or an object of such values |
| PlanRoundTrip.ReplayIsPatches | crates/pjs-core/src/stream/reconstruction.rs:73-122 | replaying the frames of any plan is applying the sorted patches to the skeleton |
| PlanRoundTrip.PlanRoundTripIff | crates/pjs-core/src/stream/priority.rs:127-308 | every plan replays without a refusal, and gives the document back if and only if it is recoverable |
| PlanContents.PlanCutsArrays | crates/pjs-core/src/stream/priority.rs:274-301 | in every plan an array of n > 10 elements goes out in ceil(n / size) appends, all of exactly `max_patch_size` elements but the last of 1 to that many; one of 1 to 10 in exactly one |
| PlanContents.SetsInPreorder | crates/pjs-core/src/stream/priority.rs:233-272 | every field reachable through encodable keys is set exactly once, before the fields below it, siblings in order |
| PlanContents.SetPriorityExact | crates/pjs-core/src/stream/priority.rs:247-261 | a set's priority is the maximum of its field's own and of the appends below it, neither more nor less |
| PlanContents.FieldPriorityTable | crates/pjs-core/src/stream/priority.rs:311-338 | which keys, occurrences and sizes give each of the five priorities, each level with an if-and-only-if |
| PlanContents.AppendPriorityTable | crates/pjs-core/src/stream/priority.rs:341-359 | an append is background exactly for a long array or one of records, medium otherwise |
| PlanContents.SkeletonShows | crates/pjs-core/src/stream/priority.rs:184-206 | a placeholder is blank and keeps the kind of its value, text being shown as null; a scalar root is null |
| PlanContents.RootKeyComesBackIff | crates/pjs-core/src/stream/priority.rs:242-246 | the text under a root key comes back if and only if the key is not empty and holds no dot and no bracket |
| PlanRoundTrip.RoundTrip | crates/pjs-core/src/stream/priority.rs:419-427 | planning, feeding the reconstructor and reading it back completes, and returns the document if and only if it is recoverable |
| Dictionary.StringRoundTrip | crates/pjs-core/src/stream/compression_integration.rs:380-398 | decoding an encoded string gives it back, also when it starts with the sentinel or looks like a marker |
| Dictionary.DecodedString | crates/pjs-core/src/stream/compression_integration.rs:380-398 | what any received string decodes to: itself, its tail after a doubled sentinel, the entry its 16-bit index names, or the error |
| Text.ParsesSpellings | crates/pjs-core/src/stream/compression_integration.rs:387-397 | an index or position parses to n exactly from the spellings of n: an optional plus sign, leading zeros, the decimal digits |
| Dictionary.SubstituteRoundTrip | crates/pjs-core/src/compression/mod.rs:580-608 | decoding a substituted document gives it back for every dictionary the entries resolve |
| Dictionary.RoundTripIffResolves | crates/pjs-core/src/stream/compression_integration.rs:344-398 | all documents come back if and only if the entries resolve every index of the dictionary |
| Dictionary.DictionaryMetadata | crates/pjs-core/src/compression/mod.rs:555-568 | each position of the transmitted array holds a string of that index, or an empty one if no string has it; with proper indices every string is at its own |
| Dictionary.MetadataResolves | crates/pjs-core/src/stream/compression_integration.rs:172-202 | what the receiver reads from that array resolves the dictionary |
| Dictionary.CompressAndDecompress | crates/pjs-core/src/compression/mod.rs:685-702 | for every dictionary whose indices are 0..k, compressing, sending payload and metadata and decompressing returns the document |
| DictionaryBuilder.TallyCounts | crates/pjs-core/src/compression/mod.rs:344-346 | the tally holds exactly the strings that occur, each with its multiplicity |
| DictionaryBuilder.SchemaAnalyzer.Analyze | crates/pjs-core/src/compression/mod.rs:239-250 | the counts are those of this document alone |
| DictionaryBuilder.SchemaAnalyzer.AnalyzeRecursive | crates/pjs-core/src/compression/mod.rs:253-286 | the counts grow by those of the value's strings |
| DictionaryBuilder.SortedUnique | crates/pjs-core/src/compression/mod.rs:498-502 | a sorted candidate list is determined by its elements |
| DictionaryBuilder.KeptIsDictionary | crates/pjs-core/src/compression/mod.rs:487-528 | the kept strings are distinct eligible entries, their indices a bijection with 0..k, k at most 65535 |
| DictionaryBuilder.OrderIndependent | crates/pjs-core/src/compression/mod.rs:487-528 | the kept entries do not depend on the order in which the counts are enumerated |
| DictionaryChoice.BuilderChooses | crates/pjs-core/src/compression/mod.rs:487-528 | an entry is in the dictionary if and only if it is frequent and long enough, k < 65535 held entries outrank it by count times length (ties to the smaller string), and `count * (len - 1 - digits(k)) > len + 3`; its index is then k |
| DictionaryChoice.BuildDictionary | crates/pjs-core/src/compression/mod.rs:487-528 | the loop returns that dictionary, and the modelled net saving of its entries |
| SerializerLaws.CompactText | crates/pjs-core/src/compression/mod.rs:538-548 | the measured text is compact JSON: literals, quoted keys and strings, commas between parts, no spaces |
| SerializerLaws.SerializedStringParses | crates/pjs-core/src/compression/mod.rs:538-548 | the text written for a string is one token for the zero-copy parser, whose value is the string |
| DictionarySaving.PayloadSaving | crates/pjs-core/src/compression/mod.rs:538-548 | the serialized payload shrinks by exactly what its string values save |
| DictionarySaving.SavingGrouped | crates/pjs-core/src/compression/mod.rs:580-608 | the strings' saving, grouped by kept string, less one byte per literal that starts with the sentinel |
| DictionarySaving.MetadataText | crates/pjs-core/src/compression/mod.rs:555-568 | the metadata's measured size is the envelope plus each kept string's escaped length and three bytes |
| DictionarySaving.TransmittedStrings | crates/pjs-core/src/compression/mod.rs:555-568 | the array transmitted for the chosen dictionary is its kept strings in order, so what is measured is what is sent |
| DictionarySaving.ExactSaving | crates/pjs-core/src/compression/mod.rs:487-608 | measured saving equals modelled net plus the escape bonus minus the sentinel-led literals |
| DictionarySaving.SelectedDictionaryShrinks | crates/pjs-core/src/compression/mod.rs:393-401 | when the gate selects the dictionary and fewer sentinel-led literals occur than the required net, the output is strictly smaller |
| DictionarySaving.ChosenDictionaryRoundTrip | crates/pjs-core/src/compression/mod.rs:685-702 | through the transmitted array, the substituted document decodes to the document |
| DictionarySaving.CompressDocument | crates/pjs-core/src/compression/mod.rs:649-702 | one document through counting, building, gate, substitution and metadata: when the gate selects the dictionary the result decodes back, its measured saving is net plus escape bonus minus sentinel-led literals whatever the iteration order, and with fewer such literals than the required net it is strictly smaller |
| RunLength.EncodeArray | crates/pjs-core/src/compression/mod.rs:758-801 | the encoding loop emits exactly one entry per maximal run of equal elements |
| RunLength.DecodeArray | crates/pjs-core/src/stream/compression_integration.rs:483-568 | the decoding loop expands each stored run and stops at the first malformed or oversized one |
| RunLengthLaws.RunsUnique | crates/pjs-core/src/compression/mod.rs:758-801 | the encoder's runs are the only way to write the array as runs with no two neighbours alike |
| RunLengthLaws.LongArrayEncoded | crates/pjs-core/src/compression/mod.rs:758-801 | each run becomes an object of `rle_count` and `rle_value` if it exceeds the minimum frequency, its bare value if not |
| RunLengthLaws.OthersEncoded | crates/pjs-core/src/compression/mod.rs:749-812 | short arrays and objects are encoded part by part, scalars left alone |
| RunLengthLaws.DecodesAnyRuns | crates/pjs-core/src/stream/compression_integration.rs:483-568 | any list of runs, encoded or not, expands in order if each is at most 100000 long and each running total at most 10485760, and gives the limit error otherwise |
| RunLengthLaws.MalformedRuns | crates/pjs-core/src/stream/compression_integration.rs:488-521 | half a run and a count that is no natural number are malformed |
| RunLengthLaws.OtherArrayDecoded | crates/pjs-core/src/stream/compression_integration.rs:557-568 | an array without run objects is decoded element by element |
| RunLengthRoundTrip.ExpandRuns | crates/pjs-core/src/compression/mod.rs:758-801 | expanding the maximal runs of an array gives the array |
| RunLengthRoundTrip.DecodesIffRestores | crates/pjs-core/src/stream/compression_integration.rs:474-571 | an encoded array decodes to its runs expanded if and only if every entry restores its own run: no two mistakes cancel out |
| RunLengthRoundTrip.DecodeFixesIff | crates/pjs-core/src/stream/compression_integration.rs:474-571 | decoding leaves a document alone if and only if no array in it holds a run-keyed object |
| RunLengthRoundTrip.RoundTripIff | crates/pjs-core/src/compression/mod.rs:749-812 | for every setting, the round trip gives the document back if and only if every run survives and is within the limits |
| RunLengthRoundTrip.SurvivesOrLimit | crates/pjs-core/src/stream/compression_integration.rs:474-571 | a surviving document decodes to itself or to a limit error, never to another document |
| RunLengthRoundTrip.InertSurvives | crates/pjs-core/src/compression/mod.rs:749-812 | with a minimum frequency of at most 1 every document without run-keyed array elements survives |
| RunLengthRoundTrip.DefaultRoundTrip | crates/pjs-core/src/compression/mod.rs:749-812 | such a document comes back, or a limit error; within the limits it comes back |
| RunLengthRoundTrip.RepetitionsLost | crates/pjs-core/src/compression/mod.rs:770-779 | three equal elements do not survive a minimum frequency of three |
| Delta.CompressDeltaArray | crates/pjs-core/src/compression/mod.rs:924-965 | the loops return the array's encoding: a header and, for each number, its rounded difference from the base, exactly when those are shorter as text; else the array itself |
| Delta.DecompressDeltaArray | crates/pjs-core/src/stream/compression_integration.rs:435-471 | a marked array becomes base plus each difference; malformed or oversized arrays are refused |
| DeltaLaws.NumericArrayEncoded | crates/pjs-core/src/compression/mod.rs:914-965 | an array of more than two and of at least the configured number of numbers goes out as the literal header with the base of its path, or its first number, and rounded differences, if shorter as text; else as it is |
| DeltaLaws.OthersEncoded | crates/pjs-core/src/compression/mod.rs:858-911 | any other value goes out part by part, each under its path of keys, dots and bracketed positions |
| DeltaLaws.MarkedArrayDecoded | crates/pjs-core/src/stream/compression_integration.rs:435-471 | any marked array, from wherever: over 1000000 the limit error, a base or difference that is no number malformed, else base plus each difference |
| DeltaLaws.OtherArrayDecoded | crates/pjs-core/src/stream/compression_integration.rs:411-430 | an array that does not start with an object holding both keys is decoded element by element |
| DeltaRoundTrip.SubtractAdd | crates/pjs-core/src/compression/mod.rs:940-949 | subtracting and adding back a base is exact on integers of at most 52 bits |
| DeltaRoundTrip.DeltaExact | crates/pjs-core/src/stream/compression_integration.rs:401-471 | for all numbers and any rounding: even the outline comes back only without marked arrays, within the limit and with numbers that survive the arithmetic; without marks only the limit makes decoding fail |
| DeltaRoundTrip.DeltaRoundTripIff | crates/pjs-core/src/compression/mod.rs:849-965 | undoing delta encoding restores the document numerically if and only if no array is marked, compressed arrays are within the limit, and each of their numbers survives subtracting and adding back the base |
| DeltaRoundTrip.IntegersRoundTrip | crates/pjs-core/src/compression/mod.rs:849-965 | with integers of at most 52 bits an unmarked document comes back or reports the limit |
| DeltaRoundTrip.CompressAndRestoreArray | crates/pjs-core/src/compression/mod.rs:924-965 | one array through both loops comes back numerically if and only if it was kept, or it is within the limit and its numbers survive |
| DeltaRoundTrip.ResolveSame | crates/pjs-core/src/stream/compression_integration.rs:344-398 | undoing the dictionary respects numeric equality of documents |
| DeltaRoundTrip.SubstituteKeeps | crates/pjs-core/src/compression/mod.rs:580-608 | substitution changes no mark, no limit, no number and no path of the document |
| DeltaRoundTrip.HybridRoundTripIff | crates/pjs-core/src/compression/mod.rs:815-965 | undoing delta then dictionary restores the document numerically if and only if no array of the input is marked, its compressed arrays are within the limit and their numbers survive; unmarked and over the limit gives the limit error, for any base map |
| DeltaRoundTrip.HybridIntegersRoundTrip | crates/pjs-core/src/compression/mod.rs:815-965 | with integers of at most 52 bits an unmarked document comes back or reports the limit |
| Utf8.EncodeAllValid | crates/pjs-core/src/parser/zero_copy.rs:344-410 | every encoding of scalars passes the UTF-8 check of section 3 of RFC 3629 |
| Utf8.ValidIsEncoding | crates/pjs-core/src/parser/zero_copy.rs:344-410 | every byte string that passes it encodes some scalars |
| Utf8.Samples | crates/pjs-core/src/parser/zero_copy.rs:386-392 | one character of each encoded length, in the bytes of RFC 3629 |
| Escapes.UnescapeString | crates/pjs-core/src/parser/zero_copy.rs:344-410 | the loop returns the unescaped bytes, or nothing on a bad escape or invalid UTF-8 |
| Escapes.UnescapeInverts | crates/pjs-core/src/parser/zero_copy.rs:344-429 | any mix of raw, short, `\uXXXX` and surrogate-pair forms, in digits of either case, unescapes to the UTF-8 text of the code points section 7 of RFC 8259 gives them |
| Escapes.LoneSurrogateFails | crates/pjs-core/src/parser/zero_copy.rs:359-393 | the escape of a surrogate, in any case, that is not followed by its other half always fails |
| Escapes.UnknownEscapeFails | crates/pjs-core/src/parser/zero_copy.rs:395-399 | a backslash before any byte but the eight letters and `u` always fails |
| Escapes.BadDigitsFail | crates/pjs-core/src/parser/zero_copy.rs:413-429 | `\u` without four hexadecimal digits always fails |
| Escapes.PlainBytes | crates/pjs-core/src/parser/zero_copy.rs:402-410 | bytes without a backslash, and one at the very end, are kept if they are UTF-8 and refused if not |
| Escapes.HexTextValue | crates/pjs-core/src/parser/zero_copy.rs:413-429 | four hexadecimal digits of either case are read as the code unit they write |
| JsonText.StandardIsAccepted | crates/pjs-core/src/parser/zero_copy.rs:70-319 | RFC 8259 text is part of the parser's more lenient grammar |
| ParserGrammar.ParserSound | crates/pjs-core/src/parser/zero_copy.rs:70-319 | every success is the text of an accepted tree within the depth limit, read as far as it goes |
| ParserGrammar.ParserComplete | crates/pjs-core/src/parser/zero_copy.rs:70-319 | the text of every accepted tree within the depth limit parses to that tree and leaves exactly what follows |
| ParserGrammar.NumberSound | crates/pjs-core/src/parser/zero_copy.rs:261-319 | a parsed number is grammatical and maximal |
| ParserGrammar.NumberComplete | crates/pjs-core/src/parser/zero_copy.rs:261-319 | every grammatical number that is not continued parses whole |
| ZeroCopyParser.ZeroCopyParser.SkipWhitespace | crates/pjs-core/src/parser/zero_copy.rs:322-332 | the position moves past exactly the leading whitespace |
| ZeroCopyParser.ZeroCopyParser.ParseString | crates/pjs-core/src/parser/zero_copy.rs:97-133 | result and position are those of the grammar's string, and the slice is borrowed unless it needs unescaping |
| ZeroCopyParser.ZeroCopyParser.ParseNumber | crates/pjs-core/src/parser/zero_copy.rs:261-319 | result and position are those of the grammar's number |
| ZeroCopyParser.ZeroCopyParser.ParseObject | crates/pjs-core/src/parser/zero_copy.rs:136-185 | result and position are those of the grammar's object, and the depth is restored |
| ZeroCopyParser.ZeroCopyParser.ParseArray | crates/pjs-core/src/parser/zero_copy.rs:188-227 | result and position are those of the grammar's array, and the depth is restored |
| ZeroCopyParser.ZeroCopyParser.ParseValue | crates/pjs-core/src/parser/zero_copy.rs:70-94 | terminates within the depth limit; a success strictly advances, stays in the input and restores the depth |
| ZeroCopyParser.ZeroCopyParser.ParseLazy | crates/pjs-core/src/parser/zero_copy.rs:436-447 | oversized input is refused and changes nothing; any other gives the grammar's first value |
| ParserTheorems.ParserExact | crates/pjs-core/src/parser/zero_copy.rs:70-319 | the parser succeeds exactly on texts of accepted trees within the limit, and its reading is the only one |
| ParserTheorems.ReadingUnique | crates/pjs-core/src/parser/zero_copy.rs:70-319 | no text has two readings |
| ParserDepth.NodeTooDeep | crates/pjs-core/src/parser/zero_copy.rs:136-227 | a grammatical text nested beyond the limit, wherever the excess is, fails with the security error |
| ParserTheorems.TooDeepRejected | crates/pjs-core/src/parser/zero_copy.rs:136-227 | nesting beyond the limit is refused, and for no other reason |
| ParserTheorems.Tokens | crates/pjs-core/src/parser/zero_copy.rs:230-258 | the literals, empty containers and quotes are the characters RFC 8259 names |
| ParserTheorems.NumberTokens | crates/pjs-core/src/parser/zero_copy.rs:261-319 | sign, point, exponent mark and digits are the characters RFC 8259 names |
| ParserTheorems.Separators | crates/pjs-core/src/parser/zero_copy.rs:136-227 | commas, colons and closing brackets stand where RFC 8259 puts them |
| ParserTheorems.StandardTextParses | crates/pjs-core/src/parser/zero_copy.rs:70-319 | every RFC 8259 text within the limit, with any whitespace, is consumed exactly and returns its kind with its slice |
| ParserTheorems.StandardStringValue | crates/pjs-core/src/parser/zero_copy.rs:97-133 | a standard string's value is the UTF-8 text of its characters, borrowed when it has no escape |
| DepthScanner.ValidateJsonDepthBytes | crates/pjs-core/src/security.rs:62-93 | accepts exactly the inputs whose scan never nests deeper than the limit |
| DepthScanner.DepthIsExcess | crates/pjs-core/src/security.rs:62-93 | on any bytes without a quote the depth is the largest excess of openings over closings of any ending |
| DepthScanner.MaxDepthIsExcess | crates/pjs-core/src/security.rs:62-93 | on any bytes without a quote the reported maximum is the largest excess of any stretch, unmatched closings notwithstanding |
| DepthScanner.RunNode | crates/pjs-core/src/security.rs:62-93 | scanning the text of an accepted tree returns to the same depth outside any string, having seen exactly its nesting |
| DepthScanner.ScannerAgreesWithParser | crates/pjs-core/src/security.rs:62-93 | whenever the parser succeeds, the scan of the consumed bytes ends at depth 0 outside any string with the parsed depth as its maximum, within the same limit |
| RateLimiter.WebSocketRateLimiter.CheckRequest | crates/pjs-core/src/security/rate_limit.rs:406-460 | trims, then admits and records or rejects; an untracked client at capacity changes nothing |
| RateLimiter.WebSocketRateLimiter.CheckConnection | crates/pjs-core/src/security/rate_limit.rs:463-485 | counts a connection below the cap, else rejects |
| RateLimiter.WebSocketRateLimiter.CloseConnection | crates/pjs-core/src/security/rate_limit.rs:488-492 | one connection fewer, never below zero; an untracked client is left alone |
| RateLimiter.WebSocketRateLimiter.RefillTokens | crates/pjs-core/src/security/rate_limit.rs:198-208 | the bucket holds its level at that instant |
| RateLimiter.WebSocketRateLimiter.CheckMessage | crates/pjs-core/src/security/rate_limit.rs:495-510 | size first, then one token of the refilled bucket; an untracked client passes |
| RateLimiter.WebSocketRateLimiter.CleanupExpired | crates/pjs-core/src/security/rate_limit.rs:529-546 | drops exactly the clients without connections and without a request in two windows |
| RateLimiter.WebSocketRateLimiter.RemainingFor | crates/pjs-core/src/security/rate_limit.rs:283-299 | the limit less the requests in the window |
| RateLimiter.WebSocketRateLimiter.ResetAfter | crates/pjs-core/src/security/rate_limit.rs:320-338 | the time until the oldest request in the window leaves it |
| RateLimiterRuns.AgreesEvicted | crates/pjs-core/src/security/rate_limit.rs:541-545 | an evicted client had nothing left in the window |
| RateLimiterRuns.LogStandsForHistory | crates/pjs-core/src/security/rate_limit.rs:406-546 | in every reachable state the kept log and the true history of accepted requests agree on the window, across trimming, underflow and eviction |
| RateLimiterRuns.RequestExact | crates/pjs-core/src/security/rate_limit.rs:406-460 | a request passes if and only if its client can be tracked and fewer than the limit were truly accepted in the window |
| RateLimiterRules.RequestAnswers | crates/pjs-core/src/security/rate_limit.rs:406-460 | every answer to a request, with its numbers: over 100000 tracked clients and unknown, limit reached in the window, or allowed |
| RateLimiterRuns.SlidingWindowBound | crates/pjs-core/src/security/rate_limit.rs:406-460 | over every run, any interval as long as the window holds at most the limit of accepted requests per client |
| RateLimiterRuns.SpanBoundedIff | crates/pjs-core/src/security/rate_limit.rs:445-460 | the limit holds for a span in all runs if and only if the span is at most the window, or the limit is zero |
| RateLimiterQuotas.RemainingExact | crates/pjs-core/src/security/rate_limit.rs:283-299 | for a tracked client the remainder is the limit less the truly accepted requests, and a request passes if and only if it is positive |
| RateLimiterQuotas.RetryHintExact | crates/pjs-core/src/security/rate_limit.rs:320-338 | after a rejection, whatever others do meanwhile, a retry passes if and only if the hint has elapsed; on underflow the hint suffices |
| RateLimiterQuotas.CapacityKept | crates/pjs-core/src/security/rate_limit.rs:407-411 | no run tracks more than 100000 clients |
| RateLimiterQuotas.ConnectionsAreGuards | crates/pjs-core/src/security/rate_limit.rs:566-596 | the kept count is the number of live guards, at most the cap, across cleanups |
| RateLimiterQuotas.ConnectionExact | crates/pjs-core/src/security/rate_limit.rs:463-485 | a connection is accepted if and only if its client can be tracked and its live guards are below the cap |
| RateLimiterRules.ConnectionAnswers | crates/pjs-core/src/security/rate_limit.rs:463-485 | every answer to a connection, with the live guards it reports |
| RateLimiterQuotas.BucketConserved | crates/pjs-core/src/security/rate_limit.rs:198-223 | messages passed plus tokens left never exceed tokens at the start plus accrual |
| RateLimiterQuotas.TokenBucketBound | crates/pjs-core/src/security/rate_limit.rs:187-223 | while tracked, messages passed in an interval are at most its starting tokens plus rate times length, hence at most rate + burst + rate times length |
| RateLimiterQuotas.PacedMessagePasses | crates/pjs-core/src/security/rate_limit.rs:211-223 | a client that leaves one token's time between messages is never refused |
| RateLimiterRules.MessageAnswers | crates/pjs-core/src/security/rate_limit.rs:495-510 | in every reachable state a frame over the limit gets the size error and changes nothing; one that fits passes if its client is untracked or has a token at `rate` a second, which it gives up; nothing else changes |
| RateLimiterRules.FirstBurst | crates/pjs-core/src/security/rate_limit.rs:187-223 | a newly tracked client may send min(burst, bucket size) messages at once, and no more |
| RateLimiterRules.LastRequestKept | crates/pjs-core/src/security/rate_limit.rs:529-546 | the kept log ends with the last accepted request, or there was none in two windows |
| RateLimiterRules.SweepExact | crates/pjs-core/src/security/rate_limit.rs:529-546 | a sweep keeps exactly the tracked clients with a live guard or a request accepted in the last two windows, as they are, and all of them before two windows have passed |
| BoundedChannel.PermitsFor | crates/pjs-core/src/infrastructure/bounded_channel.rs:162-164 | one for nothing, the length while it fits 32 bits, the 32-bit maximum beyond |
| ChannelAccounting.StepConserves | crates/pjs-core/src/infrastructure/bounded_channel.rs:176-226 | every step keeps free, granted and held permits summing to the total |
| ChannelAccounting.StepKeepsLine | crates/pjs-core/src/infrastructure/bounded_channel.rs:211-221 | every step keeps each waiter within the total and parts of permits with the front of the line alone |
| ChannelAccounting.RunSound | crates/pjs-core/src/infrastructure/bounded_channel.rs:40-226 | in every interleaving permits are conserved, no waiter asks for more than the total, only the front of the line holds a part, every item is charged for its payload, and the queue is within its capacity |
| ChannelAccounting.LineNeverJams | crates/pjs-core/src/infrastructure/bounded_channel.rs:122-135 | from every reachable state with a waiter, some run in which the receiver consumes and paid senders move on, with nobody giving up, lets the first waiter be served in full |
| ChannelAccounting.LiveBytesBounded | crates/pjs-core/src/infrastructure/bounded_channel.rs:242-248 | with a budget that fits 32 bits live payload bytes never exceed it |
| ChannelAccounting.MemoryBoundedIff | crates/pjs-core/src/infrastructure/bounded_channel.rs:148-164 | the byte bound holds in all runs if and only if the budget fits 32 bits |
| ChannelDelivery.DeliveredInOrder | crates/pjs-core/src/infrastructure/bounded_channel.rs:176-226 | what was reported sent is what was received followed by what is queued; after the receiver is gone, what was received is a prefix |
| ByteBoundedChannel.ByteBoundedChannel.constructor | crates/pjs-core/src/infrastructure/bounded_channel.rs:270-283 | a new channel is valid and has its whole budget free |
| ByteBoundedChannel.ByteBoundedChannel.TrySend | crates/pjs-core/src/infrastructure/bounded_channel.rs:176-195 | sent if and only if max(len, 1) fits the budget, the permits are free, the receiver listens and a slot is open; each rejection has its exact condition, returns the value and changes nothing |
| ByteBoundedChannel.FillUp | crates/pjs-core/src/infrastructure/bounded_channel.rs:270-283 | a new channel of n slots takes n one-byte items; the next finds it full, or the budget spent |
| ByteBoundedChannel.ByteBoundedChannel.BeginSend | crates/pjs-core/src/infrastructure/bounded_channel.rs:211-221 | a payload that can never fit is refused at once, any other joins the line |
| ByteBoundedChannel.ByteBoundedChannel.GrantPermits | crates/pjs-core/src/infrastructure/bounded_channel.rs:215-218 | permits move to the front of the line, which leaves it when it has all it needs |
| ByteBoundedChannel.ByteBoundedChannel.CancelSend | crates/pjs-core/src/infrastructure/bounded_channel.rs:215-221 | a sender that gives up in line returns what it was given |
| ByteBoundedChannel.ByteBoundedChannel.CancelReadySend | crates/pjs-core/src/infrastructure/bounded_channel.rs:222-226 | a sender that gives up before a slot returns its permits |
| ByteBoundedChannel.ByteBoundedChannel.FinishSend | crates/pjs-core/src/infrastructure/bounded_channel.rs:222-226 | a sender with its permits enqueues, or gets its value back and releases them |
| ByteBoundedChannel.ByteBoundedChannel.Recv | crates/pjs-core/src/infrastructure/bounded_channel.rs:26-37 | the oldest item is handed over and its bytes stay charged |
| ByteBoundedChannel.ByteBoundedChannel.SplitEnvelope | crates/pjs-core/src/infrastructure/bounded_channel.rs:59-66 | payload and permit part, and the bytes stay charged |
| ByteBoundedChannel.ByteBoundedChannel.IntoInner | crates/pjs-core/src/infrastructure/bounded_channel.rs:47-49 | the payload comes out and its bytes are released |
| ByteBoundedChannel.ByteBoundedChannel.DropReceiverHalf | crates/pjs-core/src/infrastructure/bounded_channel.rs:9-21 | dropping the receiver releases the permits of everything still queued |
| ByteBoundedChannel.ByteBoundedChannel.LiveBytesWithinBudget | crates/pjs-core/src/infrastructure/bounded_channel.rs:242-248 | whatever calls were made on the object, live payload bytes are within a budget that fits 32 bits |
| DecompressionGuard.CompressionBombProtector.Read | crates/pjs-core/src/security/compression_bomb.rs:220-238 | counts, checks when the interval is reached, and resets only after a check that passes |
| DecompressionGuard.RunHealth | crates/pjs-core/src/security/compression_bomb.rs:168-238 | after every run of reads the guard is healthy or tripped, and its last answer says which |
| DecompressionGuard.Sticky | crates/pjs-core/src/security/compression_bomb.rs:220-238 | once a limit check has failed no later read delivers anything |
| DecompressionGuard.OvershootBounded | crates/pjs-core/src/security/compression_bomb.rs:168-238 | after each successful read the total exceeds the size limit, and the ratio limit, by less than a check interval |
| DecompressionGuard.ReachesIff | crates/pjs-core/src/security/compression_bomb.rs:168-238 | the totals a run of successful reads can reach are exactly a checked base plus fewer bytes than an interval |
| DecompressionGuard.ValidatedIff | crates/pjs-core/src/security/compression_bomb.rs:307-332 | validation passes if and only if the output is within the size limit and within ratio times input size |
| DecompressionGuard.AllowedIff | crates/pjs-core/src/security/compression_bomb.rs:168-195 | the periodic check passes if and only if the total is within the size limit and, once something came through, the ratio; a fault names the limit exceeded and by what |
| DecompressionGuard.ProducedChunks | crates/pjs-core/src/compression/secure.rs:287-336 | non-empty chunks are read joined, ahead of what follows |
| DecompressionGuard.SourceEnds | crates/pjs-core/src/compression/secure.rs:287-336 | the end finishes a read, breaking off does not, interruptions count for nothing |
| DecompressionGuard.DecodeWithProtection | crates/pjs-core/src/compression/secure.rs:287-336 | returns the decoder's whole output if and only if the input is small enough, the depth allowed, the decoder finishes, and the output is within size and ratio; each rejection names a limit that is exceeded, by what it says, or a decoder that broke |

## Left out

- PriorityPlan.PriorityStreamer.Analyze with `max_patch_size` 0 and a reachable array longer than ten: the code panics when it cuts the array, so this one case is excluded by the precondition.
- Reconstruction.JsonReconstructor.ProcessFrame: its patches carry key paths, the only ones `analyze` emits; `ApplyAt` models navigation through array positions.
- The place of a key that a patch newly inserts: the model appends it, a sorted map would place it by key; plans never insert a new key.
- `priority_threshold` and `detect_semantics`: `analyze` does not read them.
- Delta: floating-point rounding is an arbitrary function, assumed exact only where integers of at most 52 bits are named; negative zero and non-finite values are not modelled.
- DictionaryBuilder.SchemaAnalyzer.Analyze: only the string counts are modelled; array patterns and numeric statistics feed floating-point scores.
- DictionaryBuilder.SchemaAnalyzer.AnalyzeRecursive: the same, string counts alone.
- Strategy choice by floating-point scores (delta variance, run-length score): every theorem holds for whichever strategy is chosen; the integer gate of the dictionary is modelled.
- Statistics, timing, compression ratios, configuration presets and validators: bookkeeping.
- Overflow of 64-bit counters (string counts, byte totals, `window_duration * 2`): counters are unbounded.
- RateLimiter: token arithmetic is over reals, so float rounding is not modelled; each call reads the clock once.
- TokenBucketBound: holds while the client stays tracked; a client that is evicted and tracked again starts with a fresh burst.
- Thread-level races in the shared client map and in the asynchronous runtime, and starting the periodic cleanup: calls are atomic steps.
- BoundedChannel: the panic for budgets above the semaphore's maximum and for a queue of capacity zero is excluded, not modelled.
- DecompressionGuard: ratios are reals; the decoders behind the guard (deflate, gzip, brotli, zstd) are an arbitrary source of chunks.
- `IncrementalParser`: a stub in the code that returns no values.
- `parser/partial.rs`: its behaviour is that of a foreign tokenizer.
- Buffer pool, aligned allocation, WebAssembly bindings, HTTP and WebSocket servers, the TypeScript client: memory management, interface code or input and output.
