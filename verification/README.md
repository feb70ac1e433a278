# A verified model of the algorithms beneath Diffingo

Diffingo generates message parsers and serializers. This project models, in Dafny, the algorithms that the
generator and its evaluation rest on, and proves what they are for.

- **Unicode normalization** (utf8proc). `Utf8` is the UTF-8 decoder and encoder. `CellMemory` is the one buffer
  that utf8proc reads and writes both as 32-bit cells and as bytes. `CanonicalOrder` is the loop that sorts
  combining marks. `UnicodeTable` is the property table and the options. `Decomposing` is the recursive
  decomposition, its size-only pre-pass and the scan over a string; `Rejecting` is about its REJECTNA option.
  `OptionLaws` says of the output and the table what the options do. `Normalization` and `Composition` are the
  normal forms and the in-place composition; `CanonicalEquivalence` and `PrimaryComposites` hold them against
  the definitions of the Unicode Standard. `Reencoding` is the in-place newline handling and the final pass that
  writes bytes over the cells it still reads. `Utf8Map` puts the passes together, and
  `NormalForms` is the four functions on terminated strings.
- **Order of generated classes** (libkode). `ClassSort` is the round-based dependency sort; `ClassRounds` tells
  from the list alone where a class ends up.
- **Field dependencies of a unit instantiation**. `DependencyResolver` is the fixpoint iteration of the
  preprocessing pass.
- **Memcached binary protocol**. `MemcachedCodec` is the client's message format, growable string and response
  reader, with the evaluator's input buffer and its incremental retry loop. `MemcachedConn` is the server's
  read buffer and its scatter/gather write queue.
- **Strings of the generated code**. `Escapes` is the pair of escapers and the expander with its number reader.
  `Identifier` is the rewriting of names into C identifiers. `ForwardDeclarations` is the emitter of nested
  namespace blocks.

Code that updates buffers, lists or fields is modelled by methods, loops, arrays and classes; each is proved
against a function that says what it computes, and the laws are lemmas about those functions. `Sequences` and
`Wrappers` hold facts and a type that all modules share.

## What is proved

- The back-stepping ordering loop stops on every buffer and gives the canonical ordering: the only ordered
  rearrangement that keeps each starter in place and is stable per combining class.
- The sizing pass and the filling pass agree for every option and buffer size; a buffer of the reported size is
  filled exactly.
- The final pass never overwrites a cell it has not read, and its bytes are the encodings one behind the other.
- NFD is the only text without a further step that can be reached by replacing code points by their mappings and
  exchanging marks one pair at a time, in any order. Two texts have the same form exactly when such steps bring
  them together.
- The composition pass is the canonical composition algorithm (definition D117), for tables whose composites of
  starters are starters. It merges exactly the pairs with a composite that is not excluded, leaves no excluded
  composite, and gives precomposed text back.
- The encoding keeps the order of code points, and what is accepted is stated of the bytes alone.
- Each newline sequence becomes exactly one newline character, the one the options name. The header announces for
  STRIPCC that tabs and form feeds are newlines and that other control characters are removed. The code does so
  for form feeds; for tabs exactly when newlines become spaces; for the others except the vertical tab.
- Normal forms: NFD and NFC (and the compatibility forms) are idempotent, on code points, on byte strings, and
  as functions from terminated strings to terminated strings.
  A composed form is canonically equivalent to its input exactly when no U+11A7 follows a leading consonant and
  a vowel in the decomposed input; utf8proc swallows that code point. The failing input is given.
- The class sort keeps every class, puts dependencies strictly first, is maximal, and keeps the whole list
  exactly when some order exists. The output is the list ordered by round and then by position, where the round
  of a class follows from its by-value members and the positions of their classes.
- The comment above the sort promises that a base class comes before the class, but base classes never influence
  the order: the test on line 271 compares a negated letter with `'Q'`. The model follows the code. For every list
  the promise holds exactly when each listed base of each class that comes out has a smaller round, or the same
  round and a smaller position. Two failing inputs are given; in one the sort breaks a list that was in order.
- The dependency pass stops and computes the least set of fields and contexts that is closed under the map: a
  fact is in it exactly when a chain of map entries leads to it from the length id or a requested item.
- A serialized message is parsed back exactly when its parts fit the header fields. Parsing fails on every
  strict prefix and is not changed by what follows, so the retry loop takes exactly one attempt per started block
  of 64 bytes. What the server queues, cut into messages of any number, is what the client parses.
  The server takes what the client serializes: it sees the opcode, and reads extras and key exactly of the
  requests that carry what the protocol asks for.
- Escaping bytes and expanding them is the identity, in either case of the digits. For `escapeUTF8`, whose comment promises the same, it is
  the identity exactly on accepted UTF-8 without a code point in U+0100..U+FFFF whose low byte is printable;
  the failing half holds for every other byte string.
- A converted name holds only letters, digits and single underscores and no leading digit, and converting it
  again changes nothing. It is an identifier exactly when the name is not empty and, unless an underscore is
  added for keywords, holds something besides underscores, separators and double colons; else it is the empty
  string. The repeated replacements are shown to equal one pass over the string.
- The namespace blocks are well nested and indented by their depth for every list of names, every class is
  declared within its own namespace, and for sorted names every block is opened once only.

## Model

| member | source | states |
|---|---|---|
| `Utf8.Iterate` | externals/utf8proc/utf8proc.c:116-154 | the decoder's result and code point for both string conventions, equal to the decoding of the known bytes; nothing behind a terminator is read |
| `Utf8.DecodeOfEncode` | externals/utf8proc/utf8proc.c:116-191 | decoding the encoding of any valid code point gives it back with its length, whatever follows |
| `Utf8.EncodeOfDecode` | externals/utf8proc/utf8proc.c:116-191 | whatever is accepted is a valid code point that encodes to exactly the bytes taken |
| `Utf8.AcceptsRfc3629` | externals/utf8proc/utf8proc.c:116-154 | n bytes are accepted if and only if they are a UTF8-char of section 4 of RFC 3629 and not the bytes of a noncharacter |
| `Utf8.EncodeOrder` | externals/utf8proc/utf8proc.c:163-191 | a code point is smaller than another if and only if its bytes are, so that there is no other encoding with these accepted sequences (section 1 of RFC 3629); stated for all but the two marker values |
| `Utf8.TerminatedDecode` | externals/utf8proc/utf8proc.c:116-154 | for a terminated string only the bytes before the terminator decide |
| `Utf8.DecodeAllOfEncodeAll` | externals/utf8proc/utf8proc.c:362-390 | decoding a whole encoded text gives its code points |
| `Utf8.EncodeAllOfDecodeAll` | externals/utf8proc/utf8proc.c:516-525 | encoding the code points of an accepted string gives the string |
| `Utf8.AcceptedStrings` | externals/utf8proc/utf8proc.c:362-390 | the accepted strings are exactly the encodings of valid code point sequences |
| `CellMemory.Store` | externals/utf8proc/utf8proc.c:296-348 | writing a cell changes that cell of the byte buffer and no other |
| `UnicodeTable.SampleTableValid` | externals/utf8proc/utf8proc.c:193-200 | the assumptions about the property table can be met, by a table with a mark, a mapping and a composite |
| `CanonicalOrder.Reorder` | externals/utf8proc/utf8proc.c:391-409 | the loop stops and leaves the canonical ordering of the cells, touching none behind them |
| `CanonicalOrder.CanonicalOrdered` | externals/utf8proc/utf8proc.c:391-409 | no pair of neighbours is left that the loop would exchange |
| `CanonicalOrder.CanonicalTrace` | externals/utf8proc/utf8proc.c:391-409 | the order is stable: the code points of one class, with the starters between them, stay in order |
| `CanonicalOrder.OrderedUnique` | externals/utf8proc/utf8proc.c:391-409 | an ordered sequence is determined by its traces, so the ordering is the only one (section 3.11 of the Unicode Standard) |
| `CanonicalOrder.CanonicalKeepsStarters` | externals/utf8proc/utf8proc.c:391-409 | a code point of class 0 keeps its index |
| `CanonicalOrder.CanonicalPermutes` | externals/utf8proc/utf8proc.c:391-409 | the ordering is a permutation |
| `CanonicalOrder.OrderedIsCanonical` | externals/utf8proc/utf8proc.c:391-409 | an ordered sequence is left alone |
| `CanonicalOrder.CanonicalExchange` | externals/utf8proc/utf8proc.c:400-405 | one exchange of the loop does not change the canonical ordering |
| `CanonicalOrder.InversionsExchange` | externals/utf8proc/utf8proc.c:400-405 | one exchange takes away exactly one inversion, which is why the loop stops although it steps back |
| `Decomposing.DecomposeChar` | externals/utf8proc/utf8proc.c:206-349 | result and boundary class do not depend on the buffer size; the buffer gets as much of the decomposition as fits and nothing else changes |
| `Decomposing.DecomposeMapping` | externals/utf8proc/utf8proc.c:267-295 | the loop over a mapping continues the decomposition behind what is written, for every buffer size |
| `Decomposing.StoreJamo` | externals/utf8proc/utf8proc.c:215-229 | two or three jamo of a syllable, stored as far as they fit |
| `Decomposing.AcceptsAll` | externals/utf8proc/utf8proc.c:206-349 | without REJECTNA no code point fails |
| `Rejecting.RejectsExactly` | externals/utf8proc/utf8proc.c:206-295 | for every table: REJECTNA makes a difference if and only if an unassigned code point is reached, and then fewer code points or an error are reported |
| `Rejecting.Compare` | externals/utf8proc/utf8proc.c:206-349 | whatever came before, the strict run reports no more than the lenient one but for one boundary marker, and less once an unassigned code point is reached |
| `Rejecting.MeetsItself` | externals/utf8proc/utf8proc.c:206-295 | where mappings and ASCII are assigned, only an unassigned code point itself is reached |
| `Rejecting.RejectsUnassigned` | externals/utf8proc/utf8proc.c:230-232 | where mappings and ASCII are assigned, REJECTNA rejects the unassigned code points and changes nothing else |
| `OptionLaws.OutOf` | externals/utf8proc/utf8proc.c:230-295 | what becomes of a code point under IGNORE, LUMP, STRIPMARK, CASEFOLD and COMPAT: dropped, or what its replacement, its folding or its mapping becomes, or itself; folding comes before mapping |
| `OptionLaws.OutSettled` | externals/utf8proc/utf8proc.c:215-295 | no output code point is ignorable, a mark, foldable or decomposable where the option against it is set |
| `OptionLaws.OutIdempotent` | externals/utf8proc/utf8proc.c:215-295 | without LUMP, applying the options to the output changes nothing |
| `OptionLaws.LumpTable` | externals/utf8proc/utf8proc.c:236-261 | LUMP follows a list of look-alikes and a list of categories |
| `OptionLaws.BoundaryRules` | externals/utf8proc/utf8proc.c:319-339 | no boundary exactly in the pairs that the rules GB3 and GB6 to GB8 keep together and before extending code points |
| `OptionLaws.HangulClasses` | externals/utf8proc/utf8proc.c:298-317 | jamo and syllables are classed by their place in a syllable |
| `OptionLaws.OutMarked` | externals/utf8proc/utf8proc.c:296-348 | without COMPOSE and DECOMPOSE, CHARBOUND puts a marker before exactly the code points that start a cluster, and remembers the last class |
| `OptionLaws.SyllableUnmarked` | externals/utf8proc/utf8proc.c:215-229 | the jamo of a decomposed syllable get no marker |
| `OptionLaws.RunShown` | externals/utf8proc/utf8proc.c:362-390 | a text becomes what its code points become, one after the other, or fails if it is rejected or too long |
| `OptionLaws.OptionsRefused` | externals/utf8proc/utf8proc.c:356-361 | status -5 if and only if both directions are asked for, or stripped marks without either |
| `Decomposing.Decompose` | externals/utf8proc/utf8proc.c:351-411 | the result is that of the pure decomposition whatever the buffer size, and a buffer that is large enough holds the ordered text |
| `Decomposing.DecomposeScan` | externals/utf8proc/utf8proc.c:362-390 | the scan is the decomposition of the decoded text, with the errors of malformed and oversized input |
| `Decomposing.Next` | externals/utf8proc/utf8proc.c:366-379 | the next code point under either string convention, or the end, or malformed input |
| `Normalization.DecompIsFull` | externals/utf8proc/utf8proc.c:206-295 | with the normalization options the recursion computes the full decomposition |
| `Normalization.FullDecomposed` | externals/utf8proc/utf8proc.c:283-295 | a full decomposition holds nothing that decomposes further |
| `Normalization.NfdFixed` | externals/utf8proc/utf8proc.c:557-562 | text that is decomposed and ordered is its own NFD |
| `Normalization.NfdIdempotent` | externals/utf8proc/utf8proc.c:557-562 | NFD of NFD is NFD |
| `CanonicalEquivalence.NfdUnique` | externals/utf8proc/utf8proc.c:206-409 | a text is the NFD of another if and only if rewriting reaches it and no step is left (definitions D68 and D109 of the Unicode Standard) |
| `CanonicalEquivalence.NfdDecides` | externals/utf8proc/utf8proc.c:206-409 | two texts have the same NFD if and only if rewriting brings them together (definition D70) |
| `CanonicalEquivalence.IrreducibleIsFixed` | externals/utf8proc/utf8proc.c:206-409 | no step is left in a text if and only if it is its own NFD |
| `Composition.Compose` | externals/utf8proc/utf8proc.c:447-515 | the in-place loop leaves the composition of the text, never writes above the cell it reads, and touches nothing behind the text |
| `Composition.TryCompose` | externals/utf8proc/utf8proc.c:459-497 | the composite of a starter and a code point, which `PrimaryComposites.CompositeExactly` states by jamo, table and exclusion |
| `Composition.CompositeParts` | externals/utf8proc/utf8proc.c:459-497 | a composite decomposes into its starter's decomposition and the code point merged, unless it is the swallowed U+11A7 |
| `Composition.KeptAll` | externals/utf8proc/utf8proc.c:475-483 | something is swallowed if and only if U+11A7 follows a leading consonant and a vowel |
| `Composition.NfdOfNfc` | externals/utf8proc/utf8proc.c:564-569 | decomposing a composed text gives its decomposed form without what was swallowed |
| `Composition.NfcEquivalent` | externals/utf8proc/utf8proc.c:447-515 | composition keeps canonical equivalence if and only if nothing is swallowed |
| `Composition.NfcIdempotent` | externals/utf8proc/utf8proc.c:564-569 | NFC of NFC is NFC, for every text |
| `Composition.NfcOfNfd` | externals/utf8proc/utf8proc.c:564-569 | NFC of NFD is NFC |
| `Composition.LossExample` | externals/utf8proc/utf8proc.c:475-483 | the input U+1100 U+1161 U+11A7, whose composed form is not equivalent to it |
| `Composition.HangulRoundTrip` | externals/utf8proc/utf8proc.c:447-515 | precomposed syllables come back unchanged (section 3.12 of the Unicode Standard) |
| `Composition.SyllableRebuilt` | externals/utf8proc/utf8proc.c:462-483 | the jamo of a syllable behind any text are merged into that syllable |
| `PrimaryComposites.SyllableParts` | externals/utf8proc/utf8proc.c:215-229 | the jamo of the syllable with given leading consonant, vowel and trailing consonant (section 3.12 of the Unicode Standard) |
| `PrimaryComposites.CompositeExactly` | externals/utf8proc/utf8proc.c:459-497 | a pair is merged into c if and only if c is the syllable with these jamo, or the table composite of the pair and not excluded under STABLE, or U+11A7 is swallowed |
| `PrimaryComposites.PairNfc` | externals/utf8proc/utf8proc.c:459-515 | the NFC of a starter and a code point is their composite if there is one that is not excluded, a syllable for two jamo, and else the pair |
| `PrimaryComposites.NfcPrimary` | externals/utf8proc/utf8proc.c:447-515 | every code point of an NFC does not decompose, is a syllable, or is a table composite that under STABLE is not excluded |
| `PrimaryComposites.RebuiltNfc` | externals/utf8proc/utf8proc.c:447-515 | a code point whose decomposition is merged pair by pair into composites that are not excluded is its own NFC |
| `PrimaryComposites.PrecomposedRoundTrip` | externals/utf8proc/utf8proc.c:447-515 | text of syllables and such code points, none starting with the second half of a pair, comes back unchanged |
| `PrimaryComposites.ComposeAllIsComposed` | externals/utf8proc/utf8proc.c:447-515 | where composites of starters are starters, the pass is the canonical composition algorithm: each code point is merged into the last starter unless it is blocked from it (definitions D115 and D117 of the Unicode Standard) |
| `Reencoding.HandleNewlines` | externals/utf8proc/utf8proc.c:416-446 | the in-place compaction with its CRLF lookahead is a function of the text before |
| `Reencoding.NewlinesCleaned` | externals/utf8proc/utf8proc.c:416-446 | the output holds no CR or NEL, LF only when both newline options are set, and no control character that is stripped |
| `Reencoding.NewlinesIdempotent` | externals/utf8proc/utf8proc.c:416-446 | handling newlines twice changes nothing more |
| `Reencoding.NewlinesConcat` | externals/utf8proc/utf8proc.c:420-443 | texts are handled piece by piece, but an LF behind a CR belongs to it |
| `Reencoding.NewlineSequence` | externals/utf8proc/utf8proc.c:422-437 | LF, CR, CR LF and NEL each become one LS under NLF2LS, PS under NLF2PS, LF under both, and else a space |
| `Reencoding.OtherCodePoint` | externals/utf8proc/utf8proc.c:423-443 | under STRIPCC vertical tabs and form feeds are newlines, a tab is a space and other controls are dropped; anything else is kept |
| `Reencoding.StripccAnnounced` | externals/utf8proc/utf8proc.h:99-104 | the announced treatment is met for form feeds, for tabs if and only if newlines become spaces, and for other controls if and only if they are not the vertical tab |
| `Reencoding.EncodeAt` | externals/utf8proc/utf8proc.c:163-191 | the bytes of a code point are written at an offset and nothing behind them changes |
| `Reencoding.EncodeInPlace` | externals/utf8proc/utf8proc.c:516-525 | writing bytes over the cells still to be read gives the encodings of the original cells and a terminator in the spare byte |
| `Reencoding.EncodeCell` | externals/utf8proc/utf8proc.c:516-523 | one round writes at most up to the end of the cell just read, so every later cell is as it was |
| `Reencoding.Reencode` | externals/utf8proc/utf8proc.c:413-526 | the three passes in one buffer give the encoding of the composed, cleaned text |
| `Utf8Map.Map` | externals/utf8proc/utf8proc.c:528-555 | errors, allocation failure, or a terminated string of exactly the reported length |
| `Utf8Map.MapNoOptions` | externals/utf8proc/utf8proc.c:528-555 | without options: the identity on accepted strings and INVALIDUTF8 on all others |
| `Utf8Map.MapNormalizes` | externals/utf8proc/utf8proc.c:528-583 | with a normalization option: decode, normalize, encode; it fails exactly on rejected or oversized text |
| `Utf8Map.MapIdempotent` | externals/utf8proc/utf8proc.c:557-583 | normalizing the bytes of a normal form gives the same bytes |
| `Utf8Map.MapEquivalent` | externals/utf8proc/utf8proc.c:557-583 | decomposing composed bytes gives the bytes of decomposing directly, if and only if nothing was swallowed |
| `NormalForms.NormalForm` | externals/utf8proc/utf8proc.c:557-583 | the terminated normal form, or nothing on failure |
| `NormalForms.FormTerminated` | externals/utf8proc/utf8proc.c:557-583 | a form makes up no zero byte, so reading its result up to the terminator gives all of it |
| `NormalForms.FormIdempotent` | externals/utf8proc/utf8proc.c:557-583 | each of the four functions applied to its own result gives that result |
| `NormalForms.FormsAgree` | externals/utf8proc/utf8proc.c:557-583 | NFD of NFC is NFD, and likewise for NFKC, if and only if nothing was swallowed |
| `NormalForms.FormComposed` | externals/utf8proc/utf8proc.c:564-583 | the code points of a composed form do not decompose, are syllables, or are composites that are not excluded |
| `NormalForms.FormDecomposed` | externals/utf8proc/utf8proc.c:557-576 | a decomposed form holds no syllable, no canonical mapping, for NFKD no mapping at all, and no mark behind one of a higher class |
| `ClassSort.DependenciesForClass` | externals/libkode/class.cpp:265-287 | exactly the by-value member types that are classes of the list; never a base class |
| `ClassSort.KnownMembers` | externals/libkode/class.cpp:276-284 | membership in the dependencies |
| `ClassSort.DependenciesExactly` | externals/libkode/class.cpp:265-287 | a class depends on the listed classes it has members of, and on nothing if it keeps its members behind a pointer |
| `ClassSort.AllKnown` | externals/libkode/class.cpp:289-298 | whether every dependency is among the names |
| `ClassSort.TakeIndependent` | externals/libkode/class.cpp:315-325 | the first loop, erasing while it walks, moves exactly the classes without dependencies |
| `ClassSort.TakeKnown` | externals/libkode/class.cpp:332-342 | a round moves the classes whose dependencies are out by then, including those moved in the same round |
| `ClassSort.SortByDependenciesHelper` | externals/libkode/class.cpp:305-361 | the rounds stop and give the sort |
| `ClassSort.SortedSound` | externals/libkode/class.cpp:305-361 | output and rest are the input as a multiset, and every dependency of an output class names a strictly earlier one |
| `ClassSort.SortedStuck` | externals/libkode/class.cpp:343-357 | a class is given up only for a dependency that no output class provides |
| `ClassSort.SortedMaximal` | externals/libkode/class.cpp:327-358 | every selection of classes that can be put in order is in the output |
| `ClassSort.SortedComplete` | externals/libkode/class.cpp:327-358 | nothing is given up if and only if some order of the whole input exists |
| `ClassSort.BasesIgnored` | externals/libkode/class.cpp:269-275 | lists that differ in base classes only are sorted alike |
| `ClassSort.NoMembersUnchanged` | externals/libkode/class.cpp:265-287 | without by-value members the list is unchanged, so bases come first if and only if they did before |
| `ClassSort.BaseLast` | externals/libkode/class.cpp:300-325 | a derived class listed before its base stays before it |
| `ClassSort.BaseLastExample` | externals/libkode/class.cpp:300-325 | a list that comes out with the base last |
| `ClassSort.OrderBroken` | externals/libkode/class.cpp:300-361 | a list with the base first, whose base has a by-value member, comes out with the base last |
| `ClassSort.OrderBrokenExample` | externals/libkode/class.cpp:300-361 | such a list written out |
| `ClassRounds.RoundIsLargest` | externals/libkode/class.cpp:315-358 | the round of a class is 0 without dependencies, else the largest that a dependency asks for: 1 for round 0, its round if listed before, one more if listed behind |
| `ClassRounds.FirstRound` | externals/libkode/class.cpp:315-325 | the first loop takes out round 0 |
| `ClassRounds.LaterRound` | externals/libkode/class.cpp:332-342 | a later loop takes out exactly the next round, by position |
| `ClassRounds.Settled` | externals/libkode/class.cpp:343-357 | once a round brings nothing, no later one would |
| `ClassRounds.SortedByRound` | externals/libkode/class.cpp:305-361 | the output is the list picked by round and position, and the classes given up are the others in order |
| `ClassRounds.OrderOfOutput` | externals/libkode/class.cpp:305-361 | the positions picked are those with a round, each once, ascending by round and position |
| `ClassRounds.BasesFirstExactly` | externals/libkode/class.cpp:265-361 | for every list: listed bases come first if and only if each has a smaller round, or the same round and a smaller position |
| `DependencyResolver.Resolve` | src/generation/preprocessing/instantiation_dependency_resolver.cpp:89-145 | the iteration stops; its result, with the length entry dropped from its front put back, is the least closed set over the length id and the requested items; the result names the length id if and only if it was requested, and then without any context found later |
| `DependencyResolver.ClosureUnique` | src/generation/preprocessing/instantiation_dependency_resolver.cpp:105-142 | there is only one such set |
| `DependencyResolver.RootFacts` | src/generation/preprocessing/instantiation_dependency_resolver.cpp:89-103 | the iteration starts from the length id in parsing and the requested items in the application, and from nothing else |
| `DependencyResolver.ClosureIsNeeded` | src/generation/preprocessing/instantiation_dependency_resolver.cpp:89-142 | the least closed set is what chains of map entries lead to from there |
| `DependencyResolver.AdditionsFacts` | src/generation/preprocessing/instantiation_dependency_resolver.cpp:110-123 | a round adds exactly what follows in one step: everything for the application, else the shared contexts |
| `DependencyResolver.MergeFacts` | src/generation/preprocessing/instantiation_dependency_resolver.cpp:125-141 | merging adds exactly the contexts of the new dependency |
| `DependencyResolver.MergeMeasure` | src/generation/preprocessing/instantiation_dependency_resolver.cpp:106-142 | every merge that changes something comes closer to the bound, which is why the loop stops |
| `DependencyResolver.MergeInto` | src/generation/preprocessing/instantiation_dependency_resolver.cpp:126-140 | the first entry with the id is widened or the dependency appended, and the change flag is exact |
| `DependencyResolver.ReportedFacts` | src/generation/preprocessing/instantiation_dependency_resolver.cpp:89-153 | what is reported is the least closed set without the length id, and with the bare request for that id if the application asked for it |
| `DependencyResolver.LengthDropped` | src/generation/preprocessing/instantiation_dependency_resolver.cpp:144-145 | dropping the first entry drops the length id if and only if the application did not ask for it |
| `MemcachedCodec.BigEndianRoundTrip` | externals/memcached/protocol_binary.h:151-183 | a field in network byte order reads back modulo its width |
| `MemcachedCodec.BigEndianByte` | externals/memcached/protocol_binary.h:151-183 | the bytes of a field, the most significant one first |
| `MemcachedCodec.SerializedLayout` | externals/memcached/memcached_parser.cpp:464-500 | a request by offset: magic 0x80, opcode, key length, extras length, three zero bytes, body length, opaque field, cas, extras, key, value |
| `MemcachedCodec.FieldsByOffset` | externals/memcached/memcached_parser.cpp:403-456 | the lengths and parts that the parser reads, by offset |
| `MemcachedCodec.SerializedRoundTrip` | externals/memcached/memcached_parser.cpp:403-500 | parsing what was serialized, whatever follows, gives the message and its length back if and only if the parts fit their fields |
| `MemcachedCodec.ParseFits` | externals/memcached/memcached_parser.cpp:403-456 | whatever is parsed fits |
| `MemcachedCodec.ParsePrefix` | externals/memcached/memcached_parser.cpp:403-456 | every strict prefix of a message fails, the message and every extension parse alike |
| `MemcachedCodec.GrowableString.Check` | externals/memcached/memcached_parser.cpp:75-114 | in 64-bit arithmetic: room for the bytes asked for and the contents kept, or failure and no change |
| `MemcachedCodec.GrowableString.Append` | externals/memcached/memcached_parser.cpp:183-193 | the bytes are appended, or nothing changes |
| `MemcachedCodec.GrowthWraps` | externals/memcached/memcached_parser.cpp:78-95 | the rounded-up size is large enough unless it wraps around, and then the guard rejects it |
| `MemcachedCodec.Instance.SafeRead` | externals/memcached/memcached_parser.cpp:40-47 | reads all the bytes asked for or none, and moves on by exactly that |
| `MemcachedCodec.ReadOneResponse` | externals/memcached/memcached_parser.cpp:403-456 | succeeds exactly on what parses and fills the result with that message |
| `MemcachedCodec.LeavesExactly` | externals/memcached/memcached_parser.cpp:403-456 | a copy leaves its fixed field if and only if extras or key of more than 251 bytes are announced and pending |
| `MemcachedCodec.SerializedInside` | externals/memcached/memcached_parser.cpp:403-500 | a serialized message is read within the fields if and only if its extras and its key have at most 251 bytes |
| `MemcachedCodec.LongKeyExample` | externals/memcached/memcached_parser.cpp:436-441 | a key of 252 bytes, whose copy leaves its field |
| `MemcachedCodec.SerializeBinary` | externals/memcached/memcached_parser.cpp:464-500 | writes the serialized message and no other byte, or reports that it does not fit |
| `MemcachedCodec.FillInputBuffer` | perfeval/memcached_evaluator.cpp:329-364 | the sample message of the evaluator |
| `MemcachedCodec.SampleLayout` | perfeval/memcached_evaluator.cpp:329-364 | the sample by offset: magic 0x81, opcode 1, the lengths, and zeros elsewhere |
| `MemcachedCodec.SampleParses` | perfeval/memcached_evaluator.cpp:329-364 | the sample is a message that takes exactly the buffer's length |
| `MemcachedCodec.ReadIncrementally` | perfeval/memcached_evaluator.cpp:185-196 | the retry loop takes ceil(n / 64) attempts for a message of n bytes and reads that message |
| `MemcachedConn.WriteQueue.AddMsghdr` | externals/memcached/memcached_parser2.cpp:402-434 | starts an empty message behind the last one without touching the queued bytes, or fails for want of memory and changes nothing |
| `MemcachedConn.WriteQueue.AddIov` | externals/memcached/memcached_parser2.cpp:347-394 | the queued bytes grow by exactly the buffer, messages stay contiguous slices within IOV_MAX and the datagram payload, and the splitting stops |
| `MemcachedConn.WriteQueue.AddPiece` | externals/memcached/memcached_parser2.cpp:355-390 | one round queues the front of the buffer that the message takes and reports what is left |
| `MemcachedConn.MessagesCover` | externals/memcached/memcached_parser2.cpp:347-434 | the messages one behind the other are all fragments, each once |
| `MemcachedConn.WriteBinResponse` | externals/memcached/memcached_parser2.cpp:57-117 | header and data are queued in this order in fresh messages, unless space ran out; without a reply the queue is as it was and the next command is read |
| `MemcachedConn.ResponseParses` | externals/memcached/memcached_parser2.cpp:57-117 | the client's parser reads the queued response back as extras, key and value |
| `MemcachedConn.ResponseLayout` | externals/memcached/memcached_parser2.cpp:57-117 | a response by offset: magic 0x81, the opcode, the lengths, the status and the opaque field of the request |
| `MemcachedConn.ReadBuffer.BinReadKey` | externals/memcached/memcached_parser2.cpp:119-164 | after growing and repacking, header, extras and key fit, the unparsed bytes are the same, and a buffer with room is left alone |
| `MemcachedConn.ReadBuffer.DispatchBinCommand` | externals/memcached/memcached_parser2.cpp:166-219 | an acceptable request has its extras and key read next, any other one changes nothing |
| `MemcachedConn.ReadBuffer.TryReadCommand` | externals/memcached/memcached_parser2.cpp:268-337 | more data asked for, a wrong magic byte refused, or the header taken, with the extras and key of an acceptable request at `ritem`, equal to `rcurr`, and the queue started over with one message |
| `MemcachedConn.ExtrasOfLengths` | externals/memcached/memcached_parser2.cpp:166-219 | the lengths of a message that fits are acceptable if and only if its key, extras and value are those that the protocol asks of the opcode |
| `MemcachedConn.RequestTaken` | externals/memcached/memcached_parser2.cpp:166-337 | of a request that the client serialized the server sees the opcode, and it will read exactly the extras and the key if the request is well-formed, and drops it if not |
| `Escapes.AtoiN` | src/util/util.h:193-236 | the number at the front of a string in char or int32_t arithmetic, how far it reaches, and the exception |
| `Escapes.ExpandEscapes` | src/util/util.cc:167-250 | the expansion of every escape, or the exception |
| `Escapes.DigitTables` | src/util/util.h:193-236 | a character is a digit of value d if and only if it stands at d in the upper or lower case table |
| `Escapes.PlaceValue` | src/util/util.h:193-236 | a digit more multiplies the number by 16 and adds its value |
| `Escapes.ByteEscape` | src/util/util.cc:233-242 | an escape of two digits is the byte they spell |
| `Escapes.CodepointEscape` | src/util/util.cc:201-231 | an escape of four or eight digits is the encoding of their number, or an error if that is no code point |
| `Escapes.NegativeEscape` | src/util/util.h:193-236 | a minus sign for the first digit negates the byte |
| `Escapes.LetterEscapes` | src/util/util.cc:180-246 | the escapes of one letter, and that all other letters are errors |
| `Escapes.UpperExpand` | src/util/util.cc:167-250 | an expansion does not depend on the case of digits |
| `Escapes.UpperBytesRoundTrip` | src/util/util.h:160-167 | bytes escaped with upper-case digits come back |
| `Escapes.EscapedIsPrintable` | src/util/util.cc:298-330 | a byte is written as it is if and only if it is printable and neither quote nor backslash; only printable ASCII is written |
| `Escapes.EscapeBytes` | src/util/util.cc:298-330 | each byte as itself, its short escape or two hexadecimal digits |
| `Escapes.EscapeUTF8` | src/util/util.cc:252-296 | each code point escaped, up to the first malformed sequence |
| `Escapes.BytesRoundTrip` | src/util/util.h:160-167 | expanding what escapeBytes wrote gives the string back, for every byte string |
| `Escapes.Utf8RoundTrip` | src/util/util.h:152-158 | expanding what escapeUTF8 wrote gives the string back if and only if it is accepted UTF-8 without a narrowed code point |
| `Escapes.Aligned` | src/util/util.cc:167-296 | as long as nothing is narrowed, each escape is read back where it was written |
| `Escapes.Lag` | src/util/util.cc:276-286 | once expansion is behind by some bytes it never catches up, whatever false escapes the narrowed text forms |
| `Escapes.TokenUses` | src/util/util.cc:167-296 | a step of the expansion uses up code points with at least as many bytes as it puts out, more if the first was narrowed |
| `Escapes.NarrowedExample` | src/util/util.cc:286 | U+0141, which comes back as the letter A |
| `Identifier.EndsWith` | src/util/util.cc:159-165 | true if and only if the string ends with the suffix |
| `Identifier.StrReplace` | src/util/util.cc:74-87 | stops, leaves no occurrence, and is the repeated replacement of the first occurrence |
| `Identifier.MeasureDrops` | src/util/util.cc:74-87 | each replacement makes the string shorter or the character rarer |
| `Identifier.EndlessReplacement` | src/util/util.cc:74-87 | a replacement that holds what it replaces leaves an occurrence after every step, so the loop does not end |
| `Identifier.RewriteChar` | src/util/util.cc:401-408 | replacing a character until none is left is replacing it everywhere |
| `Identifier.RewritePairs` | src/util/util.cc:400 | the repeated replacement of `::` is one pass from the left |
| `Identifier.RewriteSqueezes` | src/util/util.cc:409 | the repeated replacement of a double underscore makes one of every run |
| `Identifier.ToIdentifier` | src/util/util.cc:393-434 | the identifier of a name |
| `Identifier.IdentifierShape` | src/util/util.cc:393-434 | letters, digits and single underscores only, no digit first, an underscore last if and only if asked for |
| `Identifier.IdentifierExactly` | src/util/util.h:169-177 | the result is an identifier if and only if the name is not empty and an underscore is added or something besides underscores, separators and double colons is there; else it is empty |
| `Identifier.EmptyExample` | src/util/util.cc:411-412 | names that become the empty string |
| `Identifier.BaseFixed` | src/util/util.cc:393-434 | a name that is already clean is not changed |
| `Identifier.IdentifierOfWord` | src/util/util.cc:427-431 | a clean name is kept, with an underscore in front of a digit and one behind if asked for |
| `Identifier.SeparatedWords` | src/util/util.cc:400-412 | words with one of the listed separators or `::` between them are joined by one underscore |
| `Identifier.SpelledExactly` | src/util/util.cc:416-425 | a character that is not allowed is written as x, its upper digit, and the sum of its digits modulo 15 |
| `Identifier.SpelledAlike` | src/util/util.cc:416-425 | two characters are spelled alike if and only if they are the first and last of one of the rows 0 to 2 of the ASCII table |
| `Identifier.IdentifierIdempotent` | src/util/util.cc:393-434 | converting an identifier again changes nothing, in either mode |
| `ForwardDeclarations.CommonLeft` | externals/libkode/printer.cpp:651-663 | the longest common front of two lists |
| `ForwardDeclarations.CommonPrefixUnique` | externals/libkode/printer.cpp:651-663 | a common front that cannot be extended is that one |
| `ForwardDeclarations.PrintForwardDeclarations` | externals/libkode/printer.cpp:714-760 | the lines for the sorted names and the closing empty name, and the indentation restored |
| `ForwardDeclarations.SplitJoins` | externals/libkode/printer.cpp:732-736 | namespace and class put together again are the name |
| `ForwardDeclarations.SplitSegments` | externals/libkode/printer.cpp:732-736 | no segment holds a separator |
| `ForwardDeclarations.SplitOfJoined` | externals/libkode/printer.cpp:732-736 | a path of such segments and a class come back from the qualified name |
| `ForwardDeclarations.WellNested` | externals/libkode/printer.cpp:729-760 | read as a stack machine the lines never close an unopened block, are indented by depth, end with no block open, and declare each class within its own namespace, one block per segment, within Qt brackets if and only if it starts with a Q |
| `ForwardDeclarations.OpenedOnce` | externals/libkode/printer.cpp:731-733 | in sorted names no namespace is opened twice |
| `ForwardDeclarations.BlocksGrouped` | externals/libkode/printer.cpp:722-760 | the grouping that the sorting is for, stated of the lines |
| `ForwardDeclarations.Code.Unindent` | externals/libkode/code.cpp:67-70 | the indentation is lowered, but not below zero |

## Left out

- The contents of utf8proc's property table: they are a parameter; `UnicodeTable.Valid` states what is relied on (mappings lead to valid code points of smaller depth, Hangul is left to arithmetic, a composite maps to its pair, classes are not negative).
- The two-stage table lookup and the behaviour of code points outside the code space, which no caller passes.
- Whether the CHARBOUND option finds all grapheme clusters of Unicode Standard Annex 29, which depends on the contents of the table.
- OutMarked: without COMPOSE and DECOMPOSE; with them, what is stated is that the jamo of syllables get no marker.
- MapNoOptions: bounded by the length at which utf8proc reports an overflow.
- AddIov: the message list can grow when it must; the code does not look at the result of `add_msghdr` there.
- `excluded` in `ClassSort.DependenciesForClass` is passed on as in the code and has no effect there.
- The construction of the dependency map from the syntax tree of a unit, and the printing of the pass.
- ReadOneResponse: requires that no copy leaves its field, which `MemcachedCodec.LeavesExactly` states of the pending bytes; beyond it the code has no defined behaviour. A wrong magic byte is, as in the code, not acted on.
- ReadIncrementally: requires the same of its buffer.
- StrReplace: requires a replacement that is shorter, or a character by text without it; `Identifier.EndlessReplacement` shows a kind for which the loop does not end.
- Diagnostics, verbosity, alignment, sockets, threads, other connection states and the command handlers of the memcached server.
- ToIdentifier: names are ASCII, since for other characters the code indexes its digit table out of range.
- AtoiN: base 16 only, which is the only base in use.
- Locale: `isprint`, `isalnum` and `isdigit` are those of the C locale.
- PrintForwardDeclarations: takes the list of names; collecting them in a `std::set` and sorting is stated as `ForwardDeclarations.StrictlySorted` where it matters.
- Includes, enums, classes and include guards of the printed header, and writing it to a file.
- The generated parsers and serializers, the specification language and the command line.
