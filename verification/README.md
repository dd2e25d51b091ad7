# Verified model of rsproperties

A Dafny model of the Android property store in `rsproperties`: the compiler from property-info rules to a
binary image and the reader that interprets the image, the shared-memory property area and the store on top
of it, the seqlock and wait protocol between its writer, readers and waiters, the build.prop import loader,
and the property-service wire protocol. `dafny verify dfyconfig.toml` checks all of it.

Strings are byte sequences and words are little-endian. Code that works in place is modelled in place: the
arena, the serializer, the builder, the area (an `array<byte>` written one store at a time), the loader, and
the two ends of a connection are classes whose methods are proved against specification functions, and the
lemmas are about those functions.

## The five parts

**Compiler and reader** (`Base`, `Order`, `ImageFormat`, `TrieBuilder`, `TrieNodeArena`, `TrieSerializer`,
`PropertyInfoArea`, `PropertyInfoCompiler`, `LongestMatch`, `CompilerCorrectness`, `ContextNodes`). The
builder's trie refines a flat table with one slot per rule. The serializer, which patches records after later
allocations, is equal to a one-pass emitter, and the emitted bytes decode to the trie again. The walk over the
bytes agrees with the walk over the trie, and that walk picks the rules that a statement without any trie
names: the exact rule for a name if there is one, else the best prefix rule. Whether that is the longest match
depends on the rules, for contexts and types alike, and the condition is exact: the longest prefix rule `r` that
sets a field decides it if `r` ends in a dot, or every longer prefix rule for the name goes on past a further dot
(`Shown`), and only then as long as no other rule and not the default has the same value. So lookups are longest
matches when every rule sets the field, or no rule shadows one that does (`NoShadows`, a condition on the rules
alone); `ShadowedTypeIsLost` compiles two rules for which a type is lost.

**Property area** (`PropertySerial`, `PropertyShape`, `PropertyMap`, `PropertyMemory`, `PropertyAreas`,
`SystemProperty`, `ConcurrentReader`). An area is described three times: as bytes, as a shape (objects, links,
extents) and as a map from names to values. Every operation says what it does to the map. Every store appends the
resulting memory, with the area that is in it, to a log, and every operation says how each memory of the log
reads: as before the call, or, for the last one only, as after it. A reader need not see one memory only: in
`ConcurrentReader` every load, of a link, a serial or a byte of a value, may see a later memory than the load
before, while any run of calls goes on, adds and updates alike. If such a read ends with a result, it is what the
map had for the name after some number of the calls (`AnswersDuringRun`), unless 2^15 updates of the entry complete
within one attempt. A well-formed name that is absent is always "not found". For a name with an empty segment the
error depends on the area: it is "bad name" exactly when the walk reaches the empty segment (`MalformedError`), so
it can change when unrelated properties are added (`ErrorKindChanges`).

**Seqlock and waits** (`Seqlock`, `UpdateProtocol`). One writer, any number of readers and waiters, one step per byte
or word loaded or stored, byte stores within a phase in any order. The writer backs up what it reads from the value
slot; histories of committed values are recorded but steer no step (`RecordsSteerNothing`). The memories that an
update of the area logs are, store by store, a run of this writer (`AreaUpdateIsRun`). The bound on updates within one
read attempt is 2^15, because the counter mask drops the carry out of bit 15, and it is exact: a read can be torn if
and only if the number of updates within it is a positive multiple of 2^15 (`TornExactly`). No wake-up is lost, and
waiters return: by themselves, or, if parked, after the call in progress (`WaiterReturns`, `ParkedReturns`).

**Import loader** (`BoundedLine`, `ImportPath`, `PropertyLoader`, `PropertyText`). A load is described by a trace of
loads and assignments with imports inlined. The loader carries out the trace and stops at the load budget. A file may
end in a read error, which loses an unterminated last line and fails the load, but no entry read before it.
`PropertyText` says what the trace is from the text alone: what each line sets or imports, and whole files of lines
(`FileByText`).

**Wire** (`Wire`). The send loop under short and interrupted writes, the server's decoders and answers, the store
behind them, and all of it end to end: exactly when a `set` is sent, carried out and reported, from how the writes and
reads go and how much arrives.

What the results speak of is also given in bytes and numbers, apart from the functions that the code is proved
against: rule texts (`AcceptableBySpelling`), sizes and room (`SizesInBytes`, `AddFits`), records (`RecordsInBytes`),
serials, lines, frames and caps.

## Model

| member | source | states |
|---|---|---|
| Base.Align4ClosedForm | rsproperties/src/lib.rs:394-405 | rounding up by counting is the mask formula `(n + 3) & !3` |
| Order.CompareNameTotalOrder | rsproperties/src/property_area.rs:111-113 | length-then-bytes comparison is a strict total order |
| Order.CompareNameDecides | rsproperties/src/property_area.rs:111-113 | the shorter name is less; names of one length are decided by the first byte in which they differ |
| Order.Find | rsproperties/src/property_info_parser.rs:25-39 | a hit is a hit on any input; on monotone probes a miss means no element matches |
| Order.SortNames | rsproperties/src/trie_serializer.rs:153-228 | sorting a hash set in whatever order it is visited gives its one strictly sorted listing |
| TrieBuilder.AddKeepsTidy | rsproperties/src/trie_builder.rs:217-281 | adding fails exactly on a taken slot and keeps every entry named by its key and every child non-empty |
| TrieBuilder.AddSetsOneSlot | rsproperties/src/trie_builder.rs:217-281 | adding sets the slot of its rule and no other |
| TrieBuilder.LastSegment | rsproperties/src/trie_builder.rs:195-202 | popping an empty last segment is dropping one trailing dot |
| TrieBuilder.RulesDetermineTrie | rsproperties/src/trie_builder.rs:177-284 | a set of rules has at most one trie |
| TrieBuilder.Builder.constructor | rsproperties/src/trie_builder.rs:156-175 | a fresh builder represents no rules, with the defaults at its root |
| TrieBuilder.Builder.AddToTrie | rsproperties/src/trie_builder.rs:177-284 | accepted exactly when the rule is acceptable and its place is free; then the trie represents one rule more, otherwise it is unchanged and the error is the one of the rejection |
| TrieBuilder.AcceptableBySpelling | rsproperties/src/trie_builder.rs:177-284 | a rule, exact, plain or dotted, is acceptable exactly if its strings are free of NULs and its name is not empty, does not begin with a dot, has no two dots in a row, and, a dot at its end aside, at most 256 segments |
| TrieBuilder.SameKeyByPlace | rsproperties/src/trie_builder.rs:217-281 | two such rules take the same place exactly if both are exact and their names are equal up to a dot at the end, or neither is and their names are equal |
| TrieNodeArena.Arena.AllocateData | rsproperties/src/trie_node_arena.rs:183-211 | aligned, zeroed room at the end, everything before it unchanged by growth; fails exactly when offsets would leave 32 bits |
| TrieNodeArena.Arena.AllocateAndWriteString | rsproperties/src/trie_node_arena.rs:143-152 | appends the string, NUL-terminated and padded |
| TrieNodeArena.Arena.SetField | rsproperties/src/trie_node_arena.rs:76-98 | overwrites one word of a record in bounds and nothing else; out of bounds or misaligned fails |
| TrieNodeArena.Arena.SetArray | rsproperties/src/trie_node_arena.rs:121-141 | overwrites one array in bounds and nothing else |
| TrieSerializer.Serializer.ResolveIndex | rsproperties/src/trie_serializer.rs:22-45 | unset and empty strings give the sentinel, strings in the table their position, all others an error |
| TrieSerializer.Serializer.WritePropertyEntry | rsproperties/src/trie_serializer.rs:99-125 | appends exactly the emitted entry; fails exactly when a string is not in its table or the entry does not fit |
| TrieSerializer.Serializer.WriteTrieNode | rsproperties/src/trie_serializer.rs:127-233 | appends exactly the emitted node although fields and offset arrays are patched later; fails exactly when unresolvable, too deep or too large |
| TrieSerializer.Serializer.SerializeStrings | rsproperties/src/trie_serializer.rs:235-249 | appends exactly the emitted string table |
| TrieSerializer.Serializer.Serialize | rsproperties/src/trie_serializer.rs:48-97 | produces exactly the emitted image, or fails for one of the named causes |
| ImageFormat.NodeDecodes | rsproperties/src/trie_serializer.rs:127-233 | round trip: an emitted node decodes, at its offset, to the node it came from |
| ImageFormat.ImageDecodes | rsproperties/src/trie_serializer.rs:48-97 | round trip for the whole image: header, both tables, trie |
| ImageFormat.NodeAtUnique | rsproperties/src/property_info_parser.rs:123-251 | decoding is unambiguous: bytes at an offset encode at most one trie |
| ImageFormat.ImageSizeIs | rsproperties/src/trie_serializer.rs:48-97 | an image has exactly these bytes, summed over strings, entries and nodes, and starts with these six words |
| ImageFormat.RecordsInBytes | rsproperties/src/property_info_parser.rs:70-111 | the words of entry and node records, by position |
| PropertyInfoArea.CheckPrefixMatch | rsproperties/src/property_info_parser.rs:442-485 | on an encoded node, applies the first listed prefix that matches; safe on any bytes |
| PropertyInfoArea.FindChildForString | rsproperties/src/property_info_parser.rs:172-224 | on a searchable node, finds the child of that name exactly when there is one |
| PropertyInfoArea.GetPropertyInfoIndexes | rsproperties/src/property_info_parser.rs:487-587 | on any image encoding a searchable trie, gives the indexes of the walk over that trie |
| PropertyInfoArea.TableReads | rsproperties/src/property_info_parser.rs:365-433 | count and entries of an encoded string table read back; indexes past its end give nothing |
| PropertyInfoArea.FindStringIndex | rsproperties/src/property_info_parser.rs:606-640 | on a sorted table, finds a string exactly when it is there |
| PropertyInfoCompiler.WalkAgrees | rsproperties/src/property_info_parser.rs:487-587 | walking the serialized trie gives the indexes of what walking the builder's trie gives |
| PropertyInfoCompiler.LookupAgrees | rsproperties/src/property_info_parser.rs:487-587 | the same from the root, the default entry included |
| PropertyInfoCompiler.TrieOfIsGood | rsproperties/src/trie_builder.rs:177-284 | well-formed rules have a trie, no deeper than the longest name allowed, with clean names and no strings but those of the rules and the defaults |
| PropertyInfoCompiler.BuildTrie | rsproperties/src/property_info_serializer.rs:246-285 | succeeds exactly on lists of well-spelled rules in different places whose image fits 32-bit offsets, and gives the image of their set |
| PropertyInfoCompiler.CompilesBySpelling | rsproperties/src/property_info_serializer.rs:246-285 | well-formedness of a rule list in terms of the text of its rules |
| LongestMatch.LookupAnswers | rsproperties/src/property_info_parser.rs:442-587 | every lookup answers as the rules say: the exact rule's field if set, else that of the longest effective prefix rule setting it, else the default |
| LongestMatch.AnswersIfShown | rsproperties/src/property_info_parser.rs:442-587 | the longest prefix rule setting a field decides it if it is shown, and, where its value is its own, only if |
| LongestMatch.LookupIfShown | rsproperties/src/property_info_parser.rs:442-587 | the same for every lookup in the trie of a set of rules, contexts and types alike |
| LongestMatch.LookupIsLongestMatch | rsproperties/src/property_info_parser.rs:442-587 | with the field set in every rule, or no rule shadowing one that sets it: exact rule, else longest string-prefix rule, else default |
| CompilerCorrectness.OrderIrrelevant | rsproperties/src/property_info_serializer.rs:246-285 | permutations of a rule list compile or fail together, to the same image |
| CompilerCorrectness.CompiledImageDecodes | rsproperties/src/property_info_serializer.rs:246-285 | a compiled image decodes to the compiled trie and its sorted tables |
| CompilerCorrectness.CompilationPreservesMeaning | rsproperties/src/property_info_parser.rs:390-587 | for all rule lists that compile and all names, the indexes found in the bytes stand for the strings the rules prescribe |
| CompilerCorrectness.CompileAndLookUp | rsproperties/src/property_info_serializer.rs:246-285 | compiler followed by reader gives the prescribed context and type, which are longest matches under the exact condition, in plain terms of names and prefixes when every rule sets both |
| CompilerCorrectness.LongestIsPlain | rsproperties/src/property_info_parser.rs:442-587 | the longest match in plain terms: the rule for exactly the name, else a longest prefix rule that the name starts with, else the default |
| CompilerCorrectness.ShadowedTypeIsLost | rsproperties/src/property_info_parser.rs:442-485 | two accepted rules for which the longest rule's type is lost, in the trie and in the compiled image |
| CompilerCorrectness.OnlySizeCanFail | rsproperties/src/trie_serializer.rs:22-140 | for well-formed rules no string misses its table, no trie is too deep and no index of an image that fits is the sentinel |
| ContextNodes.BuildSlots | rsproperties/src/contexts_serialized.rs:143-192 | one slot per table entry in table order; a bad entry empties only its own slot; oversized or damaged tables are refused |
| ContextNodes.SlotsDistinct | rsproperties/src/contexts_serialized.rs:37-119 | no two slots share a file name, even ignoring case |
| ContextNodes.SlotsAligned | rsproperties/src/contexts_serialized.rs:143-192 | slot `i` holds context `i` or nothing; it is filled exactly if the context is eligible and none before it has a name that could be confused with it |
| ContextNodes.AreasByText | rsproperties/src/contexts_serialized.rs:37-119 | which contexts get an area, by their bytes: plain file names that fold to none of the three reserved ones |
| ContextNodes.NamesReachTheirArea | rsproperties/src/contexts_serialized.rs:349-360 | for all rules that compile, the index of a name selects the slot of the context its rules prescribe, filled with it or empty, and never another's |
| PropertySerial.NextIsOneMoreUpdate | rsproperties/src/property_info.rs:258-265 | one `apply_write` takes the serial of `k` updates to that of `k + 1`; the carry into the LONG bit is dropped |
| PropertySerial.ShortSerialFields | rsproperties/src/property_info.rs:113-134 | a short entry's serial is even, not LONG, and its top byte is the length, dirty or not |
| PropertySerial.SerialsCoincide | rsproperties/src/property_info.rs:208-212 | clean serials coincide exactly when lengths match and update counts differ by a multiple of 2^15 |
| PropertySerial.SerialInNumbers | rsproperties/src/property_info.rs:113-265 | the serials that are stored, as numbers |
| PropertyShape.SearchGrown | rsproperties/src/property_area.rs:555-599 | a new node changes exactly the searches that ended at the link it takes |
| PropertyShape.LinkKeepsWellFormed | rsproperties/src/property_area.rs:391-408 | linking a node keeps objects apart, aligned and in bounds, links acyclic and levels ordered |
| PropertyShape.LinkKeepsEntries | rsproperties/src/property_area.rs:391-408 | linking a node changes no lookup |
| PropertyShape.EntryIsNamed | rsproperties/src/property_area.rs:307-356 | the entry found for a name carries that name |
| PropertyMap.PublishKeepsWellFormed | rsproperties/src/property_area.rs:416-434 | publishing an entry keeps the area well-formed |
| PropertyMap.PublishAddsOne | rsproperties/src/property_area.rs:416-434 | publishing an entry changes the lookup of its own name, absent before, and no other |
| PropertyMap.UpdateRefines | rsproperties/src/property_info.rs:236-289 | replacing a value in place is replacing it in the map |
| PropertyMap.LevelsAscend | rsproperties/src/property_area.rs:555-599 | every level is a search tree: left to right its names ascend by length, then bytes |
| PropertyMemory.LevelReads | rsproperties/src/property_area.rs:628-656 | on an area the walk limit is never reached, and the walk over the bytes ends where the search over the shape does |
| PropertyMemory.RecordsInBytes | rsproperties/src/property_area.rs:49-79 | where nodes, entries, long values and the backup lie in the memory, by byte |
| PropertyMemory.FoundInBounds | rsproperties/src/property_area.rs:307-356 | on any bytes a lookup ends and finds only objects inside the memory |
| PropertyMemory.FindReads | rsproperties/src/property_area.rs:307-356 | `find` on the bytes of an area finds what the area has, for every name; for malformed names, which error comes |
| PropertyMemory.ValueReads | rsproperties/src/property_area.rs:741-780 | both value encodings read back whole on either side of 92 bytes; the stored long offset is accepted and every smaller one rejected |
| PropertyMemory.DirtyReads | rsproperties/src/system_properties.rs:192-267 | while an entry is rewritten the memory holds the area but for it, and every name still reads as before the update |
| PropertyMemory.UpdateHolds | rsproperties/src/property_info.rs:236-289 | the clean serial completes the update: the memory holds the area with the new value |
| PropertyMemory.MemoryReads | rsproperties/src/system_properties.rs:283-328 | a memory that holds an area reads, for every name, as the map the area refines; an absent well-formed name is not found |
| PropertyAreas.PropertyArea.constructor | rsproperties/src/property_area.rs:126-133 | a fresh area holds the empty map, and begins with these header words |
| PropertyAreas.PropertyArea.AllocateObj | rsproperties/src/property_area.rs:659-695 | takes aligned room at the high-water mark exactly when there is enough; otherwise takes none, and says whether 32 bits or the area are exceeded |
| PropertyAreas.PropertyArea.NewPropTrieNode | rsproperties/src/property_area.rs:724-739 | writes an unlinked node that no reader can see |
| PropertyAreas.PropertyArea.AddPropTrieNode | rsproperties/src/property_area.rs:555-599 | finds or links the node for a segment; fails exactly when a new one does not fit; the cycle limit is not hit |
| PropertyAreas.PropertyArea.NewPropInfo | rsproperties/src/property_area.rs:741-780 | writes an unpublished entry, short or long, that no reader can see, or returns the error of the first allocation without room |
| PropertyAreas.PropertyArea.EnsurePath | rsproperties/src/property_area.rs:380-412 | the walk makes exactly the nodes that are missing, joined at one link and visible to no lookup, or returns the error of the first one without room |
| PropertyAreas.PropertyArea.Add | rsproperties/src/property_area.rs:360-437 | first write wins; its result, success or which error, is settled by area and arguments; of the nodes there before exactly one link changes, the one at which the walk for the name ended; exactly one entry is new; every memory on the way reads as before but the last |
| PropertyAreas.SizesInBytes | rsproperties/src/property_area.rs:659-780 | what a node, an entry and a long value take, in closed form |
| PropertyAreas.AddFits | rsproperties/src/property_area.rs:360-437 | `add` succeeds exactly on legal names that are there, or for which header, use, the nodes of the missing segments and the entry sum up to at most the memory |
| PropertyAreas.AddFitsPlainly | rsproperties/src/property_area.rs:360-437 | room for nodes of all segments and the entry is always enough |
| PropertyAreas.PropertyArea.FindPropTrieNode | rsproperties/src/property_area.rs:628-656 | the loop computes the level search, limit and error cases included, on any memory |
| PropertyAreas.PropertyArea.Find | rsproperties/src/property_area.rs:307-356 | on any memory the specified walk; on an area, the index of the property exactly when the map has it, and otherwise which error |
| PropertyAreas.PropertyArea.ShortValueBytes | rsproperties/src/property_info.rs:307-322 | copies a short value up to its NUL |
| PropertyAreas.PropertyArea.Read | rsproperties/src/system_properties.rs:192-267 | one pass of the reader's loop: backup under a dirty serial, else long value or value slot; on an area, what the map has for the index |
| PropertyAreas.PropertyArea.SetDirtyBackupArea | rsproperties/src/property_area.rs:506-549 | the backup slot holds the value and its NUL; published objects are untouched; too long a value is refused |
| PropertyAreas.PropertyArea.ApplyWrite | rsproperties/src/property_info.rs:236-289 | readers see the old value until the last store and the new one from then on; LONG and too long values are refused |
| PropertyAreas.PropertyArea.BackupAndApplyWrite | rsproperties/src/property_area.rs:480-498 | backup and write together update exactly one value of the map, by exactly these stores in this order |
| PropertyAreas.IndexIsStable | rsproperties/src/system_properties.rs:143-147 | an index once handed out keeps naming the same property |
| PropertyAreas.BadNextTo | rsproperties/src/property_area.rs:307-340 | a malformed name is a bad name as soon as some property continues its leading segments |
| PropertyAreas.ErrorKindChanges | rsproperties/src/property_area.rs:307-340 | `a..b` is not found in a fresh area and a bad name once there is a property `a` |
| ConcurrentReader.FindWalkReads | rsproperties/src/property_area.rs:307-356 | a search whose loads see successive memories of a store being written gives what it gives in the memory of its last load |
| ConcurrentReader.AttemptReads | rsproperties/src/system_properties.rs:214-266 | an attempt whose loads see successive memories and that ends with a result has read the value of its entry, unchanged meanwhile, if fewer than 2^15 updates complete within it |
| ConcurrentReader.GetWalkReads | rsproperties/src/system_properties.rs:283-328 | finding and reading, repeated attempts included, gives what it gives in the one memory that the last attempt's first load sees |
| ConcurrentReader.AnswersDuringRun | rsproperties/src/system_properties.rs:283-328 | a reader spread in any way over a run of adds, updates and sets answers as the map after some number of the calls |
| ConcurrentReader.AnswersBeforeOrAfter | rsproperties/src/property_area.rs:360-437 | a reader spread over a running `add` in any way never has to repeat and answers as before the call or as after it |
| SystemProperty.SystemProperties.Find | rsproperties/src/system_properties.rs:333-367 | an index exactly when the map has the name; absence is not an error, but for malformed names as `MalformedError` says |
| SystemProperty.SystemProperties.Get | rsproperties/src/system_properties.rs:283-328 | reading gives what the map holds |
| SystemProperty.SystemProperties.Add | rsproperties/src/system_properties.rs:515-548 | first write wins, only read-only names may be long, success bumps the global serial, failure changes nothing and is the first of the failing checks |
| SystemProperty.ValidatorsByBytes | rsproperties/src/wire.rs:79-119 | the values taken, in bytes: free of NULs, and of at most 91 bytes unless `add` meets a name that begins with `ro.` |
| SystemProperty.AddInBytes | rsproperties/src/system_properties.rs:515-548 | `add` on a store succeeds exactly under these conditions on bytes and lengths |
| SystemProperty.SystemProperties.Update | rsproperties/src/system_properties.rs:387-506 | replaces one value exactly when the name is not read-only and the value short and NUL-free, by the stores of the protocol; otherwise nothing changes |
| SystemProperty.SystemProperties.Set | rsproperties/src/system_properties.rs:376-384 | add or update; exactly when it succeeds and with which error it fails; a failed call leaves the map unchanged |
| SystemProperty.RunFollows | rsproperties/src/system_properties.rs:376-548 | over every run of calls, failing ones included, no name goes away, no `ro.` value changes, only `ro.` names are long, and found indexes keep their names |
| SystemProperty.Replay | rsproperties/src/system_properties.rs:376-548 | performing any list of calls on a store, the map is the fold of the calls over their outcomes, all that `RunFollows` says holds of the store, and its log is that of the calls one after the other |
| Seqlock.RunKeepsInv | rsproperties/src/system_properties.rs:192-267 | the protocol invariant holds after every run |
| Seqlock.SnapshotIsCurrent | rsproperties/src/system_properties.rs:418-474 | between calls the value slot up to its first NUL, which the writer backs up, is the last committed value |
| Seqlock.RecordsSteerNothing | rsproperties/src/system_properties.rs:387-506 | which steps are enabled and what they do does not depend on the recorded histories |
| UpdateProtocol.AreaReflected | rsproperties/src/property_info.rs:208-265 | every area between calls is mirrored by a state that the protocol's invariant allows |
| UpdateProtocol.AreaUpdateIsRun | rsproperties/src/property_area.rs:480-549 | the memories of an update of an area mirror, store by store, a run of the protocol's writer |
| Seqlock.DirtyEntryIsBackedUp | rsproperties/src/property_area.rs:480-549 | at most one entry is dirty, and then the backup slot holds its last committed value, of the length its serial records |
| Seqlock.CleanEntrySerial | rsproperties/src/property_info.rs:208-265 | in every run a clean entry's serial tells length and update count modulo 2^15, and its slot holds the committed value |
| Seqlock.AcceptedWasCurrent | rsproperties/src/system_properties.rs:192-267 | whole periods of updates, or none, complete within every accepted attempt; if none, or fewer than 2^15, the value accepted is a whole committed value current throughout |
| Seqlock.TornReadAfterPeriods | rsproperties/src/system_properties.rs:224-259 | the bound is tight: with exactly `k` times 2^15 updates, for every positive `k`, a run accepts a value never committed |
| Seqlock.TornExactly | rsproperties/src/system_properties.rs:224-259 | a read can be torn exactly if the number of updates within it is a positive multiple of 2^15 |
| Seqlock.ReaderFinishes | rsproperties/src/system_properties.rs:192-267 | wherever the writer stands, a reader alone finishes, and accepts the value last committed unless it began a whole period of updates ago |
| Seqlock.OpensAndReads | rsproperties/src/system_properties.rs:192-267 | in every reachable state a reader can open any entry and alone reads its last committed value |
| Seqlock.RepeatNeedsUpdate | rsproperties/src/system_properties.rs:243-266 | a reader repeats an attempt only if a step within it marked or published its entry |
| Seqlock.NoLostWakeup | rsproperties/src/system_properties.rs:57-139 | a parked waiter sees the value it waits on or the writer still has to wake it; a returned serial differs from the old one |
| Seqlock.WaiterReturns | rsproperties/src/system_properties.rs:763-813 | from every reachable state whose watched word differs from the old one, a waiter that is not parked returns that word in at most two steps of its own |
| Seqlock.ParkedReturns | rsproperties/src/system_properties.rs:96-120 | a waiter parked on a word that has changed is woken by the call in progress and then returns what the word has become |
| Seqlock.EntersAndReturns | rsproperties/src/system_properties.rs:763-813 | a caller whose word has moved on gets the new word at once; any other is parked on it |
| Seqlock.ReturnedWasTheWord | rsproperties/src/system_properties.rs:57-139 | over every run, what a waiter returns is its word as it was when last checked, and not the word it entered with |
| Seqlock.WriterFinishes | rsproperties/src/system_properties.rs:468-506 | from every reachable point of a call the writer alone can finish it, committing what it set out to and counting the global serial up by one |
| Seqlock.Adds | rsproperties/src/system_properties.rs:515-548 | between calls, any value of at most 91 bytes without a NUL can be added, and is committed |
| BoundedLine.LinesSplit | rsproperties/src/build_property_parser.rs:48-84 | the lines put together are the stream, and newlines stand at their ends only; of a stream that breaks, exactly the bytes after the last newline are missing |
| BoundedLine.Reader.ReadBoundedLine | rsproperties/src/build_property_parser.rs:48-84 | under every chunking, consumes exactly one line, counts it, and cuts it exactly past the cap; fails exactly when the stream breaks before the line is over |
| BoundedLine.Reader.ReadLines | rsproperties/src/build_property_parser.rs:257-278 | the loop reports every line once and in order, each cut or whole, with counts that add up to the length of the stream |
| ImportPath.ExpandImportPath | rsproperties/src/build_property_parser.rs:139-166 | the loop computes the expansion, with its error cases |
| ImportPath.ExpandIsMeaning | rsproperties/src/build_property_parser.rs:124-138 | expansion agrees with the token grammar for paths of any number of tokens |
| ImportPath.TokensInText | rsproperties/src/build_property_parser.rs:124-138 | the grammar in letters: `$$`, `${name}`, `${name:-default}` |
| ImportPath.ExpandsExactly | rsproperties/src/build_property_parser.rs:124-166 | a path expands to a string exactly if it is written in the grammar with tokens that mean it |
| ImportPath.ExpandQuoted | rsproperties/src/build_property_parser.rs:124-138 | expansion undoes doubling every `$`, for every string |
| PropertyLoader.Loader.LoadPropertiesImpl | rsproperties/src/build_property_parser.rs:172-223 | carries out the file's trace within the budget and leaves the import stack as found, on every exit |
| PropertyLoader.Loader.LoadPropertiesBody | rsproperties/src/build_property_parser.rs:227-361 | carries out the trace of the lines that can be read; a read error fails the load after them; a failed import other than budget exhaustion is skipped |
| PropertyLoader.Loader.LoadPropertiesFromFile | rsproperties/src/build_property_parser.rs:106-122 | at most 1001 counted loads; within 1000 the map is what the whole trace leaves, beyond them what the trace before the 1001st load leaves |
| PropertyLoader.LastWins | rsproperties/src/build_property_parser.rs:352-357 | the last assignment in the trace wins; other keys keep what they had |
| PropertyLoader.LoadsAddUp | rsproperties/src/build_property_parser.rs:189-200 | every load in a trace counts once, an assignment not at all |
| PropertyLoader.CutBeforeLoad | rsproperties/src/build_property_parser.rs:189-200 | a trace over the budget is cut just before the load that is one too many |
| PropertyLoader.TraceIsFair | rsproperties/src/build_property_parser.rs:330-347 | no load, however deep, sets an empty or disallowed key |
| PropertyText.EntryByText | rsproperties/src/build_property_parser.rs:270-357 | a line sets a key to a value exactly if it is read whole, is UTF-8, and is written as blanks, key, blanks, `=`, blanks, value, blanks, for a key that is allowed and that the filter selects |
| PropertyText.ImportByText | rsproperties/src/build_property_parser.rs:284-296 | a line is an import exactly if there is no filter and it is written as blanks, `import `, blanks, path, blanks |
| PropertyText.NothingByText | rsproperties/src/build_property_parser.rs:270-328 | blank lines, comments and lines without `=` say nothing |
| PropertyText.LineSays | rsproperties/src/build_property_parser.rs:257-357 | every line says exactly one thing; lines of more than 65536 bytes and lines that are not UTF-8 say nothing |
| PropertyText.FileByText | rsproperties/src/build_property_parser.rs:172-361 | round trip from written lines: the trace of a file is its load, then what its lines say, in order, with imported files in place |
| PropertyText.NoFile | rsproperties/src/build_property_parser.rs:172-223 | nothing nine deep, a file being loaded, or a missing file; and how each ends |
| PropertyText.SettingsLeave | rsproperties/src/build_property_parser.rs:352-357 | a file without imports leaves each key with the value of the last line that sets it |
| Wire.ValidatePropertyName | rsproperties/src/wire.rs:152-181 | accepts exactly the dot-separated non-empty segments of legal characters |
| Wire.LegalByText | rsproperties/src/wire.rs:152-181 | legal names, by their bytes |
| Wire.ServiceWriter.WriteStr | rsproperties/src/system_property_set.rs:342-349 | appends a string behind its own length |
| Wire.ServiceWriter.SlicesFrom | rsproperties/src/system_property_set.rs:396-407 | the rebuilt slices are the frame without what already went out |
| Wire.ServiceWriter.Send | rsproperties/src/system_property_set.rs:361-423 | succeeds exactly if the attempts take enough bytes before any fails, and otherwise gives the error of the first that fails, or a timeout; success delivers the frame once and in order, failure a proper part of it |
| Wire.ServerStream.ReadSetprop2 | rsproperties-service/src/socket_service.rs:457-524 | the stream reads compute the V2 decoding, and every malformed or cut frame past its first length word is answered with an error |
| Wire.ServerStream.HandleSetprop2 | rsproperties-service/src/socket_service.rs:457-541 | the decoded request is carried out exactly when the store takes it, and answered with its outcome |
| Wire.ServerStream.HandleSetpropV1 | rsproperties-service/src/socket_service.rs:405-435 | the request decoded with forced terminators is carried out exactly when the store takes it; nothing is answered |
| Wire.ServerStream.HandleClient | rsproperties-service/src/socket_service.rs:357-394 | one connection: its bytes decode, the store changes, and the answer tells exactly whether it did |
| Wire.DecodesV2 | rsproperties-service/src/socket_service.rs:457-576 | the V2 decoder undoes the V2 frame within the caps |
| Wire.DecodesExactlyV2 | rsproperties-service/src/socket_service.rs:457-576 | the server takes a V2 request exactly from the bytes of its frame, within the caps |
| Wire.DecodesV1 | rsproperties/src/system_property_set.rs:449-483 | the V1 decoder undoes the V1 message within its limits |
| Wire.DecodesExactlyV1 | rsproperties-service/src/socket_service.rs:405-435 | the server takes a V1 request exactly from 128 bytes whose fields hold it |
| Wire.FrameV2InBytes | rsproperties/src/system_property_set.rs:686-692 | a V2 request, byte by byte |
| Wire.FrameV1InBytes | rsproperties/src/system_property_set.rs:432-483 | a V1 request, byte by byte |
| Wire.AnswerInBytes | rsproperties-service/src/socket_service.rs:357-541 | when the server answers, and with which four bytes |
| Wire.PartOfV2 | rsproperties-service/src/socket_service.rs:457-576 | no proper part of a V2 frame decodes to a request |
| Wire.PartOfV1 | rsproperties-service/src/socket_service.rs:405-435 | no proper part of a V1 message decodes to a request |
| Wire.PartDecodes | rsproperties-service/src/socket_service.rs:357-541 | all of a frame decodes to its request, less of it to nothing |
| Wire.SendableInNumbers | rsproperties/src/system_property_set.rs:610-685 | what the client takes, in numbers |
| Wire.SendRequest | rsproperties/src/system_property_set.rs:610-692 | succeeds exactly if the client takes the request and the attempts are enough for its frame; success means the server decodes exactly this name and value, failure that it decodes nothing |
| Wire.ReplyStream.RecvI32 | rsproperties/src/system_property_set.rs:259-305 | succeeds exactly if four bytes come back over these reads, with the number they stand for; otherwise says whether the stream ended, broke or took too long |
| Wire.AwaitReply | rsproperties/src/system_property_set.rs:693-711 | once the answer comes back the client reports what the server did; otherwise why it did not come |
| Wire.HandleRequest | rsproperties-service/src/properties_service.rs:156-194 | the store changes exactly when name and value are legal and `set` succeeds |
| Wire.SetThroughService | rsproperties/src/system_property_set.rs:610-711 | end to end: the request is sent exactly if taken and the writes are enough, carried out exactly if all of it arrives and the store takes it, and over V2 success, or a refusal, is reported exactly if it was, or was not, carried out and the answer came back |

## Left out

- Byte order: words are little-endian, the native order of the supported targets; big-endian hosts are not modelled.
- Strings: UTF-8 validity is a parameter of the loader and otherwise not modelled; white space in prop files is ASCII white space.
- TrieBuilder.Builder.AddToTrie: the mutable walk through the nodes is a recursive update of the trie value, so aliasing of interned strings is not captured.
- Files: mmap, creation, locking, permissions, ownership, SELinux labels and truncation under a live mapping.
- Read-only mappings: the area is the writer's own; `require_writable` failures and the magic check of an opened file are not modelled.
- PropertyAreas.PropertyArea.Add: values with interior NULs are excluded by precondition, as the store's validators exclude them for every caller.
- SystemProperty.SystemProperties.Set: one area; the choice of the area by context is `ContextNodes` and is not composed with it, and lookup failures of a context are not modelled.
- Seqlock: steps are sequentially consistent; fences, relaxed loads and the long entries (never rewritten) are not modelled.
- Waits: deadlines appear as spurious returns to the check; the bound on `serial()` and macOS are not modelled, and fairness of the scheduler is not assumed.
- In-process locks, one-time initialisation and the latches of `try_init`.
- Wire.ServiceWriter.Send: the time budget is the end of the list of write attempts; connecting, closing and the V1 drain are not modelled.
- Wire.ServerStream.HandleSetprop2: `read_exact` is one step, an answer is written as a whole, and the message between the two service tasks never fails.
- Wire.SetThroughService: client and server run one after the other; what cuts a connection short is a parameter.
- ConcurrentReader.FindWalkReads: a node's name and a long value are loaded as a whole, since their bytes never change once published.
- UpdateProtocol.AreaUpdateIsRun: up to the store that publishes; the wake-ups and the global serial that follow store nothing in the area.
- The property-info text parser, typed getters, `FromStr` conversions, logging and the command-line tools.
