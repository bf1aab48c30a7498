# Verified models of daat-locus

Dafny models of the parts of the agent platform that hold an invariant worth a proof, with the proofs. Each
module starts with a comment that says what it models. `dafny verify dfyconfig.toml` checks everything.

- **Replicated instruction library** (`InstructionLibrary`, `AtomicFile`, `InstructionStore`, `InstructionProtocol`,
  `InstructionTheorems`, `InstructionPowerLoss`, `InstructionRuns`, `InstructionDelivery`, `InstructionDecisions`).
  Devices edit their copy offline, sign it, offer it and import the copies of others, the newer pair of revision and
  writer winning.
  `InstructionStore` is the class with its locked state and its file; `InstructionProtocol` runs any number of such
  devices with any interleaving of edits, offers, deliveries (late, repeated, reordered), write errors, crashes,
  restarts and power losses. Every file write ends in one of the fates that `AtomicFile` derives from the seven file
  operations and the points between them; a power loss may bring back any file that was in place since the directory
  was last synced. `InstructionDelivery` folds imports over any series of arrivals, and
  `InstructionDecisions` says for every request when it is refused, with which complaint, and when it changes nothing.
- **Truncated JSON** (`Json`, `JsonRoundTrip`, `JsonSpelling`, `JsonSpace*`, `JsonScan`, `JsonCut`, `JsonRepair*`,
  `JsonToolArguments`, `JsonObjects`). `Json` is a printer and a parser of RFC 8259 (sections 4 to 7) with their round trip. `JsonCut`
  describes every way a printed document can be cut off. The repair is shown to succeed on exactly the closable cuts
  that are not nested too deeply for serde_json, with the closed document as its result, and the object iterator to
  yield exactly the brace groups that are JSON. The same holds of every text that spreads a document with white space
  between its tokens (`JsonSpaceRepair`), and the spellings that the parser reads are those of the standard
  (`JsonSpelling`).
- **Line-ending-tolerant edits** (`LineEndings`, `EditBatch`, `EditTheorems`, `EditStyle`, `EditOutcomes`, `EditUtf8`).
  The byte walk and the splice refine substitution in the view where CRLF reads as LF, and the new text takes the line
  ending of the place it is put in.
- **Pagers** (`DirectoryPaging`, `DirectoryWalk`, `HistoryPaging`, `HistoryWalk`, `ResourcePaging`). Following the
  cursors terminates and yields everything exactly once.
- **Bounds and searches** (`TokenBudget`, `ImageView`, `SkillDiscovery`), with `Utf8`, `Utf8Scalars` (RFC 3629) and `Usize`
  beneath.

Some results say that the code does less than one might read into it. Each has an input that shows it and the exact
condition, as an equivalence.

- On every file an edit is substitution in the LF view if and only if no new CRLF pair is formed, neither by the new text
  nor in front of it (`EditTheorems.EditRefinesSubstitution`), and under the same condition a file with one kind of line
  ending keeps it (`EditTheorems.OneKindIsKept`). Deleting the letter of CR, letter, LF leaves a CRLF file
  (`EditTheorems.StrayCrMakesPair`).
- An edit is independent of the line endings of LF and CRLF files if and only if the new text is safe: its LF view, with
  a line feed behind it, has no CRLF pair (`EditTheorems.SafeIsExact`; a one-line file shows the failure). On all files
  it is so if and only if the new text also begins with something other than a line end
  (`EditTheorems.SafeSolidIsExact`).
- A power loss that brings back an earlier file keeps the devices in agreement for ever if and only if the library that
  is found, if it opens at all, covers the offers of its device: none of them has a higher revision, or the same binding
  and another content (`InstructionPowerLoss.SafePowerIsExact`, in every reachable state, under rules that let a
  library be edited to more than one result). Runs allow exactly these power losses;
  `InstructionRuns.UnsafePowerLossIsReachable` is a run to one that is not.
- Such a run may still take a device back to an older library (`InstructionRuns.SafeLossTakesBack`). A step leaves a
  running device where it is or one change further if and only if the state that a power loss brings back, if it opens
  at all, is that (`InstructionTheorems.SteadyIsExact`); the monotonicity of whole runs and their convergence are proved
  for such steps.
- While power is not lost, the file of a device steps back if and only if a write lands whose library is older than the
  one on disk (`InstructionTheorems.FileStepsBack`): after an error behind a rename, the device goes on without reading
  the file. `InstructionRuns.FileStepsBackFromFiveToOne` is a run of two devices to such a write.
- The order in which libraries arrive is irrelevant to a device if and only if the news among them fits into the
  sequence numbers it has left, or it has none left (`InstructionDelivery.DeliveryOrderIsIrrelevant`); of two libraries
  that arrive at the last number the first stays (`InstructionRuns.OrderOfTwoMatters`).
- A reachable store opens if and only if its sequence is below 2^53 - 2 (`InstructionTheorems.ReopensUnlessExhausted`),
  a number that the last permitted edit or import stores (`InstructionTheorems.LastChangeDoesNotReopen`, and
  `InstructionRuns.LastSaveDoesNotReopen` with a save).
- A resource page is found at every limit that lets the first character through if and only if every page shorter than
  two of this character fits (`ResourcePaging.ReadsAtEveryLimit`). That the page of this character fits is not enough:
  with a euro sign, a letter and a budget for the first alone, every limit but the smallest fails
  (`ResourcePaging.HalvingSkips`).
- A cut document is repaired if and only if the cut is closable and what is left is nested in no more than 127 levels
  (`JsonRepairTheorems.RepairOfPrefix`); a cut inside the key of {"a":1} loses everything
  (`JsonRepairPlaces.CutInKeyFallsBack`).
- A tool-call value is kept if and only if it is nested in no more than 127 levels (`JsonToolArguments.ValuesAreKept`);
  128 arrays within each other, although complete, are replaced by an empty object
  (`JsonToolArguments.DeepArraysAreReplaced`).

Where the comment of the line-ending edit (src/file_io.rs:1241) says that the region's endings are used, the model
follows the code: the first ending of the region decides for all lines of the new text.

## Model

| member | source | states |
|---|---|---|
| InstructionLibrary.Validate | src/instruction_layers.rs:104-129 | the loop accepts exactly the libraries of version 1 with a usable revision and writer, unique ids and unique names ignoring case, valid files, and roles that name known files |
| InstructionDecisions.ValidMeans | src/instruction_layers.rs:104-129 | a library is valid if and only if version, revision, writer and every file are, there are as many ids and as many case-folded names as files, and the roles consist of known ids |
| InstructionLibrary.EditKeepsBinding | src/instruction_layers.rs:362-432 | no edit of files or roles touches the version or the pair of revision and writer |
| InstructionLibrary.StoredEdit | src/instruction_layers.rs:207-228 | a stored edit is the direct successor of the current library, by this device, valid, unsigned, with the sequence one higher |
| InstructionLibrary.EditMeans | src/instruction_layers.rs:362-432 | a stored or unnecessary edit leaves the file under its id with the given name and content, or the role with exactly the given ids, and everything else as it was |
| InstructionDecisions.SaveIsDecided | src/instruction_layers.rs:362-409 | on a valid library a save is refused as invalid, not found, conflicting or exhausted, or changes nothing, each if and only if its condition on the library and the request holds; a file other than the one the caller has seen is a conflict |
| InstructionDecisions.ReplaceIsDecided | src/instruction_layers.rs:410-432 | the same for the members of a role: they must be allowed, distinct and known |
| InstructionDecisions.ImportIsDecided | src/instruction_layers.rs:324-361 | the same for an import: a stale or known library is kept out without an error, and what is stored is the download with its record |
| InstructionDecisions.OfferIsDecided | src/instruction_layers.rs:252-315 | the same for an offer: nothing before the first edit, the stored record, or a new signature over an edit of this device |
| InstructionLibrary.ImportIsJoin | src/instruction_layers.rs:324-361 | an import that is not refused leaves the newer of the current and the offered library |
| InstructionDelivery.DeliveredIsNewest | src/instruction_layers.rs:324-361 | after any series of imports, refused ones included, the library is the newest among the one held and those that passed the checks, given sequence numbers for the news |
| InstructionDelivery.DeliveryOrderIsIrrelevant | src/instruction_layers.rs:324-361 | the same arrivals in every order and repetition leave the same library if and only if the news among them fits into the sequence numbers that are left, or none are left |
| InstructionRuns.OrderOfTwoMatters | src/instruction_layers.rs:324-361 | with one sequence number left, of revisions 1 and 2 the one that arrives first stays |
| InstructionDelivery.DeliveryOrderInRuns | src/instruction_layers.rs:324-361 | this holds for every device in every state of every run and all arrivals of offered records, whatever their bytes |
| AtomicFile.CrashIsAtomic | src/persistence.rs:229-266 | from every directory, also one that earlier failures left unsynced or with a temporary file, a crash of the process or the machine between any two operations leaves a complete file: an old one up to the rename, the new one once the directory is synced |
| AtomicFile.FileSyncIsNeeded | src/persistence.rs:252-254 | without the sync before the rename a power loss can leave an incomplete file |
| AtomicFile.AtomicFile.Write | src/persistence.rs:229-266 | success means the new file is in place and synced; an error leaves no temporary file of this write, and the old target unless it struck after the rename |
| InstructionStore.InstructionStore.Update | src/instruction_layers.rs:207-228 | the planned edit is persisted, then published; a refusal or an unchanged library leaves memory and file alone, and every write error has one of the listed outcomes |
| InstructionStore.InstructionStore.Save | src/instruction_layers.rs:362-409 | after success the file is there under its id with the given name and content, other files and the roles are untouched, and the file on disk is synced; every refusal has its exact reason, so that a file that changed since the caller saw it is never overwritten, and leaves memory unchanged |
| InstructionStore.InstructionStore.Replace | src/instruction_layers.rs:410-432 | after success the role's members are exactly the ids, all of known files, and files and the other role are untouched; every refusal has its exact reason and leaves memory unchanged |
| InstructionStore.InstructionStore.Import | src/instruction_layers.rs:324-361 | a newer offered library is persisted with its record, then published; older and equal ones change nothing; every refusal has its exact reason |
| InstructionStore.InstructionStore.Offer | src/instruction_layers.rs:252-315 | a stored record is forwarded, a local edit is signed and stored first; every refusal has its exact reason; library and sequence never change |
| InstructionStore.InstructionStore.constructor | src/instruction_layers.rs:156-184 | an opened store holds what the file holds, or the initial library, and is valid |
| InstructionProtocol.StepKeepsInv | src/instruction_layers.rs:199-361 | every step of every device keeps the invariant: one library per binding, provenance of every signature, the file in step with memory, and every file that a power loss may bring back valid and of known provenance |
| InstructionProtocol.RunKeepsInv | src/instruction_layers.rs:199-361 | the invariant holds in every state of every run |
| InstructionTheorems.Agreement | src/instruction_layers.rs:207-228 | in every state of every run two libraries in memory or in flight with one revision and writer are identical |
| InstructionTheorems.ImportNeverConflicts | src/instruction_layers.rs:346-350 | the conflict branch of the import is unreachable, whatever bytes arrive with a record of the network |
| InstructionTheorems.OfferNeverDeclines | src/instruction_layers.rs:264-303 | the mismatch and the missing-signer branches are unreachable; a foreign library is forwarded under its writer's record |
| InstructionTheorems.LastFileIsSafe | src/persistence.rs:254-258 | a power loss that brings back the file last renamed into place, or the one being written, is always safe, and takes no device back |
| InstructionTheorems.SteadyIsExact | src/persistence.rs:254-258 | a step leaves the acting device at its library and sequence or one newer change further, or without a store, if and only if the file that a power loss brings back holds such a state or does not open |
| InstructionRuns.SafeLossTakesBack | src/persistence.rs:254-258 | a run leads to a state in which a power loss is safe and takes the device back to an older library, while another one does not |
| InstructionTheorems.StepAdvances | src/instruction_layers.rs:207-228 | a step leaves a device's state alone or makes its binding newer and its sequence one higher, in every steady step: one in which a power loss brings back such a state, or none that opens |
| InstructionTheorems.RunAdvances | src/instruction_layers.rs:44-49 | along every run of steady steps a binding never goes back, equal bindings are equal libraries, and the sequence counts the content changes exactly |
| InstructionTheorems.OfferChangesNoContent | src/instruction_layers.rs:296-303 | an offer whose process survives changes neither the library nor the sequence |
| InstructionTheorems.DiskAdvances | src/instruction_layers.rs:199-206 | a file that is not there yet or holds the library of the memory never steps back in a steady step, and each new one is one change further; only a power loss can take it away |
| InstructionTheorems.FileStepsBack | src/instruction_layers.rs:199-206 | in every consistent state, a power loss that brings back an earlier file aside, a file steps back if and only if a write lands whose library is older than the one on disk, which is then ahead of the memory |
| InstructionRuns.FileStepsBackFromFiveToOne | src/instruction_layers.rs:199-206 | from the start of two devices a run leads to a file of revision 5, imported with an error behind the rename, and a local save then takes it to revision 1 |
| InstructionTheorems.ReopensUnlessExhausted | src/instruction_layers.rs:156-184 | a reachable store reopens if and only if its stored sequence is below 2^53 - 2 |
| InstructionTheorems.LastChangeDoesNotReopen | src/instruction_layers.rs:156-184 | the edit or import that the store accepts at sequence 2^53 - 3 leaves a file it does not open with |
| InstructionTheorems.FatesCoverCrashes | src/persistence.rs:229-266 | from every directory, unsynced ones and ones with a temporary file included, every crash of the process or the machine, before, between and behind the seven operations, reopens as one of the fates the protocol steps with |
| InstructionTheorems.Convergence | src/instruction_layers.rs:316-361 | in every run of steady steps, once every device has held or taken in the newest library, lasting files included, with no edit since, all of them store it, in memory and on disk, whatever else was delivered |
| InstructionPowerLoss.RunKeepsRoom | src/instruction_layers.rs:207-228 | in every state of every run a device could get from any file a power loss may bring back to every revision it has offered, within its sequence numbers |
| InstructionPowerLoss.SafePowerIsExact | src/persistence.rs:254-258 | in every state of every run a step in which power is lost keeps agreement for ever if and only if the library it brings back covers the device's offers |
| InstructionRuns.UnsafePowerLossIsReachable | src/persistence.rs:254-258 | a run leads to a state in which one file that a power loss may bring back breaks agreement later, and another does not |
| JsonRoundTrip.StringRoundTrip | src/dsml_repair.rs:245-251 | an escaped string is read back as the string, and the reader stops behind its quote (RFC 8259, section 7) |
| JsonRoundTrip.ValueRoundTrip | src/dsml_repair.rs:245-251 | a printed value followed by a delimiter is read back as the value and the rest |
| JsonRoundTrip.ParsePrint | src/dsml_repair.rs:245-251 | parsing the print of a document gives the document, unless it is nested in more than 127 levels; then parsing fails |
| JsonSpace.SpaceIsExact | src/dsml_repair.rs:244-251 | on every text the parser reads what it reads of the text without the white space between its tokens, and nothing of a text with white space inside a number or a literal |
| JsonSpelling.SpellingsRead | src/dsml_repair.rs:244-251 | every spelling of a string, with raw characters, short escapes, codes and surrogate pairs, is read as the string |
| JsonSpelling.ReadIsSpelled | src/dsml_repair.rs:244-251 | and whatever the parser reads as a string is such a spelling of it |
| JsonSpelling.NumbersAreThose | src/dsml_repair.rs:244-251 | the numbers that the parser reads are exactly those of the grammar: a minus, an integer without leading zero, a fraction, an exponent |
| JsonScan.ParsedTextIsBalanced | src/dsml_repair.rs:258-296 | the bracket scan of every text the parser accepts ends outside strings with an empty stack |
| JsonCut.CutText | src/dsml_repair.rs:236-333 | the cut of a document after so many characters prints exactly that prefix of its text |
| JsonRepair.ScanText | src/dsml_repair.rs:252-296 | the loop computes the final scan state and the end of the text without trailing white space |
| JsonRepair.RepairTruncatedJson | src/dsml_repair.rs:236-333 | the whole repair computes the text, change flag and value that RepairOfPrefix and RepairOfSpreadPrefix are about |
| JsonRepair.ScanDisciplined | src/dsml_repair.rs:258-296 | on every input `String` is only ever on top of the stack and exactly when a string is open |
| JsonRepair.ClosingCloses | src/dsml_repair.rs:307-324 | the closers take every disciplined state that is not inside an escape back to the start state |
| JsonRepair.CandidateIsBalanced | src/dsml_repair.rs:298-324 | on every input the patched text scans to an empty stack outside strings if and only if the kept text does not stop inside an escape |
| JsonRepairComplete.MendedIsPrint | src/dsml_repair.rs:298-324 | a closable cut is patched to exactly the print of its closed document |
| JsonRepairFallback.MendedFails | src/dsml_repair.rs:326-333 | a cut that is not closable is patched to a text that the parser rejects, also in front of more closers |
| JsonRepairTheorems.RepairOfPrefix | src/dsml_repair.rs:236-333 | for every document and every prefix: a cut that closes to a document of at most 127 levels is repaired to a text that parses to that document, and every other cut falls back to the empty object |
| JsonRepairTheorems.CutAfterPunctuation | src/dsml_repair.rs:252-333 | a cut behind a bracket, a comma or a colon outside strings is always closable |
| JsonRepairTheorems.CompleteValuesSurvive | src/dsml_repair.rs:252-333 | with distinct keys, every value that is complete before a closable cut is found unchanged under its path in the closed document |
| JsonRepairTheorems.RepairKeepsCompleteValues | src/dsml_repair.rs:236-333 | so the repair of every closable cut of a document of at most 127 levels parses and keeps these values |
| JsonSpaceRepair.SpreadReads | src/dsml_repair.rs:236-251 | a text that spreads a document with any white space between its tokens reads as the document, and the repair leaves it alone, up to 127 levels |
| JsonSpaceRepair.RepairOfSpreadPrefix | src/dsml_repair.rs:236-333 | every prefix of such a text is repaired to the document cut where the prefix without its white space ends, and closed, if that can be read back, and to the empty object otherwise |
| JsonSpaceRepair.PrintIsSpread | src/dsml_repair.rs:244-251 | the compact print is one way to spread a document |
| JsonSpaceRepair.MoreSpace | src/dsml_repair.rs:244-251 | and so is every text with one more white space character, except in strings and between two characters of a word |
| JsonRepairPlaces.CutBelow | src/dsml_repair.rs:252-333 | whether a cut inside a value can be closed depends on that value alone, however deep it lies |
| JsonRepairPlaces.CutBehindValue | src/dsml_repair.rs:252-333 | a cut right behind any value of the document is closable |
| JsonRepairPlaces.CutInString | src/dsml_repair.rs:258-306 | a cut inside a string value is closable if and only if it falls between two escaped characters |
| JsonRepairPlaces.CutInNumber | src/dsml_repair.rs:298-333 | a cut inside a number is closable if and only if what is left is a number |
| JsonRepairPlaces.CutInLiteral | src/dsml_repair.rs:298-333 | a cut inside true, false or null is never closable |
| JsonRepairPlaces.CutInKeyFallsBack | src/dsml_repair.rs:326-333 | the text {"a":1}, cut inside its key or right behind it, is repaired to the empty object |
| JsonRepairPlaces.SettleMeans | src/dsml_repair.rs:298-306 | a string that is cut loses its trailing spaces and then a comma, and gains null behind a colon, or a colon and one space |
| JsonRepairPlaces.TrailingSpaceGoes | src/dsml_repair.rs:252-306 | white space at the end of a text, a form feed included, is not kept |
| JsonToolArguments.ValuesAreKept | src/dsml_repair.rs:348-360 | arguments that are a value other than a string or null are left alone if and only if they are nested in at most 127 levels |
| JsonToolArguments.DeepArraysAreReplaced | src/dsml_repair.rs:348-373 | arrays within each other are kept up to 127 levels and replaced by an empty object from 128 on |
| JsonToolArguments.ArgumentsAreDecided | src/dsml_repair.rs:348-373 | missing arguments become an empty object, and argument text changes if and only if it does not parse |
| JsonToolArguments.CutArgumentsBecomeAnObject | src/dsml_repair.rs:348-373 | arguments cut off anywhere become the closed object when it can be read back, or the empty one |
| JsonToolArguments.SpreadArgumentsAreKept | src/dsml_repair.rs:348-360 | argument text that spreads a document is kept up to 127 levels |
| JsonToolArguments.CutSpreadArguments | src/dsml_repair.rs:348-373 | and, for an object, cut off anywhere it becomes the object cut there and closed, or the empty one |
| JsonObjects.JsonObjectIter.FindEnd | src/dsml_repair.rs:186-222 | the inner loop finds the end of the slice whose closing brace matches, aware of strings and escapes |
| JsonObjects.JsonObjectIter.Next | src/dsml_repair.rs:178-233 | each call yields the first of the pending objects and leaves the others, or finds none and ends |
| JsonObjects.NextObjectIsMatched | src/dsml_repair.rs:178-233 | on every input the yielded object is a slice from a brace to its matching brace, and the scan goes on right behind it |
| JsonObjects.ObjectsAreTheGroups | src/dsml_repair.rs:178-233 | on every input exactly the brace groups of the left-to-right scan that are JSON are yielded, in order; others are passed over wherever they stand, and nothing is yielded if and only if no group is JSON |
| JsonObjects.GroupsAreUnique | src/dsml_repair.rs:178-222 | a text has only one such sequence of groups |
| JsonObjects.PlaceholderIsPassedOver | src/dsml_repair.rs:218-228 | a placeholder in braces does not hide the object behind it |
| JsonObjects.ExtractionUndoesWeaving | src/dsml_repair.rs:166-234 | serialised objects separated by text without an opening brace come back, exactly they and in order |
| JsonObjects.PrintedObjectIsText | src/dsml_repair.rs:166-234 | the print of an object is such a serialised object if and only if it is nested in at most 127 levels |
| LineEndings.OriginalOffset | src/file_io.rs:1173-1187 | the walk returns the offset that OffsetSplits and OffsetIsTheOnlySplit characterise |
| LineEndings.OffsetSplits | src/file_io.rs:1173-1187 | for every text and target the offset splits it into parts whose LF views are the first bytes and the rest |
| LineEndings.OffsetIsTheOnlySplit | src/file_io.rs:1173-1187 | no other offset splits the text so |
| LineEndings.FirstLineEnding | src/file_io.rs:1190-1202 | the scan returns the first of the text's line endings, if it has any |
| LineEndings.DominantLineEnding | src/file_io.rs:1205-1227 | the two counters decide for the ending that occurs more, and for the first one in a tie |
| LineEndings.ViewHasNoCr | src/file_io.rs:1166-1168 | the LF view has no carriage return if and only if every carriage return of the text sits in a CRLF pair |
| LineEndings.ViewShrinks | src/file_io.rs:1166-1168 | the LF view is the text itself if the text has no CRLF pair, and shorter otherwise |
| LineEndings.ViewOfCrlf | src/file_io.rs:1230-1236 | the LF view of a text rewritten to CRLF is the text |
| LineEndings.CrlfEndings | src/file_io.rs:1230-1236 | a text rewritten to CRLF has only CRLF endings |
| EditBatch.OnlyMeans | src/file_io.rs:1253-1268 | the two searches accept exactly one occurrence, counting overlapping ones, and tell none from several |
| EditBatch.ApplyLineEndingTolerantEdit | src/file_io.rs:1243-1284 | the code computes the edit that EditKeepsStyle, EditRefinesSubstitution and EditFailsWhen are about |
| EditBatch.ApplyEditBatch | src/file_io.rs:1289-1300 | the loop computes the batch that BatchStopsWhere and FaithfulBatchRefines are about |
| EditTheorems.MatchedReads | src/file_io.rs:1269-1274 | the slice taken out of the bytes reads as the matched part of the LF view |
| EditTheorems.EditRefinesSubstitution | src/file_io.rs:1243-1284 | on every file an edit is substitution in the LF view, errors included, if and only if no new CRLF pair is formed, inside the new text or at either end of it |
| EditTheorems.CleanFileFits | src/file_io.rs:1269-1278 | in a file without stray carriage returns no pair is formed in front of the new text, so the condition is on the new text and what follows it |
| EditTheorems.StrayCrMakesPair | src/file_io.rs:1269-1283 | deleting the letter behind a stray carriage return turns an LF file into a CRLF file and is no substitution |
| EditTheorems.FaithfulBatchRefines | src/file_io.rs:1289-1300 | on every file a batch whose edits form no new pair, each on the text the ones before it left, is the batch of substitutions on the LF view |
| EditTheorems.BatchRefinesSubstitution | src/file_io.rs:1289-1300 | a batch without stray carriage returns is the batch of substitutions on the LF view |
| EditTheorems.LineEndingsDoNotMatter | src/file_io.rs:1289-1300 | two such files with equal LF views succeed together with equal views, or fail at the same edit for the same reason |
| EditTheorems.SafeIsExact | src/file_io.rs:1275-1278 | an edit is independent of the file's line endings for all files without stray carriage returns and all matches if and only if the new text is safe |
| EditTheorems.SafeSolidIsExact | src/file_io.rs:1269-1283 | it is so for all files whatever if and only if the new text is safe and begins with something other than a line end |
| EditTheorems.OneKindIsKept | src/file_io.rs:1275-1283 | a file with one kind of line ending keeps only that kind if and only if no new pair is formed; a CRLF file always does |
| EditStyle.EditKeepsStyle | src/file_io.rs:1269-1284 | on every file a successful edit exchanges the one region that reads as the old text for the new text with the ending of the first line feed of the region, else of the majority of the file, in a tie of its first line feed, else as it is |
| EditOutcomes.EditFailsWhen | src/file_io.rs:1248-1268 | an edit fails if and only if the old text is empty, does not occur in the LF view, or occurs twice, each with its own error |
| EditOutcomes.BatchStopsWhere | src/file_io.rs:1289-1300 | a batch applies its edits in order, each to the text the ones before it left, to the end or up to the first that fails, whose position and error it reports |
| EditUtf8.OffsetKeepsBoundaries | src/file_io.rs:1173-1187 | the offset map carries exactly the character boundaries of the LF view to character boundaries |
| EditUtf8.MatchesCharacters | src/file_io.rs:1253-1259 | a byte match of valid UTF-8 in valid UTF-8 starts and ends between characters |
| EditUtf8.CutsBetweenCharacters | src/file_io.rs:1269-1274 | both cuts of an edit fall between characters, so the slices cannot panic |
| EditUtf8.EditKeepsUtf8 | src/file_io.rs:1243-1284 | editing valid text with valid text leaves valid text |
| EditUtf8.BatchKeepsUtf8 | src/file_io.rs:1289-1300 | and so does a batch |
| DirectoryPaging.ListDirectory | src/file_io.rs:779-836 | the bounded scan returns the first page of the whole sorted listing, and the error when an entry cannot be inspected |
| DirectoryPaging.TakeInsert | src/file_io.rs:811-821 | dropping the entries past the bound before an insertion changes nothing within the bound |
| DirectoryPaging.ListingMeans | src/file_io.rs:790-818 | the sorted listing is ascending, shows only permitted entries after the cursor, and names all of them |
| DirectoryPaging.ClampIsNearest | src/file_io.rs:779 | the page size is the wanted one or the nearest between 1 and 200, and 100 if none is wanted |
| DirectoryPaging.LessMeans | src/file_io.rs:811-821 | the names are ordered by the first byte that differs, or else by length |
| DirectoryWalk.PageIsSmallest | src/file_io.rs:819-836 | a page holds the smallest permitted entries after the cursor, and its next cursor is there exactly when there are more |
| DirectoryWalk.FailsWhen | src/file_io.rs:802-803 | a listing fails if and only if a permitted entry after the cursor cannot be inspected |
| DirectoryWalk.ScanOrderIsIrrelevant | src/file_io.rs:787-818 | the order in which the file system reports the names does not matter |
| DirectoryWalk.FollowListsEverythingOnce | src/file_io.rs:779-836 | following the cursors of an unchanged directory, with any limits and scan orders, lists every permitted entry exactly once in ascending order |
| HistoryPaging.ReadHistory | src/actor_app.rs:696-778 | the code computes the page that PageAtCursor and PageIsFull are about, errors included |
| HistoryWalk.PageAtCursor | src/actor_app.rs:741-777 | every page from a good cursor reads on without a gap to the end, or to where its strictly greater next cursor points |
| HistoryWalk.CursorIsChecked | src/actor_app.rs:737-762 | a page is made if and only if the cursor names a place between two characters |
| HistoryWalk.PageIsFull | src/actor_app.rs:747-777 | a page keeps within the limit and the byte budget, twice the tokens less 512 between 256 and 16384, with 512 counted for each fragment, and leaves a cursor only when it is full: no entry, no byte or not a whole character fits |
| HistoryWalk.QueryIsChecked | src/actor_app.rs:696-703 | a query is invalid if and only if its limit is not between 1 and 100 |
| HistoryWalk.FollowReadsEverything | src/actor_app.rs:705-777 | following the cursors terminates, reads the archive once without gaps or overlaps, and the fragments of each row join to exactly its source |
| ResourcePaging.ReadResource | src/actor_app.rs:631-693 | the code computes the specified page, errors included |
| ResourcePaging.PagesAreGood | src/actor_app.rs:667-692 | every page fits the limit and the encoded budget, is whole characters, and advances when text is left |
| ResourcePaging.ShrinkFails | src/actor_app.rs:675-691 | the complaint about the metadata is made only at the end of the text, the one about the character only before it |
| ResourcePaging.SmallPagesSuffice | src/actor_app.rs:671-692 | a page is found when the first character is in reach and every page shorter than two of it fits |
| ResourcePaging.ShortPagesAreExact | src/actor_app.rs:671-692 | the loop finds a page from every reach that holds the first character if and only if every page shorter than two of it fits |
| ResourcePaging.ReadsAtEveryLimit | src/actor_app.rs:631-693 | the call finds a page at every limit that lets the first character through if and only if the short pages within the budget fit |
| ResourcePaging.HalvingSkips | src/actor_app.rs:631-693 | for every resource and actor identifier there is a token budget with which a text of a euro sign and a letter is read at limit 3 and refused at every greater one |
| ResourcePaging.PageTakesMost | src/actor_app.rs:666-692 | a page reaches to the last whole character within text, limit and budget, or is half of a longer one that does not fit |
| ResourcePaging.BudgetIsFourfold | src/actor_app.rs:662-665 | a token is worth four bytes, up to the largest word, and there is at least one token |
| ResourcePaging.RequestIsChecked | src/actor_app.rs:631-661 | the three complaints that precede a page, each if and only if its reason holds |
| ResourcePaging.FollowReadsTheText | src/actor_app.rs:659-693 | pages that can all be made, with any limits and budgets, join to the whole text |
| TokenBudget.TruncateTextToTokenBudgetWithNotice | src/context_budget.rs:205-229 | the code returns the text, or its prefix with the exact marker, which the last cut leaves whole, or what fits of the marker |
| TokenBudget.EstimateFits | src/context_budget.rs:196-229 | the estimated tokens of the result never exceed the budget |
| TokenBudget.ChangedWhenOverBudget | src/context_budget.rs:205-213 | the text is changed if and only if its estimate exceeds the budget |
| TokenBudget.DecimalWidth | src/context_budget.rs:214-222 | a number never has more digits than a greater one |
| TokenBudget.MarkerFits | src/context_budget.rs:216-228 | the room kept for the first marker is enough for the final one |
| TokenBudget.CountsAddUp | src/context_budget.rs:214-228 | the kept prefix ends between characters, and the number in the marker, read back, makes up the rest of the characters |
| TokenBudget.KeepsTheMost | src/context_budget.rs:216-219 | no longer prefix of whole characters leaves room for the marker |
| TokenBudget.MarkerIsCutLeast | src/context_budget.rs:224-226 | when the marker does not fit, the result is its longest prefix of whole characters that does |
| TokenBudget.MarkerReads | src/context_budget.rs:214-222 | the marker is the notice and the number of omitted characters in parentheses |
| TokenBudget.EstimateIsQuarter | src/context_budget.rs:196-199 | the estimate is a quarter of the bytes, rounded up |
| TokenBudget.ResultIsText | src/context_budget.rs:231-237 | the result never splits a character |
| ImageView.PlanView | src/image_input.rs:69-129 | the code, which narrows scale and sides step by step, computes the specified plan, and every view it returns keeps the bounds of resolution, region, pixel budget and short edge |
| ImageView.ScaleIsGreatest | src/image_input.rs:96-109 | the scale is the greatest one within the resolution, the pixel budget, the source and the short edge |
| ImageView.PlanIsBounded | src/image_input.rs:69-129 | every planned view has sides of at least 1 within resolution and region, keeps the pixel budget also when a side is clamped, and the short edge of 768 |
| ImageView.PlanIsDecided | src/image_input.rs:69-95 | each complaint has its exact reason, and without a region the view is of the whole image |
| ImageView.DefaultViews | src/image_input.rs:39-129 | an image of 1024 by 768 is shown as it is without a wanted resolution, and one of twice the size at that size |
| ImageView.ScreenViews | src/image_input.rs:107-111 | a square of 800 pixels is scaled to 768 for a screen, and only then |
| ImageView.ValidViews | src/image_input.rs:146-168 | a view is valid if and only if its sides, region and source keep all the limits |
| ImageView.UnclampedPlanIsExact | src/image_input.rs:109-122 | while no side is clamped to one pixel the view is the region at the greatest scale, rounded down |
| ImageView.PlannedViewIsValid | src/image_input.rs:146-168 | a planned view passes its own validation |
| ImageView.SourcePointIsInside | src/image_input.rs:130-145 | of a valid view exactly the points inside are accepted, and each is carried strictly inside the region and the source |
| ImageView.EveryRegionPointIsSeen | src/image_input.rs:130-145 | every point of the region is the image of a point of the view |
| ImageView.AlongSpreads | src/image_input.rs:130-145 | points of the view keep their order and at least their distance, and all distances are stretched alike |
| SkillDiscovery.DiscoverSkillsUnderRoot | src/openskills.rs:467-536 | the search terminates on every finite directory graph, reads the root and every other reachable directory exactly once and no others, and adds to the catalog what is in them |
| SkillDiscovery.SkillsAreThoseReachable | src/openskills.rs:488-533 | the skills found are exactly those of the visible skill files in reachable directories |
| SkillDiscovery.ProblemsAreThoseReachable | src/openskills.rs:488-533 | the problems reported are exactly those of reachable directories: the directory cannot be read, an entry of it cannot be inspected, or a skill file of it does not parse |
| SkillDiscovery.EntryIsPassedOver | src/openskills.rs:494-524 | hidden entries and those that may not be read yield nothing and lead nowhere, and only SKILL.md is a skill file |
| Utf8.SplitAtBoundary | src/context_budget.rs:231-237 | valid UTF-8 may be cut into valid texts exactly at the positions that do not start with a continuation byte |
| Utf8.FloorIsNear | src/context_budget.rs:231-237 | the loops that step back to a boundary take at most three steps |
| Utf8Scalars.EncodedIsCharacter | src/context_budget.rs:231-237 | every Unicode scalar value is written as one well-formed character |
| Utf8Scalars.CharacterIsEncoded | src/context_budget.rs:231-237 | every well-formed character is the encoding of a scalar value |

## Left out

- Cryptography, enrollment and accounts: a record is a value that only its writer can have made and that names its content; revocation is the `authorised` flag of an import.
- `Library::enabled`, `Library::name`, case folding and UUID syntax: the last three are the parameter `TextRules`.
- Windows, where the directory is not synced after a rename.
- Stores at the last sequence number: they refuse to reopen, and a device that does so takes no further part in a run.
- InstructionTheorems.Convergence: stated for the devices that reach the newest library; whether the network delivers it is not modelled. It and RunAdvances are about runs of steady steps; by SteadyIsExact no other step leaves its device where it is or one change further.
- JSON positions count Unicode scalars where the code counts bytes; both scanners test ASCII characters only. The depth counter is unbounded where the code has 32 bits.
- serde_json's range of floating-point numbers: numbers are kept as written; an object keeps its repeated members in order, the last one found by key.
- The stripping of DSML envelopes and the search for tool calls in them, which are regular expressions.
- File access around edits and listings: authorisation, pinned handles, locks, change records; a listed entry has a name and a kind, not its path.
- HistoryPaging.ReadHistory: the archive query is its ordering alone, the cursor is a pair of numbers and not yet text, and the other fields of the query and the reply are left out.
- ResourcePaging.ReadResource: the serialiser is an arbitrary function from pages to lengths, and image resources are left out; HalvingSkips has the length of the JSON for names and content without escapes.
- ImageView.PlanView: computes over the reals with the square root as a parameter, so rounding of `f64` is not modelled; decoding and encoding of images are left out.
- SkillDiscovery.DiscoverSkillsUnderRoot: the parser of skill files is a parameter; removal of duplicates and sorting of the catalog are left out, and with them the order in which directories are read.
- AtomicFile.AtomicFile.Write: the two steps that set permissions can fail but change nothing, as permissions are not modelled.
- Everything that is HTTP, process, browser, sandbox or configuration handling.
