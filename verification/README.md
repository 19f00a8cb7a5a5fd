# A verified model of libupdate and its updater

libupdate lets a desktop application replace itself: it fetches a manifest and a package over HTTP,
checks the package's SHA-256 digest, shows release notes after sanitizing their HTML, and hands over
to a separate updater program, which swaps directory trees and must survive crashes. This project
models the parts of it whose correctness is not obvious from any one function, and proves what they
are for. Every function that computes by changing things step by step is a Dafny method over arrays,
buffers and mutable objects, proved equal to a specification function; the theorems are about those
functions, and so about the methods.

`dafny verify dfyconfig.toml` checks everything.

## The parts

**The updater** (`UpdaterExtraction`, `UpdaterProtocol`, `UpdaterNoLoss`, `UpdaterPhases`,
`UpdaterCrash`, `UpdaterMain`, `StateFile`, `UpdaterRecovery`). The disk is three directory trees and a
state file; `main` is a step relation with one program counter for each disk operation. A crash may fall
between any two steps and in the middle of an extraction or a removal; in the fault model every
operation may fail as well. An interrupted extraction leaves what `update_extract` can leave: the files
it found, some whole entries in the order of the package, and at most one temporary file. `UpdaterMain`
is `main` as a program over a mutable disk, and every one of its runs is shown to be a run of the step
relation. Three theorems have exact conditions, and each condition is shown to fail for some input. An
undisturbed first run installs the package if and only if the package can be unpacked and the
installation directory is not spelled with a slash at its end; with such a slash, which validation
accepts, staging and backup lie inside the install, the rename at `updater/main.c:229` cannot be done,
and no run ever changes the install. Nothing is lost, in the full fault model, if and only if the
installation directory does not end in a quotation mark and one of the words `staging`, `backup`,
`package` (with such a name the state file that was written cannot be read back) or the package cannot
be unpacked anyway. Where updates can be installed, crashes alone never leave a half-extracted tree
installed if and only if the FULL branch is never entered, with a package that holds a file, beside a
state file that says "extracted"; that branch does not clear the state (`updater/main.c:212-219`).

**The sanitizer** (`HtmlScan`, `HtmlTree`, `HtmlSpec`, `HtmlGrammar`, `HtmlRoundTrip`, `HtmlErasure`,
`HtmlBoundary`, `HtmlTermination`, `HtmlRules`, `HtmlBuf`, `HtmlLexer`, `HtmlSanitizer`). The
specification reads the input token by token into a tree with a path of open tags. The output language
is defined by a separate recognizer (`HtmlGrammar.Accepts`) that looks at the output text alone.
`parse_anchor_href` stops advancing on some characters (`libupdate/src/update_html.c:485-492`); such
inputs have the outcome `Hangs`, and two theorems say exactly which attribute texts and which whole
inputs those are. An output is a fixed point up to one more escaping exactly when its targets still fit
the buffer escaped. `HtmlRules` says in literal markup what becomes of each kind of tag, link, comment
and character.

**Command lines** (`CommandLine`, `CommandLineShell`, `CommandLineBuilder`). The splitting rules of the
Microsoft C run time and of `CommandLineToArgvW` are independent functions; they differ in how the
program name is read. `pairs` says whether a doubled quotation mark inside quotes stands for one mark
(the rule that changed with the 2008 C run time).

**SHA-256** (`Sha256Spec`, `Sha256`, `Sha256Constants`, `Sha256Vectors`, `Sha256TwoBlocks`,
`PackageVerify`, `PackageExamples`). `Sha256Spec` follows FIPS 180-4 (sections 4.1.2, 4.2.2, 5.1.1,
5.2.1, 5.3.3 and 6.2.2) on sequences of bytes. The model of `update_verify` composes the read loop, the
streaming hash, the hexadecimal reader and the comparison. The constants are shown to be the roots they
are taken from, and the published digests of one and two blocks to be those computed.

**Chunked bodies** (`ChunkedCoding`, `HttpBody`, `HttpResponse`). The decoder against section 7.1 of RFC 9112, over a
connection that delivers its bytes in pieces of any size. Size lines are read as `strtoull` reads them.

**Trees and paths** (`TreeImage`, `Overlay`, `Paths`, `PathNames`). Copying a tree over another with retries, where
every call may fail or stop part of the way and directories are listed in any order, and the merge of
backup and staging into an install; path validation and the confinement of archive entries.

`Ascii` holds the character classes and scans of the C library that several parts share, `JsonMini`
the reader of quoted JSON members.

## Model

| member | source | states |
|---|---|---|
| UpdaterNoLoss.NoLossStep | updater/main.c:172-263 | one step of the full fault model keeps the recovery invariant, and a tree that leaves install is the one now in backup |
| UpdaterNoLoss.NoLoss | updater/main.c:172-263 | in every state of every faulty run: install is present, or backup is exactly the tree last installed and a usable state file sends the next run to ROLLBACK or POST_BACKUP; backup is only removed beside an install; success means an install |
| UpdaterNoLoss.UndisturbedRunSettles | updater/update_state.c:156-215 | from every state of the recovery invariant one undisturbed run ends as foreseen from the disk: which tree is installed, whether success is reported, no staging and no state file left |
| UpdaterNoLoss.AnyFaultsSettle | updater/main.c:151-263 | so it does after any history of faults, from every state of every faulty run, wherever staging and backup lie |
| UpdaterNoLoss.CleanRunInstallsExactly | updater/main.c:211-263 | an undisturbed first run installs the package if and only if it can be unpacked and staging and backup lie apart from the install; otherwise it reports an error and leaves the install alone |
| UpdaterNoLoss.NestedInstallStays | updater/main.c:172-263 | with staging and backup inside the install no faulty run of any length changes the install |
| UpdaterNoLoss.ChangesNothing | updater/main.c:172-263 | the same wherever an update cannot be installed, for a package that cannot be unpacked too |
| UpdaterNoLoss.InterruptedCleanup | updater/main.c:230-241 | after a crash in the middle of error cleanup the next run installs what is left of staging exactly if the state file still says "extracted", and otherwise the whole package |
| UpdaterNoLoss.CleanupReachable | updater/main.c:229-231 | one failed rename leads to such a cleanup, with the whole package staged |
| UpdaterPhases.PhaseOnArrival | updater/main.c:221-257 | on arrival behind each save the state file says "extracted", "install_backed_up" and "installed" respectively, and behind the last removal it is gone |
| UpdaterPhases.BackedUpStays | updater/main.c:235-252 | once it was noted that the install was set aside, no later state says "extracted" until the first save is reached again, whatever fails |
| UpdaterPhases.InstalledStays | updater/main.c:254-257 | the same once it was noted that staging was renamed in |
| UpdaterPhases.CrashInRollback | updater/main.c:245-252 | after a crash anywhere behind a noted swap that failed, cleanup included, the next run installs exactly the whole package |
| UpdaterExtraction.EntryIsThere | libupdate/src/update_extract.c:210-284 | a complete extraction leaves each entry with its content, unless a later entry overwrites or clears it |
| UpdaterExtraction.FoundOrUnpacked | libupdate/src/update_extract.c:210-284 | files found stay as they were unless an entry disturbs them, and nothing else appears |
| UpdaterExtraction.NoTemporaryFile | libupdate/src/update_extract.c:251-281 | a complete extraction leaves nothing under an entry's temporary name |
| UpdaterExtraction.PlainPackageUnpacks | libupdate/src/update_extract.c:210-284 | a package of safe names, none a directory of another, can be unpacked into an empty directory |
| UpdaterExtraction.EmptyIsRoomiest | libupdate/src/update_extract.c:145-174 | a package that can be unpacked over some files can be unpacked into an empty directory |
| UpdaterExtraction.TornTree | libupdate/src/update_extract.c:202-284 | if the package holds a file, an interrupted extraction into an empty directory can leave a tree that is neither the complete one nor any other given one |
| UpdaterExtraction.ShortNameStays | libupdate/src/update_extract.c:255-284 | clearing temporary names never removes all entries as short as the first one, so a package with a file never unpacks to nothing |
| UpdaterCrash.CrashInvStep | updater/main.c:172-263 | where updates can be installed, the crash invariant over all program counters is kept by every step that does not enter FULL beside "extracted" with a package that holds a file |
| UpdaterCrash.CrashSafe | updater/main.c:184-257 | where updates can be installed, crashes only, no such entry: install is the whole old tree, the whole new one or absent, staging is complete whenever it is renamed in, and from every state the next run ends with exactly the new tree |
| UpdaterCrash.StaleEntryInstallsTornTree | updater/main.c:212-229 | from a stale entry whatever an interrupted extraction can leave in an empty directory can end up installed, by one crash |
| UpdaterCrash.TornTreeReported | updater/main.c:254-263 | and the updater then reports success with that tree installed |
| UpdaterCrash.BreaksExactlyWhenStale | updater/main.c:212-219 | a crash run without stale entries so far can be continued to install a broken tree if and only if its last state is a stale entry, the package holds a file, and staging and backup lie apart from the install |
| UpdaterCrash.StaleStartForeseen | updater/update_state.c:176-214 | a stale entry follows exactly from a disk with an install, no staging, no backup and "extracted" saved |
| UpdaterCrash.StaleEntryReachable | updater/main.c:184-229 | three crashes after a fresh start do lead to a stale entry |
| UpdaterMain.FileSystem.RemoveTree | libupdate/src/update_ops.c:474-492 | success removes the whole tree, failure at most a part of it and nothing else |
| UpdaterMain.FileSystem.MovePath | libupdate/src/update_ops.c:494-512 | success is the rename of the whole tree onto a missing or empty target, never into itself or onto a tree it lies in; failure changes nothing |
| UpdaterMain.FileSystem.PlaceEntry | libupdate/src/update_extract.c:220-281 | one entry is checked, cleared, written and renamed; it fails on a reliable disk exactly for an unsafe name or where a file and a directory would share a path, and failure leaves an interrupted placement of that entry |
| UpdaterMain.FileSystem.ExtractPackage | libupdate/src/update_extract.c:176-292 | success is all entries in order over what was there; failure leaves some whole entries and at most one temporary file; on a reliable disk it succeeds exactly for packages that can be unpacked |
| UpdaterMain.FileSystem.MovePart | updater/update_state.c:272-275 | only the rename of the finished file touches the state file |
| UpdaterMain.FileSystem.SaveState | updater/update_state.c:229-278 | written beside the state file, closed, renamed: on every path, failures included, the state file is the old one or the whole new one |
| UpdaterMain.RollBack | updater/main.c:237-242 | the error path after a failed step is a run of the protocol from its undo step |
| UpdaterMain.Abort | updater/main.c:230-232 | error cleanup removes staging before the state file, as a run of the protocol |
| UpdaterMain.Recover | updater/main.c:172-182 | the ROLLBACK branch is a run of the protocol; on a reliable disk it ends where the undisturbed run ends |
| UpdaterMain.Conclude | updater/main.c:184-191 | dropping backup and state file, here and at the end of the other branches, is a run of the protocol from its backup removal; on a reliable disk it ends where the undisturbed run ends |
| UpdaterMain.Commit | updater/main.c:193-209 | the POST_BACKUP branch with its rollback is a run of the protocol from the rename of staging; on a reliable disk it ends where the undisturbed run ends |
| UpdaterMain.SwapTrees | updater/main.c:229-263 | everything from the rename of the install on, with both rollbacks, is a run of the protocol; on a reliable disk it ends where the undisturbed run ends |
| UpdaterMain.InstallStaged | updater/main.c:221-263 | the POST_EXTRACT branch is a run of the protocol from the save of "extracted"; on a reliable disk it ends where the undisturbed run ends |
| UpdaterMain.FullInstall | updater/main.c:211-263 | the FULL branch is a run of the protocol from the clearing of staging; on a reliable disk it ends where the undisturbed run ends |
| UpdaterMain.LoadState | updater/main.c:151-162 | loading, dropping a refused file and deciding reach exactly the resume point of the protocol |
| UpdaterMain.RunUpdater | updater/main.c:151-263 | all of `main` behind its argument checks: the disk goes through a faulty run of the protocol from boot to exit, keeps the recovery invariant, and on a reliable disk ends as the undisturbed run does |
| StateFile.Output.EmitEscaped | updater/update_state.c:217-227 | appends the value in quotes with marks and backslashes escaped |
| StateFile.WriteState | updater/update_state.c:255-265 | writes the five members as the text whose reading `LoadAfterSave` settles |
| StateFile.ReadFile | updater/update_state.c:79-102 | the block-wise loop takes every file shorter than the limit up to its first NUL, and refuses longer ones |
| StateFile.LoadState | updater/update_state.c:52-118 | for any file: its five members, or an error if it is too long or one is missing, malformed or too long |
| StateFile.ValidateState | updater/update_state.c:120-154 | accepts exactly the states whose paths are those of the arguments, valid, and distinct |
| StateFile.PassValue | updater/update_state.c:217-227 | where the search for a quoted key first matches in or behind a written value: behind it, unless the value ends in a mark and the key |
| StateFile.Misled | libupdate/src/json_mini.c:16-49 | a value that ends so hides the member that is searched for |
| StateFile.LoadAfterSave | updater/update_state.c:52-154 | for validated paths and any phase: loading what was saved gives every field back and passes validation, if and only if the installation directory does not end in a mark and one of three keys; otherwise loading fails |
| StateFile.TextFitsReader | updater/update_state.c:79-102 | what is saved never reaches the size limit of the reader |
| StateFile.PlainStateText | updater/update_state.c:255-265 | the very text of the file, with its names and punctuation, for paths that need no escape |
| UpdaterRecovery.SavedIsRead | updater/update_state.c:229-278 | the records of the protocol are what the written state files are read as |
| UpdaterRecovery.PhasesSpelled | updater/update_state.c:229-278 | how the three phases are spelled in the file, and that each is read back as itself |
| UpdaterRecovery.AcceptedExactly | updater/update_state.c:120-154 | a state is accepted if and only if each of its four paths is that of the arguments |
| UpdaterRecovery.OtherArguments | updater/main.c:151-162 | a state saved for one install and package is accepted for another exactly if both are equal, and counts as unusable otherwise |
| UpdaterRecovery.OtherPackageStartsAfresh | updater/main.c:156-161 | a run for another package refuses the state, enters FULL and installs its own package |
| UpdaterRecovery.UnreadableLoses | updater/main.c:151-229 | with an unreadable state file, and an update that can be installed, one crash and a second start leave neither install nor backup |
| UpdaterRecovery.NoLossExactly | updater/main.c:151-263 | for validated arguments: every faulty run loses nothing if and only if the installation directory's name cannot be mistaken for a key or the package cannot be unpacked |
| UpdaterRecovery.InstallsExactly | updater/main.c:112-263 | for validated arguments: an undisturbed first run installs the package if and only if the three directories lie apart and the package can be unpacked; otherwise it fails and no faulty run changes the install |
| UpdaterRecovery.SlashTarget | libupdate/src/update_path.c:181-301 | the validated target `/x/` nests staging and backup, and a first run into it fails |
| UpdaterRecovery.MistakenName | updater/update_state.c:217-278 | there is a validated installation directory that can |
| JsonMini.FindStringValueStart | libupdate/src/json_mini.c:16-49 | finds the first quoted key, its colon and its opening quote, or nothing |
| JsonMini.MeasureValue | libupdate/src/json_mini.c:58-151 | the measuring pass succeeds exactly on well-formed values within the limit and counts their decoded length |
| JsonMini.DecodeValue | libupdate/src/json_mini.c:58-151 | the decoding pass succeeds exactly when value and NUL fit, and stores the same value |
| JsonMini.ExtractString | libupdate/src/json_mini.c:153-174 | the member's decoded value with its NUL, or an error |
| JsonMini.ExtractStringAlloc | libupdate/src/json_mini.c:211-244 | the two passes agree: a value that passes sizing is always decoded in full at that size |
| JsonMini.EscapeDecoded | libupdate/src/json_mini.c:89-140 | what each escape is decoded to: line feed, carriage return, tab, and any other character to itself |
| JsonMini.FindsNotes | libupdate/src/json_mini.c:16-49 | a member is found with any white space around its colon |
| JsonMini.NotesDecoded | libupdate/src/json_mini.c:153-174 | a whole member with every kind of escape and its decoded value |
| HtmlSanitizer.ParseAnchorHref | libupdate/src/update_html.c:464-541 | the scan for the target returns what the specification finds, and reports the turns that would repeat for ever |
| HtmlSanitizer.SanitizeAlloc | libupdate/src/update_html.c:643-814 | the one-pass scanner with bounded stack and bounded buffer computes the specified outcome for every input |
| HtmlRules.ForbiddenElement | libupdate/src/update_html.c:204-217 | for each of seventeen names written out, in any case and with any attributes, element and content contribute nothing at any point of any scan |
| HtmlRules.ForbiddenToTheEnd | libupdate/src/update_html.c:325-332 | without a closing tag everything behind such a tag is dropped |
| HtmlRules.OtherTag | libupdate/src/update_html.c:769-774 | a tag of any other name but ten is dropped alone and its content kept |
| HtmlRules.PlainTag | libupdate/src/update_html.c:219-265 | eight names written out are kept in lower case without attributes, while fewer than 64 tags are open |
| HtmlRules.BreakTag | libupdate/src/update_html.c:774-781 | `br` in any spelling becomes `<br>` |
| HtmlRules.ClosingTag | libupdate/src/update_html.c:702-731 | a closing tag closes the innermost open element if it names it, and is dropped otherwise |
| HtmlRules.LinkTag | libupdate/src/update_html.c:544-573 | a link tag in any spelling is kept with the target found among its attributes, or dropped |
| HtmlRules.OtherAttribute | libupdate/src/update_html.c:464-541 | a quoted attribute of another name is passed over |
| HtmlRules.HrefAttribute | libupdate/src/update_html.c:464-541 | a quoted `href` in any case counts exactly if it is the first that is safe and shorter than 2048 |
| HtmlRules.Link | libupdate/src/update_html.c:345-381 | a link is kept if and only if its target is, after white space, a fragment or begins with one of three schemes written out, and is shorter than 2048 |
| HtmlRules.ScriptTarget | libupdate/src/update_html.c:345-381 | no target with the scheme `javascript:` is kept |
| HtmlRules.TextChar | libupdate/src/update_html.c:383-411 | a character of text is kept, four of them as the entities written out |
| HtmlRules.LoneOpening | libupdate/src/update_html.c:668-799 | a `<` that no name follows is kept as text |
| HtmlRules.Comment | libupdate/src/update_html.c:682-695 | a comment is dropped up to its first `-->` |
| HtmlRules.Declaration | libupdate/src/update_html.c:697-700 | declarations and processing instructions are dropped like tags |
| HtmlRules.ClosingsAppended | libupdate/src/update_html.c:801-806 | at the end of the input what is still open is closed, innermost first |
| HtmlRules.LongInput | libupdate/src/update_html.c:643-666 | inputs of more than 524288 characters are refused |
| HtmlRules.ScriptIsDropped | libupdate/src/update_html.c:757-767 | a whole input with a script and its result |
| HtmlLexer.SkipToTagEnd | libupdate/src/update_html.c:166-202 | stops behind the first `>` outside quotes |
| HtmlLexer.FindCloseTagOpen | libupdate/src/update_html.c:267-289 | finds the first closing tag of that name in any case |
| HtmlLexer.HrefIsSafe | libupdate/src/update_html.c:345-381 | accepts exactly the fragments and the three schemes |
| HtmlGrammar.OutputInGrammar | libupdate/src/update_html.c:643-814 | every accepted output is escaped text, `<br>` and properly nested pairs of the nine tags at most 64 deep; the only attribute is an href whose decoded value is a fragment or an http, https or mailto target shorter than 2048, without NUL |
| HtmlGrammar.AcceptsForest | libupdate/src/update_html.c:544-587 | a printed tree is in that language exactly when its targets are shorter than 2048 |
| HtmlGrammar.ApplyWellFormed | libupdate/src/update_html.c:702-797 | one token keeps the tree of good tags within the depth limit |
| HtmlGrammar.DecodeEscapeAll | libupdate/src/update_html.c:383-411 | decoding the four entities undoes escaping |
| HtmlRoundTrip.ParseAfterPrint | libupdate/src/update_html.c:643-814 | sanitizing the raw printing of any allowed tree gives its printing with texts and targets escaped, whenever that fits, and otherwise an error |
| HtmlRoundTrip.PrintedTwice | libupdate/src/update_html.c:643-814 | sanitizing a printed tree changes nothing but one more escaping of texts and targets, if and only if it fits and its escaped targets are shorter than 2048 |
| HtmlRoundTrip.SanitizeTwice | libupdate/src/update_html.c:643-814 | the same for every accepted output: both directions of the condition |
| HtmlRoundTrip.LongLinkIsDropped | libupdate/src/update_html.c:464-541 | links that are accepted as written, and not kept when their output is sanitized again |
| HtmlErasure.Erasure | libupdate/src/update_html.c:757-767 | at any token boundary, with any open tags, a dangerous element without a closing tag of its own name inside contributes nothing |
| HtmlErasure.ErasureInContext | libupdate/src/update_html.c:267-332 | sanitizing an input with and without the element gives the same, wherever both scans have a token boundary at its place |
| HtmlBoundary.TokenLocal | libupdate/src/update_html.c:668-799 | a token that ends within a text does not depend on what follows the text |
| HtmlBoundary.ScanLocal | libupdate/src/update_html.c:668-799 | where a scan stands at a token boundary depends on nothing behind it |
| HtmlSpec.ScanSplits | libupdate/src/update_html.c:668-799 | the scan can be cut at any token boundary |
| HtmlSpec.NextToken | libupdate/src/update_html.c:668-799 | every turn of the main loop consumes at least one character and never passes the end |
| HtmlTermination.HrefTermination | libupdate/src/update_html.c:464-541 | the search for a target ends if and only if no rest it passes through rests on a blocking character, and then has the specified result |
| HtmlTermination.HangsExactly | libupdate/src/update_html.c:643-814 | an input makes the sanitizer hang if and only if it is within the limits and the scan reaches a link, with fewer than 64 tags open and the output so far fitting, whose search for a target never ends |
| HtmlTermination.SlashHangs | libupdate/src/update_html.c:485-492 | an input that does |
| HtmlBuf.Buf.Ensure | libupdate/src/update_html.c:62-99 | room is made by doubling exactly when the bounded total allows it, contents unchanged |
| HtmlBuf.Buf.Append | libupdate/src/update_html.c:101-110 | appends all or nothing: exactly when length, addition and NUL stay within the limit |
| HtmlBuf.EscapePlain | libupdate/src/update_html.c:589-641 | succeeds exactly when the escaped form fits, and its output decodes back to the input |
| HtmlBuf.PlainIsSanitized | libupdate/src/update_html.c:589-679 | for inputs without `<` the sanitizer and plain escaping agree |
| CommandLine.RoundTrip | libupdate/src/platform_process.c:19-198 | splitting the built line as the C run time does gives back every list of arguments, under either rule for doubled marks, and the program name but for trailing backslashes |
| CommandLine.KeepsArgumentsExactly | libupdate/src/platform_process.c:19-144 | every list of arguments survives if and only if the C run time reads the quoted program name as one piece |
| CommandLine.NoMarkHoldsTogether | libupdate/src/platform_process.c:67-144 | a program name without quotation marks always is |
| CommandLine.WrittenAsIs | libupdate/src/platform_process.c:20-35 | an argument is written as it is if and only if it is not empty and holds none of six characters written out |
| CommandLineShell.ShellRoundTrip | libupdate/src/platform_process.c:19-198 | the round trip under the rule of `CommandLineToArgvW` |
| CommandLineShell.ShellKeepsArgumentsExactly | libupdate/src/platform_process.c:19-144 | under that rule every list of arguments survives if and only if the program name holds no quotation mark |
| CommandLineShell.LoneMark | libupdate/src/platform_process.c:67-144 | a program name that fails under both rules |
| CommandLineBuilder.ArgNeedsQuotes | libupdate/src/platform_process.c:20-35 | exactly the empty argument and those with a blank or a mark are quoted |
| CommandLineBuilder.OneArgLength | libupdate/src/platform_process.c:37-65 | the measuring pass gives the length of the quoted form |
| CommandLineBuilder.AppendOneArg | libupdate/src/platform_process.c:67-144 | the writing pass appends that very form, and fails exactly when it and a NUL do not fit |
| CommandLineBuilder.BuildCommandLine | libupdate/src/platform_process.c:146-198 | a line that passes sizing is always written in full; the error cases are exactly no arguments and a line too long |
| Sha256.FillSchedule | libupdate/src/sha256.c:13-45 | the array holds the message schedule of the block |
| Sha256.Transform | libupdate/src/sha256.c:13-77 | one block in place is the compression of FIPS 180-4, section 6.2.2 |
| Sha256.Context.constructor | libupdate/src/sha256.c:79-95 | the fresh context has absorbed the empty message |
| Sha256.Context.Update | libupdate/src/sha256.c:97-122 | absorbing: the state stands for the whole message so far, whole blocks hashed and the tail buffered |
| Sha256.Context.WritePadding | libupdate/src/sha256.c:124-153 | the padding always fits the 128-byte block and completes the message to that of section 5.1.1 |
| Sha256.Context.Final | libupdate/src/sha256.c:124-166 | the digest is SHA-256 of everything absorbed |
| Sha256.LowBytes | libupdate/src/sha256.c:97-153 | the bit counter may wrap around: its eight bytes are still those of the true length |
| Sha256.DigestOfPieces | libupdate/src/sha256.c:79-166 | however a message is cut into updates, the digest is SHA-256 of the whole |
| Sha256Spec.HashBlocksConcat | libupdate/src/sha256.c:97-122 | hashing block sequences one after the other is hashing their concatenation |
| Sha256Spec.ZeroBytesLeast | libupdate/src/sha256.c:124-145 | the number of zero bytes in the padding is the smallest that completes a block, as section 5.1.1 asks |
| Sha256Vectors.DigestOfAbc | libupdate/src/sha256.c:5-166 | the digest of "abc" is the thirty-two bytes of the published example |
| Sha256TwoBlocks.DigestOfTwoBlocks | libupdate/src/sha256.c:5-166 | so for the published message of two blocks |
| Sha256Constants.SquareRoots | libupdate/src/sha256.c:79-95 | the initial words are the fractional bits of the square roots of the first eight primes |
| Sha256Constants.CubeRoots0 | libupdate/src/sha256.c:15-33 | constants 0 to 7 are the fractional bits of the cube roots of their primes |
| Sha256Constants.CubeRoots1 | libupdate/src/sha256.c:15-33 | constants 8 to 15 are the fractional bits of the cube roots of their primes |
| Sha256Constants.CubeRoots2 | libupdate/src/sha256.c:15-33 | constants 16 to 23 are the fractional bits of the cube roots of their primes |
| Sha256Constants.CubeRoots3 | libupdate/src/sha256.c:15-33 | constants 24 to 31 are the fractional bits of the cube roots of their primes |
| Sha256Constants.CubeRoots4 | libupdate/src/sha256.c:15-33 | constants 32 to 39 are the fractional bits of the cube roots of their primes |
| Sha256Constants.CubeRoots5 | libupdate/src/sha256.c:15-33 | constants 40 to 47 are the fractional bits of the cube roots of their primes |
| Sha256Constants.CubeRoots6 | libupdate/src/sha256.c:15-33 | constants 48 to 55 are the fractional bits of the cube roots of their primes |
| Sha256Constants.CubeRoots7 | libupdate/src/sha256.c:15-33 | constants 56 to 63 are the fractional bits of the cube roots of their primes |
| PackageVerify.ParseSha256Hex | libupdate/src/update.c:160-187 | accepts exactly the trimmed texts of 64 digits in either case, and gives the bytes they spell |
| PackageVerify.HexTextInjective | libupdate/src/update.c:160-187 | different digests have different texts |
| PackageVerify.DigestsEqual | libupdate/src/update.c:189-201 | the accumulated difference is zero exactly for equal digests |
| PackageVerify.HashFile | libupdate/src/update.c:203-240 | the block-wise read loop hashes the whole file |
| PackageVerify.UpdateVerify | libupdate/src/update.c:203-248 | OK exactly when the file is readable and the trimmed text is the hexadecimal SHA-256 of its contents |
| PackageExamples.TextOfAbc | libupdate/src/update.c:203-248 | the accepted text for a file holding "abc", digit by digit |
| ChunkedCoding.DecodeAfterEncode | libupdate/src/http_transport_socket.c:477-528 | any list of chunks in the coding of RFC 9112, section 7.1, is decoded to the concatenation of their data, and what follows is left unread |
| ChunkedCoding.DecodeExtends | libupdate/src/http_transport_socket.c:477-528 | what is decoded is decoded alike with more input behind it |
| ChunkedCoding.DeliveredIsBody | libupdate/src/http_transport_socket.c:477-528 | what the chunks of a stream deliver is, for a stream that decodes, its body |
| ChunkedCoding.TruncationIsNoticed | libupdate/src/http_transport_socket.c:477-528 | no proper prefix of a coded message is ever accepted |
| ChunkedCoding.EndsBodyExactly | libupdate/src/http_transport_socket.c:494-500 | a size line ends the body exactly when no digit read from it differs from zero, a line without digits included |
| ChunkedCoding.DamagedSizeLineIsTheEnd | libupdate/src/http_transport_socket.c:490-500 | so a damaged size line cuts the body off there, and the result is accepted |
| ChunkedCoding.DamagedSizeLine | libupdate/src/http_transport_socket.c:494-500 | an input whose second chunk is lost in this way |
| ChunkedCoding.LineIs | libupdate/src/http_transport_socket.c:428-446 | a line is taken exactly if it has at most 93 characters in front of its end |
| HttpResponse.HexIsRead | libupdate/src/http_transport_socket.c:494 | a size in hexadecimal digits of either case is read as itself |
| HttpResponse.NumberIsRead | libupdate/src/http_transport_socket.c:494 | sign and prefix are passed over, a minus sign wraps around, and numbers of 2^64 and more saturate |
| HttpResponse.FirstBlank | libupdate/src/http_transport_socket.c:237-239 | the first empty line is the one behind the header lines, whatever follows |
| HttpResponse.WholeResponse | libupdate/src/http_transport_socket.c:838-964 | any header lines, the empty line, pieces with their sizes in hexadecimal and the last chunk, all with their line ends written out, give the content of the pieces |
| HttpBody.Connection.Recv | libupdate/src/http_transport_socket.c:104-122 | delivers any non-empty piece of what is still to come, or tells the end from a broken connection |
| HttpBody.Source.Read | libupdate/src/http_transport_socket.c:152-182 | fills the request from prefix and connection however they are cut, short only at the end of the stream |
| HttpBody.ReadLine | libupdate/src/http_transport_socket.c:428-446 | takes exactly the first line, and fails exactly when none ends within 95 characters |
| HttpBody.File.Write | libupdate/src/http_transport_socket.c:510-512 | writes all, or a part and reports an error |
| HttpBody.ReadBodyChunked | libupdate/src/http_transport_socket.c:477-528 | success means that the stream decodes, that exactly the body was written, and that reading stopped exactly behind it; failure has written a prefix of what the stream delivers; while no write fails, every stream that decodes succeeds |
| HttpBody.ReadBodyChunkedMem | libupdate/src/http_transport_socket.c:752-805 | the memory version agrees with it and succeeds exactly up to 512 KiB |
| HttpBody.Memory.Grow | libupdate/src/http_transport_socket.c:186-204 | doubling keeps the contents and at most doubles what is needed |
| HttpBody.Memory.Append | libupdate/src/http_transport_socket.c:186-210 | appends the piece and a NUL |
| HttpBody.Memory.AppendBounded | libupdate/src/http_transport_socket.c:710-719 | the same, failing exactly beyond the limit |
| HttpBody.ReadHeaders | libupdate/src/http_transport_socket.c:212-245 | loses no byte, finds the empty line that the whole stream has, and must find it when it lies 2047 bytes within the limit |
| HttpBody.HeaderEndExtends | libupdate/src/http_transport_socket.c:237-239 | where the headers end does not depend on how much of the body came along |
| HttpBody.ResponseDecodes | libupdate/src/http_transport_socket.c:684-705 | a response of headers, chunks and end is decoded to the data of its chunks |
| HttpBody.FetchChunked | libupdate/src/http_transport_socket.c:838-964 | whatever pieces the connection delivers, the fetched body is the decoding of what follows the first empty line |
| TreeImage.CopyAfterFailures | libupdate/src/update_ops.c:371-392 | a copy that succeeds after unfinished ones leaves what it would have left at the first try |
| TreeImage.OverlaidTwice | libupdate/src/update_ops.c:295-367 | copying some entries and then others is copying all of them, in any order |
| TreeImage.FitsAlike | libupdate/src/update_ops.c:295-367 | whether an entry can be copied is not changed by copying others |
| TreeImage.PlainCopy | libupdate/src/update_ops.c:371-392 | a plain copy is the override of one tree by the other |
| TreeImage.MergeKeeps | libupdate/src/update_ops.c:456-472 | after a merge every staged file is at its target, files of the backup and of the install that staging does not supply survive, nothing else appears, and no updater's own file comes from staging |
| TreeImage.StagedNames | libupdate/src/update_ops.c:167-200 | after a merge a staged `updater.exe` is at `updater_new.exe`, a staged `updater` at `updater_new`, in any case, and every other file at its own name |
| TreeImage.MergeAfterFailures | libupdate/src/update_ops.c:439-472 | a merge after any number of partly failed merges gives the tree of a first-try success |
| Overlay.FileSystem.MakeDir | libupdate/src/platform_fs.c:500-554 | makes the path and those above it, and fails on a reliable disk exactly when one of them is a file or the name is too long |
| Overlay.FileSystem.CopyFileOnce | libupdate/src/update_ops.c:83-120 | success is the whole content at the target; failure disturbs the target at most |
| Overlay.FileSystem.CopyFileRetries | libupdate/src/update_ops.c:122-135 | the same over eight tries, the removal between them letting a file replace an empty directory |
| Overlay.DestinationLeaf | libupdate/src/update_ops.c:151-200 | only the two updater names, in any case, are renamed |
| Overlay.CopyTree | libupdate/src/update_ops.c:295-367 | success, in any listing order, is the override by the renamed subtree; failure disturbs targets and new directories only; on a reliable disk it fails only on type conflicts or names too long |
| Overlay.CopyTreeRetries | libupdate/src/update_ops.c:371-437 | a success among eight tries gives the tree of a first-try success |
| Overlay.RecreateInstall | libupdate/src/update_ops.c:439-454 | the install overridden by the backup |
| Overlay.MergeInstall | libupdate/src/update_ops.c:456-472 | on success exactly the merge; on failure nothing but what a later merge repairs; on a reliable disk success exactly when both sources exist, names fit and types do not conflict |
| Paths.RejectsDotSegments | libupdate/src/update_path.c:58-89 | rejects exactly the paths with a segment `.` or `..` |
| Paths.ValidatePath | libupdate/src/update_path.c:181-213 | accepts exactly the paths that are not empty, shorter than 4096, free of control characters and dot segments, and absolute where that is asked |
| Paths.ValidateInstallPaths | libupdate/src/update_path.c:251-301 | accepts exactly when package and install paths are valid and staging, backup and state path are the install path with its three suffixes and valid too |
| Paths.EntryNameSafe | libupdate/src/update_extract.c:67-118 | accepts exactly the names that are not empty, do not begin with a separator, hold neither `../` nor `..\`, and have no dot segment |
| Paths.PathUnderDestPrefix | libupdate/src/update_extract.c:33-65 | compares the joined path with the stripped destination and a separator |
| Paths.SegmentsOfJoin | libupdate/src/update_extract.c:120-134 | the segments of a joined path are those of its parts, under both readings of the backslash |
| Paths.NestedExactly | libupdate/src/update_path.c:251-301 | for validated arguments staging and backup lie below the install if and only if it is spelled with a slash at its end; otherwise the three lie apart |
| Paths.LeadsToItsSegments | libupdate/src/update_path.c:58-89 | a validated path, resolved, leads to where its segments say |
| Paths.EntriesStayBelow | libupdate/src/update_extract.c:67-134 | the joined path of an accepted name leads to the destination and at least one segment further down, whether or not backslashes separate, and the prefix check always accepts it |
| PathNames.SafeNameExactly | libupdate/src/update_extract.c:67-118 | a name is accepted if and only if it has a segment, none is `.` or `..`, and none but the last ends in two dots |
| PathNames.ValidPathExactly | libupdate/src/update_path.c:181-213 | a rooted path is valid if and only if it is shorter than 4096, without control characters and dot segments |

## Left out

- HtmlSanitizer.SanitizeAlloc: where `parse_anchor_href` would repeat a turn for ever (`libupdate/src/update_html.c:485-492`) the model returns the outcome `Hangs` instead; the properties of outputs are about the inputs on which the original returns. Outputs are sequences of characters; a caller who reads one as a C string sees it up to the first NUL that the input held.
- HtmlRoundTrip.SanitizeTwice: what the second pass makes of an output with a longer target is not described any further; a dropped link's closing tag may close an outer link.
- CommandLine.RoundTrip: asks for a program name without quotation marks, as Windows file names are; `KeepsArgumentsExactly` and `CommandLineShell.ShellKeepsArgumentsExactly` give the condition for all names under either reading of the name.
- UpdaterCrash.CrashSafe: asks that the package can be unpacked and the trees lie apart, and that FULL is not entered beside "extracted" with a package that holds a file; `BreaksExactlyWhenStale` and `UpdaterRecovery.InstallsExactly` show these to be exact.
- The package is taken to lie outside the three trees and to stay as it is. Validation also accepts a package inside the install; it leaves with the backup, and a FULL run that is entered again after that cannot extract it.
- HttpBody.FetchChunked: models a response with status 200 and the chunked coding; a header block that ends within 2047 bytes of the 256 KiB limit is accepted or not as its pieces fall, and both are allowed.
- HttpBody.ReadBodyChunked: how much has been written when the reader fails is not stated; the caller deletes the file. `size_t` is taken to hold 64 bits.
- Overlay.MergeInstall: the equation asks that no two staged files share a target and no target is a staged directory (`TreeImage.NoCollision`); with such a collision two entries compete for one place. Sources are taken to lie apart from the install and not to change meanwhile, and `stat` on a source to be reliable. `copy_file_once` ignores the result of `fclose`; writing is taken to be complete then.
- Overlay.CopyTree: file modes, symbolic links and special files are not modelled.
- StateFile.LoadState: the growing buffer that the blocks are read into, and read errors, are not modelled.
- UpdaterMain.FileSystem.SaveState: `fclose` is taken to report a failed write.
- UpdaterMain.FileSystem.ExtractPackage: trees are maps of files by their paths as spelled, so directories without files, and two spellings of one path, are not told apart; encrypted entries, path lengths, symbolic links and modes are not modelled.
- Overlay.FileSystem.MakeDir: directories above the root, which the source makes too, lie outside the model.
- UpdaterMain.RunUpdater: waiting for the parent, building the application path and relaunching are outcomes given as parameters; the argument checks of `main` are part of `Paths` and not repeated. Renames are atomic, directory tests are reliable, every run has the same arguments, and only one updater runs.
- Overlaying inside the updater: `README.md:11` says the updater overlays staging on the install and swaps `updater_new`; `updater/main.c` never calls the merge, so merge and updater are modelled separately, as the code has them.
- Sockets, TLS, name resolution, WinHTTP, URL parsing, status and header fields, and the bodies with a length or read until close: wrappers, or easier cases of the same source.
- miniz: an archive is its list of file entries.
- Failing allocations, and wrap-around of buffer sizes, which the input limits rule out.
- Windows file-system variants, drive letters, reserved names, and the best-effort copy, which has no clean tree equation.
- `json_mini_extract_string_opt`: it is the same search with another answer for a missing key.
- Process creation, waiting and sleeping, the global context and its lock, version and manifest parsing, argument parsing.
