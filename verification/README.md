# Verification of the hook engine, the INI store and their neighbours

This project models five parts of the repository in Dafny and proves properties of them.

- **The hook engine** (`common/HDE/`, `common/memory.c`). `hde64_disasm` measures x86-64 instructions with a
  compressed table. `GetInstructionSize` walks whole instructions, `CreatePrologueHook` copies them into a pad of
  executable memory and appends a jump back, `WriteJump32`, `WriteJump64` and `Make32to64Jmp` write branches, and
  `PatternScan` finds the places to patch. The main results are that calling a copied prologue does what the
  original instructions did, at the end of any run of hooks and patches (`HdeHooks`, `HookRuns`, `Trampoline`);
  that the pad keeps its layout over every run (`CodeCave`); that every redirected source reaches its own target
  through its own island over every run (`Islands`); that both hold together, and what such a run leaves alone, when
  hooks and redirections are mixed (`Engine`, `HookFrames`); and that decoding is decided by the consumed bytes
  alone (`DecoderLaws`) and reports exactly what the bytes and the table say (`RecordLaws`, `ErrorLaws`).
- **The INI store** (`common/ini.c`) and the settings that use it. The main results are the round trip of printer
  and parser (`IniRoundTrip`), what lines written by hand say (`IniLines`), the meaning of a parsed text
  (`IniMeaning`), the linked lists refining a map from pairs of names to values (`IniStore`, `IniValues`), and
  settings that persist over every run although every saved cycle reverses the order of the file (`Persistence`).
- **Bounded text rewriting** (`str_replace`), in `StrReplace`.
- **The log broadcaster** (`serve_file_while_connected`), in `Broadcast`; who is served and for how long, in
  `BroadcastLaws`.
- **The string hash** (`common/stringid.h`), in `StringId`.

Memory is a sequence of bytes, a C string the characters in front of its terminator, a file the text that is
read or written. Code that changes state step by step is written as methods with loops over arrays, linked nodes and
fields; each is proved equal to a function of its inputs or of the state before, and the laws are lemmas about
those functions. Narrow characters are signed and wide ones have 16 bits without a sign, as the x86-64 target
and `-fshort-wchar` (`plugin_mono/Makefile:22`) make them. A decoder is a function value, so that what the pad needs
of it (`Decoders.Sound`) is stated once and proved of `hde64_disasm` for every table whose rows stay inside it.

Where the code and its intent differ, the code is followed:

- The capacity check of `CreatePrologueHook` counts the six bytes of the jump but not the eight of the return
  address (`common/memory.c:625`), so the pad may be overrun by up to eight bytes. `CodeCave.HookStaysInside`
  gives the exact condition of one hook, `HdeHooks.OverrunIsReached` that of a run for every capacity, and
  `HdeHooks.BuildPadIsOverrun` a run that overruns the pad of 4096 bytes that the build makes.
- A target whose bytes contain the start of a padding lets a later island overlap the one that was written for it;
  `Islands.SafeTargetIsExact` says which targets these are. Addresses below 2^48 are not among them.
- A comment mark is searched for in the whole line that was printed, so a value with a mark outside quotation marks
  is lost (`common/ini.c:32-62`). `IniRoundTrip.KeyLineReads` gives the exact condition.
- A value as long as the caller's buffer is copied without a terminator (`settings_menu.c:401`), see
  `Persistence.ZeroedBufferHolds`.
- A sixteenth prefix byte is taken for the opcode (`common/HDE/HDE64.c:21-58`), and the address-size prefix selects
  16-bit addressing forms (`common/HDE/HDE64.c:332-356`).
- The token `ff` of a signature matches every byte (`common/memory.c:78-79`).
- A loaded section drops the comments that wait before it (`common/ini.c:244-254`).
- A read of a missing setting stores `0` and delivers the empty string (`settings_menu.c:398-406`).
- The comment search tries the semicolon on the whole line before the hash, and an indented heading is cut at its
  first character before it is trimmed (`common/ini.c:225-298`): `IniLines.SemicolonCutsFirst`,
  `IniLines.IndentedHeadingReads`.
- A timeout of `select` is followed by the test of the connection counter, so a service that nobody has joined
  ends at its first timeout (`plugin_server/source/klog.c:83-84`).

## Model

| member | source | states |
|---|---|---|
| Table64.TableRowsStayInside | common/HDE/Table64.h:44-81 | the real table has 529 bytes, and the rows of its prefix table, which is the last one read through rows, stay below the LOCK tables |
| Table64.LookupsStayInside | common/HDE/HDE64.c:102-164 | in every such table the lookups of opcodes, prefixes, group pairs and FPU forms stay inside their parts of the table |
| TableLaws.TableRegionsSound | common/HDE/Table64.h:44-81 | the real table has sound regions: rows lead into the flags region, group references to known pairs, and no entry asks for both an 8-bit immediate and a short branch |
| TableLaws.LookupsStayInRegion | common/HDE/HDE64.c:102-123 | in a table with sound regions every opcode lookup lands in the flags region and every group lookup on a group pair |
| Disassembler.SkipPrefixes | common/HDE/HDE64.c:19-58 | the prefix loop computes the leading prefix bytes, at most 15, and leaves the pointer behind the first other byte |
| DecoderLaws.RexAccounting | common/HDE/HDE64.c:58-82 | behind the prefixes one byte is consumed, and one more exactly when F_PREFIX_REX is set; no operand or immediate is announced yet |
| DecoderLaws.OpcodeAccounting | common/HDE/HDE64.c:58-132 | after the opcode the bytes consumed are the prefixes, the REX prefix if it is flagged, and one opcode byte or two behind 0f, whatever the table says |
| Disassembler.FetchOpcode | common/HDE/HDE64.c:60-132 | prefixes, REX and opcode bytes together are what the grammar reads |
| Disassembler.CheckLock | common/HDE/HDE64.c:166-203 | the stride-two search lands on the end of its region when nothing matches; LOCK is accepted exactly for a listed opcode and register with a memory operand |
| Disassembler.CheckMemoryOnly | common/HDE/HDE64.c:258-286 | the stride-three search lands on the end of its region when nothing matches; it decides whether a register operand is forbidden |
| Disassembler.CheckOperand | common/HDE/HDE64.c:205-313 | the operand error of moves to control, debug and segment registers, of memory-only and of register-only opcodes, and the mode that control and debug moves force |
| Disassembler.CheckOperands | common/HDE/HDE64.c:142-317 | all errors of an operand byte: group member, FPU form, LOCK, operand |
| DecoderLaws.OperandsAccounting | common/HDE/HDE64.c:134-391 | ModRM, SIB and displacement consume as many bytes as the flags they set announce |
| Disassembler.FetchForm | common/HDE/HDE64.c:134-356 | the fields of the ModRM byte, its errors and the immediates that opcodes f6 and f7 add |
| Disassembler.FetchModRm | common/HDE/HDE64.c:134-386 | ModRM, SIB and displacement are read as the grammar says, the look-ahead byte consumed only as a SIB byte |
| Disassembler.FetchImmediates | common/HDE/HDE64.c:393-448 | the immediates and relative branches are read in the order of the source, including the jumps between its cases |
| DecoderLaws.ClampLimits | common/HDE/HDE64.c:450-458 | the length of a count of 1 to 39 bytes is the count cut at 15, and the two flags of a length error are added exactly when it is cut |
| Disassembler.Disassemble | common/HDE/HDE64.c:13-459 | the pointer-driven decoder computes exactly the function that all laws are about, for every table and every memory |
| DecoderLaws.SelfDelimiting | common/HDE/HDE64.c:13-459 | every buffer that shares the consumed bytes decodes to the same record, despite the peek after REX and the look-ahead after ModRM |
| DecoderLaws.LengthAccounting | common/HDE/HDE64.c:319-458 | the unclamped count is prefixes, REX, opcode bytes, ModRM, SIB and the displacement and immediate sizes that the flags name |
| DecoderLaws.LengthLimit | common/HDE/HDE64.c:450-458 | the count is at most 39, so its eight bits never wrap; the length is the count cut at 15; F_ERROR_LENGTH is set exactly when it was cut |
| DecoderLaws.CleanLength | common/HDE/HDE64.c:450-458 | a decode without error reports exactly the bytes it consumed, 1 to 15 of them |
| DecoderLaws.ParseAdvances | common/HDE/HDE64.c:13-450 | every decode consumes at least one byte and at most 39 |
| TableLaws.Hde64Lengths | common/HDE/HDE64.c:319-458 | both length laws for the real table, without assumptions, for every byte stream |
| RecordLaws.PrefixesShow | common/HDE/HDE64.c:19-58 | for every table and memory: the prefixes are the leading bytes of the eleven kinds, sixteen at most; p_rep and p_seg hold the last of their kinds, the other fields and all prefix flags say whether there is one |
| RecordLaws.OpcodeShows | common/HDE/HDE64.c:60-98 | the byte behind the prefixes is a REX prefix exactly from 40 to 4f, its low bits are W, R, X and B; opcode and opcode2 are the bytes behind it |
| RecordLaws.RecordShows | common/HDE/HDE64.c:102-448 | with the byte that the table names for the opcode: F_MODRM is its lowest bit and modrm the byte behind the opcode; F_SIB exactly for rm 4 in a memory mode, control and debug moves having none; F_DISP8 exactly in mode 1, F_DISP16 and F_DISP32 exactly for their modes, rm fields, SIB bases and the 67 prefix, disp the number that follows; F_IMM8, F_IMM16, F_IMM32, F_IMM64 and F_RELATIVE exactly by its bits, the groups f6 and f7, the 66 prefix and REX.W |
| RecordLaws.ImmediateShows | common/HDE/HDE64.c:393-448 | imm is the little-endian number that stands behind the operands, or a byte stored over a word if both are there |
| ErrorLaws.ErrorsShow | common/HDE/HDE64.c:102-317 | F_ERROR_OPCODE exactly for a doubled REX prefix, an opcode without entry, a forbidden prefix, a missing group member or FPU form; F_ERROR_LOCK exactly for LOCK without a memory operand of a listed instruction; F_ERROR_OPERAND exactly for the listed operands; F_ERROR for each |
| KnownCode.MovDecodes | common/HDE/HDE64.c:347-349 | with the real table 8b 45 and a byte is an instruction of three bytes without error, with that byte as its displacement |
| Decoders.HdeIsSound | common/HDE/HDE64.c:13-459 | the decoder is sound for the hook engine: clean lengths are 1 to 15 and the instruction's own bytes decide it |
| StubLaws.StubDecodes | common/memory.c:116-118 | ff 25 followed by four bytes decodes as a clean six-byte form with ModRM mode 0, register 4, rm 5 and that displacement |
| CodeCave.GetInstructionSize | common/memory.c:558-582 | the loop terminates and returns the size of the fewest whole instructions covering the minimum, or 0 if one of them has an error or the address is null |
| CodeCave.SizeIsLeast | common/memory.c:558-582 | the size is 0 if and only if an instruction with an error starts before the minimum is covered; otherwise it is the least instruction boundary at or beyond the minimum, below minimum + 15 |
| CodeCave.HookReturns | common/memory.c:608-643 | a hook returns the next free place of the pad if the address is not null, the minimum is at least 5, the instructions can be walked and they and the jump fit the rest of the pad, and 0 otherwise |
| CodeCave.HookWrites | common/memory.c:626-642 | at the address it returns it leaves the instructions, ff 25 00 00 00 00 and the address behind the original ones, and changes no other byte |
| CodeCave.RefusalChangesNothing | common/memory.c:617-625 | a refused hook leaves memory and bytes in use as the filled pad has them |
| CodeCave.InitFills | common/memory.c:586-607 | the pad is filled with cc once, and nothing else changes, but for the check routine where it is longer than the pad |
| CodeCave.HookStaysInside | common/memory.c:608-625 | no hook ends more than 8 bytes past the pad, and a hook stays inside it exactly when there is room for code, jump and return address |
| HdeHooks.HooksTakeRoom | common/memory.c:586-643 | of n hooks of a six-byte jump through memory in a fresh pad of any capacity the first (capacity + 8) / 20 are made and take 20 bytes each, and the others are refused |
| HdeHooks.OverrunIsReached | common/memory.c:625 | so n such hooks overrun the pad if and only if capacity modulo 20 is at least 12 and n is greater than capacity / 20 |
| HdeHooks.BuildPadIsOverrun | build.sh:4 | with hde64 the pad of 4096 bytes that the build makes is not overrun by 204 such hooks, and 205 of them end 4 bytes behind it |
| CodeCave.CaveInvariant | common/memory.c:586-643 | after any run of successful and refused hooks and of writes outside the pad: the blocks follow one another from the start of the pad, each is still its instructions, the jump and the return address, the bytes in use are their sum and at most capacity + 8, and the rest is the fill |
| CodeCave.BlocksAreDisjoint | common/memory.c:627-640 | blocks lie in the order they were made and do not overlap |
| Process.HookEngine.CaveBlockInit | common/memory.c:586-607 | the pad gets its check routine and then its fill the first time, and is left alone afterwards |
| Process.HookEngine.AppendBlock | common/memory.c:626-642 | the three writes put instructions, jump and little-endian return address at the next free place |
| Process.HookEngine.HookIntoCave | common/memory.c:620-643 | a hook is refused for a null address, a minimum below 5, unmeasurable code or a full pad, and changes nothing then; otherwise it appends its block |
| Process.HookEngine.CreatePrologueHook | common/memory.c:617-643 | the method on process memory is the transition that the run invariant is about; it returns pad base + bytes in use if the code can be hooked, and 0 otherwise |
| Trampoline.SameBoundaries | common/memory.c:633 | a copy of code splits into instructions at the same boundaries as the code |
| Trampoline.CopyDoesTheSame | common/memory.c:633 | a copy of relocatable instructions does what the originals do, for every meaning of instructions |
| Trampoline.BlockJumpsBack | common/memory.c:634-635 | the jump at the end of a block goes to the instruction behind the copied ones |
| Trampoline.TrampolinePreservesMeaning | common/memory.c:617-643 | running the block at its address reaches address + size in the state in which the original instructions do, one step later, or leaves them for the same place in the same state |
| Trampoline.WholeRunIsPreserved | common/memory.c:617-643 | from there on both runs stay together for as long as they run through shared code, the block's run one step behind |
| HookRuns.HookTakesWholeInstructions | common/memory.c:617-643 | a hook copies the fewest whole instructions that cover the minimum, byte for byte |
| HookRuns.BlockSurvives | common/memory.c:617-643 | a block, once made, is intact at the end of every run |
| HookRuns.EveryHookPreservesMeaning | common/memory.c:617-643 | at the end of every run of hooks and patches a run from the address that a hook returned still does what the hooked code did before it |
| HookRuns.EveryHookRunsOn | common/memory.c:617-643 | the same for the function as a whole: for any number of further steps both runs agree, as long as they stay in code that the run of hooks and patches did not change |
| HookRuns.LongPatchSparesReturn | common/memory.c:120-129 | the 14-byte redirection of a function hooked with a minimum of at least 14 touches no byte from the return address on, and goes to its target |
| HookRuns.ShortPatchSparesReturn | common/memory.c:95-114 | so does a redirection of minimum length, which reads back as its target if and only if the displacement fits 32 bits |
| HdeHooks.Hde64ShowsJumps | common/memory.c:116-118 | the real table shows every jump through memory as relative to the instruction pointer |
| HdeHooks.PositionIndependentIsCopyable | common/memory.c:617-643 | instructions that the decoder's flags show position independent can be copied |
| HdeHooks.HdeHookPreservesMeaning | common/memory.c:617-643 | the same with hde64 as the decoder and its flags as the only condition on the copied code |
| HdeHooks.HdeHookRunsOn | common/memory.c:617-643 | the same for the function as a whole: a run from the returned address, for any number of steps through code that no hook or patch changed |
| HookFrames.RunFrame | common/memory.c:586-643 | a run of hooks and patches changes the pad and what its patches cover, and no other byte |
| HookFrames.FunctionSurvivesRun | common/memory.c:617-643 | the whole-function law with a condition on the memory before the hook alone: the code run behind the copied instructions lies clear of the pad and of everything patched from then on |
| Engine.EngineKeepsInvariant | common/memory.c:116-175 | over every run that mixes hooks, two-hop branches, long jumps and other patches: the pad stays laid out, every link and every long jump stands, islands are disjoint, and all of them are off the pad; that later islands spare the long jumps is proved, not asked for |
| Engine.EngineFrame | common/memory.c:586-643 | such a run changes the pad, the patched ranges, the long jumps, and the sources and islands of the links it makes, and no other byte |
| Engine.FunctionSurvives | common/memory.c:617-643 | the whole-function law for such runs |
| Engine.NewJumpStands | common/memory.c:120-129 | a long jump written now stands at the end of every run that goes on from there |
| HdeHooks.HdeReplacementAndOriginal | plugin_mono/source/shellui_patch/settings_menu.c:821-832 | a prologue hook followed by a two-hop branch at the same entry, in any such run: the entry branches to the island exactly if it is in reach, the island jumps to the replacement, and a run from the address that the hook returned runs the function as it was |
| HdeHooks.HdeDetourAndOriginal | plugin_mono/source/shellui_patch/settings_menu.c:339-343 | a prologue hook followed by a 14-byte jump at the same entry, in any such run: the entry jumps to the replacement, and a run from the address that the hook returned runs the function as it was |
| Branches.WithJump64IsJump | common/memory.c:116-129 | what WriteJump64 leaves is an indirect jump whose operand is the target, and no other byte changes |
| Branches.Jump64Goes | common/memory.c:116-129 | such a jump goes to its target |
| Branches.WithJump32Holds | common/memory.c:93-109 | after WriteJump32 the opcode and displacement are at the source, the rest up to the length is 90, and no other byte changes |
| Branches.Jump32RoundTrip | common/memory.c:93-155 | reading the branch back gives the target if and only if the displacement fits a signed 32-bit number, under 64-bit wrap-around |
| Branches.WithJump32Refuses | common/memory.c:97-100 | nothing is written for a null address or a length below 5 |
| Process.HookEngine.WriteJump32 | common/memory.c:95-109 | nothing is written for a null address or a length below 5; otherwise the fill and the branch |
| Process.HookEngine.WriteJump64 | common/memory.c:120-124 | the stub and the target are written |
| Process.HookEngine.Make32to64Jmp | common/memory.c:157-175 | a request is served exactly if the text is not null and holds a match of either padding; the old target is read before the source is overwritten; source and island are then linked |
| PatternScan.ReadsItem | common/memory.c:30-42 | where a hexadecimal byte or a wildcard stands in a signature, one token reads exactly it and the character behind it |
| PatternScan.PatternToByte | common/memory.c:22-45 | the array holds the bytes that the signature's tokens stand for |
| PatternScan.Compare | common/memory.c:76-84 | the inner loop decides whether every byte but the wildcards agrees |
| PatternScan.Scan | common/memory.c:57-91 | the scan returns what the declarative search finds, and 0 for a null base, an empty module and an unusable signature |
| PatternScan.ScanFindsLeast | common/memory.c:57-91 | below the address limit: the result is base + i + offset for the least matching i; it is 0 exactly for a null base, an empty pattern or one of 512 bytes or more, or no match |
| PatternScan.SignatureRoundTrip | common/memory.c:22-45 | rendering any list of hex bytes and wildcards with single spaces and parsing it gives the list back, wildcards as ff |
| PatternScan.LiteralSignature | common/memory.c:159-162 | the printed form of fixed bytes parses to those bytes |
| PatternScan.SpacedByteReads | common/memory.c:30-42 | blanks in front of a byte are skipped |
| PatternScan.BlankBeforeWildcardReads | common/memory.c:30-42 | but a blank in front of a wildcard is read as a zero byte |
| Islands.IslandIsFound | common/memory.c:160-163 | an island is found exactly if the text is not null and one of its addresses matches a padding; it is the least match of the first kind plus 2 or, without any, the least match of the second kind plus 1 |
| Islands.Padding1SparesIslands | common/memory.c:157-175 | the island of a match of the first padding pattern never overlaps a written island with a safe target |
| Islands.Padding2SparesIslands | common/memory.c:157-175 | the island of a match of the second padding pattern never overlaps a written island with a safe target |
| Islands.NewIslandIsApart | common/memory.c:157-175 | a newly found island is disjoint from every written one with a safe target |
| Islands.LowTargetIsSafe | common/memory.c:157-175 | targets below 2^48 are safe: no padding starts inside their bytes |
| Islands.SafeTargetIsExact | common/memory.c:157-175 | a target is safe if and only if there is no memory in which its written island overlaps the island of a padding that still matches |
| Islands.IslandsInvariant | common/memory.c:157-175 | after any run of requests with separate sources and safe targets, every served source branches to its own island, every island jumps to its own target, and islands are pairwise disjoint |
| Islands.LinkGoesToTarget | common/memory.c:95-175 | two steps from a linked source lead to its target |
| CStrings.TrimWhitespace | common/ini.c:8-30 | the pointer loops return the text without leading and trailing white space |
| IniFiles.FindComment | common/ini.c:32-62 | the first comment mark ends the line unless a quotation is open there, escaped quotes not counting |
| IniFiles.ParseLine | common/ini.c:209-298 | what a line says: remark, empty line, section, pair or nothing, with fields cut at their limits |
| IniLines.PairLineReads | common/ini.c:260-298 | however it is spaced, blanks or none around key, equals sign and value, a line without marks reads as that key and value |
| IniLines.PairWithCommentReads | common/ini.c:32-62 | so it does with a comment behind either mark, which is kept |
| IniLines.SemicolonCutsFirst | common/ini.c:266-270 | a semicolon cuts the line even behind a hash, which then stays in the value |
| IniLines.QuotedPairReads | common/ini.c:40-58 | a quoted value is read whole, marks and all |
| IniLines.EscapedQuoteCuts | common/ini.c:44-54 | an escaped quote opens no quotation, so a mark behind it cuts the line |
| IniLines.HeadingLineReads | common/ini.c:225-258 | a heading reads as the trimmed name in its brackets, whatever follows them |
| IniLines.HeadingWithCommentReads | common/ini.c:225-258 | so it does with a comment behind either mark, which is kept |
| IniLines.IndentedHeadingReads | common/ini.c:227-239 | an indented heading keeps its opening bracket in the name |
| IniLines.RemarkLineReads | common/ini.c:214-218 | a line that starts with either mark is a remark with the trimmed text behind it |
| IniLines.EmptyLineReads | common/ini.c:220-223 | a blank line is an empty remark |
| IniLines.NoPairReads | common/ini.c:260-263 | any other line without an equals sign says nothing |
| IniFiles.ReadChunk | common/ini.c:207-209 | what one fgets takes and where it is cut |
| IniLines.LineIsTaken | common/ini.c:207-209 | a line that fits the buffer ends at its newline, with or without a carriage return |
| IniLines.LastLineIsTaken | common/ini.c:207-209 | the last line needs no newline |
| IniLines.LongLineIsSplit | common/ini.c:207-209 | a line that does not fit is read in pieces of 1023 characters |
| IniFiles.StoreLine | common/ini.c:214-298 | storing a line in the linked lists is adding it to the contents they stand for |
| IniFiles.IniLoad | common/ini.c:178-305 | the parse loop builds the lists that the text stands for |
| IniFiles.PrintComments | common/ini.c:351-363 | comments are printed one to a line, empty ones as empty lines |
| IniFiles.PrintKeys | common/ini.c:391-417 | the loop over the key nodes prints their lines in list order |
| IniFiles.PrintSections | common/ini.c:365-421 | the loop over the section nodes prints headings, keys and an empty line each |
| IniFiles.IniSave | common/ini.c:338-426 | the written text is the printed contents; the contents stay and are no longer marked modified |
| IniLines.PrintsCommented | common/ini.c:351-421 | the text of a file with a comment at every place, piece by piece |
| IniLines.PrintsBare | common/ini.c:351-421 | the text of a file without comments |
| IniStore.SectionNode.FindKey | common/ini.c:145-157 | the first node with the key, or null if there is none |
| IniStore.SectionNode.CreateKey | common/ini.c:159-176 | a fresh node is linked in front, its name cut at the field limit, the list staying acyclic |
| IniStore.SectionNode.DeleteKey | common/ini.c:552-575 | the first node with the key is unlinked and no other is lost |
| IniStore.IniFile.FindSection | common/ini.c:112-124 | the first section with the name, or null if there is none |
| IniStore.IniFile.CreateSection | common/ini.c:126-143 | a fresh section is linked in front, all others as they were |
| IniStore.IniFile.IniGet | common/ini.c:428-448 | the value of the first such key in the first such section |
| IniStore.IniFile.IniSet | common/ini.c:455-493 | the lists stand for the contents with the pair set, cut to its fields; everything else is unchanged |
| IniStore.IniFile.IniDeleteKey | common/ini.c:539-576 | the lists stand for the contents without that key; reports whether there was one |
| IniStore.IniFile.IniDeleteSection | common/ini.c:578-620 | the lists stand for the contents without that section; reports whether there was one |
| IniStore.IniFile.AddHeader | common/ini.c:225-258 | a loaded section goes in front, and the comments that waited are gone |
| IniStore.IniFile.AddPair | common/ini.c:260-298 | a loaded pair goes in front of the open section's keys and takes the comments that waited; without a section it is dropped |
| IniStore.IniFile.AddRemark | common/ini.c:214-223 | a remark waits at the header, or at the open section |
| IniValues.SetFinds | common/ini.c:428-493 | after a set, a lookup gives the new value for that pair and the old one for every other |
| IniValues.SetOverwritesFirst | common/ini.c:462-491 | a set overwrites value and comment of the first such key of the first such section in their place, and leaves all else |
| IniValues.SetAddsKey | common/ini.c:159-176 | a new key goes to the front of its section |
| IniValues.SetAddsSection | common/ini.c:126-143 | a new section goes to the front of the file |
| IniValues.SetKeepsUnique | common/ini.c:455-493 | a set keeps section names and the keys of each section unique, for names below their limits |
| IniValues.DeleteKeyFinds | common/ini.c:539-576 | after a deletion a lookup finds nothing for that pair and the old value for every other |
| IniValues.DeleteSectionFinds | common/ini.c:578-620 | after a deletion a lookup finds nothing in that section and the old value elsewhere |
| IniValues.DeleteKeyTakesFirst | common/ini.c:539-576 | with duplicate names too, a deletion takes out the first such key of the first such section and no other |
| IniValues.DeleteSectionTakesFirst | common/ini.c:578-620 | so does the deletion of a section |
| IniValues.StoreRefinesMap | common/ini.c:428-620 | over every sequence of sets and deletions from an empty store, names stay unique and lookups are those of a map from pairs of names to values cut at 511 characters |
| IniRoundTrip.KeyLineReads | common/ini.c:32-62 | the line printed for a pair that fits reads back as that pair if and only if its marks are kept: without a comment the first mark of either kind is inside a quotation, with one there is no semicolon and no quotation is left open |
| IniRoundTrip.SectionLineReads | common/ini.c:225-258 | the same for the heading of a section |
| IniRoundTrip.MarksInValues | common/ini.c:40-58 | the value "a;b" with its quotation marks is read back, a;b without them is not |
| IniRoundTrip.RoundTrip | common/ini.c:178-426 | for every well-formed file, quoted marks included, loading the saved text gives the same names, values, inline comments and comments before keys, with both orders reversed; with a section the header comments and the comments before sections are replaced by one empty line before the first section, without one the header stays |
| IniMeaning.MeaningIsLast | common/ini.c:203-301 | the meaning of lines is the last pair for the key inside the last block of the section, or nothing if that block has none |
| IniMeaning.LoadMeaning | common/ini.c:112-301 | for every text, a lookup after a load gives that meaning |
| Settings.ReadSetting | plugin_mono/source/shellui_patch/settings_menu.c:392-407 | a read delivers the stored value and leaves the file, or stores 0 and delivers the empty string |
| Settings.ReadAnswers | plugin_mono/source/shellui_patch/settings_menu.c:392-407 | for every text a read delivers what the text means for these names and leaves it alone, or delivers nothing and stores 0 |
| Settings.WriteSetting | plugin_mono/source/shellui_patch/settings_menu.c:411-419 | a write leaves the file with that pair set |
| Settings.ReadWriteLocalSettings | plugin_mono/source/shellui_patch/settings_menu.c:385-422 | the new file, and the caller's buffer with the value copied to its front, cut to one less than the buffer only if it is longer than the buffer |
| Settings.OverwritesFront | plugin_mono/source/shellui_patch/settings_menu.c:398-401 | the front of the buffer is the value's and the rest of it stays |
| Settings.ReloadedFinds | common/ini.c:178-448 | with unique names every pair survives a cycle with its comments, although the order is reversed |
| Settings.ReloadedFindsLast | common/ini.c:178-448 | for every file, after a cycle a lookup gives the last such key of the last such section: no key of that name stands behind it there, and no section of that name behind that one |
| Settings.SurvivesWhenLast | common/ini.c:178-448 | so what a lookup finds survives a cycle of a well-formed file if and only if the first and the last such pair agree |
| Settings.DuplicateChanges | common/ini.c:178-448 | a well-formed file with one key twice answers 1 before a cycle and 2 after it |
| Persistence.ReloadedIsWellFormed | common/ini.c:178-426 | what comes back from a cycle is well formed and unique again, so cycles can be repeated |
| Persistence.TwoCyclesRestore | common/ini.c:178-426 | two cycles restore the order of sections and of keys |
| Persistence.AccessHolds | plugin_mono/source/shellui_patch/settings_menu.c:385-422 | one access changes the denoted map as it should and delivers its value; every inline comment stays |
| Persistence.SettingsPersist | plugin_mono/source/shellui_patch/settings_menu.c:385-422 | after every run of reads and writes the file is well formed and denotes the fold of the accesses |
| Persistence.ReadDelivers | plugin_mono/source/shellui_patch/settings_menu.c:390-407 | a later read delivers the last value written under its names, 0 after a read that missed, and else the first value |
| Persistence.ZeroedBufferHolds | plugin_mono/source/shellui_patch/settings_menu.c:398-401 | in a zeroed buffer the copied value is the value if it is shorter than the buffer, the value cut to one less if it is longer, and not terminated if and only if both have the same length |
| Persistence.ReadDeliversString | plugin_mono/source/shellui_patch/settings_menu.c:390-407 | so that is what the caller's zeroed buffer holds, after any run, of the value that ReadDelivers names |
| StrReplace.Replace | plugin_mono/source/shellui_patch/settings_menu.c:37-130 | the loop terminates for every non-empty search text and leaves the bounded rewriting and its terminator in the buffer |
| StrReplace.ReadPiece | plugin_mono/source/shellui_patch/settings_menu.c:46-126 | what the head of the input turns into in each of the four modes and in an unknown one, and where reading goes on |
| StrReplace.RewritingIsFair | plugin_mono/source/shellui_patch/settings_menu.c:46-126 | every piece reads on and asks for the room it takes, but for the last line, which asks for one more, and a copied character, which asks for none |
| StrReplace.BoundedIsPrefix | plugin_mono/source/shellui_patch/settings_menu.c:44-129 | the output is always a prefix of the unbounded rewriting and leaves room for its terminator |
| StrReplace.CompleteWhen | plugin_mono/source/shellui_patch/settings_menu.c:44-129 | the output is the whole rewriting if and only if that and the spare room of its last piece fit |
| StrReplace.BoundedIsLongest | plugin_mono/source/shellui_patch/settings_menu.c:44-129 | writing stops only at the end of the input or where the next piece does not fit |
| StrReplace.UnknownCopies | plugin_mono/source/shellui_patch/settings_menu.c:112-124 | an unknown mode copies the input |
| StrReplace.AddIsReplace | plugin_mono/source/shellui_patch/settings_menu.c:60-86 | adding before or after a match is replacing it by replacement + search or search + replacement, for every buffer size |
| StrReplace.NoMatchCopies | plugin_mono/source/shellui_patch/settings_menu.c:121-124 | everything before the next match is copied |
| StrReplace.FirstMatchIsRewritten | plugin_mono/source/shellui_patch/settings_menu.c:46-119 | the first match is rewritten and rewriting goes on behind it; in line mode it replaces the text up to the end of the line, whose newline stays |
| Broadcast.RunKeepsInvariant | plugin_server/source/klog.c:74-135 | at every turn of every run the counter is the size of the output set, which is the open connections; each connection was sent the bytes read since its accept in order, the open ones all of them; the run ends at the first failing call or with the last client, with everything closed unless select failed |
| Broadcast.ServiceKeepsInvariant | plugin_server/source/klog.c:46-136 | the same for the run that the service is, from its start |
| Broadcast.TurnKeepsInvariant | plugin_server/source/klog.c:74-122 | the same for one turn |
| Broadcast.SendKeepsInvariant | plugin_server/source/klog.c:108-120 | sending one byte to all clients keeps the counter, the set and every client's stream right, closing those that refuse |
| Broadcast.FirstTimeoutReturns | plugin_server/source/klog.c:74-122 | a timeout before the first client returns 0 with the file closed |
| Broadcast.Server.SendByte | plugin_server/source/klog.c:102-120 | the loop over the descriptors writes to each member of the output set once and closes those that refuse |
| BroadcastLaws.SendClosesRefusing | plugin_server/source/klog.c:108-120 | after a byte is sent an open connection is closed exactly if its descriptor refused, and got the byte otherwise |
| BroadcastLaws.WorkClosesRefusing | plugin_server/source/klog.c:74-122 | over a turn a connection closes exactly if it was open and refused |
| BroadcastLaws.RunIsWork | plugin_server/source/klog.c:74-135 | a run that goes on, or ends without an error, is the work of its turns: it ends exactly when no client is left, and closes everything then |
| BroadcastLaws.ServiceAdmitsAll | plugin_server/source/klog.c:91-100 | such a run has one connection for each accept, and its log is the bytes that were read |
| BroadcastLaws.ClientStaysConnected | plugin_server/source/klog.c:74-122 | while the service goes on, a client is connected exactly if it has never refused since its accept, and then it was sent every byte since |
| BroadcastLaws.RefusingGetsPart | plugin_server/source/klog.c:108-120 | a client that refused was sent the bytes between its accept and its first refusal, and none after |
| BroadcastLaws.EndsWhenAllRefused | plugin_server/source/klog.c:122-135 | a service that returns 0 has seen every client that it accepted refuse |
| BroadcastLaws.GoesOnForAClient | plugin_server/source/klog.c:122 | one that goes on has a client that never refused |
| Broadcast.Server.Shut | plugin_server/source/klog.c:124-133 | the final loop closes every client of the output set, and the file |
| Broadcast.Server.Serve | plugin_server/source/klog.c:46-136 | the service over a schedule of what the system calls return is the run that the invariant is about, with its result |
| StringId.ToStringId64A | common/stringid.h:14-25 | the loop computes the narrow hash of the text in front of the terminator |
| StringId.ToStringId64W | common/stringid.h:27-38 | the loop computes the wide hash of the text in front of the terminator |
| StringId.KnownHash | common/stringid.h:14-25 | the hash of "a" is the published 64-bit FNV-1a value |
| StringId.XorIsBitwise | common/stringid.h:21 | bit by bit, the exclusive or is set where the operands differ |
| StringId.TimesIsInjective | common/stringid.h:21 | multiplication by the prime loses nothing modulo 2^64 |
| StringId.MixCancels | common/stringid.h:21 | each step is injective in the hash and, for a given hash, in the character |
| StringId.SuffixCancels | common/stringid.h:14-38 | with a common ending two strings collide if and only if they collide without it, from any starting hash |
| StringId.NarrowSuffixCancels | common/stringid.h:14-25 | the same for narrow strings |
| StringId.WideSuffixCancels | common/stringid.h:27-38 | the same for wide strings |
| StringId.OneChangeShows | common/stringid.h:14-38 | strings that differ in one place have different hashes |
| StringId.AsciiAgrees | common/stringid.h:14-38 | the narrow and the wide hash of an ASCII text agree |
| StringId.OneForeignCharacterShows | common/stringid.h:14-38 | with at most one character outside ASCII they agree if and only if there is none |

## Left out

- The meaning of x86 instructions: an instruction has any effect on an abstract machine state; what is assumed is that instructions which the decoder shows position independent mean the same everywhere. Calls through ModRM (ff /2 and /3) and system calls are not counted as position independent, because they save the address of the next instruction. Code that changes itself is not modelled.
- Agreement of the table with the processor's opcode maps: the decoder is measured against its own table.
- RecordLaws.ImmediateShows: the entry of an opcode that takes a short branch asks for nothing else, as `TableLaws` proves of the real table.
- Reads of unmapped memory: a byte past the modelled memory reads as 0, so a scan that runs past the end of its module and a decode at the end of memory are defined.
- System calls: `sys_proc_rw` and `sys_proc_memset` are writes that succeed; `mprotect`, `getpid`, `sysctl` and module loading are not modelled, nor is the call of the routine that checks the pad.
- Allocation failure: every `malloc` and `strdup` succeeds; freeing is not modelled.
- CodeCave.CaveInvariant: events are hooks and writes outside the pad; a write into the pad by other code is excluded.
- Islands.IslandsInvariant: sources are disjoint from one another and from the islands, and targets are safe; SafeTargetIsExact shows that without the second islands can overlap.
- PatternScan.Scan: a signature of more than 512 tokens would overrun the source's buffer and is excluded; one of exactly 512 is refused as in the source.
- The record of `hde64_disasm` omits the field `rex`, which the source never sets.
- Comment lists: a list of comments is a sequence in its node rather than linked nodes; sections and keys are linked nodes.
- File handles, file names and failed opens of the INI functions; text goes in and comes out. `ini_print` repeats the printer; `ini_add_comment` and `ini_add_section_comment` would only add easy members.
- IniRoundTrip.RoundTrip: pairs and headings whose marks are not kept are outside the precondition; KeyLineReads and SectionLineReads show that exactly these are lost. So are keys with `=` or a mark at their start, headings with `]`, fields with line ends, with white space at their ends or beyond their limits, and lines beyond the buffer, because the code does not keep them.
- Persistence.SettingsPersist: names must be unique, because with duplicates the value found changes with the order; Settings.ReloadedFindsLast is the law without that condition, for one cycle.
- Settings.ReadWriteLocalSettings: a value that is not empty must not be read into an empty buffer; the source would copy past it.
- StrReplace.Replace: the search text must not be empty and the buffer has at least one byte; with an empty search text the loop need not end, and with an empty buffer the source writes outside it. The start of the line, which the source computes and does not use, is not modelled.
- Broadcast.RunKeepsInvariant: accept returns a descriptor that is not open and is below FD_SETSIZE; how long a call blocks and the use of the service by `serve_file` are not modelled.
- `pid_chunk_scan` (misses matches across chunks), `Mem_Scan`, `u64_Scan`, `char_Scan`, `endsWith`, `hex_dump`, `loadPlugins`, `klog_to_disk_thread`, the FTP server, the user interface hooks, and the XML data.
