# Verification of loader-libstdcxx

A model, in Dafny, of the two layers of this repository, with proofs about it.

The first layer chooses between the libstdc++.so.6 shipped beside a program and the one of the system.
The loader audit library `load_libstdcxx/audit.c` expands DT_RUNPATH or DT_RPATH into candidate files,
reads the GLIBCXX version of the first that opens, and then answers the loader's searches. Two readers
of that version exist, one in C and one in Python, and have to agree.

The second layer is the ELF and DWARF decoder under `pyaudit/elftools`. Its hardest parts are caches
filled lazily while generators are suspended, tables built on copied mutable objects, and compact or
fast encodings of simple things.

| files | subject |
|---|---|
| `DieTree`, `CompileUnit`, `DieSession` | the flattened DIE tree, its cache, its suspended iterators, the search for parents, and sessions of all three |
| `CfiTable`, `CfiRules`, `CallFrame`, `FrameSection` | call frame tables and what stands in them, their memoised decoding on the heap, the entries of .debug_frame |
| `CuCache` | compile units: cache, lookup by address, live generators |
| `AuditPath`, `AuditRun`, `AuditLibrary` | path search in an owned buffer, the audit state machine, the three hooks |
| `Versions`, `VersionReaders` | the two GLIBCXX version readers |
| `SysvHash`, `GnuHash` | the two ELF hash tables |
| `Relr`, `Relocation` | RELR expansion, relocation in place |
| `LineTable`, `LineRegisters`, `LineProgram`, `LineEncoding` | the line number machine, the worth of its registers, its decoder, and the encoding that the decoder inverts |
| `Construct`, `ConstructRun` | the declarative parser library |
| `Leb128`, `Bitwise`, `Streams`, `Common` | LEB128, bitwise operations, byte streams, shared definitions |

Code that changes state is modelled by classes and methods with the source's fields and loops; each is
proved against a function of its inputs or of the old state, and the properties are proved of that
function. The decoding of one DIE, of one unit header and of one call frame header is an abstract
function of the offset; file probes and the granting of mappings are functions passed in.

`dafny verify dfyconfig.toml` checks everything.

## Where the code differs from what one would expect

- `load_libstdcxx/audit.c:443` raises the tracked version but not the path that is answered, so after an
  acceptance the lower library can be chosen. `AuditRun.HigherChosenIff` gives the exact condition.
- `get_libstdcxx_version/get_libstdcxx_version.h:187` steps in units of an auxiliary entry where
  `pyaudit/elftools/elf/gnuversions.py:95` steps in bytes. `VersionReaders.AuxWalksAgreeIff` gives the exact
  condition under which they visit the same entries, and `VersionReaders.ReadersDiffer` a section on which
  the two readers report different versions.
- `pyaudit/elftools/elf/hash.py:64-69` keeps bits above the 32nd. `SysvHash.Lookup` gives the exact condition
  under which a present name is found, and `SysvHash.MissesWideName` a table on which one is not.
- `pyaudit/elftools/elf/hash.py:153-164` reads chain words from the stream that the symbol lookup at line 158
  moves. `GnuHash.LookupScansIff` gives the exact condition under which this does no harm, and
  `GnuHash.MissesAfterMove` a table on which it does.
- `pyaudit/elftools/construct/macros.py:252-263` puts the list under its own name into the context before the
  count is read, so an element named like its length field never builds. `Construct.BuildsIff` gives the exact
  condition under which an object builds.
- `pyaudit/elftools/dwarf/callframe.py:560` scales the CFA offset of DW_CFA_def_cfa_sf by the code alignment
  factor. `CfiTable.DefCfaSfIff` gives the exact condition under which that is the standard's rule, and
  `CfiTable.DefCfaSfDiffers` a CIE for which it is not.
- `pyaudit/elftools/dwarf/dwarfinfo.py:217-235` caches a unit at whatever offset it is given.
  `CuCache.Section.FromIsScanIff` gives the exact condition under which a containment query that starts there is
  right, and `CuCache.MisalignedStart` a section on which it is not.

## Model

| member | source | states |
|---|---|---|
| `DieSessions.Session` | pyaudit/elftools/dwarf/compileunit.py:114-245 | for every interleaving of any number of suspended iter_DIEs generators, lookups by address and get_parent calls, every reply is the one the tree alone determines: a generator's n-th resumption yields entry n of the pre-order, whatever ran in between |
| `DieSessions.SameEntrySameObject` | pyaudit/elftools/dwarf/compileunit.py:227-245 | two replies about one entry are one object |
| `DieSessions.DieIterator.Next` | pyaudit/elftools/dwarf/compileunit.py:197-210 | each resumption yields the next offset of the pre-order from the suspended loops it consists of, terminators included, whatever was cached since the last one |
| `DieSessions.IterDies` | pyaudit/elftools/dwarf/compileunit.py:132-136 | whatever was cached before and whichever entries carry a truthful sibling attribute, the whole iteration yields the pre-order of the encoded tree, null entries included, at contiguous strictly increasing offsets, each element being the object in the cache |
| `CompileUnits.GetParent` | pyaudit/elftools/dwarf/die.py:131-137 | terminates from every cache state; for every cached object at a true entry, terminators included, the answer is the cached object at the real tree parent, and None exactly for the top entry; an object at an offset that is no entry raises ValueError |
| `CompileUnits.Descend` | pyaudit/elftools/dwarf/die.py:195-203 | one round of the search ends at the last child or the terminator not beyond the offset sought, from which a search of the whole tree continues; it stays at `search` only if the offset is no entry |
| `CompileUnits.CompileUnit.GetTopDie` | pyaudit/elftools/dwarf/compileunit.py:82-102 | the top entry heads both arrays and is created once |
| `CompileUnits.CompileUnit.GetCachedDie` | pyaudit/elftools/dwarf/compileunit.py:212-245 | the object at the offset is in the cache afterwards; the arrays stay parallel, strictly sorted and headed by the top entry, and nothing cached is lost |
| `CompileUnits.CompileUnit.SameOffsetSameObject` | pyaudit/elftools/dwarf/compileunit.py:227-245 | two cached objects with one offset are one object |
| `CompileUnits.CompileUnit.GetDieFromRefaddr` | pyaudit/elftools/dwarf/compileunit.py:114-130 | succeeds exactly for addresses inside the unit, with the one cached object there; on failure the cache is unchanged |
| `CompileUnits.CompileUnit.Install` | pyaudit/elftools/dwarf/compileunit.py:227-245 | the two insertions keep the arrays parallel, sorted and headed by the top entry, and every link of every cached entry in agreement with the tree |
| `CompileUnits.ChildIterator.Next` | pyaudit/elftools/dwarf/compileunit.py:138-190 | each resumption yields the next child in tree order with its parent set, whatever happened to the cache since; at the end the null entry has been recorded as the terminator |
| `CompileUnits.NextSibling` | pyaudit/elftools/dwarf/compileunit.py:162-190 | sibling attribute, remembered terminator or a walk over the descendants: all lead to the first byte after the child's subtree |
| `DieSessions.ResumeInnermost` | pyaudit/elftools/dwarf/compileunit.py:197-210 | the innermost suspended loop goes on to its next child, or ends with the terminator and is left; the loops around it stand still |
| `CompileUnits.CompileUnit.SetTerminator` | pyaudit/elftools/dwarf/compileunit.py:156-158 | remembering the terminator keeps every link of every cached entry in agreement with the tree |
| `CompileUnits.CompileUnit.SetParent` | pyaudit/elftools/dwarf/die.py:173-174 | recording a parent keeps every link of every cached entry in agreement with the tree, and is never undone |
| `CompileUnits.CompileUnit.TerminatorPlace` | pyaudit/elftools/dwarf/compileunit.py:156-158 | a remembered terminator is a null entry of the tree, behind its owner |
| `DieTree.PreorderContiguous` | pyaudit/elftools/dwarf/compileunit.py:132-136 | the pre-order offsets tile the byte range of the tree |
| `DieTree.PreorderIffLocate` | pyaudit/elftools/dwarf/die.py:178-212 | an offset is in the pre-order exactly when descending by byte ranges finds a node there |
| `DieTree.LocateWithin` | pyaudit/elftools/dwarf/die.py:183-185 | a node found below an entry lies inside its byte range and is itself an encoded subtree |
| `DieTree.ParentExists` | pyaudit/elftools/dwarf/die.py:131-137 | only the top entry is without a parent |
| `DieTree.ListEntry` | pyaudit/elftools/dwarf/compileunit.py:151-158 | what stands behind some of an entry's children is the next child or the null entry that closes them, and the whole tree has it there |
| `CallFrame.Session` | pyaudit/elftools/dwarf/callframe.py:490-497 | any number of get_decoded calls on any entries in any order: every answer ever given is right at the end and is the entry's one table object; a table that existed before, such as that of a shared CIE, is the same object with the same rows and register order |
| `CallFrame.RowInTable` | pyaudit/elftools/dwarf/callframe.py:504-628 | in the table object of an entry the rule of a register, the CFA register and offset and the location of every row are those that the last instructions about them prescribe, with the alignment factors of the entry's CIE |
| `CallFrame.CfiEntry.GetDecoded` | pyaudit/elftools/dwarf/callframe.py:490-497 | the memo is set once to what the entry means; of all older objects only the memo fields of the entry and its CIE change, and only from None |
| `CallFrame.CfiEntry.DecodeTable` | pyaudit/elftools/dwarf/callframe.py:504-628 | the table built in place on copied lines is the one the pure machine defines, errors included |
| `CallFrame.CfiEntry.StartFde` | pyaudit/elftools/dwarf/callframe.py:516-531 | an FDE starts from copies of its CIE's last line and register order; no object is shared with the CIE's table |
| `CallFrame.Decoder.Step` | pyaudit/elftools/dwarf/callframe.py:539-622 | one instruction on the mutable line, table, stack and order is one step of the pure machine; the current line is never an element of the table or the stack |
| `CfiTable.DecodedOrder` | pyaudit/elftools/dwarf/callframe.py:504-537 | in every decoded table reg_order has no duplicates and contains every register key of every row; an FDE's order extends its CIE's |
| `CfiTable.BracketRestoresRules` | pyaudit/elftools/dwarf/callframe.py:616-622 | after a well-bracketed block the closing restore_state brings back the rules at remember_state, keeps the location the block reached, and leaves the enclosing stack as it was |
| `CfiTable.StackBelow` | pyaudit/elftools/dwarf/callframe.py:616-622 | a block that never falls below its starting depth never underflows the stack and never touches what is below |
| `CfiTable.RowLocations` | pyaudit/elftools/dwarf/callframe.py:539-552 | without set_loc, row n of an FDE is at the initial location plus the code alignment factor times the sum of the first n advances, and the number of rows is that of the advances or one more |
| `CfiRules.RowRule` | pyaudit/elftools/dwarf/callframe.py:575-615 | in every row of every CIE and FDE, the rule of a register is the one prescribed by the last instruction that names it and is not undone between a remember_state and its restore_state: N times the data alignment factor for offset and val_offset, the source register, the expression, undefined, same value, or for restore the rule in the CIE's last row |
| `CfiRules.RowRuleInherited` | pyaudit/elftools/dwarf/callframe.py:516-531 | a register that no such instruction names has the rule of the CIE's last row, and in a CIE none |
| `CfiRules.RowCfaRegister` | pyaudit/elftools/dwarf/callframe.py:553-574 | the CFA register in every row is that of the last instruction that sets or clears it |
| `CfiRules.RowCfaOffset` | pyaudit/elftools/dwarf/callframe.py:553-574 | the CFA offset in every row is that of the last instruction that sets or clears it: as given, times the data alignment factor for def_cfa_offset_sf, and times the code alignment factor for def_cfa_sf |
| `CfiRules.RowCfaExpression` | pyaudit/elftools/dwarf/callframe.py:553-574 | the CFA is an expression in a row exactly if the last instruction about the CFA gave that expression |
| `CfiRules.RowCfaInherited` | pyaudit/elftools/dwarf/callframe.py:516-531 | without an instruction about it the CFA is that of the CIE's last row, and in a CIE offset 0 without a register |
| `CfiRules.RulesCovered` | pyaudit/elftools/dwarf/callframe.py:504-628 | every row has the instructions behind it, and among them every register and every part of the CFA has such a last instruction or none, so the statements above speak of every rule of every table |
| `CfiRules.FindWriter` | pyaudit/elftools/dwarf/callframe.py:616-622 | in a block that never pops more than it pushed there is a last instruction that touches a part of the line and is not undone, or there is none |
| `CfiRules.RowState` | pyaudit/elftools/dwarf/callframe.py:539-552 | row n of a decoded table is the line that the instructions before the n-th later location, or all of them, leave |
| `CfiRules.RowsOf` | pyaudit/elftools/dwarf/callframe.py:624-628 | there is one row for each set_loc and advance, and one more if and only if the last line has a CFA register or a rule |
| `CfiRules.RowLocation` | pyaudit/elftools/dwarf/callframe.py:539-552 | the location of every row is what the last set_loc before it says, or the initial location, plus the code alignment factor times the sum of the advances since |
| `CfiRules.OrderIff` | pyaudit/elftools/dwarf/callframe.py:504-537 | reg_order lists a register if and only if the CIE lists it or an instruction names it |
| `CfiRules.DecodesIff` | pyaudit/elftools/dwarf/callframe.py:594-622 | an entry decodes if and only if its CIE does, no restore_state lacks its remember_state, and every restore has a CIE row to go back to |
| `CfiRules.UsualCie` | pyaudit/elftools/dwarf/callframe.py:581-586 | the CIE with factors 1 and -8 and def_cfa r7 8, offset r16 1 has r16 at offset -8 |
| `CfiTable.DefCfaSfIff` | pyaudit/elftools/dwarf/callframe.py:557-560 | the rule for DW_CFA_def_cfa_sf is the one section 6.4.2.2 of DWARF v4 prescribes if and only if the offset is zero or the two alignment factors are equal |
| `CfiTable.DefCfaSfDiffers` | pyaudit/elftools/dwarf/callframe.py:557-560 | with factors 1 and -8 the decoded table has offset 2 where -16 is prescribed |
| `FrameSection.CallFrameInfo.GetEntries` | pyaudit/elftools/dwarf/callframe.py:65-74 | the parsed list is kept; a second call returns the same objects and changes nothing |
| `FrameSection.CallFrameInfo.ParseEntries` | pyaudit/elftools/dwarf/callframe.py:76-82 | exactly the entries of the section in order, each the cached object at its offset; the stream ends at the section's end |
| `FrameSection.CallFrameInfo.ParseEntryAt` | pyaudit/elftools/dwarf/callframe.py:84-176 | the cached object or a new one; the stream stands 4 + length behind where it stood if the entry was cached, behind the entry's start if not |
| `FrameSection.CallFrameInfo.ParseCieForFde` | pyaudit/elftools/dwarf/callframe.py:245-261 | the CIE cached at the offset named by the FDE, the stream position unchanged |
| `FrameSection.CallFrameInfo.ListedEntries` | pyaudit/elftools/dwarf/callframe.py:143-176 | entry i is the one at offset i with the section's instructions, no object occurs twice, and an FDE's cie is the member of the list at the offset it names, also when that lies later in the section |
| `FrameSection.CallFrameInfo.ParseInstructions` | pyaudit/elftools/dwarf/callframe.py:178-243 | the instructions between two offsets, the stream ending at the second |
| `FrameSection.Section.CodeInOrder` | pyaudit/elftools/dwarf/callframe.py:178-243 | instruction n of an entry is the one that begins where instruction n - 1 ends, the first at the given offset, and the last one ends where the entry ends |
| `FrameSection.CallFrameInfo.ListIsValid` | pyaudit/elftools/dwarf/callframe.py:65-82 | the list that the section parser returns meets what decoding sessions demand: every CIE referred to is in it, and no memo is wrong |
| `FrameSection.DecodeSection` | pyaudit/elftools/dwarf/callframe.py:65-74 | parsing a section and then decoding any entries in any order gives the tables that the section's bytes mean, on the list that every later get_entries returns |
| `CuCache.Session` | pyaudit/elftools/dwarf/dwarfinfo.py:183-235 | for every interleaving of direct access at any offsets, containment queries and resumptions of any number of live generators: a generator's n-th resumption yields unit n, direct access yields the one object at its offset, and a containment query yields the one object of the unit that a scan from offset 0 finds, unless some direct access before it went to an offset that is no unit's |
| `CuCache.DwarfInfo.GetCuContaining` | pyaudit/elftools/dwarf/dwarfinfo.py:183-215 | from any cache state the answer is what the headers lead to from the nearest cached offset; with an aligned cache that is the unit a scan from offset 0 finds, as its one cached object, and the cache stays aligned; an address beyond the section is refused |
| `CuCache.Section.FromIsScanIff` | pyaudit/elftools/dwarf/dwarfinfo.py:201-215 | from any start at or below the address the unit found is the one a scan from offset 0 finds if and only if the headers lead from the start to that unit |
| `CuCache.MisalignedStart` | pyaudit/elftools/dwarf/dwarfinfo.py:217-235 | a section on which direct access at an offset that is no unit's hides the unit from a later containment query |
| `CuCache.DwarfInfo.GetCuAt` | pyaudit/elftools/dwarf/dwarfinfo.py:217-235 | at any offset of the section the one object cached there, and nothing else is cached; an offset beyond the section is refused |
| `CuCache.DwarfInfo.CachedCuAtOffset` | pyaudit/elftools/dwarf/dwarfinfo.py:498-520 | at any offset: the two arrays stay parallel and strictly sorted, cached objects are never replaced, and only this offset is added |
| `CuCache.UnitIterator.Next` | pyaudit/elftools/dwarf/dwarfinfo.py:434-454 | a resumed generator yields the one object at its offset and goes on to where that header says it ends, whatever other calls did to the cache |
| `CuCache.Section.ScanFrom` | pyaudit/elftools/dwarf/dwarfinfo.py:201-211 | a scan over the units started at any unit not beyond the address finds what a scan from 0 finds |
| `CuCache.Section.FromUnit` | pyaudit/elftools/dwarf/dwarfinfo.py:201-211 | a start at any unit not beyond the address finds what a scan from 0 finds |
| `CuCache.Section.ScanFinds` | pyaudit/elftools/dwarf/dwarfinfo.py:208-215 | every address of the section lies in exactly one unit, the one found |
| `AuditPath.FindLibstdcxx` | load_libstdcxx/audit.c:140-259 | the paths tried are the candidates in order up to the first that opens, each what its section of the path stands for: origin, rest and /libstdc++.so.6 for a section $ORIGIN and rest, section and /libstdc++.so.6 for any other; on success the only new live mapping is the returned buffer, which holds that path and is one byte longer than the longest path tried; on failure there is none and, unless a mapping was refused, every candidate was tried |
| `AuditPath.OriginReplaced` | load_libstdcxx/audit.c:184-214 | the candidate of a section $ORIGIN and rest is origin, rest and /libstdc++.so.6 |
| `AuditPath.PlainKept` | load_libstdcxx/audit.c:216-234 | the candidate of any other section is the section and /libstdc++.so.6; an empty section has none |
| `AuditPath.CandidatesConcat` | load_libstdcxx/audit.c:163-179 | the candidates of a path are those of its first section and then those of what is behind the colon |
| `AuditPath.Search` | load_libstdcxx/audit.c:163-259 | throughout the loop the buffer is the only mapping added and is one byte longer than the longest path tried; the paths tried are the files of the non-empty sections up to the cursor, in order |
| `AuditPath.Attempt` | load_libstdcxx/audit.c:181-249 | the file of one section is written into the buffer and tried; on refusal nothing stays mapped |
| `AuditPath.BuildCandidate` | load_libstdcxx/audit.c:181-234 | the next candidate is written into the reused or replaced buffer; on refusal nothing stays mapped |
| `AuditPath.ComposeOrigin` | load_libstdcxx/audit.c:202-214 | the origin, the rest of the section and the library name, with no write outside the buffer |
| `AuditPath.ComposePlain` | load_libstdcxx/audit.c:229-233 | the section and the library name, with no write outside the buffer |
| `AuditPath.Strncat` | load_libstdcxx/audit.c:205-214 | appends at most n characters and the terminator inside the buffer |
| `AuditPath.Reserve` | load_libstdcxx/audit.c:189-200 | a buffer large enough, the old one released first when it is replaced |
| `AuditPath.SplitJoins` | load_libstdcxx/audit.c:163-175 | the sections are colon-free and join back to the path |
| `AuditPath.RangesAreSections` | load_libstdcxx/audit.c:163-179 | the walk of the cursor meets exactly the non-empty colon sections of the path, in order |
| `AuditRun.TrackedVersion` | load_libstdcxx/audit.c:427-444 | over every run the tracked version is the maximum of the shipped version and all accepted ones, accepted versions never decrease, and the sentinel is never reached |
| `AuditRun.HigherUntilFirstAcceptance` | load_libstdcxx/audit.c:434-444 | until the first acceptance every decided candidate yields the higher of candidate and shipped library |
| `AuditRun.HigherChosenIff` | load_libstdcxx/audit.c:434-444 | at any point of any run the higher of candidate and shipped library is chosen if and only if the candidate does not lie strictly between the shipped and the tracked version |
| `AuditRun.LowerChosenAfterAcceptance` | load_libstdcxx/audit.c:442-444 | a run in which the lower library is chosen |
| `AuditRun.FrozenWhenConsistent` | load_libstdcxx/audit.c:385-388 | after a consistent activity every name is passed through and the state does not change any more |
| `AuditRun.PathDuringRun` | load_libstdcxx/audit.c:451-458 | the path is what it was until a consistent activity and gone afterwards |
| `AuditLibrary.Library.LaVersion` | load_libstdcxx/audit.c:312-360 | unless a mapping is refused, the state is that of the first path that opens among the candidates of DT_RUNPATH and then of DT_RPATH, with its version; with no library or no readable version nothing stays mapped and the library stays inactive |
| `AuditLibrary.StartIsRight` | load_libstdcxx/audit.c:312-360 | the first path that opens among all candidates, DT_RUNPATH's before DT_RPATH's, is recorded with its version if that can be read, and nothing otherwise |
| `AuditLibrary.Library.LaObjsearch` | load_libstdcxx/audit.c:367-445 | a name not ending in /libstdc++.so.6, or any name while there is no shipped library, comes back as itself and changes nothing; null is answered exactly for such a name searched along RUNPATH or opening with another ELF class, the shipped path exactly for an opened candidate below the tracked version, its name otherwise; exactly an opened candidate that is not below is tracked from then on |
| `AuditLibrary.Library.LaActivity` | load_libstdcxx/audit.c:451-458 | the buffer is released on a consistent activity and only then |
| `AuditLibrary.Library.LoaderRun` | load_libstdcxx/audit.c:367-458 | every answer and every state of a whole loader run is right in that sense, from the state before it to the state after it; the buffer is released exactly once, when loading becomes consistent |
| `AuditRun.RightReply` | load_libstdcxx/audit.c:367-458 | every event gets the right answer and leaves the right state, case by case |
| `AuditRun.RightAnswers` | load_libstdcxx/audit.c:367-458 | there is a sequence of states through which all answers of a run are right |
| `AuditLibrary.FirstOpenAfterFailures` | load_libstdcxx/audit.c:236-259 | a search that failed on everything before is a search for the first path that opens |
| `SysvHash.GetSymbol` | pyaudit/elftools/elf/hash.py:42-54 | on every correctly built table with acyclic chains the symbol returned is hashed and has the name, and for a name whose hash fits the word one is returned exactly when a scan of the hashed symbols finds one |
| `SysvHash.Lookup` | pyaudit/elftools/elf/hash.py:42-54 | a name that is present is found if and only if the unbounded hash and the ABI's choose the same bucket |
| `SysvHash.ElfHash` | pyaudit/elftools/elf/hash.py:57-71 | the unbounded hash equals the ABI's 32-bit hash in its low 32 bits |
| `SysvHash.HashLow` | pyaudit/elftools/elf/hash.py:57-71 | on every name the unbounded hash and the hash on words agree modulo the word size |
| `SysvHash.MixMeaning` | pyaudit/elftools/elf/hash.py:66-69 | one round folds the four bits from bit 28 on into bits 4 to 7 and clears them, and leaves what lies above bit 32 alone |
| `Bitwise.LowBits` | pyaudit/elftools/elf/hash.py:66-69 | the low bits of and, or, xor and and-not depend on the low bits of the operands only |
| `SysvHash.HashTooWide` | pyaudit/elftools/elf/hash.py:57-71 | a name (seven bytes 0x0F, then 0x10) whose unbounded hash is 2^32 where the ABI's is 0 |
| `SysvHash.MissesWideName` | pyaudit/elftools/elf/hash.py:42-54 | a correctly built table that holds that name, on which the lookup does not find it |
| `SysvHash.TooWide` | pyaudit/elftools/elf/hash.py:64-70 | k bytes 0x0F followed by a 0x10 hash to 16^(k+1) as long as the mixing leaves every value on the way alone |
| `GnuHash.LookupScans` | pyaudit/elftools/elf/hash.py:142-166 | on every correctly built table, for every name that the filter rejects or whose chain is clean, the lookup returns exactly the symbol a linear scan of the hashed symbols finds, or none when it finds none |
| `GnuHash.LookupScansIff` | pyaudit/elftools/elf/hash.py:142-166 | that condition is exact: the lookup does what the scan does wherever symbol lookups leave the stream if and only if the filter rejects the name or its chain is clean |
| `GnuHash.GetSymbol` | pyaudit/elftools/elf/hash.py:142-166 | on any table, well built or not, the method computes the lookup, the stream being moved by every symbol lookup |
| `GnuHash.WalkSound` | pyaudit/elftools/elf/hash.py:153-166 | on any table a symbol that is returned has the name |
| `GnuHash.MissesAfterMove` | pyaudit/elftools/elf/hash.py:153-164 | 36 bytes that hold a correctly built table, on which a present name is missed because an earlier symbol of its chain shares the upper 31 hash bits |
| `GnuHash.FilterMatches` | pyaudit/elftools/elf/hash.py:132-140 | a bloom filter built by setting two bits per hash never rejects a hash that was put in |
| `GnuHash.MatchesMeaning` | pyaudit/elftools/elf/hash.py:132-140 | the filter accepts a hash h exactly if binary digits h mod bits and (h / 2^shift) mod bits of word (h / bits) mod size are both 1 |
| `GnuHash.HashOfExit` | pyaudit/elftools/elf/hash.py:168-176 | the hash of exit is 0x7C967E3F |
| `GnuHash.CountIsAll` | pyaudit/elftools/elf/hash.py:109-130 | on every correctly built table the symbol count is one past the last hashed symbol |
| `GnuHash.GetNumberOfSymbols` | pyaudit/elftools/elf/hash.py:109-130 | the method computes the count on any table, errors included |
| `GnuHash.WalkChain` | pyaudit/elftools/elf/hash.py:151-166 | the loop over chain words computes the walk from a given start on any stream content |
| `GnuHash.ComputeHash` | pyaudit/elftools/elf/hash.py:168-176 | cutting once at the end gives the hash cut to 32 bits at every step |
| `Relr.GroupMeaning` | pyaudit/elftools/elf/relocation.py:152-179 | an anchor followed by bitmaps yields the anchor and exactly one address per set bit above bit 0, strictly increasing |
| `Relr.GroupAddressIff` | pyaudit/elftools/elf/relocation.py:162-175 | the addresses of a group are the anchor, and for each binary digit 1 at place k + 1 of its bitmap j the anchor plus e plus j times (8e - 1)e plus k times e |
| `Relr.SmallTables` | pyaudit/elftools/elf/relocation.py:152-179 | with 8-byte entries the words 0x1000, 1, 3 give 0x1000 and 0x1200, and 0x1000, 7 give 0x1000, 0x1008 and 0x1010 |
| `Relr.GroupByGroup` | pyaudit/elftools/elf/relocation.py:152-158 | the sequence decodes group by group, independently of what precedes an anchor |
| `Relr.SequenceMeaning` | pyaudit/elftools/elf/relocation.py:134-181 | every word sequence that starts with an anchor decodes without error to the addresses of its groups, one group after the other: each the anchor and exactly one address per set bit above bit 0, strictly increasing |
| `Relr.RoundTrip` | pyaudit/elftools/elf/relocation.py:134-181 | decoding a reference encoding of any list of even addresses that fit an entry, so of any strictly increasing one, gives the list back; every word of the encoding fits an entry and there are no more words than addresses |
| `Relr.FailsIff` | pyaudit/elftools/elf/relocation.py:159-161 | the decoder stops with an error exactly when the first word is a bitmap |
| `Relr.BitsMeaning` | pyaudit/elftools/elf/relocation.py:162-175 | the addresses of one bitmap are those of its set bits, ascending and within its reach |
| `Relr.IterRelocations` | pyaudit/elftools/elf/relocation.py:134-181 | the loop over the words yields what they denote, also when it stops at an error |
| `Relr.Bitmap` | pyaudit/elftools/elf/relocation.py:162-175 | the bit loop appends one address per set bit |
| `Relocation.OthersKept` | pyaudit/elftools/elf/relocation.py:230-238 | whatever the list, and whether or not an error stops it, a byte that no addressed field contains is kept |
| `Relocation.AnyOrder` | pyaudit/elftools/elf/relocation.py:230-238 | lists with the same entries and pairwise disjoint fields give the same bytes in whatever order |
| `Relocation.FieldsOnTheirOwn` | pyaudit/elftools/elf/relocation.py:230-238 | with disjoint fields every field ends as its own relocation of its original value |
| `Relocation.ErrorIff` | pyaudit/elftools/elf/relocation.py:240-311 | a list is applied to its end exactly when every entry of it could be applied on its own |
| `Relocation.AddSubResult` | pyaudit/elftools/elf/relocation.py:346-359 | any sequence of ADD and SUB entries on one field leaves the original value plus the signed sum, modulo the field's width |
| `Relocation.AddSubSum` | pyaudit/elftools/elf/relocation.py:346-359 | the same for the value modulo the width, entry by entry |
| `Relocation.FieldMeaning` | pyaudit/elftools/elf/relocation.py:313-366 | after any applied relocation, of whichever formula, its field holds the number that its formula asks for, up to a multiple of the field's width |
| `Relocation.AppliesIff` | pyaudit/elftools/elf/relocation.py:240-331 | a relocation is applied if and only if its symbol exists, its kind of entry and its type are supported, its field lies in the section and a needed addend is there |
| `Relocation.LoongArchOnField` | pyaudit/elftools/elf/relocation.py:465-488 | the LoongArch entries of type ADD and SUB of one width on one field are such a sequence |
| `Relocation.ApplySectionRelocations` | pyaudit/elftools/elf/relocation.py:230-238 | the bytes and the error after the in-place loop are those of the list |
| `Relocation.DoApplyRelocation` | pyaudit/elftools/elf/relocation.py:240-331 | one entry is applied in place, or refused with the bytes unchanged, in the order of the checks |
| `Relocation.WriteBytes` | pyaudit/elftools/elf/relocation.py:323-331 | exactly the bytes of the field are replaced |
| `Streams.NumberOfBytes` | pyaudit/elftools/elf/relocation.py:323-331 | reading a number back from the bytes written gives the number |
| `Streams.NumberDigits` | pyaudit/elftools/elf/relocation.py:253-256 | the bytes of a number are its digits to the base 256, the lowest one first or last according to the byte order |
| `Streams.ToBytesDigits` | pyaudit/elftools/elf/relocation.py:323-331 | the bytes written for an integer are its digits in two's complement |
| `LineTable.OpIndexInRange` | pyaudit/elftools/dwarf/lineprogram.py:156-170 | on every run op_index stays below maximum_operations_per_instruction, in the registers and in every row |
| `LineTable.SpecialsAddUp` | pyaudit/elftools/dwarf/lineprogram.py:156-167 | any run of special opcodes moves address and op_index as one division with remainder of the summed operation advances |
| `LineTable.RowFlags` | pyaudit/elftools/dwarf/lineprogram.py:130-138 | the row of a row command stays at its place for good; its flags and discriminator are those set by commands since the row before, and it is marked end_sequence exactly for an end-of-sequence command |
| `LineTable.RowCommand` | pyaudit/elftools/dwarf/lineprogram.py:130-142 | every row in the entries has such a command |
| `LineTable.FlagsDuringRun` | pyaudit/elftools/dwarf/lineprogram.py:130-138 | between rows the registers that a row clears hold exactly what was set since the last row |
| `LineTable.EntriesGrow` | pyaudit/elftools/dwarf/lineprogram.py:130-142 | entries are only ever appended |
| `LineRegisters.RegistersDuringRun` | pyaudit/elftools/dwarf/lineprogram.py:145-262 | between any two commands of any program, counting from the last end_sequence: line is 1 plus all advance_line operands plus lineBase + (opcode - opcodeBase) mod lineRange for each special opcode; address is the last set_address plus the later advance_pc, const_add_pc and fixed_advance_pc moves plus minLength times the instructions that the special opcodes passed since; op_index is the remainder of their operation advances; file, column and isa are the last ones set; is_stmt is the default negated once per negate_stmt |
| `LineRegisters.EntriesDuringRun` | pyaudit/elftools/dwarf/lineprogram.py:130-262 | in every run each command that leaves an entry has its own, in order, with its opcode, its operands or the amounts by which line and address moved, and for a row the registers above, the flags since the row before, and on end_sequence is_stmt false |
| `LineRegisters.FilesDuringRun` | pyaudit/elftools/dwarf/lineprogram.py:193-196 | the files added are those of the define_file commands, in order |
| `LineRegisters.AddressSnoc` | pyaudit/elftools/dwarf/lineprogram.py:156-246 | a command that does not give the address adds its move and what special opcodes add; set_address replaces everything before |
| `LineRegisters.SpecialPlace` | pyaudit/elftools/dwarf/lineprogram.py:156-167 | a special opcode keeps address and op_index at quotient and remainder of the summed operation advances, also between other moves |
| `LineRegisters.LineFive` | pyaudit/elftools/dwarf/lineprogram.py:216-219 | advance_line 4 before the first copy gives a row of line 5 |
| `LineEncoding.FetchEncoded` | pyaudit/elftools/dwarf/lineprogram.py:145-262 | the bytes of any command, written with the opcode numbers of section 6.2.5 of DWARF v4 and operands of any sufficient length, read back as that command and its length, whatever follows |
| `LineEncoding.OpcodeIsByte` | pyaudit/elftools/dwarf/lineprogram.py:130-142 | the opcode that an entry shows is the byte that was read, and it is extended exactly if that byte was the extended opcode |
| `LineEncoding.FetchErrors` | pyaudit/elftools/dwarf/lineprogram.py:144-262 | at the end of the data nothing can be read; an opcode is invalid exactly if it is above 12 and below opcode_base |
| `LineEncoding.CommandsEncoded` | pyaudit/elftools/dwarf/lineprogram.py:144-262 | reading a written program gives the commands that were written |
| `LineEncoding.ProgramEncoded` | pyaudit/elftools/dwarf/lineprogram.py:106-262 | a written program decodes to the entries its commands should leave, or stops with a division by zero, exactly when it has a special opcode or const_add_pc and the header a zero divisor |
| `LineProgram.DecodedEntries` | pyaudit/elftools/dwarf/lineprogram.py:126-262 | a decoded program leaves the entries that its commands should leave |
| `LineProgram.DecodedProgram` | pyaudit/elftools/dwarf/lineprogram.py:126-262 | decoding the bytes of a program is a run of the machine on the commands they hold, so the statements above hold of every program |
| `LineProgram.LineProgram.GetEntries` | pyaudit/elftools/dwarf/lineprogram.py:106-117 | the entries are those that the commands in the program's bytes should leave (see LineRegisters.EntriesDuringRun); they are decoded at the first call, hold state objects of their own, and are the same objects at every later call |
| `LineProgram.LineProgram.DecodeLineProgram` | pyaudit/elftools/dwarf/lineprogram.py:126-262 | the loop over the stream and the mutable state computes the program's meaning, errors included, appends to the header exactly the files defined up to its end or its error, and terminates because every command moves the stream strictly forward |
| `LineProgram.ReachedOnSuccess` | pyaudit/elftools/dwarf/lineprogram.py:126-262 | the files defined on the way are, on success, those of the final machine |
| `LineProgram.ReadCommand` | pyaudit/elftools/dwarf/lineprogram.py:145-262 | the reads of one round are those the bytes demand and end strictly behind the opcode, also for an unknown extended opcode of length 0 |
| `LineProgram.Append` | pyaudit/elftools/dwarf/lineprogram.py:130-142 | a command adds its entry and leaves all earlier entries as they are; the live state is in no entry |
| `LineProgram.ExecuteSpecial` | pyaudit/elftools/dwarf/lineprogram.py:156-170 | the special opcode on the mutable registers |
| `LineProgram.ExecuteRow` | pyaudit/elftools/dwarf/lineprogram.py:130-184 | the entry holds a copy of the registers, which are then cleared or replaced |
| `LineProgram.ExecuteMove` | pyaudit/elftools/dwarf/lineprogram.py:185-246 | the commands that set or advance the address |
| `Construct.BuildsIff` | pyaudit/elftools/construct/core.py:351-729 | in every context an object builds if and only if it fits the layout: integers in range, strings, all members present and fitting, the declared count, and for a PrefixedArray an element named differently from its length field |
| `Construct.RoundTrip` | pyaudit/elftools/construct/core.py:351-729 | for every layout nested from integers, Structs, Arrays, PrefixedArrays and CStrings, every object that fits and that the layout can hold without loss builds, and what was built, followed by any bytes, parses to that object and leaves exactly those bytes, in any two contexts |
| `Construct.BuildIsEncoding` | pyaudit/elftools/construct/core.py:351-729 | in every context the bytes built for an object are its digits in two's complement in the given byte order, a string and its terminator, members in declared order, elements in order, and a count before its elements |
| `Construct.PrefixedRoundTrip` | pyaudit/elftools/construct/macros.py:252-263 | the count is read from the shared context right after it was put there, so nested prefixed arrays that overwrite it do no harm |
| `Construct.ManyRoundTrip` | pyaudit/elftools/construct/core.py:417-442 | the same for the elements of an array in one shared context |
| `Construct.FieldsRoundTrip` | pyaudit/elftools/construct/core.py:636-668 | the same for the members of a Struct from any member on |
| `Construct.UnpackPack` | pyaudit/elftools/construct/core.py:351-360 | a signed or unsigned integer in range comes back from its bytes |
| `Construct.TextIff` | pyaudit/elftools/construct/adapters.py:234-237 | a string that builds comes back as itself if and only if it is NUL-free |
| `Construct.SameNameNeverBuilds` | pyaudit/elftools/construct/macros.py:252-263 | in particular a PrefixedArray whose element has the name of its length field never builds |
| `Construct.ArrayFailure` | pyaudit/elftools/construct/core.py:417-436 | a missing byte in an element is an error of the array, never of the field |
| `ConstructRun.BuildThenParse` | pyaudit/elftools/construct/core.py:351-729 | an object without loss builds exactly when it fits; building into a stream, appending anything and parsing gives the same object, with the stream exactly behind the built bytes |
| `ConstructRun.ParseValue` | pyaudit/elftools/construct/core.py:351-360 | the parsers on a stream and a mutable context do what the layout denotes |
| `ConstructRun.ParseStruct` | pyaudit/elftools/construct/core.py:636-653 | the members are parsed in a new context; the enclosing one is untouched |
| `ConstructRun.ParseElements` | pyaudit/elftools/construct/core.py:417-436 | the loop over the elements, with its error wrapping |
| `ConstructRun.ParsePrefixed` | pyaudit/elftools/construct/core.py:696-713 | length, elements and the two entries left in the shared context |
| `ConstructRun.ParseString` | pyaudit/elftools/construct/core.py:564-581 | characters up to the first terminator |
| `ConstructRun.BuildValue` | pyaudit/elftools/construct/core.py:355-360 | the builders append exactly the bytes the layout denotes |
| `ConstructRun.BuildString` | pyaudit/elftools/construct/core.py:582-598 | characters up to and including the first terminator are written |
| `VersionReaders.ReadersAgree` | get_libstdcxx_version/get_libstdcxx_version.h:157-195 | on every chain of definitions without steps between their auxiliaries, so with one auxiliary each, whose names have GLIBCXX_ only as a prefix, at least once, and suffixes both parsers understand, the C maximum is the packing of the Python maximum |
| `VersionReaders.ReadersDiffer` | get_libstdcxx_version/get_libstdcxx_version.h:174-188 | a section with one definition and two auxiliaries on which the C reader reports 3.0.0 and the Python reader 4.0.0 |
| `VersionReaders.CMaxIsMaximum` | get_libstdcxx_version/get_libstdcxx_version.h:175-185 | the C result is an upper bound of the packed versions of all prefixed names and is attained by one; there is none exactly when no name is prefixed |
| `VersionReaders.PyMaxIsMaximum` | pyaudit/audit_libstdcxx.py:104-116 | the Python result is not below the tuple of any name in which GLIBCXX_ occurs, and is attained by one or is 0.0.0 |
| `VersionReaders.AuxWalksAgreeIff` | get_libstdcxx_version/get_libstdcxx_version.h:174-188 | with several auxiliaries the C walk, stepping in units of an entry, visits the entries of the byte-stepping Python walk if and only if every step before the last is zero |
| `VersionReaders.NamesOfVisits` | pyaudit/elftools/elf/gnuversions.py:79-95 | the names that either walk meets are those at the offsets it visits |
| `VersionReaders.WalksAgree` | pyaudit/elftools/elf/gnuversions.py:79-125 | on a chain without steps between the auxiliaries of a definition both walks meet the same names in the same order |
| `VersionReaders.CNamesAre` | get_libstdcxx_version/get_libstdcxx_version.h:157-195 | the C walk meets the names of the definitions up to the one that ends the list, each definition vd_next bytes behind the one before, its auxiliaries from vd_aux on in units of an entry |
| `VersionReaders.PyNamesAre` | pyaudit/elftools/elf/gnuversions.py:79-125 | the Python walk meets the names of the first sh_info definitions, auxiliaries in bytes, or fails exactly if one of them has no auxiliary |
| `VersionReaders.NamedVersion` | pyaudit/audit_libstdcxx.py:104-116 | the name GLIBCXX_A.B.C has the tuple (A, B, C) in Python and, with parts modulo 2^32 and cut to a byte, the packing 0x00AABBCC in C |
| `VersionReaders.NamesLookedAt` | pyaudit/audit_libstdcxx.py:104-106 | the C reader looks at names GLIBCXX_ and rest, the Python reader at names that contain GLIBCXX_ |
| `VersionReaders.GetLibstdcxxVersion` | get_libstdcxx_version/get_libstdcxx_version.h:157-205 | the C loops compute the maximum over the names of the section, or none; the result is at most 0x00FFFFFF |
| `VersionReaders.GetGlibcxxVersions` | pyaudit/audit_libstdcxx.py:95-116 | the Python generators and loop compute the maximum over the names, or fail at a definition without auxiliaries |
| `VersionReaders.MaximaAgree` | pyaudit/audit_libstdcxx.py:104-116 | over any list of ordinary names the two maxima agree |
| `Versions.PackedOrder` | get_libstdcxx_version/get_libstdcxx_version.h:56-61 | on versions whose parts fit a byte the packed order is the tuple order, and packing is injective |
| `Versions.ParsersAgree` | pyaudit/audit_libstdcxx.py:81-92 | on suffixes A[.B[.C]] with parts up to 255, and on words that start with neither digit nor dot, the C parser gives the packing of the Python tuple |
| `Versions.VersionStringToInt` | get_libstdcxx_version/get_libstdcxx_version.h:42-61 | the loop in uint32_t arithmetic computes the packed version, at most 0x00FFFFFF; on A.B.C with parts below 2^32 that is min(A,255) * 65536 + min(B,255) * 256 + min(C,255) |
| `Versions.ParsePrinted` | pyaudit/audit_libstdcxx.py:81-92 | three numbers in decimal with dots between them parse to major, minor and patch, in that order; absent ones are zero |
| `Versions.PackPrinted` | get_libstdcxx_version/get_libstdcxx_version.h:42-61 | they are packed in that order, each modulo 2^32 and then cut to a byte |
| `Versions.PartsOfDotted` | pyaudit/audit_libstdcxx.py:82-88 | one to k numerals with dots between them are read as their values, more are refused |
| `Versions.PartsDotted` | pyaudit/audit_libstdcxx.py:82-88 | whatever is accepted is one to k numerals with dots between them |
| `Versions.UsualVersions` | pyaudit/audit_libstdcxx.py:89-92 | 3.4.30 is (3, 4, 30), packs to 0x03041E and is lower than 3.5 |
| `Versions.ScanDigits` | get_libstdcxx_version/get_libstdcxx_version.h:47-55 | a run of digits is accumulated modulo 2^32 |
| `Leb128.UnsignedRoundTrip` | pyaudit/elftools/common/construct_utils.py:50-66 | every encoding of a natural wide enough for it, shortest or zero-padded, followed by anything, decodes to the number and takes exactly its own bytes |
| `Leb128.SignedRoundTrip` | pyaudit/elftools/common/construct_utils.py:69-86 | every encoding of an integer wide enough for it, shortest or sign-padded, followed by anything, decodes to the integer and takes exactly its own bytes |
| `Leb128.UnsignedInRange` | pyaudit/elftools/common/construct_utils.py:50-66 | whatever decodes from k bytes is in the 7k-bit unsigned range and those bytes are its k-byte encoding |
| `Leb128.SignedInRange` | pyaudit/elftools/common/construct_utils.py:69-86 | whatever decodes from k bytes is in the 7k-bit two's complement range and those bytes are its k-byte encoding |
| `Leb128.ShortestUnsigned` | pyaudit/elftools/common/construct_utils.py:50-66 | a natural fits k bytes exactly when k is at least its shortest length |
| `Leb128.ShortestSigned` | pyaudit/elftools/common/construct_utils.py:69-86 | an integer fits k bytes exactly when k is at least its shortest length |
| `Leb128.UnsignedExamples` | pyaudit/elftools/common/construct_utils.py:50-66 | the encodings of 2, 127, 128, 129, 12857 and 624485 |
| `Leb128.SignedExamples` | pyaudit/elftools/common/construct_utils.py:69-86 | the encodings of -2, 127, -127, 128, -128 and -129 |
| `Leb128.ParseUnsigned` | pyaudit/elftools/common/construct_utils.py:56-66 | the loop of shifts and disjunctions reads exactly the encoded bytes and returns what they denote; a missing byte is an error |
| `Bitwise.OrAdds` | pyaudit/elftools/common/construct_utils.py:63-64 | or-ing shifted bits to a number below them adds them |
| `Bitwise.ClearSubtracts` | pyaudit/elftools/common/construct_utils.py:86 | clearing bits in a number of ones subtracts them, so that setting all bits from a shift on subtracts its power |
| `Leb128.ParseSigned` | pyaudit/elftools/common/construct_utils.py:75-86 | the same, with all bits from the shift on set when the sign bit of the last byte is |

## Left out

- Construct.RoundTrip: all constructs have names, as the layouts of the repository do; an object of a type that the layout does not expect is one error whatever Python would raise.
- Relocation.DoApplyRelocation: the recipe tables of the architectures are parameters, except those of LoongArch and MIPS.
- LineTable.RowFlags: the operand of DW_LNE_define_file is kept in the list of files, not among the numeric arguments of the entry.
- Opening files, reading them and the dynamic loader itself; `AuditRun.World` stands for what they answer.
- Computation of the origin and the scan of program headers in `la_version`: pointers supplied by the kernel.
- Overflow of size_t in the search-path lengths: a path that long does not fit in memory.
- The scan of section headers in front of the C version reader, and its file-size assertions.
- `pyaudit/elftools/dwarf/typeunit.py`: the algorithm of `compileunit.py` under other names.
- DIE attributes, abbreviation tables, indirect forms, supplementary files, imported units and sibling attributes of reference forms that raise NotImplementedError: behind the abstract record of an entry.
- CFI augmentation data, LSDA pointers, .eh_frame and 64-bit frame entries.
- Reading RELR words from the stream: the words are given as numbers.
- Enum, flag, bit-level, Range, Select, Union and on-demand constructs; string encodings.
- aranges, location lists, notes, attributes sections, descriptions and the C++ type printer: tables and formatting.
- Decompression, CMake scripts, the examples and the test programs.
