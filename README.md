# NVMM: a verified model of the flash record log

NVMM (`nvmm/nvmm.c`) is a small non-volatile memory middleware. It stores
records addressed by a 16-bit id in two erasable flash pages. One page is
active: records are appended at its content index (`ctindex`), each as
`[data, padded to 4 bytes][id u16 | len u16 | delimiter u32]`. A record
becomes visible only when its delimiter `0xAAAAAAAA` is programmed, in the
last of four program passes. Lookups walk the headers backwards from
`ctindex`, so the newest record of an id wins. When a record does not fit,
the active page is marked Dummy and compacted into the other page (newest
record of every legal id, at most once each). The other page is then marked
Active and the old one erased. At start-up `check_nvmm` classifies both
pages by their marker and resumes whatever was interrupted.

The project is built in layers:

- **`layout.dfy`** (module `Layout`): the constants, `PAD_LENGTH`, the
  legality tests and a little-endian codec for the 8-byte line header and
  the 12-byte page header.
- **`flash.dfy`** (`FlashImage`): the flash itself. A program operation
  stores `old & new` in every byte, so it can only clear bits. An erase
  sets the page to 0xFF.
- **`line_log.dfy`** (`LineLog`): the read-only scans on a page snapshot.
  - `FindLine` is find_line_address and `LocateIndex` is locate_ctindex.
  - `WellFormed(p, c)` says the bytes below `c` are a chain of committed
    records.
  - `Store(p, c)` maps every id of that chain to its newest data.
- **`write_line.dfy`** (`LineWrite`) and **`append.dfy`** (`Append`): the
  four passes of write_line, and what the locator sees after a power loss
  at each of them.
- **`defrag.dfy`** (`Compaction`): the scan of defrag_page and its loop
  invariant.
- **`engine.dfy`** (`Engine`): every routine as a function from the state
  before (both pages, `activedpage`, `ctindex`, the geometry) to the state
  after.
  - Paths the model does not cover end in `Unmodelled`, `OutOfModel` or
    `ReadUnmodelled`.
  - `Steady` is the state every API call leaves.
  - `Contents` is the map from id to newest data.
- **`engine_props.dfy`** (`EngineProps`): what the engine promises:
  - writes, reads and no-op writes;
  - compaction keeps the newest record of every legal id;
  - start-up from every marker combination;
  - recovery after a power loss inside a compaction or inside an append.
- **`nvmm.dfy`** (`Driver`): class `Nvmm`. The module statics are fields,
  and the two flash pages are arrays programmed and erased in place. Every
  routine keeps the loop of the source and is proved to compute exactly
  the function of `Engine` that specifies it.
- **`session.dfy`** (`Session`): sequences of writes, and the call sequence
  of the test program `nvmm/test/STM32F103VE/Src/main.c`.

The flash callbacks read_nvbytes, write_nvwords and erase_nvpage are the
arrays and the two functions of `FlashImage`. `nvmm/Src/nvmm/nvmm.h` only
declares their types and the three API prototypes.

On a page with no record, locate_ctindex (`nvmm/nvmm.c:90-110`) gives
16: its loop stops above offset 12 and never reads the word there. Only
the first-use path of check_nvmm sets ctindex to 12. `LineLog.LocateIndex`
gives 16, and `EngineProps.RecoverActive` and `EngineProps.EmptyChainAt16`
state that an empty chain ending at 12 or 16 is found at 16.

## Model

| member | source | states |
|---|---|---|
| Layout.PadLength | nvmm/nvmm.c:51 | the padded length is the least multiple of 4 not below `len`: a multiple of 4, at least `len`, less than `len + 4`, and `len` itself when already aligned |
| Layout.LE16 | nvmm/nvmm.c:69-73 | the two little-endian bytes of a u16 decode back to it |
| Layout.LE32 | nvmm/nvmm.c:69-73 | the four little-endian bytes of a u32 decode back to it |
| Layout.LE16OfU16 | nvmm/nvmm.c:69-73 | encoding a decoded u16 gives back the two bytes it was read from |
| Layout.HeaderRoundTrip | nvmm/nvmm.c:69-73 | decoding the 8 bytes of an encoded line header gives the header back (id, len, delimiter) |
| Layout.HeaderBytesOfDecoded | nvmm/nvmm.c:69-73 | encoding a header decoded from 8 bytes of a page reproduces those 8 bytes |
| Layout.HeaderBytesFields | nvmm/nvmm.c:69-73 | an encoded header reads back id at offset 0, len at 2 and delimiter at 4 |
| Layout.StateOf | nvmm/nvmm.c:32-36 | a page is Active exactly when its first word is 0xAAAAAAAA, Dummy exactly when it is 0, and unrecognised otherwise |
| Layout.PageHeaderBytes | nvmm/nvmm.c:199-206 | the page header active_page programs is 12 bytes whose first word is the marker |
| FlashImage.AndNat | nvmm/nvmm.c:193 | bitwise AND of two naturals never exceeds either operand |
| FlashImage.AndIdentities | nvmm/nvmm.c:193 | programming over an erased byte stores the value; programming 0xFF, or a byte over itself, changes nothing; programming 0 clears |
| FlashImage.AndOnlyClears | nvmm/nvmm.c:193 | a programmed byte has no bit set that the byte before lacked |
| FlashImage.Program | nvmm/nvmm.c:193 | write_nvwords keeps the page length |
| FlashImage.ProgramAt | nvmm/nvmm.c:193 | after a program, each byte inside the window is the AND of old byte and value, every byte outside is unchanged |
| FlashImage.ProgramOnErased | nvmm/nvmm.c:193 | programming into an erased window stores exactly the words written and leaves the rest of the page alone |
| FlashImage.ProgramOverImage | nvmm/nvmm.c:193 | programming bytes that only clear bits of what the window holds stores exactly those bytes |
| FlashImage.ProgramOnlyClears | nvmm/nvmm.c:193 | after any program, every byte holds a subset of the bits it held before |
| FlashImage.ProgramAdjacent | nvmm/nvmm.c:193 | two programs of adjacent windows equal one program of the joined window |
| FlashImage.ProgramExtend | nvmm/nvmm.c:260-266 | copying four more bytes after the first `i` gives the program of the first `i + 4` bytes |
| FlashImage.Erased | nvmm/nvmm.c:122 | an erased page has the page size |
| LineLog.LineAddress | nvmm/nvmm.c:213-252 | find_line_address starts one line header below `offset` and returns an offset at least a header below it; `LineLog.FindLineNewest` states what it finds on a well-formed chain |
| LineLog.LocateFrom | nvmm/nvmm.c:96-109 | the locator loop from `index` stops at most 4 above it, on the same word alignment, never below 16 from an aligned start at or above 12, and above 16 only 4 past a delimiter word; `LineLog.LocateFromFacts` adds that no delimiter lies above it |
| LineLog.LocateIndex | nvmm/nvmm.c:90-110 | locate_ctindex gives at most the page size, at least 16 on a word-aligned page, and above 16 only 4 past a delimiter word; `LineLog.LocateIndexIsHighestDelimiter` adds that it is the highest one |
| LineLog.FindLine | nvmm/nvmm.c:213-252 | the offset find_line_address returns never exceeds the cursor it starts from |
| LineLog.FindLineNewest | nvmm/nvmm.c:213-252 | on a well-formed chain the lookup is never negative, is non-zero exactly for the ids of the store, and then points at the newest record's data, which lies in [12, c) |
| LineLog.LocateSkips | nvmm/nvmm.c:96-108 | scanning down past words that are not the delimiter does not change where the locator stops |
| LineLog.LocateIndexIsHighestDelimiter | nvmm/nvmm.c:90-110 | the located ctindex is word-aligned, between 16 and the page size, 4 past a delimiter word when above 16, and no delimiter word lies at or above it |
| LineLog.LocateFromFacts | nvmm/nvmm.c:96-109 | the same facts for the locator loop started at any aligned offset |
| LineLog.LocateFindsTop | nvmm/nvmm.c:90-110 | when the word below `c` is the delimiter and none at or above `c` is, the locator returns `c` (16 for an empty page) |
| LineLog.LocateWellFormed | nvmm/nvmm.c:90-110 | on a well-formed chain with an erased tail the locator finds the end of the chain, or 16 when it is empty |
| LineLog.ChainTop | nvmm/nvmm.c:443-463 | a non-empty chain ends in a committed header whose record sits on a well-formed chain, and the store is that chain's store updated with the top record |
| LineLog.WellFormedFrame | nvmm/nvmm.c:213-250 | the chain and its store depend only on the bytes of the record area below `c` |
| LineLog.StoreBounds | nvmm/nvmm.c:213-250 | every stored record lies inside [12, c) together with its header |
| LineLog.ExtendChain | nvmm/nvmm.c:557-560 | a record with a committed header directly above a chain extends it: the store maps its id to its data and keeps every other id |
| LineLog.DelimiterBytes | nvmm/nvmm.c:44 | a word reads as the delimiter only if each of its bytes is 0xAA |
| LineWrite.HeaderAfterPass | nvmm/nvmm.c:443-463 | the header image after each pass: the length from pass 1 on, the id from pass 3 on, and the delimiter 0xFFFFFFFF until pass 4, 0xAAAAAAAA after it |
| LineWrite.HeaderPassesOnlyClear | nvmm/nvmm.c:447-463 | each header image only clears bits of the one programmed before it |
| LineWrite.WriteLinePass | nvmm/nvmm.c:443-464 | a partial write_line keeps the page length |
| LineWrite.WriteLine | nvmm/nvmm.c:443-464 | write_line keeps the page length |
| LineWrite.DataPassBytes | nvmm/nvmm.c:453 | pass 2 stores the data words into the erased data window |
| LineWrite.HeaderPassBytes | nvmm/nvmm.c:451-463 | passes 1, 3 and 4 store the next header image over the previous one |
| LineWrite.WriteLinePassBytes | nvmm/nvmm.c:443-464 | after any number of passes into an erased window: nothing outside the record changes, the data is in place from pass 2, and the header holds the image of that pass |
| LineWrite.WriteLineBytes | nvmm/nvmm.c:443-464 | the page byte by byte after all four passes |
| LineWrite.WriteLineFrame | nvmm/nvmm.c:443-464 | write_line changes nothing outside the record it writes |
| LineWrite.WriteLineData | nvmm/nvmm.c:453 | after write_line the data window holds the data |
| LineWrite.WriteLineHeader | nvmm/nvmm.c:461-463 | after write_line the header reads as id, len and the delimiter |
| LineWrite.WriteLineImage | nvmm/nvmm.c:443-464 | a completed write_line stores the data followed by the committed header, and nothing else changes |
| Append.AppendKeepsTail | nvmm/nvmm.c:557-560 | after an append the page above the new record is still erased |
| Append.AppendRecord | nvmm/nvmm.c:557-560 | appending at the end of a well-formed chain with an erased tail extends the chain: the store maps the id to the data, keeps the rest, and the tail stays erased |
| Append.TornWordOutside | nvmm/nvmm.c:443-464 | a torn write leaves no delimiter word above the new record |
| Append.TornWordData | nvmm/nvmm.c:453 | no data word of a torn write reads as the delimiter, given data without delimiter words |
| Append.TornWordHeader | nvmm/nvmm.c:451-463 | the id/len word of a torn header is never the delimiter; its delimiter word is the delimiter exactly after pass 4 |
| Append.TornWriteWords | nvmm/nvmm.c:443-464 | at or above `c`, a word is the delimiter exactly when pass 4 is done and it is the new header's delimiter word |
| Append.TornDelimiters | nvmm/nvmm.c:443-464 | TornWriteWords for every aligned word at or above `c` |
| Append.TornKeepsTop | nvmm/nvmm.c:443-464 | a torn write keeps the delimiter of the record below it |
| Append.CompletedTop | nvmm/nvmm.c:90-110 | the same as CompletedShowsRecord, from only a word-aligned chain end above the page header |
| Append.TornAbove | nvmm/nvmm.c:443-464 | no aligned word above the new record is the delimiter |
| Append.TornHidesRecord | nvmm/nvmm.c:90-110 | before pass 4, the locator finds the same ctindex as before the write |
| Append.CompletedShowsRecord | nvmm/nvmm.c:90-110 | after pass 4, the locator finds the index just past the new record |
| Append.TornLocate | nvmm/nvmm.c:90-110 | the locator over any prefix of the passes: the old ctindex before pass 4, just past the record after it |
| Append.TornWriteLocate | nvmm/nvmm.c:443-464 | the same, stated on the page write_line leaves after `passes` passes |
| Compaction.CopyLine | nvmm/nvmm.c:254-267 | copy_line keeps the target page length |
| Compaction.DefragScan | nvmm/nvmm.c:283-326 | where the scan is covered, the target keeps its length and its end only grows, staying within the page |
| Compaction.Defrag | nvmm/nvmm.c:277-326 | the same for the whole scan from ctindex into the target after its page header |
| Compaction.Legal | nvmm/nvmm.c:45-48 | the entries of a store whose ids pass IS_LINEID_LEGAL, with their data unchanged |
| Compaction.CopiedWindow | nvmm/nvmm.c:254-267 | copying into the erased end of the target stores exactly the source bytes in the window, keeps every byte below it and leaves the bytes above it erased |
| Compaction.CopyRecord | nvmm/nvmm.c:317-321 | copying a committed record with its header to the end of a well-formed target chain extends that chain by the record |
| Compaction.CopiedRecordBytes | nvmm/nvmm.c:317-321 | copying a record with its header into the erased end of the target puts that header and data there, keeps the bytes below and leaves the rest erased |
| Compaction.LegalSkips | nvmm/nvmm.c:287 | a record of an illegal id does not change what compaction keeps |
| Compaction.MergeKeeps | nvmm/nvmm.c:313-323 | a record whose id the target already holds is not copied: the newer copy wins |
| Compaction.MergeCopies | nvmm/nvmm.c:317-322 | a record of a legal id the target lacks is added |
| Compaction.DefragStepSkip | nvmm/nvmm.c:287-311 | the scan passes over a committed-looking header of an illegal id |
| Compaction.DefragStepCopy | nvmm/nvmm.c:313-325 | the scan copies a committed record whose id is new, and goes on with that id as history |
| Compaction.DefragStepKeep | nvmm/nvmm.c:313-325 | the scan passes over a committed record whose id it met last or the target holds |
| Compaction.ScanPassesHeader | nvmm/nvmm.c:289-292 | an uncommitted header with an illegal length moves the cursor down one header |
| Compaction.ScanPassesRecord | nvmm/nvmm.c:295-298 | an uncommitted header with a legal length moves the cursor past its record |
| Compaction.ScanStops | nvmm/nvmm.c:299-306 | an uncommitted header whose record would reach below the cursor stops the scan with -1 |
| Compaction.ScanCommitted | nvmm/nvmm.c:313-325 | on a covered scan a committed record lies above the page header |
| Compaction.ScanCopyFits | nvmm/nvmm.c:317-321 | on a covered scan a copied record is word-aligned and fits in the target |
| Compaction.WordsWithHeader | nvmm/nvmm.c:319-321 | a word-aligned record stays word-aligned with its header |
| Compaction.ScanCopies | nvmm/nvmm.c:317-325 | the rest of the scan after a copy, from the target as copied |
| Compaction.ScanKeeps | nvmm/nvmm.c:313-325 | the rest of the scan after a committed record it does not copy |
| Compaction.DefragScanCorrect | nvmm/nvmm.c:269-338 | loop invariant of defrag_page on a well-formed source. The scan completes; the target stays a well-formed chain with an erased tail; only the tail changes; the copies take no more room than the source chain; the target then holds the newest record of every legal source id it lacked |
| Compaction.ScanSkip | nvmm/nvmm.c:287-311 | the invariant is kept past a record of an illegal id |
| Compaction.ScanCopy | nvmm/nvmm.c:313-325 | the invariant is kept past a copied record |
| Compaction.CopiedAfterCopy | nvmm/nvmm.c:317-322 | what the scan guarantees after a copy implies what it guarantees before it |
| Compaction.ScanKeep | nvmm/nvmm.c:313-325 | the invariant is kept past a record that is not copied |
| Engine.SetPageFacts | nvmm/nvmm.c:52 | replacing one page changes that page only |
| Engine.ErasePage | nvmm/nvmm.c:117-137 | erase_page keeps a valid state |
| Engine.ActivatePage | nvmm/nvmm.c:199-208 | active_page keeps a valid state |
| Engine.MarkDummy | nvmm/nvmm.c:433-440 | dummy_activedpage keeps a valid state |
| Engine.Locate | nvmm/nvmm.c:90-110 | locate_ctindex leaves ctindex between 16 and the page size |
| Engine.AppendLine | nvmm/nvmm.c:557-560 | the append keeps a valid state |
| Engine.AppendLineFacts | nvmm/nvmm.c:557-560 | after an append the active page is the write_line image, ctindex has advanced by `len + 8`, and nothing else changed |
| Engine.CleanPage | nvmm/nvmm.c:143-157 | clean_page keeps a valid state |
| Engine.DefragPage | nvmm/nvmm.c:269-338 | defrag_page keeps the geometry and returns 0 or -1; on 0 the other page is active, ctindex is between 12 and the page size and the source page is erased; on -1 activedpage, ctindex and the source page are unchanged. `EngineProps.DefragSteady` states the contents it keeps |
| Engine.MakeRoom | nvmm/nvmm.c:550-554 | the compaction before an append keeps a valid state with ctindex inside the page, and changes nothing when the padded record and a page header fit above ctindex; `EngineProps.CompactSteady` states the contents it keeps |
| Engine.WriteNvmm | nvmm/nvmm.c:520-564 | g_write_nvmm returns 0 wherever the model covers it, keeps a valid state, and after a write that is not a no-op ctindex lies above the new record; `EngineProps.WriteSteady`, `EngineProps.WriteCovered` and `EngineProps.ReadAfterWrite` state what it stores |
| Engine.ReadNvmm | nvmm/nvmm.c:574-591 | g_read_nvmm returns data only for a non-null buffer, a length between 1 and the buffer size and an id it finds, and then exactly `len` bytes; an id with no record fails; `EngineProps.ReadContents` states which bytes |
| Engine.Resume | nvmm/nvmm.c:398-430 | the tail of check_nvmm returns 0 wherever the model covers it and leaves a page active with ctindex inside it; `EngineProps.RecoverFresh`, `EngineProps.RecoverActive` and `EngineProps.RecoverWithDummy` state each branch |
| Engine.CheckNvmm | nvmm/nvmm.c:346-430 | check_nvmm returns 0 wherever the model covers it and leaves a page active with ctindex inside it; `EngineProps.RecoverSteady` states that a steady state survives it unchanged |
| Engine.InitNvmm | nvmm/nvmm.c:487-512 | g_init_nvmm returns -1 exactly when a flash callback is missing, and then changes nothing; otherwise 0, with a page active and ctindex inside it |
| Engine.ClassifyPages | nvmm/nvmm.c:346-396 | classifying keeps the geometry and ctindex; activedpage is NULL or a page; the Dummy page is NULL or the page that is not activedpage |
| EngineProps.ErasedIsErase | nvmm/nvmm.c:122-132 | a page of 0xFF bytes is the page erase_page produces |
| EngineProps.ActivateChain | nvmm/nvmm.c:199-208 | programming the Active header over an erased header keeps the chain, its store and the erased tail, and makes the marker read Active |
| EngineProps.MarkDummyChain | nvmm/nvmm.c:433-440 | programming the Dummy marker keeps the chain, its store and the erased tail, and makes the marker read Dummy |
| EngineProps.DefragImage | nvmm/nvmm.c:269-334 | the scan into an erased page, then the Active header: an Active page whose chain holds the newest record of every legal source id, no longer than the source, with an erased tail |
| EngineProps.DefragSteady | nvmm/nvmm.c:269-338 | defrag_page from a well-formed page into an erased one returns 0 and leaves a steady state on the other page. Its contents are the legal ids of the source with their newest data; ctindex does not grow |
| EngineProps.CompactSteady | nvmm/nvmm.c:550-554 | marking a steady page Dummy and compacting it gives a steady state holding the legal part of the contents, with ctindex no higher |
| EngineProps.AppendMarker | nvmm/nvmm.c:557 | an append above the page header leaves the page marker alone |
| EngineProps.AppendPage | nvmm/nvmm.c:557-560 | an append keeps the marker, extends the chain by the record and keeps the tail erased |
| EngineProps.AppendSteady | nvmm/nvmm.c:557-560 | appending to a steady state with room keeps it steady and makes the record the newest of its id |
| EngineProps.WriteSteady | nvmm/nvmm.c:520-564 | g_write_nvmm from a steady state returns 0 and leaves a steady state. A no-op write keeps the contents; otherwise `id` maps to the padded data, after compaction has dropped illegal ids when it was needed |
| EngineProps.WriteCovered | nvmm/nvmm.c:527-560 | a write of a legal padded length that needs no compaction is covered by the model exactly when its comparison with the id's newest record stays inside the page |
| EngineProps.ReadContents | nvmm/nvmm.c:574-591 | g_read_nvmm fails for a null buffer, zero length or size, or a short buffer. It fails for an id with no record. Otherwise, when `len` is at most the record's length, it returns the first `len` bytes of the newest record |
| EngineProps.ReadAfterWrite | nvmm/nvmm.c:520-591 | a read of `len` bytes after a write of the same id returns the bytes written |
| EngineProps.WriteAdvance | nvmm/nvmm.c:547-560 | a write that appends moves ctindex by the padded length plus 8. Without compaction it stays on the same page with a word free above it; with compaction it moves to the other page and ends no higher |
| EngineProps.WriteFindsItself | nvmm/nvmm.c:527-545 | after a write, the same write is a no-op on the steady state it left |
| EngineProps.StoredIsNoOp | nvmm/nvmm.c:527-545 | a write of the bytes a steady state holds as the id's newest record is a no-op |
| EngineProps.WriteTwice | nvmm/nvmm.c:520-545 | writing the same bytes twice: the second write changes nothing and returns 0 |
| EngineProps.EmptyChainAt16 | nvmm/nvmm.c:96-109 | an empty chain may end at 12 or 16; both give the empty store |
| EngineProps.RecoverWithActive | nvmm/nvmm.c:353-427 | with one page Active and the other not: the other page ends up erased, the Active page is activedpage untouched, and ctindex is located on it |
| EngineProps.RecoverActive | nvmm/nvmm.c:353-427 | the same from a well-formed Active page: steady, with the records of that chain, and ctindex at its end (16 when empty) |
| EngineProps.RecoverSteady | nvmm/nvmm.c:346-430 | start-up from a steady state changes no flash byte and no record |
| EngineProps.FreshState | nvmm/nvmm.c:398-405 | the fresh state is steady, on page A, with ctindex 12 and no record |
| EngineProps.RecoverFresh | nvmm/nvmm.c:346-405 | with no page Active or Dummy, or both Active: page A is activated, empty, with ctindex 12 |
| EngineProps.MarkDummyLocate | nvmm/nvmm.c:90-110 | on a chain marked Dummy the locator finds the same records |
| EngineProps.RecoverWithDummy | nvmm/nvmm.c:398-414 | with one page Dummy and the other unrecognised: the other page is cleaned, then the Dummy page is located and compacted, returning 0 |
| EngineProps.RecoverInterruptedCompaction | nvmm/nvmm.c:346-414 | power loss after marking Dummy and before activating the target: start-up cleans the target and compacts again, leaving a steady state with the legal contents |
| EngineProps.RecoverDummyChain | nvmm/nvmm.c:346-414 | with one page Dummy, holding a well-formed chain up to where the locator stops, and the other unrecognised: start-up compacts the Dummy page onto the cleaned page and is steady there with the records of every legal id of that chain |
| EngineProps.RecoverAfterActivation | nvmm/nvmm.c:328-334 | power loss after defrag_page activates the target and before it erases the Dummy source page: the compaction completes, and start-up erases the Dummy page and is steady on the target with the legal contents |
| EngineProps.TornChain | nvmm/nvmm.c:443-464 | before the delimiter pass, the locator finds the old chain with the old store |
| EngineProps.TornComplete | nvmm/nvmm.c:443-464 | after the delimiter pass, the locator finds the chain extended by the new record |
| EngineProps.TornPage | nvmm/nvmm.c:443-464 | a page after any prefix of the passes keeps its marker, and the chain found holds the old records before pass 4 and the new one after it |
| EngineProps.RecoverTornWrite | nvmm/nvmm.c:557 | start-up after a power loss inside an append returns 0 on the same page. The records found are the old ones until the delimiter pass, then the old ones plus the new record |
| Driver.Nvmm.constructor | nvmm/nvmm.c:58-64 | the statics before g_init_nvmm: activedpage 0xFFFF, ctindex 0, the default page ids and size |
| Driver.Nvmm.LocateCtindex | nvmm/nvmm.c:90-110 | the loop leaves exactly the state `Locate` gives |
| Driver.Nvmm.ErasePage | nvmm/nvmm.c:117-137 | the page is erased, the read-back loop finds nothing to report, it returns 0 |
| Driver.Nvmm.CleanPage | nvmm/nvmm.c:143-157 | the page is 0xFF everywhere afterwards, as `Engine.CleanPage` gives, and nothing else changes |
| Driver.Nvmm.VerifyWords | nvmm/nvmm.c:162-178 | returns 0 exactly when the `count` words at `offset` equal the reference, -1 otherwise |
| Driver.Nvmm.WriteWords | nvmm/nvmm.c:191-195 | the page becomes the program of the `count` words at `offset`; the verification result is dropped |
| Driver.Nvmm.WriteWord | nvmm/nvmm.c:184-188 | the page becomes the program of the word at `offset` |
| Driver.Nvmm.ActivePage | nvmm/nvmm.c:199-208 | the page gets the Active header and becomes activedpage |
| Driver.Nvmm.DummyActivedPage | nvmm/nvmm.c:433-440 | the Dummy marker is programmed over the active page's marker |
| Driver.Nvmm.FindLineAddress | nvmm/nvmm.c:213-252 | the loop returns exactly the lookup `LineAddress` of the page |
| Driver.Nvmm.CopyLine | nvmm/nvmm.c:254-267 | the target becomes the program of the `len` source bytes; the active page is untouched |
| Driver.Nvmm.WriteLine | nvmm/nvmm.c:443-464 | the page becomes the four-pass write_line image |
| Driver.Nvmm.ScanRecord | nvmm/nvmm.c:283-326 | one pass of the loop: the cursor moves down; the rest of `DefragScan` from the new cursor, target and history equals the scan before it |
| Driver.Nvmm.ScanCommittedRecord | nvmm/nvmm.c:313-325 | the pass over a committed header: the id it records is the header's and the cursor moves below the record; the rest of `DefragScan` after the pass, with the record copied when its id is new to the scan and to the target, equals the scan before it |
| Driver.Nvmm.CopyRecords | nvmm/nvmm.c:277-326 | the loop ends as `Defrag` does: the copies and their end, and ok exactly when the scan reached the page header |
| Driver.Nvmm.DefragPage | nvmm/nvmm.c:269-338 | the new state and return code are exactly those of `Engine.DefragPage` |
| Driver.Nvmm.ClassifyPages | nvmm/nvmm.c:346-396 | page A, then page B, classified and cleaned as `Engine.ClassifyPages` says, with the Dummy page returned |
| Driver.Nvmm.CheckNvmm | nvmm/nvmm.c:346-430 | the new state and return code are exactly those of `Engine.CheckNvmm` |
| Driver.Nvmm.Init | nvmm/nvmm.c:487-512 | the new state and return code are those of `InitNvmm`; a return of 0 leaves a valid engine |
| Driver.Nvmm.SameData | nvmm/nvmm.c:531-545 | the comparison loop reports same exactly when the `len` page bytes at `offset` are the first `len` bytes of `dat`, and overrun exactly when it reaches the end of the page with every byte equal and bytes of `dat` left |
| Driver.Nvmm.MakeRoom | nvmm/nvmm.c:550-554 | when the record does not fit, the active page is marked Dummy and compacted, as `Engine.MakeRoom` says |
| Driver.Nvmm.Write | nvmm/nvmm.c:520-564 | the new state and return code are exactly those of `WriteNvmm` |
| Driver.Nvmm.AppendRecord | nvmm/nvmm.c:557-560 | write_line at ctindex and ctindex advanced, as `AppendLine` says |
| Driver.Nvmm.Read | nvmm/nvmm.c:574-591 | returns 0 with the bytes `ReadNvmm` gives, or -1 exactly when it fails |
| Session.WriteRecord | nvmm/nvmm.c:520-564 | after a write of `id`, its record is the padded data, or for a no-op write the record that was there |
| Session.WriteHolds | nvmm/nvmm.c:527-560 | after a write of `id`, its record starts with the bytes written, provided any old record of `id` is at least `len` bytes long |
| Session.WriteKeeps | nvmm/nvmm.c:520-564 | a write of `id` keeps the record of every other legal id and adds none |
| Session.RunFirst | nvmm/test/STM32F103VE/Src/main.c:304-313 | a covered run starts with a covered g_write_nvmm and continues from the state it leaves |
| Session.RunStep | nvmm/test/STM32F103VE/Src/main.c:304-313 | the first call of a run is a covered g_write_nvmm, and the state it leaves is steady and is where the rest of the run continues. The id it writes holds the data written (or the matching old record), and every other legal id keeps its record |
| Session.RunKeeps | nvmm/test/STM32F103VE/Src/main.c:304-313 | a run of writes that avoid a legal id keeps that id's record and leaves a steady state |
| Session.TestProgram | nvmm/test/STM32F103VE/Src/main.c:301-314 | on blank storage: a read of id 0 fails; after writing ids 0, 1, 0, 0, id 0 reads back its last write and id 1 its only write |
| Session.TestProgramReads | nvmm/test/STM32F103VE/Src/main.c:304-313 | the read after each of the four writes, of the id just written, returns the bytes that write stored, for any length from 1 to the buffer size |

## Left out

- Flash callbacks are in-memory pages that cannot fail. The status codes of read_nvbytes, write_nvwords and erase_nvpage are ignored by the source and absent here. For the same reason `Driver.Nvmm.ErasePage` always returns 0: an erase that leaves a byte other than 0xFF is not modelled.
- A power loss inside a single program word, and a torn erase, are not modelled. Power loss is modelled only between the passes of write_line (`EngineProps.RecoverTornWrite`) and inside a compaction, before the target is activated (`EngineProps.RecoverInterruptedCompaction`) and after it (`EngineProps.RecoverAfterActivation`).
- EngineProps.RecoverTornWrite: does not claim a steady state after recovery. The bytes of a torn record above the located ctindex stay programmed. The next append then programs over them, and neither the source nor the model cleans them.
- Dummy page plus Dummy page at start-up is covered by `Engine.CheckNvmm` but no property is proved. Page B wins, and the compaction then targets a page that is not erased.
- Two Active pages, or no recognised page, at start-up: both cases are proved only to reach the fresh state (`EngineProps.RecoverFresh`). The one case left unstated is a Dummy page whose located chain is not well-formed, beside an unrecognised page: `EngineProps.RecoverWithDummy` states the result, not its steadiness. For a Dummy page with a well-formed chain, `EngineProps.RecoverDummyChain` proves steadiness whatever the unrecognised page holds. Every Dummy page made from a steady state is such a page (`EngineProps.RecoverInterruptedCompaction`).
- Uint16 wrap-around is not reproduced. Every place where it would happen ends in a path the model leaves out:
  - in `Engine.WriteNvmm` and `Engine.ReadNvmm`: a lookup match whose length exceeds the cursor, where find_line_address would wrap `offset - len`;
  - in `Compaction.DefragScan`: the unchecked `offset_src -= len + 8` of a committed header, a copy of a length that is not word-aligned, or a copy past the end of the target;
  - in `Engine.WriteNvmm`: a padded length of 0x10000 or more, which the header's u16 `len` would truncate. The source has no check there. A padded length from 0x8000 to 0xFFFF is not truncated, but it writes a `len` field that the scans treat as illegal. The model leaves both out.
- There is no fit re-check after compaction. When the compacted page still lacks room, write_line would write past the page; `Engine.WriteNvmm` leaves that path out.
- Engine.WriteNvmm: a no-op comparison that reaches the end of the active page with every byte equal and bytes of `dat` left is `Unmodelled`. The source goes on reading the flash after the page, and what it does next depends on those bytes. A steady state can reach this: a record near the top of the page followed by `dat` that repeats the rest of the page. `Driver.Nvmm.SameData` reports the case. `EngineProps.WriteCovered` states that, without compaction, it is the only write of a legal length the model does not cover.
- Driver.Nvmm.Write: requires the write to be covered by `Engine.WriteNvmm`, so it says nothing about the comparison that runs past the page.
- Engine.ReadNvmm: a read whose `len` bytes from the record's offset run past the end of the active page is `ReadUnmodelled`. The source reads on into the flash after the page and returns 0 with those bytes. Any read of a record that starts less than `len` bytes below the end of the page takes this path, for example a 30-byte read of the test program on a nearly full page.
- Driver.Nvmm.Read: requires the read to be covered by `Engine.ReadNvmm`, so it says nothing about a read that runs past the page or follows a wrapped lookup.
- `dat` is the `PAD_LENGTH(len)` bytes write_line reads from the caller's buffer. When `len` is not a multiple of 4 the source reads past the caller's object. The model takes those bytes as given.
- The `len` field of the dummy line header that active_page programs is an uninitialised stack value. It is the constant `stackLen` fixed when the engine is built, and no scan reads it.
- Page ids must be non-zero (NVMM_PAGE_NULL), distinct, and below 256 (clean_page takes a uint8_t). The page size must be word-aligned, below 0x10000, and at least 16 bytes. A g_init_nvmm call that breaks this ends in `Unmodelled`.
- g_init_nvmm's callbacks are three booleans: present or null. FLASH_ADDRESS byte arithmetic is replaced by choosing page A or page B.
- The debug statement in the locator loop, `index = index` when `index == 8`, does nothing and is not modelled.
- Session.TestProgram: states the first read of id 0, which fails, and the reads of ids 0 and 1 after the last write. It assumes each rewrite of id 0 is no longer than the padded record it may match. `Session.TestProgramReads` states the read after each write. Both state reads of exactly the length written. The test program reads 30 bytes, which includes bytes after the record; those are not characterised.
- Session.WriteHolds: requires any old record of `id` to be at least `len` bytes long. The no-op comparison of g_write_nvmm does not stop at the end of the record it finds. A shorter old record followed by matching bytes makes the write a no-op while the record stays shorter.
- Data whose words equal the delimiter 0xAAAAAAAA would mislead locate_ctindex after a torn write. The torn-write lemmas require data without such words.
- Records of ids 0x8000 and above can be written and read. Compaction drops them, so after a write that compacts, `EngineProps.WriteSteady` states the contents as `Legal` of the old ones.
