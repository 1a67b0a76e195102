# A verified model of hp-ams

hp-ams is an SNMP subagent for Linux servers. Most of it is generated table plumbing; this project models its
hand-written core in Dafny and proves what that core is meant to do: the parsers that walk raw bytes, the recorder
session that talks to the management processor, and the loops that split, repair, cut and pack buffers.

`dafny verify dfyconfig.toml` checks everything. Each source file has a module, and each C function that changes
state is a method with the same branches and loops, proved against a function on values. What the repository
promises is then proved about those functions, for all inputs and over whole runs.

| Module | Models |
|---|---|
| `Wrappers`, `Bytes`, `Delimited`, `CStrings` | missing values; machine integers; runs of cells closed or separated by a marker; C strings cut in place |
| `SmbiosFormat`, `SmbiosLookup`, `Smbios` | `common/smbios.c`: entry point, cursor, lookups, strings (DSP0134) |
| `PciSlots` | the port and slot searches of `common/utils.c` |
| `LinkMessages`, `NicTables` | the netlink loop of `cpqNic/` and the two tables it drives (RFC 3549) |
| `RecorderProtocol`, `Recorder` | the session of `recorder/log.c` and `recorder/linux.c`, as a state machine and as code |
| `Uevents` | `common/nl_udev.c`: uevent parser and callback registry |
| `FileLines` | `ReadFile` and `ReadFileLines` of `common/utils.c` |
| `CsvRows`, `MakeNicDb` | the row loop of `common/make_nic_db.c` against a quote-aware reading (RFC 4180) |
| `ProcUsage`, `Blobs` | descriptor chunks of `recorder/procusage.c`; the records of `recorder/package.c` and `recorder/driver.c` |
| `CrashMessages`, `Crashes` | message splitting and tag-file bookkeeping of `recorder/crash.c` |

System calls, the recorder device, memory allocation and the file system are parameters that may answer anything.
Pointers into a buffer are offsets; `NULL` is `None`.

## What does not hold

Where the code falls short of what its comments or its design suggest, the model follows the code, and the project
proves when the promise holds:

- "A class or handle is only kept over the opening that answered it" fails after `close_rec(0)`, which the usage
  loggers call (`recorder/data_access/perf.c:79`). It holds over exactly the runs without such a call on a live session
  (`CurrentIffDisciplined`). `StaleRunExists` is a run of three calls that sends a stale handle, and `RunFreshIff` says
  of every run, past soft closes too, that it sends nothing stale exactly when no call finds a channel while it carries
  a class or handle from another opening.
- `rec_init` returns 1 in every case, because `false` is defined as 1 (`recorder/log.c:10-15`).
- With the `max_ccb` parameter set to m, the first device name tried is empty, so channel m - 1 is never opened; the
  search still gives what a search from m - 1 would give exactly when that channel does not open, or opens with the
  answer of the search below it (`TopChannelFoundIff`). When it alone opens, the search fails (`OnlyTopOpens`).
- `log_buffer_contents` drops one character of every 962, contrary to its comment. The whole message is sent exactly
  when it has at most 961 characters, and stepping by 961 is the one step that sends every message whole.
- `LOG_PROCESS_CRASHES` adds up results that are 1 when the crash utility could not be run, -1 when its output could
  not be logged and 0 otherwise, and tags when the sum is zero. A clean run hides failures exactly when there are as
  many of one kind as of the other, and any (`CleanHidesFailures`); `BothFailedBothTagged` is a run of two crashes.
  Result 0 says that the last piece of the output was logged, whatever the exit statuses of the tools.
- `ReadFile` leaves its buffer NUL-terminated for certain exactly when the file has fewer than 2044 bytes, and
  `ReadFileLines` stores a pointer outside the slots it allocated exactly when the string it reads has no newline, as
  in the empty file (`EmptyFileStoresOutside`).
- Splitting a row of 24 fields or more and then repairing it agrees with the quote-aware reading exactly when commas
  stand only in the `"3,3V"` of column 13 and in column 15, and column 15 is unquoted without commas, or quoted with
  only its last piece ending in a quote (`RepairExactly`).
- The repair of a row stays inside it exactly when 24 columns are left after the description, if it opens with a quote,
  has taken the pieces up to the first that ends in one (`RowFitsIff`); an unclosed description is a row where it does
  not (`UnclosedRowDoesNotFit`).
- A package too large for a record ends the whole pass, so no record marked Last is sent (`LastArrives`).
- Field numbers of processor descriptors are one byte wide, hence unique exactly up to 128 processors.
- Uevent actions are matched by substring in a buffer of 15 characters. An action reaches a callback exactly when it
  is a substring of what the buffer keeps of a registered one (`ReachesIff`); for a list that fits, an action it does
  not name gets through exactly when it is a proper substring of one it names, as "move" is of "remove"
  (`UnlistedReachesIff`); a named one gets through exactly when it lies within the 15 characters or inside what they
  keep of one before it (`ListedActionMatches`, `ThirdActionLost`); and an empty action always does.
- The netlink loop reads a message length behind its 16384-byte buffer exactly when 16381, 16382 or 16383 bytes were
  received and the chain of accepted messages, the last one rounded up to four bytes, ends behind them
  (`OverrunExactly`). What it reads there never changes the tables.
- The entry point scan may sum up to 239 bytes behind its window. They decide about a paragraph exactly when it has
  the anchor and version 2.1 or later and its stated length crosses the end of the window (`WindowDecides`);
  `LastParagraphDepends` is such a window.
- The slot and port searches read a structure's bus number at a fixed offset whatever length it states. A slot structure
  of 13 bytes, the length in SMBIOS versions 2.1 to 2.5, has text or another structure there: the search finds bus 67
  in the string "ABC" (`ShortSlotMisread`, `ShortSlotExists`). It ends at the first structure that owns the match
  exactly when no shorter one before it matches with bytes that are not its own (`SlotIsLinearSearch`,
  `PortIsLinearSearch`).
- The cursor over the structures never checks that a structure covers its own header, so it also walks tables that are
  no encodings, such as the four bytes 1, 2, 0, 0 (`ShortHeaderStays`); the difference is exactly a stated length below
  four (`WalkableIffEncoding`).
- A uevent reaches each callback it concerns once exactly when one socket was opened by the `udev_register` calls up to
  the first that found memory (`DeliveredOnceIff`): memory missing for the first call makes events come twice
  (`SecondSocket`), a socket missing for it means that none ever comes (`NeverDelivered`).
- A string number may run one past the last string, or two when there are none, before the pointer leaves the record
  (`StringStaysInRecord`).

## Model

| member | source | states |
|---|---|---|
| `SmbiosFormat.EncodeUndoesDecode` | common/smbios.c:357-388 | every table the cursor can walk is the encoding of the records it reads |
| `SmbiosFormat.DecodeUndoesEncode` | common/smbios.c:357-388 | every list of well-formed records is walkable and read back unchanged |
| `SmbiosFormat.WalkVisitsRecords` | common/smbios.c:357-388 | walking an encoding visits each record's start once, in order, and nothing else |
| `SmbiosFormat.WalkNext` | common/smbios.c:357-388 | one step of the cursor over any table it stays in |
| `SmbiosFormat.WalkableIffLongHeaders` | common/smbios.c:366-380 | a table the cursor stays in is walkable exactly when every structure it visits states at least four bytes |
| `SmbiosFormat.ShortHeaderStays` | common/smbios.c:366-380 | a four-byte table the cursor stays in that is no encoding |
| `SmbiosFormat.WalkableIffEncoding` | common/smbios.c:357-388 | the encodings of well-formed records are exactly the tables the cursor stays in whose structures state at least four bytes |
| `SmbiosFormat.RecordCount` | common/smbios.c:383 | a table of 16-bit length holds at most 10922 records |
| `SmbiosFormat.HeaderMeans` | common/smbios.c:279-310 | type, length and handle are the first four bytes, the handle low byte first |
| `SmbiosFormat.ScanOfText` | common/smbios.c:374-380 | the string scan stops at a record's closing pair of NULs and not before |
| `SmbiosFormat.TextIsWellFormed` | common/smbios.c:394-399 | a list of strings, laid out, is well-formed text that splits back into the list |
| `SmbiosFormat.StringsOfText` | common/smbios.c:394-399 | every well-formed text is the layout of exactly its own strings |
| `SmbiosLookup.MatchesAreTheFilter` | common/smbios.c:271-291 | the type filter holds the indices of the records of that type, each once, in order |
| `SmbiosLookup.StartsAreOffsets` | common/smbios.c:271-291 | the starts looked up are the offsets of those records |
| `SmbiosLookup.StringByNumber` | common/smbios.c:402-422 | number w finds string w, one past the count finds an empty string, both inside the record |
| `SmbiosLookup.StringStaysInRecord` | common/smbios.c:402-422 | exactly which string numbers keep the pointer inside the record |
| `Smbios.ByteSumAdditive` | common/smbios.c:259-269 | the byte sum of a concatenation is the sum of the byte sums |
| `Smbios.ChecksumByte` | common/smbios.c:259-269 | exactly one last byte makes a block sum to zero |
| `Smbios.SmbChecksum` | common/smbios.c:259-269 | the 8-bit running sum is the byte sum modulo 256 for every 16-bit count |
| `Smbios.EntryPointMeans` | common/smbios.c:180-186 | an entry point in bytes: "_SM_" on a 16-byte boundary, a zero sum over the stated length, version 0x0201 or more |
| `Smbios.IsEntryPoint` | common/smbios.c:180-186 | the three tests amount to the definition of an entry point, for every window and whatever lies behind it |
| `Smbios.CrossingDiffers` | common/smbios.c:180-186 | for an announced paragraph whose length crosses the window end, one memory behind it gives an entry point and another does not |
| `Smbios.WindowDecides` | common/smbios.c:176-187 | the bytes behind the window decide about a paragraph exactly when it is announced and its length crosses the end |
| `Smbios.LastParagraphDepends` | common/smbios.c:176-187 | a window with an entry point under one memory behind it and with none under another |
| `Smbios.FindEntryPoint` | common/smbios.c:176-195 | the scan finds the first entry point of the window, or there is none |
| `Smbios.Tables.InitSMBIOS` | common/smbios.c:148-199 | the table stored, its length, the flag and the return, for every outcome of allocation, EFI lookup and reading |
| `Smbios.Tables.TableIsEncoding` | common/smbios.c:357-388 | a valid table encodes its records, of which there are at most 10922 |
| `Smbios.Tables.VisitsAreOffsets` | common/smbios.c:357-388 | in a valid table the cursor stops at the records and nowhere else |
| `Smbios.Tables.SmbGetRecord` | common/smbios.c:357-388 | over every table the cursor stays in: strictly forward from stop k to stop k + 1, or failure at the end; what it leaves behind in either case |
| `Smbios.Tables.SkipText` | common/smbios.c:374-380 | the scan loop stops behind the first pair of NULs, reading only the table |
| `Smbios.Tables.SmbGetRecordByType` | common/smbios.c:271-291 | copy k of a type is member k of the type filter, and fails exactly when there are not that many |
| `Smbios.Tables.SmbGetRecordByHandle` | common/smbios.c:303-317 | the first record with the handle, failing exactly when no record has it |
| `Smbios.Tables.SmbGetRecordByNumber` | common/smbios.c:329-344 | indexing the stops of the cursor, which are the records of a valid table, failing exactly past the end |
| `Smbios.Tables.SmbGetStringByNumber` | common/smbios.c:402-422 | the string behind that many NULs after the structure; number 0 is the empty literal |
| `Smbios.Tables.SkipStrings` | common/smbios.c:418-419 | the loop passes exactly that many strings, reading only the table |
| `PciSlots.FirstPortIsFirst` | common/utils.c:116-123 | the linear search finds the first structure for the function, or there is none |
| `PciSlots.FirstSlotIsFirst` | common/utils.c:145-149 | the linear search finds the first slot on the bus, or there is none |
| `PciSlots.PortOverlayOfRecord` | common/utils.c:118-120 | the overlay matches a record by its own fields exactly when it matches and the record is long enough |
| `PciSlots.PortIsLinearSearch` | common/utils.c:111-125 | searching by copies and one pass over the records end at the same structure exactly when no shorter one before it is misread |
| `PciSlots.PortMeans` | common/utils.c:118-121 | which bytes and bits of a port structure hold bus, device, function and instance |
| `PciSlots.SlotOverlayOfRecord` | common/utils.c:146 | the overlay matches a record by its own field exactly when it matches and the record is long enough |
| `PciSlots.SlotIsLinearSearch` | common/utils.c:140-151 | searching by copies and one pass over the records end at the same slot structure exactly when no shorter one before it is misread |
| `PciSlots.ShortSlotMisread` | common/utils.c:140-151 | every 13-byte slot structure has the third character of its text taken for its bus number |
| `PciSlots.ShortSlotExists` | common/utils.c:140-151 | such a structure, with the string "ABC" |
| `PciSlots.GetChassisPort` | common/utils.c:111-125 | the loop ends for every table and returns the port of the first structure the overlay matches, else 0; that of the first structure that owns the match when none is misread |
| `PciSlots.GetPCIslotRec` | common/utils.c:127-138 | the first structure the overlay matches, which is the first that owns the match exactly when none is misread |
| `PciSlots.GetPCIslotBus` | common/utils.c:140-151 | the identifier of the first structure the overlay matches, else 0; that of the first that owns the match when none is misread |
| `Bytes.LowByteFirst` | common/utils.c:147 | 16-bit and 32-bit loads take the low byte first |
| `Bytes.ConversionsWrap` | cpqNic/cpqNicIfPhysAdapterTable.c:78-110 | conversions to int and to an unsigned 64-bit value beyond their range wrap around |
| `LinkMessages.EventsOfEncoding` | cpqNic/cpqNicIfPhysAdapterTable.c:74-124 | reading an encoded datagram gives every message's event in order, up to a link message too short to carry one |
| `LinkMessages.FirstEvent` | cpqNic/cpqNicIfPhysAdapterTable.c:74-124 | a message is read, refused when too short, or skipped as a bare header at the very end |
| `LinkMessages.LinkMessageMeans` | cpqNic/cpqNicIfPhysAdapterTable.c:93-123 | type 16 asks for a reload, type 17 for a removal, of the interface index the message was written with |
| `LinkMessages.OtherMessagesMean` | cpqNic/cpqNicIfPhysAdapterTable.c:93-123 | a message of any other type has no event |
| `LinkMessages.EventInside` | cpqNic/cpqNicIfPhysAdapterTable.c:74-124 | every event comes from a link message that lies wholly inside the datagram, whatever its bytes |
| `NicTables.IflinkProcess` | cpqNic/cpqNicIfPhysAdapterTable.c:56-125 | the loop ends for every count and content, leaves both tables as folding the datagram's events over them, and reads lengths exactly at the listed places |
| `NicTables.OverrunExactly` | cpqNic/cpqNicIfPhysAdapterTable.c:74-79 | a length is read behind the buffer exactly for three counts whose chain of messages ends behind them |
| `NicTables.OverrunExists` | cpqNic/cpqNicIfPhysAdapterTable.c:74-79 | one message of 16381 bytes does it |
| `NicTables.OneMessage` | cpqNic/cpqNicIfPhysAdapterTable.c:78-123 | one pass, conversions written out: goes on exactly for accepted messages, consumes at least 16 bytes, applies one event |
| `NicTables.LengthChecks` | cpqNic/cpqNicIfPhysAdapterTable.c:78-89 | the signed and unsigned length tests amount to 16 <= length <= status, so a negative status only returns |
| `NicTables.NicTable.Find` | cpqNic/cpqNicIfPhysAdapterTable.c:856-861 | the iterator loop stops at the first row with the key |
| `NicTables.NicTable.CacheRemove` | cpqNic/cpqNicIfPhysAdapterTable.c:840-866 | the first row with the key goes, every other row stays where it was |
| `NicTables.NicTable.CacheReload` | cpqNic/cpqNicIfLogMapTable.c:590-617 | the first row with the key is refreshed once, every other row stays |
| `NicTables.FirstRowChanges` | cpqNic/cpqNicIfPhysAdapterTable.c:856-892 | what removal and refresh make of the row list around the first row with the key |
| `NicTables.NoRowNoChange` | cpqNic/cpqNicIfPhysAdapterTable.c:856-892 | without such a row both change nothing |
| `NicTables.UncachedUntouched` | cpqNic/cpqNicIfPhysAdapterTable.c:852-880 | a table without a cache is never changed |
| `NicTables.RemovedOne` | cpqNic/cpqNicIfLogMapTable.c:561-588 | removal keeps keys unique and takes exactly that key away |
| `NicTables.ReloadedOne` | cpqNic/cpqNicIfLogMapTable.c:590-617 | a reload changes no key |
| `NicTables.KeysAfterRun` | cpqNic/cpqNicIfPhysAdapterTable.c:93-123 | over any run the keys are the initial ones minus those removed, and stay unique |
| `NicTables.TablesStayInStep` | cpqNic/cpqNicIfPhysAdapterTable.c:105-121 | two tables that start with equal keys end with equal keys exactly when both caches are found or neither is, or no key is removed |
| `NicTables.RunIsOneFold` | cpqNic/cpqNicIfPhysAdapterTable.c:56-125 | a run of datagrams is one fold over all their events |
| `NicTables.ReloadsAfterRun` | cpqNic/cpqNicIfPhysAdapterTable.c:105-107 | a row that stays is refreshed exactly once for each of its reload events |
| `RecorderProtocol.StepKeepsCurrent` | recorder/linux.c:35-50 | from a current session every call keeps it current, except exactly the soft close of a live one |
| `RecorderProtocol.CurrentIffDisciplined` | recorder/linux.c:35-50 | the runs that stay current throughout are exactly those without a soft close of a live session |
| `RecorderProtocol.StepWritesFresh` | recorder/log.c:194-427 | a current session never writes a class or handle answered on an earlier opening |
| `RecorderProtocol.DisciplinedRunIsFresh` | recorder/log.c:194-427 | no run without a soft close of a live session writes a class or handle answered on an earlier opening |
| `RecorderProtocol.SoftCloseThenStale` | recorder/data_access/perf.c:75-79 | after a soft close the next exchange that opens a channel sends the old handle |
| `RecorderProtocol.StaleRunExists` | recorder/data_access/perf.c:75-79 | a run from the start that sends a stale handle |
| `RecorderProtocol.FailureClearsAll` | recorder/linux.c:126-156 | a transport failure clears descriptor, class and handle together and restarts all usage loggers |
| `RecorderProtocol.CloseMeans` | recorder/linux.c:35-50 | a soft close changes the descriptor and nothing else; a reset also takes class and handle and raises the three flags |
| `RecorderProtocol.StepFlags` | recorder/linux.c:42-48 | a call raises the restart flags exactly when it resets the session, and lowers none |
| `RecorderProtocol.RunFlags` | recorder/linux.c:42-48 | over any run a flag is set exactly when it was before, or a call closed with reset or failed on a channel it found |
| `RecorderProtocol.ResetsMean` | recorder/linux.c:126-149 | which calls reset the session, on the answers of the system calls |
| `RecorderProtocol.ExchangeMeans` | recorder/linux.c:126-156 | an exchange without a failed count keeps the session and gives the code answered; without a channel it changes nothing |
| `RecorderProtocol.FindsMeans` | recorder/linux.c:52-86 | which descriptor and opening a call works on |
| `RecorderProtocol.WritesMean` | recorder/log.c:194-361 | subtype, size, class and handle of the one request each call writes on a channel it finds |
| `RecorderProtocol.InitWritesMean` | recorder/log.c:65-129 | subtype, size, class and handle of the two registration requests |
| `RecorderProtocol.InitRegisters` | recorder/log.c:406-427 | rec_init leaves both a class and a handle exactly when each is held or answered |
| `RecorderProtocol.RegistersMean` | recorder/log.c:86-127 | when each half of rec_init is answered: counts positive for the class, not negative and code 0 for the handle |
| `RecorderProtocol.StepFreshIff` | recorder/log.c:194-427 | from any state a call writes something stale exactly when it finds a channel and carries a class or handle of another opening |
| `RecorderProtocol.RunFreshIff` | recorder/log.c:194-427 | a run writes only fresh requests exactly when none of its calls sends stale, runs past soft closes included |
| `RecorderProtocol.StepKeepsSane` | recorder/log.c:406-427 | a handle is never held without a class |
| `RecorderProtocol.StepKeepsNumbered` | recorder/log.c:62-76 | every request carries the count of requests built, modulo 65536 |
| `RecorderProtocol.NumbersDistinct` | recorder/log.c:62-76 | over any run, requests less than 65536 apart have different numbers |
| `RecorderProtocol.RequestsFit` | recorder/log.c:324-361 | a data request fits the buffer exactly for at most 962 bytes, a descriptor request for at most 966 |
| `RecorderProtocol.RunSnoc` | recorder/log.c:194-427 | a run followed by one more call is the longer run |
| `Recorder.Session.CloseRec` | recorder/linux.c:35-50 | the whole new state, for both kinds of close |
| `Recorder.Session.InitRec` | recorder/linux.c:52-86 | opens only when closed; counts the opening |
| `Recorder.Session.DoWrite` | recorder/linux.c:88-103 | one request written on this opening, or none; a failure leaves the channel open |
| `Recorder.Session.DoRead` | recorder/linux.c:105-124 | the count read, -1 on any failure without a retry |
| `Recorder.Session.DoWriteRead` | recorder/linux.c:126-156 | the step of the protocol, reset on failure included |
| `Recorder.Session.RecApi13` | recorder/log.c:65-93 | class allocation as the step of the protocol; needs both counts positive |
| `Recorder.Session.RecApi1` | recorder/log.c:96-129 | registration; the handle is stored exactly on success |
| `Recorder.Session.RecApi4` | recorder/log.c:194-227 | descriptor message with the handle and class held before the call |
| `Recorder.Session.RecApi3` | recorder/log.c:253-281 | code setting with the handle held before the call |
| `Recorder.Session.RecApi6` | recorder/log.c:324-361 | data message with the handle held before the call |
| `Recorder.Session.RecInit` | recorder/log.c:406-427 | lazy registration as the step of the protocol; the return is always 1 |
| `Recorder.FindChannel` | recorder/linux.c:62-81 | the two loops compute the channel search |
| `Recorder.HighestOpenChannel` | recorder/linux.c:75-81 | by probing, the highest channel that opens, failing exactly when none does |
| `Recorder.ProbedChannels` | recorder/linux.c:62-81 | without the parameter, the first channel that opens from 23 down, or from 15 or 7 when the higher ones have no device |
| `Recorder.NothingProbed` | recorder/linux.c:66-81 | the search fails when none of the three has a device, or when channels 0 to 23 all refuse |
| `Recorder.TopChannelNeverTried` | recorder/linux.c:70-76 | with the parameter set to m, the result does not depend on channel m - 1 |
| `Recorder.TopChannelFoundIff` | recorder/linux.c:70-76 | exactly when the search still gives what a search from m - 1 would give |
| `Recorder.OnlyTopOpens` | recorder/linux.c:70-76 | when channel m - 1 alone opens, the search fails |
| `Uevents.LastValueIsLast` | common/nl_udev.c:82-102 | a key is bound to the value of its last entry, and unbound exactly without one |
| `Uevents.EventMeans` | common/nl_udev.c:87-96 | each field of the event is the last value of its own key |
| `Uevents.AcceptedMeans` | common/nl_udev.c:64-80 | which messages are accepted, on their characters |
| `Uevents.ParseUevent` | common/nl_udev.c:64-102 | exactly the accepted messages are parsed, to the event of their entries |
| `Uevents.ScanEntries` | common/nl_udev.c:82-102 | the loop ends and binds every key to its last value |
| `Uevents.BindKey` | common/nl_udev.c:86-96 | one entry rebinds exactly the key it starts with |
| `Uevents.EntriesOfTerminated` | common/nl_udev.c:82-102 | reading entries undoes writing them, up to the first empty one |
| `Uevents.ParseUndoesEncode` | common/nl_udev.c:64-102 | a header with "@/" and non-empty entries is accepted, and each field of the event is the last value of its key among them |
| `Uevents.WantedExact` | common/nl_udev.c:105-120 | the callbacks called are exactly those whose filters match, each once, in order |
| `Uevents.ContainsMeans` | common/nl_udev.c:108-111 | the substring test |
| `Uevents.WantsMeans` | common/nl_udev.c:107-111 | the three filters on the stored texts |
| `Uevents.StoredMeans` | common/nl_udev.c:172-179 | what is stored of each argument of a registration |
| `Uevents.Registry.Append` | common/nl_udev.c:180-188 | links the callback behind the last one |
| `Uevents.Registry.Register` | common/nl_udev.c:156-190 | tries the socket on an empty list; appends the truncated registration, or leaves the list when memory fails |
| `Uevents.RunOfRegistrations` | common/nl_udev.c:156-190 | after any run of calls the list holds the successful registrations in call order, and the sockets are those opened up to the first success |
| `Uevents.SocketNeverRetried` | common/nl_udev.c:164-165 | once a callback is registered no later call opens a socket |
| `Uevents.DeliveredOnceIff` | common/nl_udev.c:105-120 | an event reaches each callback it concerns exactly once exactly when one socket was opened up to the first success |
| `Uevents.SecondSocket` | common/nl_udev.c:164-170 | memory missing for the first call leaves two sockets, and every event comes twice |
| `Uevents.NeverDelivered` | common/nl_udev.c:164-170 | a socket missing for the first call is never made up for, and no event comes |
| `Uevents.Registry.Dispatch` | common/nl_udev.c:105-120 | the calls made, in list order: callback and container of the registration; path, name and device type of the event, each in its place |
| `Uevents.Registry.UdevEventProcess` | common/nl_udev.c:27-121 | what a received message makes the list call, for every content and length, path, name and type each with the last value of its key |
| `Uevents.ContainsInJoin` | common/nl_udev.c:108 | a word without a colon lies in a colon-separated list exactly when it lies in one of its actions |
| `Uevents.KeptJoin` | common/nl_udev.c:175-177 | the stored text is the list of the first actions, the last of them cut |
| `Uevents.ReachesIff` | common/nl_udev.c:107-115 | an event reaches a callback exactly when device and subsystem match and its action is a substring of what is kept of a registered one |
| `Uevents.UnlistedReachesIff` | common/nl_udev.c:108 | for a list that fits, an action not named gets through exactly when it is a proper substring of one named |
| `Uevents.TestIsMembershipIff` | common/nl_udev.c:108 | over the actions that occur, the test is membership exactly when no action not named is a proper substring of one named |
| `Uevents.ListedActionMatches` | common/nl_udev.c:108 | a named action gets through exactly when it lies within the 15 characters kept or inside what they keep of one before it |
| `Uevents.ThirdActionLost` | common/nl_udev.c:177 | a list of three actions whose third never reaches the callback |
| `Uevents.EmptyActionReachesAll` | common/nl_udev.c:108 | an empty action reaches every callback for its device and subsystem |
| `Uevents.MoveReachesRemove` | common/nl_udev.c:108 | a move event also reaches a registration for remove |
| `CStrings.CutHoldsParts` | common/utils.c:343-347 | replacing separators by terminators leaves the pieces as C strings in order |
| `CStrings.CutJoin` | common/utils.c:343-347 | replacing the separator of joined pieces is joining with the other one |
| `CStrings.StrNCpy` | recorder/crash.c:551 | a bounded copy is the longest prefix that fits |
| `Delimited.SplitJoin` | common/make_nic_db.c:72-80 | splitting at a separator undoes joining |
| `Delimited.JoinSplit` | common/make_nic_db.c:72-80 | joining undoes splitting, and no piece holds the separator |
| `FileLines.ReadFile` | common/utils.c:297-329 | room for a full read before every read; the content is the concatenation of the reads; the exact size, and what lies behind the content |
| `FileLines.ContentMeans` | common/utils.c:318-324 | the content is the reads before the first empty one put together |
| `FileLines.RoomMeans` | common/utils.c:318-324 | the buffer size is the least multiple of 2048 with room for a full read |
| `FileLines.TerminatedIffShort` | common/utils.c:314-316 | a NUL is certain to follow the content exactly below 2044 bytes |
| `FileLines.LinesAreNewlines` | common/utils.c:343-352 | one line for every newline, plus the piece behind the last |
| `FileLines.LinesMakeContent` | common/utils.c:343-358 | the lines with their newlines, and the rest, make up the content |
| `FileLines.ContentIsString` | common/utils.c:314-316 | NUL-free content with a NUL behind it is the C string that the buffer holds |
| `FileLines.CutNewlines` | common/utils.c:343-347 | exactly the newlines of the content become terminators, and are counted |
| `FileLines.StoreLine` | common/utils.c:354 | a pointer store, and whether it misses the slots allocated |
| `FileLines.PointAtLines` | common/utils.c:348-359 | the pointers reach the lines in order; the first store misses exactly for no line |
| `FileLines.CutLines` | common/utils.c:342-359 | every line pointer reaches its line as a C string; the first store misses exactly without a newline |
| `FileLines.ReadFileLines` | common/utils.c:331-361 | as many lines as newlines, each pointer on its line of the C string in the buffer; a pointer is stored outside the slots exactly when there is no newline |
| `FileLines.NoNewlineStoresOutside` | common/utils.c:348-354 | every short file without a newline has that store |
| `FileLines.EmptyFileStoresOutside` | common/utils.c:348-354 | and so has the empty file |
| `CsvRows.JoinQuoteSplit` | common/make_nic_db.c:69-80 | the quote-aware reading loses nothing of the row |
| `CsvRows.SeparatesOutsideQuotes` | common/make_nic_db.c:69-80 | the quote-aware reading separates at every comma outside quotes and at none between them |
| `CsvRows.SplitJoined` | common/make_nic_db.c:72-80 | splitting a row at every comma gives the pieces of its fields |
| `CsvRows.SpacedCells` | common/make_nic_db.c:110 | a repaired field is the field with commas turned to spaces, character by character |
| `CsvRows.VoltColumn` | common/make_nic_db.c:98-105 | the voltage repair puts every column before the description in its place |
| `CsvRows.CloseAtFirst` | common/make_nic_db.c:109-112 | gluing runs exactly up to the first piece that ends in a quote |
| `CsvRows.RepairIffRepairable` | common/make_nic_db.c:98-114 | for rows of the file's shape, repair restores the fields exactly when the description is repairable |
| `CsvRows.RightRowHasShape` | common/make_nic_db.c:98-114 | a row of 24 fields or more that comes out right has commas only where the file has them |
| `CsvRows.RepairExactly` | common/make_nic_db.c:98-114 | repair restores a row of 24 fields or more exactly when it has the shape of the file and a repairable description |
| `CsvRows.RepairableByCharacters` | common/make_nic_db.c:108-112 | a quoted description must end in a quote and have none right before a comma, any other must have no comma |
| `CsvRows.RepairByCharacters` | common/make_nic_db.c:98-114 | the exact condition of the repair on the characters of the fields |
| `CsvRows.RepairMeetsQuoteSplit` | common/make_nic_db.c:72-114 | splitting and repairing the row text gives the fields of its quote-aware reading under exactly that condition |
| `MakeNicDb.SplitRow` | common/make_nic_db.c:69-80 | the loop cuts the row at every comma and points at every piece |
| `MakeNicDb.MergeStore` | common/make_nic_db.c:110 | a space stored over one terminator merges two neighbouring pieces and touches nothing else |
| `MakeNicDb.RepairVolt` | common/make_nic_db.c:98-105 | the buffer, the board size pointer and both indices after the voltage repair |
| `MakeNicDb.CloseQuoted` | common/make_nic_db.c:109-112 | the gluing loop ends with the description closed and `next` moved once for every merge |
| `MakeNicDb.RepairRow` | common/make_nic_db.c:98-127 | all 24 column pointers on the repaired columns, those behind the description shifted by the number of extra pieces |
| `CsvRows.RowFitsIff` | common/make_nic_db.c:98-127 | the rows whose repair leaves 24 columns and closes the description, told from their pieces |
| `CsvRows.UnclosedRowDoesNotFit` | common/make_nic_db.c:109-112 | a row of 24 fields whose description opens and does not close is none of them |
| `MakeNicDb.RepairedRowFits` | common/make_nic_db.c:98-127 | every row of the file's shape with a repairable description is one of them |
| `MakeNicDb.ReadRow` | common/make_nic_db.c:69-127 | in place, every column pointer ends on its column of the repaired row; for a row of the file's shape with a repairable description these are the fields, commas turned to spaces |
| `ProcUsage.TableMeans` | recorder/procusage.c:84-94 | the two records of every processor, user time before kernel time, member by member |
| `ProcUsage.ChunksDescribe` | recorder/procusage.c:83-121 | the chunks put together describe every processor by these two records |
| `ProcUsage.FieldNumbersUnique` | recorder/procusage.c:88 | field numbers are unique exactly up to 128 processors |
| `ProcUsage.ChunksMakeTable` | recorder/procusage.c:103-117 | the chunks make up the table, all but the last hold ten records, every request fits |
| `ProcUsage.BuildTable` | recorder/procusage.c:83-99 | the loop fills the table of two records for each processor |
| `ProcUsage.SendIsRun` | recorder/procusage.c:103-121 | sending until refused is a run of the session over the first chunks, all of them when the last answer is good |
| `ProcUsage.SendCarriesClass` | recorder/procusage.c:87-117 | every request sent carries the class that the records were built with |
| `ProcUsage.SendTable` | recorder/procusage.c:103-121 | the chunks sent, the session and the answer are those of sending the chunks in order until one is refused |
| `ProcUsage.ScheduleMeans` | recorder/procusage.c:124-138 | what follows for each log interval |
| `ProcUsage.LogProcessorUsage` | recorder/procusage.c:39-142 | which messages reach the session, its state, and which logging follows, for every outcome |
| `Blobs.SizesExact` | recorder/package.c:126-136 | the size computed before packing is exactly the size of the record |
| `Blobs.ReadingUndoesPacking` | recorder/package.c:147-188 | two bytes of flags, then splitting at NULs, give back flags and fields and nothing more |
| `Blobs.PackageReads` | recorder/package.c:154-188 | split behind its flags, a package record gives vendor, sname, version, timestamp and name in this order |
| `Blobs.DriverReads` | recorder/driver.c:169-186 | a driver record gives name, file name, version, timestamp, an empty vendor and PCI devices in this order |
| `Blobs.SameBlobSameFields` | recorder/package.c:147-188 | two packages share a record exactly when flags and texts agree |
| `Blobs.PutField` | recorder/package.c:154-160 | one field over zeroed memory: its text and terminator, everything else kept |
| `Blobs.PackPackage` | recorder/package.c:141-188 | the buffer holds exactly the record, ending at its computed size |
| `Blobs.PackDriver` | recorder/driver.c:161-195 | the buffer holds exactly the driver record, an empty vendor in its place, ending at its computed size |
| `Blobs.LogDriver` | recorder/driver.c:129-211 | one record sent, or none for a missing, oversized or unallocated one |
| `Blobs.SendPackages` | recorder/package.c:121-204 | the pass: an oversized package ends it, one without memory is passed over |
| `Blobs.SendsMean` | recorder/package.c:192-193 | each message is a plain data message with the bytes of its record |
| `Blobs.MarksArePlaces` | recorder/package.c:147-151 | flags 4, plus 1 exactly on item 0 and 2 exactly on item n - 1; every record within 962 bytes and readable as its item |
| `Blobs.PassComplete` | recorder/package.c:121-204 | one record for every package exactly when all fit and all get memory |
| `Blobs.LastArrives` | recorder/package.c:136-151 | a record marked Last is sent exactly when no package is too large and the last one gets memory |
| `CrashMessages.LogBufferContents` | recorder/crash.c:539-564 | the pieces logged, and that only the last answer is returned |
| `CrashMessages.LogFileContents` | recorder/crash.c:566-598 | 0 exactly when the file is there and not empty and its last piece is logged, else -1 |
| `CrashMessages.PieceCount` | recorder/crash.c:539-564 | one piece for every 962 characters begun, and one for the empty message |
| `CrashMessages.PiecesFit` | recorder/crash.c:551 | every piece has at most 961 characters |
| `CrashMessages.SentAt` | recorder/crash.c:551-560 | character j of what is sent stood at place j + j / 961 |
| `CrashMessages.PiecesMakeSieve` | recorder/crash.c:551-560 | what is sent is the message without the characters at places 961 modulo 962 |
| `CrashMessages.WholeMessageSent` | recorder/crash.c:554-560 | the whole message is sent exactly when it fits one piece |
| `CrashMessages.TheStepThatSendsAll` | recorder/crash.c:554-560 | of all steps exactly 961 sends every message whole |
| `Crashes.DoesListContain` | recorder/crash.c:314-325 | membership, both ways |
| `Crashes.CombineListsNoDup` | recorder/crash.c:342-364 | the two loops build the merged list |
| `Crashes.CombinedIsUnion` | recorder/crash.c:342-364 | the merged list is the union, and duplicate-free exactly when the first list is |
| `Crashes.CombinedInOrder` | recorder/crash.c:350-362 | each new entry goes to the head |
| `Crashes.CurrentAndPrevious` | recorder/crash.c:742-806 | current entries are exactly the untagged crashes, previous exactly the tagged ones |
| `Crashes.FoundMeans` | recorder/crash.c:742-798 | which entries are listed, for both kinds of listing |
| `Crashes.FoundInOrder` | recorder/crash.c:757-784 | of two listed entries the later one comes first |
| `Crashes.CrashWatcher.FindCrashEntries` | recorder/crash.c:742-798 | the listing loop, last entry first, dot entries and entries without a dump left out |
| `Crashes.ProcessCrashItem` | recorder/crash.c:947-1056 | the branches end in the result of the item; exit statuses do not enter it |
| `Crashes.ItemResultMeans` | recorder/crash.c:970-1046 | 1 exactly when a tool is missing or the script is not written, 0 exactly when the last piece of the output is logged, else -1 |
| `Crashes.CrashWatcher.ProcessNewCrashes` | recorder/crash.c:1067-1082 | the entries processed, in order, and the sum of their results, which never exceeds their number |
| `Crashes.CrashWatcher.UpdatePreviousCrashEntries` | recorder/crash.c:817-849 | exactly the entries whose tag can be written get one; the result is always success |
| `Crashes.CrashWatcher.LogProcessCrashes` | recorder/crash.c:1094-1138 | a run processes exactly the untagged crashes, and tags after a zero sum only |
| `Crashes.TagsOnlyGrow` | recorder/crash.c:817-849 | over any history tags only grow and nothing else changes |
| `Crashes.TaggedExactly` | recorder/crash.c:1115-1128 | a crash is tagged exactly when it was at the start or an earlier clean run could write its tag |
| `Crashes.ProcessedExactly` | recorder/crash.c:1112-1128 | what every run of any history processes, each crash once |
| `Crashes.QuietAfter` | recorder/crash.c:1112-1128 | the next run has nothing to do exactly when this one had nothing or was clean and wrote every tag |
| `Crashes.AllOrNothing` | recorder/crash.c:1121-1128 | with writable tags every run processes all crashes again until one run is clean, and none afterwards |
| `Crashes.CleanIff` | recorder/crash.c:1121-1126 | a run tags exactly when as many crashes could not be examined as had an output that could not be logged |
| `Crashes.CleanHidesFailures` | recorder/crash.c:1074 | a zero sum hides failures exactly when there are as many of one kind as of the other, and any |
| `Crashes.BothFailedBothTagged` | recorder/crash.c:1074 | a run of two failed crashes with results 1 and -1 that tags both |
| `Crashes.TaggedWhen` | recorder/crash.c:1121-1126 | a new tag appears exactly on the writable crashes of a run whose failures balance |
| `Crashes.TaggedMeansLogged` | recorder/crash.c:1121-1126 | where the crash utility runs for all, a run tags exactly when the last piece of every output was logged; where it runs for none, never |
| `Crashes.NoToolsNoTags` | recorder/crash.c:1043-1047 | where a tool is missing or the script not written for every crash, no history adds a tag |

## Left out

- The generated table handlers, cache loading and freeing, and net-snmp itself: a container is a list of rows, a row is its key and a count of refreshes; the row reload bodies are not part of this model.
- `OneMessage`: the cache functions are called through declarations without parameter types (`cpqNic/cpqNicIfPhysAdapterTable.c:28-31`), and three of them take an oid where an int is passed. The model assumes that the int is sign-extended, which matters only for negative indices; the fourth takes an int and compares it with an oid, which is that conversion.
- `InitSMBIOS`: looking up and parsing the EFI table; its three outcomes are parameters. `DeinitSMBIOS` and `ReinitSMBIOS`.
- `SmbGetRecord`: claims need a table that the cursor stays in, because the string scan has no bound. `SmbGetRecordByType` and `SmbGetRecordByHandle` need a walkable one: the second reads four bytes of every structure.
- `GetChassisPort`: the sscanf wrappers around the searches are not modelled.
- `Session.InitRec`: the search for a channel is one number that may be anything from -1 up; `FindChannel` models the search itself.
- `Session.RecApi4`: record contents are not part of the session model, only sizes and the class and handle sent. `rec_api2` and `rec_api5` are left out: the subtype and size they send do not match what they build.
- `doRead` and `doWriteRead` compare a negative count with EINTR and so never retry; there is no retry to model.
- `Registry.Register`: setting up the netlink socket is one outcome; only the number of sockets is kept.
- `UdevEventProcess`: the buffer is the zeroed stack buffer with the received bytes in front; the call itself is recorded, not made.
- `ReadFile`: allocation failures, which the code does not check.
- `ReadFileLines`: needs some NUL in the buffer, because otherwise the search for newlines has no end there.
- `ReadRow`: a row is its own buffer of at most 64 pieces; the hexadecimal columns, the trimming of inf_name and the printing are not modelled. A row with fewer than 24 columns after the repair makes the code read pointers that it never set, and one whose description never closes makes it write behind the row; both are excluded. Every other row is covered: commas in other columns shift the columns, and `RepairExactly` says so.
- `LogProcessorUsage`: processor names must fit the descriptor field. The usage records logged afterwards are not part of this model.
- `LogDriver`: for an oversized record the code frees a pointer that it never set (`recorder/driver.c:155-206`); what happens after that is not part of this model.
- `SendPackages`: registration and descriptors before the pass, freeing, and the queries that find packages; `LOG_DRIVERS` around `LogDriver`.
- `LogBufferContents`: what one piece sends before its data (registration and two descriptors) is one adversarial result.
- `FindCrashEntries`: `insert_item` is modelled as copying the name, since its length expression measures uninitialised memory; path truncation is not modelled.
- `ProcessCrashItem`: the commands run, the files they leave and the messages about missing tools; each step is an outcome that may be anything.
- `amsHelper.c` is option parsing and a select loop over system calls; `common/scsi_info.c` fills in fields from SG_IO calls; the remaining recorder loggers fill in fields from system calls and send them with the session calls modelled here.
