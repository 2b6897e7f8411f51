# Proofs about the panel's data formats, backups and small protocols

This project models the parts of the Minecraft panel where a mistake loses or corrupts data, and proves
what those parts promise. `dafny verify dfyconfig.toml` checks everything.

**NBT codec** (`internal/nbt/nbt.go`). `Nbt.dfy` says what reading and writing mean, as functions of an
explicit state: remaining bytes, or bytes written, and the node and element counters. `NbtReader.dfy` and
`NbtWriter.dfy` are the imperative reader and writer with their cursor, buffer, counters and loops, proved
to compute those functions; `ModifiedUtf8.dfy` does the same for the string coding. `NbtRaw.dfy` is the
tree as the bytes of the file spell it. Over them:

- encode then decode returns the document, numbers in canonical text, **exactly** when the file does not
  happen to look like a zlib stream (`NbtEncodeDecode.dfy`);
- decode then encode reproduces the bytes **exactly** when no string holds a raw zero byte, and decode,
  encode and decode gives the same document **exactly** when everything still fits with two bytes for each
  of those and the result does not look compressed when it is not (`NbtDecodeEncode.dfy`);
- every decoded tree respects the size, depth and shape limits (`NbtSound.dfy`), and `Encode` accepts
  **exactly** the legal trees within them, writing the bytes that the format gives for the tree, however
  its numbers are spelled (`NbtWire.dfy`).

**World scan** (`internal/servers/world_nbt.go`). `WorldScan.dfy` is the skip-scan that reads the seed and
version without building a tree; `WorldScanRefines.dfy` proves that it agrees with the full parse, and
`WorldFacts.dfy` says by the names in the decoded tree alone what it reports.

**Backups** (`internal/backups`). `Retention.dfy` is the planner and the shape of its plans;
`BackupRecords.dfy` a state machine of the backup table under any interleaving of operations and failures,
safe over every run; `BackupLifecycle.dfy` what making a backup leaves in it; `BackupCleanup.dfy` which
rows a cleanup must take and the table it leaves; `BackupStore.dfy` the methods that change the table, each
proved to be a run of it;
`OperationLock.dfy` the two-level lock in front of every operation; `Restore.dfy` the rename sequence of a
restore, safe at every moment.

**Protocols and caches.** `Scheduler.dfy` (claims by compare-and-set across panel processes),
`RevisionSaves.dfy` and `SaveOutcomes.dfy` (saves that carry an expected revision), `CheckCache.dfy` and `HashCache.dfy` (results
shared within one update check), `ProxyCache.dfy` (the bounded response cache), `RequestLimiter.dfy` and
`LoginLimiter.dfy` (sliding windows), `Versions.dfy`, `VersionNames.dfy`, `VersionOrder.dfy` and
`Catalog.dfy` (comparing versions, when that is an order, and the catalog as its running maximum).

How things are modelled:

- A Go string is a sequence of bytes. Errors of the codec and the scan are one failure value, since every
  one of them wraps the same sentinel or is treated alike.
- SQL tables are sequences or maps of rows, and every statement is one atomic step. Channel operations,
  mutex sections and file-system calls are one step each. A protocol is a set of steps with guards, and
  its theorems range over every run of steps.
- Time is an integer, seconds or nanoseconds as the source stores it. Clocks, new identifiers, failures of
  calls and the answers of the upstream are parameters or choices of the step.

Where the code does less than its documentation or tests say, the model follows the code:

- `FuzzDecode` in `internal/nbt/nbt_test.go` expects every decoded document to encode, and the result to
  decode. `NbtDecodeEncode.EncodesAgain` and `NbtDecodeEncode.DecodeEncodeDecode` say exactly for which
  files it encodes and comes back. The others are those in which a raw zero byte, which `decodeText` takes
  as NUL and `encodeText` writes as two bytes, makes a string or the file too long (`RawZerosCanOverflow`)
  or makes it start like a zlib stream (`RawZerosCanTurnIntoZlib`), and those that compress to more than
  the limit (`CompressedCanOverflow`).
- `NbtEncodeDecode.ZlibLookalike` is a document that encodes to a file `Decode` takes for zlib.
- "An older response cannot erase a newer known release" (`internal/servers/software_catalog.go`) holds of a
  row exactly if no three of the names it sees cross (`Catalog.MaximumIff`), because the version comparison
  is an order exactly then (`VersionOrder.TransitiveIff`). `Catalog.BuildsCanCycle` and
  `Catalog.ReleasesCanCycle` are rows for which it does not.

## Model

| member | source | states |
|---|---|---|
| Bytes.BigEndianInverse | internal/nbt/nbt.go:96 | Reading back a big-endian field gives the number written, for every width. |
| Bytes.FromBigEndianInverse | internal/nbt/nbt.go:285 | Writing a number read from bytes gives the same bytes. |
| Bytes.FromBits | internal/nbt/nbt.go:132-144 | Two's complement: the value read fits its width and writes back to the same bits. |
| Bytes.ParseFormat | internal/nbt/nbt.go:324 | Go's base-10 `ParseInt` of `FormatInt` gives the value back, for every value of every width. |
| Bytes.ParseDigits | internal/nbt/nbt.go:324 | What `ParseInt` makes of every run of decimal digits, for every width: bare, behind a zero or behind a plus it is the number spelled, behind a minus its negation, and an error exactly if that does not fit. |
| Bytes.ParsedText | internal/nbt/nbt.go:324 | Nothing else is accepted: an optional sign and then at least one digit. |
| Bytes.BitsModulo | internal/nbt/nbt.go:328-337 | The bits written for a number are the number modulo 256 to the power of the width. |
| Bytes.HexDigitsOfFormat | internal/nbt/nbt.go:345 | The digits of a NaN payload parse back to the payload. |
| ModifiedUtf8.DecodeText | internal/nbt/nbt.go:432-475 | The two loops return exactly the text the bytes spell, or an error exactly for bad bytes or an unpaired surrogate (specification `TextOf`). |
| ModifiedUtf8.CheckPairs | internal/nbt/nbt.go:464-473 | The second loop accepts exactly the properly paired unit sequences. |
| ModifiedUtf8.EncodeText | internal/nbt/nbt.go:476-489 | The loop returns exactly the modified UTF-8 of a valid string (specification `BytesOf`). |
| ModifiedUtf8.DecodeAfterEncode | internal/nbt/nbt.go:432-489 | Decoding an encoded string gives the string, for every valid Unicode string. |
| ModifiedUtf8.EncodeAfterDecode | internal/nbt/nbt.go:432-489 | Every accepted byte string decodes to valid Unicode, whose encoding is the bytes with every raw zero byte in its two-byte form: the same bytes exactly when there is none. |
| ModifiedUtf8.EarlyLengthTestIsRedundant | internal/nbt/nbt.go:286-297 | UTF-8 is never longer than modified UTF-8, so the writer's first length test refuses nothing its second would accept. |
| ModifiedUtf8.NulText | internal/nbt/nbt.go:438-440 | A run of raw zero bytes decodes, and encodes again to twice as many bytes. |
| ModifiedUtf8.RunesOfInverse | internal/nbt/nbt.go:474-478 | Surrogate pairing and splitting are inverse: code points to UTF-16 units and back. |
| ModifiedUtf8.FromUtf8Inverse | internal/nbt/nbt.go:478 | Go's string-to-rune conversion inverts UTF-8 encoding (strict UTF-8: no overlong forms, no surrogates). |
| ModifiedUtf8.TextOfConcat | internal/nbt/nbt.go:432-475 | Decoding distributes over concatenation of decodable pieces. |
| ModifiedUtf8.SameAsConstant | internal/nbt/nbt.go:432-475 | Raw bytes equal an ASCII constant exactly when their decoded text does. |
| NbtReader.Reader.Byte | internal/nbt/nbt.go:91-94 | Takes one byte off the remaining input, or fails at its end. |
| NbtReader.Reader.Number | internal/nbt/nbt.go:96 | Takes a big-endian field off the remaining input. |
| NbtReader.Reader.Text | internal/nbt/nbt.go:97-107 | Takes a length-prefixed string off the remaining input. |
| NbtReader.Reader.Count | internal/nbt/nbt.go:109-119 | Accepts a length only if it is not negative, fits the remaining bytes and the element budget, and charges the budget. |
| NbtReader.Reader.Values | internal/nbt/nbt.go:162-181 | The array loop reads exactly the values the specification reads, in order. |
| NbtReader.Reader.Tag | internal/nbt/nbt.go:121-229 | The recursive reader, with its cursor and counters, computes the specification `ReadTag` and leaves its state. |
| NbtReader.Reader.List | internal/nbt/nbt.go:195-201 | The list loop, appending children, computes `ReadList`. |
| NbtReader.Reader.Members | internal/nbt/nbt.go:203-224 | The compound loop, with its growing name set, computes `ReadMembers`. |
| NbtReader.Reader.Root | internal/nbt/nbt.go:73-88 | One named root tag of type 1 to 12 and nothing after it. |
| NbtReader.Decode | internal/nbt/nbt.go:45-89 | The whole decoder computes `DecodeSpec`: sniff, size limits before and after decompression, root, nothing trailing. |
| NbtWriter.Writer.Text | internal/nbt/nbt.go:286-297 | Appends a length-prefixed string, or fails for invalid UTF-8 or a form over 65535 bytes. |
| NbtWriter.Writer.Values | internal/nbt/nbt.go:378-393 | The array loop appends every value at its width, or fails at the first that does not parse or fit. |
| NbtWriter.Writer.Tag | internal/nbt/nbt.go:298-427 | The recursive writer, with its buffer and counters, computes the specification `WriteTag`. |
| NbtWriter.Writer.List | internal/nbt/nbt.go:401-408 | The list loop computes `WriteList`. |
| NbtWriter.Writer.Members | internal/nbt/nbt.go:410-424 | The compound loop, with its growing name set, computes `WriteMembers`. |
| NbtWriter.Encode | internal/nbt/nbt.go:243-278 | The whole encoder computes `EncodeSpec`: root type, name, tag, size limit, then compression. `NbtWire.EncodeAccepts` says what that is. |
| NbtEncodeDecode.TextBack | internal/nbt/nbt.go:97-107 | What the text writer appends, the text reader takes off again, leaving whatever follows. |
| NbtEncodeDecode.ValuesBack | internal/nbt/nbt.go:162-181 | The same for array values, whose literals come back in canonical decimal. |
| NbtEncodeDecode.TagBack | internal/nbt/nbt.go:298-427 | Reading what was written for a tag, in front of any further bytes, gives the tag with literals canonical, leaves exactly those bytes, and both sides have spent equal node and element budgets at equal depth. |
| NbtEncodeDecode.ListBack | internal/nbt/nbt.go:195-201 | The same for the children of a list. |
| NbtEncodeDecode.MembersBack | internal/nbt/nbt.go:203-224 | The same for the members of a compound up to its end marker. |
| NbtEncodeDecode.RootBack | internal/nbt/nbt.go:243-278 | The payload the writer accepts is a whole document to the reader; it also gives the first bytes that decide the compression sniff. |
| NbtEncodeDecode.EncodeThenDecode | internal/nbt/nbt.go:45-89 | Main result: for every document `Encode` accepts, `Decode` returns it with literals canonical **if and only if** the document is not an uncompressed string root whose encoded name length has a high byte that is 29 modulo 31. |
| NbtEncodeDecode.ZlibLookalike | internal/nbt/nbt.go:55 | A concrete document in that family (a name of 7424 letters) that does not come back. |
| NbtEncodeDecode.EmptyTextIsAccepted | internal/nbt/nbt.go:286-297 | Every ASCII name up to the length limit is accepted on an empty string root, so the family above is not empty. |
| NbtWire.IntegerLiteral | internal/nbt/nbt.go:323-393 | A literal with any sign and leading zeros is read as the integer it spells, refused exactly if that is outside the two's complement range of its 1, 2, 4 or 8 bytes, and its canonical text is the plain decimal one. |
| NbtWire.OnlyIntegers | internal/nbt/nbt.go:324 | Every literal that is read spells an integer in range. |
| NbtWire.NaNIsExact | internal/nbt/nbt.go:231-241 | The NaN test is IEEE 754's: exponent all ones and a fraction that is not zero, in both widths. |
| NbtWire.QuietNaNText | internal/nbt/nbt.go:231-241 | The quiet NaN of four bytes is printed as NaN:0x7fc00000. |
| NbtWire.FloatLiteral | internal/nbt/nbt.go:338-366 | A float literal that looks like a NaN is read exactly if it is the canonical text of one, and as its bits; any other is what the number parser reads in it. |
| NbtWire.ValuesWritten | internal/nbt/nbt.go:378-393 | Array values are written exactly if every one is a literal in range, as their bits most significant byte first. |
| NbtWire.TextWritten | internal/nbt/nbt.go:286-297 | A string is written exactly if it is valid and fits in 65535 bytes, behind its encoded length in two bytes. |
| NbtWire.TagWritten | internal/nbt/nbt.go:298-427 | If the recursive writer accepts a tag, the tag is legal and within the depth left, the bytes added are those the format gives for the tree (defined without the writer), and the counters rise by its counts; and it accepts every such tag for which there is room. |
| NbtWire.ListWritten | internal/nbt/nbt.go:401-408 | The same for the children of a list. |
| NbtWire.MembersWritten | internal/nbt/nbt.go:410-424 | The same for the members of a compound. |
| NbtWire.EncodeAccepts | internal/nbt/nbt.go:243-278 | Main result: `Encode` succeeds **if and only if** the tree is legal, its root name fits, it has at most 100000 tags, 1000000 elements, depth 64 and 16777216 bytes, the compression is known and the compressed file is not too long; and what it writes or compresses is the byte form of the tree, kind codes, widths and lengths spelled out. |
| NbtWire.CanonicalInteger | internal/nbt/nbt.go:323-337 | The canonical text of an integer tag is the plain decimal text of what its literal spells: +5 becomes 5, 007 becomes 7. |
| NbtWire.CanonicalElement | internal/nbt/nbt.go:378-393 | The same for every value of an array. |
| NbtWire.EncodesAsCanonical | internal/nbt/nbt.go:243-278 | Every document encodes to the same file as with all its numbers in canonical text. |
| NbtWire.IntegerTagComesBack | internal/nbt/nbt.go:323-337 | For an integer tag with any spelling, under any compression: out of range it is refused, otherwise it encodes to the file of the plain decimal text, and that text is what is decoded. |
| NbtRaw.TagSpelled | internal/nbt/nbt.go:121-229 | Wherever the reader accepts a tag, reading it with strings left as bytes accepts it, stops at the same place, and its tree spells the decoded one. |
| NbtRaw.MembersSpelled | internal/nbt/nbt.go:203-224 | The same for compound members: names that differ as text differ as bytes. |
| NbtRaw.RootSpelled | internal/nbt/nbt.go:45-89 | The same for a whole document. |
| NbtDecodeEncode.NaNKeepsBits | internal/nbt/nbt.go:231-241 | The text of a NaN parses back to the same bits, payload included. |
| NbtDecodeEncode.TextForward | internal/nbt/nbt.go:286-297 | A string read from bytes is written exactly if its length, with a second byte for each raw zero byte, fits 16 bits; it grows by exactly those, and without any is the same bytes. |
| NbtDecodeEncode.TagForward | internal/nbt/nbt.go:298-427 | For every tag the reader accepts: the writer accepts it if all strings below still fit and there is room, only if they fit, makes it longer by exactly its raw zero bytes (none: the same bytes), and spends the reader's budgets. So no other writer check can fail. |
| NbtDecodeEncode.ListForward | internal/nbt/nbt.go:394-408 | The same for the children of a list. |
| NbtDecodeEncode.MembersForward | internal/nbt/nbt.go:409-424 | The same for the members of a compound. |
| NbtDecodeEncode.RootForward | internal/nbt/nbt.go:243-278 | A payload the reader accepted is written again **if and only if** every string and the whole still fit with two bytes per raw zero byte. |
| NbtDecodeEncode.PayloadReproduced | internal/nbt/nbt.go:432-489 | For every payload `Decode` accepts, writing the result reproduces it byte for byte **if and only if** no string in it holds a raw zero byte. |
| NbtDecodeEncode.DecodeThenEncode | internal/nbt/nbt.go:45-89 | That equivalence through `Decode` and `Encode`: an uncompressed file comes back byte for byte exactly without raw zero bytes; a compressed one gives its payload back exactly then, compressed again if that is within the limit and refused otherwise. |
| NbtDecodeEncode.EncodesAgain | internal/nbt/nbt.go:243-278 | `Encode` accepts what `Decode` returned **if and only if** every string and the payload still fit with two bytes per raw zero byte and, for a compressed file, so does the compressed result. |
| NbtDecodeEncode.DecodeEncodeDecode | internal/nbt/nbt_test.go:132-146 | Main result: decoding, encoding and decoding again gives the same document **if and only if** that holds and an uncompressed file does not turn into a zlib look-alike (a string root whose name length, raw zero bytes counted twice, has a high byte that is 29 modulo 31). |
| NbtDecodeEncode.TagCanonical | internal/nbt/nbt.go:121-229 | Every tag the reader returns has its literals in canonical text already. |
| NbtDecodeEncode.DecodedIsCanonical | internal/nbt/nbt.go:45-89 | So has every decoded document, raw zero bytes or not. |
| NbtDecodeEncode.ZerosFileAgain | internal/nbt/nbt.go:97-107 | What becomes of every file of raw zero bytes: whether it can be encoded again, and whether it turns into a zlib look-alike, by the lengths of its two strings. |
| NbtDecodeEncode.RawZerosCanOverflow | internal/nbt/nbt_test.go:136-140 | A document `Decode` accepts and `Encode` refuses: a string of 65535 raw zero bytes. |
| NbtDecodeEncode.RawZerosCanTurnIntoZlib | internal/nbt/nbt_test.go:141-143 | A document that decodes and encodes, to a file that does not decode to it: a name of 3712 raw zero bytes. |
| NbtDecodeEncode.CompressedCanOverflow | internal/nbt/nbt.go:274-276 | The limit on the compressed size follows from no check of the reader: some compression library and file without raw zero bytes for which `Encode` refuses what `Decode` returned. |
| NbtDecodeEncode.HypothesesCanBeMet | internal/nbt/nbt.go:243-278 | The hypotheses on number formatting and compression can be met together, so no round trip is vacuous. |
| NbtSound.TagSound | internal/nbt/nbt.go:121-229 | Every tag read is well shaped, within the depth left, and the counters rose by exactly its tag and element counts. |
| NbtSound.ListSound | internal/nbt/nbt.go:182-201 | List children number exactly the declared length, are unnamed, of the one declared type, and jointly accounted for. |
| NbtSound.MembersSound | internal/nbt/nbt.go:202-224 | Compound members have distinct names and are jointly accounted for. |
| NbtSound.DecodeIsBounded | internal/nbt/nbt.go:45-89 | Every document `Decode` returns, from any input, has at most 100000 tags, 1000000 elements summed over the tree, depth at most 64, homogeneous unnamed list children and distinct compound names; the file is at most 16777216 bytes, and so is what it unpacks to. |
| WorldScan.Scanner.Name | internal/servers/world_nbt.go:42-50 | Takes a raw length-prefixed name off the input. |
| WorldScan.Scanner.Seek | internal/servers/world_nbt.go:51-57 | Skips a number of bytes if it is not negative and that many remain. |
| WorldScan.Scanner.Long | internal/servers/world_nbt.go:72-81 | A Long at a seed path overwrites the seed; computes `ScanLong`. |
| WorldScan.Scanner.String | internal/servers/world_nbt.go:100-105 | A String at the version path overwrites the version with its bytes; computes `ScanString`. |
| WorldScan.Scanner.Array | internal/servers/world_nbt.go:84-99 | An array of non-negative length is skipped; computes `ScanArray`. |
| WorldScan.Scanner.Payload | internal/servers/world_nbt.go:58-148 | The closure, advancing the shared reader and overwriting result fields, computes the specification `ScanPayload`. |
| WorldScan.Scanner.List | internal/servers/world_nbt.go:118-123 | The list loop computes `ScanList`. |
| WorldScan.Scanner.Members | internal/servers/world_nbt.go:124-144 | The compound loop computes `ScanMembers`. |
| WorldScan.ReadWorldMetadata | internal/servers/world_nbt.go:149-157 | The scan of a decompressed file computes `ScanRoot`. `WorldFacts.MetadataOfTree` says what that reports. |
| WorldScanRefines.TagScanned | internal/servers/world_nbt.go:60-148 | Wherever the parser, strings left as bytes, reads a tag, the scan accepts the same bytes, stops at the same place, and its result is what the tags visited so far determine. |
| WorldScanRefines.ListScanned | internal/servers/world_nbt.go:118-123 | The same for list children under `/[]`. |
| WorldScanRefines.MembersScanned | internal/servers/world_nbt.go:124-144 | The same for compound members, in document order. |
| WorldScanRefines.DecodesChild | internal/servers/world_nbt.go:140 | Joining raw names with a slash and trimming one leading slash commutes with decoding them. |
| WorldScanRefines.SameTests | internal/servers/world_nbt.go:77-125 | The scan's path tests on raw bytes agree with the same tests on decoded text. |
| WorldScanRefines.VisitsSpelled | internal/servers/world_nbt.go:60-148 | The tree as the file spells it and the decoded tree are visited alike: the same kinds in the same order, paths and texts decoding to each other. |
| WorldScanRefines.ScanRefinesDecode | internal/servers/world_nbt.go:22-158 | Main result: whenever the full parser accepts bytes with a compound root, the scan accepts them; Seed is the last Long in document order at one of the four paths, WorldData holds exactly if a compound is at `Data`, and Version is exactly the bytes of the last String at `Data/Version/Name` (empty if there is none): on the tree as the file spells it, and with Version decoded on the decoded tree. |
| WorldFacts.ChildPathMeans | internal/servers/world_nbt.go:140 | A member of the root has its name as its path; below that names are joined by a slash, and only one leading slash is ever lost. |
| WorldFacts.DataFound | internal/servers/world_nbt.go:124-128 | A compound is at path Data exactly if the root, or an unnamed compound at its top, holds a compound of that name. |
| WorldFacts.MetadataOfTree | internal/servers/world_nbt.go:22-158 | Main result: what is reported, by the names in the decoded tree alone. World data exactly if there is such a compound, for every tree; and when the root's members have names and neither those nor the names in Data hold a slash, the seed is the last in document order of Data's Long RandomSeed, the Long seed of its WorldGenSettings, the Long seed of a compound data and the root's own, and the version is the String Name of Data's compound Version. |
| WorldFacts.RandomSeedReported | internal/servers/world_nbt.go:72-81 | A Long RandomSeed in a compound Data of the root is the seed reported, with world data, unless a later tag is a seed as well. |
| WorldFacts.PayloadBounded | internal/servers/world_nbt.go:60-64 | Any tag the scan accepts, whether or not the full parser does, is counted, to at most 1000000 in all, and is no deeper than 64. |
| WorldFacts.PayloadShifts | internal/servers/world_nbt.go:60-64 | The count is used for nothing but its limit: a scan of a tag that succeeds does so in the same way after exactly those numbers of tags that leave room for its own within 1000000. |
| WorldFacts.ScanIsBounded | internal/servers/world_nbt.go:149-157 | The scan takes only files that begin with a compound, within those bounds. |
| Retention.CutoffIsExact | internal/backups/retention.go:24-29 | Within the validated 36500 days, the duration arithmetic does not wrap in 64-bit nanoseconds. |
| Retention.ValidIsWithinBound | internal/backups/retention.go:24-29 | `Validate` accepts exactly keep counts to 100000 and days to 36500, and for every valid policy neither cutoff wraps. |
| Retention.ExpiredIsExact | internal/backups/retention.go:112-123 | Within the bound a time has expired exactly if it parses and so many days of 86400 seconds have passed since. |
| Retention.CutoffCouldWrap | internal/backups/retention.go:24-29 | One day past what 64 bits hold, the cutoff would lie in the future: the bound in `Validate` is needed. |
| Retention.PlanRetention | internal/backups/retention.go:92-129 | The two loops with their running counters compute the plan `PlanSpec`, whose byte totals are the exact sums. |
| Retention.PlanSplits | internal/backups/retention.go:92-120 | Nothing is lost or doubled: the active list is survivors plus trashed, as multisets. |
| Retention.KeepCountHolds | internal/backups/retention.go:103-111 | With a positive keep count, at most that many unprotected completed backups survive. |
| Retention.NewestSurvives | internal/backups/retention.go:104-107 | The newest completed backup is the same after the plan as before it. |
| Retention.SurvivorsAreFresh | internal/backups/retention.go:112-115 | A surviving unprotected completed backup that is not the newest has not reached the age limit. |
| Retention.PlanIsIdempotent | internal/backups/retention.go:92-120 | Planning again on the survivors at the same time trashes nothing. |
| Retention.LaterTrashesMore | internal/backups/retention.go:92-120 | A later plan trashes everything an earlier one would. |
| Retention.TrashedIsSuffix | internal/backups/retention.go:92-120 | On a newest-first list with parseable times, the trashed backups are a suffix of the unprotected completed ones. |
| Retention.TrashedMember | internal/backups/retention.go:95-120 | Why a backup was trashed: it is counted, not the newest, past its age exactly if the reason is age, and otherwise behind enough newer ones. |
| Retention.PurgedMember | internal/backups/retention.go:121-127 | A backup is planned for purging exactly if it is unprotected, the limit is on, and its recorded trash time is at least that many days back. |
| Retention.PlanBytes | internal/backups/retention.go:97-127 | The two byte totals are the sizes of the two lists added up, the trash list keeps its order, and what stays active and what is trashed add up to what was active. |
| BackupRecords.ListingMember | internal/backups/backups.go:238-255 | The list query returns exactly a server's rows on the asked side of the trash. |
| BackupRecords.CreateStep | internal/backups/backups.go:408-422 | Starting a backup, or storing an upload whether or not its row is then recorded, keeps the invariant and takes nothing. |
| BackupRecords.FinishStep | internal/backups/backups.go:425-546 | Finishing one, well or badly, changes only its own pending row. |
| BackupRecords.EnterStep | internal/backups/retention.go:132-147 | Entering or leaving an operation changes no row, and what it read stays true while it holds the lock. |
| BackupRecords.ChangeStep | internal/backups/retention.go:149-198 | Trash, recover, protect, purge and delete keep the invariant and never take a protected or pending backup. |
| BackupRecords.CleanupStep | internal/backups/retention.go:209-222 | A cleanup plans only due purges, and trashes only rows that are not the newest snapshot. |
| BackupRecords.PurgeStep | internal/backups/retention.go:223-233 | A purge takes only what its plan holds, and leaves every server's newest snapshot. |
| BackupRecords.TrashStep | internal/backups/retention.go:234-240 | A move to trash leaves every server's newest snapshot. |
| BackupRecords.NewestAfterTrashing | internal/backups/retention.go:153-162 | Trashing any row but the newest completed active one leaves the newest the same for every server. |
| BackupRecords.StepIsSafe | internal/backups/retention.go:132-242 | Every step of every operation keeps: protected implies completed and active; pending implies not in trash; archives and rows go only by a deletion of that server, never from a protected or pending backup; cleanup takes only what its plan holds, keeps each server's newest snapshot, and if automatic takes only what has been in trash for the policy's days. |
| BackupRecords.StepKeepsServers | internal/backups/backups.go:862-883 | No step moves a backup to another server. |
| BackupRecords.RunIsSafe | internal/backups/retention.go:132-242 | Main result: all of that over every run of operations on any servers, interleaved, failing at any statement or stopped between any two. |
| BackupRecords.FirstRunIsSafe | internal/backups/backups.go:408-422 | In particular from an empty table. |
| BackupRecords.RunConcat | internal/backups/retention.go:209-242 | Runs compose, so each method below may be read as a stretch of a longer run. |
| BackupRecords.CleanupSpares | internal/backups/retention.go:209-242 | While a cleanup goes on, whatever other servers do, a backup it did not plan to purge keeps its row and archive. |
| BackupRecords.CleanupSparesActive | internal/backups/retention.go:209-242 | Main result: over a whole cleanup, however interleaved, no backup that was active when it began loses its row or archive; so it never purges what it trashed itself. |
| BackupRecords.StepFramesOthers | internal/backups/retention.go:132-242 | A step of one server leaves every other server's rows and newest snapshot as they were. |
| BackupRecords.CleanupKeepsNewest | internal/backups/retention.go:209-242 | Over a whole cleanup, however interleaved with other servers, its server keeps the same newest active completed snapshot. |
| BackupRecords.NoPurgeAfterTrash | internal/backups/retention.go:223-240 | Once a cleanup has moved a backup to trash, no purge of it is possible until another cleanup begins. |
| BackupLifecycle.CreateBegins | internal/backups/backups.go:408-411 | With the server idle and a fresh id a backup can start: an empty pending row, no archive, every other row as it was. |
| BackupLifecycle.CreateFinishes | internal/backups/backups.go:529-552 | However the archive turns out: success makes the pending row completed with the archive's size and the archive is there; a recorded failure makes it failed; one that could not be recorded leaves it pending; other rows stay. |
| BackupLifecycle.UploadStores | internal/backups/backups.go:637-669 | An upload is stored as a completed row of its size with its archive, or as an archive without a row if the row is refused. |
| BackupLifecycle.RestoreBegins | internal/backups/backups.go:694-717 | With the server idle a restore begins exactly for its active completed backups, protected or not, and touches no row. |
| BackupCleanup.DecisionMeans | internal/backups/retention.go:95-120 | The planner's decision on a row, by the rows above it in the table: active, completed, unprotected, with a newer completed one, and too old or behind the full number of unprotected ones. |
| BackupCleanup.PlannedForTrash | internal/backups/retention.go:92-120 | A row is planned for trash exactly if it has to move, said by its place in the table without the planner. |
| BackupCleanup.PlannedToGo | internal/backups/retention.go:121-127 | A row is planned to go exactly if it is in this server's trash and due, or the trash is being emptied. |
| BackupCleanup.PlanIsCarriedOut | internal/backups/retention.go:209-242 | The rows that a cleanup takes up are exactly those that may go and those that have to move, and the table left is the old one with each dealt with unless its own statement failed. |
| BackupCleanup.StaysOnlyByItsOwnFault | internal/backups/retention.go:223-240 | A planned backup keeps its row only if its own purge failed, its archive only if that could not be removed, and its place only if its own move failed; every other backup is as it was. |
| BackupCleanup.FaultFreeCleanup | internal/backups/retention.go:209-242 | Main result: if nothing fails, the rows that may go have neither row nor archive, the rows that have to move are in trash with the time of the move, everything else is as it was, and an automatic cleanup at the same time would find nothing to do. |
| BackupStore.Store.TrashLocked | internal/backups/retention.go:153-162 | The row's new state, and success exactly if it was allowed and the statement did not fail. |
| BackupStore.Store.DeleteLocked | internal/backups/backups.go:862-883 | Archive first, then row; success exactly if both went. |
| BackupStore.Store.ApplyLocked | internal/backups/retention.go:149-198 | The change of each of the five operations on the row read under the lock, and exactly when it is reported as done. |
| BackupStore.ReportedIsAchieved | internal/backups/retention.go:149-198 | A change reported as done leaves exactly the row asked for: in trash since that time, recovered (and protected exactly if completed), protected as asked, or gone with its archive; one that is not changes no row; neither changes another row. |
| BackupStore.Store.ChangeBackup | internal/backups/retention.go:132-198 | A call of any of the five changes is exactly a run of two steps of the state machine, keeps its invariant, and reports success exactly for an allowed change whose statements worked; then the row is exactly as asked, otherwise no row has changed, and no other row changes either way. |
| BackupStore.Store.PurgeOne | internal/backups/retention.go:223-233 | One turn of the purge loop is one step, takes the row exactly if its own statements work, and is counted exactly then; the newest snapshot of every server stays. |
| BackupStore.Store.TrashOne | internal/backups/retention.go:234-240 | One turn of the trash loop is one step, moves the row exactly if its own statement works, and is counted exactly then; the newest snapshot of every server stays. |
| BackupStore.Store.PurgeAll | internal/backups/retention.go:223-233 | The purge loop is a run, whatever fails in it; afterwards exactly the planned rows whose statements worked are gone, and their number is what it reports. |
| BackupStore.Store.TrashAll | internal/backups/retention.go:234-240 | The trash loop is a run, whatever fails in it; afterwards exactly the planned rows whose statement worked are in trash, and their number is what it reports. |
| BackupStore.Store.CleanupLocked | internal/backups/retention.go:209-242 | A whole cleanup, asked for or run after a stored backup, is a run from its plan to the release of the lock. It takes up exactly the rows that may go and the rows that have to move (`BackupCleanup.CleanedUp`, which names no planner), deals with each unless its own statement fails, reports their numbers, and leaves everything else, and every server's newest snapshot. |
| OperationLock.StepKeepsInv | internal/backups/backups.go:1148-1166 | Every channel operation keeps: lock channels full exactly for their holders, slot tokens equal to operations running. |
| OperationLock.MutualExclusion | internal/backups/backups.go:1148-1166 | Main result: in every reachable state of any number of operations, at most one per server is past its lock and at most two run. |
| OperationLock.CancelGivesBack | internal/backups/backups.go:1159-1164 | A waiting operation can always be cancelled, which frees the lock if it held it, touches no slot, and no other holder loses its lock. |
| OperationLock.BlockedOnlyByHolders | internal/backups/backups.go:1148-1166 | An operation waits for its lock exactly while another holds it on the same server, and for a slot exactly while two are running. |
| OperationLock.SomeStepIsEnabled | internal/backups/backups.go:1154-1165 | While any operation waits or holds a lock, some step other than a cancellation can be taken: no deadlock. |
| OperationLock.StepMakesProgress | internal/backups/backups.go:1154-1165 | Every step but a new arrival strictly reduces the work left. |
| OperationLock.EveryoneFinishes | internal/backups/backups.go:1148-1166 | From every reachable state a bounded run without cancellations completes all operations. |
| Restore.ServersDirectory.Rename | internal/backups/backups.go:1107-1111 | A rename moves a whole tree, or fails and changes nothing. |
| Restore.ServersDirectory.Swap | internal/backups/backups.go:1107-1115 | At every moment of the two renames and the way back the previous tree is whole under the server id or the recovery name; success, rollback and failed rollback are told apart exactly. |
| Restore.ServersDirectory.Unpack | internal/backups/backups.go:1087-1105 | Unpacking fills the stage or leaves it partial, and touches nothing else. |
| Restore.ServersDirectory.ExtractWorld | internal/backups/backups.go:1059-1118 | Main result: whichever calls fail and at every moment a crash could leave behind, the previous tree is whole and nothing but a whole tree is at the server id; success exactly if no call on the way failed, with the new tree in place; a failed restore changes nothing unless its rollback failed too; removing the stage touches neither tree. |
| Scheduler.WriteKeepsInv | internal/schedules/store.go:266-323 | Edits between a tick's query and its claims keep the invariant. |
| Scheduler.LocalKeepsInv | internal/schedules/scheduler.go:95-132 | Launching, finishing and crashing keep the `running` map equal to the tasks starting or running. |
| Scheduler.ClaimKeepsInv | internal/schedules/scheduler.go:76-112 | The compare-and-set claim never repeats a claimed (id, due time, updated_at), and only an ordinary claim of an idle task starts it. |
| Scheduler.StepKeepsInv | internal/schedules/scheduler.go:64-132 | Every step of every process keeps the invariant. |
| Scheduler.NextRunOnlyAdvances | internal/schedules/scheduler.go:84 | Between edits a row's next run changes only by a recorded claim, and then strictly grows. |
| Scheduler.NextRunNeverGoesBack | internal/schedules/scheduler.go:64-116 | Over any stretch of a run without an edit of the row, its next run never goes back, and its version and switch stay. |
| Scheduler.ClaimsAdvance | internal/schedules/scheduler.go:82-84 | Successive claims of one row version, by whichever processes, are of strictly later and later due times. |
| Scheduler.ClaimedAtMostOnce | internal/schedules/scheduler.go:64-116 | Main result: over any interleaving of any number of processes, ticks, edits, restarts and crashes, each row version is claimed at most once per due time. |
| Scheduler.OneWorkerPerTask | internal/schedules/scheduler.go:80-132 | In one process a task never has two workers, nor a worker and another one starting. |
| Scheduler.TickReadsWhatIsDue | internal/schedules/scheduler.go:64-70 | A tick works through every enabled row whose next run has come, as it is, and through nothing else. |
| Scheduler.ClaimMeans | internal/schedules/scheduler.go:76-103 | A claim succeeds exactly if the row is still enabled and as the tick read it; only then its next run moves on; and the task goes on to be started exactly if it succeeds, in an ordinary tick, while not running in this process. No other process changes. |
| Scheduler.ClaimedTaskRuns | internal/schedules/scheduler.go:84-121 | A task claimed while idle in an ordinary tick gets exactly one worker if its start is recorded, and is free again if not, whatever others do meanwhile. |
| Scheduler.StartupTickStartsNothing | internal/schedules/scheduler.go:95-102 | After a startup tick, until the process ticks again, nothing is being started there and every worker is one from before, over any run. |
| Scheduler.OnlyClaimedTasksRun | internal/schedules/scheduler.go:80-121 | Main result: in every reachable state, every task being started or having a worker was claimed by that process in an ordinary tick when it was not running there. |
| Scheduler.RunningCanEnd | internal/schedules/scheduler.go:103-121 | In every reachable state a task in `running` is being started or has a worker that may finish, after which it can be claimed again. |
| Scheduler.ProcessesCanGoOn | internal/schedules/scheduler.go:32-78 | A process with nothing to do can tick at any time whatever the table holds, one with claims to make can pass over the next, and one can start or stop at any time. |
| RevisionSaves.StepKeepsInv | internal/servers/nbt.go:145-202 | Every step of any number of saves, with failures and crashes, keeps the invariant. |
| RevisionSaves.CommitKeepsInv | internal/servers/nbt.go:190-201 | A commit replaces the bytes that were checked, and extends the chain. |
| RevisionSaves.ScratchKeepsInv | internal/servers/nbt.go:181-189 | Backup and temporary files, whole or broken, touch no file that a save is about. |
| RevisionSaves.HistoryKept | internal/servers/files.go:597-602 | Every replacement of a file is one save of one job that is over; every job that reported success has one, and an NBT save that did not report it has none. |
| RevisionSaves.OnlySuccessWrites | internal/servers/nbt.go:145-202 | Only the rename of a save changes a file that is not a scratch file, and an NBT save whose rename worked succeeds: a failed `WriteNBT` leaves the file untouched. |
| RevisionSaves.SuccessIsBackedUp | internal/servers/nbt.go:181-201 | When `WriteNBT` succeeds, its backup holds the bytes replaced, which have the expected revision, and the file holds the new bytes. |
| RevisionSaves.BackupsKept | internal/servers/nbt.go:181-201 | However much is saved afterwards, the backup of every NBT save still holds the bytes that save replaced. |
| RevisionSaves.SavedDocumentReadsBack | internal/servers/nbt.go:172-180 | What an editor saves decodes to the edited document in the file's own compression, exactly outside the zlib look-alike family. |
| RevisionSaves.SavesFormAChain | internal/servers/files.go:568-603 | Main result: over every interleaving each save, even a text save that fails after its rename, replaced exactly the bytes with its expected revision, which were what the saves before it had made of the file; every file is what its saves made of it; each reported success is exactly one link; and what each NBT link replaced is still in its backup. |
| RevisionSaves.ContentBetween | internal/servers/files.go:597 | A file keeps what a save wrote until the next save to it. |
| RevisionSaves.SecondOfTwoMustReload | internal/servers/files.go:586-596 | Of two saves of a file with the same expected revision and no other save of it in between, both can replace it only if the first changed nothing; saves of other files do not matter. |
| SaveOutcomes.TextSaveAccepted | internal/servers/files.go:574-597 | A text save is accepted exactly if the file is byte for byte what its caller saw, or still missing, and neither it nor the new text is over 5 MiB; then the text is written as it is. |
| SaveOutcomes.NbtSaveAccepted | internal/servers/nbt.go:162-180 | An NBT save is accepted exactly if the file exists, is what its caller saw and decodes, and the new document encodes under the file's own compression. |
| SaveOutcomes.TextSaveGoesThrough | internal/servers/files.go:568-603 | A waiting save of an accepted text, the mutex free and no statement failing, replaces the file and reports success. |
| SaveOutcomes.NbtSaveGoesThrough | internal/servers/nbt.go:145-202 | So does one of an accepted document: it also keeps the replaced bytes under the backup's name and leaves no temporary file. |
| SaveOutcomes.UnacceptedSaveIsRefused | internal/servers/nbt.go:162-180 | A save that is not accepted is refused when it looks, and changes nothing. |
| SaveOutcomes.TextCommitReports | internal/servers/files.go:597-602 | A text save whose rename works has replaced the file and reports what it then finds; one whose rename fails leaves the file and reports failure. |
| ProxyCache.TotalWithout | internal/proxy/proxy.go:446-452 | The byte total counts each entry with its key and body, in whichever order. |
| ProxyCache.EvictOne | internal/proxy/proxy.go:454-468 | Evicting an oldest entry of a cache over its bounds keeps the victims oldest-first and minimal, and makes the cache smaller. |
| ProxyCache.Cache.DropExpired | internal/proxy/proxy.go:447-453 | Exactly the live entries remain, and the running count is their true total. |
| ProxyCache.Cache.Oldest | internal/proxy/proxy.go:455-462 | A key whose entry no other is older than, or none exactly for an empty cache. |
| ProxyCache.Cache.Prune | internal/proxy/proxy.go:442-469 | Main result: the loop ends with nothing expired, at most 512 entries and 33554432 bytes; the victims are live entries, oldest first, none newer than a survivor, and with the last one back a bound breaks; every other live entry stays, and all do if they fit. |
| ProxyCache.Cache.Insert | internal/proxy/proxy.go:418-430 | After a store the bounds hold, every entry is the new one or an untouched old one, and nothing live is lost if all of it fits. |
| ProxyCache.Cache.Lookup | internal/proxy/proxy.go:228-241 | A hit is what was last stored under the key, still fresh, whatever was inserted, pruned or evicted since; what was last stored and is fresh is missed only if it was evicted. |
| RequestLimiter.Limiter.Allow | internal/api/hardening.go:91-119 | The clean-up loop and the in-place compaction compute `Allowed`. |
| RequestLimiter.AdmitKeepsLimit | internal/api/hardening.go:114-118 | Admitting a request with fewer than the maximum in its window keeps every window, at any time, within the maximum. |
| RequestLimiter.AllowedKeepsInv | internal/api/hardening.go:89-119 | The map keeps telling the truth about the recent past, forgetting only what no window can see. |
| RequestLimiter.NoWindowExceedsMax | internal/api/hardening.go:89-119 | Main result: over any requests in time order, no key is admitted more than the maximum in any window, and at most 10000 keys are held. |
| RequestLimiter.RefusedOnlyWhenFull | internal/api/hardening.go:89-119 | A request is refused if and only if its own window is full, or its key is new and 10000 other keys were each admitted in their window. |
| RequestLimiter.RefusedAfterRun | internal/api/hardening.go:89-119 | The same after any requests in time order. |
| LoginLimiter.Limiter.Clean | internal/api/ratelimit.go:37-43 | The loop forgets exactly the unlocked keys idle for longer than the window. |
| LoginLimiter.Limiter.Prune | internal/api/ratelimit.go:79-89 | One key's times are compacted to its window, in order. |
| LoginLimiter.Limiter.Allow | internal/api/ratelimit.go:30-59 | The whole call computes `AllowSpec`: answer, wait and state. |
| LoginLimiter.Limiter.Decide | internal/api/ratelimit.go:47-58 | The part after the key bound computes `Answer`. |
| LoginLimiter.Limiter.Record | internal/api/ratelimit.go:61-77 | A success forgets the key; a failure counts unless its window is full. `LoginLimiter.FailuresAreCounted` says over runs that failures are counted. |
| LoginLimiter.RefusalLocks | internal/api/ratelimit.go:53-58 | An unlocked key is locked until the lockout's end exactly if its window holds the maximum, and goes on otherwise. |
| LoginLimiter.LockSurvives | internal/api/ratelimit.go:33-89 | Before its end, no call but a success of the same key undoes a lock, whatever other keys do. |
| LoginLimiter.LockedOut | internal/api/ratelimit.go:33-89 | Over any such calls, the key stays locked and every attempt before the end is refused with the exact time left. |
| LoginLimiter.RefusedUntilTheEnd | internal/api/ratelimit.go:30-89 | Main result: a key refused for too many failures at t is refused until t + lockout with the exact time left, whatever is called in between but a success of its own. |
| LoginLimiter.KnownKeys | internal/api/ratelimit.go:37-46 | After the clean-up exactly the keys with a lock or an attempt in the window are known, with their times; another key is turned away for one window if there are 10000. |
| LoginLimiter.FailuresAreCounted | internal/api/ratelimit.go:30-77 | After any calls in time order in which the key was never at its limit, the limiter holds exactly its recent failures since its last success, and it is not locked. |
| LoginLimiter.LockedAfterMaxFailures | internal/api/ratelimit.go:30-77 | Main result, over such calls from the empty limiter: once the maximum of failures lies in one window, the first attempt is refused and the key locked for the whole lockout, however many keys are known; with fewer it is admitted, if it is known or there is room. |
| LoginLimiter.LockedOutAfterMaxFailures | internal/api/ratelimit.go:30-77 | And every later attempt until the lockout ends is refused with the exact time left, unless a success is recorded for the key. |
| LoginLimiter.LockedAfterLateFailures | internal/api/ratelimit.go:61-77 | Failures of attempts let through side by side, recorded after the window is full, change nothing: the next attempt is refused and the key locked, as long as the first ones are recent. |
| HashCache.PassCache.Missing | internal/servers/update_pass.go:60-65 | The loop finds exactly the requested hashes not yet asked for. |
| HashCache.PassCache.Store | internal/servers/update_pass.go:74-80 | The loop records a reply for its batch: checked, failed or answered, and nothing else. |
| HashCache.PassCache.Collect | internal/servers/update_pass.go:82-91 | The loop fails exactly if a requested hash failed, and otherwise returns what is known of them. |
| HashCache.PassCache.Ask | internal/servers/update_pass.go:71-81 | A batch is disjoint from every batch before it, its reply is remembered faithfully, and its hashes are failures exactly if the request for it failed. |
| HashCache.PassCache.Lookup | internal/servers/update_pass.go:57-91 | Main result: over any requests in a pass the batches sent are pairwise disjoint, an answer is exactly the upstream map restricted to the requested hashes, and an error means one of them failed before or is in the batch sent now and that has failed. |
| CheckCache.StepKeepsInv | internal/checkcache/cache.go:25-46 | Every step of every call keeps: an open entry has exactly its fetching owner, and whatever has returned is what its entry holds. |
| CheckCache.FetchedOnceAndShared | internal/checkcache/cache.go:25-46 | Main result: over any run of a pass each name is fetched at most once, and all calls for it that return, return the same result, error or not. |
| CheckCache.ResultIsFinal | internal/checkcache/cache.go:43-45 | A shared result is never replaced during the pass. |
| CheckCache.SomeStepIsEnabled | internal/checkcache/cache.go:33-45 | While any call is unsettled some step other than a cancellation can be taken, if fetches ask only for lower-ranked names. |
| CheckCache.EveryoneReturns | internal/checkcache/cache.go:25-46 | So from every reachable state a bounded run without cancellations settles all calls. |
| CheckCache.SelfNestingNeverReturns | internal/checkcache/cache.go:33-41 | That ranking is needed: a fetch that asks for its own name never returns unless cancelled. |
| Versions.CompareVersionTokens | internal/jars/jars.go:764-823 | The comparison with its loop over segments computes `CompareSpec`. |
| Versions.CompareIsNumeric | internal/jars/jars.go:786-823 | On dotted numbers with components in 64 bits, it is the lexicographic order of the component values. |
| Versions.CompareIsTotalPreorder | internal/jars/jars.go:764-823 | There it is antisymmetric, total and transitive, equality included. |
| Versions.MixedTokensCycle | internal/jars/jars.go:774-821 | An example where it is not transitive (`VersionOrder.TransitiveIff` says exactly when): 9 < 10 < 1a < 9. |
| Versions.HugeComponentsCycle | internal/jars/jars.go:806-820 | And one on versions that are stable by the pattern: 1.2 < 1.10 < 1.1000… < 1.2, with a component over 64 bits. |
| Versions.StableIsNotAnInteger | internal/servers/update_checker.go:283-285 | A stable version never takes the single-integer path of the comparison. |
| Versions.TwoComponents | internal/servers/update_checker.go:283-285 | Two digit strings around a dot match the pattern and split into just those two. |
| VersionNames.FieldsOfJoin | internal/jars/jars.go:786-787 | The segments of a name are exactly the parts that dots and dashes join in it. |
| VersionNames.StableIff | internal/servers/update_checker.go:283-285 | The names that count as releases are exactly two or more digit strings joined by dots. |
| VersionNames.LessMeans | internal/jars/jars.go:817-820 | Text order: a proper beginning comes first, otherwise the first byte that differs decides. |
| VersionNames.SegmentMeans | internal/jars/jars.go:806-820 | Two segments compare as integers when both are, whatever their spelling, and otherwise as text. |
| VersionNames.FirstDifferenceDecides | internal/jars/jars.go:794-822 | The first segment that differs in order decides, and a longer name is newer than its own beginning. |
| VersionNames.LatestIsNewest | internal/jars/jars.go:765-773 | "latest" is newer than every other name, compared either way. |
| VersionOrder.CompareFlips | internal/jars/jars.go:764-823 | On all names whatever the comparison says the same both ways. |
| VersionOrder.TokensTransitiveIff | internal/jars/jars.go:801-820 | Comparing single tokens is transitive on a set **if and only if** no three of them cross: two 64-bit integers in order, and a token that is none which as text comes after the second and before the first. |
| VersionOrder.CrossingIsCycle | internal/jars/jars.go:794-822 | Token sequences that cross at their first difference go round in a circle. |
| VersionOrder.CycleIsCrossing | internal/jars/jars.go:794-822 | And three that go round in a circle cross at their first difference. |
| VersionOrder.CompareIsByTokens | internal/jars/jars.go:774-787 | Comparing names is comparing their tokens, but for integers with a minus sign, which the split drops. |
| VersionOrder.TransitiveIff | internal/jars/jars.go:764-823 | Main result: for every set of names, the comparison is transitive on it, and so a total preorder, **if and only if** no three of its names cross. |
| VersionOrder.NumericNamesDoNotCross | internal/jars/jars.go:794-816 | Names made of numbers that fit in 64 bits, whatever separates them, never cross. |
| VersionOrder.CompareIsNumbers | internal/jars/jars.go:786-816 | On them the comparison is the lexicographic order of the numbers. |
| VersionOrder.OneTokensCross | internal/jars/jars.go:786-787 | Names without separators cross exactly as tokens do. |
| VersionOrder.HugeComponentsCross | internal/servers/update_checker.go:285 | Stable versions can cross, with a component over 64 bits. |
| Catalog.Store.Newest | internal/servers/update_checker.go:287-310 | The loop returns the newest accepted version, the first among equals (specification `NewestOf`). |
| Catalog.Store.Remember | internal/servers/software_catalog.go:16-46 | An observation moves the one row forward or leaves it, and touches no other row. |
| Catalog.AcceptedMeans | internal/servers/update_checker.go:283-307 | The row of game versions accepts exactly dotted numbers; a row of builds anything but the empty name, latest, custom and prereleases. |
| Catalog.RowMovesForward | internal/servers/software_catalog.go:16-46 | Whatever is observed, a row only takes an accepted name from the list observed, and only over nothing, over a saved version that is no release, or over a name it is newer than. |
| Catalog.NewestOfIsNewest | internal/servers/update_checker.go:287-310 | Of values on which the comparison is transitive, the result is one accepted and none is newer, or empty exactly if none is accepted. |
| Catalog.TransitiveIsMaximum | internal/servers/software_catalog.go:16-46 | Where the comparison is transitive on the names in sight, a row of either kind is always one of them and none is newer. |
| Catalog.MaximumIff | internal/servers/software_catalog.go:12-46 | Main result: the promise that an older response cannot erase a newer known release holds of a row, from every start and over every run of observations of a set of names it accepts, **if and only if** no three of these names cross. |
| Catalog.BuildMaximumIff | internal/servers/software_catalog.go:16-46 | For builds without separators: if and only if no three cross as tokens. |
| Catalog.ReleaseMaximumIff | internal/servers/software_catalog.go:16-46 | For releases: if and only if no three cross, which takes one with a component over 64 bits. |
| Catalog.NumericRowIsMaximum | internal/servers/software_catalog.go:16-46 | So rows of builds or versions made of numbers that fit are running maxima. |
| Catalog.CatalogIsRunningMaximum | internal/servers/software_catalog.go:16-46 | And so is the row of game versions after any observations of releases whose components fit: what is stored is one ever seen, and no stable version ever seen is newer. |
| Catalog.OrderDoesNotMatter | internal/servers/software_catalog.go:16-46 | Two runs that saw the same names, none of which cross, in any order, store names that compare equal. |
| Catalog.BuildsCanCycle | internal/servers/software_catalog.go:16-46 | Builds that pass the filter and cross: 9, 10 and 1a displace each other in turn for ever. |
| Catalog.ReleasesCanCycle | internal/servers/software_catalog.go:16-46 | Releases that cross and do the same in the row of game versions. |

## Left out

- gzip, zlib and SHA-256 themselves: compression is a pair of functions, inverse and with the right header where a theorem needs it (`InversePair`); a revision is any function that tells contents apart and is never empty. What `Decode` makes of a stream that is not valid is whatever the given function says.
- Decimal text of floating-point numbers: a pair of functions, with the shortest-form round trip as a hypothesis (`Faithful`) where a theorem needs it. The NaN text is modelled exactly.
- NbtDecodeEncode.DecodeThenEncode: for compressed input the result is the payload compressed again, which need not be the same compressed bytes.
- NbtDecodeEncode.DecodeEncodeDecode: for a file that turns into a zlib look-alike, it says that the document does not come back; whether anything does is up to the zlib library.
- WorldScanRefines.ScanRefinesDecode: stated for uncompressed bytes; opening the file, gunzipping and the 16 MiB test before the scan are not modelled. It says nothing of files the full parser refuses; the scan accepts some of those, within the bounds of `WorldFacts.ScanIsBounded`.
- WorldFacts.MetadataOfTree: where a name at the top of the tree is empty or holds a slash, other tags can be at the tested paths too; then the seed and version are what `WorldScanRefines.ScanRefinesDecode` says by paths.
- Scheduler.ClaimedAtMostOnce: per row version only. `Update` reads its clock before its write, so a due time may recur under a new `updated_at`; every edit is taken to write an `updated_at` no row has had.
- Scheduler: cron parsing and time zones (the next run is any later whole second), the status columns, what a task executes, chains of steps and their delays, and normalising a schedule's input.
- BackupRecords.RunIsSafe: an upload's archive and row, and the removal of an archive and then its row, are one step each, with their failures in between; rows that vanish because their server is deleted, S3 and local paths, and progress messages are not modelled.
- Retention.PlanRetention: sizes are added as unbounded integers.
- BackupStore.Store.CleanupLocked: all rows that one cleanup moves to trash get one time of deletion, where the source reads its clock for each.
- OperationLock: the identifier check before the lock, and the server lifecycle coordinator behind it.
- Restore: what an archive unpacks to is a given tree or a failure; a rename is taken to move a whole tree or nothing, as the operating system promises, and identifiers made by `uuid` to be new names.
- RevisionSaves.SavesFormAChain: for saves that carry an expected revision and no other writers; `lockWorld`, the test that the server is stopped (`ErrNBTBusy`), path checks and file modes are not modelled. The temporary file of `storage.Write` is left out, so a text save is one rename that works or changes nothing, after which the call may still fail. A crash falls between steps, so not between a rename and the report of it.
- ProxyCache: request pacing, the 429 backoff, single-flight, how long each kind of response lives, and headers. Nothing is claimed about the interval between requests to one host.
- HashCache: JSON, and the wait for the cache's mutex, which makes each lookup one step.
- CheckCache: a type mismatch between two calls for one name, a fetch that panics, and `RecordError`. That fetches are ranked is a hypothesis of the progress lemmas (the version resolver asks the proxy, and the proxy asks nobody).
- RequestLimiter, LoginLimiter: the HTTP middleware, the mutex, and the reuse of a slice's backing array by the compaction. Clocks are taken not to go back for the request limiter, and where the login limiter's failures are counted.
- LoginLimiter.LockedAfterMaxFailures: for a key that was below its limit at every earlier attempt and failure. Failures recorded while its window is full are dropped by the source, so they lengthen no lock; `LoginLimiter.LockedAfterLateFailures` is what holds with them.
- Catalog: the pattern for prerelease builds is a parameter; a row of builds is taken to start empty or with a build; failed transactions change nothing; and `applySoftwareCatalog` is not modelled.
- HTTP handlers, event streams, container runtime calls, DNS, RCON, archive packing and extraction, modpack installs, notifications, permissions and port pools: plumbing, or easy next to the above.
