# A model of Source Spotter

Source Spotter audits the Go checksum database. This project models, in Dafny, the parts
that decide whether the log is honest, and proves what they guarantee:

- **The auditor** (`Merkle`, `Database`, `Auditor`, `AuditorSafety`, `Quiescence`, `Duplicates`). Any number
  of daemons run the ingest worker, the audit worker and the STH receivers against one
  database. `Auditor` is a state machine whose actions are the single SQL statements and
  committed transactions, the delivery of a notification, a wake-up and a crash. Every theorem
  about runs in `AuditorSafety` holds for every interleaving, for every order of root hashes
  that `DISTINCT ON` may use, from an empty database on. The main ones: a verdict is evidence
  (`VerdictIsEvidence`), nothing stored or decided ever changes (`NothingChanges`), the record
  table is the log (`RecordsAreTheLog`), a quiet daemon has nothing left to do (`NothingLeft`),
  and every daemon can become quiet (`Quiescence.QuietIsReachable`).
- **One ingester at work** (`SqlServer`, `Ingest`, `Progress`, `Gossip`). The same statements as
  classes that change state in place, with a failure possible at every statement. A run of
  `Ingest` leaves the tables at a well-defined place, and runs that fail do not change where
  a later successful run ends (`CrashesDoNotMatter`).
- **Wire formats** (`Text`, `Base64`, `Records`, `Download`, `Sths`): the parsers and printers
  of records, data tiles and signed tree heads, and the tile-by-tile download.
- **The Mach-O signature stripper** (`MachO`, `MachOSign`): the in-place edit, its safety on
  every input, and that it undoes signing.
- **Toolchains** (`ToolchainAudit`, `Bootstrap`, `Schedule`): which toolchains a pass builds,
  why an `equal` result can be trusted, and when a reproducible toolchain gets one.
- **Signed go.sum lines** (`Authorized`): atomic uploads that can be replayed.

Hashes are a free datatype, so equal hashes were computed in the same way. Texts are strings
of one character per byte, except in `Authorized`, where a character is a code point.

## Properties that fail, and when

- Formatting a parsed record does not always give the input back: Go's base64 reader skips CR
  and ignores unused bits (`Records.CarriageReturnIsLost`, `Records.UnusedBitIsLost`). It does
  exactly when both base64 texts are canonical (`Records.FormatParse`).
- Stripping a signed Mach-O file does not always give the unsigned file back. It does exactly
  when the 16 bytes after the load table were zero and the `__LINKEDIT` segment had equal file
  and memory sizes (`MachOSign.StripUndoesSign`); there are files that fail for either reason
  (`MachOSign.SampleIsLost`). Files of fewer than three load commands stay signed
  (`MachOSign.FewLoadsStaySigned`).
- The chain of trusted compilers needs one checksum for each toolchain version that can be a
  compiler: a release, not a candidate, of the builder's platform and an even minor version
  from 22 on. All other versions may be disputed (`Bootstrap.TrustIsWellFounded`). The query that picks a compiler has
  no order and no check of this, and a second checksum for any such version breaks the chain in
  some run (`Bootstrap.SecondChecksumBreaksTrust`). `Bootstrap.TrustIffCompilersUndisputed` is
  the exact condition.
- A toolchain that every build reproduces is not always found `equal`. It is exactly when its
  newest recorded compiler has an `equal` result at the moment at which the audit looks for it
  (`Schedule.EqualIffCompilerReady`); a compiler that is ready when the pass begins is enough
  (`Schedule.ReadyInTime`). When both are new in one pass, it can stay `failed` for ever
  (`Schedule.TooEarlyStaysFailed`).

## Model

| member | source | states |
|---|---|---|
| Merkle.MthInjective | internal/records/ingest.go:164-174 | a root determines the whole list of leaves it was computed from, so equal roots mean equal histories |
| Merkle.OnePeakPerBit | internal/records/ingest.go:65-66 | the stored tree holds one perfect-subtree hash per one bit of its size |
| Merkle.MthSplit | internal/records/ingest.go:164-166 | the root of a longer list hashes together the roots of its first k leaves, k the largest power of two below its length, and of the others, in this order |
| Merkle.RootIsMth | internal/records/ingest.go:166-166 | the root of the incremental tree is the Merkle Tree Hash of section 2.1 of RFC 6962 |
| Merkle.AddRefines | internal/records/ingest.go:163-165 | adding a leaf to the tree of a list gives the tree of the longer list |
| Merkle.ResumeRefines | internal/records/ingest.go:62-67 | a tree that was stored and loaded again gives the same trees and roots as one kept from the start |
| Merkle.CollapsedInjective | internal/records/ingest.go:99-101 | two trees are equal only for equal lists of leaves, which is what the check in `begin` relies on |
| Text.ParseUintDecimal | sumdb/sth.go:66-69 | every 64-bit size printed with %d reads back |
| Text.ParseUintMeans | sumdb/sth.go:66-69 | a text reads as a 64-bit number exactly when it is its decimal form with any zeros before it |
| Text.DecimalShape | sumdb/sth.go:107-109 | %d writes the usual digits with no zero before them |
| Base64.DecodeEncode | sumdb/record.go:55-58 | decoding an encoded hash gives it back |
| Base64.EncodeDecode | sumdb/record.go:55-58 | encoding a decoded text gives it back exactly when it has no newline character and no unused bits set |
| Base64.Alphabet | sumdb/record.go:111-117 | the 64 characters of section 4 of RFC 4648 |
| Base64.BlockValue | sumdb/record.go:111-117 | a block of characters holds the bits of its bytes, highest first, then zero bits and `=` |
| Base64.EncodeAt | sumdb/record.go:111-117 | block k of the text encodes the bytes from 3k on |
| Base64.DecodeMeans | sumdb/record.go:55-58 | a text without newline characters reads as some bytes exactly when it is their encoding but for unused bits |
| Base64.DecodeSkips | sumdb/record.go:55-58 | CR and LF anywhere do not matter |
| Records.ParseFormat | sumdb/record.go:74-121 | a well-formed record survives Format and ParseRecord |
| Records.FormatInjective | sumdb/record.go:119-125 | the leaf data determines the record |
| Records.ParseIsFixedPoint | sumdb/record.go:74-109 | what a parse returns is well formed, and formatting and parsing it again changes nothing |
| Records.FormatParse | sumdb/record.go:50-121 | formatting a parsed record gives the input back exactly when both base64 texts are canonical |
| Records.CarriageReturnIsLost | sumdb/record.go:54-58 | inputs that parse and are not what Format writes |
| Records.UnusedBitIsLost | sumdb/record.go:54-58 | for every record an input with a set unused bit that parses to it and is not what Format writes |
| Records.FormatText | sumdb/record.go:111-121 | the exact bytes of the two go.sum lines that are hashed |
| Records.ParseIff | sumdb/record.go:50-109 | an input is read as a record exactly when it is its two go.sum lines with base64 texts that read as the hashes; everything else is refused |
| Download.SplitRecords | sumdb/download.go:47-59 | the loop cuts a tile at every empty line |
| Download.JoinRecordTexts | sumdb/download.go:47-59 | whatever the tile contains, its pieces joined again are the tile |
| Download.TileRoundTrip | sumdb/download.go:114-127 | a tile made of formatted records splits and parses to those records |
| Download.FormatTileIndex | sumdb/download.go:61-69 | the loop builds the name: groups of three digits, an `x` before all but the last |
| Download.TileNameInjective | sumdb/download.go:61-69 | no two tiles share a name |
| Download.TileNameMeans | sumdb/download.go:61-69 | the parts between slashes are `x` and three digits, the last one without `x`; to the base 1000 they give the tile number, with no leading zero part |
| Download.UrlMeans | sumdb/download.go:104-107 | the address of a tile, spelled out |
| Download.UrlInjective | sumdb/download.go:104-107 | no two requests for a tile or a part of it share an address |
| Download.FetchRecords | sumdb/download.go:95-129 | the unsigned arithmetic never underflows, the count is checked, the records before the range are skipped |
| Download.ReadTileMeans | sumdb/download.go:109-129 | an answer is accepted exactly when it has the number of records asked for and those of the range parse |
| Download.NextAt | sumdb/download.go:95-101 | every success makes progress and stops at a tile boundary or at the end |
| Download.DownloadRecords | sumdb/download.go:131-153 | with an honest server the records sent are the log's from `begin` on, without gap or repeat across tiles, retries and cancellation; a completed download has sent all of them with one success per tile; with a server that answers it completes |
| Download.ServesIsHonest | sumdb/download.go:109-128 | a server that serves the formatted records is honest in that sense |
| Sths.ParseSTH | sumdb/sth.go:58-105 | the parser with its loop over signature lines computes the meaning of the text, errors in the same order |
| Sths.MeaningIff | sumdb/sth.go:58-105 | a text is read as an STH exactly when it has the preamble, the size, the root, an empty line, lines of other signers and then a line of this log, whatever follows |
| Sths.AuthenticateMeans | sumdb/sth.go:111-133 | authentic means: the key is the byte 1 and an Ed25519 key that verifies the spelled-out text of size and root with the signature after four bytes |
| Sths.FormatMeans | sumdb/sth.go:147-149 | the text of an STH, spelled out |
| Sths.ParsePublished | sumdb/sth.go:58-149 | an STH reads back, also behind any number of other signers' lines and before any other text |
| Sths.ParseFormat | sumdb/sth.go:147-149 | what Format writes reads back, for every size, root, signature and newline-free address |
| Sths.MessageInjective | sumdb/sth.go:107-120 | the signed message says exactly the size and the root |
| Sths.ParsedInRange | sumdb/sth.go:66-79 | a parsed size fits 64 bits and a parsed root has 32 bytes |
| Database.LatestIsLastBefore | schema/30-triggers.sql:58-64 | the record trigger finds the last earlier position of the module |
| Database.CopyBatch | internal/records/ingest.go:164-170 | copying the rows of addRecord behind a full table gives the full table of the longer log, and no position collides |
| Database.CopyAppends | internal/records/ingest.go:168-170 | COPY succeeds exactly for positions that are new and differ, and appends the rows that were sent |
| Database.InsertOnce | internal/sths/insert.go:35-38 | a tree head that is stored leaves the tables alone and notifies nobody; another is appended, and notified exactly when it has no verdict |
| AuditorSafety.InsertVerdictOk | schema/30-triggers.sql:36-48 | the insert trigger decides exactly the sizes already verified, size 0 included, and rightly |
| AuditorSafety.AuditTables | internal/sths/audit.go:36-58 | the batch audit keeps every verdict right, even with a size read earlier, and leaves none of that size open |
| AuditorSafety.AddKeeps | internal/records/ingest.go:162-190 | addRecord keeps the open transaction a continuation of the stored log and stops for a verified checkpoint only at a stored root |
| AuditorSafety.StepKeeps | cmd/sourcespotter/sumdb.go:99-143 | every step of every daemon keeps the invariant, and the tables only grow |
| AuditorSafety.RecordsAreTheLog | internal/records/ingest.go:162-171 | in every state of a run the rows stand at positions 0, 1, 2 and so on, each with the root of all rows up to it and its duplicate link |
| AuditorSafety.PositionsAreTrees | internal/records/ingest.go:126-134 | both positions are trees of stored rows, verified never exceeds download and is itself a stored tree head |
| AuditorSafety.NothingChanges | internal/sths/insert.go:35-38 | between any two states of a run: rows, tree heads with their size and root, and given verdicts stay, both positions only grow |
| AuditorSafety.StoredOnce | internal/sths/insert.go:35-38 | in every state of a run no two stored tree heads agree in size and root |
| AuditorSafety.NotifiesExactly | schema/30-triggers.sql:28-56 | every step sends every daemon a notification for a new tree head without a verdict and for a new verified position, and no other |
| AuditorSafety.VerdictMeaning | schema/30-triggers.sql:36-48 | a verdict of either origin says whether the root is that of the first tree_size rows, then and later |
| AuditorSafety.VerdictIsEvidence | internal/sths/audit.go:36-47 | a verdict comes with a stored tree head at least as large that has the computed root, and it is false exactly when no list of leaves has both roots |
| AuditorSafety.EmptyTreeVerdict | schema/30-triggers.sql:39-40 | in every state of a run every tree head of size 0 has a verdict, by the hash of the empty list |
| AuditorSafety.NothingLeft | cmd/sourcespotter/sumdb.go:99-191 | when a daemon has no notification, no full channel and both workers asleep, every stored tree head is downloaded and every one up to the verified size is decided |
| Quiescence.QuietIsReachable | cmd/sourcespotter/sumdb.go:99-191 | from every state of a run a daemon can come to rest with no timer, no new tree head and no crash but that of a refused `begin`, with every stored tree head downloaded and every verified one decided |
| Quiescence.RunsOut | internal/records/ingest.go:206-228 | whoever holds the lock can bring its run to an end, checkpoint after checkpoint, and release it |
| AuditorSafety.TransactionsExclude | internal/records/ingest.go:77-113 | at most one daemon is in a transaction and its commit cannot fail on a taken position |
| AuditorSafety.BeginFailsIffOvertaken | internal/records/ingest.go:96-101 | an ingester is refused exactly when the log was renamed or others committed records since it loaded |
| Duplicates.LinksAreExact | schema/30-triggers.sql:58-64 | following the links lists all earlier rows of the module and version, latest first; there are as many links as repeated rows |
| SqlServer.Server.SelectLatest | schema/30-triggers.sql:58-64 | the scan of the record trigger |
| SqlServer.Server.CopyIn | internal/records/ingest.go:168-170 | COPY row by row, each row seeing the rows before it |
| SqlServer.Server.BeforeSthInsert | schema/30-triggers.sql:36-48 | the value that the STH trigger assigns |
| SqlServer.Server.InsertSth | internal/sths/insert.go:35-38 | the statement does in place what `InsertOnce` says; a size beyond 63 bits is an error |
| SqlServer.Server.UpdateVerdicts | internal/sths/audit.go:36-47 | the in-place update decides the same rows in the same way as the state machine |
| SqlServer.Server.Audit | internal/sths/audit.go:49-58 | all of the update or, on an error, nothing |
| Gossip.ReceiveGossip | internal/sths/gossip.go:63-120 | an answer or a change means that the body shows an STH with the log's signature of its size and root, and such a body, for one the text of Format, is answered; one already stored changes nothing; the answer is the verdict of its row: on tables of the auditor, consistent and inconsistent say whether its root is that of the records, and a new STH is pending exactly above the verified size |
| Progress.SelectMeansNext | internal/records/ingest.go:68-70 | the query has the answer that the state machine assumes, for each size the smallest root |
| Progress.LastAnchorIsLargest | internal/records/ingest.go:173-181 | the verified position of a run belongs to the largest matching candidate |
| Progress.CommitAdvances | internal/records/ingest.go:115-143 | a commit takes the tables from one well-defined place to the next |
| Progress.AdvanceTwice | internal/records/ingest.go:62-75 | going on after a stop is the same as not stopping |
| Progress.CrashesDoNotMatter | internal/records/ingest.go:192-228 | any number of failed runs and then a successful one end in the same tables as one successful run |
| Ingest.IngestState.Begin | internal/records/ingest.go:77-113 | succeeds exactly when the statements do and address and tree are unchanged; its panic is not reached |
| Ingest.IngestState.Commit | internal/records/ingest.go:115-143 | commits the whole batch or changes nothing; its panic is not reached |
| Ingest.IngestState.Rollback | internal/records/ingest.go:145-150 | releases the row of an open transaction |
| Ingest.IngestState.Checkpoint | internal/records/ingest.go:152-160 | a commit, then a new transaction on the committed tree |
| Ingest.IngestState.AddRecord | internal/records/ingest.go:162-190 | does what the state machine's step does, and leaves fewer than 10000 rows uncommitted |
| Ingest.AddAdvances | internal/records/ingest.go:162-190 | a verified checkpoint is due exactly where the candidate has the computed root, and none exactly elsewhere below 10000 rows |
| Ingest.LoadIngestState | internal/records/ingest.go:62-75 | the state a run starts from |
| Ingest.Ingest | internal/records/ingest.go:192-228 | a run, failed or not, stores a prefix of what was delivered with the positions that belong to it; a successful one reaches the largest candidate and verifies the largest that matches; without failures it succeeds |
| Ingest.HonestOutcome | internal/records/ingest.go:192-228 | with an honest log such a run is one that crashes do not change |
| Ingest.IngestUntilDone | internal/records/ingest.go:192-228 | runs of the method itself, failing at any statement or request, until one succeeds: the tables are then those of one run without failures; one run that meets no failure is enough |
| MachO.StripDarwinSig | toolchain/darwin.go:68-161 | the in-place method, both walks included, does what `Strip` says; early exits leave the bytes alone; no access is out of range |
| MachO.StripWhen | toolchain/darwin.go:68-139 | exactly which files are stripped, kept or refused: a name with /bin/ or /pkg/tool/, the magic, four loads, a last load of 16 bytes that begins with LC_CODE_SIGNATURE, a signature inside the file, a first __LINKEDIT of 64 bits |
| MachO.WalkToLinkedit | toolchain/darwin.go:110-126 | the walk by sizes read from the file stands at the load it looks at |
| MachO.EditInPlace | toolchain/darwin.go:141-155 | the edits after the point of no return |
| MachO.StripChangesOnly | toolchain/darwin.go:97-160 | a stripped file had LC_CODE_SIGNATURE as its last load, ends where the signature began and differs only in the two counts, the cleared load and the two sizes, with these values |
| MachO.NeverConfusedAboutBounds | toolchain/darwin.go:127-139 | the bounds checks never fail; __LINKEDIT confuses only as a 32-bit segment |
| MachOSign.StripSigned | toolchain/darwin.go:97-158 | stripping a signed file gives a result that depends neither on the signature nor on its memory size |
| MachOSign.StripUndoesSign | toolchain/darwin.go:141-158 | that result is the unsigned file exactly when its room was zero and its two sizes were equal |
| MachOSign.UnsignedIsKept | toolchain/darwin.go:97-103 | an unsigned file of four or more loads comes back as it is |
| MachOSign.SampleIsLost | toolchain/darwin.go:141-158 | a file of three loads for each first byte of the room and each memory size; it comes back exactly when both are 0 |
| MachOSign.FewLoadsStaySigned | toolchain/darwin.go:83-85 | too few load commands are an error |
| ToolchainAudit.AuditAll | internal/toolchain/build.go:77-103 | the two nested loops compute the pass that `PassIsOk` is about |
| ToolchainAudit.PassIsOk | internal/toolchain/build.go:77-103 | on a sorted list no version is built twice or with a disputed checksum, builds start in list order, exactly what stands before the first disputed version is built, and everything if there is none |
| ToolchainAudit.SortedIsGrouped | internal/toolchain/build.go:75-75 | sorting by a strict order brings equal versions together |
| ToolchainAudit.PassesComplete | internal/toolchain/build.go:62-106 | with k disputed versions, k + 1 passes leave every version with a result |
| Bootstrap.BootstrapMinor | internal/toolchain/build.go:176-189 | the compiler for Go 1.N, N at least 24, has the even minor number N-2 or N-3 |
| Bootstrap.BootRowsMeans | internal/toolchain/build.go:197-203 | the query finds exactly the recorded releases, not candidates, of the minor version for the builder, with their results |
| Bootstrap.PickModernBootstrapToolchain | internal/toolchain/build.go:207-223 | no row that parses has a newer version; the hash and the status are of that same row |
| Bootstrap.ResultsAreEarned | internal/toolchain/build.go:118-174 | in every run `equal` and `unequal` come from an ended build, compared with a recorded checksum outside darwin, and `skipped` means older than Go 1.21, or than 1.24 with no configured compiler |
| Bootstrap.StepKeeps | internal/toolchain/build.go:118-174 | while no possible compiler has two checksums, every step keeps each running and ended build vouched for |
| Bootstrap.TrustIsWellFounded | internal/toolchain/build.go:144-259 | in such runs each `equal` result of Go 1.24 or later heads a finite chain of builds, each of which had ended `equal` when the one before it was launched, with falling even minors, down to a Go 1.22 made with the configured compiler |
| Bootstrap.SecondChecksumBreaksTrust | internal/toolchain/build.go:198-223 | for every possible compiler a run in which it alone is disputed and the next Go version gets an `equal` result without a chain |
| Bootstrap.TrustIffCompilersUndisputed | internal/toolchain/build.go:144-259 | when only the versions of a set may be disputed, all runs are well founded exactly when none of them can be a compiler |
| Schedule.SchedulesAreTrusted | internal/toolchain/build.go:62-106 | the same for the passes of AuditAll, however the builds of a pass interleave, fail or are cancelled |
| Schedule.ResultsAreFinal | internal/toolchain/build.go:72-105 | a stored result never changes: no later pass, and no other job of the same pass, audits that version |
| Schedule.BuildsAreStored | internal/toolchain/build.go:258-345 | the result of a version is the status of its ended build |
| Schedule.AtMostNine | internal/toolchain/build.go:64-65 | at most nine audits run beside the goroutine that starts them |
| Schedule.PassSettles | internal/toolchain/build.go:62-106 | a pass without errors gives a result to exactly the versions that its loop comes to |
| Schedule.LegacyAudit | internal/toolchain/build.go:144-174 | Go 1.21 to 1.23 are built with the configured compiler and compared with the checksum; they are skipped only without it, and older ones always |
| Schedule.LegacyResult | internal/toolchain/build.go:144-174 | a toolchain before Go 1.24 whose builds all reproduce it ends `skipped` or `equal` accordingly |
| Schedule.ModernAudit | internal/toolchain/build.go:207-259 | an audit starts a build exactly when the newest recorded compiler has an `equal` result, with that compiler and a recorded checksum of it, and stores `failed` otherwise |
| Schedule.EqualIffCompilerReady | internal/toolchain/build.go:226-259 | a toolchain whose builds all reproduce it ends `equal` exactly when its compiler was ready at the moment of its audit, else `failed` |
| Schedule.ReadyInTime | internal/toolchain/build.go:226-259 | if its compiler was ready in an earlier state and no newer one was published since, it ends `equal` |
| Schedule.TooEarlyStaysFailed | internal/toolchain/build.go:72-105 | a compiler and a toolchain in one pass, both reproducible: the toolchain is `failed` in every continuation |
| Authorized.Store.ReceiveAuthorized | internal/modules/authorized.go:36-102 | an upload is applied as a whole or, when the signature, a line or any statement up to the commit fails, not at all; the answer says which |
| Authorized.AcceptedIff | internal/modules/authorized.go:64-83 | the lines are accepted exactly when each has three fields and a hash of 32 bytes |
| Authorized.FieldsMeans | internal/modules/authorized.go:69-73 | every white-space character separates fields, and a text without any is one field or none |
| Authorized.LinesMeans | internal/modules/authorized.go:64-68 | how the scanner cuts lines |
| Authorized.UploadWrites | internal/modules/authorized.go:84-91 | after an upload each column of the key's rows holds the hash of the last line that names it, or what it held if none does; other keys' columns stay |
| Authorized.UploadAdds | internal/modules/authorized.go:84-91 | a row exists exactly when a column of it holds a hash, and rows of other keys stay |
| Authorized.RowTextMeans | internal/modules/authorized.go:136-145 | the printed lines of a row, spelled out |
| Authorized.Store.ServeAuthorized | internal/modules/authorized.go:131-146 | prints the rows of a key |
| Authorized.UploadKeeps | internal/modules/authorized.go:66-91 | in every stored row hashes have 32 bytes and a version ending in /go.mod has no source hash |
| Authorized.ReplayReachable | internal/modules/authorized.go:104-150 | for every table that uploads can build, what is served for a key rebuilds exactly its rows in an empty table, in any order |

## Left out

- An STH insert and its trigger are one step. The time between the trigger's read and the end of the insert is not modelled; in it an audit may miss the row until the next one.
- Notifications lost when the database connection is re-established: the program then waits for its timers.
- The endless worker loops and the capacity-1 channels are steps of the state machine `Auditor`, not methods, because they do not end and interleave with other processes.
- `db_id`: the tables of one checksum database are modelled; all statements of the program select by it.
- Ingest.Ingest: the download has ended when the records are added; in the program both run side by side over a channel, and other clients can come in between two statements. The state machine has the interleavings.
- SqlServer.Server.Audit: its two statements have no other client between them; the state machine separates them.
- Gossip.ReceiveGossip: one client only; the key is an argument, Ed25519 verification is a function of key, message and signature, and a function gives the hash that 32 bytes stand for. HTTP status texts are not modelled.
- Merkle.AddRefines: the tree library of certspotter is not part of this repository. It is rebuilt from its use here: a stack of hashes that collapses to the number of one bits.
- MachO.StripDarwinSig: of `macho.NewFile` only the load commands are modelled; its other checks are a function that accepts or refuses the file. The file's architecture is not interpreted.
- Download.DownloadRecords: the time and the randomness of retry delays. Cancellation is a number of requests and sends after which the context is done.
- Bootstrap.PickModernBootstrapToolchain: Go versions are a minor number, a rank among the versions of that minor, and whether they are a release or a candidate; their text is not modelled, so every recorded version parses. The LIKE pattern is a predicate on them.
- ToolchainAudit.SortedIsGrouped: `semver.Compare` is any strict order on versions. It is not one on texts that are not semantic versions, which it takes for equal.
- Schedule.EqualIffCompilerReady: darwin toolchains are excluded, because fixing their hash can fail before a build. After an error the other audits of the pass may still end; the ones that have not looked for a compiler do not.
- Builds themselves, the source archive, AWS, and fixing hashes on darwin: a build ends with any status, and on darwin it is compared with any hash.
- Authorized.Store.ReceiveAuthorized: the size limits of the request and of the line scanner, and JSON.
- Observation times, the source of an STH and its signature column, and serving gossip.
- Dashboards, feeds, telemetry, vulnerabilities, cooldown proxy, toolchain garbage collection: presentation, counting, or small parsers.
