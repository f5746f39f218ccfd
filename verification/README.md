# A model of the miniredis core, and of three small algorithms beside it

This project models the parts of the Encore repository whose correctness is not visible
from one function at a time. Most of it is `miniredis`, the in-process Redis server: its wire
protocol, the reader that turns network chunks into frames, glob matching, streams with
consumer groups, the keyspace with its time-to-lives and versions, optimistic
transactions over many connections, geohashes and HyperLogLog sketches. Beside it stand
the environment index of `lookpath`, the type registry of the client generators and the
debouncer that regenerates user code.

Code that works step by step is modelled as classes and methods with loops; each is proved
to compute a function of its input or of the old state, and the promises are then proved
about that function, over all inputs and all runs. Code made of expressions is modelled as
functions and lemmas. Where the code does not keep a promise on every input, the model
keeps the code, and a lemma states exactly when the promise holds.

| file | models |
|---|---|
| `Bytes.dfy` | octets, decimal printing and parsing |
| `Resp.dfy`, `RespLaws.dfy`, `RespFaults.dfy`, `RespRoundTrip.dfy`, `RespCodec.dfy` | the RESP2/RESP3 codec: the checker, the parser, the printer, and how they fit together |
| `RespWire.dfy`, `Utf8.dfy` | what the printer puts on the wire, octet by octet, and which strings the parser accepts |
| `Connection.dfy` | the buffered reader |
| `Glob.dfy`, `GlobSpelling.dfy` | the single-backtrack glob loop, and how patterns are written |
| `Sorted.dfy` | ordered sequences and filters, used by streams |
| `StreamIds.dfy`, `Streams.dfy`, `StreamGroups.dfy`, `StreamRuns.dfy`, `StreamStore.dfy` | stream IDs, entries, groups, whole runs of all stream commands, and the stream updated in place |
| `StreamClaims.dfy`, `StreamLists.dfy`, `StreamOps.dfy` | claims of pending entries, the IDs a pending list holds, and the stream commands as their handlers run them |
| `StreamRecords.dfy`, `StreamConsumers.dfy`, `StreamReplies.dfy`, `StreamEffects.dfy` | what every command leaves of every pending record and consumer, what reads and claims answer, and which entries and groups are left |
| `Cells.dfy`, `CellValues.dfy`, `Keyspace.dfy`, `FieldTtls.dfy`, `RedisDb.dfy` | one key, the values a client reads back from it, one database, time-to-lives of hash fields, and the database updated in place |
| `Transactions.dfy`, `Execs.dfy` | MULTI, EXEC, WATCH over interleaved connections: what versions tell, and what a transaction runs and hides |
| `Hll.dfy`, `Geo.dfy` | sketches and geohashes |
| `Environ.dfy`, `Debouncer.dfy` | the environment index and the debouncer |
| `TypeWalk.dfy`, `TypeRefs.dfy`, `TypeRegistry.dfy` | the depth-first walk of type declarations, what its references mean, and the registry updated in place |

How the source's world appears in the model:

- Text is a sequence of octets. `f64` values on the wire are opaque, with a pair of functions
  for printing and parsing them. Of that pair only this is assumed, and only of the doubles a
  frame holds: the text is one line that parses. Doubles with one text, as all NaN patterns
  have, read back as one double.
- A checked arithmetic overflow, an out-of-range slice and a capacity panic are outcomes of
  their own (`Panicked`, `SequenceOverflow`, `Overflows`, `None`), not preconditions.
- Time is a number passed in. Durations are natural numbers that saturate at zero.
- Hash maps are walked in an arbitrary order wherever the source walks one.
- A command handler runs under one lock; it is one step of the server. EXEC checks under the
  lock and then replays its commands one lock at a time, so those are separate steps.
- The debouncer's callbacks are threads; its loop appears as the points between which other
  callbacks can run, not as one method.

Promises that do not hold as they stand, with their exact conditions:

- A `*` byte in the text is taken literally by the glob loop even where the pattern has a
  wildcard: the loop agrees with the meaning of all patterns exactly on texts without `*`
  (`Glob.AgreesExactlyWithoutStars`).
- A frame survives the wire exactly when no simple or error string in it holds a line end
  (`RespRoundTrip.RoundTripExactly`); in RESP3 it comes back as the same frame exactly when,
  besides, it holds no null array and no double whose text denotes another
  (`RespRoundTrip.SameFrameExactly`). A map, set or push header with a negative count passes
  the checker and makes the parser panic (`Connection.NegativeCountCrashes`).
- Copying a key onto a key of another type leaves that key with data of both types
  (`Cells.CopyCoherentExactly`); the COPY command frees the destination first, so it never does.
- A key's version does not show every change of the key. It misses a flush; the expiry of some
  fields of a hash; a refused XADD to a free key, which leaves an empty stream there; what
  XREADGROUP, XACK, XCLAIM, XAUTOCLAIM and XGROUP CREATECONSUMER change inside a group; and a
  SWAPDB that puts an older version, or other content of the same version, in the key's place.
  Of what the modelled commands do it misses nothing else (`Keyspace.DoNoticedExactly`,
  `StreamOps.SilentExactly`, `Transactions.EffectNoticedExactly`), and these are exactly the
  single changes EXEC lets through (`Transactions.OneChangeExactly`, with XADD and XACK as instances in
  `Transactions.RefusedAddUnseen` and `Transactions.AckUnseen`).
- A delivered entry need not stay pending until it is acknowledged: XGROUP DELCONSUMER and an
  XCLAIM of a deleted entry drop pending IDs, XCLAIM with FORCE adds IDs that were never
  delivered, and a forced ID past the cursor may be delivered later without a new place on the
  list. With all of these counted the books balance in every run (`StreamRuns.AlwaysAccounted`);
  one command keeps "pending plus acknowledged equals delivered" exactly when it does none of
  them (`StreamRuns.PlainLawExactly`, with runs that do in `StreamRuns.DeletedConsumerLoses` and
  `StreamRuns.ForcedThenMet`).
- An XCLAIM with FORCE keeps a group's pending list in order and within the cursor exactly when
  the list, extended in turn by each listed ID it does not hold, is
  (`StreamLists.ForceKeepsExactly`); an ID past the cursor never fits
  (`StreamOps.ForcePastCursor`).
- Time-to-lives of hash fields outlive their fields when a field that has one is removed and
  others stay, when a string replaces the hash, and when a hash without them is copied onto one
  that has some: exactly the cases of `FieldTtls.DoTidyExactly`. (The last is a case of `copy_key`
  alone; the COPY command frees the destination first.) A field removed and set again runs out at its
  old time (`FieldTtls.InheritedTimer`).
- The excluded end `(0-0` still admits an entry `0-0` (`StreamIds.EndBoundSelects`); `0-*` on a
  new stream stores one, and the range returns it (`Streams.ZeroIsStored`,
  `Streams.ExcludedZeroIsReturned`).
- The cursor XAUTOCLAIM returns overflows exactly behind the last ID of a millisecond; otherwise a scan
  goes on where it stopped (`StreamReplies.ScanGoesOn`).
- `Get` finds the last assignment exactly for names without an inner `=`
  (`Environ.LooksUpExactly`).
- `IsRecursiveRef` can deny a mention that closes a cycle, of a declaration entered earlier
  (`TypeRefs.MissedReference`) or later (`TypeRefs.MissedLater`). A mention of a declaration
  entered no later is recognised exactly when that declaration leads back through declarations
  entered no earlier than itself (`TypeRefs.BackReferenceExactly`); for all pairs, a reference is
  recorded exactly when a path to it was read backwards in time (`TypeRefs.RecordedExactly`).
  Every cycle still has a mention that is recognised (`TypeRefs.EveryCycleIsCaught`).
- The geohash error bounds hold exactly on the encoded range of longitudes, and for latitudes
  from the lower edge of the encoded range to `(180 - 2 * 85.05112878) / 2^26` degrees beyond its
  upper edge (`Geo.GeohashError`).

## Model

| member | source | states |
|---|---|---|
| `Decimal.UnsignedRoundTrip` | miniredis/src/types.rs:178-203 | parsing the decimal text of a number gives the number back, up to the bound |
| `Decimal.I64RoundTrip` | miniredis/src/frame.rs:517-522 | parsing the decimal text of any 64-bit integer, sign included, gives it back |
| `Decimal.UnsignedExactly` | miniredis/src/types.rs:178-203 | a text is read as an unsigned number if and only if it is the shortest text of that number with an optional `+` and any zeros before it, and the number is within the bound |
| `Decimal.SignedExactly` | miniredis/src/frame.rs:517-522 | the same for 64-bit integers, with `-` before a negative one |
| `Utf8.ValidExactly` | miniredis/src/frame.rs:162-172 | a byte string is accepted as text if and only if it encodes a sequence of Unicode scalar values (section 3 of RFC 3629) |
| `RespLaws.CheckStable` | miniredis/src/frame.rs:93-155 | a verdict of the checker other than "need more" stays the same whatever bytes follow |
| `RespLaws.ParseStable` | miniredis/src/frame.rs:160-259 | an outcome of the parser other than "incomplete" stays the same whatever bytes follow |
| `RespLaws.CheckAgreesWithParse` | miniredis/src/frame.rs:93-259 | on every buffer and position: a parsed frame ends where the checker says, a checked frame is never incomplete for the parser, and the checker rejects only what the parser rejects |
| `RespFaults.CheckedFrameParses` | miniredis/src/frame.rs:160-259 | a checked frame parses exactly when no frame inside it has bad text or a negative count; otherwise the first such fault, outermost first, decides between an error and a panic |
| `RespRoundTrip.RoundTrip` | miniredis/src/frame.rs:160-382 | wherever a frame without line ends in its strings was printed, parsing consumes exactly its bytes and returns its canonical form: nulls unified, a double as what its text denotes, and in RESP2 maps flattened, sets and pushes as arrays, doubles as bulk strings |
| `RespRoundTrip.RoundTripExactly` | miniredis/src/frame.rs:160-382 | a frame followed by any bytes reads back in canonical form if and only if none of its simple and error strings holds a line end |
| `RespRoundTrip.PlainIsCanon` | miniredis/src/frame.rs:280-382 | in RESP3 a frame is its own canonical form if and only if it holds no null array and no double whose text denotes another |
| `RespRoundTrip.SameFrameExactly` | miniredis/src/frame.rs:160-382 | in RESP3 a frame followed by any bytes reads back as itself if and only if, besides, none of its simple and error strings holds a line end |
| `RespRoundTrip.ParsedIsCrlfFree` | miniredis/src/frame.rs:160-259 | nothing the parser returns holds a line end in a simple or error string |
| `RespRoundTrip.CanonCrlfFree` | miniredis/src/frame.rs:280-382 | canonical form neither adds nor removes line ends |
| `RespCodec.GetLine` | miniredis/src/frame.rs:495-508 | the scanning loop returns the bytes before the first line end and moves past it, or leaves the cursor alone |
| `RespCodec.GetLineAsInt` | miniredis/src/frame.rs:517-522 | the line as a 64-bit integer, with its error cases |
| `RespCodec.Skip` | miniredis/src/frame.rs:485-492 | skips exactly `n` bytes or nothing |
| `RespCodec.Check` | miniredis/src/frame.rs:93-155 | the recursive checker computes the verdict function and leaves the cursor at the end of the frame |
| `RespCodec.Parse` | miniredis/src/frame.rs:160-259 | the recursive parser computes the outcome function and leaves the cursor at the end of the frame |
| `RespCodec.ParsePairs` | miniredis/src/frame.rs:206-215 | the map loop pairs up exactly the frames a flat read would give |
| `RespCodec.WriteToBuf` | miniredis/src/frame.rs:280-382 | appends exactly the frame's serialization to what the buffer held |
| `RespCodec.SerializeResp` | miniredis/src/frame.rs:264-275 | returns the frame's serialization |
| `RespWire.Wire` | miniredis/src/frame.rs:280-382 | for every frame in both modes, in literal octets: its type byte, the count line of an aggregate, the line end of everything else; in RESP2 null is `$-1` and the null array `*-1`, in RESP3 both are `_` |
| `RespWire.LinesOnTheWire` | miniredis/src/frame.rs:280-382 | the whole text of simple and error strings, integers, bulk strings and RESP3 doubles |
| `RespWire.Resp2Keeps` | miniredis/src/frame.rs:318-382 | what a RESP2 reader sees of a map, place by place: its keys and values in turn; of a set or push its items; of a double its text |
| `RespWire.NegativeCountIsNull` | miniredis/src/frame.rs:173-204 | a `$` or `*` header with any negative count reads as null and takes nothing else with it |
| `Connection.TakeFrameStable` | miniredis/src/connection.rs:65-88 | once an attempt on the buffer is decided, more bytes only lengthen what is left over |
| `Connection.NegativeCountCrashes` | miniredis/src/frame.rs:205-233 | a `%`, `~` or `>` header with any negative count passes the checker and panics the parser |
| `Connection.NextExactly` | miniredis/src/connection.rs:44-88 | on all bytes still to come, exactly when a read returns a frame and which, a clean end, a reset, a protocol error or a panic, and what it leaves unread |
| `Connection.UnknownTypeFails` | miniredis/src/frame.rs:93-155 | bytes that start with none of the ten type bytes are a protocol error |
| `Connection.Connection.ParseBuffered` | miniredis/src/connection.rs:65-88 | checks, rewinds, parses, and drops exactly the checked bytes on success only |
| `Connection.Connection.ReadFrame` | miniredis/src/connection.rs:44-62 | result and remaining bytes depend on the bytes to come alone, not on how the network cut them |
| `Connection.Connection.ReadToEnd` | miniredis/src/connection.rs:44-62 | repeated reads give the same results for every way of cutting the bytes into chunks |
| `Connection.CheckPrinted` | miniredis/src/connection.rs:65-88 | the checker accepts exactly the printed bytes of a frame, whatever follows |
| `Connection.ProperPrefixWaits` | miniredis/src/connection.rs:65-88 | every proper prefix of a printed frame makes the reader wait |
| `Connection.UnreadIsTheRest` | miniredis/src/connection.rs:44-88 | after a printed frame is read, exactly the bytes behind it are unread |
| `Connection.ReadsBackInOrder` | miniredis/src/connection.rs:44-88 | frames printed one after another and a part of one more come back in order in canonical form; the end is clean exactly when the part is empty |
| `Glob.MatchItem` | miniredis/src/keys.rs:84-108 | one turn of the class scan: a byte or a range with escapes, and where it ends |
| `Glob.MatchCharClass` | miniredis/src/keys.rs:69-120 | the verdict is that of the class the pattern spells, and the length does not depend on the byte |
| `Glob.GlobMatchInner` | miniredis/src/keys.rs:12-66 | terminates, stays in range, and on texts without `*` returns whether the declarative meaning of the pattern holds |
| `Glob.LoopCorrect` | miniredis/src/keys.rs:12-66 | in every state, the loop succeeds exactly when the rest matches or a later try of the last `*` does, so one mark is enough |
| `Glob.LoopIsGlob` | miniredis/src/keys.rs:12-66 | the loop from the start decides the declarative meaning on texts without `*` |
| `Glob.AgreesExactlyWithoutStars` | miniredis/src/keys.rs:12-66 | the loop agrees with the meaning of every pattern if and only if the text holds no `*` |
| `GlobSpelling.SpellingReadsBack` | miniredis/src/keys.rs:12-120 | every list of literals, `?`, `*` and classes of ranges can be spelled, is read back from its spelling, and the pattern means that list |
| `GlobSpelling.OrdinaryMatchesItself` | miniredis/src/keys.rs:12-66 | a pattern without `*`, `?`, `[` and `\` matches itself and nothing else |
| `GlobSpelling.ClassOfBytes` | miniredis/src/keys.rs:69-120 | `[abc]` matches exactly one of the bytes listed, `[^abc]` exactly one other byte, with or without the closing bracket |
| `GlobSpelling.ClassOfRange` | miniredis/src/keys.rs:69-120 | `[a-b]` matches exactly one byte from `a` to `b`, both included, `[^a-b]` exactly one other |
| `GlobSpelling.LoneBackslash` | miniredis/src/keys.rs:12-66 | a pattern of ordinary bytes with a backslash at its end matches nothing |
| `StreamIds.CompareIsRank` | miniredis/src/types.rs:194-198 | comparing ID texts is comparing positions in the order of 64-bit pairs, unparsable ones at zero |
| `StreamIds.ParseOfFormat` | miniredis/src/types.rs:178-203 | printing any ID and parsing it gives the ID |
| `StreamIds.ParseOfNormalize` | miniredis/src/types.rs:206-212 | completing a partial ID does not change what it denotes |
| `StreamIds.After` | miniredis/src/types.rs:564-571 | the excluded start is the next position, with the carry, and fails exactly at the largest ID |
| `StreamIds.Before` | miniredis/src/types.rs:572-584 | the excluded end is the position before, with the borrow, and stays at zero |
| `StreamIds.BoundOutcome` | miniredis/src/types.rs:540-609 | a bound is refused exactly when its text describes no edge, and overflows exactly for an excluded start at the largest ID |
| `StreamIds.StartBoundSelects` | miniredis/src/types.rs:540-609 | comparing with the formatted start admits exactly the IDs its text describes |
| `StreamIds.EndBoundSelects` | miniredis/src/types.rs:540-609 | the same for the end, except that the excluded `0-0` admits `0-0` |
| `StreamIds.PartialId` | miniredis/src/types.rs:178-203 | a millisecond alone is its first ID |
| `StreamIds.PartialBounds` | miniredis/src/types.rs:540-609 | as a bound, a millisecond alone reaches from its first ID to its last |
| `StreamIds.PlainBounds` | miniredis/src/types.rs:540-609 | a whole ID bounds with itself at both ends |
| `StreamIds.SignBounds` | miniredis/src/types.rs:540-609 | `-` is a start below every ID and `+` an end above every ID |
| `StreamIds.OpenBounds` | miniredis/src/types.rs:540-609 | a parenthesis moves a start one position up and an end one position down |
| `Streams.GeneratedIsLeast` | miniredis/src/types.rs:220-245 | a generated ID is past the last allocated ID and the last entry, not before the given time, and is the least such ID |
| `Streams.GenerateOverflows` | miniredis/src/types.rs:220-245 | generation overflows exactly when the last allocated ID ends a millisecond that is not over |
| `Streams.AddGeneratedKeeps` | miniredis/src/types.rs:253-291 | an automatic add appends past every entry and past the last allocated ID |
| `Streams.AddExplicitExactly` | miniredis/src/types.rs:267-283 | an explicit ID is taken exactly when it parses, is above `0-0` and above every entry |
| `Streams.AddKeeps` | miniredis/src/types.rs:253-291 | every add keeps entries strictly increasing; a refused add changes nothing |
| `Streams.AddAutomatic` | miniredis/src/types.rs:253-291 | `*` takes the least ID from the current time on, `ms-*` the least from that millisecond on, past every entry and every ID allocated; refused if and only if the last one allocated ends a millisecond that is not over |
| `Streams.AddExplicitAnswers` | miniredis/src/types.rs:253-291 | any other ID is answered with itself, completed, or with the first objection: it cannot be read, is `0-0`, or is not above every entry |
| `Streams.TrimMaxLenKeeps` | miniredis/src/types.rs:294-301 | leaves exactly the newest entries, as many as the limit or all of them, in order; every dropped entry is older than every kept one, and groups and allocated ID stay |
| `Streams.TrimMinIdKeeps` | miniredis/src/types.rs:304-309 | leaves exactly the entries at or above the threshold, in order, and these are the newest; groups and allocated ID stay |
| `Streams.KeepKeeps` | miniredis/src/types.rs:304-309 | retaining by any condition keeps exactly the entries that meet it, in order, with the allocated ID ahead |
| `Streams.DelKeeps` | miniredis/src/types.rs:353-363 | deletes exactly the entries with the given IDs, counts each once, keeps order and groups |
| `Streams.RangeSelects` | miniredis/src/types.rs:320-333 | ranging between formatted bounds returns exactly the entries the bound texts describe, with the one exception at an excluded `0-0` |
| `Streams.ZeroIsStored` | miniredis/src/types.rs:253-291 | `0-*` on a new stream stores an entry `0-0` |
| `Streams.ExcludedZeroIsReturned` | miniredis/src/types.rs:320-333 | the range up to but not including `0-0` returns that entry |
| `Streams.RangeOrdered` | miniredis/src/types.rs:320-333 | a range is in order and a count takes its first entries |
| `StreamGroups.DeliverAppends` | miniredis/src/types.rs:448-478 | entries past everything pending are all first deliveries: the list grows by them in order and only the reader's counter moves |
| `StreamGroups.UndeliveredIsStretch` | miniredis/src/types.rs:430-445 | what `>` reads is the stretch of entries right after the cursor, cut at the count |
| `StreamGroups.ReadNewKeeps` | miniredis/src/types.rs:428-480 | a read of new entries keeps the group valid, moves the cursor to its last entry, and lengthens the list by the entries unless NOACK |
| `StreamGroups.RedeliverReturns` | miniredis/src/types.rs:481-505 | redelivery returns the first `count` of the consumer's pending entries that still exist from the given ID on |
| `StreamGroups.RedeliverAtZero` | miniredis/src/types.rs:481-505 | with a count of zero it still handles the first such pending entry |
| `StreamGroups.RedeliverKeepsList` | miniredis/src/types.rs:481-505 | redelivery leaves IDs and owners alone and adds one delivery for each entry returned |
| `StreamRecords.RereadReturns` | miniredis/src/types.rs:481-505 | the reply of a history read is the first `count` of the entries the consumer has pending from the given ID on, in the order of the list, and exactly the records of these count one more delivery, now |
| `StreamRecords.RereadAtZero` | miniredis/src/types.rs:481-505 | with a count of zero the reply is the entry of the first such record, if it still exists |
| `StreamRecords.ReadOwns` | miniredis/src/types.rs:428-480 | what `>` hands out belongs to the reader since now, delivered once more than before, and every other record is as it was; with NOACK every record is |
| `StreamGroups.StartMeans` | miniredis/src/types.rs:376-399 | `$` starts a group at the last entry, behind every entry there is; any other text starts it at the ID it names |
| `StreamGroups.ReadFromKeeps` | miniredis/src/types.rs:402-506 | every read keeps IDs distinct and within the cursor, owners known and counters exact |
| `StreamGroups.ReadFromSource` | miniredis/src/types.rs:402-506 | what is pending after a read was pending before it or was just handed out |
| `StreamGroups.AckOneRemoves` | miniredis/src/types.rs:516-533 | acknowledging a pending ID removes that one entry and one from its owner's counter |
| `StreamGroups.AckOneMisses` | miniredis/src/types.rs:516-533 | acknowledging anything else changes nothing and counts nothing |
| `StreamGroups.AckEachKeeps` | miniredis/src/types.rs:510-535 | acknowledging any list of IDs keeps the group valid, and the count is what the list lost |
| `StreamGroups.ReadNewChangesExactly` | miniredis/src/types.rs:428-480 | a read of new entries changes the group if and only if the consumer is new or there is an entry past the cursor |
| `StreamGroups.RereadChangesExactly` | miniredis/src/types.rs:481-505 | a redelivery changes the group if and only if the consumer is new or has a pending entry from the given ID on that still exists |
| `StreamGroups.AckChangesExactly` | miniredis/src/types.rs:510-535 | an acknowledgement changes the group if and only if one of the IDs is pending |
| `StreamClaims.ClaimKeeps` | miniredis/src/cmd/stream.rs:1205-1278 | claims without FORCE keep the pending list in order, within the cursor, its owners known and their counters exact |
| `StreamClaims.AutoClaimKeeps` | miniredis/src/cmd/stream.rs:1376-1437 | so do automatic claims of any number of entries from any place in the list |
| `StreamLists.AckEachSound` | miniredis/src/types.rs:510-535 | on any list of distinct IDs, acknowledging takes exactly the listed IDs off, and the reply is how many were there |
| `StreamLists.ClaimSound` | miniredis/src/cmd/stream.rs:1205-1278 | a claim without FORCE takes exactly those IDs off the list whose entries are gone, and keeps counters and owners right |
| `StreamLists.ForceExtends` | miniredis/src/cmd/stream.rs:1205-1278 | a claim with FORCE extends the list, in order, by the listed IDs it does not hold, and keeps counters and owners right |
| `StreamLists.ForceKeepsExactly` | miniredis/src/cmd/stream.rs:1205-1278 | a claim with FORCE keeps a valid group valid if and only if the list so extended increases and stays within the cursor |
| `StreamRecords.ClaimRecords` | miniredis/src/cmd/stream.rs:1205-1278 | the pending list after a claim without FORCE, record by record: the listed IDs whose entries are gone are off it, the other listed ones are handed over, the rest is as it was, in order |
| `StreamRecords.ForceRecords` | miniredis/src/cmd/stream.rs:1205-1278 | the pending list after a claim with FORCE: every listed ID is handed over, those that were not on it behind the others |
| `StreamRecords.ClaimOwns` | miniredis/src/cmd/stream.rs:1205-1278 | after XCLAIM every listed ID on the list belongs to the claiming consumer, delivered now and once more for each time it is listed; every other record is as it was |
| `StreamRecords.AutoClaimOwns` | miniredis/src/cmd/stream.rs:1376-1437 | after XAUTOCLAIM exactly the first `count` ready records, or the first for a count of zero, belong to the consumer, delivered now and once more; every other record is as it was |
| `StreamRecords.AckRecords` | miniredis/src/types.rs:510-535 | acknowledging leaves the other records, whole and in order |
| `StreamRecords.GroupAfterRecords` | miniredis/src/cmd/stream.rs:520-1463 | for every command on a group: what each record of its pending list is afterwards, owner, deliveries and time |
| `StreamConsumers.ConsumersAfter` | miniredis/src/cmd/stream.rs:520-1463 | for every command on a group: who its consumers are afterwards, when each was seen and last got something new, and whether its count of entries read is known |
| `StreamReplies.ClaimAnswers` | miniredis/src/cmd/stream.rs:1205-1290 | XCLAIM claims exactly the listed IDs that are pending and whose entries exist, with FORCE all of them, in the order listed |
| `StreamReplies.AutoClaimAnswers` | miniredis/src/cmd/stream.rs:1376-1437 | XAUTOCLAIM claims the first `count` ready records in order, the first for a count of zero |
| `StreamReplies.ScanGoesOn` | miniredis/src/cmd/stream.rs:1436-1463 | on a list in order, the ready records that were not claimed are exactly those from the returned cursor on; it overflows if and only if the last one claimed ends a millisecond |
| `StreamLists.DropConsumerSound` | miniredis/src/cmd/stream.rs:645-687 | deleting a consumer takes exactly its own IDs off the list |
| `StreamLists.ReadExtends` | miniredis/src/types.rs:402-506 | on any list of distinct IDs, in order or not, a read extends it by the new entries it does not hold, unless NOACK, and a redelivery leaves it alone |
| `StreamClaims.DropConsumerKeeps` | miniredis/src/cmd/stream.rs:645-687 | deleting a consumer with its pending entries keeps the group valid |
| `StreamClaims.ClaimChangesExactly` | miniredis/src/cmd/stream.rs:1205-1278 | XCLAIM changes the group if and only if the consumer is new, an ID is pending, or FORCE adds one |
| `StreamClaims.AutoClaimChangesExactly` | miniredis/src/cmd/stream.rs:1376-1437 | XAUTOCLAIM changes the group if and only if the consumer is new or an entry is ready to be claimed |
| `StreamOps.NeverAddedExactly` | miniredis/src/types.rs:253-291 | an empty stream refuses an ID if and only if it does not parse or is `0-0` |
| `StreamOps.SilentExactly` | miniredis/src/cmd/stream.rs:27-1463 | a stream command changes the stream without raising the key's version if and only if it is a refused add to a free key or a command that, by a condition on the group before it, changes a group |
| `StreamOps.PerformKeepsExactly` | miniredis/src/cmd/stream.rs:27-1463 | a stream command keeps the entries in order and every group's list in order, within its cursor and exactly counted, if and only if it is not a forced claim whose extended list is out of order |
| `StreamOps.AlwaysWhole` | miniredis/src/cmd/stream.rs:27-1463 | so the stream of every run whose forced claims fit is whole |
| `StreamOps.ForcePastCursor` | miniredis/src/cmd/stream.rs:1262-1277 | a forced claim of any ID above `0-0` breaks an idle group that starts there |
| `StreamOps.GroupAfterHolds` | miniredis/src/cmd/stream.rs:520-1463 | for every command on a group: which IDs its pending list holds afterwards and where its cursor stands, with IDs distinct, owners known and counters exact |
| `StreamEffects.GroupsAfter` | miniredis/src/cmd/stream.rs:27-1463 | for every stream command: which groups there are afterwards |
| `StreamEffects.MakeGroupStarts` | miniredis/src/cmd/stream.rs:520-610 | a group that XGROUP CREATE makes has nobody and nothing pending and begins at the ID given, or for `$` behind every entry there is |
| `StreamEffects.AddLeaves` | miniredis/src/cmd/stream.rs:27-136 | XADD does nothing under NOMKSTREAM without a stream, leaves the stream alone when refused, and otherwise leaves exactly the newest entries, its own last, that outlast its trims |
| `StreamEffects.DeleteLeaves` | miniredis/src/cmd/stream.rs:387-425 | XDEL leaves exactly the entries not named, in order, and all of them if one of the IDs cannot be read |
| `StreamEffects.TrimLeaves` | miniredis/src/cmd/stream.rs:428-517 | XTRIM leaves exactly the newest `n` entries, or exactly those from the given ID on |
| `StreamEffects.RaisesExactly` | miniredis/src/cmd/stream.rs:27-1463 | for every stream command: exactly when it raises the version of its key |
| `StreamRuns.StepKeeps` | miniredis/src/cmd/stream.rs:27-1463 | every stream command, forced claims and the removal of groups and consumers included, keeps the entries ordered and the followed group's account |
| `StreamRuns.AlwaysAccounted` | miniredis/src/cmd/stream.rs:27-1463 | in every run of all stream commands and for every group: hand-outs by `>` strictly increase across all consumers, pending IDs are distinct, exactly counted and were handed out or forced, and pending, acknowledged, dropped and delivered while pending together equal delivered plus forced |
| `StreamRuns.AlwaysBalanced` | miniredis/src/cmd/stream.rs:27-1463 | in every run whose forced claims fit, the pending list is also in order and within the cursor, and pending, acknowledged and dropped together equal delivered plus forced |
| `StreamRuns.PlainLawExactly` | miniredis/src/cmd/stream.rs:520-1463 | where pending plus acknowledged equals delivered, a command on the group keeps it so if and only if it deletes no consumer with pending entries, claims no pending ID whose entry is gone, forces no ID that is not pending and hands out none that is |
| `StreamRuns.DeletedConsumerLoses` | miniredis/src/cmd/stream.rs:645-687 | make a group, add an entry, read it, delete the reader: one delivery, nothing pending, nothing acknowledged |
| `StreamRuns.ForcedThenMet` | miniredis/src/types.rs:448-478 | force an ID, add its entry, read it: one delivery and one forced ID, but one place on the list |
| `StreamRuns.HandedExactly` | miniredis/src/cmd/stream.rs:27-1463 | in every run of stream commands without trims and deletes, a group has handed out exactly the entries above its start and up to its cursor, once each and in order |
| `StreamEffects.HandsOutPastStart` | miniredis/src/types.rs:376-445 | in every run that does not remove it, a group made with `$` is never handed an entry that was there when it was made, and one made with an ID never one up to that ID |
| `StreamStore.StreamObject.GenerateId` | miniredis/src/types.rs:220-245 | computes the generated ID and records it, or overflows and changes nothing |
| `StreamStore.StreamObject.Add` | miniredis/src/types.rs:253-291 | result and new stream are those of the value-level add |
| `StreamStore.StreamObject.TrimMaxLen` | miniredis/src/types.rs:294-301 | new stream, and how many entries went |
| `StreamStore.StreamObject.TrimMinId` | miniredis/src/types.rs:304-309 | new stream, and how many entries went |
| `StreamStore.StreamObject.Del` | miniredis/src/types.rs:353-363 | the loop over IDs computes the value-level delete and its count |
| `StreamStore.StreamObject.CreateGroup` | miniredis/src/types.rs:376-399 | makes the group at the right start, or reports the name as taken and changes nothing |
| `StreamStore.StreamObject.ReadGroup` | miniredis/src/types.rs:402-506 | result and new groups are those of the value-level read; the reply is the entries past the cursor, or the consumer's own pending entries from the ID on, cut at the count |
| `StreamStore.StreamObject.DeliverEach` | miniredis/src/types.rs:448-478 | the delivery loop computes the value-level delivery |
| `StreamStore.StreamObject.RedeliverEach` | miniredis/src/types.rs:485-503 | the redelivery loop with its early exit computes the value-level redelivery |
| `StreamStore.StreamObject.Ack` | miniredis/src/types.rs:510-535 | the loop over IDs computes the value-level acknowledgement and its count |
| `Cells.CoherentExactly` | miniredis/src/db.rs:169-505 | on a coherent key every typed operation leaves a coherent key if and only if its type precondition holds |
| `Cells.ApplyNoticedExactly` | miniredis/src/db.rs:82-505 | an operation of a key never lowers its version and raises it when it changes tag or value, if and only if it is not one of the silent stream commands |
| `Cells.ExpireNoticed` | miniredis/src/cmd/generic.rs:213-280 | setting, clearing or meeting a key's time-to-live, or that of its fields, never changes its content behind its version |
| `Cells.ForwardTwice` | miniredis/src/db.rs:679-728 | for one key, two moves of the clock are one: tag, value, time-to-lives and version |
| `Cells.ForwardCoherent` | miniredis/src/db.rs:679-728 | moving the clock keeps a key coherent |
| `Cells.ForwardNoticedExactly` | miniredis/src/db.rs:679-728 | moving the clock is noticed by the version if and only if no hash loses some but not all of its fields |
| `Cells.FieldExpiryUnnoticed` | miniredis/src/db.rs:697-728 | a hash of two fields, one about to expire: one field goes and the version stays |
| `Cells.RenameMovesWhole` | miniredis/src/db.rs:510-581 | renaming gives the destination the source's cell but for the version, frees the source, and raises the destination's version |
| `Cells.CopyCoherentExactly` | miniredis/src/db.rs:611-669 | copying leaves a coherent key if and only if the destination was free or of the same type |
| `CellValues.WriteReads` | miniredis/src/db.rs:179-445 | what a client reads after a writer: the last pair of each field, pushed values in their places, members, scores and sketches, beside what was there; time-to-lives stay |
| `CellValues.RemoveReads` | miniredis/src/db.rs:199-415 | what is left after a removal, in order; one new version where there was something; a key without anything left is free |
| `CellValues.ReplaceReads` | miniredis/src/db.rs:89-505 | a replacement leaves its value and nothing of what was there; only SET and PFMERGE keep the time-to-live |
| `CellValues.StreamReads` | miniredis/src/cmd/stream.rs:27-1463 | a stream command leaves its stream under a free key or a stream's key, and a key of another type alone |
| `CellValues.CopyReads` | miniredis/src/db.rs:611-669 | a copy to a free key or one of the same type has the content and the time-to-lives of the original |
| `CellValues.Queue` | miniredis/src/db.rs:243-276 | RPUSH then LPOP until the key is free: what was there, then the values pushed, in the order pushed |
| `CellValues.Stack` | miniredis/src/db.rs:243-288 | LPUSH then LPOP, and RPUSH then RPOP: the values pushed, last one first, down to what was there |
| `CellValues.ForwardReads` | miniredis/src/db.rs:679-728 | after a time a key is gone if and only if its time-to-live or that of each of its fields is over; otherwise it holds what it held but for the fields whose time is over, and every time-to-live is that much less |
| `CellValues.ExpireReads` | miniredis/src/cmd/generic.rs:213-280 | what setting, clearing and meeting time-to-lives leaves of a key and of its fields |
| `CellValues.ExpiresExactly` | miniredis/src/cmd/generic.rs:213-280 | a key given a time-to-live is there for exactly that long; one whose time-to-live was cleared stays |
| `CellValues.FieldExpiresExactly` | miniredis/src/cmd/hash.rs:534-675 | a field given a time-to-live is there for exactly that long, the other fields as long as they had |
| `Keyspace.RenameMeans` | miniredis/src/db.rs:510-581 | in a whole database: value and time-to-lives move, other keys stay, source equal to destination included |
| `Keyspace.DoCoherentExactly` | miniredis/src/db.rs:89-728 | an operation keeps the database coherent if and only if its type precondition holds |
| `Keyspace.RunCoherent` | miniredis/src/db.rs:89-728 | every run of operations within their type preconditions ends coherent |
| `Keyspace.FastForwardTwice` | miniredis/src/db.rs:679-728 | fast-forwarding by `a` then `b` leaves the same database as by `a + b` |
| `Keyspace.DidShows` | miniredis/src/db.rs:82-728 | operations done row by row in place are the operations on the whole database |
| `Keyspace.DoNoticedExactly` | miniredis/src/db.rs:82-728 | a key's version notices every change of its content if and only if the operation is neither a flush of it, nor a partial field expiry, nor a silent stream command on it |
| `FieldTtls.TidyExactly` | miniredis/src/db.rs:169-216 | an operation of a key leaves time-to-lives on existing fields only, if and only if it is not a string set over field time-to-lives and not a removal of a field that has one and leaves others |
| `FieldTtls.ForwardTidy` | miniredis/src/db.rs:679-728 | moving the clock removes fields and their time-to-lives together |
| `FieldTtls.CopyTidyExactly` | miniredis/src/db.rs:611-669 | a copy leaves them on existing fields if and only if the source has some of its own or those of the destination name fields of the source |
| `FieldTtls.DoTidyExactly` | miniredis/src/db.rs:89-728 | the same for every operation of a database |
| `FieldTtls.InheritedTimer` | miniredis/src/db.rs:199-216 | a field removed and set again is gone when its old time is over |
| `RedisDb.RedisDB.IncrVersion` | miniredis/src/db.rs:82-86 | one version up, nothing else |
| `RedisDb.RedisDB.Del` | miniredis/src/db.rs:89-126 | erases the key's rows, raises its version, touches no other key |
| `RedisDb.RedisDB.DelKeepTtl` | miniredis/src/db.rs:129-158 | removes tag and data, keeps time-to-lives and version |
| `RedisDb.RedisDB.StringSet` | miniredis/src/db.rs:169-174 | replaces whatever the key held, one version up, other keys untouched |
| `RedisDb.RedisDB.HashSet` | miniredis/src/db.rs:179-191 | puts the pairs in order and counts the new fields |
| `RedisDb.RedisDB.HashDel` | miniredis/src/db.rs:199-216 | removes the fields, counts them, and takes an emptied hash's key with it |
| `RedisDb.RedisDB.ListPushFront` | miniredis/src/db.rs:243-252 | the values end up reversed at the front; returns the length |
| `RedisDb.RedisDB.ListPushBack` | miniredis/src/db.rs:255-264 | the values end up at the back; returns the length |
| `RedisDb.RedisDB.ListPopFront` | miniredis/src/db.rs:267-276 | replies the first element and leaves the others in order; the last one takes its key with it |
| `RedisDb.RedisDB.ListPopBack` | miniredis/src/db.rs:279-288 | replies the last element and leaves the others in order; the last one takes its key with it |
| `RedisDb.RedisDB.SetAdd` | miniredis/src/db.rs:293-304 | adds the members and counts the new ones |
| `RedisDb.RedisDB.SetRem` | miniredis/src/db.rs:307-324 | removes the members, counts them, and takes an emptied set's key with it |
| `RedisDb.RedisDB.SetReplace` | miniredis/src/db.rs:347-355 | replaces the key; an empty replacement is ignored |
| `RedisDb.RedisDB.ScoreAdd` | miniredis/src/db.rs:360-368 | sets the score and tells whether the member is new |
| `RedisDb.RedisDB.ScoreIncrBy` | miniredis/src/db.rs:392-400 | adds to the score, from zero for a new member, and returns it |
| `RedisDb.RedisDB.ScoreRem` | miniredis/src/db.rs:403-415 | removes the member and takes an emptied set's key with it |
| `RedisDb.RedisDB.ScoresReplace` | miniredis/src/db.rs:418-427 | replaces the key; an empty replacement deletes it |
| `RedisDb.RedisDB.HllAdd` | miniredis/src/db.rs:432-445 | the loop raises the key's sketch by all items, and tells whether any register grew |
| `RedisDb.RedisDB.HllCount` | miniredis/src/db.rs:448-475 | nothing if and only if some key holds something else; otherwise the count of one key's sketch, or of the merge of several |
| `RedisDb.RedisDB.HllMerge` | miniredis/src/db.rs:479-505 | refused, with nothing changed, if and only if some key holds something else; otherwise the destination holds the merge of all sketches there are |
| `RedisDb.RedisDB.CheckTtl` | miniredis/src/db.rs:584-592 | deletes the key exactly when its time-to-live is zero |
| `RedisDb.RedisDB.Rename` | miniredis/src/db.rs:510-581 | the sequence of removals and insertions computes the value-level rename, for distinct keys and for one key, and touches no third key |
| `RedisDb.RedisDB.CopyKey` | miniredis/src/db.rs:611-669 | computes the value-level copy and touches only the destination |
| `RedisDb.RedisDB.CheckHashFieldTtls` | miniredis/src/db.rs:697-728 | ages the fields in any order, removes the expired ones, and an emptied hash's key |
| `RedisDb.RedisDB.FastForward` | miniredis/src/db.rs:679-693 | whatever order the maps are walked in, every key moves forward by the duration and nothing else happens |
| `RedisDb.RedisDB.Flush` | miniredis/src/db.rs:595-608 | every key is blank, its version included |
| `RedisDb.RedisDB.StepMeans` | miniredis/src/db.rs:82-728 | what the methods promise is the value-level operation, so runs of methods are runs of a store; and a method keeps all keys coherent if and only if its type precondition holds |
| `Transactions.WatchRecords` | miniredis/src/cmd/transactions.rs:39-54 | WATCH records each named key's version as it is and leaves other records alone |
| `Transactions.EffectNoticedExactly` | miniredis/src/dispatch.rs:170-392 | whatever a command of any connection does to the data, SWAPDB and FLUSHALL included, each key's version notices it if and only if it is not an unseen change |
| `Transactions.RunNoticed` | miniredis/src/dispatch.rs:170-392 | over any run without unseen changes of the key, its version tells whether its content was ever changed |
| `Transactions.AlwaysCoherent` | miniredis/src/dispatch.rs:170-392 | every reachable server has 16 databases, all of them coherent |
| `Transactions.RecordStaysOverRun` | miniredis/src/cmd/transactions.rs:39-54 | over any run, the version recorded for a watched key is the one of its latest WATCH |
| `Transactions.WatchToExec` | miniredis/src/dispatch.rs:332-392 | from any coherent server, over any interleaving without unseen changes of the key: a key watched at some moment and still watched when EXEC passes has the tag and value of that moment |
| `Transactions.OneChangeExactly` | miniredis/src/dispatch.rs:353-364 | after one change of a watched key EXEC's check still holds if and only if the change is unseen |
| `Transactions.RefusedAddUnseen` | miniredis/src/cmd/stream.rs:119-131 | a refused XADD to a free key leaves an empty stream there and the version as it was |
| `Transactions.AckUnseen` | miniredis/src/cmd/stream.rs:864-900 | XACK of a pending ID changes the key and leaves its version as it was |
| `Transactions.ReplayInOrder` | miniredis/src/dispatch.rs:366-392 | left undisturbed, a connection with commands to replay executes all of them in order, one replay each |
| `Execs.CommandMeans` | miniredis/src/dispatch.rs:170-330 | for every command and every key: a command acts on the database its connection has selected, and only if the key's type lets it; SWAPDB exchanges two databases and FLUSHALL blanks all |
| `Execs.ClockRuns` | miniredis/src/db.rs:774-785 | moving the clock of a database moves every key of it and nothing else |
| `Execs.QueueGrows` | miniredis/src/dispatch.rs:187-264 | from MULTI on, whatever others do, the queue holds the commands the connection has sent since, in the order sent, and the transaction is marked if and only if one was rejected |
| `Execs.ExecTakes` | miniredis/src/dispatch.rs:332-368 | from MULTI to EXEC, with any events of others between: EXEC takes exactly the commands sent, in the order sent, if and only if none was rejected and no watched key has a newer version; queue and watches are gone |
| `Execs.ExecRuns` | miniredis/src/dispatch.rs:332-392 | and, left undisturbed from there, the data ends as if exactly these commands had been executed in that order |
| `Execs.DiscardDrops` | miniredis/src/cmd/transactions.rs:28-36 | from MULTI to DISCARD: nothing of it runs, queue and watches are gone |
| `Execs.ReplaysInTurn` | miniredis/src/dispatch.rs:366-392 | with any events of others between, each replayed command is the next one EXEC took |
| `Execs.HiddenUntilExec` | miniredis/src/dispatch.rs:187-264 | until EXEC, data and all other connections are as if nothing had been sent inside MULTI |
| `Execs.StaysWatched` | miniredis/src/cmd/transactions.rs:39-60 | a watched key stays watched until its connection ends a transaction, unwatches or closes |
| `Execs.ExecGuarded` | miniredis/src/dispatch.rs:332-392 | watch a key; after any events without unseen changes of it, if its content is another one, EXEC runs nothing |
| `Transactions.ConnCtx.Queue` | miniredis/src/dispatch.rs:187-264 | inside MULTI a command is queued, or marks the transaction when it is rejected |
| `Transactions.ConnCtx.Begin` | miniredis/src/cmd/transactions.rs:17-25 | MULTI starts an empty, clean queue and refuses to nest |
| `Transactions.ConnCtx.DiscardAll` | miniredis/src/cmd/transactions.rs:28-36 | DISCARD drops queue and watches, and is refused outside MULTI |
| `Transactions.ConnCtx.WatchAll` | miniredis/src/cmd/transactions.rs:39-54 | the loop over keys records what the value-level WATCH records |
| `Transactions.ConnCtx.Commit` | miniredis/src/dispatch.rs:332-368 | walking the watched keys in any order, hands out the queue exactly when EXEC passes, and clears the state |
| `Hll.RankMeaning` | miniredis/src/hll.rs:47-56 | the register index is the top 14 bits, and the rank counts the zeros that follow them, between 1 and 51 |
| `Hll.SketchIsMax` | miniredis/src/hll.rs:78-87 | each register is the largest rank among the elements that select it, or zero |
| `Hll.SketchDependsOnSet` | miniredis/src/hll.rs:78-87 | lists with the same elements, in any order and number, give the same sketch |
| `Hll.MergeIsSketchOfBoth` | miniredis/src/hll.rs:109-115 | merging two sketches is the sketch of both lists |
| `Hll.RegistersBounded` | miniredis/src/hll.rs:47-87 | no register exceeds 51 |
| `Hll.RaiseAllExtends` | miniredis/src/db.rs:432-445 | adding items to the sketch of some elements gives the sketch of all of them |
| `Hll.SingleKeyAgrees` | miniredis/src/db.rs:448-475 | counting one key directly and through the merge agree if and only if the key exists or an empty sketch counts zero |
| `Hll.MergeAllIsSketchOfAll` | miniredis/src/db.rs:479-505 | merging any number of sketches is the sketch of all their elements |
| `Hll.HyperLogLog.Add` | miniredis/src/hll.rs:78-87 | raises at most one register in place and tells whether anything changed |
| `Hll.HyperLogLog.MergeFrom` | miniredis/src/hll.rs:109-115 | the loop takes the maximum register by register |
| `Hll.HyperLogLog.AddAll` | miniredis/src/db.rs:432-445 | adding items one by one gives the sketch of everything added so far, and the flag tells whether it changed |
| `Geo.SpreadBits` | miniredis/src/geo.rs:31-39 | spreading puts bit `k` at place `2k` and clears the rest |
| `Geo.SquashBits` | miniredis/src/geo.rs:42-51 | squashing undoes spreading |
| `Geo.InterleaveRoundTrip` | miniredis/src/geo.rs:54-61 | interleaving and deinterleaving undo each other |
| `Geo.TruncateBoth` | miniredis/src/geo.rs:66-76 | dropping twelve bits of the hash drops six of each coordinate |
| `Geo.GeohashError` | miniredis/src/geo.rs:17-90 | over the reals, the decoded point is within 180/2^26 degrees exactly on the encoded longitudes, and within 90/2^26 degrees exactly from the lowest encoded latitude to a little past the highest |
| `Geo.LatitudeError` | miniredis/src/geo.rs:17-27 | the latitude bound, in both directions |
| `Geo.LongitudeError` | miniredis/src/geo.rs:17-27 | the longitude bound, in both directions |
| `Geo.GeohashBits` | miniredis/src/geo.rs:54-76 | latitude is in the even bits of the hash and longitude in the odd ones, each without its six lowest bits |
| `Geo.GeohashQuarter` | miniredis/src/geo.rs:17-76 | the two highest bits tell east from west and north from south |
| `Geo.GeohashRoundTrip` | miniredis/src/geo.rs:74-90 | re-encoding the decoded point of any 52-bit hash gives the hash back |
| `Environ.CompareMeans` | internal/lookpath/lookpath.go:183-236 | the order of strings is that of a dictionary: the first difference decides |
| `Environ.StableSortIsOne` | internal/lookpath/lookpath.go:183-197 | the sorted list is in key order and keeps the order of entries with equal keys |
| `Environ.StableSortUnique` | internal/lookpath/lookpath.go:183-197 | no other list is, so any stable sort gives this one |
| `Environ.SortStable` | internal/lookpath/lookpath.go:183-197 | sorts stably |
| `Environ.DropSuperseded` | internal/lookpath/lookpath.go:199-216 | the loop that deletes in place keeps, for each name, its last valid entry and nothing else |
| `Environ.DistinctKeepsLast` | internal/lookpath/lookpath.go:199-216 | after the clean-up each name has exactly its last valid entry |
| `Environ.DistinctIndexed` | internal/lookpath/lookpath.go:199-216 | the cleaned list is strictly ordered and has valid entries only |
| `Environ.ListEnviron` | internal/lookpath/lookpath.go:170-217 | builds that index, with or without upper-casing names first |
| `Environ.EntryOrder` | internal/lookpath/lookpath.go:225-236 | on valid entries and names without `=`, the search's comparison is that of the sort keys |
| `Environ.SearchIsLowerBound` | internal/lookpath/lookpath.go:225-236 | where the places below come first, the binary search ends at the first of the others |
| `Environ.Get` | internal/lookpath/lookpath.go:222-242 | the search loop computes the lookup function, the out-of-range slice included |
| `Environ.LastAssignmentWins` | internal/lookpath/lookpath.go:170-242 | building the index and looking a name up gives the value of its last valid assignment, or nothing |
| `Environ.LastFoldedWins` | internal/lookpath/lookpath.go:170-242 | with names upper-cased first, a name finds the last valid assignment of any name that maps to it |
| `Environ.SplitNameMisread` | internal/lookpath/lookpath.go:222-242 | for every name with an inner `=` there is an environment in which it is found under a name it does not have |
| `Environ.LooksUpExactly` | internal/lookpath/lookpath.go:170-242 | the lookup is right in every environment if and only if the name has no inner `=` |
| `TypeWalk.TargetsExactly` | pkg/clientgen/types.go:63-99 | the declarations a type mentions are exactly those a reference to which occurs in it, at any depth |
| `TypeWalk.TargetsInOrder` | pkg/clientgen/types.go:63-144 | a type mentions itself first, if it is a reference, then what its parts mention, from left to right |
| `TypeWalk.WalkKeeps` | pkg/clientgen/types.go:63-144 | every stretch of the walk keeps, for each finished declaration: what was entered inside its visit is reached from it inside the visit and recorded for it with all its references, its mentions are recorded, nothing recorded was entered after it, and a mention that does not lead back carries over all its references |
| `TypeRefs.SeesExactlyReachable` | pkg/clientgen/types.go:13-38 | a walk from nothing sees exactly the live declarations reachable from its roots |
| `TypeRefs.EnteredInsideIsRecorded` | pkg/clientgen/types.go:101-144 | what is entered during the visit of a declaration is recorded for it, with all its references |
| `TypeRefs.LaterExactly` | pkg/clientgen/types.go:119-144 | a declaration entered later is recorded if and only if it was entered before the visit ended, and if and only if it is reached through declarations entered no earlier |
| `TypeRefs.BackReferenceExactly` | pkg/clientgen/types.go:119-148 | a mention of a declaration entered no later is recursive if and only if that declaration leads back through declarations entered no earlier than itself; so it agrees with reachability if and only if leading back at all means leading back that way |
| `TypeRefs.EveryCycleIsCaught` | pkg/clientgen/types.go:119-148 | every cycle of mentions through a seen declaration has a mention recognised as recursive |
| `TypeRefs.OnwardIsRecorded` | pkg/clientgen/types.go:119-144 | the end of a path on which no mention but the last leads back is recorded |
| `TypeRefs.RefsAreClosure` | pkg/clientgen/types.go:119-144 | for a declaration that leads to no cycle, what is recorded is exactly what it reaches |
| `TypeRefs.RecordedExactly` | pkg/clientgen/types.go:119-144 | on every graph and for every pair, a reference is recorded if and only if some path to it was read backwards in time: no mention on it left before the next one was |
| `TypeRefs.WalkBooked` | pkg/clientgen/types.go:101-117 | each declaration seen is listed once, under its own package, and nothing else is |
| `TypeRefs.MissedReference` | pkg/clientgen/types.go:101-148 | three declarations on one cycle, where a mention of one entered earlier is not recognised |
| `TypeRefs.MissedLater` | pkg/clientgen/types.go:101-148 | three declarations on one cycle, where a mention of one entered later is not recognised |
| `TypeRegistry.Registry.Visit` | pkg/clientgen/types.go:63-99 | terminates on cyclic graphs and follows what the type mentions, in order, as the value-level walk does |
| `TypeRegistry.Registry.VisitDecl` | pkg/clientgen/types.go:101-117 | enters a declaration once, under its own package, finishes it, and restores the current declaration |
| `TypeRegistry.Registry.VisitNamed` | pkg/clientgen/types.go:119-144 | meets the reference, visits it, takes over what it refers to, and then follows the type arguments |
| `TypeRegistry.Registry.IsRecursiveRef` | pkg/clientgen/types.go:146-148 | true only for declarations that reach each other, true for those that mention each other; for any mention true if and only if a path back was read backwards in time, and for a mention of a declaration entered no later if and only if that one leads back through declarations entered no earlier |
| `TypeRegistry.GetNamedTypes` | pkg/clientgen/types.go:13-38 | records exactly the declarations reachable from the roots, each once under its own package; every reference is a path; for declarations that lead to no cycle the references are the whole closure |
| `Debouncer.StepKeepsInv` | cli/daemon/watch.go:69-95 | every step of every callback keeps the mutex, the single worker, the flags and the served events consistent |
| `Debouncer.OneRunAtATime` | cli/daemon/watch.go:69-95 | in every schedule at most one run is active |
| `Debouncer.NoEventLost` | cli/daemon/watch.go:69-95 | an event that was handed over is pending with a worker to pick it up, or a run started after it arrived; when idle nothing is pending |
| `Debouncer.NoRunForNothing` | cli/daemon/watch.go:69-95 | in every schedule, runs and the one that is due never outnumber the events handed over |
| `Debouncer.NeverStuck` | cli/daemon/watch.go:69-95 | while a callback is unfinished, some callback can move |
| `Debouncer.QuietMeansServed` | cli/daemon/watch.go:69-95 | once all callbacks finished, every event was followed by a run |
| `Debouncer.EveryScheduleEnds` | cli/daemon/watch.go:69-95 | with no further events every schedule ends, and ends quiet |

## Left out

- The text of `f64` values: printing and parsing doubles is a pair of functions; that the text of a frame's doubles is a line that parses is a hypothesis.
- Geo rounding: coordinates are exact reals, so the last-bit effects of `f64` are not modelled.
- Release-mode wrap-around: `u64` and `usize` additions that overflow are panics here; versions, delivery counts and lengths are unbounded.
- Memory: a frame or bulk string announced with a huge positive count is read as any other.
- Error message texts, replies to read-only commands, and the choice between integer and bulk replies.
- LSET, LINSERT, LREM and LTRIM rewrite the list in one operation; SETRANGE, INCR, SMOVE, RPOPLPUSH, the store forms and the like are runs of the modelled writers, and are not modelled one by one.
- The values in the reply to XCLAIM: which IDs it claims is modelled, and that a forced ID without an entry is answered only under JUSTID is not.
- XREADGROUP over several streams is one read per stream; XCLAIM's minimal idle time and its IDLE, TIME and RETRYCOUNT options, which the handler parses and ignores.
- XREVRANGE's reversal, XREAD, XPENDING and XINFO.
- EXPIRE and HEXPIRE options (NX, XX, GT, LT) only decide whether the modelled change happens.
- HyperLogLog's `hash64` is any function to 64 bits, and its `count` is not modelled.
- Last-used timestamps, random numbers, Lua scripts, passwords and authentication, blocking commands and notification, pub/sub.
- MOVE, and COPY into another database: each frees, fills and raises the keys it changes.
- The direct-access functions of the library, which write without commands and raise no versions.
- RespRoundTrip.RoundTrip: frames with a length that does not fit a 64-bit integer are excluded by hypothesis; no such frame fits in memory.
- The debounce timer: callbacks may start at any moment, and the run itself is opaque.
- Sockets, TLS, timeouts, and everything under `cli` and `pkg/clientgen` beyond the two algorithms named.
