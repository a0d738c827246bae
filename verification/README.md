# Verified model of the IM server's message path, wire codec and relationship rules

The project models, in Dafny, four parts of the repository and proves what they promise.

- **Messages.** `Allocator` is the sequence allocator as a transition system in which every atomic
  load, store, compare-and-swap and SQL statement is a step of its own, for any number of goroutines,
  failures, crashes and restarts. `SessionAllocator` is the same code as an object, each operation of
  which is a step of that machine. `Messages` is the `messages` table with its two unique indexes,
  `BatchMachine` the batch writer's goroutine, `BatchWriter` the writer as an object proved against
  that machine. `Recency` and `DedupWindows` are the dedup windows. `Relay` puts allocator, writer and
  windows together: any number of requests, resends of one stanza, timeouts, evictions, failed commits
  and crashes, in every interleaving; `RelayRuns` sums up its whole runs. `Strategy` is the relay's own code
  for one request at a time, over the dedup and allocator objects. `Whitespace` shows why the pipeline
  needs its premise on stanza ids, with the runs of `WhitespaceRuns`.
- **Wire.** `Varint`, `Wire` and `WsMessage` say what a WsMessage looks like on the wire; `Streams`,
  `VarintLoops`, `FieldIter` and `WsStruct` are nanopb's loops over buffers and structs, proved against
  that. `Scalars` says what UTF-8 encodes, by arithmetic; `Utf8` has the recogniser and both truncators,
  `ChatFrame` the ESP32 frame builder.
- **Relationships.** `KeyedTable` is a table with a two-column key; `FriendHistory`/`Friend` are the
  double-row friendship table, `Group` the group rules, `VerdictCache` the router's TTL-LRU, `CovKeys`
  its keys, `FriendGate` and `GroupGate` the gates that answer from it. `VerdictRace` takes the table
  query, the caching of its verdict, the service call and its invalidation as separate steps.
- **Small cores.** `RateLimiter` is the token bucket, `History` backward pagination.

`dafny verify dfyconfig.toml` checks everything.

## Premises

- One process at a time works on the database; a committed transaction survives a crash.
- In the allocator, a failed read of a conversation's row is harmless only while no seq of that
  conversation is out (`Allocator.Benign`): the code takes every read error for "no row". That this is
  exactly what is needed is `Allocator.FailedReadRewinds`; `Allocator.SameSeqTwice` is a whole run on
  which one failed read has the code hand out seq 1 twice.
- No two requests of one conversation carry the same stanza id made of whitespace (`Relay.Premise`): the
  writer trims the id before it decides whether to look for the original row, the index does not.
  `Messages.HonestUnlessBlankConflict` says exactly when the writer's answer is true, and
  `Whitespace.ResendBreaks` that any two such requests have a run that breaks the pipeline's promises.
- Message rows are never updated or deleted. Users keep their ids, and real user ids have no colon
  ("u_" and eight hex digits, or "u_superadmin_001"); the peer or group id a client names may be any
  string.
- In the gates, a friend or group service call is one step, with the invalidations that follow it; so
  is a probe of the table with the caching of its verdict. `VerdictRace` takes these apart: a verdict
  may then be stale, but only as long as `VerdictRace.StaleBounded` says.
- The code is followed where its comments differ: the generated header gives 1066 bytes as the greatest
  size of a message, but 1065 is the tight bound; `im_proto.h` promises a zeroed struct after a failed
  decode, but the code only zeroes before decoding.

## Model

| member | source | states |
|---|---|---|
| Allocator.SeqsNeverRepeat | internal/logic/session/allocator.go:132-185 | on every interleaving of any number of Allocate calls, failures, crashes and restarts, all seqs handed out are strictly increasing, within one process lifetime the consecutive range just above the value loaded, and each at most the watermark on disk when it is returned |
| Allocator.LifetimeStarts | internal/logic/session/allocator.go:47-96 | whichever step loads the counter, it loads max(watermark, MAX(seq)), or nothing was ever handed out and it starts at 0 |
| Allocator.RowMoves | internal/logic/session/allocator.go:143-175 | the row on disk is only ever created with watermark 0, or advanced by 1000 by a call that found the watermark it had read used up and still on disk |
| Allocator.SameSeqTwice | internal/logic/session/allocator.go:199-227 | a run from the start on which one failed read after a restart makes the code hand out seq 1 twice |
| Allocator.StepKeepsInv | internal/logic/session/allocator.go:132-228 | the inductive invariant behind it: every single load, store, compare-and-swap and SQL statement keeps it |
| Allocator.RestartKeepsInv | internal/logic/session/allocator.go:47-96 | a crash at any point, followed by LoadAll (complete, half done or failed), resumes at or above everything handed out before |
| Allocator.GetOrCreateKeepsInv | internal/logic/session/allocator.go:187-228 | the lazily loaded entry starts at max(watermark, MAX(seq)), never below an issued seq |
| Allocator.FailedReadRewinds | internal/logic/session/allocator.go:199-227 | once a seq is out, a failed read of the row makes the same call return 1 again |
| Allocator.FreshlyIssued | internal/logic/session/allocator.go:168-180 | the seq a step hands out had not been handed out before |
| SessionAllocator.SessionAllocator.Allocate | internal/logic/session/allocator.go:132-185 | a call is a run of the machine by one goroutine; it returns the seq after the counter's, above all earlier ones and covered by the row on disk, or an error exactly when what is reserved is used up and the UPDATE fails, or misses and the reload or the row's creation fails; it touches no other conversation |
| SessionAllocator.SessionAllocator.Retry | internal/logic/session/allocator.go:135-184 | the retry loop ends without interference, whatever the row's watermark is, whether the row exists, and whichever of its three statements fails; which calls fail |
| SessionAllocator.SessionAllocator.GetOrCreate | internal/logic/session/allocator.go:187-228 | loading or creating the entry follows the machine and hands nothing out; which counters and row that leaves, also when the reads of the row and of MAX(seq) or the row's creation fail |
| SessionAllocator.SessionAllocator.Restart | internal/logic/session/allocator.go:47-96 | a new process running LoadAll is the machine's restart in every conversation at once |
| SessionAllocator.SessionAllocator.Commit | internal/store/batch.go:149-165 | a message committed under a seq that was handed out leaves the allocator's state a sound one: a restart will resume above it |
| SessionAllocator.SessionAllocator.LoadMaxima | internal/logic/session/allocator.go:73-94 | after the second query every entry is max(watermark, MAX(seq)) |
| Messages.StoreOneKeepsUnique | internal/store/batch.go:154-194 | INSERT OR IGNORE keeps both unique indexes and only ever appends |
| Messages.HonestUnlessBlankConflict | internal/store/batch.go:161-194 | a row's result is true of the table exactly when the insert failed, the row does not collide, or its stanza has a character outside Unicode's 25 white space code points |
| Messages.ResendAnswered | internal/store/batch.go:161-194 | a resend under a stanza with a visible character, a UUID say, leaves the table alone and is answered with the original's seq and timestamp as a duplicate, or with the error of the statement that failed |
| Messages.NewStored | internal/store/batch.go:154-173 | a message whose seq and stanza are new, or that has no stanza, becomes a row of its own |
| Messages.SeqTaken | internal/store/batch.go:180-193 | a collision by seq alone is reported as an error |
| Messages.TrimUnpads | internal/logic/friend/service.go:265-268 | trimming yields the one string that is left when the white space at both ends, and nothing else, is gone |
| Messages.SpacesAre | internal/store/batch.go:176-179 | the white space characters are the 25 code points of the Unicode property |
| Messages.WhitespaceStanzaLies | internal/store/batch.go:176-179 | a concrete resend of a one-space stanza is reported stored under a seq no row has |
| Messages.BoundariesInvisible | internal/store/batch.go:129-213 | however the queue is cut into batches that commit, table and results are those of inserting one message at a time |
| Messages.FailedBatchesVanish | internal/store/batch.go:134-145 | batches whose begin or commit fails leave no trace in the table, and every entry still gets a result |
| Messages.FailedBatchTold | internal/store/batch.go:134-206 | every row of a batch whose begin or commit failed is told which it was, and the table stays |
| BatchMachine.EveryEntrySettledOnce | internal/store/batch.go:86-261 | on every run accepted = delivered + in delivery + batch + queue in order, fewer than 100 entries wait between flushes and none once the queue has run dry, results are those of the flushed batches, no channel gets two, and a stop drains all accepted before the last look at the queue |
| BatchMachine.StepKeepsInv | internal/store/batch.go:122-247 | every step of callers and worker keeps that invariant |
| BatchMachine.DeliverKeepsInv | internal/store/batch.go:116-120 | a result goes to a channel that is still empty |
| BatchMachine.FlushKeepsFaith | internal/store/batch.go:129-213 | flushing a batch extends table and results as the one-at-a-time specification does |
| BatchWriter.BatchWriter.EnqueueSync | internal/store/batch.go:86-99 | accepts into a queue of 10,000, or answers at once when the queue is full or the message nil |
| BatchWriter.BatchWriter.ExecRows | internal/store/batch.go:148-195 | the row loop computes table and staged results of the specification |
| BatchWriter.BatchWriter.Transact | internal/store/batch.go:134-206 | begin and commit failures leave the table alone and give every entry the error |
| BatchWriter.BatchWriter.DeliverResults | internal/store/batch.go:207-212 | delivers every staged result in order, to entries that have a channel |
| BatchWriter.BatchWriter.OnReceive | internal/store/batch.go:217-226 | receiving flushes when the batch is full or the queue has run dry |
| BatchWriter.BatchWriter.OnTick | internal/store/batch.go:227-228 | a tick flushes what is there |
| BatchWriter.BatchWriter.OnDone | internal/store/batch.go:229-245 | the stop drain settles everything accepted, in order, also what callers enqueue between its looks at the queue |
| Recency.WindowHolds | internal/router/dedup.go:81-104 | a window holds a memo exactly when it is its stanza's latest store and fewer than 100 distinct stanzas were stored since |
| Recency.WindowRefreshed | internal/router/dedup.go:88-93 | re-storing a stanza updates its values and moves it to the front |
| Recency.WindowGrown | internal/router/dedup.go:94-103 | a new stanza goes to the front and pushes out at most the oldest |
| DedupWindows.DedupWindows.Lookup | internal/router/dedup.go:59-76 | a lookup, after any history, answers exactly the latest values of a stanza that is among the 100 most recently stored ones, and changes nothing |
| DedupWindows.DedupWindows.Store | internal/router/dedup.go:81-104 | a store appends to one conversation's history and to no other; empty stanzas are ignored |
| DedupWindows.DedupWindows.WindowFor | internal/router/dedup.go:41-56 | a window is created on first use and changes no history |
| DedupWindows.ConvWindow.Store | internal/router/dedup.go:86-103 | list and index stay in bijection and equal to the window of the history |
| Recency.AnswerLatest | internal/router/dedup.go:81-104 | right after a store, that stanza is answered with the stored values, whatever the history |
| Strategy.CentralRelay.Relay | internal/router/strategy.go:113-202 | from any sound state, hit or miss, unless the stanza is whitespace that is stored but no longer remembered: a success sends one ACK, with the original's numbers, no push and an unchanged table when the stanza is stored already, else with those of the one new row, under a seq above all stored ones, which is pushed; an error sends nothing and needs a failed statement, batch or row, or a timeout; a resend is then answered alike; all pipeline promises still hold |
| Strategy.CentralRelay.HitIsOriginal | internal/router/strategy.go:117-123 | what the window answers is the row the requery would find |
| Strategy.CentralRelay.SendOut | internal/router/strategy.go:171-202 | a stored row is remembered, acknowledged, and pushed unless it is a duplicate |
| Strategy.CentralRelay.Unheard | internal/router/strategy.go:156-169 | a failed batch or a timeout sends nothing; after a timeout the row may still be stored |
| Strategy.StoredMeans | internal/store/batch.go:161-194 | for a row whose seq is new, "stored" means either the original's numbers and an unchanged table, or the row itself; a failure needs a fault |
| Relay.NothingUntrueLeaves | internal/router/strategy.go:113-202 | on every run every ACK names a committed row of its stanza, every push is a committed row pushed once, every remembered stanza is a committed row, and both unique indexes hold |
| Relay.StanzaAtMostOnce | internal/router/strategy.go:113-202 | however often a stanza is resent it is stored once, pushed at most once, and all its ACKs carry the row's seq and timestamp |
| RelayRuns.PlainClientsServedOnce | internal/router/strategy.go:113-202 | with clients whose stanza ids are empty or have a visible character, all of that holds on every run, however often a stanza is resent |
| RelayRuns.NothingInvented | internal/router/strategy.go:134-199 | on every run each row and each push has conversation, sender, receiver, stanza and content of one request that arrived |
| Relay.RepliedFinishes | internal/router/strategy.go:163-202 | a request whose reply is there can finish: an error sends nothing; a stored row is remembered, acknowledged with the reply's numbers, duplicates included, and pushed unless it is one |
| Relay.HitIsWhatTheWriterWouldSay | internal/router/strategy.go:117-123 | in every reachable state a window hit is what allocating, enqueueing and requerying would have answered (same seq and timestamp, no new row, no push), exactly when the stanza is not made of whitespace |
| Whitespace.ResendBreaks | internal/router/strategy.go:163-202 | the stanza premise is exact: for any two requests of one conversation with the same whitespace stanza there is a run, with no failure and no other request, on which an ACK and a push go out under a seq no row carries |
| Whitespace.ResendPushed | internal/store/batch.go:176-179 | from any state where such a resend is alone in its batch beside its original's row, it is acknowledged and pushed while the table stays |
| Relay.StepKeepsInv | internal/router/strategy.go:113-202 | every step of a request, of the writer, and every crash keeps the pipeline invariant |
| Relay.AllocateKeepsInv | internal/router/strategy.go:125-133 | a request gets a seq no other request holds and nothing was pushed under |
| Relay.StoreAllHonest | internal/store/batch.go:148-195 | rows with new seqs and non-blank stanzas get true results, also among duplicates in one batch |
| Relay.CrashKeepsInv | internal/app/app.go:90-97 | what left the process before a crash stays true after the restart |
| Varint.EncDigit | proto/nanopb/pb_encode.c:573-605 | byte i carries bits 7i to 7i+6 and the high bit exactly when another byte follows: the canonical form |
| Varint.EncFits | proto/nanopb/pb_encode.c:573-605 | one to ten bytes, and a tenth byte is at most 1 |
| VarintLoops.EncodeVarint32 | proto/nanopb/pb_encode.c:573-605 | the split-word encoder writes the canonical form of any low and high word, within its ten-byte buffer, all or nothing |
| VarintLoops.EncodeVarint | proto/nanopb/pb_encode.c:607-623 | both paths write the canonical form |
| Varint.RoundTrip64 | proto/nanopb/pb_decode.c:243-263 | the 64-bit decoder undoes the encoder on every word and takes exactly its bytes |
| Varint.Dec64Takes | proto/nanopb/pb_decode.c:243-263 | whatever follows, a varint of up to nine bytes is read in any padding, one of ten if its last byte is 0 or 1, a longer one never |
| VarintLoops.DecodeVarint | proto/nanopb/pb_decode.c:243-263 | the 64-bit loop accepts exactly the varints of at most ten bytes whose tenth is 0 or 1, and returns the word they spell |
| VarintLoops.DecodeVarint32 | proto/nanopb/pb_decode.c:171-235 | the 32-bit loop accepts exactly the varints that are zero-padded or sign-extended past bit 32, and returns the low word |
| VarintLoops.DecodeWithBoth | proto/nanopb/pb_decode.c:171-263 | both loops run on the same bytes: whatever the 32-bit decoder accepts the 64-bit decoder accepts, takes the same bytes and returns the same number modulo 2^32 |
| Varint.RoundTrip32 | proto/nanopb/pb_decode.c:171-235 | the 32-bit decoder undoes the encoder on every number below 2^32 |
| Varint.Dec32IsLoose | proto/nanopb/pb_decode.c:215-222 | a concrete number above 2^32 that the 32-bit decoder accepts as another one |
| FieldIter.Iterator.Find | proto/nanopb/pb_common.c:195-244 | over any ascending tag table and from any position, the wrap-around search finds a field exactly when there is one, and otherwise ends where it started |
| FieldIter.Iterator.Next | proto/nanopb/pb_common.c:188-193 | visits the fields in order and reports the wrap |
| Wire.DataRoundTrip | proto/nanopb/pb_encode.c:716-722 | length-delimited bytes read back, whatever follows |
| Wire.DecodeTag | proto/nanopb/pb_decode.c:291-306 | field number and wire type of the key; end of file exactly on empty input |
| Wire.KeyReads | proto/nanopb/pb_decode.c:291-306 | the key 8 * tag + type reads as that field number and wire type, for every field number below 2^29 |
| Wire.SkipMeans | proto/nanopb/pb_decode.c:308-318 | what is skipped: a varint of any length, eight bytes, a length and its bytes, four bytes; short input and the types 3, 4, 6 and 7 are refused |
| Wire.SkipField | proto/nanopb/pb_decode.c:308-318 | skips exactly one value of the wire type, or fails |
| Wire.SkipLocal | proto/nanopb/pb_decode.c:266-318 | what is skipped depends only on the bytes skipped |
| WsMessage.RoundTrip | proto/nanopb/pb_encode.c:512-534 | decode(encode(m)) = m for every message the encoder accepts, default fields left out |
| WsMessage.AnyOrderDecodes | proto/nanopb/pb_decode.c:990-1152 | the fields of m in any order, repeated, with defaults and skippable unknown fields in between, decode to m |
| WsMessage.KeyRoundTrip | proto/nanopb/pb_encode.c:675-714 | the key of a field is one byte and reads back as its tag and its wire type |
| WsMessage.FieldRoundTrip | proto/nanopb/pb_decode.c:1425-1585 | one field read into any message sets that field and takes exactly its bytes |
| WsMessage.UnknownForms | proto/nanopb/pb_decode.c:1060-1090 | fields with numbers above 9, in every form the format has, are skipped; in no other form are they read |
| WsMessage.DataFieldRead | proto/nanopb/pb_decode.c:1497-1585 | a string or payload field of any length is taken exactly when its array of 36, 512, 256, 128 or 64 bytes holds it, a string with its terminator |
| WsMessage.NumberFieldRead | proto/nanopb/pb_decode.c:1425-1495 | a type above 32 bits is refused, an int64 is taken whole, any length of varint the encoder writes |
| WsMessage.WrongKeyRefused | proto/nanopb/pb_decode.c:1022-1039 | field number 0 and a known field in a wire type not its own are refused |
| WsMessage.EncodedSize | proto/nanopb/message.pb.h:96-96 | at most 1065 bytes for every declared type |
| WsMessage.EncodedSizeReached | proto/nanopb/message.pb.h:96-96 | that bound is reached by every message with all fields full |
| WsStruct.EncodeMessage | proto/nanopb/pb_encode.c:512-534 | the encoder walks the fields and writes the encoding exactly when strings are terminated, the payload fits its array and the stream has room |
| WsStruct.EncString | proto/nanopb/pb_encode.c:877-928 | writes the bytes before the NUL; an unterminated array is an error |
| WsStruct.EncBytes | proto/nanopb/pb_encode.c:856-875 | writes the payload; a size beyond its array is an error |
| WsStruct.EncodeField | proto/nanopb/pb_encode.c:418-469 | writes key and value of a field with a non-default value, nothing for a default one |
| WsStruct.IsDefault | proto/nanopb/pb_encode.c:244-358 | the default check answers whether the field has its default value |
| WsStruct.DecodeMessage | proto/nanopb/pb_decode.c:990-1152 | the decoder accepts exactly what the specification accepts, and the struct then holds the specified message |
| WsStruct.DecString | proto/nanopb/pb_decode.c:1537-1585 | a string must fit its array with a terminator, and counts up to its first NUL |
| WsStruct.DecBytes | proto/nanopb/pb_decode.c:1497-1535 | a payload must fit its array |
| WsStruct.DecodeNumber | proto/nanopb/pb_decode.c:1425-1495 | an enum above 32 bits is refused, an int64 takes all 64 bits |
| Utf8.TruncateToBytesOnRuneBoundary | internal/gateway/truncate.go:66-75 | on any bytes within budget, the longest valid prefix when something is cut; of an encoded list of characters, the encoding of the longest leading part that fits |
| Utf8.RunePrefixLen | esp32/main/im_proto.c:73-100 | on any bytes within budget, stopping only at a NUL, the end, or where the next lead byte asks for more than is left; of an encoded list of characters without NUL, the encoding of the longest leading part that fits |
| Utf8.BothTruncators | internal/gateway/truncate.go:66-75 | on valid UTF-8 without NUL gateway and client cut at the same place |
| Utf8.ValidMeans | internal/gateway/truncate.go:66-75 | a string is valid exactly when it is the encoding, by the arithmetic of section 3 of RFC 3629, of a list of Unicode scalar values |
| Utf8.BoundaryMeans | esp32/main/im_proto.c:73-100 | in such a string the boundaries are exactly the ends of whole numbers of characters |
| Utf8.ValidPrefix | internal/gateway/truncate.go:70-74 | a prefix of a valid string is valid exactly when it ends between two characters |
| Utf8.SuffixMeans | internal/gateway/truncate.go:28-29 | the suffix's 20 bytes are the encoding of "...[", the characters U+957F, U+6D88, U+606F, U+622A and U+65AD, and "]" |
| Utf8.TruncateContentForHardware | internal/gateway/truncate.go:53-62 | at most 256 bytes: the longest leading characters that fit 236, then the suffix, always; valid in, valid out |
| ChatFrame.BuildChat | esp32/main/im_proto.c:183-253 | an error, and nothing written, exactly for bad arguments; otherwise at most 255 bytes that decode to the message with the longest leading characters that fit 252 bytes less the empty frame; with any more whole characters the frame would have 256 bytes or more; "truncated" exactly when that is not all |
| ChatFrame.FixUp | esp32/main/im_proto.c:235-250 | the fix-up loop terminates from any state, fits the frame or empties the content, and does nothing when the frame fits already |
| ChatFrame.FrameFits | esp32/main/im_proto.c:213-229 | the empty frame has at most 104 bytes, and content within the budget leaves the frame below 256 |
| ChatFrame.FrameFull | esp32/main/im_proto.c:216-229 | one byte of content more than 252 less the empty frame makes 256 bytes or more |
| ChatFrame.MaxContentForFrame | esp32/main/im_proto.c:163-181 | returns 252 less the size of the empty frame, the same for public and private chats |
| ChatFrame.CopyCstr | esp32/main/im_proto.c:30-43 | copies as much of a possibly NULL string as fits with its terminator |
| ChatFrame.DecodeFrame | esp32/main/im_proto.c:255-264 | refuses empty input, otherwise decodes into the zeroed struct |
| KeyedTable.CountUpdate | internal/logic/group/service.go:224-232 | the count of a group changes with an update by exactly what happens to the one row |
| FriendHistory.FriendsMeans | internal/logic/friend/service.go:264-472 | two users are friends exactly when one applied, the other accepted later, and nothing has removed or barred it since |
| Friend.FriendService.Apply | internal/logic/friend/service.go:264-360 | for any padding of the name: allowed exactly without a live pending, accepted or blocked pair, and which error otherwise; writes both directions, creating or reviving; a refusal changes nothing |
| Friend.FriendService.Respond | internal/logic/friend/service.go:365-432 | for any padding of ids and action: only the side that did not apply answers a live application, and which error otherwise; only the status of both rows changes |
| Friend.FriendService.Delete | internal/logic/friend/service.go:435-472 | soft-deletes both directions of any live pair, or says which error |
| Friend.PairSetKeeps | internal/logic/friend/service.go:305-340 | writing a pair keeps both directions equal, one row per key, and the table telling its history |
| Friend.GatesAgree | internal/router/signaling.go:73-88 | the one-direction chat gate and the two-rows signaling gate always agree, and pass exactly friends |
| VerdictCache.Cache.Get | internal/router/interceptors.go:143-158 | a hit is an unexpired entry and a verdict added at most one TTL ago; expired entries go, hits move to the front |
| VerdictCache.Cache.Add | internal/router/interceptors.go:160-180 | the key becomes the most recent, the least recent keys beyond the capacity go, other entries stay as they were |
| VerdictRace.StaleOverlaps | internal/router/interceptors.go:216-316 | on every run of queries, cachings, service calls, invalidations, evictions and crashes as separate steps: a verdict served that is not what the tables say was read before the last change of its key, and was either cached after it or is still to be invalidated |
| VerdictRace.StaleBounded | internal/router/interceptors.go:143-180 | if no handler sits on a verdict longer than some time, no stale verdict is served later than that time plus one TTL after the change, whatever becomes of the invalidations |
| VerdictRace.StaleServed | internal/router/interceptors.go:285-309 | that bound is reached, for every such time |
| VerdictRace.StepKeepsInv | internal/router/interceptors.go:119-202 | every step keeps verdicts read since the last change right, and older ones awaited by an invalidation |
| VerdictCache.Cache.Invalidate | internal/router/interceptors.go:182-189 | drops one key and nothing else |
| CovKeys.KeySymmetric | internal/logic/session/allocator.go:100-105 | a pair's key does not depend on who asks |
| CovKeys.KeyNames | internal/logic/session/allocator.go:100-105 | a pair's key is "cov:", the one first in dictionary order, a colon, the other |
| CovKeys.KeyInjective | internal/logic/session/allocator.go:100-105 | two ids without a colon have a key of their own |
| CovKeys.GroupKeyInjective | internal/router/interceptors.go:204-208 | a member's key tells group and user apart as long as user ids have no colon |
| CovKeys.KeysCollide | internal/router/interceptors.go:204-208 | with colons, keys do collide |
| FriendGate.Gate.PrivateChatPasses | internal/router/interceptors.go:273-316 | passes exactly friends as of now, from cache or table, for any peer name; when the query fails, exactly those whose verdict is cached; a verdict read is cached, a denial too |
| FriendGate.Gate.SignalingPasses | internal/router/signaling.go:63-94 | passes exactly friends as of now, when the query fails those whose verdict is cached; caches a permission, never a denial |
| FriendGate.SameKeySameVerdict | internal/router/interceptors.go:285-292 | pairs that share a cache key share the verdict, whatever the client calls its peer |
| FriendGate.Gate.Apply | internal/logic/friend/service.go:264-360 | an application and its invalidation keep every cached verdict true |
| FriendGate.Gate.Respond | internal/logic/friend/service.go:365-432 | so does an answer |
| FriendGate.Gate.Delete | internal/logic/friend/service.go:435-472 | so does a removal |
| Group.GroupService.CreateGroup | internal/logic/group/service.go:302-350 | the owner's row, capacity 500, active; a taken id or an unknown owner changes nothing |
| Group.GroupService.Invite | internal/logic/group/service.go:388-504 | all newcomers or none, exactly the trimmed existing names not yet in, within the capacity, as plain unmuted members by invitation; which error otherwise |
| Group.GroupService.Join | internal/logic/group/service.go:508-574 | succeeds exactly for an existing non-member of an active group with room; returns as a plain unmuted member |
| Group.GroupService.Leave | internal/logic/group/service.go:578-606 | anyone but the owner may leave |
| Group.GroupService.Kick | internal/logic/group/service.go:610-638 | the owner kicks anyone else, admins plain members only |
| Group.GroupService.SetRole | internal/logic/group/service.go:643-698 | only the owner, on live members, to "admin" or "member"; "owner" hands over in one step, the owner's role changes in no other way; which error otherwise |
| Group.GroupService.SetMuted | internal/logic/group/service.go:702-738 | owner or outranking admin; muted exactly with the name of who did it |
| Group.GroupService.Dismiss | internal/logic/group/service.go:743-786 | the recorded owner ends the group and all memberships; again changes nothing |
| Group.OneOwner | internal/logic/group/service.go:660-683 | an active group has exactly one live owner row, its recorded owner's |
| Group.PutKeeps | internal/logic/group/service.go:432-484 | a member row may be written as long as it leaves the owner in place and the group within capacity; all invariants then hold |
| Group.TransferKeeps | internal/logic/group/service.go:664-683 | a transfer keeps one owner per group, and everybody in |
| Group.DismissKeeps | internal/logic/group/service.go:771-778 | a dismissed group has no live members |
| GroupGate.Gate.GroupChatPasses | internal/router/interceptors.go:216-266 | passes exactly live, unmuted members as of now; nobody when the mute query fails, and only cached members when the membership query does; membership read is cached, denials too |
| GroupGate.CreateCoherence | internal/logic/group/service.go:302-350 | CreateGroup invalidates nothing: the cache stays true exactly when the owner never asked for that id before |
| GroupGate.Gate.Invite | internal/logic/group/service.go:485-503 | newcomers are members, and their cached denials are dropped |
| GroupGate.Gate.Dismiss | internal/logic/group/service.go:755-786 | nobody is a member, and every member's cached verdict is dropped |
| GroupGate.Gate.Kick | internal/logic/group/service.go:610-638 | the target is out, for the tables and for the cache |
| GroupGate.Gate.SetRole | internal/logic/group/service.go:643-698 | role changes and transfers invalidate nothing, rightly: nobody's membership changes |
| RateLimiter.StretchBounded | internal/router/interceptors.go:44-65 | for any timestamps, any stretch of a user's calls is granted at most 20 plus 10 per second of bucket clock, and tokens stay within 0 and 20 |
| RateLimiter.TokensConserved | internal/router/interceptors.go:52-64 | what is granted or left was there or has accrued |
| RateLimiter.PatienceGranted | internal/router/interceptors.go:52-64 | a call 100 ms after the bucket clock is granted |
| RateLimiter.BurstExhausted | internal/router/interceptors.go:47-64 | at one instant exactly the first 20 calls are granted |
| RateLimiter.RefusalLaw | internal/router/interceptors.go:44-65 | exactly which calls are refused, without any bucket: those before which, from some call on, more than 19 plus 10 per second of clock were granted; the clock is the latest time seen |
| RateLimiter.Limiter.AllowAt | internal/router/interceptors.go:44-65 | a call is answered by that law, does to its user's bucket what the specification says, creates it full, and touches no other |
| History.ReadAll | internal/logic/message/service.go:295-334 | following has_more with the smallest seq of each page reads every message once, oldest first, in as few requests as the limit allows |
| History.QueryCov | internal/logic/message/service.go:295-334 | a page holds the newest messages of the conversation, before the seq if a positive one is given, oldest first; anything else there is is older than a full page, and `has_more` says whether there is any |
| History.RowsContinue | internal/logic/message/service.go:297-301 | asking with the seq of the k-th newest message continues right after it |
| History.ClampLimit | internal/logic/message/service.go:174-183 | the limit ends up in [1,100], a limit in that range is kept, a greater one becomes 100 and a non-positive one 50 |

## Left out

- Relay.StanzaAtMostOnce: at most once only; a persist timeout may leave a stored row that is never pushed, as the code documents.
- Relay.NothingUntrueLeaves: the allocator's map lock is modelled per conversation, which allows more interleavings than the one lock of the code; a window hit and its ACK are one step.
- Strategy.CentralRelay.Relay: one request at a time, with the writer's part condensed to its one row; what becomes of the row (reply, failed batch, timeout) and the clock are parameters.
- Allocator.SeqsNeverRepeat: seqs and watermarks are unbounded integers, not int64; EnsureConversation's lookup and insert are one step.
- SessionAllocator.SessionAllocator.Allocate: the read of the row may fail only before the first seq, as under "Premises"; one caller at a time; what concurrent callers do is the machine's part, not this object's.
- BatchMachine.EveryEntrySettledOnce: an entry accepted after the worker's last look at the queue gets no result, as in the code; the transaction of a flush is one step.
- BatchWriter.BatchWriter.OnDone: enqueueing in the middle of a flush is only in the machine; what is enqueued after the last look at the queue gets no result, as in the code.
- WsStruct.DecodeMessage: nothing is said of the struct after a failed decode; the break on end of file inside the loop cannot be taken and is not written out.
- ChatFrame.BuildChat: the error returns after a failed encode are unreachable and not written out.
- RateLimiter.StretchBounded: real numbers instead of float64 seconds.
- History.ReadAll: one conversation id over a fixed table; the two-id hall query and the join with sender names are not modelled.
- Group.GroupService.Invite: the checks before the transaction and the transaction are one step, so interleavings of two service calls between them are not claimed.
- Friend.FriendService.Apply: timestamps and notifications are not modelled; a database failure is one flag per call.
- VerdictCache.Cache.Get: the clock is a parameter.
- VerdictRace.StaleBounded: a clock that does not go back; list order and capacity are left to an arbitrary eviction step.
- The three Route* entry points, the hall conversation and the interceptor chain around the relay: they only choose the conversation and the receivers.
- The gateway's adaptForHardware: it unmarshals and marshals with the Go protobuf library, which is not part of this model.
- nanopb's pointer fields, callbacks, extensions, oneof, repeated and packed fields, submessages, fixed-size values of known fields and UTF-8 validation: WsMessage has none of them.
- HTTP handlers, configuration, logging, tokens and password hashing, media storage, sockets, the web and desktop clients, and the gateway hub.
