# ocserv in Dafny

A model of the parts of the ocserv VPN server that carry state or do real
computation, with proofs of what they promise.

- **LZS codec** (`Bits`, `LzsFormat`, `LzsCodes`, `LzsSearch`, `LzsBitSink`, `LzsCompress`,
  `LzsDecompress`, `Lzs`). The encoding is that of section 3 of RFC 3943. It is built
  in layers: bits and bytes, tokens and bits, data and tokens, and the in-place
  loops of compressor and decompressor that refine them. The compressor's hash index
  and ring of chain links are proved to find what a naive search of the whole window
  finds.
- **Session protocol** (`SecMod`, `Sessions`, `SessionInvariant`, `SessionSafety`,
  `SessionReuse`,
  `SessionTimes`, `Logins`, `Requests`, `SecModServer`, `MainServer`). The main process and any number of sec-mod
  processes as a step system over client entries and workers; an invariant kept by
  every step; safety over whole runs; what each request means for its sender; and the
  handlers as they are, updating tables in place. The objects carry the run that has
  happened, every handler extends it by a step, and so the results about runs hold of
  the objects.
- **IP leases** (`IpAddr`, `LeaseSearch`, `LeaseTable`). The search for a free
  address, prefix masks, and the lease table under allocation, stealing and release.
- **Ban list** (`Ban`, `BanScore`, `BanList`), **configuration reload** (`ConfigAttic`),
  **bandwidth limiter** (`Bandwidth`), **growable string and `%`-substitution**
  (`StrBuf`), **worker indexes** (`ProcTable`). `Wrappers` holds the types they share.

The clock, the random generator, SHA-1 and the hash functions, ping, the
authentication and accounting modules, whether a message can be sent and, in
`ProcTable`, whether there is memory, are parameters of the operations that ask them.

## What the proofs found

- After a copy that reaches the end, the positions inside it are not indexed, so the
  last two bytes may get a farther match than the nearest, or none at all and two
  literals (src/lzs.c:296-301, src/lzs.c:312-333). `LzsSearch.ParseIsGreedy` has the
  exact condition under which the output is not the greedy one, and
  `LzsSearch.MissedMatch` an input. The round trip and the size bound hold regardless.
- A session close on a failed entry does not decrement its use count
  (src/sec-mod-auth.c:654-662), so such an entry, once held, is removed only by force
  (`SessionSafety.FailedHeldStays`). An open that sec-mod grants and main then drops
  (src/main-sec-mod-cmd.c:600-616) leaves a hold that nobody has: the entry, completed
  or failed, never expires and stays until it is removed by force
  (`SessionReuse.OverheldForever`). The use count is therefore at least, and not
  exactly, the number of attached workers.
- A cookie is refused if the worker that the search finds has been disconnected by the
  administrator. Disconnecting one of several workers that share a SID does not keep
  the SID from being used: `SessionReuse.ReuseCondition` says exactly when a cookie can
  attach, and `SessionReuse.OtherHolderLetsIn` is a run.
- With a certificate, the authentication module is asked for the user's name after the
  certificate has been compared (src/sec-mod-auth.c:418-421), and when no name was known
  before, neither user nor group is compared at all. So a completed client has the
  certificate's user exactly if the module names no other, and a group of the
  certificate exactly under a condition on the request (`SecMod.CertificateBinds`;
  `SecMod.ModuleDecides` is an instance where both fail).
- Byte totals of an entry are kept in 64 bits. They decrease at a close exactly when
  the sum does not fit (`SessionSafety.CloseConserves`).
- The comment of `expire_client_entry` says that a user's disconnect does not end the
  session at once; the code ends it if the session is open and cookies are not
  persistent (src/sec-mod-db.c:246-288). The model follows the code.
- An IPv6 candidate is never pinged, because the lease's prefix is still zero where
  it is looked at (src/ip-lease.c:561), and the random bytes are written where an IPv4
  address would be, so the last four bytes stay zero (src/ip-lease.c:506-508). Neither
  affects validity. The leased IPv6 subnet leaves out the server's address exactly if
  it is no larger than the network (`LeaseSearch.Search6IsValid`).
- If several workers come back for one SID, one that lost its leases before can pass on
  only an unregistered copy (`LeaseTable.ComeBack` has the condition). When the holder of
  the registered address goes, the address is given out again while the copy is in use
  (`LeaseTable.GivenTwice`). Uniqueness is a property of registered leases.
- A ban cleanup at the very second a ban expires can be noticed by an attempt in that
  second; strictly later it cannot (`Ban.StaleIsAbsent`, both directions).
- An unban keeps the time of the last reset, so a later attempt on the address may be
  judged otherwise than on one never seen (`Ban.UnbanRemembers`); `Ban.UnbanForgets` has
  the exact condition.
- The bandwidth limiter compares a signed with an unsigned number. A packet larger
  than a window's allowance overdraws the budget, and the debt is then forgiven
  (`Bandwidth.DebtIsForgiven`, `Bandwidth.OversizeIsForgiven`;
  `Bandwidth.UpdateKeepsBudget` has the exact condition).
- `str_replace_str` looks at its own replacements again. A rule that stands for itself
  makes it repeat the same state (`StrBuf.SelfReplacementRepeats`). It ends with the
  result of a single pass exactly if that result has no `%` (`StrBuf.LoopIsPass`).

## Model

| member | source | states |
|---|---|---|
| Lzs.RoundTrip | src/lzs.c:71-144 | decoding the compressor's bytes, into any buffer that holds the input, gives the input; for every input of at most 65536 bytes |
| Lzs.CompressedSize | src/lzs.c:274-338 | at most 9 bits a byte and 16; the 9-bit end marker always lies in complete bytes |
| Lzs.GreedyChoice | src/lzs.c:235-268 | a copy has the longest match over all offsets 1..2047 and the smallest offset reaching it; a literal means that no two bytes match in the window |
| LzsSearch.ParseIsGreedy | src/lzs.c:222-333 | the output is the greedy parse of the whole input if and only if the last two bytes are not reached by a copy in which they stand once more |
| LzsSearch.TailIsGreedy | src/lzs.c:312-333 | the ending is greedy if and only if no match of the last two bytes starts at a position left out of the index |
| LzsSearch.TailFinds | src/lzs.c:312-333 | the last two bytes are a copy from the last indexed position in the window that holds them, and two literals if there is none |
| LzsSearch.MissedMatch | src/lzs.c:296-333 | an input of seven bytes whose output is not the greedy one: a match of the last two bytes is missed |
| Lzs.CompressThenDecompress | src/lzs.c:71-339 | the two methods one after the other: a compression that succeeds is undone exactly; it succeeds if there is room for 9 bits a byte and the trailer; inputs over 65536 bytes are refused |
| LzsCompress.Compress | src/lzs.c:173-339 | the in-place compressor writes exactly the bits of the naive greedy parse, and returns -EFBIG exactly when they do not fit; nothing is written past dstlen |
| LzsCompress.History.Add | src/lzs.c:223-227 | indexing a position keeps the index and yields the last earlier position with the same two bytes |
| LzsCompress.History.AddRange | src/lzs.c:302-309 | the positions inside a match are indexed like any other |
| LzsCompress.History.WalkIsExact | src/lzs.c:192-240 | the chain visits, in decreasing order, exactly the positions less than 2048 back that hold the two bytes; recycled ring slots are never followed |
| LzsCompress.FilterIsExact | src/lzs.c:241-244 | the memcmp filter passes exactly the positions with a longer match than the one at hand |
| LzsCompress.LcpIsCommonPrefix | src/lzs.c:243-257 | the common-prefix length means what it says: equal slices, and no longer ones |
| LzsCompress.Extend | src/lzs.c:245-257 | extends a match to its full length |
| LzsCompress.FindMatch | src/lzs.c:235-268 | the walk of the chain finds the greedy choice |
| LzsCompress.LiteralIsChosen | src/lzs.c:229-233 | no earlier position in the window with the same two bytes means that a literal is the greedy choice |
| LzsCompress.ChooseToken | src/lzs.c:223-268 | indexes the position and yields the greedy choice there |
| LzsCompress.PutCopy | src/lzs.c:270-294 | emits the 7- or 11-bit offset and the length; fails only for lack of room |
| LzsCompress.PutLength | src/lzs.c:279-294 | emits the 2-bit, 4-bit or nibble-run length |
| LzsCompress.EmitBody | src/lzs.c:222-310 | the main loop: what has been emitted and what is left make up the whole parse, at every turn |
| LzsCompress.EmitTail | src/lzs.c:312-333 | the endings of two, one and no bytes complete the parse |
| LzsSearch.LongestIsLongest | src/lzs.c:235-268 | the naive search yields a longest match, and no nearer one is as long |
| LzsSearch.LongestIsUnique | src/lzs.c:235-268 | only one offset is the nearest longest |
| LzsSearch.LastIsLast | src/lzs.c:223-227 | the specification of the hash heads: the last position of a two-byte value |
| LzsSearch.HashIsPrefix | src/lzs.c:223-240 | equal 16-bit loads are exactly a match of two bytes or more |
| LzsSearch.CopyFits | src/lzs.c:137-141 | a copy of up to the common prefix, overlapping or not, reproduces the input |
| LzsSearch.ParseFits | src/lzs.c:222-333 | every token of the parse is encodable and stands for the input at its place |
| LzsSearch.FitApplies | src/lzs.c:79-142 | tokens that fit, applied in order, give the input |
| LzsSearch.TokenBitsSize | src/lzs.c:274-294 | a token takes at most 9 bits for each byte it stands for |
| LzsSearch.StreamBitsSize | src/lzs.c:222-333 | so does a parse |
| LzsFormat.ReadTokenAt | src/lzs.c:81-131 | the reader of tokens undoes the writer of tokens, whatever stands around the token, and the cheap end test does not reject it |
| LzsFormat.ReadEndAt | src/lzs.c:93-94 | the end marker is read as the end |
| LzsFormat.ReadRunAt | src/lzs.c:118-130 | the nibble run of a length is read back |
| LzsFormat.RunNibble | src/lzs.c:284-294 | writing the run two nibbles at a time is the same as one at a time |
| LzsFormat.DecodeStream | src/lzs.c:79-142 | decoding the bits of tokens applies the tokens |
| LzsFormat.PackedStreamDecodes | src/lzs.c:146-163 | and it does so through packing into bytes and unpacking |
| LzsCodes.ShortLengthCodes | src/lzs.c:280-283 | lengths 2 to 7 are 00, 01, 10, 1100, 1101, 1110 |
| LzsCodes.LongLengthCode | src/lzs.c:284-294 | a length of 8 or more is a nibble of ones for every 15 in it and 7, and the rest in a nibble |
| LzsCodes.OffsetCode | src/lzs.c:274-277 | an offset is 11 and seven bits, or 10 and eleven bits |
| LzsCodes.LiteralCode | src/lzs.c:229-233 | a literal is 0 and the eight bits of the byte |
| LzsCodes.EndCode | src/lzs.c:335-336 | the end marker is 110000000, followed by seven zeros |
| LzsCodes.CopyCode | src/lzs.c:270-294 | a copy is the code of its offset and then of its length |
| LzsCodes.CutIsInvalid | src/lzs.c:26-69 | the output with any bytes missing at its end is refused as invalid, for every input and every cut |
| LzsCodes.SmallIsTooBig | src/lzs.c:85-135 | into any buffer smaller than the input, the output is refused as too big |
| LzsCodes.BadOffsetIsInvalid | src/lzs.c:132-133 | a copy from before the data, or at offset 0, is invalid |
| LzsBitSink.PutWord | src/lzs.c:146-163 | shifting a field into the 32-bit accumulator appends it to the pending bits |
| LzsBitSink.TopByte | src/lzs.c:146-163 | the byte taken out is the oldest eight pending bits |
| LzsBitSink.BitSink.Put | src/lzs.c:146-163 | PUT_BITS appends exactly nr bits, most significant first, keeps fewer than 8 pending, and fails exactly when a full byte has no room |
| LzsBitSink.BitSink.Written | src/lzs.c:146-163 | the buffer is the packing of everything put |
| LzsDecompress.FieldInBytes | src/lzs.c:26-69 | what GET_BITS assembles from two bytes is the field of the bit list |
| LzsDecompress.BitSource.Get | src/lzs.c:26-69 | GET_BITS yields exactly the next bits, keeps bits_left in 1..8, and refuses exactly with fewer than two bytes left |
| LzsDecompress.GetLength | src/lzs.c:107-131 | reads the length that the format has at that place, or fails as it does |
| LzsDecompress.GetCopy | src/lzs.c:96-131 | reads the rest of a copy token |
| LzsDecompress.CopyMatch | src/lzs.c:132-141 | the byte-by-byte copy, also where it reads what it has just written; nothing else changes |
| LzsDecompress.TakeLiterals | src/lzs.c:81-90 | a run of literals is so many steps of the reference decoder, with its errors |
| LzsDecompress.Decompress | src/lzs.c:71-144 | on every input: terminates, agrees with the reference decoder in result and in error, and writes only below dstlen |
| SecMod.Stamp | src/common/common.h:160-172 | the instance index written into a SID is the one read from it |
| SecMod.CertificateBinds | src/sec-mod-auth.c:405-421 | a client completed with a certificate has its user if and only if the module names no other, and one of its groups if and only if a stated condition of the request holds |
| SecMod.CheckGroupBinds | src/sec-mod-auth.c:228-358 | what check_group alone guarantees: the module did not reject the group, and user and group agree with a certificate as stated |
| Logins.SuccessCompletes | src/sec-mod-auth.c:405-437 | for every entry: a zero result completes it if and only if it had not failed, the module gives a message and does not reject the group, the certificate, where one is asked for, agrees, and the reply is sent |
| Logins.RejectedIsNotCompleted | src/sec-mod-auth.c:316-322 | a client whose group the module rejects is never completed |
| Logins.AcceptedAs | src/sec-mod-auth.c:228-358 | under which name and in which group check_group accepts |
| Logins.CompletedAs | src/sec-mod-auth.c:416-421 | which name and group a completed entry has |
| Logins.ContinueKeeps | src/sec-mod-auth.c:388-403 | a client to be asked again is as it was if it can be told so, and has failed otherwise; a denied one has failed |
| Logins.InitOutcome | src/sec-mod-auth.c:976-1157 | the exact conditions for a first request to complete a login and to wait for an answer; otherwise it has failed |
| Logins.InitMeans | src/sec-mod-auth.c:1043-1060 | an init changes nothing unless it is authentic and the worker has no entry but a failed one that nobody holds; then that one goes and the new one is there |
| Logins.ContOutcome | src/sec-mod-auth.c:788-848 | the exact conditions for a continuation to complete a login and to wait for another answer; otherwise it has failed |
| Logins.StampBytes | src/common/common.h:160-172 | the instance stands in the first two bytes of a SID, the high one first |
| SecMod.ModuleDecides | src/sec-mod-auth.c:405-421 | an instance where both conditions fail |
| SessionInvariant.SecStepOk | src/sec-mod-auth.c:976-1157 | every request to sec-mod keeps the instance's part of the invariant |
| SessionInvariant.SessionOpenHolds | src/sec-mod-auth.c:495-629 | an open takes one hold on its entry exactly when it is granted, and removes nothing |
| SessionInvariant.SessionOpenAccounted | src/sec-mod-auth.c:550-564 | an open keeps the pairing of accounting calls |
| SessionInvariant.SessionCloseHolds | src/sec-mod-auth.c:631-700 | a close lets go of at most one hold and removes the entry only with its last |
| SessionInvariant.AbandonedOpenKeepsInv | src/main-sec-mod-cmd.c:600-616 | an open that main does not follow up leaves a hold nobody has, which the invariant allows |
| SessionInvariant.CookieKeepsInv | src/main-worker-cmd.c:422-478 | so does serving a cookie, in all its endings |
| SessionInvariant.RemoveProcKeepsInv | src/main-proc.c:92-159 | and removing a worker |
| SessionInvariant.StepKeepsInv | src/main-auth.c:126-201 | every step of the two sides keeps the invariant |
| SessionInvariant.RunKeepsInv | src/main-auth.c:126-201 | every reachable state satisfies it |
| SessionSafety.AttachedAreCounted | src/sec-mod.h:101-104 | in every reachable state an entry's use count is at least the number of workers attached to it |
| SessionSafety.AttachedSurvive | src/sec-mod-db.c:221-288 | no step but a forced one removes an entry that a remaining worker is attached to |
| SessionSafety.FailedHeldStays | src/sec-mod-auth.c:654-662 | a failed entry that is held stays, with the same count, under every step but a forced one |
| SessionSafety.AuthResLegal | src/sec-mod-auth.c:366-462 | the end of an authentication completes an entry only on a zero result that check_group accepts, and leaves a failed one failed |
| SessionSafety.StepLegal | src/sec-mod-auth.c:788-848 | in one step a failed entry stays failed, a completed one keeps its identity, and an entry becomes completed only by a request to its own instance that issues or names its SID and succeeds, with the identity found there |
| SessionSafety.StepCreates | src/sec-mod-auth.c:976-1157 | an entry appears only under a SID never issued before |
| SessionSafety.FailedForever | src/sec-mod-auth.c:366-462 | over every run, an entry that failed is failed or gone for good |
| SessionSafety.CompletedWasAuthenticated | src/sec-mod-auth.c:366-462 | over every run, a completed entry was authenticated at some step, by a request to its own instance for its own SID, and has the identity found then |
| SessionSafety.CompletedProcWasAdmitted | src/main-worker-cmd.c:195-230 | over every run, main marks a worker completed only after a session open that found the SID the worker has completed, unexpired and on its own instance; this very worker has been there since, with that SID and name |
| SessionSafety.CompletedProcWasAuthenticated | src/main-worker-cmd.c:422-478 | end to end: the SID of a completed worker was authenticated before the worker was admitted, on the instance it names, as the user the worker has |
| SessionReuse.ReuseCondition | src/main-auth.c:145-176 | at a given time a cookie can attach a worker if and only if its session may be opened and no worker is filed under the SID, or one of its name that was not disconnected |
| SessionReuse.InvalidatedIsNotReused | src/main-auth.c:145-153 | if every worker filed under the SID, and at least one, has been disconnected, a cookie attaches nobody and does not reach sec-mod, whichever the search finds |
| SessionReuse.FoundInvalidated | src/main-auth.c:145-153 | the same if the one that is found has been disconnected |
| SessionReuse.OtherHolderLetsIn | src/proc-search.c:307-328 | a run from the start in which a worker is attached while a disconnected one is filed under the SID, because the search finds another |
| SessionReuse.InvalidatedStays | src/main.h:377-390 | a disconnected worker stays so |
| SessionReuse.InvalidatedEndsSession | src/main-sec-mod-cmd.c:754-755 | when it goes as the last worker attached, the completed session ends if and only if cookies are not persistent and no hold is left over from an abandoned open |
| SessionReuse.AbandonedIsOverheld | src/main-sec-mod-cmd.c:600-616 | an open that is granted and that main drops leaves more holds than workers |
| SessionReuse.OverheldStep | src/sec-mod-db.c:221-288 | an entry with more holds than workers stays such under every step but a forced one |
| SessionReuse.OverheldForever | src/sec-mod-db.c:221-288 | over every run without forced steps such an entry is never removed |
| SessionTimes.NewThenOpen | src/sec-mod-db.c:150-150 | a new session can be opened, and is kept by maintenance, exactly until the cookie timeout and 15 seconds are over |
| SessionTimes.CloseThenOpen | src/sec-mod-db.c:246-288 | for each reason: whether the last close ends the session, and until exactly when it can be opened otherwise |
| SessionTimes.HeldIsOpen | src/sec-mod-db.c:246-256 | while another connection is on it, a session can be opened at any time |
| SessionTimes.OpenCloseOpen | src/sec-mod-auth.c:617-628 | a whole connection: until exactly when the session can be opened after it, and that only the reason of this connection counts |
| SessionTimes.LateOpenFails | src/sec-mod-auth.c:528-541 | an open that comes too late fails the entry for good |
| SessionTimes.RemoveLetsGo | src/main-proc.c:92-159 | removing a worker closes the session it holds, with the meaning of a close, and nothing if the server quits |
| SessionSafety.CloseConserves | src/sec-mod-auth.c:464-468 | a close moves the running byte counts to the saved ones; the total decreases exactly on 64-bit overflow |
| SessionSafety.FoldConserves | src/sec-mod-db.c:71-94 | the shutdown fold changes no total that fits in 64 bits |
| SessionSafety.TotalsNeverDecrease | src/sec-mod-auth.c:669-697 | over every run in which the totals fit, saved and running bytes together never decrease |
| SessionSafety.AccountingPairs | src/sec-mod-auth.c:550-564 | with both accounting hooks, an entry is opened at most once and is closed once if and only if it was opened and has left the database |
| SecModServer.Server.FindByPid | src/sec-mod-db.c:195-212 | finds an entry of the worker if there is one |
| SecModServer.Server.DelClientEntry | src/sec-mod-db.c:238-244 | removes the entry and closes its session |
| SecModServer.Server.CleanupClientEntries | src/sec-mod-db.c:221-236 | the loop that deletes while it iterates removes exactly the expired entries |
| SecModServer.Server.TerminateUserSessions | src/sec-mod-db.c:293-325 | removes exactly the user's entries and says whether there were any |
| SecModServer.Server.TerminateSession | src/sec-mod-db.c:330-372 | the walk removes an entry with the printable identifier, and none if and only if there is none or its length is wrong |
| Requests.ExpireIsMeant | src/sec-mod-db.c:246-288 | one hold less; with the last one the entry goes exactly if the reason ends the session, and otherwise is there exactly until its time is over |
| SecModServer.Server.ExpireClientEntry | src/sec-mod-db.c:246-288 | the in-place version has that meaning |
| SecModServer.Server.Deinit | src/sec-mod-db.c:71-94 | closes every open session once and empties the table |
| SecModServer.Server.UserDeinit | src/sec-mod-auth.c:1159-1182 | the closing hook is called once, exactly for an open session, and is told the bytes of all its connections exactly if they fit in 64 bits |
| Requests.AuthResMeans | src/sec-mod-auth.c:366-462 | a zero result completes the entry under the exact condition, others never; no failed one is revived, and no hold and no other entry changes |
| SecModServer.Server.HandleAuthRes | src/sec-mod-auth.c:366-462 | the in-place version has that meaning, and answers success only for a completed entry or one to be asked again |
| SecModServer.Server.HandleAuthInit | src/sec-mod-auth.c:976-1157 | is the step of an auth init, for whichever entry the search finds |
| Requests.AuthContMeans | src/sec-mod-auth.c:788-848 | an entry is completed exactly by its own successful continuation; one that was not waiting for one fails; holds and other entries do not change |
| SecModServer.Server.HandleAuthCont | src/sec-mod-auth.c:788-848 | the in-place version has that meaning |
| Requests.BanReplyMeans | src/sec-mod-auth.c:702-721 | after a refusal no session can ever be opened on the SID, though holds and bytes are kept; after an acceptance nothing has changed |
| SecModServer.Server.HandleBanIpReply | src/sec-mod-auth.c:702-721 | the in-place version has that meaning |
| Requests.UpdateStatsMeans | src/sec-mod-auth.c:723-786 | each counter of a completed entry becomes the larger of what was known and what is reported; the worker and a reason are noted; identity, holds and expiry stay; other entries are not touched |
| SecModServer.Server.HandleStats | src/sec-mod-auth.c:723-786 | the in-place version has that meaning |
| Requests.SessionOpenMeans | src/sec-mod-auth.c:495-629 | granted exactly for a session that may be opened, with the hook agreeing and the reply sent; the name, hold, time and reason it then has; an expired or refused one fails; the accounting hook is called exactly for a session not open |
| SecModServer.Server.HandleSessionOpen | src/sec-mod-auth.c:495-629 | the in-place version has that meaning |
| Requests.SessionCloseMeans | src/sec-mod-auth.c:631-700 | nothing for an entry that is not completed; otherwise one hold less, the exact condition for the entry to go and the time it has left, and the larger byte counts added while they fit |
| SecModServer.Server.HandleSessionClose | src/sec-mod-auth.c:631-700 | the in-place version has that meaning |
| MainServer.Main.constructor | src/main.c:1638-1660 | a server with n sec-mod processes starts in a state of the step system |
| MainServer.Main.Record | src/main-auth.c:126-201 | a step of the objects keeps them reached by the run, in the invariant, and every use count at least the number of attached workers |
| MainServer.Main.NewProc | src/main-proc.c:59-88 | extends the run; the new worker holds no session; the objects stay valid |
| MainServer.Main.HandleScriptExit | src/main-worker-cmd.c:95-142 | extends the run; the worker keeps its session and is completed exactly if the script agrees |
| MainServer.Main.HandleCookieAuthRes | src/main-worker-cmd.c:145-230 | the worker keeps the session it has, can present no other cookie, and is completed if and only if all was accepted and answered |
| MainServer.Main.SearchSid | src/proc-search.c:307-328 | the walk finds a worker filed under the SID if there is one |
| MainServer.Main.HandleAuthCookieReq | src/main-auth.c:126-201 | a worker becomes attached only to a session that could be opened, with one more hold on its entry and under its name; if the worker that was found had been disconnected nothing changes anywhere |
| MainServer.Main.HandleCookieCommand | src/main-worker-cmd.c:422-478 | searches, extends the run by the step of a cookie request, and keeps the objects valid; if all workers filed under the SID were disconnected, a disconnected one is found and nothing is attached |
| MainServer.Main.RemoveProc | src/main-proc.c:92-159 | extends the run; an entry goes with the worker only if nobody else is attached to it |
| MainServer.Main.DisconnectProc | src/main.h:377-390 | marks the worker, so that a cookie that finds it is refused, and removes it at once exactly if it has no process |
| MainServer.Main.SecAuthInit | src/sec-mod-auth.c:976-1157 | extends the run; entries appear only under SIDs never issued, and one goes only if nobody is attached to it |
| MainServer.Main.SecAuthCont | src/sec-mod-auth.c:788-848 | extends the run, with the meaning of a continuation |
| MainServer.Main.SecBanIpReply | src/sec-mod-auth.c:702-721 | extends the run, with the meaning of a ban reply |
| MainServer.Main.SecStats | src/sec-mod-auth.c:723-786 | extends the run, with the meaning of a counter update |
| MainServer.Main.SecMaintain | src/sec-mod-db.c:221-236 | extends the run; exactly the expired entries go, and nobody is attached to any of them |
| MainServer.Main.SecTerminateUser | src/sec-mod-db.c:293-325 | extends the run; no entry of the user is left |
| MainServer.Main.SecTerminateSession | src/sec-mod-db.c:330-372 | extends the run; the entry named is gone |
| MainServer.Main.SecShutdown | src/sec-mod-db.c:71-94 | extends the run; the table is empty |
| MainServer.Main.CompletedWorker | src/main-worker-cmd.c:195-230 | of the objects, whatever has happened: a completed worker was authenticated and then admitted, under the SID and name it has |
| MainServer.Main.CompletedEntry | src/sec-mod-auth.c:366-462 | of the objects: a completed entry was authenticated on its instance under its SID |
| MainServer.Main.FailedEntry | src/sec-mod-auth.c:366-462 | of the objects: an entry that failed at any earlier step is failed or gone |
| MainServer.Main.PairedAccounting | src/sec-mod-auth.c:550-564 | of the objects: accounting calls are paired |
| IpAddr.MixInNet | src/ip-lease.c:336-343 | a candidate built by masking lies in the network, whatever was drawn |
| IpAddr.MaskBits | src/ip-util.c:65-82 | the mask of a prefix has exactly its first bits set |
| IpAddr.MaskNested | src/ip-util.c:65-82 | the mask of a shorter prefix is part of that of a longer one |
| IpAddr.PrefixToMask | src/ip-util.c:65-82 | the byte loop writes that mask, for prefixes 1..128, and refuses others |
| LeaseSearch.Search4IsValid | src/ip-lease.c:174-196 | an IPv4 address that is found lies in the network, is not registered, answers no ping, is not the server's, and not reserved except on a /31; for every mask and every random outcome |
| LeaseSearch.FoundIsUsable | src/ip-lease.c:292-387 | in plain terms: it is not the first after the network's own (on a /31: not the lower one), and its free bits are neither all 0 nor all 1 (section 2.1 of RFC 3021) |
| LeaseSearch.ServerKeeps | src/ip-lease.c:360-370 | which address is kept for the server, for every mask with its last bit clear |
| LeaseSearch.FitsIs | src/ip-lease.c:346-381 | an address of the network is taken if and only if it is free, silent, and not one of those |
| LeaseSearch.FirstOfSixteen | src/ip-lease.c:300-381 | the search gives the first that fits of sixteen candidates: the seed, five hashes, ten random ones |
| LeaseSearch.SeedComesFirst | src/ip-lease.c:308-320 | a client gets the address of its seed whenever it fits |
| IpAddr.HostPart | src/ip-lease.c:174-196 | an address differs from the network and from the broadcast address exactly if its free bits are not all 0, and not all 1 |
| IpAddr.MixHost | src/ip-lease.c:336-343 | the host part of a candidate is what was drawn |
| LeaseSearch.PickIpv4 | src/ip-lease.c:292-387 | the loop of at most 16 tries is that search |
| LeaseSearch.Search6IsValid | src/ip-lease.c:150-165 | an IPv6 subnet that is found is not registered and holds the address; it lies in the network if no larger, and leaves out the server's address exactly then |
| LeaseTable.Leases.SubnetsOfWorkers | src/ip-lease.c:483-575 | in every valid table the registered IPv6 subnets of two workers, of one prefix, have no address in common |
| LeaseSearch.First6OfSixteen | src/ip-lease.c:496-565 | the IPv6 search gives the first of sixteen candidates whose subnet is free: one from the seed, five equal ones, and ten random ones whose last four bytes stay zero |
| LeaseSearch.PickIpv6 | src/ip-lease.c:389-575 | the IPv6 loop is that search; bad prefixes are refused |
| LeaseSearch.MixInPlace | src/ip-lease.c:336-343 | the two masking loops, in place |
| LeaseTable.AttachKeeps | src/ip-lease.c:586-643 | adding a lease with a free signature keeps the table's integrity |
| LeaseTable.DropKeeps | src/ip-lease.c:577-584 | so does freeing, with the destructor |
| LeaseTable.MoveKeeps | src/ip-lease.c:105-148 | and moving all leases of a worker to another |
| LeaseTable.Leases.Attach | src/ip-lease.c:586-643 | a new lease in an empty slot, registered or not |
| LeaseTable.MadeIsFree | src/ip-lease.c:174-387 | an address that is made, fixed or dynamic, is not registered; an IPv4 one is not the one kept for the server nor reserved; a dynamic one answers no ping |
| LeaseTable.FixedIsGiven | src/ip-lease.c:243-291 | a fixed address is given if and only if it is free and allowed, and is the one asked for |
| LeaseTable.Leases.GetIpv4 | src/ip-lease.c:201-387 | succeeds, fails and leaves a lease exactly as its request says; the lease is registered exactly if dynamic and added; integrity is kept in every case |
| LeaseTable.Leases.GetIpv6 | src/ip-lease.c:389-575 | the same for IPv6 |
| LeaseTable.Leases.GetIpLeases | src/ip-lease.c:586-643 | success means an address of each family that has a network, and at least one; leases of others do not change |
| LeaseTable.Leases.RemoveIpLeases | src/ip-lease.c:645-655 | frees exactly the worker's leases, in the table and out of it |
| LeaseTable.Leases.RemoveProc | src/main-proc.c:143-152 | a worker goes with its leases |
| LeaseTable.Leases.StealIpLeases | src/ip-lease.c:105-148 | the leases themselves move; the former holder is left with unregistered copies |
| LeaseTable.Leases.Invalidate | src/main.h:377-390 | a disconnected worker keeps its leases until it goes |
| LeaseTable.Leases.ReuseSession | src/main-auth.c:145-187 | leases pass exactly to a worker that presents the SID and has the username of their holder, and never from one that was disconnected; otherwise nothing moves |
| LeaseTable.ComeBack | src/main-auth.c:145-187 | the address taken over is registered if and only if it was; the former holder is left with it unregistered |
| LeaseTable.StealTwice | src/ip-lease.c:105-148 | a run in which a third worker gets only an unregistered copy |
| LeaseTable.GivenTwice | src/ip-lease.c:105-148 | and the address is then given to a fourth |
| LeaseTable.Leases.Do | src/ip-lease.c:79-165 | any operation, in any order, keeps it: the table is the set of registered leases, each held once, with distinct signatures |
| Ban.KeysOfOneSubnet | src/main-ban.c:118-123 | two addresses share a ban exactly if they are equal or in one IPv6 /64 |
| BanScore.RefusedByPoints | src/main-ban.c:287-342 | for an address never seen, over every run in one reset interval: a check is refused, or an attempt bans, if and only if the points given so far and its own reach the maximum |
| BanScore.FirstContact | src/main-ban.c:329-341 | an address never seen is let in unless a single connection bans |
| BanScore.NeverRefused | src/main-ban.c:287-305 | local addresses are never refused, and nobody is without a maximum |
| BanScore.PointsAddUp | src/main-ban.c:187-189 | points add up, except that a sum over 32 bits is not taken |
| BanScore.IntervalEnds | src/main-ban.c:170-175 | after the reset interval an attempt counts as that of an address never seen, and before it does not |
| BanScore.CountedIsRefused | src/main-ban.c:97-116 | an address is counted exactly if it would be refused now for nothing more, unless its ban ends in this second |
| Ban.BanStarts | src/main-ban.c:178-189 | reaching the maximum sets the expiry to now and the ban time |
| Ban.BanEnds | src/main-ban.c:164-189 | the first attempt after expiry counts from zero, as for a new address |
| Ban.BanHolds | src/main-ban.c:287-342 | until strictly before its expiry a ban holds and its expiry stays, whatever attempts and cleanups intervene, and every non-local check is refused |
| Ban.OpKeepsBans | src/main-ban.c:126-363 | no operation but an unban lifts or moves a ban that runs on |
| Ban.UnbanLifts | src/main-ban.c:253-285 | the next attempt or check of the address, or its /64, has the result of an address never seen, and the others are as before |
| Ban.UnbanIsCleaned | src/main-ban.c:274-284 | an unbanned entry is cleaned up exactly when its reset interval is over |
| Ban.UnbanForgets | src/main-ban.c:253-285 | every run of attempts, checks and counts that starts with a given first attempt has the results of an address never seen if and only if that attempt forgets the last reset, comes at its time, or bans at once, or one point bans |
| Ban.UnbanRemembers | src/main-ban.c:164-189 | two attempts that are let through after an unban and of which the second is refused on a new address |
| Ban.BanLasts | src/main-ban.c:126-224 | the same from the attempt that causes it |
| Ban.StaleIsAbsent | src/main-ban.c:344-363 | an attempt cannot tell a stale entry from none, exactly unless the ban expires in that second |
| Ban.CleanupIsUnobservable | src/main-ban.c:344-363 | over every run, cleanups change no result of any strictly later add, check or count |
| BanList.List.AddIp | src/main-ban.c:126-224 | lifts and moves no ban; the update is that of the model, with 32-bit wrap-around |
| BanList.List.RemoveIp | src/main-ban.c:253-285 | the in-place version has both meanings, and says whether there was an entry |
| BanList.List.TestLocal | src/main-ban.c:436-498 | an address is local exactly if it lies in the network of an interface |
| BanList.List.CheckIfBanned | src/main-ban.c:287-342 | refuses an address whose ban runs on, never a local one, and one never seen exactly if one connection bans; lifts and moves no ban; otherwise decides as the model does |
| BanList.List.Cleanup | src/main-ban.c:344-363 | removes exactly the stale entries, and no ban in force |
| BanList.List.CountBanned | src/main-ban.c:97-116 | counts exactly the bans in force |
| ConfigAttic.FreeKeepsCounted | src/config.c:2678-2694 | freeing a configuration with count zero takes nothing from a worker |
| ConfigAttic.HoldKeepsCounted | src/main-sec-mod-cmd.c:489-491 | holding counts up by one user |
| ConfigAttic.ReleaseKeepsCounted | src/main-proc.c:153-155 | releasing counts down by one, and the count is positive then |
| ConfigAttic.Configs.CfgNew | src/config.c:857-886 | a new configuration starts with no users |
| ConfigAttic.Configs.VhostAdd | src/config.c:888-914 | a new virtual host has one |
| ConfigAttic.Configs.ArchiveOne | src/config.c:2483-2517 | a configuration in use goes to the attic, an unused one is freed |
| ConfigAttic.Configs.Archive | src/config.c:2483-2517 | exactly the configurations in use go to the attic, of all virtual hosts or up to where memory ran out |
| ConfigAttic.Configs.Reload | src/config.c:2600-2624 | afterwards every virtual host has a configuration, new ones never seen before, and everything a worker holds is still there with its exact count |
| ConfigAttic.Configs.ClearOld | src/config.c:2678-2694 | frees exactly the archived configurations that no worker holds |
| ConfigAttic.Configs.Hold | src/main-sec-mod-cmd.c:489-491 | keeps every count equal to the number of holders |
| ConfigAttic.Configs.RemoveProc | src/main-proc.c:153-155 | so does a removal; the test for a positive count is never false |
| Bandwidth.ChargeAtMost | src/worker-bandwidth.c:37-39 | a window is never charged more than it sent |
| Bandwidth.ChargeIsShare | src/worker-bandwidth.c:38-39 | the charge is the kilobytes sent in half a second at the window's mean rate, rounded down |
| Bandwidth.NextIsShareAndRest | src/worker-bandwidth.c:43-46 | in budget, the next allowance is half a second's worth and what is left over, but at most the rate |
| Bandwidth.UpdateKeepsBudget | src/worker-bandwidth.c:29-59 | a packet keeps the budget if and only if it opens no window or fits in the one it opens; one share always fits |
| Bandwidth.RunKeepsBudget | src/worker-bandwidth.c:29-59 | over every sequence of packets of at most one share: bytes sent are within the allowance, the allowance within the rate, and allowance and charges within one share a window |
| Bandwidth.StartsInBudget | src/worker-bandwidth.h:40-45 | a new limiter is in budget |
| Bandwidth.DebtIsForgiven | src/worker-bandwidth.c:43-47 | a window that is charged more than there is gives the next one the whole rate |
| Bandwidth.OversizeIsForgiven | src/worker-bandwidth.c:43-47 | a packet of 11000 bytes does that at 10 kB a second |
| Bandwidth.BandwidthState.BandwidthUpdate | src/worker-bandwidth.c:29-59 | keeps the limiter in budget for every packet of at most one share, and for a larger one exactly if it fits; inside a window exactly what fits is sent, and what is not sent changes nothing |
| StrBuf.FirstMatch | src/str.c:186-231 | the rule used is the first of the table that matches, and there is none only if none does |
| StrBuf.SubstituteSkip | src/str.c:179-184 | text without a percent sign is left as it is |
| StrBuf.SubstituteTwice | src/str.c:167-237 | a finished text has no percent sign left; substituting again changes nothing |
| StrBuf.SelfReplacementRepeats | src/str.c:193-234 | a rule that stands for itself gives back the same text |
| StrBuf.EndedHasNoPercent | src/str.c:178-235 | over any number of rounds the loop ends only with a text without a percent sign |
| StrBuf.LoopIsPass | src/str.c:167-237 | where the single left-to-right pass has a result, the loop ends with it if and only if it has no percent sign |
| StrBuf.Buffer.MoveToFront | src/str.c:62-98 | the memmove keeps the contents |
| StrBuf.Buffer.AppendSize | src/str.c:62-98 | growing or compacting keeps the contents and makes room for the data and one byte more |
| StrBuf.Buffer.AppendData | src/str.c:102-115 | appends the data and a NUL after it |
| StrBuf.Buffer.AppendStr | src/str.c:133-145 | appends the string, with its NUL not counted; a missing string is an error and changes nothing |
| StrBuf.Buffer.FindPercent | src/str.c:180-184 | the first percent sign at or after a position |
| StrBuf.Buffer.Lookup | src/str.c:186-231 | the first rule of the table that matches |
| StrBuf.Buffer.ReplaceNext | src/str.c:179-234 | one round: nothing left, an error, or one replacement with everything around it unchanged |
| StrBuf.Buffer.ReplaceStr | src/str.c:167-237 | if no replacement has a percent sign, or the result of the single pass has none: terminates, fails exactly when that pass has no result, and otherwise leaves that result, NUL-terminated as before |
| ProcTable.AgreesInPlace | src/proc-search.c:127-168 | a filed worker may change its key in place exactly if the hash stays the same, which is why it is taken out and put back |
| ProcTable.AgreesUpdate | src/proc-search.c:127-207 | taking out under the old key and putting in under the new one keeps a table in agreement |
| ProcTable.Lost | src/proc-search.c:160-164 | a table that has lost an entry does not agree with the workers |
| ProcTable.Entries | src/proc-search.c:41-71 | in agreement, a worker is filed exactly under the hash of each of its present keys |
| ProcTable.Tables.constructor | src/proc-search.c:73-84 | empty tables agree with no workers |
| ProcTable.Tables.Add | src/proc-search.c:101-125 | files the worker in three tables; a failed insertion is undone |
| ProcTable.Tables.UpdateIp | src/proc-search.c:127-168 | a changed CSTP address is refiled, and a DTLS address equal to it is dropped; the tables agree afterwards if and only if zero is returned |
| ProcTable.Tables.UpdateDtlsIp | src/proc-search.c:173-207 | the DTLS table has the worker exactly when it has a DTLS address, which differs from the CSTP one; the four outcomes |
| ProcTable.Tables.Del | src/proc-search.c:209-218 | no table keeps a deleted worker under any hash |

## Left out

- TLS, DTLS, certificates, OCSP and CRL: wrappers over a library that is not part of this model.
- HTTP and XML, header parsing, the OIDC browser flow, KKDCP: formatting and I/O.
- Sockets, event loops, fork and exec, tun devices, scripts, utmp, namespaces: system calls; a script's end is a step of the session protocol.
- Option parsing (src/config.c, src/subconfig.c): long and shallow; the reload keeps only what happens to the configurations and their counts.
- Protobuf and message transport: messages are values delivered in order. A session close that cannot be sent makes main exit (src/main-proc.c:105-114), which is not a step.
- PAM, RADIUS, GSSAPI and OIDC back ends: a module is its answers.
- Hash tables of entries, bans and leases are maps and sets; only `ProcTable` models filing under a hash. Iteration is in no particular order.
- SIDs are assumed never to be generated twice, as the code assumes; `used` in `Sessions.Sys` states it.
- SessionSafety.TotalsNeverDecrease: asks that the totals fit in 64 bits, because they wrap around otherwise; SessionSafety.CloseConserves has the exact condition for a close.
- The 32-bit width of the use count `in_use` and of usage counts, truncation by strlcpy, statistics counters and ban points of failed logins.
- Bandwidth.RunKeepsBudget: asks for a rate with 1000 times kb_per_sec below 2^64, so that the products do not wrap around.
- StrBuf.Buffer.ReplaceStr: asks that no replacement, or at least not the result of the single pass, contains a percent sign; otherwise the loop need not end (`StrBuf.LoopIsPass` has the exact condition). Memory does not run out in `StrBuf`, and strings hold no NUL.
- The configuration of the ban list is fixed over a run; the code reads it at each call, and a reload changes it.
- Ban.UnbanForgets: speaks of runs without cleanups and further unbans; Ban.CleanupIsUnobservable speaks of cleanups.
- ConfigAttic.Configs.Reload: the attic lists of the virtual hosts are one set, and a configuration and its usage count are one object.
- ProcTable.Tables.UpdateIp: an IP stands for its address size, so sizes other than those of IPv4 and IPv6 socket addresses are not modelled.
- proc_search_single_ip and the other lookups of src/proc-search.c: they depend on the iteration of the hash table library.
- LeaseTable.Leases.Do: a fixed address is never registered, as in the code, so two workers may have the same fixed address.
