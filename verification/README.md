# libdsm: a Dafny model of its buffers, streams and state machines

libdsm is an SMB1 client library in C. This project models the parts of it where the logic is hard
to see from one function: the message digests and the cipher, host discovery over NetBIOS, the SMB
message builder, session framing, TRANS2 replies and directory listings, the tables of shares and
open files, file offsets, NTLM authentication tokens and NetBIOS names. What the C code changes in
place is changed in place here too; every such method is tied to functions on values, and what the
code is for is proved about those.

All members are verified statically. `dafny verify dfyconfig.toml` checks the whole project;
nothing here is an execution of libdsm.

## How it is organised

| file | contents |
|---|---|
| `Bytes.dfy`, `Memory.dfy`, `Sequences.dfy`, `Options.dfy` | octets, exclusive or, packed integers, `memcpy`, small helpers |
| `DigestWords.dfy`, `DigestBlocks.dfy` | the block transforms of contrib/mdx against RFC 1321 and RFC 1320 |
| `DigestDriver.dfy` | the streaming driver both digests share, for any block transform |
| `HmacMd5.dfy` | both digests with the implemented transforms, and HMAC-MD5 |
| `Rc4.dfy` | key schedule, key stream, encryption in place or not |
| `TailQueue.dfy` | the BSD tail queue with its pointer-to-pointer links |
| `DiscoveryModel.dfy`, `Discovery.dfy` | host discovery as a state machine, and the thread that takes its steps on the heap |
| `DiscoveryHosts.dfy`, `DiscoveryWire.dfy`, `DiscoveryTimeline.dfy` | discovery seen from one host and from the datagrams that arrive; that it goes on and misses none |
| `NameReply.dfy`, `NetbiosName.dfy` | parsing name service replies; first-level names and name queries |
| `SmbMessage.dfy` | the growing message buffer in 64-bit wrapping arithmetic |
| `NetbiosSession.dfy` | packets over a byte stream that arrives in arbitrary pieces |
| `Trans2.dfy`, `FindFiles.dfy` | reassembly of split replies; entry chains, paging, `smb_find` |
| `HandleList.dfy`, `FileTable.dfy`, `FileRuns.dfy` | linked lists of shares and files, descriptors, runs of calls on the tables |
| `FileIo.dfy` | runs of reads, writes and seeks |
| `Ntlm.dfy` | NTLMv2 responses, the session key and the AUTHENTICATE token |

## Where the code does not do what one would expect

The model follows the code. In these places a desirable property is false of it; each has a lemma
that says for which inputs the property holds, and a lemma with an input for which it does not.
Where the code would go on outside its memory, the model's method says so in its result and stops.

| property | holds exactly if | fails for |
|---|---|---|
| closing a file unlinks what a lookup finds (src/smb_fd.c:184 compares the tree identifier) | `RemovedIsFirstIff`, `UnlinkedThroughDescriptor` | `RemovedExample` |
| a run of appends to a session packet stays inside it (the size field counts the header after a reallocation) | `RunBound`, `RunBoundFresh`, `AppendBound` | `RunBoundExample`, `AppendBoundExample` |
| a packet is read back as it was sent (framed with 16 bits of length, read with 17) | `SendReceive` | `SendReceiveExample` |
| an insertion keeps the cursor inside the payload (an empty one resizes) | `InsertKeepsCursor` | `EmptyInsertCuts` |
| an insertion writes inside the payload (behind its end the size check wraps around) | `InsertStaysInside` | `InsertExample` |
| the copy of the first TRANS2 reply fits its memory (a negative growth is added as `size_t`) | `FirstCopyStaysInside`, `GrowStaysInside` | `FirstCopyExample` |
| a page is listed as it was laid out, no entry twice (the last entry links to itself) | `ParseCounted` | `ParseCountedExample` |
| a directory listing is complete (an empty first page ends it) | `FindPagesListsAll` | `FindPagesExample`, `FindPagesExampleExists` |
| the NBSTAT parser selects the names section 4.2.18 of RFC 1002 puts first (`char` is signed) | `ParseAsMeant`, `GroupTest` | `ParseExample` |
| the first callback about a host is an addition (inverse resolution leaves named entries) | `FirstCallback` | `RemovalWithoutAddition` |
| hosts are dropped after five broadcast periods (a signed 32-bit number) | `RemoveTimeoutIsFivePeriods` | `RemoveTimeoutExample` |

## Model

| member | source | states |
|---|---|---|
| DigestWords.RotateIsCircular | contrib/mdx/md5.c:60-63 | the two shifts of STEP make the circular shift of the RFCs, for every word and every shift count from 1 to 31 |
| DigestWords.WordAtIsLittleEndian | contrib/mdx/md5.c:79-84 | the word read with shifts from four octets is their little-endian number, which is how the RFCs read it |
| DigestWords.RegBytesAreLittleEndian | contrib/mdx/md5.c:282-297 | the sixteen result octets are the values of A, B, C, D, each low-order octet first |
| DigestBlocks.AuxiliaryFunctions | contrib/mdx/md5.c:51-55 | F and G of both digests rewritten to save operations, and both spellings of H, equal the definitions of RFC 1321 and RFC 1320 for all words |
| DigestBlocks.WrittenAsRequired | contrib/mdx/md5.c:113-183 | the message word, the constant and the shift count written out in each of the 64 and 48 STEPs are those of the RFCs for that operation |
| DigestBlocks.CompressMatchesRfc | contrib/mdx/md4.c:89-178 | for both digests the unrolled STEPs and the final additions are the transform of section 3.4 of the RFC, for all registers and blocks |
| DigestDriver.Context.Body | contrib/mdx/md5.c:93-200 | the do-while loop folds the transform over all blocks it is given, first block first |
| DigestDriver.CountersAdvance | contrib/mdx/md5.c:218-221 | `hi * 2^29 + lo` stays the number of octets modulo 2^61, through every carry and wrap-around |
| DigestDriver.BitCount | contrib/mdx/md5.c:271-279 | the two stored words are the 64-bit bit count of section 3.2 of RFC 1321 |
| DigestDriver.PaddingLaidOut | contrib/mdx/md5.c:254-279 | the one or two final blocks are the carried octets followed by exactly the padding of sections 3.1 and 3.2 |
| DigestDriver.InitialRegisters | contrib/mdx/md5.c:204-207 | the initial registers are those whose octets are 01 23 45 67, 89 ab cd ef, fe dc ba 98, 76 54 32 10 |
| DigestDriver.DigestMatchesRfc | contrib/mdx/md5.c:202-301 | initial registers, word order and octet order of the result are those of sections 3.3 to 3.5 of the RFCs |
| DigestDriver.Context.constructor | contrib/mdx/md5.c:202-211 | a new context stands for the empty message |
| DigestDriver.Context.Update | contrib/mdx/md5.c:213-248 | counters, carry buffer and registers stand for the message so far followed by the new piece, for empty, short and block-crossing pieces |
| DigestDriver.Context.Final | contrib/mdx/md5.c:250-301 | the result is the one-shot digest of everything fed in, and the context is wiped |
| DigestDriver.DigestOfPieces | contrib/mdx/md5.c:202-301 | for every block transform, every message and every way of cutting it, Init, Update and Final give the digest of the whole |
| HmacMd5.ImplementedDigests | contrib/mdx/md4.c:89-279 | the driver with the implemented transforms computes MD5 of RFC 1321 and MD4 of RFC 1320 |
| HmacMd5.Md5OfPieces | contrib/mdx/md5.c:202-301 | MD5 of a message fed in arbitrary pieces is the RFC 1321 digest of the whole |
| HmacMd5.Md4OfPieces | contrib/mdx/md4.c:180-279 | MD4 of a message fed in arbitrary pieces is the RFC 1320 digest of the whole |
| HmacMd5.Hmac | src/hmac_md5.c:41-94 | the section 2 HMAC of RFC 2104 for every key of at most 64 octets, and for longer keys the HMAC under their first 64 octets |
| Rc4.Context.constructor | contrib/rc4/rc4.c:55-74 | the keyed state equals the functional key schedule and both indices are zero |
| Rc4.Context.Crypt | contrib/rc4/rc4.c:81-103 | output is input combined with the key stream, the state advances by as many steps, octets beyond are untouched; the buffers may be the same |
| Rc4.RunKeepsPermutation | contrib/rc4/rc4.c:41-103 | after keying and after any number of octets the table is a permutation of 0..255 |
| Rc4.PermutationIsBijective | contrib/rc4/rc4.c:60-73 | in such a table every octet value occurs at one index and no other |
| Rc4.CryptSplits | contrib/rc4/rc4.c:88-102 | crypting a message in two calls gives the octets and the state of one call |
| Rc4.CryptPieces | contrib/rc4/rc4.c:55-103 | crypting a message in any number of calls, each in place, gives the octets and the state of one call for the whole |
| Rc4.CipherInvolution | contrib/rc4/rc4.c:76-103 | the same key undoes its own encryption |
| Rc4.KeyedByOrigin | contrib/rc4/rc4.c:55-74 | the keyed table is the identity with its exchanges traced back, and the partner of each exchange is the sum of the entries met and of the key octets, the whole key as often as it fits and its beginning |
| Rc4.AfterByEntries | contrib/rc4/rc4.c:88-99 | after any number of octets the first index has advanced by that number, the second by the entries met, and the table is the first one with its exchanges traced back |
| Rc4.StreamByEntries | contrib/rc4/rc4.c:96-101 | each key octet stands at the sum of the two entries exchanged last |
| Rc4.CipherByEntries | contrib/rc4/rc4.c:55-103 | the whole cipher in those terms, without a loop |
| Bytes.XorIsXor | contrib/rc4/rc4.c:101 | the exclusive or used throughout is the operator on 8-bit values |
| TailQueue.Queue.constructor | compat/queue.h:125-128 | an initialised head is an empty queue whose tail link designates the head cell |
| TailQueue.Queue.InsertHead | compat/queue.h:130-139 | insertion is consing on the front, with every back link and the tail link consistent again and all payloads kept |
| TailQueue.Queue.Remove | compat/queue.h:169-179 | removal through the back link deletes exactly that element, keeps the order of the others and every link consistent |
| DiscoveryModel.SweepIsFilter | src/netbios_ns.c:808-824 | an entry survives a sweep exactly if it has not expired, and its removal is reported exactly if it goes and had a name |
| DiscoveryModel.SweepConcat | src/netbios_ns.c:808-824 | a sweep works entry by entry and keeps the order |
| DiscoveryModel.StoredNameIsTrimmed | src/netbios_ns.c:545-555 | a stored name is the wire name without the spaces it ends in, but not without its first octet, and zeros |
| DiscoveryModel.StepKeepsConsistent | src/netbios_ns.c:808-901 | every sweep, NB reply and NBSTAT reply keeps addresses distinct, callbacks alternating and live addresses equal to named entries |
| DiscoveryModel.RunIsConsistent | src/netbios_ns.c:795-906 | the same at every point of every run, from any cache without duplicate addresses |
| DiscoveryModel.CallbacksAlternate | src/netbios_ns.c:795-906 | from an empty cache each address sees added, removed, added and so on, and is named in the cache exactly after an odd number of callbacks |
| DiscoveryModel.FirstCallback | src/netbios_ns.c:757-761 | the first callback about an address is an addition exactly if the initial cache did not hold it under a name |
| DiscoveryModel.RemovalWithoutAddition | src/netbios_ns.c:757-761 | an entry left by inverse resolution can be reported removed without having been added |
| DiscoveryHosts.StepView | src/netbios_ns.c:808-901 | every step changes the cached entry and the callbacks of each address as a machine for that address alone does |
| DiscoveryHosts.RunIsByHost | src/netbios_ns.c:795-906 | the cache and the callbacks of every run are those of independent machines, one per address |
| DiscoveryHosts.OtherHostsDoNotMatter | src/netbios_ns.c:795-906 | two runs with the same sweeps and the same answers of one host agree on its entry and its callbacks |
| DiscoveryHosts.SeenIsLastAnswer | src/netbios_ns.c:867-890 | the time stamp of a cached entry is the time of its host's last answer of either kind |
| DiscoveryHosts.NameIsLastGiven | src/netbios_ns.c:557-568 | the name of a cached entry is the one in its host's last answer with names, and its group the last one given, if any |
| DiscoveryHosts.SweepForgets | src/netbios_ns.c:808-824 | a sweep drops a cached host exactly if its last answer is older than the limit, and reports it exactly if its last callback was an addition |
| DiscoveryHosts.CallbacksExplained | src/netbios_ns.c:795-906 | in every run, an announced host answered the broadcast and then gave the announced name, and a removed one fell silent for longer than the limit |
| DiscoveryHosts.StaysCached | src/netbios_ns.c:808-867 | a host that has answered the broadcast stays cached until a sweep finds its last answer too old |
| DiscoveryHosts.AnnouncedWhenNamed | src/netbios_ns.c:808-900 | a host that answers the broadcast and then gives its names for the first time, before it is dropped, is announced under the name it gave |
| Discovery.RemoveTimeoutIsFivePeriods | src/netbios_ns.c:800 | eviction waits five broadcast periods exactly if that product fits a signed 32-bit int |
| Discovery.RemoveTimeoutExample | src/netbios_ns.c:800 | with a period of 429496730 seconds the limit is negative |
| Discovery.NameService.EntryFind | src/netbios_ns.c:588-609 | the walk along the list returns the first entry with the address, or null |
| Discovery.NameService.EntryAdd | src/netbios_ns.c:570-584 | a new unnamed entry at the front, all others kept |
| Discovery.NameService.SweepEntries | src/netbios_ns.c:808-824 | the loop that unlinks while it walks leaves the filtered list and makes the removal callbacks in list order |
| Discovery.NameService.HandleNb | src/netbios_ns.c:856-878 | an NB answer takes the model's step, and ends the thread exactly if a still unnamed host could not be queried |
| Discovery.NameService.HandleNbstat | src/netbios_ns.c:879-900 | an NBSTAT answer takes the model's step, calling back only for the first name of a known host |
| Discovery.Recv | src/netbios_ns.c:510-533 | the datagram replaces the front of the receive buffer, what earlier ones left behind it stays, and the reply is what the parser makes of that |
| Discovery.NameService.React | src/netbios_ns.c:842-901 | one reply takes the step the model says, or none, and ends the loop or the thread exactly when the model says |
| Discovery.NameService.Receive | src/netbios_ns.c:831-902 | the inner loop takes the steps of its datagrams up to a timeout, an error or a failed query, and no others |
| Discovery.NameService.DiscoverThread | src/netbios_ns.c:795-906 | for any course of clock, abort flag and datagrams the thread on the linked list ends in the state the step sequence gives |
| DiscoveryWire.Discover | src/netbios_ns.c:795-906 | a fresh service run for any course of the outside world ends in the state of the model's run and has made alternating callbacks that match its cache |
| DiscoveryWire.StepsCaused | src/netbios_ns.c:474-902 | every step but the sweeps was caused by a datagram that arrived |
| DiscoveryWire.StepsInOrder | src/netbios_ns.c:474-902 | of two steps, the earlier was caused by the datagram that arrived earlier |
| DiscoveryWire.AnnouncedFromTheWire | src/netbios_ns.c:347-906 | no host is announced that did not first send an NB answer and after it an NBSTAT answer from which the announced names are selected |
| DiscoveryTimeline.StepsAreTimeline | src/netbios_ns.c:795-906 | without an abort, a failure or a query that cannot be sent, the thread goes on: its steps are a sweep for every turn, each followed by every answer heard before a quiet period, told by the datagrams alone |
| DiscoveryTimeline.OneSweepPerTurn | src/netbios_ns.c:806-824 | there is one sweep per turn, at the turns' times, in order |
| DiscoveryTimeline.AnswerHasStep | src/netbios_ns.c:831-901 | every datagram heard in a turn that the parser reads as an NB or NBSTAT answer has its step, right behind the steps of those before it |
| DiscoveryTimeline.ListenGoesOn | src/netbios_ns.c:831-901 | packets that end nothing give their steps, whatever follows them |
| DiscoveryTimeline.AbortEnds | src/netbios_ns.c:803-804 | an abort ends the thread before the sweep of its turn, and not earlier |
| DiscoveryTimeline.FailureEnds | src/netbios_ns.c:846-848 | a failure to receive ends it right behind the answers heard before |
| DiscoveryTimeline.UnsentQueryEnds | src/netbios_ns.c:870-876 | a host without a name whose query cannot be sent ends it right behind that host's answer |
| DiscoveryTimeline.OneTurnWithoutPeriod | src/netbios_ns.c:902-903 | without a broadcast period there is one turn |
| DiscoveryTimeline.AnsweringHostIsAnnounced | src/netbios_ns.c:795-906 | in an undisturbed run a host whose NB and then first NBSTAT answers arrive, with no sweep beyond the limit in between, is reported as added under that name |
| DiscoveryTimeline.AnnouncedWithinPeriod | src/netbios_ns.c:831-901 | if both arrive in one period, without any condition on the clock |
| Discovery.CopyName | src/netbios_ns.c:545-555 | the stored name is the wire name without trailing spaces, NUL-padded, its first octet kept even if a space |
| Discovery.SetName | src/netbios_ns.c:557-568 | name, type and flag are set, the group only if there is one |
| NameReply.HandleQuery | src/netbios_ns.c:347-452 | exactly which datagrams are accepted, and for NBSTAT the first group and the first file server that is not a group as the code tests it, with every read inside the 1500-octet buffer |
| NameReply.SelectedNames | src/netbios_ns.c:414-448 | the names the parse function gives are the first records of their kind |
| NameReply.SelectNames | src/netbios_ns.c:414-448 | the two scans compute the names of the table, or that there is no server |
| NameReply.RecordsInside | src/netbios_ns.c:393-412 | every record of an accepted reply ends inside the buffer although the count octet is left out of the length check |
| NameReply.RecordsBehindDatagram | src/netbios_ns.c:411 | a record can end one octet behind the datagram |
| NameReply.RecordReads | src/netbios_ns.c:415-433 | name, type and flags of a record laid out as section 4.2.18 of RFC 1002 says are read from their octets |
| NameReply.ReplyTypes | src/netbios_ns.c:397-400 | the two kinds of replies are those of record type 0x0020 and 0x0021 |
| NameReply.NbExample | src/netbios_ns.c:397-399 | an NB response is accepted as the sender's answer, and refused when its last octet is missing |
| NameReply.SignSetsGroup | src/netbios_ns.c:418-419 | the 16 bits made of two sign-extended octets have the group bit set exactly if one of the octets is from 128 on |
| NameReply.GroupTest | src/netbios_ns.c:418-419 | the test is the group bit of section 4.2.18 of RFC 1002 exactly if that bit is set or the second flag octet is below 128 |
| NameReply.GroupScan | src/netbios_ns.c:414-423 | the scan for a group stops where the RFC has it stop exactly if the record it stops at is not misread |
| NameReply.ServerScan | src/netbios_ns.c:424-440 | the scan for a server stops where the RFC has it stop exactly if that record is not misread, and otherwise later |
| NameReply.ParseAsMeant | src/netbios_ns.c:347-452 | the parser selects the names the RFC makes the first ones exactly if no record that decides a scan is misread |
| NameReply.ParseExample | src/netbios_ns.c:414-448 | for one buffer the second server is named, in a group that is the first server |
| NetbiosName.NibbleRoundTrip | src/netbios_utils.c:46-59 | decoding the two letters of a character gives it back in upper case, for every octet |
| NetbiosName.NibbleLetters | src/netbios_utils.c:46-54 | the letters are from A to P exactly for ASCII characters, and never NUL |
| NetbiosName.Level1Encode | src/netbios_utils.c:64-89 | the 33 octets are the letters of the upper-cased, truncated, space-padded name and of the type, then NUL |
| NetbiosName.Level1Decode | src/netbios_utils.c:93-100 | fifteen decoded characters and a terminator |
| NetbiosName.EncodeDecode | src/netbios_utils.c:64-100 | decoding an encoded name gives its normal form, for every name and type |
| NetbiosName.EncodingIsInjective | src/netbios_utils.c:64-89 | two names are encoded alike exactly if their normal forms agree |
| NetbiosName.NameEncode | src/netbios_utils.c:103-124 | 34 octets whose string length is always 33 |
| NetbiosName.Query.Append | src/netbios_query.c:114-125 | data is appended exactly if it fits, and dropped otherwise |
| NetbiosName.WildcardEncodesAsterisk | src/netbios_defs.h:49-51 | the wildcard constant is the first-level encoding of an asterisk and fifteen zeros, with string length 33 |
| NetbiosName.QueryPayload | src/netbios_ns.c:308-318 | for every 33-octet string the three unchecked appends fill the 38-octet query exactly, with none dropped |
| NetbiosName.NameQuery | src/netbios_ns.c:308-318 | the query for a host by its name |
| NetbiosName.WildcardQuery | src/netbios_ns.c:826-828 | the query the discovery thread sends |
| SmbMessage.GrowthLeavesSlack | src/smb_message.c:48-62 | the payload grows exactly if the data does not fit, by whole blocks, leaving 1 to 256 octets to spare |
| SmbMessage.ZeroLengthSlack | src/smb_message.c:50-54 | a call for zero octets wraps around and sets the slack to the old slack reduced to 1..256, or to 256 |
| SmbMessage.ExpandMakesRoom | src/smb_message.c:48-62 | at the cursor there is always room afterwards and nothing is cut off |
| SmbMessage.InsertStaysInside | src/smb_message.c:48-62 | an insertion writes inside the payload exactly if its place is not behind the end or it writes nothing |
| SmbMessage.InsertExample | src/smb_message.c:141-153 | two octets for place 300 of a 256-octet payload are written behind it |
| SmbMessage.InsertKeepsCursor | src/smb_message.c:141-153 | an insertion keeps the payload up to the cursor exactly if it is not empty, is not before the end or leaves enough slack behind its place |
| SmbMessage.EmptyInsertCuts | src/smb_message.c:141-153 | inserting nothing at the start of a 512-octet payload leaves 256 octets, fewer than a cursor of 300 |
| SmbMessage.Message.constructor | src/smb_message.c:64-89 | a new message has one empty block of 256 octets |
| SmbMessage.GrowStaysInside | src/smb_message.c:102-111 | with a growth that may be negative, the copy stays inside its memory exactly if the growth is not negative or no memory is as large as it wraps to |
| SmbMessage.Grow | src/smb_message.c:92-114 | in wrapping arithmetic, exactly when memory is refused, when the copy leaves it, and otherwise the payload, size and cursor of the copy |
| SmbMessage.Message.ExpandPayload | src/smb_message.c:48-62 | on success the new size follows the wrapped formula, there is room exactly if the place is not behind the end or nothing is to be written, and what fits of the old payload is kept; on failure nothing changes |
| SmbMessage.Message.Append | src/smb_message.c:124-139 | the octets written so far are followed by the data, whatever reallocation happens, or nothing changes |
| SmbMessage.Message.Advance | src/smb_message.c:155-167 | the cursor moves by the size and the octets written before stay |
| SmbMessage.Message.Insert | src/smb_message.c:141-153 | exactly when it would write behind the payload; otherwise the data is in place, every other octet still allocated stays, and the message stays well formed exactly under the stated condition |
| SmbMessage.BuildHeaderLast | src/smb_session.c:247-279 | reserving a header, appending any pieces and inserting the header at the start gives the header followed by the pieces, through all reallocations |
| SmbMessage.BuildHeaderFirst | src/smb_message.c:124-139 | appending the header first and then the pieces gives the same octets |
| NetbiosSession.KeepalivesAreSkipped | src/netbios_session.c:470-484 | in a stream of any number of keepalives, a message and anything behind it, the next message is that one and the rest is left |
| NetbiosSession.SendReceive | src/netbios_session.c:326-327 | a sent packet is read back unchanged exactly if its payload has at most 65535 octets |
| NetbiosSession.SendReceiveExample | src/netbios_session.c:326-327 | 65536 octets are read back as an empty message |
| NetbiosSession.Session.constructor | src/netbios_session.c:164-190 | the allocation exceeds the size field by the header |
| NetbiosSession.Session.Realloc | src/netbios_session.c:143-162 | afterwards the size field equals the allocation and the common part of the contents is kept |
| NetbiosSession.Session.Fill | src/netbios_session.c:431-458 | any sequence of short reads fills exactly the requested octets in order, inside the packet, or fails for lack of input |
| NetbiosSession.Session.GetNextPacket | src/netbios_session.c:420-468 | exactly the first frame of the stream is taken, with its 17-bit length, and failure means an I/O error, a failed allocation or an incomplete frame |
| NetbiosSession.Session.PacketRecv | src/netbios_session.c:470-484 | the result is the next frame that is not a keepalive and the stream continues right behind it; the loop ends because the stream shrinks |
| NetbiosSession.Session.PacketAppend | src/netbios_session.c:302-318 | exactly when the copy would leave the packet; otherwise header and earlier payload stay, the data follows, and allocation, size field and cursor are as computed |
| NetbiosSession.Session.PacketSend | src/netbios_session.c:326-361 | the octets sent are opcode, flags, 16-bit length and payload |
| NetbiosSession.AppendAll | src/netbios_session.c:302-318 | a run of appends that is inside gives the earlier octets followed by all pieces, and one that is not is recognised |
| NetbiosSession.Transfer | src/netbios_session.c:293-484 | any pieces of at most 65535 octets together, appended and sent by a session in any state, arrive joined at a session in any state, however the stream is cut, exactly if the appends stay inside |
| NetbiosSession.RunBound | src/netbios_session.c:302-318 | a run of appends stays inside the packet exactly if no piece ends in the last four octets of a size field that counts the header, nor has one to four octets once the packet has grown |
| NetbiosSession.RunBoundFresh | src/netbios_session.c:179-181 | from a size field that leaves the header out, exactly if no piece of one to four octets follows the one that enlarged the packet |
| NetbiosSession.RunBoundExample | src/netbios_session.c:309-316 | with the default buffer, 8193 octets and then one more do not stay inside |
| NetbiosSession.SessionRequestStaysInside | src/netbios_session.c:254-264 | the two names of a session request stay inside for every buffer size of a new session |
| NetbiosSession.AppendBound | src/netbios_session.c:309-316 | an append stays inside the packet always while the size field excludes the header, and afterwards for all but four sizes |
| NetbiosSession.AppendBoundExample | src/netbios_session.c:309-316 | with the default buffer, appending 8190 octets after receiving 8189 does not stay inside |
| Trans2.FieldsRead | src/smb_packets.h:471-488 | in a message laid out field by field, total, count and displacement are read from their fields and the data from behind them |
| Trans2.ReassembledReply | src/smb_trans2.c:52-87 | for a reply laid out with displacements 0, n1, n1 + n2 and so on, exactly its messages are taken and the full buffer is the first message's fixed part, the parameters and all the data |
| Trans2.ReassemblyIsExact | src/smb_trans2.c:52-87 | for non-empty fragments in order, exactly those messages are taken, nothing is reallocated, and the full buffer is the first message followed by the later data |
| Trans2.CollectInOrder | src/smb_trans2.c:69-84 | each fragment fits what the first message reserved, down to a slack of zero at the end |
| Trans2.FirstCopyStaysInside | src/smb_trans2.c:59-65 | the copy of the first message stays inside its memory exactly if its data count is at most the total, or so large that the allocation is refused |
| Trans2.FirstCopyExample | src/smb_trans2.c:59-65 | a message of 34 octets that is copied into memory for 26 |
| Trans2.Tr2Recv | src/smb_trans2.c:52-87 | for every sequence of messages: exactly when it fails, when it reads behind a message or writes behind its copy, and otherwise the messages taken and the buffer built are those the reassembly function says, with data lost only if the buffer had to grow |
| FindFiles.ParseEntries | src/smb_trans2.c:93-130 | the loop computes the parse function, which stops at the count, at the end of data or at an undecodable name |
| FindFiles.ReadEntry | src/smb_packets.h:511-529 | every field of a laid out entry is read from its place in the packed structure |
| FindFiles.ParseChain | src/smb_trans2.c:93-130 | parsing a chain of entries linked by offsets recovers every field of every entry, in reverse order, in front of the earlier files |
| FindFiles.ParseCounted | src/smb_trans2.c:93-130 | under any announced count, the first entries of a chain, or all of them and the last one again for every count too many |
| FindFiles.ParseCountedExample | src/smb_trans2.c:93-130 | one entry under a count of two is listed twice |
| FindFiles.ParseStopsAtBadName | src/smb_trans2.c:105-111 | an entry whose name cannot be converted ends the page, and the entries before it stay |
| FindFiles.FindMoreListsAll | src/smb_trans2.c:354-383 | the FIND_NEXT loop goes through all pages up to the last one and adds the entries of each once |
| FindFiles.FailureLosesListing | src/smb_trans2.c:381-386 | a request that fails before the server has ended the search loses the whole listing |
| FindFiles.FindPagesListsAll | src/smb_trans2.c:324-404 | the listing is the reverse of all entries of all pages exactly if the first page has one, and otherwise empty |
| FindFiles.FindPagesExample | src/smb_trans2.c:339-341 | an empty first page and an entry on the second give no listing |
| FindFiles.FindPagesExampleExists | src/smb_trans2.c:339-341 | such pages exist |
| FindFiles.SplitsComplete | src/smb_trans2.c:52-87 | however each reply is cut into fragments, the messages make up the same replies |
| FindFiles.Find | src/smb_trans2.c:324-404 | for complete replies, the search over received messages computes the listing function of the reassembled replies |
| FindFiles.FindLists | src/smb_trans2.c:52-404 | from messages laid out field by field to the list of files: every entry of every page once, last entry first |
| HandleList.RemovedIsFirst | src/smb_fd.c:70-96 | a removal with one key unlinks precisely the element a lookup returns |
| HandleList.RemovedIsFirstIff | src/smb_fd.c:164-194 | the removal as written for files does so exactly if the file is first, or the identifiers coincide, or neither occurs behind the first |
| HandleList.RemovedAfterAppend | src/smb_fd.c:164-194 | in a list of keys, the one appended last is the one removed exactly if it is alone or both keys coincide |
| HandleList.RemovedExample | src/smb_fd.c:184 | a descriptor for file 6 of tree 1 unlinks file 1 |
| HandleList.FoundAfterAppend | src/smb_fd.c:147-162 | in a list of keys, the one appended last is the one found exactly if it was not in use |
| HandleList.List.Append | src/smb_fd.c:39-55 | the walk to the end adds the element last and the list stays acyclic |
| HandleList.List.Get | src/smb_fd.c:57-68 | the first element with the key, or null |
| HandleList.List.Remove | src/smb_fd.c:164-194 | exactly one element is unlinked, the one the two comparisons select, and the order of the others is kept |
| FileTable.PackUnpack | src/smb_session.h:49-65 | descriptors and pairs of 16-bit identifiers correspond one to one |
| FileTable.PackIsShift | src/smb_session.h:65 | a descriptor is the tree identifier shifted by 16 bits, with the file identifier below it |
| FileTable.Session.ShareAdd | src/smb_fd.c:39-55 | the share comes last, and all lists stay separate |
| FileTable.Session.ShareGet | src/smb_fd.c:57-68 | the first share with the tree identifier, or null |
| FileTable.Session.ShareRemove | src/smb_fd.c:70-96 | exactly the share a lookup returns is unlinked |
| FileTable.Session.FileAdd | src/smb_fd.c:124-145 | the file comes last in its share, the files of all other shares stay, and there must be such a share |
| FileTable.Session.FileGet | src/smb_fd.c:147-162 | the first file with the file identifier in the first share with the tree identifier |
| FileTable.Session.FileRemove | src/smb_fd.c:164-194 | as written, with the second comparison against the tree identifier; other shares are untouched |
| FileRuns.FoundThroughDescriptor | src/smb_fd.c:124-162 | a file added under a tree is the one its packed descriptor designates exactly if the share exists and the file identifier was free in it |
| FileRuns.UnlinkedThroughDescriptor | src/smb_fd.c:164-194 | removing it through the descriptor unlinks it exactly if it is alone in its share or its identifiers coincide |
| FileRuns.StepKeepsFound | src/smb_fd.c:39-194 | while its share stays, a designated file stays designated through every call except exactly the removal that unlinks it |
| FileRuns.StaysFound | src/smb_fd.c:39-194 | over any run of calls without such a removal, the file stays the one its descriptor designates |
| FileRuns.RunTable | src/smb_fd.c:39-194 | for any run of share and file additions, lookups and removals the linked lists stay well formed and apart, every result is the proper one, and the tables are those the functional model computes |
| FileRuns.OpenLookUpClose | src/smb_fd.c:124-194 | on a session: adding, looking up through the packed descriptor and removing, each with its exact condition |
| FileIo.HalvesRecombine | src/smb_file.c:213-219 | the two 32-bit halves of a request recombine to the offset exactly if it is not negative |
| FileIo.ReadAsksForAll | src/smb_file.c:207-208 | a read asks for exactly what the buffer and a 16-bit count allow |
| FileIo.WriteFitsPacket | src/smb_file.c:274-276 | every write request fits a session packet for every buffer size, and the cast to 16 bits loses nothing |
| FileIo.Fseek | src/smb_file.c:316-331 | the offset is the one given, moved by it or left alone, and only the designated file changes |
| FileIo.ReadAnswered | src/smb_file.c:222-252 | for every answer: the offset moves by its length, a failed exchange leaves it alone, and the copy leaves the caller's buffer exactly if more came back than it holds |
| FileIo.WriteAnswered | src/smb_file.c:293-314 | the offset moves by whatever count is acknowledged, and stays without an answer |
| FileIo.Fread | src/smb_file.c:188-252 | from a server that keeps to the request: at most the requested octets, those the file holds at its offset, which moves by their number |
| FileIo.Fwrite | src/smb_file.c:254-314 | to a server that stores a prefix of the request: it is stored at the offset, which moves by the acknowledged count and stays if no answer comes |
| FileIo.RunOps | src/smb_file.c:188-331 | over any run of reads, writes and seeks every outcome is possible at its moment, and the final offset and file are the computed ones |
| FileIo.OffsetSinceLastSeek | src/smb_file.c:188-331 | the offset is the value of the last absolute seek, or the start, plus the relative seeks and the returned and acknowledged lengths since |
| FileIo.ReadsAreContiguous | src/smb_file.c:188-331 | the results of reads between two seeks join up to one contiguous slice of the file |
| FileIo.WritesAreContiguous | src/smb_file.c:254-331 | acknowledged writes between two seeks are one write of all they stored |
| FileIo.ReadBack | src/smb_file.c:188-331 | seeking back after acknowledged writes and reading returns what was stored, however the writes and the reads are cut |
| Ntlm.HashIsNtowf | src/smb_ntlm.c:122-146 | for every conversion that goes character by character, the hash is NTOWFv2 of section 3.3.2 of [MS-NLMP] of the user name cut to 63 octets |
| Ntlm.Ntlm2Hash | src/smb_ntlm.c:92-146 | the HMAC under the MD4 of the password of upper-cased user name and destination, the name cut to 63 octets |
| Ntlm.BlobFields | src/smb_ntlm.c:256-276 | header, time stamp, challenge and target are read from their octets of the packed blob |
| Ntlm.Response | src/smb_ntlm.c:148-171 | the HMAC of server challenge and blob, followed by the blob |
| Ntlm.SessionKey | src/smb_ntlm.c:278-288 | whoever knows the hash and the proof decrypts the transmitted key to the exchanged one |
| Ntlm.FieldReadsBack | src/smb_ntlm.c:320-324 | a receiver finds every value through its descriptor, with its length exactly if that fits 16 bits |
| Ntlm.LaidOutAppend | src/smb_ntlm.c:320-324 | storing one more field places it right behind the last and disturbs no other |
| Ntlm.FieldEnds | src/smb_ntlm.c:320-324 | fields do not overlap: each ends before any later one begins |
| Ntlm.AuthToken.Append | src/smb_ntlm.c:320-324 | the copy and the descriptor in the buffer are the field appended to the layout |
| Ntlm.MakeToken | src/smb_ntlm.c:355-401 | the token has the computed size, its header, and exactly the present fields contiguous from octet 64 in order, all inside |
| Ntlm.LaidOutReadsBack | src/smb_ntlm.c:320-324 | every field of a laid out token whose length fits 16 bits reads back through its descriptor as it was stored |
| Ntlm.Authenticate | src/smb_ntlm.c:326-405 | a server that knows NTOWFv2 and reads the token at the octets of section 2.2.1.3 of [MS-NLMP] finds both proofs valid, time stamp, challenge and target in the blob, the names, and decrypts the key field to the exchanged key, whenever every field fits 16 bits |

## Left out

- DigestBlocks.CompressMatchesRfc: the sine function behind the table of RFC 1321 is not modelled, the table is.
- HmacMd5.Hmac: that a hashed and a cut key give different results is not claimed, since it would amount to a statement about collisions.
- Discovery.NameService.EntryFind: the search by name is not modelled; the discovery thread searches by address.
- Discovery.Recv: waiting, the abort flag inside it and the check for one sender, which the thread does not use, are not modelled.
- NameReply.HandleQuery: the call without a result argument is not modelled; no caller makes it.
- NetbiosSession.Session.Realloc: after a failed allocation the packet is gone in the code; here it stays visible and `lost` says so.
- NetbiosSession.Session.PacketSend: a failed or partial send ends the call in the code and is not modelled.
- FindFiles.Find: for a reply cut off in the middle, the code goes on with memory it has not filled, and nothing is promised about the listing.
- FindFiles.ParseEntries: a name that would be read past the end of the message yields an outcome of its own, where the code would read on.
- FileTable.Session.FileAdd: files are linked by cells of their own; adding a file that is already linked, which would close a cycle in the code and which no caller does, is not modelled.
- FileTable.Session.ShareAdd: the share is not yet linked into the session, as its only caller ensures.
- Ntlm.Authenticate: the random numbers are inputs; character set conversion is a parameter with a length bound.
- Sockets, `select`, pipes, threads and interface enumeration appear as arbitrary input; sending a broadcast cannot fail in the code and does not here.
- Null arguments, freeing and leaks are not modelled; allocation can fail only where a result is returned for it.
- Name resolution, inverse resolution and the lookup of entries by name are not modelled beyond the entries they leave in the cache.
- The transaction identifier of name queries and the header of the query packet are not modelled.
- SPNEGO, the negotiate token, session setup, tree connect, share enumeration, directory creation, removal and renaming are straight-line requests and are not modelled.
- The request headers and the byte-count padding of the find requests are not modelled; no other part depends on them.
