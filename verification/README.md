# A verified model of the AF_XDP DNS resolver

A Dafny model of a recursive DNS resolver whose packet path bypasses the kernel network
stack: the wire codec, the counting filter and the cache behind it, the iterative resolver,
the AF_XDP frame and job machinery, and the TCP listener. Code that updates things in place
is modelled by classes, arrays and loops; what several threads do is modelled by steps that
may interleave in any order. Each operation is proved against a specification function or
state, and the properties below are proved about those.

`dafny verify dfyconfig.toml` checks the whole project.

| file | what it holds |
|---|---|
| `Names.dfy`, `NameCodec.dfy` | name text, labels, zone containment; wire names, compression pointers |
| `Wire.dfy`, `WireRoundTrip.dfy`, `ResponseBuilder.dfy`, `Buffers.dfy` | parsing, the specified response, reading it back, building it in place |
| `QueryBuilder.dfy`, `Relay.dfy` | queries built and read; one resolver reading another's response |
| `Bloom.dfy`, `FilterRace.dfy`, `LookupRace.dfy` | the counting filter; lock-free readers against the locked writer; whole lookups |
| `CacheSpec.dfy`, `CacheNodes.dfy`, `Cache.dfy` | the cache as a recency-ordered list; linked nodes; the operations on them |
| `Rescan.dfy`, `Dissect.dfy`, `Referrals.dfy`, `Replies.dfy` | one reply taken apart; exactly what a referral is; replies written out in bytes |
| `Trail.dfy`, `Resolver.dfy`, `Runs.dfy` | what a resolution rests on; the resolver; exactly which runs it has |
| `Backend.dfy`, `EndToEnd.dfy` | a query from bytes to bytes; what a client sees |
| `FrameStack.dfy`, `XskSocket.dfy`, `PacketFrame.dfy` | UMEM frames, the four rings with the kernel at work, reply frames and the header checksum |
| `JobQueue.dfy`, `Jobs.dfy`, `Transmit.dfy` | the job queue; queries over any number of loops and workers; jobs and frames sent together |
| `TcpTable.dfy`, `TcpFraming.dfy` | connection lifetime; stream framing |

## Main results

- **No false negative under races.** However lock-free readers interleave with the one locked
  writer, a lookup never rejects a key that stays installed, and every lookup returns what the
  entries say at one instant of it. Lookups and puts, in the order in which they had the mutex,
  are a sequential history: it gives the entries whenever the mutex is free, and every hit is its
  last put of that key; what was put hits through the next 4087 operations, until its time is up
  (`FilterRace.InstalledKeyNeverRejected`, `LookupRace.LookupsAreAtomic`,
  `LookupRace.CriticalSectionsMakeTheHistory`, `LookupRace.HitIsLastPut`,
  `LookupRace.PutIsServedConcurrently`).
- **The cache is what it says.** The linked structure refines a recency-ordered list, with or
  without the filter; over every history entries hold what was last stored, keys are unique,
  there are at most 4096, and a put drops at most one other entry
  (`Cache.DnsCache.Get`, `Cache.DnsCache.Put`, `Cache.CompareBuilds`, `CacheSpec.HistoryIsGood`,
  `CacheSpec.PutDropsAtMostOne`, `CacheSpec.PutIsServed`).
- **Resolution does exactly this.** resolve_from returns a result after so many attempts if and
  only if there is a run, told level by level with every attempt in it, that ends so: sixteen
  levels, eight servers a level, eight CNAMEs, three nestings; every failure has one of five
  reasons, and delegations are followed to the answer (`Runs.ResolvesExactly`,
  `Runs.FailureHasReason`, `Runs.ChainIsFollowed`). Which answers, server names and addresses a
  reply yields is told exactly, from its bytes (`Dissect.TakenExactly`, `Rescan.KeptIsOwned`,
  `Rescan.CnameIsLast`, `Referrals.NamesExactly`, `Referrals.GlueExactly`).
- **A client gets its answer.** A query in bytes for a name that is not cached, and upstream
  replies that delegate down to it: the response reads back as what the last reply says, and the
  same question is then served from the cache without asking anybody
  (`EndToEnd.ColdQueryIsResolved`, `EndToEnd.ColdResponseReadsBack`, `EndToEnd.WarmQueryIsServed`).
- **Every reply is justified.** From a fresh cache, whatever is asked and whatever upstream
  servers say, every reply is the specified response to its query, within its limit, to exactly
  what the cache at that moment or else the resolver gives. What it says, the result code
  included, rests on replies that were really given. Each answer passed the zone and the chain
  test of one of them. Each of them came from a server it was right to ask, that is, a root
  server, or a server the reply before referred to for that zone, at an address given as in-zone
  glue or proven by a nested resolution of its name
  (`Backend.ServeAll`, `Resolver.DnsResolver.ResolveFrom`, `Dissect.GlueComesFrom`).
- **Resolution ends** within U(0) round trips, and each referral from a zone below the root
  descends
  (`Resolver.DnsResolver.ResolveFrom`, `Resolver.TripsClosedForm`, `Trail.BelowRootIsBounded`).
- **The answer rescan converges**, and is the least fixed point exactly when at most nine names
  are reachable (`Rescan.AnswersConverge`, `Rescan.LeastFixpointExactly`, `Rescan.OrderDoesNotMatter`).
- **Printing then parsing** gives back queries, and the answers that were emitted: all supported
  ones unless one has no room (`QueryBuilder.QueryReadsBack`, `WireRoundTrip.ResponseReadsBack`,
  `Wire.TruncatedExactly`, `Relay.ResponseDissects`).
- **No frame is ever in two places**, no packet or reply in flight is written over, and every
  reply leaves as built, with the kernel moving frames between any two ring accesses. The frames
  built are those of exactly the jobs counted as sent, in order (`XskSocket.Socket.Run`,
  `FrameStack.NoOverlap`, `Transmit.TransmitDone`).
- **No query is lost or answered twice**, over any number of loops and workers and through
  shutdown (`Jobs.PacketsConserved`, `Jobs.AnsweredAtMostOnce`, `Jobs.NothingInFlightAtPrint`).
- **TCP shutdown is safe**: it never hits a closed or reused descriptor, and nobody touches the
  freed server (`TcpTable.ShutdownsAreSafeAndComplete`, `TcpTable.NobodyTouchesFreedServer`).
- **TCP framing does not depend on segmentation** (`TcpFraming.Stream.Serve`).

Where a natural expectation is false of the code, the code is kept, an input shows the failure
and the exact condition is proved: zone containment against label suffixes
(`Names.BailiwickIsLabelSuffix`), names cut off by the limit on pointers
(`NameCodec.PointerLimitExactly`, `NameCodec.LongChainsFail`), referrals from the root that do
not descend or mix owners (`Dissect.DescendsExactly`, `Dissect.OneOwnerExactly`), more than nine
reachable names (`Rescan.LeastFixpointExactly`, `Replies.FanOrderMatters`), shutdown
without any worker (`Jobs.WithoutWorkers`, `Jobs.PrintedWithPending`).

Three comments in the source say more than its code does, and the model follows the code.
resolver.c:520-523 takes the current zone to move only downward, and resolver.c:404-405 takes all
NS records of a referral to describe one zone: both hold from every zone but the root.
dns_msg.c:74-76 takes backward-only pointers to rule out decompression loops: they do make the
walk end, together with the limit on the text, but it may come back to the same offset
(`NameCodec.BackwardPointerRevisits`).

## Model

| member | source | states |
|---|---|---|
| Names.EqualNames | dns_msg.c:154-163 | the byte loop returns true exactly when the names are equal up to ASCII case |
| Names.CaseExactly | dns_msg.c:154-163 | names are equal if and only if they differ at most in the case of ASCII letters |
| Names.BailiwickIsLabelSuffix | dns_msg.c:463-481 | for all texts, containment holds if and only if the zone is the root, or its labels end the name's labels up to case and the name is not exactly one character longer |
| Names.BailiwickOnWellFormedNames | dns_msg.c:463-481 | on names without empty labels containment is exactly label-suffix containment |
| Names.BailiwickMissesLeadingDot | dns_msg.c:463-481 | the family of texts (a dot in front of the zone) on which the two differ |
| Names.BailiwickTransitive | dns_msg.c:463-481 | containment composes |
| NameCodec.EncodeName | dns_msg.c:109-152 | succeeds exactly when the wire form of the name exists and fits; then appends that form, else leaves the cursor |
| NameCodec.EncodableExactly | dns_msg.c:109-152 | a name has a wire form if and only if, but for a trailing dot, it is empty or has at most 254 characters and labels of 1 to 63 |
| NameCodec.ScanIsLabels | dns_msg.c:123-141 | the encoder's left-to-right scan yields the labels of the text without its trailing dot, and fails exactly when one is empty or over 63 bytes |
| NameCodec.DecodeName | dns_msg.c:39-107 | the pointer-following loop ends on every message and writes the decoded text with its NUL, or fails, as specified |
| NameCodec.DecodeBounds | dns_msg.c:39-107 | a decoded name has at most 255 characters; its end lies past its start, inside the message, at most three bytes beyond the text's length |
| NameCodec.PointerLimitExactly | dns_msg.c:61-80 | for all messages the walk ends without a limit on pointers too, and decoding agrees with that walk if and only if it fails anyway or follows at most 32 pointers; beyond that decoding fails |
| NameCodec.LongChainsFail | dns_msg.c:61-80 | a chain of n pointers is a well-formed name, decoded exactly up to n = 32 |
| NameCodec.BackwardPointerRevisits | dns_msg.c:61-80 | a strictly backward pointer can lead back to the same offset: decoding one four-byte message is at its start again after each of 32 pointers, and fails |
| NameCodec.DecodeLabels | dns_msg.c:39-107 | a run of labels decodes to its text, and fails if and only if that text exceeds 255 characters |
| NameCodec.RoundTrip | dns_msg.c:39-152 | decoding an encoded name at any offset gives its lower-case form without trailing dot, and ends right behind what was written |
| NameCodec.PointerStandsForTarget | dns_msg.c:61-80 | a backward pointer decodes to the name it points at and takes two bytes |
| NameCodec.SameBytesSameName | dns_msg.c:39-107 | a name whose walk stays inside a stretch of bytes reads the same wherever those bytes stand at the same place |
| Wire.QuestionIsShort | dns_msg.c:195-243 | the question of every accepted query takes at most 262 bytes, whatever pointers it uses |
| Wire.QuestionFits | dns_msg.c:301-336 | the unsigned subtraction of the space for answers never wraps, over either transport |
| Wire.ResponseFits | dns_msg.c:281-396 | for every accepted query and at least 512 bytes the response stays within its limit, over UDP the client's own payload size between 512 and 1232, and carries an OPT record exactly when the query did |
| Wire.RoomExactly | dns_msg.c:301-325 | the room for answers is that size, or the whole buffer over TCP, less eleven bytes if there is an OPT record |
| Wire.SectionSays | dns_msg.c:327-378 | with rcode 0 the section holds a front part of the supported answers, all unless truncated; with any other rcode none, and TC is clear |
| Wire.TruncatedExactly | dns_msg.c:327-378 | a section is truncated if and only if some answer, once all supported ones before it are there, has no room left or cannot be written |
| Wire.KeptIsPrefix | dns_msg.c:327-378 | the answers emitted are a front part of the supported ones, and all of them when TC is clear |
| Wire.EmitMonotone | dns_msg.c:327-378 | more room never changes what was already emitted |
| Wire.TruncationIsMonotone | dns_msg.c:301-403 | UDP answers are a front part of the TCP answers in bytes and in records; TC over TCP implies TC over UDP; both say what SectionSays says of the answers given |
| Wire.TcpNeverTruncates | dns_msg.c:301-378 | over TCP, with at most eight answers and encodable names, nothing is truncated: with rcode 0 every supported answer given is there, with any other none |
| WireRoundTrip.SectionReadsBack | dns_msg.c:245-266 | the emitted answer section parses back record by record to the emitted answers |
| WireRoundTrip.PointerToQuestion | dns_msg.c:330-334 | the two bytes C0 0C read as the question's name if and only if the question follows fewer than 32 pointers itself |
| WireRoundTrip.OptReadsBack | dns_msg.c:380-396 | the OPT record parses back with its payload size and DO bit |
| WireRoundTrip.ResponseReadsBack | dns_msg.c:270-414 | for a question read from its own bytes over at most 31 pointers, the response parses back to the same id, flags that say what they should, the verbatim question, exactly the emitted answers, which are those SectionSays tells, then the OPT record if any, ending at its last byte |
| WireRoundTrip.FlagsReadBack | dns_msg.c:398-403 | a client finds QR and RA set, opcode 0, the query's RD, TC exactly when truncated, and the low four bits of the rcode |
| WireRoundTrip.PlainIsOwn | dns_msg.c:181-193 | every accepted question written without pointers is such a question |
| ResponseBuilder.PutAnswer | dns_msg.c:327-377 | one turn of the answer loop does what the specification says of that answer; an answer not kept leaves no trace |
| ResponseBuilder.PutAnswers | dns_msg.c:327-378 | the answer loop appends the specified section and returns its count and TC flag |
| ResponseBuilder.BuildResponse | dns_msg.c:270-414 | fails exactly when the question does not fit query or buffer; otherwise the buffer holds the specified response |
| QueryBuilder.BuildQuery | dns_msg.c:416-461 | fails exactly when the name cannot be encoded or the query does not fit; otherwise the buffer holds the query asked for |
| QueryBuilder.QueryReadsBack | dns_msg.c:195-243 | every query with an encodable name and QR, opcode clear is accepted and read as its id, lower-case name, type, class and RD bit, and the payload size, version and DO bit of its OPT record |
| QueryBuilder.AcceptedExactly | dns_msg.c:195-243 | any message is taken for a query if and only if it has QR and opcode clear and one readable question; an OPT record is seen if and only if the first additional record is one, owned by the root |
| QueryBuilder.OthersAreRefused | dns_msg.c:203-206 | with QR or an opcode set it is refused |
| Relay.QuestionsAreSkipped | resolver.c:278-281 | however many questions a reply repeats, the answers are found behind them |
| Relay.ResponseDissects | resolver.c:251-361 | dissecting a built response gives back its rcode and exactly the answers emitted; a truncated one is refused |
| Bloom.HashKey | dns_bloom.c:7-18 | the byte loop and the final mixing of the type compute the specified 64-bit hash |
| Bloom.HashIgnoresCase | dns_bloom.c:7-18 | names equal up to case have equal hashes |
| Bloom.SlotsDistinct | dns_bloom.c:70-77 | the four slots of a key are distinct because the step is odd |
| Bloom.AddTracks | dns_bloom.c:118-138 | adding a key keeps every counter equal to its number of live keys, or pinned at 255 |
| Bloom.DelTracks | dns_bloom.c:140-160 | removing a live key keeps that, and the guard against zero never acts |
| Bloom.LiveKeyPasses | dns_bloom.c:99-116 | a live key is never rejected |
| Bloom.Filter.constructor | dns_bloom.c:79-89 | a reset filter tracks no keys |
| Bloom.Filter.MaybePresent | dns_bloom.c:99-116 | true exactly when all four counters of the key are non-zero |
| Bloom.Filter.Add | dns_bloom.c:118-138 | raises the four counters of the key, saturating, and no other |
| Bloom.Filter.Del | dns_bloom.c:140-160 | lowers the four counters of the key except pinned or zero ones, and no other |
| FilterRace.StepKeepsInv | dns_bloom.c:99-160 | every load and store, by anyone, keeps each counter exact up to the operation in progress |
| FilterRace.InstalledCountersNonZero | dns_bloom.c:91-116 | at any moment each counter of an installed key is non-zero |
| FilterRace.InstalledKeyNeverRejected | dns_cache.c:183-190 | under every interleaving a lookup whose key is installed throughout is not rejected |
| FilterRace.QuietIsExact | dns_cache.c:99-106 | whenever the mutex is free the counters are exact again |
| FilterRace.LoadRejectsExactly | dns_bloom.c:99-116 | while the mutex is free a lookup is turned away by its next load exactly if no installed key uses that counter and it is not pinned |
| LookupRace.StepKeepsInv | dns_cache.c:173-283 | every step of lookups and puts keeps the filter in step with the entries, and the entries those of the history, one ahead while a put has evicted |
| LookupRace.EndsWithTheAnswer | dns_cache.c:183-218 | the step that ends a lookup, a rejecting load or the consultation under the mutex, gives it the answer of the entries at that moment |
| LookupRace.LookupsAreAtomic | dns_cache.c:173-218 | in every run each lookup returns what the entries say at one instant of it: a miss means no entry or an expired one then, a hit is that entry's |
| LookupRace.DropIsPossible | dns_cache.c:99-106 | whatever is evicted or expires was installed in the filter |
| LookupRace.CriticalSectionsMakeTheHistory | dns_cache.c:190-283 | in every run, whenever the mutex is free the entries are those of the sequential history of lookups and puts in the order they had it |
| LookupRace.LookupsSeeTheHistory | dns_cache.c:173-218 | in every run a lookup answers as that history does, except that a key being evicted at that moment may already miss |
| LookupRace.HitIsLastPut | dns_cache.c:173-283 | in every run a hit returns the first eight answers and the rcode of the last put of the key in that history, cut to the caller's capacity, with the time left |
| LookupRace.PutIsServedConcurrently | dns_cache.c:173-283 | in every run, through the next 4087 operations that have the mutex, every lookup of a key that was put hits before its end |
| CacheSpec.HistoryIsGood | dns_cache.c:173-283 | over every history: each entry holds what the last put of its key stored, entries stand in order of last use, keys are unique, at most 4096 |
| CacheSpec.HitIsLastStored | dns_cache.c:173-283 | over every history a hit returns the first eight answers and the rcode of the last put of the key, cut to the caller's capacity, with the time left of their lifetime, which is positive |
| CacheSpec.LifetimeExactly | dns_cache.c:46-53 | the lifetime is the shortest TTL stored, at least 5 and at most 86400, or 60 without answers |
| CacheSpec.PutIsServed | dns_cache.c:173-283 | through the next 4088 operations, with no other put of the key and no lookup of it after its end, a lookup returns the first eight answers put at every time before that end, and misses from then on |
| CacheSpec.ServedTtlIsBounded | dns_cache.c:46-53 | while the clock has not gone back the served TTL is at most max(5, shortest stored TTL), or 60 for a negative entry |
| CacheSpec.PutDropsAtMostOne | dns_cache.c:119-136 | a put drops at most one other entry, only when full: the expired one nearest the tail among the last eight, else the least recently used |
| CacheSpec.VictimFromWorst | dns_cache.c:119-136 | the scan from the tail stops at the first expired entry among eight, else takes the tail |
| CacheNodes.RecencyList.Unlink | dns_cache.c:57-70 | removes exactly that node from the doubly linked list |
| CacheNodes.RecencyList.PushFront | dns_cache.c:72-81 | puts the node in front of the doubly linked list |
| CacheNodes.HashChains.Find | dns_cache.c:108-115 | returns a node of the chain with that key, or null exactly when there is none |
| CacheNodes.HashChains.Insert | dns_cache.c:259-263 | adds the node at the head of its home chain |
| CacheNodes.HashChains.Remove | dns_cache.c:83-95 | removes exactly that node from its home chain |
| Cache.LifetimeOf | dns_cache.c:226-238 | the lifetime is the clamped shortest TTL, or the negative TTL |
| Cache.DnsCache.constructor | dns_cache.c:140-150 | an empty, valid cache |
| Cache.DnsCache.Destroy | dns_cache.c:99-106 | the node leaves filter, chain and list; all three stay consistent |
| Cache.DnsCache.PickVictim | dns_cache.c:119-136 | the pointer walk from the tail finds the specified victim; none exactly when the cache is empty |
| Cache.DnsCache.Evict | dns_cache.c:119-136 | removes the specified victim, if there is one |
| Cache.DnsCache.MakeRoom | dns_cache.c:247-248 | the eviction loop of a put turns once when the cache is full, else not at all |
| Cache.DnsCache.Lookup | dns_cache.c:108-115 | searching one bucket finds the entry of a key if the cache has one |
| Cache.DnsCache.PassesFilter | dns_cache.c:180-188 | a key the filter rejects has no entry |
| Cache.RejectedIsAbsent | dns_cache.c:180-188 | with exact counters, rejection implies absence |
| Cache.DnsCache.Get | dns_cache.c:173-218 | returns and leaves exactly what the list specification says, filter or not |
| Cache.DnsCache.Put | dns_cache.c:220-283 | leaves exactly what the list specification says, filter or not |
| Cache.Replay | dns_cache.c:173-283 | on every trace one cache returns the specified results and ends with the specified entries |
| Cache.CompareBuilds | dns_bloom.h:64-77 | on every trace the builds with and without the filter return the same results and end with the same entries |
| Rescan.CollectAnswers | resolver.c:296-380 | the pass loop computes the specified chain and answers |
| Rescan.AnswersConverge | resolver.c:296-380 | the last of at most nine passes does not grow the chain: it ends by convergence |
| Rescan.LeastFixpointExactly | resolver.c:296-380 | the final chain is the least set closed under accepted CNAMEs if and only if some closed set has at most nine names |
| Rescan.KeptIsOwned | resolver.c:296-380 | the result is the answers owned by the final chain, in section order, cut to the capacity |
| Rescan.CnameIsLast | resolver.c:363-366 | the CNAME to chase is the target of the last accepted CNAME owned by the name asked for, and there is none exactly if there is no such record |
| Rescan.OrderDoesNotMatter | resolver.c:296-380 | with at most nine reachable names and an uncut result, reordering the section yields the same answers |
| Rescan.OrderMattersBeyondNine | resolver.c:368-374 | of more than nine names reachable from one, the last is left out, and comes in when its record is moved to the front |
| Rescan.KeptIsAccepted | resolver.c:303-376 | every kept answer is a record of the section, inside the zone, owned by a name reachable by accepted CNAMEs |
| Dissect.TakenExactly | resolver.c:303-361 | for every record of every message: an answer is taken if and only if the class is IN, the owner lies in the zone and the record is an A of 4 bytes, an AAAA of 16 or a readable CNAME; it has the record's owner, TTL and those bytes or that name |
| Dissect.ReadsAsFarAsGood | resolver.c:444-450 | of the additional section exactly the longest readable front part is used |
| Dissect.CollectServers | resolver.c:406-436 | the authority loop computes the specified referral |
| Dissect.CollectGlue | resolver.c:444-465 | the glue loop fills in the specified addresses; GlueComesFrom says what they are |
| Dissect.GlueComesFrom | resolver.c:444-465 | every address is that of an additional A record owned by the server name it stands beside, inside the zone that is answering |
| Dissect.DissectReply | resolver.c:251-468 | the whole reply is taken apart as specified, failures included |
| Referrals.NamesExactly | resolver.c:406-436 | the server names are the first eight that the authority section offers: those of the root's own records in front, then those of the first zone below the root |
| Referrals.ZoneExactly | resolver.c:415-427 | the zone is that first zone, unless eight servers of the root stand in front of it |
| Referrals.GlueExactly | resolver.c:444-465 | each candidate has exactly the address its name's in-zone A records give it, in order |
| Dissect.ReferralDescends | resolver.c:406-436 | a referral's zone contains the name asked for, lies at or below the current zone, and from a non-root zone is at least two characters longer |
| Dissect.DescendsExactly | resolver.c:415-427 | a referral leads strictly below the current zone if and only if that is not the root, or some NS record delegates a zone below the root and fewer than eight readable root-owned ones stand before it |
| Dissect.OneOwnerExactly | resolver.c:422-427 | all its server names come from records owned by the zone it leads to if and only if the current zone is not the root, or no delegation is taken, or no root-owned name stands before it |
| Replies.RootReferralStays | resolver.c:415-427 | a reply, in bytes, whose referral from the root stays at the root |
| Replies.MixedReferral | resolver.c:422-427 | a reply, in bytes, whose referral to com also offers the root's own server |
| Replies.DelegationIsTaken | resolver.c:406-465 | in bytes, for every one-label name, server letter and address: the delegation is taken with the server's address |
| Replies.FanReplyReads | resolver.c:251-294 | for every list of fewer than 256 letters, the bytes of a reply with CNAMEs from "a" to them read as that section |
| Replies.FanOrderMatters | resolver.c:368-374 | for every eight or more different letters and one more: in the reply, in bytes, that names it last it is not on the chain, and in the one with the same records that names it first it is |
| Replies.TenNames | resolver.c:368-374 | an instance: two replies about ten names, the same records in different order, with different chains |
| Dissect.NamesHaveSources | resolver.c:406-436 | every server name is read from an authority NS record that delegates a zone between the current one and the name asked for |
| Trail.ProvenThrough | resolver.c:565-582 | what is proven from a CNAME's target is proven from the name: accepted by a reply's own chain and zone tests, on a question reachable from it |
| Trail.ConcludedThrough | resolver.c:577-581 | the conclusion about a CNAME's target is the conclusion about the name |
| Trail.WellReachedConcat | resolver.c:565-582 | following a CNAME starts again at the roots, and the joined trail is well reached |
| Trail.KeptProven | resolver.c:303-376 | the answers kept from a reply are proven by that reply |
| Trail.CnameReachable | resolver.c:364-366 | the CNAME to chase is reachable from the name asked for |
| Trail.ZoneHolds | resolver.c:508-629 | in every run the current zone contains the queried name and is reached by a referral from the zone before |
| Trail.BelowRootIsBounded | resolver.c:508-629 | the number of referrals below the root is bounded by the queried name's length |
| Trail.SuppliedIsValid | resolver.c:303-376 | what a reply supplies fits the answer record |
| Resolver.TripsClosedForm | resolver.c:42-45 | U(3) = 9·16·8 and U(d) = 9·16·8·(1 + U(d+1)) |
| Resolver.DnsResolver.AskLevel | resolver.c:535-551 | each server in turn until one reply can be used, at most eight round trips; which server gave it to which attempt |
| Resolver.DnsResolver.ResolveNsAddr | resolver.c:484-506 | the nested resolution as specified, within its own budget; its replies prove the address |
| Resolver.DnsResolver.NextServers | resolver.c:598-625 | glue if there is any, else one server name resolved out of band; either way servers the reply refers to |
| Resolver.DnsResolver.ResolveFrom | resolver.c:508-629 | the loop computes the recursive specification, ends for all replies within its budget, asks only servers it was right to ask, in increasing attempts, and answers and result code rest on the replies it accepted |
| Runs.ResolvesExactly | resolver.c:508-629 | a result after so many attempts is returned if and only if a run ends so: servers asked in turn, eight a level, at most sixteen levels, eight CNAMEs, three nestings |
| Runs.FailureHasReason | resolver.c:508-629 | every failure: an error code with no answer, CNAME or referral; a followed CNAME that failed; sixteen replies; no usable reply from any server of the level; or no address for any server named |
| Runs.ChainIsFollowed | resolver.c:508-629 | for every chain of at most sixteen replies, each from the first glue address of the one before and the last with the answer, that answer is returned after as many attempts |
| Resolver.DnsResolver.ResolveName | resolver.c:633-665 | declines unsupported types, serves hits, stores only NOERROR with records or NXDOMAIN with none; the new cache contents are given exactly; an honest cache stays honest and every result but failure is backed |
| Resolver.StoringStaysHonest | resolver.c:659-662 | whatever is stored, an NXDOMAIN included, has evidence under the spelling it is filed under |
| Resolver.HitIsBacked | dns_cache.c:173-218 | whatever an honest cache serves, an NXDOMAIN included, is backed by real replies |
| Backend.ResolveQuery | dns_backend.c:29-54 | drops a query exactly when it does not parse; else the buffer holds the specified response within its limit to exactly what the client is to be told, and the cache is left exactly as it should be: not implemented, the cache's hit at that moment, the resolver's result, stored if it may be, or failure; a hit or a result is backed |
| Backend.ServeAll | dns_backend.c:29-54 | every run from a fresh cache: each query finds the cache as the one before left it; every reply is exactly what that cache or else the resolver gives, backed by attempts made by then; every drop is an unparsable query |
| EndToEnd.ColdQueryIsResolved | dns_backend.c:29-54 | a query in bytes for a name not cached, with such a chain of replies: the result is what the last reply says, with rcode 0, and is stored |
| EndToEnd.ColdResponseReadsBack | dns_backend.c:29-54 | the response over either transport reads back with that query's id and question and those answers, all unless marked truncated |
| EndToEnd.WarmQueryIsServed | dns_backend.c:29-54 | the same query before the answers' time is up gets them from the cache with the time left, and nobody is asked |
| EndToEnd.FailureIsTold | dns_backend.c:29-54 | what cannot be resolved is told as rcode 2, another class or type as rcode 4 with nothing changed |
| EndToEnd.DenialIsRemembered | resolver.c:655-662 | a denial is told again for a minute without asking anybody |
| FrameStack.BaseRecovered | xsk_setup.h:165-172 | any headroom and any top bits are stripped: the frame base is recovered |
| FrameStack.Stack.constructor | xsk_setup.c:214-218 | the stack holds each of the 4096 frame bases once |
| FrameStack.Stack.Alloc | xsk_setup.h:143-152 | pops the top frame, or returns the invalid address exactly when empty |
| FrameStack.Stack.Free | xsk_setup.h:154-158 | pushes the frame; its assertion is the precondition |
| FrameStack.NoOverlap | xsk_setup.h:165-172 | in a partition every base is in exactly one place, once, and nothing else is anywhere |
| XskSocket.Socket.constructor | xsk_setup.c:214-230 | half the frames go to the fill ring, half stay, all accounted for |
| XskSocket.Socket.TakeRx | af_xdp_user.c:390-414 | the packet read is the one delivered, and freeing its frame never overflows the stack |
| XskSocket.Socket.StageTx | af_xdp_user.c:537-546 | the frame posted is a real frame base that nothing in flight refers to, and holds the job's reply frame |
| XskSocket.Socket.RefillFq | af_xdp_user.c:360-380 | moves exactly the clamped number of frames to the fill ring, with the kernel at work |
| XskSocket.Socket.DrainFrames | af_xdp_user.c:382-419 | reads the waiting packets in order, none lost or repeated, and returns their frames |
| XskSocket.Socket.TransmitFrames | af_xdp_user.c:524-554 | the reply frames of the first jobs of a batch are built and posted, the others counted against the ring, then the pool; the three counts add up |
| XskSocket.Socket.ReclaimFrames | af_xdp_user.c:476-497 | completed frames come back; outstanding_tx equals the frames in tx and completion, so the clamp never acts |
| XskSocket.Socket.Run | af_xdp_user.c:616-659 | every run keeps the partition, the contents in flight and the accounts |
| Transmit.TransmitOnce | af_xdp_user.c:505-563 | one batch sends exactly the jobs of one batch step of the job counts, limited by the ring's free slots and the free frames, and builds their reply frames in order |
| Transmit.TransmitDone | af_xdp_user.c:500-566 | the whole call ends, is a drain and then batches of the job system, leaves nothing in hand, and builds the frames of exactly the jobs those steps send |
| PacketFrame.Ipv4Checksum | af_xdp_user.c:267-283 | the word loop with its 32-bit sum and the carry loop compute the specified checksum; both end |
| PacketFrame.FoldKeepsResidue | af_xdp_user.c:279-280 | folding keeps the sum modulo 65535 and never turns a non-zero sum into zero |
| PacketFrame.SelfVerifies | af_xdp_user.c:267-283 | storing the checksum makes the recomputed one zero, for any buffer short enough not to overflow |
| PacketFrame.HeaderVerifies | af_xdp_user.c:435-449 | recomputing over every header that is built gives zero |
| PacketFrame.BuildResponseFrame | af_xdp_user.c:423-462 | the frame holds the specified headers and payload |
| PacketFrame.ReplyReversesQuery | af_xdp_user.c:292-462 | a reply carries the query's addresses and ports reversed, its type of service, lengths that match, and the payload; every byte but the checksum is told |
| PacketFrame.ClientFrameParses | af_xdp_user.c:292-352 | every IPv4 and UDP frame to port 53, with or without IP options and padding, is accepted exactly if its query has 12 to 1500 bytes, and all that a reply needs is taken from its place |
| PacketFrame.AcceptedIsQuery | af_xdp_user.c:292-352 | nothing else is accepted, and the query is the UDP payload as far as there are bytes for it |
| JobQueue.LinkedQueue.Push | af_xdp_user.c:123-151 | refused exactly after shutdown or at capacity, else appended |
| JobQueue.LinkedQueue.Pop | af_xdp_user.c:153-171 | the oldest job; nothing exactly when empty |
| JobQueue.LinkedQueue.Drain | af_xdp_user.c:175-185 | the whole chain in order, leaving an empty queue |
| JobQueue.LinkedQueue.Shutdown | af_xdp_user.c:187-193 | marks the queue and keeps its jobs |
| Jobs.CollectPrefix | af_xdp_user.c:510-518 | a batch of usable jobs is the first of the drained list |
| Jobs.BatchSplits | af_xdp_user.c:505-563 | a drained list splits into what is sent, what is given up and counted, and what is left |
| Jobs.StepKeepsInv | af_xdp_user.c:382-604 | every step of every thread keeps the accounts and the places of all jobs |
| Jobs.PacketsConserved | af_xdp_user.c:382-604 | in every reachable state received packets = unparsed + refused + pending + with workers + dropped + waiting + sent + without slot or frame |
| Jobs.RefusedExactly | af_xdp_user.c:382-419 | in every reachable state a parsed packet is refused if and only if 4096 are waiting; otherwise it waits behind all others |
| Jobs.OldestFirst | af_xdp_user.c:153-171 | the job a worker takes is the oldest that waits |
| Jobs.AnsweredAtMostOnce | af_xdp_user.c:592-600 | every reply leaves on the loop its query arrived on, and no query is answered twice |
| Jobs.NothingInFlightAtPrint | af_xdp_user.c:1033-1051 | with at least one worker every in-flight term is zero when the totals are printed |
| Jobs.WithoutWorkers | af_xdp_user.c:1002-1008 | without workers everything parsed and not refused is still pending then |
| Jobs.PrintedWithPending | af_xdp_user.c:1033-1051 | such a run, with a packet still pending in the printed state |
| TcpTable.Table.Reserve | dns_tcp.c:57-74 | the first empty slot takes the descriptor, or the table is full and unchanged |
| TcpTable.ReleasedSlotIsNext | dns_tcp.c:57-90 | after a release the next reservation gets the lower of the released slot and the one it would have got |
| TcpTable.ReleaseUndoesReserve | dns_tcp.c:57-90 | releasing what was just reserved gives the table back, and while reserved the slot is not handed out |
| TcpTable.TurnedAwayExactly | dns_tcp.c:57-74 | in every reachable state a connection is turned away if and only if all 128 slots are taken; otherwise the lowest free one gets its descriptor |
| TcpTable.EntriesAreLive | dns_tcp.c:57-90 | in every reachable state a table entry is an open descriptor owned by the one connection in that slot; no descriptor is in two slots |
| TcpTable.ShutdownsAreSafeAndComplete | dns_tcp.c:340-352 | every shutdown() hits an open connection of this server; once stop waits, every connection still serving has been shut down |
| TcpTable.NobodyTouchesFreedServer | dns_tcp.c:331-356 | once the server is freed no thread has a step left that touches it |
| TcpFraming.Stream.ReadFull | dns_tcp.c:97-114 | n bytes whatever the segments; fails exactly when the stream ends first |
| TcpFraming.Stream.WriteFull | dns_tcp.c:116-131 | all bytes in order, or exactly as many as the peer takes |
| TcpFraming.Stream.Serve | dns_tcp.c:135-212 | for every way of cutting the stream, the messages handed over are those of the whole stream, up to a failed write, and the bytes sent are the framed replies in request order |
| TcpFraming.RepliesReadBack | dns_tcp.c:196-202 | what leaves reads back as the replies to the answered queries, in order |
| TcpFraming.MessagesReadBack | dns_tcp.c:165-176 | reading undoes framing |

## Left out

- Sockets, poll, eventfd, signals, random transaction ids, CPU pinning, option parsing: input and output plumbing.
- query_server: an oracle that may return any bytes or nothing for each attempt. That it checks id, question and source, and that it ends, is not claimed; a round trip is one call of it.
- The kernel and libxdp: only their effect on the rings. That the fill ring is always topped up is not claimed, since a shortfall is never made up.
- Freeing memory: released nodes and jobs just become unreachable. Allocation failure is left out, except where it shows as an unparsed packet or a failed thread.
- Weak memory: each atomic load and store is one step of an interleaving.
- The filter's rejection rate and all statistics beyond the counters above.
- af_xdp_kern.c: the classifier, which has no loop and keeps no state but counters.
- server.c: the same queue as af_xdp_user.c; resolver_stub.c, loadgen.c and bench_bloom.c are benchmark tools.
- dns_cache_fini: straight-line code; initialising the cache twice is not modelled.
- Time: the clock is a parameter of each call and may go back.
- Cache.DnsCache.Put: names longer than 255 bytes, which the source would cut, are excluded; every decoded name is shorter.
- ResponseBuilder.BuildResponse: requires what Wire.QuestionFits gives for accepted queries and buffers of at least 512 bytes; both transports pass more.
- WireRoundTrip.ResponseReadsBack: a question whose name is read partly from outside its own bytes is left out, since the header before it and the records behind it differ in the response; so is one that follows 32 pointers, to which no further pointer can lead (WireRoundTrip.PointerToQuestion).
- LookupRace.LookupsSeeTheHistory: no run is given in which a key being evicted does miss, since that depends on which of 4096 hashes share counters.
- TcpFraming.Stream.Serve: a send() that keeps returning zero without an error would not end; it is taken to accept at least one byte.
- Jobs.PacketsConserved: the reservation of transmit slots is taken to succeed when the slots were just counted free, as it does for a single producer.
