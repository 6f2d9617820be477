# A verified model of go-p2pMesh

This project models the algorithmic core of the go-p2pMesh overlay network in Dafny and proves what that core
promises: about every input, every reachable state and every run.

* **Kademlia DHT** (`Bytes`, `Keys`, `Shortlist`, `Routing`, `Table`, `Lookup`): the 160-bit XOR metric, the
  160-bucket routing table with its least-recently-seen order, and the iterative lookup whose parallel answers may
  arrive in any order.
* **Scan defence and token buckets** (`Runs`, `TokenBucket`, `ScanModel`, `ScanRuns`, `Scanner`, `RelayModel`,
  `Relay`, `Limiter`): one abstract bucket with an exact admission theorem, the three buckets that follow it, the
  per-source scan state machine and the relay hub, with properties of whole runs.
* **Port prediction** (`Numbers`, `PortPrediction`): mean and variance classification, a Chebyshev-style coverage theorem, and
  the exact classification of regular sequences.
* **Wire formats** (`DnsName`, `DnsMessage`, `Stun`, `Frames`, `Tunnels`): DNS names with compression pointers, DNS
  queries and replies, STUN binding responses, and the numbered frame stream of the encrypted tunnel.
* **Ordering and reselection** (`Sorting`, `PeerPriority`, `Reselect`): candidate order by room, backoff and server
  rotation.

`dafny verify dfyconfig.toml` checks everything.

## How the source is represented

* Objects that the source updates in place are classes with `modifies` clauses (`Bucket`, `RoutingTable`, `Lookup`,
  `ProbeBucket`, `Scanner`, `ByteBucket`, `RelayHub`, `RequestLimiter`, `ReplayWindow`, `Connection`, `Tunnel`,
  `Picker`); each method is tied to a function of the old state, and the theorems are about those functions.
* Time is a `real` number of seconds passed in by the caller, `float64` is exact `real` arithmetic, and randomness
  (the backoff jitter) is a parameter. Bytes are integers below 256, and 16-, 32- and 64-bit wrap-around is written
  out where the source has it.
* The hash that derives a key from a node identifier and the AEAD cipher are abstract functions. A cipher is assumed
  to open what it sealed and to lengthen it by a constant.
* The answers of one lookup round are received in an arbitrary order. A search asks a node at most once, so what a
  node answers is a function of its identifier. A failed query answers nothing.
* Mutexes are not modelled: the locked sections are the steps of the machines.

Where the code and its comments differ, the model follows the code:

* The header of `internal/dht/key.go` speaks of SHA-1; the code truncates SHA-256. Only the function from identifier
  to key matters here.
* `internal/portcontrol/scan.go` describes same-room probes as always exempt. A same-room probe of a source that is
  blacklisted is answered as blacklisted; it still changes nothing (`ScanRuns.Erasure`).
* The limiter's rate field is commented as permits per minute; it holds permits per second.
* `replayWindow.allow` keeps a bitmap, but its answer depends on the highest number alone (`ReplayWindow.Allow`).
* `internal/stun/predict.go` gives the deltas 3, 7, 3, 7 as an example of a cyclic pattern; they have the same sign, so
  the linear test comes first and accepts them (`PortPrediction.AlternatingIsClassified`).
* The tunnel comment gives the ciphertext field as the length plus 16; the length on the wire already includes the tag.
* The cap comment of `SelectPeers` calls 0 the policy in which same-room candidates are never displaced; a cap of 0
  keeps every candidate.

## Model

| member | source | states |
|---|---|---|
| Keys.Less | internal/dht/key.go:78-85 | the byte loop decides exactly the numeric order of the two 160-bit values |
| Keys.Xor | internal/dht/key.go:50-56 | the loop computes the bytewise exclusive or, which is the distance key |
| Keys.CommonPrefixLen | internal/dht/key.go:64-74 | the result is the number of leading bits the keys share: all bits before it agree, the bit at it differs |
| Keys.ValueInjective | internal/dht/key.go:78-85 | different keys are different numbers, so the order is total on keys |
| Keys.Metric | internal/dht/key.go:50-91 | distance is zero only for equal keys, symmetric, satisfies the triangle inequality, and fixes the other key |
| Keys.DistanceDetermines | internal/dht/key.go:89-91 | two keys at the same distance from a third are the same key |
| Keys.LongerPrefixIsCloser | internal/dht/key.go:64-91 | a longer common prefix with a key means a strictly smaller distance to it |
| Keys.FullPrefixIsSelf | internal/dht/key.go:64-74 | all 160 bits are shared exactly by equal keys |
| Shortlist.PoolGrows | internal/dht/lookup.go:124-138 | when the pool grows, each position of the nearest-k list gets closer or stays |
| Shortlist.Merge | internal/dht/lookup.go:124-138 | sorting one new element into the nearest-k list of a pool and cutting gives the nearest-k list of the larger pool |
| Shortlist.Unique | internal/dht/lookup.go:124-138 | without equal distances a pool has only one nearest-k list |
| Shortlist.TopKIsNearest | internal/dht/lookup.go:48-50 | choosing the nearest element k times, the independent reference, gives a nearest-k list |
| Routing.RunIsWellFormed | internal/dht/table.go:73-118 | after every run of adds and removes, bucket i holds at most 20 nodes with exactly i shared bits and derived keys, no identifier is stored twice anywhere, and the local key is never stored |
| Routing.RunIsByRecency | internal/dht/bucket.go:29-41 | after every run each bucket lists its nodes in the order of their latest accepted add |
| Routing.FullBucketOffersOldest | internal/dht/table.go:65-102 | a full bucket is unchanged by an unknown node, and the node offered is the one whose latest accepted add is oldest |
| Routing.TableIsFlatSet | internal/dht/table.go:73-118 | the bucketed table always holds the same identifiers as a flat set in which at most 20 share a place, so an add never evicts |
| Routing.EntriesAreFromCalls | internal/dht/table.go:73-102 | after every run each stored node carries the derived key, the address of the add that began its present stay, and the time of its last add, or the time it came with if it was not added again |
| Routing.HigherBucketIsCloser | internal/dht/table.go:38-47 | every node of a higher bucket is closer to the local node than any node of a lower one |
| Routing.LocalKeyHasNoPlace | internal/dht/table.go:41-47 | only the local key has no bucket, and it is neither accepted nor offered |
| Routing.ListingOrder | internal/dht/table.go:168-182 | after every run the listing goes from the fewest shared bits to the most, and within a bucket from the node whose latest accepted add is oldest to the newest |
| Routing.SortedTableIsNearest | internal/dht/table.go:123-151 | the listing sorted by distance is the nearest list of all stored identifiers |
| Routing.NearestIsUnique | internal/dht/table.go:194-205 | with distinct keys and at most 20 candidates, the next hops and the nearest nodes are the same list |
| Table.Bucket.Index | internal/dht/bucket.go:20-27 | the first position of an identifier, or -1 |
| Table.Bucket.MarkSeen | internal/dht/bucket.go:31-36 | the entry moves to the tail with the new time, the others keep their order |
| Table.Bucket.Push | internal/dht/bucket.go:39-41 | appends at the tail |
| Table.Bucket.Delete | internal/dht/bucket.go:57-64 | removes exactly the entry with that identifier and reports whether there was one |
| Table.Bucket.Offer | internal/dht/table.go:92-101 | refreshes a known node, stores a new one if there is room, else keeps all entries and names the head |
| Table.RoutingTable.constructor | internal/dht/table.go:30-36 | an empty table around the local key |
| Table.RoutingTable.BucketFor | internal/dht/table.go:41-47 | the shared prefix length, or none exactly for the local key |
| Table.RoutingTable.Has | internal/dht/table.go:50-63 | known exactly when the identifier is stored or carries the local key |
| Table.RoutingTable.Add | internal/dht/table.go:73-102 | the new table, the error and the eviction candidate for every argument, absent nodes and the local node included |
| Table.RoutingTable.Remove | internal/dht/table.go:105-118 | the table without that identifier, and whether it was stored |
| Table.RoutingTable.Nearest | internal/dht/table.go:123-151 | min(n, size) stored nodes in distance order such that no omitted stored node is closer than a returned one |
| Table.RoutingTable.Size | internal/dht/table.go:155-165 | the number of stored identifiers |
| Table.RoutingTable.Peers | internal/dht/table.go:168-182 | all entries, bucket after bucket |
| Table.RoutingTable.MultiPathCandidates | internal/dht/table.go:198-205 | the nearest min(c, 20) stored nodes in distance order |
| Lookup.WithDefaults | internal/dht/lookup.go:18-29 | every tunable becomes positive, and only non-positive ones change, to 3, 20 and 160 |
| Lookup.MergeBest | internal/dht/lookup.go:124-138 | keeps identifiers distinct and the cap, and turns the nearest list of a pool into that of the pool with the node; the shortlist only gains that node, and nothing if its identifier is listed |
| Lookup.Absorb | internal/dht/lookup.go:94-103 | one answer makes the shortlist that of everything known, and progress is reported exactly when it names an unasked node |
| Lookup.Receive | internal/dht/lookup.go:91-104 | the answers of a round, in whatever order, give the shortlist of everything known and the same progress flag |
| Lookup.SelectTodo | internal/dht/lookup.go:66-75 | the first alpha shortlist nodes not asked before |
| Lookup.FirstUnaskedIsPrefix | internal/dht/lookup.go:66-75 | those are the front of the list of all nodes not asked before |
| Lookup.Round | internal/dht/lookup.go:65-108 | one round keeps the search invariant, asks at most alpha new nodes, reports running out exactly when the whole shortlist was asked before, which is exactly when it asks nobody, and position by position never makes the shortlist farther |
| Lookup.Rounds | internal/dht/lookup.go:63-109 | the loop asks each node at most once and at most alpha times maxRounds nodes; it ran out of candidates exactly when the last two sets of nodes asked in its trail are equal, and then every returned node was asked |
| Lookup.FilterSelf | internal/dht/lookup.go:112-121 | exactly the nodes without the local key, in order |
| Lookup.Lookup.Find | internal/dht/lookup.go:50-110 | both configuration errors; otherwise at most k distinct nodes without the local one, the nearest k of the table and all answers in distance order, at most min(alpha * maxRounds, nodes learned) queries, every returned node asked if the last round found nobody left to ask, exactly the nodes that the reference search asks when keys are distinct, and an unchanged table; every returned node, address and time included, is an entry of the table or part of an answer of a node that was asked |
| Lookup.SearchTable | internal/dht/lookup.go:57-109 | the same for the search proper, from the local shortlist through the rounds, with running out of candidates defined by its trail; every node comes from the table or from an asked node's answer |
| Lookup.FindTwice | internal/dht/lookup.go:48-110 | two lookups of a target on an unchanged table each give the nearest k of what they learned, and with distinct keys learned by either they asked the same nodes and return the same list, whatever the order of answers; the nodes of both come from the table or from answers |
| Lookup.SameOutcome | internal/dht/lookup.go:80-104 | two outcomes on the same table, network and target asked the same nodes and hold the same list as soon as the keys one of them learned are distinct |
| Lookup.TableReference | internal/dht/lookup.go:50-110 | a search on sets alone, which no order of answers enters, exists for every table, network and target |
| Lookup.ReferencesAgree | internal/dht/lookup.go:50-110 | all such searches ask the same nodes once the keys that one of them learns are distinct |
| Lookup.EndsAsReference | internal/dht/lookup.go:63-109 | a finished run has asked exactly whom the reference asks and returns its list, when the keys that the run or the reference learned are distinct |
| Lookup.OrderDoesNotMatter | internal/dht/lookup.go:80-104 | two finished runs, round by round, whose answers arrived in different orders end with the same nodes asked and the same list |
| Lookup.ConvergesOnNetwork | internal/dht/lookup.go:48-110 | if all learned nodes come from a network and one answer holds its k closest, the result is exactly those |
| Lookup.ShortlistImproves | internal/dht/lookup.go:94-104 | a nearest list of a larger pool is nowhere farther and not shorter |
| TokenBucket.ExactAdmission | internal/relay/relay.go:164-180 | a request is granted if and only if, seen from every earlier request, the amount granted since plus its size is within burst and refill |
| TokenBucket.ExactAdmissionPerSecond | internal/portcontrol/scan.go:168-180 | the same at a constant rate: at most burst + rate * (now - s) for every earlier time s |
| TokenBucket.AvailableIsLeastRoom | internal/portcontrol/scan.go:168-180 | the refill loop's token count is exactly the least room left by any earlier point of the run |
| TokenBucket.IntervalBound | internal/relay/relay.go:164-180 | the amount granted in any stretch of a run is within burst and refill of the stretch |
| TokenBucket.FullIsFresh | internal/portcontrol/scan.go:133-137 | a bucket created full at its first request acts as one that was always there |
| TokenBucket.DrawnWithinRate | internal/relay/relay.go:143-145 | any machine metered by one bucket draws within burst and refill in every stretch of every run |
| ScanModel.AnomalyBans | internal/portcontrol/scan.go:121-130 | only an out-of-room probe outside a ban reports an anomaly, and it leaves a bare ban of exactly the configured length |
| ScanModel.BanLastsExactly | internal/portcontrol/scan.go:93-101 | a ban is never extended: probes before its end are dropped without report, later ones are judged as by a fresh scanner |
| ScanRuns.Erasure | internal/portcontrol/scan.go:87-142 | in every run with a monotone clock, erasing same-room probes and other sources changes no remaining disposition |
| ScanRuns.BucketNeverReset | internal/portcontrol/scan.go:98-141 | given a refilling ban, in every run of all sources each source is limited as by one bucket of its own that is never deleted |
| ScanRuns.RecordedWithinRate | internal/portcontrol/scan.go:121-141 | in every run of all sources, recorded probes of one source in any stretch number at most burst plus what is earned, across bucket deletions |
| ScanRuns.WhenBanRefills | internal/portcontrol/scan.go:121-137 | at a constant rate the hypothesis holds if and only if rate times ban length reaches the burst |
| ScanRuns.FloodRecords | internal/portcontrol/scan.go:94-141 | for every threshold of at least two and whole burst, a run that uses the burst, gets banned and uses the burst after the ban has twice the burst recorded |
| ScanRuns.FloodExceeds | internal/portcontrol/scan.go:94-141 | that run breaks the bound for every configuration whose ban earns less than the burst |
| ScanRuns.StaysWithinRateExactly | internal/portcontrol/scan.go:94-141 | the bound holds in every run if and only if rate times ban length reaches the burst |
| ScanRuns.DefaultsFit | internal/portcontrol/scan.go:69-81 | the default configuration meets the hypothesis and is a 60 s window, 100 ports, a 300 s ban, and 10 probes a second with a burst of 20 |
| ScanRuns.BlacklistingMatchesHistory | internal/portcontrol/scan.go:108-130 | in every run of all sources, the blacklistings and reports of a source agree with an unpruned account of its out-of-room probes: exactly when the distinct ports in the trailing window since its last ban reach the threshold, once, with exactly that count |
| ScanRuns.EveryRuling | internal/portcontrol/scan.go:87-142 | in every run of all sources each event gets the verdict computed from the account of its source alone: last ban, unpruned probes since, and the bucket they drained |
| ScanRuns.EveryDisposition | internal/portcontrol/scan.go:87-142 | in every run an event is exempt if and only if it is same-room and no ban runs, blacklisted if and only if a ban runs or its out-of-room ports in the window reach the threshold, recorded if and only if the bucket since the last ban grants it, and reported if and only if it starts a ban, with the threshold |
| Scanner.ProbeBucket.Take | internal/portcontrol/scan.go:168-180 | the first concrete bucket follows the abstract one |
| Scanner.Scanner.constructor | internal/portcontrol/scan.go:69-81 | every source starts clean |
| Scanner.Scanner.Prune | internal/portcontrol/scan.go:115-119 | the deletion loop, in any order, keeps exactly the ports inside the window |
| Scanner.Scanner.Expire | internal/portcontrol/scan.go:94-101 | an unexpired ban is kept, an expired one leaves a clean source |
| Scanner.Scanner.Account | internal/portcontrol/scan.go:108-141 | counts the port, then bans and reports, or asks the bucket |
| Scanner.Scanner.Probe | internal/portcontrol/scan.go:87-142 | one step of the source's machine: disposition, new state and report; every other source is untouched; `ScanRuns.EveryDisposition` says what the dispositions are over a run |
| RelayModel.RootNeverWrites | internal/relay/relay.go:94-150 | in no run does a root hub hold a sink or write a packet |
| RelayModel.QuotaMeters | internal/relay/relay.go:132-150 | over any run the written packets are exactly those one byte bucket grants |
| RelayModel.BytesWithinQuota | internal/relay/relay.go:132-150 | bytes written in any stretch of any run are within burst and refill |
| RelayModel.MasterQuota | internal/relay/relay.go:68-79 | with a quota of q bytes per second: at most q plus q per second of the stretch |
| RelayModel.EveryDelivery | internal/relay/relay.go:132-150 | in every run a packet is refused by a root hub, has no route if and only if no sink was registered for its destination since it was last unregistered, exceeds the quota if and only if it is routed and the quota asked by the routed packets before has no room, and otherwise goes unchanged to the sink registered last |
| RelayModel.QuotaAdmits | internal/relay/relay.go:68-79 | there is a quota exactly for a positive q, and it has room exactly when, seen from every earlier packet, the bytes written since and this packet stay within q plus q per second since |
| RelayModel.EveryRegistration | internal/relay/relay.go:94-112 | an absent sink is refused first, a root hub refuses every other, and unregistering always succeeds |
| Relay.ByteBucket.Take | internal/relay/relay.go:164-180 | the second concrete bucket follows the abstract one |
| Relay.RelayHub.constructor | internal/relay/relay.go:68-79 | an idle hub, with a quota exactly for a positive rate |
| Relay.RelayHub.Register | internal/relay/relay.go:94-105 | one step of the hub machine: absent sink, root refusal or replacement |
| Relay.RelayHub.Unregister | internal/relay/relay.go:108-112 | one step of the hub machine |
| Relay.RelayHub.Deliver | internal/relay/relay.go:132-150 | one step of the hub machine, and only the destination's sink receives the payload, only after the quota agreed |
| Limiter.RequestLimiter.constructor | internal/api/support.go:37-47 | rate and burst with their defaults |
| Limiter.RequestLimiter.Allow | internal/api/support.go:49-66 | the third concrete bucket follows the abstract one |
| PortPrediction.AnalyzePortSequence | internal/stun/predict.go:100-151 | sorts the samples in place into time order, a permutation of the input, and returns the prediction of their ports |
| PortPrediction.Classify | internal/stun/predict.go:117-150 | linear, cyclic or random with next port and window, from the deltas |
| PortPrediction.PredictionIs | internal/stun/predict.go:117-150 | in whole numbers, with n deltas of sum S and step S/n rounded toward zero: linear if and only if the step is not zero and n times the sum of squares less S squared is below the square of n times step, with last + step and two steps around it moved to the nearest ports; else cyclic if and only if at least four deltas repeat with period two, with the first delta; else random with no port |
| PortPrediction.TooFewPorts | internal/stun/predict.go:101-106 | insufficient, with nothing predicted, exactly below two ports |
| PortPrediction.ComputeMean | internal/stun/predict.go:153-162 | the loop computes the mean |
| PortPrediction.ComputeVariance | internal/stun/predict.go:164-174 | the loop computes the mean squared distance |
| PortPrediction.IsCyclic | internal/stun/predict.go:193-204 | true exactly for at least four deltas of period two |
| PortPrediction.WindowCoversMost | internal/stun/predict.go:125-135 | in the linear case strictly more than three quarters of the deltas stay inside the unclamped window |
| PortPrediction.LinearCovers | internal/stun/predict.go:125-135 | the same for any deltas, although the mean is truncated |
| PortPrediction.ClampKeepsValidPorts | internal/stun/predict.go:183-191 | a valid port is in the clamped window if and only if it is in the window, or the window misses 1..65535 and the port is the end clamped to |
| PortPrediction.ReturnedWindowCovers | internal/stun/predict.go:125-135 | in the linear case fewer than a quarter of the deltas lead to a valid port outside the window returned |
| PortPrediction.ConstantIsLinear | internal/stun/predict.go:123-135 | any constant nonzero delta is linear with the exact next port |
| PortPrediction.AlternatingIsClassified | internal/stun/predict.go:123-146 | an even number, at least four, of alternating deltas is linear if and only if both have the same sign, otherwise cyclic with the true next port |
| PortPrediction.CyclicContinuation | internal/stun/predict.go:138-146 | the cyclic prediction is the alternation's own next port if and only if the number of deltas is even or they are equal |
| PortPrediction.OddAlternationMisses | internal/stun/predict.go:138-146 | ports 100, 103, 100, 103, 100, 103 are cyclic and 106 is predicted, where the alternation returns to 100 |
| DnsName.EncodeName | internal/dns/msg.go:184-195 | the loop writes each label behind its length byte, then a zero; the empty name is a zero |
| DnsName.DecodeName | internal/dns/msg.go:70-101 | labels, pointers and all four errors, as the segment semantics says, on every name on which the recursion ends |
| DnsName.SplitOfJoin | internal/dns/msg.go:103-105 | splitting at dots undoes joining when no label holds a dot |
| DnsName.SegmentOfLabels | internal/dns/msg.go:70-101 | written labels are read back as one complete segment, wherever they lie |
| DnsName.DecodeOfEncoded | internal/dns/msg.go:70-101 | decoding inverts encoding for labels of 1 to 63 bytes without dots, at any offset of any packet |
| DnsName.SegmentKinds | internal/dns/msg.go:72-97 | which length bytes end a name, point elsewhere with 14 bits of offset, or are each of the four errors |
| DnsName.CompressedName | internal/dns/msg.go:80-90 | labels before a pointer to where the rest of a name can be read, itself compressed or not, decode to the whole name |
| DnsName.DecodedIsShort | internal/dns/msg.go:70-101 | whatever the packet, a decoded name has at most 63 bytes between dots |
| DnsName.ReadBackIsPrintable | internal/dns/msg.go:70-195 | a name that is read back from its own encoding is empty or has labels of 1 to 63 bytes |
| DnsName.JoinOfSplit | internal/dns/msg.go:103-105 | joining undoes splitting for every name |
| DnsName.MoreFuel | internal/dns/msg.go:70-101 | the number of segments allowed does not influence a decoder that ends |
| DnsName.TerminatesExactly | internal/dns/msg.go:80-90 | the decoder ends if and only if following the pointers never comes back to a segment already read |
| DnsName.EndsExactly | internal/dns/msg.go:80-90 | it ends if and only if following at most 16385 pointers leads to a segment without one |
| DnsName.SelfPointerNeverEnds | internal/dns/msg.go:80-90 | it does not end on a segment that points at itself |
| DnsName.BackwardTerminates | internal/dns/msg.go:80-90 | it ends whenever each pointer leads before the start of the segment that contains it |
| DnsMessage.ParseQuery | internal/dns/msg.go:45-66 | the query or the first applicable of its four kinds of error, on every datagram on whose question name the decoder ends |
| DnsMessage.ParseOfQuery | internal/dns/msg.go:45-66 | a query laid out as in RFC 1035, whatever its other flags, counts and trailing bytes, is received as it is |
| DnsMessage.QueryErrors | internal/dns/msg.go:46-62 | each error exactly for its fault, in the order of the checks |
| DnsMessage.SelfPointingQuestion | internal/dns/msg.go:55-58 | a question name that is a pointer to its own offset is one on which it does not |
| DnsMessage.KeepFamily | internal/dns/msg.go:120-133 | the loop keeps exactly the addresses of the question's family, in order |
| DnsMessage.AnswerIsOfFamily | internal/dns/msg.go:122-132 | an A question takes IPv4 addresses in 4- or 16-byte form as 4 bytes, an AAAA question takes IPv6 addresses, nothing else is taken |
| DnsMessage.AnswersConcat | internal/dns/msg.go:120-133 | the addresses are answered one by one in the order given |
| DnsMessage.AppendRecords | internal/dns/msg.go:157-166 | the loop appends one record per answer, in order |
| DnsMessage.BuildReply | internal/dns/msg.go:113-168 | header, question and records; absent addresses give the name-error code |
| DnsMessage.ReplyIsLaid | internal/dns/msg.go:140-167 | every reply has its header, question and records in their places |
| DnsMessage.HeaderFields | internal/dns/msg.go:140-149 | every header word read back: identifier, flags, one question, the answer count modulo 65536, two zeros |
| DnsMessage.ReplyBytes | internal/dns/msg.go:135-166 | the bytes of flags, counts and records: a response with recursion available, recursion desired as asked, code 3 exactly for absent addresses and else 0, records of class 1 with 60 seconds to live and 4 or 16 bytes of data |
| DnsMessage.ParseOfReply | internal/dns/msg.go:45-168 | parsing a reply gives back the query if and only if the name is empty or all stretches between its dots have 1 to 63 bytes |
| DnsMessage.TrailingDotParses | internal/dns/msg.go:45-101 | a concrete datagram that is received as a query for "a." |
| DnsMessage.TrailingDotIsLost | internal/dns/msg.go:113-195 | no reply to a query for "a." gives it back |
| DnsMessage.PointerDecodes | internal/dns/msg.go:156-158 | each record's back-pointer decodes to the question's name |
| DnsMessage.WalkOfReply | internal/dns/msg.go:113-168 | for such a name, reading as many records as the header counts recovers the addresses of the question's family in order, under the question's name: all of them below 65536, otherwise the first ones, as many as their number modulo 65536 |
| Stun.ParseBindingResponse | internal/stun/client.go:129-189 | the address, or the first applicable of seven errors, for every message in which the 16-bit end of the body does not wrap |
| Stun.HeaderErrors | internal/stun/client.go:130-153 | each of the six header errors exactly for its fault, told from the bytes of the message |
| Stun.SmallestResponses | internal/stun/client.go:129-189 | a response of one attribute, byte for byte: 0x0020 is read as XOR-MAPPED-ADDRESS, 0x0001 as MAPPED-ADDRESS, an undecodable one as no address |
| Stun.WalkAttributes | internal/stun/client.go:156-188 | the attribute loop terminates and computes the walk |
| Stun.WalkIsPreferred | internal/stun/client.go:156-188 | whatever the body, the walk returns the first decodable XOR-MAPPED-ADDRESS of its complete attributes, else the last decodable MAPPED-ADDRESS |
| Stun.AttributesOfSerialized | internal/stun/client.go:158-183 | reading attributes inverts writing them with 4-byte padding, up to a tail too short for another one |
| Stun.ParseOfResponse | internal/stun/client.go:126-189 | a success response with our identifier is read as its preferred address, or as an error if it has none |
| Stun.OnlyOurResponses | internal/stun/client.go:129-154 | an address comes only from a success response with the cookie and our identifier, and is the preferred one of its body |
| Stun.Xor4RoundTrip | internal/stun/client.go:192-207 | an IPv4 address and port encoded as in section 15.2 of RFC 5389, byte by byte with the cookie bytes 21 12 A4 42, decode to themselves |
| Stun.Xor6RoundTrip | internal/stun/client.go:208-218 | an IPv6 address so encoded, with the cookie bytes and the transaction identifier, decodes to itself if and only if the transaction identifier is zero |
| Stun.Xor6Decoded | internal/stun/client.go:208-218 | whatever the identifier, the first four bytes are restored and the last twelve stay mixed with it |
| Stun.MixedBit | internal/stun/client.go:197-206 | an encoded bit differs from the plain one exactly where the cookie has a one |
| Stun.MaskedIsMixed | internal/stun/client.go:197-216 | masking a big-endian word is combining its bytes one by one with those of the mask |
| Stun.CookieWords | internal/stun/client.go:198-206 | the address mask is the cookie and the port mask its high 16 bits |
| Stun.SampleXor4 | internal/stun/client.go:192-207 | 00 01 A1 47 E1 12 A6 43 is 192.0.2.1 port 32853 |
| Stun.MappedRoundTrip | internal/stun/client.go:225-243 | a plain IPv4 or IPv6 address and port decode to themselves |
| Stun.AddressErrors | internal/stun/client.go:192-243 | both decoders refuse exactly values too short for their family and families other than 1 and 2 |
| Frames.ReadFrame | internal/tunnel/tunnel.go:95-140 | one read of an intact frame consumes exactly that frame and returns its text or drops it |
| Frames.ReadStream | internal/tunnel/tunnel.go:95-179 | reading any sequence of intact frames keeps the stream aligned |
| Frames.ReadIsMaxima | internal/tunnel/tunnel.go:222-262 | the texts returned are those at successive new maxima if and only if no frame is a window or more behind |
| Frames.BehindIsReadAgain | internal/tunnel/tunnel.go:222-262 | for every window size, three frames of which the last is behind and is returned a second time |
| Frames.ReadsNewMaxima | internal/tunnel/tunnel.go:95-262 | frames reordered or repeated but never a window or more behind are read as exactly the texts at successive new maxima, with the stream aligned |
| Frames.InOrderDelivery | internal/tunnel/tunnel.go:95-179 | delivered in order, every written packet is returned once, in order |
| Frames.FrameLayout | internal/tunnel/tunnel.go:155-172 | a frame is eight bytes of number, two of length, and the text sealed under the number followed by four zero bytes, with those eight bytes as additional data |
| Frames.NonceLayout | internal/tunnel/tunnel.go:158-162 | a nonce is the number in eight bytes, most significant first, and four zeros |
| Frames.NoncesDiffer | internal/tunnel/tunnel.go:155-166 | no two frames of a sender share a nonce before its counter wraps |
| Frames.ShortHeader | internal/tunnel/tunnel.go:103-107 | a stream that ends inside a header is used up |
| Frames.OversizedFrame | internal/tunnel/tunnel.go:108-112 | a frame announced as longer than mtu and overhead is refused before the window sees its number |
| Frames.OldFrame | internal/tunnel/tunnel.go:114-120 | a number not above the highest and less than a window behind is dropped with its body |
| Frames.NewFrame | internal/tunnel/tunnel.go:114-140 | any other number raises the highest one even if the body is cut short or does not open under its own header |
| Tunnels.ReplayWindow.constructor | internal/tunnel/tunnel.go:211-219 | an empty window of the given or the default size |
| Tunnels.ReplayWindow.Shift | internal/tunnel/tunnel.go:245-252 | the downward in-place loop moves the bitmap up by whole words |
| Tunnels.ReplayWindow.Allow | internal/tunnel/tunnel.go:222-262 | the answer, the new highest number and the new bitmap |
| Tunnels.MapBits | internal/tunnel/tunnel.go:222-262 | the new bitmap bit by bit: the bit of the distance for a number inside the window, bit zero for any other, after the bits were moved by whole words of 64 or, a window or more ahead, forgotten |
| Tunnels.Tunnel.constructor | internal/tunnel/tunnel.go:60-71 | an open tunnel with defaults for the MTU and the window |
| Tunnels.Tunnel.Read | internal/tunnel/tunnel.go:95-140 | one step of the frame stream: length, error, caller's buffer, rest of the stream and window |
| Tunnels.Tunnel.Write | internal/tunnel/tunnel.go:143-179 | one frame with the next number, or an error; the number is spent even if sending fails |
| Tunnels.WriteAll | internal/tunnel/tunnel.go:143-179 | successive writes put exactly the frames of the packets on the wire, numbered onward |
| Tunnels.ReadAll | internal/tunnel/tunnel.go:95-140 | successive reads are successive steps of the frame stream and return their texts as far as the buffer holds them |
| Tunnels.Transfer | internal/tunnel/tunnel.go:95-179 | packets written into one tunnel and delivered in order are read from the other once each, in order, given mtu + overhead of at most 65535 and a buffer of at least the mtu |
| Sorting.StableSort | internal/holepunch/priority.go:30-41 | sorted, a permutation, and ties in input order |
| Sorting.StableUnique | internal/holepunch/priority.go:30-41 | a stable arrangement is unique |
| PeerPriority.NotAfterCompares | internal/holepunch/priority.go:30-41 | the three-level comparison is total and transitive, so it may be sorted by |
| PeerPriority.RankOrder | internal/holepunch/priority.go:30-68 | in rank order the first of two peers is in a nonempty current room if the second is; if the room does not tell them apart it joined earlier, or at the same time with an identifier that is a prefix of the other or smaller at the first differing byte |
| PeerPriority.SelectPeers | internal/holepunch/priority.go:26-59 | the rank order cut as the cap says |
| PeerPriority.PartitionByRoom | internal/holepunch/priority.go:78-87 | the two halves in rank order, same-room peers in one and the others in the other |
| PeerPriority.SelectionIsPartition | internal/holepunch/priority.go:26-87 | a selection is the same-room half followed by the other half, cut at a positive cap |
| PeerPriority.HalvesAreComplete | internal/holepunch/priority.go:78-87 | each half holds exactly its candidates, as often as they were given |
| PeerPriority.SelectionIgnoresOrder | internal/holepunch/priority.go:9-59 | when identifiers tell the candidates apart, every permutation of the input gives the same selection |
| Reselect.DelayLocked | internal/bootstrap/reselect.go:53-71 | the early-exit loop computes, for a factor of at least one, the whole nanoseconds of min(max, base * factor^(attempt-1)) plus the draw, and before the first attempt the draw alone, no draw without jitter |
| Reselect.GrownIsPower | internal/bootstrap/reselect.go:60-66 | for a factor of at least one the delay before jitter is min(max, base * factor^(attempt-1)) |
| Reselect.GrownIsPowerExactly | internal/bootstrap/reselect.go:60-66 | for any positive factor, if and only if the factor is at least one, the base is below the cap, or the power reaches the cap |
| Reselect.GrownIsMonotone | internal/bootstrap/reselect.go:60-66 | one more failure never shortens the delay before jitter, which never exceeds the cap |
| Reselect.DelayIsBounded | internal/bootstrap/reselect.go:53-71 | the first delay is below the jitter, later ones below cap plus jitter |
| Reselect.DelayIsPower | internal/bootstrap/reselect.go:53-71 | the same of the delay function, without its loop |
| Reselect.DelayIsMonotone | internal/bootstrap/reselect.go:53-71 | with the same draw a later attempt never has a shorter delay |
| Reselect.DefaultDelays | internal/bootstrap/reselect.go:28-71 | with the design timing the delays are 0, 1, 2, 4, 8, 16, 32 and from then on 60 seconds, each plus its draw |
| Reselect.NewBackoff | internal/bootstrap/reselect.go:35-43 | base and cap become positive, and only non-positive ones change, to one second and one minute; jitter and factor are kept |
| Reselect.Picker.Default | internal/bootstrap/reselect.go:30-91 | starts at the first candidate with 5 s of jitter, 1 s base, factor 2 and a cap of 60 s |
| Reselect.Picker.constructor | internal/bootstrap/reselect.go:93-99 | starts at the first candidate with a given backoff |
| Reselect.Picker.OnFailure | internal/bootstrap/reselect.go:118-138 | moves to the candidate after the first match, wrapping around, and returns the delay for the failures before, which is the one the timing asks for |
| Reselect.NextServerIs | internal/bootstrap/reselect.go:125-138 | the candidate after the first place of the current server, cyclically; the second one for a server not listed; none for an empty list |
| Reselect.Picker.OnSuccess | internal/bootstrap/reselect.go:110-114 | resets the failure count and keeps the server |
| Reselect.RunSelects | internal/bootstrap/reselect.go:110-138 | over distinct candidates, any run with f failures moves the selection from index i to (i + f) mod n |
| Reselect.CountsSinceSuccess | internal/bootstrap/reselect.go:110-138 | the failure count is the number of failures since the last success |
| Reselect.VisitsOnce | internal/bootstrap/reselect.go:118-138 | within n consecutive failures every server is selected exactly once |

## Left out

- Sockets, TLS, HTTP handlers, TUN devices, iptables, service installers, configuration and the command line: input and output around the modelled code.
- Noise, Ed25519, SHA-256, bcrypt and JWT: foreign libraries; a hash and a cipher appear as abstract functions.
- The SQL store, migrations, room pagination, router counters, the peer and server tables and MTU sums: stored records and sums that the modelled code does not use.
- The port controller's double index and its persistence: the two maps agree only if callers never reuse a live port.
- Hole-punch execution, KCP, gossip and the failure monitor: network calls or placeholders.
- Key text forms (`String`, `ParseKey`), `BlacklistSecondsLeft`, `Hub.Peers`, `ShouldAttemptOutOfRoom` and the tunnel manager: accessors that the modelled operations do not call.
- `BuildServFail`: it writes a question count of zero, so parsing does not invert it.
- `buildBindingRequest` and its CRC: the request is sent, never parsed here.
- Aliasing of nodes: a `Node` is a value, so that a caller who keeps a reference to a stored node and changes it is not modelled.
- Rounding of `float64` and nanosecond truncation of times: arithmetic is exact.
- Table.RoutingTable.Nearest: does not fix the order of equally distant nodes, because `sort.Slice` does not; with distinct keys there are none.
- Lookup.Lookup.Find: that the nodes asked are those of the reference search is stated for pairwise distinct keys, because equally distant nodes may be ordered either way; the remaining guarantees hold without it.
- PortPrediction.AnalyzePortSequence: does not fix the order of samples with equal timestamps, because `sort.Slice` does not.
- DnsName.DecodeName: requires that the pointer chain ends within 16385 segments, because on every other name the source recursion does not return; `DnsName.EndsExactly` says that the bound excludes nothing else, and `DnsName.SelfPointerNeverEnds` gives such names.
- DnsMessage.ParseQuery: the same for the question name of a datagram; `DnsMessage.SelfPointingQuestion` gives one.
- Stun.ParseBindingResponse: requires that the end of the body, which the source computes in 16 bits, does not wrap around in a message long enough to hold it, because slicing then fails; it takes a message of more than 65535 bytes, and the only caller passes at most 1500.
- Frames.ReadsNewMaxima: keeps the hypothesis that no frame is a window or more behind, without which it is false (`Frames.ReadIsMaxima`, `Frames.BehindIsReadAgain`); numbers further behind are covered by `Frames.ReadStream`.
- PortPrediction.ReturnedWindowCovers: the quarter is one of all deltas, not of those that lead to a valid port, of which there may be a single one.
- Tunnels.Connection.Send: how many bytes a failing connection takes is a parameter.
