# ingress.local core, modelled in Dafny

This project models the change-driven core of the ingress.local Kubernetes
load-balancer front end, and proves properties of that model.

- **Ingress watcher** (`lib/publisher.go`). Add, update and delete events on
  Ingresses and Endpoints put object keys on a work queue. A worker takes
  each key and rebuilds a routing **Snapshot**. The rebuild lists every
  Ingress. Each rule's backend resolves to `ip:port` endpoints, by port
  number or by port name. Each rule also gets the TLS files of its host.
  The Ingress whose key triggered the rebuild supplies the `Delta`. Any
  secret error aborts the whole rebuild, and nothing is sent.
- **Work queue.** This is the contract of Kubernetes' `workqueue`: it
  de-duplicates with "dirty" and "processing" sets. That library is not
  part of this model. Its rules are stated as an explicit model in
  `workqueue.dfy`.
- **Publish hub** (`lib/pubsub.go`). A relay hands snapshots from the
  publisher to one subscriber. It drops the oldest buffered value to make
  room for the newest, and closes its output when its input ends.
- **Receivers** (`lib/receivers.go`):
  - the `Ingress.receivers` annotation;
  - turning each receiver's secret into `<sslDir>/<base>.crt` and
    `<sslDir>/<base>.key` files (`LoadSecrets`);
  - the upsert-by-host merge of `Update`.
- **HTTP/2 server sketch** (`http2/server/server.go`):
  - the 9-byte frame header of section 4.1 of RFC 7540;
  - the `Flags.Has` bitmask test;
  - the debug rendering of frame types and headers.
- **HTTP/2 client sketch** (`http2/client/transport.go`):
  - scheme dispatch and the default port;
  - the peer's `SETTINGS_MAX_FRAME_SIZE`;
  - cutting an encoded header block into one HEADERS frame and then
    CONTINUATION frames (sections 6.2, 6.10 and 6.5.2 of RFC 7540);
  - the sticky-error writer and the checks RoundTrip makes after each
    flush.

Each Go file becomes one module: `Publisher`, `PubSub`, `Receivers`,
`Http2Server` and `Http2Client`. Three modules support them: `WorkQueue`
(the queue contract), `Text` (decimal and hex formatting, `strings.Split`
and joining) and `Wrappers` (`Option`, `Result`).

The code is modelled in the form it takes in Go:
- Loops that build slices become methods with loop invariants, each proved
  equal to a specification function. Examples are `GetEndpoints`,
  `BuildBlock`, `Publish`, `ScanSecret`, `LoadSecrets`, `MergeReceiver`,
  `FlagListText` and `SendHeaderBlock`.
- State that is changed in place becomes a class:
  - `IngressWatcher`, holding the queue and what was published;
  - `WorkQueue.Queue`;
  - `PubSubHub`, the relay's buffer;
  - `ClientConn`, holding `maxFrameSize` and `werr`.
- Pure lookups and constructors become functions.

Where the behaviour depends on the environment, the model takes the
environment as a parameter:
- the order in which a Go map is iterated (secret data keys, the Ingress
  store);
- what exists in the filesystem;
- the JSON codec;
- the endpoints and secrets stores;
- the result of `net.SplitHostPort`;
- what a connection write returns.

Three facts of the code shape the model:
- **Events from both informers.** The same event handlers are registered
  on both informers (`lib/publisher.go:214-234`). Endpoints events
  therefore enqueue keys too, not only Ingress events.
- **Output buffer of the hub.** The hub's output is a Go channel. Its
  capacity is a parameter of the model. `StartHub` creates it without a
  buffer (see Findings).
- **Re-adding a failed key.** The comment at `lib/publisher.go:129-131`
  says a failed rebuild should simply be requeued. The worker re-adds the
  key without calling `Done`, and under the queue's contract that key is
  never handed out again (see Findings).

## Model

| member | source | states |
|---|---|---|
| Publisher.TargetPort | lib/publisher.go:75-88 | the target port is non-zero exactly when the endpoint port matches the service port (by number for an int port, by name for a string port) and is itself non-zero, and then it is that port |
| Publisher.AddressesAtMember | lib/publisher.go:86-91 | one endpoint port yields `ip:port` for an address exactly when the port matches and is not 0 |
| Publisher.PortEndpointsMember | lib/publisher.go:74-92 | a subset yields an endpoint exactly when one of its ports serves it |
| Publisher.EndpointsOfSubsets | lib/publisher.go:73-93 | the endpoints of all subsets are the union of the endpoints of each subset |
| Publisher.EndpointsOfMember | lib/publisher.go:73-93 | getEndpoints yields `e` exactly when some subset has a port that matches, is not 0, and has an address giving `e` |
| Publisher.GetEndpoints | lib/publisher.go:64-95 | the nested loops emit subset by subset, port by port, address by address; a failed lookup yields the empty list |
| Publisher.AppendAddresses | lib/publisher.go:89-91 | the address loop appends one `ip:port` per address, in order |
| Publisher.AppendPort | lib/publisher.go:75-91 | a port that does not match, or whose value is 0, appends nothing; otherwise its addresses at that port |
| Publisher.AppendSubset | lib/publisher.go:74-92 | the port loop appends each port's addresses in port order |
| Publisher.LBService | lib/publisher.go:98-113 | the service always has port 443, takes host, path and endpoints as given, takes Key/Crt from the receiver secrets, and names the backend `<name>.<namespace>.svc.cluster.local` |
| Publisher.ClusterDNSNameSplits | lib/publisher.go:99 | the cluster DNS name is `<name>.<namespace>.svc.cluster.local`: for dot-free names it splits back into exactly those five labels |
| Publisher.MetaKeySplits | lib/publisher.go:48 | the object key of a namespaced object splits at '/' back into namespace and name |
| Publisher.EnqueuedKeySpec | lib/publisher.go:205-222 | add and delete events always enqueue the object's key; an update enqueues the new object's key exactly when old and new differ |
| Publisher.PathServicesShape | lib/publisher.go:138-143 | one service per path in declaration order, with the rule's host, the path's path, port 443 and the host's TLS files (empty when the host has none) |
| Publisher.RuleServicesShape | lib/publisher.go:137-144 | the rules yield one service per (rule, path), in order: path j of rule i is at position j after the paths of the rules before it, and is that path's service, with rule i's host and path j's path. Each is on port 443 and has its host's loaded TLS files or none. A rule without HTTP yields nothing |
| Publisher.RuleServicesAt | lib/publisher.go:137-144 | path j of rule i is served at position j after the paths of the rules before it, with that rule's host and that path |
| Publisher.BlockShape | lib/publisher.go:136-151 | an Ingress's block is its rule services followed, when a default backend is set, by one service with empty host, path and TLS files |
| Publisher.BuildPaths | lib/publisher.go:138-143 | the path loop builds exactly the specified services of one rule |
| Publisher.BuildBlock | lib/publisher.go:136-151 | the rule loop, skipping rules without HTTP, and the default backend build exactly the Ingress's block |
| Publisher.PublishOk | lib/publisher.go:126-161 | publish succeeds exactly when every Ingress's secrets load, whatever rules lack HTTP, and then Services is the concatenation of the blocks in listing order |
| Publisher.PublishAsWrittenAgrees | lib/publisher.go:126-161 | when publish as written finishes, its result is that of publish skipping rules without HTTP, and on success every rule had HTTP |
| Publisher.PublishAsWrittenPanics | lib/publisher.go:132-138 | publish as written dereferences a nil HTTP part exactly when it reaches an Ingress with a rule without HTTP: the secrets of it and of every Ingress before it load, and no Ingress before it has such a rule |
| Publisher.PanicsAtLast | lib/publisher.go:128-138 | once the Ingresses before the last are rebuilt without a panic, the last one panics exactly when its secrets load and it has a rule without HTTP |
| Publisher.RuleWithoutHTTPPanics | lib/publisher.go:137-138 | one Ingress naming no receivers, with one rule without HTTP: publish as written dereferences nil, and publish skipping the rule sends an empty snapshot |
| Publisher.PublishOkIff | lib/publisher.go:132-135 | a rebuild succeeds exactly when every listed Ingress is publishable |
| Publisher.PublishServices | lib/publisher.go:127-157 | on success, Services is the concatenation of the per-Ingress blocks in listing order |
| Publisher.PublishStops | lib/publisher.go:132-135 | once one Ingress's secrets fail, the later Ingresses change nothing: the first error is the result |
| Publisher.PublishDeltaEmpty | lib/publisher.go:152-156 | Delta is empty when no listed Ingress has the trigger key, as after a deletion |
| Publisher.PublishDeltaIsBlock | lib/publisher.go:152-156 | otherwise Delta is the block of the last listed Ingress with the trigger key |
| Publisher.PublishDeltaSegment | lib/publisher.go:152-157 | Delta is always a contiguous run of Services |
| Publisher.ServicesAppend | lib/publisher.go:157 | the Services of two listings put together are the two Services put together |
| Publisher.ServicesRemove | lib/publisher.go:157 | taking one Ingress out of a listing takes exactly its block out of the multiset of Services |
| Publisher.ServicesPermuted | lib/publisher.go:126-157 | listings that are permutations of each other give Services that are permutations of each other |
| Publisher.PublishOrderIndependent | lib/publisher.go:126-157 | whatever order the store lists Ingresses in, publish succeeds or fails alike, and Services holds the same services |
| Publisher.List | lib/publisher.go:258-263 | List appends the stored Ingresses in the order the store enumerates them |
| Publisher.ListingsPermute | lib/publisher.go:258-263 | any two enumerations of the store list the same Ingresses, each exactly once, only in another order |
| Publisher.WorkerKeepsConsistent | lib/publisher.go:164-176 | a worker pass, as written or corrected, keeps the queue's invariant |
| Publisher.StrandedForever | lib/publisher.go:169-171 | a key that is both processing and dirty stays so, is never queued again, and is never taken again, whatever is enqueued and however many passes follow |
| Publisher.FailedPublishStrandsKey | lib/publisher.go:169-171 | as written, a key enqueued once whose publish fails is never taken again |
| Publisher.CorrectedWorkerRetries | lib/publisher.go:169-174 | with Done after the re-add, a failed key stops processing and is queued again behind the others; on success both workers agree |
| Publisher.IngressWatcher.constructor | lib/publisher.go:198-203 | a new watcher has an empty queue and has published nothing |
| Publisher.IngressWatcher.Publish | lib/publisher.go:125-161 | sends exactly one snapshot, the specified one, when all secrets load; otherwise it returns the first error and sends nothing; rules without HTTP are skipped |
| Publisher.IngressWatcher.Handle | lib/publisher.go:205-222 | the event handlers change the queue exactly as `Add` of the enqueued key does, and not at all when no key is enqueued |
| Publisher.IngressWatcher.WorkerPassAsWritten | lib/publisher.go:164-176 | one worker pass as written: takes the oldest key, publishes, and calls Add on failure or Done on success |
| Publisher.IngressWatcher.WorkerPass | lib/publisher.go:164-176 | one pass of the corrected worker: after a failed publish it calls Add and then Done |
| WorkQueue.AddedSpec | lib/publisher.go:212 | Add keeps the queue consistent; the key becomes dirty, and it is queued exactly when it is not processing |
| WorkQueue.AddedIdempotent | lib/publisher.go:212 | adding a key twice is the same as adding it once |
| WorkQueue.TakenSpec | lib/publisher.go:166 | Get hands out the oldest queued key, which then is processing and neither dirty nor queued; the rest of the queue keeps its order |
| WorkQueue.FinishedSpec | lib/publisher.go:173 | Done on a processing key ends its processing and queues it again exactly when it was added meanwhile |
| WorkQueue.Queue.constructor | lib/publisher.go:201 | a new queue is empty and consistent |
| WorkQueue.Queue.Add | lib/publisher.go:212 | Add changes the queue as the contract's Add does |
| WorkQueue.Queue.Get | lib/publisher.go:166 | Get changes the queue as the contract's Get does |
| WorkQueue.Queue.Done | lib/publisher.go:173 | Done changes the queue as the contract's Done does |
| PubSub.Offer | lib/pubsub.go:82-86 | with a buffer, the value is always sent and ends up last. Nothing is dropped exactly when there was room. Otherwise exactly the oldest value is dropped. Without a buffer, the relay hands over only to a waiting subscriber and otherwise blocks |
| PubSub.Newest | lib/pubsub.go:63-67 | the ring keeps the newest values published: all of them while they fit, otherwise exactly the last `cap` |
| PubSub.OfferKeepsNewest | lib/pubsub.go:82-86 | a buffered offer keeps exactly the newest `cap` values published |
| PubSub.Step | lib/pubsub.go:80-87 | each publish, receive or end of input keeps occupancy within capacity |
| PubSub.PubSubHub.constructor | lib/pubsub.go:74-76 | a new hub has an empty, open buffer of the given capacity |
| PubSub.PubSubHub.Relay | lib/pubsub.go:82-86 | one relay turn changes the buffer as an offer does |
| PubSub.PubSubHub.Run | lib/pubsub.go:79-90 | Run relays every input value and then closes the output; the newest `capacity` values remain |
| PubSub.PubSubHub.Receive | lib/pubsub.go:63-67 | a receive takes the oldest buffered value; once the hub is closed and its buffer empty, it gives end of stream |
| PubSub.ReplayWitness | lib/pubsub.go:80-87 | over any interleaving, what was received followed by what is buffered is a subsequence of what was published |
| PubSub.ReceivedInOrder | lib/pubsub.go:80-87 | the values received are a subsequence of the values published, in publication order |
| PubSub.LatestWins | lib/pubsub.go:82-86 | with capacity 1, publishing v1, v2, v3 and then receiving yields only v3 and leaves nothing buffered |
| PubSub.ReceiveBetweenKeepsBoth | lib/pubsub.go:82-86 | with capacity 1, publish v1, receive, publish v2, receive yields v1 then v2 |
| PubSub.DrainAfterClose | lib/pubsub.go:79-89 | after the input ends, every buffered value is still received, in order, and the hub stays closed |
| PubSub.ReceivedInTurn | lib/pubsub.go:63-67 | n receives take the first n buffered values in order and change nothing else |
| PubSub.UnbufferedHubBlocks | lib/pubsub.go:96-100 | with the unbuffered channel StartHub makes, a value published while the subscriber is busy blocks the relay for good |
| PubSub.BufferedHubNeverBlocks | lib/pubsub.go:82-86 | with a buffer of one or more and no receive between the select and the drain, an offer never blocks, whether or not the subscriber is waiting |
| PubSub.SelectDrainRace | lib/pubsub.go:82-86 | when the select finds the buffer full and the subscriber then takes values before the drain, the drain as written waits for good exactly when the subscriber took them all |
| PubSub.NonBlockingDrainSends | lib/pubsub.go:82-86 | with a drain that does not wait, the send after it always finds room, however many values the subscriber took; the new value is last, after only values not yet taken |
| Receivers.GetReceivers | lib/receivers.go:46-49 | the receivers annotation is returned exactly when the `Ingress.receivers` key is present |
| Receivers.SplitTwo | lib/receivers.go:89-93 | splitting at '.' gives exactly [base, ext] when the key is `base.ext` with a dot-free base |
| Receivers.ClassifyKeyIff | lib/receivers.go:89-101 | a data key counts as a certificate exactly when it is `<base>.crt`, and as a key exactly when it is `<base>.key`, with no other dot; every other key is ignored |
| Receivers.SecretPath | lib/receivers.go:94 | a derived path is never empty, so a recorded path counts as present |
| Receivers.SecretPathNamesKey | lib/receivers.go:89-101 | the file written for a certificate or key data key is named after that key, in the receiver's SSL directory |
| Receivers.ScanKeysCrt | lib/receivers.go:88-101 | without a failed write, CrtPath is empty exactly when no data key is a certificate; otherwise it is `<sslDir>/<base>.crt` of the last certificate key visited |
| Receivers.ScanKeysKey | lib/receivers.go:88-101 | likewise KeyPath and the last private-key data key visited |
| Receivers.ScanResult | lib/receivers.go:85-112 | a successful scan carries the receiver's host and port and two non-empty paths |
| Receivers.ScanResultOk | lib/receivers.go:88-112 | a secret yields its paths exactly when it has both a certificate key and a private key and no file write failed |
| Receivers.ScanSecret | lib/receivers.go:85-112 | the scan loop computes exactly the specified outcome; a path is recorded even when the file already exists |
| Receivers.ScanStops | lib/receivers.go:106-108 | once a write fails, later data keys change nothing |
| Receivers.LoadAllOk | lib/receivers.go:77-114 | LoadSecrets succeeds exactly when every receiver does, so any per-receiver failure aborts the call |
| Receivers.LoadAllHosts | lib/receivers.go:110-113 | on success the map holds exactly the receivers' hosts, each entry with its own host and both paths non-empty |
| Receivers.LoadAllLastWins | lib/receivers.go:113 | a later receiver with the same host overwrites an earlier one |
| Receivers.LoadAllStops | lib/receivers.go:77-84 | once a receiver fails, the later receivers change nothing |
| Receivers.NoReceiversNoSecrets | lib/receivers.go:68-75 | without a receivers annotation the result is an empty map and no error |
| Receivers.LoadReceiver | lib/receivers.go:77-113 | the per-receiver loop body computes the specified outcome: directory, secret lookup, scan |
| Receivers.LoadSecrets | lib/receivers.go:67-116 | LoadSecrets computes exactly the specified decode, load-all and last-host-wins map |
| Receivers.UpsertedSpec | lib/receivers.go:149-158 | when rec's host is present, every receiver of that host is replaced by rec in place and the length is kept; otherwise rec is appended at the end; other entries are unchanged and in place |
| Receivers.UpsertedIdempotent | lib/receivers.go:149-158 | merging the same receiver twice gives the same list as merging it once |
| Receivers.MergeReceiver | lib/receivers.go:149-158 | the in-place loop with its newReceiver flag computes exactly the upsert |
| Receivers.UpdateWritesBack | lib/receivers.go:143-163 | Update fails exactly when the receivers annotation is present and does not decode; otherwise the receivers annotation holds the encoded merge of the decoded list (empty when absent), and every other annotation is unchanged |
| Receivers.Update | lib/receivers.go:133-168 | Update decodes (none when absent or when the Ingress has no annotations), merges and writes back under the same key, making the map when there is none; a decode failure is an error |
| Receivers.UpdateNilAnnotationsPanics | lib/receivers.go:163 | Update as written writes to a nil map exactly when the fetched Ingress has no annotations, and otherwise agrees with Update; on such an Ingress Update stores the one-receiver list |
| Http2Server.HasBits | http2/server/server.go:16-17 | `f & v == v` holds exactly when every bit of v is set in f |
| Http2Server.Has | http2/server/server.go:15-18 | Has(v) holds exactly when every bit of v is set in f, so Has(0) always holds |
| Http2Server.BitIsShift | http2/server/server.go:112 | the bit tested in round i is `1 << i`, of value 2 to the i |
| Http2Server.FrameTypeString | http2/server/server.go:61-66 | the ten standard types give their registered names, every other type `UNKNOWN frame type: N` |
| Http2Server.TypeNameInjective | http2/server/server.go:22-33 | distinct type numbers are rendered differently |
| Http2Server.FrameTypeStringInjective | http2/server/server.go:61-66 | distinct frame types always give distinct texts |
| Http2Server.ReadFrameHeader | http2/server/server.go:90-101 | when the reader delivers fewer than 9 bytes, the result is the zero header and an error: the reader's own error when it failed, otherwise EOF exactly when nothing was read and UnexpectedEOF after a partial header. Nine bytes give no error, whatever follows them. Type and Flags are bytes 3 and 4. Length < 2^24 and StreamID < 2^31 |
| Http2Server.DecodeEncode | http2/server/server.go:95-100 | reading the section 4.1 encoding of any encodable header gives that header back with no error, whatever follows it and however the reader ends |
| Http2Server.EncodeDecode | http2/server/server.go:95-100 | any nine bytes decode to a header that re-encodes to the same bytes, except the reserved bit, which reading drops |
| Http2Server.FrameHeaderString | http2/server/server.go:104-132 | String renders the type, the flag list only when Flags is not 0, the stream only when StreamID is not 0, and the length |
| Http2Server.FlagListText | http2/server/server.go:108-126 | the bit loop yields the items of the set bits in ascending order, separated by a bar from the second one on |
| Http2Server.FlagListSnoc | http2/server/server.go:115-124 | a set bit adds a bar separator when an item precedes it, then its registered name or its value in hex |
| Http2Server.FlagItemsMatchSetBits | http2/server/server.go:111-125 | a non-zero flag byte yields at least one item; the items are those of the set bits, each once, in ascending order |
| Http2Server.SetBitsAscending | http2/server/server.go:111-114 | the bits visited are set bits, in strictly ascending order |
| Http2Server.HeadersExample | http2/server/server.go:103-132 | a HEADERS frame on stream 1 with flags 0x7 and length 17 renders as the type name `headers`, the items END_STREAM, 0x2 and END_HEADERS joined by bars, `stream=1` and `len=17`, as in the doc comment |
| Http2Client.RouteRequest | http2/client/transport.go:56-74 | a non-https request goes to the fallback, or fails with "Unsupported scheme and no fallback." when there is none. An https request is dialled at the split host and port joined by ':', with that host as server name; a host without a port is dialled on 443 with the whole host as server name |
| Http2Client.DialAddressSplits | http2/client/transport.go:65-74 | the dialled address is the server name and the port joined by ':' |
| Http2Client.NextStreamID | http2/client/transport.go:192-194 | the one request goes on stream 1, a non-zero odd number, as client-opened streams must have (section 5.1.1 of RFC 7540) |
| Http2Client.FrameSizeUnchanged | http2/client/transport.go:121-127 | without a MAX_FRAME_SIZE setting, maxFrameSize keeps its value, as written and corrected |
| Http2Client.FrameSizeAfterIsLast | http2/client/transport.go:121-127 | with MAX_FRAME_SIZE settings, maxFrameSize is the value of the last one (the last non-zero one, corrected) |
| Http2Client.FrameSizeStaysPositive | http2/client/transport.go:121-127 | corrected, a non-zero maxFrameSize stays non-zero whatever settings the peer sends |
| Http2Client.PeerMaxFrameSize | http2/client/transport.go:95-130 | maxFrameSize after the peer's first frame: as written 0 unless the frame is SETTINGS with MAX_FRAME_SIZE; corrected, never 0, and 16384 (section 6.5.2 of RFC 7540) after any other frame |
| Http2Client.CutChunk | http2/client/transport.go:138-142 | one pass of the loop splits what remains into a chunk of min(remaining, maxFrameSize) bytes followed by the rest |
| Http2Client.ZeroFrameSizeStalls | http2/client/transport.go:137-142 | as written, a first frame without MAX_FRAME_SIZE leaves maxFrameSize at 0, and a pass over a non-empty header block then cuts an empty chunk and leaves the whole block |
| Http2Client.SettingsWithoutFrameSizeStalls | http2/client/transport.go:114-142 | a first SETTINGS frame announcing only MAX_CONCURRENT_STREAMS = 100: as written the 17-byte block is not shortened; corrected, it goes out in one chunk |
| Http2Client.ClientConn.constructor | http2/client/transport.go:95-97 | a new connection has maxFrameSize 16384, the initial value of section 6.5.2 of RFC 7540, and no recorded error |
| Http2Client.ClientConn.ReadPeerSettings | http2/client/transport.go:114-130 | a SETTINGS frame sets maxFrameSize to its last non-zero MAX_FRAME_SIZE, if any; any other frame changes nothing; a non-zero maxFrameSize stays non-zero |
| Http2Client.SendRequestHeaders | http2/client/transport.go:95-156 | from a new connection, whatever the peer's first frame, the header loop finishes and emits the frames of the block cut at the corrected maxFrameSize |
| Http2Client.Fragments | http2/client/transport.go:137-142 | the loop emits no chunk exactly when the block is empty |
| Http2Client.FragmentsReassemble | http2/client/transport.go:137-142 | the chunks put together are the header block, and each is non-empty and at most maxFrameSize bytes |
| Http2Client.FragmentsCount | http2/client/transport.go:137-142 | a block of L bytes takes ceil(L / maxFrameSize) chunks |
| Http2Client.BlockFrames | http2/client/transport.go:144-155 | one frame per chunk |
| Http2Client.HeaderBlockFraming | http2/client/transport.go:132-156 | the frames' fragments put together are the block, each non-empty and within maxFrameSize. The first frame is HEADERS with END_STREAM and the rest are CONTINUATION. END_HEADERS is on the last frame only. All frames are on the given stream |
| Http2Client.ClientConn.SendHeaderBlock | http2/client/transport.go:132-156 | the chunking loop emits exactly those frames, on stream NextStreamID |
| Http2Client.StickyWriteAsWritten | http2/client/transport.go:46-53 | as written, a write never changes the recorded error; once an error is recorded, the writer returns it without writing |
| Http2Client.StickyWrite | http2/client/transport.go:46-53 | corrected: once an error is recorded, later writes return it without writing; otherwise a write's error is recorded |
| Http2Client.StickyRecordsFirstError | http2/client/transport.go:30-31 | with the correction, the recorded error after a run of writes is the first error the connection returned |
| Http2Client.StickyKeepsError | http2/client/transport.go:47-49 | a recorded error is never replaced, and every later write returns it without touching the connection |
| Http2Client.AsWrittenNeverRecords | http2/client/transport.go:51 | as written, nothing is ever recorded, whatever the connection returns |
| Http2Client.FailedWriteGoesUnnoticed | http2/client/transport.go:46-53 | a write failing with "broken pipe" is recorded by the corrected writer and lost by the writer as written |
| Http2Client.ClientConn.Write | http2/client/transport.go:46-53 | a write through the corrected writer returns and records as StickyWrite says, and leaves maxFrameSize alone |
| Http2Client.SettingsFlushCheckAsWritten | http2/client/transport.go:104-108 | as written, the check after the SETTINGS flush gives up exactly when a write error is recorded, yet reports no error |
| Http2Client.FlushCheckOf | http2/client/transport.go:158-161 | the check after a flush gives up exactly when a write error is recorded, and reports that error |
| Http2Client.SettingsFailureUnreported | http2/client/transport.go:104-108 | a failed SETTINGS write, recorded by the corrected writer, leaves RoundTrip with neither a response nor an error as written, and with the error once corrected |
| Text.Decimal | http2/server/server.go:128-130 | `%d` of a number is a non-empty run of decimal digits, one digit exactly below 10 |
| Text.DecimalRoundTrip | http2/server/server.go:128-130 | the decimal text of a number reads back as that number |
| Text.DecimalInjective | http2/server/server.go:65 | different numbers have different decimal texts |
| Text.IntToString | lib/publisher.go:90 | `%v` of a port has no ':' in it, and is the decimal text of a non-negative port |
| Text.JoinSplit | lib/receivers.go:89 | joining the parts `strings.Split` returns gives back the string |
| Text.SplitJoin | lib/receivers.go:89 | splitting the join of separator-free parts gives back the parts |
| Text.SplitPartsFree | lib/receivers.go:89 | no part `strings.Split` returns holds the separator |

## Left out

- Kubernetes client, informers, list and watch functions and resync (`lib/publisher.go:182-249`): network I/O. The model takes the store contents and the listing order as inputs.
- `reflect.DeepEqual` becomes value equality. `DeletionHandlingMetaNamespaceKeyFunc` becomes the namespace/name key, and its error path (`lib/publisher.go:152-153`, `206-209`) is not modelled, because the key of a live object cannot fail.
- `workqueue`: that library is not part of this model. `WorkQueue` states its de-duplication and processing contract as a model of the library, not a proof about its code. `Get` waiting on an empty queue is modelled as `None`.
- Publisher.IngressWatcher.WorkerPassAsWritten: the endless `for` loop of `worker` is modelled as one pass, and a run of passes as `RunAsWritten`. The retry goroutine `util.Until` and the stop channel are not modelled.
- WorkQueue.Queue.Done: requires the key to be processing, which is how the worker uses it. The library's behaviour for any other key is not modelled.
- PubSub.PubSubHub.Run: models `PubSub.Run` with no receive between relays. Interleaved receives are modelled by `Step`/`Replay`. Channel blocking and goroutines are not modelled; the race between the `select` and the drain (`lib/pubsub.go:82-86`) is stated on its own by `SelectDrainRace` (see Findings).
- PubSub.BufferedHubNeverBlocks: `Offer` takes the `select` and the drain as one step. A subscriber receive between them is not covered by it; `SelectDrainRace` shows that the blocking drain then waits for good when the receive emptied the buffer, and `NonBlockingDrainSends` shows the corrected drain always lets the send through.
- `StartHub` and `startPublisher` (`lib/pubsub.go:96-126`): goroutine start-up, apart from the channel capacity (see Findings).
- JSON `Unmarshal`/`Marshal` (`lib/receivers.go:72, 145, 159`) are the `decode`/`encode` parameters. `Marshal` failing is not modelled.
- Secret fetch, `MkdirAll`, `Stat` and `WriteFile` (`lib/receivers.go:78-84, 102-108`) are a `FileSystem` value. File contents are not modelled.
- Receivers.Update: models `Update` with a map made for an Ingress without annotations. As written, the write at `lib/receivers.go:163` goes to a nil map and panics; that is `UpdateAsWritten` (see Findings).
- Publisher.IngressWatcher.Publish: models `publish` skipping rules without an HTTP part. As written, `lib/publisher.go:138` dereferences that nil part once the Ingress's secrets load; that is `PublishAsWritten` (see Findings). The same holds for `WorkerPass` and `WorkerPassAsWritten`, which call `Publish`.
- Receivers.LoadSecrets: on error Go also returns the partially filled map. The model returns only the error, and `publish` discards that map anyway.
- Receivers.ScanKeysCrt: the order of `secret.Data` iteration is the order of the `keys` parameter. Which of two certificate keys wins is stated for that order, not as Go's unspecified order.
- `ReceiverClient.Get` (`lib/receivers.go:119-130`) and the Ingress Get/Update API calls of `Update` (`lib/receivers.go:139-141, 164-166`): API I/O. `Update` is modelled on the fetched Ingress's annotations.
- Http2Server.HeadersExample: the doc comment at `http2/server/server.go:103` shows `HEADERS` and `ox2`. The code writes the registered lower-case name `headers` and `0x2`, and the model follows the code.
- The frame-type and flag constants at `http2/server/server.go:36-56` are unqualified in the Go file. The model uses the values of section 6 of RFC 7540.
- `main` and `check` of `http2/server/server.go`: network listeners.
- TLS dial, handshake, hostname verification, protocol negotiation, the client preface, the framer's byte encoding and reads, and hpack `encodeHeaders`/`writeHeader` (`http2/client/transport.go:70-101, 109-112, 163-190`): library and network code. The header block arrives already encoded, and `SplitHostPort` is the `split` parameter.
- Http2Client.ClientConn.SendHeaderBlock: requires `maxFrameSize > 0` unless the block is empty. As written, `maxFrameSize` is 0 on every new connection and stays 0 unless the peer's first frame is a SETTINGS frame carrying MAX_FRAME_SIZE, which section 6.5.2 of RFC 7540 makes optional; the Go loop then never shortens the block and never ends (`ZeroFrameSizeStalls`, see Findings). The connection modelled here is the corrected one, which starts at 16384 and ignores a zero value, so the requires holds after `ReadPeerSettings` whatever the frame (`SendRequestHeaders`).
- Http2Server.ReadFrameHeader: the caller's buffer is not modelled. Go slices it to nine bytes and panics when its capacity is below nine; the model reads into a buffer of the right size.
- Http2Client.ClientConn.Write: models the corrected writer. The as-written writer is `StickyWriteAsWritten`. The `bufio.Writer` between the framer and this writer is not modelled.

## Findings

| source | as written | input that shows it | evidently intended | confidence | as-written member | corrected member |
|---|---|---|---|---|---|---|
| http2/client/transport.go:137-142 | `maxFrameSize` starts at 0 and is set only by a MAX_FRAME_SIZE entry in the peer's first frame; with 0 the loop cuts `hdrs[:0]` and never shortens the block, which always holds :method, :scheme and :path (lines 175-178) | a peer whose first SETTINGS frame announces only MAX_CONCURRENT_STREAMS = 100: the loop writes empty CONTINUATION frames for ever | start at the initial 16384 of section 6.5.2 of RFC 7540 and never take a zero value, so every pass shortens the block and the loop ends | not executed | Http2Client.ZeroFrameSizeStalls | Http2Client.SendRequestHeaders |
| http2/client/transport.go:46-53 | `Write` has a value receiver and assigns `&err` to its own copy's pointer, so `cc.werr` is never set | one write that fails with "broken pipe": the recorded error stays nil, so the check at lines 159-161 lets the failure through | store the error through the pointer (`*sew.err = err`), so the first error is recorded and returned from then on | not executed | Http2Client.AsWrittenNeverRecords | Http2Client.StickyRecordsFirstError |
| http2/client/transport.go:104-108 | after the SETTINGS flush, a recorded write error returns `err`, the dial's error variable, which is nil there | with the writer corrected, a SETTINGS write failing with "broken pipe": RoundTrip returns neither a response nor an error | return `cc.werr`, as the check at lines 159-161 does | not executed | Http2Client.SettingsFailureUnreported | Http2Client.FlushCheckOf |
| lib/pubsub.go:96-104 | `StartHub` makes the output channel without a buffer, so the `default` branch of `Run` waits to receive from a channel only it sends on | one snapshot published while the subscriber is busy: the relay blocks for good | a buffered output channel, the ring buffer the doc comment at lines 63-67 describes, with the drain not waiting (next row) | not executed | PubSub.UnbufferedHubBlocks | PubSub.BufferedHubNeverBlocks |
| lib/pubsub.go:82-86 | with a buffer, the `default` branch drains with a receive that waits; the subscriber can receive between the failed send and that receive | a buffer of one holding s1, a new s2: the select finds it full, the subscriber takes s1, and the drain then waits for good | drain with a `select` on the receive that has an empty `default`, so an emptied buffer is simply left as it is and the send goes through | not executed | PubSub.SelectDrainRace | PubSub.NonBlockingDrainSends |
| lib/publisher.go:137-138 | the rule loop reads `rule.HTTP.Paths` without checking that the rule has an HTTP part, which Ingress rules may omit | one Ingress naming no receivers whose one rule has no HTTP part: the rebuild dereferences nil | skip rules without an HTTP part, so the rest of the listing is still published | not executed | Publisher.RuleWithoutHTTPPanics | Publisher.PublishOk |
| lib/receivers.go:163 | the merged list is stored into `ing.Annotations` without making the map when the fetched Ingress has none | adding a first receiver to an Ingress without annotations: the write goes to a nil map and panics | make the map when it is nil, so the one-receiver list is stored | not executed | Receivers.UpdateNilAnnotationsPanics | Receivers.UpdateWritesBack |
| lib/publisher.go:169-174 | after a failed publish the worker calls `Add(key)` but never `Done(key)`, so the key stays processing and dirty | one Ingress key enqueued whose secrets fail to load: after the first pass that key is never handed out again, whatever happens next | call `Done(key)` after re-adding it, so the queue hands it out again | not executed | Publisher.FailedPublishStrandsKey | Publisher.CorrectedWorkerRetries |
