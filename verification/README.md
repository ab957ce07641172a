# Verification of the test server's protocol logic

A model, in Dafny, of the parts of the test server whose correctness depends on order, on chunk boundaries or on
concurrency, with proofs of what those parts promise:

- **HTTP/2 frame capture** (`FrameCodec`, `FrameCapture`, `FrameHistory`, `DataCapturingStream`, `EchoEndpoint`,
  `EchoOrder`): an incremental parser over arbitrary chunks and the routing of its frames to readers that come and go.
  The class carries a ghost history of routed frames and of control calls, and its methods are proved against it.
- **ACME renewal** (`CertCacheKey`, `AcmeServer`, `AcmeProgress`, `AcmeFlight`,
  `AcmeSingleFlight`, `AcmeFleet`, `AcmeRevocation`, `AcmeTraffic`, `AcmeProvenance`, `AcmeCa`): one server as a state
  machine over the atomic steps between awaits, any number of servers over one shared store, and the cache and the
  client as objects whose methods make exactly those steps and record them in a ghost history.
- **Fleet CA** (`FleetCa`, `FleetRenewal`): put-if-absent agreement between any number of servers, and renewal.
- **PROXY protocol** (`Numerals`, `ProxyProtocol`, `ProxyRoundTrip`, `ProxyStage`, `ProxyAddresses`): the v1 and v2
  parsers, the stage that buffers connections until a header is complete, and the addresses a connection gets.
- **Secure context cache** (`JsMaps`, `SecureContextCache`, `LruRefinement`): an expiring LRU over an
  insertion-ordered map, in sequence and under interleaving.
- **Hostname and option algebra** (`JsStrings`, `SniPrefix`, `SniAgreement`, `TlsMerge`, `TlsResolve`, `EndpointConfig`,
  `EndpointOutputs`, `LocalRedirect`): endpoint parts, the merge of what they contribute, and the redirect to
  an untrusted root.
- **Endpoint chains** (`UriDecoding`, `NumberTexts`, `ChainableEndpoints`, `EndpointTexts`, `EndpointChain`, `WsChain`,
  `HttpChain`): paths as printed lists of segments.
- **Kernels** (`SeededBytes`, `OcspSerial`): two byte generators that should agree, and DER serial numbers.

`dafny verify dfyconfig.toml` checks the whole project.

Several properties do not hold on all inputs. Where that is so the code is modelled as it is and the exact condition is
proved:

- chunking independence: no frame boundary before the first stream-0 frame is followed by a second preface;
- one renewal of a key at a time: the already-expired branch never runs while a renewal of the key is pending;
- agreement of a fleet on its CA: the store starts empty or with a CA that lasts the run;
- one key for one request: no domain is another with parts of its key appended;
- revocation before publication: every request under the key asks for it, or the store holds a revoked certificate
  from the start and every such request is in expired mode;
- an echo that has reported every frame when its request ends: no delivery for its stream is still queued then;
- a printed WebSocket path that resolves: the text of every repeat segment decodes, where otherwise the match test
  throws an error that is no HTTP status;
- one reading of a hostname by TLS and by the OCSP responder: no word hidden between dots inside a piece between
  dashes, and no word that meets the root across a dropped character;
- a valid redirect target: room for one more part, and TLS not rejected;
- equal plain and streamed bytes: chunks of whole hashes, or a single chunk.

The comment on line 179 of `src/tls-certificates/acme.ts` says that being superseded should not happen; it does once
the already-expired branch has run while a renewal of the key was pending and the earlier renewal is issued, and never
without such a run.

Conventions: integers assembled from bytes with shifts are written as sums, which are equal on bytes; a step of a
protocol that is not enabled changes nothing; clocks, digests, certificates and random ids are parameters; the
known option fields are constructors of a datatype and all others are named.

## Model

| member | source | states |
|---|---|---|
| FrameCodec.ParseFrameHeader | src/process-connection.ts:21-30 | a header is read exactly when nine bytes are there; its length is below 2^24 and its stream id below 2^31 (the reserved bit is dropped) |
| FrameCodec.DecodeEncode | src/endpoints/http/echo.ts:24-63 | for every frame with a payload below 2^24 bytes and a stream id below 2^31, the echo endpoint's decoder and the capture's header parser read back the same id, length, type and flags byte, and the decoder the full payload |
| FrameCodec.FramesAndRest | src/process-connection.ts:89-104 | cutting whole frames off a buffer loses nothing: the frames and the rest are together the buffer, and no complete frame is left in the rest |
| FrameCapture.CutPrefaceIsNoFrame | src/process-connection.ts:82-94 | no prefix of the connection preface is ever taken for a frame |
| FrameCodec.PrefaceIsText | src/process-connection.ts:82-82 | the preface is the text of section 3.4 of RFC 9113 |
| FrameCapture.ChunkingIndependence | src/process-connection.ts:75-105 | for an unambiguous stream every division into chunks routes the same frames and carries over the same bytes as parsing it at once |
| FrameCapture.ChunkingIndependenceExact | src/process-connection.ts:75-105 | every division into chunks gives the same result if and only if no frame boundary before the first stream-0 frame is followed by a (second) preface; the code re-tests for the preface while no stream-0 frame has been seen |
| FrameCapture.AmbiguousSplit | src/process-connection.ts:83-87 | for every ambiguous stream a two-chunk division that loses 24 bytes |
| FrameCapture.FeedConserves | src/process-connection.ts:76-104 | each chunk adds exactly its bytes to frames and carry-over, less a preface when one is skipped |
| FrameCapture.Conservation | src/process-connection.ts:75-105 | for every chunking of an unambiguous stream: preface, routed frames and carry-over are together the bytes received, and the carry-over holds no complete frame |
| FrameCapture.FrameRoundTrip | src/process-connection.ts:21-30 | serialising any list of frames after the preface and feeding any chunking gives back exactly that list with nothing left over, if and only if no frame before the first on stream 0 reads as a preface itself |
| FrameCapture.FirstOnStreamZero | src/process-connection.ts:75-105 | with the first frame on stream 0, as section 3.4 of RFC 9113 demands, the round trip holds for every chunking |
| DataCapturingStreams.DataCapturingStream.ProcessIncomingData | src/process-connection.ts:75-105 | on the object: the fields afterwards are the specified capture step, and the frames cut from this chunk are routed once each, in order |
| DataCapturingStreams.DataCapturingStream.RouteFrames | src/process-connection.ts:89-100 | the loop routes all whole frames from an offset and stops where the rest begins |
| DataCapturingStreams.DataCapturingStream.RouteFrame | src/process-connection.ts:107-130 | one routed frame is one event of the history: kept, delivered or dropped as that history determines, on its own stream or on all streams with a callback |
| DataCapturingStreams.DataCapturingStream.StopCapturingStream | src/process-connection.ts:132-142 | stopping is one event: what was kept is dropped and later frames are not kept |
| DataCapturingStreams.DataCapturingStream.AddStreamCallback | src/process-connection.ts:144-165 | returns a snapshot of all stream-0 frames and exactly the frames owed to the stream |
| DataCapturingStreams.DataCapturingStream.RemoveStreamCallback | src/process-connection.ts:167-169 | removing forgets the stream: later frames are kept again from scratch |
| DataCapturingStreams.DataCapturingStream.TableInvariant | src/process-connection.ts:32-36 | in every reachable state a callback means an empty buffer and not stopped, and stopped means an empty buffer and no callback |
| FrameHistory.DeliveriesAfterAdd | src/process-connection.ts:107-165 | from an add until the next stop, add or remove, the callback gets the relevant frames in arrival order and nothing else |
| FrameHistory.ExactlyOnce | src/process-connection.ts:107-169 | over every run: snapshot and later deliveries are together all stream-0 frames, and for a stream not controlled before, all its own frames, each once and in order |
| EchoEndpoint.EchoReportsEverything | src/endpoints/http/echo.ts:77-142 | end to end, once all deliveries of its stream have been run: whatever the chunking and whatever other readers do, an echo reports every frame of its stream and every stream-0 frame, each decoded to what was sent, once and in order |
| EchoOrder.EchoInOrder | src/endpoints/http/echo.ts:99-142 | the whole output line by line: the stream-0 frames sent before the echo registered, then the frames of its stream sent before that, then every frame of either in the order in which the client sent them, the own ones with the request |
| EchoEndpoint.EchoUntilRemoved | src/endpoints/http/echo.ts:77-142 | at the removal, with the event loop in any state: what has been reported followed by what the queued deliveries would add is every frame routed by then, once and in order, so all of them have been reported if and only if no delivery for the stream is still queued |
| EchoEndpoint.ReportedThenQueued | src/process-connection.ts:107-130 | cutting the deliveries of a stream anywhere into run and queued ones cuts the report at the same place |
| EchoEndpoint.QueuedRunLate | src/process-connection.ts:167-169 | after the removal exactly the deliveries queued at that moment still run for the stream, on a response that has ended |
| EchoEndpoint.LastFrameLost | src/endpoints/http/echo.ts:129-133 | for every frame of a stream: routed after the registration and still queued at the removal, it is not reported |
| DataCapturingStreams.DataCapturingStream.RunImmediate | src/process-connection.ts:107-130 | the event loop runs the callback that has waited longest |
| DataCapturingStreams.DataCapturingStream.QueueOf | src/process-connection.ts:107-130 | of every object at all times: the deliveries of a stream that have run, followed by those queued, are those its history schedules |
| FrameHistory.NothingScheduledAfterRemoval | src/process-connection.ts:167-169 | from a removal until the stream is next controlled nothing is scheduled for it; what is queued already is not cancelled |
| FrameHistory.NothingScheduledAfterStop | src/process-connection.ts:132-142 | nor is anything scheduled from a stop on |
| FrameHistory.OwedExactly | src/process-connection.ts:107-169 | what is kept for a stream: after a removal every frame that arrives on it, from scratch, and nothing while it is stopped or has a callback |
| AcmeServer.OrderlyRun | src/tls-certificates/acme.ts:101-200 | in every run from an orderly state the pending renewal of a key is running and the last one started for it, attempts wait only for later attempts of the same key, and calls wait for attempts of their own key |
| AcmeServer.ResumeMeans | src/tls-certificates/acme.ts:113-165 | in normal mode an expired certificate is never returned and a live one always is, with a renewal pending afterwards if it expires within 14 days and nothing started otherwise; in expired mode what was found is returned and nothing is started; with nothing found the call waits for the pending renewal |
| AcmeTraffic.StartedExactly | src/tls-certificates/acme.ts:101-200 | for every step: whether it starts a renewal, and that this is for the request that caused it |
| AcmeTraffic.PendingExactly | src/tls-certificates/acme.ts:167-199 | for every step and key: the last renewal started for a key is its pending one until one of the key is published |
| AcmeTraffic.AttemptExactly | src/tls-certificates/acme.ts:169-195 | for every step and earlier renewal: superseded it waits for the pending one, for a revoked request it is revoked first, otherwise published; failed it waits for the one just started |
| AcmeTraffic.PublishedIsKept | src/tls-certificates/acme.ts:188-191 | a published certificate is cached, is the result of its renewal, and no renewal of its key is pending any more |
| AcmeTraffic.CacheExactly | src/tls-certificates/cert-cache.ts:62-99 | for every step and key what the cache holds after it: what was published, fetched or loaded under that key, nothing if it was found expired, and otherwise what it held |
| AcmeTraffic.CachedSparesTheStore | src/tls-certificates/cert-cache.ts:90-92 | a call for a cached key has its answer at once and does not read the store, and any other does |
| AcmeTraffic.FetchedIsKept | src/tls-certificates/cert-cache.ts:93-98 | what the store had is kept, so that the next call for the key does not ask again |
| AcmeTraffic.StepTraffic | src/tls-certificates/cert-cache.ts:62-78 | every step hands the backend one write if it publishes, one deletion if it has found an expired certificate, and nothing else |
| AcmeTraffic.RunTraffic | src/tls-certificates/cert-cache.ts:62-78 | conservation, over every run: what waits for the backend and what it has settled are together one write for each publication and one deletion for each certificate found expired |
| AcmeTraffic.TrafficOfObject | src/tls-certificates/cert-cache.ts:62-78 | the same of every object at all times |
| AcmeTraffic.StoredIsServed | src/tls-certificates/acme.ts:101-157 | on any server of any fleet, in any state: a call that reads the store for a key that is there gets what is stored if it may have it, and starts a renewal only within two weeks of its expiry |
| AcmeTraffic.IssuedIsShared | src/tls-certificates/cert-cache.ts:82-99 | wherever in a fleet a certificate is published: once its write is applied, any other server without the key answers a request for it with this certificate and issues none |
| AcmeTraffic.IssuedOutlivesRestart | src/tls-certificates/cert-cache.ts:45-71 | and so does the server that published it after a restart |
| AcmeTraffic.RevocationCompletes | src/tls-certificates/acme.ts:184-190 | a certificate to be revoked is cached and handed to the store once its revocation is answered |
| AcmeTraffic.WarmStart | src/tls-certificates/cert-cache.ts:45-60 | what is loaded at startup is served without the store |
| AcmeProvenance.Provenance | src/tls-certificates/acme.ts:101-200 | in every run of a fleet with any failures, restarts and lost writes: what a server caches, writes or returns under a key, and what the store holds under it, was issued for that key in the run or was in the store under it at the start |
| AcmeProgress.NoDeadlock | src/tls-certificates/acme.ts:158-199 | no renewal deadlock: in every run from an empty server every chain of waits of a call ends at an attempt for the same key that is running or done |
| AcmeProgress.ChainEnd | src/tls-certificates/acme.ts:171-195 | following the waits between attempts always ends, at an attempt for the same key that does not wait |
| AcmeProgress.Finish | src/tls-certificates/acme.ts:169-195 | from every reachable state an attempt is done after finitely many successful issuances, revocations and settlements of it and later attempts |
| AcmeProgress.CallerCanBeAnswered | src/tls-certificates/acme.ts:96-200 | after every run a caller whose store read has not failed can still be answered, with no failure on the way |
| AcmeFlight.SingleFlight | src/tls-certificates/acme.ts:101-200 | in every run the renewals in flight for a key are at most one more than the starts of the already-expired branch; where that branch was never taken for the key, what is in flight is exactly the pending renewal |
| AcmeFlight.BoundIsReached | src/tls-certificates/acme.ts:117-126 | the bound is tight: for every n there is a run with n starts of the already-expired branch and n + 1 renewals in flight |
| AcmeFlight.FleetSingleFlight | src/tls-certificates/acme.ts:101-200 | the same bound and the same order of waits for each server of a fleet, whatever the other servers and the store do |
| AcmeSingleFlight.SingleFlightExactly | src/tls-certificates/acme.ts:101-200 | in every run from an empty server: at most one renewal of a key is in flight in every state if and only if no step takes the already-expired branch while a renewal of that key is pending; then the one in flight is the pending one, in every state |
| AcmeSingleFlight.FleetSingleFlightExactly | src/tls-certificates/acme.ts:101-200 | the same if and only if for each server of a fleet, with restarts, whatever the other servers and the store do |
| AcmeSingleFlight.OverlapSupersedes | src/tls-certificates/acme.ts:170-182 | after such an overlap the earlier renewal, once issued, waits for the later one |
| AcmeSingleFlight.NoOverlapNoSuperseding | src/tls-certificates/acme.ts:170-182 | without an overlap no renewal of the key is ever superseded |
| AcmeFleet.RevokeBeforePublish | src/tls-certificates/acme.ts:184-189 | fleet-wide, over every interleaving, with restarts and lost or reordered store writes: as long as every request under a key asks for revocation, no certificate is stored, cached, about to be written or returned under it before it has been revoked |
| AcmeFleet.RevokeExactly | src/tls-certificates/acme.ts:184-189 | from a store without the key: every run of a given set of requests keeps that guarantee if and only if every request of the set with that key asks for revocation |
| AcmeRevocation.RevokeExactlyFrom | src/tls-certificates/acme.ts:184-189 | from any store: every run of a given set of requests keeps that guarantee if and only if a certificate stored under the key is revoked, and every request of the set with that key asks for revocation or, with a certificate stored, every one is in expired mode |
| AcmeRevocation.ExpiredModeKeeps | src/tls-certificates/acme.ts:113-140 | in expired mode a stored certificate is served and kept, and nothing is issued or cleared, in every run of the fleet |
| AcmeFleet.SeparableRequestsAreHonest | src/tls-certificates/cert-definitions.ts:23-40 | so the guarantee holds under the key of any request for a revoked certificate when domains and override prefixes are free of `+` |
| AcmeFleet.SharedKeyBreaks | src/tls-certificates/cert-cache.ts:62-71 | why the key must determine the flag: one request that shares the key without asking for revocation is enough to break the guarantee |
| AcmeFleet.ServerRun | src/tls-certificates/acme.ts:101-200 | since its start or last restart each server of a fleet makes a run of its own, so that what holds of all runs holds of each |
| CertCacheKey.KeyDeterminesRequest | src/tls-certificates/cert-definitions.ts:23-40 | two requests free of `+` have the same cache key if and only if they agree on the domain and on every option that is part of the key |
| CertCacheKey.KeyText | src/tls-certificates/cert-definitions.ts:23-40 | a key by its text: the domain, and behind a plus sign each the words of the options that are set |
| CertCacheKey.SharesKeyExactly | src/tls-certificates/cert-definitions.ts:23-40 | for any domains, and override prefixes free of `+`: two requests share a key if and only if they agree on the domain and on every option in the key, or one domain is the other with the first parts of its key appended and the remaining parts, at least one, are the same |
| CertCacheKey.AnyShareKeyExactly | src/tls-certificates/cert-definitions.ts:23-40 | for any two requests at all: they share a key if and only if domain and pieces of the key are the same, or one domain is the other with the first pieces of its key appended and the remaining pieces, at least one, are the same |
| CertCacheKey.KeysSplitAlike | src/tls-certificates/cert-definitions.ts:39-39 | for any requests at all: keys are equal if and only if domain and parts together split alike at `+` |
| CertCacheKey.KeyClash | src/tls-certificates/cert-definitions.ts:39-39 | with a `+` in the domain, a plain request and a revoked one can share a key |
| AcmeCa.PersistentCertCache.LoadCache | src/tls-certificates/cert-cache.ts:45-60 | loading overlays the cache with the records read, later ones winning; a failed read leaves it as it is |
| AcmeCa.LastRecordStays | src/tls-certificates/cert-cache.ts:56-59 | of the records read with one key the last one stays |
| AcmeCa.PersistentCertCache.CacheCert | src/tls-certificates/cert-cache.ts:62-71 | sets the entry and hands exactly one write to the backend |
| AcmeCa.PersistentCertCache.ClearCache | src/tls-certificates/cert-cache.ts:73-78 | removes the entry and hands exactly one deletion to the backend |
| AcmeCa.AcmeCA.TryGetCertificateSync | src/tls-certificates/acme.ts:64-94 | returns only what is cached; in expired mode only once it has expired; starts a call exactly when nothing is cached or a normal certificate is near expiry |
| AcmeCa.AcmeCA.GetCertificate | src/tls-certificates/acme.ts:101-111 | one recorded event: a call that already has the cached certificate, or one that reads the store |
| AcmeCa.AcmeCA.FetchCertAnswered | src/tls-certificates/cert-cache.ts:90-99 | what the store had is kept in the cache |
| AcmeCa.AcmeCA.ResumeCall | src/tls-certificates/acme.ts:113-200 | the branches after the await (expired, near expiry, coalescing, new renewal) are the specified step |
| AcmeCa.AcmeCA.StartRenewal | src/tls-certificates/acme.ts:167-199 | a forced renewal becomes the pending one without a step in between |
| AcmeCa.AcmeCA.CertificateIssued | src/tls-certificates/acme.ts:170-191 | an issued certificate is dropped for the pending attempt, revoked first, or published, as specified |
| AcmeCa.AcmeCA.PublishCertificate | src/tls-certificates/acme.ts:188-191 | publishing clears the pending entry whichever attempt it names, caches the certificate and hands its write to the backend |
| AcmeCa.AcmeCA.RenewalFailed | src/tls-certificates/acme.ts:192-195 | a failed attempt waits for a new, forced one |
| AcmeCa.AcmeCA.StoreAnswers | src/tls-certificates/cert-cache.ts:90-99 | the backend answers the read, or its failure rejects the call |
| AcmeCa.AcmeCA.CertificateRevoked | src/tls-certificates/acme.ts:184-190 | only when the revocation has been answered is the certificate published |
| AcmeCa.AcmeCA.AttemptSettles | src/tls-certificates/acme.ts:181-195 | a waiting attempt takes the result of the one it waits for |
| AcmeCa.AcmeCA.CallReturns | src/tls-certificates/acme.ts:158-199 | a joined call returns the result of its attempt |
| AcmeCa.AcmeCA.BackendDone | src/tls-certificates/cert-cache.ts:62-78 | a finished or failed write or deletion changes nothing on the server |
| AcmeCa.AcmeCA.NoDeadlock | src/tls-certificates/acme.ts:158-199 | of every object at all times: pending renewals and waits are orderly, and the chain of waits of every caller ends at work in progress or at a result, for its own key |
| AcmeCa.AcmeCA.SingleFlight | src/tls-certificates/acme.ts:101-200 | of every object at all times: one renewal of a key at a time throughout its history if and only if none was started beside a pending one, and then exactly the pending one runs |
| FleetCa.FleetAgreement | src/tls-certificates/local-ca.ts:346-385 | from a store that is empty or holds a loadable CA that stays usable for the run, every interleaving of any number of servers, with failures, restarts and lost acknowledgements, ends with all finished servers on the stored CA, which never changes once set |
| FleetCa.StepSound | src/tls-certificates/local-ca.ts:346-385 | the invariant behind it: each step keeps it, and no step changes a store that has a CA |
| FleetCa.RenewalDiverges | src/tls-certificates/local-ca.ts:362-367 | from any other stored CA there is a run in which two servers both renew and end on different CAs |
| FleetCa.AgreementExact | src/tls-certificates/local-ca.ts:346-389 | two or more servers agree in every run if and only if the store starts empty or with a CA that lasts the run |
| FleetRenewal.WriteExactly | src/tls-certificates/local-ca.ts:362-375 | a write: over a CA that was found and not taken the new one always goes into the store; with none found, only if the store is still empty, and whoever was beaten looks again |
| FleetRenewal.FinishedExactly | src/tls-certificates/local-ca.ts:346-394 | for every step of every fleet: a server has a CA if and only if it took the one it read, which loads and has more than thirty days left, or has put its own into the store, or was beaten and took the winner, or kept its own because the winner is not to be taken |
| FleetRenewal.StartExactly | src/tls-certificates/local-ca.ts:346-385 | an undisturbed start takes the stored CA and leaves the store alone, or ends with its own CA, in the store |
| FleetRenewal.RenewedIsTaken | src/tls-certificates/local-ca.ts:352-358 | a later start of any server takes the renewed CA while more than thirty days are left |
| FleetRenewal.LoneRenewalConverges | src/tls-certificates/local-ca.ts:346-385 | from any store with nothing to take: if one server is through before the others start, the fleet agrees on its CA in every continuation |
| ProxyProtocol.StartsWithSignature | src/proxy-protocol.ts:33-39 | true exactly on data that begins with the signature |
| ProxyProtocol.FindLineEnd | src/proxy-protocol.ts:42-50 | the scan finds the first line end within 109 bytes, or -1 |
| ProxyProtocol.CheckOctets | src/proxy-protocol.ts:118-124 | the loop over the octets decides TCP4 validity |
| ProxyProtocol.FormatGroups | src/proxy-protocol.ts:228-235 | the loop over byte pairs is the joined hexadecimal groups |
| ProxyRoundTrip.Tcp4Exact | src/proxy-protocol.ts:115-124 | TCP4 validation accepts exactly the canonical dotted quads |
| ProxyAddresses.Tcp6Exact | src/proxy-protocol.ts:125-133 | TCP6 validation accepts exactly the texts of up to 45 characters that are groups of hexadecimal digits between colons |
| ProxyRoundTrip.FormatIPv6Injective | src/proxy-protocol.ts:228-235 | different 16-byte addresses have different texts |
| ProxyRoundTrip.V1RoundTrip | src/proxy-protocol.ts:41-113 | a printed v1 header (section 2.1 of the HAProxy PROXY protocol document) followed by any tail parses to exactly its fields and the tail if it has at most 109 bytes, and is passed through whole otherwise |
| ProxyRoundTrip.ShortAddressesFit | src/proxy-protocol.ts:25-26 | with addresses of at most 39 characters every header is at most 104 bytes |
| ProxyRoundTrip.V2RoundTrip | src/proxy-protocol.ts:137-226 | a printed v2 header (section 2.2 of that document) with any extensions and any tail parses to its endpoints and the tail if it announces at most 216 bytes, and to nothing otherwise |
| ProxyStage.ProxyFrontEnd.OnReadable | src/process-connection.ts:266-321 | each readable event moves the stage as specified on the bytes buffered so far; which addresses it finds is stated by `ProxyAddresses.AddressesOfObject` |
| ProxyStage.ProxyFrontEnd.StageOfBytes | src/process-connection.ts:266-321 | of every object at all times: its stage is the one that all bytes it has received decide, whatever their chunks |
| ProxyStage.OutcomeDependsOnBytes | src/process-connection.ts:266-321 | for every chunking, empty reads included: the stage decides what it would decide on the whole stream, and what it hands on followed by what it has not read is the rest of that stream |
| ProxyStage.DecisionIsFinal | src/process-connection.ts:266-321 | once decided, more bytes change nothing but the data after the header |
| ProxyStage.DestroyedExact | src/process-connection.ts:297-304 | it closes the connection if and only if the v2 signature is followed by a bad version or an address length over 216 and more than 512 bytes have arrived |
| ProxyStage.WaitingExact | src/process-connection.ts:270-307 | the exact set of buffers on which it waits |
| ProxyStage.IncompleteIsShort | src/process-connection.ts:278-287 | the 256-byte branch is unreachable: an undecided signature is shorter than 12 bytes |
| ProxyStage.HeaderStripped | src/process-connection.ts:309-321 | what is passed on is the data from the end of the header on, all of it |
| ProxyAddresses.AddressesExactly | src/process-connection.ts:296-321 | for every stream: the connection is passed on with given addresses if and only if it starts with a v1 line of at most 109 bytes whose fields say them, validly, or with a printed v2 header for them of at most 216 bytes |
| ProxyAddresses.AddressesOfRun | src/process-connection.ts:266-321 | the same for every division into chunks |
| ProxyAddresses.AddressesOfObject | src/process-connection.ts:266-321 | the same of every object at all times |
| ProxyAddresses.LineExactly | src/proxy-protocol.ts:62-113 | a header line gives addresses exactly when it is PROXY, TCP4 or TCP6, two valid addresses of that kind and two texts that read as ports; with anything invalid it gives none |
| ProxyAddresses.V1Passes | src/process-connection.ts:296-321 | a printed v1 header of at most 109 bytes gives its addresses and hands on what follows; a longer one is data |
| ProxyAddresses.V2Passes | src/process-connection.ts:296-321 | a printed v2 header gives its addresses and hands on what follows up to 216 announced bytes; beyond, it waits or closes |
| ProxyAddresses.V1InChunks | src/process-connection.ts:266-321 | in any chunks a printed v1 header gives its addresses, and what is handed on and unread is what follows it |
| ProxyAddresses.V2InChunks | src/process-connection.ts:266-321 | in any chunks a printed v2 header gives its addresses, and what is handed on and unread is what follows it |
| ProxyAddresses.V2AddressesExactly | src/proxy-protocol.ts:171-226 | a v2 header gives addresses if and only if its command is PROXY over a TCP stream and its block is large enough for its family; LOCAL gives none whatever its block |
| SecureContextCaches.SecureContextCache.Begin | src/tls-certificates/secure-context-cache.ts:20-33 | up to the await: a live entry moves to the back and is served, an expired one is removed; the call is a hit if and only if the key is held and what was last made for it is fresh, and what is served was made by a call for the key that began and finished before |
| SecureContextCaches.SecureContextCache.Finish | src/tls-certificates/secure-context-cache.ts:35-51 | after the await of a call that missed: the newest entries that leave room are kept and the new one is set with its capped expiry |
| SecureContextCaches.SecureContextCache.Evict | src/tls-certificates/secure-context-cache.ts:43-47 | wherever the loop ends, it leaves exactly the newest `maxSize - 1` entries, and all of them if there are fewer |
| SecureContextCaches.EvictionEndsExactly | src/tls-certificates/secure-context-cache.ts:43-47 | for any cache and size: the eviction loop ends if and only if the cache is small enough already, or the size is positive and none of the keys that have to go is empty |
| SecureContextCaches.SecureContextCache.GetOrCreate | src/tls-certificates/secure-context-cache.ts:16-51 | a whole call refines the specification, cache and context |
| SecureContextCaches.InterleavingSafety | src/tls-certificates/secure-context-cache.ts:16-51 | in every interleaving of calls split at their awaits: at most `maxSize` entries, distinct keys, and every entry was stored by some call for its key with an expiry at most a day after that call began |
| SecureContextCaches.HitIsSafe | src/tls-certificates/secure-context-cache.ts:20-41 | a hit never serves a context past the expiry its factory reported, unless that had passed when the creating call began, nor later than a day after that |
| SecureContextCaches.HitBegan | src/tls-certificates/secure-context-cache.ts:20-41 | in every trace in which each finish belongs to a call that missed: a hit serves what a call for the key made, counted from the moment that call began |
| SecureContextCaches.StoredIsServed | src/tls-certificates/secure-context-cache.ts:38-49 | what was just stored is served exactly for less than a day from the start of its call and, unless its certificate had expired by then, before that expires |
| SecureContextCaches.HoldsLastFinished | src/tls-certificates/secure-context-cache.ts:49-49 | in every interleaving an entry is what the last finished call for its key stored |
| SecureContextCaches.HitExactly | src/tls-certificates/secure-context-cache.ts:20-41 | in every interleaving: a call is served without its factory if and only if its key is held and what was last made for it is fresh, and it is served just that |
| SecureContextCaches.LateFinish | src/tls-certificates/secure-context-cache.ts:43-49 | a call that finishes when another one has stored its key replaces the context and leaves the order as it is |
| LruRefinement.LruRefinement | src/tls-certificates/secure-context-cache.ts:16-51 | after any sequence of complete calls the keys held are the last `maxSize` by most recent use, in that order, be each a hit, a miss or an expired entry |
| LruRefinement.HeldExactly | src/tls-certificates/secure-context-cache.ts:43-47 | a key is held if and only if it was used and fewer than `maxSize` other keys were used since |
| LruRefinement.ServedExactly | src/tls-certificates/secure-context-cache.ts:16-51 | over any sequence of complete calls, without the cache: a call runs no factory if and only if its key was used, fewer than `maxSize` other keys since, and the context last made for it is fresh; and it is served that context |
| LruRefinement.OrderedByUse | src/tls-certificates/secure-context-cache.ts:23-27 | a key behind another in the cache was used after it |
| TlsMerge.MergeExact | src/endpoints/tls-merge.ts:28-49 | merging fails if and only if two entries give different values to an exclusive field, and otherwise yields for every field mentioned the one value, the lowest level, or all enabled versions |
| TlsMerge.OrderDoesNotMatter | src/endpoints/tls-merge.ts:19-49 | merging the same entries in any order succeeds in the same cases, with the same fields up to the order of the enabled versions |
| TlsResolve.OptionsRecord.MergeContribution | src/endpoints/tls-merge.ts:28-49 | the record after a contribution, or the field at which merging stopped, is the specified merge |
| TlsResolve.OptionsRecord.ResolveEnabledVersions | src/endpoints/tls-merge.ts:56-73 | in place: the disable mask, minimum version and legacy level as specified |
| TlsResolve.OptionsRecord.ResolveSecurityLevel | src/endpoints/tls-merge.ts:80-87 | in place: the level moves into the cipher list |
| TlsResolve.DisableAllOthers | src/endpoints/tls-merge.ts:61-64 | the loop sets the flags of exactly the versions not enabled |
| TlsResolve.PermittedExactly | src/endpoints/tls-merge.ts:56-68 | after resolution a version is permitted (not disabled, not below the minimum, not above the maximum) if and only if it was listed, not disabled before and not above the maximum |
| TlsResolve.LevelExactly | src/endpoints/tls-merge.ts:70-72 | a security level is set if and only if some entry asks for one or enables TLS 1.0 or 1.1, and it is the lowest asked for, where a legacy version asks for 0 |
| TlsResolve.LevelReplaces | src/endpoints/tls-merge.ts:80-87 | in any cipher list the levels give way to the merged one at the end, and the marker field is gone; a list with one level, at its end, is otherwise unchanged |
| TlsResolve.StripExactly | src/endpoints/tls-merge.ts:85-85 | in any cipher list: the text before the first level stays, the level goes, and so on to the end; a list without levels stays as it is |
| EndpointConfig.GetEndpointConfig | src/endpoints/endpoint-config.ts:33-78 | the loop over the parts and the resolution compute the specified configuration or error |
| EndpointConfig.ConfigExact | src/endpoints/endpoint-config.ts:33-78 | parts are accepted if and only if they are at most four, distinct, known, free of clashing options, and not a rejected TLS beside other parts |
| EndpointOutputs.ConfigOutputs | src/endpoints/endpoint-config.ts:53-77 | the certificate options are the totals of what the parts contribute, each marker is set exactly when some part sets it, and the protocols are those of the parts in order |
| EndpointOutputs.OtherFields | src/endpoints/endpoint-config.ts:58-65 | no marker and no field for the server itself is left among the TLS options, and every field that resolution does not write is as the parts give it |
| EndpointOutputs.MinimumExactly | src/endpoints/tls-merge.ts:67-68 | the minimum version is the lowest one listed, or as the parts give it where none is listed |
| EndpointOutputs.MaskExactly | src/endpoints/tls-merge.ts:61-65 | with versions listed, the flag of a version is set exactly when some part sets it or none lists the version, and all other bits are as given; otherwise the mask is as given |
| EndpointOutputs.CiphersExactly | src/endpoints/tls-merge.ts:80-87 | with a level asked for or a legacy version listed: the list of the parts, or DEFAULT, without its levels, and then the lowest level; otherwise the list is as given |
| EndpointOutputs.RefusedExactly | src/endpoints/endpoint-config.ts:34-39 | when exactly it is refused for the number of parts, for a repeated part, and for rejected TLS beside other parts |
| EndpointOutputs.RefusedAt | src/endpoints/endpoint-config.ts:45-54 | any other refusal is that of the first part that is unknown, or that clashes with those before it on the field that the error names |
| EndpointConfig.PartOrderDoesNotMatter | src/endpoints/endpoint-config.ts:41-59 | for every permutation of the parts: same success, same certificate options, same TLS options and markers |
| EndpointConfig.ConfigPermits | src/endpoints/endpoint-config.ts:58-59 | for every accepted combination a version is permitted if and only if no part disables it, none caps below it, and some part lists it, or, where none lists any, it is no lower than the minimum the parts set, or than the platform default of TLS 1.2 where they set none |
| EndpointConfig.RootPermits | src/endpoints/endpoint-config.ts:33-78 | without any part exactly TLS 1.2 and TLS 1.3 are permitted |
| EndpointConfig.NothingLeft | src/endpoints/endpoint-config.ts:52-59 | where some part lists versions, none is left if and only if each listed one is disabled by some part or above the maximum of some part |
| EndpointConfig.ConfigLevel | src/endpoints/endpoint-config.ts:58-59 | the final cipher list ends in the lowest level asked for |
| LocalRedirect.GetCombinedCertOptions | src/http-handler.ts:62-69 | the loop is the merge of the certificate options of all known parts |
| LocalRedirect.RedirectExact | src/http-handler.ts:77-93 | a valid host is redirected if and only if a public CA is used, some part is local-only, none is self-signed and none is untrusted-root |
| LocalRedirect.RedirectOfAny | src/http-handler.ts:62-93 | for any parts, repeated, unknown or too many included: an error exactly if two certificate options clash, which it names, and otherwise a redirect exactly for local-only parts |
| LocalRedirect.RedirectOnce | src/http-handler.ts:92-92 | the redirect target parses to the parts and untrusted-root and is never redirected again; it is itself valid if and only if there were at most three parts and TLS is not rejected |
| SniPrefix.SniRoundTrip | src/endpoints/endpoint-config.ts:13-25 | parsing inverts joining with `--` if and only if no part holds `--`, none but the last ends in `-`, and a single part is non-empty and has no dot |
| SniPrefix.DottedRoundTrip | src/endpoints/endpoint-config.ts:20-24 | as long as no `--` comes about, parsing inverts joining with dots exactly on parts without dots |
| SniPrefix.IsRevokedCert | src/tls-certificates/local-ca.ts:172-188 | true exactly when a component of one of the DNS names is `revoked` |
| SniPrefix.ParsersAgree | src/tls-certificates/local-ca.ts:172-188 | for every prefix that does not mix `--` and `.`, and every root without the word, the OCSP responder finds a word such as `revoked` in a hostname exactly when the TLS side does |
| SniPrefix.MixedPrefixDisagrees | src/tls-certificates/local-ca.ts:180-183 | a family of prefixes with both separators on which they disagree |
| SniAgreement.ParsersAgreeExactly | src/tls-certificates/local-ca.ts:172-188 | for every hostname, every root and every word without dots and dashes: the two agree on the word if and only if the condition on separators, root and the character before the root holds |
| SniAgreement.MixedExactly | src/tls-certificates/local-ca.ts:180-183 | in front of a dot and a root without the word: they agree if and only if the prefix has no `--`, or the word is one of its pieces between `--`, or no piece holds the word between dots |
| SniAgreement.AcceptedNamesAgree | src/endpoints/endpoint-config.ts:45-49 | so they agree on every hostname with a dot before the root whose parts hold no dot, as those of all endpoints do |
| SniAgreement.UndottedExactly | src/endpoints/endpoint-config.ts:14-16 | with any other character before a root that does not hold the word and does not start with a dash: they agree if and only if the word stands before the last segment of the prefix and is not hidden, or it does not, TLS does not read the last segment as the word, and neither does that segment with the dropped character and the first segment of the root spell it |
| SniAgreement.DroppedCharacterDisagrees | src/endpoints/endpoint-config.ts:14-16 | the character before the root is dropped unread: on the word, a dash and the root, TLS finds the word and the responder does not |
| SniAgreement.SegmentsMeet | src/tls-certificates/local-ca.ts:179-184 | how the responder reads two texts put together without a separator |
| EndpointChain.ResolveEndpointChain | src/endpoint-chain.ts:10-36 | the bounded loop computes the bounded view of the full, unbounded chain: the same entries and failures (404, 400, or an error of a match test that is no HTTP status) up to eleven entries, 400 beyond |
| EndpointChain.ResolvedExactly | src/endpoint-chain.ts:15-35 | it succeeds with given entries if and only if they are at most eleven, each has the path its predecessor left, each endpoint is the first to match, and nothing is left |
| EndpointChain.FailsExactly | src/endpoint-chain.ts:15-35 | it fails in a given way if and only if up to ten linked entries leave a path that no endpoint matches (404), or whose parameters the first to recognise it refuses (400) or throws on, or eleven leave any path (400) |
| ChainableEndpoints.RemainingIsShorter | src/endpoints/ws/repeat.ts:7-15 | what any endpoint leaves of a path it matches is strictly shorter, also behind a new `/ws` |
| ChainableEndpoints.TokenAt | src/endpoints/ws/message.ts:6-15 | the token up to the next slash and the remainder from it are read back from a path made of them |
| UriDecoding.EscapedDecodes | src/endpoints/ws/repeat.ts:17-28 | the escaped UTF-8 of any character (section 3 of RFC 3629) decodes, whatever stands behind it, exactly when what stands behind it does |
| UriDecoding.DecodesExactly | src/endpoints/ws/repeat.ts:23-23 | a text decodes if and only if it is made of characters other than the percent sign and of escaped UTF-8 characters |
| EndpointTexts.CloseExactly | src/endpoints/ws/close.ts:5-18 | a close matches any text that reads as a code from 1000 to 4999, or no text, and refuses any other |
| EndpointTexts.DelayExactly | src/endpoints/ws/delay.ts:10-24 | delays match exactly the tokens that start with a number |
| EndpointTexts.InformationalExactly | src/endpoints/http/informational.ts:10-20 | informational responses match exactly the tokens that read as a code from 100 to 199 other than 101 |
| EndpointTexts.RepeatExactly | src/endpoints/ws/repeat.ts:17-39 | a repeat throws on a text that does not decode, matches an interval that reads as a positive number, and refuses any other |
| EndpointTexts.PlainExactly | src/endpoints/ws/subprotocol.ts:6-41 | the paths that the endpoints without such parameters match, by their text |
| NumberTexts.ParseIntExactly | src/endpoints/ws/close.ts:5-8 | a text reads as n exactly when it is white space, a sign or none, digits of value n, and nothing that goes on with a digit |
| NumberTexts.ParsesAsFloatExactly | src/endpoints/ws/delay.ts:10-14 | a text reads as a number exactly when white space and a sign or none are followed by digits, by a point and digits, or by Infinity |
| UriDecoding.LonePercent | src/endpoints/ws/repeat.ts:17-28 | a percent sign without a hexadecimal digit behind it does not decode |
| WsChain.WsRoundTrip | src/endpoints/ws/delay.ts:5-25 | up to eleven valid WebSocket segments, the text of a repeat decoding, resolve to exactly their endpoints, each with the printed remainder as its path; longer lists give 400 |
| WsChain.WsResolvesExactly | src/endpoints/ws/subprotocol.ts:6-41 | a path resolves if and only if it is the print of at most eleven valid segments, the text of every repeat decoding |
| WsChain.MatchRepeat | src/endpoints/ws/repeat.ts:7-39 | a two-token repeat segment whose text decodes and whose interval is positive matches and leaves exactly what follows its second token |
| WsChain.MatchTwoTokens | src/endpoints/ws/repeat.ts:17-39 | for any two tokens: it throws if the first does not decode, whatever the second, otherwise matches a positive interval and gives 400 for any other |
| WsChain.MalformedRepeatThrows | src/endpoints/ws/repeat.ts:17-39 | for every text that does not decode, every interval and every rest: resolution ends in an error that is no HTTP status |
| WsChain.LonePercentThrows | src/endpoints/ws/repeat.ts:23-23 | so resolving `/ws/repeat/%/` with any interval behind it ends in such an error |
| WsChain.OnlyMatch | src/endpoint-chain.ts:20-20 | at most one WebSocket endpoint matches a path or throws on it, so the order of the table does not matter |
| HttpChain.HttpRoundTrip | src/endpoints/http/delay.ts:6-43 | delays and informational responses in front of any final endpoint resolve to exactly those endpoints and remainders, up to eleven; longer lists give 400 |
| HttpChain.HttpResolvesExactly | src/endpoints/http/informational.ts:10-91 | an absolute path resolves if and only if it prints at most eleven endpoints, valid delays and informational codes first |
| SeededBytes.Bytes | src/endpoints/http/bytes.ts:26-38 | the loop gives the first n bytes of the hash sequence of the seed |
| SeededBytes.ByteAt | src/endpoints/http/bytes.ts:30-33 | byte i is byte i mod 32 of the hash of the seed, a colon and i div 32 |
| SeededBytes.Hashes | src/endpoints/http/stream-bytes.ts:35-44 | the inner loop gives the requested bytes from a counter on and moves the counter past every hash used |
| SeededBytes.StreamBytes | src/endpoints/http/stream-bytes.ts:28-51 | the nested loops write the specified chunks, each starting on a fresh hash |
| SeededBytes.ChunkAt | src/endpoints/http/stream-bytes.ts:28-47 | the length and every byte of every chunk, by the text that is hashed |
| SeededBytes.ChunksLength | src/endpoints/http/stream-bytes.ts:28-51 | for every positive chunk size the chunks have n bytes together |
| SeededBytes.StreamAgreesExactly | src/endpoints/http/stream-bytes.ts:28-51 | streamed and plain bytes agree for every hash function if and only if the chunk size is a multiple of 32 or one chunk is enough |
| OcspSerial.SerialNumberBytes | src/tls-certificates/ocsp.ts:43-56 | the array has the specified bytes, padded in place |
| OcspSerial.SerialIsPositive | src/tls-certificates/ocsp.ts:41-56 | for every serial with a digit the signed big-endian reading is the unsigned value of the digits (as section 4.1.1 of RFC 6960 needs of a CertID), and one zero byte is added exactly when the digits alone would read as negative |
| OcspSerial.SerialRoundTrip | src/tls-certificates/ocsp.ts:41-56 | every number printed in hexadecimal comes back as the value of the DER INTEGER |

## Left out

- Sockets, Node streams, TLS handshakes and the dispatch between TLS, HTTP/2 and HTTP: input and output; chunks and delivery order are parameters.
- FrameCodec.DecodeEncode: keeps type and flags as bytes; the tables that name frame types and flags, and decoded headers, are not modelled.
- DataCapturingStreams.DataCapturingStream.RouteFrame: that `setImmediate` runs callbacks in the order in which they were scheduled is taken for granted, and the relative order of deliveries to different streams is not stated.
- EchoEndpoint.EchoUntilRemoved: which of the states of the event loop occur at the end of a request depends on Node's event loop and HTTP/2 implementation; the statement is about all of them.
- Stream states in the routing table are values that are replaced rather than objects that are updated; no code outside the class holds one.
- ALPN preferences: they depend on the order of the parts by design, so permutation results leave them out.
- The concrete endpoint tables: the TLS table is a parameter with clean names, values of the declared types and the untrusted-root entry; the HTTP table a parameter whose other endpoints say nothing about `/delay/` and `/info/` paths.
- LocalRedirect.GetCombinedCertOptions: error messages are reduced to the conflicting field.
- ACME orders, challenges, key generation, X.509 building, OCSP responses and revocation calls: abstract issue and revoke steps. The provider's short-lived certificates differ only in their expiry, which is arbitrary here.
- Cert stores: reads, writes, deletions and writes-if-absent act on a map in one step; object names are a hash of the key whose collisions are not modelled, and neither are malformed records on the ACME side. Deletion of a persisted CA is not a step of the fleet CA model.
- FleetCa.FleetAgreement: the clock is one clock for all servers, and memoisation within a process is one protocol instance for each server.
- SecureContextCaches.SecureContextCache.Evict: about the caches on which the loop ends, which `EvictionEndsExactly` shows its precondition to be exactly; the other methods take a positive size and non-empty keys, as the server's always are.
- CertCacheKey.SharesKeyExactly: about override prefixes free of `+`, on which the pieces of a key are its options; `AnyShareKeyExactly` is about all.
- AcmeFleet.RevokeExactly: about a store that does not hold the key at the start; `AcmeRevocation.RevokeExactlyFrom` is about all.
- EndpointConfig.ConfigPermits: the platform's default minimum is TLS 1.2, as Node sets it where no command-line flag changes it; versions a TLS library refuses for other reasons are not modelled.
- SniAgreement.UndottedExactly: about roots that do not start with a dash; `ParsersAgreeExactly` is about all.
- SniAgreement.ParsersAgreeExactly: about words without dots and dashes, such as `revoked`.
- A factory that fails leaves the cache as `Begin` left it, which the interleaving model covers by calls that never finish.
- The random id of an attempt is its place in the order of starts.
- The decoded texts: that a repeat's text decodes is part of its match test and modelled, while what it decodes to, and the decoding of message and subprotocol texts, is left to handlers, which are not modelled.
- Numbers are read as `parseInt` and `parseFloat` read them as far as validity goes, with ASCII white space; trailing characters after the digits are accepted, as in the code.
- OcspSerial.SerialIsPositive: about serials of hexadecimal digits and white space, which is what the certificate library yields.
- SeededBytes.StreamBytes: chunk sizes that are not numbers and unseeded random bytes are left out.
- DNS server, challenge store, documentation page, metrics and the static, cookie, auth and redirect-count endpoints: they would only add easy members.
