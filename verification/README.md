# proxy-balancer: a verified model

This project models the hard parts of proxy-balancer, a Go program that accepts VLESS connections, proxies them to
one of several backends, chooses and changes the active backend, keeps the Xray routing rules in step, and hands out
subscription lists. The model is written in Dafny and every statement below is proved for all inputs, all runs and
all ways the environment may behave, within the limits listed under "Left out".

`dafny verify dfyconfig.toml` checks everything.

## How the program is modelled

* **Byte streams** (`Streams`, `VisionFormat`, `Vision`, `RoundTrip`, `VlessHeader`, `UuidText`, `Proxy`). A connection
  is split into its reading half `Conn` (the bytes that arrive before the stream ends, for whatever reason, and the
  error it ends with) and its writing half `Sink` (the bytes written, and whether a write has failed). How many bytes a
  read returns is left open, and so is which write fails and after how many bytes. The codecs are classes with the
  fields of the Go structs; `Pending()` is what a reader will still deliver, and every `Read` hands over a front part
  of it. `Reader` and `Writer` are the `io.Reader` and `io.Writer` values that occur in the program; `ReadFull` and
  `Copy` are the library loops over them. What the codecs mean on whole streams is given by the functions of
  `VisionFormat`, and those are in turn checked against an independent reading of the format as a list of frames.
* **The balancer** (`Health`, `XrayConfig`, `BalancerModel`, `Balancer`, `Observatory`). `BalancerModel` is a
  transition system whose events are single lock holds, so a run is any interleaving of the ticker, the TCP probes,
  the log watcher, the subscription checks and the administrator. A callback that read `manualMode` without the lock
  and acts on it late is just a failover event at some later point of the run. The clock and the outcome of file
  access are part of each event. `Balancer.LoadBalancer` is the Go object: each method is proved to be a step of the
  transition system.
* **Parsers and printers** (`Tls`, `Strings`, `Base64`, `Urls`, `Links`, `Subscription`). Go strings are byte sequences.
  `Urls` says which links the library's `url.Parse` accepts.
* **Metrics** keeps the whole history as a ghost field beside the bounded window.

## Where the code does not do what one would expect

Each of these is proved, with the exact condition under which the code does meet the property.

* Before the header is sent to the backend it is copied into an array of 64 bytes for the log. Proxying goes on exactly
  when 23 bytes, the addon and the address fit; otherwise the copying panics and nothing is sent
  (`Proxy.DumpHeader`, `Proxy.ProxyToBackend`). With the flow `xtls-rprx-vision` that excludes every domain name of
  more than 23 bytes, although the header itself is valid (`Proxy.VisionFitsIff`). What the log shows is what is sent
  only for domain names (`Proxy.ShownIsSentIff`).
* The header codec by itself carries a flow exactly up to 253 bytes; a longer one makes the addon overflow its length
  byte, and the header that was meant is not what is read (`Proxy.HeaderArrivesIff`).
* `extractSNI` tests the high byte of the server name list's length where the name type would be expected. A name in a
  list of 256 bytes or more is not found, and in a shorter list the first entry is returned whatever its type
  (`Tls.SniFoundIffShort`).
* `rewriteRawLink` panics when the only `#` of a link was in the host it replaces (`Links.RewriteShape`).
* `extractServerInfo` asks the result of `url.Parse` for the query without looking at the error, and panics exactly when
  the link is rejected, for example because its remark is `100%` (`Links.PercentRemarkCrashes`) or because something
  else follows the port (`Links.GarbageAfterPortCrashes`). Otherwise it reads port 0 when a remark follows the port
  without a query (`Links.ReadBackIff`, and part by part `Links.ReadBackOrdinary`).
* Log lines written between the observatory's scan at start-up and its measuring of the log are lost
  (`Observatory.WatchAgreesIff`, `Observatory.LineLost`).
* A rewrite that leaves no rules writes `null`, and no later rewrite has any effect (`XrayConfig.SyncAbsorbsIff`).
* The admin panel starts while the first health checks still run. If an address is pinned before `selectInitial`,
  the pin is lost although manual mode stays on (`BalancerModel.PinStepIff`, `BalancerModel.PinBrokenByLateInitial`).
* The README of the repository says that TLS passes through the balancer; the code terminates TLS and reads VLESS
  headers itself (`proxy.go:127`), and the model follows the code.

## Model

| member | source | states |
|---|---|---|
| VisionFormat.SplitExists | vision.go:218-284 | every byte stream is a list of frames, of which only the last may switch to raw mode, followed by raw bytes or by less than one frame |
| VisionFormat.SplitMeaning | vision.go:80-134 | whatever the frames, the reader's content is their contents in order plus the raw tail, the relay's output is the same frames under the new UUID plus the raw tail, and raw mode is reached exactly when the last frame says so |
| VisionFormat.FrameMeaning | vision.go:80-134 | byte by byte for one frame: after command 1 or 2 all the rest is content and is relayed as it is, after any other command more frames follow; the relay changes nothing but the UUID |
| VisionFormat.FrameCutShort | vision.go:86-122 | a frame that is cut short anywhere is neither delivered nor relayed |
| VisionFormat.DecodeChecksUuid | vision.go:90-96 | a stream that starts with another UUID, or is too short for a first header, holds no content |
| VisionFormat.RelayTransparent | vision.go:218-284 | for every stream, decoding the relayed stream under the new UUID gives what decoding the original under its own UUID gives |
| VisionFormat.RelayComposes | vision.go:245-272 | relaying to one UUID and then to another produces the same bytes as relaying to the second directly |
| VisionFormat.RelayShape | vision.go:223-284 | the relay's output is its input with the first 16 bytes replaced, cut back to the last complete frame unless raw mode was reached |
| VisionFormat.RelayBrokenOff | vision.go:274-276 | wherever the relay's output breaks off, the destination decodes a prefix of the original content |
| VisionFormat.ContentMonotone | vision.go:84-122 | a stream cut short delivers a prefix of the content of the whole stream |
| VisionFormat.RawAppend | vision.go:76-78 | once a stream is raw, every further byte is content |
| VisionFormat.XtlsPadding | vision.go:149-158 | the padding is less than 64 and rounds the content up to a multiple of 64 |
| VisionFormat.FirstWrite | vision.go:167-204 | the bytes of the first write: UUID, command 1, both lengths, at most 16384 bytes of content, zeros up to a multiple of 64, and the rest raw; later writes are raw |
| VisionFormat.WritesDecode | vision.go:160-204 | any non-empty list of writes, the first of any length, decodes to the concatenation of the written data |
| VisionFormat.WiresSnoc | vision.go:160-204 | the bytes of a list of writes grow by exactly the bytes of the next write |
| Vision.VisionReader.Read | vision.go:69-134 | for any buffer and any short reads of the source, a read delivers the front of the pending content; on an error everything had been delivered |
| Vision.VisionReader.ReadFrame | vision.go:80-134 | one frame is taken off the stream, with the UUID checked on the first; an error means that no content is left to deliver |
| Vision.VisionWriter.Write | vision.go:160-204 | the bytes on the wire are the first frame and raw data; what a reader decodes grows by exactly the data of a successful write and by a prefix of it otherwise |
| Vision.VisionRelay.Relay | vision.go:218-285 | the output is the relayed stream and the total is the length of its content when no write fails, and a prefix of it in any case; the error is nil exactly when raw mode was reached and the stream ended with EOF; it terminates |
| Vision.VisionRelay.RelayFrame | vision.go:230-283 | one round writes one whole frame with the UUID swapped on the first, or writes nothing when the frame is incomplete |
| Vision.VlessResponseConn.Read | vision.go:294-319 | the response header is stripped once, whatever the read sizes; after a failure nothing is delivered and the error stays |
| Vision.VlessResponseConn.StripHeader | vision.go:295-314 | the header is kept, and header and remaining bytes make up the original stream |
| Vision.Copy | proxy.go:303 | everything the reader still delivers arrives at the far end of the writer, or a prefix of it when a write fails |
| Vision.ReadFull | vision.go:86 | under any pattern of short reads the wanted bytes are taken off the stream, or the error says whether there were none or too few |
| RoundTrip.WriteAll | vision.go:160-204 | any list of writes adds its concatenation to what the far end decodes, and exactly the bytes of `Wires` to the wire; a prefix of it when a write fails |
| RoundTrip.ReadAll | vision.go:69-134 | any list of reads delivers the front of the pending content: all of it once a read reports an error, which enough non-empty buffers always bring about |
| RoundTrip.Transfer | vision.go:69-204 | writer and reader over one wire: for any writes, failures, breaks of the wire, short reads and buffers the reader delivers a prefix of what was written, and all of it when the whole wire arrives and is drained |
| VlessHeader.ReadAfterWrite | vless.go:50-134 | a valid header is read back with exactly the following bytes left over |
| VlessHeader.RoundTripIffValid | vless.go:114-134 | the written header reads back as itself exactly when its version is 0, its addon at most 255 bytes and its address fits its type |
| VlessHeader.HeaderLayout | vless.go:11-18 | the address types, and the place of every byte of a written header |
| VlessHeader.RejectsVersion | vless.go:50-60 | any other version is rejected as such |
| VlessHeader.RejectsAtyp | vless.go:82-109 | so is any other address type, after a readable front |
| VlessHeader.WriteAfterRead | vless.go:50-112 | whatever is read is valid, and writing it reproduces the consumed bytes |
| VlessHeader.PrefixRejected | vless.go:50-112 | every proper prefix of an encoding is rejected for a missing byte |
| VlessHeader.PrefixFree | vless.go:114-134 | no encoding is a prefix of the encoding of another header |
| VlessHeader.ReadHeader | vless.go:50-112 | reading step by step under any short reads gives the parsed header or error, and consumes exactly the header |
| VlessHeader.WriteHeader | vless.go:114-134 | the separate writes add up to the encoding |
| VlessHeader.FlushWriter.Flush | reality.go:230-234 | everything collected is sent as one write, and the buffer is empty afterwards |
| UuidText.ParsePrint | vless.go:30-48 | a printed UUID is read back as itself and as nothing else |
| UuidText.PrintParsedIffHex | vless.go:30-48 | printing what was parsed gives the same digits in lower case exactly when they were all hexadecimal digits; the scanner is laxer than that |
| UuidText.ParseUUID | vless.go:30-43 | the result is the reading of the text without dashes, and there is an error only if it has none |
| UuidText.ScanPairMeaning | vless.go:36-41 | a pair is read like any text by a scanner: space is skipped, and the hexadecimal digits up to the first other character count |
| UuidText.TextShape | vless.go:45-48 | the printed form has 36 characters, lower-case digits in groups of 8, 4, 4, 4 and 12 |
| Proxy.PrependConn.Read | proxy.go:107-114 | the bytes put back come first, and none is lost or repeated |
| Proxy.Sniff | proxy.go:81-91 | looking at the first byte of a connection is invisible to the next reader |
| Proxy.HeaderArrivesIff | vless.go:114-143 | as far as the codec goes, the backend reads version 0, its own UUID, the client's command, port and address, and the flow as a tagged and counted addon, and is left with the payload, exactly when the flow has at most 253 bytes |
| Proxy.DumpHeader | proxy.go:235-254 | the header is shown in full, or the copying runs out of its 64 bytes, exactly when 23 bytes, the addon and the address do not fit |
| Proxy.ShownIsSentIff | proxy.go:235-256 | the bytes shown are the bytes sent exactly for domain names |
| Proxy.VisionFitsIff | proxy.go:235-254 | with the Vision flow the header is always valid, but fits exactly unless its address is a domain name of more than 23 bytes |
| Proxy.ContainsIff | proxy.go:272 | a backend is treated as a Vision backend exactly if `xtls-rprx-vision` stands somewhere in its flow |
| Proxy.FlowSpelled | proxy.go:272 | the name looked for is `xtls-rprx-vision` |
| Proxy.ClientToBackendEndToEnd | proxy.go:184-308 | for every client stream whose header fits the dump, the backend reads a header with its own UUID and the client's target, and then decodes (with Vision) or receives (without) the content of the client's stream |
| Proxy.BackendToClientEndToEnd | proxy.go:263-319 | without its response header the backend's payload, or its Vision content, is what the client decodes under the proxy's UUID |
| Proxy.ResponseStripped | vision.go:295-312 | exactly the two bytes and the addon of a response header are removed |
| Proxy.ProxyToBackend | proxy.go:173-325 | what the backend and the client are sent, for any reads and writes; it refuses exactly when dialling fails or the backend's UUID has no reading, and else panics exactly when the header does not fit the dump, and sends nothing in both cases |
| Proxy.HandleClient | proxy.go:140-171 | from the client's first byte after the TLS handshake on: it refuses exactly when the header is unreadable, no backend is known or proxying refuses; whenever it proxies, the backend reads the client's target and decodes the content of its stream |
| Tls.ExtractSNI | tls.go:8-79 | on every input the cursor stays in bounds and the loop ends, with the result of the extension walk |
| Tls.SniFound | tls.go:53-76 | in every well-formed ClientHello the first name is returned if its list is shorter than 256 bytes, whatever its type and whatever else the hello holds, as soon as everything up to that extension has arrived |
| Tls.SniFoundIffShort | tls.go:67-68 | with a single server_name extension the first name is returned exactly when its list is shorter than 256 bytes, whatever its type |
| Tls.SniAbsent | tls.go:62-78 | without a server_name extension nothing is found |
| Tls.SniInside | tls.go:57-71 | on any bytes, a returned name is a non-empty slice inside the extensions block |
| Health.HealthChecker.BestUp | health.go:76-101 | the result is an address that is up with the least effective ping, and empty exactly when none is up |
| Health.BestIsFastest | health.go:84-100 | in terms of the tables: the address chosen is up, its ping is at most that of any other measured address that is up, and one without a ping counts as 9999 |
| Health.NoBestIff | health.go:94-96 | nothing is chosen exactly when no loaded address is up |
| Health.HealthChecker.ProbeRound | health.go:107-135 | pings are always stored, statuses and notifications follow the edges of the probes, and neither changes while the observatory is in charge |
| Health.PingStored | health.go:118 | the last ping of an address in a round is stored |
| Health.LastStored | observatory.go:190 | of several reports about an address the last is stored |
| Health.EdgeAgreesWithStore | observatory.go:157-165 | updating on edges only and storing every report agree on which addresses are up |
| Health.NotificationsAlternate | observatory.go:157-165 | the notifications about an address alternate, starting with the opposite of its status before, and their number says whether it changed |
| XrayConfig.LoadTagMap | observatory.go:39-91 | the loop builds the tag map, in which only the first hop of an outbound counts and a later outbound of the same tag wins |
| XrayConfig.LastWatched | observatory.go:53-89 | the last outbound of a tag whose first hop has a host and a positive port is in the map, with that host and port |
| XrayConfig.TagsSpelled | balancer.go:351-362 | the prefix is `proxy-`, and the forced rule is for `vless-in` and `vless-ws-in` |
| XrayConfig.Unwatched | observatory.go:53-89 | a tag without such an outbound keeps what it had |
| Observatory.ObservatoryWatcher.ReadNewLines | observatory.go:134-171 | the new lines are folded into the statuses on edges, each edge is notified, and the offset moves to the end of the log |
| Observatory.ObservatoryWatcher.ScanLog | observatory.go:173-192 | every observation in the log is stored |
| Observatory.ObservatoryWatcher.Start | observatory.go:102-123 | the whole log is stored, the observatory takes charge, and reading goes on at the end of the log |
| Observatory.ObservatoryWatcher.Follow | observatory.go:125-171 | any number of turns, with any logs, folds the lines that arrived into the statuses on edges, and the notifications about any address alternate |
| Observatory.ObservatoryWatcher.Watch | observatory.go:102-171 | scanning and then following leaves an address up exactly when storing all lines that were read, in order, would |
| Observatory.GrowingLog | observatory.go:134-171 | of a log that is only appended to, every line after the offset is read once, however it grows between the turns |
| Observatory.ShorterLog | observatory.go:134-171 | a log that has become shorter has nothing new and does not set the offset back |
| Observatory.WatchAgreesIff | observatory.go:102-192 | scanning and following a growing log agrees with one scan of the final log about an address, exactly when a later line reports on it or the lines written between scan and measuring made no difference to it |
| Observatory.LineLost | observatory.go:102-123 | a line written in between is lost, and its address stays down |
| Observatory.TablesMayDiffer | observatory.go:157-190 | the status tables themselves can differ, in an address only ever reported dead |
| XrayConfig.TagFoundIff | balancer.go:387-428 | a tag is found for an address exactly when some proxy outbound has a hop at it, and is the tag of such an outbound |
| XrayConfig.FindTag | balancer.go:387-428 | the nested loops return the first such outbound's tag |
| XrayConfig.FirstTag | balancer.go:387-428 | for a host and port the tag found is that of the first `proxy-` outbound with a hop of exactly that host and port |
| XrayConfig.NoTag | balancer.go:387-428 | without such an outbound none is found |
| Strings.AddressInjective | models.go:31-33 | different hosts or ports give different addresses |
| XrayConfig.WatchedIsRoutable | observatory.go:53-89 | every address in the observatory's tag map is served by an outbound of that tag, so the router can be forced to it |
| XrayConfig.KeptOfTarget | balancer.go:336-367 | a rewrite keeps exactly the rules the previous one kept; the forced rule never survives |
| XrayConfig.KeptAround | balancer.go:343-356 | of any list a rule stays where it is exactly if it is no object, or has neither a `proxy-` outbound nor a balancer |
| XrayConfig.RuleStays | balancer.go:343-371 | so a rewrite puts at most one rule in front of those that stay, in their order, and adds nothing else |
| XrayConfig.NothingToRewrite | balancer.go:314-341 | a file without a list of rules is left alone |
| XrayConfig.SyncedShape | balancer.go:343-362 | after a rewrite no rule names a balancer, and only the first can go to a proxy outbound, which is then one with a hop at the address |
| XrayConfig.TargetForces | balancer.go:343-362 | whenever some proxy outbound has a hop at the address, the first rule after a rewrite forces traffic to one that has |
| XrayConfig.SyncAbsorbsIff | balancer.go:336-367 | rewriting for one address and then another is rewriting for the second, exactly unless no rule is kept, the first has no outbound and the second has one |
| XrayConfig.SyncIdempotent | balancer.go:336-367 | rewriting twice for one address is rewriting once |
| XrayConfig.XrayFile.Rewrite | balancer.go:314-377 | the new content of the file, also when reading or writing fails |
| BalancerModel.RoutingFromStart | balancer.go:188-371 | in every run from start-up the last synced address is the active one, and if the last sync that passed the throttle worked, the file holds the forced rule of the active address followed by the original kept rules; if any outbound serves the active address, the first rule forces traffic to one that does |
| BalancerModel.RoutingWhileFileWorks | balancer.go:188-371 | in every run from start-up during which the file can be read and written, it routes to the active address whenever there is one |
| BalancerModel.AgreesAlways | balancer.go:155-249 | whenever no lock is held, the last synced address is the active one |
| BalancerModel.DiskAgreesAlways | balancer.go:307-374 | the same agreement of file and active address from any state in which it holds |
| BalancerModel.ChangePasses | balancer.go:307-312 | a change of the active address is never throttled |
| BalancerModel.SyncThrottle | balancer.go:307-312 | a sync is held back exactly for an address synced less than 30 seconds ago |
| BalancerModel.SyncRateBound | balancer.go:307-312 | in any stretch of a run the syncs that pass the throttle number at most one, plus one for each full 30 seconds, plus the changes of the active address |
| BalancerModel.PinStepIff | balancer.go:155-303 | a step keeps the pin exactly unless it is a selectInitial that moves off the pinned address |
| BalancerModel.PinSurvives | balancer.go:155-303 | in every run in which selectInitial precedes any SetManual, manual mode means the pinned address is active |
| BalancerModel.PinHoldsStill | balancer.go:83-135 | from a manual state no probe, log, subscription or ticker step moves the active address or ends manual mode, however stale its guard was |
| BalancerModel.PinBrokenByLateInitial | balancer.go:188-204 | a concrete run in which a late selectInitial moves off the pinned address |
| BalancerModel.SubPassEffect | balancer.go:60-81 | a pass marks down exactly the backends whose fetch failed and fails over at most once for each |
| BalancerModel.SubPassMarks | balancer.go:60-81 | the same marking down in manual mode, in which a pass does nothing else |
| BalancerModel.SubPassServes | balancer.go:232-249 | a pass that starts well, or in which the active backend's fetch fails, ends well; the active address changes only if its fetch fails, and only to a loaded address that was up |
| BalancerModel.CascadeIff | balancer.go:60-81 | after a pass the active address is up or none is, exactly when before it that address was up, or its own fetch fails, or so does the fetch of every loaded backend that was up |
| Balancer.LoadBalancer.CheckSubscriptions | balancer.go:60-81 | the loop is such a pass, with that outcome; in either mode exactly the backends with a subscription that cannot be fetched are marked down, and in manual mode nothing else happens |
| Balancer.LoadBalancer.SyncXrayLocked | balancer.go:307-377 | the throttle and the rewrite, as the model's sync; a changed address, or one synced 30 seconds ago or more, is written |
| Balancer.LoadBalancer.SelectInitial | balancer.go:188-204 | a step of the model, after which a best address is active, or the first loaded one if none is up |
| Balancer.LoadBalancer.SelectBest | balancer.go:206-222 | a step of the model, after which a best address is active in automatic mode if one is up; in manual mode it does not move |
| Balancer.LoadBalancer.SetManual | balancer.go:155-173 | a step of the model: an address is pinned and active; without one manual mode and pin end, and a best address is active if one is up; routing follows in both cases |
| Balancer.LoadBalancer.Failover | balancer.go:232-249 | a step of the model, after which a best address is active in automatic mode if one is up; it counts exactly if it moves, and changes nothing otherwise |
| Balancer.LoadBalancer.TryFailback | balancer.go:281-303 | a step of the model to the first primary that is up, not active and fetchable, and to none only if there is none |
| Balancer.LoadBalancer.OnStatusChange | balancer.go:85-102 | fails over exactly when the active address goes down in automatic mode, and then leaves it up or no loaded backend up |
| Balancer.LoadBalancer.Tick | balancer.go:126-132 | after a turn of the ticker in automatic mode the active address is up with the least ping, if any loaded backend is up |
| Balancer.LoadBalancer.Probe | health.go:107-135 | a round of probes is a run of the model: the pings, and then the changes that are notified |
| Balancer.LoadBalancer.ReadLog | observatory.go:134-171 | so is looking at the log, and only what is notified has changed |
| Balancer.LoadBalancer.StartWatcher | observatory.go:102-111 | so is starting the watcher: every report, and then the switch to the observatory |
| BalancerModel.SelectBestChooses | balancer.go:206-222 | in automatic mode selectBest leaves a best server active if one is up, and moves nothing otherwise |
| BalancerModel.SelectInitialChooses | balancer.go:188-204 | in either mode selectInitial leaves a best server active, or the first loaded one |
| BalancerModel.FailoverChooses | balancer.go:232-249 | in automatic mode a failover leaves a best server active if one is up |
| Base64.RoundTrip | subscription.go:275 | decoding undoes encoding, with and without padding |
| Base64.AlphabetSpelled | subscription.go:275 | the digits are those of the standard alphabet |
| Base64.QuadInOrder | subscription.go:275 | three bytes are written as four digits, from the first bit to the last |
| Base64.EncodeByThrees | subscription.go:275 | longer input is encoded three bytes at a time |
| Base64.ShortGroups | subscription.go:275 | a last group of one or two bytes is cut, and filled up with padding |
| Base64.Wrapped | subscription_fetch.go:229-237 | line breaks inside encoded text make no difference |
| Subscription.GenerateSubscription | subscription.go:237-276 | the output is the print of the distinct links of all configs, or a panic if rewriting one of them panics |
| Subscription.NoLinksIff | subscription.go:242-269 | there is no list of links, and hence a panic, exactly when the rewriting of some config's link panics |
| Subscription.DistinctMembers | subscription.go:242-269 | the printed list holds exactly the non-empty links |
| Subscription.DistinctOrder | subscription.go:242-269 | the links come in the order of their first occurrences, so none comes twice |
| Subscription.ParseBody | subscription_fetch.go:217-249 | every link it returns is non-empty, trimmed and on one line; links are read back unchanged and in order from any body that carries them as lines or encoded, with or without padding, wrapped or not, with any white space around body and lines and any blank lines; a body is empty exactly if it is white space |
| Strings.TrimSpaceSplits | subscription_fetch.go:217 | trimming takes white-space characters off both ends and nothing else |
| Strings.SpaceRuneIff | subscription_fetch.go:217 | what counts as white space is the UTF-8 encoding of a Unicode white-space character |
| Subscription.LinksAt | subscription.go:242-269 | the i-th link is that of the i-th config |
| Subscription.LinkKept | subscription.go:242-250 | a config without a raw link is printed as generated, and a raw link of another kind or without `@` as it is |
| Subscription.ParseIsPlain | subscription_fetch.go:240-247 | whatever the body, every link read is non-empty, trimmed and on one line |
| Subscription.PrintParseIff | subscription_fetch.go:217-249 | a printed list of links reads back as itself exactly when every link is trimmed and on one line |
| Subscription.GeneratedReadsBackIff | subscription.go:271-275 | the same for everything GenerateSubscription prints |
| Subscription.MergedEntry | subscription.go:242-250 | wherever in a list of configs two stored links differ only in host and port, the printed list holds their common rewriting exactly once |
| Links.RewriteShape | subscription.go:218-227 | host and port are replaced and nothing else, or the function panics, exactly when the only `#` was in the old host |
| Links.SchemesSpelled | subscription.go:199-218 | the schemes are `vmess://`, `vless://`, `trojan://` and `ss://` |
| Links.ReplaceMatch | subscription.go:219-220 | every match is replaced, and what follows it is searched again |
| Links.ReplaceNoMatch | subscription.go:219-220 | an `@` without a host, a colon and a digit behind it stays |
| Links.RewriteUntouched | subscription.go:212-229 | links of other kinds and links without `@` are not changed |
| Links.RewriteAbsorbs | subscription.go:218-227 | a second rewriting forgets the first |
| Links.RewriteMerges | subscription.go:218-227 | links differing only in host and port are rewritten to the same link |
| Links.ReadBackIff | subscription_fetch.go:50-74 | reading a rewritten link panics exactly when `url.Parse` rejects it; otherwise the new host is read back, and the new port exactly when nothing or a query follows it; else the port read is 0 |
| Links.NoServerRead | subscription_fetch.go:50-78 | without `@` or a known scheme there is no host and no port |
| Strings.AtoiMeaning | subscription_fetch.go:61 | a number, with or without a sign, is read as it is or cut to the nearest that fits |
| Links.ReadBackOrdinary | subscription_fetch.go:50-74 | for ordinary links with any path, query and remark the same, with rejection told part by part: bytes and escapes of user and host, control bytes in path and query, escapes in path and remark |
| Urls.EscapesFrom | subscription_fetch.go:64 | a percent sign with two hexadecimal digits is accepted, and nothing else with a percent sign is |
| Urls.EscapesAround | subscription_fetch.go:64 | text without a percent sign is accepted |
| Urls.HostFrom | subscription_fetch.go:64 | in a host an escape must stand for a byte outside ASCII or for the percent sign |
| Urls.HostBytesSpelled | subscription_fetch.go:64 | which bytes user and host may hold as they are |
| Urls.UserParts | subscription_fetch.go:64 | user name and password need legal bytes and well-formed escapes each |
| Urls.BracketHost | subscription_fetch.go:64 | a host in brackets may be followed by nothing but a port |
| Urls.OrdinaryAccepted | subscription_fetch.go:64 | names, addresses and UUIDs of letters, digits, dots and dashes are always accepted |
| Links.PercentRemarkCrashes | subscription_fetch.go:64-65 | any such link with a remark ending in a bare percent sign panics |
| Links.GarbageAfterPortCrashes | subscription_fetch.go:64-65 | so does any link with anything but a query, path or remark right behind the port |
| Metrics.ConnectionMetrics.RecordConnection | metrics.go:34-43 | the window is always the last 100 connections of the history |
| Metrics.ConnectionMetrics.ConnsPerMinute | metrics.go:77-88 | the count is that of the whole history, capped at 100 |
| Metrics.CountIsNumber | metrics.go:81-86 | it is the number of connections strictly after the cutoff |
| Metrics.WindowCounts | metrics.go:77-88 | in an ordered history counting in the window is counting in the history, capped at the window's size |

## Left out

- Sockets, TLS handshakes, Reality dialling, deadlines and `systemctl`: foreign code; dialling is a yes or no.
- The two copying goroutines of one connection run one after the other in `Proxy.ProxyToBackend`. They share no stream;
  when one closes a connection under the other, that only ends the other's stream earlier, and streams end anywhere.
- A `Read` that returns no bytes and no error for a non-empty buffer, which Go's documentation discourages.
- Debug logging, except for the 64-byte array that shows the header, and the test-target override.
- Proxy.HandleClient: the lookup of the active backend is an argument.
- UuidText.ParseUUID: a pair of bytes that is one non-ASCII character is treated like any non-digit.
- Health.HealthChecker.ProbeRound: the callbacks are returned as a list and not run in between.
- Observatory.ObservatoryWatcher.ReadNewLines: the offset counts whole lines; half-written lines and lines longer than
  the scanner's buffer are not modelled, nor are notifications overtaking each other in their goroutines. Other writers
  of the status table do not come in between.
- XrayConfig.XrayFile.Rewrite: JSON is reduced to outbounds and rules, and all else in the file to nothing; a port field
  is the number it stands for.
- BalancerModel.RoutingFromStart: runs in which a write of the file fails half way are excluded, because such a write
  may leave anything behind; failed reads are included.
- Balancer.LoadBalancer.TryFailback: no other part of the program calls it, but it is one of the model's events.
- Balancer.LoadBalancer.Tick and Balancer.LoadBalancer.CheckSubscriptions: other steps in between are runs of
  `BalancerModel`, and the cascade and the final choice are stated for an uninterrupted turn.
- Links.RewriteShape: vmess links, whose JSON is not modelled, and new hosts containing `$`, which the regular expression
  library would expand.
- Links.ReadBackIff: the server name taken from the query. `url.Parse` is that of Go 1.24; patch releases from 1.24.8 on
  also demand that a bracketed host is an IP address.
- Subscription.GenerateSubscription: the links generated from settings, and the rewritten vmess links, are arguments.
- Subscription.ParseBody: the HTTP request.
- The failure window, the remaining counters and the snapshot of the metrics would repeat what is shown for connections.
- The admin panel, sessions, templates, QR codes, certificates and the database; loading backends is an arbitrary new list.
