# Verified model of the Bright CLI core

The Bright CLI is a command-line client around HTTP, sockets and child processes. This project
models the algorithms and state machines inside it and proves what they promise, for every
input and every interleaving. `dafny verify dfyconfig.toml` checks all of it.

| file | part of the program |
|---|---|
| `Text.dfy`, `Collections.dfy` | options, joining, substrings; sequence helpers and maps in insertion order |
| `ShellEscape.dfy` | escaping of Windows command lines, and the two readers that undo it: cmd.exe (one line, carets, quote mode, operators) and the argument rules of the Microsoft C runtime |
| `Wildcard.dfy` | wildcards compiled to regular expressions; a reader and a matcher for those expressions |
| `Pool.dfy` | the promise pool |
| `Redaction.dfy`, `Registry.dfy` | secrets in error messages; the registry of repeater child processes |
| `Icmp.dfy`, `Traceroute.dfy`, `SlowLookups.dfy` | ICMP messages (RFC 792 behind headers of RFC 791 section 3.1); the probe machine; its runs with slow reverse lookups |
| `Certificates.dfy` | certificate cache, resolver and the attempts that fill the cache |
| `Scripts.dfy` | the script store and updates from the cloud |
| `EntryPoints.dfy`, `Backoff.dfy`, `Polling.dfy` | paging, retries, waiting for a scan |
| `AttackLocations.dfy`, `Headers.dfy`, `RequestTarget.dfy`, `Deflate.dfy` | shaping of requests and streams |

Asynchronous code is a transition system with one event per synchronous stretch between awaits;
a history is any sequence of events whose guards hold, so theorems over histories hold for every
interleaving. Where the order of two microtasks is fixed by the engine, the model allows both; a
history of the probe machine ends with its stop verdict. Objects whose methods update fields are
classes, and each method is tied to the specification the lemmas speak about. The registry and the polling
loop keep the event log as part of the state.

## Where the code does less than one would expect

The named members give the failing case and say exactly when the code behaves.

- Of what its two layers read, escaping a command line cannot carry line breaks and NULs (`EscapeRoundTripExactly`).
- A wildcard's `.*` stops at line terminators; on other hosts the meaning is kept (`CompilePreservesMeaningExactly`).
- Redaction can write a secret back when the secret overlaps the text `[Filtered]` (`WordInsideMarkLeaks`, `SafeAmongAnyExactly`, for a single secret `OneSecretSafeExactly`, and for the token of a run `TokenHiddenExactly`).
- A secret given inline is collected only up to its own first `=`; what follows is not masked (`CutValueEscapes`, `InlineValueExactly`, `InlineCollectedExactly`).
- A child that cannot be spawned reports an error and no exit, and its id is then refused for good (`SpawnErrorExample`, `RunLetInExactly`).
- Answers are read 20 bytes into the packet, so behind an IPv4 header with options they are misread (`ReplyMisread`, `ErrorMisread`, `OuterHeaderExactly`).
- Repeated or forged answers to one probe each schedule a send; any number of packets can go out, past the hop limit, for all options but one probe to one hop (`RepeatedAnswersPassLimit`, `HopLimitExactly`). A stray message before the first packet does it for those too (`StrayPassesLimit`).
- With one answer per probe, a reverse lookup slower than the probe timeout still handles its probe twice: with several probes per hop any number of packets can go out, with one up to 2 * hops - 1 (`PacketsBoundedExactly`, `LimitKeptExactly`).
- Without a probe per hop a trace never stops (`BoundedExactly`). Ports beyond 65535 are never recognised, so all answers of a trace are exactly when probes * hops is at most 32102 (`CurrentTakenExactly`, `AllTakenExactly`).
- A server with pages under 50 is read short (`SmallPagesReadShort`, `FirstItemsExactly`).
- A local script loaded after a cloud update shares the store with it (`LateLocalMixes`, `LoadMixesExactly`, `MixedExactly`); an update that throws half-way stays half stored (`UpdateIsExclusive`, `AcceptedWhole`).
- A certificate registered for port 443 is not found for a wss URL without an explicit port (`WssDefaultPortMissed`, `PortedCertFoundExactly`).
- A single-value header given under two spellings goes out twice (`TwoSpellingsTwoLines`, `LinesPerSpelling`).

## Model

| member | source | states |
|---|---|---|
| `ShellEscape.CoreIsTwoReplacements` | src/Utils/Helpers.ts:278-280 | the two backslash replacements together double every run before a quote, add one, and double the run at the end |
| `ShellEscape.CaretExactly` | src/Utils/Helpers.ts:41 | which characters get a caret |
| `ShellEscape.ScanQuoted` | src/Utils/Helpers.ts:275-285 | the C runtime reads a quoted argument back verbatim, whatever backslashes and quotes it holds |
| `ShellEscape.RemoveCaretsOf` | src/Utils/Helpers.ts:284 | cmd.exe takes the carets off again and never enters quote mode or sees an operator inside an escaped argument |
| `ShellEscape.EscapeRoundTrip` | src/Utils/Helpers.ts:160-163 | the shell line built from any path and any arguments without line breaks and NULs delivers exactly those arguments, empty ones and trailing backslashes included |
| `ShellEscape.EscapeRoundTripExactly` | src/Utils/Helpers.ts:274-285 | the line delivers the arguments if and only if none holds a line break or a NUL |
| `ShellEscape.GetExecArgs` | src/Utils/Helpers.ts:121-171 | the command carries, and on Windows its escaped form delivers, the engine's arguments, then the own ones, then the included ones, each in order, and exactly those that are not excluded and not the packaged entry point |
| `ShellEscape.IntendedExactly` | src/Utils/Helpers.ts:135-153 | that choice of arguments is unique and is what the code computes |
| `ShellEscape.SpawnedArgs` | src/Utils/Helpers.ts:137-143 | a spawned child is meant to see the engine's arguments, the script and the included arguments, in that order |
| `Wildcard.PatternParses` | src/Utils/Helpers.ts:201-203 | the generated text is a well-formed regular expression for every wildcard, and which one |
| `Wildcard.MatchesIsOneLineGlob` | src/Utils/Helpers.ts:201-203 | the expression accepts exactly the hosts of the wildcard when a star holds no line terminator |
| `Wildcard.CompilePreservesMeaning` | src/Utils/Helpers.ts:309-311 | on hosts without line terminators the expression accepts exactly the hosts of the wildcard |
| `Wildcard.CompilePreservesMeaningExactly` | src/Utils/Helpers.ts:201-203 | every wildcard keeps its meaning on a host if and only if the host has no line terminator |
| `Wildcard.RunsMeanOneStar` | src/Utils/Helpers.ts:202 | a further star beside a star changes no match |
| `Wildcard.MatchesItself` | src/RequestExecutor/DefaultCertificatesResolver.ts:33-35 | every wildcard matches its own text |
| `Wildcard.PlainMatchesOnlyItself` | src/Utils/Helpers.ts:309-311 | a wildcard without a star matches its own text and nothing else |
| `Pool.NeverTooMany` | src/Utils/Helpers.ts:193-195 | at every moment of every interleaving at most max(1, limit) tasks are in flight |
| `Pool.AwaitsOnlyWhenFull` | src/Utils/Helpers.ts:193-195 | the pool awaits a free place only when it is full |
| `Pool.NeverIdle` | src/Utils/Helpers.ts:182-195 | with items left and fewer than max(1, limit) tasks in flight the pool can go on without another task settling |
| `Pool.LimitIsMet` | src/Utils/Helpers.ts:182-195 | min(max(1, limit), n) tasks can be in flight at once |
| `Pool.FailureEnds` | src/Utils/Helpers.ts:193-198 | a failure that reaches an await ends the pool with its error, for good |
| `Pool.StartsInOrder` | src/Utils/Helpers.ts:182-185 | items are started once each, in input order |
| `Pool.CallbackFindsItsMember` | src/Utils/Helpers.ts:187-189 | a callback always finds its own pool member (the index is never -1) and takes out that one only |
| `Pool.ResultsBelongToItems` | src/Utils/Helpers.ts:198 | on success result i comes from the task of item i; a rejection carries a failed task's error |
| `Pool.NeverStuck` | src/Utils/Helpers.ts:173-199 | with nothing in flight and no callback due an unfinished pool can go on |
| `Pool.RunsEnd` | src/Utils/Helpers.ts:173-199 | no interleaving has more than 4n + 2 events |
| `Redaction.MaskScans` | src/Mcp/DefaultRepeaterTools.ts:285 | split-and-join equals replacing the leftmost occurrences from left to right |
| `Redaction.RedactRemoves` | src/Mcp/DefaultRepeaterTools.ts:281-288 | a secret no part of which can be read off the mark is gone from every redacted text, whatever the other secrets |
| `Redaction.PlainSecretsDoNotMeet` | src/Mcp/DefaultRepeaterTools.ts:285 | secrets without brackets that are not inside the word Filtered are of that kind |
| `Redaction.RedactKeepsCleanText` | src/Mcp/DefaultRepeaterTools.ts:281-288 | text without secrets is unchanged |
| `Redaction.RedactMasksWhole` | src/Mcp/DefaultRepeaterTools.ts:283 | longest first masks a secret as a whole even when it contains shorter secrets |
| `Redaction.OneSecretSafeExactly` | src/Mcp/DefaultRepeaterTools.ts:281-288 | with one secret, redaction is safe for every text if and only if the secret passes a test on itself |
| `Redaction.SafeAmongAnyExactly` | src/Mcp/DefaultRepeaterTools.ts:281-288 | a secret is safe among any other secrets and in any text if and only if no part of it can be read off the mark |
| `Redaction.ExposedByAnother` | src/Mcp/DefaultRepeaterTools.ts:281-288 | for any longer secret that meets the mark, a second secret and a text that bring it back |
| `Redaction.WordInsideMarkLeaks` | src/Mcp/DefaultRepeaterTools.ts:285 | redacting the secret Filter writes it again |
| `Redaction.CollectSensitiveValues` | src/Mcp/DefaultRepeaterTools.ts:259-275 | the collected values are exactly the inline values of sensitive options and the arguments after one |
| `Redaction.TokenIsSecret` | src/Mcp/DefaultRepeaterTools.ts:160-172 | the token placed in the arguments is always collected |
| `Redaction.TokenNeverShown` | src/Mcp/DefaultRepeaterTools.ts:277-279 | no message redacted for a run shows its token, if the token cannot be read off the mark |
| `Redaction.TokenHiddenExactly` | src/Mcp/DefaultRepeaterTools.ts:259-288 | a token that spells no sensitive option is hidden for every id, host name and message if and only if no part of it can be read off the mark |
| `Redaction.InlineValueExactly` | src/Mcp/DefaultRepeaterTools.ts:263 | an inline value is read up to its own first equals sign, so whole if and only if it has none |
| `Redaction.InlineCollectedExactly` | src/Mcp/DefaultRepeaterTools.ts:262-274 | a value given inline is collected if and only if it has no equals sign or another argument gives it away |
| `Redaction.IdSecretsExactly` | src/Mcp/DefaultRepeaterTools.ts:78-79 | what a run collects when its id spells a sensitive option with a value |
| `Redaction.HostnameGivesAway` | src/Mcp/DefaultRepeaterTools.ts:160-172 | a host name that spells a sensitive option gives its value away too |
| `Redaction.CutValueEscapes` | src/Mcp/DefaultRepeaterTools.ts:259-288 | for such an id, the rest of the value after its first equals sign goes through redaction unchanged |
| `Registry.LiveChildIsStored` | src/Mcp/DefaultRepeaterTools.ts:67-101 | in every history each child that has not exited is the stored one, so an id never has two live children |
| `Registry.CleanupSparesOthers` | src/Mcp/DefaultRepeaterTools.ts:103-110 | the late cleanup of a failed start removes its own entry if and only if that is still stored and has exited, and never another |
| `Registry.RunLetInExactly` | src/Mcp/DefaultRepeaterTools.ts:71-76 | for every id and token, why a run is refused: with both it is let in if and only if every child ever started under the id has exited |
| `Registry.RunAddsChild` | src/Mcp/DefaultRepeaterTools.ts:92-100 | a run that is let in adds one live child and stores it under its id; any other changes nothing |
| `Registry.ChildOfRun` | src/Mcp/DefaultRepeaterTools.ts:92-97 | every child has the id, token and host name of a run that was let in |
| `Registry.ChildArguments` | src/Mcp/DefaultRepeaterTools.ts:78-85 | the child is meant to see the script, the repeater command, and token, id and host name behind their options |
| `Registry.SpawnErrorBlocksId` | src/Mcp/DefaultRepeaterTools.ts:203-213 | as long as a child reports no exit, every run of its id is refused |
| `Registry.SpawnErrorExample` | src/Mcp/DefaultRepeaterTools.ts:103-110 | run, spawn error, cleanup: the id stays refused |
| `Registry.StartedStays` | src/Mcp/DefaultRepeaterTools.ts:215-257 | a start reported as running is never reported as failed nor cleaned up |
| `Registry.StartExactly` | src/Mcp/DefaultRepeaterTools.ts:215-257 | how a start stands, read off the events: waited for until the first exit, error or grace timer, and successful if and only if that was the timer |
| `Registry.ExitIsKept` | src/Mcp/DefaultRepeaterTools.ts:203-213 | exit code and redacted error are kept for good, and an exit or error while the start is waited for fails it |
| `Registry.KillsHitStoredChild` | src/Mcp/DefaultRepeaterTools.ts:115-148 | signals, the delayed SIGKILL included, only go to the live child stored for its id |
| `Registry.SignalsExactly` | src/Mcp/DefaultRepeaterTools.ts:115-148 | a stop sends the caller's signal or SIGTERM to the live child of its id, if there is one, and arms its timer; a timer sends SIGKILL if and only if the child still runs; no other event signals |
| `Registry.StoppedIsKilled` | src/Mcp/DefaultRepeaterTools.ts:132-146 | a stopped child that does not exit before its timer gets the first signal and then SIGKILL |
| `Registry.ErrorsHideToken` | src/Mcp/DefaultRepeaterTools.ts:206-208 | in every history no recorded error shows the token of its run, if that token cannot be read off the mark |
| `Registry.RepeaterTools.RunTool` | src/Mcp/DefaultRepeaterTools.ts:67-101 | takes the registry from state to state as the transition system does, and why it refuses |
| `Registry.RepeaterTools.OnExit` | src/Mcp/DefaultRepeaterTools.ts:209-212 | records the exit and fails a start still waited for |
| `Registry.RepeaterTools.OnError` | src/Mcp/DefaultRepeaterTools.ts:206-208 | records the redacted error and fails a start still waited for |
| `Registry.RepeaterTools.OnGrace` | src/Mcp/DefaultRepeaterTools.ts:248-251 | settles the start as successful |
| `Registry.RepeaterTools.OnFailedStart` | src/Mcp/DefaultRepeaterTools.ts:105-110 | removes the entry only if it is still stored and has exited |
| `Registry.RepeaterTools.StopTool` | src/Mcp/DefaultRepeaterTools.ts:115-132 | sends the caller's signal, or SIGTERM, to the stored child if it is live |
| `Registry.RepeaterTools.OnStopTimeout` | src/Mcp/DefaultRepeaterTools.ts:139-140 | kills the same child if it still runs |
| `Icmp.ParseIdFromIcmpMessage` | src/Utils/Traceroute.ts:204-233 | when reading throws, finds nothing or gives an id; errors of at least 21 bytes are never read out of range |
| `Icmp.RequestIsEcho` | src/Utils/Traceroute.ts:294-316 | the request of a probe is an RFC 792 echo request: type 8, code 0, checksum, identifier and sequence in 16 bits, data of ones |
| `Icmp.EchoReplyRoundTrip` | src/Utils/Traceroute.ts:294-326 | behind an outer header without options an echo reply gives back the sequence of the request modulo 65536 |
| `Icmp.ErrorRoundTrip` | src/Utils/Traceroute.ts:209-232 | so does an error that quotes the request behind an inner IPv4 header of any legal length |
| `Icmp.ReplyMisread` | src/Utils/Traceroute.ts:204-233 | for every longer outer header, a reply to sequence 1 that reads as 0 |
| `Icmp.ErrorMisread` | src/Utils/Traceroute.ts:204-233 | for every longer outer header, an error quoting sequence 1 that reads as 0 |
| `Icmp.OuterHeaderExactly` | src/Utils/Traceroute.ts:204-233 | for every legal length of the outer header, all echo replies, and all errors, give back their sequence if and only if the header is 20 bytes long |
| `Traceroute.MakeOptions` | src/Utils/Traceroute.ts:57-65 | hops are within 1..255, the given number if it is, else 64; probes are the given number, else 3; the destination is kept |
| `Traceroute.PortNamesProbe` | src/Utils/Traceroute.ts:150-163 | after every send in every interleaving port = 33433 + (ttl-1)*P + probes with 1 <= probes <= P |
| `Traceroute.SendsMatchReplies` | src/Utils/Traceroute.ts:248-292 | packets sent and scheduled match the timers that fired and the lookups that ended, one for one |
| `Traceroute.ProbesBounded` | src/Utils/Traceroute.ts:277-291 | while sends are scheduled one at a time ttl stays within the hop limit and at most P*hops packets go out |
| `Traceroute.BoundedExactly` | src/Utils/Traceroute.ts:151-156 | with sends scheduled one at a time the number of packets is bounded if and only if there is at least one probe per hop |
| `Traceroute.NeverStopsWithoutProbes` | src/Utils/Traceroute.ts:277-287 | with no probe per hop no history that has sent a packet stops |
| `Traceroute.StopIsExact` | src/Utils/Traceroute.ts:277-287 | a run stops after whole hops, reports the destination if and only if its last event is an answer from there, and otherwise, with sends scheduled one at a time, stops after exactly P*hops packets |
| `Traceroute.HopLimitExactly` | src/Utils/Traceroute.ts:71-86 | over all interleavings without a stray message before the first packet the hop limit holds, and a bound on packets exists, if and only if there is one probe to one hop |
| `Traceroute.RepeatedAnswersPassLimit` | src/Utils/Traceroute.ts:82-85 | for all other options, a history of repeated answers with any number of packets past the hop limit |
| `SlowLookups.AnswersWithinSends` | src/Utils/Traceroute.ts:71-86 | with one answer per probe there are at every moment no more answers than packets |
| `SlowLookups.OneProbePerHopBounded` | src/Utils/Traceroute.ts:235-292 | with one probe per hop and one answer per probe at most 2*hops - 1 packets go out, however slow the lookups |
| `SlowLookups.BoundIsMet` | src/Utils/Traceroute.ts:235-292 | that many do go out when every probe below the last hop times out before its lookup ends |
| `SlowLookups.OverTheHop` | src/Utils/Traceroute.ts:235-292 | with several probes per hop, slow lookups carry the run past the last probe of a hop and leave a send to spare |
| `SlowLookups.PacketsBoundedExactly` | src/Utils/Traceroute.ts:71-86 | over all interleavings with one answer per probe the packets are bounded if and only if there is one probe per hop, and then by 2*hops - 1 and nothing less |
| `SlowLookups.LimitKeptExactly` | src/Utils/Traceroute.ts:71-86 | over all interleavings with one answer per probe the hop limit holds if and only if there is one probe to one hop |
| `Traceroute.StrayPassesLimit` | src/Utils/Traceroute.ts:82-85 | a matching message before the first packet lets every limit be passed |
| `Traceroute.StaleNeverTaken` | src/Utils/Traceroute.ts:82 | an answer to an earlier probe, behind an outer header without options, is never taken for the current one |
| `Traceroute.CurrentTakenExactly` | src/Utils/Traceroute.ts:71-86 | the answer to the current probe, behind an outer header without options, is taken if and only if its port is at most 65535 |
| `Traceroute.SilentRun` | src/Utils/Traceroute.ts:150-163 | for every n up to P*hops, the run in which nothing answers up to its n-th packet |
| `Traceroute.AllTakenExactly` | src/Utils/Traceroute.ts:71-86 | every answer to every probe of every run with sends scheduled one at a time is recognised if and only if P*hops <= 32102 |
| `Traceroute.Tracer.SendPacket` | src/Utils/Traceroute.ts:150-163 | takes the machine from state to state as a send does |
| `Traceroute.Tracer.HandleReply` | src/Utils/Traceroute.ts:248-292 | takes the machine from state to state as a timeout or a finished lookup does, and gives its stop verdict |
| `Traceroute.Tracer.Probe` | src/Utils/Traceroute.ts:150-292 | one probe and its answer keep the port equation and leave exactly one send scheduled, or stop |
| `Traceroute.Tracer.Execute` | src/Utils/Traceroute.ts:89-123 | the destination counts as reached if and only if it answers the last probe of a hop; the run ends at the first such hop or at the limit, and is a history of the machine |
| `Certificates.KeyInjective` | src/RequestExecutor/DefaultCertificatesCache.ts:22-26 | two requests share a key if and only if they share host and port |
| `Certificates.EqualityIsFastPath` | src/RequestExecutor/DefaultCertificatesResolver.ts:28-47 | the equality test before the wildcard changes no answer |
| `Certificates.FilterPicks` | src/RequestExecutor/DefaultCertificatesResolver.ts:23-25 | exactly the suitable certificates are kept, in order of registration |
| `Certificates.PortedCertFoundExactly` | src/Utils/Helpers.ts:250-255 | a certificate registered for a port is found if and only if its host matches and its port is the URL's, or the default one of http or https |
| `Certificates.PlainCertFoundExactly` | src/RequestExecutor/DefaultCertificatesResolver.ts:41-44 | one registered without a port is found if and only if its host matches |
| `Certificates.WssDefaultPortMissed` | src/Utils/Helpers.ts:250-255 | a certificate for any host and port 443 is not found for a wss URL without a port |
| `Certificates.CachedSuitsRequest` | src/RequestExecutor/HttpRequestExecutor.ts:603-632 | in every interleaving a cached certificate is registered and matches every request that reads it |
| `Certificates.CachedBySuccess` | src/RequestExecutor/HttpRequestExecutor.ts:616-617 | a key gets into the cache if and only if an attempt for it succeeds, with that attempt's certificate |
| `Certificates.FirstSuccessIsCached` | src/RequestExecutor/HttpRequestExecutor.ts:603-632 | in every interleaving what is cached for a key is the certificate of the first attempt for it that succeeded |
| `Certificates.RequestTries` | src/RequestExecutor/HttpRequestExecutor.ts:603-632 | a request tries the cached certificate alone, or every suitable one, one attempt each in order |
| `Certificates.CacheOnlyGrows` | src/RequestExecutor/DefaultCertificatesCache.ts:10-16 | a cached certificate never changes |
| `Certificates.ResolveShortcutsFilter` | src/RequestExecutor/DefaultCertificatesResolver.ts:14-26 | resolving gives a sub-list of the plain filter, empty if and only if the filter is |
| `Certificates.CertificatesCache.Add` | src/RequestExecutor/DefaultCertificatesCache.ts:10-16 | the first writer of a key wins |
| `Scripts.KeysAreIds` | src/Scripts/DefaultVirtualScripts.ts:48-56 | in every history each key is its script's id and no key comes twice |
| `Scripts.UpdateIsExclusive` | src/Repeater/DefaultRepeaterCommandHub.ts:18-36 | after an update the store is the local scripts alone, or exactly the update's entries up to the first that throws |
| `Scripts.UpdateStores` | src/Repeater/DefaultRepeaterCommandHub.ts:29-35 | without local scripts an update stores its entries in order, each under its key with its own code, up to the first that has no key, no code or does not compile |
| `Scripts.AcceptedWhole` | src/Repeater/DefaultRepeaterCommandHub.ts:29-35 | without local scripts an update is stored whole, in order, if and only if every entry is accepted |
| `Scripts.UpdateKeepsLocals` | src/Repeater/DefaultRepeaterCommandHub.ts:18-27 | no update removes, replaces or reorders a local script |
| `Scripts.LoadStores` | src/Scripts/FSScriptLoader.ts:22-33 | a local load puts its own code under its key, at the place of that key or at the end, and changes nothing else |
| `Scripts.LastLoadIsStored` | src/Scripts/FSScriptLoader.ts:22-33 | in every history the script of the last accepted load of a key stays stored under it |
| `Scripts.OfKindPicks` | src/Scripts/DefaultVirtualScripts.ts:18-28 | choosing a kind keeps exactly its scripts, in order |
| `Scripts.NeverMixed` | src/Repeater/DefaultRepeaterCommandHub.ts:18-36 | with the local loads first the store is all local or exactly the last update |
| `Scripts.LoadMixesExactly` | src/Scripts/FSScriptLoader.ts:22-33 | an accepted local load leaves both kinds in the store if and only if a cloud script of another key is there |
| `Scripts.RemotesExactly` | src/Repeater/DefaultRepeaterCommandHub.ts:18-36 | which cloud scripts are stored after any history, read off the events |
| `Scripts.MixedExactly` | src/Repeater/DefaultRepeaterCommandHub.ts:18-36 | after any history both kinds are stored if and only if a local script was loaded and a key of the last update came before, and escaped, every accepted local load |
| `Scripts.LateLocalMixes` | src/Scripts/FSScriptLoader.ts:22-33 | an update and then a local load of another key leave both kinds in the store |
| `Scripts.VirtualScripts.Set` | src/Scripts/DefaultVirtualScripts.ts:48-56 | a script that throws leaves the store as it was; a present key keeps its place |
| `Scripts.VirtualScripts.Clear` | src/Scripts/DefaultVirtualScripts.ts:18-28 | deleting while iterating leaves exactly the scripts of the other kind, in order |
| `Scripts.VirtualScripts.Find` | src/Scripts/DefaultVirtualScripts.ts:38-42 | the first matching entry in insertion order, and nothing only if none matches |
| `Scripts.VirtualScripts.Count` | src/Scripts/DefaultVirtualScripts.ts:62-72 | the number of scripts of a kind |
| `Scripts.VirtualScripts.CompileScripts` | src/Repeater/DefaultRepeaterCommandHub.ts:18-36 | takes the store from state to state as an update does, keeps the locals, and when it throws |
| `EntryPoints.ListEntryPoints` | src/EntryPoint/RestEntryPoints.ts:56-89 | what the loop fetches from any server, with at most ceil(limit/50) requests |
| `EntryPoints.NeverMoreThanLimit` | src/EntryPoint/RestEntryPoints.ts:66-88 | a server that keeps to the page limit cannot make the result exceed the limit |
| `EntryPoints.FirstItems` | src/EntryPoint/RestEntryPoints.ts:66-88 | against a list server that fills its pages the result is the first min(limit, n) items |
| `EntryPoints.FirstItemsExactly` | src/EntryPoint/RestEntryPoints.ts:85 | with any page cap, that holds if and only if the cap covers min(limit, 50) or the list is no longer than (limit-1)/50 pages of min(50, cap) items and a last page |
| `EntryPoints.SmallPagesReadShort` | src/EntryPoint/RestEntryPoints.ts:85 | of every list of at least 100 items, pages of 20 under a limit of 100 give 40 |
| `Backoff.Backoff.Execute` | src/Utils/Backoff.ts:12-24 | which call's outcome comes out, how deep the instance is afterwards and how long it waited |
| `Backoff.Backoff.Retry` | src/Utils/Backoff.ts:27-44 | the same one level deeper, after the wait |
| `Backoff.RunFresh` | src/Utils/Backoff.ts:12-44 | a fresh instance makes at most maxDepth + 1 calls and gives the first success, the first error not to retry, or the one that used up the budget |
| `Backoff.TotalWaitFormula` | src/Utils/Backoff.ts:30 | n retries wait 1000n ms up to four, then 2400 + 100 * 2^n ms in all |
| `Backoff.RunAll` | src/Utils/Backoff.ts:5-10 | over any number of uses one instance retries at most maxDepth times, and how long it waits in all |
| `Backoff.UseUp` | src/Utils/Backoff.ts:18-20 | a task that keeps failing gets exactly the retries left, so the whole budget if and only if the instance is fresh |
| `Polling.RangeIsUpwards` | src/Scan/Severity.ts:8-21 | the table holds exactly the severities at or above the chosen one |
| `Polling.ExceptedExactly` | src/Scan/Breakpoints/OnSeverity.ts:20-24 | a breakpoint trips if and only if there is an issue at or above its severity, by the counter of each severity |
| `Polling.ChecksExactly` | src/Scan/BasePolling.ts:45-100 | the breakpoint sees exactly the states in progress (running, pending, scheduled, queued), in order, and the poll ends on the first other or tripping one |
| `Polling.EndsInactive` | src/Scan/BasePolling.ts:56-68 | however it ends, the poll is inactive and its timer cleared; the error of a failed status call is handed on |
| `Polling.NeverStuck` | src/Scan/BasePolling.ts:70-91 | until it ends the poll can go on, and its timer runs if and only if it was given a timeout that has not passed |
| `Polling.AtMostOneLate` | src/Scan/BasePolling.ts:70-91 | after the timeout at most one more state is received |
| `Polling.LowerFiresNoLater` | src/Scan/Breakpoints/OnSeverity.ts:9-24 | over one stream of states a lower-severity breakpoint ends its run no later than a higher one, whatever the timing of the two runs |
| `AttackLocations.ReplaceDeprecated` | src/Scan/RestScans.ts:175-221 | the result is the non-deprecated values in order followed by the new names that were missing |
| `AttackLocations.NamesAreRenamed` | src/Scan/RestScans.ts:175-221 | no deprecated value is left and the values are exactly the renamed ones |
| `AttackLocations.OrderKept` | src/Scan/RestScans.ts:183-195 | every value that is not deprecated has its own place in the result, and the places come in the old order |
| `AttackLocations.NewNamesLast` | src/Scan/RestScans.ts:187-221 | new names are added last, the fragment before the query |
| `AttackLocations.KeepsNoDuplicates` | src/Scan/RestScans.ts:187-196 | a list without duplicates stays so |
| `AttackLocations.Idempotent` | src/Scan/RestScans.ts:175-221 | rewriting twice is rewriting once; a list is unchanged if and only if it has no deprecated value |
| `Headers.TwoCallsAreOne` | src/RequestExecutor/Request.ts:139-157 | two calls of setHeaders equal one with the merged object, key order included |
| `Headers.CallsAreOne` | src/RequestExecutor/Request.ts:139-157 | so does any number of calls |
| `Headers.MergeExactly` | src/RequestExecutor/Request.ts:140-143 | merged headers hold all of the new object, and of the old one what the new one has no key for |
| `Headers.MergeKeys` | src/RequestExecutor/Request.ts:140-143 | old keys keep their places, new ones follow in their own order |
| `Headers.LinesPerSpelling` | src/RequestExecutor/HttpRequestExecutor.ts:302-319 | among the lines handed to the client a single-value header takes as many as it has spellings, so one if and only if it has one |
| `Headers.TwoSpellingsTwoLines` | src/RequestExecutor/Request.ts:140-143 | two spellings of a single-value header make two lines |
| `Headers.LinesPerHeader` | src/RequestExecutor/HttpRequestExecutor.ts:302-319 | what the lines of each field hold: the joined list for a single-value name, else one line per element in order |
| `Headers.LineReadsBack` | src/RequestExecutor/HttpRequestExecutor.ts:315 | a line gives back the name and the text it was written for, a missing text as empty |
| `Headers.NamelessSkipped` | src/RequestExecutor/HttpRequestExecutor.ts:307 | a header without a name makes no line |
| `Headers.BuildCurlHeaders` | src/RequestExecutor/HttpRequestExecutor.ts:302-319 | the lines of all headers in order, nameless ones skipped |
| `Headers.ApplyCurlHeaders` | src/RequestExecutor/HttpRequestExecutor.ts:263-300 | the caller's lines come first; Connection: close is added if and only if the connection is not kept and no case variant is present |
| `Headers.Request.Set` | src/RequestExecutor/Request.ts:139-157 | replaces the headers by the merged and joined ones |
| `RequestTarget.TargetIsTail` | src/RequestExecutor/HttpRequestExecutor.ts:216-227 | the target of a composed URL is its tail verbatim, with a slash added only when missing |
| `RequestTarget.TargetWithoutScheme` | src/RequestExecutor/HttpRequestExecutor.ts:216-227 | the same for a text without a scheme |
| `RequestTarget.TargetIsSuffix` | src/RequestExecutor/HttpRequestExecutor.ts:216-227 | for any text the target starts with a slash and is otherwise an unchanged end of the text |
| `Deflate.NormalizeZlibDeflate.Transform` | src/Utils/NormalizeZlibDeflateTransformStream.ts:7-22 | after every chunk the output is the normalised input so far |
| `Deflate.TransformAll` | src/Utils/NormalizeZlibDeflateTransformStream.ts:7-22 | the output depends on the whole stream only, not on how it is cut |
| `Deflate.HeaderExactly` | src/Utils/NormalizeZlibDeflateTransformStream.ts:12-18 | the header is added if and only if the stream is not empty and does not begin with 78; doing it twice changes nothing more |

## Left out

- Network and library calls (HTTP clients, web sockets, raw sockets, character-set conversion, argument parsing): their outcomes are arbitrary inputs.
- cmd.exe variable expansion (`%VAR%`, delayed expansion): an argument holding such text can still be changed before the two layers modelled here read it.
- Regular expressions other than those the wildcard compiler can write; JavaScript strings are sequences of characters, so surrogate pairs count as one.
- URL parsing: a request carries its host, port and scheme.
- Header names that look like array indices, which JavaScript objects move to the front.
- Lower-casing of header names: any function stands for it.
- Response truncation (`truncateResponse`, `truncateBody`).
- Which certificate bytes a racing attempt sends, and certificate files: only resolution and caching are modelled.
- Compiling and running scripts: a script is its text and whether it compiles.
- Traceroute over UDP, printing and timing; the timer is armed together with the send. Sends still scheduled when the run stops go to a closed socket and are not followed.
- A second `error` event of a child process after its handlers are gone; the texts of status reports.
- Polling intervals and the retries inside one status call: a status call gives a state or fails.
- Command builders, other REST wrappers, configuration, logging, wizard, archive parsers and schemas: plumbing, user interface and library validation.
