# Verification of mavlink-doctor

A Dafny model of the parts of mavlink-doctor whose correctness depends on interleaving, on
long runs or on arithmetic, with proofs about it. `dafny verify dfyconfig.toml` checks
everything.

| Files | What they model |
|---|---|
| `UdpListener*`, `UdpStreamServer` | the UDP stream listener as a system of interleaved steps of `readLoop`, consumers and `Close`, its invariant, what follows from it, and the objects whose methods take those steps |
| `Chunker`, `EndToEnd` | the simulator's chunking goroutine, and its stream through a link and the listener |
| `Metrics`, `MetricsRecords`, `MetricsTracker`, `MetricsSnapshot` | the tracker: what each operation makes of the statistics, the records updated in place, the tracker object, snapshots |
| `LinkLoss`, `ComponentLoss`, `Occurrences`, `Conservation`, `Projection`, `Sightings`, `LastShown`, `Jitter`, `Rates`, `HeartbeatHistory`, `MapSums` | what the tracker's numbers mean over whole runs |
| `Bytes`, `Subnet`, `SubnetHosts`, `SubnetProbe`, `WorkerPool`, `ProbeSubnet` | CIDR masks as intervals, the address generator on byte arrays, the bounded worker pool, and the two together |
| `Text`, `Redaction*`, `SupportReport` | `maskIP` as a scanner and rewriter, and the in-place pass over a report |

How the pieces fit: a class method that changes state is proved against a function on values
(`UdpListener.Step`, `Metrics.Apply`, `SubnetProbe.Next`, ...), and the theorems are about
those functions and about all the runs built from them. Each of the listener's methods moves
the abstract state by the steps its contract names and keeps `Valid`, which says that the
fields are those of a state that a schedule reaches; so the theorems on schedules hold of the
objects, and the class restates the main ones about its own fields. `MetricsTracker.Track`
does the same for runs of the tracker.

Conventions. Times are nanoseconds handed to the operations, and a run is assumed to have a
clock that does not go back wherever a theorem says `Monotone`. Go's floating-point numbers
are reals and its 64-bit counters natural numbers. Sequence numbers, octets and bytes are
8-bit with explicit wrap-around. A pipe is Go's `io.Pipe`: a write offers its slice and
returns when readers have taken all of it (an empty slice still needs one read) or the pipe
is closed. A consumer reads and closes only the connections that `Accept` gave it. A UDP
payload is shorter than the 65535-byte buffer (RFC 768), so none is cut short.

Where the code differs from its documentation or comments, the model follows the code:

- Sequence numbers are tracked for each system, not for each component as
  docs/ARCHITECTURE.md:63 says. `ComponentLoss.ComponentIsExactIff` says for which order of
  senders the drops of one component are nevertheless the gaps in its own numbers, whatever
  those are; `ComponentLoss.SecondSenderMiscounts` is a run where they are not.
- The documentation calls the drop counts exact. For any order of arrival they follow
  `LinkLoss.LossLaw`; for frames in order and without duplicates they are exact if and only if
  no more than 255 in a row were lost (`LinkLoss.LossIsExactIff`). A frame that is repeated,
  or comes after a later one, adds up to 255 (`LinkLoss.BackwardFrameAdds`).
- The health window is 0.4 to 5 Hz, not the 0.5 to 5 Hz of the comment at
  internal/metrics/tracker.go:177: `HeartbeatHistory.HealthIsRateWindow`,
  `HeartbeatHistory.SlowBeatIsHealthy`. The two agree on a source unless its average interval
  is more than 2000 and at most 2500 milliseconds: `HeartbeatHistory.HealthIsHalfHertzIff`.
- The listener's `Close` can leave one connection open, in real runs:
  `UdpListenerTheorems.CloseCanMissNewSender`, `UdpListenerTheorems.CloseIsSureIff`,
  `UdpListenerTheorems.CloseIsCompleteIff`.
- `generateIPs` treats a bound below 1 as 1, and repeats addresses when the block is all of
  IPv4 and the bound exceeds its 254·2^24 hosts: `SubnetProbe.GenerateIPs`.
- The documentation promises that MAC addresses are masked too; the code masks dotted quads
  only: `RedactionAddresses.DotlessIsKept`. It does not mask every IPv4 address either, nor
  only private ones. An address outside 127.0.0.0/8 is masked where it stands if and only if
  no part of a word comes before or after it and no match that begins earlier in the text runs
  over its first digit: `RedactionPlaces.AddressIsMaskedIff`. An earlier match can do so only
  where a dot comes before the address (`RedactionPlaces.CrossedAfterDot`); if masking leaves
  that match alone, and no dot follows the address, the address stays as it is
  (`RedactionPlaces.CrossedAddressIsKept`), as 10.0.0.1 does in "999.10.0.0.1".
- The comment of `redactResult` speaks of a deep copy; it writes through the slices and
  records that its argument shares with the caller. A listed field of the caller's report is
  left as it was if and only if no match in it is an address outside 127.0.0.0/8:
  `SupportReport.RedactResult`.

## Model

| member | source | states |
|---|---|---|
| UdpListenerProofs.StepKeepsInv | internal/transport/udp_stream_server.go:105-161 | every step of every goroutine keeps the invariant that ties `readLoop`, the consumers and `Close` together: map and connections agree, Accept order, throttled queue, faithful streams, buffer contents, coverage by the sweep |
| UdpListenerProofs.ReachableInv | internal/transport/udp_stream_server.go:94-161 | the invariant holds in every state that some schedule reaches |
| UdpListenerTheorems.AcceptQueueNeverDrops | internal/transport/udp_stream_server.go:120-131 | the `default` branch of the accept send is never taken: when a sender is registered the queue is empty and the connection goes in |
| UdpListenerTheorems.AcceptedOnceInOrder | internal/transport/udp_stream_server.go:120-148 | every registered connection is handed out once, in registration order, with at most one waiting, and no sender gets two |
| UdpListenerTheorems.ReassemblyIsFaithful | internal/transport/udp_stream_server.go:105-136 | what a connection delivers is a prefix of its own sender's datagrams concatenated in arrival order, and all of it while it is open and `readLoop` holds no datagram of that sender |
| UdpListenerTheorems.BufferReuseIsSound | internal/transport/udp_stream_server.go:106-134 | though one array backs all receives, a read gets the next bytes of the datagram being written, which came from that connection's sender |
| UdpListenerTheorems.OnePipeHoldsBytes | internal/transport/udp_stream_server.go:133-134 | in any state at most one connection has bytes waiting |
| UdpListenerTheorems.LastByteReleasesLoop | internal/transport/udp_stream_server.go:133-135 | a read returns `readLoop` to its receive if and only if it has room for all that the pending write still offers |
| UdpListenerTheorems.WriteCanBeRead | internal/transport/udp_stream_server.go:133-135 | from every write to an open connection, an Accept if need be and reads of any size but zero bring `readLoop` back to its receive, with the connection open and all that its sender sent delivered |
| UdpListenerTheorems.AllCanBeDelivered | internal/transport/udp_stream_server.go:105-136 | for every list of datagrams of up to 65535 bytes, from any senders, and every size of the reads, some schedule receives them all in order and delivers every byte to the connection of its sender |
| UdpListenerTheorems.UnreadStallsAll | internal/transport/udp_stream_server.go:133-135 | while `readLoop` writes to an open connection that nobody reads or closes, no schedule receives anything from any sender or registers one |
| UdpListenerTheorems.ClosedStaysClosed | internal/transport/udp_stream_server.go:122-134 | a closed connection never delivers another byte and stays the one of its sender, whose later datagrams are thus discarded |
| UdpListenerTheorems.NothingArrivesAfterClose | internal/transport/udp_stream_server.go:108-131 | once the socket is closed no datagram is received, and only the datagram already held can still register a sender |
| UdpListenerTheorems.SweepShutsAll | internal/transport/udp_stream_server.go:154-158 | when the sweep ends every registered connection is closed |
| UdpListenerTheorems.AtMostOneEscapes | internal/transport/udp_stream_server.go:150-161 | in any state after the sweep at most one connection is open, the last one registered |
| UdpListenerTheorems.EscapedIsHeld | internal/transport/udp_stream_server.go:120-161 | a connection found open at any time after the sweep was registered after it, and its sender is the new one whose datagram `readLoop` held as the sweep ended |
| UdpListenerTheorems.CloseIsCompleteIff | internal/transport/udp_stream_server.go:120-161 | every schedule that finishes `Close` leaves no connection open if and only if `readLoop` was not holding the first datagram of a new sender when the socket closed |
| UdpListenerTheorems.CloseCanMissNewSender | internal/transport/udp_stream_server.go:108-161 | from every reachable state in which `readLoop` waits for a datagram, any datagram of an unregistered sender can leave its connection open after `Close` |
| UdpListenerTheorems.CloseIsSureIff | internal/transport/udp_stream_server.go:108-161 | before it is called, `Close` is certain to leave no connection open if and only if `readLoop` has already failed a receive |
| UdpListenerTheorems.FailedReceiveCanClose | internal/transport/udp_stream_server.go:110-118 | a receive can fail at any time, and on an open listener some schedule of the loop then closes it with all its connections and returns |
| UdpListenerTheorems.OwnCloseReturnsSwept | internal/transport/udp_stream_server.go:115-116 | when `readLoop` has called Close, no schedule lets it return before the sweep is over |
| UdpListenerTheorems.LoopIsBoundedAfterClose | internal/transport/udp_stream_server.go:108-135 | after the socket is closed `readLoop` takes at most five more steps under any schedule |
| UdpListenerTheorems.LoopExitsOrBlocksOnEscaped | internal/transport/udp_stream_server.go:108-161 | after the sweep a `readLoop` that cannot move has exited, or is blocked writing to the one connection that escaped |
| UdpStreamServer.VirtualConn.Close | internal/transport/udp_stream_server.go:43-50 | closing a connection leaves it closed, and a second call changes nothing |
| UdpStreamServer.Listener.AtMostOneWaits | internal/transport/udp_stream_server.go:126-129 | the accept channel of a listener never holds more than one connection |
| UdpStreamServer.Listener.StreamIsFaithful | internal/transport/udp_stream_server.go:105-136 | what the connection of a sender has delivered is a prefix of what that sender sent, and all of it while it is open and `readLoop` waits for a datagram |
| UdpStreamServer.Listener.AtMostOneOpen | internal/transport/udp_stream_server.go:150-161 | after Close at most one of the listener's connections is open |
| UdpStreamServer.Listener.ReceiveDatagram | internal/transport/udp_stream_server.go:109-109 | a receive overwrites the front of the shared array and is the step Receive |
| UdpStreamServer.Listener.DispatchDatagram | internal/transport/udp_stream_server.go:120-134 | the section under the mutex finds or registers the sender and starts the pipe write, as the step Dispatch; a new connection always finds the accept channel empty and enters it |
| UdpStreamServer.Listener.FailReceive | internal/transport/udp_stream_server.go:110-118 | after a failed receive the loop returns at once if the listener is closed, and otherwise closes it, all its connections with it, and returns: one schedule of the system |
| UdpStreamServer.Listener.AcceptConn | internal/transport/udp_stream_server.go:138-148 | Accept returns the oldest waiting connection, or fails only when the listener is closed |
| UdpStreamServer.Listener.ReadInto | internal/transport/udp_stream_server.go:35-37 | a read that meets the pending write puts the next bytes of the datagram being written, as many as there are and as the caller's array has room for, at the front of that array and leaves the rest of it alone; the datagram is the last one received and comes from the connection's sender; `readLoop` is back at its receive if and only if these were the last bytes |
| UdpStreamServer.Listener.ReadConn | internal/transport/udp_stream_server.go:35-37 | a read of a closed connection fails and changes nothing; one of an open connection takes as many bytes as are pending and fit, and releases `readLoop` with the last one |
| UdpStreamServer.Listener.AbortWrite | internal/transport/udp_stream_server.go:133-135 | when the connection being written to is closed, the loop's write is free to return, and the loop goes back to its receive: the step WriteAborts |
| UdpStreamServer.Listener.CloseConnection | internal/transport/udp_stream_server.go:43-50 | a consumer's Close of a connection is the step CloseConn |
| UdpStreamServer.Listener.Sweep | internal/transport/udp_stream_server.go:154-158 | the sweep, uninterrupted, is one schedule of the system that closes every registered connection |
| UdpStreamServer.Listener.Close | internal/transport/udp_stream_server.go:150-161 | Close flags, closes the socket and sweeps the first time it is called, by `readLoop` or by another, leaving every connection closed if nothing interrupts it, and changes nothing after that |
| Chunker.ChunksPartition | internal/simulator/mock_server.go:182-195 | the reads of one write, put together, are the write |
| Chunker.DatagramsCarryStream | internal/simulator/mock_server.go:179-197 | the datagrams, put together, are the serialized stream |
| Chunker.DatagramsAreSmall | internal/simulator/mock_server.go:182-195 | no datagram is empty or longer than the chunk size |
| Chunker.ChunksAreFull | internal/simulator/mock_server.go:182-195 | every read of a write but the last fills the buffer |
| Chunker.DatagramsOfWrites | internal/simulator/mock_server.go:182-195 | the datagrams of a stream are those of its writes one after the other: none holds bytes of two writes |
| Chunker.RunChunker | internal/simulator/mock_server.go:180-197 | the goroutine sends the datagrams in order, one for each turn that does not read an empty write, and all of them unless it is cancelled |
| EndToEnd.ReaderSeesStream | internal/transport/udp_stream_server.go:105-136 | over a link without loss or reordering, for every chunk size and all read sizes, the reader's stream is a prefix of the serialized one, and the whole of it once all has arrived and been taken |
| EndToEnd.ChunkingDoesNotMatter | internal/simulator/mock_server.go:179-197 | two chunkings of one stream, through any two schedules, give any byte-at-a-time decoder prefix-comparable lists of frames |
| EndToEnd.DecodeGoesOn | internal/simulator/mock_server.go:179-197 | such a decoder, given a stream in two parts, goes on from where it was and gives the frames of both |
| MetricsRecords.HeartbeatStats.Update | internal/metrics/tracker.go:157-179 | one more heartbeat updates the record in place as `NextHeartbeat` says |
| MetricsRecords.SourceMetrics.CountGap | internal/metrics/tracker.go:82-86 | the drops grow by the gap between two sequence numbers modulo 256 |
| MetricsRecords.SourceMetrics.TakeInterval | internal/metrics/tracker.go:88-99 | the jitter is started afresh when it is zero and averaged otherwise |
| MetricsRecords.SourceMetrics.TakeFrame | internal/metrics/tracker.go:75-119 | one frame updates the record in place as `SourceAfterFrame` says, and leaves its heartbeat statistics alone |
| MetricsRecords.SourceMetrics.DeepCopy | internal/metrics/tracker.go:202-206 | a copy shows the same values and has its own heartbeat statistics |
| MetricsTracker.Tracker.constructor | internal/metrics/tracker.go:27-36 | a new tracker shows nothing |
| MetricsTracker.Tracker.RecordParseError | internal/metrics/tracker.go:39-43 | one more parse error, and no other change |
| MetricsTracker.Tracker.RecordFrame | internal/metrics/tracker.go:46-122 | the frame's source, found or made, and the counters and the link of the system change as `Metrics.RecordFrame` says; no two sources come to share a record; the record is returned |
| MetricsTracker.Tracker.RecordHeartbeat | internal/metrics/tracker.go:125-180 | the same for a heartbeat |
| MetricsTracker.Tracker.Snapshot | internal/metrics/tracker.go:183-230 | a snapshot shows the counters and every source, in new objects, each under a text that reads as its system number, a slash, and its component number |
| MetricsTracker.Tracker.MessageStats | internal/metrics/tracker.go:233-241 | a copy of the counters by message |
| MetricsTracker.Track | internal/metrics/tracker.go:12-180 | a tracker that records a run holds the statistics `Run` of that run, so the theorems on runs hold of the object |
| MetricsTracker.SnapshotIsIsolated | internal/metrics/tracker.go:183-230 | a snapshot taken after any number of events still shows exactly those events after the rest of the run has been recorded |
| MetricsSnapshot.KeyTextReads | internal/metrics/tracker.go:207-207 | the text of a key is digits that read as its system, a slash, and digits that read as its component |
| MetricsSnapshot.KeyTextIsInjective | internal/metrics/tracker.go:207-207 | different sources have different texts, so that none is lost or merged |
| MetricsSnapshot.CopyCounts | internal/metrics/tracker.go:190-198 | the copying loop makes an equal map |
| LinkLoss.DropsAreGaps | internal/metrics/tracker.go:79-107 | for every run the drops of a system over all its components are the gaps in the sequence numbers of the whole system, and its frames are as many as those numbers |
| LinkLoss.DropsTelescope | internal/metrics/tracker.go:75-107 | for arbitrary arrivals, drops plus frames minus one is the distance from the first to the last number, modulo 256 |
| LinkLoss.RelabelKeepsDrops | internal/metrics/tracker.go:79-86 | renaming the components of a run changes no system's drops |
| LinkLoss.LossLaw | internal/metrics/tracker.go:79-86 | for frames with true numbers, in any order, lost or doubled: the drops are the frames that first, last and count say are missing, less 256 for every whole turn of the sequence number that went unnoticed |
| LinkLoss.NextFrameAdds | internal/metrics/tracker.go:81-86 | in every run the next frame adds the frames it skips, modulo 256 |
| LinkLoss.LossIsExactIff | internal/metrics/tracker.go:79-86 | for frames in order and without duplicates the drops never exceed the true loss and differ from it by a multiple of 256; they are equal if and only if no more than 255 frames in a row were lost |
| LinkLoss.BackwardFrameAdds | internal/metrics/tracker.go:81-86 | in every run a frame that is repeated at once adds 255 drops, and one that is some numbers behind the last, but less than a turn, adds 255 less those |
| ComponentLoss.ComponentIsExactIff | internal/metrics/tracker.go:79-107 | a component's drops are the gaps in its own numbers, whatever the numbers are, if and only if its frames come before those of all other components of its system |
| ComponentLoss.SecondSenderMiscounts | internal/metrics/tracker.go:79-86 | two components that each send frame number 0: 255 drops are counted though nothing was lost |
| Occurrences.VersionsAreCounted | internal/metrics/tracker.go:53-53 | in every run the counter of a version is the number of frames that have it |
| Occurrences.MessagesAreCounted | internal/metrics/tracker.go:55-57 | in every run the counter of a message is the number of frames that carry it |
| Occurrences.SourcesAreCounted | internal/metrics/tracker.go:59-76 | in every run the frames and bytes of a source are those of its own frames |
| Occurrences.ParseErrorsAreCounted | internal/metrics/tracker.go:39-43 | in every run the parse errors are counted, and nothing else counts as one |
| Conservation.TotalsAreConserved | internal/metrics/tracker.go:51-77 | in every run the frames counted are those counted by version, by message and by source, the bytes those of the sources, and every source shows the percentage its counters stand for, at most 255/256, and none without frames |
| Projection.SystemsAreIndependent | internal/metrics/tracker.go:46-180 | for every interleaving of systems, all statistics of one system are those of a tracker that saw only its events, at the same times |
| Jitter.JitterIsBounded | internal/metrics/tracker.go:88-104 | over every run the jitter of a source is not negative and not above the longest interval recorded for it |
| Sightings.SeenFromFirstToLast | internal/metrics/tracker.go:63-77 | a source exists exactly when an event made it known, was first seen at that event, and last seen and last arrived at its last frame, if it has sent one |
| LastShown.LastIsShown | internal/metrics/tracker.go:102-161 | in every run a source shows the sequence number of its own last frame, or none, and the autopilot, vehicle and status of its last heartbeat |
| Jitter.JitterIsAverage | internal/metrics/tracker.go:88-104 | in every run the jitter is the weighted average of the changes from each non-zero interval to the next: full weight for the first change that is not zero, a fifth for each later one, all fading by 0.8 with each change; it is zero, and so started afresh, only while all changes were zero |
| Rates.RatesAreShown | internal/metrics/tracker.go:115-119 | in every run a source seen for more than 50 milliseconds shows the rates whose product with its life are its counters, and before that shows zero |
| HeartbeatHistory.StatisticsDescribe | internal/metrics/tracker.go:143-179 | in every run the heartbeat statistics describe the times of the beats: count, first, last, least and greatest interval cut to microseconds, average, rate, health |
| HeartbeatHistory.ShownIffBeaten | internal/metrics/tracker.go:143-155 | a source has heartbeat statistics exactly when it has sent a heartbeat |
| HeartbeatHistory.AverageIsEnclosed | internal/metrics/tracker.go:163-176 | with two beats and time passed, average times intervals is the time elapsed, rate times average is 1000, and the average lies from the least interval to within a microsecond of the greatest |
| HeartbeatHistory.HealthIsRateWindow | internal/metrics/tracker.go:173-179 | a source is healthy exactly when it has two beats and between 200 and 2500 milliseconds passed for each interval, on average |
| HeartbeatHistory.HealthIsHalfHertzIff | internal/metrics/tracker.go:173-179 | in every run, the health shown is that of a rate of 0.5 to 5 Hz, as the comment has it, if and only if the average interval is not between 2000, exclusive, and 2500 milliseconds |
| HeartbeatHistory.RegularIsHealthy | internal/metrics/tracker.go:173-179 | a source all of whose intervals lie in the window is healthy from the second beat on |
| HeartbeatHistory.SlowBeatIsHealthy | internal/metrics/tracker.go:177-178 | a source that beats every 2400 milliseconds, any number of times from two on, is healthy at a rate below half a hertz |
| Subnet.ContainmentIsInterval | internal/discovery/subnet_probe.go:65-69 | agreeing with the block's base under the mask, byte by byte, is lying in an interval |
| Subnet.NetworkIsAligned | internal/discovery/subnet_probe.go:63-63 | masking rounds an address down to a multiple of the block size |
| Subnet.BlockFits | internal/discovery/subnet_probe.go:65-69 | no block reaches past the last address, and only /0 is all of them |
| SubnetHosts.BlockHosts | internal/discovery/subnet_probe.go:70-73 | the walk through a block meets, ascending, exactly the addresses above the first whose last byte is neither 0 nor 255, and their number in closed form |
| SubnetHosts.FirstHostsOfBlock | internal/discovery/subnet_probe.go:70-79 | for every CIDR block and bound, what the generator returns are hosts of the block, ascending, as many as there are and the bound allows, and every host left out is above them |
| SubnetHosts.WalkWrapsAround | internal/discovery/subnet_probe.go:65-80 | a walk past the end of the address space meets the first host again |
| SubnetProbe.NextIsSuccessor | internal/discovery/subnet_probe.go:84-91 | the carry makes the next number, and zero after the greatest, for any number of bytes |
| SubnetProbe.Inc | internal/discovery/subnet_probe.go:84-91 | the in-place loop turns the array into its successor |
| SubnetProbe.Contains | internal/discovery/subnet_probe.go:65-69 | the byte-wise test decides membership of the interval |
| SubnetProbe.GenerateIPs | internal/discovery/subnet_probe.go:61-82 | the generator terminates and returns distinct new arrays that hold the first hosts of the block, as many as there are and maxHosts allows, where a maxHosts below 1 counts as 1; except for /0 with maxHosts above 254·2^24, where it returns maxHosts arrays and repeats addresses |
| WorkerPool.StepKeepsInv | internal/discovery/subnet_probe.go:28-57 | every step of spawner and workers keeps: slots taken, wait group and list of answers account for the workers exactly |
| WorkerPool.PoolIsBounded | internal/discovery/subnet_probe.go:26-35 | at most 20 probes are under way in any state, and no worker ever waits to free its slot or to count down |
| WorkerPool.TwentyCanDial | internal/discovery/subnet_probe.go:26-35 | 20 probes can be under way at once, or all when there are fewer |
| WorkerPool.WaitReturnsComplete | internal/discovery/subnet_probe.go:51-58 | when Wait returns all workers are done, all slots free, and the list holds once each exactly the addresses of the workers that went on to append |
| WorkerPool.FoundAreDialed | internal/discovery/subnet_probe.go:42-58 | in every schedule after which Wait has returned, every address was dialed once, with success or without, and the list holds once each exactly those dialed with success |
| WorkerPool.AnyOutcomeCanHappen | internal/discovery/subnet_probe.go:28-58 | for every choice of the dials that succeed some schedule has that outcome and Wait returns |
| WorkerPool.PoolNeverStuck | internal/discovery/subnet_probe.go:28-57 | until Wait has returned some goroutine can take a step |
| WorkerPool.PoolTerminates | internal/discovery/subnet_probe.go:28-57 | every schedule for n addresses ends within 7n + 2 steps |
| ProbeSubnet.AnswersAreReachedHosts | internal/discovery/subnet_probe.go:19-58 | for every block and maxHosts but /0 with maxHosts above 254·2^24, and every schedule of the workers, the addresses probed are the first hosts of the block, as many as there are and maxHosts allows, and the answers are, once each, exactly those whose dial succeeded in the schedule |
| ProbeSubnet.NoHostsIff | internal/discovery/subnet_probe.go:19-22 | the prober has no addresses, and fails, exactly for a /32, and for a /31 that ends in .254 and .255 |
| Text.DecimalRoundTrip | internal/metrics/tracker.go:207-207 | reading a printed number gives the number |
| Text.TenDigits | internal/metrics/tracker.go:207-207 | the ten digits are printed and read as themselves |
| RedactionProofs.ScannerIsPattern | internal/reporter/support_report.go:29-29 | the scanner finds exactly the match that the regular expression has at a place, which is unique |
| RedactionProofs.ParseIffDotted | internal/reporter/support_report.go:67-74 | the parser accepts exactly the usual dotted notation, without leading zeros, and is its inverse |
| RedactionTheorems.Rescan | internal/reporter/support_report.go:65-80 | in every left context, masking the output changes nothing and finds, in order, exactly the matches that the first pass left alone |
| RedactionTheorems.MaskIPIdempotent | internal/reporter/support_report.go:65-80 | maskIP is idempotent, and no address that it would change is left in its output |
| RedactionTheorems.NoNewMatch | internal/reporter/support_report.go:65-80 | a match at the front of the output was one of the input |
| RedactionTheorems.ChangedIffMaskable | internal/reporter/support_report.go:67-76 | exactly the matches that are addresses outside 127.0.0.0/8 in dotted notation are changed |
| RedactionTheorems.MaskKeepsIff | internal/reporter/support_report.go:65-80 | in every left context a text is unchanged if and only if every match in it is left alone |
| RedactionTheorems.MaskIPKeepsIff | internal/reporter/support_report.go:65-80 | maskIP leaves a text unchanged if and only if no match in it is an address outside 127.0.0.0/8 |
| RedactionTheorems.PiecesAreTheInput | internal/reporter/support_report.go:65-66 | the input is the concatenation of matches and characters outside, so nothing outside a match changes |
| RedactionAddresses.AddressIsMasked | internal/reporter/support_report.go:65-76 | a text that is an address in dotted notation loses its last two octets, unless it is in 127.0.0.0/8 |
| RedactionAddresses.AddressInContext | internal/reporter/support_report.go:29-76 | an address within a text, with no word character or dot before it and no word character after it, is found, and masked as it would be alone; the text before and after is masked separately |
| RedactionAddresses.MaskSplits | internal/reporter/support_report.go:29-66 | a text is masked in two parts wherever a character that is neither a word character nor a dot ends the first |
| RedactionCharacters.MaskedBeforeIff | internal/reporter/support_report.go:29-76 | an address outside 127.0.0.0/8 at the start of a text, followed by a character, becomes its first two octets, ".xxx.xxx" and that character if and only if the character is none of 0 to 9, A to Z, a to z and the underscore |
| RedactionCharacters.FoundAfterIff | internal/reporter/support_report.go:29-66 | an address that follows a character other than a dot is a match of its own if and only if the character is none of 0 to 9, A to Z, a to z and the underscore |
| RedactionCharacters.SeparatorSplits | internal/reporter/support_report.go:29-66 | every character but these and the dot stays and separates what is masked before and after it |
| RedactionCharacters.PortForm | internal/reporter/support_report.go:43-44 | in "address:port" the address is masked and the port kept |
| RedactionCharacters.BlockForm | internal/reporter/support_report.go:35-35 | in "address/prefix" the address is masked and the prefix length kept |
| RedactionCharacters.BlankForm | internal/reporter/support_report.go:45-52 | texts with blanks are masked between the blanks |
| RedactionCharacters.LongNumberIsNoField | internal/reporter/support_report.go:29-29 | a number of four digits or more and a dot before an address change nothing |
| RedactionPlaces.QuadIsFoundIff | internal/reporter/support_report.go:29-66 | a dotted quad in any text is one of the matches if and only if no part of a word comes before or after it and no match that begins earlier runs over its first digit |
| RedactionPlaces.FoundIsDisjoint | internal/reporter/support_report.go:66-66 | two matches of one scan do not overlap |
| RedactionPlaces.MaskAtFound | internal/reporter/support_report.go:65-66 | a match is replaced where it stands, and what follows it is masked as if alone after a word character |
| RedactionPlaces.AddressIsMaskedIff | internal/reporter/support_report.go:29-76 | an address in any text is a match of its own if and only if no part of a word comes before or after it and no match that begins earlier runs over its first digit; it is then masked where it stands, as it would be alone |
| RedactionPlaces.CrossedAfterDot | internal/reporter/support_report.go:29-66 | where no part of a word comes before it, an address is run over by an earlier match only after a dot |
| RedactionPlaces.CrossedAddressIsKept | internal/reporter/support_report.go:66-73 | an address that an earlier match runs over, and which masking leaves alone, is in the output as it was, unless a dot follows it |
| RedactionPlaces.SurvivorIsHidden | internal/reporter/support_report.go:29-76 | what follows for the output: an address outside 127.0.0.0/8 in it stands within a longer word, or follows a dot and is run over by a match before it, and all matches in the output are texts that masking leaves alone |
| RedactionAddresses.OverlappedAddressSurvives | internal/reporter/support_report.go:29-70 | an address after a number that is no octet, and a dot, is not masked |
| RedactionAddresses.DotlessIsKept | internal/reporter/support_report.go:65-66 | text without dots, such as a MAC address, is not masked |
| SupportReport.MapLists | internal/reporter/support_report.go:33-40 | with an idempotent map every list ends up mapped once, even if one array occurs several times |
| SupportReport.RedactResult | internal/reporter/support_report.go:31-63 | after the in-place pass every listed field of the caller's report is the masked old value, whatever arrays its interfaces share, and so is as it was if and only if no match in it is an address outside 127.0.0.0/8; the other fields are unchanged |

## Left out

- MetricsRecords.HeartbeatStats.Update: the field JitterMs of the heartbeat statistics is not modelled; the code never writes it.
- UdpStreamServer.Listener.ReadConn: a read of an open connection without a pending write blocks, so the method asks for one.
- UdpStreamServer.Listener.Close: the method runs without interruption; all interleavings of its steps are those of UdpListener.Step.
- UdpStreamServer.Listener.FailReceive: the same.
- Chunker.RunChunker: cancellation is a number of turns, and a datagram that the socket refuses to send counts as sent.
- EndToEnd.ReaderSeesStream: assumes that the network neither loses nor reorders nor doubles the sender's datagrams.
- SupportReport.RedactResult: lists are whole arrays; slices that overlap in part are not modelled, and neither are report fields that the code does not touch (port status, probe results).
- SubnetProbe.GenerateIPs: IPv4 only; IPv6 and IPv4-mapped blocks, and the parsing of CIDR text, are not modelled.
- WorkerPool.WaitReturnsComplete: the pool is modelled on values, as a system of steps; whether a dial succeeds is arbitrary, and the order of the answers is any order.
- The address a connection shows, deadlines, and writes to a sender (udp_stream_server.go:39-70): one-line calls into the network library.
- The simulator's other senders and its once-guarded pipeConn: message contents, and a Close of the same shape as that of the virtual connection.
- Locks of the tracker: every operation holds the mutex throughout and is one event of a run.
- Go maps of counters are values here; only the maps of records have objects that could be shared.
- Real clocks, rounding of floating-point numbers and overflow of 64-bit counters.
- The IPv6 branch of maskIP's callback: a match holds only digits and dots, so the branch cannot be reached.
- MAVLink framing and dialects (library code): the decoder is an arbitrary function of the byte stream.
- Enum tables, gimbal evidence, port checks, routing, socket and serial discovery, flags and output: each reads its input once, or prints it, and keeps no state between calls.
