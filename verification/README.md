# A verified model of HCMonitor

HCMonitor measures the response time of servers from mirrored traffic. Receiving cores copy frames
into rings, worker cores parse them into request and response entries, and one monitor core pairs
each response with the latest request of its connection. Once per interval it reports averages,
percentiles and a histogram. Two offline tools cut captures into bursts. The model follows these
programs and proves what they are for.

| file | what it models |
|---|---|
| `Matching.dfy` | the pairing of requests and responses as a machine on values: `Apply` is one event, `After` a whole run |
| `Provenance.dfy` | where samples come from and how many there can be, over all runs |
| `Exactness.dfy` | an independent observer of exchanges in the sequence space, and exactly when the monitor agrees with it |
| `Traffic.dfy` | what that condition comes to on unwrapped and on stop-and-wait traffic, and runs on which it fails |
| `Monitor.dfy` | the monitor as it runs: tables, buffers and counters updated in place, proved to follow `Apply` |
| `Serving.dfy` | whole runs of the monitor object with all their reports |
| `Report.dfy`, `Ranks.dfy`, `Histogram.dfy` | the interval report: classes, averages, nearest ranks, the histogram and the reader of `scripts/demo.py` |
| `Frames.dfy`, `FrameFormat.dfy` | from the bytes of a frame to a normalised packet, and back: frames written byte by byte are read as written |
| `Rings.dfy`, `ParseQueue.dfy` | the rings, and the queue that is enlarged in place |
| `Sharding.dfy` | which core does what, and which queues each worker polls |
| `Pipeline.dfy`, `PipelineTheorems.dfy` | all cores as interleaved small steps, enlargements included, their invariant, and what holds in every reachable state |
| `Progress.dfy` | that every core gets on with its work, and how soon a queued frame is taken and its entry consumed |
| `EndToEnd.dfy` | the matching machine fed by the pipeline, ticks included, from frames to reports |
| `QuickSort.dfy`, `Grouping.dfy` | the sort and the grouping of `pcap_analyse/burst_width.c` |
| `Split.dfy`, `CaptureFormat.dfy` | the capture splitter, byte by byte, and captures written byte by byte |
| `CArith.dfy`, `Basics.dfy` | C integer arithmetic and shared facts |

The main results, in one line each:

- for every run, the monitor's samples are the response times of the exchanges, ordered in the sequence space, at every
  moment if and only if the run is clean: each first response falls in the window of the request with the plainly
  highest number, which was first seen when its exchange was, is later than it and exceeds the answers
  before, and no other response does (`Exactness.ExactIffClean`). Without wrap-around this is a condition on the
  latest exchange alone (`Traffic.ExactIffOrderly`). On stop-and-wait traffic, losses and retransmissions
  included, two conditions remain: the clock separates a first response from its request, and no late straggler
  acknowledges exactly the bytes before an open request (`Traffic.ExactIffPunctual`);
- for every interleaving of the cores and every placing of the ticks, the samples are exact if and only if what each
  queue delivered in each interval is clean (`EndToEnd.ExactIffIntervalsClean`); then each reported interval holds,
  connection by connection, the answers among the frames its queue delivered in that interval, and every report
  describes exactly those (`EndToEnd.ReportsAreExact`);
- a queue is a queue: consumed entries are a prefix of the entries of the accepted frames, nothing is read
  while it is written, and nothing is lost from the books (`PipelineTheorems`), enlargements
  of the parse queues included; a step keeps all this if and only if an enlargement finds no queue
  wrapped and a write lands inside its buffer (`Pipeline.StepKeepsInvIffSafe`);
- a receiving core accepts exactly the frames of more than 70 bytes that find room (`Progress.AcceptedAreAdmitted`), and no
  accepted frame starves: it is taken after so many of its worker's steps, and its entry consumed after so many
  of the monitor's (`Progress.QueuedFramesAreConsumed`);
- what is written is what is read, for frames (`FrameFormat.ParserReadsWhatIsWritten`) and for captures
  (`CaptureFormat.WalkReadsWhatIsWritten`, `CaptureFormat.SplitterWritesWindows`);
- the splitter makes the fewest possible files and loses no byte (`Split.GreedyIsOptimal`, `Split.SplitConserves`).

## Where the code departs from its intent

The model keeps the code's behaviour and says exactly when it meets the intent:

- The guard of the sample buffers (HCMonitor/monitor.c:628) acts one sample late.
  `Monitor.GuardActsTooLate` shows the writes overflow exactly when an interval has more samples than the
  initial capacity. The model's buffer uses the test `>=`.
- `packet_process` enlarges one queue but moves the modulus of all (HCMonitor/monitor.c:886-894). The
  enlarged queue keeps its content exactly when it is not wrapped (`Rings.GrowthKeepsQueueIffUnwrapped`). Another queue
  exactly when it is not wrapped either (`Rings.SharedModulusKeepsQueueIffUnwrapped`), and its next writes stay inside
  its buffer exactly when they fit before the old end (`Rings.GrowthElsewhereOverruns`). `Pipeline.Safe` is that guard; a step
  keeps the invariant if and only if it meets it (`Pipeline.StepKeepsInvIffSafe`). What the monitor goes on to consume after an
  enlargement is in order, whatever the fresh memory contains, if and only if the queue was not wrapped
  (`PipelineTheorems.GrowthIsHarmlessIffUnwrapped`), and its reads of another queue stay inside the buffer if and only if
  that was not wrapped (`Rings.GrowthElsewhereMisleads`). A run in which no queue fills is safe (`PipelineTheorems.BootsUnlessFull`).
- A straggling response can be recorded (`Traffic.StragglerRun` and `Traffic.StragglerIsRecorded`), and so can a
  second acknowledgement of further bytes of one request: both are `Traffic.Intrudes`.
- Requests are accepted in the plain order of their numbers (HCMonitor/monitor.c:521). After a wrap-around inside an interval
  new requests count as retransmissions and their answers are missed (`Traffic.WrappedRequestIsMissed`), and a stale request from
  before the wrap displaces an open one (`Traffic.StaleRequestHidesAnswer`). `Traffic.AcceptanceIsRight` says exactly which
  numbers are accepted rightly. The tail of a request, sent again from inside it, counts as a request of its own.
- With priorities read from requests, the class of a sample is that of its connection's latest request, whichever that is.
- The IP header is taken to be 20 bytes long (HCMonitor/main.c:536-540, HCMonitor/monitor.c:821-822). With IP options the
  ports and numbers are read from the wrong place. `Frames.PayloadIsExact` says exactly when the payload's
  length and offset are nevertheless right, and `Frames.OptionsShiftPayload` names a frame on which both are wrong.
- The parser finds the payload through the whole data-offset byte (HCMonitor/monitor.c:822) while
  its length uses the upper four bits (HCMonitor/main.c:539-540): they agree when the lower four are below 4.
- The response path reads the slot before it tests the lookup (HCMonitor/monitor.c:590, 614). The model looks up first.
- The quantile table has no terminator (HCMonitor/monitor.c:111, 379). The model uses its 14 entries.
- The comment of `less_second` says 600 ms; the code, and the model, use 700 (pcap_analyse/split_pcap_bytime.c:109-124).
- The burst width runs from a group's first packet to its last but one, and a group of one packet reads a slot
  that is never filled (pcap_analyse/burst_width.c:319-320). `Grouping.WidthDropsLast` and `Grouping.OnePacketWidth` say
  when the width is the burst's own.
- The gaps inside a burst are taken between microseconds alone (pcap_analyse/burst_width.c:313-317): `Grouping.GapIsExact`.
- A record whose headers run past the end of the capture is skipped (`Split.ShortRecordIsLost` names one).
- When `rx_queues` is not a multiple of `pr_queues` the last queues are never served
  (`Sharding.EvenSplitServesAll`, `PipelineTheorems.UnservedIsNeverConsumed`).

## Model

| member | source | states |
|---|---|---|
| EndToEnd.SamplesAreExact | HCMonitor/main.c:511-597 | for every interleaving of the cores and every placing of the ticks: if each connection arrives on one queue and each queue's share of each interval is clean, the samples are exact at every moment, and a connection's are the response times of the exchanges in its queue's share of the interval |
| EndToEnd.CleanUnderEverySchedule | HCMonitor/main.c:511-597 | arrivals that are clean however they are cut meet that condition under every schedule and every placing of the ticks |
| EndToEnd.ExactIffIntervalsClean | HCMonitor/main.c:585-595 | the same both ways: the samples are exact at every moment if and only if what each queue delivered in each interval is clean |
| EndToEnd.ReportsAreExact | HCMonitor/monitor.c:473-502 | from frames to reports, while each queue's share of each interval is clean: each report describes the published answers of its interval, with its classes; a connection's answers among them are those of the frames its queue delivered in that interval; the intervals cut what was consumed into consecutive pieces |
| EndToEnd.PublishedIsLocal | HCMonitor/monitor.c:486-497 | each published interval holds, for each connection, the answers among what its queue delivered in it and nothing else |
| EndToEnd.SlicesPartition | HCMonitor/monitor.c:486-497 | the reported intervals and the current one cut the entries consumed from a queue into consecutive pieces, one for each report |
| EndToEnd.AnswersAreResponseTimes | HCMonitor/monitor.c:654-681 | the answers of one connection are the response times of its exchanges, in order |
| EndToEnd.ReferenceIsLocal | HCMonitor/monitor.c:505-711 | a connection's log and answers depend on its own packets of the interval only |
| EndToEnd.ConnectionInOrder | HCMonitor/main.c:585-595 | the monitor sees a connection's packets exactly in the order its queue delivers them |
| EndToEnd.FedIsConsumed | HCMonitor/main.c:585-595 | what the monitor core takes is an interleaving of the queues: restricted to one queue it is what was consumed from it |
| EndToEnd.CleanIsLocal | HCMonitor/monitor.c:505-711 | a run with any ticks is clean if and only if every connection is clean in every interval, so no interleaving of connections can spoil it |
| Serving.Serve | HCMonitor/main.c:578-596 | a whole run on the object, given a position for each connection that sends a request: its state is the machine's and each report describes exactly the samples of its interval |
| Serving.TableHoldsRequesters | HCMonitor/monitor.c:514-514 | over whole runs the table has an entry for exactly the connections that have sent a request |
| Serving.IntervalsAreExact | HCMonitor/monitor.c:484-501 | on clean runs the reported intervals hold exactly the answers the observer saw in them, each in its class |
| Serving.ReportsAreExact | HCMonitor/monitor.c:287-450 | so every report gives the average, percentiles and histogram of the exchanges' own response times, and the size, average and percentiles of each class of exchanges |
| Exactness.ExactIffClean | HCMonitor/monitor.c:505-711 | for every run of packets and ticks, wrapped numbers included: the samples are the response times of the exchanges in the sequence space, in their classes, at every moment if and only if the run is clean |
| Traffic.ExactIffOrderly | HCMonitor/monitor.c:505-711 | on runs whose numbers do not wrap: the samples are exact if and only if every first response is later than its request and exceeds the answers before, request numbers are not zero, and no other response in the latest window that exceeds them is later than the request |
| Traffic.ExactIffPunctual | HCMonitor/monitor.c:505-711 | on stop-and-wait runs without wrap-around, with any losses, gaps and retransmissions over any number of intervals, the samples are exact if and only if first responses are later than their requests and stragglers are not |
| Traffic.CleanIffPunctual | HCMonitor/monitor.c:590-681 | on such runs clean means just that |
| Traffic.CleanIffOrderly | HCMonitor/monitor.c:521-681 | on unwrapped runs clean means orderly |
| Exactness.OneSamplePerExchange | HCMonitor/monitor.c:654-681 | on clean runs, per connection: one sample for each answered request of the sequence space, first response minus first request, in order; none for a retransmission |
| Exactness.DisposalFollows | HCMonitor/monitor.c:521-654 | what becomes of any packet: accepted exactly when its number is plainly highest, recorded exactly when it falls in the highest request's window, is later and exceeds the answers before; the sample's time and class |
| Exactness.UncleanStep | HCMonitor/monitor.c:590-681 | the first packet that is not clean makes the samples differ from the answers |
| Traffic.StragglerIsRecorded | HCMonitor/monitor.c:590-681 | a named stop-and-wait run, exact up to its last packet, whose last packet is a straggler, answers nothing and is recorded |
| Traffic.StaleRequestHidesAnswer | HCMonitor/monitor.c:521-612 | a named run, exact up to its last packet, on which a stale request from before the wrap displaces the open one and its answer is missed |
| Traffic.WrappedRequestIsMissed | HCMonitor/monitor.c:521-612 | a named run, exact up to its last packet, on which the request after the wrap counts as a retransmission and its answer is missed |
| Traffic.AcceptanceIsRight | HCMonitor/monitor.c:521-521 | after any clean run without wrap-around, a request is accepted exactly when it is new if and only if its number is within half the space of the latest, plainly, or nonzero and the first of the interval |
| Provenance.SampleProvenance | HCMonitor/monitor.c:590-681 | every sample held comes from a distinct response inside the modular window of the latest accepted request of its own interval, with the positive latency from it, in the right priority class |
| Provenance.SlotsHoldLatestRequest | HCMonitor/monitor.c:541-548 | at every moment a slot describes its connection's latest accepted request since the last clearing, and is zero when there is none |
| Provenance.AcceptedExactlyWhenHighest | HCMonitor/monitor.c:521-521 | over whole runs: a request is accepted if and only if its number exceeds zero and every number sent on the connection in the interval |
| Provenance.SlotMarkedByLatest | HCMonitor/monitor.c:566-574 | with priorities read from requests a slot bears the class of the latest request, even a resent one |
| Provenance.UnstartedNeverRecords | HCMonitor/monitor.c:654-654 | a connection without an accepted request in the interval cannot record |
| Provenance.PigeonholeBound | HCMonitor/monitor.c:590-681 | at most payload + 1 samples are recorded between consecutive accepted requests, even when the window wraps |
| Provenance.SamplesAreCharged | HCMonitor/monitor.c:654-681 | every sample of an interval is charged to exactly one of its accepted requests |
| Provenance.IntervalBound | HCMonitor/monitor.c:590-681 | an interval's samples never exceed the sum of payload + 1 over its accepted requests |
| Matching.RunAccounting | HCMonitor/monitor.c:512-704 | over whole runs: requests = accepted + resent; responses = recorded + missed + duplicate + not later; missed responses and those over 50 ms are counted right |
| Matching.IntervalAccounting | HCMonitor/monitor.c:550-690 | since the last clearing: the retransmission counters, the number of samples and the two received-by-priority counters are counts of outcomes |
| Matching.PriorityCounters | HCMonitor/monitor.c:656-681 | the two priority counters always split the samples as their flags do |
| Matching.ActiveConnections | HCMonitor/monitor.c:523-526 | the published number of connections is the counted slots less those already counted at the last tick |
| Matching.ActiveUntilSkipped | HCMonitor/monitor.c:477-500 | it never exceeds the counted slots, equals them if and only if nothing was left over at the last tick, and so until a tick skips the clearing |
| Matching.ClockIsExact | HCMonitor/monitor.c:623-684 | a nanosecond is one, also across the turn of a second; a latency is the difference of two stamps; slow means over 50 thousandths of a second |
| Matching.ClearingSpares | HCMonitor/monitor.c:211-225 | a clearing forgets what was recorded and counted of a connection, but neither the connection nor its request's time stamp; the running counters go on |
| Monitor.Monitor.constructor | HCMonitor/monitor.c:749-772 | a fresh monitor is the machine's initial state |
| Monitor.Monitor.OnRequestPacket | HCMonitor/monitor.c:510-577 | a request moves the object exactly as the machine |
| Monitor.Monitor.OnResponsePacket | HCMonitor/monitor.c:579-708 | a response moves the object exactly as the machine, and -2 is returned exactly for missed and duplicate ones |
| Monitor.Monitor.OnLaterResponse | HCMonitor/monitor.c:626-705 | a response later than its request is recorded exactly when its acknowledgement is new, with its class |
| Monitor.Monitor.Poll | HCMonitor/main.c:586-593 | one entry taken by the monitor core is one event of the machine |
| Monitor.Monitor.Tick | HCMonitor/monitor.c:477-500 | a tick is one event of the machine; a report exists exactly when there are samples and describes them |
| Monitor.Monitor.Clear | HCMonitor/monitor.c:211-225 | every slot is zeroed and loses its class, the request time stamps and the keys survive |
| Monitor.SlotTable.Accept | HCMonitor/monitor.c:514-574 | only the slot of the packet's key changes, to what the machine says |
| Monitor.SampleBuffer.Append | HCMonitor/monitor.c:628-681 | with the guard acting at a full buffer every write is in bounds and appends one sample |
| Monitor.SampleBuffer.Take | HCMonitor/monitor.c:488-491 | the report buffers get exactly the samples of the interval |
| Monitor.GuardActsTooLate | HCMonitor/monitor.c:628-635 | as written the guard overflows if and only if an interval has more samples than the initial capacity; with `>=` it never does |
| Monitor.CapacityDoubles | HCMonitor/monitor.c:628-635 | acting at a full buffer the guard doubles the capacity each time and never exceeds twice the samples |
| Report.PriorityBuffers.Resize | HCMonitor/monitor.c:298-306 | after it both class buffers hold their counted samples |
| Report.PriorityBuffers.Partition | HCMonitor/monitor.c:308-314 | every write is in bounds and the buffers hold the two classes in order |
| Report.PriorityBuffers.CdfAcktime | HCMonitor/monitor.c:287-450 | the report's averages, percentiles, class sizes and histogram are those of the samples and of their classes |
| Report.Mean | HCMonitor/monitor.c:227-253 | the average of the first n samples, whose meaning `Ranks.AverageBetween`, `Ranks.AverageRises` and `Ranks.AverageGrows` fix |
| Ranks.AverageBetween | HCMonitor/monitor.c:237-252 | an average lies between the least and the greatest sample |
| Ranks.AverageRises | HCMonitor/monitor.c:237-252 | raising every sample by d raises the average by d |
| Ranks.AverageGrows | HCMonitor/monitor.c:237-252 | a single sample is its own average, and one more moves the sum by itself |
| Monitor.DescribedAverages | HCMonitor/monitor.c:316-326 | in every report the overall average and each class's lie between the extremes of their samples and do not exceed their last percentile |
| Report.PickPercentiles | HCMonitor/monitor.c:379-391 | the picked values are the nearest-rank percentiles of the unsorted samples |
| Report.ReportIsConsistent | HCMonitor/monitor.c:379-391 | percentiles increase along the table, the last is the maximum, and each lies between those of the classes |
| Ranks.NearestRankIsPicked | HCMonitor/monitor.c:381-382 | a value has fewer than u·n samples below it and at least u·n at or below it if and only if it is the one at index ceil(u·n)-1 of the sorted array |
| Ranks.RankInRange | HCMonitor/monitor.c:381-381 | the index is in range for 0 < u <= 1 and n >= 1 |
| Ranks.NearestRankMonotone | HCMonitor/monitor.c:111-111 | a larger quantile picks a value at least as large |
| Ranks.LastQuantileIsMaximum | HCMonitor/monitor.c:111-111 | the quantile 1 picks exactly the maximum |
| Ranks.WholeBetweenParts | HCMonitor/monitor.c:379-391 | the percentile of the whole lies between the percentiles of the two classes |
| Ranks.ClassesPartition | HCMonitor/monitor.c:308-314 | the classes partition the samples as multisets |
| Ranks.SelectedAreFlagged | HCMonitor/monitor.c:308-314 | a class has as many samples of each value as were flagged for it |
| Ranks.TableOfQuantiles | HCMonitor/monitor.c:111-111 | the table: tenths up to nine tenths, then all but 1/20, 1/100, 1/1000 and 1/10000, then everything |
| Ranks.AverageSplits | HCMonitor/monitor.c:316-326 | n·average is the sum of the classes' n·average |
| Histogram.SketchDelay | HCMonitor/monitor.c:268-285 | one pass over the sorted array gives each bucket exactly the samples between its edges |
| Histogram.SketchCovers | HCMonitor/monitor.c:271-271 | the buckets are tenths of a millisecond and cover 26 of them |
| Histogram.ReadPercentile | scripts/demo.py:63-86 | the value shown is the last whose cumulative share is below 99 percent, and when there is none |
| Histogram.ReadingBracketsPercentile | scripts/demo.py:63-86 | the value shown is at least one and less than two buckets below the true 99th percentile of the samples under 26 ms |
| Frames.ResponseMeetsRequest | HCMonitor/monitor.c:827-873 | a request and a response meet in one slot exactly when the response goes to the requesting address and port, VLAN-tagged or not |
| FrameFormat.ParserReadsWhatIsWritten | HCMonitor/monitor.c:815-878 | round trip: for a frame written byte by byte, tagged or not, the parser returns exactly the written client address and port, sequence or acknowledgement number, payload length, stamp and signed priority, as a request, a response or neither as the written label says |
| FrameFormat.QualifiesIffTcp | HCMonitor/main.c:526-541 | such a frame is passed on exactly when its protocol is TCP |
| Frames.WindowOnTheWire | HCMonitor/monitor.c:841-871 | the window holds exactly for the responses whose acknowledgement is 0 to payload bytes past the request, modulo 2^32, and the latency is the difference of the frames' stamps |
| Frames.PayloadIsExact | HCMonitor/main.c:531-541 | if and only if: the ports and numbers are in place when there are no IP options; the payload length is right when the header lengths agree, by no options or by coincidence, and the frame is not shorter than its headers; both length and offset are right when, besides, the bits below the data offset are less than 4 |
| Frames.OptionsShiftPayload | HCMonitor/main.c:536-540 | a named frame with IP options whose payload length and offset both come out wrong |
| Rings.PublishAppends | HCMonitor/main.c:729-735 | publishing the stored slot of a ring that is not full appends it to the queue |
| Rings.AdvanceRemoves | HCMonitor/main.c:520-550 | advancing a ring that is not empty removes the oldest element |
| Rings.StoreIsInvisible | HCMonitor/main.c:730-733 | writing the free slot does not change the queue |
| Rings.TestsAreStable | HCMonitor/main.c:586-593 | a producer's or consumer's test stays true whatever the other side does |
| Rings.GrowthKeepsQueueIffUnwrapped | HCMonitor/monitor.c:886-909 | enlarging a full ring and publishing keeps and extends the queue if and only if it is not wrapped; wrapped, it then looks empty |
| Rings.SharedModulusKeepsQueueIffUnwrapped | HCMonitor/monitor.c:889-889 | a larger modulus leaves another queue well formed with the same content if and only if it is not wrapped, though its buffer does not grow |
| Rings.GrowthElsewhereOverruns | HCMonitor/monitor.c:889-894 | after another queue grew, the next n writes stay inside this queue's buffer if and only if they fit before its old end |
| Rings.GrowthElsewhereMisleads | HCMonitor/main.c:586-593 | after another queue grew, the consumer's reads of what looks queued stay inside this queue's buffer if and only if it was not wrapped |
| ParseQueue.PrQueue.constructor | HCMonitor/rx_queue.c:41-53 | a new queue is empty |
| ParseQueue.PrQueue.PacketProcess | HCMonitor/monitor.c:880-917 | an entry is appended and nothing else changes, an unclassified packet leaves the queue alone, and exactly what happens when the queue was full, wrapped or not; the write must land inside the buffer |
| ParseQueue.PrQueue.Take | HCMonitor/main.c:586-593 | the monitor takes the oldest entry, if there is one |
| Sharding.OneWorkerPerQueue | HCMonitor/main.c:511-519 | a queue has at most one worker, and has one exactly when it is below pr_que·(rx_que/pr_que) |
| Sharding.EvenSplitServesAll | HCMonitor/setting.cfg:26-26 | every queue is served if and only if pr_queues divides rx_queues |
| Sharding.RolesInOrder | HCMonitor/main.c:1148-1154 | the roles in the order of the cores: receivers, workers, monitor, timer, report, time stamps |
| Sharding.OneProducerOneConsumer | HCMonitor/main.c:1148-1154 | under the core layout each ring has exactly one producing core and each served ring exactly one consuming worker |
| Pipeline.StartInv | HCMonitor/rx_queue.c:41-53 | the invariant holds at power-on, whatever the buffers contain |
| Pipeline.RxKeepsInv | HCMonitor/main.c:725-743 | every step of a receiving core keeps the invariant |
| Pipeline.WorkKeepsInv | HCMonitor/main.c:518-554 | every safe step of a worker keeps the invariant, enlargements included |
| Pipeline.UnsafeBreaksInv | HCMonitor/monitor.c:886-909 | a worker's step that enlarges while any queue is wrapped, or writes past its buffer, breaks it |
| Pipeline.MonKeepsInv | HCMonitor/main.c:585-595 | every step of the monitor core keeps the invariant |
| Pipeline.StepKeepsInvIffSafe | HCMonitor/monitor.c:886-909 | a step of any core keeps the invariant if and only if it is safe: an enlargement finds no queue wrapped and an entry is written inside its buffer |
| PipelineTheorems.ConsumedIsFifoPrefix | HCMonitor/main.c:520-594 | in every reachable state what was consumed from a queue is a prefix of the classified entries of the frames accepted into its ring |
| PipelineTheorems.EntryOfWritten | HCMonitor/main.c:526-544 | a written frame contributes nothing to the queue unless it is TCP, and then what the parser reads from it |
| PipelineTheorems.NoTornReads | HCMonitor/main.c:520-550 | in every reachable state no core writes the slot another is reading, and no step of a producer changes the entry its consumer has found |
| PipelineTheorems.PacketsAreConserved | HCMonitor/main.c:725-742 | received = too short + dropped + in either ring + skipped + unclassified + consumed, up to what each core holds at that moment |
| PipelineTheorems.UnservedIsNeverConsumed | HCMonitor/main.c:515-519 | nothing is ever consumed from a queue without a worker |
| PipelineTheorems.BacklogIsConsumed | HCMonitor/main.c:585-595 | a backlog of k entries is consumed, in order, within k passes of the monitor (k + 1 when it starts amid one), whatever the other cores and queues do |
| Progress.AcceptedAreAdmitted | HCMonitor/main.c:725-743 | in every reachable state the frames accepted, with the one held, are in order exactly the frames of more than 70 bytes that found room when their core polled; the others are counted as too short, the rest as dropped |
| Progress.ReceiverKeepsPolling | HCMonitor/main.c:711-744 | the history of a receiving core is what arrived while it polled, and at least one of three of its steps is a poll |
| Progress.WorkerKeepsLooking | HCMonitor/main.c:518-554 | a worker completes a look in every six of its steps |
| Progress.LooksGoRound | HCMonitor/main.c:515-519 | a worker's looks go round its range, one look at each queue a round |
| Progress.QueuedFramesAreTaken | HCMonitor/main.c:518-554 | the first k frames queued in the ring of a served queue are taken, in order, within k rounds of its worker, and so within 6k of its steps for each of its queues, whatever the other cores do |
| Progress.MonitorKeepsPassing | HCMonitor/main.c:578-596 | the monitor completes a pass in every three of its steps for each queue |
| Progress.QueuedFramesAreConsumed | HCMonitor/main.c:518-596 | after that many steps of its worker, and so many of the monitor, the entries of the first k queued frames have been consumed in order |
| PipelineTheorems.BootsUnlessFull | HCMonitor/monitor.c:886-886 | every run from power-on in which no parse queue fills is safe, so all of the above holds of it |
| PipelineTheorems.GrowthIsHarmlessIffUnwrapped | HCMonitor/monitor.c:886-894 | after a full queue is enlarged, whatever the fresh memory contains, the monitor goes on to consume a prefix of the accepted entries if and only if the queue was not wrapped |
| QuickSort.PartSort | pcap_analyse/burst_width.c:201-215 | the range is rearranged around the pivot, everything outside is untouched |
| QuickSort.Quick | pcap_analyse/burst_width.c:218-226 | the range ends sorted and is a permutation of what it was, everything outside is untouched, and it terminates |
| Grouping.BurstGroups.Exist | pcap_analyse/burst_width.c:164-175 | the index of the address's group, or -1 exactly when no group has its network |
| Grouping.BurstGroups.Create | pcap_analyse/burst_width.c:177-187 | a new empty group is appended, except for a tenth network |
| Grouping.BurstGroups.Add | pcap_analyse/burst_width.c:190-198 | the packet joins its network's group at its end, or opens one; it fails exactly for a tenth network |
| Grouping.BurstGroups.AddAll | pcap_analyse/burst_width.c:264-300 | a capture is grouped if and only if it has at most nine networks, and then the arrays hold its group-by |
| Grouping.AddedKeepsGroupBy | pcap_analyse/burst_width.c:190-198 | adding a packet to a group-by gives the group-by with it: distinct networks, each with its time stamps in arrival order |
| Grouping.NetworkIsThreeOctets | pcap_analyse/burst_width.c:171-178 | two addresses share a network exactly when their first three octets agree |
| Grouping.GroupsCountPrefixes | pcap_analyse/burst_width.c:164-187 | there are as many groups as networks |
| Grouping.AddedAddsOne | pcap_analyse/burst_width.c:195-196 | one packet adds one time stamp in all |
| Grouping.WidthIsExact | pcap_analyse/burst_width.c:321-333 | between the two stamps it is computed from, the width exists exactly for gaps of at most one second and is within a millisecond of the gap, rounded down inside a second and up across one |
| Grouping.BurstGroups.WidthAt | pcap_analyse/burst_width.c:319-333 | a group's width runs from its first packet to its last but one; for one packet it reads the unfilled slot |
| Grouping.WidthDropsLast | pcap_analyse/burst_width.c:319-333 | the reported width is the burst's own if and only if the last packet rounds to the same millisecond or the burst was too long without it, and it is never larger |
| Grouping.OnePacketWidth | pcap_analyse/burst_width.c:319-333 | a burst of one packet gets width zero exactly for these contents of the unfilled slot |
| Grouping.BurstGroups.GapsAt | pcap_analyse/burst_width.c:313-317 | the gaps of a group, from the unfilled slot to the last but one |
| Grouping.GapIsExact | pcap_analyse/burst_width.c:314-314 | a computed gap is the true one if and only if both stamps share a second, and is otherwise off by whole seconds |
| Split.WindowIsExact | pcap_analyse/split_pcap_bytime.c:110-124 | for ordered stamps the test accepts exactly gaps of at most 700000 µs, and within one calendar second up to 700999 |
| Split.WindowIsHereditary | pcap_analyse/split_pcap_bytime.c:110-124 | an accepted interval's sub-intervals are accepted |
| Split.GreedyIsValid | pcap_analyse/split_pcap_bytime.c:218-247 | the files are a partition in which every packet is in the window of its file's first packet |
| Split.GreedyIsOptimal | pcap_analyse/split_pcap_bytime.c:218-247 | no contiguous partition with that property has fewer files |
| Split.FilesAreShort | pcap_analyse/split_pcap_bytime.c:218-247 | no output spans more than 700999 µs |
| Split.ReadRecord | pcap_analyse/split_pcap_bytime.c:184-222 | the walk's reads and seeks end up copying the record whole, or skip it exactly when its headers run past the end |
| Split.ProcessPcap | pcap_analyse/split_pcap_bytime.c:134-249 | the walk terminates and its outputs are the greedy files of the kept records, each behind the capture's header |
| Split.SplitConserves | pcap_analyse/split_pcap_bytime.c:174-249 | each output starts with the header, and without the headers the outputs concatenate to the input's record bytes if and only if no record was skipped |
| Split.ShortRecordIsLost | pcap_analyse/split_pcap_bytime.c:196-202 | a named capture whose only record is skipped |
| Split.LongRecordsAreReadable | pcap_analyse/split_pcap_bytime.c:196-215 | captured lengths of at least 38 keep every record |
| CaptureFormat.WalkReadsWhatIsWritten | pcap_analyse/split_pcap_bytime.c:179-191 | round trip: a capture written byte by byte consists of whole records, and they carry exactly the written stamps and bytes |
| CaptureFormat.SplitterKeepsAll | pcap_analyse/split_pcap_bytime.c:196-216 | packets that reach past their headers are all kept |
| CaptureFormat.SplitterWritesWindows | pcap_analyse/split_pcap_bytime.c:218-247 | one file for each window of the written stamps, with the header and the packets of that window as written; a file is opened exactly by the first packet outside the window before |
| CaptureFormat.LastPacketKept | pcap_analyse/split_pcap_bytime.c:196-216 | the last packet is kept exactly when its Ethernet and IPv4 headers, behind a VLAN tag or not, were captured |

## Left out

- The packet framework: its environment layer, ports, packet pools, timers, link checks and printing. A ring slot owns its packet, although HCMonitor/main.c:731 copies only the packet header structure.
- Hardware memory ordering and the store fences: steps interleave sequentially consistently.
- The race of the interval tick with the monitor core: the tick is one atomic event.
- The core loops as loops: they never end and run against each other, so they are transitions on values with program counters. The queue operations themselves are also modelled in place (`ParseQueue.dfy`).
- A parse queue's enlargement is one atomic step: the moment at which the reallocation moves the buffer under the monitor core is not modelled, nor is what a write past the end of a buffer destroys.
- PipelineTheorems.ConsumedIsFifoPrefix: like the other theorems on reachable states, is about runs whose steps are all safe; `Pipeline.StepKeepsInvIffSafe` shows that an unsafe step breaks the queues.
- EndToEnd.SamplesAreExact: assumes each connection is steered to one queue; a connection spread over several queues has no order of its own.
- Monitor.Monitor.Poll: assumes a position for a new connection; the hash's own layout and a full hash are not modelled, positions are given out from the bottom.
- Matching.RunAccounting: does not model the counters' 32-bit wrap-around.
- Report.PriorityBuffers.CdfAcktime: does not model floating-point rounding; latencies are whole nanoseconds and quantiles exact ratios. `goodput` and its uninitialised counter are left out.
- Split.ProcessPcap: assumes a capture of whole records below 2^31 bytes; truncated captures are not modelled.
- Split.GreedyIsOptimal: assumes time-ordered stamps with microseconds below one million, so the subtractions do not overflow.
- The burst tool's walk over its capture (pcap_analyse/burst_width.c:236-303), which is the splitter's: the grouping starts from addresses and time stamps.
- Grouping.BurstGroups.Add: assumes room in the group's time stamp array. The three parallel arrays of a burst are one array of records.
- QuickSort.Quick: is stated for a well-formed range; `compute_data` passes an array shifted by the group's index and uses slot 0, which is never filled.
- The three per-connection arrays of the monitor are one array of slots, and fields nothing depends on (addresses and the other sequence number) are dropped.
- Bytes beyond a captured frame read as zero.
- The inner scans of `PartSort` are methods of their own.
- The burst-counting mode, HTTP parsing, the capture-to-disk mode, the database, configuration parsing, plotting and shell scripts.
