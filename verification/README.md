# What the harness promises, proved

`freenet-harness` drives a live node and measures it. Between the sockets and the printed tables sit
state machines, logs, codecs and order statistics that have to be right before any number means
anything. This project models those parts in Dafny and proves what they keep: over every run, every
interleaving and every input, not on examples.

`dafny verify dfyconfig.toml` checks everything.

## How it is laid out

| files | part of the repository |
|---|---|
| `Ledger`, `LedgerRuns`, `LedgerNode`, `LedgerHonest`, `LedgerKeyed` | the request ledger of `src/probe.rs`: the class, whole runs of it, what it counts and what it reports against a node, keyed sends |
| `GroupLog`, `GroupFold`, `GroupWriter`, `GroupCut`, `GroupTally`, `GroupRun`, `GroupReads`, `GroupProbes` | the group log of `src/parity.rs`: one line, folding a file, what the writer wrote, a file cut short, its closing tallies, the writer itself, the read role, what its lines say of its probes |
| `Stats`, `Binomial`, `GroupArms`, `Batch` | percentiles, the scorer's order statistics, the predicted column, one group's reads, a batch of puts |
| `Reader`, `PutRole`, `PutReadBack`, `PutConfirm`, `Pairing`, `PairingLines`, `PairingRun`, `HedgeTrial` | the cross-node roles of `src/xnode.rs` and the trial of `src/hedge.rs` |
| `Mint`, `Pack`, `Calendar`, `Endpoint`, `Replicas` | seeds and mint files, the pack format, calendar conversion, the endpoint parser, the summary/delta contract |
| `Base`, `Text`, `Arith`, `Sorting` | shared vocabulary: numbers and lines as text, division, a stable sort |

A core that works step by step is a class or a method proved equal to a function of its old state;
the lemmas are about runs of that function. What the outside world does (a node's answers, clock
readings, random seeds, a lost connection) is an input, left arbitrary except where a lemma's
`requires` says otherwise.

## What is assumed

- The `instrument` crate and the contract crates are not part of this model. A recording is a sequence of
  events; a label is a kind and the order in which its key was first seen; how a keyed label becomes an
  operation id is the parameter `opOf`. Its `answers` is taken to list each keyed label that was sent once,
  answered if some reply was recorded under that label.
- Hashes, block ids and key derivation are parameters. Where uniqueness matters a lemma says so
  (`RankInjective`). A block id is compared through a real-valued rank. A state is its kind byte and its body.
- `f64` is exact (`real`), except that printing to one decimal is written out: nearest, ties to even.
- Clocks give non-decreasing readings.

## What turned out to be false, and exactly when

Each is kept as the code has it, with the condition under which the promise does hold.

- Keyed operations enter the recording under one id and are finished under another, so the recording and
  the open list agree after a keyed `finish` only if it had nothing to end
  (`LedgerKeyed.KeyedFinishAgreesIff`, `LedgerKeyed.KeyedGiveUpEndsAnotherRequest`).
- The outstanding count is not the node's unanswered count once a named answer arrives for a request sent
  without its key and its caller ends nothing, as in every put of the put role: each such answer leaves one
  entry open for ever. Until the first give-up the count is off by exactly those
  (`LedgerNode.OutstandingIsTheUnansweredCountIff`, `LedgerNode.NamedAnswerLeavesItOpen`); with errors,
  notifications and repeated answers too, `LedgerNode.OutstandingIsOffByWhatSlipped` gives the difference.
- An operation can be reported Ok without its own answer. By position it is safe, whatever the message was for,
  exactly when an answer is owed, nothing is open, or the oldest open request had its answer before
  (`LedgerHonest.PositionIsEnoughIff`): one receive error with one request out is enough to fail it
  (`LedgerHonest.ErrorEndsTheOldest`). By key it is safe exactly when no other unanswered request has the key
  (`LedgerHonest.KeyIsEnoughIff`): a key given up on and asked for again fails it
  (`LedgerHonest.AskedAgainIsMistaken`).
- The group writer refuses its own file exactly when nothing was sent, a key was sent twice, an
  acknowledgement came within 0.05 ms past the bound, or the recording has a reply under a sent key that was
  never filed (`GroupRun.Writer.SelfCheck`). The last happens when the connection ends, or a message names no
  key, while a put is open: by position it is put down to the oldest (`GroupRun.UnnamedIsPutDownTo`,
  `GroupRun.LostConnectionFailsTheCheck`).
- A run that dies does not always leave what it wrote readable: its file is buffered, and cut inside the seed of a
  record it is refused whole. It is refused in that case only, apart from having no record at all
  (`GroupCut.CutFileReadsBack`); cut inside a late acknowledgement's time it can call it within the bound
  (`GroupCut.DecidedSurvivesIff`).
- A bound header appended to an old-format log changes decided outcomes, except those the first
  acknowledgement gets again under that bound (`GroupFold.DecidedStaysIff`): an outcome only the record carried
  is forgotten (`GroupFold.LateHeaderForgets`), a late correction within the bound is no longer late
  (`GroupFold.LateHeaderForgives`).
- A removal can keep a key waiting longer than the one cycle the reader prints as its resolution. One cycle from the
  start probes every key, whatever is served, exactly when there are at most thirty-three
  (`Reader.OneCycleSufficesIff`). Any run longer than (removing rounds + 1) x (cycle - 1) rounds does
  (`Reader.EveryKeyIsProbed`), and a run of just that many can miss a key (`Reader.OneCycleCanMiss`).
- The put role's read-back is no round-robin while its plan is going out: each pass asks about the block it has just
  sent and nothing else (`PutReadBack.EachPassAsksItsOwn`), so one not served at once waits for the rest of the plan
  and for every unconfirmed block before it (`PutReadBack.TurnComesIff`). A turn within as many passes as there are
  blocks is promised exactly when no more is left to send than is confirmed
  (`PutReadBack.TurnWithinTheListIff`).
- The reader accepts the put role's own file as its key list, but then prints times already counted from the
  send, and pairing subtracts the send time again. Hits are measured exactly when the list carries no send time
  (`PairingRun.ListMeasuresIff`, `PairingRun.PutListNeverMeasures`).
- A put-role trial acknowledged at T or later can be marked acknowledged: exactly when the acknowledgement comes
  before the first marking pass due for it (`PutRole.MarkedUnackedIff`).
- A hedged trial belongs to the population its control is compared on unless its acknowledgement came exactly at T; a
  trial of that population was not hedged exactly when its last unacknowledged turn began before T
  (`HedgeTrial.HedgedIsUnackedIff`, `HedgeTrial.UnackedButNotHedgedIff`).
- In a parallel batch the curve's "all of it" means all that were answered, and a repeated
  acknowledgement overwrites its put's own latency (`Batch.WholeCurveIsTheBatchIff`, `Batch.SampleIsOfTheFirstIff`;
  `Batch.HalfABatchIsAllOfTheCurve` and `Batch.RepeatMovesTheSample` are runs).
- A delta brings a peer up to date only if the peer still has the length it summarised
  (`Replicas.StaleDeltaIff`). "Longer wins" keeps both states only if one is a prefix of the other, and
  depends on who merges only for two different states of one length (`Replicas.LongerIsJoinIff`).

## Model

| member | source | states |
|---|---|---|
| Ledger.Ledger.Request | src/probe.rs:99-133 | a send interns its key, records the edge, the count and the start, and joins the open list at the end |
| Ledger.Ledger.RequestKeyed | src/probe.rs:145-176 | the same for a send labelled by its contract key; a key seen before keeps its label |
| Ledger.Ledger.AnsweredBy | src/probe.rs:216-240 | an answer that names its key drops the first open entry of that key only, and ends no span |
| Ledger.Ledger.FinishWith | src/probe.rs:274-306 | a finish records its outcome, owes one more answer exactly when the outcome is Timeout or Blocked, and drops the first open entry of that label |
| Ledger.Ledger.ResponseArrived | src/probe.rs:325-376 | an unnamed answer ends the oldest open request, unless an answer is owed: then it is only counted, as ambiguous |
| Ledger.FreshLabel | src/probe.rs:99-105 | the n-th unkeyed request always gets label n, whatever names and numbers went before |
| LedgerRuns.OpenIsTheReplay | src/probe.rs:50-57 | in every unkeyed run the incremental open list is, in issue order and without repeats, the replay of the whole recording: entered and never ended |
| LedgerRuns.ResponseEndsOnlyARunningOperation | src/probe.rs:325-366 | after any unkeyed run `response` ends at most one operation, one that was running and had never ended, the oldest |
| LedgerRuns.TotalsAreCallCounts | src/probe.rs:384-397 | in every run the sent, received, owed and ambiguous totals of the recording are the numbers of such calls |
| LedgerRuns.OwedIsTimeoutsAndBlocked | src/probe.rs:287-297 | in every run the answers owed grow by one for each finish with Timeout and each with Blocked, and for no other finish |
| LedgerRuns.CountedUnder | src/probe.rs:145-240 | what a keyed send or a naming answer counts goes under the operation of its own key, everything else under none |
| LedgerRuns.NoResponseClosesAfterAGiveUp | src/probe.rs:326-340 | from the first give-up on, through any further calls, no unnamed answer ends anything or changes what is open |
| LedgerRuns.NothingEndsAfter | src/probe.rs:287-340 | after one finish with Timeout or Blocked anywhere in a run, no later unnamed answer of that run ends an operation or closes an entry |
| LedgerNode.OutstandingIsOffByWhatSlipped | src/probe.rs:318-376 | in every run, errors, notifications, repeated answers and give-ups included, the open list exceeds the unanswered requests by the messages that settled one and closed nothing, less those that closed an entry and settled nothing |
| LedgerNode.OutstandingIsTheUnansweredCountIff | src/probe.rs:318-324 | against a node that only answers, each request at most once and in any order, until the first give-up, the open list is the unanswered requests and one for each named answer that ended no open operation; so the count is true exactly when there was none |
| LedgerNode.CountStep | src/probe.rs:318-324 | one step keeps a true count exactly when it closes an entry if and only if it settles a request |
| LedgerNode.NamedAnswerLeavesItOpen | src/probe.rs:502-511 | a put sent without its key and answered by name, its sender ending nothing, is still outstanding when nothing is unanswered |
| LedgerHonest.PositionIsEnoughIff | src/probe.rs:318-366 | a message taken by position keeps every Ok report backed by its own answer, whichever request it was for if any, exactly when an answer is owed, nothing is open, or the oldest open request was answered before |
| LedgerHonest.ErrorEndsTheOldest | src/probe.rs:502-513 | one request out, nobody gave up, a receive error: the request is reported Ok with its answer still to come |
| LedgerHonest.KeyIsEnoughIff | src/latency.rs:508-523 | taking any answer that names the key is right, whichever request it was for, exactly when no other unanswered request has the key |
| LedgerHonest.OldestAnswerHonestIff | src/parity.rs:757-803 | from a node that answers each key in order it is right exactly when no earlier unanswered request has the key |
| LedgerHonest.AskedAgainIsMistaken | src/parity.rs:774-801 | the run in which a key is given up on, asked for again, and the first request's answer reported as the second's |
| LedgerHonest.NeverOkWithoutItsAnswer | src/probe.rs:287-297 | against a node that answers by position oldest first until the first give-up, and each key in order with no older request of it unanswered, no operation is ever reported Ok without its own answer |
| LedgerKeyed.KeyedPairingIsExact | src/probe.rs:211-240 | in every keyed run, with give-ups, foreign or repeated answers, errors and unnamed messages, a key has as many open operations as sends nothing settled: each settling call, and each unnamed one for the oldest, settles one |
| LedgerKeyed.AnsweredAgreesIff | src/probe.rs:216-240 | a self-naming answer leaves recording and open list in agreement exactly when its key had nothing open |
| LedgerKeyed.KeyedFinishAgreesIff | src/probe.rs:274-279 | where the two ids differ, a keyed finish leaves them in agreement exactly when its label was not open and nothing else ran under its ordinal |
| LedgerKeyed.KeyedGiveUpEndsAnotherRequest | src/probe.rs:274-279 | a concrete run in which finishing a keyed put makes the recording end an unrelated request |
| GroupLog.LineRoundTrip | src/parity.rs:179-219 | the line of any block with a word for a key reads back as that block, its time rounded to one decimal, and as nothing else |
| GroupLog.AckRoundTrip | src/parity.rs:99-114 | a printed outcome parses back to the same class and the rounded time |
| GroupLog.HexRoundTrip | src/parity.rs:121-138 | hex of any bytes parses back to them |
| GroupLog.ParseGroups | src/parity.rs:197-302 | the method that loops over a file's lines returns the fold of its line views, errors included, in both historical formats |
| GroupFold.BlockLineWords | src/parity.rs:179-193 | the twelve words of a block's line, each in its place, the outcome in one of its three spellings |
| GroupFold.RecordsAre | src/parity.rs:202-220 | unless a line's record is malformed, the blocks are those of the lines that have one, in the order of the lines |
| GroupFold.FirstBadRecord | src/parity.rs:202-220 | and when one is, the first malformed record refuses the file with its error |
| GroupFold.DamagedNumber | src/parity.rs:207-218 | a word that is no number refuses the file as a group, a width or an index, and is zero as a send time or a size |
| GroupFold.DamagedField | src/parity.rs:207-218 | a word that is no arm, no outcome or no seed refuses it |
| GroupFold.HeaderIs | src/parity.rs:248-254 | a line is a header by how it starts, and a bound that is no number is taken for thirty seconds |
| GroupFold.NewFormatOutcome | src/parity.rs:248-272 | with a header anywhere, a block is Within or Late by its key's first ACK line against the first header's bound, met when equal, and Never without one, whatever its record said |
| GroupFold.OldFormatOutcome | src/parity.rs:273-299 | without one, a record's own outcome stands however its key is acknowledged later; a record that says never is Late by the first ACK line and Never without one |
| GroupFold.DecidedStaysIff | src/parity.rs:223-299 | whatever lines are appended, blocks keep all but their outcome, and a decided outcome stays exactly when the format does, or the first acknowledgement gets that outcome under the new header's bound |
| GroupFold.RepeatedAckIsInert | src/parity.rs:255-265 | an ACK line after the first for its key changes nothing, wherever it stands and whatever its time, in either format |
| GroupFold.LateHeaderForgets | src/parity.rs:248-272 | a bound header appended to an old-format file turns an outcome only the record carried into Never |
| GroupFold.LateHeaderForgives | src/parity.rs:266-298 | and a late correction that meets the bound into Within |
| GroupWriter.FileReadsBack | src/parity.rs:448-508 | the text of any run reads back as the blocks sent, in order, each classed by its own first acknowledgement as printed |
| GroupWriter.FileClassIs | src/parity.rs:229-272 | the class in that file is the key's first acknowledgement, rounded to a tenth, against 1000 ms for each second of the bound, or never |
| GroupWriter.LineWords | src/parity.rs:361-363 | the other two kinds of line: an acknowledgement's three words and the header's bound in milliseconds |
| GroupWriter.ClassesAgreeIff | src/parity.rs:587-607 | file and memory class a key alike exactly when rounding does not carry its time over the bound |
| GroupTally.KeysStep | src/probe.rs:145-240 | a keyed send asks for its own key and no other; a key is replied to by an answer that names it, or by an unnamed message its position puts on it |
| GroupTally.SelfCheckPassesIff | src/parity.rs:587-629 | the file's tally over blocks is the recording's over keyed operations exactly when no key was sent twice, no time crosses the bound when printed, and no reply went unfiled: differences cannot cancel |
| GroupRun.Writer.Send | src/parity.rs:470-507 | a send appends its record with the outcome unknown, asks for the key in the recording, and keeps file, memory, quota and recording in step |
| GroupRun.Writer.DrainAcks | src/parity.rs:331-374 | a waiting key's time after the drain is the time from its send to the first message that answers it before anything stops the drain, in milliseconds and never negative; no other key gets a time and none changes; a lost connection is heard, and file, memory, quota and recording keep in step |
| GroupRun.Writer.DrainPlan | src/parity.rs:331-374 | after any sends and drains, the next drain appends exactly the first answers of the keys still waiting |
| GroupRun.Writer.DrainKeepsInStep | src/parity.rs:331-374 | a drain keeps the recording in step with the file whatever arrives, and files every reply it records if only answers to sent keys arrive |
| GroupRun.HeardIff | src/probe.rs:504-520 | exactly which keys one message is a reply for: the one it names, or the oldest open one when it names none or the connection is lost, and nothing for silence |
| GroupRun.UnnamedIsPutDownTo | src/probe.rs:341-358 | an unnamed message or lost connection is recorded as a reply under the oldest open key |
| GroupRun.LostConnectionFailsTheCheck | src/parity.rs:587-629 | a run of one send and a lost connection, whose closing check refuses the file |
| GroupCut.CutFileReadsBack | src/parity.rs:223-233 | a file cut past its header is refused whole exactly when cut inside a record's seed; otherwise it reads back as the file of its whole entries and, if cut inside an acknowledgement's time, that time's first digits |
| GroupCut.DecidedSurvivesIff | src/parity.rs:229-299 | a class a cut file gives is the whole file's, exactly unless the cut is inside the key's first acknowledgement and what is left of a late time meets the bound |
| GroupCut.HeaderPiece | src/parity.rs:221-223 | a file cut inside its header has no groups |
| GroupCut.EveryBeginning | src/parity.rs:446-449 | every beginning of a run's file is one of these: cut in its header, whole, or cut at some character of some entry |
| GroupRun.DrainFilesFirstAnswers | src/parity.rs:352-363 | through any arrivals each waiting key is filed once, with its first answer; foreign, repeated and earlier answered keys get nothing |
| GroupRun.Writer.SelfCheck | src/parity.rs:587-629 | after any interleaving of sends and drains the closing check passes exactly when something was sent, no key twice, no remembered time lies within 0.05 ms past the bound, and the recording has no reply for a sent key without a time |
| GroupReads.ReadRole | src/parity.rs:703-739 | the read loop writes the lines of its round-robin, whatever each probe brings and wherever the deadline falls; what those lines are is in the rows below |
| GroupProbes.RoundIs | src/parity.rs:709-725 | one round: the key of a probe that fetched has its line, with that time and size, every other key stays open, both in the order asked |
| GroupProbes.ReadIffFetched | src/parity.rs:703-739 | over a whole run a key has a READ line with a time and size exactly when some probe made of it fetched just that |
| GroupProbes.MissIffNeverFetched | src/parity.rs:703-739 | with distinct keys it has a MISS line exactly when it was asked for and no probe made of it ever fetched |
| GroupProbes.ReadLineSays | src/parity.rs:718-721 | the group, key, time and size of a READ line can be read back from it |
| GroupProbes.MissLineSays | src/parity.rs:736-738 | and the group, key and limit of a MISS line |
| GroupReads.OneLineEach | src/parity.rs:703-739 | those lines hold exactly one READ or MISS for each wanted key |
| GroupReads.ParseReads | src/parity.rs:805-821 | the parsing loop keeps each key's last line |
| GroupProbes.LastLineStands | src/parity.rs:805-821 | so of several lines for a key the last one stands |
| GroupProbes.LineTakes | src/parity.rs:809-817 | which lines count, and that a READ line whose time is no number is a miss |
| GroupReads.AskedIsWanted | src/parity.rs:676-681 | a key counts as asked in the score exactly when some block of a full group, or a data block of a control group, has it |
| GroupReads.EachKeyHasItsOwnLine | src/parity.rs:805-821 | with distinct keys the scored time of each is that of its own line, to one decimal, or a miss |
| Stats.MthAtMostIff | src/parity.rs:960-977 | the m-th smallest is at most t exactly when at least m values are |
| Stats.ReadableIffMthArrived | src/parity.rs:960-977 | a group counts as readable within t exactly when its m-th arrival exists and is at most t |
| Stats.ReadableGrows | src/parity.rs:960-977 | more time or more parity never makes a readable group unreadable |
| Stats.ReadByIs | src/parity.rs:966-975 | the members counted for p parity blocks are the data and the parity with an index below m + p, read at t or before |
| Stats.ArrivalsAre | src/parity.rs:966-975 | the arrivals those counts are about, member by member, and the arrivals of the whole group |
| Stats.DataArrivalsAre | src/parity.rs:1077-1085 | the arrivals of the data members alone |
| Stats.MthOfAllBeatsLastData | src/parity.rs:1067-1086 | if all m data members arrived, the m-th fastest of the whole group is no later than the slowest of them |
| Stats.BucketsPartition | src/parity.rs:1020-1037 | the rows 0, 1, 2, 3 and 4+ misses account for every group once |
| Stats.MissedIs | src/parity.rs:999-1006 | every member of a group has arrived or is missed |
| Stats.BucketIs | src/parity.rs:1020-1035 | a group adds one to the row of its number of missed members, the last row being four or more |
| Stats.NearestRankMeans | src/stats.rs:12-19 | a percentile is an observed sample with at least that share at or below it and less than that share below it |
| Stats.ThreeRanksAgree | src/group.rs:617-622 | the three implementations give the same value on every non-empty series and percentage |
| Stats.SummaryIsOrderedAndOrderFree | src/stats.rs:32-46 | a summary is ordered from minimum to maximum and does not depend on the order of its samples |
| Stats.SummaryMeans | src/stats.rs:32-46 | the five numbers of any series: its two extremes, and three of its samples with at least 50, 90 and 99 percent at or below them and less than that below |
| Binomial.Coefficient | src/parity.rs:845-850 | the running product is Pascal's C(n,k) at every step |
| Binomial.PascalTerm | src/parity.rs:845-851 | a predicted chance is what conditioning on one more block makes of those with one block fewer: p times one miss fewer, 1 - p times as many |
| Binomial.TermsSumToOne | src/parity.rs:845-851 | the predicted chances over k = 0..n sum to one |
| Binomial.FourOrMore | src/parity.rs:1038-1042 | the 4+ prediction is the true tail, and a probability, for every group of at least three |
| GroupArms.ReadSide | src/group.rs:329-377 | the outstanding/hits loop of a group computes the fold of its passes, counters included |
| GroupArms.PassIs | src/group.rs:332-354 | one pass: the time of each piece served, the pieces that stay, and one attempt for each look there was time for, all in order |
| GroupArms.OnePassMore | src/group.rs:330-380 | what a pass adds to a group: those times and attempts, and in the baseline arm, when a hedge is due, one re-put for each piece still outstanding |
| GroupArms.GroupConserves | src/group.rs:329-377 | every piece has one time or is still outstanding; attempts and re-puts are bounded by what was outstanding; the raw arm re-puts nothing |
| GroupArms.GroupTimes | src/group.rs:387-391 | the time to all n exists exactly when nothing is outstanding, the time to k exactly when at most n - k are, and it is no later |
| Batch.Cut | src/latency.rs:163-178 | a payload is cut into the fewest pieces, all full but the last, that add up to it; refused exactly when that is more than the slots |
| Batch.SkippedIffRefused | src/latency.rs:245-256 | the skip note is exact: what it lets through is never refused by the cut, and what it skips would be |
| Batch.Collect | src/latency.rs:1048-1100 | the collecting loop returns one sample per put in issue order and the times of first acknowledgements, takes nothing once every put has its answer, and stops or fails as the source does |
| Batch.SampleIsOfTheLast | src/latency.rs:1058-1066 | a put's sample is the time from its own send to the last acknowledgement of it that was collected |
| Batch.NoSampleIff | src/latency.rs:1091-1100 | and it failed exactly when none was |
| Batch.CurveIs | src/latency.rs:1060-1068 | the curve has the time of each acknowledgement that is the first for a put of this batch, in order, and nothing else |
| Batch.CurveCountsAnswers | src/latency.rs:1061-1082 | strangers and repeats never add to the curve: it has one point per answered put |
| Batch.SampleIsOfTheFirstIff | src/latency.rs:1062-1069 | a put's own latency is that of its first acknowledgement exactly when no later one followed |
| Batch.RepeatMovesTheSample | src/latency.rs:1053-1088 | a collecting run of two puts in which a repeated acknowledgement moves a sample and not the curve |
| Batch.HalfABatchIsAllOfTheCurve | src/latency.rs:1053-1100 | a collecting run in which half the batch fails and all of the curve is the other half |
| Batch.WholeCurveIsTheBatchIff | src/latency.rs:1004-1012 | the curve's time for all of the batch covers the whole batch exactly when no put failed |
| Reader.Scheduler.OneRound | src/xnode.rs:767-830 | one round probes a burst from the cursor on, removes what was served, and moves the cursor by the burst modulo the old length |
| Reader.RoundIs | src/xnode.rs:790-830 | one round: the keys found are those a probe at the cursor and on was served for, the rest stay in their order, and the cursor moves by at most thirty-two on the old length |
| Reader.NoPositionTwice | src/xnode.rs:767-803 | a round never probes a position twice |
| Reader.OneCycleProbesEveryKey | src/xnode.rs:748-757 | one cycle of rounds without a removal probes every pending key |
| Reader.EveryKeyIsProbed | src/xnode.rs:748-830 | in any run longer than (removing rounds + 1) x (cycle - 1) rounds, every pending key is probed |
| Reader.OneCycleSufficesIff | src/xnode.rs:748-757 | one cycle from the start probes every key, whatever the node serves, exactly when there is at most one key more than a burst |
| Reader.OneCycleCanMiss | src/xnode.rs:803-830 | from 34 keys to 64, one read in the first round makes a cycle miss a key, and the run attains the bound above |
| Reader.OneCycleCanMissLater | src/xnode.rs:803-830 | on every longer list one read in the second round does |
| Reader.ReadAndPendingPartition | src/xnode.rs:816-830 | read and pending keys always partition the cold ones |
| PutRole.Role.SendNext | src/xnode.rs:256-302 | one planned block goes out per pass, as a new unmarked trial put once, its clock starting now |
| PutRole.Role.TakeAck | src/xnode.rs:306-314 | only the first acknowledgement of the first trial with that key is kept |
| PutRole.Role.MarkDue | src/xnode.rs:319-371 | a marking pass marks every due trial in both arms and re-puts the unacknowledged hedge-arm ones, once each |
| PutRole.Role.ReadBackOne | src/xnode.rs:375-394 | a pass asks about the next trial round-robin that has no confirmation, and only that |
| PutRole.EveryRunKeepsItsMarks | src/xnode.rs:256-371 | in every run: hedged is exactly a hedge-arm trial marked unacknowledged, such a mark means an ack at T or later or none, each trial is put once and once more exactly if hedged, and the hedged bytes are the states and codes of those |
| PutRole.MarksAreFinal | src/xnode.rs:306-331 | a mark, once taken, and a first acknowledgement never change |
| PutRole.ConditionedNeverFalls | src/xnode.rs:428-433 | the conditioned population of an arm never falls |
| PutRole.UnreachableIsTrue | src/xnode.rs:450-476 | once all is sent and marked no continuation changes either population, so the report that the milestone is out of reach is true |
| PutConfirm.ConfirmationIsTheFirstServed | src/xnode.rs:375-394 | in every run a trial's confirmation is the time from its own send to the first read-back that asks about it and is served, and there is none when no read-back is |
| PutRole.Decide | src/xnode.rs:428-476 | the stopping rule: at the milestone exactly when it is asked for and the control trials and the hedge trials marked unacknowledged each number at least that many; over exactly when otherwise all is sent and marked and either all is confirmed and acknowledged or the wait is up; out of reach only when no continuation could reach it |
| PutRole.MarkedUnackedIff | src/xnode.rs:306-331 | for every run and every trial in it: marked unacknowledged exactly when the first marking pass due for it precedes any acknowledgement of it, and acknowledged at T or later yet marked acknowledged exactly when its first acknowledgement falls between |
| PutRole.AckedLateCanBeMarkedAcked | src/xnode.rs:319-331 | that gap is real: a run of four steps |
| PutReadBack.ReadBackComesRound | src/xnode.rs:375-394 | once nothing is sent any more, every unconfirmed trial is asked about within as many read-backs as there are trials, whatever else happens |
| PutReadBack.EachPassAsksItsOwn | src/xnode.rs:256-394 | while every pass sends, pass k asks about the k-th trial sent and no other, and that look is all that confirms it |
| PutReadBack.TurnComesIff | src/xnode.rs:256-394 | for every run of passes from the start or any point of it while sending: a trial without a confirmation is asked about exactly when there are more passes than what is left to send and the unconfirmed trials before it |
| PutReadBack.TurnWithinTheListIff | src/xnode.rs:373-394 | every unconfirmed trial has its turn within as many passes as there are trials exactly when no more is left to send than is confirmed; with none confirmed, exactly when nothing is left to send |
| Pairing.Pair | src/xnode.rs:1072-1095 | the rows are, in the order of the hits, those whose key was sent and whose time less that send's is not negative, with that difference; the unmatched are the hits of keys never sent, and the refused are the rest |
| Pairing.FirstSendIsTaken | src/xnode.rs:1075 | a hit is paired with the first send of its key |
| Pairing.RowIffSound | src/xnode.rs:1072-1095 | a row is there exactly if some hit has a send and does not precede it |
| Pairing.Conditional | src/xnode.rs:1158-1171 | the far times and the acknowledgements of an arm's rows marked unacknowledged at T, in order, and n = acks + never acked |
| Pairing.PopulationIff | src/xnode.rs:1158-1163 | the population is exactly the arm's rows marked unacknowledged at T |
| Pairing.VerdictOf | src/xnode.rs:1119-1130 | a run is comparable exactly when both arms' populations reach the floor of twenty; the number reported is the smaller of them |
| Pairing.ProxyOf | src/xnode.rs:1209-1228 | the three orders partition the pairs with an ack, those with the rest make all rows, and the gaps are acknowledgement less far read, pair by pair |
| Pairing.DecidedIffEveryOffsetAgrees | src/xnode.rs:1197-1224 | a pair is decided exactly when every clock offset within the margin gives it that order; else undecided |
| Pairing.MarginOnlyUndecides | src/xnode.rs:1197-1224 | a larger margin only moves pairs to undecided, and never touches those without an ack |
| PairingLines.PutLineRoundTrip | src/xnode.rs:503-519 | a PUT line reads back as everything the put role knew of its trial, its two times to one decimal |
| PairingLines.PutLineWords | src/xnode.rs:503-519 | the nine words of that line, a dash for what the writer does not know |
| PairingLines.OlderLine | src/xnode.rs:1258-1285 | a line of an older file, with fewer words, is read the same as far as it goes: control, no mark, not hedged, no acknowledgement |
| PairingRun.ReadLineParses | src/xnode.rs:822-824 | a READ line parses to the key, the size and the printed time |
| PairingRun.HitMeasuredIff | src/xnode.rs:698-702 | a hit's row is the true elapsed time, to the printed decimal, exactly when the key list gave no send time and rounding did not carry the hit to before its send |
| PairingRun.ListMeasuresIff | src/xnode.rs:698-702 | before anything is read: every hit at least 0.05 ms after its send is going to be measured exactly when the list carries no send time |
| PairingRun.PutListNeverMeasures | src/xnode.rs:822-824 | read from the put role's file no hit is measured: it is refused, or short by the whole clock reading at the send |
| PairingRun.PairedRunIsConditioned | src/xnode.rs:1132-1171 | for every put run and reader file, a compared row is hedged exactly in the hedge arm's population, and no ack there is earlier than T after printing |
| PairingRun.ComparableNeedsTheMilestone | src/xnode.rs:1098-1130 | the reader can only thin a population, so a comparable pair of files comes from a put run that had reached that milestone |
| HedgeTrial.RunTrial | src/hedge.rs:138-206 | the trial's loop: which turn it stops at, that it fails exactly if that turn brings a due hedge or read-back that cannot be sent or a connection lost while unacknowledged, and otherwise which acknowledgement and read-back it keeps and that a hedge fired exactly if some turn began at T or later with nothing acknowledged |
| HedgeTrial.FailsIff | src/hedge.rs:143-204 | which turns end a trial with an error, from what the turns bring: the first at T or later whose hedge cannot be sent, a read-back that cannot be, a lost connection, each only while nothing settled it |
| HedgeTrial.TakenIff | src/hedge.rs:138 | a turn is taken exactly before the deadline and while nothing was acknowledged or nothing read back |
| HedgeTrial.ReadBacksAreSpaced | src/hedge.rs:159-189 | two read-backs are at least a probe apart, which is the clock's printed resolution |
| HedgeTrial.AsksIff | src/hedge.rs:162-191 | a turn asks for the block exactly when a quarter of a second has gone by since every read-back before it |
| HedgeTrial.TimesAreTheFirst | src/hedge.rs:159-199 | a trial's two times are those of the first read-back served and the first acknowledgement taken |
| HedgeTrial.HedgedIsUnackedIff | src/hedge.rs:208-227 | a hedged trial was acknowledged at T or later or never, and counts as unacknowledged at T exactly unless it was at T itself |
| HedgeTrial.UnackedButNotHedgedIff | src/hedge.rs:208-227 | a trial of the population was not hedged exactly when its last unacknowledged turn began before T; its ack then fell within that turn |
| HedgeTrial.TheTwoDisagree | src/hedge.rs:222-227 | both gaps occur, for every T |
| HedgeTrial.UnaidedIsTheTail | src/hedge.rs:245-256 | never-acknowledged controls are all in the pool, and its printed percentiles are later than T |
| HedgeTrial.UnaidedIs | src/hedge.rs:245-256 | what is printed of the control: the trials acknowledged later than T or never, how many acknowledged, and the two percentiles of when, in milliseconds |
| Mint.BodyFromSeed | src/xnode.rs:58-70 | the loop yields as many bytes as asked, byte i being byte i mod 32 of the hash of the seed and the eight-byte counter i / 32 |
| Mint.ReMintIsTheSameBlock | src/parity.rs:1253-1265 | the seed and size read back from any logged block rebuild the identical state and key, so the re-put check passes |
| Mint.MintOnly | src/xnode.rs:101-150 | the mint role's file: samples of each size, each with its own seed and the key of the hash of its kind and body, every second one hedged when there are arms |
| Mint.ArmsShareEveryPrefix | src/xnode.rs:114-123 | wherever a run stops, the hedge arm has had half, rounded down |
| Mint.MintLineWords | src/xnode.rs:136-142 | the five words of a minted line |
| Mint.PlanIsWhatWasMinted | src/xnode.rs:216-233 | the put role reads back the seed, size and arm of a minted line, so it puts the key that was printed |
| Pack.Wire | src/pack.rs:39-48 | the encoding loop appends one frame per member after the four magic bytes and the count, low byte first |
| Pack.PackRoundTripIff | src/pack.rs:39-48 | decoding undoes the encoding exactly when there are fewer than 2^16 members, each shorter than 2^32 bytes |
| Pack.SamePackIffSameMembers | src/pack.rs:51-60 | with distinct block ids, two lists give one pack exactly when they are permutations of each other |
| Pack.MemberLengths | src/kill9.rs:209-241 | sizing succeeds exactly when the cap has room for 6 bytes of header and a 5-byte frame; then there are as many members as 65,536-byte ones and their frames need, all of one length but the last, and header, frames and members fill the cap exactly |
| Calendar.ChronoIsh | src/latency.rs:1202-1245 | the loops terminate in a valid Gregorian date and time that stands for exactly the input seconds, also by closed arithmetic that has no table of months and no loop over years |
| Calendar.FieldsOrderAsTime | src/latency.rs:1202-1245 | fields compare as the times they stand for, and a time has one stamp |
| Calendar.YearsClosedForm | src/latency.rs:1207-1215 | the year loop agrees with the closed-form leap count for every year |
| Calendar.MonthsClosedForm | src/latency.rs:1218-1236 | the table of month lengths gives every month the start that the closed form (153 m + 2) / 5 gives it |
| Calendar.ValidIffBeforeTheNextMonth | src/latency.rs:1233-1236 | a day is in a month by that table exactly when, by the closed arithmetic, it comes before the first of the next |
| Endpoint.EndpointPortIff | src/main.rs:511-530 | the parser finds a port in exactly the ws and wss URLs that name one, and that port, whatever userinfo, host, brackets, path, query or fragment |
| Endpoint.TargetIsTheEndpointGiven | src/main.rs:550-583 | a run connects to the endpoint it was given, which names a port other than 7509 and 7609, or to none; `group`'s second endpoint is checked too, and `local` never changes where |
| Replicas.UpdateState | fixtures/validate-cost-contract/src/lib.rs:82-129 | the update loop applies items in order and refuses all on the first refusal, an empty delta included |
| Replicas.OneMoreItem | fixtures/validate-cost-contract/src/lib.rs:91-124 | after any items, one more appends its tail (tag 0x01), changes nothing (0xFF, other kinds), or replaces a strictly shorter state |
| Replicas.UpdateRefusedIff | fixtures/validate-cost-contract/src/lib.rs:87-128 | an update is refused exactly for short parameters, for a malformed delta anywhere in its list, or in mode 1 for one digest byte of an empty result; otherwise its result is that of its items |
| Replicas.ExchangeCatchesUp | fixtures/validate-cost-contract/src/lib.rs:132-159 | a peer that is behind on the same log becomes the sender; one that is not refuses the empty delta |
| Replicas.OddSummaryGetsEverything | fixtures/validate-cost-contract/src/lib.rs:147-158 | a summary that is not eight bytes long counts as nothing held, and gets the whole state |
| Replicas.StaleDeltaIff | fixtures/validate-cost-contract/src/lib.rs:142-159 | a delta is right for another prefix of the log exactly if it has the summarised length |
| Replicas.LongerIsJoin | fixtures/validate-cost-contract/src/lib.rs:99-113 | longer-wins is a semilattice join on the prefixes of one log |
| Replicas.LongerIsJoinIff | fixtures/validate-cost-contract/src/lib.rs:99-113 | for any two states the result extends both exactly when one is a prefix of the other, and is the same both ways exactly unless they differ at one length |
| Replicas.ReplicasFollowOneLog | fixtures/validate-cost-contract/src/lib.rs:82-159 | under any run of appends, no-ops, merges and exchanges every replica stays a prefix of the writer's log and never shrinks |
| Replicas.OneExchangeConverges | fixtures/validate-cost-contract/src/lib.rs:132-159 | after any run, one exchange with the writer brings a replica up to date and touches no other |

## Left out

- LedgerRuns.TotalsAreCallCounts: takes the recording as complete; what a total says once 65,536 events have been exceeded depends on a crate that is not part of this model.
- LedgerNode.OutstandingIsTheUnansweredCountIff: is about connections whose sends are unkeyed, as LedgerHonest.HonestExactlyWhenSound is; keyed sends are LedgerKeyed.KeyedPairingIsExact.
- Binomial.Coefficient: asks for k <= n; beyond that the source's unsigned subtraction has no meaning, and Binomial.FourOrMore asks for n >= 3 for the same reason.
- Pairing.MarginOnlyUndecides: asks for a non-negative margin, as Pairing.DecidedIffEveryOffsetAgrees does; the flag is not checked, and with a negative one the two orders overlap.
- Mint.PlanIsWhatWasMinted: is about lines the mint role wrote; a seed field too short to slice is a panic in the source and the value ShortSeed here.
- Batch.CurveCountsAnswers: assumes the batch's keys are distinct, as fresh random bodies make them.
- Calendar.ChronoIsh: gives the fields; padding them into a string is not modelled.
- The recording's capacity of 65,536 events and its eviction, the last-request field, byte counters, locks and threads of `src/probe.rs`.
- Exponents, `inf` and `nan` in numbers read from files, and floating-point rounding other than the one printed decimal.
- Sockets, timeouts, process spawning and real clocks: inputs here, with the order of readings as the only assumption.
- The plan and the progress lines of the group writer and the schedule of the put loop's passes; any order of their steps is covered instead.
- The re-put loop of `src/parity.rs`, which keeps a key's last acknowledgement where the writer keeps the first.
- The third arm of `src/group.rs`, the write sides of its arms, and the outer loops that repeat groups, trials and rounds.
- `Set` and `Bag` states beyond how their payload is cut; the register, set, bag and upgrade contracts rest on merge rules that are not part of this model.
- Tables, messages, command-line definitions and byte-size helpers.
