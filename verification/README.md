# Verified model of the proxy: body relay, headers, connection pool and rate limiters

This project models four parts of the proxy and proves what they promise.

**Body framing and the response relay.** `ChunkHead`, `Framing`: what the octets of a
body mean (section 7.1 of RFC 9112 for the chunked coding, section 6.3 for finding the
end), as one recursive function `Framing.Decode` without buffer or state. `BodyReading`
is the reader as it is in the program: one array, rewind octets, in-place compaction and
the four-number state; it is proved to do what `ReaderModel.Deliver` does on values, and
that in turn to spell out `Decode` however the network cuts the octets (`ReaderRuns`,
`BodyRun`). `HeadKnowledge` and `HeadLimit` are about partial chunk heads: what of them
matters to the octets that follow, and when their limit strikes.
`WriterModel` and `BodyWriting` are the writer and its short-write loop.
`FramingChoice`, `Responding`, `DownstreamSession`: which framing each side picks, and
how batches of tasks are written to the client. `UpstreamHead` reads the upstream's
headers, with the header parser as a parameter. `Relay` composes them: every `await` of
the response path is a step, taken in any order, with any segmentation of the upstream's
header and body octets, any batching of tasks, a bounded channel, header and body reads
lost to the other branch of a `select!`, and sockets that fail at any octet.
`RelayProgress` shows that nothing gets stuck when nothing fails, `RelayHazards` where
the relay goes wrong.

**Headers.** `Headers`, `HeaderBlock`: the map of spellings and the map of values edited
side by side, and the octets written for them, read back by a reader of header blocks.

**Connection pool.** `PoolNode` (ring of sixteen and overflow map), `Pool` (groups of
nodes and the LRU of one thread), `PoolRuns` (where every added connection went, over
whole runs), `PoolThreads` and `PoolEvictions` (any number of threads, each with its own
LRU, LRU and node updates as separate steps), `NodeSteps` (one node, its ring and its
lock step by step).

**Rate limiters.** `Limiters` (token bucket, leaky bucket and their equivalence),
`LeakyTicks`, `FixedWindow`, and `RedisStore`, which runs the scripts on stored keys.

Integers are unbounded except where a width decides something: a chunk the writer sends
is shorter than 2^64 octets (`Bytes.USIZE_LIMIT`). Time is the caller's clock in whole
seconds; rates are reals.

## What was found on the way

- A chunked read abandoned after a partial head was moved to the front of the buffer
  leaves the state unchanged, and the next read moves it again. The body survives that
  exactly when the scanner knows the same after the moved head: size so far, whether CR
  came last, whether an extension has begun, whether more digits may follow
  (`ReaderRuns.AbandonExactly`); `AbandonTruncates` gives a body that is cut short. The
  relay abandons reads (core/src/service/proxy/duplex.rs:198-227), so `RelaySafe` asks
  that every abandoned read survives.
- A header read abandoned with octets in hand forgets them (core/src/session/upstream.rs:76-102),
  and octets that arrive together with an interim header are never looked at
  (core/src/session/upstream.rs:77-79). From there on the relay is that of an upstream that never
  sent them (`RelayHazards.HeaderLost`, `InterimLost`). For every choice of octets that can be
  in hand some exchange is then answered Ok(true) with a body the upstream never sent, and only
  without any is every run safe (`RelayHazards.AbandonedHeaderExactly`, `OverrunExactly`).
- A HEAD request whose first answer is an interim header is answered Ok(true) without
  the final header, and only such a one is (`RelayHazards.HeadInterimExactly`;
  `HeadInterimHappens` names one).
- A stream is refused for the limit on partial chunk heads under some segmentation exactly
  when one of its heads is unfinished one octet past it (`HeadLimit.LimitExactly`).
- Reader and writer disagree on the framing of exactly one family of responses: status
  101 in answer to an upgrade request, under a version other than HTTP/1.1, that also
  announces a length or chunks (`FramingChoice.ModesAgreeExactly`).
- The token bucket's bound needs keys that live long enough to fill an empty bucket
  (`Limiters.TokenBoundExactly`); it is the leaky bucket only for whole rates, or rates
  that fill it in a second (`Limiters.TokenIsLeakyExactly`), and only then do the leaky
  bucket's refusals lose nothing (`LeakyTicks.RefusalsExactly`).
- The fixed window admits up to `2 * limit - 1` requests in an interval of one period,
  and no more (`FixedWindow.FixedWindowExactly`).
- The leaky bucket keeps to capacity plus rate times seconds in every window only for the
  rates named above (`LeakyTicks.LeakyBoundExactly`).
- Closing a connection under another group than its id's leaves it pooled with nothing to
  evict it (`Pool.ConnectionPool.CloseConnection`); so does adding one while the LRU drains
  or has capacity 0 (`Pool.ConnectionPool.AddConnection`).
- With several threads an eviction can take a connection that another thread has added
  since (`PoolEvictions.StaleEviction`). An addition is safe from that exactly when no
  other thread records the connection for good or is about to remove it
  (`PoolEvictions.AddSafeExactly`).
- A removal by rotation holds the node's lock while it pops and puts back; a push into the
  place of the entry in its hand makes it wait for its own lock
  (core/src/pool/pool.rs:116-153), exactly then (`NodeSteps.BlocksExactly`), and for good
  (`NodeSteps.DeadForGood`); `NodeSteps.DeadlyRunBlocks` is such a run from the empty node.

## Model

| member | source | states |
|---|---|---|
| ChunkHead.HeadStable | core/src/session/reader.rs:342-347 | a verdict on a chunk head other than Partial stands when more octets arrive |
| ChunkHead.HeadCut | core/src/session/reader.rs:345-348 | a head is Complete from its last octet on, with the same index and size, and Partial before |
| ChunkHead.SizeLineRoundTrip | core/src/session/writer.rs:143-146 | the hexadecimal size line written for n octets is parsed back as n, whatever follows |
| Framing.DecodeExtends | core/src/session/reader.rs:256-335 | more octets never take payload back, and a verdict reached stands |
| Framing.DecodeChunk | core/src/session/writer.rs:131-156 | a chunk written for a non-empty buffer decodes to it, and decoding goes on cleanly after it |
| Framing.CarriesMeans | core/src/session/writer.rs:214-235 | chunks carry their payload unfinished before the last chunk and finished after it |
| ReaderModel.TakeAccounts | core/src/session/reader.rs:299-329 | taking the rest of a chunk, its CRLF split anywhere, accounts for every octet of the reference decoding |
| ReaderModel.PartialHeadAccounts | core/src/session/reader.rs:389-401 | an incomplete head is kept, or refused over the limit only when the head does not fit |
| ReaderModel.WholeHeadAccounts | core/src/session/reader.rs:347-411 | the last chunk, a chunk head and a malformed head are answered as the reference decoding demands |
| ReaderModel.DeliverAccounts | core/src/session/reader.rs:170-335 | slice handed out, then what is left, is what there was, in every mode and for every segmentation; errors and the end appear only where nothing more is to come; the counter grows by the slice |
| ReaderRuns.DeliverProgress | core/src/session/reader.rs:256-413 | on a stream holding a whole body each call succeeds and lowers a measure on unread and buffered octets |
| ReaderRuns.Drain | core/src/session/reader.rs:170-182 | repeated calls hand out exactly the reference payload, end Completed with its length, within the measure |
| ReaderRuns.ChunkedRoundTrip | core/src/session/reader.rs:256-413 | for any buffers written, any cut into rewind octets and reads, the reader returns exactly their concatenation and ends Completed with its length, in at most two calls an octet |
| ReaderRuns.SizedRoundTrip | core/src/session/reader.rs:184-222 | with Content-Length the reader returns exactly the first `length` octets for any segmentation |
| ReaderRuns.LimitDependsOnCut | core/src/session/reader.rs:389-396 | the first head is never refused when it arrives at once, and can be refused when cut if and only if it is longer than the limit by two octets or more |
| HeadLimit.LimitExactly | core/src/session/reader.rs:389-396 | some segmentation of a whole stream ends in the refusal if and only if one of its heads is unfinished one octet past the limit |
| HeadLimit.TripsIsMisfit | core/src/session/reader.rs:389-396 | for a stream of well-formed heads that is exactly when they do not fit the limit |
| HeadKnowledge.KnownHeadsDecode | core/src/session/reader.rs:278-289 | two unfinished heads of one length about which the same is known decode alike, and fit the limit alike, whatever follows |
| HeadKnowledge.KnowledgeExactly | core/src/session/reader.rs:278-289 | some continuation tells two heads apart if and only if something different is known about them |
| ReaderRuns.AbandonExactly | core/src/session/reader.rs:278-288 | an abandoned read leaves the payload and the end still to come as they were, for every continuation, if and only if the scanner knows the same after the moved head; heads at the front or clear of it always survive |
| ReaderRuns.AbandonKeeps | core/src/session/reader.rs:278-288 | a reader that survives stays sound, with the same rest, limits and progress |
| ReaderRuns.AbandonTruncates | core/src/session/reader.rs:278-288 | for every body of seventeen octets cut in a certain way, one abandoned read loses sixteen of them and the body is reported complete |
| BodyReading.BodyReader.SetBuffer | core/src/session/reader.rs:129-144 | the buffer holds the rewind octets first and is at least the body buffer's size |
| BodyReading.BodyReader.WithChunkedRead | core/src/session/reader.rs:147-150 | opens the chunked reader with the rewind octets in hand |
| BodyReading.BodyReader.WithContentLengthRead | core/src/session/reader.rs:153-161 | opens the counting reader; length 0 completes it at once, a body being read included |
| BodyReading.BodyReader.WithUntilClosedRead | core/src/session/reader.rs:164-167 | opens the reader that ends with the connection |
| BodyReading.BodyReader.ReadBody | core/src/session/reader.rs:170-182 | one call changes the indices and the buffer so that state and slice are those of `Deliver` for the octets that arrived; indices stay consistent and offsets inside the buffer |
| BodyReading.BodyReader.ReadPartially | core/src/session/reader.rs:184-222 | the same for Content-Length bodies |
| BodyReading.BodyReader.ReadUntilClosed | core/src/session/reader.rs:224-254 | the same for bodies that end with the connection |
| BodyReading.BodyReader.ReadChunked | core/src/session/reader.rs:256-335 | the same for the chunked coding, with partial heads compacted in place |
| BodyReading.BodyReader.Fill | core/src/session/reader.rs:267-289 | what is in hand after filling is what was pending followed by what arrived; abandoned, the head is left moved |
| BodyReading.BodyReader.Continue | core/src/session/reader.rs:299-329 | the rest of a chunk, or of its CRLF, is taken off the front |
| BodyReading.BodyReader.ParseChunkedBuf | core/src/session/reader.rs:337-413 | one slice is served from the buffered octets as the model serves it |
| BodyReading.BodyReader.FirstChunk | core/src/session/reader.rs:357-388 | the first chunk of several, or part of one, is handed out and the rest remembered |
| BodyRun.ReadToEnd | core/src/session/reader.rs:170-182 | calling read_body until it answers None hands out, for any behaviour of the stream, a first part of the body's payload, and all of it at None, in finitely many calls unless a read is abandoned |
| BodyRun.RoundTrip | core/src/session/reader.rs:256-413 | the octets the writer sends for any buffers come back from the buffer class as a first part of those buffers, and the whole of them unless a read is abandoned |
| WriterModel.ReceivedExtends | core/src/session/writer.rs:64-79 | octets sent later never change the payload a client already decoded |
| WriterModel.PutKeeps | core/src/session/writer.rs:89-183 | after any non-empty write the octets sent carry all that was handed over, capped by Content-Length |
| WriterModel.WroteMeans | core/src/session/writer.rs:185-245 | the client decodes exactly what was handed over; finish makes it whole, and fails if and only if a Content-Length body fell short |
| BodyWriting.PollWriteVec | core/src/stream/write_vec.rs:95-117 | a short write sends a first part of the chain and leaves the rest |
| BodyWriting.WriteVecAll | core/src/stream/write_vec.rs:78-87 | for every sequence of short writes, vectored or not, all octets go out in order, or a zero write or an error ends it after a first part; it terminates |
| BodyWriting.BodyWriter.WriteBody | core/src/session/writer.rs:64-79 | new state and octets sent are those of the model, or a first part of them on failure |
| BodyWriting.BodyWriter.WriteByContentLength | core/src/session/writer.rs:89-129 | never sends past the announced length |
| BodyWriting.BodyWriter.WriteByChunkedEncoding | core/src/session/writer.rs:131-156 | sends size line, octets and CRLF, in this order; the count moves only when all went out |
| BodyWriting.BodyWriter.WriteUntilClosed | core/src/session/writer.rs:158-183 | sends the octets as they are |
| BodyWriting.BodyWriter.Finish | core/src/session/writer.rs:185-245 | ends the body in each framing, with the last chunk where there is one |
| FramingChoice.ModesAgreeExactly | core/src/session/downstream.rs:483-525 | reader and writer choose the same framing for every request and response except, exactly, a 101 under another version than 1.1 that answers an upgrade and announces a length or chunks; so for every final response |
| Responding.RespondTracks | core/src/session/downstream.rs:710-722 | one batch hands the client exactly the payload of its tasks and answers as its last task asks |
| Responding.SingleAsBatch | core/src/session/downstream.rs:642-707 | a batch of one is written as a single task is |
| Responding.BatchesDeliver | core/src/session/downstream.rs:669-722 | however the tasks fall into batches the client receives the payload of all of them |
| Responding.BatchingIrrelevant | core/src/session/downstream.rs:642-722 | any batching gives the same payload, end and answer as writing task by task |
| DownstreamSession.Downstream.SetResponseBodyWriter | core/src/session/downstream.rs:483-525 | opens the writer in the framing chosen for the response, or leaves it |
| DownstreamSession.Downstream.WriteResponseHeaders | core/src/session/downstream.rs:529-597 | a header is sent unless it is to be ignored or the final one is out; it opens the body, switches the session or closes the request's reader |
| DownstreamSession.Downstream.VectoredWriteResponseBody | core/src/session/downstream.rs:612-630 | the gathered octets are written as one buffer and the gathering is emptied |
| DownstreamSession.Downstream.WriteResponseToDownstream | core/src/session/downstream.rs:642-666 | does what the model does for a single task, or sends a first part of it and fails |
| DownstreamSession.Downstream.VectoredWriteResponseToDownstream | core/src/session/downstream.rs:669-707 | does what the model does for a batch, or sends a first part of it and fails |
| DownstreamSession.Downstream.WriteDownstreamResponse | core/src/session/downstream.rs:710-722 | the same for whatever number of tasks was drained |
| DownstreamSession.Downstream.Answer | core/src/session/downstream.rs:710-722 | tasks as the upstream side produces them always find the writer open; the client decodes no more than they hand over, exactly it, ended, at Ok(true), and the answer is the one their last task asks for unless the socket fails |
| Responding.RespondHeads | core/src/session/downstream.rs:540-545 | the client is sent no header but those of the tasks |
| UpstreamHead.HeardSoFar | core/src/session/upstream.rs:104-167 | a header in hand is the header of all that will arrive, and what follows is heard from its end |
| Relay.HeaderHeard | core/src/session/upstream.rs:408-415 | a header read from any pieces opens the reader on exactly the octets after it, or waits for the next when it is interim |
| Relay.ReadBodyFlow | core/src/session/upstream.rs:408-425 | a body task carries the next part of the payload, and ends the body only where the payload ends |
| Relay.EnqueueKeeps | core/src/service/proxy/duplex.rs:204-212 | queueing a task keeps the order and content of the flow |
| Relay.DrainAnswers | core/src/service/proxy/duplex.rs:149-169 | any number of drained tasks is answered as their last one asks, and the client's octets follow the flow |
| Relay.AbandonReadKeeps | core/src/service/proxy/duplex.rs:198-227 | a read lost to the other branch keeps the invariant when no header octets were in hand and the body's reader survives |
| Relay.StepKeeps | core/src/service/proxy/duplex.rs:64-250 | every calm step of either coroutine, header reads in pieces included, keeps the invariant |
| Relay.RelaySafe | core/src/service/proxy/duplex.rs:146-223 | in every state of every run of calm steps, what the client has received so far decodes to a first part of the upstream's payload; once the client side answers Ok(true) it was sent the final header and decodes exactly the upstream's whole body |
| RelayHazards.HeaderLost | core/src/service/proxy/duplex.rs:201-227 | a header read abandoned with octets in hand turns the relay into that of an upstream that never sent them |
| RelayHazards.InterimLost | core/src/session/upstream.rs:112-117 | so does an interim header that arrives together with further octets |
| RelayHazards.AbandonedHeaderExactly | core/src/session/upstream.rs:76-102 | for each g: runs whose only steps that need not be calm abandon a header read with exactly g in hand can break what RelaySafe promises if and only if g is not empty and short enough to be in hand |
| RelayHazards.OverrunExactly | core/src/session/upstream.rs:76-117 | the same for reads in which g arrives with an interim header: some run breaks the promise if and only if g is not empty |
| RelayHazards.HeadInterimExactly | core/src/session/upstream.rs:284-306 | a calm run answers Ok(true) without the final header if and only if an interim header is the first answer to a HEAD request |
| RelayHazards.HeadInterimHappens | core/src/session/upstream.rs:284-306 | such an exchange, with a header parser that keeps its verdicts, is named |
| RelayProgress.DrainVerdict | core/src/session/downstream.rs:702-706 | with a whole upstream body the batch that ends it is answered Ok(true) |
| RelayProgress.NeverStuck | core/src/service/proxy/duplex.rs:104-223 | some coroutine can go on if and only if the client has not been answered yet |
| RelayProgress.RelayCompletes | core/src/service/proxy/duplex.rs:104-223 | without failures every run takes a bounded number of steps and can only rest once the client was sent the final header and decoded the whole body |
| Headers.AppendPairs | core/src/session/request.rs:99-120 | appending to both maps is appending the pair to one map of pairs |
| Headers.InsertPairs | core/src/session/request.rs:124-145 | the same for inserting, which keeps the place and drops the other values |
| Headers.RemovePairs | core/src/session/request.rs:148-154 | the same for removing, which moves the last entry into the gap |
| Headers.IterPairs | core/src/session/request.rs:206-216 | iterated side by side the maps show the same name at every turn and end together |
| Headers.IterGets | core/src/session/response.rs:146-160 | iteration yields under each name exactly its values, in order |
| HeaderBlock.BlockRoundTrip | core/src/session/response.rs:213-224 | the header lines written, folded values included, are read back as the same fields, in order |
| HeaderBlock.EditedIsLeft | core/src/session/response.rs:87-142 | after any edits a name holds exactly what the last insertion or removal and the additions since left it |
| HeaderBlock.WrittenIsLeft | core/src/session/response.rs:197-227 | after any edits a reader of the octets finds under each name, whatever its case, exactly the values left, each once, as spelled |
| HeaderBlock.MessageHeader.AppendHeader | core/src/session/response.rs:87-108 | both maps take the addition and stay aligned |
| HeaderBlock.MessageHeader.InsertHeader | core/src/session/response.rs:112-133 | both maps take the insertion and stay aligned |
| HeaderBlock.MessageHeader.RemoveHeader | core/src/session/response.rs:136-142 | both maps take the removal and stay aligned |
| HeaderBlock.MessageHeader.BuildToBuffer | core/src/session/request.rs:191-220 | writes the start line and every header, and never reaches the mismatch panic |
| PoolNode.ConnectionNode.GetAvailableConnection | core/src/pool/pool.rs:93-112 | takes the longest-queued hot connection, else any other, and only it; none only when the node is empty |
| PoolNode.ConnectionNode.AddNewConnection | core/src/pool/pool.rs:116-125 | adds one connection, to the ring while it has room, never beyond sixteen |
| PoolNode.ConnectionNode.RemoveByRotation | core/src/pool/pool.rs:138-160 | turns the ring until the entry is found; absent, a full turn changes nothing |
| PoolNode.ConnectionNode.RemoveConnection | core/src/pool/pool.rs:129-161 | exactly the connection named leaves, from whichever store held it |
| PoolNode.TableRemove | core/src/pool/pool.rs:129-161 | removal from map or ring removes one entry of the table of both and keeps every other |
| Pool.ConnectionLru.AddNewConnection | core/src/pool/lru.rs:72-127 | the entry becomes newest; over the capacity the oldest leaves and only its notifier fires; while draining the new entry is turned away |
| Pool.ConnectionLru.PopConnection | core/src/pool/lru.rs:130-139 | the id leaves the order |
| Pool.ConnectionLru.DrainConnections | core/src/pool/lru.rs:143-163 | every notifier fires once, newest first, and nothing is recorded from then on |
| Pool.AgreesTake | core/src/pool/pool.rs:336-340 | removal from both sides keeps LRU and nodes in agreement and takes exactly one entry off the idle list |
| Pool.AgreesPut | core/src/pool/pool.rs:357-370 | addition to both sides keeps the agreement and appends one entry |
| Pool.CloseAgrees | core/src/pool/pool.rs:336-340 | a close keeps the agreement if and only if it names the group its id is idle under |
| Pool.ConnectionPool.GetConnectionNode | core/src/pool/pool.rs:248-275 | the group's node, made empty when there was none |
| Pool.ConnectionPool.RemoveConnectionFromPool | core/src/pool/pool.rs:310-331 | takes one id out of one group's node and nothing else |
| Pool.ConnectionPool.AddConnection | core/src/pool/pool.rs:345-374 | LRU and nodes agree again if and only if the LRU is not draining and has room for one; then the list grows by the new one and loses the longest idle when over capacity, whose notifier alone fires; else the new one is pooled unrecorded |
| Pool.ConnectionPool.FindConnection | core/src/pool/pool.rs:280-303 | hands out one idle connection of the group asked for, takes only it off the list and fires its pickup notifier; none only when the group has none |
| Pool.ConnectionPool.CloseConnection | core/src/pool/pool.rs:336-340 | the connection named leaves both sides; the agreement survives if and only if the group is the right one |
| PoolRuns.RunSound | core/src/pool/pool.rs:205-219 | over any run every added connection is exactly one of pooled, handed out, evicted or closed; ids are listed once, within capacity, in order of arrival; the removal notifiers fired are those of the evicted, the pickup notifiers those of the found |
| PoolRuns.FoundWasAdded | core/src/pool/pool.rs:280-303 | a connection found was added under that group and still pooled |
| PoolRuns.EvictedWasOldest | core/src/pool/lru.rs:115-124 | the one evicted was added before every other still pooled, and only at full capacity |
| PoolThreads.StepKeeps | core/src/pool/pool.rs:280-374 | each step of any thread keeps every pooled connection recorded, under its group, by the LRU of the thread that added it, or about to be removed by that thread |
| PoolThreads.PooledBound | core/src/pool/lru.rs:103-127 | in every interleaving the pooled connections are at most threads times capacity and one for each thread amid an eviction |
| PoolEvictions.AddSafeExactly | core/src/pool/pool.rs:350-370 | in every reachable state no interleaving after an addition has another thread's eviction take it if and only if no other thread records it for good or is about to remove it |
| PoolEvictions.CarefulRuns | core/src/pool/pool.rs:280-374 | on runs of such additions a connection leaves the pool only when taken, or evicted by the thread that added it |
| PoolEvictions.StaleEviction | core/src/pool/pool.rs:352-357 | two named runs, with the addition during the eviction and before it, to the state in which thread 0's eviction removes the connection that thread 1 has added and still records |
| NodeSteps.BlocksExactly | core/src/pool/pool.rs:116-153 | a rotation's put-back blocks on its own lock if and only if a push took the place of the entry in hand; no run without such a push blocks |
| NodeSteps.DeadlyRunBlocks | core/src/pool/pool.rs:116-153 | a run from the empty node whose removal blocks: the ring is filled, one entry popped, its place taken |
| NodeSteps.DeadForGood | core/src/pool/pool.rs:129-161 | once blocked, no removal, overflowing addition or find in the map ever happens again |
| NodeSteps.RotationFinds | core/src/pool/pool.rs:139-158 | however others push and pop, a rotation whose entry lies ahead finds it within the turns it has left, unless a find takes that entry first or the rotation blocks |
| NodeSteps.RemovalFinds | core/src/pool/pool.rs:129-158 | so a removal that starts while its entry is in the ring finds it within as many turns as the ring then had entries |
| NodeSteps.RotationConserves | core/src/pool/pool.rs:141-158 | turning neither loses nor adds an entry; only the one sought leaves |
| Limiters.LapseHarmless | glaive/src/redis.rs:104-117 | a key that outlived its period is found as full as if it had never expired |
| Limiters.WindowBound | glaive/src/redis.rs:98-121 | admissions in any window of any trace are at most capacity and what is refilled meanwhile |
| Limiters.TokenBoundExactly | glaive/src/redis.rs:98-121 | the bound holds for every trace and window if and only if period times rate reaches the capacity |
| Limiters.LazyIsTicking | glaive/src/redis.rs:110-120 | refilling lazily answers every trace as a bucket refilled every second |
| Limiters.TokenIsLeakyExactly | glaive/src/redis.rs:155-172 | token and leaky bucket answer every trace alike if and only if the rate is whole or reaches the capacity |
| LeakyTicks.LazyLeakIsTicking | glaive/src/redis.rs:161-172 | where refusals lose nothing, leaking lazily answers as a bucket that leaks every second |
| LeakyTicks.EvenLeakIsTicking | glaive/src/redis.rs:161-172 | so it does on every trace when the rate is whole or reaches the capacity |
| LeakyTicks.RefusalsExactly | glaive/src/redis.rs:168-171 | refusals lose nothing on every trace if and only if the rate is whole or reaches the capacity |
| LeakyTicks.LeakyBoundExactly | glaive/src/redis.rs:155-172 | admissions in every window of every trace are at most capacity and rate times its seconds if and only if the rate is whole or reaches the capacity |
| FixedWindow.OneWindow | glaive/src/redis.rs:60-64 | a window opened inside an interval of one period admits at most `limit` in it |
| FixedWindow.AnyInterval | glaive/src/redis.rs:54-65 | an interval of one period meets at most two windows and admits at most `2 * limit - 1`, for every course of INCRs and EXPIREs |
| FixedWindow.FixedWindowExactly | glaive/src/redis.rs:54-65 | `2 * limit - 1` bounds every interval of every course of events, and some course reaches it, for every limit and period from 1 on |
| RedisStore.Redis.TokenBucketRateLimit | glaive/src/redis.rs:98-121 | the script on stored keys is one call of the token bucket, which finds the key expired only as its stored lifetime allows; a refusal writes nothing; other keys stay |
| RedisStore.Redis.LeakyBucketRateLimit | glaive/src/redis.rs:150-172 | the script on stored keys is one step of the leaky bucket, which writes on every call; other keys stay |
| RedisStore.Redis.ServeTokenBucket | glaive/src/redis.rs:98-121 | any calls in order on a key that starts out absent are answered as a possible trace of the token bucket, and keep to its bound in every window when the keys live long enough |
| RedisStore.Redis.ServeLeakyBucket | glaive/src/redis.rs:150-172 | the same for the leaky bucket, and its bound for the rates that keep it |
| RedisStore.Redis.FixedWindowRateLimit | glaive/src/redis.rs:54-65 | INCR and EXPIRE on the stored key are steps that may happen to the counter, its lifetime set by the first of a window and deciding when it is gone |

## Left out

- The chunk-size parser is a library outside the repository: `ChunkHead` scans hexadecimal digits (sixteen at most), optional extension and CRLF, and reads a bare CRLF as size 0. Sizes are unbounded, so the overflow the program leaves open (core/src/session/reader.rs:348-349) is not modelled.
- Trailers and the CRLF after the last chunk: the reader stops at the zero-size head.
- End of stream inside a partial chunk head: modelled as the code has it (empty slices forever), so termination is stated for streams that hold a whole body.
- Relay.RelaySafe: asks that every step is `Calm`; `ReaderRuns.AbandonExactly`, `RelayHazards.AbandonedHeaderExactly` and `RelayHazards.OverrunExactly` say what happens when one is not. Final switches of protocol are excluded.
- RelayProgress.NeverStuck: covers the response path; a request write that blocks the coroutine which also reads the response is outside.
- RelayProgress.RelayCompletes: covers the response path; a client that closes or sends past its request while waiting is the event `Halt`, and upgrade requests, whose own end can stop the relay (`RequestDone`), are excluded.
- The request path, which writes empty buffers as last chunks, retry buffers and switched sessions are not modelled.
- The header parser is a library outside the repository: any function whose verdict on a header stands when octets follow (`UpstreamHead.Stable`).
- DownstreamSession.Downstream.WriteResponseHeaders: the Date and Connection values it may insert, and the keep-alive setting, are not modelled; header octets are kept apart from body octets.
- Parsing of header text: `FramingChoice` takes the parsed Transfer-Encoding and Content-Length as given.
- Header maps: a name is taken to be the lower-cased spelling; the panics on invalid names and values, and hashing, are not modelled.
- Timeouts, flushing, TLS, logging and buffered streams below the octets they deliver.
- Pool.ConnectionPool.AddConnection: requires that the id is not idle already (ids are descriptors of sockets the pool owns).
- Locks inside a node: in `Pool` and `PoolThreads` each node operation is one step; `NodeSteps` takes them apart for one node.
- PoolThreads.PooledBound: takes a close to name the right group, as `Pool.CloseAgrees` shows to be needed, and capacity at least 1 without draining.
- Floating-point text kept in Redis and rounding: reals. A clock that runs backwards, and 64-bit wrap-around of counters.
- Redis's own clock is finer than the script's seconds: a key is expired before or after its deadline's second as the stored lifetime says; within that very second both are allowed.
- The sliding window log, which never removes old entries, and the semaphore, whose script is one comparison.
- `Limiters.Gain` adds a rate second by second; `GainIsProduct` shows it is the product.
- The gateway's configuration, routing, authentication and service discovery.
