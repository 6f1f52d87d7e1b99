# Verified model of an ONNX inference server's core logic

This project models five parts of an ONNX Runtime server and proves what they promise. Each part is a group of
modules. Code that changes things step by step (loops over buffers, objects whose fields are updated, recursion that
grows a shared vector) is imperative Dafny, proved against specification functions; the theorems are lemmas about those
functions, for every input, every run or every chunk schedule.

**Tensors.** `TensorNesting` holds flattening, the shape walk with its shared accumulator, and the regrouping of an
output; `TensorRoundTrip` and `RowMajor` say how they undo each other and where every element ends up, `TensorLeaves` what is
read of ragged data. `Context` binds
the declared inputs of a request, `BatchedShape` is the second shape inference, by iterated ceiling division of doubles.

**Thread pool.** `PoolModel` is a state machine whose steps are the atomic actions of workers, clients and the
destructor: an explicit mutex holder, a wait set, pending notifies and a stop flag that is stored without the lock. The
test of the wait predicate and the wait are two steps; so are the store of the stop flag and the notification.
`PoolInvariants` proves the inductive invariant, `PoolSafety` the theorems over all runs, and `PoolProgress` what the pool
comes to when left to itself and exactly when the destructor's join returns. `BuiltinThreadPool` is the object: its steps
are methods that keep it reachable, and the worker loop, enqueue, flush and the destructor are put together from them.

**TCP session.** `HeaderCodec` is the 26-byte packed header and its byte order, with signed 16- and 64-bit wrap-around
written out. `Framing` has a pure splitter of the byte stream and the same stream read through an arbitrary chunk
schedule; `TcpSession` is the session object with its buffer, its upload file and the file system.

**Options.** `NestedOption`, `Extensions`, `ValueText` and `Readback` are the nested updates, the accumulation of
extension paths, and both parsers of option values. `KeyScanner` replaces the regular expressions by deterministic
scanners that are proved leftmost and greedy; `Matches` and `Searches` say what successive searches find. `WhiteSpace`
normalizes a list, `DottedKeys` splits keys, and `ModelKeys` parses the model list and says exactly which lists it
accepts; `ModelKeysRoundTrip`, `OptionTrees`,
`OptionListings` and `ParseRange` prove that every printable list has a text that parses back to it, and that nothing
else is ever the result of parsing.

**Reduced precision.** `ReducedPrecision` decodes the 8-bit floats for every split of exponent and mantissa and every
bias, over `real`; all these values are exact in a double. `PackedElements` holds the 4-bit and 2-bit storage and the
elements of a tensor. `Bits` says that shifts and masks of a byte are quotients and remainders; `Basics` is shared.

## Where the code does not keep what its text says

- `src/transport/tcp/tcp_session.cpp:143-145` states that the sum of the two accepted lengths cannot overflow. It cannot
  exactly when the configured limits are small enough; `Framing.SumNeverOverflows` gives the exact condition, and the
  session methods ask for it.
- The pool's destructor stores the stop flag without the mutex, so a worker that has already found the wait predicate
  false can go to sleep after the notification. `PoolProgress.NotifyAllSuffices` says exactly when the join returns under
  every schedule, `PoolProgress.DestructorCanHang` exactly when a worker can be left asleep for ever.
- A header that arrives in two pieces ends the session. `Framing.ServeRefinesSplit` says the session equals the splitter
  exactly when no header is cut.
- Rectangular data with a zero dimension loses its nesting, except for the empty vector:
  `TensorRoundTrip.TensorRoundTrip`.
- Shape inference pads only some shallow tensors: with `k` levels it reaches rank `R` exactly when `2k + 1 >= R`.

## Model

| member | source | states |
|---|---|---|
| TensorNesting.FlatJsonValues | src/onnx/execution/context.cpp:78-88 | appends to the vector it is handed every non-array value, left to right |
| TensorNesting.CalcShape | src/onnx/execution/context.cpp:58-76 | the loop over a shared vector leaves what the recursive walk over values leaves, for every starting content |
| TensorNesting.ShapeWalkGeneral | src/onnx/execution/context.cpp:62-75 | from any accumulator: the first-child spine is appended, then a number of ones that depends only on the three lengths |
| TensorNesting.ShapeWalkClosedForm | src/onnx/execution/context.cpp:58-76 | the inferred shape is the spine padded with ones to the rank if 2k+1 >= rank, the bare spine otherwise; its length is the rank iff 2k+1 >= rank |
| TensorNesting.SpineOfRectangular | src/onnx/execution/context.cpp:62-71 | on rectangular data the spine is the dimensions, cut at the rank, and empty when the first dimension is zero |
| TensorNesting.FlatLength | src/onnx/execution/context.cpp:78-88 | rectangular data flattens to as many values as the product of its dimensions |
| TensorLeaves.FlatHoldsLeaves | src/onnx/execution/context.cpp:78-88 | of any data, ragged or not, exactly the values that are not arrays and that some indices lead to are flattened |
| TensorLeaves.FlatKeepsOrder | src/onnx/execution/context.cpp:78-88 | the values of an array come element by element, in order |
| TensorLeaves.SpineReadsFirstChildren | src/onnx/execution/context.cpp:62-71 | of any data, each dimension is the length of the array at index (0, ..., 0), up to the rank or the first level that is no array or empty |
| TensorNesting.ValuesFitShape | src/onnx/value_info.cpp:93-110 | on every input: the loop and recursion return the regrouping of the specification, or none where the source reads outside its arguments or never ends |
| TensorNesting.RegroupedExactly | src/onnx/value_info.cpp:93-110 | the regrouping is defined iff the rank is at least one and, unless there are no values, the inner dimensions are positive and their product divides the number of values |
| TensorNesting.FittingIsRegrouped | src/onnx/value_info.cpp:93-110 | values that fill the shape, or no values, are regrouped to the nesting of the shape |
| TensorRoundTrip.FitKeepsLeaves | src/onnx/value_info.cpp:93-110 | nesting neither loses, repeats nor reorders a value |
| TensorRoundTrip.FitIsRectangular | src/onnx/value_info.cpp:93-110 | the nested output has exactly the asked-for dimensions |
| TensorRoundTrip.FittedOutputReadsBack | src/onnx/value_info.cpp:93-110 | flattening and shape inference on a nested output give back the values and the shape |
| TensorRoundTrip.FitOfFlat | src/onnx/value_info.cpp:97-109 | regrouping the flat values passes through every partially nested stage of rectangular data |
| TensorRoundTrip.TensorRoundTrip | src/onnx/execution/context.cpp:58-88 | rectangular data survives flattening, shape inference, the rank check and nesting iff all dimensions are positive or it is the empty vector |
| RowMajor.FitIsRowMajor | src/onnx/value_info.cpp:93-110 | the element of the output at index (i0, i1, ...) is the flat value at the sum of each index times its stride, which is in bounds |
| Context.NoProblemMeansBindable | src/onnx/execution/context.cpp:25-44 | no error is reported iff every declared input is present, an array, and nested at least (rank - 1) / 2 deep |
| Context.FirstProblemIs | src/onnx/execution/context.cpp:25-44 | the error names the first input that cannot be bound: not an array, or the rank inferred for it |
| Context.RequestContext.Bind | src/onnx/execution/context.cpp:7-50 | an object, or a string that parses to one, is bound: the error is that of the first input that fails, otherwise exactly the declared inputs get flat values and padded shapes; anything else is refused, and so is a string that does not parse |
| BatchedShape.DoubleCeilIsExact | src/onnx/execution/input_value.cpp:135 | below 2^53 the ceiling of any correctly rounded double quotient is the integer ceiling |
| BatchedShape.CeilDivTwice | src/onnx/execution/input_value.cpp:133-136 | dividing and rounding up dimension by dimension, at least one each time, is one division by the product |
| BatchedShape.BatchedShape | src/onnx/execution/input_value.cpp:124-147 | any shape: without -1 it is returned as it is; otherwise the first -1 becomes the batch size, which is one if a fixed dimension is not positive, and nothing else changes; none iff an infinite double would be converted |
| BatchedShape.BatchOfNothing | src/onnx/execution/input_value.cpp:132 | the batch size starts as the number of values |
| BatchedShape.BatchStep | src/onnx/execution/input_value.cpp:133-136 | what a positive, a negative, a dynamic and a zero dimension do to the batch size, and when it stays defined |
| BatchedShape.BatchSizeIsUnique | src/onnx/execution/input_value.cpp:130-136 | b is the batch size iff P(b-1) < n <= Pb, with P the product of the fixed dimensions |
| BatchedShape.BatchSizeIgnoresOrder | src/onnx/execution/input_value.cpp:133-136 | shapes with the same dimensions in any order get the same batch size |
| BatchedShape.FilledShapeHoldsValues | src/onnx/execution/input_value.cpp:139-146 | the product of the filled shape is the number of values iff P divides it |
| BatchedShape.InferencesAgree | src/onnx/execution/input_value.cpp:124-147 | an inferred shape that matches the model on every fixed dimension is what batched_shape makes of its value count |
| BatchedShape.InferredShapeCountsValues | src/onnx/execution/context.cpp:31-46 | for rectangular data the accepted shape accounts for every value iff what lies below the rank is a single value |
| PoolInvariants.InitInv | src/thread_pool.hpp:11-33 | every new pool satisfies the invariant |
| PoolInvariants.StepInv | src/thread_pool.hpp:11-68 | every step of every thread keeps it: mutual exclusion, what each worker has seen, covered tasks, conserved tasks |
| PoolInvariants.ReachableInv | src/thread_pool.hpp:11-68 | it holds in every reachable state of every interleaving |
| PoolSafety.NeverPopsEmpty | src/thread_pool.hpp:21-26 | a worker past the wait never takes the front of an empty queue |
| PoolSafety.NoLostWakeup | src/thread_pool.hpp:17-27 | while a worker sleeps, queued tasks are at most pending notifies plus awake searching workers |
| PoolSafety.NoStrandedTask | src/thread_pool.hpp:53-61 | with at least one worker, a non-empty queue implies a pending notify or a worker outside the wait |
| PoolSafety.TasksAreConserved | src/thread_pool.hpp:25-30 | pushed tasks are the removed ones followed by the queue; each worker finished what it took, in order; removed tasks are taken once or flushed |
| PoolSafety.ExitIsFinal | src/thread_pool.hpp:21-23 | once a worker has exited, the pool stays stopped and empty and accepts nothing, in every continuation |
| PoolSafety.PushIsCertain | src/thread_pool.hpp:53-60 | a client that saw stop unset holds the mutex and logs and queues its task, whether or not stop has been stored since |
| PoolSafety.OnlyItsOwnStep | src/thread_pool.hpp:53-60 | until it does, no step of another thread changes what it is about to push |
| PoolSafety.StopAfterTheCheck | src/thread_pool.hpp:36-60 | stop can be stored between the check and the push |
| PoolProgress.StepUsesMeasure | src/thread_pool.hpp:11-68 | every step the pool takes on its own makes a measure of its state smaller |
| PoolProgress.QuietRunsAreBounded | src/thread_pool.hpp:11-68 | without new requests and spurious wake-ups a run has at most as many steps as the measure, whatever the schedule |
| PoolProgress.ComesToRest | src/thread_pool.hpp:11-68 | every such run can be continued until nothing is left to do |
| PoolProgress.AtRest | src/thread_pool.hpp:17-30 | at rest every worker sleeps or has exited and every user is done; with a worker, the queue is empty and every removed task finished or dropped |
| PoolProgress.NoDeadlock | src/thread_pool.hpp:17-61 | with a non-empty queue some step is enabled, and each enabled one brings the pool closer to rest |
| PoolProgress.QueueDrains | src/thread_pool.hpp:17-61 | under every schedule the queue is empty after a bounded number of steps, and each worker has finished what it took, in order |
| PoolProgress.NotifyAllSuffices | src/thread_pool.hpp:35-42 | for any number of workers and users: under every schedule all workers exit, so the join returns, iff none stands between testing the predicate and waiting at notify_all; iff also none can sleep again |
| PoolProgress.DestructorCanHang | src/thread_pool.hpp:35-42 | some worker can be left to sleep for ever, whatever the users do, iff some worker is about to wait at notify_all |
| PoolProgress.SomePoolsHang | src/thread_pool.hpp:35-42 | every pool with a worker, and any number of users, has a reachable state in which that worker sleeps for ever without a spurious wake-up |
| BuiltinThreadPool.ThreadPool.WorkerTurn | src/thread_pool.hpp:14-30 | one turn of the loop: the front task is taken, finished and logged, or with an empty queue the thread exits if stopped and sleeps otherwise |
| BuiltinThreadPool.ThreadPool.WorkerLoop | src/thread_pool.hpp:14-30 | left alone, a worker finishes the whole queue in order, then exits if stopped and sleeps otherwise; no other worker, user or log entry changes |
| BuiltinThreadPool.ThreadPool.Enqueue | src/thread_pool.hpp:44-63 | a stopped pool is left exactly as it was; a running one has the task at the end of queue and log, and one sleeper awake if there was one |
| BuiltinThreadPool.ThreadPool.Flush | src/thread_pool.hpp:65-68 | every queued task is logged as dropped and nothing else changes |
| BuiltinThreadPool.ThreadPool.StopAndAnnounce | src/thread_pool.hpp:35-42 | the stop is stored, every sleeper awake, no task lost; every schedule of the rest lets the join return iff no worker was about to wait |
| BuiltinThreadPool.ThreadPool.NotifyOne | src/thread_pool.hpp:61 | wakes one waiting worker, or none if none waits, and keeps the pool reachable |
| BuiltinThreadPool.ThreadPool.NotifyAll | src/thread_pool.hpp:37 | wakes every waiting worker, and keeps the pool reachable |
| HeaderCodec.HtonllReversesBytes | src/transport/tcp/tcp_server.hpp:19-20 | adding the swapped halves never carries and reverses the eight bytes, negative arguments included |
| HeaderCodec.HtonllIsInvolution | src/transport/tcp/tcp_server.hpp:19-20 | swapping twice through the signed 64-bit field is the identity |
| HeaderCodec.HtonsIsInvolution | src/transport/tcp/tcp_session.cpp:134 | the same for the signed 16-bit type field |
| HeaderCodec.HtonsReversesBytes | src/transport/tcp/tcp_session.cpp:134 | the two bytes of the type field are reversed |
| HeaderCodec.WireIsBigEndian | src/transport/tcp/tcp_server.hpp:27-32 | a swapped and packed header is its four fields in order, the most significant byte first |
| HeaderCodec.HeaderRoundTrip | src/transport/tcp/tcp_server.hpp:27-32 | any header that is swapped, packed into 26 bytes, received and swapped again is the same header |
| HeaderCodec.ResponseIsWellFramed | src/transport/tcp/tcp_session.cpp:88-93 | every response or error header decodes to its kind, with length equal to json_length + post_length |
| Framing.SumNeverOverflows | src/transport/tcp/tcp_session.cpp:149-150 | the length comparison overflows for no header within bounds iff twice the payload limit, and the sum of both limits, stay below 2^63 |
| Framing.LimitsByKind | src/transport/tcp/tcp_session.cpp:147-150 | a second part beyond the payload limit and within the upload limit is accepted for kind 1 and no other |
| Framing.PartsAreConsecutive | src/transport/tcp/tcp_session.cpp:158-185 | the two parts of a request are the bytes after its header, and it is stored on disk iff it is of kind 1 with a second part |
| Framing.GatherIsExact | src/transport/tcp/tcp_session.cpp:107-120 | for every schedule, reading succeeds only on exactly the next length bytes |
| Framing.GatherCompletes | src/transport/tcp/tcp_session.cpp:107-120 | without read errors it succeeds iff that many bytes are left |
| Framing.ReadFrameIsFrame | src/transport/tcp/tcp_session.cpp:122-188 | a frame that is read is the frame the stream holds there, and takes 26 + length bytes |
| Framing.FrameIsRead | src/transport/tcp/tcp_session.cpp:130-132 | a whole frame is read iff its header is available in one read |
| Framing.ServeIsPrefix | src/transport/tcp/tcp_session.cpp:54-105 | under every schedule, with errors, the requests are a prefix of those of the splitter |
| Framing.ServeRefinesSplit | src/transport/tcp/tcp_session.cpp:54-188 | without read errors they are equal iff every frame's header can be read whole |
| TcpSession.Session.CleanupUpload | src/transport/tcp/tcp_session.cpp:45-52 | the file goes if it can be removed, and its path is forgotten either way |
| TcpSession.Session.ReadExact | src/transport/tcp/tcp_session.cpp:107-120 | hands the sink exactly the bytes read, chunk by chunk, also when it fails |
| TcpSession.Session.DoReadHeader | src/transport/tcp/tcp_session.cpp:126-156 | one read; accepts exactly the headers within bounds whose lengths add up; sends an error for any other whole header, and nothing for a short one |
| TcpSession.Session.ReadUpload | src/transport/tcp/tcp_session.cpp:162-180 | the bytes go to a file of the session's own, whose path is set even when it cannot be opened; only then an error is sent |
| TcpSession.Session.DoReadPost | src/transport/tcp/tcp_session.cpp:162-185 | to disk for an upload, otherwise after the JSON bytes in the buffer |
| TcpSession.Session.DoReadBody | src/transport/tcp/tcp_session.cpp:158-185 | succeeds iff both parts arrive and an upload can be stored; then the buffer or file hold them |
| TcpSession.Session.DoRead | src/transport/tcp/tcp_session.cpp:122-188 | equals the frame read of the specification; a path is set iff the frame is an upload; every early return keeps the file invariant and writes exactly the refusal of the specification |
| TcpSession.Session.TakeRequest | src/transport/tcp/tcp_session.cpp:63-78 | the slices of the buffer stay inside it and are the frame's parts |
| TcpSession.Session.Answer | src/transport/tcp/tcp_session.cpp:81-103 | writes the header that the outcome of the task calls for, and goes on unless a reply could not be written |
| TcpSession.Session.SendError | src/transport/tcp/tcp_session.cpp:193-202 | writes one error header |
| TcpSession.Session.ServeOne | src/transport/tcp/tcp_session.cpp:55-104 | one turn handles exactly the next request of the specification and writes exactly its reply or refusal |
| TcpSession.Session.Run | src/transport/tcp/tcp_session.cpp:54-105 | terminates; the requests are the frames of one chain of starts, each right behind the frame before, also after a failed task, until a reply cannot be written or no frame can be read; each is answered |
| TcpSession.SessionsAreChains | src/transport/tcp/tcp_session.cpp:54-105 | the frames that the specification serves are such a chain |
| TcpSession.ChainsAreUnique | src/transport/tcp/tcp_session.cpp:54-105 | and there is only one |
| TcpSession.RefusalExactly | src/transport/tcp/tcp_session.cpp:130-176 | when no frame can be read, one error of kind -1 is written iff a whole header is out of bounds or inconsistent, or its upload cannot be opened; otherwise nothing |
| TcpSession.EveryRequestIsAnswered | src/transport/tcp/tcp_session.cpp:80-103 | the headers answer the requests one by one: well framed, of the request's kind and result size if its task replied, of kind -1 if it failed, with at most one refusal after them |
| TcpSession.Session.Destroy | src/transport/tcp/tcp_session.cpp:41-43 | a file that the session named is left only if it could not be removed, and no other file changed |
| TcpSession.ClientConnected | src/transport/tcp/tcp_server.hpp:73-83 | a whole connection changes no file that it did not name and leaves one that it named only if it could not be removed; with fresh, removable names the file system is as before |
| NestedOption.OptionCell.SetNested | src/onnx/session_key_with_option.cpp:58-70 | the loop that walks down and replaces non-objects performs the recursive update |
| NestedOption.ReadAtSetPath | src/onnx/session_key_with_option.cpp:58-70 | reading at or below the path reads the new value |
| NestedOption.ReadAboveSetPath | src/onnx/session_key_with_option.cpp:61-64 | every proper prefix of the path now leads to an object |
| NestedOption.ReadElsewhere | src/onnx/session_key_with_option.cpp:58-70 | every path incomparable with it reads as before, even when a scalar above was replaced |
| NestedOption.SetsCommute | src/onnx/session_key_with_option.cpp:58-70 | updates at incomparable paths commute, as whole trees |
| NestedOption.LastSetWins | src/onnx/session_key_with_option.cpp:69 | an update forgets any earlier one at or below its path |
| Extensions.AppendExtension | src/onnx/session_key_with_option.cpp:72-81 | adds the path to the array under "extensions" unless it is there, replacing whatever is not an array; no other key changes |
| Extensions.Add | src/onnx/session.cpp:256-262 | keeps the result the distinct paths so far, in order of first occurrence |
| Extensions.CollectExtensions | src/onnx/session.cpp:252-272 | exactly the distinct strings of the array and the legacy path, each once: those of the array in order of first occurrence, a legacy path that is not among them last; nothing for what is no object |
| Extensions.DedupKeepsElements | src/onnx/session.cpp:256-262 | the same paths are kept |
| Extensions.DedupKeepsFirstOrder | src/onnx/session.cpp:256-262 | they stand in the order of their first occurrences, none twice |
| Extensions.AppendAgreesWithCollect | src/onnx/session_key_with_option.cpp:72-81 | appending any list of paths to an empty option gives the array that collecting the list gives |
| Extensions.CollectIsIdempotent | src/onnx/session.cpp:252-272 | collecting what was collected changes nothing |
| ValueText.InferReadbackValue | src/onnx/cuda/session_options.cpp:54-78 | the hand-written scanner agrees with the regular expression version on every string |
| ValueText.IntRoundTrip | src/onnx/session_key_with_option.cpp:26-39 | every 64-bit integer is read back from its decimal form |
| ValueText.PrintedIntegersAreInferred | src/onnx/session_key_with_option.cpp:31-37 | every printed integer is a number if it fits 64 bits and the text itself otherwise |
| ValueText.IntegersAreInferred | src/onnx/session_key_with_option.cpp:31-37 | the same with any number of leading zeros |
| ValueText.ValuesAreInferred | src/onnx/session_key_with_option.cpp:26-39 | the two words are booleans, and every text that is not an optional minus and one or more digits is a string |
| ValueText.DecimalsArePadded | src/onnx/session_key_with_option.cpp:31 | every text of that form is an integer with leading zeros |
| Readback.ParseOptionsString | src/onnx/cuda/session_options.cpp:81-98 | stores the pairs that the text begins with, in order, whatever follows without an equals sign |
| Readback.TextIsCut | src/onnx/cuda/session_options.cpp:84-95 | printed pairs are cut out again, from any position and with any text after them that adds no pair |
| Readback.EveryTextIsPairs | src/onnx/cuda/session_options.cpp:84-95 | every text is printed pairs followed by such text |
| Readback.PrintedPairsReadBack | src/onnx/cuda/session_options.cpp:84-95 | a printed list of pairs is cut into the same pairs; keys may hold semicolons and values equals signs |
| Readback.LastWriterWins | src/onnx/cuda/session_options.cpp:93-94 | a non-empty key holds the value of the last pair with that key |
| Readback.StoredExactly | src/onnx/cuda/session_options.cpp:84-95 | the stored keys are the non-empty keys of the pairs |
| Readback.OptionsStringRoundTrip | src/onnx/cuda/session_options.cpp:81-98 | parsing inverts printing: a key is present iff it is not empty and was printed, with the value of its last pair |
| KeyScanner.MatchKeyIsSound | src/onnx/session_key_with_option.cpp:14 | the text up to the match length is a name, a colon, a version and the option group |
| KeyScanner.MatchKeyIsGreedy | src/onnx/session_key_with_option.cpp:14 | wherever the expression can match, the scanner does, with the only name and the longest version |
| KeyScanner.GroupIsGreedy | src/onnx/session_key_with_option.cpp:14 | the optional group is taken whenever there is one |
| KeyScanner.SearchKeyIsLeftmost | src/onnx/session_key_with_option.cpp:97 | the search takes the leftmost match |
| KeyScanner.SearchKeyFails | src/onnx/session_key_with_option.cpp:97 | and fails if there is none |
| KeyScanner.MatchOptionIsSound | src/onnx/session_key_with_option.cpp:18 | the text up to the match length is a key, an equals sign between white space, and a value |
| KeyScanner.MatchOptionIsGreedy | src/onnx/session_key_with_option.cpp:18 | wherever an option stands, the scanner finds its key and its longest value |
| KeyScanner.SearchOptionIsLeftmost | src/onnx/session_key_with_option.cpp:103 | the search takes the leftmost option |
| KeyScanner.CharacterClasses | src/onnx/session_key_with_option.cpp:11-18 | the character classes, written out |
| Searches.NextKey | src/onnx/session_key_with_option.cpp:97 | from any position the search finds exactly the next match of the key expression |
| Searches.NoKey | src/onnx/session_key_with_option.cpp:97 | and fails if there is none |
| Searches.NextOption | src/onnx/session_key_with_option.cpp:103 | the same for the option expression |
| Searches.NoOption | src/onnx/session_key_with_option.cpp:103 | an option list without a further match, for example without an equals sign, ends the search |
| Matches.MatchesOf | src/onnx/session_key_with_option.cpp:97-129 | every text has a sequence of successive leftmost matches with none after the last, for any expression |
| Matches.MatchesAreUnique | src/onnx/session_key_with_option.cpp:97-129 | and only one |
| DottedKeys.SplitDot | src/onnx/session_key_with_option.cpp:41-56 | for any parts between the dots of the key, leading, doubled and trailing dots included, the loop returns those that are not empty |
| DottedKeys.SplitKeepsNonEmpty | src/onnx/session_key_with_option.cpp:41-56 | splitting a join of dot-free parts keeps the non-empty ones, in order |
| DottedKeys.EveryKeyIsJoined | src/onnx/session_key_with_option.cpp:41-56 | every key is such a join |
| DottedKeys.SplitIsNotEmpty | src/onnx/session_key_with_option.cpp:108-112 | a matched key always has a part, so that branch never runs |
| ModelKeys.ParseOptions | src/onnx/session_key_with_option.cpp:99-124 | applies exactly the successive matches of the option expression, in order, and terminates |
| ModelKeys.OptionsExactly | src/onnx/session_key_with_option.cpp:103-123 | exactly the successive matches are applied, in order, whatever text stands before, between and after them |
| ModelKeys.Parse | src/onnx/session_key_with_option.cpp:85-135 | terminates; with the words of the text one space apart and the successive matches among them, it accepts iff the last match ends them, or there are no words, and returns the models of exactly these matches |
| WhiteSpace.NormalizedText | src/onnx/session_key_with_option.cpp:92 | words with any white space around and between them are normalized to the words one space apart |
| WhiteSpace.EveryTextIsSpaced | src/onnx/session_key_with_option.cpp:92 | every text is words with white space |
| ModelKeys.WhiteSpaceIsIgnored | src/onnx/session_key_with_option.cpp:92-134 | texts that differ only in white space parse alike |
| ModelKeys.AcceptedExactly | src/onnx/session_key_with_option.cpp:97-134 | from any position: text before and between matches is dropped, text after the last rejects the list |
| ModelKeysRoundTrip.SplitUndoesJoin | src/onnx/session_key_with_option.cpp:41-56 | splitting at the dots undoes joining non-empty parts with them |
| ModelKeysRoundTrip.PrintedOptionsApply | src/onnx/session_key_with_option.cpp:103-123 | parsing a printed option list applies its bindings in order |
| ModelKeysRoundTrip.PrintedListParses | src/onnx/session_key_with_option.cpp:92-134 | parsing a printed model list gives each model with its bindings applied |
| OptionTrees.LeavesDetermineTree | src/onnx/session_key_with_option.cpp:58-70 | trees without empty objects and with the same leaves are equal |
| OptionTrees.AppliedAreListed | src/onnx/session_key_with_option.cpp:114-120 | applying compatible bindings builds a tree whose leaves are exactly those bindings |
| OptionTrees.BindingsRebuildTree | src/onnx/session_key_with_option.cpp:103-123 | applying the bindings of a tree in any order rebuilds the tree |
| OptionTrees.ModelListRoundTrip | src/onnx/session_key_with_option.cpp:85-135 | any printing of a model list, options in any order, parses back to the same models and trees |
| OptionListings.EveryModelListHasText | src/onnx/session_key_with_option.cpp:85-135 | every list of printable models has such a text |
| ParseRange.OptionsArePrintable | src/onnx/session_key_with_option.cpp:99-124 | every option keeps the tree expressible in the option syntax |
| ParseRange.ParseRange | src/onnx/session_key_with_option.cpp:85-135 | a list of models is the result of parsing some text iff its names, versions and trees are printable |
| ReducedPrecision.FieldBits | src/onnx/value_info.cpp:154-157 | the shifts and masks on a byte are the field functions, for both splits, and the sign bit is the order |
| ReducedPrecision.MagnitudeInUnits | src/onnx/value_info.cpp:172-173 | subnormal or normal, a magnitude is its integer significand times a power of two |
| ReducedPrecision.Spacing | src/onnx/value_info.cpp:153-174 | for every field split and bias, consecutive codes are 2^(max(exp,1)-bias-mant_bits) apart, across every boundary |
| ReducedPrecision.StrictlyIncreasing | src/onnx/value_info.cpp:153-174 | decoding is strictly increasing in the magnitude code |
| ReducedPrecision.SignSymmetric | src/onnx/value_info.cpp:157-166 | flipping the sign bit flips the sign and nothing else, but for the missing negative zero of the fnuz formats |
| ReducedPrecision.FiniteExactly | src/onnx/value_info.cpp:160-171 | which bytes are finite, exactly, for every format |
| ReducedPrecision.DecodedExactly | src/onnx/value_info.cpp:153-174 | the value of every byte of every format, by its sign and the code below it |
| ReducedPrecision.SpecialExactly | src/onnx/value_info.cpp:160-168 | which bytes are infinite, with their sign, and which are not a number |
| ReducedPrecision.SpecialE5M2 | src/onnx/value_info.cpp:251-252 | 0x7C and 0xFC are the infinities of e5m2, and the bytes above them are not numbers |
| ReducedPrecision.SpecialOthers | src/onnx/value_info.cpp:253-258 | the other formats have no infinity; 0x7F and 0xFF, or 0x80 alone, are not numbers |
| ReducedPrecision.FiniteCodesAreInjective | src/onnx/value_info.cpp:153-174 | two finite bytes have the same value iff they are equal or both zeros |
| ReducedPrecision.LargestFinite | src/onnx/value_info.cpp:160-171 | no finite byte exceeds the largest code's value and only that code reaches it |
| ReducedPrecision.StandardRanges | src/onnx/value_info.cpp:251-258 | largest and smallest positive values of the four formats: 57344, 57344, 448, 240 and 2^-16, 2^-17, 2^-9, 2^-10 |
| ReducedPrecision.E2M1TableIsTheFormula | src/onnx/value_info.cpp:219-224 | the 4-bit table is the formula with two exponent bits, one mantissa bit and bias one |
| ReducedPrecision.E8M0Doubles | src/onnx/value_info.cpp:259-270 | each code is twice the one before, so codes are ordered as their values |
| ReducedPrecision.E8M0Scale | src/onnx/value_info.cpp:259-270 | code 127 is one and 0xFF alone is not a number |
| PackedElements.NibbleBits | src/onnx/value_info.cpp:138-141 | element i is the masked or shifted byte at i / 2, the low half for even i |
| PackedElements.CrumbBits | src/onnx/value_info.cpp:145-147 | element i is the shifted and masked byte at i / 4, the lowest field first |
| PackedElements.NibblesRoundTrip | src/onnx/value_info.cpp:138-141 | every 4-bit value is extracted from where packing put it |
| PackedElements.CrumbsRoundTrip | src/onnx/value_info.cpp:145-147 | every 2-bit value is extracted from where packing put it |
| PackedElements.PackingUndoesNibbles | src/onnx/value_info.cpp:138-141 | extracting all nibbles and packing them gives the buffer back |
| PackedElements.PackingUndoes2Bits | src/onnx/value_info.cpp:145-147 | the same for 2-bit fields |
| PackedElements.SignedIsTwosComplement | src/onnx/value_info.cpp:195-216 | the sign reading is a bijection onto -8..7 and -2..1 |
| PackedElements.E2M1IsInjective | src/onnx/value_info.cpp:217-227 | the sixteen 4-bit floats are different |
| PackedElements.DecodeBytes | src/onnx/value_info.cpp:189-270 | the loops over bytes return the meaning of every field; integers stored in their low bits come back as they were, negative ones included |
| PackedElements.IntegersComeBack | src/onnx/value_info.cpp:189-216 | 4-bit and 2-bit integers, signed or not, that are stored in their low bits are read back |
| PackedElements.FloatsMean | src/onnx/value_info.cpp:217-270 | what every field of the floating-point kinds stands for |
| PackedElements.GetTensorData | src/onnx/value_info.cpp:176-298 | every case of the switch: no read leaves the storage; packed and hand-decoded fields get their meaning in order, complex parts are paired, all other elements are taken as they are |

## Left out

- ONNX Runtime itself, creating its tensors, and the conversion of JSON numbers to each element type: foreign code.
- The choice by element type inside `input_value`: the bound shape is the inferred one; boolean inputs use `BatchedShape` instead, which `BatchedShape.InferencesAgree` relates to it.
- Parsing JSON text, with its depth limit: datasets start as trees, and the parser of a string-encoded dataset is a parameter of `Context.RequestContext.Bind`.
- TensorNesting.ValuesFitShape: what the source does where it reads outside its arguments or never ends is only named, as none.
- BatchedShape.BatchedShape: counts from 2^53 on, more values than a machine can hold; a double quotient is any correctly rounded value, and what converting an infinite double gives is only named, as none.
- PoolProgress.NotifyAllSuffices: the return of every join is not claimed without its condition, because the code does not guarantee it. Spurious wake-ups, which can only help, and requests that keep coming are outside the schedules it ranges over.
- BuiltinThreadPool.ThreadPool.Enqueue, and the worker loop and flush beside it: their contracts speak of a call that no other thread interrupts; all interleavings of its steps are the runs of the state machine.
- The pool's futures and the results of tasks; a push and the unlock after it are one step, since no other thread can look at the queue in between.
- Sockets, TLS, HTTP, logging and the exceptions they throw: reads are an arbitrary schedule of chunk sizes, and writing a reply succeeds or fails arbitrarily.
- TcpSession.Session.DoWrite: whether the whole reply is sent is not stated, because one partial write counts as success in the source.
- TcpSession.Session.ReadUpload: what a file holds after a write that failed is not modelled.
- The tasks, the session manager and request routing: what a task comes to is arbitrary for every frame.
- The big-endian and Windows variants of the byte-swapping macros.
- HeaderCodec.ResponseIsWellFramed: the source swaps the literal 0 by shifting a 32-bit int by 32 bits, which C++ leaves undefined; the model takes the result as 0, as the machines do.
- NestedOption.OptionCell.SetNested: the source moves a pointer into the tree; the model keeps the objects it passes and puts them back together on the way up.
- KeyScanner.SearchKeyIsLeftmost: regular expressions are scanners over characters in the "C" locale, not an engine for all expressions.
- The text of numbers, the order of object keys and duplicate keys in JSON: objects are maps.
- Provider option setters, GPU options, configuration, release scripts and the embedded documentation pages.
- The in-memory form of wide integers, floats, strings and booleans: such elements are read as they are.
