# thread-pool-cpp: dispatch arithmetic and task-callable lifecycle

A Dafny model of the two sequential parts of a header-only C++ thread pool.

1. **Pool dispatch.** This part covers four things:
   - how `ThreadPool` resolves its worker count from `ThreadPoolOptions` and the hardware concurrency hint;
   - how it wires worker `i` to steal from worker `(i + 1) mod n`;
   - how `getWorker` chooses a target: the calling worker itself, or the next round-robin slot;
   - how `post` turns a refused push into an overflow error.
2. **`FixedFunction` lifecycle.** `FixedFunction` is the inline, type-erased callable that the pool queues as its task. The model follows the allocation and invocation tests:
   - a wrapper is empty or holds one payload object;
   - construction from a named value consumes it by move, or by copy when the payload cannot be moved;
   - move-assignment and move-construction relocate the object and leave the source empty;
   - a tally of default constructions, copies, moves, assignments and destructions keeps a conservation invariant.

Modules:
- `Machine` (machine.dfy): `size_t` and `unsigned int` as bounded integers, and the wrapping increment of the atomic counter.
- `Optional` (optional.dfy): an option type.
- `PoolOptions` (options.dfy): the options and the worker-count resolution.
- `DonorRing` (donor_ring.dfy): the steal-donor map and its cycle structure.
- `ThreadPool` (thread_pool.dfy): the constructor, destructor, `getWorker` (corrected and as written) and `post`.
- `FixedFunction` (fixed_function.dfy): the wrapper, relocation and invocation.
- `Lifecycle` (lifecycle.dfy): the counted state machine of the allocation tests.

Inputs from outside the model:
- The hardware hint is a parameter of `ThreadPool.Create`.
- The calling thread's registered worker id is a parameter of `GetWorker`. In the source it comes from `Worker::getWorkerIdForCurrentThread`.
- A worker's own `post` answer is a parameter `accepts` of `Post`.
- The shared atomic counter is an ordinary field that each selection advances in turn.

## Model

| member | source | states |
|---|---|---|
| PoolOptions.Default | thread_pool/thread_pool.hpp:14-18 | default options request autodetect (0) threads and a worker queue size of 1024 |
| PoolOptions.WorkerCount | thread_pool/thread_pool.hpp:65-73 | the resolved count is at least 1; a nonzero request is used unchanged; autodetect takes the hint; a zero hint becomes 1 |
| PoolOptions.WorkerCountHonoursRequest | thread_pool/thread_pool.hpp:65-73 | the resolved count equals the requested count if and only if the request is not autodetect |
| PoolOptions.WorkerCountIsStable | thread_pool/thread_pool.hpp:65-73 | requesting an already resolved count gives that count again, whatever the hint |
| DonorRing.Donor | thread_pool/thread_pool.hpp:81 | the donor of worker i is in range: the next worker, or worker 0 after the last |
| DonorRing.Thief | thread_pool/thread_pool.hpp:81 | every worker is the donor of some worker (the donor map is onto) |
| DonorRing.DonorIsBijection | thread_pool/thread_pool.hpp:80-82 | the donor map and its inverse undo each other on both sides |
| DonorRing.DonorInjective | thread_pool/thread_pool.hpp:80-82 | distinct workers have distinct donors |
| DonorRing.SelfDonorIffAlone | thread_pool/thread_pool.hpp:81 | a worker steals from itself exactly when the pool has one worker |
| DonorRing.WalkOffset | thread_pool/thread_pool.hpp:81 | k donor steps from worker i reach i + k, wrapped once, for k up to n |
| DonorRing.DonorRingIsSingleCycle | thread_pool/thread_pool.hpp:80-82 | following donors from any worker returns home after exactly n steps and not earlier, and reaches every worker |
| DonorRing.FirstLapIsDistinct | thread_pool/thread_pool.hpp:80-82 | the first n donor steps from any worker meet no worker twice |
| ThreadPool.Create | thread_pool/thread_pool.hpp:62-84 | a new pool has the resolved number of workers (at least 1) and a zero counter; worker i runs with id i, donor (i+1) mod n and the configured queue size |
| ThreadPool.Stop | thread_pool/thread_pool.hpp:88-90 | stopping a running worker requests stop and keeps its id, donor and queue |
| ThreadPool.Shutdown | thread_pool/thread_pool.hpp:86-91 | after destruction no worker is running; ids, donors, queue sizes and the counter are unchanged |
| ThreadPool.GetWorker | thread_pool/thread_pool.hpp:102-111 | with the guard corrected to >=: the chosen index is always in range; a valid caller id is kept with the counter untouched; any other caller gets counter mod n and the counter advances by one (wrapping at 2^64) |
| ThreadPool.GetWorkerAsWritten | thread_pool/thread_pool.hpp:102-111 | with the guard as written (>): every caller id up to and including n is returned as the index unchanged; only ids above n go round robin |
| ThreadPool.AsWrittenIndexesPastEnd | thread_pool/thread_pool.hpp:106-110 | the written guard returns index n for caller id n, one past the last worker, while the corrected guard stays in range |
| ThreadPool.AsWrittenAgreesElsewhere | thread_pool/thread_pool.hpp:106 | the two guards choose alike exactly when the caller id is not n |
| ThreadPool.Post | thread_pool/thread_pool.hpp:93-100 | post reports the chosen worker if and only if that worker accepts the task, otherwise overflow; the pool afterwards is the one selection left |
| ThreadPool.OverflowStillAdvancesCounter | thread_pool/thread_pool.hpp:96-107 | an external post that overflows has still consumed a round-robin slot |
| ThreadPool.SelectAll | thread_pool/thread_pool.hpp:104-110 | repeated selections choose one in-range worker per caller and never change the workers |
| ThreadPool.WorkersPostToThemselves | thread_pool/thread_pool.hpp:104-110 | callers that are pool workers are each routed to their own worker, and the counter is never touched |
| ThreadPool.ExternalCallersRotate | thread_pool/thread_pool.hpp:106-108 | external callers follow the donor ring: the j-th gets the worker j steps on from counter mod n, and the counter rises by the number of callers modulo 2^64, as long as only the last selection may wrap it |
| ThreadPool.ExternalCallersRotateNoWrap | thread_pool/thread_pool.hpp:106-108 | while the counter does not wrap, external callers take consecutive places on the donor ring from counter mod n, and the counter rises by exactly the number of callers |
| ThreadPool.RoundRobinChoosesEachOnce | thread_pool/thread_pool.hpp:107 | any n consecutive external selections choose every worker exactly once, as long as only the last selection may wrap the counter |
| ThreadPool.CounterWrapRepeatsWorker | thread_pool/thread_pool.hpp:107 | across the 2^64 wrap of the counter with three workers, worker 0 is chosen twice in a row |
| Machine.Increment | thread_pool/thread_pool.hpp:107 | fetch_add(1) on size_t adds one, and wraps to zero from the maximum |
| FixedFunction.Relocate | tests/fixed_function.t.cpp:87-89 | a wrapper move leaves the source empty and the destination holding exactly the source's former object |
| FixedFunction.WrappedCallAgrees | tests/fixed_function.t.cpp:134-142 | an example: invoking a wrapped function gives what calling the function directly gives |
| FixedFunction.BoundCallAgrees | tests/fixed_function.t.cpp:152-174 | an example: invoking a wrapped bound member is calling the member on its receiver |
| FixedFunction.InvocationCases | tests/fixed_function.t.cpp:134-183 | the concrete examples of the tests, on the model: free function 3, template "abc", bound members 4 and 2, capturing lambda "s1", and, as returned values rather than writes through a reference, 42 for the void function and 43 for the bound void member |
| Lifecycle.FreshIsBalanced | tests/fixed_function.t.cpp:66-72 | a block starts with all counts zero, which is balanced, and nothing alive |
| Lifecycle.NewValue | tests/fixed_function.t.cpp:85 | declaring a payload local adds one default construction and one live local holding the payload; wrappers and other counts are unchanged |
| Lifecycle.NewWrapper | tests/fixed_function.t.cpp:86 | wrapping a named local adds a wrapper holding its object and destroys nothing; a movable payload costs one move, no copy, and leaves the local moved-from; a copy-only one costs one copy, no move, and leaves every local as it was; other locals are unchanged |
| Lifecycle.NewEmptyWrapper | tests/fixed_function.t.cpp:87 | declaring an empty wrapper constructs and destroys no payload and changes no local |
| Lifecycle.AssignMoved | tests/fixed_function.t.cpp:88 | move-assignment adds one construction and one destruction when the source holds an object, plus one destruction when the destination held one; it never uses the payload's assignment operators and leaves the locals alone |
| Lifecycle.ConstructMoved | tests/fixed_function.t.cpp:89 | move-construction adds one wrapper, and one construction and one destruction exactly when the source holds an object; locals and assignment counts are unchanged |
| Lifecycle.CloseBlock | tests/fixed_function.t.cpp:91 | the closing brace removes every local and wrapper and destroys each live object once, constructing nothing |
| Lifecycle.Step | tests/fixed_function.t.cpp:85-91 | no statement uses the payload's assignment operators or lowers any count, and the payload's ability never changes |
| Lifecycle.StepKeepsBalance | tests/fixed_function.t.cpp:84-93 | every statement keeps constructions = destructions + live objects, assignments at zero, no copies of a movable payload, no moves of a copy-only one |
| Lifecycle.RunKeepsBalance | tests/fixed_function.t.cpp:84-93 | any well-formed block of statements keeps the conservation invariant |
| Lifecycle.LeavingBalancesDestroys | tests/fixed_function.t.cpp:91-93 | leaving a balanced block destroys exactly as many objects as were constructed: no leak, no double destroy |
| Lifecycle.MoveAssignRelocates | tests/fixed_function.t.cpp:88 | move-assign empties the source and gives the destination the source's former content; every other wrapper and every local is unchanged; it removes a live object only when the destination held one |
| Lifecycle.MoveConstructRelocates | tests/fixed_function.t.cpp:89 | move-construct empties the source and gives the new wrapper the source's former content; every other wrapper and every local is unchanged; live objects stay the same |
| Lifecycle.RelocationStep | tests/fixed_function.t.cpp:88-89 | one wrapper move keeps the locals, never adds a held object, keeps every held object equal to the one tracked, and keeps their number unless it overwrites a held one |
| Lifecycle.RelocationChainKeepsPayload | tests/fixed_function.t.cpp:86-90 | along any chain of wrapper moves, starting with at most one held object o, at most one wrapper holds an object and it is o, and the locals are untouched; without overwrites the number of held objects is exactly preserved |
| Lifecycle.ChainInvokesOriginal | tests/fixed_function.t.cpp:85-90 | starting with exactly one wrapper holding payload p, any chain of wrapper moves that never move-assigns over a held object runs to the end, leaves some wrapper holding an object, and invoking any wrapper that holds one returns p |
| Lifecycle.Invoke | tests/fixed_function.t.cpp:90 | invoking a wrapper that holds an intact payload returns that payload's string |
| Lifecycle.AllocDealloc | tests/fixed_function.t.cpp:84-98 | the test's block returns the original payload; movable: 1 default, 3 moves, 0 copies; copy-only (lines 118-130): 1 default, 3 copies, 0 moves; no assignments; destructions = constructions |

## Findings

| source | as written | input that shows it | evidently intended | confidence | as-written member | corrected member |
|---|---|---|---|---|---|---|
| thread_pool/thread_pool.hpp:106 | `if (id > m_workers.size())` sends only ids above the worker count to round robin | a caller whose registered id equals the worker count n, e.g. id 4 with 4 workers: the guard passes and line 110 reads `m_workers[4]`, one past the end | `id >= m_workers.size()`, so that only valid indices are used directly | medium; not executed (whether a real thread can hold id n depends on `worker.hpp`, which is not part of this model) | ThreadPool.GetWorkerAsWritten, ThreadPool.AsWrittenIndexesPastEnd | ThreadPool.GetWorker |

The rest of the model (`Post`, `SelectAll` and the round-robin lemmas) uses the corrected `GetWorker`.

## Left out

- Threads, `Worker::start`/`stop` internals, joining and memory ordering: they are concurrency. `worker.hpp` is not part of this model. A worker here is its queue size and its start/stop state.
- The bounded lock-free queue and the work-stealing loop: their source is not part of this model. A worker's `post` answer is an input.
- `std::thread::hardware_concurrency`: a foreign call. It is an input value.
- `NonCopyable`: a marker with no logic.
- `print_overhead`, `sizeof` and the compile-time capacity check of `FixedFunction`: they concern byte layout and floating point.
- The `doTest`/`ASSERT` harness and console output.
- C++ exceptions: overflow is the `Overflow` result value.
- The `FixedFunction` header is not part of this model. How a wrapper move proceeds is therefore assumed: destroy the destination's object, move (or copy) the source's object into the destination, destroy the source's object, leave the source empty. The tests observe only the resulting counts, which do not depend on that order. The buffer and the three function pointers are not represented.
- ThreadPool.ExternalCallersRotate: requires that no selection before the last wraps the 64-bit counter. Once it has wrapped, the rotation breaks when n does not divide 2^64 (see CounterWrapRepeatsWorker).
- ThreadPool.RoundRobinChoosesEachOnce: the same requirement, for the same reason.
- Lifecycle.Invoke: requires that the wrapper holds an intact payload. A moved-from movable local is modelled as being in a valid but unspecified state (`Hollow`), and it is never invoked.
- Lifecycle.AllocDealloc: the payload is modelled as an ideal value that each move or copy carries into the new object. The test's `cnt` is different. Its copy and move constructors have no member initialisers, so every new object gets "xyz" from the default member initialiser and the source keeps its string. Because the test's payload is "xyz", the observed result is "xyz" either way. The model does not promise what a `cnt` with another payload would return.
- Lifecycle.Applicable: excludes self move-assignment. The header's handling of it is not visible.
- FixedFunction.Call: the header's invoke pointer is not modelled. Calling a wrapper is applying the function value it holds, so the invocation tests at tests/fixed_function.t.cpp:134-183 hold by construction.
- FixedFunction.Bind: `std::bind` is modelled as partial application of the member to its receiver. Invoking a wrapped bound member therefore agrees with the direct call by construction.
- Lifecycle.Operator: the counting payload's call operator is the constant function returning its string. Invoking it gives that string by construction.
- FixedFunction.InvocationCases: the tests `void func` and `class method void` write through an `int &` argument (`test_void`, `A::c`). The model has no references: `AssignTo` and `SetTo43` return the value that would be written, and the lemma checks that value instead of the variable's new contents.
- Foo<float>::bar in the invocation tests uses a float payload. It is modelled with an integer payload of 1.
- The counters of the allocation tests are static counters in the source. The model keeps them as ordinary fields of the scope, because they are what the tests observe.
