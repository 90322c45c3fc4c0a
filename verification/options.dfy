/** Construction options of the pool and how the worker count is resolved. */
module PoolOptions {
  import opened Machine

  /** Asking for this many threads means "use the hardware hint". */
  const Autodetect: SizeT := 0
  const DefaultQueueSize: SizeT := 1024

  datatype Options = Options(threadsCount: SizeT, workerQueueSize: SizeT)

  /** The options a default-constructed options value carries. */
  function Default(): (o: Options)
    ensures o.threadsCount == Autodetect
    ensures o.workerQueueSize == 1024
  {
    Options(Autodetect, DefaultQueueSize)
  }

  /** The number of workers the pool starts, given the requested count and
      the hardware concurrency hint (an input: the query itself is not modelled). */
  function WorkerCount(threadsCount: SizeT, hardwareHint: UInt): (n: SizeT)
    ensures 1 <= n
    ensures threadsCount != Autodetect ==> n == threadsCount
    ensures threadsCount == Autodetect && hardwareHint != 0 ==> n == hardwareHint
    ensures threadsCount == Autodetect && hardwareHint == 0 ==> n == 1
  {
    var requested := if threadsCount == Autodetect then hardwareHint else threadsCount;
    if requested == 0 then 1 else requested
  }

  /** An explicit request is honoured exactly when it is not the autodetect value. */
  lemma WorkerCountHonoursRequest(threadsCount: SizeT, hardwareHint: UInt)
    ensures WorkerCount(threadsCount, hardwareHint) == threadsCount <==> threadsCount != Autodetect
  {
  }

  /** Feeding a resolved count back in as an explicit request changes nothing,
      whatever the hint is the second time. */
  lemma WorkerCountIsStable(threadsCount: SizeT, hint1: UInt, hint2: UInt)
    ensures var n := WorkerCount(threadsCount, hint1);
            WorkerCount(n, hint2) == n
  {
  }
}
