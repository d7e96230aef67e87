# Batch sudoku driver and its thread pool, modelled in Dafny

This project models two pieces of the repository:

- **The batch driver** in `Source/sudoku_solve_threadpool.cc`:
  - `file_process` fills a buffer of up to 10240 rows from the lines of a file. It skips every line shorter than `N`.
  - It splits the filled rows into `thread_num` ranges and submits one `solve` task per range to the pool.
  - It waits for the tasks and then prints the rows.
- **The `ThreadPool` class** in `Source/threadpool.h`, as a sequential state machine. Each critical section the source runs under `queue_mutex` becomes one atomic method.

The modules follow that structure:

- `records.dfy` (`Records`): the record format.
  - A line is a byte string. The record is a `Row` of `N = 81` cells.
  - A cell is the byte read through a signed `char`, minus 48.
  - `putchar` writes its argument modulo 256.
  - It defines the specification functions `ParsedRows`, `PrintRows` and `Expected`.
- `partition.dfy` (`Partition`):
  - the chunk length `(n + w) / w` and the `w` ranges it yields;
  - `ApplyRange`/`ApplyRanges`, which say what `solve` does to the buffer.
- `threadpool.dfy` (`Pool`): class `ThreadPool<T>`.
  - Its fields are `workers`, the queue `tasks`, the flag `stop`, and the future bookkeeping `nextTicket` and `ready`.
  - The ghost histories `submitted` and `taken` hold every task ever queued or dequeued.
  - `Valid()` ties them together. Tickets are handed out in order, and `submitted == taken + tasks`. A worker has returned only once `stop` is set and the queue is empty. A future is ready exactly when its task was taken and is no longer running.
- `batch.dfy` (`Batch`): class `Driver`.
  - Its fields are the driver's globals: the pool, `thread_num`, and the buffer `puzzle_buf` as an `array<Row>`.
  - One method per function or loop of the driver.
  - Each method is proved against the specification functions, and `FileProcess` returns exactly `Expected(lines, solver)`.

Inputs that the source gets from its environment are parameters here:

- The file is the sequence of lines its `getline` calls return.
- The solver is an opaque function `Row -> Row`.
- `hardware_concurrency()` is the argument of `Init`.
- The bytes written with `putchar` are returned as a sequence.

## Model

| member | source | states |
|---|---|---|
| `Records.Stored` | Source/sudoku_solve_threadpool.cc:114 | `getline(one_puzzle, N + 1)` keeps a line shorter than `N` whole and exactly the first `N` bytes of a longer one |
| `Records.Strlen` | Source/sudoku_solve_threadpool.cc:117 | `strlen` is the index of the first NUL byte: every byte before it is non-zero and the byte at it is zero |
| `Records.AcceptedIff` | Source/sudoku_solve_threadpool.cc:114-117 | the test `strlen(one_puzzle) >= N` on what `getline` stored holds exactly when the line has at least `N` bytes and none of its first `N` bytes is NUL (both directions) |
| `Records.RoundTrip` | Source/sudoku_solve_threadpool.cc:120-121 | parsing a line (`c - 48` per cell) and printing the row again (`'0' + cell`, putchar at line 78) reproduces the line's first `N` bytes and a newline, for every byte value, negative `char`s included |
| `Records.DigitCells` | Source/sudoku_solve_threadpool.cc:117-121 | a line of `N` digits is kept and parses to the digit values 0 to 9 |
| `Records.PrintRows` | Source/sudoku_solve_threadpool.cc:75-80 | printing `k` rows writes exactly `k * (N + 1)` bytes |
| `Records.ExpectedAppend` | Source/sudoku_solve_threadpool.cc:99-164 | the expected output of a file is the output of any first part of it followed by that of the rest, so buffer boundaries cannot change the output |
| `Records.IdentityEcho` | Source/sudoku_solve_threadpool.cc:110-154 | with the identity solver, the output is each kept line's first `N` bytes plus a newline, in input order, and nothing for a skipped line |
| `Partition.ChunkLenBounds` | Source/sudoku_solve_threadpool.cc:134 | for `thread_num >= 1` the chunk length is at least 1, `thread_num` chunks hold more than `line_num` rows, and the length is `line_num / thread_num + 1` |
| `Partition.PartBounds` | Source/sudoku_solve_threadpool.cc:139 | every range starts at or after 0 and ends at or before `line_num`; a range starting at or after `line_num` is empty, and any other range is not |
| `Partition.PartsContiguous` | Source/sudoku_solve_threadpool.cc:139-142 | range `i + 1` starts `len` rows after range `i`, and range `i` ends where range `i + 1` starts or at `line_num` |
| `Partition.PartsOrdered` | Source/sudoku_solve_threadpool.cc:137-142 | an earlier range ends at or before a later range starts |
| `Partition.PartsCover` | Source/sudoku_solve_threadpool.cc:137-142 | every row below `line_num` lies in exactly one of the `thread_num` ranges |
| `Partition.PartOf` | Source/sudoku_solve_threadpool.cc:134-139 | row `k` lies in range `k / len`, one of the submitted ones |
| `Partition.PartsWithin` | Source/sudoku_solve_threadpool.cc:139 | a row that lies in some range is below `line_num` |
| `Partition.PartsDisjoint` | Source/sudoku_solve_threadpool.cc:137-142 | no two submitted ranges share a row |
| `Partition.PartsExamples` | Source/sudoku_solve_threadpool.cc:134-142 | 24 rows on 4 threads give chunks of 7; 25 rows on 4 give `[0,7) [7,14) [14,21) [21,25)`; 2 rows on 8 give `[0,1) [1,2)` and six empty ranges |
| `Partition.ApplyDisjoint` | Source/sudoku_solve_threadpool.cc:58-61 | running `solve` on disjoint ranges in turn solves each covered row exactly once and leaves every other row unchanged |
| `Partition.ApplyOrderIndependent` | Source/sudoku_solve_threadpool.cc:148-149 | disjoint tasks in any order leave the same buffer, so the workers' order of completion does not matter |
| `Partition.ApplyParts` | Source/sudoku_solve_threadpool.cc:134-149 | running all `thread_num` tasks of a buffer solves exactly its first `line_num` rows and no other |
| `Pool.ThreadPool.constructor` | Source/threadpool.h:36-38 | a new pool is not stopped and has no tasks, no workers and no futures |
| `Pool.ThreadPool.Start` | Source/threadpool.h:43-51 | `start(k)` appends exactly `k` waiting workers and changes nothing else |
| `Pool.ThreadPool.Enqueue` | Source/threadpool.h:104-114 | once `stop` is set it fails with the runtime error and leaves the queue unchanged; otherwise it appends exactly one task at the back, keeping the queue before it, and returns a new future |
| `Pool.ThreadPool.Step` | Source/threadpool.h:53-81 | one pass of the worker loop: with `!stop` and an empty queue the worker stays blocked; it returns only when `stop` and the queue is empty; otherwise it removes exactly the front task; a running task's completion makes its future ready; no other worker changes |
| `Pool.ThreadPool.Exit` | Source/threadpool.h:71-72 | a waiting worker that sees `stop` and an empty queue returns, with the queue and every future unchanged |
| `Pool.ThreadPool.Take` | Source/threadpool.h:76-77 | the worker moves the front task out of the queue (FIFO) and runs it; that task is the next one taken |
| `Pool.ThreadPool.Finish` | Source/threadpool.h:81 | the task returns, its future becomes ready and the worker waits again |
| `Pool.ThreadPool.Close` | Source/threadpool.h:86-89 | `close()` sets `stop` and touches nothing else, so a second call changes nothing |
| `Pool.ThreadPool.Join` | Source/threadpool.h:126-127 | joining a worker after `stop` runs it until its thread function returns, leaving the other workers as they are |
| `Pool.ThreadPool.Destroy` | Source/threadpool.h:119-128 | the destructor sets `stop`, after which every worker returns; with at least one worker, the queue is drained first: every task ever submitted has been taken and every future is ready |
| `Pool.TakenOnce` | Source/threadpool.h:76-77 | no task is dequeued twice or lost: the dequeued tasks are the oldest submitted ones in order, and the queue holds exactly the rest |
| `Batch.Driver.constructor` | Source/sudoku_solve_threadpool.cc:22-26 | at program start the pool is new, `thread_num` is 1 and every buffer row is zero |
| `Batch.Driver.Init` | Source/sudoku_solve_threadpool.cc:36-45 | `thread_num` becomes the processor count and the pool gets that many waiting workers |
| `Batch.Driver.Del` | Source/sudoku_solve_threadpool.cc:48-55 | `del()` closes the pool without touching its queue, workers or futures |
| `Batch.Driver.Solve` | Source/sudoku_solve_threadpool.cc:58-61 | `solve(start, end)` replaces rows `start..end-1` with their solved form and leaves every other row unchanged; an empty range does nothing |
| `Batch.Driver.Print` | Source/sudoku_solve_threadpool.cc:73-81 | `print(line_num)` writes the first `line_num` rows in row order, each as `N` bytes `'0' + cell` and a newline |
| `Batch.Driver.ReadBuffer` | Source/sudoku_solve_threadpool.cc:107-125 | the reading loop stops at the end of the file or as soon as the 10240th row is filled, leaving the rest for the next pass; the filled rows are exactly the parsed kept lines, in order; rows after them are untouched |
| `Batch.Driver.ReadLine` | Source/sudoku_solve_threadpool.cc:114-124 | a kept line fills the next row and is counted; a skipped line changes nothing |
| `Batch.Driver.FillRow` | Source/sudoku_solve_threadpool.cc:120-121 | row `line_num` becomes `one_puzzle[i] - 48` for `i < N`; earlier and later rows are untouched |
| `Batch.Driver.Submit` | Source/sudoku_solve_threadpool.cc:134-143 | the partition loop submits exactly `thread_num` tasks, task `i` for range `i`, at the back of the queue and in order |
| `Batch.Driver.RunFront` | Source/sudoku_solve_threadpool.cc:148-149 | a worker takes the front task and runs `solve` on its range, after which that task's future is ready |
| `Batch.Driver.WaitAll` | Source/sudoku_solve_threadpool.cc:148-149 | once every future of the buffer is ready, the queue is empty, every worker waits, and the buffer holds the queued ranges applied in turn |
| `Batch.Driver.Dispatch` | Source/sudoku_solve_threadpool.cc:134-149 | after the partition and the wait, exactly the first `line_num` rows are solved, the rest of the buffer is unchanged, and all `thread_num` futures are ready |
| `Batch.Driver.ProcessBuffer` | Source/sudoku_solve_threadpool.cc:100-164 | one pass of the outer loop reads at least one line and prints exactly the expected output of the lines it read |
| `Batch.Driver.FileProcess` | Source/sudoku_solve_threadpool.cc:84-173 | `file_process` prints every kept line of the file, parsed, solved and printed, in input order, whatever the buffer boundaries |

## Left out

- Threads, `std::mutex`, `std::condition_variable`, `notify_one` and `notify_all` are not modelled. Each critical section is one atomic method, and a worker that `Step` leaves `Sleeps` stands for a blocked wait.
- `close()` writes `stop` without the lock and without a notify. In a sequential model this race cannot arise.
- `std::future`, `std::packaged_task` and `std::bind` are not modelled. A future is its ticket, and "ready" is membership of the ticket in `ready`. `solve`'s constant return value 0 is dropped.
- The driver's wait on the futures is modelled as worker 0 taking the queued tasks one by one while the driver runs `solve` on each. `ApplyOrderIndependent` covers every other completion order of these disjoint tasks.
- The `results` vector keeps the futures of earlier buffers and waits on them again. Those futures are already ready, so this has no effect, and the vector is not modelled.
- `sudoku.h` and the dancing-links solver are not part of this model. The solver is an opaque function on one row, and `N = 81` is assumed for a 9 × 9 grid.
- The file is modelled as the sequence of every `getline` result until `eof()` holds, and `ifstream`, `eof` and the file name are not modelled.
  - The model does not capture that a line longer than `N` bytes sets `failbit` in the source.
  - After that, `eof()` never becomes true, so the source keeps looping with empty reads.
  - The model instead reads such a line's first `N` bytes and goes on.
- `main`'s loop over file names read from standard input is not modelled, and neither are timing (`now`, `gettimeofday`) or `DEBUG` output.
- `thread::hardware_concurrency()` is the parameter of `Init`.
  - It may return 0, and `(line_num + 0) / 0` in the source is a division by zero.
  - `Submit`, `Dispatch`, `ProcessBuffer` and `FileProcess` therefore require `threadNum >= 1`, and `ProcessBuffer` and `FileProcess` also require at least one worker.
- `int` overflow is not modelled, because all values stay far below 2^31: `line_num <= 10240`, and `thread_num` is a processor count.
- `puzzle_buf` is a 2-D `int` array written cell by cell. In the model it is an `array<Row>`, and `FillRow` builds the row's cells in a loop and stores the finished row at once.
- The chunk length is `(n + w) / w`, that is `n / w + 1`. This is not `ceil(n / w)`: the two differ whenever `w` divides `n` (24 rows on 4 threads give 7, not 6). The model follows the code.
