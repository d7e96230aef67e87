/**
 * The batch driver of Source/sudoku_solve_threadpool.cc.  Its globals (the
 * pool, `thread_num` and `puzzle_buf`) are the fields of `Driver`; the file
 * is the sequence of lines its `getline` calls return, and the bytes it
 * writes with `putchar` are returned.  The solver is an opaque function on
 * one row.
 */
module Batch {
  import opened Records
  import opened Partition
  import opened Pool

  /** The ranges of `rs` as the jobs `base`, `base + 1`, ... of the pool. */
  function Jobs(base: nat, rs: seq<Range>): (js: seq<Job<Range>>)
    ensures |js| == |rs|
  {
    seq(|rs|, i requires 0 <= i < |rs| => Job(base + i, rs[i]))
  }

  class Driver {
    const pool: ThreadPool<Range>
    var threadNum: nat
    const puzzleBuf: array<Row>

    ghost predicate Valid()
      reads this, pool
    {
      pool.Valid() && puzzleBuf.Length == BufNum
    }

    /** Every future handed out so far has been waited for: nothing is
        queued or running and every worker waits for work. */
    ghost predicate Idle()
      reads this, pool
    {
      pool.tasks == [] && forall w :: 0 <= w < |pool.workers| ==> pool.workers[w] == Waiting
    }

    /** The program's start: the global pool is constructed, `thread_num`
        is 1 and the buffer is zero. */
    constructor ()
      ensures Valid() && Idle() && fresh(pool) && fresh(puzzleBuf)
      ensures !pool.stop && pool.workers == [] && pool.nextTicket == 0
      ensures threadNum == 1
      ensures puzzleBuf[..] == seq(BufNum, _ => ZeroRow)
    {
      pool := new ThreadPool();
      threadNum := 1;
      puzzleBuf := new Row[BufNum](_ => ZeroRow);
    }

    /** `init()`: `thread_num` becomes the given processor count and the
        pool starts that many workers. */
    method Init(processors: nat)
      requires Valid() && Idle()
      modifies this, pool
      ensures Valid() && Idle()
      ensures threadNum == processors
      ensures pool.workers == old(pool.workers) + seq(processors, _ => Waiting)
      ensures pool.stop == old(pool.stop) && pool.nextTicket == old(pool.nextTicket)
      ensures pool.ready == old(pool.ready)
      ensures pool.submitted == old(pool.submitted) && pool.taken == old(pool.taken)
    {
      threadNum := processors;
      pool.Start(processors);
    }

    /** `del()`: closes the pool. */
    method Del()
      requires Valid()
      modifies pool
      ensures Valid() && pool.stop
      ensures pool.workers == old(pool.workers) && pool.tasks == old(pool.tasks)
      ensures pool.ready == old(pool.ready) && pool.nextTicket == old(pool.nextTicket)
      ensures pool.submitted == old(pool.submitted) && pool.taken == old(pool.taken)
    {
      pool.Close();
    }

    /** `solve(start, end)`: the solver runs on rows `start` to `end - 1`; no
        other row changes, and a range with `end <= start` does nothing. */
    method Solve(start: int, end: int, solver: Row -> Row)
      requires start < end ==> 0 <= start && end <= puzzleBuf.Length
      modifies puzzleBuf
      ensures puzzleBuf[..] == ApplyRange(old(puzzleBuf[..]), Range(start, end), solver)
    {
      var i := start;
      while i < end
        invariant start <= i && (i == start || i <= end)
        invariant forall k :: 0 <= k < puzzleBuf.Length ==>
                    puzzleBuf[k] == if start <= k < i then solver(old(puzzleBuf[k])) else old(puzzleBuf[k])
      {
        puzzleBuf[i] := solver(puzzleBuf[i]);
        i := i + 1;
      }
      forall k | 0 <= k < puzzleBuf.Length
        ensures puzzleBuf[k] == if InRange(Range(start, end), k) then solver(old(puzzleBuf[k])) else old(puzzleBuf[k])
      {
      }
    }

    /** `print(line_num)`: the first `lineNum` rows, in order, each as `N`
        bytes `'0' + cell` and a newline. */
    method Print(lineNum: nat) returns (out: seq<byte>)
      requires lineNum <= puzzleBuf.Length
      ensures out == PrintRows(puzzleBuf[..lineNum])
    {
      out := [];
      for i := 0 to lineNum
        invariant out == PrintRows(puzzleBuf[..i])
      {
        ghost var before := out;
        var row := puzzleBuf[i];
        for j := 0 to N
          invariant out == before + seq(j, c requires 0 <= c < j => PutChar(48 + row[c]))
        {
          out := out + [PutChar(48 + row[j])];
        }
        out := out + [NewLine];
        assert out == before + PrintRow(row);
        assert puzzleBuf[..i + 1] == puzzleBuf[..i] + [row];
      }
    }

    /** The inner reading loop of `file_process`: reads lines from `pos` on
        until the file ends or the buffer holds `BufNum` rows.  Each accepted
        line fills the next row; the rows after the last filled one are
        untouched. */
    method ReadBuffer(lines: seq<Line>, pos: nat) returns (lineNum: nat, next: nat)
      requires puzzleBuf.Length == BufNum
      requires pos <= |lines|
      modifies puzzleBuf
      ensures pos <= next <= |lines| && lineNum <= BufNum
      ensures pos < |lines| ==> pos < next
      ensures next < |lines| ==> lineNum == BufNum
      ensures lineNum == BufNum ==> pos < next && Accepted(lines[next - 1])
      ensures puzzleBuf[..lineNum] == ParsedRows(lines[pos..next])
      ensures forall k :: lineNum <= k < BufNum ==> puzzleBuf[k] == old(puzzleBuf[k])
    {
      lineNum, next := 0, pos;
      ghost var parsed: seq<Row> := [];
      while next < |lines| && lineNum < BufNum
        invariant pos <= next <= |lines| && lineNum <= BufNum
        invariant lineNum == BufNum ==> pos < next && Accepted(lines[next - 1])
        invariant parsed == ParsedRows(lines[pos..next])
        invariant puzzleBuf[..lineNum] == parsed
        invariant forall k :: lineNum <= k < BufNum ==> puzzleBuf[k] == old(puzzleBuf[k])
      {
        ParsedRowsStep(lines, pos, next);
        parsed := parsed + if Accepted(lines[next]) then [ParseRow(lines[next])] else [];
        var line := lines[next];
        lineNum := ReadLine(lineNum, line);
        assert lineNum == BufNum ==> Accepted(line);
        next := next + 1;
        assert line == lines[next - 1];
      }
    }

    /** One pass of the inner reading loop: an accepted line fills row
        `lineNum` and is counted, any other line is skipped. */
    method ReadLine(lineNum: nat, line: Line) returns (count: nat)
      requires lineNum < puzzleBuf.Length
      modifies puzzleBuf
      ensures count == if Accepted(line) then lineNum + 1 else lineNum
      ensures puzzleBuf[..count] == old(puzzleBuf[..lineNum]) + if Accepted(line) then [ParseRow(line)] else []
      ensures forall k :: count <= k < puzzleBuf.Length ==> puzzleBuf[k] == old(puzzleBuf[k])
    {
      count := lineNum;
      AcceptedIff(line);
      if Strlen(Stored(line)) >= N {
        FillRow(lineNum, line);
        count := lineNum + 1;
      }
    }

    /** The loop `puzzle_buf[line_num][i] = one_puzzle[i] - 48` for `i < N`:
        row `lineNum` becomes the parsed line; the rows before it stay as
        they are and so do those after it. */
    method FillRow(lineNum: nat, line: Line)
      requires lineNum < puzzleBuf.Length
      requires |line| >= N
      modifies puzzleBuf
      ensures puzzleBuf[..lineNum + 1] == old(puzzleBuf[..lineNum]) + [ParseRow(line)]
      ensures forall k :: lineNum < k < puzzleBuf.Length ==> puzzleBuf[k] == old(puzzleBuf[k])
    {
      var cells: seq<int> := [];
      for i := 0 to N
        invariant cells == ParseRow(line)[..i]
      {
        cells := cells + [Cell(line[i])];
      }
      assert cells == ParseRow(line);
      puzzleBuf[lineNum] := cells;
      assert puzzleBuf[..lineNum + 1] == old(puzzleBuf[..lineNum]) + [ParseRow(line)];
    }

    /** The partition loop of `file_process`: `threadNum` tasks are
        submitted, task `i` for the rows of `Part(lineNum, threadNum, i)`,
        computed as the source does with a running `start`. */
    method Submit(lineNum: nat)
      requires Valid() && Idle() && !pool.stop
      requires threadNum >= 1
      modifies pool
      ensures Valid() && !pool.stop
      ensures pool.workers == old(pool.workers) && pool.taken == old(pool.taken)
      ensures pool.ready == old(pool.ready)
      ensures pool.tasks == Jobs(old(pool.nextTicket), Parts(lineNum, threadNum))
      ensures pool.submitted == old(pool.submitted) + pool.tasks
      ensures pool.nextTicket == old(pool.nextTicket) + threadNum
    {
      ghost var js := Jobs(pool.nextTicket, Parts(lineNum, threadNum));
      var start, end, len := 0, 0, (lineNum + threadNum) / threadNum;
      var i := 0;
      while i < threadNum
        invariant 0 <= i <= threadNum
        invariant start == i * len
        invariant pool.Valid() && !pool.stop && pool.workers == old(pool.workers)
        invariant pool.taken == old(pool.taken) && pool.ready == old(pool.ready)
        invariant pool.nextTicket == old(pool.nextTicket) + i
        invariant pool.tasks == js[..i]
        invariant pool.submitted == old(pool.submitted) + js[..i]
      {
        end := if start + len >= lineNum then lineNum else start + len;
        assert Range(start, end) == Part(lineNum, threadNum, i);
        var r := pool.Enqueue(Range(start, end));
        assert js[..i + 1] == js[..i] + [js[i]];
        start := start + len;
        i := i + 1;
      }
      assert js[..threadNum] == js;
    }

    /** Worker 0 takes the front task, runs `solve` on its range and
        returns to waiting, so that task's future becomes ready. */
    method RunFront(solver: Row -> Row)
      requires Valid() && |pool.workers| >= 1 && pool.workers[0] == Waiting
      requires pool.tasks != []
      requires pool.tasks[0].work.start < pool.tasks[0].work.end ==>
                 0 <= pool.tasks[0].work.start && pool.tasks[0].work.end <= BufNum
      modifies pool, puzzleBuf
      ensures Valid()
      ensures pool.workers == old(pool.workers) && pool.stop == old(pool.stop)
      ensures pool.nextTicket == old(pool.nextTicket) && pool.submitted == old(pool.submitted)
      ensures pool.tasks == old(pool.tasks)[1..]
      ensures pool.taken == old(pool.taken) + [old(pool.tasks)[0]]
      ensures pool.ready == old(pool.ready) + {old(pool.tasks)[0].ticket}
      ensures puzzleBuf[..] == ApplyRange(old(puzzleBuf[..]), old(pool.tasks)[0].work, solver)
    {
      var taken := pool.Step(0);
      var job := taken.job;
      Solve(job.work.start, job.work.end, solver);
      var completed := pool.Step(0);
      assert pool.workers == old(pool.workers);
    }

    /** Waiting for the futures of one buffer: worker 0 takes the queued
        tasks one by one and the driver runs what it takes, until the queue
        is empty.  The buffer then holds the queued ranges applied in queue
        order, and every future is ready. */
    method WaitAll(rs: seq<Range>, solver: Row -> Row)
      requires Valid() && |pool.workers| >= 1
      requires forall w :: 0 <= w < |pool.workers| ==> pool.workers[w] == Waiting
      requires pool.tasks == Jobs(|pool.taken|, rs)
      requires forall j :: 0 <= j < |rs| && rs[j].start < rs[j].end ==> 0 <= rs[j].start && rs[j].end <= BufNum
      modifies pool, puzzleBuf
      ensures Valid() && Idle()
      ensures pool.workers == old(pool.workers) && pool.stop == old(pool.stop)
      ensures pool.nextTicket == old(pool.nextTicket)
      ensures pool.submitted == old(pool.submitted) && pool.taken == pool.submitted
      ensures forall t :: 0 <= t < pool.nextTicket ==> t in pool.ready
      ensures puzzleBuf[..] == ApplyRanges(old(puzzleBuf[..]), rs, solver)
    {
      ghost var rows0 := puzzleBuf[..];
      ghost var taken0 := pool.taken;
      ghost var js := pool.tasks;
      ghost var k := 0;
      while pool.tasks != []
        invariant 0 <= k <= |rs|
        invariant Valid() && pool.workers == old(pool.workers) && pool.stop == old(pool.stop)
        invariant pool.nextTicket == old(pool.nextTicket) && pool.submitted == old(pool.submitted)
        invariant pool.taken == taken0 + js[..k]
        invariant pool.tasks == js[k..]
        invariant puzzleBuf[..] == ApplyRanges(rows0, rs[..k], solver)
        decreases |pool.tasks|
      {
        assert pool.tasks[0] == js[k] && js[k].work == rs[k];
        RunFront(solver);
        assert rs[..k + 1][..k] == rs[..k];
        assert js[..k + 1] == js[..k] + [js[k]];
        k := k + 1;
      }
      assert rs[..|rs|] == rs;
    }

    /** The partition and wait of `file_process` for one buffer of `lineNum`
        rows: `threadNum` tasks are submitted and waited for, after which
        exactly the first `lineNum` rows are solved.  The tasks are run in
        queue order here; `ApplyOrderIndependent` shows that any other order
        of these disjoint tasks leaves the same buffer. */
    method Dispatch(lineNum: nat, solver: Row -> Row)
      requires Valid() && Idle() && !pool.stop
      requires threadNum >= 1 && |pool.workers| >= 1
      requires lineNum <= BufNum
      modifies pool, puzzleBuf
      ensures Valid() && Idle() && !pool.stop
      ensures pool.workers == old(pool.workers)
      ensures pool.submitted == old(pool.submitted) + Jobs(old(pool.nextTicket), Parts(lineNum, threadNum))
      ensures pool.nextTicket == old(pool.nextTicket) + threadNum
      ensures forall t :: 0 <= t < pool.nextTicket ==> t in pool.ready
      ensures puzzleBuf[..lineNum] == Solved(old(puzzleBuf[..lineNum]), solver)
      ensures puzzleBuf[lineNum..] == old(puzzleBuf[lineNum..])
    {
      ghost var rows0 := puzzleBuf[..];
      var rs := Parts(lineNum, threadNum);
      assert pool.taken == pool.submitted;
      Submit(lineNum);
      forall j | 0 <= j < |rs| && rs[j].start < rs[j].end
        ensures 0 <= rs[j].start && rs[j].end <= BufNum
      {
        PartBounds(lineNum, threadNum, j);
      }
      WaitAll(rs, solver);
      ApplyParts(rows0, lineNum, threadNum, solver);
      assert puzzleBuf[..lineNum] == Solved(rows0[..lineNum], solver);
      assert puzzleBuf[lineNum..] == rows0[lineNum..];
    }

    /** One pass of the outer loop of `file_process`: fill the buffer from
        `pos` on, partition it, wait for its tasks and print it.  The bytes
        printed are the expected output of the lines read. */
    method ProcessBuffer(lines: seq<Line>, pos: nat, solver: Row -> Row) returns (printed: seq<byte>, next: nat)
      requires Valid() && Idle() && !pool.stop
      requires threadNum >= 1 && |pool.workers| >= 1
      requires pos < |lines|
      modifies pool, puzzleBuf
      ensures Valid() && Idle() && !pool.stop
      ensures pool.workers == old(pool.workers)
      ensures pos < next <= |lines|
      ensures printed == Expected(lines[pos..next], solver)
    {
      var lineNum;
      lineNum, next := ReadBuffer(lines, pos);
      Dispatch(lineNum, solver);
      printed := Print(lineNum);
    }

    /** `file_process` on a file whose `getline` results are `lines`: the
        buffer is filled, solved and printed again and again until every
        line is read.  The output is that of every accepted line solved and
        printed in input order, whatever the buffer boundaries. */
    method FileProcess(lines: seq<Line>, solver: Row -> Row) returns (out: seq<byte>)
      requires Valid() && Idle() && !pool.stop
      requires threadNum >= 1 && |pool.workers| >= 1
      modifies pool, puzzleBuf
      ensures Valid() && Idle() && !pool.stop
      ensures pool.workers == old(pool.workers)
      ensures out == Expected(lines, solver)
    {
      out := [];
      var pos := 0;
      while pos < |lines|
        invariant 0 <= pos <= |lines|
        invariant Valid() && Idle() && !pool.stop
        invariant pool.workers == old(pool.workers)
        invariant out == Expected(lines[..pos], solver)
      {
        var printed, next := ProcessBuffer(lines, pos, solver);
        ExpectedPrefix(lines, pos, next, solver);
        out := out + printed;
        pos := next;
      }
      assert lines[..|lines|] == lines;
    }
  }
}
