/**
 * How the batch driver of Source/sudoku_solve_threadpool.cc splits one
 * buffer of `n` rows among `w` tasks, and what running the opaque solver on
 * a set of row ranges does to the buffer.
 *
 * The chunk length is `(n + w) / w`, which is `n / w + 1` and not the
 * ceiling of `n / w`: for `n = 24, w = 4` it is 7.  Range `i` starts at
 * `i * len` and ends at `n` once `start + len >= n`; a range that starts at
 * or after `n` is empty but is still submitted.
 */
module Partition {
  import opened Records

  /** The rows `[start, end)` one task solves. */
  datatype Range = Range(start: int, end: int)

  predicate InRange(rg: Range, k: int)
  {
    rg.start <= k < rg.end
  }

  /** The chunk length `(line_num + thread_num) / thread_num`. */
  function ChunkLen(n: nat, w: nat): nat
    requires w >= 1
  {
    (n + w) / w
  }

  /** The range of task `i`: `[i * len, min(i * len + len, n))`, with the end
      written as the driver's conditional. */
  function Part(n: nat, w: nat, i: nat): Range
    requires w >= 1
  {
    var len := ChunkLen(n, w);
    var start := i * len;
    Range(start, if start + len >= n then n else start + len)
  }

  /** The `w` ranges submitted for one buffer, in submission order. */
  function Parts(n: nat, w: nat): (rs: seq<Range>)
    requires w >= 1
  {
    seq(w, i requires 0 <= i < w => Part(n, w, i))
  }

  /** The chunk is at least one row and `w` chunks hold more than `n` rows. */
  lemma ChunkLenBounds(n: nat, w: nat)
    requires w >= 1
    ensures ChunkLen(n, w) >= 1
    ensures ChunkLen(n, w) * w > n
    ensures ChunkLen(n, w) == n / w + 1
  {
    var q, r := (n + w) / w, (n + w) % w;
    assert n + w == q * w + r && 0 <= r < w;
    assert n == (q - 1) * w + r;
    DivUnique(n, w, q - 1, r);
  }

  lemma DivUnique(n: int, w: int, q: int, r: int)
    requires w >= 1 && 0 <= r < w && n == q * w + r
    ensures n / w == q
  {
    var q', r' := n / w, n % w;
    assert n == q' * w + r' && 0 <= r' < w;
    assert (q - q') * w == r' - r;
    if q > q' {
      MulAtLeast(q - q', w);
    } else if q < q' {
      MulAtLeast(q' - q, w);
    }
  }

  lemma MulAtLeast(a: int, b: int)
    requires a >= 1 && b >= 0
    ensures a * b >= b
  {
    assert a * b == b + (a - 1) * b;
  }

  /** Every range lies inside `[0, n)` when it is not empty, and a range
      starting at or after `n` is empty. */
  lemma PartBounds(n: nat, w: nat, i: nat)
    requires w >= 1
    ensures 0 <= Part(n, w, i).start
    ensures Part(n, w, i).end <= n
    ensures Part(n, w, i).start >= n ==> Part(n, w, i).end <= Part(n, w, i).start
    ensures Part(n, w, i).start < n ==> Part(n, w, i).start < Part(n, w, i).end
  {
    ChunkLenBounds(n, w);
  }

  /** Range `i + 1` starts where range `i` would end without clipping, so
      range `i` ends where range `i + 1` starts, or at `n`. */
  lemma PartsContiguous(n: nat, w: nat, i: nat)
    requires w >= 1
    ensures Part(n, w, i + 1).start == Part(n, w, i).start + ChunkLen(n, w)
    ensures Part(n, w, i).end == if Part(n, w, i + 1).start >= n then n else Part(n, w, i + 1).start
  {
    var len := ChunkLen(n, w);
    assert (i + 1) * len == i * len + len;
  }

  /** Earlier ranges end before later ones start, so no two ranges share a row. */
  lemma {:induction false} PartsOrdered(n: nat, w: nat, i: nat, j: nat)
    requires w >= 1
    requires i < j
    ensures Part(n, w, i).end <= Part(n, w, j).start
    decreases j - i
  {
    var len := ChunkLen(n, w);
    PartsContiguous(n, w, i);
    if i + 1 < j {
      PartsOrdered(n, w, i + 1, j);
      PartBounds(n, w, i + 1);
    }
  }

  /** Every row below `n` lies in exactly one of the `w` ranges. */
  lemma PartsCover(n: nat, w: nat, k: nat)
    requires w >= 1
    requires k < n
    ensures exists i :: 0 <= i < w && InRange(Part(n, w, i), k)
    ensures forall i, j :: 0 <= i < w && 0 <= j < w && InRange(Part(n, w, i), k) && InRange(Part(n, w, j), k) ==> i == j
  {
    var i := PartOf(n, w, k);
    forall i, j | 0 <= i < w && 0 <= j < w && InRange(Part(n, w, i), k) && InRange(Part(n, w, j), k)
      ensures i == j
    {
      PartsUnique(n, w, k, i, j);
    }
  }

  /** The range holding row `k` is range `k / len`. */
  lemma PartOf(n: nat, w: nat, k: nat) returns (i: nat)
    requires w >= 1
    requires k < n
    ensures i == k / ChunkLen(n, w)
    ensures i < w && InRange(Part(n, w, i), k)
  {
    var len := ChunkLen(n, w);
    ChunkLenBounds(n, w);
    i := k / len;
    var r := k % len;
    assert k == i * len + r && 0 <= r < len;
    if i >= w {
      MulMono(w, i, len);
    }
  }

  lemma MulMono(a: int, b: int, c: int)
    requires 0 <= a <= b && c >= 0
    ensures a * c <= b * c
  {
    if a < b {
      MulAtLeast(b - a, c);
      assert b * c == a * c + (b - a) * c;
    }
  }

  lemma PartsUnique(n: nat, w: nat, k: int, i: nat, j: nat)
    requires w >= 1
    requires InRange(Part(n, w, i), k) && InRange(Part(n, w, j), k)
    ensures i == j
  {
    if i < j {
      PartsOrdered(n, w, i, j);
    } else if j < i {
      PartsOrdered(n, w, j, i);
    }
  }

  /** Only the rows below `n` are covered by some range. */
  lemma PartsWithin(n: nat, w: nat, k: int, i: nat)
    requires w >= 1
    requires InRange(Part(n, w, i), k)
    ensures 0 <= k < n
  {
    PartBounds(n, w, i);
  }

  /** The two cases worked out: 25 rows on 4 workers, 2 rows on 8 workers. */
  lemma PartsExamples()
    ensures ChunkLen(24, 4) == 7
    ensures Parts(25, 4) == [Range(0, 7), Range(7, 14), Range(14, 21), Range(21, 25)]
    ensures ChunkLen(2, 8) == 1
    ensures Parts(2, 8) == [Range(0, 1), Range(1, 2), Range(2, 2), Range(3, 2),
                            Range(4, 2), Range(5, 2), Range(6, 2), Range(7, 2)]
  {
    assert Parts(25, 4)[3] == Range(21, 25);
  }

  /** What `solve(start, end)` does to the buffer: each row of the range is
      replaced with the solver's result; all other rows stay as they are. */
  function ApplyRange(rows: seq<Row>, rg: Range, solver: Row -> Row): (r: seq<Row>)
    ensures |r| == |rows|
  {
    seq(|rows|, k requires 0 <= k < |rows| => if InRange(rg, k) then solver(rows[k]) else rows[k])
  }

  /** Running the tasks of `rs` one after another, in that order. */
  function ApplyRanges(rows: seq<Row>, rs: seq<Range>, solver: Row -> Row): (r: seq<Row>)
    ensures |r| == |rows|
    decreases |rs|
  {
    if rs == [] then rows
    else ApplyRange(ApplyRanges(rows, rs[..|rs| - 1], solver), rs[|rs| - 1], solver)
  }

  /** Two ranges share at least one row. */
  predicate Overlap(a: Range, b: Range)
  {
    a.start < a.end && b.start < b.end && a.start < b.end && b.start < a.end
  }

  predicate PairwiseDisjoint(rs: seq<Range>)
  {
    forall i, j :: 0 <= i < j < |rs| ==> !Overlap(rs[i], rs[j])
  }

  predicate Covered(rs: seq<Range>, k: int)
  {
    exists j :: 0 <= j < |rs| && InRange(rs[j], k)
  }

  /** For disjoint ranges, each covered row has had the solver applied
      exactly once and every other row is unchanged. */
  lemma {:induction false} ApplyDisjoint(rows: seq<Row>, rs: seq<Range>, solver: Row -> Row, k: nat)
    requires PairwiseDisjoint(rs)
    requires k < |rows|
    ensures ApplyRanges(rows, rs, solver)[k] == if Covered(rs, k) then solver(rows[k]) else rows[k]
    decreases |rs|
  {
    if rs != [] {
      var init, last := rs[..|rs| - 1], rs[|rs| - 1];
      assert PairwiseDisjoint(init) by {
        forall i, j | 0 <= i < j < |init| ensures !Overlap(init[i], init[j]) {
          assert init[i] == rs[i] && init[j] == rs[j];
        }
      }
      ApplyDisjoint(rows, init, solver, k);
      if InRange(last, k) {
        if Covered(init, k) {
          var j :| 0 <= j < |init| && InRange(init[j], k);
          assert Overlap(rs[j], rs[|rs| - 1]);
          assert false;
        }
        assert Covered(rs, k);
      } else {
        if Covered(rs, k) {
          var j :| 0 <= j < |rs| && InRange(rs[j], k);
          assert j < |rs| - 1 && init[j] == rs[j];
        }
        if Covered(init, k) {
          var j :| 0 <= j < |init| && InRange(init[j], k);
          assert rs[j] == init[j];
        }
      }
    }
  }

  /** Disjoint tasks may run in any order: two orders of the same disjoint
      ranges leave the same buffer. */
  lemma ApplyOrderIndependent(rows: seq<Row>, rs1: seq<Range>, rs2: seq<Range>, solver: Row -> Row)
    requires PairwiseDisjoint(rs1) && PairwiseDisjoint(rs2)
    requires forall x :: x in rs1 <==> x in rs2
    ensures ApplyRanges(rows, rs1, solver) == ApplyRanges(rows, rs2, solver)
  {
    forall k | 0 <= k < |rows|
      ensures ApplyRanges(rows, rs1, solver)[k] == ApplyRanges(rows, rs2, solver)[k]
    {
      ApplyDisjoint(rows, rs1, solver, k);
      ApplyDisjoint(rows, rs2, solver, k);
      if Covered(rs1, k) {
        var j :| 0 <= j < |rs1| && InRange(rs1[j], k);
        assert rs1[j] in rs2;
      }
      if Covered(rs2, k) {
        var j :| 0 <= j < |rs2| && InRange(rs2[j], k);
        assert rs2[j] in rs1;
      }
    }
  }

  /** The submitted ranges never overlap. */
  lemma PartsDisjoint(n: nat, w: nat)
    requires w >= 1
    ensures PairwiseDisjoint(Parts(n, w))
  {
    var rs := Parts(n, w);
    forall i, j | 0 <= i < j < |rs| ensures !Overlap(rs[i], rs[j]) {
      PartsOrdered(n, w, i, j);
    }
  }

  /** Running all `w` tasks of a buffer solves exactly its first `n` rows. */
  lemma ApplyParts(rows: seq<Row>, n: nat, w: nat, solver: Row -> Row)
    requires w >= 1
    requires n <= |rows|
    ensures ApplyRanges(rows, Parts(n, w), solver)
         == seq(|rows|, k requires 0 <= k < |rows| => if k < n then solver(rows[k]) else rows[k])
  {
    var rs := Parts(n, w);
    PartsDisjoint(n, w);
    forall k | 0 <= k < |rows|
      ensures ApplyRanges(rows, rs, solver)[k] == if k < n then solver(rows[k]) else rows[k]
    {
      ApplyDisjoint(rows, rs, solver, k);
      if k < n {
        PartsCover(n, w, k);
        var i :| 0 <= i < w && InRange(Part(n, w, i), k);
        assert InRange(rs[i], k);
      }
    }
  }
}
