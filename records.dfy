/**
 * The record format of the batch driver in Source/sudoku_solve_threadpool.cc:
 * how one text line becomes one row of the puzzle buffer, and how one row is
 * written back out.
 *
 * A line is the byte string of one `getline` call, without its newline.  A C
 * `char` is taken to be signed, so a byte of 128 or more reads as a negative
 * number; `putchar` writes its argument converted to `unsigned char`, that
 * is modulo 256.
 */
module Records {

  newtype byte = x: int | 0 <= x < 256

  type Line = seq<byte>

  /** The number of cells per record, `N` of sudoku.h (a 9 x 9 grid). */
  const N: nat := 81

  /** The capacity of the puzzle buffer, `puzzle_buf_num`. */
  const BufNum: nat := 10240

  const NewLine: byte := 10

  /** One row of the puzzle buffer: exactly `N` cells. */
  type Row = r: seq<int> | |r| == N witness seq(N, _ => 0)

  /** A row of the zero-initialised global buffer. */
  const ZeroRow: Row := seq(N, _ => 0)

  /** The value of a byte read through a signed `char`. */
  function SignedChar(b: byte): int
  {
    if b < 128 then b as int else b as int - 256
  }

  /** One cell of a parsed row: `one_puzzle[i] - 48`. */
  function Cell(b: byte): int
  {
    SignedChar(b) - 48
  }

  /** The byte that `putchar(c)` writes. */
  function PutChar(c: int): byte
  {
    (c % 256) as byte
  }

  /** What `getline(one_puzzle, N + 1)` stores: at most `N` bytes of the line. */
  function Stored(line: Line): (s: Line)
    ensures |s| <= N && |s| <= |line|
    ensures s == line[..|s|]
    ensures |line| >= N ==> |s| == N
    ensures |line| < N ==> s == line
  {
    if |line| < N then line else line[..N]
  }

  /** C's `strlen`: the length up to the first NUL byte. */
  function Strlen(s: seq<byte>): (n: nat)
    ensures n <= |s|
    ensures forall i :: 0 <= i < n ==> s[i] != 0
    ensures n < |s| ==> s[n] == 0
  {
    if s == [] || s[0] == 0 then 0 else 1 + Strlen(s[1..])
  }

  /** A line the driver keeps: at least `N` bytes, none of the first `N`
      of them NUL. */
  predicate Accepted(line: Line)
  {
    |line| >= N && forall i :: 0 <= i < N ==> line[i] != 0
  }

  /** The driver's test `strlen(one_puzzle) >= N` on what `getline` stored
      holds exactly for the accepted lines. */
  lemma AcceptedIff(line: Line)
    ensures Strlen(Stored(line)) >= N <==> Accepted(line)
  {
    var s := Stored(line);
    if Strlen(s) >= N {
      assert |s| == N;
      forall i | 0 <= i < N ensures line[i] != 0 {
        assert s[i] == line[i];
      }
    }
    if Accepted(line) {
      assert s == line[..N];
      forall i | 0 <= i < |s| ensures s[i] != 0 {
        assert s[i] == line[i];
      }
    }
  }

  /** The row that an accepted line fills: `line[i] - 48` for each `i < N`. */
  function ParseRow(line: Line): Row
    requires |line| >= N
  {
    seq(N, i requires 0 <= i < N => Cell(line[i]))
  }

  /** The bytes that `print` writes for one row: `'0' + cell` for each cell,
      then a newline. */
  function PrintRow(row: Row): seq<byte>
  {
    seq(N, j requires 0 <= j < N => PutChar(48 + row[j])) + [NewLine]
  }

  /** The bytes written for a sequence of rows, in row order. */
  function PrintRows(rows: seq<Row>): (out: seq<byte>)
    ensures |out| == |rows| * (N + 1)
  {
    if rows == [] then [] else PrintRows(rows[..|rows| - 1]) + PrintRow(rows[|rows| - 1])
  }

  /** The rows that a sequence of lines fills, skipping the lines that are
      not accepted. */
  function ParsedRows(lines: seq<Line>): (rows: seq<Row>)
    ensures |rows| <= |lines|
  {
    if lines == [] then []
    else
      var last := lines[|lines| - 1];
      ParsedRows(lines[..|lines| - 1]) + if Accepted(last) then [ParseRow(last)] else []
  }

  /** Every row of a buffer after the opaque solver has run on it. */
  function Solved(rows: seq<Row>, solver: Row -> Row): (r: seq<Row>)
  {
    seq(|rows|, i requires 0 <= i < |rows| => solver(rows[i]))
  }

  /** The output a file of lines should produce: every accepted line parsed,
      solved and printed, in input order. */
  function Expected(lines: seq<Line>, solver: Row -> Row): seq<byte>
  {
    PrintRows(Solved(ParsedRows(lines), solver))
  }

  /** The output the identity solver should produce: each accepted line's
      first `N` bytes followed by a newline. */
  function Echo(lines: seq<Line>): seq<byte>
  {
    if lines == [] then []
    else
      var last := lines[|lines| - 1];
      Echo(lines[..|lines| - 1]) + if Accepted(last) then last[..N] + [NewLine] else []
  }

  /** Round trip: parsing a line and printing the row gives back its first
      `N` bytes (whatever they are, digits or not) and a newline. */
  lemma RoundTrip(line: Line)
    requires |line| >= N
    ensures PrintRow(ParseRow(line)) == line[..N] + [NewLine]
  {
    var row := ParseRow(line);
    forall j | 0 <= j < N ensures PutChar(48 + row[j]) == line[j] {
      var b := line[j];
      assert 48 + row[j] == SignedChar(b);
      if b >= 128 {
        assert (b as int - 256) % 256 == b as int;
      }
    }
  }

  /** A digit line yields the cell values 0 to 9, each the digit's value. */
  lemma DigitCells(line: Line)
    requires |line| >= N
    requires forall i :: 0 <= i < N ==> 48 <= line[i] <= 57
    ensures Accepted(line) && Strlen(Stored(line)) >= N
    ensures forall i :: 0 <= i < N ==> ParseRow(line)[i] == line[i] as int - 48
    ensures forall i :: 0 <= i < N ==> 0 <= ParseRow(line)[i] <= 9
  {
    AcceptedIff(line);
  }

  lemma {:induction false} ParsedRowsAppend(a: seq<Line>, b: seq<Line>)
    ensures ParsedRows(a + b) == ParsedRows(a) + ParsedRows(b)
    decreases |b|
  {
    if b == [] {
      assert a + b == a;
    } else {
      var b' := b[..|b| - 1];
      assert (a + b)[..|a + b| - 1] == a + b';
      assert (a + b)[|a + b| - 1] == b[|b| - 1];
      ParsedRowsAppend(a, b');
    }
  }

  lemma {:induction false} PrintRowsAppend(a: seq<Row>, b: seq<Row>)
    ensures PrintRows(a + b) == PrintRows(a) + PrintRows(b)
    decreases |b|
  {
    if b == [] {
      assert a + b == a;
    } else {
      var b' := b[..|b| - 1];
      assert (a + b)[..|a + b| - 1] == a + b';
      assert (a + b)[|a + b| - 1] == b[|b| - 1];
      PrintRowsAppend(a, b');
    }
  }

  /** Output is produced line by line: the output of a file is the output of
      any first part followed by the output of the rest. */
  lemma ExpectedAppend(a: seq<Line>, b: seq<Line>, solver: Row -> Row)
    ensures Expected(a + b, solver) == Expected(a, solver) + Expected(b, solver)
  {
    ParsedRowsAppend(a, b);
    var ra, rb := ParsedRows(a), ParsedRows(b);
    SolvedAppend(ra, rb, solver);
    PrintRowsAppend(Solved(ra, solver), Solved(rb, solver));
  }

  lemma SolvedAppend(ra: seq<Row>, rb: seq<Row>, solver: Row -> Row)
    ensures Solved(ra + rb, solver) == Solved(ra, solver) + Solved(rb, solver)
  {
    var l, r := Solved(ra + rb, solver), Solved(ra, solver) + Solved(rb, solver);
    assert |l| == |r|;
    forall i | 0 <= i < |l| ensures l[i] == r[i] {
      if i < |ra| {
        assert (ra + rb)[i] == ra[i];
      } else {
        assert (ra + rb)[i] == rb[i - |ra|];
      }
    }
  }

  /** With the identity solver the batch echoes every accepted line. */
  lemma {:induction false} IdentityEcho(lines: seq<Line>)
    ensures Expected(lines, x => x) == Echo(lines)
    decreases |lines|
  {
    if lines != [] {
      var init, last := lines[..|lines| - 1], lines[|lines| - 1];
      assert lines == init + [last];
      IdentityEcho(init);
      ExpectedAppend(init, [last], x => x);
      assert [last][..0] == [];
      if Accepted(last) {
        RoundTrip(last);
        assert ParsedRows([last]) == [ParseRow(last)];
        assert Solved([ParseRow(last)], x => x) == [ParseRow(last)];
        assert PrintRows([ParseRow(last)]) == PrintRow(ParseRow(last));
      } else {
        assert ParsedRows([last]) == [];
      }
    }
  }

  /** Reading one more line adds its row when it is accepted. */
  lemma ParsedRowsStep(lines: seq<Line>, pos: nat, next: nat)
    requires pos <= next < |lines|
    ensures ParsedRows(lines[pos..next + 1])
         == ParsedRows(lines[pos..next]) + if Accepted(lines[next]) then [ParseRow(lines[next])] else []
  {
    var s := lines[pos..next + 1];
    assert s[..|s| - 1] == lines[pos..next];
    assert s[|s| - 1] == lines[next];
  }

  lemma ExpectedPrefix(lines: seq<Line>, pos: nat, next: nat, solver: Row -> Row)
    requires pos <= next <= |lines|
    ensures Expected(lines[..next], solver) == Expected(lines[..pos], solver) + Expected(lines[pos..next], solver)
  {
    assert lines[..next] == lines[..pos] + lines[pos..next];
    ExpectedAppend(lines[..pos], lines[pos..next], solver);
  }
}
