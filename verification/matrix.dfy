/**
  Matrix ingestion: `read_matrix` and `normalize_matrix` in
  src/initialize.cpp (lines 1203-1278).

  The file is given as the integers it holds, whether whitespace follows the
  last one, and whether the stream reported a hard read error. Square roots
  are taken in exact integer arithmetic. Of the vertex a cell becomes, only
  its cell, colour and whether its depth is flattened are modelled; the
  floating-point x/y/z formulas are not.
*/
module Matrix {
  import opened Wrappers

  datatype MatrixFile =
    | Unopenable
    | Opened(tokens: seq<int>, trailingSpace: bool, badRead: bool)

  // ---------------------------------------------------------------------------
  // Integer square root

  /** The floor of the square root of `n`. */
  function ISqrt(n: nat): (r: nat)
    ensures r * r <= n < (r + 1) * (r + 1)
  {
    if n == 0 then 0
    else
      var s := ISqrt(n - 1);
      if (s + 1) * (s + 1) <= n then s + 1 else s
  }

  ghost predicate IsSquare(n: nat) {
    exists m: nat :: m * m == n
  }

  lemma SquareMonotone(a: nat, b: nat)
    requires a <= b
    ensures a * a <= b * b
  {
    assert a * a <= a * b <= b * b;
  }

  /** The root test `trunc * trunc == size` of initialize.cpp:1225-1228 accepts exactly the perfect squares. */
  lemma ISqrtDecidesSquare(n: nat)
    ensures ISqrt(n) * ISqrt(n) == n <==> IsSquare(n)
  {
    var r := ISqrt(n);
    if IsSquare(n) {
      var m: nat :| m * m == n;
      if m < r {
        SquareMonotone(m + 1, r);
      } else if m > r {
        SquareMonotone(r + 1, m);
      }
    }
  }

  /** The side of a square count, or nothing when the count is not a perfect square. */
  function SquareSide(k: nat): (r: Option<nat>)
    ensures r.Some? ==> r.value * r.value == k
  {
    var n := ISqrt(k);
    if n * n != k then None else Some(n)
  }

  lemma SquareSideDecides(k: nat)
    ensures SquareSide(k).Some? <==> IsSquare(k)
  {
    ISqrtDecidesSquare(k);
  }

  lemma SquareSideOf(m: nat)
    ensures SquareSide(m * m) == Some(m)
  {
    var r := ISqrt(m * m);
    if m < r {
      SquareMonotone(m + 1, r);
    } else if m > r {
      SquareMonotone(r + 1, m);
    }
  }

  // ---------------------------------------------------------------------------
  // read_matrix

  /**
    The integers the read loop keeps (initialize.cpp:1213-1220): extraction
    that runs into end-of-file sets eofbit even when it produced a number, and
    the loop breaks before storing it, so a last integer with no whitespace
    after it is dropped.
  */
  function TokensRead(tokens: seq<int>, trailingSpace: bool): (r: seq<int>)
    ensures r <= tokens
    ensures |r| == if trailingSpace || |tokens| == 0 then |tokens| else |tokens| - 1
  {
    if trailingSpace || |tokens| == 0 then tokens else tokens[..|tokens| - 1]
  }

  /** `k` rows of width `w` cut from `linear` in order (initialize.cpp:1230-1241). */
  function Rows(linear: seq<int>, w: nat, k: nat): (d: seq<seq<int>>)
    requires |linear| == k * w
    ensures |d| == k
    ensures forall i :: 0 <= i < k ==> |d[i]| == w
    decreases k
  {
    if k == 0 then []
    else
      assert |linear[w..]| == (k - 1) * w;
      [linear[..w]] + Rows(linear[w..], w, k - 1)
  }

  /** Cell `j` of row `i` is the integer at `i*w+j`: the row/col walk of initialize.cpp:1234-1241. */
  lemma {:induction false} RowsIndex(linear: seq<int>, w: nat, k: nat, i: nat, j: nat)
    requires |linear| == k * w && i < k && j < w
    ensures i * w + j < |linear|
    ensures Rows(linear, w, k)[i][j] == linear[i * w + j]
    decreases i
  {
    assert |linear[w..]| == (k - 1) * w;
    if i > 0 {
      RowsIndex(linear[w..], w, k - 1, i - 1, j);
      assert (i - 1) * w + j + w == i * w + j;
    }
  }

  lemma RowsIndexAll(linear: seq<int>, w: nat, k: nat, d: seq<seq<int>>)
    requires |linear| == k * w && d == Rows(linear, w, k)
    ensures forall i, j :: 0 <= i < k && 0 <= j < w ==> i * w + j < |linear| && d[i][j] == linear[i * w + j]
  {
    forall i, j | 0 <= i < k && 0 <= j < w
      ensures i * w + j < |linear| && d[i][j] == linear[i * w + j]
    {
      RowsIndex(linear, w, k, i, j);
    }
  }

  /** Concatenation of the rows, the inverse of `Rows`. */
  function Flatten(d: seq<seq<int>>): (r: seq<int>)
    decreases |d|
  {
    if |d| == 0 then [] else d[0] + Flatten(d[1..])
  }

  /** The row-major fill of initialize.cpp:1230-1241: `d[i][j] == linear[i*n+j]`. */
  function Fill(linear: seq<int>, n: nat): (d: seq<seq<int>>)
    requires |linear| == n * n
    ensures |d| == n
    ensures forall i :: 0 <= i < n ==> |d[i]| == n
    ensures forall i, j :: 0 <= i < n && 0 <= j < n ==> i * n + j < |linear| && d[i][j] == linear[i * n + j]
  {
    var d := Rows(linear, n, n);
    RowsIndexAll(linear, n, n, d);
    d
  }

  /** The square test of initialize.cpp:1225-1228 followed by the fill. */
  function SquareMatrix(linear: seq<int>): (r: Option<seq<seq<int>>>)
    ensures r.Some? <==> SquareSide(|linear|).Some?
    ensures r.Some? ==> |r.value| * |r.value| == |linear| && r.value == Fill(linear, |r.value|)
  {
    match SquareSide(|linear|)
    case None => None
    case Some(n) => Some(Fill(linear, n))
  }

  /**
    `read_matrix` (initialize.cpp:1205-1243): fails on a null output, an
    unopenable file, a hard read error, or a count of integers that is not a
    perfect square; otherwise an n x n matrix filled row by row.
  */
  function ReadMatrix(hasOutput: bool, f: MatrixFile): (r: Option<seq<seq<int>>>)
    ensures r.Some? <==> hasOutput && f.Opened? && !f.badRead && SquareSide(|TokensRead(f.tokens, f.trailingSpace)|).Some?
    ensures r.Some? ==> r == SquareMatrix(TokensRead(f.tokens, f.trailingSpace))
  {
    if !hasOutput then None
    else match f
      case Unopenable => None
      case Opened(tokens, trailingSpace, badRead) =>
        if badRead then None
        else
          SquareMatrix(TokensRead(tokens, trailingSpace))
  }

  /** A matrix is read exactly when the stored integers number a perfect square, 0 included. */
  lemma ReadMatrixAcceptsSquares(hasOutput: bool, f: MatrixFile)
    ensures ReadMatrix(hasOutput, f).Some? <==>
      hasOutput && f.Opened? && !f.badRead && IsSquare(|TokensRead(f.tokens, f.trailingSpace)|)
  {
    if f.Opened? {
      SquareSideDecides(|TokensRead(f.tokens, f.trailingSpace)|);
    }
  }

  lemma {:induction false} FlattenRows(linear: seq<int>, w: nat, k: nat)
    requires |linear| == k * w
    ensures Flatten(Rows(linear, w, k)) == linear
    decreases k
  {
    if k > 0 {
      assert |linear[w..]| == (k - 1) * w;
      FlattenRows(linear[w..], w, k - 1);
      assert linear == linear[..w] + linear[w..];
    }
  }

  /** Flattening a read matrix gives back, in order, every integer the loop stored. */
  lemma ReadThenFlatten(hasOutput: bool, f: MatrixFile)
    requires ReadMatrix(hasOutput, f).Some?
    ensures Flatten(ReadMatrix(hasOutput, f).value) == TokensRead(f.tokens, f.trailingSpace)
  {
    var linear := TokensRead(f.tokens, f.trailingSpace);
    var n := SquareSide(|linear|).value;
    FlattenRows(linear, n, n);
  }

  // ---------------------------------------------------------------------------
  // normalize_matrix

  datatype Cell = Cell(row: nat, col: nat, value: int)

  datatype Colour = Colour(r: real, g: real, b: real, a: real)

  /**
    The z coordinate: 0 in compress mode; otherwise computed in floating point
    from the cell value and `depthMax`, which this model does not evaluate.
  */
  datatype Depth = Flat | Scaled(value: int, depthMax: int)

  datatype Vertex = Vertex(cell: Cell, depth: Depth, colour: Colour)

  function RowCells(i: nat, row: seq<int>): (r: seq<Cell>)
    ensures |r| == |row|
    ensures forall j :: 0 <= j < |row| ==> r[j] == Cell(i, j, row[j])
  {
    seq(|row|, j requires 0 <= j < |row| => Cell(i, j, row[j]))
  }

  /** One entry per matrix cell, rows in order (initialize.cpp:1254-1257). */
  function Cells(m: seq<seq<int>>): (r: seq<Cell>)
    ensures forall c :: c in r <==> c.row < |m| && c.col < |m[c.row]| && c.value == m[c.row][c.col]
    decreases |m|
  {
    if |m| == 0 then []
    else
      var last := |m| - 1;
      var front := Cells(m[..last]);
      assert forall i :: 0 <= i < last ==> m[..last][i] == m[i];
      front + RowCells(last, m[last])
  }

  /** A square matrix has n*n cells. */
  lemma {:induction false} CellCount(m: seq<seq<int>>, n: nat)
    requires forall i :: 0 <= i < |m| ==> |m[i]| == n
    ensures |Cells(m)| == |m| * n
    decreases |m|
  {
    if |m| > 0 {
      CellCount(m[..|m| - 1], n);
    }
  }

  predicate SortedByValue(s: seq<Cell>) {
    forall i, j :: 0 <= i < j < |s| ==> s[i].value <= s[j].value
  }

  function Insert(c: Cell, s: seq<Cell>): (r: seq<Cell>)
    requires SortedByValue(s)
    ensures SortedByValue(r)
    ensures multiset(r) == multiset(s) + multiset{c}
    ensures |r| == |s| + 1
    ensures r[0] == c || (|s| > 0 && r[0] == s[0])
  {
    if |s| == 0 then [c]
    else if c.value <= s[0].value then [c] + s
    else
      var rest := Insert(c, s[1..]);
      assert s == [s[0]] + s[1..];
      assert s[0].value <= rest[0].value;
      [s[0]] + rest
  }

  /**
    The ascending sort of initialize.cpp:1259-1260. `std::sort` is not stable,
    so only the order of values and the permutation are stated.
  */
  function SortByValue(s: seq<Cell>): (r: seq<Cell>)
    ensures SortedByValue(r)
    ensures multiset(r) == multiset(s)
  {
    if |s| == 0 then []
    else
      assert s == [s[0]] + s[1..];
      Insert(s[0], SortByValue(s[1..]))
  }

  /** `depth_max` (initialize.cpp:1265-1268): starts at 0 and takes any larger value. */
  function DepthMax(cells: seq<Cell>): (r: int)
    ensures r >= 0
    ensures forall i :: 0 <= i < |cells| ==> cells[i].value <= r
    ensures r == 0 || exists i :: 0 <= i < |cells| && cells[i].value == r
  {
    if |cells| == 0 then 0
    else
      var rest := DepthMax(cells[1..]);
      assert forall i :: 1 <= i < |cells| ==> cells[i] == cells[1..][i - 1];
      if cells[0].value > rest then cells[0].value else rest
  }

  /** `depth_max` depends only on which values occur, not on their order. */
  lemma DepthMaxOrderFree(a: seq<Cell>, b: seq<Cell>)
    requires multiset(a) == multiset(b)
    ensures DepthMax(a) == DepthMax(b)
  {
    DepthMaxAtMost(a, b);
    DepthMaxAtMost(b, a);
  }

  lemma DepthMaxAtMost(a: seq<Cell>, b: seq<Cell>)
    requires multiset(a) == multiset(b)
    ensures DepthMax(a) <= DepthMax(b)
  {
    var x := DepthMax(a);
    if x != 0 {
      var i :| 0 <= i < |a| && a[i].value == x;
      assert a[i] in multiset(b);
      var j :| 0 <= j < |b| && b[j] == a[i];
    }
  }

  function ToVertex(c: Cell, compress: bool, depthMax: int, colour: Colour): Vertex {
    Vertex(c, if compress then Flat else Scaled(c.value, depthMax), colour)
  }

  function CellsOf(vs: seq<Vertex>): (r: seq<Cell>)
    ensures |r| == |vs|
    ensures forall i :: 0 <= i < |vs| ==> r[i] == vs[i].cell
  {
    seq(|vs|, i requires 0 <= i < |vs| => vs[i].cell)
  }

  /** One vertex per cell, in the cells' order. */
  function ToVertices(cells: seq<Cell>, compress: bool, depthMax: int, colour: Colour): (out: seq<Vertex>)
    ensures |out| == |cells|
    ensures forall i :: 0 <= i < |cells| ==>
      && out[i].cell == cells[i]
      && out[i].colour == colour
      && out[i].depth == (if compress then Flat else Scaled(cells[i].value, depthMax))
  {
    seq(|cells|, i requires 0 <= i < |cells| => ToVertex(cells[i], compress, depthMax, colour))
  }

  /**
    `normalize_matrix` (initialize.cpp:1245-1278): one vertex per cell, in
    non-decreasing order of value, every one coloured (r, g, b, 1), with a
    flat depth in compress mode.
  */
  function NormalizeMatrix(m: seq<seq<int>>, compress: bool, r: real, g: real, b: real): (out: seq<Vertex>)
    ensures multiset(CellsOf(out)) == multiset(Cells(m))
    ensures |out| == |Cells(m)|
    ensures forall i, j :: 0 <= i < j < |out| ==> out[i].cell.value <= out[j].cell.value
    ensures forall i :: 0 <= i < |out| ==> out[i].colour == Colour(r, g, b, 1.0)
    ensures compress ==> forall i :: 0 <= i < |out| ==> out[i].depth == Flat
    ensures !compress ==> forall i :: 0 <= i < |out| ==> out[i].depth.Scaled? && out[i].depth.depthMax >= out[i].cell.value
    ensures !compress ==> forall i :: 0 <= i < |out| ==> out[i].depth == Scaled(out[i].cell.value, DepthMax(Cells(m)))
  {
    var ordered := SortByValue(Cells(m));
    var depthMax := DepthMax(ordered);
    var out := ToVertices(ordered, compress, depthMax, Colour(r, g, b, 1.0));
    assert CellsOf(out) == ordered;
    DepthMaxOrderFree(ordered, Cells(m));
    assert |ordered| == |Cells(m)| by {
      assert |multiset(ordered)| == |multiset(Cells(m))|;
    }
    out
  }

  /** Every cell of a read n x n matrix becomes exactly one vertex. */
  lemma OneVertexPerCell(hasOutput: bool, f: MatrixFile, compress: bool, r: real, g: real, b: real)
    requires ReadMatrix(hasOutput, f).Some?
    ensures var d := ReadMatrix(hasOutput, f).value;
      |NormalizeMatrix(d, compress, r, g, b)| == |TokensRead(f.tokens, f.trailingSpace)|
  {
    var d := ReadMatrix(hasOutput, f).value;
    CellCount(d, |d|);
  }

  /** When no cell is positive the scale `depth_max` is 0, so unflattened depths divide by zero. */
  lemma NonPositiveCellsZeroScale(m: seq<seq<int>>, r: real, g: real, b: real)
    requires forall i, j :: 0 <= i < |m| && 0 <= j < |m[i]| ==> m[i][j] <= 0
    ensures forall i :: 0 <= i < |NormalizeMatrix(m, false, r, g, b)| ==>
      NormalizeMatrix(m, false, r, g, b)[i].depth.depthMax == 0
  {
    var out := NormalizeMatrix(m, false, r, g, b);
    var ordered := SortByValue(Cells(m));
    forall i | 0 <= i < |ordered| ensures ordered[i].value <= 0 {
      assert ordered[i] in multiset(Cells(m));
    }
  }

  // ---------------------------------------------------------------------------
  // Finding: the last integer is dropped when the file does not end in whitespace

  /** As written, "1 2 3 4" with no trailing newline is not a 2 x 2 matrix, and "1 2 3 4 5" is one. */
  lemma AsWrittenDropsLastInteger()
    ensures ReadMatrix(true, Opened([1, 2, 3, 4], false, false)).None?
    ensures ReadMatrix(true, Opened([1, 2, 3, 4, 5], false, false)) == Some([[1, 2], [3, 4]])
  {
    SquareSideDecides(3);
    if IsSquare(3) {
      var m: nat :| m * m == 3;
      if m <= 1 { SquareMonotone(m, 1); } else { SquareMonotone(2, m); }
    }
    SquareSideOf(2);
    assert TokensRead([1, 2, 3, 4, 5], false) == [1, 2, 3, 4];
    var d := Rows([1, 2, 3, 4], 2, 2);
    assert [1, 2, 3, 4][2..] == [3, 4] && [1, 2, 3, 4][..2] == [1, 2];
    assert [3, 4][2..] == [] && [3, 4][..2] == [3, 4];
    assert Rows([3, 4], 2, 1) == [[3, 4]] + Rows([], 2, 0);
    assert d == [[1, 2], [3, 4]];
  }

  /** Corrected: every integer in the file is kept, whatever follows the last one. */
  function ReadMatrixAll(hasOutput: bool, f: MatrixFile): (r: Option<seq<seq<int>>>)
    ensures r.Some? <==> hasOutput && f.Opened? && !f.badRead && SquareSide(|f.tokens|).Some?
    ensures r.Some? ==> r == SquareMatrix(f.tokens)
  {
    if !hasOutput then None
    else match f
      case Unopenable => None
      case Opened(tokens, _, badRead) =>
        if badRead then None
        else
          SquareMatrix(tokens)
  }

  /** The corrected read accepts a square count of integers and loses none of them. */
  lemma ReadMatrixAllKeepsEveryInteger(hasOutput: bool, f: MatrixFile)
    ensures ReadMatrixAll(hasOutput, f).Some? <==> hasOutput && f.Opened? && !f.badRead && IsSquare(|f.tokens|)
    ensures ReadMatrixAll(hasOutput, f).Some? ==> Flatten(ReadMatrixAll(hasOutput, f).value) == f.tokens
  {
    if hasOutput && f.Opened? && !f.badRead {
      SquareSideDecides(|f.tokens|);
      if SquareSide(|f.tokens|).Some? {
        FlattenRows(f.tokens, SquareSide(|f.tokens|).value, SquareSide(|f.tokens|).value);
      }
    }
  }

  /** With trailing whitespace the two readings agree. */
  lemma TrailingSpaceReadsAgree(hasOutput: bool, tokens: seq<int>, bad: bool)
    ensures ReadMatrix(hasOutput, Opened(tokens, true, bad)) == ReadMatrixAll(hasOutput, Opened(tokens, true, bad))
  {
  }

  // ---------------------------------------------------------------------------
  // Finding: a token that is not an integer never ends the read loop

  /** A whitespace-separated word of the file: an integer, or anything `>>` cannot parse as one. */
  datatype Token = Int(v: int) | Junk

  /** The integers of a token list that holds no junk. */
  function Ints(tokens: seq<Token>): (r: seq<int>)
    requires forall i :: 0 <= i < |tokens| ==> tokens[i].Int?
    ensures |r| == |tokens|
    ensures forall i :: 0 <= i < |tokens| ==> r[i] == tokens[i].v
  {
    seq(|tokens|, i requires 0 <= i < |tokens| => tokens[i].v)
  }

  /**
    The loop of initialize.cpp:1215-1220 as written, on a file ending in
    whitespace, run for at most `fuel` passes (None when the passes run
    out). A failed extraction sets the fail bit but neither eof nor bad, and
    stores 0 in `entry`, so the loop pushes 0; every later extraction fails
    the same way.
  */
  function AsWrittenRead(tokens: seq<Token>, failed: bool, linear: seq<int>, fuel: nat): (r: Option<seq<int>>)
    ensures r.Some? ==> !failed && |linear| <= |r.value|
    decreases fuel
  {
    if fuel == 0 then None
    else if failed then AsWrittenRead(tokens, true, linear + [0], fuel - 1)
    else if |tokens| == 0 then Some(linear)
    else match tokens[0]
      case Int(v) => AsWrittenRead(tokens[1..], false, linear + [v], fuel - 1)
      case Junk => AsWrittenRead(tokens[1..], true, linear + [0], fuel - 1)
  }

  /** Once the fail bit is set, no number of passes ends the loop. */
  lemma {:induction false} FailedNeverEnds(tokens: seq<Token>, linear: seq<int>, fuel: nat)
    ensures AsWrittenRead(tokens, true, linear, fuel).None?
    decreases fuel
  {
    if fuel > 0 {
      FailedNeverEnds(tokens, linear + [0], fuel - 1);
    }
  }

  /** As written, a file with any non-integer word never finishes reading, however many passes are allowed. */
  lemma {:induction false} AsWrittenLoopsOnJunk(tokens: seq<Token>, linear: seq<int>, fuel: nat)
    requires exists i :: 0 <= i < |tokens| && tokens[i].Junk?
    ensures AsWrittenRead(tokens, false, linear, fuel).None?
    decreases fuel
  {
    if fuel > 0 {
      match tokens[0]
      case Junk =>
        FailedNeverEnds(tokens[1..], linear + [0], fuel - 1);
      case Int(v) =>
        var i :| 0 <= i < |tokens| && tokens[i].Junk?;
        assert tokens[1..][i - 1].Junk?;
        AsWrittenLoopsOnJunk(tokens[1..], linear + [v], fuel - 1);
    }
  }

  /** "1 x" as written: a million passes are not enough. */
  lemma AsWrittenOneJunkWord()
    ensures AsWrittenRead([Int(1), Junk], false, [], 1000000).None?
  {
    assert [Int(1), Junk][1].Junk?;
    AsWrittenLoopsOnJunk([Int(1), Junk], [], 1000000);
  }

  /** On integers only, the loop as written ends after one pass per word plus one and keeps them all. */
  lemma {:induction false} AsWrittenReadsIntegers(tokens: seq<Token>, linear: seq<int>, fuel: nat)
    requires forall i :: 0 <= i < |tokens| ==> tokens[i].Int?
    requires fuel > |tokens|
    ensures AsWrittenRead(tokens, false, linear, fuel) == Some(linear + Ints(tokens))
    decreases |tokens|
  {
    if |tokens| > 0 {
      assert forall i :: 1 <= i < |tokens| ==> tokens[1..][i - 1] == tokens[i];
      AsWrittenReadsIntegers(tokens[1..], linear + [tokens[0].v], fuel - 1);
      assert linear + [tokens[0].v] + Ints(tokens[1..]) == linear + Ints(tokens);
    } else {
      assert linear + Ints(tokens) == linear;
    }
  }

  /**
    Corrected: the loop also stops on the fail bit and the read is refused,
    as it is for a hard error. It accepts exactly the files made of
    integers, and yields them in order.
  */
  function ReadTokens(tokens: seq<Token>): (r: Option<seq<int>>)
    ensures r.Some? <==> forall i :: 0 <= i < |tokens| ==> tokens[i].Int?
    ensures r.Some? ==> |r.value| == |tokens| && forall i :: 0 <= i < |tokens| ==> r.value[i] == tokens[i].v
  {
    if |tokens| == 0 then Some([])
    else match tokens[0]
      case Junk => None
      case Int(v) =>
        assert forall i :: 1 <= i < |tokens| ==> tokens[1..][i - 1] == tokens[i];
        match ReadTokens(tokens[1..])
        case None => None
        case Some(rest) =>
          assert forall i :: 1 <= i < |tokens| ==> ([v] + rest)[i] == rest[i - 1];
          Some([v] + rest)
  }

  /**
    The corrected reader ends on every file, and agrees with the loop as
    written wherever that loop ends; its integers are what `MatrixFile`
    carries.
  */
  lemma ReadTokensAgreesOnIntegers(tokens: seq<Token>)
    requires forall i :: 0 <= i < |tokens| ==> tokens[i].Int?
    ensures ReadTokens(tokens) == AsWrittenRead(tokens, false, [], |tokens| + 1)
  {
    AsWrittenReadsIntegers(tokens, [], |tokens| + 1);
    assert [] + Ints(tokens) == ReadTokens(tokens).value;
  }
}
