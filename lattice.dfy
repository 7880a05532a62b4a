/** `LatticeCrypto`: a transposition cipher over a fixed 5x5 grid. Encryption
    pads the text with spaces to 25 characters, XORs the character in each
    cell with the key stream at the cell's row-major index, and reads the grid
    along the clockwise spiral; decryption writes the ciphertext back along
    the same spiral, undoes the XOR cell by cell, and trims. */
module Lattice {
  import opened JsText
  import opened KeyStream
  import opened Grids
  import opened Spiral

  datatype Option<T> = None | Some(value: T)

  /** A grid cell: a one-character string, or `null` (visited by
      `spiralEncrypt`, or not yet written by `decrypt`). */
  datatype Cell = Null | Char(code: Unit)

  /** What `decrypt` returns: the trimmed plaintext with the grid it was read
      from, or the error caught when a `null` cell is read (`charCodeAt` of
      `null` throws a TypeError). */
  datatype DecryptResult =
    | Decrypted(plaintext: Text, grid: array2<Cell>)
    | NullCellError

  /** The character `buildGrid` puts in cell `p`: the padded text at the
      cell's row-major index, XOR the key stream at that index. */
  function GridCode(plaintext: Text, key: Text, p: Pos): Unit
    requires InGrid(p, Side)
  {
    var k := RowMajor(p, Side);
    PadEnd(plaintext, Cells)[k] ^ KeyAt(key, k)
  }

  /** The code `buildGrid` computes for cell (i, j) from the padded text and
      the key stream is `GridCode` of that cell. */
  lemma BuiltCell(text: Text, key: Text, paddedText: Text, keyStream: seq<Unit>, i: nat, j: nat)
    requires i < Side && j < Side && paddedText == PadEnd(text, Cells)
    requires Cells <= |keyStream| && forall k {:trigger keyStream[k]} :: 0 <= k < |keyStream| ==> keyStream[k] == KeyAt(key, k)
    ensures i * Side + j < |paddedText| && i * Side + j < |keyStream|
    ensures paddedText[i * Side + j] ^ keyStream[i * Side + j] == GridCode(text, key, Pos(i, j))
  {
    CellAtRowMajor(Pos(i, j));
  }

  /** The ciphertext: the grid built from the plaintext, read in spiral order. */
  function Ciphertext(plaintext: Text, key: Text): (c: Text)
  {
    OrderRankInverse();
    seq(Cells, k requires 0 <= k < Cells => GridCode(plaintext, key, Order(k)))
  }

  /** The value the fill loop of `decrypt` leaves in cell `p` after writing
      the first `n` characters of `c`: the last of them written to `p`, or
      `null` if none was. */
  function Filled(c: Text, n: nat, p: Pos): Cell
    requires n <= |c|
  {
    if n == 0 then Null
    else if WalkerAt(n - 1).at == p then Char(c[n - 1])
    else Filled(c, n - 1, p)
  }

  /** The characters of grid `g` along the first `n` cells of the spiral. */
  ghost function SpiralText(g: array2<Cell>, n: nat): (t: Text)
    requires g.Length0 == Side && g.Length1 == Side
    requires forall r, c :: 0 <= r < Side && 0 <= c < Side ==> g[r, c].Char?
    requires n <= Cells
    reads g
    ensures |t| == n
  {
    if n == 0 then []
    else
      var p := Order(n - 1);
      SpiralText(g, n - 1) + [g[p.x, p.y].code]
  }

  /** Over the first 25 iterations the spiral read takes, as its `k`-th
      character, the content of the `k`-th cell of the spiral. */
  lemma {:induction false} SpiralTextOrder(g: array2<Cell>, n: nat, k: nat)
    requires g.Length0 == Side && g.Length1 == Side
    requires forall r, c :: 0 <= r < Side && 0 <= c < Side ==> g[r, c].Char?
    requires k < n <= Cells
    ensures Char(SpiralText(g, n)[k]) == g[Order(k).x, Order(k).y]
  {
    if k < n - 1 {
      SpiralTextOrder(g, n - 1, k);
    }
  }

  /** The whole spiral read, cell by cell. */
  lemma SpiralTextCells(g: array2<Cell>)
    requires g.Length0 == Side && g.Length1 == Side
    requires forall r, c :: 0 <= r < Side && 0 <= c < Side ==> g[r, c].Char?
    ensures forall k {:trigger SpiralText(g, Cells)[k]} :: 0 <= k < Cells ==>
      Char(SpiralText(g, Cells)[k]) == g[Order(k).x, Order(k).y]
  {
    forall k | 0 <= k < Cells
      ensures Char(SpiralText(g, Cells)[k]) == g[Order(k).x, Order(k).y]
    {
      SpiralTextOrder(g, Cells, k);
    }
  }

  /** The cell of row-major index `k`. */
  function CellAt(k: nat): (p: Pos)
    requires k < Cells
    ensures InGrid(p, Side) && RowMajor(p, Side) == k
  {
    Pos(k / Side, k % Side)
  }

  /** `CellAt` undoes the row-major numbering. */
  lemma CellAtRowMajor(p: Pos)
    requires InGrid(p, Side)
    ensures RowMajor(p, Side) < Cells && CellAt(RowMajor(p, Side)) == p
  {
  }

  /** A row of the grid ends where the next one starts. */
  lemma RowEnd(i: nat)
    ensures i * Side + Side == (i + 1) * Side
  {
  }

  /** The text the read-back loop of `decrypt` builds from a grid in which
      every cell has been written, before trimming. */
  function Unspiral(c: Text, key: Text): (r: Text)
    requires |c| >= Cells
  {
    seq(Cells, k requires 0 <= k < Cells =>
      (FilledAt(c, |c|, CellAt(k)); Filled(c, |c|, CellAt(k)).code ^ KeyAt(key, k)))
  }

  /** Filling a cell: the cells of rank below `n` are written, the others
      stay `null`; while no more than 25 characters have been written, cell
      `p` holds the character written at step `Rank(p)`. */
  lemma {:induction false} FilledAt(c: Text, n: nat, p: Pos)
    requires n <= |c| && InGrid(p, Side)
    ensures Filled(c, n, p).Null? <==> n <= Rank(p)
    ensures n <= Cells && Rank(p) < n ==> Filled(c, n, p) == Char(c[Rank(p)])
  {
    if n > 0 {
      WalkerTakes(n - 1);
      if Rank(p) == n - 1 {
        RankedCell(n - 1, p);
      }
      if WalkerAt(n - 1).at != p {
        FilledAt(c, n - 1, p);
      }
    }
  }

  /** The cells written by the fill loop of `decrypt` are those its spiral
      has visited. */
  lemma {:induction false} FilledVisited(c: Text, n: nat, p: Pos)
    requires n <= |c|
    ensures Filled(c, n, p).Char? <==> p in Visited(n)
  {
    if n > 0 {
      FilledVisited(c, n - 1, p);
      var q := WalkerAt(n - 1).at;
      assert Visited(n) == Visited(n - 1) + {q};
      assert Filled(c, n, p) == if q == p then Char(c[n - 1]) else Filled(c, n - 1, p);
    }
  }

  /** The fill loop's turn test: after character `i` is written, the cell
      ahead is off the grid or already written exactly when it is off the
      grid or among the cells the spiral has taken, the walker's included. */
  lemma FillTurn(c: Text, i: nat, x: int, y: int, dx: int, dy: int, ahead: Cell)
    requires i < |c| && Walker(Pos(x, y), Heading(dx, dy)) == WalkerAt(i)
    requires InGrid(Pos(x + dx, y + dy), Side) ==> ahead == Filled(c, i + 1, Pos(x + dx, y + dy))
    ensures (!InGrid(Pos(x + dx, y + dy), Side) || ahead != Null) <==>
      !InGrid(Pos(x + dx, y + dy), Side) || Pos(x + dx, y + dy) in Visited(i) + {Pos(x, y)}
  {
    FilledVisited(c, i + 1, Pos(x + dx, y + dy));
    RunStep(i);
  }

  /** Decrypting a ciphertext produced by `encrypt` gives back the padded
      plaintext, cut to the 25 characters that fit the grid. */
  lemma UnspiralCiphertext(plaintext: Text, key: Text)
    ensures Unspiral(Ciphertext(plaintext, key), key) == PadEnd(plaintext, Cells)[..Cells]
  {
    var c := Ciphertext(plaintext, key);
    var u := Unspiral(c, key);
    var padded := PadEnd(plaintext, Cells);
    OrderRankInverse();
    forall k | 0 <= k < Cells ensures u[k] == padded[k] {
      var p := CellAt(k);
      FilledAt(c, |c|, p);
      assert c[Rank(p)] == GridCode(plaintext, key, p);
    }
  }

  /** The round trip of the cipher: `decrypt(encrypt(p, key).ciphertext, key)`
      yields `p.padEnd(25, ' ').trim()`, which for a text of at most 25
      characters is `p.trim()`, and `p` itself when `p` neither starts nor
      ends with white space. */
  lemma RoundTrip(plaintext: Text, key: Text)
    requires |plaintext| <= Cells
    ensures Trim(Unspiral(Ciphertext(plaintext, key), key)) == Trim(PadEnd(plaintext, Cells))
    ensures Trim(Unspiral(Ciphertext(plaintext, key), key)) == Trim(plaintext)
    ensures plaintext == [] || (!IsWhiteSpace(plaintext[0]) && !IsWhiteSpace(plaintext[|plaintext| - 1])) ==>
      Trim(Unspiral(Ciphertext(plaintext, key), key)) == plaintext
  {
    UnspiralCiphertext(plaintext, key);
    assert PadEnd(plaintext, Cells)[..Cells] == PadEnd(plaintext, Cells);
    TrimPadEnd(plaintext, Cells);
    if plaintext == [] || (!IsWhiteSpace(plaintext[0]) && !IsWhiteSpace(plaintext[|plaintext| - 1])) {
      TrimKeepsTrimmed(plaintext);
    }
  }

  /** `s` is what the read-back loop of `decrypt` has built from the first
      `|s|` cells of `grid` in row-major order: each of them holds a
      character, XORed with the key stream at its index. */
  ghost predicate ReadBack(grid: array2<Cell>, key: Text, s: Text)
    requires grid.Length0 == Side && grid.Length1 == Side
    reads grid
  {
    |s| <= Cells &&
    forall k {:trigger s[k]} {:trigger CellAt(k)} :: 0 <= k < |s| ==>
      grid[CellAt(k).x, CellAt(k).y].Char? &&
      s[k] == grid[CellAt(k).x, CellAt(k).y].code ^ KeyAt(key, k)
  }

  /** A complete read-back of the grid the fill loop left is the text
      `Unspiral` describes. */
  lemma ReadBackUnspiral(grid: array2<Cell>, c: Text, key: Text, s: Text)
    requires grid.Length0 == Side && grid.Length1 == Side
    requires |c| >= Cells && |s| == Cells
    requires forall i, j {:trigger grid[i, j]} :: 0 <= i < Side && 0 <= j < Side ==> grid[i, j] == Filled(c, |c|, Pos(i, j))
    requires ReadBack(grid, key, s)
    ensures s == Unspiral(c, key)
  {
    forall k | 0 <= k < Cells ensures s[k] == Unspiral(c, key)[k] {
      var p := CellAt(k);
      assert grid[p.x, p.y] == Filled(c, |c|, p);
    }
  }

  class LatticeCrypto {
    /** The side of the grid, fixed for every instance. */
    const gridSize: nat := Side

    constructor ()
    {
    }

    /** `buildGrid`: a fresh 5x5 grid whose cell (i, j) holds the padded text
        at index 5i+j XOR the key stream at the same index. */
    method BuildGrid(text: Text, key: Text) returns (grid: array2<Cell>)
      ensures fresh(grid)
      ensures grid.Length0 == Side && grid.Length1 == Side
      ensures forall r, c {:trigger grid[r, c]} :: 0 <= r < Side && 0 <= c < Side ==>
        grid[r, c] == Char(GridCode(text, key, Pos(r, c)))
    {
      var paddedText := PadEnd(text, gridSize * gridSize);
      var keyStream := GenerateKeyStream(key, |paddedText|);
      grid := new Cell[gridSize, gridSize];
      var i := 0;
      while i < gridSize
        invariant 0 <= i <= gridSize
        invariant forall r, c {:trigger grid[r, c]} :: 0 <= r < i && 0 <= c < Side ==>
          grid[r, c] == Char(GridCode(text, key, Pos(r, c)))
      {
        var j := 0;
        while j < gridSize
          invariant 0 <= j <= gridSize
          invariant forall r, c {:trigger grid[r, c]} :: 0 <= r < i && 0 <= c < Side ==>
            grid[r, c] == Char(GridCode(text, key, Pos(r, c)))
          invariant forall c {:trigger grid[i, c]} :: 0 <= c < j ==>
            grid[i, c] == Char(GridCode(text, key, Pos(i, c)))
        {
          var idx := i * gridSize + j;
          BuiltCell(text, key, paddedText, keyStream, i, j);
          grid[i, j] := Char(paddedText[idx] ^ keyStream[idx]);
          j := j + 1;
        }
        i := i + 1;
      }
    }

    /** `spiralEncrypt`: reads all 25 cells in spiral order and marks each
        one `null` as it goes; the turn test looks at the bounds before it
        looks at a cell. */
    method SpiralEncrypt(grid: array2<Cell>) returns (result: Text)
      requires grid.Length0 == Side && grid.Length1 == Side
      requires forall r, c :: 0 <= r < Side && 0 <= c < Side ==> grid[r, c].Char?
      modifies grid
      ensures |result| == Cells
      ensures forall k {:trigger result[k]} :: 0 <= k < Cells ==>
        Char(result[k]) == old(grid[Order(k).x, Order(k).y])
      ensures forall r, c :: 0 <= r < Side && 0 <= c < Side ==> grid[r, c] == Null
    {
      SpiralTextCells(grid);
      result := [];
      var x, y, dx, dy := 0, 0, 0, 1;
      ghost var taken: set<Pos> := {};
      var i := 0;
      while i < gridSize * gridSize
        invariant 0 <= i <= Cells
        invariant Walker(Pos(x, y), Heading(dx, dy)) == WalkerAt(i)
        invariant taken == Visited(i)
        invariant result == old(SpiralText(grid, i))
        invariant forall r, c {:trigger grid[r, c]} :: 0 <= r < Side && 0 <= c < Side ==>
          grid[r, c] == if Pos(r, c) in taken then Null else old(grid[r, c])
      {
        WalkerOrder(i);
        ghost var at := Pos(x, y);
        ghost var cell := old(grid[x, y]);
        var code;
        code, x, y, dx, dy := ReadStep(grid, i, x, y, dx, dy, taken);
        assert Char(code) == cell;
        result := result + [code];
        forall r, c {:trigger grid[r, c]} | 0 <= r < Side && 0 <= c < Side
          ensures grid[r, c] == if Pos(r, c) in taken + {at} then Null else old(grid[r, c])
        {
          assert Pos(r, c) == at <==> r == at.x && c == at.y;
        }
        taken := taken + {at};
        i := i + 1;
      }
      VisitedProgress(i);
    }

    /** One iteration of `spiralEncrypt`: read the walker's cell and null
        it, turn if the cell ahead is off the grid or already `null`, and
        move. */
    method ReadStep(grid: array2<Cell>, i: nat, x: int, y: int, dx: int, dy: int, ghost taken: set<Pos>)
      returns (code: Unit, x': int, y': int, dx': int, dy': int)
      requires grid.Length0 == Side && grid.Length1 == Side && i < Cells
      requires Walker(Pos(x, y), Heading(dx, dy)) == WalkerAt(i) && taken == Visited(i)
      requires forall r, c {:trigger grid[r, c]} :: 0 <= r < Side && 0 <= c < Side ==>
        (grid[r, c] == Null <==> Pos(r, c) in taken)
      modifies grid
      ensures 0 <= x < Side && 0 <= y < Side && Char(code) == old(grid[x, y])
      ensures Pos(x, y) !in taken && taken + {Pos(x, y)} == Visited(i + 1)
      ensures Walker(Pos(x', y'), Heading(dx', dy')) == WalkerAt(i + 1)
      ensures forall r, c {:trigger grid[r, c]} :: 0 <= r < Side && 0 <= c < Side ==>
        grid[r, c] == if r == x && c == y then Null else old(grid[r, c])
    {
      ghost var blocked := !InGrid(Pos(x + dx, y + dy), Side) || Pos(x + dx, y + dy) in taken + {Pos(x, y)};
      Iteration(i, x, y, dx, dy, taken, blocked);
      code := grid[x, y].code;
      grid[x, y] := Null;
      var turn := x + dx >= gridSize || y + dy >= gridSize ||
                  x + dx < 0 || y + dy < 0 || grid[x + dx, y + dy] == Null;
      assert turn == blocked;
      dx', dy' := dx, dy;
      if turn {
        dx', dy' := dy, -dx;
      }
      x' := x + dx';
      y' := y + dy';
    }

    /** `encrypt`: the ciphertext is the built grid read in spiral order;
        the grid handed back has been emptied by the spiral read. */
    method Encrypt(plaintext: Text, key: Text) returns (ciphertext: Text, grid: array2<Cell>)
      ensures ciphertext == Ciphertext(plaintext, key)
      ensures grid.Length0 == Side && grid.Length1 == Side
      ensures forall r, c :: 0 <= r < Side && 0 <= c < Side ==> grid[r, c] == Null
    {
      grid := BuildGrid(plaintext, key);
      ciphertext := SpiralEncrypt(grid);
      OrderRankInverse();
      assert forall k :: 0 <= k < Cells ==> ciphertext[k] == Ciphertext(plaintext, key)[k];
    }

    /** The first step of `decrypt`: a fresh all-`null` grid into which the
        ciphertext is written along the spiral (a ciphertext longer than 25
        characters keeps circling the four inner cells and overwrites them). */
    method FillSpiral(ciphertext: Text) returns (grid: array2<Cell>)
      ensures fresh(grid)
      ensures grid.Length0 == Side && grid.Length1 == Side
      ensures forall r, c {:trigger grid[r, c]} :: 0 <= r < Side && 0 <= c < Side ==>
        grid[r, c] == Filled(ciphertext, |ciphertext|, Pos(r, c))
    {
      grid := new Cell[gridSize, gridSize]((_, _) => Null);
      var x, y, dx, dy := 0, 0, 0, 1;
      var i := 0;
      while i < |ciphertext|
        invariant 0 <= i <= |ciphertext|
        invariant Walker(Pos(x, y), Heading(dx, dy)) == WalkerAt(i)
        invariant forall r, c {:trigger grid[r, c]} :: 0 <= r < Side && 0 <= c < Side ==>
          grid[r, c] == Filled(ciphertext, i, Pos(r, c))
      {
        x, y, dx, dy := FillStep(grid, ciphertext, i, x, y, dx, dy);
        i := i + 1;
      }
    }

    /** One iteration of the fill loop: write character `i` into the
        walker's cell, turn if the cell ahead is off the grid or already
        written, and move. */
    method FillStep(grid: array2<Cell>, ciphertext: Text, i: nat, x: int, y: int, dx: int, dy: int)
      returns (x': int, y': int, dx': int, dy': int)
      requires grid.Length0 == Side && grid.Length1 == Side && i < |ciphertext|
      requires Walker(Pos(x, y), Heading(dx, dy)) == WalkerAt(i)
      requires forall r, c {:trigger grid[r, c]} :: 0 <= r < Side && 0 <= c < Side ==>
        grid[r, c] == Filled(ciphertext, i, Pos(r, c))
      modifies grid
      ensures Walker(Pos(x', y'), Heading(dx', dy')) == WalkerAt(i + 1)
      ensures forall r, c {:trigger grid[r, c]} :: 0 <= r < Side && 0 <= c < Side ==>
        grid[r, c] == Filled(ciphertext, i + 1, Pos(r, c))
    {
      ghost var taken := Visited(i);
      ghost var blocked := !InGrid(Pos(x + dx, y + dy), Side) || Pos(x + dx, y + dy) in taken + {Pos(x, y)};
      Iteration(i, x, y, dx, dy, taken, blocked);
      grid[x, y] := Char(ciphertext[i]);
      var turn := x + dx >= gridSize || y + dy >= gridSize ||
                  x + dx < 0 || y + dy < 0 || grid[x + dx, y + dy] != Null;
      ghost var ahead := if InGrid(Pos(x + dx, y + dy), Side) then grid[x + dx, y + dy] else Null;
      FillTurn(ciphertext, i, x, y, dx, dy, ahead);
      dx', dy' := dx, dy;
      if turn {
        dx', dy' := dy, -dx;
      }
      x' := x + dx';
      y' := y + dy';
    }

    /** The second step of `decrypt`: the grid read row by row, each cell
        XORed with the key stream at its row-major index; `None` when a cell
        is still `null`, where `charCodeAt` throws. */
    method ReadRows(grid: array2<Cell>, key: Text) returns (r: Option<Text>)
      requires grid.Length0 == Side && grid.Length1 == Side
      ensures r.None? <==> exists p :: InGrid(p, Side) && grid[p.x, p.y] == Null
      ensures r.Some? ==> |r.value| == Cells && ReadBack(grid, key, r.value)
    {
      var plaintext: Text := [];
      var keyStream := GenerateKeyStream(key, gridSize * gridSize);
      var i := 0;
      while i < gridSize
        invariant 0 <= i <= Side
        invariant |plaintext| == i * Side
        invariant ReadBack(grid, key, plaintext)
      {
        var j := 0;
        while j < gridSize
          invariant 0 <= j <= Side
          invariant |plaintext| == i * Side + j
          invariant ReadBack(grid, key, plaintext)
        {
          CellAtRowMajor(Pos(i, j));
          if grid[i, j] == Null {
            return None;
          }
          plaintext := plaintext + [grid[i, j].code ^ keyStream[i * gridSize + j]];
          j := j + 1;
        }
        RowEnd(i);
        i := i + 1;
      }
      forall p | InGrid(p, Side) ensures grid[p.x, p.y] != Null {
        CellAtRowMajor(p);
        var k := RowMajor(p, Side);
        assert grid[CellAt(k).x, CellAt(k).y].Char?;
      }
      r := Some(plaintext);
    }

    /** `decrypt`: fills the grid along the spiral, then reads it back row by
        row and trims. A ciphertext shorter than 25 characters leaves a
        `null` cell, and reading it is the error `decrypt` reports. */
    method Decrypt(ciphertext: Text, key: Text) returns (r: DecryptResult)
      ensures r.NullCellError? <==> |ciphertext| < Cells
      ensures r.Decrypted? ==>
        r.grid.Length0 == Side && r.grid.Length1 == Side &&
        (forall i, j {:trigger r.grid[i, j]} :: 0 <= i < Side && 0 <= j < Side ==>
          r.grid[i, j] == Filled(ciphertext, |ciphertext|, Pos(i, j))) &&
        r.plaintext == Trim(Unspiral(ciphertext, key))
    {
      var grid := FillSpiral(ciphertext);
      var plaintext := ReadRows(grid, key);
      if plaintext.None? {
        ghost var p :| InGrid(p, Side) && grid[p.x, p.y] == Null;
        FilledAt(ciphertext, |ciphertext|, Pos(p.x, p.y));
        return NullCellError;
      }
      if |ciphertext| < Cells {
        var p := WalkerAt(|ciphertext|).at;
        WalkerInGrid(|ciphertext|);
        FilledVisited(ciphertext, |ciphertext|, p);
        VisitedProgress(|ciphertext|);
        assert false;
      }
      ReadBackUnspiral(grid, ciphertext, key, plaintext.value);
      r := Decrypted(Trim(plaintext.value), grid);
    }
  }
}
