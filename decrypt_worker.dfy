/** `decrypt` of the decryption worker. The XOR with the key stream is undone
    first. The characters are then written back along the key's path into a
    grid whose cells start as empty strings, and the grid is read row by row
    and trimmed. */
module DecryptWorker {
  import opened JsText
  import opened KeyStream
  import opened Grids
  import opened WorkerPath
  import EncryptWorker

  /** What `decrypt` returns: the trimmed plaintext, the grid of one- or
      zero-character strings, and the part of the path that was used. */
  datatype Decrypted = Decrypted(plaintext: Text, grid: array2<Text>, path: seq<Pos>)

  function Min(a: nat, b: nat): nat
  {
    if a < b then a else b
  }

  /** Cell `p` after the fill loop has written the first `n` characters of
      `s` along `path`: the last of them written to `p`, or `''` if none
      was. */
  function Placed(s: Text, path: seq<Pos>, n: nat, p: Pos): Text
    requires n <= |s| && n <= |path|
  {
    if n == 0 then []
    else if path[n - 1] == p then [s[n - 1]]
    else Placed(s, path, n - 1, p)
  }

  /** Cells `(x, 0)` to `(x, j - 1)` of row `x`, concatenated. */
  function RowText(cell: Pos -> Text, x: int, j: nat): Text
  {
    if j == 0 then [] else RowText(cell, x, j - 1) + cell(Pos(x, j - 1))
  }

  /** Rows `0` to `i - 1` of a grid of side `size`, read row by row. */
  function GridText(cell: Pos -> Text, size: nat, i: nat): Text
  {
    if i == 0 then [] else GridText(cell, size, i - 1) + RowText(cell, i - 1, size)
  }

  /** The grid after the fill loop has written the first `n` characters of
      `s` along `path`, cell by cell. */
  function Filling(s: Text, path: seq<Pos>, n: nat): Pos -> Text
    requires n <= |s| && n <= |path|
  {
    p => Placed(s, path, n, p)
  }

  /** The text `decrypt` reads back from its grid, before trimming. */
  function Recovered(ciphertext: Text, key: Text, size: nat): Text
  {
    var s := XorStream(ciphertext, key);
    var path := Path(key, size);
    GridText(Filling(s, path, Min(|s|, |path|)), size, size)
  }

  /** The grid a round trip leaves: the padded plaintext's character in each
      cell of the path, `''` elsewhere. */
  function Restored(plaintext: Text, key: Text, size: nat): Pos -> Text
  {
    p => if InGrid(p, size) && p in Path(key, size)
         then [EncryptWorker.PaddedAt(plaintext, size, p)] else []
  }

  /** The path never repeats a cell, so a cell among its first `n` holds
      the character written at that cell's step, and every other cell is
      still `''`. */
  lemma {:induction false} PlacedCell(s: Text, path: seq<Pos>, n: nat, p: Pos)
    requires n <= |s| && n <= |path| && Distinct(path)
    ensures p in path[..n] ==> Placed(s, path, n, p) == [s[FirstIndex(path, p)]]
    ensures p !in path[..n] ==> Placed(s, path, n, p) == []
  {
    if n > 0 {
      assert path[..n] == path[..n - 1] + [path[n - 1]];
      PlacedCell(s, path, n - 1, p);
      if path[n - 1] == p {
        var k := FirstIndex(path, p);
        assert path[k] == path[n - 1];
      }
    }
  }

  /** Two texts that agree on their first `n` characters fill the same
      cells. */
  lemma {:induction false} PlacedPrefix(s: Text, t: Text, path: seq<Pos>, n: nat, p: Pos)
    requires n <= |s| && n <= |t| && n <= |path| && s[..n] == t[..n]
    ensures Placed(s, path, n, p) == Placed(t, path, n, p)
  {
    if n > 0 {
      assert s[n - 1] == s[..n][n - 1];
      PlacedPrefix(s, t, path, n - 1, p);
    }
  }

  /** Reading a grid depends only on its cells. */
  lemma {:induction false} GridTextCells(f: Pos -> Text, g: Pos -> Text, size: nat, i: nat)
    requires i <= size
    requires forall x, y {:trigger f(Pos(x, y))} :: 0 <= x < size && 0 <= y < size ==> f(Pos(x, y)) == g(Pos(x, y))
    ensures GridText(f, size, i) == GridText(g, size, i)
  {
    if i > 0 {
      GridTextCells(f, g, size, i - 1);
      RowTextCells(f, g, size, i - 1, size);
    }
  }

  lemma {:induction false} RowTextCells(f: Pos -> Text, g: Pos -> Text, size: nat, x: nat, j: nat)
    requires x < size && j <= size
    requires forall x, y {:trigger f(Pos(x, y))} :: 0 <= x < size && 0 <= y < size ==> f(Pos(x, y)) == g(Pos(x, y))
    ensures RowText(f, x, j) == RowText(g, x, j)
  {
    if j > 0 {
      RowTextCells(f, g, size, x, j - 1);
    }
  }

  /** A grid whose every cell holds the character of `t` at the cell's
      row-major index reads back as the first `size * size` characters of
      `t`. */
  lemma {:induction false} GridTextSpells(f: Pos -> Text, t: Text, size: nat, i: nat)
    requires i <= size && size * size <= |t|
    requires forall x, y {:trigger f(Pos(x, y))} :: 0 <= x < size && 0 <= y < size ==>
      f(Pos(x, y)) == [t[RowMajor(Pos(x, y), size)]]
    ensures i * size <= size * size
    ensures GridText(f, size, i) == t[..i * size]
  {
    RowsFit(i, size);
    if i > 0 {
      GridTextSpells(f, t, size, i - 1);
      var base := (i - 1) * size;
      RowTextSpells(f, t, size, i - 1, base, size);
      assert t[..i * size] == t[..base] + t[base..base + size];
    }
  }

  lemma {:induction false} RowTextSpells(f: Pos -> Text, t: Text, size: nat, x: int, base: nat, j: nat)
    requires j <= size && base + size <= |t|
    requires forall y {:trigger f(Pos(x, y))} :: 0 <= y < size ==> f(Pos(x, y)) == [t[base + y]]
    ensures RowText(f, x, j) == t[base..base + j]
  {
    if j > 0 {
      RowTextSpells(f, t, size, x, base, j - 1);
      assert t[base..base + j] == t[base..base + j - 1] + [t[base + j - 1]];
    }
  }

  lemma RowsFit(i: nat, size: nat)
    requires i <= size
    ensures i * size <= size * size
    ensures i > 0 ==> (i - 1) * size + size == i * size
  {
    assert (size - i) * size >= 0;
  }

  /** Only the first `min(|ciphertext|, |path|)` characters are placed: the
      rest of the ciphertext changes nothing. */
  lemma DecryptIgnoresExtra(ciphertext: Text, key: Text, size: nat)
    requires |ciphertext| >= |Path(key, size)|
    ensures Recovered(ciphertext, key, size) ==
      Recovered(ciphertext[..|Path(key, size)|], key, size)
  {
    var path := Path(key, size);
    var n := |path|;
    var s, t := XorStream(ciphertext, key), XorStream(ciphertext[..n], key);
    assert s[..n] == t[..n];
    forall x, y {:trigger Filling(s, path, n)(Pos(x, y))} | 0 <= x < size && 0 <= y < size
      ensures Filling(s, path, n)(Pos(x, y)) == Filling(t, path, n)(Pos(x, y))
    {
      PlacedPrefix(s, t, path, n, Pos(x, y));
    }
    GridTextCells(Filling(s, path, n), Filling(t, path, n), size, size);
  }

  /** Undoing the XOR on what `encrypt` produced gives back the characters
      it read along the path. */
  lemma XorBack(plaintext: Text, key: Text, size: nat)
    ensures XorStream(EncryptWorker.Ciphertext(plaintext, key, size), key) ==
      EncryptWorker.Gathered(plaintext, size, Path(key, size))
  {
    PathProperties(key, size);
    XorStreamInvolutive(EncryptWorker.Gathered(plaintext, size, Path(key, size)), key);
  }

  /** Writing the characters read along a path back along the same path
      restores every cell on it and leaves the others `''`. */
  lemma PlacedGathered(text: Text, size: nat, path: seq<Pos>, p: Pos)
    requires Distinct(path) && forall q :: q in path ==> InGrid(q, size)
    requires InGrid(p, size)
    ensures Placed(EncryptWorker.Gathered(text, size, path), path, |path|, p) ==
      if p in path then [EncryptWorker.PaddedAt(text, size, p)] else []
  {
    var g := EncryptWorker.Gathered(text, size, path);
    assert path[..|path|] == path;
    PlacedCell(g, path, |path|, p);
  }

  /** Decrypting what `encrypt` produced, cell by cell: a cell on the path
      gets back its padded plaintext character, every other cell stays
      `''`. */
  lemma RoundTripCell(plaintext: Text, key: Text, size: nat, p: Pos)
    requires InGrid(p, size)
    ensures var path := Path(key, size);
      Placed(XorStream(EncryptWorker.Ciphertext(plaintext, key, size), key), path, |path|, p) ==
        if p in path then [EncryptWorker.PaddedAt(plaintext, size, p)] else []
  {
    XorBack(plaintext, key, size);
    PathProperties(key, size);
    PlacedGathered(plaintext, size, Path(key, size), p);
  }

  /** The round trip in general: decryption recovers the padded plaintext's
      characters in the path's cells, read in row-major order; the cells
      off the path contribute nothing. */
  lemma RoundTrip(plaintext: Text, key: Text, size: nat)
    ensures Recovered(EncryptWorker.Ciphertext(plaintext, key, size), key, size) ==
      GridText(Restored(plaintext, key, size), size, size)
  {
    var path := Path(key, size);
    var s := XorStream(EncryptWorker.Ciphertext(plaintext, key, size), key);
    forall x, y {:trigger Filling(s, path, |path|)(Pos(x, y))} | 0 <= x < size && 0 <= y < size
      ensures Filling(s, path, |path|)(Pos(x, y)) == Restored(plaintext, key, size)(Pos(x, y))
    {
      RoundTripCell(plaintext, key, size, Pos(x, y));
    }
    GridTextCells(Filling(s, path, |path|), Restored(plaintext, key, size), size, size);
  }

  /** When the path covers the whole grid, every cell is restored to the
      padded plaintext's character at its row-major index. */
  lemma RestoredCovering(plaintext: Text, key: Text, size: nat)
    requires forall p :: InGrid(p, size) ==> p in Path(key, size)
    ensures forall x, y {:trigger Restored(plaintext, key, size)(Pos(x, y))} | 0 <= x < size && 0 <= y < size ::
      Restored(plaintext, key, size)(Pos(x, y)) == [PadEnd(plaintext, size * size)[RowMajor(Pos(x, y), size)]]
  {
    forall x, y | 0 <= x < size && 0 <= y < size
      ensures Restored(plaintext, key, size)(Pos(x, y)) == [PadEnd(plaintext, size * size)[RowMajor(Pos(x, y), size)]]
    {
      assert Pos(x, y) in Path(key, size);
    }
  }

  /** When the path covers the whole grid, decryption gives back the padded
      plaintext cut to the grid. For a plaintext that fits the grid the
      result, once trimmed, is `plaintext.trim()`. */
  lemma CoveringRoundTrip(plaintext: Text, key: Text, size: nat)
    requires forall p :: InGrid(p, size) ==> p in Path(key, size)
    ensures Recovered(EncryptWorker.Ciphertext(plaintext, key, size), key, size) ==
      PadEnd(plaintext, size * size)[..size * size]
    ensures |plaintext| <= size * size ==>
      Trim(Recovered(EncryptWorker.Ciphertext(plaintext, key, size), key, size)) == Trim(plaintext)
  {
    var padded := PadEnd(plaintext, size * size);
    RoundTrip(plaintext, key, size);
    RestoredCovering(plaintext, key, size);
    GridTextSpells(Restored(plaintext, key, size), padded, size, size);
    if |plaintext| <= size * size {
      assert padded[..size * size] == padded;
      TrimPadEnd(plaintext, size * size);
    }
  }

  /** The fill loop of `decrypt`: `grid[row][col] = reversedCipher.charAt(i)`
      along the path, for the first `n` steps, in a fresh grid of `''`. */
  method FillGrid(reversedCipher: Text, path: seq<Pos>, size: nat, n: nat) returns (grid: array2<Text>)
    requires n <= |reversedCipher| && n <= |path|
    requires forall p :: p in path ==> InGrid(p, size)
    ensures fresh(grid)
    ensures grid.Length0 == size && grid.Length1 == size
    ensures forall r, c {:trigger grid[r, c]} :: 0 <= r < size && 0 <= c < size ==>
      grid[r, c] == Placed(reversedCipher, path, n, Pos(r, c))
  {
    grid := new Text[size, size]((_, _) => []);
    var i := 0;
    while i < n
      invariant 0 <= i <= n
      invariant forall r, c {:trigger grid[r, c]} :: 0 <= r < size && 0 <= c < size ==>
        grid[r, c] == Placed(reversedCipher, path, i, Pos(r, c))
    {
      assert path[i] in path;
      var row, col := path[i].x, path[i].y;
      grid[row, col] := [reversedCipher[i]];
      i := i + 1;
    }
  }

  /** The read-back loop of `decrypt`: `plaintext += grid[i][j]`, row by
      row. `cell` names what each cell holds. */
  method ReadGrid(grid: array2<Text>, ghost cell: Pos -> Text) returns (plaintext: Text)
    requires grid.Length0 == grid.Length1
    requires forall r, c {:trigger grid[r, c]} :: 0 <= r < grid.Length0 && 0 <= c < grid.Length1 ==>
      grid[r, c] == cell(Pos(r, c))
    ensures plaintext == GridText(cell, grid.Length0, grid.Length0)
  {
    var size := grid.Length0;
    plaintext := [];
    var i := 0;
    while i < size
      invariant 0 <= i <= size
      invariant plaintext == GridText(cell, size, i)
    {
      var j := 0;
      while j < size
        invariant 0 <= j <= size
        invariant plaintext == GridText(cell, size, i) + RowText(cell, i, j)
      {
        plaintext := plaintext + grid[i, j];
        j := j + 1;
      }
      i := i + 1;
    }
  }

  /** `decrypt(ciphertext, key, size)`: the XOR loop, the path, the fill
      loop over `min(|ciphertext|, |path|)` steps, the read-back loop, and
      the result with the trimmed plaintext and `path.slice(0,
      ciphertext.length)`. The `catch` branch (decryptWorker.js:105-107) is
      not modelled; it is reachable only past the engine's array and string
      limits. */
  method Decrypt(ciphertext: Text, key: Text, size: nat) returns (r: Decrypted)
    ensures fresh(r.grid)
    ensures r.grid.Length0 == size && r.grid.Length1 == size
    ensures forall i, j {:trigger r.grid[i, j]} :: 0 <= i < size && 0 <= j < size ==>
      r.grid[i, j] == Placed(XorStream(ciphertext, key), Path(key, size),
                             Min(|ciphertext|, |Path(key, size)|), Pos(i, j))
    ensures r.plaintext == Trim(Recovered(ciphertext, key, size))
    ensures r.path == Path(key, size)[..Min(|ciphertext|, |Path(key, size)|)]
  {
    var reversedCipher := ApplyKeyStream(ciphertext, key);
    var path := GeneratePath(key, size);
    PathProperties(key, size);
    var n := Min(|reversedCipher|, |path|);
    var grid := FillGrid(reversedCipher, path, size, n);
    var plaintext := ReadGrid(grid, Filling(reversedCipher, path, n));
    r := Decrypted(Trim(plaintext), grid, path[..n]);
  }
}
