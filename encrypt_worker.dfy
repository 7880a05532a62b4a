/** `encrypt` of the encryption worker. The plaintext is padded with spaces
    to `size * size` characters and laid out row by row in a `size` by `size`
    grid. The cells along the key's path are read, and what they spell is
    XORed with the key stream, position by position. */
module EncryptWorker {
  import opened JsText
  import opened KeyStream
  import opened Grids
  import opened WorkerPath

  /** The character `createGrid` puts in cell `p`: the plaintext's character
      at the cell's row-major index, or a space past the plaintext's end. */
  function PaddedAt(text: Text, size: nat, p: Pos): (u: Unit)
    requires InGrid(p, size)
    ensures var k := RowMajor(p, size);
      u == if k < |text| then text[k] else Space
  {
    PadEnd(text, size * size)[RowMajor(p, size)]
  }

  /** The padded plaintext's characters in the cells along `path`. */
  function Gathered(text: Text, size: nat, path: seq<Pos>): (s: Text)
    requires forall p :: p in path ==> InGrid(p, size)
    ensures |s| == |path|
  {
    seq(|path|, i requires 0 <= i < |path| => PaddedAt(text, size, path[i]))
  }

  /** The ciphertext of the worker cipher: the path's cells XORed with the
      key stream. Character `i` is the padded plaintext's character in the
      path's `i`-th cell, XOR the key character `i mod |key|`. */
  function Ciphertext(plaintext: Text, key: Text, size: nat): (c: Text)
    ensures |c| == |Path(key, size)|
    ensures forall i {:trigger c[i]} :: 0 <= i < |c| ==>
      InGrid(Path(key, size)[i], size) &&
      c[i] == PaddedAt(plaintext, size, Path(key, size)[i]) ^ KeyAt(key, i)
  {
    PathProperties(key, size);
    XorStream(Gathered(plaintext, size, Path(key, size)), key)
  }

  /** Characters past the first `size * size` never reach the grid, so two
      plaintexts that agree on them encrypt alike. */
  lemma CiphertextIgnoresOverflow(plaintext: Text, key: Text, size: nat)
    ensures Ciphertext(plaintext, key, size) ==
      Ciphertext(plaintext[..if |plaintext| < size * size then |plaintext| else size * size], key, size)
  {
    var cut := plaintext[..if |plaintext| < size * size then |plaintext| else size * size];
    var c, d := Ciphertext(plaintext, key, size), Ciphertext(cut, key, size);
    forall i | 0 <= i < |c| ensures c[i] == d[i] {
      var p := Path(key, size)[i];
      assert PaddedAt(plaintext, size, p) == PaddedAt(cut, size, p);
    }
  }

  /** One step of the gather loop: reading the next cell of the path
      appends its padded character. */
  lemma GatheredStep(text: Text, size: nat, path: seq<Pos>, k: nat)
    requires k < |path| && forall p :: p in path ==> InGrid(p, size)
    ensures InGrid(path[k], size)
    ensures Gathered(text, size, path[..k + 1]) ==
      Gathered(text, size, path[..k]) + [PaddedAt(text, size, path[k])]
  {
    assert path[k] in path;
  }

  /** What `encrypt` returns. */
  datatype Encrypted = Encrypted(ciphertext: Text, grid: seq<seq<Unit>>, path: seq<Pos>)

  /** `createGrid(text, size)`: rows of `size` cells pushed one by one, each
      cell `paddedText.charAt(i * size + j)`. That index is below the padded
      length, so every cell holds exactly one character. */
  method CreateGrid(text: Text, size: nat) returns (grid: seq<seq<Unit>>)
    ensures |grid| == size
    ensures forall i :: 0 <= i < size ==> |grid[i]| == size
    ensures forall i, j {:trigger grid[i][j]} :: 0 <= i < size && 0 <= j < size ==>
      grid[i][j] == PaddedAt(text, size, Pos(i, j))
  {
    var paddedText := PadEnd(text, size * size);
    grid := [];
    var i := 0;
    while i < size
      invariant 0 <= i <= size
      invariant |grid| == i
      invariant forall r :: 0 <= r < i ==> |grid[r]| == size
      invariant forall r, c {:trigger grid[r][c]} :: 0 <= r < i && 0 <= c < size ==>
        grid[r][c] == PaddedAt(text, size, Pos(r, c))
    {
      var row: seq<Unit> := [];
      var j := 0;
      while j < size
        invariant 0 <= j <= size
        invariant |row| == j
        invariant forall c {:trigger row[c]} :: 0 <= c < j ==> row[c] == PaddedAt(text, size, Pos(i, c))
      {
        var index := i * size + j;
        RowMajorBound(i, j, size);
        row := row + [paddedText[index]];
        j := j + 1;
      }
      grid := grid + [row];
      i := i + 1;
    }
  }

  /** `encrypt(plaintext, key, size)`: the grid, the path, the characters
      read along the path, then the XOR loop. The `catch` branch
      (encryptWorker.js:111-113) is not modelled; it is reachable only past
      the engine's array and string limits. */
  method Encrypt(plaintext: Text, key: Text, size: nat) returns (r: Encrypted)
    ensures r.ciphertext == Ciphertext(plaintext, key, size)
    ensures r.path == Path(key, size)
    ensures |r.grid| == size && forall i :: 0 <= i < size ==> |r.grid[i]| == size
    ensures forall i, j {:trigger r.grid[i][j]} :: 0 <= i < size && 0 <= j < size ==>
      r.grid[i][j] == PaddedAt(plaintext, size, Pos(i, j))
  {
    var grid := CreateGrid(plaintext, size);
    var path := GeneratePath(key, size);
    PathInGrid(key, size);
    var ciphertext: Text := [];
    var k := 0;
    while k < |path|
      invariant 0 <= k <= |path|
      invariant ciphertext == Gathered(plaintext, size, path[..k])
    {
      GatheredStep(plaintext, size, path, k);
      var row, col := path[k].x, path[k].y;
      ciphertext := ciphertext + [grid[row][col]];
      k := k + 1;
    }
    assert path[..k] == path;
    var finalCipher := ApplyKeyStream(ciphertext, key);
    r := Encrypted(finalCipher, grid, path);
  }
}
