# Grid ciphers of the lattice-crypto demo, in Dafny

Despite its name, lattice.js implements no lattice scheme. The three
modelled files, lattice.js, encryptWorker.js and decryptWorker.js, hold two
grid transposition ciphers with a key-stream XOR, and this project models
those, following the code:

- `LatticeCrypto` (lattice.js) pads the plaintext with spaces to 25
  characters and lays it out in a fixed 5x5 grid. It XORs each cell with a
  repeating key stream indexed by the cell's row-major position, then reads
  the grid along a clockwise spiral from the top left corner. Decryption
  writes the ciphertext back along the same spiral, undoes the XOR and
  trims.
- The worker cipher (encryptWorker.js, decryptWorker.js) lays the padded
  plaintext out in a `size` by `size` grid. It reads the grid along a
  key-driven path: a wrapping walk whose start comes from a linear
  congruential generator and whose steps come from the key's characters,
  with repeated cells dropped. It then XORs the result with the key stream.
  Decryption undoes the XOR, writes the characters back along the same
  path into a grid of empty strings, and reads the grid row by row and
  trims.

Modules:

- `JsText`: UTF-16 code units, `padEnd` with spaces, and `trim`.
- `Grids`: cells and row-major indices.
- `KeyStream`: the key stream and the XOR with it. `generateKeyStream`
  appears three times in the source, with the same behaviour, and is
  modelled once.
- `Spiral`: the 5x5 spiral.
- `Lattice`: the class `LatticeCrypto`.
- `WorkerPath`: `generatePath`. The two workers carry the same code, and it
  is modelled once, so encryption and decryption share one path by
  construction.
- `EncryptWorker` and `DecryptWorker`: the two worker entry points.

The code that changes state is modelled imperatively:

- The grids are `array2`s written in place.
- `spiralEncrypt` nulls the caller's grid.
- The loops that build strings, key streams, walks and the deduplicated
  path are `while` loops.

Each method is proved against a specification function. The properties
proved about those functions include:

- The spiral visits every cell once, in clockwise order.
- The path is duplicate-free and keeps first visits in order.
- XOR with the key stream undoes itself.
- Each cipher has an encrypt/decrypt round trip.

The empty key is modelled, not excluded. `i % 0` is NaN, `charCodeAt(NaN)`
of the empty string is NaN, and `^` reads NaN as 0, so the empty key stream
leaves every character unchanged. In the walk, `NaN % 4` matches no case of
the `switch`, so the walker never moves.

## Model

| member | source | states |
|---|---|---|
| JsText.PadEnd | encryptWorker.js:17 | `padEnd(n, ' ')` keeps the text as its prefix and fills it up with spaces to length `n`; a text at least `n` long is unchanged |
| JsText.TrimStart | decryptWorker.js:101 | the result is a suffix of the input, everything dropped is white space, and it does not start with white space |
| JsText.TrimEnd | decryptWorker.js:101 | the result is a prefix of the input, everything dropped is white space, and it does not end with white space |
| JsText.TrimIsMaximalSlice | decryptWorker.js:101 | `trim()` returns a contiguous piece of the input with white space only on either side of it, and the piece neither starts nor ends with white space |
| JsText.TrimKeepsTrimmed | lattice.js:99 | a text without white space at either end is left unchanged by `trim()` |
| JsText.TrimAppendWhiteSpace | lattice.js:99 | appending white space does not change what `trim()` returns |
| JsText.TrimPadEnd | decryptWorker.js:101 | `trim()` removes the padding again: `s.padEnd(n, ' ').trim() == s.trim()` |
| Grids.RowMajor | encryptWorker.js:22 | the row-major index `i * size + j` of a cell is below `size * size` |
| KeyStream.GenerateKeyStream | lattice.js:7-13 | exactly `length` entries; entry `i` is the code of key character `i mod key.length` (0 for the empty key); encryptWorker.js:2-12 and decryptWorker.js:2-12 are the same function |
| KeyStream.XorStream | encryptWorker.js:101-104 | XOR with the key stream keeps the length |
| KeyStream.XorStreamInvolutive | decryptWorker.js:72-75 | XOR with the same key stream twice gives back the input |
| KeyStream.ApplyKeyStream | encryptWorker.js:98-104 | the XOR loop computes the input XORed with the key stream, position by position; decryptWorker.js:69-75 is the same loop |
| Spiral.Order | lattice.js:36-50 | the `k`-th cell of the spiral lies in the grid |
| Spiral.OrderRankInverse | lattice.js:38-50 | the spiral's cell order and the rank of a cell are inverse: the 25 iterations visit every cell exactly once |
| Spiral.SpiralAt | lattice.js:36-50 | the closed form of the walker stays in the grid |
| Spiral.WalkerIsSpiral | lattice.js:36-50 | the turn rule (turn clockwise when the cell ahead is off the grid or taken, then move) produces exactly the clockwise spiral, then a cycle through four inner cells |
| Spiral.StepRule | lattice.js:42-49 | the turn rule in coordinates: when the cell `(x + dx, y + dy)` ahead is off the grid or taken, the heading becomes `(dy, -dx)` and the walker moves that way; otherwise it moves on by `(dx, dy)` |
| Spiral.RunStep | lattice.js:38-49 | iteration `i` adds the walker's cell to the taken cells and then applies the turn rule with that cell already taken |
| Spiral.SpiralStep | lattice.js:43-49 | the closed form starts at (0,0) heading right, and each step of it is one application of the turn rule |
| Spiral.Iteration | lattice.js:43-49 | one iteration of a spiral loop: the cell taken is in the grid and new during the first 25 iterations, and the turn test decides the next position and heading as the turn rule does |
| Spiral.WalkerTakes | lattice.js:38-50 | the cell taken by iteration `n` has rank `n` during the first 25 iterations and a smaller rank after them |
| Spiral.RankedCell | lattice.js:38-50 | the cell of rank `n` is taken by iteration `n` |
| Spiral.VisitedRanks | lattice.js:40 | after `i` iterations the taken cells are exactly the cells of rank below `i` |
| Spiral.WalkerInGrid | lattice.js:78-84 | the walker never leaves the grid, so neither spiral loop indexes outside it |
| Spiral.WalkerRank | lattice.js:73-85 | during the first 25 iterations the walker stands on the spiral's cell of that rank, and afterwards on an already taken cell |
| Spiral.WalkerAtRank | lattice.js:38-50 | every cell is where the walker stands at the iteration of its rank |
| Spiral.VisitedProgress | lattice.js:75-85 | each of the first 25 iterations takes a new cell, and after 25 iterations every cell is taken |
| Lattice.CellAt | lattice.js:91-93 | the cell `(k / 5, k mod 5)` lies in the grid and has row-major index `k` |
| Lattice.FilledAt | lattice.js:75-85 | after the fill loop has written `n` characters, a cell is `null` exactly when its rank is at least `n`; while `n <= 25` a written cell holds the character of its rank |
| Lattice.FilledVisited | lattice.js:75-85 | the cells written by the fill loop are exactly those its spiral has visited |
| Lattice.SpiralTextOrder | lattice.js:38-40 | character `k` of the text read along the first `n` cells of the spiral is the content of the spiral's `k`-th cell |
| Lattice.SpiralTextCells | lattice.js:38-40 | the same for every one of the 25 characters of a complete spiral read |
| Lattice.ReadBackUnspiral | lattice.js:87-96 | the read-back of a completely written grid has, at index `k`, the code the fill loop left in cell `(k / 5, k mod 5)` XOR the key stream at `k` |
| Lattice.UnspiralCiphertext | lattice.js:55-101 | decrypting the ciphertext of `encrypt` gives back the padded plaintext cut to 25 characters, before trimming |
| Lattice.RoundTrip | lattice.js:55-101 | for a plaintext of at most 25 characters, `decrypt(encrypt(p, k).ciphertext, k)` yields `p.padEnd(25, ' ').trim()`, which equals `p.trim()`, and `p` itself when `p` has no white space at either end |
| Lattice.LatticeCrypto.BuildGrid | lattice.js:16-31 | a fresh 5x5 grid whose cell (i, j) is the padded text at `5i + j` XOR the key stream at `5i + j`; characters past 25 are ignored |
| Lattice.LatticeCrypto.SpiralEncrypt | lattice.js:34-52 | emits 25 characters, character `k` being the old content of the spiral's `k`-th cell, and leaves every cell of the caller's grid `null` |
| Lattice.LatticeCrypto.ReadStep | lattice.js:39-49 | one iteration of the read loop: the walker's cell is in the grid and not yet taken; its old content is returned and the cell, and no other, becomes `null`; the walker moves to its position for the next iteration |
| Lattice.LatticeCrypto.Encrypt | lattice.js:55-62 | the ciphertext is the built grid read in spiral order, and the grid returned is all `null` |
| Lattice.LatticeCrypto.FillSpiral | lattice.js:72-85 | a fresh 5x5 grid whose cells are those the fill loop leaves: the last character written to each cell along the spiral, or `null` |
| Lattice.LatticeCrypto.FillStep | lattice.js:76-84 | one iteration of the fill loop: after it the grid is what writing the first `i + 1` characters along the spiral leaves, and the walker is at its position for iteration `i + 1` |
| Lattice.LatticeCrypto.ReadRows | lattice.js:88-96 | fails exactly when some cell is still `null` (where `charCodeAt` throws); otherwise returns 25 characters, each a cell's code XOR the key stream at that cell's row-major index |
| Lattice.LatticeCrypto.Decrypt | lattice.js:69-105 | the error result exactly when the ciphertext is shorter than 25 characters; otherwise the filled grid and the trimmed text read back from it |
| WorkerPath.Lcg | encryptWorker.js:44 | the generator's next seed is below 233280 |
| WorkerPath.Scale | encryptWorker.js:49-50 | `floor(seed / 233280 * size)` is a valid coordinate for a positive `size` |
| WorkerPath.ScaleIsFloor | encryptWorker.js:45-50 | the coordinate is the largest `v` with `v * 233280 <= seed * size` |
| WorkerPath.Start | encryptWorker.js:37-50 | the start cell lies in the grid for a positive `size` |
| WorkerPath.DirectionAt | encryptWorker.js:57 | the direction is none of the four exactly when the key is empty |
| WorkerPath.Move | encryptWorker.js:59-64 | a step of the `switch` keeps the walker in the grid |
| WorkerPath.MoveWraps | encryptWorker.js:59-64 | each step moves by exactly one cell in its direction modulo `size`: 0 is x+1, 1 is x-1, 2 is y+1, 3 is y-1; it always changes the cell when `size > 1` |
| WorkerPath.WrapAround | encryptWorker.js:60-63 | `(a + 1) % size` and `(a - 1 + size) % size` wrap around at the grid's edges and agree with the mathematical remainder |
| WorkerPath.WalkAt | encryptWorker.js:53-65 | every cell the walk pushes lies in the grid |
| WorkerPath.RawWalk | encryptWorker.js:53-65 | the walk has exactly `size * size` cells, all in the grid |
| WorkerPath.FirstIndex | encryptWorker.js:71-76 | the first occurrence of a cell: an index holding it with no earlier one |
| WorkerPath.Dedup | encryptWorker.js:67-77 | the deduplicated path is no longer than the walk, has exactly the walk's cells and has no repeats |
| WorkerPath.DedupOrder | encryptWorker.js:67-77 | the deduplicated path lists the cells in the order of their first visits |
| WorkerPath.DedupSnoc | encryptWorker.js:73-76 | one step of the dedupe loop: a cell already kept is skipped and a new one is appended |
| WorkerPath.PathProperties | encryptWorker.js:67-79 | the path has at most `size * size` cells, all in the grid and pairwise distinct. It holds exactly the walk's cells, in first-visit order, so the final `slice` cuts nothing |
| WorkerPath.EmptyKeyPath | encryptWorker.js:53-65 | the empty key never moves the walker, so its path is the start cell alone |
| WorkerPath.StartCell | encryptWorker.js:37-50 | the seed loop and the two `random()` calls compute the start cell |
| WorkerPath.Walk | encryptWorker.js:53-65 | the walk loop produces the `size * size`-step walk |
| WorkerPath.Dedupe | encryptWorker.js:67-77 | the `seen`-set loop computes the deduplicated walk |
| WorkerPath.GeneratePath | encryptWorker.js:32-80 | `generatePath` returns the path: the deduplicated walk from the key's start cell; decryptWorker.js:15-63 is the same code, so both sides get the same path |
| EncryptWorker.PaddedAt | encryptWorker.js:17-23 | the cell at (i, j) holds the plaintext's character at `i * size + j`, or a space past the plaintext's end |
| EncryptWorker.Gathered | encryptWorker.js:93-95 | reading along the path yields one character per path cell |
| EncryptWorker.Ciphertext | encryptWorker.js:86-104 | the ciphertext is as long as the path; character `i` is the padded plaintext in the path's `i`-th cell XOR key character `i mod key.length` |
| EncryptWorker.CiphertextIgnoresOverflow | encryptWorker.js:17-23 | characters past `size * size` never affect the ciphertext |
| EncryptWorker.CreateGrid | encryptWorker.js:15-29 | `size` rows of `size` cells, cell (i, j) being the padded text at `i * size + j` |
| EncryptWorker.Encrypt | encryptWorker.js:83-114 | returns the ciphertext above, the path of the key and the padded grid |
| DecryptWorker.PlacedCell | decryptWorker.js:87-90 | along a path without repeats, a cell among the first `n` gets the character of its step and every other cell stays `''` |
| DecryptWorker.PlacedPrefix | decryptWorker.js:87-90 | only the first `n` characters written affect the grid |
| DecryptWorker.GridTextCells | decryptWorker.js:93-98 | the row-by-row reading depends only on the grid's cells |
| DecryptWorker.GridTextSpells | decryptWorker.js:93-98 | a grid holding, in each cell, the character at that cell's row-major index reads back as the text itself |
| DecryptWorker.DecryptIgnoresExtra | decryptWorker.js:87-90 | ciphertext characters beyond the path's length change nothing |
| DecryptWorker.XorBack | decryptWorker.js:72-75 | undoing the XOR on encrypt's output gives back the characters read along the path |
| DecryptWorker.PlacedGathered | decryptWorker.js:87-90 | writing the characters read along a path back along it restores each path cell and leaves the others `''` |
| DecryptWorker.RoundTripCell | decryptWorker.js:66-104 | after decrypting encrypt's output, a path cell holds its padded plaintext character and any other cell `''` |
| DecryptWorker.RoundTrip | decryptWorker.js:66-104 | in general, decryption recovers exactly the padded plaintext's characters in the path's cells, in row-major order |
| DecryptWorker.RestoredCovering | decryptWorker.js:87-90 | when the path covers the grid, every cell gets back the padded plaintext's character at its row-major index |
| DecryptWorker.CoveringRoundTrip | decryptWorker.js:66-104 | when every cell of the grid is on the path, decryption recovers the padded plaintext cut to `size * size`, and for a plaintext of at most `size * size` characters the result is `plaintext.trim()` |
| DecryptWorker.FillGrid | decryptWorker.js:81-90 | a fresh `size` by `size` grid whose cells are the last character written to them along the path, or `''` |
| DecryptWorker.ReadGrid | decryptWorker.js:93-98 | the read-back loop concatenates the cells row by row |
| DecryptWorker.Decrypt | decryptWorker.js:66-108 | the grid as the fill loop leaves it, after `min(ciphertext.length, path.length)` steps; the trimmed row-major reading; and the path cut to the ciphertext's length |

## Left out

- The browser wiring of lattice.js (lines 108 onwards), all of worker.js
  (it only forwards messages to `LatticeCrypto`), and the `self.onmessage`
  handlers of both workers. They are message plumbing and DOM access.
- Any Learning-With-Errors code (key generation, bit encryption and
  decryption, matrix-vector products). None of it is in the three
  modelled files, and no other file of the repository is part of this
  model.
- WorkerPath.Scale: `random()` returns the float `seed / 233280`, which
  is then multiplied by `size` and floored. The model takes the exact
  integer floor of `seed * size / 233280`. Floating-point rounding could
  differ from it when `seed * size` is close to a multiple of 233280.
- WorkerPath.CodeSum: the seed is an unbounded integer. In JavaScript it
  is a double, and it stays exact only while `seed * 9301` is below 2^53,
  that is, for keys of fewer than about 10^7 characters.
- A `gridSize` that is negative, fractional, infinite or not a number
  is not modelled: `size` is a natural number. In decryptWorker.js a
  positive fractional size makes `new Array` throw (line 83). A negative
  size throws a TypeError at `grid[row][col]` (line 89) for a non-empty
  ciphertext, and otherwise gives an empty result. A NaN size skips every
  loop and gives an empty result. In encryptWorker.js a negative size
  builds no rows in `createGrid`, while the path still has cells, so
  `grid[row][col]` (line 94) throws a TypeError.
- EncryptWorker.Encrypt: always returns a result, while the source
  returns `{error}` from its `catch` (encryptWorker.js:111-113) when a
  statement in its `try` throws. For a natural `size` that happens only
  when the engine runs out of room. `padEnd(size * size)` (line 17) fails
  once `size * size` exceeds the engine's maximum string length. `push`
  (line 54) throws a RangeError once the path would grow past 2^32 - 1
  entries, that is, for `size >= 65536`. The model holds for `size * size`
  within both limits.
- DecryptWorker.Decrypt: always returns a result, while the source
  returns `{error}` from its `catch` (decryptWorker.js:105-107). The same
  `push` (line 37) throws for `size >= 65536`, and the strings it builds
  are bound by the engine's maximum string length. The model holds for
  `size * size` below 2^32 - 1 and within that length.
- `LatticeCrypto.encrypt` works on a fixed 5x5 grid, and nothing in its
  `try` block can throw, so its `catch` branch is not modelled. The one
  reachable exception of the class is the `null` cell in
  `LatticeCrypto.decrypt`, which is modelled as `NullCellError`.
- Lattice.LatticeCrypto.Decrypt: the `{error: message}` object is
  modelled as the constant `NullCellError`; the message text is not kept.
- The `seen` set of the dedupe loop holds `Pos` values. The source holds
  the strings `"x,y"`, and those name cells one-to-one.
- Lattice.RoundTrip: requires a plaintext of at most 25 characters, as the
  round trip the source intends does. The general case, where the text is
  cut to 25, is Lattice.UnspiralCiphertext.
- DecryptWorker.CoveringRoundTrip: holds only when the path covers the
  grid, since the worker cipher loses the characters of cells off the path.
  The general statement is DecryptWorker.RoundTrip.
- Characters are UTF-16 code units. `String.fromCharCode(a ^ b)` of two
  code units is that code unit, so no surrogate or normalisation handling
  is involved.
