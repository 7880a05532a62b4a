/** `generatePath(key, size)` of the worker cipher. encryptWorker.js and
    decryptWorker.js carry the same code, so both sides compute the same path
    from the same key and size. The path is a walk of `size * size` steps
    over a `size` by `size` grid whose rows and columns wrap around. The start
    cell comes from a linear congruential generator seeded with the sum of the
    key's character codes, and the key's characters steer each step. Cells
    the walk comes back to are dropped, and each cell keeps its first visit. */
module WorkerPath {
  import opened JsText
  import opened Grids

  /** The modulus of the generator behind `random()`. */
  const Modulus: nat := 233280

  /** The seed: the sum of the key's character codes. */
  function CodeSum(key: Text): nat
  {
    if |key| == 0 then 0 else CodeSum(key[..|key| - 1]) + key[|key| - 1] as nat
  }

  /** One call of `random()`: the seed it stores. The call returns that seed
      divided by the modulus. */
  function Lcg(seed: nat): (next: nat)
    ensures next < Modulus
  {
    (seed * 9301 + 49297) % Modulus
  }

  /** `Math.floor(random() * size)` once `random()` has stored `seed`. The
      fraction `seed / 233280` is taken exactly here. */
  function Scale(seed: nat, size: nat): (v: nat)
    requires seed < Modulus
    ensures size > 0 ==> v < size
  {
    ScaleIsFloor(seed, size);
    seed * size / Modulus
  }

  /** `Scale` rounds `seed / 233280 * size` down to a whole cell index. */
  lemma ScaleIsFloor(seed: nat, size: nat)
    requires seed < Modulus
    ensures var v := seed * size / Modulus;
      v * Modulus <= seed * size < (v + 1) * Modulus &&
      (size > 0 ==> v < size)
  {
    var v := seed * size / Modulus;
    assert v * Modulus <= seed * size;
    assert size > 0 ==> seed * size < Modulus * size;
  }

  /** The first cell of the walk: the first `random()` gives the row, the
      second the column. */
  function Start(key: Text, size: nat): (p: Pos)
    ensures size > 0 ==> InGrid(p, size)
  {
    var first := Lcg(CodeSum(key));
    var second := Lcg(first);
    Pos(Scale(first, size), Scale(second, size))
  }

  /** The four cases of the `switch` on `key.charCodeAt(i % key.length) % 4`.
      `Stay` stands for the empty key: `i % 0` is NaN, so the code is NaN
      too, no case matches and the walker stays where it is. Here `x` is
      the row and `y` the column, so `Right` (`x + 1`) moves down a row,
      unlike `Spiral.Right`, which moves one column to the right. */
  datatype Direction = Right | Left | Down | Up | Stay

  function DirectionAt(key: Text, i: nat): (d: Direction)
    ensures d == Stay <==> |key| == 0
  {
    if |key| == 0 then Stay
    else
      var keyChar := key[i % |key|] as nat % 4;
      if keyChar == 0 then Right
      else if keyChar == 1 then Left
      else if keyChar == 2 then Down
      else Up
  }

  /** The change of row and of column a direction asks for. */
  function Offset(d: Direction): Pos
  {
    match d
    case Right => Pos(1, 0)
    case Left => Pos(-1, 0)
    case Down => Pos(0, 1)
    case Up => Pos(0, -1)
    case Stay => Pos(0, 0)
  }

  /** The `switch` of the walk loop: one step in direction `d`, written as
      the source writes it. */
  function Move(p: Pos, d: Direction, size: nat): (q: Pos)
    requires size > 0
    ensures InGrid(p, size) ==> InGrid(q, size)
  {
    match d
    case Right => Pos((p.x + 1) % size, p.y)
    case Left => Pos((p.x - 1 + size) % size, p.y)
    case Down => Pos(p.x, (p.y + 1) % size)
    case Up => Pos(p.x, (p.y - 1 + size) % size)
    case Stay => p
  }

  /** Every step moves the walker by one cell along its direction, modulo
      `size`: off one edge of the grid it comes back in at the other. */
  lemma MoveWraps(p: Pos, d: Direction, size: nat)
    requires size > 0 && InGrid(p, size)
    ensures Move(p, d, size) == Pos((p.x + Offset(d).x) % size, (p.y + Offset(d).y) % size)
    ensures d != Stay ==> Move(p, d, size) != p || size == 1
  {
    WrapAround(p.x, size);
    WrapAround(p.y, size);
  }

  /** A coordinate moved by one and taken modulo `size`, as the source writes
      it, stays on the grid and wraps around at either edge. */
  lemma WrapAround(a: int, size: nat)
    requires 0 <= a < size
    ensures a % size == a
    ensures (a + 1) % size == if a + 1 == size then 0 else a + 1
    ensures (a - 1) % size == (a - 1 + size) % size == if a == 0 then size - 1 else a - 1
  {
    ModUnique(a, 0, a, size);
    if a + 1 == size {
      ModUnique(a + 1, 1, 0, size);
    } else {
      ModUnique(a + 1, 0, a + 1, size);
    }
    if a == 0 {
      ModUnique(a - 1, -1, size - 1, size);
      ModUnique(a - 1 + size, 0, size - 1, size);
    } else {
      ModUnique(a - 1, 0, a - 1, size);
      ModUnique(a - 1 + size, 1, a - 1, size);
    }
  }

  /** The remainder is the `r` of any `v == q * size + r` with `0 <= r < size`. */
  lemma ModUnique(v: int, q: int, r: int, size: nat)
    requires size > 0 && 0 <= r < size && v == q * size + r
    ensures v % size == r
  {
    var q', r' := v / size, v % size;
    assert q' * size + r' == v;
    var d := q' - q;
    assert d * size == r - r';
    if d > 0 {
      MulAtLeast(d, size);
    } else if d < 0 {
      MulAtLeast(-d, size);
    }
  }

  lemma {:induction false} MulAtLeast(d: nat, size: nat)
    requires d > 0
    ensures d * size >= size
  {
    if d > 1 {
      MulAtLeast(d - 1, size);
      assert d * size == (d - 1) * size + size;
    }
  }

  /** The cell the walk pushes at step `i`. */
  function WalkAt(key: Text, size: nat, i: nat): (p: Pos)
    requires size > 0
    ensures InGrid(p, size)
  {
    if i == 0 then Start(key, size)
    else Move(WalkAt(key, size, i - 1), DirectionAt(key, i - 1), size)
  }

  /** The `size * size` cells of the walk, repeats included. */
  function RawWalk(key: Text, size: nat): (walk: seq<Pos>)
    ensures |walk| == size * size
    ensures forall p :: p in walk ==> InGrid(p, size)
  {
    if size == 0 then []
    else seq(size * size, i requires 0 <= i < size * size => WalkAt(key, size, i))
  }

  predicate Distinct(s: seq<Pos>)
  {
    forall i, j :: 0 <= i < j < |s| ==> s[i] != s[j]
  }

  /** Where `p` first occurs in `s`. */
  function FirstIndex(s: seq<Pos>, p: Pos): (k: nat)
    requires p in s
    ensures k < |s| && s[k] == p && p !in s[..k]
  {
    if s[0] == p then 0
    else
      var k := 1 + FirstIndex(s[1..], p);
      assert s[..k] == [s[0]] + s[1..][..k - 1];
      k
  }

  /** The dedupe loop: every cell of `s` once, at its first occurrence. */
  function Dedup(s: seq<Pos>): (r: seq<Pos>)
    ensures |r| <= |s|
    ensures forall p :: p in r <==> p in s
    ensures Distinct(r)
  {
    if |s| == 0 then []
    else
      var r := Dedup(s[..|s| - 1]);
      if s[|s| - 1] in r then r else r + [s[|s| - 1]]
  }

  /** Every cell of `r` occurs in `s`, and the cells of `r` come in the
      order of their first occurrences in `s`. */
  predicate InFirstOrder(s: seq<Pos>, r: seq<Pos>)
  {
    (forall p :: p in r ==> p in s) &&
    forall i, j :: 0 <= i < j < |r| ==> FirstIndex(s, r[i]) < FirstIndex(s, r[j])
  }

  /** The cells of `Dedup(s)` come in the order of their first occurrences. */
  lemma {:induction false} DedupOrder(s: seq<Pos>)
    ensures InFirstOrder(s, Dedup(s))
  {
    if |s| > 0 {
      var t := s[..|s| - 1];
      var r, last := Dedup(t), s[|s| - 1];
      DedupOrder(t);
      assert s == t + [last];
      forall q | q in t ensures FirstIndex(s, q) == FirstIndex(t, q) {
        FirstIndexAppend(t, [last], q);
      }
      if last !in r {
        assert FirstIndex(s, last) == |t| by {
          assert s[..|t|] == t;
        }
        var r' := r + [last];
        forall i, j | 0 <= i < j < |r'| ensures FirstIndex(s, r'[i]) < FirstIndex(s, r'[j]) {
          var a := r'[i];
          assert a == r[i] && a in t;
          assert FirstIndex(s, a) == FirstIndex(t, a) < |t|;
          if j < |r| {
            assert r'[j] == r[j] && r[j] in t;
            assert FirstIndex(s, r[j]) == FirstIndex(t, r[j]);
            assert FirstIndex(t, r[i]) < FirstIndex(t, r[j]);
          } else {
            assert r'[j] == last;
            assert FirstIndex(s, last) == |t|;
          }
        }
      }
    }
  }

  /** The dedupe loop's step: a cell already kept is skipped, a new one is
      appended. */
  lemma DedupSnoc(s: seq<Pos>, p: Pos)
    ensures Dedup(s + [p]) == if p in Dedup(s) then Dedup(s) else Dedup(s) + [p]
  {
    assert (s + [p])[..|s|] == s;
  }

  lemma {:induction false} FirstIndexAppend(s: seq<Pos>, t: seq<Pos>, p: Pos)
    requires p in s
    ensures FirstIndex(s + t, p) == FirstIndex(s, p)
  {
    if s[0] != p {
      assert (s + t)[1..] == s[1..] + t;
      FirstIndexAppend(s[1..], t, p);
    }
  }

  /** `generatePath(key, size)`: the walk with repeats dropped. */
  function Path(key: Text, size: nat): seq<Pos>
  {
    Dedup(RawWalk(key, size))
  }

  /** Every cell of the path lies in the grid. */
  lemma PathInGrid(key: Text, size: nat)
    ensures forall p :: p in Path(key, size) ==> InGrid(p, size)
  {
    PathProperties(key, size);
  }

  /** The path stays in the grid, never repeats a cell, visits exactly the
      cells of the walk in the order of their first visits, and so has at
      most `size * size` cells: the final `slice(0, size * size)` cuts
      nothing. */
  lemma PathProperties(key: Text, size: nat)
    ensures |Path(key, size)| <= size * size
    ensures Distinct(Path(key, size))
    ensures forall p :: p in Path(key, size) ==> InGrid(p, size)
    ensures forall p :: p in Path(key, size) <==> p in RawWalk(key, size)
    ensures InFirstOrder(RawWalk(key, size), Path(key, size))
  {
    DedupOrder(RawWalk(key, size));
  }

  /** The empty key never moves the walker, so its path is its start cell
      alone. */
  lemma EmptyKeyPath(size: nat)
    requires size > 0
    ensures Path([], size) == [Start([], size)]
  {
    var walk := RawWalk([], size);
    forall i | 0 <= i < size * size ensures walk[i] == Start([], size) {
      EmptyKeyWalk(size, i);
    }
    DedupConstant(walk, Start([], size));
  }

  lemma {:induction false} EmptyKeyWalk(size: nat, i: nat)
    requires size > 0
    ensures WalkAt([], size, i) == Start([], size)
  {
    if i > 0 {
      EmptyKeyWalk(size, i - 1);
    }
  }

  lemma {:induction false} DedupConstant(s: seq<Pos>, p: Pos)
    requires |s| > 0 && forall i :: 0 <= i < |s| ==> s[i] == p
    ensures Dedup(s) == [p]
  {
    if |s| > 1 {
      DedupConstant(s[..|s| - 1], p);
    }
  }

  /** The first half of `generatePath`: the seed loop summing the key's
      character codes, then two calls of `random()`, each advancing the
      seed and scaling it to a coordinate. */
  method StartCell(key: Text, size: nat) returns (x: nat, y: nat)
    ensures Pos(x, y) == Start(key, size)
  {
    var seed: nat := 0;
    var i := 0;
    while i < |key|
      invariant 0 <= i <= |key|
      invariant seed == CodeSum(key[..i])
    {
      assert key[..i + 1][..i] == key[..i];
      seed := seed + key[i] as nat;
      i := i + 1;
    }
    assert key[..|key|] == key;
    seed := Lcg(seed);
    x := Scale(seed, size);
    seed := Lcg(seed);
    y := Scale(seed, size);
  }

  /** The walk loop of `generatePath`: pushes the current cell, then takes
      one step of the `switch` (here `Move`), `size * size` times. */
  method Walk(key: Text, size: nat, x0: int, y0: int) returns (walk: seq<Pos>)
    requires Pos(x0, y0) == Start(key, size)
    ensures walk == RawWalk(key, size)
  {
    var x, y := x0, y0;
    walk := [];
    var i := 0;
    while i < size * size
      invariant 0 <= i <= size * size
      invariant |walk| == i
      invariant size > 0 ==> Pos(x, y) == WalkAt(key, size, i)
      invariant size > 0 ==> forall k {:trigger walk[k]} :: 0 <= k < i ==> walk[k] == WalkAt(key, size, k)
    {
      assert size > 0;
      walk := walk + [Pos(x, y)];
      var next := Move(Pos(x, y), DirectionAt(key, i), size);
      x, y := next.x, next.y;
      i := i + 1;
    }
  }

  /** The dedupe loop of `generatePath`. The `seen` set holds the cells
      themselves where the source holds the strings `"x,y"`; that string
      names a cell uniquely. */
  method Dedupe(walk: seq<Pos>) returns (uniquePath: seq<Pos>)
    ensures uniquePath == Dedup(walk)
  {
    uniquePath := [];
    var seen: set<Pos> := {};
    var i := 0;
    while i < |walk|
      invariant 0 <= i <= |walk|
      invariant uniquePath == Dedup(walk[..i])
      invariant forall p :: p in seen <==> p in uniquePath
    {
      assert walk[..i + 1] == walk[..i] + [walk[i]];
      DedupSnoc(walk[..i], walk[i]);
      var coord := walk[i];
      if coord !in seen {
        seen := seen + {coord};
        uniquePath := uniquePath + [coord];
      }
      i := i + 1;
    }
    assert walk[..|walk|] == walk;
  }

  /** `generatePath(key, size)`: the start cell, the walk, the dedupe, and
      the final `slice(0, size * size)`. */
  method GeneratePath(key: Text, size: nat) returns (path: seq<Pos>)
    ensures path == Path(key, size)
  {
    var x, y := StartCell(key, size);
    var walk := Walk(key, size, x, y);
    var uniquePath := Dedupe(walk);
    var end := if |uniquePath| < size * size then |uniquePath| else size * size;
    path := uniquePath[..end];
  }
}
