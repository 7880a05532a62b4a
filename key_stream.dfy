/** The repeating key stream all three ciphers XOR with: entry `i` is the code
    of key character `i mod |key|`. */
module KeyStream {
  import opened JsText

  /** Entry `i` of the key stream of `key`. For the empty key `i % 0` is NaN,
      `charCodeAt(NaN)` of the empty string is NaN again, and the XOR operator
      reads NaN as 0: the empty key stream leaves every code unit unchanged. */
  function KeyAt(key: Text, i: nat): Unit {
    if |key| == 0 then 0 else key[i % |key|]
  }

  /** `generateKeyStream(key, length)`: pushes `key.charCodeAt(i % key.length)`
      for every `i` below `length` (the NaN entries of the empty key as 0). */
  method GenerateKeyStream(key: Text, length: nat) returns (keyStream: seq<Unit>)
    ensures |keyStream| == length
    ensures forall i {:trigger keyStream[i]} :: 0 <= i < length ==> keyStream[i] == KeyAt(key, i)
  {
    keyStream := [];
    var i := 0;
    while i < length
      invariant 0 <= i <= length
      invariant |keyStream| == i
      invariant forall k {:trigger keyStream[k]} :: 0 <= k < i ==> keyStream[k] == KeyAt(key, k)
    {
      var keyChar: Unit := if |key| == 0 then 0 else key[i % |key|];
      keyStream := keyStream + [keyChar];
      i := i + 1;
    }
  }

  /** XOR with the key stream, position by position. */
  function XorStream(s: Text, key: Text): (r: Text)
    ensures |r| == |s|
  {
    seq(|s|, i requires 0 <= i < |s| => s[i] ^ KeyAt(key, i))
  }

  /** XOR with the same key stream undoes itself: `(c ^ k) ^ k == c`. */
  lemma XorStreamInvolutive(s: Text, key: Text)
    ensures XorStream(XorStream(s, key), key) == s
  {
    var t := XorStream(XorStream(s, key), key);
    forall i | 0 <= i < |s| ensures t[i] == s[i] {
      assert t[i] == (s[i] ^ KeyAt(key, i)) ^ KeyAt(key, i);
    }
  }

  /** The XOR loop of both workers: `String.fromCharCode(s.charCodeAt(i) ^
      keyStream[i])` appended for every position `i` of `s`. The XOR of two
      code units is again a code unit, so `fromCharCode` keeps it whole. */
  method ApplyKeyStream(s: Text, key: Text) returns (r: Text)
    ensures r == XorStream(s, key)
  {
    var keyStream := GenerateKeyStream(key, |s|);
    r := [];
    var i := 0;
    while i < |s|
      invariant 0 <= i <= |s|
      invariant |r| == i
      invariant forall k {:trigger r[k]} :: 0 <= k < i ==> r[k] == s[k] ^ KeyAt(key, k)
    {
      r := r + [s[i] ^ keyStream[i]];
      i := i + 1;
    }
  }
}
