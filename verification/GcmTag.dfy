/**
 * What a GCM stream produces, in the terms of the mode alone: every output byte
 * and the tag, and which changes of the data the tag gives away.
 */
module GcmTag {
  import opened Basics
  import opened Cbc
  import opened Gcm

  // ----- the output and the tag of a stream -----

  /** Every byte is added to its byte of the keystream, whose blocks are numbered from 1. */
  ghost predicate Enciphers(g: Gcm, key: Key, nonce: Block, data: Bytes, out: Bytes) {
    |out| == |data| && forall i :: 0 <= i < |data| ==> out[i] == data[i] ^ g.stream(key, nonce, 1 + i / 16)[i % 16]
  }

  /** Block `j` of the ciphertext, the last one possibly shorter. */
  function Piece(cipher: Bytes, j: nat): Bytes { cipher[Min(16 * j, |cipher|)..Min(16 * j + 16, |cipher|)] }

  /** The accumulator opens with the AAD, absorbs the ciphertext block by block, and is sealed with both lengths. */
  ghost predicate TagChain(g: Gcm, key: Key, nonce: Block, aad: Bytes, cipher: Bytes, tag: Block, accs: seq<Block>) {
    && |accs| == (|cipher| + 15) / 16 + 1
    && accs[0] == g.open(key, nonce, aad)
    && (forall j: nat :: j + 1 < |accs| ==> accs[j + 1] == g.absorb(key, accs[j], Piece(cipher, j)))
    && tag == g.seal(key, nonce, |aad|, |cipher|, accs[|accs| - 1])
  }

  /** The tag is that of the AAD and the ciphertext. */
  ghost predicate Authentic(g: Gcm, key: Key, nonce: Block, aad: Bytes, cipher: Bytes, tag: Block) {
    exists accs :: TagChain(g, key, nonce, aad, cipher, tag, accs)
  }

  function Accs(g: Gcm, key: Key, acc: Block, cipher: Bytes): (s: seq<Block>)
    ensures |s| == (|cipher| + 15) / 16 + 1 && s[0] == acc
    decreases |cipher|
  {
    if cipher == [] then [acc]
    else [acc] + Accs(g, key, g.absorb(key, acc, Piece(cipher, 0)), Rest(cipher))
  }

  /** The ciphertext after its first block. */
  function Rest(cipher: Bytes): Bytes { cipher[Min(16, |cipher|)..] }

  lemma PieceOfRest(cipher: Bytes, j: nat)
    ensures Piece(Rest(cipher), j) == Piece(cipher, j + 1)
  {
  }

  lemma AbsorbedUnfolds(g: Gcm, key: Key, acc: Block, cipher: Bytes)
    requires cipher != []
    ensures Absorbed(g, key, acc, cipher) == Absorbed(g, key, g.absorb(key, acc, Piece(cipher, 0)), Rest(cipher))
  {
  }

  lemma {:induction false} AccsStep(g: Gcm, key: Key, acc: Block, cipher: Bytes, j: nat)
    requires j < (|cipher| + 15) / 16
    ensures var s := Accs(g, key, acc, cipher); s[j + 1] == g.absorb(key, s[j], Piece(cipher, j))
    decreases |cipher|
  {
    hide Piece;
    if j > 0 {
      AccsStep(g, key, g.absorb(key, acc, Piece(cipher, 0)), Rest(cipher), j - 1);
      PieceOfRest(cipher, j - 1);
    }
  }

  /** A chain of accumulators ends in what the ciphertext leaves. */
  lemma {:induction false} ChainEnds(g: Gcm, key: Key, cipher: Bytes, accs: seq<Block>)
    requires |accs| == (|cipher| + 15) / 16 + 1
    requires forall j: nat :: j + 1 < |accs| ==> accs[j + 1] == g.absorb(key, accs[j], Piece(cipher, j))
    ensures accs[|accs| - 1] == Absorbed(g, key, accs[0], cipher)
    decreases |cipher|
  {
    hide Piece;
    if cipher != [] {
      hide Absorbed;
      var rest, after := Rest(cipher), accs[1..];
      assert accs[0 + 1] == g.absorb(key, accs[0], Piece(cipher, 0));
      forall j: nat | j + 1 < |after| ensures after[j + 1] == g.absorb(key, after[j], Piece(rest, j)) {
        PieceOfRest(cipher, j);
        assert accs[(j + 1) + 1] == g.absorb(key, accs[j + 1], Piece(cipher, j + 1));
      }
      ChainEnds(g, key, rest, after);
      AbsorbedUnfolds(g, key, accs[0], cipher);
    }
  }

  lemma AuthenticIs(g: Gcm, key: Key, nonce: Block, aad: Bytes, cipher: Bytes, tag: Block)
    ensures Authentic(g, key, nonce, aad, cipher, tag) <==>
            tag == g.seal(key, nonce, |aad|, |cipher|, Absorbed(g, key, g.open(key, nonce, aad), cipher))
  {
    hide Absorbed, Piece, Accs;
    var acc := g.open(key, nonce, aad);
    if Authentic(g, key, nonce, aad, cipher, tag) {
      var accs :| TagChain(g, key, nonce, aad, cipher, tag, accs);
      ChainEnds(g, key, cipher, accs);
    }
    if tag == g.seal(key, nonce, |aad|, |cipher|, Absorbed(g, key, acc, cipher)) {
      var accs := Accs(g, key, acc, cipher);
      forall j: nat | j + 1 < |accs| ensures accs[j + 1] == g.absorb(key, accs[j], Piece(cipher, j)) {
        AccsStep(g, key, acc, cipher, j);
      }
      ChainEnds(g, key, cipher, accs);
      assert TagChain(g, key, nonce, aad, cipher, tag, accs);
    }
  }

  // ----- what the tag gives away -----

  /** No step of the accumulator forgets: GHASH under a nonzero hash key is such a one. */
  ghost predicate Detects(g: Gcm) {
    && (forall key, iv, n: nat, m: nat, x: Block, y: Block ::
          g.seal(key, iv, n, m, x) == g.seal(key, iv, n, m, y) ==> x == y)
    && (forall key, x: Block, y: Block, b :: g.absorb(key, x, b) == g.absorb(key, y, b) ==> x == y)
    && (forall key, x: Block, b, c ::
          |b| == |c| <= 16 && g.absorb(key, x, b) == g.absorb(key, x, c) ==> b == c)
    && (forall key, iv, a, b :: |a| == |b| <= 16 && g.open(key, iv, a) == g.open(key, iv, b) ==> a == b)
  }

  /** The same length, and different inside block `j` and nowhere else. */
  ghost predicate DiffersInBlock(a: Bytes, b: Bytes, j: nat) {
    |a| == |b| && a != b && forall k :: 0 <= k < |a| && !(16 * j <= k < 16 * j + 16) ==> a[k] == b[k]
  }

  lemma {:induction false} AbsorbedRemembers(g: Gcm, key: Key, x: Block, y: Block, cipher: Bytes)
    requires Detects(g) && x != y
    ensures Absorbed(g, key, x, cipher) != Absorbed(g, key, y, cipher)
    decreases |cipher|
  {
    hide Detects;
    if cipher != [] {
      hide Absorbed, Piece;
      var b := Piece(cipher, 0);
      DetectsAccumulator(g, key, x, y, b);
      AbsorbedRemembers(g, key, g.absorb(key, x, b), g.absorb(key, y, b), Rest(cipher));
      AbsorbedUnfolds(g, key, x, cipher);
      AbsorbedUnfolds(g, key, y, cipher);
    }
  }

  lemma DetectsAccumulator(g: Gcm, key: Key, x: Block, y: Block, b: Bytes)
    requires Detects(g) && x != y
    ensures g.absorb(key, x, b) != g.absorb(key, y, b)
  {
  }

  lemma DetectsBlock(g: Gcm, key: Key, x: Block, b: Bytes, c: Bytes)
    requires Detects(g) && |b| == |c| <= 16 && b != c
    ensures g.absorb(key, x, b) != g.absorb(key, x, c)
  {
  }

  /** A difference in one block reaches the end of the accumulator. */
  lemma {:induction false} AbsorbedDiffers(g: Gcm, key: Key, acc: Block, a: Bytes, b: Bytes, j: nat)
    requires Detects(g) && DiffersInBlock(a, b, j)
    ensures Absorbed(g, key, acc, a) != Absorbed(g, key, acc, b)
    decreases j
  {
    hide Detects, Absorbed;
    AbsorbedUnfolds(g, key, acc, a);
    AbsorbedUnfolds(g, key, acc, b);
    FirstPiece(a, b, j);
    var p, q := Piece(a, 0), Piece(b, 0);
    if j == 0 {
      DetectsBlock(g, key, acc, p, q);
      AbsorbedRemembers(g, key, g.absorb(key, acc, p), g.absorb(key, acc, q), Rest(a));
    } else {
      AbsorbedDiffers(g, key, g.absorb(key, acc, p), Rest(a), Rest(b), j - 1);
    }
  }

  /** Where the difference lies once the first block has been split off. */
  lemma FirstPiece(a: Bytes, b: Bytes, j: nat)
    requires DiffersInBlock(a, b, j)
    ensures |Piece(a, 0)| == |Piece(b, 0)| <= 16
    ensures j == 0 ==> Piece(a, 0) != Piece(b, 0) && Rest(a) == Rest(b)
    ensures j > 0 ==> Piece(a, 0) == Piece(b, 0) && DiffersInBlock(Rest(a), Rest(b), j - 1)
  {
    SplitFirst(a);
    SplitFirst(b);
    var n := Min(16, |a|);
    if j == 0 {
      forall k | 0 <= k < |Rest(a)| ensures Rest(a)[k] == Rest(b)[k] { assert a[n + k] == b[n + k]; }
    } else {
      forall k | 0 <= k < n ensures Piece(a, 0)[k] == Piece(b, 0)[k] { assert a[k] == b[k]; }
      forall k | 0 <= k < |Rest(a)| && !(16 * (j - 1) <= k < 16 * (j - 1) + 16)
        ensures Rest(a)[k] == Rest(b)[k]
      {
        assert a[n + k] == b[n + k];
      }
    }
  }

  lemma SplitFirst(a: Bytes)
    ensures a == Piece(a, 0) + Rest(a)
  {
  }

  /** A ciphertext changed inside one block does not go with the tag any more. */
  lemma ChangeShows(g: Gcm, key: Key, nonce: Block, aad: Bytes, cipher: Bytes, changed: Bytes, j: nat, tag: Block)
    requires Detects(g) && Authentic(g, key, nonce, aad, cipher, tag) && DiffersInBlock(cipher, changed, j)
    ensures !Authentic(g, key, nonce, aad, changed, tag)
  {
    hide Absorbed, Authentic;
    AuthenticIs(g, key, nonce, aad, cipher, tag);
    AuthenticIs(g, key, nonce, aad, changed, tag);
    AbsorbedDiffers(g, key, g.open(key, nonce, aad), cipher, changed, j);
  }

  /** Nor does another AAD of the same length. */
  lemma OtherAadShows(g: Gcm, key: Key, nonce: Block, aad: Bytes, other: Bytes, cipher: Bytes, tag: Block)
    requires Detects(g) && Authentic(g, key, nonce, aad, cipher, tag) && |aad| == |other| <= 16 && aad != other
    ensures !Authentic(g, key, nonce, other, cipher, tag)
  {
    hide Absorbed, Authentic;
    AuthenticIs(g, key, nonce, aad, cipher, tag);
    AuthenticIs(g, key, nonce, other, cipher, tag);
    AbsorbedRemembers(g, key, g.open(key, nonce, aad), g.open(key, nonce, other), cipher);
  }

  /** Nor does the ciphertext with another tag. */
  lemma OtherTagShows(g: Gcm, key: Key, nonce: Block, aad: Bytes, cipher: Bytes, tag: Block, other: Block)
    requires Authentic(g, key, nonce, aad, cipher, tag) && tag != other
    ensures !Authentic(g, key, nonce, aad, cipher, other)
  {
    hide Absorbed, Authentic;
    AuthenticIs(g, key, nonce, aad, cipher, tag);
    AuthenticIs(g, key, nonce, aad, cipher, other);
  }

  // ----- the hypothesis can be met -----

  /** The bytes of a block of up to 16, filled with zeros. */
  function Filled(b: Bytes): Block { seq(16, i requires 0 <= i < 16 => if i < |b| then b[i] else 0) }

  const ADDING := Gcm((key, iv, n) => iv, (key, iv, a) => Filled(a), (key, x, b) => Xor(x, Filled(b)),
                      (key, iv, n, m, x) => x, (key, iv, n, m, x) => x)

  lemma FilledInjective(a: Bytes, b: Bytes)
    requires |a| == |b| <= 16 && Filled(a) == Filled(b)
    ensures a == b
  {
    forall i | 0 <= i < |a| ensures a[i] == b[i] { assert Filled(a)[i] == Filled(b)[i]; }
  }

  lemma XorInjective(x: Block, y: Block, z: Block)
    ensures Xor(x, z) == Xor(y, z) ==> x == y
    ensures Xor(z, x) == Xor(z, y) ==> x == y
  {
    if Xor(x, z) == Xor(y, z) {
      forall i | 0 <= i < 16 ensures x[i] == y[i] { assert Xor(x, z)[i] == Xor(y, z)[i]; CancelXor(x[i], y[i], z[i]); }
    }
    if Xor(z, x) == Xor(z, y) {
      forall i | 0 <= i < 16 ensures x[i] == y[i] { assert Xor(z, x)[i] == Xor(z, y)[i]; CancelXor(x[i], y[i], z[i]); }
    }
  }

  lemma CancelXor(x: bv8, y: bv8, z: bv8)
    ensures x ^ z == y ^ z ==> x == y
    ensures z ^ x == z ^ y ==> x == y
  {
  }

  /** An accumulator that adds blocks detects every change of one. */
  lemma AddingDetects()
    ensures Detects(ADDING)
  {
    hide Xor, Filled;
    forall key: Key, x: Block, y: Block, b | ADDING.absorb(key, x, b) == ADDING.absorb(key, y, b) ensures x == y {
      XorInjective(x, y, Filled(b));
    }
    forall key: Key, x: Block, b, c | |b| == |c| <= 16 && ADDING.absorb(key, x, b) == ADDING.absorb(key, x, c)
      ensures b == c
    {
      XorInjective(Filled(b), Filled(c), x);
      FilledInjective(b, c);
    }
    forall key: Key, iv: Block, a, b | |a| == |b| <= 16 && ADDING.open(key, iv, a) == ADDING.open(key, iv, b)
      ensures a == b
    {
      FilledInjective(a, b);
    }
  }
}
