/**
 * Galois/counter mode as the mbedtls_gcm_* functions perform it, over an
 * abstract keystream and an abstract tag accumulator.
 */
module Gcm {
  import opened Basics
  import opened Cbc

  const GCM_INPUT_MAX := 0xF_FFFF_FFE0

  /** The keystream by block number, and the accumulator: opened with the AAD, fed ciphertext, sealed. */
  datatype Gcm = Gcm(
    stream: (Key, Block, nat) -> Block,
    open: (Key, Block, Bytes) -> Block,
    absorb: (Key, Block, Bytes) -> Block,
    seal: (Key, Block, nat, nat, Block) -> Block,
    settle: (Key, Block, nat, nat, Block) -> Block)

  /** mbedtls_gcm_context: the key, and what mbedtls_gcm_starts and the updates since have left. */
  datatype Stream =
    Stream(g: Gcm, key: Key, dir: Direction, iv: Block, aadLen: nat, counter: nat, acc: Block, len: nat)
  {
    /** mbedtls_gcm_starts: begins again from the nonce, whatever came before. */
    function Started(dir: Direction, iv: Block, aad: Bytes): (s: Stream)
      ensures s.g == g && s.key == key && s.iv == iv && s.dir == dir && s.len == 0
    {
      Stream(g, key, dir, iv, |aad|, 1, g.open(key, iv, aad), 0)
    }

    /** The keystream applied to `data` from the current counter on. */
    function Text(data: Bytes): (t: Bytes)
      ensures |t| == |data|
    {
      seq(|data|, i requires 0 <= i < |data| => data[i] ^ KeyByte(i))
    }

    function KeyByte(i: nat): bv8 { g.stream(key, iv, counter + i / 16)[i % 16] }

    function Cipher(data: Bytes): (c: Bytes)
      ensures |c| == |data|
    {
      if dir == Encrypt then Text(data) else data
    }

    /** The context after mbedtls_gcm_update on `data`. */
    function Fed(data: Bytes): (s: Stream)
      ensures s.g == g && s.key == key && s.iv == iv && s.dir == dir && s.len == len + |data|
    {
      this.(counter := counter + Blocks(|data|), acc := Absorbed(g, key, acc, Cipher(data)), len := len + |data|)
    }

    function Tag(): Block { g.seal(key, iv, aadLen, len, acc) }

    function Finished(): Stream { this.(acc := g.settle(key, iv, aadLen, len, acc)) }
  }

  function Blocks(n: nat): nat { (n + 15) / 16 }

  /** The accumulator after ciphertext in blocks of 16, the last one possibly shorter. */
  function Absorbed(g: Gcm, key: Key, acc: Block, cipher: Bytes): Block
    decreases |cipher|
  {
    if cipher == [] then acc
    else
      var n := if |cipher| < 16 then |cipher| else 16;
      Absorbed(g, key, g.absorb(key, acc, cipher[..n]), cipher[n..])
  }

  lemma {:induction false} AbsorbedTwice(g: Gcm, key: Key, acc: Block, a: Bytes, b: Bytes)
    requires |a| % 16 == 0
    ensures Absorbed(g, key, Absorbed(g, key, acc, a), b) == Absorbed(g, key, acc, a + b)
    decreases |a|
  {
    if a == [] {
      assert a + b == b;
    } else {
      assert (a + b)[..16] == a[..16] && (a + b)[16..] == a[16..] + b;
      AbsorbedTwice(g, key, g.absorb(key, acc, a[..16]), a[16..], b);
    }
  }

  lemma TextTwice(ctx: Stream, a: Bytes, b: Bytes)
    requires |a| % 16 == 0
    ensures ctx.Text(a + b) == ctx.Text(a) + ctx.Fed(a).Text(b)
  {
    hide Stream.KeyByte, Stream.Fed, Stream.Text;
    var next, whole := ctx.Fed(a), a + b;
    forall i | 0 <= i < |whole| ensures ctx.Text(whole)[i] == (ctx.Text(a) + next.Text(b))[i] {
      TextAt(ctx, whole, i);
      if i < |a| {
        TextAt(ctx, a, i);
      } else {
        TextAt(next, b, i - |a|);
        KeyByteShift(ctx, a, i - |a|);
      }
    }
  }

  lemma TextAt(ctx: Stream, data: Bytes, i: nat)
    requires i < |data|
    ensures ctx.Text(data)[i] == data[i] ^ ctx.KeyByte(i)
  {
  }

  lemma KeyByteShift(ctx: Stream, a: Bytes, i: nat)
    requires |a| % 16 == 0
    ensures ctx.KeyByte(|a| + i) == ctx.Fed(a).KeyByte(i)
  {
    BlockOf(|a| / 16, i);
  }

  lemma BlockOf(n: nat, i: nat)
    ensures (16 * n + i) / 16 == n + i / 16 && (16 * n + i) % 16 == i % 16
  {
  }

  /** Chunk independence: a chunk of whole blocks leaves everything the next one needs. */
  lemma FedTwice(ctx: Stream, a: Bytes, b: Bytes)
    requires |a| % 16 == 0
    ensures ctx.Text(a + b) == ctx.Text(a) + ctx.Fed(a).Text(b)
    ensures ctx.Fed(a + b) == ctx.Fed(a).Fed(b)
  {
    TextTwice(ctx, a, b);
    hide Stream.Text, Absorbed;
    AbsorbedTwice(ctx.g, ctx.key, ctx.acc, ctx.Cipher(a), ctx.Fed(a).Cipher(b));
    assert ctx.Cipher(a + b) == ctx.Cipher(a) + ctx.Fed(a).Cipher(b);
    assert Blocks(|a + b|) == Blocks(|a|) + Blocks(|b|);
  }

  /** Decryption applies the same keystream and absorbs the same ciphertext. */
  lemma DecryptionMirrors(ctx: Stream, plain: Bytes)
    requires ctx.dir == Encrypt
    ensures var d, cipher := ctx.(dir := Decrypt), ctx.Text(plain);
            d.Text(cipher) == plain && d.Fed(cipher) == ctx.Fed(plain).(dir := Decrypt) &&
            d.Fed(cipher).Tag() == ctx.Fed(plain).Tag()
  {
    var d, cipher := ctx.(dir := Decrypt), ctx.Text(plain);
    forall i | 0 <= i < |plain| ensures d.Text(cipher)[i] == plain[i] {
      var k := ctx.KeyByte(i);
      assert (plain[i] ^ k) ^ k == plain[i];
    }
  }

  // ----- mbedtls_gcm_update on the caller's buffers -----

  function XorPrefix(b: Bytes, k: Block): (r: Bytes)
    requires |b| <= 16
    ensures |r| == |b|
  {
    seq(|b|, i requires 0 <= i < |b| => b[i] ^ k[i])
  }

  lemma TextOfBlock(ctx: Stream, b: Bytes)
    requires 0 < |b| <= 16
    ensures ctx.Text(b) == XorPrefix(b, ctx.g.stream(ctx.key, ctx.iv, ctx.counter))
  {
  }

  lemma FedBlock(ctx: Stream, b: Bytes)
    requires 0 < |b| <= 16
    ensures ctx.Fed(b) == ctx.(counter := ctx.counter + 1, acc := ctx.g.absorb(ctx.key, ctx.acc, ctx.Cipher(b)),
                               len := ctx.len + |b|)
  {
    hide Stream.Text;
    AbsorbedOnce(ctx.g, ctx.key, ctx.acc, ctx.Cipher(b));
  }

  lemma AbsorbedOnce(g: Gcm, key: Key, acc: Block, c: Bytes)
    requires 0 < |c| <= 16
    ensures Absorbed(g, key, acc, c) == g.absorb(key, acc, c)
  {
    assert c[..|c|] == c && c[|c|..] == [];
  }

  /** mbedtls_gcm_update: fails only past the mode's input limit; in place or between disjoint buffers. */
  method Update(ctx: Stream, len: nat, input: array<bv8>, output: array<bv8>) returns (rv: int, next: Stream)
    requires len <= input.Length && len <= output.Length
    modifies output
    ensures rv == 0 <==> ctx.len + len <= GCM_INPUT_MAX
    ensures if rv == 0 then next == ctx.Fed(old(input[..len])) && output[..len] == ctx.Text(old(input[..len]))
            else next == ctx && output[..] == old(output[..])
    ensures forall k :: len <= k < output.Length ==> output[k] == old(output[k])
  {
    if ctx.len + len > GCM_INPUT_MAX { return -20, ctx; }
    rv := 0;
    next := UpdateBlocks(ctx, len, input, output);
  }

  method UpdateBlock(ctx: Stream, input: array<bv8>, at: nat, use: nat, output: array<bv8>) returns (next: Stream)
    requires 0 < use <= 16 && at + use <= input.Length && at + use <= output.Length
    modifies output
    ensures var b := old(input[at..at + use]);
            next == ctx.Fed(b) && forall k :: at <= k < at + use ==> output[k] == ctx.Text(b)[k - at]
    ensures forall k :: 0 <= k < output.Length && !(at <= k < at + use) ==> output[k] == old(output[k])
  {
    hide Stream.Fed, Stream.Text, Absorbed;
    var b := input[at..at + use];
    TextOfBlock(ctx, b);
    FedBlock(ctx, b);
    var out := XorPrefix(b, ctx.g.stream(ctx.key, ctx.iv, ctx.counter));
    Memcpy(output, at, out);
    var cipher := if ctx.dir == Encrypt then out else b;
    next := ctx.(counter := ctx.counter + 1, acc := ctx.g.absorb(ctx.key, ctx.acc, cipher), len := ctx.len + use);
  }

  method UpdateBlocks(ctx: Stream, len: nat, input: array<bv8>, output: array<bv8>) returns (next: Stream)
    requires len <= input.Length && len <= output.Length
    modifies output
    ensures next == ctx.Fed(old(input[..len])) && output[..len] == ctx.Text(old(input[..len]))
    ensures forall k :: len <= k < output.Length ==> output[k] == old(output[k])
  {
    hide Stream.Fed, Stream.Text, Absorbed;
    next := ctx;
    ghost var src := input[..len];
    var n := 0;
    FedNothing(ctx);
    while n < len
      invariant 0 <= n <= len && (n < len ==> n % 16 == 0)
      invariant next == ctx.Fed(src[..n])
      invariant forall k :: 0 <= k < n ==> output[k] == ctx.Text(src[..n])[k]
      invariant forall k :: n <= k < len ==> input[k] == src[k]
      invariant forall k :: len <= k < output.Length ==> output[k] == old(output[k])
    {
      var use := if len - n < 16 then len - n else 16;
      ghost var b := src[n..n + use];
      assert input[n..n + use] == b && src[..n] + b == src[..n + use];
      FedTwice(ctx, src[..n], b);
      next := UpdateBlock(next, input, n, use, output);
      n := n + use;
    }
    assert src[..len] == src && output[..len] == ctx.Text(src);
  }

  lemma FedNothing(ctx: Stream)
    ensures ctx.Fed([]) == ctx && ctx.Text([]) == []
  {
  }
}
