/**
 * Cipher block chaining, section 6.2 of NIST SP 800-38A, as
 * mbedtls_aes_crypt_cbc performs it on the caller's buffers.  AES itself is an
 * abstract permutation of 16-byte blocks.
 */
module Cbc {
  import opened Basics

  type Block = b: seq<bv8> | |b| == 16 witness seq(16, _ => 0)

  type Key = seq<bv8>

  datatype Direction = Encrypt | Decrypt

  /** The block function under a key schedule and a direction of use, which should agree. */
  datatype Aes = Aes(crypt: (Key, Direction, Direction, Block) -> Block) {
    ghost predicate Lawful() {
      forall k, b :: crypt(k, Decrypt, Decrypt, crypt(k, Encrypt, Encrypt, b)) == b
    }
  }

  /** A context: a key with the schedule that setkey_enc or setkey_dec built. */
  datatype Context = Context(aes: Aes, key: Key, schedule: Direction) {
    function Ecb(dir: Direction, b: Block): Block { aes.crypt(key, schedule, dir, b) }
  }

  function Xor(a: Block, b: Block): Block { seq(16, i requires 0 <= i < 16 => a[i] ^ b[i]) }

  /** One block: its output and the chaining value that it leaves. */
  function Step(ctx: Context, dir: Direction, iv: Block, b: Block): (Block, Block) {
    if dir == Encrypt then var c := ctx.Ecb(Encrypt, Xor(iv, b)); (c, c)
    else (Xor(ctx.Ecb(Decrypt, b), iv), b)
  }

  /** The output of the chain and the chaining value that it leaves in the handle. */
  datatype Chain = Chain(text: seq<bv8>, iv: Block)

  function Crypt(ctx: Context, dir: Direction, iv: Block, data: seq<bv8>): (c: Chain)
    requires |data| % 16 == 0
    ensures |c.text| == |data|
    decreases |data|
  {
    if data == [] then Chain([], iv)
    else
      var (b, next) := Step(ctx, dir, iv, data[..16]);
      var rest := Crypt(ctx, dir, next, data[16..]);
      Chain(b + rest.text, rest.iv)
  }

  /** The last block of a ciphertext, or the initial value if there is none. */
  function LastBlock(iv: Block, cipher: seq<bv8>): Block
    requires |cipher| % 16 == 0
  {
    if cipher == [] then iv else cipher[|cipher| - 16..]
  }

  /** The chaining value is always the last ciphertext block processed, in either direction. */
  lemma {:induction false} ChainingValue(ctx: Context, dir: Direction, iv: Block, data: seq<bv8>)
    requires |data| % 16 == 0
    ensures var c := Crypt(ctx, dir, iv, data);
            c.iv == LastBlock(iv, if dir == Encrypt then c.text else data)
    decreases |data|
  {
    if data != [] {
      var (b, next) := Step(ctx, dir, iv, data[..16]);
      ChainingValue(ctx, dir, next, data[16..]);
    }
  }

  lemma CryptUnfolds(ctx: Context, dir: Direction, iv: Block, b: Block, rest: seq<bv8>)
    requires |rest| % 16 == 0
    ensures var (out, next) := Step(ctx, dir, iv, b);
            var c := Crypt(ctx, dir, next, rest);
            Crypt(ctx, dir, iv, b + rest) == Chain(out + c.text, c.iv)
  {
    assert (b + rest)[..16] == b && (b + rest)[16..] == rest;
  }

  /** Chunk independence: the handle's chaining value carries everything the next call needs. */
  lemma {:induction false} CryptAppend(ctx: Context, dir: Direction, iv: Block, p: seq<bv8>, q: seq<bv8>)
    requires |p| % 16 == 0 && |q| % 16 == 0
    ensures var c := Crypt(ctx, dir, iv, p);
            var d := Crypt(ctx, dir, c.iv, q);
            Crypt(ctx, dir, iv, p + q) == Chain(c.text + d.text, d.iv)
    decreases |p|
  {
    if p == [] {
      assert p + q == q;
    } else {
      var b, r := p[..16], p[16..];
      var (out, next) := Step(ctx, dir, iv, b);
      hide Step, Crypt;
      CryptAppend(ctx, dir, next, r, q);
      CryptUnfolds(ctx, dir, iv, b, r);
      CryptUnfolds(ctx, dir, iv, b, r + q);
      FirstBlock(p);
      Regrouped(b, r, q);
      var c := Crypt(ctx, dir, next, r);
      Regrouped(out, c.text, Crypt(ctx, dir, c.iv, q).text);
    }
  }

  lemma FirstBlock(p: seq<bv8>)
    requires |p| >= 16
    ensures p[..16] + p[16..] == p
  {
  }

  lemma Regrouped(a: seq<bv8>, b: seq<bv8>, c: seq<bv8>)
    ensures a + (b + c) == a + b + c
  {
  }

  lemma XorInvolution(a: Block, b: Block)
    ensures Xor(Xor(a, b), a) == b
  {
    forall i | 0 <= i < 16 ensures Xor(Xor(a, b), a)[i] == b[i] {
      assert (a[i] ^ b[i]) ^ a[i] == b[i];
    }
  }

  /** Decryption under the same key and initial value restores the plaintext. */
  lemma {:induction false} DecryptInverts(aes: Aes, key: Key, iv: Block, p: seq<bv8>)
    requires aes.Lawful() && |p| % 16 == 0
    ensures Crypt(Context(aes, key, Decrypt), Decrypt, iv,
                  Crypt(Context(aes, key, Encrypt), Encrypt, iv, p).text).text == p
    decreases |p|
  {
    if p != [] {
      var enc, dec := Context(aes, key, Encrypt), Context(aes, key, Decrypt);
      var b, r := p[..16], p[16..];
      var c := enc.Ecb(Encrypt, Xor(iv, b));
      var rest := Crypt(enc, Encrypt, c, r).text;
      DecryptInverts(aes, key, c, r);
      XorInvolution(iv, b);
      assert Crypt(enc, Encrypt, iv, p).text == c + rest;
      CryptUnfolds(dec, Decrypt, iv, c, rest);
      assert b + r == p;
    }
  }

  // ----- the equations of section 6.2 of NIST SP 800-38A -----

  /** The ciphertext block before block `i`: the initial value before the first. */
  function Before(iv: Block, cipher: seq<bv8>, i: nat): Block
    requires 16 * i <= |cipher|
  {
    if i == 0 then iv else cipher[16 * i - 16..16 * i]
  }

  /** Block `i` of a CBC encryption: the cipher of the plaintext block and the ciphertext block before it, added. */
  predicate EncryptsBlock(ctx: Context, iv: Block, plain: seq<bv8>, cipher: seq<bv8>, i: nat) {
    16 * i + 16 <= |plain| == |cipher| ==>
      var before := Before(iv, cipher, i);
      cipher[16 * i..16 * i + 16] ==
      ctx.aes.crypt(ctx.key, ctx.schedule, Encrypt,
                    seq(16, k requires 0 <= k < 16 => before[k] ^ plain[16 * i + k]))
  }

  /** Block `i` of a CBC decryption: the inverse cipher of the block, and the ciphertext block before it added. */
  predicate DecryptsBlock(ctx: Context, iv: Block, cipher: seq<bv8>, plain: seq<bv8>, i: nat) {
    16 * i + 16 <= |plain| == |cipher| ==>
      var before := Before(iv, cipher, i);
      var middle := ctx.aes.crypt(ctx.key, ctx.schedule, Decrypt, cipher[16 * i..16 * i + 16]);
      plain[16 * i..16 * i + 16] == seq(16, k requires 0 <= k < 16 => middle[k] ^ before[k])
  }

  /** The output of CBC on `data`, block by block. */
  ghost predicate Chained(ctx: Context, dir: Direction, iv: Block, data: seq<bv8>, out: seq<bv8>) {
    && |out| == |data|
    && forall i: nat :: if dir == Encrypt then EncryptsBlock(ctx, iv, data, out, i)
                        else DecryptsBlock(ctx, iv, data, out, i)
  }

  /** The chain satisfies the equations of the mode. */
  lemma CryptIsChained(ctx: Context, dir: Direction, iv: Block, data: seq<bv8>)
    requires |data| % 16 == 0
    ensures Chained(ctx, dir, iv, data, Crypt(ctx, dir, iv, data).text)
  {
    hide Crypt, EncryptsBlock, DecryptsBlock;
    var out := Crypt(ctx, dir, iv, data).text;
    forall i: nat ensures if dir == Encrypt then EncryptsBlock(ctx, iv, data, out, i)
                          else DecryptsBlock(ctx, iv, data, out, i)
    {
      if 16 * i + 16 <= |data| { BlockEquation(ctx, dir, iv, data, i); } else { NoBlock(ctx, iv, data, out, i); }
    }
  }

  lemma NoBlock(ctx: Context, iv: Block, data: seq<bv8>, out: seq<bv8>, i: nat)
    requires 16 * i + 16 > |data| == |out|
    ensures EncryptsBlock(ctx, iv, data, out, i) && DecryptsBlock(ctx, iv, data, out, i)
  {
  }

  lemma BlockEquation(ctx: Context, dir: Direction, iv: Block, data: seq<bv8>, i: nat)
    requires |data| % 16 == 0 && 16 * i + 16 <= |data|
    ensures var out := Crypt(ctx, dir, iv, data).text;
            if dir == Encrypt then EncryptsBlock(ctx, iv, data, out, i) else DecryptsBlock(ctx, iv, data, out, i)
  {
    hide Crypt;
    var n := 16 * i;
    var a, b, c := data[..n], data[n..n + 16], data[n + 16..];
    var first := Crypt(ctx, dir, iv, a);
    assert a + b == data[..n + 16] && data[..n + 16] + c == data;
    CryptAppend(ctx, dir, iv, a, b);
    CryptAppend(ctx, dir, iv, a + b, c);
    OneBlock(ctx, dir, first.iv, b);
    ChainingValue(ctx, dir, iv, a);
    var out := Crypt(ctx, dir, iv, data).text;
    var block := Step(ctx, dir, first.iv, b).0;
    MiddleBlock(out, first.text, block, n);
    BeforeIs(iv, if dir == Encrypt then out else data, i, if dir == Encrypt then first.text else a);
    StepEquation(ctx, dir, iv, data, out, i, first.iv);
  }

  lemma MiddleBlock(out: seq<bv8>, first: seq<bv8>, block: Block, n: nat)
    requires |first| == n && n + 16 <= |out| && out[..n + 16] == first + block
    ensures out[n..n + 16] == block && out[..n] == first
  {
    assert out[n..n + 16] == out[..n + 16][n..] && out[..n] == out[..n + 16][..n];
  }

  lemma BeforeIs(iv: Block, cipher: seq<bv8>, i: nat, first: seq<bv8>)
    requires 16 * i <= |cipher| && first == cipher[..16 * i]
    ensures |first| % 16 == 0 && LastBlock(iv, first) == Before(iv, cipher, i)
  {
    if i > 0 { assert first[16 * i - 16..] == cipher[16 * i - 16..16 * i]; }
  }

  lemma StepEquation(ctx: Context, dir: Direction, iv: Block, data: seq<bv8>, out: seq<bv8>, i: nat, before: Block)
    requires |out| == |data| && 16 * i + 16 <= |data|
    requires before == Before(iv, if dir == Encrypt then out else data, i)
    requires out[16 * i..16 * i + 16] == Step(ctx, dir, before, data[16 * i..16 * i + 16]).0
    ensures if dir == Encrypt then EncryptsBlock(ctx, iv, data, out, i) else DecryptsBlock(ctx, iv, data, out, i)
  {
    hide Before;
    var b := data[16 * i..16 * i + 16];
    if dir == Encrypt {
      assert Xor(before, b) == seq(16, k requires 0 <= k < 16 => before[k] ^ data[16 * i + k]);
    } else {
      var middle := ctx.Ecb(Decrypt, b);
      assert Xor(middle, before) == seq(16, k requires 0 <= k < 16 => middle[k] ^ before[k]);
    }
  }

  // ----- the chain on the caller's buffers -----

  const MBEDTLS_ERR_AES_INVALID_INPUT_LENGTH := -0x0022

  /** Source and destination are disjoint, or start at the same place. */
  ghost predicate Apart(input: array<bv8>, inAt: nat, output: array<bv8>, outAt: nat, len: nat) {
    input != output || inAt == outAt || inAt + len <= outAt || outAt + len <= inAt
  }

  /** mbedtls_aes_crypt_cbc: a length that is not a multiple of 16 is refused and nothing happens. */
  method CryptCbc(ctx: Context, dir: Direction, len: nat, iv: Block,
                  input: array<bv8>, inAt: nat, output: array<bv8>, outAt: nat)
    returns (rc: int, next: Block)
    requires inAt + len <= input.Length && outAt + len <= output.Length
    requires Apart(input, inAt, output, outAt, len)
    modifies output
    ensures rc == if len % 16 == 0 then 0 else MBEDTLS_ERR_AES_INVALID_INPUT_LENGTH
    ensures len % 16 == 0 ==>
              Chain(output[outAt..outAt + len], next) == Crypt(ctx, dir, iv, old(input[inAt..inAt + len]))
    ensures len % 16 == 0 ==> Chained(ctx, dir, iv, old(input[inAt..inAt + len]), output[outAt..outAt + len])
    ensures len % 16 != 0 ==> output[..] == old(output[..]) && next == iv
    ensures forall k :: 0 <= k < output.Length && !(outAt <= k < outAt + len) ==> output[k] == old(output[k])
  {
    if len % 16 != 0 { return MBEDTLS_ERR_AES_INVALID_INPUT_LENGTH, iv; }
    hide Crypt, Chained;
    rc := 0;
    CryptIsChained(ctx, dir, iv, input[inAt..inAt + len]);
    next := CryptBlocks(ctx, dir, len, iv, input, inAt, output, outAt);
  }

  method CryptBlocks(ctx: Context, dir: Direction, len: nat, iv: Block,
                     input: array<bv8>, inAt: nat, output: array<bv8>, outAt: nat)
    returns (next: Block)
    requires inAt + len <= input.Length && outAt + len <= output.Length && len % 16 == 0
    requires Apart(input, inAt, output, outAt, len)
    modifies output
    ensures Chain(output[outAt..outAt + len], next) == Crypt(ctx, dir, iv, old(input[inAt..inAt + len]))
    ensures forall k :: 0 <= k < output.Length && !(outAt <= k < outAt + len) ==> output[k] == old(output[k])
  {
    hide Crypt, Step, Apart, BlockAt;
    next := iv;
    ghost var src, text := input[inAt..inAt + len], [];
    NoBlocks(ctx, dir, iv);
    var n := 0;
    while n < len
      invariant 0 <= n <= len && n % 16 == 0 && |text| == n
      invariant Crypt(ctx, dir, iv, src[..n]) == Chain(text, next)
      invariant Shows(output[..], outAt, text)
      invariant Remains(input[..], inAt, src, n)
      invariant forall k :: 0 <= k < output.Length && !(outAt <= k < outAt + len) ==> output[k] == old(output[k])
    {
      hide Shows, Remains;
      NextAligned(n, len);
      SourceBlock(input[..], inAt, src, n);
      NextBlock(ctx, dir, iv, src, n, text, next);
      ghost var out := Step(ctx, dir, next, BlockAt(src, n)).0;
      ghost var was, wasIn := output[..], input[..];
      next := CryptBlock(ctx, dir, next, input, inAt + n, output, outAt + n);
      OutputBlock(output[..], was, outAt, text, out);
      SourceRemains(input, inAt, output, outAt, len, n, wasIn, src);
      text, n := text + out, n + 16;
    }
    assert src[..len] == src;
    OutputText(output[..], outAt, text);
  }

  /** The output has `text` at `outAt`. */
  ghost predicate Shows(output: seq<bv8>, outAt: nat, text: seq<bv8>) {
    outAt + |text| <= |output| && forall k :: outAt <= k < outAt + |text| ==> output[k] == text[k - outAt]
  }

  /** From its `n`-th byte on the source is as it was. */
  ghost predicate Remains(input: seq<bv8>, inAt: nat, src: seq<bv8>, n: nat) {
    inAt + |src| <= |input| && forall k :: inAt + n <= k < inAt + |src| ==> input[k] == src[k - inAt]
  }

  /** The output after one more block. */
  lemma OutputBlock(now: seq<bv8>, was: seq<bv8>, outAt: nat, text: seq<bv8>, out: Block)
    requires |now| == |was| && outAt + |text| + 16 <= |now| && Shows(was, outAt, text)
    requires forall k :: outAt + |text| <= k < outAt + |text| + 16 ==> now[k] == out[k - (outAt + |text|)]
    requires forall k :: 0 <= k < |now| && !(outAt + |text| <= k < outAt + |text| + 16) ==> now[k] == was[k]
    ensures Shows(now, outAt, text + out)
  {
  }

  /** A block written to a place apart, or over its own source, leaves the rest of the source alone. */
  lemma SourceRemains(input: array<bv8>, inAt: nat, output: array<bv8>, outAt: nat, len: nat, n: nat,
                      was: seq<bv8>, src: seq<bv8>)
    requires Apart(input, inAt, output, outAt, len) && |src| == len && n + 16 <= len && outAt + len <= output.Length
    requires Remains(was, inAt, src, n) && |was| == input.Length
    requires input != output ==> input[..] == was
    requires input == output ==>
               forall k :: 0 <= k < |was| && !(outAt + n <= k < outAt + n + 16) ==> input[k] == was[k]
    ensures Remains(input[..], inAt, src, n + 16)
  {
  }

  lemma OutputText(now: seq<bv8>, outAt: nat, text: seq<bv8>)
    requires Shows(now, outAt, text)
    ensures outAt + |text| <= |now| && now[outAt..outAt + |text|] == text
  {
  }

  lemma NextAligned(n: nat, len: nat)
    requires n % 16 == 0 && len % 16 == 0 && n < len
    ensures n + 16 <= len && (n + 16) % 16 == 0
  {
  }

  /** The next block of the source, while it is still as it was. */
  lemma SourceBlock(input: seq<bv8>, inAt: nat, src: seq<bv8>, n: nat)
    requires Remains(input, inAt, src, n) && n + 16 <= |src|
    ensures inAt + n + 16 <= |input| && input[inAt + n..inAt + n + 16] == BlockAt(src, n)
  {
  }

  method CryptBlock(ctx: Context, dir: Direction, iv: Block,
                    input: array<bv8>, inAt: nat, output: array<bv8>, outAt: nat)
    returns (next: Block)
    requires inAt + 16 <= input.Length && outAt + 16 <= output.Length
    modifies output
    ensures var (out, after) := Step(ctx, dir, iv, old(input[inAt..inAt + 16]));
            next == after && forall k :: outAt <= k < outAt + 16 ==> output[k] == out[k - outAt]
    ensures forall k :: 0 <= k < output.Length && !(outAt <= k < outAt + 16) ==> output[k] == old(output[k])
  {
    hide Step;
    var (out, after) := Step(ctx, dir, iv, input[inAt..inAt + 16]);
    Memcpy(output, outAt, out);
    next := after;
  }

  lemma NoBlocks(ctx: Context, dir: Direction, iv: Block)
    ensures Crypt(ctx, dir, iv, []) == Chain([], iv)
  {
  }

  function BlockAt(src: seq<bv8>, n: nat): Block
    requires n + 16 <= |src|
  {
    src[n..n + 16]
  }

  lemma NextBlock(ctx: Context, dir: Direction, iv: Block, src: seq<bv8>, n: nat, text: seq<bv8>, next: Block)
    requires n % 16 == 0 && n + 16 <= |src| && Crypt(ctx, dir, iv, src[..n]) == Chain(text, next)
    ensures var (out, after) := Step(ctx, dir, next, BlockAt(src, n));
            Crypt(ctx, dir, iv, src[..n + 16]) == Chain(text + out, after)
  {
    hide Crypt, Step;
    var b := BlockAt(src, n);
    assert src[..n] + b == src[..n + 16];
    CryptAppend(ctx, dir, iv, src[..n], b);
    OneBlock(ctx, dir, next, b);
  }

  lemma OneBlock(ctx: Context, dir: Direction, iv: Block, b: Block)
    ensures var (out, next) := Step(ctx, dir, iv, b); Crypt(ctx, dir, iv, b) == Chain(out, next)
  {
    CryptUnfolds(ctx, dir, iv, b, []);
    assert b + [] == b;
  }
}
