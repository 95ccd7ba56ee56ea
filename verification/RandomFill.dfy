/**
 * Filling a buffer from the host's random source: ocall_getrandom and
 * TEE_GenerateRandom of api/keystone/tee-internal-api.c, with the host's
 * replies as a stream.
 */
module RandomFill {
  import opened Basics

  /** ob16_t and ob196_t: a count or a negative error, and a block of bytes. */
  datatype Reply = Reply(ret: int, bytes: seq<bv8>) {
    predicate Valid(size: nat) { |bytes| == size && -INT_MAX - 1 <= ret <= size }
  }

  type Reply16 = r: Reply | r.Valid(16) witness Reply(0, seq(16, _ => 0))

  type Reply196 = r: Reply | r.Valid(196) witness Reply(0, seq(196, _ => 0))

  /** What arrived before the loop stopped, and the host's error if that stopped it (else 0). */
  datatype Filled = Filled(bytes: seq<bv8>, error: int) {
    function Return(): int { if error < 0 then error else AsInt(|bytes|) }
  }

  /** The int that a count wraps to. */
  function AsInt(n: int): (i: int)
    ensures -INT_MAX - 1 <= i <= INT_MAX && (-INT_MAX - 1 <= n <= INT_MAX ==> i == n)
  {
    (n + INT_MAX + 1) % UINT_RANGE - INT_MAX - 1
  }

  lemma WrapsOnce(n: nat, m: nat)
    ensures AsInt(AsInt(n) + m) == AsInt(n + m)
  {
    var q := (n + INT_MAX + 1) / UINT_RANGE;
    assert AsInt(n) == n - UINT_RANGE * q;
    var a, b := n + m + INT_MAX + 1, AsInt(n) + m + INT_MAX + 1;
    assert a == b + UINT_RANGE * q;
    ModUnique(a, UINT_RANGE, b / UINT_RANGE + q, b % UINT_RANGE);
  }

  lemma WrapsToSelf(n: nat)
    ensures AsInt(n) % UINT_RANGE == n % UINT_RANGE
  {
    var q := (n + INT_MAX + 1) / UINT_RANGE;
    assert n == AsInt(n) + UINT_RANGE * q;
    ModUnique(n, UINT_RANGE, AsInt(n) / UINT_RANGE + q, AsInt(n) % UINT_RANGE);
  }

  /** The bytes that reach the buffer when `len` are wanted and the host answers from `t` on. */
  function Fill(len: nat, replies: nat -> Reply16, t: nat): (f: Filled)
    ensures |f.bytes| <= len && -INT_MAX - 1 <= f.error <= 0
    decreases len
  {
    if len == 0 then Filled([], 0)
    else
      var r := replies(t);
      if r.ret > 0 then
        var n := if r.ret <= len then r.ret else len;
        var rest := Fill(len - n, replies, t + 1);
        Filled(r.bytes[..n] + rest.bytes, rest.error)
      else Filled([], r.ret)
  }

  lemma FillUnfolds(len: nat, replies: nat -> Reply16, t: nat, n: nat)
    requires len > 0 && replies(t).ret > 0 && n == if replies(t).ret <= len then replies(t).ret else len
    ensures Fill(len, replies, t).bytes == replies(t).bytes[..n] + Fill(len - n, replies, t + 1).bytes
    ensures Fill(len, replies, t).error == Fill(len - n, replies, t + 1).error
  {
  }

  lemma FillEnds(left: nat, replies: nat -> Reply16, t: nat)
    requires left == 0 || replies(t).ret <= 0
    ensures Fill(left, replies, t) == Filled([], if left == 0 then 0 else replies(t).ret)
  {
  }

  lemma PrefixOfConcat(head: seq<bv8>, f: seq<bv8>, g: seq<bv8>)
    requires |f| <= |g| && f == g[..|f|]
    ensures head + f == (head + g)[..|head + f|]
  {
  }

  /** A longer request only adds bytes at the end: no reply is lost, repeated or reordered. */
  lemma {:induction false} FillIsPrefix(short: nat, long: nat, replies: nat -> Reply16, t: nat)
    requires short <= long
    ensures var f, g := Fill(short, replies, t).bytes, Fill(long, replies, t).bytes;
            |f| <= |g| && f == g[..|f|] && (|f| < short ==> f == g)
    decreases short
  {
    hide Fill;
    var r := replies(t);
    if short == 0 || r.ret <= 0 {
      FillEnds(short, replies, t);
      if short > 0 { FillEnds(long, replies, t); }
    } else if r.ret > short {
      FillUnfolds(short, replies, t, short);
      FillUnfolds(long, replies, t, if r.ret <= long then r.ret else long);
      FillEnds(0, replies, t + 1);
    } else {
      FillUnfolds(short, replies, t, r.ret);
      FillUnfolds(long, replies, t, r.ret);
      FillIsPrefix(short - r.ret, long - r.ret, replies, t + 1);
      PrefixOfConcat(r.bytes[..r.ret], Fill(short - r.ret, replies, t + 1).bytes,
                     Fill(long - r.ret, replies, t + 1).bytes);
    }
  }

  /** One pass of the loop: the next reply supplies the bytes at `at`, the later ones the rest. */
  lemma FillStep(all: seq<bv8>, at: nat, left: nat, replies: nat -> Reply16, t: nat, n: nat)
    requires at <= |all| && all[at..] == Fill(left, replies, t).bytes
    requires replies(t).ret > 0 && left > 0 && n == if replies(t).ret <= left then replies(t).ret else left
    ensures at + n <= |all| && all[at..at + n] == replies(t).bytes[..n]
    ensures all[at + n..] == Fill(left - n, replies, t + 1).bytes
    ensures Fill(left - n, replies, t + 1).error == Fill(left, replies, t).error
  {
    var rest := Fill(left - n, replies, t + 1).bytes;
    assert all[at..] == replies(t).bytes[..n] + rest;
    assert all[at..at + n] == all[at..][..n] && all[at + n..] == all[at..][n..];
  }

  /** The loop of ocall_getrandom (lines 657-673), for lengths other than 196. */
  method GetRandom16(buf: array<bv8>, len: nat, replies: nat -> Reply16) returns (retval: int)
    requires len <= buf.Length
    modifies buf
    ensures var f := Fill(len, replies, 0);
            retval == f.Return() && Holds(buf[..], f.bytes, old(buf[..]))
  {
    hide Fill, AsInt;
    retval := 0;
    var at, left, t := 0, len, 0;
    ghost var all, was := Fill(len, replies, 0), buf[..];
    while left > 0
      invariant at + left == len && retval == AsInt(at) && at <= |all.bytes|
      invariant all.bytes[at..] == Fill(left, replies, t).bytes && all.error == Fill(left, replies, t).error
      invariant Holds(buf[..], all.bytes[..at], was)
      decreases left
    {
      var rret := replies(t);
      if rret.ret > 0 {
        var n := if rret.ret <= left then rret.ret else left;
        FillStep(all.bytes, at, left, replies, t, n);
        assert all.bytes[..at + n] == all.bytes[..at] + rret.bytes[..n];
        Memcpy(buf, at, rret.bytes[..n]);
        WrapsOnce(at, n);
        retval, at, left := AsInt(retval + n), at + n, left - n;
      } else {
        FillEnds(left, replies, t);
        if rret.ret < 0 { retval := rret.ret; }
        return;
      }
      t := t + 1;
    }
    FillEnds(left, replies, t);
  }

  /** The buffer starts with `bytes` and is otherwise what it was. */
  ghost predicate Holds(now: seq<bv8>, bytes: seq<bv8>, was: seq<bv8>) {
    |now| == |was| && |bytes| <= |was| &&
    forall k :: 0 <= k < |was| ==> now[k] == if k < |bytes| then bytes[k] else was[k]
  }

  /** ocall_getrandom: 196 bytes, the size of a random seed, come in one reply or not at all. */
  method GetRandom(buf: array<bv8>, len: nat, seed: Reply196, replies: nat -> Reply16) returns (retval: int)
    requires len <= buf.Length
    modifies buf
    ensures len != 196 ==>
              var f := Fill(len, replies, 0);
              retval == f.Return() && Holds(buf[..], f.bytes, old(buf[..]))
    ensures len == 196 ==>
              retval == seed.ret &&
              Holds(buf[..], if seed.ret == 196 then seed.bytes else [], old(buf[..]))
  {
    if len == 196 {
      if seed.ret == len {
        Memcpy(buf, 0, seed.bytes);
      }
      return seed.ret;
    }
    retval := GetRandom16(buf, len, replies);
  }

  /** The test `ret != randomBufferLen`, an int against an unsigned int. */
  predicate Panics(ret: int, len: nat) { ret % UINT_RANGE != len }

  /**
   * TEE_GenerateRandom: panics exactly if the buffer was not filled, but for one reply: an error that
   * as an unsigned int is the length, which no length up to 2^31 - 1 admits.
   */
  method GenerateRandom(buf: array<bv8>, len: nat, seed: Reply196, replies: nat -> Reply16) returns (panics: bool)
    requires len <= buf.Length && len < UINT_RANGE
    modifies buf
    ensures Holds(buf[..], if len != 196 then Fill(len, replies, 0).bytes else if panics then [] else seed.bytes,
                  old(buf[..]))
    ensures panics <==> if len == 196 then seed.ret != 196
                        else var f := Fill(len, replies, 0); |f.bytes| != len && f.error != len - UINT_RANGE
    ensures len <= INT_MAX && len != 196 ==> (panics <==> |Fill(len, replies, 0).bytes| != len)
  {
    hide Fill, AsInt;
    var ret := GetRandom(buf, len, seed, replies);
    if len != 196 {
      ReturnsOnlyWhenFull(len, replies);
    }
    panics := Panics(ret, len);
  }

  /** A short fill goes unnoticed exactly when the host's error, read as unsigned, is the length. */
  lemma ReturnsOnlyWhenFull(len: nat, replies: nat -> Reply16)
    requires len < UINT_RANGE
    ensures var f := Fill(len, replies, 0);
            !Panics(f.Return(), len) <==> |f.bytes| == len || f.error == len - UINT_RANGE
    ensures len <= INT_MAX ==>
              var f := Fill(len, replies, 0); !Panics(f.Return(), len) <==> |f.bytes| == len
  {
    hide Fill, AsInt;
    FullHasNoError(len, replies, 0);
    WrapsToSelf(|Fill(len, replies, 0).bytes|);
  }

  lemma {:induction false} FullHasNoError(len: nat, replies: nat -> Reply16, t: nat)
    ensures var f := Fill(len, replies, t); |f.bytes| == len ==> f.error == 0
    decreases len
  {
    if len > 0 && replies(t).ret > 0 {
      var n := if replies(t).ret <= len then replies(t).ret else len;
      FullHasNoError(len - n, replies, t + 1);
    }
  }

  /** With 4294967295 bytes wanted, the host's error -1 passes for success and nothing is written. */
  lemma ErrorPassesForLength(replies: nat -> Reply16)
    requires replies(0).ret == -1
    ensures var f := Fill(UINT_RANGE - 1, replies, 0);
            f.bytes == [] && !Panics(f.Return(), UINT_RANGE - 1)
  {
  }
}
