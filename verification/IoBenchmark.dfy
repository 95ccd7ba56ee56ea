/**
 * The split I/O benchmark of benchmark/io_bench.c: a buffer goes to encrypted
 * storage and comes back in 32 slices.
 */
module IoBenchmark {
  import opened Basics
  import opened Cbc
  import opened Host
  import opened Storage
  import opened StorageRuns

  const SPLITS := 32

  /** `i*size/SPLITS`, where slice `i` starts. */
  function Offset(i: nat, size: nat): nat { i * size / SPLITS }

  /** The slices meet end to end, cover the buffer and are whole blocks. */
  predicate SlicesTile(size: nat) {
    && Offset(0, size) == 0 && Offset(SPLITS, size) == size && size / SPLITS % 16 == 0
    && forall i: nat :: i < SPLITS ==> Offset(i, size) + size / SPLITS == Offset(i + 1, size)
  }

  lemma {:induction false} EqualSteps(size: nat, i: nat)
    requires i <= SPLITS && SlicesTile(size)
    ensures Offset(i, size) == i * (size / SPLITS)
  {
    if i > 0 { EqualSteps(size, i - 1); }
  }

  /** The slices tile the buffer exactly for sizes divisible by 512. */
  lemma SlicesTileExactly(size: nat)
    ensures SlicesTile(size) <==> size % 512 == 0
  {
    hide Offset, SlicesTile;
    if size % 512 == 0 { WholeBlocksTile(size); }
    if SlicesTile(size) { TilesAreWholeBlocks(size); }
  }

  lemma WholeBlocksTile(size: nat)
    requires size % 512 == 0
    ensures SlicesTile(size)
  {
    hide Offset;
    FirstAndLast(size);
    WholeSlices(size);
    forall i: nat | i < SPLITS ensures Offset(i, size) + size / SPLITS == Offset(i + 1, size) { StepIsSlice(i, size); }
  }

  lemma WholeSlices(size: nat)
    requires size % 512 == 0
    ensures size / SPLITS % 16 == 0 && size % SPLITS == 0
  {
    var q := size / 512;
    assert size == SPLITS * (16 * q);
  }

  lemma FirstAndLast(size: nat)
    ensures Offset(0, size) == 0 && Offset(SPLITS, size) == size
  {
  }

  lemma StepIsSlice(i: nat, size: nat)
    requires size % SPLITS == 0
    ensures Offset(i, size) + size / SPLITS == Offset(i + 1, size)
  {
    var a, n := i * size, size / SPLITS;
    assert (i + 1) * size == a + SPLITS * n;
  }

  lemma TilesAreWholeBlocks(size: nat)
    requires SlicesTile(size)
    ensures size % 512 == 0
  {
    hide Offset;
    EqualSteps(size, SPLITS);
    Multiple512(size / SPLITS);
  }

  lemma Multiple512(n: nat)
    requires n % 16 == 0
    ensures SPLITS * n % 512 == 0
  {
  }

  lemma OffsetInside(i: nat, size: nat)
    requires i < SPLITS
    ensures Offset(i, size) + size / SPLITS <= size
  {
    assert i * size <= 31 * size;
  }

  /** Slices do not overlap, whatever the size. */
  lemma OffsetsApart(i: nat, j: nat, size: nat)
    requires i < j
    ensures Offset(i, size) + size / SPLITS <= Offset(j, size)
  {
    ProductStep(i, j, size);
    QuotientsApart(i * size, j * size, size);
  }

  lemma {:induction false} ProductStep(i: nat, j: nat, n: nat)
    requires i < j
    ensures i * n + n <= j * n
    decreases j
  {
    OneMore(j - 1, n);
    if i < j - 1 { ProductStep(i, j - 1, n); }
  }

  lemma QuotientsApart(a: nat, b: nat, n: nat)
    requires a + n <= b
    ensures a / SPLITS + n / SPLITS <= b / SPLITS
  {
  }

  // ----- what is stored -----

  /** What the first `i` slices store: a slice that is not whole blocks is refused. */
  function SliceStream(buf: Bytes, size: nat, i: nat): (s: Bytes)
    requires size <= |buf| && i <= SPLITS
    ensures |s| % 16 == 0
    decreases i, |buf|
  {
    hide StoredSlice;
    if i == 0 then [] else AppendBlocks(SliceStream(buf, size, i - 1), StoredSlice(buf, size, i - 1))
  }

  /** Whole blocks joined are whole blocks. */
  function AppendBlocks(a: Bytes, b: Bytes): (s: Bytes)
    requires |a| % 16 == 0 && |b| % 16 == 0
    ensures |s| % 16 == 0
  {
    a + b
  }

  /** What slice `i` stores. */
  function StoredSlice(buf: Bytes, size: nat, i: nat): (s: Bytes)
    requires size <= |buf| && i < SPLITS
    ensures |s| % 16 == 0
  {
    OffsetInside(i, size);
    Accepted(buf[Offset(i, size)..Offset(i, size) + size / SPLITS])
  }

  lemma StoredLength(buf: Bytes, size: nat, i: nat)
    requires size <= |buf| && i < SPLITS
    ensures |StoredSlice(buf, size, i)| == Whole(size)
  {
    hide Offset;
    OffsetInside(i, size);
  }

  /** The bytes that one slice moves. */
  function Whole(size: nat): nat { if size / SPLITS % 16 == 0 then size / SPLITS else 0 }

  /** Where the share of slice `i` starts in the stream. */
  function Start(i: nat, size: nat): nat { i * Whole(size) }

  lemma StartNext(i: nat, size: nat)
    ensures Start(i + 1, size) == Start(i, size) + Whole(size) && Start(0, size) == 0
    ensures Start(SPLITS, size) == SPLITS * Whole(size)
  {
    OneMore(i, Whole(size));
  }

  /** The stream is as long as its slices. */
  lemma {:induction false} StreamLength(buf: Bytes, size: nat, i: nat)
    requires size <= |buf| && i <= SPLITS
    ensures |SliceStream(buf, size, i)| == Start(i, size)
  {
    hide StoredSlice, Whole, Start;
    if i > 0 {
      StreamLength(buf, size, i - 1);
      StoredLength(buf, size, i - 1);
      StartNext(i - 1, size);
    } else {
      StartNext(0, size);
    }
  }

  lemma OneMore(i: nat, n: nat)
    ensures (i + 1) * n == i * n + n
  {
  }

  /** Tiling slices store the buffer in order. */
  lemma {:induction false} SlicesInOrder(buf: Bytes, size: nat, i: nat)
    requires size <= |buf| && i <= SPLITS && SlicesTile(size)
    ensures Offset(i, size) <= size && SliceStream(buf, size, i) == buf[..Offset(i, size)]
  {
    hide Offset, SliceStream;
    if i == 0 {
      EmptyStream(buf, size);
    } else {
      SlicesInOrder(buf, size, i - 1);
      StreamNext(buf, size, i);
      OffsetInside(i - 1, size);
      Consecutive(buf, Offset(i - 1, size), size / SPLITS);
    }
  }

  lemma EmptyStream(buf: Bytes, size: nat)
    requires size <= |buf|
    ensures SliceStream(buf, size, 0) == []
  {
  }

  lemma Consecutive(buf: Bytes, b: nat, n: nat)
    requires b + n <= |buf|
    ensures buf[..b] + buf[b..b + n] == buf[..b + n]
  {
  }

  /** The split write stores the whole buffer exactly for sizes divisible by 512. */
  lemma StoresWholeExactly(buf: Bytes, size: nat)
    requires size <= |buf|
    ensures SliceStream(buf, size, SPLITS) == buf[..size] <==> size % 512 == 0
  {
    hide SliceStream, SlicesTile, Offset, Start;
    StreamLength(buf, size, SPLITS);
    StartNext(0, size);
    WholeIsAll(size);
    if size % 512 == 0 {
      SlicesTileExactly(size);
      FirstAndLast(size);
      SlicesInOrder(buf, size, SPLITS);
    }
  }

  lemma WholeIsAll(size: nat)
    ensures SPLITS * Whole(size) == size ==> size % 512 == 0
  {
    if size / SPLITS % 16 == 0 { Multiple512(size / SPLITS); }
  }

  /** Of 528 bytes only 512 are stored, and of 480 none. */
  lemma NotWhole(buf: Bytes)
    requires |buf| >= 528
    ensures |SliceStream(buf, 528, SPLITS)| == 512 && SliceStream(buf, 480, SPLITS) == []
  {
    hide SliceStream, Start;
    StartNext(0, 528);
    StartNext(0, 480);
    StreamLength(buf, 528, SPLITS);
    StreamLength(buf, 480, SPLITS);
  }

  /** Slice `i` of the stream is slice `i` of the buffer. */
  lemma {:induction false} SliceOfStream(buf: Bytes, size: nat, i: nat, n: nat)
    requires size <= |buf| && i < n <= SPLITS
    ensures Start(i, size) + Whole(size) <= |SliceStream(buf, size, n)|
    ensures SliceStream(buf, size, n)[Start(i, size)..Start(i, size) + Whole(size)] == StoredSlice(buf, size, i)
    decreases n
  {
    hide StoredSlice, Whole, SliceStream, Start;
    var w, front := Whole(size), SliceStream(buf, size, n - 1);
    StreamNext(buf, size, n);
    StreamLength(buf, size, n - 1);
    StoredLength(buf, size, n - 1);
    if i < n - 1 {
      SliceOfStream(buf, size, i, n - 1);
      FrontSlice(front, StoredSlice(buf, size, n - 1), Start(i, size), w);
    } else {
      BackSlice(front, StoredSlice(buf, size, n - 1));
    }
  }

  /** The stream, slice by slice: slice `i` of whole blocks starts at byte i*size/32 of the buffer. */
  lemma StreamIs(buf: Bytes, size: nat, i: nat)
    requires size <= |buf| && i < 32 && size / 32 % 16 == 0
    ensures i * size / 32 + size / 32 <= size && i * (size / 32) + size / 32 <= |SliceStream(buf, size, 32)|
    ensures SliceStream(buf, size, 32)[i * (size / 32)..i * (size / 32) + size / 32] ==
            buf[i * size / 32..i * size / 32 + size / 32]
  {
    hide SliceStream;
    OffsetInside(i, size);
    SliceOfStream(buf, size, i, SPLITS);
  }

  lemma StreamNext(buf: Bytes, size: nat, n: nat)
    requires size <= |buf| && 0 < n <= SPLITS
    ensures SliceStream(buf, size, n) == SliceStream(buf, size, n - 1) + StoredSlice(buf, size, n - 1)
  {
    hide StoredSlice;
  }

  lemma FrontSlice(a: Bytes, b: Bytes, at: nat, n: nat)
    requires at + n <= |a|
    ensures (a + b)[at..at + n] == a[at..at + n]
  {
  }

  lemma BackSlice(a: Bytes, b: Bytes)
    ensures (a + b)[|a|..|a| + |b|] == b
  {
  }

  // ----- the benchmark's loops -----

  /** io_write_benchmark: the file holds the slices, which are the whole buffer exactly if 512 divides the size. */
  method IoWriteBenchmark(host: Files, p: Platform, buf: array<bv8>, fname: Bytes, size: nat)
    requires Ready(host, p, fname) && size <= buf.Length && 31 * size <= INT_MAX
    modifies host`ree, host`calls
    ensures Ready(host, p, fname) && CString(fname) in host.ree.files
    ensures host.ree.files[CString(fname)] == Stored(p, fname, SliceStream(buf[..], size, SPLITS))
    ensures SliceStream(buf[..], size, SPLITS) == buf[..size] <==> size % 512 == 0
  {
    hide Crypt, Offset, SliceStream;
    ghost var name, secret := CString(fname), p.attest(fname).value;
    var obj := CreateStream(host, p, fname);
    WriteSlices(host, obj, buf, size, name, Context(p.aes, secret.key, Encrypt), secret.nonce);
    StoresWholeExactly(buf[..], size);
    assert buf[..][..size] == buf[..size];
    var panics := CloseObject(host, obj);
  }

  method WriteSlices(host: Files, obj: PersistentObject, buf: array<bv8>, size: nat,
                     ghost name: Bytes, ghost ctx: Context, ghost nonce: Block)
    requires size <= buf.Length && Writing(host.ree, obj, name, ctx, nonce, [])
    modifies host`ree, host`calls, obj
    ensures Writing(host.ree, obj, name, ctx, nonce, SliceStream(buf[..], size, SPLITS)) && obj.desc == old(obj.desc)
  {
    hide Writing, Offset, SliceStream, StoredSlice;
    EmptyStream(buf[..], size);
    for i := 0 to SPLITS
      invariant Writing(host.ree, obj, name, ctx, nonce, SliceStream(buf[..], size, i)) && obj.desc == old(obj.desc)
    {
      OffsetInside(i, size);
      StreamNext(buf[..], size, i + 1);
      StoredIs(buf, size, i);
      var b := Offset(i, size);
      var rv := WriteNext(host, obj, buf, b, size / SPLITS, name, ctx, nonce, SliceStream(buf[..], size, i));
    }
  }

  lemma StoredIs(buf: array<bv8>, size: nat, i: nat)
    requires size <= buf.Length && i < SPLITS && Offset(i, size) + size / SPLITS <= buf.Length
    ensures StoredSlice(buf[..], size, i) == Accepted(buf[Offset(i, size)..Offset(i, size) + size / SPLITS])
  {
    hide Offset;
    var b, n := Offset(i, size), size / SPLITS;
    assert buf[..][b..b + n] == buf[b..b + n];
  }

  /** What slice `i` receives of a stream: as much of its share as there is. */
  function Share(plain: Bytes, i: nat, size: nat): Bytes { Window(plain, Start(i, size), Whole(size)) }

  predicate InSlice(k: int, i: nat, size: nat, len: nat) { Offset(i, size) <= k < Offset(i, size) + len }

  /** Position `k` receives a byte of the stream from one of the first `i` slices. */
  ghost predicate Receives(k: int, plain: Bytes, size: nat, i: nat) {
    exists j: nat :: j < i && InSlice(k, j, size, |Share(plain, j, size)|)
  }

  ghost predicate Arrived(now: Bytes, plain: Bytes, i: nat, size: nat) {
    var b, share := Offset(i, size), Share(plain, i, size);
    b + |share| <= |now| && now[b..b + |share|] == share
  }

  /** The first `i` slices have arrived, and the rest of the buffer is as it was. */
  ghost predicate Landed(now: Bytes, was: Bytes, plain: Bytes, size: nat, i: nat) {
    && |now| == |was|
    && (forall j: nat :: j < i ==> Arrived(now, plain, j, size))
    && (forall k :: 0 <= k < |was| && !Receives(k, plain, size, i) ==> now[k] == was[k])
  }

  lemma LandedNext(now: Bytes, mid: Bytes, was: Bytes, plain: Bytes, size: nat, i: nat)
    requires i < SPLITS && Landed(mid, was, plain, size, i) && |now| == |mid| && Arrived(now, plain, i, size)
    requires forall k :: 0 <= k < |mid| && !InSlice(k, i, size, |Share(plain, i, size)|) ==> now[k] == mid[k]
    ensures Landed(now, was, plain, size, i + 1)
  {
    hide Offset, Whole, InSlice, Arrived, Share;
    forall j: nat | j < i + 1 ensures Arrived(now, plain, j, size) {
      if j < i { KeepsEarlier(now, mid, plain, size, i, j); }
    }
    forall k | 0 <= k < |was| && !Receives(k, plain, size, i + 1) ensures now[k] == was[k] {
      assert !InSlice(k, i, size, |Share(plain, i, size)|) && !Receives(k, plain, size, i);
    }
  }

  lemma KeepsEarlier(now: Bytes, mid: Bytes, plain: Bytes, size: nat, i: nat, j: nat)
    requires j < i && |now| == |mid| && Arrived(mid, plain, j, size)
    requires forall k :: 0 <= k < |mid| && !InSlice(k, i, size, |Share(plain, i, size)|) ==> now[k] == mid[k]
    ensures Arrived(now, plain, j, size)
  {
    hide Offset, Share;
    OffsetsApart(j, i, size);
    ShareFits(plain, j, size);
    var b, w := Offset(j, size), |Share(plain, j, size)|;
    assert forall k :: b <= k < b + w ==> now[k] == mid[k];
    assert now[b..b + w] == mid[b..b + w];
  }

  lemma ShareFits(plain: Bytes, i: nat, size: nat)
    ensures |Share(plain, i, size)| <= Whole(size) <= size / SPLITS
    ensures Start(i, size) + Whole(size) <= |plain| ==>
              Share(plain, i, size) == plain[Start(i, size)..Start(i, size) + Whole(size)]
  {
    hide Start;
  }

  /** io_read_benchmark, for any stored stream: every slice arrives where it belongs and nothing else changes. */
  method IoReadBenchmark(host: Files, p: Platform, buf: array<bv8>, fname: Bytes, size: nat)
    requires Ready(host, p, fname) && CString(fname) in host.ree.files && |host.ree.files[CString(fname)]| % 16 == 0
    requires size <= buf.Length && 31 * size <= INT_MAX
    modifies host`ree, host`calls, buf
    ensures Ready(host, p, fname)
    ensures var s := p.attest(fname).value;
            var ctx, content := Context(p.aes, s.key, Decrypt), old(host.ree).files[CString(fname)];
            Landed(buf[..], old(buf[..]), Crypt(ctx, Decrypt, s.nonce, content).text, size, SPLITS)
  {
    hide Crypt, Offset, Landed;
    ghost var name, secret := CString(fname), p.attest(fname).value;
    var obj := OpenStream(host, p, fname);
    ReadSlices(host, obj, buf, size, name, Context(p.aes, secret.key, Decrypt), secret.nonce);
    var panics := CloseObject(host, obj);
  }

  method ReadSlices(host: Files, obj: PersistentObject, buf: array<bv8>, size: nat,
                    ghost name: Bytes, ghost ctx: Context, ghost nonce: Block)
    requires size <= buf.Length && Reading(host.ree, obj, name, ctx, nonce, 0)
    modifies host`ree, host`calls, obj, buf
    ensures host.ree.files == old(host.ree).files && obj.desc == old(obj.desc)
    ensures host.ree.Valid() && Persistent(obj.flags) && obj.desc in host.ree.open
    ensures name in host.ree.files && |host.ree.files[name]| % 16 == 0
    ensures Landed(buf[..], old(buf[..]), Crypt(ctx, Decrypt, nonce, host.ree.files[name]).text, size, SPLITS)
  {
    hide Crypt, Offset, Landed, Whole, Arrived, InSlice, Share, Start;
    ghost var plain := Crypt(ctx, Decrypt, nonce, host.ree.files[name]).text;
    ghost var was, pos: nat := buf[..], 0;
    NoneLanded(was, plain, size);
    StartNext(0, size);
    for i := 0 to SPLITS
      invariant host.ree.files == old(host.ree).files && obj.desc == old(obj.desc)
      invariant Reading(host.ree, obj, name, ctx, nonce, pos) && pos == Min(Start(i, size), |plain|)
      invariant Landed(buf[..], was, plain, size, i)
    {
      hide Reading;
      OffsetInside(i, size);
      var b := Offset(i, size);
      ghost var mid := buf[..];
      var rv, count := ReadNext(host, obj, buf, b, size / SPLITS, name, ctx, nonce, pos);
      ShareRead(plain, i, size, pos);
      pos := pos + count;
      assert buf[..][b..b + count] == buf[b..b + count];
      SliceLanded(buf[..], mid, plain, i, size);
      LandedNext(buf[..], mid, was, plain, size, i);
    }
  }

  lemma NoneLanded(was: Bytes, plain: Bytes, size: nat)
    ensures Landed(was, was, plain, size, 0)
  {
  }

  /** One read brings exactly its slice's share, or nothing where the slice is not whole blocks. */
  lemma ShareRead(plain: Bytes, i: nat, size: nat, pos: nat)
    requires pos == Min(Start(i, size), |plain|)
    ensures Readable(plain, pos, size / SPLITS) == Share(plain, i, size)
    ensures pos + |Share(plain, i, size)| == Min(Start(i + 1, size), |plain|)
  {
    hide Start;
    StartNext(i, size);
  }

  lemma SliceLanded(now: Bytes, mid: Bytes, plain: Bytes, i: nat, size: nat)
    requires var b, share := Offset(i, size), Share(plain, i, size);
             && b + |share| <= |now| == |mid| && now[b..b + |share|] == share
             && forall k :: 0 <= k < |mid| && !(b <= k < b + |share|) ==> now[k] == mid[k]
    ensures Arrived(now, plain, i, size)
    ensures forall k :: 0 <= k < |mid| && !InSlice(k, i, size, |Share(plain, i, size)|) ==> now[k] == mid[k]
  {
    hide Offset, Share;
  }

  // ----- the round trip -----

  /** Position `k` lies in one of the first `i` slices, and slices are whole blocks. */
  ghost predicate Covered(k: int, size: nat, i: nat) { exists j: nat :: j < i && InSlice(k, j, size, Whole(size)) }

  /** Every byte lies in a slice exactly for sizes divisible by 512. */
  lemma CoversExactly(size: nat)
    ensures (forall k :: 0 <= k < size ==> Covered(k, size, SPLITS)) <==> size % 512 == 0
  {
    hide Covered, Offset, SlicesTile;
    if size % 512 == 0 {
      SlicesTileExactly(size);
      FirstAndLast(size);
      forall k | 0 <= k < size ensures Covered(k, size, SPLITS) { TilesCover(k, size, SPLITS); }
    } else if size / SPLITS % 16 == 0 {
      LastByteMissed(size);
    } else {
      NoneCovered(size);
    }
  }

  lemma {:induction false} TilesCover(k: nat, size: nat, i: nat)
    requires SlicesTile(size) && i <= SPLITS && k < Offset(i, size)
    ensures Covered(k, size, i)
  {
    hide Offset;
    if k < Offset(i - 1, size) {
      TilesCover(k, size, i - 1);
    } else {
      assert InSlice(k, i - 1, size, Whole(size));
    }
  }

  lemma LastByteMissed(size: nat)
    requires size / SPLITS % 16 == 0 && size % 512 != 0
    ensures size > 0 && !Covered(size - 1, size, SPLITS)
  {
    hide Offset;
    LastOffset(size);
    var k, w := size - 1, Whole(size);
    forall j: nat | j < SPLITS ensures !InSlice(k, j, size, w) {
      if j < SPLITS - 1 { OffsetsApart(j, SPLITS - 1, size); }
    }
  }

  lemma LastOffset(size: nat)
    requires size / SPLITS % 16 == 0 && size % 512 != 0
    ensures Offset(SPLITS - 1, size) + size / SPLITS == size - 1
  {
    var n, r := size / SPLITS, size % SPLITS;
    assert size == SPLITS * n + r;
    if r == 0 { Multiple512(n); }
  }

  lemma NoneCovered(size: nat)
    requires size / SPLITS % 16 != 0
    ensures size > 0 && !Covered(0, size, SPLITS)
  {
  }

  /** A slice that was stored and read back holds what it held. */
  lemma SliceRestored(buf: Bytes, now: Bytes, size: nat, i: nat, k: int)
    requires i < SPLITS && size <= |buf| && Arrived(now, SliceStream(buf, size, SPLITS), i, size)
    requires InSlice(k, i, size, Whole(size))
    ensures 0 <= k < |now| && k < |buf| && now[k] == buf[k]
  {
    hide Offset, Share, SliceStream, Start;
    var plain, b, w := SliceStream(buf, size, SPLITS), Offset(i, size), Whole(size);
    OffsetInside(i, size);
    SliceOfStream(buf, size, i, SPLITS);
    ShareFits(plain, i, size);
    assert now[b..b + w] == buf[b..b + w];
    assert now[b..b + w][k - b] == buf[b..b + w][k - b];
  }

  /** Only covered positions receive anything. */
  lemma ReceivesCovered(k: int, plain: Bytes, size: nat)
    requires Receives(k, plain, size, SPLITS)
    ensures Covered(k, size, SPLITS)
  {
    hide Offset, Share, Whole;
    var j: nat :| j < SPLITS && InSlice(k, j, size, |Share(plain, j, size)|);
    ShareFits(plain, j, size);
    assert InSlice(k, j, size, Whole(size));
  }

  lemma BackIs(buf: Bytes, now: Bytes, was: Bytes, size: nat, k: int)
    requires size <= |buf| && Landed(now, was, SliceStream(buf, size, SPLITS), size, SPLITS) && 0 <= k < |was|
    ensures Covered(k, size, SPLITS) ==> k < |buf|
    ensures now[k] == if Covered(k, size, SPLITS) then buf[k] else was[k]
  {
    hide Offset, Share, SliceStream, Arrived, InSlice, Receives;
    if Covered(k, size, SPLITS) {
      var j: nat :| j < SPLITS && InSlice(k, j, size, Whole(size));
      SliceRestored(buf, now, size, j, k);
    } else if Receives(k, SliceStream(buf, size, SPLITS), size, SPLITS) {
      ReceivesCovered(k, SliceStream(buf, size, SPLITS), size);
    }
  }

  /**
   * io_read_benchmark after io_write_benchmark restores exactly the bytes that the slices cover,
   * which for sizes divisible by 512 and no others are all of them.
   */
  method IoRoundTrip(host: Files, p: Platform, buf: array<bv8>, back: array<bv8>, fname: Bytes, size: nat)
    requires Ready(host, p, fname) && p.aes.Lawful()
    requires size <= buf.Length && size <= back.Length && 31 * size <= INT_MAX
    modifies host`ree, host`calls, back
    ensures forall k :: 0 <= k < back.Length && Covered(k, size, SPLITS) ==> k < buf.Length && back[k] == old(buf[k])
    ensures forall k :: 0 <= k < back.Length && !Covered(k, size, SPLITS) ==> back[k] == old(back[k])
    ensures (forall k :: 0 <= k < size ==> Covered(k, size, SPLITS)) <==> size % 512 == 0
  {
    hide Crypt, SliceStream, Covered, Landed;
    ghost var plain, data, was := SliceStream(buf[..], size, SPLITS), buf[..], back[..];
    IoWriteBenchmark(host, p, buf, fname, size);
    ghost var secret := p.attest(fname).value;
    DecryptInverts(p.aes, secret.key, secret.nonce, plain);
    IoReadBenchmark(host, p, back, fname, size);
    CoversExactly(size);
    forall k | 0 <= k < back.Length
      ensures Covered(k, size, SPLITS) ==> k < |data|
      ensures back[k] == if Covered(k, size, SPLITS) then data[k] else was[k]
    {
      BackIs(data, back[..], was, size, k);
    }
  }
}
