/**
 * The strided and sequential memory benchmarks of benchmark/memory_bench.c.
 *
 * The strided loop steps through the buffer by 5^8 modulo its size.  It is a
 * traversal (every slot written exactly once) precisely when 5 does not divide
 * the size.
 */
module MemoryBenchmark {
  import opened Basics

  const INC := 390625

  type Char = x: int | 0 <= x < 256

  /** The index that the strided loop has reached after `i` steps. */
  function Slot(i: nat, size: nat): (s: nat)
    requires size > 0
    ensures s < size
  {
    (i * INC) % size
  }

  /** What a loop over the bytes 0, 1, 2, ... leaves in the char `sum`. */
  function RampSum(n: nat): Char { if n == 0 then 0 else (RampSum(n - 1) + (n - 1) % 256) % 256 }

  // ----- arithmetic modulo the size -----

  lemma NextSlot(i: nat, size: nat)
    requires size > 0
    ensures Slot(i + 1, size) == (Slot(i, size) + INC) % size
  {
    var x, r := i * INC, Slot(i, size);
    var q, t := x / size, (r + INC) / size;
    assert x == size * q + r && r + INC == size * t + (r + INC) % size;
    assert size * q + size * t == size * (q + t);
    assert (i + 1) * INC == x + INC;
    ModUnique(x + INC, size, q + t, (r + INC) % size);
  }

  lemma LastSlot(size: nat)
    requires size > 0
    ensures Slot(size, size) == 0 == Slot(0, size)
  {
    ModUnique(size * INC, size, INC, 0);
    ModUnique(0 * INC, size, 0, 0);
  }

  /** 5 is prime: if it divides a product with a factor it does not divide, it divides the other. */
  lemma FiveDivides(n: int, q: int, m: int)
    requires n % 5 != 0 && n * q == 5 * m
    ensures q % 5 == 0
  {
    var a, b, r, s := n / 5, q / 5, n % 5, q % 5;
    assert n == 5 * a + r && q == 5 * b + s;
    assert n * q == 5 * (a * q + r * b) + r * s by {
      assert n * q == 5 * a * q + r * (5 * b + s);
    }
    ResidueProduct(r, s, m - a * q - r * b);
  }

  lemma ResidueProduct(r: int, s: int, t: int)
    requires 1 <= r <= 4 && 0 <= s <= 4 && r * s == 5 * t
    ensures s == 0
  {
    assert (r == 1 ==> r * s == s) && (r == 2 ==> r * s == 2 * s);
    assert (r == 3 ==> r * s == 3 * s) && (r == 4 ==> r * s == 4 * s);
  }

  lemma CancelFive(n: nat, q: int, m: int) returns (p: int)
    requires n % 5 != 0 && n * q == 5 * m
    ensures n * p == m
  {
    FiveDivides(n, q, m);
    p := q / 5;
    assert q == 5 * p;
    assert n * q == 5 * (n * p);
  }

  function PowerOfFive(k: nat): nat { if k == 0 then 1 else 5 * PowerOfFive(k - 1) }

  lemma {:induction false} CancelPower(n: nat, q: int, k: nat, d: int) returns (p: int)
    requires n % 5 != 0 && n * q == PowerOfFive(k) * d
    ensures n * p == d
    decreases k
  {
    if k == 0 {
      p := q;
    } else {
      var m := PowerOfFive(k - 1) * d;
      assert PowerOfFive(k) * d == 5 * m;
      var s := CancelFive(n, q, m);
      p := CancelPower(n, s, k - 1, d);
    }
  }

  // ----- the traversal -----

  /** Within one pass no slot is reached twice. */
  lemma SlotsDiffer(i: nat, j: nat, size: nat)
    requires i < j < size && size % 5 != 0
    ensures Slot(i, size) != Slot(j, size)
  {
    if Slot(i, size) == Slot(j, size) {
      hide PowerOfFive;
      var a, b, r := i * INC / size, j * INC / size, Slot(i, size);
      assert i * INC == size * a + r && j * INC == size * b + r;
      SameRemainder(i * INC, j * INC, size, a, b, r);
      StrideIsPower();
      var p := CancelPower(size, b - a, 8, j - i);
      NoMultipleBetween(size, p);
    }
  }

  lemma NoMultipleBetween(n: nat, p: int)
    ensures n * p >= n || n * p <= 0
  {
    assert p >= 1 ==> n * p >= n;
    assert p <= 0 ==> n * p <= 0;
  }

  lemma StrideIsPower()
    ensures PowerOfFive(8) == INC
  {
    assert PowerOfFive(4) == 625;
  }

  lemma SameRemainder(x: int, y: int, n: int, a: int, b: int, r: int)
    requires x == n * a + r && y == n * b + r
    ensures n * (b - a) == y - x
  {
  }

  function Visited(n: nat, size: nat): (v: set<nat>)
    requires size > 0
  {
    set i: nat | i < n :: Slot(i, size)
  }

  lemma {:induction false} VisitedCount(n: nat, size: nat)
    requires 0 < size && n <= size && size % 5 != 0
    ensures |Visited(n, size)| == n
  {
    if n > 0 {
      VisitedCount(n - 1, size);
      var before, last := Visited(n - 1, size), Slot(n - 1, size);
      assert Visited(n, size) == before + {last};
      forall i: nat | i < n - 1 ensures Slot(i, size) != last { SlotsDiffer(i, n - 1, size); }
      assert last !in before;
    }
  }

  function Below(n: nat): (b: set<nat>)
    ensures forall s: nat :: s in b <==> s < n
    ensures |b| == n
  {
    if n == 0 then {} else Below(n - 1) + {n - 1}
  }

  lemma SubsetOfSameSize(a: set<nat>, b: set<nat>)
    requires a <= b && |a| == |b|
    ensures a == b
  {
    assert |b - a| == 0;
  }

  /** The strided loop is a traversal of every slot exactly when 5 does not divide the size. */
  lemma TraversesAll(size: nat)
    requires size > 0
    ensures Visited(size, size) == Below(size) <==> size % 5 != 0
  {
    if size % 5 != 0 {
      VisitedCount(size, size);
      SubsetOfSameSize(Visited(size, size), Below(size));
    } else {
      forall i: nat | i < size ensures Slot(i, size) != 1 { MultiplesOfFive(i, size); }
      assert 1 in Below(size) && 1 !in Visited(size, size);
    }
  }

  lemma MultiplesOfFive(i: nat, size: nat)
    requires size > 0 && size % 5 == 0
    ensures Slot(i, size) % 5 == 0
  {
    var q, c := i * INC / size, size / 5;
    assert i * INC == size * q + Slot(i, size) && size == 5 * c;
    assert size * q == 5 * (c * q);
  }

  // ----- the loops -----

  /** No later index before `n` comes back to the slot of `i`. */
  ghost predicate LastVisit(i: nat, n: nat, size: nat)
    requires size > 0
  {
    forall j: nat :: i < j < n ==> Slot(j, size) != Slot(i, size)
  }

  /** Every slot holds the index of its last visit among the first `n`, modulo 256. */
  ghost predicate LastWritten(now: seq<Char>, size: nat, n: nat)
    requires 0 < size <= |now|
  {
    forall i: nat :: i < n && LastVisit(i, n, size) ==> now[Slot(i, size)] == i % 256
  }

  /** Without a factor 5 every visit is the last one. */
  lemma EveryVisitIsLast(now: seq<Char>, size: nat)
    requires 0 < size <= |now| && size % 5 != 0 && LastWritten(now, size, size)
    ensures forall i: nat :: i < size ==> now[Slot(i, size)] == i % 256
  {
    hide Slot;
    forall i: nat | i < size ensures now[Slot(i, size)] == i % 256 {
      forall j: nat | i < j < size ensures Slot(j, size) != Slot(i, size) { SlotsDiffer(i, j, size); }
      assert LastVisit(i, size, size);
    }
  }

  lemma WritesNext(now: seq<Char>, was: seq<Char>, size: nat, n: nat)
    requires 0 < size <= |was| && LastWritten(was, size, n) && now == was[Slot(n, size) := n % 256]
    ensures LastWritten(now, size, n + 1)
  {
    hide Slot;
    forall i: nat | i < n + 1 && LastVisit(i, n + 1, size) ensures now[Slot(i, size)] == i % 256 {
      if i < n {
        assert Slot(n, size) != Slot(i, size);
        assert LastVisit(i, n, size);
      }
    }
  }

  /** The sum modulo 256 of what the first `n` visits read. */
  function SlotSum(now: seq<Char>, size: nat, n: nat): Char
    requires 0 < size <= |now|
  {
    if n == 0 then 0 else (SlotSum(now, size, n - 1) + now[Slot(n - 1, size)]) % 256
  }

  lemma {:induction false} RampIsSum(now: seq<Char>, size: nat, n: nat)
    requires 0 < size <= |now| && forall i: nat :: i < n ==> now[Slot(i, size)] == i % 256
    ensures SlotSum(now, size, n) == RampSum(n)
  {
    hide Slot;
    if n > 0 { RampIsSum(now, size, n - 1); }
  }

  /** random_memory_benchmark; the results are the locals that the C function computes and drops. */
  method RandomMemoryBenchmark(buf: array<Char>, size: int) returns (sum: Char, idx: nat)
    requires size <= buf.Length && size + INC <= INT_MAX
    modifies buf
    ensures idx == 0
    ensures size > 0 ==> LastWritten(buf[..], size, size) && sum == SlotSum(buf[..], size, size)
    ensures size % 5 != 0 ==> forall i: nat :: i < size ==> buf[Slot(i, size)] == i % 256
    ensures size % 5 != 0 ==> sum == RampSum(Length(size))
    ensures forall k :: 0 <= k < buf.Length && k >= size ==> buf[k] == old(buf[k])
  {
    hide Slot, LastWritten, SlotSum;
    idx := WriteStrided(buf, size);
    sum, idx := ReadStrided(buf, size);
  }

  /** The number of iterations of `for (i = 0; i < size; i++)`. */
  function Length(size: int): nat { if size > 0 then size else 0 }

  method WriteStrided(buf: array<Char>, size: int) returns (idx: nat)
    requires size <= buf.Length && size + INC <= INT_MAX
    modifies buf
    ensures idx == 0
    ensures size > 0 ==> LastWritten(buf[..], size, size)
    ensures size % 5 != 0 ==> forall i: nat :: i < size ==> buf[Slot(i, size)] == i % 256
    ensures forall k :: 0 <= k < buf.Length && k >= size ==> buf[k] == old(buf[k])
  {
    hide Slot, LastWritten;
    idx := 0;
    if size > 0 {
      LastSlot(size);
      NothingWritten(buf[..], size);
    }
    for i := 0 to Length(size)
      invariant if size > 0 then idx == Slot(i, size) else idx == 0
      invariant size > 0 ==> LastWritten(buf[..], size, i)
      invariant forall k :: 0 <= k < buf.Length && k >= size ==> buf[k] == old(buf[k])
    {
      ghost var was := buf[..];
      buf[idx] := i % 256;
      assert buf[..] == was[idx := i % 256];
      WritesNext(buf[..], was, size, i);
      NextSlot(i, size);
      idx := (idx + INC) % size;
    }
    if size > 0 && size % 5 != 0 { EveryVisitIsLast(buf[..], size); }
  }

  lemma NothingWritten(now: seq<Char>, size: nat)
    requires 0 < size <= |now|
    ensures LastWritten(now, size, 0)
  {
  }

  method ReadStrided(buf: array<Char>, size: int) returns (sum: Char, idx: nat)
    requires size <= buf.Length && size + INC <= INT_MAX
    ensures idx == 0
    ensures sum == if size > 0 then SlotSum(buf[..], size, size) else 0
    ensures (forall i: nat :: i < size ==> buf[Slot(i, size)] == i % 256) ==> sum == RampSum(Length(size))
  {
    hide Slot;
    sum, idx := 0, 0;
    if size > 0 { LastSlot(size); }
    for i := 0 to Length(size)
      invariant if size > 0 then idx == Slot(i, size) else idx == 0
      invariant sum == if size > 0 then SlotSum(buf[..], size, i) else 0
    {
      sum := (sum + buf[idx]) % 256;
      NextSlot(i, size);
      idx := (idx + INC) % size;
    }
    if size > 0 && forall i: nat :: i < size ==> buf[..][Slot(i, size)] == i % 256 { RampIsSum(buf[..], size, size); }
  }

  /** sequential_memory_benchmark: the same bytes, the same sum, in address order. */
  method SequentialMemoryBenchmark(buf: array<Char>, size: int) returns (sum: Char)
    requires size <= buf.Length
    modifies buf
    ensures forall i: nat :: i < size ==> buf[i] == i % 256
    ensures sum == RampSum(Length(size))
    ensures forall k :: 0 <= k < buf.Length && k >= size ==> buf[k] == old(buf[k])
  {
    sum := 0;
    for i := 0 to Length(size)
      invariant forall k: nat :: k < i ==> buf[k] == k % 256
      invariant forall k :: 0 <= k < buf.Length && k >= size ==> buf[k] == old(buf[k])
    {
      buf[i] := i % 256;
    }
    for i := 0 to Length(size)
      invariant sum == RampSum(i)
    {
      sum := (sum + buf[i]) % 256;
    }
  }
}
