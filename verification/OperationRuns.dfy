/**
 * Whole runs on operation handles: the safety of every call sequence on a GCM
 * handle, and the round trips of chunked CBC and streamed GCM.
 */
module OperationRuns {
  import opened Basics
  import opened Cbc
  import opened CryptoOperation
  import Gcm
  import opened GcmTag

  // ----- every call sequence on a GCM handle -----

  datatype Call =
    | CallSetKey(key: Option<KeyObject>)
    | CallInit(nonce: Option<Bytes>, nonceLen: nat, tagLen: nat, aadLen: nat)
    | CallAad(aad: Option<Bytes>, aadLen: nat)
    | CallUpdate(data: Option<Bytes>, hasDest: bool, hasLen: bool)
    | CallEncryptFinal(data: Option<Bytes>, hasDest: bool, hasLen: bool, hasTag: bool, tagRoom: Option<nat>)
    | CallDecryptFinal(data: Option<Bytes>, hasDest: bool, hasLen: bool, tag: Option<Block>, tagSize: nat)
    | CallCipherInit(iv: Bytes)
    | CallCipherUpdate(text: Bytes)
  {
    /** A pointer comes with as many bytes as its length says. */
    predicate Sound() {
      match this
      case CallInit(nonce, n, _, _) => nonce.Some? ==> |nonce.value| >= n
      case CallAad(aad, n) => aad.Some? ==> |aad.value| >= n
      case _ => true
    }

    predicate UsesStream() { CallAad? || CallUpdate? || CallEncryptFinal? || CallDecryptFinal? }
  }

  method Buffer(data: Bytes) returns (a: array<bv8>)
    ensures fresh(a) && a[..] == data
  {
    a := new bv8[|data|](i requires 0 <= i < |data| => data[i]);
  }

  method Source(data: Option<Bytes>) returns (a: array?<bv8>)
    ensures data == None ==> a == null
    ensures data.Some? ==> a != null && fresh(a) && a[..] == data.value
  {
    a := null;
    if data.Some? { a := Buffer(data.value); }
  }

  method Destination(given: bool, len: nat) returns (a: array?<bv8>)
    ensures given <==> a != null
    ensures a != null ==> fresh(a) && a.Length == len
  {
    a := null;
    if given { a := new bv8[len]; }
  }

  /** One call; the key flag, the state and the nonce change only as its success says. */
  method Execute(op: Operation, call: Call) returns (r: Outcome)
    requires op.Safe() && op.alg == AesGcm && call.Sound()
    modifies op
    ensures op.Safe() && old(op.trace) <= op.trace
    ensures r == Ok && call.UsesStream() ==> op.Recorded() && old(op.aegcmState) != 0
    ensures r == Ok && call.CallInit? ==> old(op.aegcmState) == 0 && KeyIsSet(old(op.flags))
    ensures op.aegcmState != 0 <==> old(op.aegcmState) != 0 || (r == Ok && call.CallInit?)
    ensures KeyIsSet(op.flags) <==> KeyIsSet(old(op.flags)) || (r == Ok && call.CallSetKey?)
    ensures r == Ok && call.CallInit? ==>
              call.nonce.Some? && |call.nonce.value| >= 16 && op.aeiv == call.nonce.value[..16]
    ensures !(r == Ok && call.CallInit?) ==> op.aeiv == old(op.aeiv)
  {
    hide KeyIsSet, WithKey;
    match call
    case CallSetKey(key) => r := op.SetOperationKey(key);
    case CallInit(nonce, n, t, a) => r := op.AEInit(nonce, n, t, a);
    case CallAad(aad, n) => r := op.AEUpdateAAD(aad, n);
    case CallUpdate(data, d, l) => r := Feed(op, data, d, l);
    case CallEncryptFinal(data, d, l, t, n) => r := FinishEncrypt(op, data, d, l, t, n);
    case CallDecryptFinal(data, d, l, t, n) => r := FinishDecrypt(op, data, d, l, t, n);
    case CallCipherInit(iv) => r := op.CipherInit(iv, |iv|);
    case CallCipherUpdate(text) =>
      var src := Buffer(text);
      var destLen;
      r, destLen := op.CipherUpdate(src, |text|, src);
  }

  function Size(data: Option<Bytes>): nat { if data == None then 0 else |data.value| }

  method Feed(op: Operation, data: Option<Bytes>, hasDest: bool, hasLen: bool) returns (r: Outcome)
    requires op.Safe()
    modifies op
    ensures op.Safe() && old(op.trace) <= op.trace && (r == Ok ==> op.Recorded() && old(op.aegcmState) != 0)
    ensures (op.aegcmState == 0 <==> old(op.aegcmState) == 0) && op.flags == old(op.flags) && op.aeiv == old(op.aeiv)
  {
    var src := Source(data);
    var dest := Destination(hasDest, Size(data));
    var destLen;
    r, destLen := op.AEUpdate(src, Size(data), dest, hasLen);
  }

  method FinishEncrypt(op: Operation, data: Option<Bytes>, hasDest: bool, hasLen: bool, hasTag: bool, room: Option<nat>)
    returns (r: Outcome)
    requires op.Safe()
    modifies op
    ensures op.Safe() && old(op.trace) <= op.trace && (r == Ok ==> op.Recorded() && old(op.aegcmState) != 0)
    ensures (op.aegcmState == 0 <==> old(op.aegcmState) == 0) && op.flags == old(op.flags) && op.aeiv == old(op.aeiv)
  {
    var src := Source(data);
    var dest := Destination(hasDest, Size(data));
    var destLen, tag;
    r, destLen, tag := op.AEEncryptFinal(src, Size(data), dest, hasLen, hasTag, room);
  }

  method FinishDecrypt(op: Operation, data: Option<Bytes>, hasDest: bool, hasLen: bool, tag: Option<Block>, size: nat)
    returns (r: Outcome)
    requires op.Safe()
    modifies op
    ensures op.Safe() && old(op.trace) <= op.trace && (r == Ok ==> op.Recorded() && old(op.aegcmState) != 0)
    ensures (op.aegcmState == 0 <==> old(op.aegcmState) == 0) && op.flags == old(op.flags) && op.aeiv == old(op.aeiv)
  {
    var src := Source(data);
    var dest := Destination(hasDest, Size(data));
    var destLen;
    r, destLen := op.AEDecryptFinal(src, Size(data), dest, hasLen, tag, size);
  }

  /** Whether a handle has a key, where it was set, whether the handle is initialised, and its nonce. */
  datatype State = State(key: bool, keyed: int, active: bool, iv: Block) {
    /** The state after a call on a handle, as Execute promises it. */
    predicate Leads(next: State, call: Call, r: Outcome, at: nat) {
      var inits, sets := r == Ok && call.CallInit?, r == Ok && call.CallSetKey?;
      && (r == Ok && call.UsesStream() ==> active)
      && (inits ==> key && !active && call.nonce.Some? && |call.nonce.value| >= 16 && next.iv == call.nonce.value[..16])
      && (!inits ==> next.iv == iv)
      && (next.active <==> active || inits)
      && (next.key <==> key || sets) && next.keyed == if sets then at else keyed
    }
  }

  ghost function StateOf(op: Operation, keyed: int): State
    reads op
  {
    State(KeyIsSet(op.flags), keyed, op.aegcmState != 0, op.aeiv)
  }

  /** A run's calls and their outcomes; the positions of a key and of an initialisation in it. */
  datatype History = History(calls: seq<Call>, outcomes: seq<Outcome>, key: int, init: int) {
    predicate Succeeded(i: int) { 0 <= i < |outcomes| <= |calls| && outcomes[i] == Ok }

    /** A key was set successfully at `key`, and then the handle was initialised successfully at `init`. */
    predicate KeyedAndInited() {
      key < init && Succeeded(key) && calls[key].CallSetKey? && Succeeded(init) && calls[init].CallInit?
    }

    /** No other initialisation succeeded, and every successful AAD or data call came after this one. */
    ghost predicate InOrder() {
      && (forall i :: Succeeded(i) && calls[i].CallInit? ==> i == init && KeyedAndInited())
      && (forall i :: Succeeded(i) && calls[i].UsesStream() ==> init < i && KeyedAndInited())
    }

    /** What a handle says of its calls: whether it has a key and a state, and its nonce. */
    ghost predicate Explains(s: State) {
      && |outcomes| <= |calls| && InOrder()
      && (s.key ==> Succeeded(s.keyed) && calls[s.keyed].CallSetKey?)
      && (if s.active then KeyedAndInited() && NonceIs(s.iv) else Unused())
    }

    /** Neither an initialisation nor an AAD or data call succeeded. */
    ghost predicate Unused() {
      forall i :: Succeeded(i) ==> !calls[i].CallInit? && !calls[i].UsesStream()
    }

    predicate NonceIs(iv: Block)
      requires KeyedAndInited()
    {
      calls[init].nonce.Some? && |calls[init].nonce.value| >= 16 && iv == calls[init].nonce.value[..16]
    }
  }

  /** A history after one more outcome. */
  function Extended(h: History, r: Outcome, keyed: int): History
    requires |h.outcomes| < |h.calls|
  {
    var g := h.(outcomes := h.outcomes + [r]);
    if r == Ok && h.calls[|h.outcomes|].CallInit? then g.(key := keyed, init := |h.outcomes|) else g
  }

  /** One more call keeps the explanation. */
  lemma ExplainsNext(h: History, r: Outcome, s: State, next: State)
    requires |h.outcomes| < |h.calls| && h.Explains(s) && s.Leads(next, h.calls[|h.outcomes|], r, |h.outcomes|)
    ensures Extended(h, r, s.keyed).Explains(next)
  {
    var g, n := Extended(h, r, s.keyed), |h.outcomes|;
    assert forall i :: h.Succeeded(i) ==> g.Succeeded(i);
    assert forall i :: g.Succeeded(i) && i != n ==> h.Succeeded(i);
    assert g.Succeeded(n) <==> r == Ok;
  }

  /** Every successful AAD or data call has its mark in the trace. */
  ghost predicate Sits(trace: seq<Event>, calls: seq<Call>, outcomes: seq<Outcome>, marks: seq<nat>) {
    |marks| == |outcomes| <= |calls| &&
    forall i :: 0 <= i < |outcomes| && outcomes[i] == Ok && calls[i].UsesStream() ==>
      marks[i] < |trace| && trace[marks[i]] == Used
  }

  lemma SitsNext(was: seq<Event>, now: seq<Event>, calls: seq<Call>, outcomes: seq<Outcome>, r: Outcome,
                 marks: seq<nat>)
    requires Sits(was, calls, outcomes, marks) && |outcomes| < |calls| && was <= now
    requires r == Ok && calls[|outcomes|].UsesStream() ==> now != [] && now[|now| - 1] == Used
    ensures Sits(now, calls, outcomes + [r], marks + [LastOf(now)])
  {
  }

  function LastOf(trace: seq<Event>): nat { if trace == [] then 0 else |trace| - 1 }

  /** Each mark in the trace of a safe handle comes after a key and then an initialisation. */
  lemma SitsInOrder(op: Operation, calls: seq<Call>, outcomes: seq<Outcome>, marks: seq<nat>)
    requires op.Safe() && Sits(op.trace, calls, outcomes, marks)
    ensures forall i :: 0 <= i < |outcomes| && outcomes[i] == Ok && calls[i].UsesStream() ==>
              KeyThenInit(op.trace, marks[i])
  {
    hide Operation.Safe, KeyThenInit;
    SafeIsOrdered(op);
    forall i | 0 <= i < |outcomes| && outcomes[i] == Ok && calls[i].UsesStream()
      ensures KeyThenInit(op.trace, marks[i])
    {
      OrderedMeans(op.trace, marks[i]);
    }
  }

  /**
   * AE run safety.  However the calls on a handle are chosen, it stays safe up to the first panic, and
   * each successful AAD or data call sits in the trace after a key and then an initialisation.  On a
   * handle without a key at most one initialisation succeeds, after a call that set a key; every
   * successful AAD or data call comes after it, and the handle keeps its nonce.
   */
  method Run(op: Operation, calls: seq<Call>) returns (outcomes: seq<Outcome>, ghost marks: seq<nat>, ghost h: History)
    requires op.Safe() && op.alg == AesGcm && forall i :: 0 <= i < |calls| ==> calls[i].Sound()
    modifies op
    ensures op.Safe() && Sits(op.trace, calls, outcomes, marks)
    ensures |outcomes| < |calls| ==> outcomes != [] && outcomes[|outcomes| - 1] == Panic
    ensures forall i :: 0 <= i < |outcomes| && outcomes[i] == Ok && calls[i].UsesStream() ==>
              KeyThenInit(op.trace, marks[i])
    ensures h.calls == calls && h.outcomes == outcomes
    ensures !KeyIsSet(old(op.flags)) ==> h.InOrder()
    ensures !KeyIsSet(old(op.flags)) && op.aegcmState != 0 ==> h.KeyedAndInited() && h.NonceIs(op.aeiv)
    ensures !KeyIsSet(old(op.flags)) && op.aegcmState == 0 ==> h.Unused()
  {
    hide Operation.Safe, KeyIsSet, History.InOrder, History.Explains, History.Unused, Sits, KeyThenInit;
    outcomes, marks, h := [], [], History(calls, [], -1, -1);
    ghost var keyless, keyed := !KeyIsSet(op.flags), -1;
    NothingSits(op.trace, calls);
    if keyless {
      KeylessIsIdle(op);
      NothingYet(h, StateOf(op, keyed));
    }
    while |outcomes| < |calls|
      invariant op.Safe() && |outcomes| <= |calls| && h.calls == calls && h.outcomes == outcomes
      invariant Sits(op.trace, calls, outcomes, marks)
      invariant keyless ==> h.Explains(StateOf(op, keyed))
    {
      var call := calls[|outcomes|];
      ghost var s, was := StateOf(op, keyed), op.trace;
      var r := Execute(op, call);
      if r == Ok && call.CallSetKey? { keyed := |outcomes|; }
      if keyless { ExplainsNext(h, r, s, StateOf(op, keyed)); }
      h := Extended(h, r, s.keyed);
      SitsNext(was, op.trace, calls, outcomes, r, marks);
      outcomes, marks := outcomes + [r], marks + [LastOf(op.trace)];
      if r == Panic { break; }
    }
    if keyless { Explained(h, StateOf(op, keyed)); }
    SitsInOrder(op, calls, outcomes, marks);
  }

  lemma NothingSits(trace: seq<Event>, calls: seq<Call>)
    ensures Sits(trace, calls, [], [])
  {
  }

  lemma KeylessIsIdle(op: Operation)
    requires op.Safe() && !KeyIsSet(op.flags)
    ensures op.aegcmState == 0
  {
  }

  lemma NothingYet(h: History, s: State)
    requires h.outcomes == [] && !s.key && !s.active
    ensures h.Explains(s)
  {
  }

  lemma Explained(h: History, s: State)
    requires h.Explains(s)
    ensures h.InOrder() && if s.active then h.KeyedAndInited() && h.NonceIs(s.iv) else h.Unused()
  {
  }

  /** What the state of a safe handle implies: one initialisation, its nonce still in place, a key before it. */
  lemma SafeMeans(op: Operation) returns (j: nat)
    requires op.Safe() && op.aegcmState != 0
    ensures KeyIsSet(op.flags) && op.alg == AesGcm
    ensures j < |op.trace| && op.trace[j] == Inited(op.aeiv) && HasBefore(op.trace, j, false)
    ensures forall i :: 0 <= i < |op.trace| && op.trace[i].Inited? ==> i == j
  {
    j := OneInit(op.trace);
    OrderedMeans(op.trace, j);
  }

  lemma SafeIsOrdered(op: Operation)
    requires op.Safe()
    ensures Summarize(op.trace).ordered
  {
  }

  // ----- chunked CBC -----

  predicate WholeBlocks(chunks: seq<Bytes>) { forall i :: 0 <= i < |chunks| ==> |chunks[i]| % 16 == 0 }

  lemma AlignedSum(a: nat, b: nat)
    requires a % 16 == 0 && b % 16 == 0
    ensures (a + b) % 16 == 0
  {
  }

  lemma {:induction false} JoinWhole(chunks: seq<Bytes>)
    requires WholeBlocks(chunks)
    ensures |Join(chunks)| % 16 == 0
  {
    if chunks != [] {
      var n := |chunks| - 1;
      JoinWhole(chunks[..n]);
      AlignedSum(|Join(chunks[..n])|, |chunks[n]|);
    }
  }

  /** TEE_CipherUpdate on every chunk (TEE_CipherDoFinal is the same call), in place or not: one chain. */
  method CipherChunks(op: Operation, chunks: seq<Bytes>, inPlace: nat -> bool) returns (out: Bytes)
    requires op.alg == AesCbcNoPad && (op.mode == ModeEncrypt || op.mode == ModeDecrypt) && op.aectx.Some?
    requires WholeBlocks(chunks)
    modifies op
    ensures |Join(chunks)| % 16 == 0
    ensures Chain(out, op.aeiv) == Crypt(old(op.aectx).value, op.Dir(), old(op.aeiv), Join(chunks))
    ensures Chained(old(op.aectx).value, op.Dir(), old(op.aeiv), Join(chunks), out)
    ensures op.aectx == old(op.aectx)
  {
    hide Crypt, Join, Chained;
    ghost var ctx, dir, iv := op.aectx.value, op.Dir(), op.aeiv;
    out := [];
    NoBlocks(ctx, dir, iv);
    JoinNone(chunks);
    for i := 0 to |chunks|
      invariant op.aectx == Some(ctx) && |Join(chunks[..i])| % 16 == 0
      invariant Chain(out, op.aeiv) == Crypt(ctx, dir, iv, Join(chunks[..i]))
    {
      JoinNext(chunks, i);
      CryptAppend(ctx, dir, iv, Join(chunks[..i]), chunks[i]);
      var part := CipherChunk(op, chunks[i], inPlace(i));
      out := out + part;
    }
    assert chunks[..|chunks|] == chunks;
    CryptIsChained(ctx, dir, iv, Join(chunks));
  }

  lemma JoinNone(chunks: seq<Bytes>)
    ensures Join(chunks[..0]) == []
  {
  }

  lemma JoinNext(chunks: seq<Bytes>, i: nat)
    requires i < |chunks| && WholeBlocks(chunks)
    ensures Join(chunks[..i + 1]) == Join(chunks[..i]) + chunks[i]
    ensures |Join(chunks[..i])| % 16 == |Join(chunks[..i + 1])| % 16 == 0
  {
    assert chunks[..i + 1][..i] == chunks[..i];
    JoinWhole(chunks[..i]);
    JoinWhole(chunks[..i + 1]);
  }

  method CipherChunk(op: Operation, chunk: Bytes, inPlace: bool) returns (part: Bytes)
    requires op.alg == AesCbcNoPad && (op.mode == ModeEncrypt || op.mode == ModeDecrypt) && op.aectx.Some?
    requires |chunk| % 16 == 0
    modifies op
    ensures Chain(part, op.aeiv) == Crypt(old(op.aectx).value, op.Dir(), old(op.aeiv), chunk)
    ensures op.aectx == old(op.aectx)
  {
    hide Crypt, Summarize;
    var src := Buffer(chunk);
    var dest := src;
    if !inPlace { dest := new bv8[|chunk|]; }
    assert src[..|chunk|] == chunk;
    var r, destLen := op.CipherUpdate(src, |chunk|, dest);
    part := dest[..|chunk|];
  }

  /** A handle for CBC, with its key set and its nonce installed. */
  method CipherHandle(lib: Library, mode: Mode, key: Key, nonce: Block) returns (op: Operation)
    requires mode == ModeEncrypt || mode == ModeDecrypt
    ensures fresh(op) && op.alg == AesCbcNoPad && op.mode == mode && op.aeiv == nonce
    ensures op.aectx == Some(Context(lib.aes, key, op.Dir()))
  {
    hide Summarize;
    var r, o := AllocateOperation(lib, AesCbcNoPad, mode, true, ZERO);
    r := o.SetOperationKey(Some(KeyObject(AesKey, key)));
    r := o.CipherInit(nonce, 16);
    assert nonce[..16] == nonce;
    op := o;
  }

  function Total(sizes: seq<nat>): nat { if sizes == [] then 0 else sizes[0] + Total(sizes[1..]) }

  function Cut(s: Bytes, sizes: seq<nat>): (c: seq<Bytes>)
    requires Total(sizes) == |s|
    decreases |sizes|
  {
    if sizes == [] then [] else [s[..sizes[0]]] + Cut(s[sizes[0]..], sizes[1..])
  }

  lemma {:induction false} JoinFront(head: Bytes, tail: seq<Bytes>)
    ensures Join([head] + tail) == head + Join(tail)
    decreases |tail|
  {
    if tail == [] {
      assert [head] + tail == [head];
    } else {
      var n := |tail| - 1;
      assert ([head] + tail)[..n + 1] == [head] + tail[..n];
      JoinFront(head, tail[..n]);
    }
  }

  /** Cutting into any sizes that add up loses nothing. */
  lemma {:induction false} CutJoins(s: Bytes, sizes: seq<nat>)
    requires Total(sizes) == |s|
    ensures Join(Cut(s, sizes)) == s
    decreases |sizes|
  {
    if sizes != [] {
      hide Join;
      CutJoins(s[sizes[0]..], sizes[1..]);
      JoinFront(s[..sizes[0]], Cut(s[sizes[0]..], sizes[1..]));
      HeadAndRest(s, sizes[0]);
    }
  }

  lemma HeadAndRest(s: Bytes, k: nat)
    requires k <= |s|
    ensures s[..k] + s[k..] == s
  {
  }

  lemma {:induction false} CutWhole(s: Bytes, sizes: seq<nat>)
    requires Total(sizes) == |s| && forall i :: 0 <= i < |sizes| ==> sizes[i] % 16 == 0
    ensures WholeBlocks(Cut(s, sizes)) && |Cut(s, sizes)| == |sizes|
    decreases |sizes|
  {
    if sizes != [] { CutWhole(s[sizes[0]..], sizes[1..]); }
  }

  /** Encrypting in any chunks and decrypting in any other chunks restores the plaintext. */
  method CbcRoundTrip(lib: Library, key: Key, nonce: Block, chunks: seq<Bytes>, sizes: seq<nat>,
                      inPlace: nat -> bool)
    returns (cipher: Bytes, plain: Bytes)
    requires lib.aes.Lawful() && WholeBlocks(chunks)
    requires Total(sizes) == |Join(chunks)| && forall i :: 0 <= i < |sizes| ==> sizes[i] % 16 == 0
    ensures |Join(chunks)| % 16 == 0
    ensures cipher == Crypt(Context(lib.aes, key, Encrypt), Encrypt, nonce, Join(chunks)).text
    ensures Chained(Context(lib.aes, key, Encrypt), Encrypt, nonce, Join(chunks), cipher)
    ensures plain == Join(chunks)
  {
    hide Crypt, Cut, Join, Chained;
    var enc := CipherHandle(lib, ModeEncrypt, key, nonce);
    cipher := CipherChunks(enc, chunks, inPlace);
    DecryptInverts(lib.aes, key, nonce, Join(chunks));
    CutJoins(cipher, sizes);
    CutWhole(cipher, sizes);
    var dec := CipherHandle(lib, ModeDecrypt, key, nonce);
    plain := CipherChunks(dec, Cut(cipher, sizes), inPlace);
  }

  // ----- streamed GCM -----

  function AadBytes(aad: Option<Bytes>): Bytes { if aad == None then [] else aad.value }

  /** A handle for GCM, with its key set and initialised with its nonce. */
  method GcmHandle(lib: Library, mode: Mode, key: Key, nonce: Block) returns (op: Operation)
    requires mode == ModeEncrypt || mode == ModeDecrypt
    ensures fresh(op) && op.Safe() && op.alg == AesGcm && op.mode == mode && op.aeiv == nonce
    ensures op.aegcmState == GCM_ST_INIT && op.gcm.g == lib.gcm && op.gcm.key == key
  {
    var r, o := AllocateOperation(lib, AesGcm, mode, true, ZERO);
    hide Summarize;
    r := o.SetOperationKey(Some(KeyObject(AesKey, key)));
    r := o.AEInit(Some(nonce), 16, 128, 16);
    assert nonce[..16] == nonce;
    op := o;
  }

  /** The stream that a key, a nonce and an AAD begin. */
  function Fresh(g: Gcm.Gcm, key: Key, dir: Direction, nonce: Block, aad: Bytes): (s: Gcm.Stream)
    ensures s.len == 0 && s.dir == dir
  {
    Gcm.Stream(g, key, dir, nonce, |aad|, 1, g.open(key, nonce, aad), 0)
  }

  /** The handle is about to feed the stream `s`, and `data` has been fed to it since `begin`. */
  ghost predicate Streaming(op: Operation, begin: Gcm.Stream, data: Bytes)
    reads op
  {
    op.alg == AesGcm && op.aegcmState >= GCM_ST_INIT && op.Begun() == begin.Fed(data)
  }

  /** TEE_AEUpdateAAD if there is an AAD; without the call the stream begins with an empty one. */
  method BeginStream(op: Operation, aad: Option<Bytes>)
    requires op.alg == AesGcm && op.aegcmState == GCM_ST_INIT && |AadBytes(aad)| <= 16
    modifies op
    ensures Streaming(op, Fresh(old(op.gcm).g, old(op.gcm).key, op.Dir(), old(op.aeiv), AadBytes(aad)), [])
  {
    hide Summarize;
    ghost var begin := Fresh(op.gcm.g, op.gcm.key, op.Dir(), op.aeiv, AadBytes(aad));
    Gcm.FedNothing(begin);
    if aad.Some? {
      assert aad.value[..|aad.value|] == aad.value;
      var r := op.AEUpdateAAD(aad, |aad.value|);
    }
  }

  method StreamChunks(op: Operation, chunks: seq<Bytes>, ghost begin: Gcm.Stream) returns (out: Bytes)
    requires Streaming(op, begin, []) && WholeBlocks(chunks) && begin.len + |Join(chunks)| <= Gcm.GCM_INPUT_MAX
    modifies op
    ensures Streaming(op, begin, Join(chunks)) && out == begin.Text(Join(chunks))
  {
    hide Gcm.Stream.Fed, Gcm.Stream.Text, Operation.Begun;
    out := [];
    Gcm.FedNothing(begin);
    for i := 0 to |chunks|
      invariant Streaming(op, begin, Join(chunks[..i])) && out == begin.Text(Join(chunks[..i]))
    {
      var chunk := chunks[i];
      JoinStep(chunks, i);
      Gcm.FedTwice(begin, Join(chunks[..i]), chunk);
      var part := StreamChunk(op, chunk, begin, Join(chunks[..i]));
      out := out + part;
    }
    assert chunks[..|chunks|] == chunks;
  }

  lemma JoinStep(chunks: seq<Bytes>, i: nat)
    requires i < |chunks| && WholeBlocks(chunks)
    ensures Join(chunks[..i + 1]) == Join(chunks[..i]) + chunks[i] && |Join(chunks[..i])| % 16 == 0
    ensures |Join(chunks[..i])| + |chunks[i]| <= |Join(chunks)|
  {
    assert chunks[..i + 1][..i] == chunks[..i] && chunks[..i + 1][i] == chunks[i];
    JoinWhole(chunks[..i]);
    JoinGrows(chunks, i + 1);
  }

  lemma {:induction false} JoinGrows(chunks: seq<Bytes>, i: nat)
    requires i <= |chunks|
    ensures |Join(chunks[..i])| <= |Join(chunks)|
    decreases |chunks|
  {
    if i < |chunks| {
      var front := chunks[..|chunks| - 1];
      JoinGrows(front, i);
      assert front[..i] == chunks[..i];
    } else {
      assert chunks[..i] == chunks;
    }
  }

  method StreamChunk(op: Operation, chunk: Bytes, ghost begin: Gcm.Stream, ghost before: Bytes) returns (part: Bytes)
    requires Streaming(op, begin, before) && |before| % 16 == 0
    requires begin.len + |before| + |chunk| <= Gcm.GCM_INPUT_MAX
    modifies op
    ensures Streaming(op, begin, before + chunk) && part == begin.Fed(before).Text(chunk)
  {
    hide Gcm.Stream.Fed, Gcm.Stream.Text, Gcm.Stream.Started, Summarize;
    Gcm.FedTwice(begin, before, chunk);
    var src := Buffer(chunk);
    var dest := new bv8[|chunk|];
    assert src[..|chunk|] == chunk;
    var r, destLen := op.AEUpdate(src, |chunk|, dest, true);
    part := dest[..|chunk|];
  }

  /** Chunks of whole blocks and a last piece of any size, encrypted: one stream, one tag. */
  method EncryptStream(op: Operation, aad: Option<Bytes>, chunks: seq<Bytes>, last: Bytes)
    returns (cipher: Bytes, tag: Block)
    requires op.alg == AesGcm && op.aegcmState == GCM_ST_INIT && |AadBytes(aad)| <= 16
    requires WholeBlocks(chunks) && |Join(chunks)| + |last| <= Gcm.GCM_INPUT_MAX
    modifies op
    ensures var begin := Fresh(old(op.gcm).g, old(op.gcm).key, op.Dir(), old(op.aeiv), AadBytes(aad));
            cipher == begin.Text(Join(chunks) + last) && tag == begin.Fed(Join(chunks) + last).Tag()
    ensures Enciphers(old(op.gcm).g, old(op.gcm).key, old(op.aeiv), Join(chunks) + last, cipher)
    ensures op.mode == ModeEncrypt ==>
              Authentic(old(op.gcm).g, old(op.gcm).key, old(op.aeiv), AadBytes(aad), cipher, tag)
  {
    hide Enciphers, Authentic;
    hide Gcm.Stream.Fed, Gcm.Stream.Text, Summarize, Operation.Safe;
    ghost var begin := Fresh(op.gcm.g, op.gcm.key, op.Dir(), op.aeiv, AadBytes(aad));
    BeginStream(op, aad);
    cipher := StreamChunks(op, chunks, begin);
    JoinWhole(chunks);
    Gcm.FedTwice(begin, Join(chunks), last);
    var src := Buffer(last);
    var dest := new bv8[|last|];
    assert src[..|last|] == last;
    var r, destLen, t := op.AEEncryptFinal(src, |last|, dest, true, true, Some(16));
    cipher, tag := cipher + dest[..|last|], t.value;
    StreamMeans(begin, AadBytes(aad), Join(chunks) + last, tag);
  }

  /** What a stream fed since its beginning says about the output and the tag. */
  lemma StreamMeans(begin: Gcm.Stream, aad: Bytes, data: Bytes, tag: Block)
    requires begin == Fresh(begin.g, begin.key, begin.dir, begin.iv, aad)
    ensures Enciphers(begin.g, begin.key, begin.iv, data, begin.Text(data))
    ensures var cipher := if begin.dir == Encrypt then begin.Text(data) else data;
            Authentic(begin.g, begin.key, begin.iv, aad, cipher, tag) <==> tag == begin.Fed(data).Tag()
  {
    hide Authentic, Gcm.Absorbed;
    AuthenticIs(begin.g, begin.key, begin.iv, aad, if begin.dir == Encrypt then begin.Text(data) else data, tag);
  }

  /** The same for decryption: success exactly when the tag is the stream's own. */
  method DecryptStream(op: Operation, aad: Option<Bytes>, chunks: seq<Bytes>, last: Bytes, tag: Block)
    returns (r: Outcome, plain: Bytes)
    requires op.alg == AesGcm && op.aegcmState == GCM_ST_INIT && |AadBytes(aad)| <= 16
    requires WholeBlocks(chunks) && |Join(chunks)| + |last| <= Gcm.GCM_INPUT_MAX
    modifies op
    ensures var begin := Fresh(old(op.gcm).g, old(op.gcm).key, op.Dir(), old(op.aeiv), AadBytes(aad));
            plain == begin.Text(Join(chunks) + last) &&
            r == if tag == begin.Fed(Join(chunks) + last).Tag() then Ok else MacInvalid
    ensures Enciphers(old(op.gcm).g, old(op.gcm).key, old(op.aeiv), Join(chunks) + last, plain)
    ensures op.mode == ModeDecrypt ==>
              (r == Ok <==>
               Authentic(old(op.gcm).g, old(op.gcm).key, old(op.aeiv), AadBytes(aad), Join(chunks) + last, tag))
  {
    hide Enciphers, Authentic;
    hide Gcm.Stream.Fed, Gcm.Stream.Text, Summarize, Operation.Safe;
    ghost var begin := Fresh(op.gcm.g, op.gcm.key, op.Dir(), op.aeiv, AadBytes(aad));
    BeginStream(op, aad);
    plain := StreamChunks(op, chunks, begin);
    JoinWhole(chunks);
    Gcm.FedTwice(begin, Join(chunks), last);
    var src := Buffer(last);
    var dest := new bv8[|last|];
    assert src[..|last|] == last;
    var destLen;
    r, destLen := op.AEDecryptFinal(src, |last|, dest, true, Some(tag), 16);
    plain := plain + dest[..|last|];
    StreamMeans(begin, AadBytes(aad), Join(chunks) + last, tag);
  }

  /**
   * Tamper detection: the tag of an encryption is refused for a ciphertext changed inside one block,
   * for another AAD of the same length, and replaced by any other tag.
   */
  method GcmTampered(lib: Library, key: Key, nonce: Block, aad: Option<Bytes>, chunks: seq<Bytes>, last: Bytes,
                     aadBack: Option<Bytes>, chunksBack: seq<Bytes>, lastBack: Bytes, tagBack: Block -> Block)
    returns (cipher: Bytes, tag: Block, r: Outcome)
    requires Detects(lib.gcm) && |AadBytes(aad)| <= 16 && |AadBytes(aadBack)| <= 16
    requires WholeBlocks(chunks) && |Join(chunks)| + |last| <= Gcm.GCM_INPUT_MAX
    requires WholeBlocks(chunksBack) && |Join(chunksBack)| + |lastBack| <= Gcm.GCM_INPUT_MAX
    ensures r == Ok || r == MacInvalid
    ensures tagBack(tag) == tag && AadBytes(aad) == AadBytes(aadBack) ==>
              forall j :: DiffersInBlock(cipher, Join(chunksBack) + lastBack, j) ==> r == MacInvalid
    ensures tagBack(tag) == tag && cipher == Join(chunksBack) + lastBack ==>
              |AadBytes(aad)| == |AadBytes(aadBack)| ==> (r == Ok <==> AadBytes(aad) == AadBytes(aadBack))
    ensures cipher == Join(chunksBack) + lastBack && AadBytes(aad) == AadBytes(aadBack) ==>
              (r == Ok <==> tagBack(tag) == tag)
  {
    hide Enciphers, Authentic, Detects, DiffersInBlock, Join, Operation.Safe;
    hide Gcm.Stream.Fed, Gcm.Stream.Text, Gcm.Stream.Tag;
    var enc := GcmHandle(lib, ModeEncrypt, key, nonce);
    cipher, tag := EncryptStream(enc, aad, chunks, last);
    var dec := GcmHandle(lib, ModeDecrypt, key, nonce);
    var plain;
    r, plain := DecryptStream(dec, aadBack, chunksBack, lastBack, tagBack(tag));
    ghost var g, a, b, back := lib.gcm, AadBytes(aad), AadBytes(aadBack), Join(chunksBack) + lastBack;
    if tagBack(tag) == tag && a == b {
      forall j | DiffersInBlock(cipher, back, j) ensures r == MacInvalid {
        ChangeShows(g, key, nonce, a, cipher, back, j, tag);
      }
    }
    if cipher == back && |a| == |b| && a != b { OtherAadShows(g, key, nonce, a, b, cipher, tag); }
    if tagBack(tag) != tag { OtherTagShows(g, key, nonce, a, cipher, tag, tagBack(tag)); }
  }

  /** GCM streaming round trip: any chunking out, any other chunking back, with or without an AAD call. */
  method GcmRoundTrip(lib: Library, key: Key, nonce: Block, aad: Option<Bytes>, aadBack: Option<Bytes>,
                      chunks: seq<Bytes>, last: Bytes, sizes: seq<nat>, lastSize: nat)
    returns (r: Outcome, plain: Bytes)
    requires AadBytes(aad) == AadBytes(aadBack) && |AadBytes(aad)| <= 16
    requires WholeBlocks(chunks) && |Join(chunks)| + |last| <= Gcm.GCM_INPUT_MAX
    requires Total(sizes) + lastSize == |Join(chunks) + last| && forall i :: 0 <= i < |sizes| ==> sizes[i] % 16 == 0
    ensures r == Ok && plain == Join(chunks) + last
  {
    hide Gcm.Stream.Fed, Gcm.Stream.Text, Gcm.Stream.Tag, Join, Cut, Operation.Safe;
    var enc := GcmHandle(lib, ModeEncrypt, key, nonce);
    var cipher, tag := EncryptStream(enc, aad, chunks, last);
    ghost var begin := Fresh(lib.gcm, key, Encrypt, nonce, AadBytes(aad));
    Gcm.DecryptionMirrors(begin, Join(chunks) + last);
    var n := Total(sizes);
    CutJoins(cipher[..n], sizes);
    CutWhole(cipher[..n], sizes);
    assert cipher[..n] + cipher[n..] == cipher;
    var dec := GcmHandle(lib, ModeDecrypt, key, nonce);
    r, plain := DecryptStream(dec, aadBack, Cut(cipher[..n], sizes), cipher[n..], tag);
  }
}
