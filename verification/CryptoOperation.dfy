/**
 * Operation handles of api/tee-internal-api-cryptlib.c in the MBEDCRYPT build:
 * allocation, key setting, AES-CBC ciphering and the AES-GCM state machine.
 * Every call on a handle is recorded in a ghost trace.
 */
module CryptoOperation {
  import opened Basics
  import opened Cbc
  import Gcm

  datatype Outcome = Ok | BadParameters | NotSupported | OutOfMemory | MacInvalid | Panic

  datatype Mode = ModeEncrypt | ModeDecrypt | ModeSign | ModeVerify | ModeDigest | OtherMode

  datatype Algorithm = AesCbcNoPad | AesGcm | Sha256 | EcdsaP256 | OtherAlgorithm

  datatype KeyKind = AesKey | EcdhKeypair | EcdsaKeypair | OtherKey

  /** A key object; TEE_GenerateKey leaves an AES key in the public part. */
  datatype KeyObject = KeyObject(kind: KeyKind, publicKey: Key)

  const TEE_HANDLE_FLAG_KEY_SET: bv32 := 0x0004_0000

  predicate KeyIsSet(flags: bv32) { flags & TEE_HANDLE_FLAG_KEY_SET != 0 }

  function WithKey(flags: bv32): (f: bv32)
    ensures KeyIsSet(f)
  {
    flags | TEE_HANDLE_FLAG_KEY_SET
  }

  const GCM_ST_INIT := 1
  const GCM_ST_AAD := 2
  const GCM_ST_ACTIVE := 3
  const GCM_ST_FINAL := 4

  /** The cryptographic library. */
  datatype Library = Library(aes: Aes, gcm: Gcm.Gcm)

  /** What malloc returned, which only the digest branch leaves in the handle. */
  datatype Junk = Junk(flags: bv32, state: int, iv: Block, key: Key)

  const ZERO := Junk(0, 0, seq(16, _ => 0), seq(32, _ => 0))

  /** The successful calls that the state machine is about. */
  datatype Event = KeySet | Inited(nonce: Block) | Used

  // ----- what a trace says -----

  datatype Summary = Summary(key: bool, inits: nat, nonce: Option<Block>, ordered: bool)

  /** Whether a key came, how often and with what nonce the handle was initialised, and in order. */
  function Summarize(trace: seq<Event>): Summary {
    if trace == [] then Summary(false, 0, None, true)
    else
      var s := Summarize(trace[..|trace| - 1]);
      match trace[|trace| - 1]
      case KeySet => s.(key := true)
      case Inited(n) => s.(inits := s.inits + 1, nonce := Some(n), ordered := s.ordered && s.key)
      case Used => s.(ordered := s.ordered && s.inits > 0)
  }

  lemma SummaryAfterInit(trace: seq<Event>, nonce: Block)
    ensures var s := Summarize(trace);
            Summarize(trace + [Inited(nonce)]) ==
            s.(inits := s.inits + 1, nonce := Some(nonce), ordered := s.ordered && s.key)
  {
    var all := trace + [Inited(nonce)];
    assert all[..|all| - 1] == trace && all[|all| - 1] == Inited(nonce);
  }

  ghost predicate HasBefore(trace: seq<Event>, k: nat, init: bool)
    requires k <= |trace|
  {
    exists i :: 0 <= i < k && if init then trace[i].Inited? else trace[i].KeySet?
  }

  lemma {:induction false} SummaryMeans(trace: seq<Event>)
    ensures Summarize(trace).key <==> HasBefore(trace, |trace|, false)
    ensures Summarize(trace).inits > 0 <==> HasBefore(trace, |trace|, true)
    decreases |trace|
  {
    if trace != [] {
      var n := |trace| - 1;
      SummaryMeans(trace[..n]);
      Extends(trace, n, true);
      Extends(trace, n, false);
    }
  }

  lemma Extends(trace: seq<Event>, n: nat, init: bool)
    requires n == |trace| - 1
    ensures HasBefore(trace, n, init) <==> HasBefore(trace[..n], n, init)
    ensures HasBefore(trace, |trace|, init) <==>
            HasBefore(trace[..n], n, init) || if init then trace[n].Inited? else trace[n].KeySet?
  {
    var front := trace[..n];
    assert forall i :: 0 <= i < n ==> front[i] == trace[i];
    if HasBefore(trace, |trace|, init) {
      var i :| 0 <= i < |trace| && if init then trace[i].Inited? else trace[i].KeySet?;
      assert i < n ==> (if init then front[i].Inited? else front[i].KeySet?);
    }
    if HasBefore(front, n, init) {
      var i :| 0 <= i < n && if init then front[i].Inited? else front[i].KeySet?;
      assert if init then trace[i].Inited? else trace[i].KeySet?;
    }
  }

  /** A key was set, and after it the handle was initialised, before position `k`. */
  ghost predicate KeyThenInit(trace: seq<Event>, k: nat)
    requires k <= |trace|
  {
    exists j :: 0 <= j < k && trace[j].Inited? && HasBefore(trace, j, false)
  }

  /** In an ordered trace every use comes after an initialisation that came after a key. */
  lemma {:induction false} OrderedMeans(trace: seq<Event>, k: nat)
    requires Summarize(trace).ordered && k < |trace|
    ensures trace[k].Used? ==> KeyThenInit(trace, k)
    ensures trace[k].Inited? ==> HasBefore(trace, k, false)
    decreases |trace|
  {
    var n := |trace| - 1;
    var front := trace[..n];
    if k < n {
      OrderedMeans(front, k);
      PrefixKeeps(trace, n, k);
    } else {
      SummaryMeans(front);
      Extends(trace, n, true);
      Extends(trace, n, false);
      if trace[k].Used? {
        var j :| 0 <= j < n && trace[j].Inited?;
        OrderedMeans(front, j);
        PrefixKeeps(trace, n, j);
      }
    }
  }

  lemma PrefixKeeps(trace: seq<Event>, n: nat, k: nat)
    requires k < n <= |trace|
    ensures trace[..n][k] == trace[k]
    ensures HasBefore(trace[..n], k, false) ==> HasBefore(trace, k, false)
    ensures KeyThenInit(trace[..n], k) ==> KeyThenInit(trace, k)
  {
    var front := trace[..n];
    assert forall i :: 0 <= i < n ==> front[i] == trace[i];
    assert forall j: nat :: j < n && HasBefore(front, j, false) ==> HasBefore(trace, j, false);
  }

  lemma {:induction false} NoInit(trace: seq<Event>)
    requires Summarize(trace).inits == 0
    ensures forall i :: 0 <= i < |trace| ==> !trace[i].Inited?
  {
    if trace != [] {
      var n := |trace| - 1;
      NoInit(trace[..n]);
      assert forall i :: 0 <= i < n ==> trace[..n][i] == trace[i];
    }
  }

  /** A count of one names the only initialisation, and the summary has its nonce. */
  lemma {:induction false} OneInit(trace: seq<Event>) returns (j: nat)
    requires Summarize(trace).inits == 1
    ensures j < |trace| && trace[j].Inited? && Summarize(trace).nonce == Some(trace[j].nonce)
    ensures forall i :: 0 <= i < |trace| && trace[i].Inited? ==> i == j
  {
    var n := |trace| - 1;
    var front := trace[..n];
    assert forall i :: 0 <= i < n ==> front[i] == trace[i];
    if trace[n].Inited? {
      NoInit(front);
      j := n;
    } else {
      j := OneInit(front);
    }
  }

  // ----- the handle -----

  class Operation {
    const lib: Library
    const mode: Mode
    const alg: Algorithm
    var flags: bv32
    var aectx: Option<Context>
    var gcm: Gcm.Stream
    var aegcmState: int
    var aeiv: Block
    var aekey: Key
    ghost var trace: seq<Event>

    constructor (lib: Library, mode: Mode, alg: Algorithm, memory: Junk)
      ensures this.lib == lib && this.mode == mode && this.alg == alg && trace == []
      ensures flags == memory.flags && aegcmState == memory.state && aeiv == memory.iv && aekey == memory.key
      ensures aectx == None && gcm.g == lib.gcm
    {
      this.lib, this.mode, this.alg := lib, mode, alg;
      flags, aegcmState, aeiv, aekey := memory.flags, memory.state, memory.iv, memory.key;
      aectx := None;
      gcm := Gcm.Stream(lib.gcm, memory.key, Decrypt, memory.iv, 0, 0, memory.iv, 0);
      trace := [];
    }

    /** The safety of every run: what the state, the flags and the nonce say about the calls so far. */
    ghost predicate Safe()
      reads this
    {
      var s := Summarize(trace);
      && s.ordered
      && (KeyIsSet(flags) <==> s.key)
      && (aegcmState != 0 <==> s.inits == 1) && s.inits <= 1
      && (aegcmState != 0 ==> s.key && s.nonce == Some(aeiv) && alg == AesGcm && 1 <= aegcmState <= 4)
      && gcm.g == lib.gcm
    }

    function Dir(): Direction { if mode == ModeEncrypt then Encrypt else Decrypt }

    /** A successful call is the last thing in the trace, after all that was there before. */
    twostate predicate Recorded()
      reads this
    {
      old(trace) < trace && trace[|trace| - 1] == Used
    }

    /** The GCM stream that the next data call feeds: an omitted AAD counts as an empty one. */
    function Begun(): Gcm.Stream
      reads this
    {
      if aegcmState == GCM_ST_INIT then gcm.Started(Dir(), aeiv, []) else gcm
    }

    /** TEE_SetOperationKey. */
    method SetOperationKey(key: Option<KeyObject>) returns (r: Outcome)
      modifies this
      ensures old(Safe()) ==> Safe()
      ensures r == if key == None || key.value.kind == OtherKey then BadParameters else Ok
      ensures flags == if r == Ok then old(flags) | TEE_HANDLE_FLAG_KEY_SET else old(flags)
      ensures r == Ok ==> KeyIsSet(flags)
      ensures aekey == if r == Ok && key.value.kind == AesKey then key.value.publicKey else old(aekey)
      ensures aegcmState == old(aegcmState) && aeiv == old(aeiv) && gcm == old(gcm) && aectx == old(aectx)
      ensures trace == if r == Ok then old(trace) + [KeySet] else old(trace)
    {
      hide KeyIsSet;
      if key == None || key.value.kind == OtherKey { return BadParameters; }
      if key.value.kind == AesKey { aekey := key.value.publicKey; }
      flags := WithKey(flags);
      trace := trace + [KeySet];
      r := Ok;
    }

    /** TEE_AEInit: succeeds at most once in the life of a handle. */
    method AEInit(nonce: Option<Bytes>, nonceLen: nat, tagLen: nat, aadLen: nat) returns (r: Outcome)
      requires nonce.Some? ==> |nonce.value| >= nonceLen
      modifies this
      ensures old(Safe()) ==> Safe()
      ensures r == Ok <==>
              && alg == AesGcm && nonceLen == 16 && aadLen <= 16 && tagLen == 128
              && nonce.Some? && KeyIsSet(old(flags)) && old(aegcmState) == 0
      ensures r == NotSupported <==> alg == AesGcm && (nonceLen != 16 || aadLen > 16 || tagLen != 128)
      ensures r == Ok || r == NotSupported || r == BadParameters
      ensures r == Ok ==> aegcmState == GCM_ST_INIT && aeiv == nonce.value[..16] && gcm == old(gcm).(key := aekey)
      ensures r != Ok ==> aegcmState == old(aegcmState) && aeiv == old(aeiv) && gcm == old(gcm)
      ensures flags == old(flags) && aekey == old(aekey) && aectx == old(aectx)
      ensures trace == if r == Ok then old(trace) + [Inited(aeiv)] else old(trace)
    {
      hide KeyIsSet;
      hide Summarize;
      if alg != AesGcm { return BadParameters; }
      if nonceLen != 16 { return NotSupported; }
      if aadLen > 16 { return NotSupported; }
      if tagLen != 128 { return NotSupported; }
      if nonce == None || !KeyIsSet(flags) || aegcmState != 0 { return BadParameters; }
      r := Ok;
      gcm := gcm.(key := aekey);
      aeiv := nonce.value[..16];
      aegcmState := GCM_ST_INIT;
      SummaryAfterInit(trace, aeiv);
      trace := trace + [Inited(aeiv)];
    }

    /** TEE_AEUpdateAAD: begins the stream again from the handle's nonce with this AAD. */
    method AEUpdateAAD(aad: Option<Bytes>, aadLen: nat) returns (r: Outcome)
      requires aad.Some? ==> |aad.value| >= aadLen
      modifies this
      ensures old(Safe()) ==> Safe()
      ensures r == if (aad == None && aadLen != 0) || aadLen > 16 || old(aegcmState) < GCM_ST_INIT then Panic else Ok
      ensures r == Ok ==>
                aegcmState == GCM_ST_AAD &&
                gcm == old(gcm).Started(Dir(), aeiv, if aad == None then [] else aad.value[..aadLen])
      ensures r == Ok && aadLen == 0 && old(aegcmState) == GCM_ST_INIT ==> Begun() == old(Begun())
      ensures r != Ok ==> aegcmState == old(aegcmState) && gcm == old(gcm)
      ensures flags == old(flags) && aekey == old(aekey) && aeiv == old(aeiv) && aectx == old(aectx)
      ensures trace == if r == Ok then old(trace) + [Used] else old(trace)
    {
      hide KeyIsSet, Gcm.Stream.Started;
      if (aad == None && aadLen != 0) || aadLen > 16 { return Panic; }
      if aegcmState < GCM_ST_INIT { return Panic; }
      var data := if aad == None then [] else aad.value[..aadLen];
      assert aadLen == 0 ==> data == [];
      gcm := gcm.Started(Dir(), aeiv, data);
      aegcmState := GCM_ST_AAD;
      trace := trace + [Used];
      r := Ok;
    }

    /** The part that the three data calls share: the implicit empty AAD, the state check, the update. */
    method ProcessData(src: array<bv8>, srcLen: nat, dest: array<bv8>) returns (r: Outcome)
      requires srcLen <= src.Length && srcLen <= dest.Length
      modifies this, dest
      ensures old(Safe()) ==> Safe()
      ensures aegcmState == 0 <==> old(aegcmState) == 0
      ensures r == if old(aegcmState) < GCM_ST_INIT then BadParameters
                   else if old(Begun()).len + srcLen > Gcm.GCM_INPUT_MAX then Panic else Ok
      ensures r == BadParameters ==> aegcmState == old(aegcmState) && gcm == old(gcm) && trace == old(trace)
      ensures old(trace) <= trace
      ensures r == Ok ==> aegcmState == if old(aegcmState) == GCM_ST_INIT then GCM_ST_AAD else old(aegcmState)
      ensures r == Ok ==> gcm == old(Begun()).Fed(old(src[..srcLen]))
      ensures if r == Ok then dest[..srcLen] == old(Begun()).Text(old(src[..srcLen])) else dest[..] == old(dest[..])
      ensures flags == old(flags) && aekey == old(aekey) && aeiv == old(aeiv) && aectx == old(aectx)
      ensures forall k :: srcLen <= k < dest.Length ==> dest[k] == old(dest[k])
    {
      hide Gcm.Stream.Fed, Gcm.Stream.Text, Gcm.Stream.Started, KeyIsSet;
      if aegcmState == GCM_ST_INIT { r := AEUpdateAAD(None, 0); }
      hide Summarize;
      if aegcmState < GCM_ST_AAD { return BadParameters; }
      var rv;
      rv, gcm := Gcm.Update(gcm, srcLen, src, dest);
      r := if rv == 0 then Ok else Panic;
    }

    /** TEE_AEUpdate; `destLen` is None where the source leaves it unset. */
    method AEUpdate(src: array?<bv8>, srcLen: nat, dest: array?<bv8>, hasDestLen: bool)
      returns (r: Outcome, destLen: Option<nat>)
      requires src != null && dest != null ==> srcLen <= src.Length && srcLen <= dest.Length
      modifies this, if dest == null then {} else {dest}
      ensures old(trace) <= trace
      ensures old(Safe()) ==> Safe()
      ensures aegcmState == 0 <==> old(aegcmState) == 0
      ensures r == if alg != AesGcm || src == null || dest == null || !hasDestLen || old(aegcmState) < GCM_ST_INIT
                   then BadParameters
                   else if old(Begun()).len + srcLen > Gcm.GCM_INPUT_MAX then Panic else Ok
      ensures r == Ok ==>
                aegcmState == GCM_ST_ACTIVE && destLen == Some(srcLen) &&
                gcm == old(Begun()).Fed(old(src[..srcLen])) && dest[..srcLen] == old(Begun()).Text(old(src[..srcLen]))
      ensures r == Ok ==> Recorded()
      ensures r == BadParameters ==> aegcmState == old(aegcmState) && gcm == old(gcm) && trace == old(trace)
      ensures flags == old(flags) && aekey == old(aekey) && aeiv == old(aeiv) && aectx == old(aectx)
    {
      hide Gcm.Stream.Fed, Gcm.Stream.Text, Gcm.Stream.Started, KeyIsSet;
      destLen := None;
      if alg != AesGcm || dest == null || src == null || !hasDestLen { return BadParameters, None; }
      r := ProcessData(src, srcLen, dest);
      if r != Ok { return; }
      destLen := Some(srcLen);
      aegcmState := GCM_ST_ACTIVE;
      trace := trace + [Used];
    }

    /** TEE_AEEncryptFinal: the last data and the tag. */
    method AEEncryptFinal(src: array?<bv8>, srcLen: nat, dest: array?<bv8>, hasDestLen: bool,
                          hasTag: bool, tagLen: Option<nat>)
      returns (r: Outcome, destLen: Option<nat>, tag: Option<Block>)
      requires src != null && dest != null ==> srcLen <= src.Length && srcLen <= dest.Length
      modifies this, if dest == null then {} else {dest}
      ensures old(trace) <= trace
      ensures old(Safe()) ==> Safe()
      ensures aegcmState == 0 <==> old(aegcmState) == 0
      ensures r == if alg != AesGcm || src == null || dest == null || !hasDestLen || tagLen != Some(16) || !hasTag ||
                      old(aegcmState) < GCM_ST_INIT
                   then BadParameters
                   else if old(Begun()).len + srcLen > Gcm.GCM_INPUT_MAX then Panic else Ok
      ensures r == Ok ==>
                var last := old(Begun()).Fed(old(src[..srcLen]));
                aegcmState == GCM_ST_FINAL && destLen == Some(srcLen) &&
                gcm == last.(acc := last.g.settle(last.key, last.iv, last.aadLen, last.len, last.acc)) &&
                tag == Some(last.Tag()) && dest[..srcLen] == old(Begun()).Text(old(src[..srcLen]))
      ensures r == Ok ==> Recorded()
      ensures r == BadParameters ==> aegcmState == old(aegcmState) && gcm == old(gcm) && trace == old(trace)
      ensures flags == old(flags) && aekey == old(aekey) && aeiv == old(aeiv) && aectx == old(aectx)
    {
      hide Gcm.Stream.Fed, Gcm.Stream.Text, Gcm.Stream.Started, KeyIsSet;
      destLen, tag := None, None;
      if alg != AesGcm || dest == null || src == null || !hasDestLen { return BadParameters, None, None; }
      if tagLen != Some(16) || !hasTag { return BadParameters, None, None; }
      r := ProcessData(src, srcLen, dest);
      if r != Ok { return; }
      destLen, tag := Some(srcLen), Some(gcm.Tag());
      gcm := gcm.Finished();
      aegcmState := GCM_ST_FINAL;
      trace := trace + [Used];
    }

    /** TEE_AEDecryptFinal: the last data, accepted only with the right tag. */
    method AEDecryptFinal(src: array?<bv8>, srcLen: nat, dest: array?<bv8>, hasDestLen: bool,
                          tag: Option<Block>, tagLen: nat)
      returns (r: Outcome, destLen: Option<nat>)
      requires src != null && dest != null ==> srcLen <= src.Length && srcLen <= dest.Length
      modifies this, if dest == null then {} else {dest}
      ensures old(trace) <= trace
      ensures old(Safe()) ==> Safe()
      ensures aegcmState == 0 <==> old(aegcmState) == 0
      ensures r == if alg != AesGcm || src == null || dest == null || !hasDestLen || tagLen != 16 || tag == None ||
                      old(aegcmState) < GCM_ST_INIT
                   then BadParameters
                   else if old(Begun()).len + srcLen > Gcm.GCM_INPUT_MAX then Panic
                   else if tag.value != old(Begun()).Fed(old(src[..srcLen])).Tag() then MacInvalid else Ok
      ensures r == Ok || r == MacInvalid ==>
                var last := old(Begun()).Fed(old(src[..srcLen]));
                gcm == last.(acc := last.g.settle(last.key, last.iv, last.aadLen, last.len, last.acc)) &&
                dest[..srcLen] == old(Begun()).Text(old(src[..srcLen]))
      ensures r == Ok ==> aegcmState == GCM_ST_FINAL && destLen == Some(srcLen)
      ensures r == Ok ==> Recorded()
      ensures r == BadParameters ==> aegcmState == old(aegcmState) && gcm == old(gcm) && trace == old(trace)
      ensures flags == old(flags) && aekey == old(aekey) && aeiv == old(aeiv) && aectx == old(aectx)
    {
      hide Gcm.Stream.Fed, Gcm.Stream.Text, Gcm.Stream.Started, KeyIsSet;
      destLen := None;
      if alg != AesGcm || dest == null || src == null || !hasDestLen { return BadParameters, None; }
      if tag == None || tagLen != 16 { return BadParameters, None; }
      r := ProcessData(src, srcLen, dest);
      if r != Ok { return; }
      var check := gcm.Tag();
      gcm := gcm.Finished();
      if tag.value != check { return MacInvalid, None; }
      destLen := Some(srcLen);
      aegcmState := GCM_ST_FINAL;
      trace := trace + [Used];
    }

    /** TEE_CipherInit: the key schedule for the handle's mode, and the nonce as chaining value. */
    method CipherInit(nonce: Bytes, nonceLen: nat) returns (r: Outcome)
      requires |nonce| >= nonceLen
      modifies this
      ensures old(Safe()) ==> Safe()
      ensures r == if alg != AesCbcNoPad || nonceLen != 16 || !KeyIsSet(flags) ||
                      (mode != ModeEncrypt && mode != ModeDecrypt)
                   then Panic else Ok
      ensures r == Ok ==> aeiv == nonce[..16] && aectx == Some(Context(lib.aes, aekey, Dir()))
      ensures alg != AesCbcNoPad ==> aeiv == old(aeiv) && aectx == old(aectx)
      ensures flags == old(flags) && aekey == old(aekey) && aegcmState == old(aegcmState) && gcm == old(gcm)
      ensures trace == old(trace)
    {
      if alg != AesCbcNoPad { return Panic; }
      if nonceLen != 16 { return Panic; }
      if !KeyIsSet(flags) { return Panic; }
      aeiv := nonce[..16];
      if mode == ModeEncrypt {
        aectx := Some(Context(lib.aes, aekey, Encrypt));
      } else if mode == ModeDecrypt {
        aectx := Some(Context(lib.aes, aekey, Decrypt));
      } else {
        return Panic;
      }
      r := Ok;
    }

    /** TEE_CipherUpdate: a length that is not whole blocks reports success and produces nothing. */
    method CipherUpdate(src: array<bv8>, srcLen: nat, dest: array<bv8>) returns (r: Outcome, destLen: Option<nat>)
      requires srcLen <= src.Length && srcLen <= dest.Length
      requires alg == AesCbcNoPad && (mode == ModeEncrypt || mode == ModeDecrypt) ==> aectx.Some?
      modifies this, dest
      ensures old(Safe()) ==> Safe()
      ensures r == if alg != AesCbcNoPad || (mode != ModeEncrypt && mode != ModeDecrypt) then BadParameters else Ok
      ensures destLen == if r == Ok then Some(srcLen) else None
      ensures r == Ok && srcLen % 16 == 0 ==>
                Chain(dest[..srcLen], aeiv) == Crypt(old(aectx).value, Dir(), old(aeiv), old(src[..srcLen]))
      ensures r == Ok && srcLen % 16 == 0 ==>
                Chained(old(aectx).value, Dir(), old(aeiv), old(src[..srcLen]), dest[..srcLen])
      ensures r != Ok || srcLen % 16 != 0 ==> dest[..] == old(dest[..]) && aeiv == old(aeiv)
      ensures forall k :: srcLen <= k < dest.Length ==> dest[k] == old(dest[k])
      ensures flags == old(flags) && aekey == old(aekey) && aegcmState == old(aegcmState) && gcm == old(gcm)
      ensures aectx == old(aectx) && trace == old(trace)
    {
      hide Crypt, Chained;
      destLen := None;
      if alg != AesCbcNoPad { return BadParameters, None; }
      if mode != ModeEncrypt && mode != ModeDecrypt { return BadParameters, None; }
      var rc;
      rc, aeiv := CryptCbc(aectx.value, Dir(), srcLen, aeiv, src, 0, dest, 0);
      assert dest[0..0 + srcLen] == dest[..srcLen];
      return Ok, Some(srcLen);
    }
  }

  /** TEE_AllocateOperation: the digest branch keeps what malloc returned, the others zero the handle. */
  method AllocateOperation(lib: Library, algorithm: Algorithm, mode: Mode, heap: bool, memory: Junk)
    returns (r: Outcome, operation: Operation?)
    ensures operation != null <==> r == Ok
    ensures r == Ok || r == OutOfMemory <==>
            (mode, algorithm) in {(ModeDigest, Sha256), (ModeEncrypt, AesCbcNoPad), (ModeEncrypt, AesGcm),
                                  (ModeDecrypt, AesCbcNoPad), (ModeDecrypt, AesGcm),
                                  (ModeSign, EcdsaP256), (ModeVerify, EcdsaP256)}
    ensures r != Ok ==> r == NotSupported || (r == OutOfMemory && !heap)
    ensures r == Ok ==> heap
    ensures r == Ok ==>
              fresh(operation) && operation.mode == mode && operation.alg == algorithm && operation.lib == lib &&
              operation.trace == [] && operation.aectx == None
    ensures r == Ok && mode != ModeDigest ==>
              operation.Safe() && operation.aegcmState == 0 && !KeyIsSet(operation.flags)
  {
    operation := null;
    if mode == ModeDigest {
      if algorithm != Sha256 { return NotSupported, null; }
      if !heap { return OutOfMemory, null; }
      operation := new Operation(lib, mode, algorithm, memory);
    } else if mode == ModeEncrypt || mode == ModeDecrypt {
      if algorithm != AesCbcNoPad && algorithm != AesGcm { return NotSupported, null; }
      if !heap { return OutOfMemory, null; }
      operation := new Operation(lib, mode, algorithm, ZERO);
    } else if mode == ModeSign || mode == ModeVerify {
      if algorithm != EcdsaP256 { return NotSupported, null; }
      if !heap { return OutOfMemory, null; }
      operation := new Operation(lib, mode, algorithm, ZERO);
    } else {
      return NotSupported, null;
    }
    r := Ok;
  }
}
