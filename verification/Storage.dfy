/**
 * Encrypted persistent objects: api/keystone/tee-internal-api.c, lines 198-631,
 * in the MBEDCRYPT build.  The stream is AES-CBC ciphertext in a host file; the
 * handle carries the chaining value from call to call.
 */
module Storage {
  import opened Basics
  import opened Cbc
  import opened Host

  const TEE_DATA_FLAG_ACCESS_READ: bv32 := 0x0000_0001
  const TEE_DATA_FLAG_ACCESS_WRITE: bv32 := 0x0000_0002
  const TEE_DATA_FLAG_OVERWRITE: bv32 := 0x0000_0400
  const TEE_HANDLE_FLAG_PERSISTENT: bv32 := 0x0001_0000
  const TEE_OBJECT_ID_MAX_LEN := 64

  datatype TeeResult =
    | Success | ItemNotFound | BadParameters | NotSupported | OutOfMemory | AccessDenied | Security | Generic

  /** The key and the nonce that the signature over an object's identifier supplies. */
  datatype Secret = Secret(key: Key, nonce: Block)

  /** The block cipher and attest_enclave, which signs the same identifier the same way each time. */
  datatype Platform = Platform(aes: Aes, attest: Bytes -> Option<Secret>)

  class PersistentObject {
    var flags: bv32
    var desc: int
    var ctx: Context
    var iv: Block

    constructor (flags: bv32, desc: int, ctx: Context, iv: Block)
      ensures this.flags == flags && this.desc == desc && this.ctx == ctx && this.iv == iv
    {
      this.flags, this.desc, this.ctx, this.iv := flags, desc, ctx, iv;
    }
  }

  /** The host receives a C string: an identifier is cut at its first NUL. */
  function CString(id: Bytes): (name: Bytes)
    ensures |name| <= |id| && name == id[..|name|] && NulFree(name) && (|name| < |id| ==> id[|name|] == 0)
  {
    if id == [] || id[0] == 0 then [] else [id[0]] + CString(id[1..])
  }

  predicate NulFree(s: Bytes) { forall k :: 0 <= k < |s| ==> s[k] != 0 }

  /** Identifiers without a NUL name different files if they differ. */
  lemma NamesDiffer(a: Bytes, b: Bytes)
    requires NulFree(a) && NulFree(b)
    ensures CString(a) == a && (CString(a) == CString(b) <==> a == b)
  {
    WholeName(a);
    WholeName(b);
  }

  lemma WholeName(a: Bytes)
    requires NulFree(a)
    ensures CString(a) == a
  {
    assert a[..|a|] == a;
  }

  /** Identifiers that differ only behind a NUL share a file. */
  lemma SharedName(name: Bytes, x: Bytes, y: Bytes)
    requires NulFree(name)
    ensures CString(name + [0] + x) == name == CString(name + [0] + y)
  {
    CutAtNul(name, x);
    CutAtNul(name, y);
  }

  lemma {:induction false} CutAtNul(name: Bytes, x: Bytes)
    requires NulFree(name)
    ensures CString(name + [0] + x) == name
    decreases |name|
  {
    var id := name + [0] + x;
    if name != [] {
      assert id[0] == name[0] && id[1..] == name[1..] + [0] + x;
      CutAtNul(name[1..], x);
    }
  }

  /** flags2flags: write access wins over read; no access at all yields -1. */
  function OpenFlags(flags: bv32): (o: bv32)
    ensures o & O_ACCMODE == O_ACCMODE <==> !Writes(flags) && !Reads(flags)
    ensures o & O_ACCMODE == O_WRONLY <==> Writes(flags)
    ensures o & O_ACCMODE == 0 <==> Reads(flags) && !Writes(flags)
    ensures Reads(flags) || Writes(flags) ==>
              (o & O_TRUNC != 0 <==> flags & TEE_DATA_FLAG_OVERWRITE != 0) && o & O_CREAT == 0
  {
    var overwrite := if flags & TEE_DATA_FLAG_OVERWRITE != 0 then O_TRUNC else 0;
    if flags & TEE_DATA_FLAG_ACCESS_WRITE != 0 then O_WRONLY | overwrite
    else if flags & TEE_DATA_FLAG_ACCESS_READ != 0 then overwrite
    else 0xFFFF_FFFF
  }

  predicate Writes(flags: bv32) { flags & TEE_DATA_FLAG_ACCESS_WRITE != 0 }

  predicate Reads(flags: bv32) { flags & TEE_DATA_FLAG_ACCESS_READ != 0 }

  /** The checks of OpenPersistentObject before the host is asked. */
  function Refusal(objectId: Option<Bytes>, flags: bv32, heap: bool): TeeResult {
    if objectId == None then ItemNotFound
    else if |objectId.value| > TEE_OBJECT_ID_MAX_LEN then BadParameters
    else if Reads(flags) && Writes(flags) then NotSupported
    else if !heap then OutOfMemory
    else Success
  }

  /** OpenPersistentObject; `heap` says whether malloc succeeds. */
  method OpenPersistentObject(host: Files, p: Platform, objectId: Option<Bytes>, flags: bv32, create: bool, heap: bool)
    returns (r: TeeResult, obj: PersistentObject?)
    requires host.ree.Valid()
    modifies host`ree
    ensures host.ree.Valid()
    ensures r == Success <==> obj != null
    ensures Refusal(objectId, flags, heap) != Success ==>
              r == Refusal(objectId, flags, heap) && host.ree == old(host.ree)
    ensures Refusal(objectId, flags, heap) == Success ==>
              if !Openable(old(host.ree), objectId.value, flags, create)
              then r == AccessDenied && host.ree == old(host.ree)
              else r == (if p.attest(objectId.value).Some? then Success else Security) &&
                   host.ree == AfterOpen(old(host.ree), objectId.value, flags)
    ensures r == Success ==>
              fresh(obj) && objectId.Some? && p.attest(objectId.value).Some? &&
              Opens(old(host.ree), p, objectId.value, flags, obj)
  {
    obj := null;
    if objectId == None { return ItemNotFound, null; }
    if |objectId.value| > TEE_OBJECT_ID_MAX_LEN { return BadParameters, null; }
    if flags & TEE_DATA_FLAG_ACCESS_READ != 0 && flags & TEE_DATA_FLAG_ACCESS_WRITE != 0 { return NotSupported, null; }
    if !heap { return OutOfMemory, null; }
    r := Success;
    var id := objectId.value;
    var oflags := OpenFlags(flags) | if create then O_CREAT else 0;
    var desc := host.OpenFile(CString(id), oflags);
    if desc < 0 { return AccessDenied, null; }
    match p.attest(id) {
      case None => return Security, null;
      case Some(secret) =>
        var access := if Writes(flags) then TEE_DATA_FLAG_ACCESS_WRITE else TEE_DATA_FLAG_ACCESS_READ;
        var schedule := if Writes(flags) then Encrypt else Decrypt;
        obj := new PersistentObject(TEE_HANDLE_FLAG_PERSISTENT | access, desc,
                                       Context(p.aes, secret.key, schedule), secret.nonce);
    }
  }

  /** The host opens a file that exists or may be created, for reading or for writing. */
  predicate Openable(was: Ree, id: Bytes, flags: bv32, create: bool) {
    (Reads(flags) || Writes(flags)) && (create || CString(id) in was.files)
  }

  /** The host's files once it has opened one: at position 0, emptied if it is overwritten or new. */
  function AfterOpen(was: Ree, id: Bytes, flags: bv32): Ree {
    var name := CString(id);
    Ree(was.files[name := if name in was.files && flags & TEE_DATA_FLAG_OVERWRITE == 0 then was.files[name] else []],
        was.open[was.next := Opened(name, 0, Writes(flags))], was.next + 1)
  }

  /** The handle after a successful open, with the identifier's own key and nonce. */
  ghost predicate Opens(was: Ree, p: Platform, id: Bytes, flags: bv32, obj: PersistentObject)
    requires p.attest(id).Some?
    reads obj
  {
    var secret := p.attest(id).value;
    && Persistent(obj.flags) && Writes(obj.flags) == Writes(flags) && Reads(obj.flags) == Reads(flags)
    && obj.desc == was.next
    && obj.ctx == Context(p.aes, secret.key, if Writes(flags) then Encrypt else Decrypt)
    && obj.iv == secret.nonce
  }

  predicate Persistent(flags: bv32) { flags & TEE_HANDLE_FLAG_PERSISTENT != 0 }

  /** TEE_WriteObjectData: the whole new state, for any handle and any size. */
  method WriteObjectData(host: Files, obj: PersistentObject?, buffer: array<bv8>, at: nat, size: nat, heap: bool)
    returns (r: TeeResult)
    requires host.ree.Valid() && at + size <= buffer.Length
    modifies host`ree, host`calls, if obj == null then {} else {obj}
    ensures host.ree.Valid()
    ensures obj != null ==> obj.flags == old(obj.flags) && obj.desc == old(obj.desc) && obj.ctx == old(obj.ctx)
    ensures (obj == null || !Persistent(obj.flags) || size % 16 != 0) ==> r == BadParameters
    ensures obj != null && Persistent(obj.flags) && size % 16 == 0 && !heap ==> r == OutOfMemory
    ensures r == BadParameters || r == OutOfMemory ==>
              host.ree == old(host.ree) && (obj != null ==> obj.iv == old(obj.iv))
    ensures obj != null && Persistent(obj.flags) && size % 16 == 0 && heap ==>
              var c := Crypt(obj.ctx, Encrypt, old(obj.iv), buffer[at..at + size]);
              obj.iv == c.iv &&
              if old(host.ree).Has(obj.desc, true)
              then r == Success && host.ree == old(host.ree).Wrote(obj.desc, c.text)
              else r == (if size == 0 then Success else Generic) && host.ree == old(host.ree)
  {
    if obj == null || obj.flags & TEE_HANDLE_FLAG_PERSISTENT == 0 { return BadParameters; }
    if size % 16 != 0 { return BadParameters; }
    if !heap { return OutOfMemory; }
    var data := new bv8[size];
    var rc, next := CryptCbc(obj.ctx, Encrypt, size, obj.iv, buffer, at, data, 0);
    obj.iv := next;
    assert data[0..size] == data[..];
    var n := host.WriteFileFull(obj.desc, data[..]);
    if n < 0 { return Generic; }
    return Success;
  }

  /** What a read finds: the ciphertext that the host can still deliver, up to the size asked for. */
  ghost function Delivered(r: Ree, fd: int, size: nat): Bytes
    requires r.Valid()
  {
    r.Ahead(fd)[..Min(size, |r.Ahead(fd)|)]
  }

  /** TEE_ReadObjectData: the whole new state; `count` is None where the source leaves it unset. */
  method ReadObjectData(host: Files, obj: PersistentObject?, buffer: array<bv8>, at: nat, size: nat, heap: bool)
    returns (r: TeeResult, count: Option<nat>)
    requires host.ree.Valid() && at + size <= buffer.Length
    modifies host`ree, host`calls, buffer, if obj == null then {} else {obj}
    ensures host.ree.Valid()
    ensures obj != null ==> obj.flags == old(obj.flags) && obj.desc == old(obj.desc) && obj.ctx == old(obj.ctx)
    ensures (obj == null || !Persistent(obj.flags) || size % 16 != 0) ==> r == BadParameters
    ensures r == BadParameters || (r == Generic && count == None) ==>
              count == None && host.ree == old(host.ree) && buffer[..] == old(buffer[..]) &&
              (obj != null ==> obj.iv == old(obj.iv))
    ensures obj != null && Persistent(obj.flags) && size % 16 == 0 ==>
              if !old(host.ree).Has(obj.desc, false) && size > 0 then r == Generic && count == None
              else var data := Delivered(old(host.ree), obj.desc, size);
                   count == Some(|data|) && host.ree == old(host.ree).Advanced(obj.desc, |data|) &&
                   Settled(r, data, buffer[at..at + |data|], obj.ctx, old(obj.iv), obj.iv, heap)
    ensures var n := if count.Some? then count.value else 0;
            n <= size && forall k :: 0 <= k < buffer.Length && !(at <= k < at + n) ==> buffer[k] == old(buffer[k])
  {
    hide Ree.Ahead, Ree.Advanced, Ree.Valid, Crypt;
    r, count := BadParameters, None;
    if obj == null || obj.flags & TEE_HANDLE_FLAG_PERSISTENT == 0 { return; }
    if size % 16 != 0 { return; }
    ghost var delivered := Delivered(host.ree, obj.desc, size);
    AdvancedTwice(host.ree, obj.desc, 0, 0);
    var n := host.ReadFileFull(obj.desc, buffer, at, size);
    if n < 0 { assert buffer[..] == old(buffer[..]); return Generic, None; }
    count := Some(n);
    assert buffer[at..at + n] == delivered;
    if n % 16 != 0 { return Generic, count; }
    if n == 0 { return Success, count; }
    if !heap { return OutOfMemory, count; }
    var data := new bv8[n];
    var rc, next := CryptCbc(obj.ctx, Decrypt, n, obj.iv, buffer, at, data, 0);
    obj.iv := next;
    assert data[0..n] == data[..];
    Memcpy(buffer, at, data[..]);
    assert buffer[at..at + n] == data[..];
    return Success, count;
  }

  /** The result, the buffer and the chaining value once `data` has been fetched. */
  ghost predicate Settled(r: TeeResult, data: Bytes, shown: Bytes, ctx: Context, was: Block, iv: Block, heap: bool) {
    if |data| % 16 != 0 then r == Generic && shown == data && iv == was
    else if data == [] then r == Success && iv == was
    else if !heap then r == OutOfMemory && shown == data && iv == was
    else r == Success && Chain(shown, iv) == Crypt(ctx, Decrypt, was, data)
  }

  /** TEE_CloseObject: true stands for TEE_Panic. */
  method CloseObject(host: Files, obj: PersistentObject?) returns (panics: bool)
    requires host.ree.Valid()
    modifies host`ree
    ensures host.ree.Valid()
    ensures panics <==> obj == null || !Persistent(obj.flags) || obj.desc !in old(host.ree).open
    ensures if panics then host.ree == old(host.ree)
            else host.ree == old(host.ree).(open := old(host.ree).open - {obj.desc})
  {
    if obj == null || obj.flags & TEE_HANDLE_FLAG_PERSISTENT == 0 { return true; }
    var rc := host.CloseFile(obj.desc);
    panics := rc != 0;
  }
}
