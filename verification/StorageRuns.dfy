/**
 * Whole runs over encrypted storage: what every write and every read keeps, and
 * the round trip from any write chunking to any read chunking.
 */
module StorageRuns {
  import opened Basics
  import opened Cbc
  import opened Host
  import opened Storage

  // ----- what each step of a stream keeps -----

  /** A handle that has written exactly `plain`: the file is its encryption, the handle its last block. */
  ghost predicate Writing(r: Ree, obj: PersistentObject, name: Bytes, ctx: Context, nonce: Block, plain: Bytes)
    reads obj
  {
    && |plain| % 16 == 0 && r.Valid() && Persistent(obj.flags) && obj.ctx == ctx
    && obj.desc in r.open && r.open[obj.desc] == Opened(name, |plain|, true) && name in r.files
    && Chain(r.files[name], obj.iv) == Crypt(ctx, Encrypt, nonce, plain)
  }

  /** A handle that has read the first `pos` bytes of a stream of whole blocks. */
  ghost predicate Reading(r: Ree, obj: PersistentObject, name: Bytes, ctx: Context, nonce: Block, pos: nat)
    reads obj
  {
    && r.Valid() && Persistent(obj.flags) && obj.ctx == ctx
    && obj.desc in r.open && r.open[obj.desc] == Opened(name, pos, false) && name in r.files
    && pos % 16 == 0 && |r.files[name]| % 16 == 0 && pos <= |r.files[name]|
    && obj.iv == Crypt(ctx, Decrypt, nonce, r.files[name][..pos]).iv
  }

  /** In both states the chaining value is the last ciphertext block processed. */
  lemma ChainingInvariant(r: Ree, obj: PersistentObject, name: Bytes, ctx: Context, nonce: Block, plain: Bytes,
                          pos: nat)
    ensures Writing(r, obj, name, ctx, nonce, plain) ==>
              |r.files[name]| % 16 == 0 && obj.iv == LastBlock(nonce, r.files[name])
    ensures Reading(r, obj, name, ctx, nonce, pos) ==> obj.iv == LastBlock(nonce, r.files[name][..pos])
  {
    if Writing(r, obj, name, ctx, nonce, plain) { ChainingValue(ctx, Encrypt, nonce, plain); }
    if Reading(r, obj, name, ctx, nonce, pos) { ChainingValue(ctx, Decrypt, nonce, r.files[name][..pos]); }
  }

  /** The bytes of `s` from `at` on, at most `n` of them: what a read should return. */
  function Window(s: Bytes, at: nat, n: nat): (w: Bytes) {
    s[Min(at, |s|)..Min(at + n, |s|)]
  }

  /** A chunk counts only if it is whole blocks; any other is refused. */
  function Accepted(chunk: Bytes): Bytes { if |chunk| % 16 == 0 then chunk else [] }

  /** Nothing but one file and the description it is open under has changed. */
  ghost predicate OnlyWrote(now: Ree, was: Ree, fd: int, name: Bytes) {
    && name in now.files && now.files == was.files[name := now.files[name]]
    && now.open - {fd} == was.open - {fd}
  }

  lemma OnlyWroteTwice(c: Ree, b: Ree, a: Ree, fd: int, name: Bytes)
    requires OnlyWrote(b, a, fd, name) && OnlyWrote(c, b, fd, name)
    ensures OnlyWrote(c, a, fd, name)
  {
  }

  lemma OnlyWroteNothing(a: Ree, fd: int, name: Bytes)
    requires name in a.files
    ensures OnlyWrote(a, a, fd, name)
  {
    assert a.files[name := a.files[name]] == a.files;
  }

  lemma WroteOnly(a: Ree, fd: int, data: Bytes)
    requires a.Valid() && fd in a.open
    ensures OnlyWrote(a.Wrote(fd, data), a, fd, a.open[fd].name)
  {
  }

  method WriteNext(host: Files, obj: PersistentObject, buffer: array<bv8>, at: nat, size: nat,
                   ghost name: Bytes, ghost ctx: Context, ghost nonce: Block, ghost plain: Bytes)
    returns (r: TeeResult)
    requires at + size <= buffer.Length
    requires Writing(host.ree, obj, name, ctx, nonce, plain)
    modifies host`ree, host`calls, obj
    ensures r == (if size % 16 == 0 then Success else BadParameters) && obj.desc == old(obj.desc)
    ensures Writing(host.ree, obj, name, ctx, nonce, plain + Accepted(buffer[at..at + size]))
    ensures OnlyWrote(host.ree, old(host.ree), obj.desc, name)
  {
    hide Crypt;
    ghost var data := buffer[at..at + size];
    if size % 16 == 0 { CryptAppend(ctx, Encrypt, nonce, plain, data); } else { assert plain + [] == plain; }
    OnlyWroteNothing(host.ree, obj.desc, name);
    if size % 16 == 0 { WroteOnly(host.ree, obj.desc, Crypt(ctx, Encrypt, obj.iv, data).text); }
    r := WriteObjectData(host, obj, buffer, at, size, true);
  }

  /** A read at `pos` returns that window of the decryption of the whole file. */
  lemma WindowOfDecryption(ctx: Context, nonce: Block, content: Bytes, pos: nat, n: nat)
    requires |content| % 16 == 0 && pos % 16 == 0 && n % 16 == 0 && pos + n <= |content|
    ensures Crypt(ctx, Decrypt, Crypt(ctx, Decrypt, nonce, content[..pos]).iv, content[pos..pos + n]) ==
            Chain(Crypt(ctx, Decrypt, nonce, content).text[pos..pos + n],
                  Crypt(ctx, Decrypt, nonce, content[..pos + n]).iv)
  {
    hide Crypt;
    var a, b, c := content[..pos], content[pos..pos + n], content[pos + n..];
    assert content[..pos + n] == a + b && content == (a + b) + c;
    CryptAppend(ctx, Decrypt, nonce, a, b);
    CryptAppend(ctx, Decrypt, nonce, a + b, c);
  }

  /** What a read of `size` at `pos` returns: a window, or nothing where the size is refused. */
  function Readable(plain: Bytes, pos: nat, size: nat): Bytes {
    if size % 16 == 0 then Window(plain, pos, size) else []
  }

  lemma DeliveredWindow(r: Ree, fd: int, size: nat, pos: nat)
    requires r.Valid() && r.Has(fd, false) && r.open[fd].pos == pos <= |r.Content(fd)|
    ensures Delivered(r, fd, size) == r.Content(fd)[pos..pos + Min(size, |r.Content(fd)| - pos)]
  {
  }

  lemma WindowWithin(s: Bytes, pos: nat, size: nat)
    requires pos <= |s|
    ensures Window(s, pos, size) == s[pos..pos + Min(size, |s| - pos)]
  {
  }

  /** Reading moves one description only. */
  lemma AdvancedAlone(r: Ree, fd: int)
    requires r.Valid()
    ensures forall n: nat :: r.Advanced(fd, n).open - {fd} == r.open - {fd}
  {
  }

  method ReadNext(host: Files, obj: PersistentObject, buffer: array<bv8>, at: nat, size: nat,
                  ghost name: Bytes, ghost ctx: Context, ghost nonce: Block, ghost pos: nat)
    returns (r: TeeResult, count: nat)
    requires at + size <= buffer.Length
    requires Reading(host.ree, obj, name, ctx, nonce, pos)
    modifies host`ree, host`calls, obj, buffer
    ensures r == if size % 16 == 0 then Success else BadParameters
    ensures obj.desc == old(obj.desc) && host.ree.files == old(host.ree).files
    ensures host.ree.open - {obj.desc} == old(host.ree).open - {obj.desc}
    ensures var shown := Readable(Crypt(ctx, Decrypt, nonce, host.ree.files[name]).text, pos, size);
            count == |shown| && buffer[at..at + count] == shown
    ensures Reading(host.ree, obj, name, ctx, nonce, pos + count)
    ensures forall k :: 0 <= k < buffer.Length && !(at <= k < at + count) ==> buffer[k] == old(buffer[k])
  {
    hide Crypt, Window, Delivered, Ree.Ahead, Ree.Valid;
    ghost var content := host.ree.files[name];
    ghost var plain := Crypt(ctx, Decrypt, nonce, content).text;
    if size % 16 == 0 {
      DeliveredWindow(host.ree, obj.desc, size, pos);
      WindowOfDecryption(ctx, nonce, content, pos, Min(size, |content| - pos));
    }
    WindowWithin(plain, pos, size);
    AdvancedAlone(host.ree, obj.desc);
    var c: Option<nat>;
    r, c := ReadObjectData(host, obj, buffer, at, size, true);
    count := if c.Some? then c.value else 0;
    assert buffer[at..at + count] == Readable(plain, pos, size);
  }

  // ----- whole runs -----

  function Stream(chunks: seq<Bytes>): (s: Bytes)
    ensures |s| % 16 == 0
  {
    if chunks == [] then [] else Stream(chunks[..|chunks| - 1]) + Accepted(chunks[|chunks| - 1])
  }

  /** The position that a run of reads has asked for; sizes that are not whole blocks are refused. */
  function Asked(sizes: seq<nat>): (n: nat)
    ensures n % 16 == 0
  {
    if sizes == [] then 0
    else Asked(sizes[..|sizes| - 1]) + if sizes[|sizes| - 1] % 16 == 0 then sizes[|sizes| - 1] else 0
  }

  ghost predicate Ready(host: Files, p: Platform, id: Bytes)
    reads host
  {
    host.ree.Valid() && |id| <= TEE_OBJECT_ID_MAX_LEN && p.attest(id).Some?
  }

  ghost function Stored(p: Platform, id: Bytes, plain: Bytes): Bytes
    requires p.attest(id).Some? && |plain| % 16 == 0
  {
    Crypt(Context(p.aes, p.attest(id).value.key, Encrypt), Encrypt, p.attest(id).value.nonce, plain).text
  }

  const CREATE_FLAGS := TEE_DATA_FLAG_ACCESS_WRITE | TEE_DATA_FLAG_OVERWRITE

  /** TEE_CreatePersistentObject with WRITE | OVERWRITE starts an empty stream. */
  method CreateStream(host: Files, p: Platform, id: Bytes) returns (obj: PersistentObject)
    requires Ready(host, p, id)
    modifies host`ree
    ensures fresh(obj) && obj.desc == old(host.ree).next && obj.desc !in old(host.ree).open
    ensures var s := p.attest(id).value;
            Writing(host.ree, obj, CString(id), Context(p.aes, s.key, Encrypt), s.nonce, [])
    ensures host.ree.open - {obj.desc} == old(host.ree).open
    ensures host.ree.files == old(host.ree).files[CString(id) := []]
  {
    assert Writes(CREATE_FLAGS) && !Reads(CREATE_FLAGS) && CREATE_FLAGS & TEE_DATA_FLAG_OVERWRITE != 0;
    var r, o := OpenPersistentObject(host, p, Some(id), CREATE_FLAGS, true, true);
    obj := o;
  }

  /** TEE_OpenPersistentObject with READ stands at the start of the stream. */
  method OpenStream(host: Files, p: Platform, id: Bytes) returns (obj: PersistentObject)
    requires Ready(host, p, id) && CString(id) in host.ree.files && |host.ree.files[CString(id)]| % 16 == 0
    modifies host`ree
    ensures fresh(obj) && obj.desc == old(host.ree).next && obj.desc !in old(host.ree).open
    ensures var s := p.attest(id).value;
            Reading(host.ree, obj, CString(id), Context(p.aes, s.key, Decrypt), s.nonce, 0)
    ensures host.ree.files == old(host.ree).files && host.ree.open - {obj.desc} == old(host.ree).open
  {
    assert !Writes(TEE_DATA_FLAG_ACCESS_READ) && Reads(TEE_DATA_FLAG_ACCESS_READ);
    var r, o := OpenPersistentObject(host, p, Some(id), TEE_DATA_FLAG_ACCESS_READ, false, true);
    obj := o;
  }

  method WriteChunk(host: Files, obj: PersistentObject, chunk: Bytes,
                    ghost name: Bytes, ghost ctx: Context, ghost nonce: Block, ghost plain: Bytes)
    returns (r: TeeResult)
    requires Writing(host.ree, obj, name, ctx, nonce, plain)
    modifies host`ree, host`calls, obj
    ensures r == (if |chunk| % 16 == 0 then Success else BadParameters) && obj.desc == old(obj.desc)
    ensures Writing(host.ree, obj, name, ctx, nonce, plain + Accepted(chunk))
    ensures OnlyWrote(host.ree, old(host.ree), obj.desc, name)
  {
    hide Writing, OnlyWrote;
    var buffer := new bv8[|chunk|](j requires 0 <= j < |chunk| => chunk[j]);
    assert buffer[0..|chunk|] == chunk;
    r := WriteNext(host, obj, buffer, 0, |chunk|, name, ctx, nonce, plain);
  }

  method WriteChunks(host: Files, obj: PersistentObject, writes: seq<Bytes>,
                     ghost name: Bytes, ghost ctx: Context, ghost nonce: Block)
    returns (results: seq<TeeResult>)
    requires Writing(host.ree, obj, name, ctx, nonce, [])
    modifies host`ree, host`calls, obj
    ensures Writing(host.ree, obj, name, ctx, nonce, Stream(writes)) && obj.desc == old(obj.desc)
    ensures OnlyWrote(host.ree, old(host.ree), obj.desc, name)
    ensures |results| == |writes|
    ensures forall i :: 0 <= i < |writes| ==> results[i] == if |writes[i]| % 16 == 0 then Success else BadParameters
  {
    NamedFile(host.ree, obj, name, ctx, nonce, []);
    hide Writing, OnlyWrote;
    results := [];
    OnlyWroteNothing(host.ree, obj.desc, name);
    for i := 0 to |writes|
      invariant OnlyWrote(host.ree, old(host.ree), obj.desc, name)
      invariant Writing(host.ree, obj, name, ctx, nonce, Stream(writes[..i])) && obj.desc == old(obj.desc)
      invariant |results| == i
      invariant forall j :: 0 <= j < i ==> results[j] == if |writes[j]| % 16 == 0 then Success else BadParameters
    {
      assert writes[..i + 1][..i] == writes[..i] && writes[..i + 1][i] == writes[i];
      ghost var was := host.ree;
      var r := WriteChunk(host, obj, writes[i], name, ctx, nonce, Stream(writes[..i]));
      OnlyWroteTwice(host.ree, was, old(host.ree), obj.desc, name);
      results := results + [r];
    }
    assert writes[..|writes|] == writes;
  }

  lemma NamedFile(r: Ree, obj: PersistentObject, name: Bytes, ctx: Context, nonce: Block, plain: Bytes)
    requires Writing(r, obj, name, ctx, nonce, plain)
    ensures name in r.files
  {
  }

  /** Create, write every chunk, close: the file is the encryption of the accepted chunks in order. */
  method Store(host: Files, p: Platform, id: Bytes, writes: seq<Bytes>) returns (results: seq<TeeResult>)
    requires Ready(host, p, id)
    modifies host`ree, host`calls
    ensures Ready(host, p, id)
    ensures host.ree.files == old(host.ree).files[CString(id) := Stored(p, id, Stream(writes))]
    ensures host.ree.open == old(host.ree).open
    ensures var s := p.attest(id).value;
            Chained(Context(p.aes, s.key, Encrypt), Encrypt, s.nonce, Stream(writes), host.ree.files[CString(id)])
    ensures |results| == |writes|
    ensures forall i :: 0 <= i < |writes| ==> results[i] == if |writes[i]| % 16 == 0 then Success else BadParameters
  {
    hide Crypt, Stream, Chained;
    ghost var secret := p.attest(id).value;
    CryptIsChained(Context(p.aes, secret.key, Encrypt), Encrypt, secret.nonce, Stream(writes));
    var obj := CreateStream(host, p, id);
    results := WriteChunks(host, obj, writes, CString(id), Context(p.aes, secret.key, Encrypt), secret.nonce);
    var panics := CloseObject(host, obj);
  }

  /** What the `i`-th of a run of reads must return from the stream `plain`. */
  function Expected(plain: Bytes, sizes: seq<nat>, i: nat): Bytes
    requires i < |sizes|
  {
    Readable(plain, Asked(sizes[..i]), sizes[i])
  }

  method ReadChunks(host: Files, obj: PersistentObject, sizes: seq<nat>,
                    ghost name: Bytes, ghost ctx: Context, ghost nonce: Block)
    returns (loaded: seq<Bytes>)
    requires Reading(host.ree, obj, name, ctx, nonce, 0)
    modifies host`ree, host`calls, obj
    ensures host.ree.files == old(host.ree).files && obj.desc == old(obj.desc) && name in host.ree.files
    ensures host.ree.open - {obj.desc} == old(host.ree).open - {obj.desc}
    ensures host.ree.Valid() && |host.ree.files[name]| % 16 == 0 && obj.desc in host.ree.open && Persistent(obj.flags)
    ensures |loaded| == |sizes|
    ensures var plain := Crypt(ctx, Decrypt, nonce, host.ree.files[name]).text;
            forall i :: 0 <= i < |sizes| ==> loaded[i] == Expected(plain, sizes, i)
  {
    hide Crypt, Window, Asked;
    loaded := [];
    ghost var plain := Crypt(ctx, Decrypt, nonce, host.ree.files[name]).text;
    assert Asked(sizes[..0]) == 0 by { NothingAsked(); }
    for i := 0 to |sizes|
      invariant host.ree.files == old(host.ree).files && obj.desc == old(obj.desc)
      invariant host.ree.open - {obj.desc} == old(host.ree).open - {obj.desc}
      invariant Reading(host.ree, obj, name, ctx, nonce, Min(Asked(sizes[..i]), |plain|))
      invariant |loaded| == i && forall j :: 0 <= j < i ==> loaded[j] == Expected(plain, sizes, j)
    {
      hide Reading;
      var size := sizes[i];
      var buffer := new bv8[size];
      ghost var asked := Asked(sizes[..i]);
      ReadStep(plain, sizes, i, asked);
      var r, count := ReadNext(host, obj, buffer, 0, size, name, ctx, nonce, Min(asked, |plain|));
      assert buffer[..count] == buffer[0..0 + count];
      loaded := loaded + [buffer[..count]];
    }
  }

  lemma NothingAsked()
    ensures Asked([]) == 0
  {
  }

  /** The position after one more read, and the window that the read returns. */
  lemma ReadStep(plain: Bytes, sizes: seq<nat>, i: nat, asked: nat)
    requires i < |sizes| && asked == Asked(sizes[..i])
    ensures Asked(sizes[..i + 1]) == asked + if sizes[i] % 16 == 0 then sizes[i] else 0
    ensures var shown := Readable(plain, Min(asked, |plain|), sizes[i]);
            shown == Expected(plain, sizes, i) &&
            Min(asked, |plain|) + |shown| == Min(Asked(sizes[..i + 1]), |plain|)
  {
    assert sizes[..i + 1][..i] == sizes[..i] && sizes[..i + 1][i] == sizes[i];
  }

  /** Open for reading, read every size, close. */
  method Load(host: Files, p: Platform, id: Bytes, sizes: seq<nat>) returns (loaded: seq<Bytes>)
    requires Ready(host, p, id) && CString(id) in host.ree.files && |host.ree.files[CString(id)]| % 16 == 0
    modifies host`ree, host`calls
    ensures Ready(host, p, id) && |loaded| == |sizes|
    ensures host.ree.files == old(host.ree).files && host.ree.open == old(host.ree).open
    ensures var s := p.attest(id).value;
            var plain := Crypt(Context(p.aes, s.key, Decrypt), Decrypt, s.nonce, old(host.ree).files[CString(id)]).text;
            forall i :: 0 <= i < |sizes| ==> loaded[i] == Expected(plain, sizes, i)
  {
    hide Crypt, Expected;
    ghost var secret := p.attest(id).value;
    var obj := OpenStream(host, p, id);
    loaded := ReadChunks(host, obj, sizes, CString(id), Context(p.aes, secret.key, Decrypt), secret.nonce);
    var panics := CloseObject(host, obj);
  }

  /** Any write chunking followed by any other read chunking returns the stream that was written. */
  method StoreThenLoad(host: Files, p: Platform, id: Bytes, writes: seq<Bytes>, sizes: seq<nat>)
    returns (loaded: seq<Bytes>)
    requires Ready(host, p, id) && p.aes.Lawful()
    modifies host`ree, host`calls
    ensures |loaded| == |sizes|
    ensures forall i :: 0 <= i < |sizes| ==> loaded[i] == Expected(Stream(writes), sizes, i)
  {
    hide Crypt, Expected, Stream;
    var results := Store(host, p, id, writes);
    ghost var secret := p.attest(id).value;
    DecryptInverts(p.aes, secret.key, secret.nonce, Stream(writes));
    loaded := Load(host, p, id, sizes);
  }

  /**
   * Objects whose names differ do not disturb each other: what was stored in one is read back from
   * it after the other has been stored.
   */
  method StoreBothLoadFirst(host: Files, p: Platform, a: Bytes, b: Bytes, writes: seq<Bytes>, others: seq<Bytes>,
                            sizes: seq<nat>)
    returns (loaded: seq<Bytes>)
    requires Ready(host, p, a) && Ready(host, p, b) && p.aes.Lawful()
    requires NulFree(a) && NulFree(b) && a != b
    modifies host`ree, host`calls
    ensures |loaded| == |sizes|
    ensures forall i :: 0 <= i < |sizes| ==> loaded[i] == Expected(Stream(writes), sizes, i)
    ensures host.ree.files ==
            old(host.ree).files[a := Stored(p, a, Stream(writes))][b := Stored(p, b, Stream(others))]
  {
    hide Crypt, Expected, Stream, Chained, CString;
    NamesDiffer(a, b);
    NamesDiffer(b, a);
    var results := Store(host, p, a, writes);
    results := Store(host, p, b, others);
    ghost var secret := p.attest(a).value;
    DecryptInverts(p.aes, secret.key, secret.nonce, Stream(writes));
    loaded := Load(host, p, a, sizes);
  }

  /** The reads, put together, are the matching prefix of the stream; past its end they are empty. */
  lemma {:induction false} ReadsMakePrefix(plain: Bytes, sizes: seq<nat>, loaded: seq<Bytes>)
    requires |loaded| == |sizes|
    requires forall i :: 0 <= i < |sizes| ==> loaded[i] == Expected(plain, sizes, i)
    ensures Join(loaded) == Window(plain, 0, Asked(sizes))
    ensures forall i :: 0 <= i < |sizes| && Asked(sizes[..i]) >= |plain| ==> loaded[i] == []
    decreases |sizes|
  {
    hide Window, Asked;
    if sizes == [] {
      NothingAsked();
      WindowsJoin(plain, 0, 0);
    } else {
      var n := |sizes| - 1;
      assert forall i :: 0 <= i < n ==> sizes[..n][..i] == sizes[..i];
      ReadsMakePrefix(plain, sizes[..n], loaded[..n]);
      assert sizes[..n + 1] == sizes;
      ReadStep(plain, sizes, n, Asked(sizes[..n]));
      WindowsJoin(plain, Asked(sizes[..n]), sizes[n]);
    }
  }

  lemma WindowsJoin(s: Bytes, a: nat, n: nat)
    ensures Window(s, 0, a) + Window(s, a, n) == Window(s, 0, a + n)
    ensures Window(s, 0, a) + [] == Window(s, 0, a)
    ensures a >= |s| ==> Window(s, a, n) == []
    ensures Window(s, 0, 0) == []
  {
  }
}
