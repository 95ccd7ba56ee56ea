/**
 * The untrusted host's file layer as the enclave sees it: the ocalls of
 * edger/keyedge/Enclave_u.c and the full-transfer loops of
 * edger/keyedge/Enclave_t.c.  A host transfer moves any positive number of the
 * bytes asked for, at most 256 of them, by a schedule the enclave does not know.
 */
module Host {
  import opened Basics

  const O_WRONLY: bv32 := 1
  const O_ACCMODE: bv32 := 3
  const O_CREAT: bv32 := 0x40
  const O_TRUNC: bv32 := 0x200
  const TRANSFER_MAX := 256

  /** An open description: a file, a position in it, and whether it was opened for writing or reading. */
  datatype Opened = Opened(name: Bytes, pos: nat, writable: bool)

  /** The host's files and open descriptions; descriptors are handed out in order. */
  datatype Ree = Ree(files: map<Bytes, Bytes>, open: map<int, Opened>, next: nat) {
    predicate Valid() {
      forall fd :: fd in open ==> 0 <= fd < next && open[fd].name in files
    }

    predicate Has(fd: int, writable: bool) { fd in open && open[fd].writable == writable }

    function Content(fd: int): Bytes
      requires Valid() && fd in open
    {
      files[open[fd].name]
    }

    /** The bytes that a descriptor open for reading still has ahead of it. */
    function Ahead(fd: int): Bytes
      requires Valid()
    {
      if Has(fd, false) && open[fd].pos <= |Content(fd)| then Content(fd)[open[fd].pos..] else []
    }

    function Wrote(fd: int, data: Bytes): (r: Ree)
      requires Valid() && fd in open
      ensures r.Valid()
    {
      var o := open[fd];
      Ree(files[o.name := Overwrite(Content(fd), o.pos, data)], open[fd := o.(pos := o.pos + |data|)], next)
    }

    function Advanced(fd: int, n: nat): (r: Ree)
      requires Valid()
      ensures r.Valid() && r.files == files
      ensures r.Has(fd, true) == Has(fd, true) && r.Has(fd, false) == Has(fd, false)
    {
      if fd !in open then this else this.(open := open[fd := open[fd].(pos := open[fd].pos + n)])
    }
  }

  function Overwrite(content: Bytes, pos: nat, data: Bytes): (r: Bytes)
    ensures pos == |content| ==> r == content + data
  {
    if data == [] then content else Splice(Grown(content, pos), pos, data)
  }

  /** A write past the end leaves a gap of zeros. */
  function Grown(content: Bytes, pos: nat): (r: Bytes)
    ensures |r| >= pos && (pos <= |content| ==> r == content)
  {
    if pos <= |content| then content else content + seq(pos - |content|, _ => 0)
  }

  function Splice(base: Bytes, pos: nat, data: Bytes): Bytes
    requires pos <= |base|
  {
    base[..pos] + data + if pos + |data| <= |base| then base[pos + |data|..] else []
  }

  lemma SpliceIs(base: Bytes, pos: nat, data: Bytes)
    requires pos <= |base|
    ensures |Splice(base, pos, data)| == Max(|base|, pos + |data|)
    ensures forall k :: 0 <= k < Max(|base|, pos + |data|) ==>
              Splice(base, pos, data)[k] == if pos <= k < pos + |data| then data[k - pos] else base[k]
  {
  }

  lemma SpliceTwice(base: Bytes, pos: nat, a: Bytes, b: Bytes)
    requires pos <= |base| && pos + |a| <= |Splice(base, pos, a)|
    ensures Splice(Splice(base, pos, a), pos + |a|, b) == Splice(base, pos, a + b)
  {
    hide Splice;
    SpliceIs(base, pos, a);
    SpliceIs(Splice(base, pos, a), pos + |a|, b);
    SpliceIs(base, pos, a + b);
  }

  /** A write changes the bytes it covers, keeps the others, and leaves zeros in a gap before it. */
  lemma OverwriteAt(content: Bytes, pos: nat, data: Bytes)
    requires data != []
    ensures var r := Overwrite(content, pos, data);
            && |r| == Max(|content|, pos + |data|)
            && forall k :: 0 <= k < |r| ==>
                 r[k] == if pos <= k < pos + |data| then data[k - pos] else if k < |content| then content[k] else 0
  {
    hide Splice;
    SpliceIs(Grown(content, pos), pos, data);
  }

  lemma OverwriteTwice(content: Bytes, pos: nat, a: Bytes, b: Bytes)
    ensures Overwrite(Overwrite(content, pos, a), pos + |a|, b) == Overwrite(content, pos, a + b)
  {
    hide Splice, Grown;
    if a == [] {
      assert a + b == b;
    } else if b == [] {
      assert a + b == a;
    } else {
      var base := Grown(content, pos);
      SpliceIs(base, pos, a);
      SpliceTwice(base, pos, a, b);
    }
  }

  lemma WroteTwice(r: Ree, fd: int, a: Bytes, b: Bytes)
    requires r.Valid() && fd in r.open
    ensures r.Wrote(fd, a).Wrote(fd, b) == r.Wrote(fd, a + b)
  {
    OverwriteTwice(r.Content(fd), r.open[fd].pos, a, b);
  }

  lemma WroteNothing(r: Ree, fd: int)
    requires r.Valid() && fd in r.open
    ensures r.Wrote(fd, []) == r
  {
    assert r.open[fd := r.open[fd]] == r.open && r.files[r.open[fd].name := r.Content(fd)] == r.files;
  }

  class Files {
    var ree: Ree
    var calls: nat
    const schedule: nat -> nat

    /** How many of `asked` bytes the next transfer moves: at least one. */
    method Transfer(asked: nat) returns (n: nat)
      requires asked > 0
      modifies this`calls
      ensures 1 <= n <= Min(asked, TRANSFER_MAX)
    {
      n := Min(1 + schedule(calls), Min(asked, TRANSFER_MAX));
      calls := calls + 1;
    }

    /** open(2): an access mode of 3 is refused, and so is a missing file unless O_CREAT is set. */
    method OpenFile(name: Bytes, oflags: bv32) returns (fd: int)
      requires ree.Valid()
      modifies this`ree
      ensures ree.Valid()
      ensures var was := old(ree);
              if oflags & O_ACCMODE == O_ACCMODE || (name !in was.files && oflags & O_CREAT == 0)
              then fd == -1 && ree == was
              else fd == was.next &&
                   ree == Ree(was.files[name := if name in was.files && oflags & O_TRUNC == 0
                                                then was.files[name] else []],
                              was.open[fd := Opened(name, 0, oflags & O_WRONLY != 0)], was.next + 1)
    {
      if oflags & O_ACCMODE == O_ACCMODE || (name !in ree.files && oflags & O_CREAT == 0) { return -1; }
      fd := ree.next;
      var content := if name in ree.files && oflags & O_TRUNC == 0 then ree.files[name] else [];
      ree := Ree(ree.files[name := content], ree.open[fd := Opened(name, 0, oflags & O_WRONLY != 0)], fd + 1);
    }

    /** close(2). */
    method CloseFile(fd: int) returns (rc: int)
      requires ree.Valid()
      modifies this`ree
      ensures ree.Valid()
      ensures if fd in old(ree).open then rc == 0 && ree == old(ree).(open := old(ree).open - {fd})
              else rc == -1 && ree == old(ree)
    {
      if fd !in ree.open { return -1; }
      ree := ree.(open := ree.open - {fd});
      rc := 0;
    }

    /** ocall_write_file: one write(2) of at most 256 bytes. */
    method WriteFile(fd: int, data: Bytes) returns (n: int)
      requires ree.Valid()
      modifies this`ree, this`calls
      ensures ree.Valid()
      ensures if !old(ree).Has(fd, true) then n == -1 && ree == old(ree)
              else 0 <= n <= Min(|data|, TRANSFER_MAX) && (data != [] ==> n > 0) && ree == old(ree).Wrote(fd, data[..n])
    {
      if fd !in ree.open || !ree.open[fd].writable { return -1; }
      n := 0;
      if data != [] { n := Transfer(|data|); }
      ree := ree.Wrote(fd, data[..n]);
    }

    /** ocall_read_file: one read(2) of at most 256 bytes into the buffer; 0 at the end of the file. */
    method ReadFile(fd: int, buf: array<bv8>, at: nat, count: nat) returns (n: int)
      requires ree.Valid() && at + count <= buf.Length
      modifies this`ree, this`calls, buf
      ensures ree.Valid()
      ensures -1 <= n <= Min(Min(count, TRANSFER_MAX), |old(ree).Ahead(fd)|) && (n == -1 <==> !old(ree).Has(fd, false))
      ensures n == 0 ==> count == 0 || old(ree).Ahead(fd) == []
      ensures ree == old(ree).Advanced(fd, if n < 0 then 0 else n)
      ensures forall k :: at <= k < at + n ==> buf[k] == old(ree).Ahead(fd)[k - at]
      ensures forall k :: 0 <= k < buf.Length && !(at <= k < at + n) ==> buf[k] == old(buf[k])
    {
      AdvancedTwice(ree, fd, 0, 0);
      if fd !in ree.open || ree.open[fd].writable { return -1; }
      n := 0;
      var ahead := ree.Ahead(fd);
      if count > 0 && ahead != [] { n := Transfer(Min(count, |ahead|)); }
      Memcpy(buf, at, ahead[..n]);
      ree := ree.Advanced(fd, n);
    }

    /** ocall_write_file_full: every byte reaches a writable file, whatever the schedule. */
    method WriteFileFull(fd: int, data: Bytes) returns (offset: int)
      requires ree.Valid()
      modifies this`ree, this`calls
      ensures ree.Valid()
      ensures if old(ree).Has(fd, true) then offset == |data| && ree == old(ree).Wrote(fd, data)
              else offset == (if data == [] then 0 else -1) && ree == old(ree)
    {
      offset := 0;
      ghost var was := ree;
      if was.Has(fd, true) { WroteNothing(was, fd); }
      while |data| > 0
        invariant ree.Valid() && 0 <= offset <= |data|
        invariant if was.Has(fd, true) then ree == was.Wrote(fd, data[..offset]) else ree == was && offset == 0
        decreases |data| - offset
      {
        var n := WriteFile(fd, data[offset..]);
        if n > 0 {
          WroteTwice(was, fd, data[..offset], data[offset..][..n]);
          assert data[..offset] + data[offset..][..n] == data[..offset + n];
          offset := offset + n;
        } else if n < 0 {
          if offset == 0 { return n; }
          break;
        } else {
          break;
        }
      }
      assert data[..|data|] == data;
    }

    /** ocall_read_file_full: as many bytes as the file still has, up to `count`. */
    method ReadFileFull(fd: int, buf: array<bv8>, at: nat, count: nat) returns (offset: int)
      requires ree.Valid() && at + count <= buf.Length
      modifies this`ree, this`calls, buf
      ensures ree.Valid()
      ensures offset == if !old(ree).Has(fd, false) && count > 0 then -1 else Min(count, |old(ree).Ahead(fd)|)
      ensures ree == old(ree).Advanced(fd, if offset < 0 then 0 else offset)
      ensures forall k :: at <= k < at + offset ==> buf[k] == old(ree).Ahead(fd)[k - at]
      ensures forall k :: 0 <= k < buf.Length && !(at <= k < at + offset) ==> buf[k] == old(buf[k])
    {
      hide Ree.Advanced, Ree.Ahead, Ree.Valid, Ree.Has;
      offset := 0;
      ghost var was, ahead := ree, ree.Ahead(fd);
      AdvancedTwice(was, fd, 0, 0);
      while count > 0
        invariant ree.Valid() && 0 <= offset <= count && offset <= |ahead|
        invariant ree.Has(fd, false) == was.Has(fd, false)
        invariant ree == was.Advanced(fd, offset) && ree.Ahead(fd) == ahead[offset..]
        invariant forall k :: at <= k < at + offset ==> buf[k] == ahead[k - at]
        invariant forall k :: 0 <= k < buf.Length && !(at <= k < at + offset) ==> buf[k] == old(buf[k])
        decreases count - offset
      {
        var n := ReadFile(fd, buf, at + offset, count - offset);
        AdvancedTwice(was, fd, offset, if n < 0 then 0 else n);
        if n > 0 {
          offset := offset + n;
        } else if n < 0 {
          if offset == 0 { return n; }
          break;
        } else {
          break;
        }
      }
      NothingAhead(was, fd);
    }
  }

  lemma NothingAhead(r: Ree, fd: int)
    requires r.Valid()
    ensures !r.Has(fd, false) ==> r.Ahead(fd) == []
  {
  }

  lemma AdvancedTwice(r: Ree, fd: int, a: nat, b: nat)
    requires r.Valid() && a + b <= |r.Ahead(fd)|
    ensures r.Advanced(fd, a).Advanced(fd, b) == r.Advanced(fd, a + b)
    ensures r.Advanced(fd, a + b).Ahead(fd) == r.Ahead(fd)[a + b..]
    ensures r.Advanced(fd, 0) == r
  {
    assert fd in r.open ==> r.open[fd := r.open[fd]] == r.open;
  }
}
