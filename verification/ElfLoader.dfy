/** The loader's buffered reader over a file node, and the segment loop on top of it (App/ELFLoader). */
module ElfLoaders {
  import opened Machine
  import opened ElfImages

  /**
   * A readable file. A read delivers at least one byte before the end of the file but possibly fewer than
   * asked for; a node that is not reliable may also report a device error at any time.
   */
  class FileNode {
    const content: seq<U8>
    const reliable: bool
    var pos: nat
    ghost var failed: bool

    constructor (content: seq<U8>, reliable: bool)
      ensures this.content == content && this.reliable == reliable && Valid() && pos == 0 && !failed
    {
      this.content, this.reliable := content, reliable;
      pos, failed := 0, false;
    }

    ghost predicate Valid()
      reads this
    {
      pos <= |content| && (reliable ==> !failed)
    }

    method Read(buf: array<U8>, n: nat) returns (okay: bool, count: nat)
      requires Valid() && n <= buf.Length
      modifies this, buf
      ensures Valid() && count <= n && (okay ==> failed == old(failed)) && (!okay ==> failed)
      ensures okay ==> pos == old(pos) + count && buf[..count] == content[old(pos)..pos]
      ensures okay ==> (count == 0 <==> n == 0 || old(pos) == |content|)
    {
      var deviceError: bool := *;
      if !reliable && deviceError {
        failed := true;
        return false, 0;
      }
      var most := Min(n, |content| - pos);
      if most == 0 {
        return true, 0;
      }
      count :| 0 < count <= most;
      forall k | 0 <= k < count {
        buf[k] := content[pos + k];
      }
      pos := pos + count;
      okay := true;
    }

    /** Seeking from the start of the file; the end itself may or may not be accepted. */
    method Seek(offset: int) returns (okay: bool)
      requires Valid()
      modifies this
      ensures Valid() && (okay ==> 0 <= offset <= |content| && pos == offset && failed == old(failed))
      ensures !okay ==> pos == old(pos) && (failed == old(failed) || 0 <= offset <= |content|)
      ensures !okay && 0 <= offset < |content| ==> failed
    {
      if offset < 0 || offset > |content| {
        return false;
      }
      var endRefused: bool, deviceError: bool := *, *;
      if offset == |content| && endRefused {
        return false;
      }
      if !reliable && deviceError {
        failed := true;
        return false;
      }
      pos := offset;
      okay := true;
    }
  }

  /** The first count bytes of b are the file's bytes from p on, the others are as before. */
  ghost predicate Delivered(b: seq<U8>, before: seq<U8>, c: seq<U8>, p: nat, count: nat) {
    && |b| == |before| && count <= |b| && p + count <= |c|
    && b[..count] == c[p..p + count] && b[count..] == before[count..]
  }

  lemma DeliverMore(b: seq<U8>, b': seq<U8>, before: seq<U8>, c: seq<U8>, p: nat, n: nat, m: nat)
    requires Delivered(b, before, c, p, n) && |b'| == |b| && n + m <= |b| && p + n + m <= |c|
    requires b'[..n + m] == b[..n] + c[p + n..p + n + m] && b'[n + m..] == b[n + m..]
    ensures Delivered(b', before, c, p, n + m)
  {
    assert c[p..p + n] + c[p + n..p + n + m] == c[p..p + n + m];
    assert before[n..][m..] == before[n + m..] && b[n..][m..] == b[n + m..];
  }

  /** Taking the first t unread bytes of the buffer leaves the rest of the same piece of the file. */
  lemma SplitUnread<T>(b: seq<T>, pos: nat, limit: nat, c: seq<T>, p: nat, t: nat)
    requires pos + t <= limit <= |b| && p + (limit - pos) <= |c| && b[pos..limit] == c[p..p + (limit - pos)]
    ensures b[pos..pos + t] == c[p..p + t] && b[pos + t..limit] == c[p + t..p + (limit - pos)]
  {
    var unread := b[pos..limit];
    assert b[pos..pos + t] == unread[..t] && b[pos + t..limit] == unread[t..];
    assert c[p..p + t] == c[p..p + (limit - pos)][..t];
  }

  class ELFLoader {
    const node: FileNode
    const fileBuf: array<U8>
    var bufPos: nat
    var bufLimit: nat

    constructor (node: FileNode)
      requires node.Valid()
      ensures this.node == node && Valid() && fresh(fileBuf) && Position() == node.pos
    {
      this.node := node;
      fileBuf := new U8[BUF_SIZE](_ => 0);
      bufPos, bufLimit := 0, 0;
    }

    ghost predicate Shape()
      reads this, node
    {
      node.Valid() && fileBuf.Length == BUF_SIZE && bufPos <= bufLimit <= BUF_SIZE
    }

    /** The unread part of the buffer is the piece of the file right before the node's position. */
    ghost predicate Valid()
      reads this, node, fileBuf
    {
      Shape() && bufLimit - bufPos <= node.pos
      && fileBuf[bufPos..bufLimit] == node.content[Position()..node.pos]
    }

    /** The file cursor the loader presents: the offset of the next byte it will deliver. */
    ghost function Position(): int
      reads this, node
    {
      node.pos - (bufLimit - bufPos)
    }

    method GetNextBuffer() returns (good: bool)
      requires Shape()
      modifies this, node, fileBuf
      ensures Shape()
      ensures good ==> Valid() && Position() == old(node.pos) && bufPos < bufLimit && node.failed == old(node.failed)
      ensures !good ==> bufPos == old(bufPos) && bufLimit == old(bufLimit)
      ensures !good ==> node.failed || (node.pos == old(node.pos) == |node.content| && node.failed == old(node.failed))
    {
      var okay, byteCount := node.Read(fileBuf, BUF_SIZE);
      good := okay && byteCount > 0;
      if good {
        bufPos := 0;
        bufLimit := byteCount;
      }
    }

    /** Delivers the next n bytes, or all that are left: the reader behaves like a plain file cursor. */
    method ReadBytes(buf: array<U8>, n: nat) returns (count: nat)
      requires Valid() && !node.failed && n <= buf.Length && n < 0x1_0000 && buf != fileBuf
      modifies this, node, fileBuf, buf
      ensures Shape() && count <= n && old(Position()) + count <= |node.content|
      ensures buf[..count] == node.content[old(Position())..old(Position()) + count]
      ensures buf[count..] == old(buf[count..])
      ensures !node.failed ==> Valid() && Position() == old(Position()) + count
      ensures !node.failed ==> count == Min(n, |node.content| - old(Position()))
    {
      ghost var p := Position();
      ghost var before := buf[..];
      count := 0;
      assert Delivered(buf[..], before, node.content, p, 0);
      if bufLimit == 0 {
        var good := GetNextBuffer();
        if !good {
          return;
        }
      }
      while count < n
        invariant Valid() && !node.failed && count <= n && Position() == p + count
        invariant Delivered(buf[..], before, node.content, p, count)
        decreases n - count
      {
        if bufPos >= bufLimit {
          var good := GetNextBuffer();
          if !good {
            return;
          }
        }
        count := Deliver(buf, n, count, before, p);
      }
    }

    /** One turn of the loop with bytes in the buffer: copies as many as are there and still wanted. */
    method Deliver(buf: array<U8>, n: nat, done: nat, ghost before: seq<U8>, ghost p: nat) returns (count: nat)
      requires Valid() && buf != fileBuf && done < n <= buf.Length && bufPos < bufLimit && Position() == p + done
      requires Delivered(buf[..], before, node.content, p, done)
      modifies this`bufPos, buf
      ensures Valid() && done < count <= n && Position() == p + count
      ensures Delivered(buf[..], before, node.content, p, count)
    {
      var toCopy := Min(n - done, bufLimit - bufPos);
      ghost var had := buf[..];
      CopyOut(buf, done, toCopy);
      DeliverMore(had, buf[..], before, node.content, p, done, toCopy);
      count := done + toCopy;
    }

    /** The copy of one stretch from the buffer. */
    method CopyOut(buf: array<U8>, at: nat, toCopy: nat)
      requires Valid() && buf != fileBuf && at + toCopy <= buf.Length && toCopy <= bufLimit - bufPos
      modifies this`bufPos, buf
      ensures Valid() && Position() == old(Position()) + toCopy
      ensures buf[..at] == old(buf[..at]) && buf[at + toCopy..] == old(buf[at + toCopy..])
      ensures buf[..at + toCopy] == old(buf[..at]) + node.content[old(Position())..old(Position()) + toCopy]
    {
      var stretch := fileBuf[bufPos..bufPos + toCopy];
      SplitUnread(fileBuf[..], bufPos, bufLimit, node.content, Position(), toCopy);
      forall k | at <= k < at + toCopy {
        buf[k] := stretch[k - at];
      }
      bufPos := bufPos + toCopy;
    }

    /** Moves the cursor; the offset passes through a 32-bit signed conversion. */
    method Seek(byteCount: U64) returns (good: bool)
      requires Shape() && !node.failed
      modifies this, node, fileBuf
      ensures Shape()
      ensures good ==> Valid() && Position() == ToInt32(byteCount) && !node.failed
      ensures good ==> 0 <= ToInt32(byteCount) < |node.content|
      ensures !good && !node.failed ==> !(0 <= ToInt32(byteCount) < |node.content|)
    {
      good := node.Seek(ToInt32(byteCount));
      if good {
        good := GetNextBuffer();
      }
    }

    /** Copies and zero-fills one segment; the cursor stands at its file offset. */
    method LoadSegment(ph: ProgramHeader, mem: array<U8>)
      requires Valid() && node.reliable && mem != fileBuf && ph.segmentType == PT_LOAD
      requires Seekable(ph, |node.content|) && Loadable(ph, node.content, mem.Length)
      requires Position() == ToInt32(ph.offset)
      modifies this, node, fileBuf, mem
      ensures Shape() && mem[..] == Write(old(mem[..]), ph, node.content)
    {
      hide Copied, Write, Spliced;
      CopiedAll(mem[..], ph, node.content);
      var destOffset := CopyFile(ph.fileSize, mem, ph.virtualAddress);
      if ph.memorySize > ph.fileSize {
        Clear(mem, ph.virtualAddress + destOffset, ph.memorySize - ph.fileSize);
      }
    }

    /** The copy loop: moves fileSize bytes from the cursor to memory at dest. */
    method CopyFile(fileSize: nat, mem: array<U8>, dest: nat) returns (destOffset: nat)
      requires Valid() && node.reliable && mem != fileBuf
      requires dest + fileSize <= mem.Length && Position() + fileSize <= |node.content|
      modifies this, node, fileBuf, mem
      ensures Shape() && destOffset == fileSize
      ensures mem[..] == Copied(old(mem[..]), dest, node.content, old(Position()), fileSize)
    {
      hide Copied, Spliced;
      ghost var m := mem[..];
      ghost var offset := Position();
      var toCopy := fileSize;
      destOffset := 0;
      CopiedNothing(m, dest, node.content, offset);
      while toCopy > 0
        invariant Shape() && destOffset + toCopy == fileSize && mem.Length == |m|
        invariant toCopy > 0 ==> Valid() && Position() == offset + destOffset
        invariant mem[..] == Copied(m, dest, node.content, offset, destOffset)
      {
        var maxCopy := CopyChunk(mem, dest + destOffset, toCopy);
        CopiedMore(m, dest, node.content, offset, destOffset, maxCopy);
        toCopy := toCopy - maxCopy;
        destOffset := destOffset + maxCopy;
      }
    }

    /** The bytes of the file from the cursor on. */
    ghost function Remaining(): (n: nat)
      requires Valid()
      reads this, node, fileBuf
    {
      |node.content| - Position()
    }

    /**
     * One turn of the copy loop, whatever the file still holds: it takes a buffer full from the cursor, or what
     * is left, and copies what is still wanted of it.
     */
    method CopyChunk(mem: array<U8>, at: nat, toCopy: nat) returns (maxCopy: nat)
      requires Valid() && node.reliable && mem != fileBuf && 0 < toCopy && at + toCopy <= mem.Length
      modifies this, node, fileBuf, mem
      ensures Valid() && maxCopy == Min(Min(BUF_SIZE, old(Remaining())), toCopy)
      ensures Remaining() == old(Remaining()) - Min(BUF_SIZE, old(Remaining()))
      ensures mem[..] == Spliced(old(mem[..]), at, node.content[old(Position())..old(Position()) + maxCopy])
    {
      ghost var p := Position();
      var b := new U8[BUF_SIZE](_ => 0);
      var memRead := ReadBytes(b, BUF_SIZE);
      maxCopy := Min(memRead, toCopy);
      PrefixOfSlice(b[..], node.content, p, memRead, maxCopy);
      Paste(mem, at, b, maxCopy);
    }

    /**
     * The copy loop cut off after some number of turns: what is left to copy is what `LeftAfter` says, so the
     * loop ends exactly when that reaches zero. What was copied are the first bytes from the cursor.
     */
    method CopyTurns(fileSize: nat, mem: array<U8>, dest: nat, turns: nat) returns (toCopy: nat)
      requires Valid() && node.reliable && mem != fileBuf && dest + fileSize <= mem.Length
      modifies this, node, fileBuf, mem
      ensures Valid() && toCopy == LeftAfter(fileSize, old(Remaining()), turns)
      ensures toCopy <= fileSize <= toCopy + old(Remaining())
      ensures mem[..] == Copied(old(mem[..]), dest, node.content, old(Position()), fileSize - toCopy)
    {
      hide Copied, Spliced;
      ghost var m, offset, all := mem[..], Position(), Remaining();
      toCopy := fileSize;
      var k := 0;
      CopiedNothing(m, dest, node.content, offset);
      while k < turns && toCopy > 0
        invariant k <= turns && toCopy <= fileSize && mem.Length == |m| && Valid() && Remaining() <= all
        invariant toCopy > 0 ==> Remaining() == all - (fileSize - toCopy)
        invariant fileSize - toCopy <= all
        invariant LeftAfter(fileSize, all, turns) == LeftAfter(toCopy, Remaining(), turns - k)
        invariant mem[..] == Copied(m, dest, node.content, offset, fileSize - toCopy)
      {
        var maxCopy := CopyChunk(mem, dest + (fileSize - toCopy), toCopy);
        CopiedMore(m, dest, node.content, offset, fileSize - toCopy, maxCopy);
        toCopy := toCopy - maxCopy;
        k := k + 1;
      }
    }

    /** Loads every PT_LOAD segment in order, up to the first one whose offset cannot be sought. */
    method LoadSegments(phs: seq<ProgramHeader>, mem: array<U8>) returns (ok: bool)
      requires Shape() && node.reliable && mem != fileBuf && AllLoadable(phs, node.content, mem.Length)
      modifies this, node, fileBuf, mem
      ensures Shape() && (ok <==> AllSeekable(phs, |node.content|))
      ensures var n := Handled(phs, |node.content|);
              AllSeekable(phs[..n], |node.content|)
              && mem[..] == Image(old(mem[..]), phs[..n], node.content)
    {
      hide Write, Loadable;
      ghost var m := mem[..];
      var i := 0;
      while i < |phs|
        invariant 0 <= i <= |phs| && Shape() && mem.Length == |m| && AllSeekable(phs[..i], |node.content|)
        invariant mem[..] == Image(m, phs[..i], node.content)
      {
        var ph := phs[i];
        ImageNext(m, phs, node.content, i);
        if ph.segmentType == PT_LOAD {
          var good := Seek(ph.offset);
          if !good {
            HandledIsFirst(phs, |node.content|, i);
            return false;
          }
          LoadSegment(ph, mem);
        }
        i := i + 1;
      }
      HandledIsFirst(phs, |node.content|, i);
      ok := true;
    }
  }

  /** m with the elements of x written over it from at on. */
  function Spliced(m: seq<U8>, at: nat, x: seq<U8>): (r: seq<U8>)
    requires at + |x| <= |m|
    ensures |r| == |m|
  {
    m[..at] + x + m[at + |x|..]
  }

  function Zeros(n: nat): (z: seq<U8>)
    ensures |z| == n && forall k :: 0 <= k < n ==> z[k] == 0
  {
    seq(n, _ => 0)
  }

  lemma PrefixOfSlice<T>(b: seq<T>, c: seq<T>, p: nat, n: nat, m: nat)
    requires m <= n <= |b| && p + n <= |c| && b[..n] == c[p..p + n]
    ensures b[..m] == c[p..p + m]
  {
    assert b[..m] == b[..n][..m] && c[p..p + m] == c[p..p + n][..m];
  }

  /** The memcpy of n bytes of b to memory. */
  method Paste(mem: array<U8>, at: nat, b: array<U8>, n: nat)
    requires mem != b && n <= b.Length && at + n <= mem.Length
    modifies mem
    ensures mem[..] == Spliced(old(mem[..]), at, b[..n])
  {
    forall k | at <= k < at + n {
      mem[k] := b[k - at];
    }
  }

  /** The memset of n bytes of memory to zero. */
  method Clear(mem: array<U8>, at: nat, n: nat)
    requires at + n <= mem.Length
    modifies mem
    ensures mem[..] == Spliced(old(mem[..]), at, Zeros(n))
  {
    forall k | at <= k < at + n {
      mem[k] := 0;
    }
  }

  /** Memory with the first n bytes of a segment in place. */
  function Copied(m: seq<U8>, dest: nat, c: seq<U8>, offset: nat, n: nat): seq<U8>
    requires dest + n <= |m| && offset + n <= |c|
  {
    m[..dest] + c[offset..offset + n] + m[dest + n..]
  }

  lemma CopiedNothing(m: seq<U8>, dest: nat, c: seq<U8>, offset: nat)
    requires dest <= |m| && offset <= |c|
    ensures Copied(m, dest, c, offset, 0) == m
  {
  }

  lemma CopiedMore(m: seq<U8>, dest: nat, c: seq<U8>, offset: nat, n: nat, k: nat)
    requires dest + n + k <= |m| && offset + n + k <= |c|
    ensures |Copied(m, dest, c, offset, n)| == |m|
    ensures Spliced(Copied(m, dest, c, offset, n), dest + n, c[offset + n..offset + n + k])
            == Copied(m, dest, c, offset, n + k)
  {
  }

  lemma CopiedAll(m: seq<U8>, ph: ProgramHeader, c: seq<U8>)
    requires ph.segmentType == PT_LOAD && Seekable(ph, |c|) && Loadable(ph, c, |m|)
    ensures var va, fs, ms := ph.virtualAddress, ph.fileSize, ph.memorySize;
            var s := Copied(m, va, c, ToInt32(ph.offset), fs);
            |s| == |m| && Write(m, ph, c) == if ms > fs then Spliced(s, va + fs, Zeros(ms - fs)) else s
  {
  }

  lemma ImageNext(m: seq<U8>, phs: seq<ProgramHeader>, c: seq<U8>, i: nat)
    requires i < |phs| && AllLoadable(phs, c, |m|) && AllSeekable(phs[..i], |c|)
    ensures AllLoadable(phs[..i], c, |m|) && Loadable(phs[i], c, |m|)
    ensures phs[i].segmentType != PT_LOAD || Seekable(phs[i], |c|) ==>
              AllSeekable(phs[..i + 1], |c|) && AllLoadable(phs[..i + 1], c, |m|)
              && Image(m, phs[..i + 1], c) ==
                 if phs[i].segmentType == PT_LOAD then Write(Image(m, phs[..i], c), phs[i], c)
                   else Image(m, phs[..i], c)
  {
    hide Write, Loadable, Seekable;
    assert phs[..i + 1][..i] == phs[..i];
  }
}
