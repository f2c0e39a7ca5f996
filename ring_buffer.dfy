/**
 * A circular byte queue over one pre-allocated arena of `size` bytes.
 * Addresses are offsets from buffer_start; buffer_end is the offset of the
 * LAST byte, size - 1, so that byte is never written and at most size - 1
 * bytes are ever queued. `round_complete` tells a full ring from an empty one
 * when the two cursors coincide.
 */
module RingBuffer {
  import opened Limits

  /** The cursors of a ring whose buffer_end is at offset n. */
  ghost predicate Cursors(n: nat, head: nat, tail: nat, rc: bool) {
    head < n && tail < n && (if rc then head <= tail else tail <= head)
  }

  /** The unread bytes, oldest first: from tail up to head, across buffer_end when rc is set. */
  ghost function Unread(b: seq<bv8>, n: nat, head: nat, tail: nat, rc: bool): seq<bv8>
    requires Cursors(n, head, tail, rc) && n <= |b|
  {
    if rc then b[tail..n] + b[..head] else b[tail..head]
  }

  /** A cursor at x moved k bytes forward, wrapping to buffer_start on reaching buffer_end. */
  function Advance(x: nat, k: nat, n: nat): nat
    requires x < n && k <= n
  {
    if x + k < n then x + k else x + k - n
  }

  /** b with the bytes from offset `at` replaced by d. */
  ghost function Splice(b: seq<bv8>, at: nat, d: seq<bv8>): (r: seq<bv8>)
    requires at + |d| <= |b|
    ensures |r| == |b|
  {
    b[..at] + d + b[at + |d|..]
  }

  /** The i-th byte after a splice. */
  lemma {:induction false} SpliceAt(b: seq<bv8>, at: nat, d: seq<bv8>, i: nat)
    requires at + |d| <= |b| && i < |b|
    ensures Splice(b, at, d)[i] == if at <= i < at + |d| then d[i - at] else b[i]
  {
  }

  /**
   * The buffer b after d is copied in from offset `at`, the part that would
   * reach buffer_end (offset n) continuing at buffer_start.
   */
  ghost function Overwrite(b: seq<bv8>, n: nat, at: nat, d: seq<bv8>): (r: seq<bv8>)
    requires at < n <= |b| && |d| <= n
    ensures |r| == |b|
  {
    if at + |d| <= n then Splice(b, at, d)
    else Splice(Splice(b, at, d[..n - at]), 0, d[n - at..])
  }

  /** Byte by byte: the run from `at` holds d, wrapping at n; the byte at buffer_end and the rest are kept. */
  lemma {:induction false} OverwriteAt(b: seq<bv8>, n: nat, at: nat, d: seq<bv8>, i: nat)
    requires at < n <= |b| && |d| <= n && i < |b|
    ensures Overwrite(b, n, at, d)[i]
            == if at <= i < n && i < at + |d| then d[i - at]
               else if i + n < at + |d| then d[i + n - at]
               else b[i]
  {
    if at + |d| <= n {
      SpliceAt(b, at, d, i);
    } else {
      var s1 := Splice(b, at, d[..n - at]);
      SpliceAt(b, at, d[..n - at], i);
      SpliceAt(s1, 0, d[n - at..], i);
    }
  }

  /** The k-th unread byte lies k bytes after tail, wrapping at buffer_end. */
  lemma {:induction false} UnreadAt(b: seq<bv8>, n: nat, head: nat, tail: nat, rc: bool, k: nat)
    requires n <= |b| && Cursors(n, head, tail, rc)
    requires k < |Unread(b, n, head, tail, rc)|
    ensures tail + k < n ==> Unread(b, n, head, tail, rc)[k] == b[tail + k]
    ensures tail + k >= n ==> Unread(b, n, head, tail, rc)[k] == b[tail + k - n]
  {
  }

  /** One byte of OverwriteAppends: the k-th unread byte after the copy. */
  lemma {:induction false} OverwriteAppendsAt(b: seq<bv8>, n: nat, head: nat, tail: nat, rc: bool, d: seq<bv8>, k: nat)
    requires n <= |b| && Cursors(n, head, tail, rc)
    requires |Unread(b, n, head, tail, rc)| + |d| <= n
    requires Cursors(n, Advance(head, |d|, n), tail, rc || head + |d| >= n)
    requires k < |Unread(b, n, head, tail, rc)| + |d|
    ensures k < |Unread(Overwrite(b, n, head, d), n, Advance(head, |d|, n), tail, rc || head + |d| >= n)|
    ensures Unread(Overwrite(b, n, head, d), n, Advance(head, |d|, n), tail, rc || head + |d| >= n)[k]
            == (Unread(b, n, head, tail, rc) + d)[k]
  {
    var b' := Overwrite(b, n, head, d);
    var u := Unread(b, n, head, tail, rc);
    var idx := if tail + k < n then tail + k else tail + k - n;
    UnreadAt(b', n, Advance(head, |d|, n), tail, rc || head + |d| >= n, k);
    OverwriteAt(b, n, head, d, idx);
    if k < |u| {
      UnreadAt(b, n, head, tail, rc, k);
    }
  }

  /** Copying d in at head appends d to the unread bytes, provided it fits. */
  lemma {:induction false} OverwriteAppends(b: seq<bv8>, n: nat, head: nat, tail: nat, rc: bool, d: seq<bv8>)
    requires n <= |b| && Cursors(n, head, tail, rc)
    requires |Unread(b, n, head, tail, rc)| + |d| <= n
    ensures Cursors(n, Advance(head, |d|, n), tail, rc || head + |d| >= n)
    ensures Unread(Overwrite(b, n, head, d), n, Advance(head, |d|, n), tail, rc || head + |d| >= n)
            == Unread(b, n, head, tail, rc) + d
  {
    var u := Unread(b, n, head, tail, rc);
    var v := Unread(Overwrite(b, n, head, d), n, Advance(head, |d|, n), tail, rc || head + |d| >= n);
    assert |v| == |u| + |d|;
    forall k | 0 <= k < |v| ensures v[k] == (u + d)[k] {
      OverwriteAppendsAt(b, n, head, tail, rc, d, k);
    }
  }

  /** Taking k bytes at tail leaves the unread bytes after the k oldest. */
  lemma {:induction false} ConsumeFront(b: seq<bv8>, n: nat, head: nat, tail: nat, rc: bool, k: nat)
    requires n <= |b| && Cursors(n, head, tail, rc)
    requires k <= |Unread(b, n, head, tail, rc)|
    ensures Cursors(n, head, Advance(tail, k, n), rc && tail + k < n)
    ensures Unread(b, n, head, Advance(tail, k, n), rc && tail + k < n) == Unread(b, n, head, tail, rc)[k..]
  {
    if !rc {
      assert b[tail..head][k..] == b[tail + k..head];
    } else if tail + k < n {
      assert (b[tail..n] + b[..head])[k..] == b[tail + k..n] + b[..head];
    } else {
      assert (b[tail..n] + b[..head])[k..] == b[..head][tail + k - n..];
    }
  }

  /** The k oldest unread bytes: one run from tail, or the run to buffer_end then one from buffer_start. */
  lemma {:induction false} FrontBytes(b: seq<bv8>, n: nat, head: nat, tail: nat, rc: bool, k: nat)
    requires n <= |b| && Cursors(n, head, tail, rc)
    requires k <= |Unread(b, n, head, tail, rc)|
    ensures Unread(b, n, head, tail, rc)[..k]
            == if tail + k <= n then b[tail..tail + k] else b[tail..n] + b[..tail + k - n]
  {
    if !rc {
      assert b[tail..head][..k] == b[tail..tail + k];
    } else if tail + k <= n {
      assert (b[tail..n] + b[..head])[..k] == b[tail..tail + k];
    } else {
      assert (b[tail..n] + b[..head])[..k] == b[tail..n] + b[..tail + k - n];
    }
  }

  class Ring {
    /** rb->size: the arena's length in bytes. */
    const size: nat
    /** buffer_end - buffer_start. */
    const bufferEnd: nat
    /** The arena; index i is the byte at buffer_start + i. */
    const buf: array<bv8>
    var head: nat
    var tail: nat
    var roundComplete: bool
    var readCalls: nat
    var writeCalls: nat

    ghost predicate Valid()
      reads this
    {
      buf.Length == size && size >= 2 && bufferEnd == size - 1
      && Cursors(bufferEnd, head, tail, roundComplete)
    }

    /** The unread bytes, oldest first. */
    ghost function Contents(): seq<bv8>
      reads this, buf
      requires Valid()
    {
      Unread(buf[..], bufferEnd, head, tail, roundComplete)
    }

    constructor (size: nat)
      requires size >= 2
      ensures Valid() && fresh(buf)
      ensures this.size == size && bufferEnd == size - 1
      ensures head == 0 && tail == 0 && !roundComplete && Contents() == []
      ensures buf[..] == seq(size, _ => 0 as bv8)
      ensures readCalls == 0 && writeCalls == 0
    {
      this.size := size;
      buf := new bv8[size](_ => 0);
      bufferEnd := size - 1;
      head, tail, roundComplete := 0, 0, false;
      readCalls, writeCalls := 0, 0;
    }

    /** rb_is_full: every one of the size - 1 usable bytes is unread. */
    function IsFull(): (r: bool)
      reads this, buf
      ensures Valid() ==> (r <==> |Contents()| == bufferEnd)
    {
      head == tail && roundComplete
    }

    /** rb_is_empty: nothing is unread; the ring is then never full as well. */
    function IsEmpty(): (r: bool)
      reads this, buf
      ensures Valid() ==> (r <==> Contents() == [])
      ensures Valid() && r ==> !IsFull()
    {
      head == tail && !roundComplete
    }

    /** rb_get_free_space: the usable bytes not holding unread data. */
    function FreeSpace(): (r: int)
      reads this, buf
      ensures Valid() ==> r == bufferEnd - |Contents()| && 0 <= r <= bufferEnd
    {
      if roundComplete then tail - head
      else
        var free := (bufferEnd - head) + tail;
        // the fallback for coinciding cursors; in a valid ring head < buffer_end, so never taken
        if free == 0 then size else free
    }

    /** rb_get_filled_space: the number of unread bytes. */
    function FilledSpace(): (r: int)
      reads this, buf
      ensures Valid() ==> r == |Contents()| && r + FreeSpace() == bufferEnd
    {
      if roundComplete then (bufferEnd - tail) + head else head - tail
    }

    /** memcpy(buffer_start + at, src, |src|) */
    method CopyIn(at: nat, src: seq<bv8>)
      requires at + |src| <= buf.Length
      modifies buf
      ensures buf[..] == Splice(old(buf[..]), at, src)
    {
      forall i | 0 <= i < |src| {
        buf[at + i] := src[i];
      }
      assert buf[..] == Splice(old(buf[..]), at, src);
    }

    /**
     * The copy phase of rb_write, on a ring with room for count bytes:
     * data[..count] is copied in at head, and head and round_complete are
     * returned where they end up.
     */
    method PutAtHead(data: seq<bv8>, count: nat) returns (h: nat, rc: bool)
      requires Valid() && 0 < count <= |data| && |Contents()| + count <= bufferEnd
      modifies buf
      ensures buf[..] == Overwrite(old(buf[..]), bufferEnd, head, data[..count])
      ensures h == Advance(head, count, bufferEnd) && rc == (roundComplete || head + count >= bufferEnd)
    {
      h, rc := head, roundComplete;
      if rc {
        // the free run lies between head and tail: no wrap
        CopyIn(h, data[..count]);
        h := h + count;
        return;
      }
      var remainingUntilEnd := bufferEnd - h;
      var copySize := count;
      if remainingUntilEnd < count {
        copySize := remainingUntilEnd;
      }
      // first run: from head, stopping at buffer_end
      CopyIn(h, data[..copySize]);
      h := h + copySize;
      if h == bufferEnd {
        h, rc := 0, true;
      }
      if copySize == count {
        return;
      }
      // second run: what is left of data, from buffer_start
      copySize := count - remainingUntilEnd;
      assert data[..count][..remainingUntilEnd] == data[..remainingUntilEnd];
      assert data[..count][remainingUntilEnd..] == data[remainingUntilEnd..count];
      CopyIn(h, data[remainingUntilEnd..count]);
      h := h + copySize;
      if h == bufferEnd {
        // the second wrap check never fires: the run ends at or before tail
        assert false;
      }
    }

    /**
     * rb_write: all or nothing. It fails, returning 0 and changing nothing,
     * for a non-positive count, a full ring, or more bytes than are free;
     * otherwise it appends data[..count] to the unread bytes.
     */
    method Write(data: seq<bv8>, count: int) returns (written: int)
      requires Valid()
      requires count <= |data|
      modifies this, buf
      ensures Valid()
      ensures old(0 < count && !IsFull() && count <= FreeSpace()) ==>
        written == count
        && Contents() == old(Contents()) + data[..count]
        && head == Advance(old(head), count, bufferEnd) && tail == old(tail)
        && roundComplete == (old(roundComplete) || old(head) + count >= bufferEnd)
        && buf[..] == Overwrite(old(buf[..]), bufferEnd, old(head), data[..count])
        && writeCalls == (old(writeCalls) + 1) % U64 && readCalls == old(readCalls)
      ensures !old(0 < count && !IsFull() && count <= FreeSpace()) ==>
        written == 0 && unchanged(this) && buf[..] == old(buf[..])
      ensures 0 < count == old(FreeSpace()) ==> written == count && IsFull()
    {
      if count <= 0 {
        return 0;
      }
      if IsFull() {
        return 0;
      }
      var availableSpace := FreeSpace();
      if availableSpace < count {
        return 0;
      }
      writeCalls := (writeCalls + 1) % U64;
      OverwriteAppends(buf[..], bufferEnd, head, tail, roundComplete, data[..count]);
      var h, rc := PutAtHead(data, count);
      head, roundComplete := h, rc;
      return count;
    }

    /**
     * The copy phase of rb_read, on a ring holding at least count bytes:
     * the count oldest bytes, and where tail and round_complete end up.
     */
    method TakeFront(count: nat) returns (memory: seq<bv8>, t: nat, rc: bool)
      requires Valid() && count <= |Contents()|
      ensures memory == Contents()[..count]
      ensures t == Advance(tail, count, bufferEnd) && rc == (roundComplete && tail + count < bufferEnd)
    {
      FrontBytes(buf[..], bufferEnd, head, tail, roundComplete, count);
      t, rc := tail, roundComplete;
      if !rc {
        memory := buf[t..t + count];
        t := t + count;
        if t == bufferEnd {
          // never fires: the unread run ends at head, before buffer_end
          assert false;
        }
        return;
      }
      var remainingSpace := bufferEnd - t;
      var copiedSize := count;
      if remainingSpace < count {
        copiedSize := remainingSpace;
      }
      memory := buf[t..t + copiedSize];
      t := t + copiedSize;
      if t == bufferEnd {
        t, rc := 0, false;
      }
      if copiedSize == count {
        return;
      }
      copiedSize := count - remainingSpace;
      memory := memory + buf[t..t + copiedSize];
      t := t + copiedSize;
      if t == bufferEnd {
        // never fires: the second run ends at head, before buffer_end
        assert false;
      }
    }

    /**
     * rb_read: all or nothing. It fails, returning 0 and changing nothing,
     * on an empty ring or when more bytes are asked for than are unread;
     * otherwise it delivers the count oldest bytes, in order, and drops them.
     */
    method Read(count: int) returns (n: int, memory: seq<bv8>)
      requires Valid()
      requires count >= 0
      modifies this
      ensures Valid() && buf[..] == old(buf[..])
      ensures old(!IsEmpty() && count <= FilledSpace()) ==>
        n == count
        && memory == old(Contents())[..count] && Contents() == old(Contents())[count..]
        && tail == Advance(old(tail), count, bufferEnd) && head == old(head)
        && roundComplete == (old(roundComplete) && old(tail) + count < bufferEnd)
        && readCalls == (old(readCalls) + 1) % U64 && writeCalls == old(writeCalls)
      ensures !old(!IsEmpty() && count <= FilledSpace()) ==>
        n == 0 && memory == [] && unchanged(this)
      ensures 0 < count == old(FilledSpace()) ==> n == count && IsEmpty()
    {
      if IsEmpty() {
        return 0, [];
      }
      var sizeFilled := FilledSpace();
      if count > sizeFilled {
        return 0, [];
      }
      readCalls := (readCalls + 1) % U64;
      ConsumeFront(buf[..], bufferEnd, head, tail, roundComplete, count);
      var t, rc;
      memory, t, rc := TakeFront(count);
      tail, roundComplete := t, rc;
      return count, memory;
    }

    /** rb_reset: both cursors back to buffer_start; bytes and counters are kept. */
    method Reset()
      requires Valid()
      modifies this
      ensures Valid() && IsEmpty()
      ensures head == 0 && tail == 0 && !roundComplete && Contents() == []
      ensures buf[..] == old(buf[..])
      ensures readCalls == old(readCalls) && writeCalls == old(writeCalls)
    {
      head, tail := 0, 0;
      roundComplete := false;
    }
  }

  lemma ProductAtLeastFactor(a: nat, b: nat)
    requires a >= 1 && b >= 1
    ensures a * b >= a
  {
    var k := b - 1;
    assert a * b == a * (k + 1) == a * k + a;
  }

  /**
   * rb_new: NULL when either argument is 0; otherwise a zero-filled ring of
   * bufferLen * pointerSize bytes with both cursors at buffer_start.
   */
  method New(bufferLen: nat, pointerSize: nat) returns (rb: Ring?)
    requires bufferLen < U32 && pointerSize < U32
    requires bufferLen * pointerSize < U32
    requires bufferLen * pointerSize != 1
    ensures rb == null <==> bufferLen == 0 || pointerSize == 0
    ensures rb != null ==>
      fresh(rb) && fresh(rb.buf) && rb.Valid()
      && rb.size == bufferLen * pointerSize && rb.bufferEnd == rb.size - 1
      && rb.head == 0 && rb.tail == 0 && !rb.roundComplete && rb.Contents() == []
      && rb.buf[..] == seq(rb.size, _ => 0 as bv8)
      && rb.readCalls == 0 && rb.writeCalls == 0
  {
    if bufferLen == 0 || pointerSize == 0 {
      return null;
    }
    var size := bufferLen * pointerSize;
    ProductAtLeastFactor(bufferLen, pointerSize);
    rb := new Ring(size);
  }

  /**
   * The 8-byte ring of rb_new(8, 1) queues at most 7 bytes: after writing
   * 5 bytes and reading 3, only 5 are free, so a 6-byte write is refused.
   */
  method SmallRingScenario() returns (w1: int, r1: int, out: seq<bv8>, free: int, w2: int)
    ensures w1 == 5 && r1 == 3 && out == [1, 2, 3]
    ensures free == 5 && w2 == 0
  {
    var rb := New(8, 1);
    w1 := rb.Write([1, 2, 3, 4, 5], 5);
    r1, out := rb.Read(3);
    free := rb.FreeSpace();
    w2 := rb.Write([6, 7, 8, 9, 10, 11], 6);
  }
}
