/** The readers, writers and growing buffer that the stream objects are built on. */
module StreamIo {
  import opened Base

  /** An io.Reader over fixed data. How many bytes one Read yields is its own choice; EOF comes with no bytes. */
  class Source {
    const data: Bytes
    var pos: nat

    ghost predicate Valid()
      reads this
    {
      pos <= |data|
    }

    ghost function Rest(): Bytes
      reads this
      requires Valid()
    {
      data[pos..]
    }

    constructor (data: Bytes)
      ensures Valid() && this.data == data && pos == 0
    {
      this.data := data;
      pos := 0;
    }

    method Read(max: nat) returns (b: Bytes, eof: bool)
      requires Valid()
      modifies this
      ensures Valid() && pos == old(pos) + |b| && |b| <= max
      ensures b == data[old(pos)..pos]
      ensures eof <==> max > 0 && old(pos) == |data|
      ensures max > 0 && !eof ==> b != []
    {
      if max == 0 || pos == |data| {
        return [], max > 0;
      }
      var n :| 1 <= n <= max && pos + n <= |data|;
      b, eof := data[pos..pos + n], false;
      pos := pos + n;
    }

    /** io.CopyN, and what io.ReadFull does: read until n bytes are there or the source ends. */
    method ReadUpTo(n: nat) returns (b: Bytes)
      requires Valid()
      modifies this
      ensures Valid() && pos == old(pos) + |b|
      ensures b == data[old(pos)..pos]
      ensures |b| == n || (|b| < n && pos == |data|)
    {
      b := [];
      var eof := false;
      while |b| < n && !eof
        invariant Valid() && pos == old(pos) + |b| && |b| <= n
        invariant b == data[old(pos)..pos]
        invariant eof ==> pos == |data|
        decreases n - |b|, !eof
      {
        var more;
        more, eof := Read(n - |b|);
        b := b + more;
      }
    }

    method ReadFull(buf: array<byte>) returns (n: nat)
      requires Valid()
      modifies this, buf
      ensures Valid() && n == Min(buf.Length, |data| - old(pos)) && pos == old(pos) + n
      ensures buf[..n] == data[old(pos)..pos]
    {
      var b := ReadUpTo(buf.Length);
      n := |b|;
      forall i | 0 <= i < n {
        buf[i] := b[i];
      }
    }
  }

  /** An io.Writer. Unless it is reliable it may fail at any time, with any part of the bytes written. */
  class Sink {
    const reliable: bool
    var data: Bytes

    constructor (reliable: bool)
      ensures data == [] && this.reliable == reliable
    {
      this.reliable := reliable;
      data := [];
    }

    method Write(b: Bytes) returns (ok: bool)
      modifies this
      ensures reliable ==> ok
      ensures ok ==> data == old(data) + b
      ensures old(data) <= data <= old(data) + b
    {
      var n :| 0 <= n <= |b| && (reliable ==> n == |b|);
      ok := n == |b|;
      data := data + b[..n];
    }
  }

  /** A bytes.Buffer: its contents are store[lo..hi]; the store past hi is spare capacity. */
  class Buffer {
    var store: array<byte>
    var lo: nat
    var hi: nat

    ghost predicate Valid()
      reads this
    {
      lo <= hi <= store.Length
    }

    ghost function Contents(): Bytes
      reads this, store
      requires Valid()
    {
      store[lo..hi]
    }

    function Len(): nat
      reads this
      requires Valid()
    {
      hi - lo
    }

    constructor ()
      ensures Valid() && fresh(store) && Contents() == []
    {
      store := new byte[0];
      lo, hi := 0, 0;
    }

    /** Makes room for n more bytes; a store that is too small is replaced. */
    method Grow(n: nat)
      requires Valid()
      modifies this
      ensures Valid() && (store == old(store) || fresh(store))
      ensures Contents() == old(Contents()) && hi + n <= store.Length
      ensures old(hi) + n <= old(store.Length) ==> store == old(store) && lo == old(lo) && hi == old(hi)
    {
      if hi + n > store.Length {
        var bigger := new byte[hi - lo + n](i requires 0 <= i reads this, store =>
          if lo <= hi <= store.Length && i < hi - lo then store[lo + i] else 0);
        assert bigger[..hi - lo] == store[lo..hi];
        store, lo, hi := bigger, 0, hi - lo;
      }
    }

    method Write(b: Bytes)
      requires Valid()
      modifies this, store
      ensures Valid() && (store == old(store) || fresh(store))
      ensures Contents() == old(Contents()) + b
      ensures old(hi) + |b| <= old(store.Length) ==> store == old(store) && lo == old(lo)
      ensures hi - lo == old(hi) - old(lo) + |b|
    {
      Grow(|b|);
      ghost var was, end := store[lo..hi], hi;
      forall i | 0 <= i < |b| {
        store[hi + i] := b[i];
      }
      hi := hi + |b|;
      assert store[lo..end] == was && store[end..hi] == b;
      SliceJoin(store[..], lo, end, hi);
      assert store[lo..hi] == store[lo..end] + store[end..hi];
    }

    /** Writes through a slice of the buffer: over all its contents, and on into the spare capacity. */
    method Overwrite(b: Bytes)
      requires Valid() && Len() <= |b| && lo + |b| <= store.Length
      modifies store
      ensures Contents() == b[..Len()]
      ensures store[hi..lo + |b|] == b[Len()..]
    {
      forall i | 0 <= i < |b| {
        store[lo + i] := b[i];
      }
    }

    /** Replaces the contents by longer ones, in place: what runs past the end is then appended onto itself. */
    method Replace(b: Bytes)
      requires Valid() && Len() <= |b|
      modifies this, store
      ensures Valid() && (store == old(store) || fresh(store))
      ensures Contents() == b
    {
      Grow(|b| - Len());
      ghost var len := Len();
      Overwrite(b);
      var tail := store[hi..lo + |b|];
      assert b == b[..len] + b[len..];
      Write(tail);
    }

    /** Read into p[..max]: takes bytes off the front. */
    method Read(p: array<byte>, max: nat) returns (n: nat)
      requires Valid() && p != store && max <= p.Length
      modifies this, p
      ensures Valid() && store == old(store)
      ensures n == Min(max, old(hi) - old(lo))
      ensures p[..n] == old(Contents())[..n] && p[n..] == old(p[n..])
      ensures Contents() == old(Contents())[n..]
    {
      n := Min(max, hi - lo);
      forall i | 0 <= i < n {
        p[i] := store[lo + i];
      }
      lo := lo + n;
    }
  }
}
