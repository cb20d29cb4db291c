/** The circular buffer of cbuf.cpp: a bounded queue of bytes. */
module Cbuf {
  import opened Common
  import opened Ring

  function Min(a: nat, b: nat): nat
  {
    if a < b then a else b
  }

  lemma PlacedOne(s: Bytes, at: nat, c: byte)
    requires at < |s|
    ensures s[at := c] == Placed(s, at, [c])
  {
  }

  /** Pointers are indices into `buf`; `bufend` is its length. */
  class CircularBuffer {
    var size: nat
    var buf: array<byte>
    var begin: nat
    var end: nat

    /** The indices lie in the storage, `end` possibly one past it. */
    ghost predicate InRange()
      reads this
    {
      size == buf.Length && begin < size && end <= size
    }

    ghost predicate Valid()
      reads this
    {
      InRange() && end < size
    }

    ghost function Contents(): (r: Bytes)
      reads this, buf
      requires InRange()
      ensures |r| == if begin <= end then end - begin else size - (begin - end)
    {
      Between(buf[..], begin, end)
    }

    constructor (capacity: nat)
      ensures Valid() && fresh(buf)
      ensures size == capacity + 1 && Contents() == []
    {
      size := capacity + 1;
      buf := new byte[capacity + 1](_ => 0);
      begin, end := 0, 0;
    }

    function Available(): (n: nat)
      reads this, buf
      requires InRange()
      ensures n == |Contents()|
    {
      if end >= begin then end - begin else size - (begin - end)
    }

    function Room(): (n: nat)
      reads this, buf
      requires Valid()
      ensures Available() + n == size - 1
    {
      if end >= begin then size - (end - begin) - 1 else begin - end - 1
    }

    predicate Empty()
      reads this, buf
      requires InRange()
      ensures Empty() <==> Contents() == []
    {
      begin == end
    }

    predicate Full()
      reads this, buf
      requires Valid()
      ensures Full() <==> |Contents()| == size - 1
    {
      Wrap(size, end + 1) == begin
    }

    method Peek() returns (r: int)
      requires Valid()
      ensures r == if Contents() == [] then -1 else Contents()[0]
    {
      if Empty() {
        return -1;
      }
      BetweenAt(buf[..], begin, end, 0);
      return buf[begin];
    }

    /** The copies of bulk `peek` and `read`, in one part or two: from the pointer that `peek` keeps to itself
        and `read` moves. The result is where the next byte is read, or the end of the storage. */
    method CopyOldest(dst: array<byte>, n: nat) returns (next: nat)
      requires Valid() && dst != buf && n <= |Contents()| && n <= dst.Length
      modifies dst
      ensures dst[..] == Placed(old(dst[..]), 0, old(Contents()[..n]))
      ensures next <= size && Between(buf[..], Wrap(size, next), end) == old(Contents())[n..]
    {
      hide Placed, Between;
      var toRead, from, at := n, begin, 0;
      ghost var s, dst0 := buf[..], dst[..];
      if end < from && toRead > size - from {
        ReadAround(s, begin, end, n);
        var top := size - from;
        CopyTo(dst, 0, buf[from..from + top]);
        assert s[from..from + top] == s[begin..];
        from := 0;
        toRead := toRead - top;
        at := top;
        PlacedTwice(dst0, s[begin..], s[..toRead]);
      } else {
        ReadAhead(s, begin, end, n);
      }
      CopyTo(dst, at, buf[from..from + toRead]);
      assert buf[from..from + toRead] == s[from..from + toRead];
      return from + toRead;
    }

    method PeekMany(dst: array<byte>, n: nat) returns (r: nat)
      requires Valid() && dst != buf && Min(n, Available()) <= dst.Length
      modifies dst
      ensures r == Min(n, old(|Contents()|))
      ensures dst[..] == Placed(old(dst[..]), 0, old(Contents()[..r]))
    {
      hide Placed, Between;
      r := Min(n, Available());
      var _ := CopyOldest(dst, r);
    }

    method Read() returns (r: int)
      requires Valid()
      modifies this`begin
      ensures Valid()
      ensures r == if old(Contents()) == [] then -1 else old(Contents())[0]
      ensures Contents() == if old(Contents()) == [] then [] else old(Contents())[1..]
    {
      if Empty() {
        return -1;
      }
      ReadAhead(buf[..], begin, end, 1);
      var result := buf[begin];
      begin := Wrap(size, begin + 1);
      return result;
    }

    method ReadMany(dst: array<byte>, n: nat) returns (r: nat)
      requires Valid() && dst != buf && Min(n, Available()) <= dst.Length
      modifies this`begin, dst
      ensures Valid()
      ensures r == Min(n, old(|Contents()|))
      ensures dst[..] == Placed(old(dst[..]), 0, old(Contents()[..r]))
      ensures Contents() == old(Contents())[r..]
    {
      hide Placed, Between;
      r := Min(n, Available());
      var next := CopyOldest(dst, r);
      begin := Wrap(size, next);
    }

    method Write(c: byte) returns (r: nat)
      requires Valid()
      modifies this`end, buf
      ensures Valid()
      ensures r == if old(|Contents()|) == size - 1 then 0 else 1
      ensures Contents() == old(Contents()) + [c][..r]
    {
      if Full() {
        return 0;
      }
      WriteAhead(buf[..], begin, end, [c]);
      PlacedOne(buf[..], end, c);
      buf[end] := c;
      end := Wrap(size, end + 1);
      return 1;
    }

    method WriteMany(src: Bytes) returns (r: nat)
      requires Valid()
      modifies this`end, buf
      ensures Valid()
      ensures r == Min(|src|, size - 1 - old(|Contents()|))
      ensures Contents() == old(Contents()) + src[..r]
    {
      hide Placed, Between;
      var toWrite := Min(|src|, Room());
      r := toWrite;
      var from := 0;
      if end >= begin && toWrite > size - end {
        WriteAround(buf[..], begin, end, src[..r]);
        var top := size - end;
        CopyTo(buf, end, src[..top]);
        end := 0;
        toWrite := toWrite - top;
        from := top;
        assert src[..r][..top] == src[..top] && src[..r][top..] == src[top..top + toWrite];
      } else {
        assert src[0..toWrite] == src[..r];
        WriteAhead(buf[..], begin, end, src[..r]);
      }
      CopyTo(buf, end, src[from..from + toWrite]);
      end := Wrap(size, end + toWrite);
    }

    method Flush()
      requires Valid()
      modifies this`begin, this`end
      ensures Valid() && Contents() == []
    {
      begin, end := 0, 0;
    }

    /** The result is 0 when everything went, and what is left otherwise. */
    method Remove(n: nat) returns (r: nat)
      requires Valid()
      modifies this`begin, this`end
      ensures Valid()
      ensures Contents() == old(Contents())[Min(n, old(|Contents()|))..]
      ensures r == |Contents()|
    {
      if n >= Available() {
        Flush();
        return 0;
      }
      var toRemove := Min(n, Available());
      if end < begin && toRemove > size - begin {
        ReadAround(buf[..], begin, end, n);
        var top := size - begin;
        begin := 0;
        toRemove := toRemove - top;
      } else {
        ReadAhead(buf[..], begin, end, n);
      }
      begin := Wrap(size, begin + toRemove);
      return Available();
    }

    /** Nothing is ever lost; but with one byte less than is stored, `end` is left outside the storage. */
    method Resize(n: nat) returns (r: nat)
      requires Valid()
      modifies this
      ensures buf == old(buf) || fresh(buf)
      ensures size == if n + 1 < old(|Contents()|) || n + 1 == old(size) then old(size) else n + 1
      ensures r == size && InRange() && Contents() == old(Contents())
      ensures Valid() <==> n + 1 != |Contents()|
    {
      var available := Available();
      var newSize := n + 1;
      if newSize < available || newSize == size {
        return size;
      }
      var newbuf := new byte[newSize](_ => 0);
      var k := ReadMany(newbuf, available);
      begin := 0;
      end := available;
      size := newSize;
      buf := newbuf;
      return size;
    }

    /** The capacity grows by one more than is asked for. */
    method ResizeAdd(n: nat) returns (r: nat)
      requires Valid()
      modifies this
      ensures Valid() && fresh(buf)
      ensures size == old(size) + n + 1
      ensures r == size && Contents() == old(Contents())
    {
      r := Resize(size + n);
    }
  }
}
