/** Whole histories of calls on a circular buffer, against a queue that knows nothing of storage. */
module CbufHistory {
  import opened Common
  import opened Ring
  import opened Cbuf

  datatype Queue = Queue(items: Bytes, capacity: nat)

  datatype Call =
    | Write(c: byte) | WriteMany(src: Bytes)
    | Read | ReadMany(n: nat)
    | Peek | PeekMany(n: nat)
    | Remove(n: nat) | Flush
    | Resize(n: nat) | ResizeAdd(n: nat)

  datatype Reply = Number(n: int) | Data(bytes: Bytes) | Done

  /** `resize` to exactly one byte less than is stored is the one call that breaks the buffer. */
  predicate Sound(q: Queue, call: Call)
  {
    call.Resize? ==> call.n + 1 != |q.items|
  }

  /** How many of `n` more bytes there is room for. */
  function Taken(q: Queue, n: nat): (k: nat)
    ensures k <= n
  {
    if q.capacity < |q.items| then 0 else Min(n, q.capacity - |q.items|)
  }

  function After(q: Queue, call: Call): Queue
  {
    match call
    case Write(c) => q.(items := q.items + [c][..Taken(q, 1)])
    case WriteMany(src) => q.(items := q.items + src[..Taken(q, |src|)])
    case Read => if q.items == [] then q else q.(items := q.items[1..])
    case ReadMany(n) => q.(items := q.items[Min(n, |q.items|)..])
    case Peek => q
    case PeekMany(_) => q
    case Remove(n) => q.(items := q.items[Min(n, |q.items|)..])
    case Flush => q.(items := [])
    case Resize(n) => if n < |q.items| then q else q.(capacity := n)
    case ResizeAdd(n) => q.(capacity := q.capacity + 1 + n)
  }

  function Answer(q: Queue, call: Call): Reply
  {
    match call
    case Write(_) => Number(Taken(q, 1))
    case WriteMany(src) => Number(Taken(q, |src|))
    case Read => Number(if q.items == [] then -1 else q.items[0])
    case ReadMany(n) => Data(q.items[..Min(n, |q.items|)])
    case Peek => Number(if q.items == [] then -1 else q.items[0])
    case PeekMany(n) => Data(q.items[..Min(n, |q.items|)])
    case Remove(_) => Number(|After(q, call).items|)
    case Flush => Done
    case Resize(_) => Number(After(q, call).capacity + 1)
    case ResizeAdd(_) => Number(After(q, call).capacity + 1)
  }

  function AfterAll(q: Queue, calls: seq<Call>): Queue
    decreases |calls|
  {
    if calls == [] then q else AfterAll(After(q, calls[0]), calls[1..])
  }

  function Answers(q: Queue, calls: seq<Call>): (rs: seq<Reply>)
    ensures |rs| == |calls|
    decreases |calls|
  {
    if calls == [] then [] else [Answer(q, calls[0])] + Answers(After(q, calls[0]), calls[1..])
  }

  predicate AllSound(q: Queue, calls: seq<Call>)
    decreases |calls|
  {
    calls == [] || (Sound(q, calls[0]) && AllSound(After(q, calls[0]), calls[1..]))
  }

  ghost function Abstract(b: CircularBuffer): Queue
    reads b, b.buf
    requires b.Valid()
  {
    Queue(b.Contents(), b.size - 1)
  }

  lemma PlacedAll(s: Bytes, xs: Bytes)
    requires |xs| == |s|
    ensures Placed(s, 0, xs) == xs
  {
  }

  /** A bulk read into a destination of just the right size. */
  method ReadBytes(b: CircularBuffer, n: nat) returns (bytes: Bytes)
    requires b.Valid()
    modifies b`begin
    ensures b.Valid()
    ensures bytes == old(b.Contents())[..Min(n, old(|b.Contents()|))]
    ensures b.Contents() == old(b.Contents())[Min(n, old(|b.Contents()|))..]
  {
    hide Between, Placed;
    var dst := new byte[Min(n, b.Available())](_ => 0);
    PlacedAll(dst[..], b.Contents()[..dst.Length]);
    var r := b.ReadMany(dst, n);
    return dst[..];
  }

  /** The same for a bulk peek. */
  method PeekBytes(b: CircularBuffer, n: nat) returns (bytes: Bytes)
    requires b.Valid()
    ensures bytes == b.Contents()[..Min(n, |b.Contents()|)]
  {
    hide Between, Placed;
    var dst := new byte[Min(n, b.Available())](_ => 0);
    PlacedAll(dst[..], b.Contents()[..dst.Length]);
    var r := b.PeekMany(dst, n);
    return dst[..];
  }

  method Perform(b: CircularBuffer, call: Call) returns (reply: Reply)
    requires b.Valid() && Sound(Abstract(b), call)
    modifies b, b.buf
    ensures b.Valid() && (b.buf == old(b.buf) || fresh(b.buf))
    ensures Abstract(b) == After(old(Abstract(b)), call)
    ensures reply == Answer(old(Abstract(b)), call)
  {
    hide Between, Placed;
    match call
    case Write(c) =>
      var n := b.Write(c);
      reply := Number(n);
    case WriteMany(src) =>
      var n := b.WriteMany(src);
      reply := Number(n);
    case Read =>
      var n := b.Read();
      reply := Number(n);
    case ReadMany(n) =>
      var bytes := ReadBytes(b, n);
      reply := Data(bytes);
    case Peek =>
      var n := b.Peek();
      reply := Number(n);
    case PeekMany(n) =>
      var bytes := PeekBytes(b, n);
      reply := Data(bytes);
    case Remove(n) =>
      var k := b.Remove(n);
      reply := Number(k);
    case Flush =>
      b.Flush();
      reply := Done;
    case Resize(n) =>
      var k := b.Resize(n);
      reply := Number(k);
    case ResizeAdd(n) =>
      var k := b.ResizeAdd(n);
      reply := Number(k);
  }

  /** Every interleaving of the calls answers as the queue does. */
  method PerformAll(b: CircularBuffer, calls: seq<Call>) returns (replies: seq<Reply>)
    requires b.Valid() && AllSound(Abstract(b), calls)
    modifies b, b.buf
    ensures b.Valid()
    ensures Abstract(b) == AfterAll(old(Abstract(b)), calls)
    ensures replies == Answers(old(Abstract(b)), calls)
  {
    hide Between, After, Answer, Sound;
    ghost var q := Abstract(b);
    replies := [];
    var i := 0;
    while i < |calls|
      invariant 0 <= i <= |calls|
      invariant b.Valid() && (b.buf == old(b.buf) || fresh(b.buf))
      invariant AllSound(Abstract(b), calls[i..])
      invariant AfterAll(q, calls) == AfterAll(Abstract(b), calls[i..])
      invariant Answers(q, calls) == replies + Answers(Abstract(b), calls[i..])
    {
      assert calls[i..][0] == calls[i] && calls[i..][1..] == calls[i + 1..];
      var reply := Perform(b, calls[i]);
      replies := replies + [reply];
      i := i + 1;
    }
  }

  /** One byte stored, shrunk to room for none: the buffer is broken. */
  method ShrinkingBelowContents() returns (b: CircularBuffer)
    ensures b.InRange() && !b.Valid() && b.end == b.buf.Length
  {
    b := new CircularBuffer(4);
    var n := b.Write(7);
    var r := b.Resize(0);
  }

  // ----- What a queue promises -------------------------------------------------------------------------

  /** The bytes a call put in, as its reply tells the caller. */
  function Put(call: Call, reply: Reply): Bytes
  {
    if call.Write? && reply.Number? && reply.n == 1 then [call.c]
    else if call.WriteMany? && reply.Number? && 0 <= reply.n <= |call.src| then call.src[..reply.n]
    else []
  }

  /** The bytes a read handed over, as its reply tells the caller. */
  function Got(call: Call, reply: Reply): Bytes
  {
    if call.Read? && reply.Number? && 0 <= reply.n < 0x100 then [reply.n]
    else if call.ReadMany? && reply.Data? then reply.bytes
    else []
  }

  function AllPut(calls: seq<Call>, replies: seq<Reply>): Bytes
    requires |calls| == |replies|
  {
    if calls == [] then [] else Put(calls[0], replies[0]) + AllPut(calls[1..], replies[1..])
  }

  function AllGot(calls: seq<Call>, replies: seq<Reply>): Bytes
    requires |calls| == |replies|
  {
    if calls == [] then [] else Got(calls[0], replies[0]) + AllGot(calls[1..], replies[1..])
  }

  predicate Discards(call: Call)
  {
    call.Remove? || call.Flush?
  }

  predicate NoneDiscards(calls: seq<Call>)
  {
    forall i :: 0 <= i < |calls| ==> !Discards(calls[i])
  }

  lemma StepConserves(q: Queue, call: Call)
    requires |q.items| <= q.capacity && Sound(q, call)
    ensures |After(q, call).items| <= After(q, call).capacity
    ensures !Discards(call) ==>
      q.items + Put(call, Answer(q, call)) == Got(call, Answer(q, call)) + After(q, call).items
  {
  }

  lemma Chain(a: Bytes, p: Bytes, ps: Bytes, g: Bytes, gs: Bytes, b: Bytes, c: Bytes)
    requires a + p == g + b && b + ps == gs + c
    ensures a + (p + ps) == (g + gs) + c
  {
    assert a + (p + ps) == (a + p) + ps == g + (b + ps) == (g + gs) + c;
  }

  /** First in, first out, over any history without discarding calls: what was stored and what was accepted
      is what was read followed by what is still stored. */
  lemma {:induction false} Conserved(q: Queue, calls: seq<Call>)
    requires |q.items| <= q.capacity && AllSound(q, calls) && NoneDiscards(calls)
    ensures q.items + AllPut(calls, Answers(q, calls))
         == AllGot(calls, Answers(q, calls)) + AfterAll(q, calls).items
    decreases |calls|
  {
    hide After, Answer, Sound, Put, Got, Discards;
    if calls == [] {
    } else {
      var q', rest := After(q, calls[0]), calls[1..];
      StepConserves(q, calls[0]);
      Conserved(q', rest);
      var rs := Answers(q, calls);
      assert rs[1..] == Answers(q', rest);
      Chain(q.items, Put(calls[0], rs[0]), AllPut(rest, rs[1..]), Got(calls[0], rs[0]), AllGot(rest, rs[1..]),
            q'.items, AfterAll(q', rest).items);
    }
  }

  lemma {:induction false} NeverOverfull(q: Queue, calls: seq<Call>)
    requires |q.items| <= q.capacity && AllSound(q, calls)
    ensures |AfterAll(q, calls).items| <= AfterAll(q, calls).capacity
    decreases |calls|
  {
    if calls == [] {
    } else {
      StepConserves(q, calls[0]);
      NeverOverfull(After(q, calls[0]), calls[1..]);
    }
  }

  predicate OnlyWrites(calls: seq<Call>)
  {
    forall i :: 0 <= i < |calls| ==> calls[i].Write? || calls[i].WriteMany?
  }

  function OfferedBy(call: Call): Bytes
  {
    match call
    case Write(c) => [c]
    case WriteMany(src) => src
    case _ => []
  }

  function Offered(calls: seq<Call>): Bytes
  {
    if calls == [] then [] else OfferedBy(calls[0]) + Offered(calls[1..])
  }

  /** How the bytes are cut into calls does not matter to what is stored: only the first that fit are. */
  lemma {:induction false} WritesAreOneWrite(q: Queue, calls: seq<Call>)
    requires |q.items| <= q.capacity && OnlyWrites(calls)
    ensures AfterAll(q, calls) == After(q, WriteMany(Offered(calls)))
    decreases |calls|
  {
    if calls == [] {
    } else {
      var q', first := After(q, calls[0]), OfferedBy(calls[0]);
      WritesAreOneWrite(q', calls[1..]);
      assert q' == After(q, WriteMany(first));
      TwoWrites(q, first, Offered(calls[1..]));
    }
  }

  lemma TwoWrites(q: Queue, a: Bytes, b: Bytes)
    requires |q.items| <= q.capacity
    ensures After(After(q, WriteMany(a)), WriteMany(b)) == After(q, WriteMany(a + b))
  {
    var room := q.capacity - |q.items|;
    if |a| <= room {
      assert q.items + a + b == q.items + (a + b);
      if room < |a| + |b| {
        assert (a + b)[..room] == a + b[..room - |a|];
        assert q.items + a + b[..room - |a|] == q.items + (a + b)[..room];
      }
    } else {
      assert (a + b)[..room] == a[..room];
    }
  }
}
