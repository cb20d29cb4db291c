/**
 The serial-line framing of `ESPLoader.write` and the incremental reader `slip_reader`
 (the PROTOCOL section of RFC 1055).
 */
module Slip {
  import opened Common

  const END: byte := 0xC0
  const ESC: byte := 0xDB
  const ESC_END: byte := 0xDC
  const ESC_ESC: byte := 0xDD

  // ----- Writing -------------------------------------------------------------------------

  /** `bytes.replace` with a pattern of one byte. */
  function ReplaceByte(s: Bytes, pattern: byte, word: Bytes): Bytes
  {
    if s == [] then [] else
      (if s[0] == pattern then word else [s[0]]) + ReplaceByte(s[1..], pattern, word)
  }

  /** What `write` puts on the port: escape the escapes, then the terminators, then frame. */
  function Encode(packet: Bytes): Bytes
  {
    [END] + ReplaceByte(ReplaceByte(packet, ESC, [ESC, ESC_ESC]), END, [ESC, ESC_END]) + [END]
  }

  function EncodeAll(packets: seq<Bytes>): Bytes
  {
    if packets == [] then [] else Encode(packets[0]) + EncodeAll(packets[1..])
  }

  function EscapeByte(b: byte): Bytes
  {
    if b == ESC then [ESC, ESC_ESC] else if b == END then [ESC, ESC_END] else [b]
  }

  /** The per-byte escape that RFC 1055 describes. */
  function Escape(packet: Bytes): Bytes
  {
    if packet == [] then [] else EscapeByte(packet[0]) + Escape(packet[1..])
  }

  lemma {:induction false} ReplaceByteAppend(a: Bytes, b: Bytes, pattern: byte, word: Bytes)
    ensures ReplaceByte(a + b, pattern, word) == ReplaceByte(a, pattern, word) + ReplaceByte(b, pattern, word)
  {
    if a == [] {
      assert a + b == b;
    } else {
      assert (a + b)[1..] == a[1..] + b;
      ReplaceByteAppend(a[1..], b, pattern, word);
    }
  }

  /** The two passes of `write` escape each byte once: the second pass leaves the first's output alone. */
  lemma {:induction false} TwoPassIsPerByte(p: Bytes)
    ensures Encode(p) == [END] + Escape(p) + [END]
  {
    TwoPassEscape(p);
  }

  lemma {:induction false} TwoPassEscape(p: Bytes)
    ensures ReplaceByte(ReplaceByte(p, ESC, [ESC, ESC_ESC]), END, [ESC, ESC_END]) == Escape(p)
  {
    if p == [] {
    } else {
      TwoPassEscape(p[1..]);
      var head := if p[0] == ESC then [ESC, ESC_ESC] else [p[0]];
      ReplaceByteAppend(head, ReplaceByte(p[1..], ESC, [ESC, ESC_ESC]), END, [ESC, ESC_END]);
      assert head[1..] == if p[0] == ESC then [ESC_ESC] else [];
    }
  }

  // ----- Reading -------------------------------------------------------------------------

  /** The reader's locals: `Idle` is `partial_packet is None`. */
  datatype State = Idle | InPacket(partial: Bytes, inEscape: bool)

  datatype Error = InvalidHead(b: byte) | InvalidEscape(b: byte) | Timeout(waitingForHeader: bool)

  datatype Step = Continue(st: State) | Yield(packet: Bytes) | Raise(error: Error)

  function Accept(st: State, b: byte): Step
  {
    match st
    case Idle => if b == END then Continue(InPacket([], false)) else Raise(InvalidHead(b))
    case InPacket(p, true) =>
      if b == ESC_END then Continue(InPacket(p + [END], false))
      else if b == ESC_ESC then Continue(InPacket(p + [ESC], false))
      else Raise(InvalidEscape(b))
    case InPacket(p, false) =>
      if b == ESC then Continue(InPacket(p, true))
      else if b == END then Yield(p)
      else Continue(InPacket(p + [b], false))
  }

  datatype Next = Packet(packet: Bytes, rest: Bytes) | Failed(error: Error) | Starved(st: State)

  /** The reader's next result on a byte stream. */
  function NextPacket(st: State, stream: Bytes): (n: Next)
    ensures n.Packet? ==> |n.rest| < |stream|
    decreases |stream|
  {
    if stream == [] then Starved(st) else
      match Accept(st, stream[0])
      case Continue(st') => NextPacket(st', stream[1..])
      case Yield(p) => Packet(p, stream[1..])
      case Raise(e) => Failed(e)
  }

  datatype Decoded = Decoded(packets: seq<Bytes>, end: Next)

  /** Every packet of a stream, and how the stream ends. */
  function DecodeAll(st: State, stream: Bytes): Decoded
    decreases |stream|
  {
    match NextPacket(st, stream)
    case Packet(p, rest) =>
      var d := DecodeAll(Idle, rest);
      Decoded([p] + d.packets, d.end)
    case end => Decoded([], end)
  }

  /** The bytes that reach the reader: reads up to the first empty one, which is a timeout. */
  function Arriving(port: seq<Bytes>): Bytes
  {
    if port == [] || port[0] == [] then [] else port[0] + Arriving(port[1..])
  }

  /** The generator: its locals, the unread rest of `read_bytes`, and the reads still to come. */
  class SlipReader {
    var partialPacket: Option<Bytes>
    var inEscape: bool
    var readBytes: Bytes
    var port: seq<Bytes>

    constructor (port: seq<Bytes>)
      ensures Valid() && Current() == Idle && Stream() == Arriving(port)
    {
      partialPacket, inEscape, readBytes := None, false, [];
      this.port := port;
    }

    ghost predicate Valid()
      reads this
    {
      partialPacket.None? ==> !inEscape
    }

    function Current(): State
      reads this
    {
      if partialPacket.None? then Idle else InPacket(partialPacket.value, inEscape)
    }

    function Stream(): Bytes
      reads this
    {
      readBytes + Arriving(port)
    }

    /** `next(reader)`: run the loops of the source until it yields or raises. */
    method Read() returns (r: Result<Bytes, Error>)
      requires Valid()
      modifies this
      ensures Valid()
      ensures match NextPacket(old(Current()), old(Stream()))
              case Packet(p, rest) => r == Ok(p) && Current() == Idle && Stream() == rest
              case Failed(e) => r == Err(e)
              case Starved(st) => r == Err(Timeout(st.Idle?))
    {
      while true
        invariant Valid()
        invariant NextPacket(Current(), Stream()) == NextPacket(old(Current()), old(Stream()))
        decreases |port|, |readBytes|
      {
        if readBytes == [] {
          if port == [] || port[0] == [] {
            return Err(Timeout(partialPacket.None?));
          }
          ghost var stream := Stream();
          readBytes, port := port[0], port[1..];
          assert Stream() == stream;
        } else {
          var b := readBytes[0];
          ghost var stream := Stream();
          readBytes := readBytes[1..];
          assert stream[0] == b && stream[1..] == Stream();
          if partialPacket.None? {
            if b == END {
              partialPacket := Some([]);
            } else {
              return Err(InvalidHead(b));
            }
          } else if inEscape {
            inEscape := false;
            if b == ESC_END {
              partialPacket := Some(partialPacket.value + [END]);
            } else if b == ESC_ESC {
              partialPacket := Some(partialPacket.value + [ESC]);
            } else {
              return Err(InvalidEscape(b));
            }
          } else if b == ESC {
            inEscape := true;
          } else if b == END {
            r := Ok(partialPacket.value);
            partialPacket := None;
            return;
          } else {
            partialPacket := Some(partialPacket.value + [b]);
          }
        }
      }
    }

    /** Call the reader until it raises. */
    method ReadAll() returns (packets: seq<Bytes>, error: Error)
      requires Valid()
      modifies this
      ensures packets == DecodeAll(old(Current()), old(Stream())).packets
      ensures match DecodeAll(old(Current()), old(Stream())).end
              case Starved(st) => error == Timeout(st.Idle?)
              case Failed(e) => error == e
              case Packet(_, _) => false
    {
      packets := [];
      while true
        invariant Valid()
        invariant var all := DecodeAll(old(Current()), old(Stream()));
                  var more := DecodeAll(Current(), Stream());
                  all == Decoded(packets + more.packets, more.end)
        decreases |Stream()|
      {
        var r := Read();
        if r.Err? {
          return packets, r.error;
        }
        packets := packets + [r.value];
      }
    }
  }

  // ----- The two are exact inverses --------------------------------------------------------

  /** Inside a packet, the escaped text of `p` is accepted and appended byte for byte. */
  lemma {:induction false} DecodeEscaped(done: Bytes, p: Bytes, rest: Bytes)
    ensures NextPacket(InPacket(done, false), Escape(p) + [END] + rest) == Packet(done + p, rest)
    decreases |p|
  {
    var s := Escape(p) + [END] + rest;
    if p == [] {
      assert s[0] == END && s[1..] == rest && done + p == done;
    } else {
      DecodeEscaped(done + [p[0]], p[1..], rest);
      assert done + [p[0]] + p[1..] == done + p;
      var tail := Escape(p[1..]) + [END] + rest;
      if p[0] == ESC || p[0] == END {
        var second := if p[0] == ESC then ESC_ESC else ESC_END;
        assert s == [ESC, second] + tail;
        assert s[1..][0] == second && s[1..][1..] == tail;
      } else {
        assert s == [p[0]] + tail && s[1..] == tail;
      }
    }
  }

  lemma {:induction false} DecodeEncoded(p: Bytes, rest: Bytes)
    ensures NextPacket(Idle, Encode(p) + rest) == Packet(p, rest)
  {
    TwoPassIsPerByte(p);
    var s := Encode(p) + rest;
    assert s[0] == END && s[1..] == Escape(p) + [END] + rest;
    DecodeEscaped([], p, rest);
    assert [] + p == p;
  }

  lemma {:induction false} EncodedDecodes(ps: seq<Bytes>)
    ensures DecodeAll(Idle, EncodeAll(ps)) == Decoded(ps, Starved(Idle))
  {
    if ps == [] {
    } else {
      DecodeEncoded(ps[0], EncodeAll(ps[1..]));
      EncodedDecodes(ps[1..]);
      assert [ps[0]] + ps[1..] == ps;
    }
  }

  /** A packet read from inside a packet was the escaped text of what was appended. */
  lemma {:induction false} PacketWasEscaped(st: State, stream: Bytes) returns (p: Bytes)
    requires st.InPacket?
    requires NextPacket(st, stream).Packet?
    ensures NextPacket(st, stream).packet == st.partial + p
    ensures (if st.inEscape then [ESC] + stream else stream) == Escape(p) + [END] + NextPacket(st, stream).rest
    decreases |stream|
  {
    hide NextPacket, Escape;
    NextOf(st, stream);
    var b, tail := stream[0], stream[1..];
    assert stream == [b] + tail;
    if !st.inEscape && b == END {
      p := [];
      EscapeNothing();
    } else {
      var st' := Accept(st, b).st;
      var q := PacketWasEscaped(st', tail);
      if !st.inEscape && b == ESC {
        p := q;
      } else {
        var c := if !st.inEscape then b else if b == ESC_END then END else ESC;
        EscapedCons(c, q, NextPacket(st, stream).rest, tail);
        Reassociate(st.partial, [c], q);
        assert (if st.inEscape then [ESC] + stream else stream) == EscapeByte(c) + tail;
        p := [c] + q;
      }
    }
  }

  lemma EscapeNothing()
    ensures Escape([]) == []
  {
  }

  lemma NextOf(st: State, stream: Bytes)
    ensures NextPacket(st, stream).Packet? ==> stream != []
    ensures stream != [] ==>
              NextPacket(st, stream) == match Accept(st, stream[0])
                                        case Continue(st') => NextPacket(st', stream[1..])
                                        case Yield(p) => Packet(p, stream[1..])
                                        case Raise(e) => Failed(e)
  {
  }

  lemma {:induction false} EscapedCons(c: byte, p: Bytes, rest: Bytes, tail: Bytes)
    requires tail == Escape(p) + [END] + rest
    ensures EscapeByte(c) + tail == Escape([c] + p) + [END] + rest
  {
    assert ([c] + p)[1..] == p;
  }

  lemma {:induction false} PacketWasEncoded(stream: Bytes)
    requires NextPacket(Idle, stream).Packet?
    ensures stream == Encode(NextPacket(Idle, stream).packet) + NextPacket(Idle, stream).rest
  {
    var tail, n := stream[1..], NextPacket(Idle, stream);
    var p := PacketWasEscaped(InPacket([], false), tail);
    assert n.packet == p;
    assert tail == Escape(p) + [END] + n.rest;
    TwoPassIsPerByte(p);
    calc {
      stream;
      [END] + tail;
      [END] + (Escape(p) + [END] + n.rest);
      Encode(p) + n.rest;
    }
  }

  lemma {:induction false} DecodedWasEncoded(stream: Bytes)
    requires DecodeAll(Idle, stream).end == Starved(Idle)
    ensures stream == EncodeAll(DecodeAll(Idle, stream).packets)
    decreases |stream|
  {
    var n := NextPacket(Idle, stream);
    if n.Packet? {
      PacketWasEncoded(stream);
      DecodedWasEncoded(n.rest);
      assert DecodeAll(Idle, stream).packets[1..] == DecodeAll(Idle, n.rest).packets;
    } else {
      StarvedIdle(stream);
    }
  }

  lemma {:induction false} StarvedIdle(stream: Bytes)
    ensures NextPacket(Idle, stream) == Starved(Idle) <==> stream == []
  {
    if stream == [] || stream[0] != END {
    } else {
      StarvedInPacket(InPacket([], false), stream[1..]);
    }
  }

  lemma {:induction false} StarvedInPacket(st: State, stream: Bytes)
    requires st.InPacket?
    ensures NextPacket(st, stream) != Starved(Idle)
    decreases |stream|
  {
    if stream == [] || !Accept(st, stream[0]).Continue? {
    } else {
      StarvedInPacket(Accept(st, stream[0]).st, stream[1..]);
    }
  }

  /** The streams that decode cleanly to `ps` are exactly the one stream that encodes `ps`. */
  lemma {:induction false} DecodesIffEncoded(stream: Bytes, ps: seq<Bytes>)
    ensures DecodeAll(Idle, stream) == Decoded(ps, Starved(Idle)) <==> stream == EncodeAll(ps)
  {
    EncodedDecodes(ps);
    if DecodeAll(Idle, stream) == Decoded(ps, Starved(Idle)) {
      DecodedWasEncoded(stream);
    }
  }

  lemma {:induction false} ArrivingIsAll(chunks: seq<Bytes>)
    requires forall i :: 0 <= i < |chunks| ==> chunks[i] != []
    ensures Arriving(chunks) == Flatten(chunks)
  {
    if chunks == [] {
    } else {
      ArrivingIsAll(chunks[1..]);
    }
  }

  /** However the line cuts the encoded stream into non-empty reads, the reader returns the packets
      written, in order, and stops only because nothing more arrives. */
  method Transfer(packets: seq<Bytes>, chunks: seq<Bytes>) returns (received: seq<Bytes>, error: Error)
    requires Flatten(chunks) == EncodeAll(packets)
    requires forall i :: 0 <= i < |chunks| ==> chunks[i] != []
    ensures received == packets && error == Timeout(true)
  {
    ArrivingIsAll(chunks);
    EncodedDecodes(packets);
    var reader := new SlipReader(chunks);
    received, error := reader.ReadAll();
  }

  // ----- On the wire -----------------------------------------------------------------------------------------

  /** Frames on the wire, in bytes: a plain byte, the terminator, the escape. */
  lemma WireBytes(b: byte)
    ensures Encode([]) == [0xC0, 0xC0]
    ensures b != 0xC0 && b != 0xDB ==> Encode([b]) == [0xC0, b, 0xC0]
    ensures Encode([0xC0]) == [0xC0, 0xDB, 0xDC, 0xC0]
    ensures Encode([0xDB]) == [0xC0, 0xDB, 0xDD, 0xC0]
  {
    TwoPassIsPerByte([]);
    TwoPassIsPerByte([b]);
    TwoPassIsPerByte([0xC0]);
    TwoPassIsPerByte([0xDB]);
    assert [b][1..] == [];
    assert Escape([b]) == EscapeByte(b) + [] == EscapeByte(b);
    assert Escape([0xC0]) == EscapeByte(0xC0) + [] && Escape([0xDB]) == EscapeByte(0xDB) + [];
  }

  /** A frame has the terminator at its two ends and nowhere else. */
  lemma {:induction false} TerminatorsAtEnds(p: Bytes)
    ensures forall i :: 0 < i < |Encode(p)| - 1 ==> Encode(p)[i] != 0xC0
    ensures Encode(p)[0] == 0xC0 == Encode(p)[|Encode(p)| - 1]
  {
    TwoPassIsPerByte(p);
    NoTerminator(p);
  }

  lemma {:induction false} NoTerminator(p: Bytes)
    ensures 0xC0 !in Escape(p)
  {
    if p == [] {
    } else {
      NoTerminator(p[1..]);
    }
  }

  /** A stream that does not begin with the terminator is refused by its first byte; in a packet, an escape that
      is followed by anything but 0xDC and 0xDD is refused by that byte; and a stream that stops is a timeout,
      which says whether a packet had begun. */
  lemma BadBytes(b: byte, p: Bytes, rest: Bytes)
    ensures b != 0xC0 ==> NextPacket(Idle, [b] + rest) == Failed(InvalidHead(b))
    ensures b != 0xDC && b != 0xDD ==> NextPacket(InPacket(p, false), [0xDB, b] + rest) == Failed(InvalidEscape(b))
    ensures NextPacket(Idle, []) == Starved(Idle) && NextPacket(InPacket(p, false), []) == Starved(InPacket(p, false))
  {
    assert ([b] + rest)[0] == b;
    var s := [0xDB, b] + rest;
    assert s[0] == 0xDB && s[1..][0] == b;
  }

  /** Reading such streams. */
  method ReadBad(b: byte, rest: Bytes) returns (head: Result<Bytes, Error>, escape: Result<Bytes, Error>, stopped: Result<Bytes, Error>)
    requires b != 0xC0 && b != 0xDC && b != 0xDD
    ensures head == Err(InvalidHead(b)) && escape == Err(InvalidEscape(b)) && stopped == Err(Timeout(false))
  {
    BadBytes(b, [], rest);
    BadBytes(b, [], []);
    OneRead([b] + rest);
    var reader := new SlipReader([[b] + rest]);
    head := reader.Read();
    OneRead([0xC0, 0xDB, b] + rest);
    assert ([0xC0, 0xDB, b] + rest)[0] == 0xC0 && ([0xC0, 0xDB, b] + rest)[1..] == [0xDB, b] + rest;
    reader := new SlipReader([[0xC0, 0xDB, b] + rest]);
    escape := reader.Read();
    OneRead([0xC0]);
    assert [0xC0][1..] == [];
    reader := new SlipReader([[0xC0]]);
    stopped := reader.Read();
  }

  lemma OneRead(chunk: Bytes)
    requires chunk != []
    ensures Arriving([chunk]) == chunk
  {
    assert [chunk][1..] == [];
  }
}
