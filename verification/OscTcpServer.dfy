/**
  osc_tcp_server.py: the two stream handlers, over a connection that hands out its bytes
  in chunks of any size.
*/
module OscTcpServer {
  import opened Wrappers
  import opened Bytes
  import Slip
  import opened SlipStream

  /** The receiving side of a TCP connection: the bytes still to be received, then end of stream. */
  class Connection {
    var pending: bytes

    constructor (stream: bytes)
      ensures pending == stream
    {
      pending := stream;
    }

    /** `recv(count)`: some non-empty prefix of at most `count` bytes; the empty string only at the end. */
    method Recv(count: nat) returns (chunk: bytes)
      requires count > 0
      modifies this
      ensures old(pending) == chunk + pending
      ensures |chunk| <= count
      ensures chunk == [] <==> old(pending) == []
    {
      if pending == [] {
        return [];
      }
      var n :| 1 <= n <= count && n <= |pending|;
      chunk, pending := pending[..n], pending[n..];
    }
  }

  // ----- OSC 1.0: datagrams with a 4-byte length in front

  function Prefixed(datagrams: seq<bytes>): bytes
    requires Short(datagrams)
  {
    if datagrams == [] then [] else ToBE(|datagrams[0]|, 4) + datagrams[0] + Prefixed(datagrams[1..])
  }

  predicate Short(datagrams: seq<bytes>) {
    forall i :: 0 <= i < |datagrams| ==> |datagrams[i]| < 0x1_0000_0000
  }

  /** What the handler makes of a byte stream: it stops at an incomplete or an empty datagram. */
  function Datagrams(stream: bytes): seq<bytes>
    decreases |stream|
  {
    if |stream| < 4 then []
    else
      var n := FromBE(stream[..4]);
      if n == 0 || n > |stream| - 4 then []
      else [stream[4..4 + n]] + Datagrams(stream[4 + n..])
  }

  class TCPHandler10 {
    const request: Connection
    var dispatched: seq<bytes>

    constructor (request: Connection)
      ensures this.request == request && dispatched == []
    {
      this.request := request;
      dispatched := [];
    }

    /** Exactly the next `count` bytes, or nothing once the stream is too short, whatever the chunks are. */
    method RecvAll(count: nat) returns (buf: bytes)
      modifies request
      ensures if count <= |old(request.pending)|
              then buf == old(request.pending)[..count] && request.pending == old(request.pending)[count..]
              else buf == [] && request.pending == []
    {
      buf := [];
      var missing := count;
      while missing > 0
        invariant buf + request.pending == old(request.pending)
        invariant missing >= 0 && |buf| + missing == count
      {
        var newbuf := request.Recv(missing);
        if newbuf == [] {
          return [];
        }
        buf := buf + newbuf;
        missing := missing - |newbuf|;
      }
      assert old(request.pending)[..count] == buf;
    }

    method Handle()
      modifies this, request
      ensures dispatched == old(dispatched) + Datagrams(old(request.pending))
    {
      ghost var total := Datagrams(request.pending);
      while true
        invariant dispatched + Datagrams(request.pending) == old(dispatched) + total
        decreases |request.pending|
      {
        ghost var stream := request.pending;
        var lengthbuf := RecvAll(4);
        if lengthbuf == [] {
          break;
        }
        var length := FromBE(lengthbuf);
        var data := RecvAll(length);
        if data == [] {
          assert Datagrams(stream) == [];
          break;
        }
        assert lengthbuf == stream[..4] && data == stream[4..4 + length];
        assert request.pending == stream[4 + length..];
        assert dispatched + ([data] + Datagrams(request.pending)) == dispatched + [data] + Datagrams(request.pending);
        dispatched := dispatched + [data];
      }
    }
  }

  function UpToEmpty(datagrams: seq<bytes>): seq<bytes> {
    if datagrams == [] || datagrams[0] == [] then [] else [datagrams[0]] + UpToEmpty(datagrams[1..])
  }

  lemma {:induction false} UpToEmptyIsAll(datagrams: seq<bytes>)
    ensures UpToEmpty(datagrams) == datagrams <==> AllNonEmpty(datagrams)
  {
    if datagrams != [] && datagrams[0] != [] {
      UpToEmptyIsAll(datagrams[1..]);
      assert datagrams == [datagrams[0]] + datagrams[1..];
      assert UpToEmpty(datagrams)[1..] == UpToEmpty(datagrams[1..]);
    }
  }

  /** The length prefix of a datagram of an admissible size is read back, and delimits it. */
  lemma FirstDatagram(d: bytes, rest: bytes)
    requires |d| < 0x1_0000_0000
    ensures var stream := ToBE(|d|, 4) + d + rest;
            Datagrams(stream) == if d == [] then [] else [d] + Datagrams(rest)
  {
    var stream := ToBE(|d|, 4) + d + rest;
    Powers();
    FromToBE(|d|, 4);
    assert stream[..4] == ToBE(|d|, 4);
    assert stream[4..4 + |d|] == d && stream[4 + |d|..] == rest;
  }

  /** The handler passes on the sent datagrams in order, up to the first empty one. */
  lemma {:induction false} PrefixedDatagrams(datagrams: seq<bytes>)
    requires Short(datagrams)
    ensures Datagrams(Prefixed(datagrams)) == UpToEmpty(datagrams)
    ensures Datagrams(Prefixed(datagrams)) == datagrams <==> AllNonEmpty(datagrams)
  {
    UpToEmptyIsAll(datagrams);
    if datagrams != [] {
      FirstDatagram(datagrams[0], Prefixed(datagrams[1..]));
      PrefixedDatagrams(datagrams[1..]);
    }
  }

  /** `s` holds the first `k` of the datagrams whole, and not the next one. */
  ghost predicate HoldsWhole(datagrams: seq<bytes>, n: nat, k: nat)
    requires Short(datagrams)
  {
    && k <= |datagrams|
    && |Prefixed(datagrams[..k])| <= n
    && (k < |datagrams| ==> n < |Prefixed(datagrams[..k + 1])|)
  }

  lemma PrefixedTake(datagrams: seq<bytes>, k: nat)
    requires Short(datagrams) && 0 < k <= |datagrams|
    ensures |Prefixed(datagrams[..k])| == 4 + |datagrams[0]| + |Prefixed(datagrams[1..][..k - 1])|
  {
    assert datagrams[..k][1..] == datagrams[1..][..k - 1];
  }

  lemma CutFirst(d: bytes, rest: bytes, n: nat)
    requires d != [] && |d| < 0x1_0000_0000 && n < 4 + |d|
    ensures Datagrams((ToBE(|d|, 4) + d + rest)[..n]) == []
  {
    Powers();
    FromToBE(|d|, 4);
    assert n >= 4 ==> (ToBE(|d|, 4) + d + rest)[..n][..4] == ToBE(|d|, 4);
  }

  /** A stream that ends early delivers the datagrams that arrived whole, and no part of the next one. */
  lemma {:induction false} CutStream(datagrams: seq<bytes>, n: nat) returns (k: nat)
    requires Short(datagrams) && AllNonEmpty(datagrams) && n <= |Prefixed(datagrams)|
    ensures HoldsWhole(datagrams, n, k)
    ensures Datagrams(Prefixed(datagrams)[..n]) == datagrams[..k]
  {
    if datagrams == [] {
      k := 0;
    } else if n < 4 + |datagrams[0]| {
      CutFirst(datagrams[0], Prefixed(datagrams[1..]), n);
      PrefixedTake(datagrams, 1);
      k := 0;
    } else {
      var m := 4 + |datagrams[0]|;
      var k' := CutStream(datagrams[1..], n - m);
      CutCounts(datagrams, n, k');
      CutDelivers(datagrams, n, k');
      k := k' + 1;
    }
  }

  lemma CutCounts(datagrams: seq<bytes>, n: nat, k: nat)
    requires Short(datagrams) && datagrams != [] && n >= 4 + |datagrams[0]|
    requires HoldsWhole(datagrams[1..], n - (4 + |datagrams[0]|), k)
    ensures HoldsWhole(datagrams, n, k + 1)
  {
    hide Prefixed;
    PrefixedTake(datagrams, k + 1);
    if k < |datagrams[1..]| {
      PrefixedTake(datagrams, k + 2);
    }
  }

  lemma CutDelivers(datagrams: seq<bytes>, n: nat, k: nat)
    requires Short(datagrams) && datagrams != [] && datagrams[0] != []
    requires 4 + |datagrams[0]| <= n <= |Prefixed(datagrams)| && k <= |datagrams[1..]|
    requires Datagrams(Prefixed(datagrams[1..])[..n - (4 + |datagrams[0]|)]) == datagrams[1..][..k]
    ensures Datagrams(Prefixed(datagrams)[..n]) == datagrams[..k + 1]
  {
    hide Datagrams;
    var d, rest := datagrams[0], Prefixed(datagrams[1..])[..n - (4 + |datagrams[0]|)];
    assert Prefixed(datagrams)[..n] == ToBE(|d|, 4) + d + rest;
    FirstDatagram(d, rest);
    assert datagrams[..k + 1] == [d] + datagrams[1..][..k];
  }

  // ----- OSC 1.1: SLIP frames

  class TCPHandler11 {
    const request: Connection
    var dispatched: seq<bytes>

    constructor (request: Connection)
      ensures this.request == request && dispatched == []
    {
      this.request := request;
      dispatched := [];
    }

    /**
      Reads chunks until one ends on an END byte or the stream ends, and decodes the pieces
      between END_END.  The ghost result is the part of the stream that was read.
    */
    method RecvAll() returns (packets: Result<seq<bytes>, Slip.ProtocolError>, ghost read: bytes)
      modifies request
      ensures old(request.pending) == read + request.pending
      ensures read == [] <==> old(request.pending) == []
      ensures read == [] ==> packets == Ok([])
      ensures read != [] ==> packets == DecodeAll(Split(read))
      ensures request.pending == [] || read[|read| - 1] == Slip.END
    {
      var buf := request.Recv(4096);
      if buf == [] {
        return Ok([]), buf;
      }
      while buf[|buf| - 1] != Slip.END
        invariant buf != []
        invariant old(request.pending) == buf + request.pending
        decreases |request.pending|
      {
        var newbuf := request.Recv(4096);
        if newbuf == [] {
          break;
        }
        buf := buf + newbuf;
      }
      return DecodeAll(Split(buf)), buf;
    }

    method DispatchAll(packets: seq<bytes>)
      modifies this
      ensures dispatched == old(dispatched) + packets
    {
      for i := 0 to |packets|
        invariant dispatched == old(dispatched) + packets[..i]
      {
        dispatched := dispatched + [packets[i]];
      }
    }

    /**
      Dispatches every packet until the end of the stream; a protocol error ends the handler.
      From a well-framed stream it dispatches the carried messages, in order, however the
      stream is cut into chunks; apart from them only empty packets.
    */
    method Handle() returns (outcome: Result<(), Slip.ProtocolError>)
      modifies this, request
      ensures old(dispatched) <= dispatched
      ensures WellFramed(old(request.pending)) ==>
                && outcome == Ok(())
                && request.pending == []
                && NonEmpty(dispatched[|old(dispatched)|..]) == Carried(old(request.pending)).value
    {
      hide Carried, DecodeAll, Split, NoLoneEnd, NonEmpty, Delivered, WellFramed;
      ghost var stream, log := request.pending, [];
      ghost var framed := WellFramed(stream);
      if framed {
        DeliverNothing(stream);
      }
      while true
        invariant dispatched == old(dispatched) + log
        invariant framed ==> Delivered(stream, log, request.pending)
        decreases |request.pending|
      {
        var received, read := RecvAll();
        if framed && read != [] {
          DeliverPiece(stream, log, read, request.pending);
        }
        if received.Err? {
          return Err(received.error);
        }
        if received.value == [] {
          if framed {
            DeliverAll(stream, log);
          }
          break;
        }
        DispatchAll(received.value);
        log := log + received.value;
      }
      assert dispatched[|old(dispatched)|..] == log;
      return Ok(());
    }
  }

  /** `log` accounts for the part of the stream before `rest`. */
  ghost predicate Delivered(stream: bytes, log: seq<bytes>, rest: bytes)
    requires WellFramed(stream)
  {
    WellFramed(rest) && NonEmpty(log) + Carried(rest).value == Carried(stream).value
  }

  lemma DeliverNothing(stream: bytes)
    requires WellFramed(stream)
    ensures Delivered(stream, [], stream)
  {
    assert NonEmpty([]) + Carried(stream).value == Carried(stream).value;
  }

  lemma DeliverAll(stream: bytes, log: seq<bytes>)
    requires WellFramed(stream) && Delivered(stream, log, [])
    ensures NonEmpty(log) == Carried(stream).value
  {
    assert NonEmpty(log) + [] == NonEmpty(log);
  }

  lemma DeliverPiece(stream: bytes, log: seq<bytes>, piece: bytes, rest: bytes)
    requires WellFramed(stream) && Delivered(stream, log, piece + rest)
    requires piece != [] && (rest == [] || piece[|piece| - 1] == Slip.END)
    ensures DecodeAll(Split(piece)).Ok? && DecodeAll(Split(piece)).value != []
    ensures Delivered(stream, log + DecodeAll(Split(piece)).value, rest)
  {
    PieceOfStream(piece, rest);
    DecodeAllLength(Split(piece));
    Account(log, DecodeAll(Split(piece)).value,
            Carried(piece + rest).value, Carried(rest).value, Carried(stream).value);
  }

  lemma Account(log: seq<bytes>, packets: seq<bytes>, before: seq<bytes>, after: seq<bytes>, total: seq<bytes>)
    requires NonEmpty(log) + before == total && before == NonEmpty(packets) + after
    ensures NonEmpty(log + packets) + after == total
  {
    NonEmptyAppend(log, packets);
  }

  lemma {:induction false} DecodeAllLength(pieces: seq<bytes>)
    requires DecodeAll(pieces).Ok?
    ensures |DecodeAll(pieces).value| == |pieces|
  {
    if pieces != [] {
      DecodeAllLength(pieces[1..]);
    }
  }
}
