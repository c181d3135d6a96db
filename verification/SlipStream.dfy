/**
  What `buf.split(END_END)` recovers from a stream of SLIP frames, wherever the stream is cut.

  A stream of frames has no END byte standing alone between two other bytes, and every
  piece of such a stream has none either.  On such pieces, splitting at END_END and
  stripping gives the maximal END-free runs, apart from empty packets; and the runs of a
  stream are the runs of its pieces when the cuts fall right after an END.
*/
module SlipStream {
  import opened Wrappers
  import opened Bytes
  import opened Slip

  /** Python's `s.split(END_END)`: leftmost, non-overlapping separators; never the empty list. */
  function Split(s: bytes): (pieces: seq<bytes>)
    ensures pieces != []
  {
    if |s| < 2 then [s]
    else if s[..2] == END_END then [[]] + Split(s[2..])
    else
      var rest := Split(s[1..]);
      [[s[0]] + rest[0]] + rest[1..]
  }

  /** The maximal END-free runs of `s`, in order. */
  function Runs(s: bytes): (runs: seq<bytes>)
    ensures s != [] && s[0] != END ==> runs != []
  {
    if s == [] then []
    else if s[0] == END then Runs(s[1..])
    else if |s| == 1 || s[1] == END then [[s[0]]] + Runs(s[1..])
    else
      var rest := Runs(s[1..]);
      [[s[0]] + rest[0]] + rest[1..]
  }

  /** Between two bytes that are not END there is never exactly one END. */
  predicate NoLoneEnd(s: bytes) {
    forall i :: 0 < i < |s| - 1 ==> !LoneEnd(s, i)
  }

  predicate LoneEnd(s: bytes, i: nat)
    requires 0 < i < |s| - 1
  {
    s[i] == END && s[i - 1] != END && s[i + 1] != END
  }

  function NonEmpty(packets: seq<bytes>): seq<bytes> {
    if packets == [] then []
    else if packets[0] == [] then NonEmpty(packets[1..])
    else [packets[0]] + NonEmpty(packets[1..])
  }

  function StripAll(packets: seq<bytes>): (r: seq<bytes>)
    ensures |r| == |packets|
  {
    if packets == [] then [] else [Strip(packets[0])] + StripAll(packets[1..])
  }

  function Frames(msgs: seq<bytes>): bytes {
    if msgs == [] then [] else Encode(msgs[0]) + Frames(msgs[1..])
  }

  function EscapeAll(msgs: seq<bytes>): seq<bytes> {
    if msgs == [] then [] else [Escape(msgs[0])] + EscapeAll(msgs[1..])
  }

  lemma {:induction false} NonEmptyAppend(a: seq<bytes>, b: seq<bytes>)
    ensures NonEmpty(a + b) == NonEmpty(a) + NonEmpty(b)
  {
    if a == [] {
      assert a + b == b;
    } else {
      assert (a + b)[1..] == a[1..] + b && (a + b)[..1] == a[..1];
      NonEmptyAppend(a[1..], b);
    }
  }

  lemma NoLoneEndSlice(s: bytes, i: nat, j: nat)
    requires i <= j <= |s| && NoLoneEnd(s)
    ensures NoLoneEnd(s[i..j])
    ensures j == |s| ==> NoLoneEnd(s[i..])
  {
    var t := s[i..j];
    forall k | 0 < k < |t| - 1
      ensures !LoneEnd(t, k)
    {
      assert !LoneEnd(s, i + k);
    }
    assert s[i..|s|] == s[i..];
  }

  // ----- one piece

  lemma {:induction false} StripRightCons(x: byte, s: bytes)
    requires x != END
    ensures StripRight([x] + s) == [x] + StripRight(s)
  {
    var t := [x] + s;
    if s == [] {
      assert t[|t| - 1] == x;
    } else if s[|s| - 1] == END {
      assert t[..|t| - 1] == [x] + s[..|s| - 1];
      StripRightCons(x, s[..|s| - 1]);
    }
  }

  lemma NonEmptyCons(p: bytes, ps: seq<bytes>)
    ensures NonEmpty([p] + ps) == if p == [] then NonEmpty(ps) else [p] + NonEmpty(ps)
  {
    assert ([p] + ps)[1..] == ps;
  }

  /** Splitting at END_END and stripping finds the END-free runs, apart from empty packets. */
  lemma {:induction false} SplitGivesRuns(s: bytes)
    requires NoLoneEnd(s)
    ensures NonEmpty(StripAll(Split(s))) == Runs(s)
  {
    if |s| < 2 {
      ShortStrip(s);
      assert StripAll([s]) == [Strip(s)] + [];
      NonEmptyCons(Strip(s), []);
    } else if s[..2] == END_END {
      var tail := s[2..];
      NoLoneEndSlice(s, 2, |s|);
      SplitGivesRuns(tail);
      assert s[..2][0] == END && s[..2][1] == END;
      assert Runs(s) == Runs(s[1..]) == Runs(tail) by { assert s[1..][1..] == tail; }
      assert Split(s)[1..] == Split(tail);
    } else {
      NoLoneEndSlice(s, 1, |s|);
      SplitGivesRuns(s[1..]);
      SplitByteGivesRuns(s);
    }
  }

  lemma ShortStrip(s: bytes)
    requires |s| < 2
    ensures Strip(s) == if s == [END] then [] else s
    ensures Runs(s) == if s == [END] || s == [] then [] else [s]
  {
    if s != [] {
      assert s[1..] == [] && s[..0] == [] && s == [s[0]];
    }
  }

  /** A byte in front of a text changes only the first piece of the split. */
  lemma StripSplitCons(s: bytes)
    requires |s| >= 2 && s[..2] != END_END
    ensures var first, others := Split(s[1..])[0], StripAll(Split(s[1..])[1..]);
            && NonEmpty(StripAll(Split(s))) == NonEmpty([Strip([s[0]] + first)] + others)
            && NonEmpty(StripAll(Split(s[1..]))) == NonEmpty([Strip(first)] + others)
  {
    var rest := Split(s[1..]);
    assert ([[s[0]] + rest[0]] + rest[1..])[1..] == rest[1..];
  }

  lemma StripEndCons(s: bytes)
    ensures Strip([END] + s) == Strip(s)
  {
    assert ([END] + s)[1..] == s;
  }

  lemma SplitByteGivesRuns(s: bytes)
    requires |s| >= 2 && s[..2] != END_END && NoLoneEnd(s)
    requires NonEmpty(StripAll(Split(s[1..]))) == Runs(s[1..])
    ensures NonEmpty(StripAll(Split(s))) == Runs(s)
  {
    StripSplitCons(s);
    var first, others := Split(s[1..])[0], StripAll(Split(s[1..])[1..]);
    if s[0] == END {
      StripEndCons(first);
      assert Runs(s) == Runs(s[1..]);
    } else {
      SplitOtherGivesRuns(s, first, others);
    }
  }

  lemma SplitOtherGivesRuns(s: bytes, first: bytes, others: seq<bytes>)
    requires |s| >= 2 && NoLoneEnd(s) && s[0] != END && first == Split(s[1..])[0]
    requires NonEmpty([Strip(first)] + others) == Runs(s[1..])
    ensures NonEmpty([Strip([s[0]] + first)] + others) == Runs(s)
  {
    StripByte(s);
    RunsCons(s);
    JoinFirst([s[0]], s[1] == END, Strip(first), others, Runs(s[1..]));
  }

  lemma JoinFirst(x: bytes, alone: bool, f: bytes, others: seq<bytes>, runs: seq<bytes>)
    requires x != [] && (alone <==> f == []) && runs == NonEmpty([f] + others)
    ensures alone ==> NonEmpty([x] + others) == [x] + runs
    ensures !alone ==> runs != [] && NonEmpty([x + f] + others) == [x + runs[0]] + runs[1..]
  {
    NonEmptyCons(f, others);
    if alone {
      NonEmptyCons(x, others);
    } else {
      NonEmptyCons(x + f, others);
      assert runs[0] == f && runs[1..] == NonEmpty(others);
    }
  }

  lemma RunsCons(s: bytes)
    requires |s| >= 2 && s[0] != END
    ensures var rest := Runs(s[1..]);
            if s[1] == END then Runs(s) == [[s[0]]] + rest
            else rest != [] && Runs(s) == [[s[0]] + rest[0]] + rest[1..]
  {
  }

  /** What stripping does to the first piece of a text that starts with a byte other than END. */
  lemma StripByte(s: bytes)
    requires |s| >= 2 && NoLoneEnd(s) && s[0] != END
    ensures var first := Split(s[1..])[0];
            && Strip([s[0]] + first) == (if s[1] == END then [s[0]] else [s[0]] + Strip(first))
            && (s[1] == END <==> Strip(first) == [])
  {
    var tail := s[1..];
    var first := Split(tail)[0];
    StripRightCons(s[0], first);
    if s[1] == END {
      LoneEndHead(s);
      ShortStrip(first);
      assert StripRight(first) == [] by { assert first == [END] ==> first[..0] == []; }
    } else {
      FirstPiece(tail);
      StripRightCons(tail[0], first[1..]);
      assert first == [tail[0]] + first[1..];
    }
  }

  /** The first piece starts like the whole, unless the whole starts with a separator. */
  lemma FirstPiece(s: bytes)
    requires s != [] && s[0] != END
    ensures Split(s)[0] != [] && Split(s)[0][0] == s[0]
  {
    if |s| >= 2 {
      assert s[..2][0] != END;
    }
  }

  /** After another byte, an END either ends the text or begins a separator. */
  lemma LoneEndHead(s: bytes)
    requires |s| >= 2 && NoLoneEnd(s) && s[0] != END && s[1] == END
    ensures Split(s[1..])[0] == [] || Split(s[1..]) == [[END]]
  {
    var tail := s[1..];
    if |s| > 2 {
      assert !LoneEnd(s, 1);
      assert tail[..2] == END_END;
    } else {
      assert tail == [END];
    }
  }

  // ----- the whole stream

  lemma {:induction false} RunsAppend(a: bytes, b: bytes)
    requires a == [] || a[|a| - 1] == END
    ensures Runs(a + b) == Runs(a) + Runs(b)
  {
    if a == [] {
      assert a + b == b;
    } else {
      var tail := a[1..];
      assert (a + b)[1..] == tail + b;
      RunsAppend(tail, b);
      if a[0] != END {
        assert |a| > 1 && (a + b)[1] == a[1] == tail[0] && (a + b)[..1] == a[..1];
      }
    }
  }

  lemma {:induction false} RunOf(e: bytes)
    requires END !in e && e != []
    ensures Runs(e + [END]) == [e]
  {
    var s := e + [END];
    assert s[1..] == e[1..] + [END];
    if |e| == 1 {
      assert s[1..] == [END] && Runs([END]) == [] by { assert [END][1..] == []; }
      assert [s[0]] == e;
    } else {
      RunOf(e[1..]);
      assert [s[0]] + e[1..] == e;
    }
  }

  lemma RunsAfterEnd(s: bytes)
    ensures Runs([END] + s) == Runs(s)
  {
    assert ([END] + s)[1..] == s;
  }

  lemma RunsOfFrame(msg: bytes)
    ensures Runs(Encode(msg)) == NonEmpty([Escape(msg)])
    ensures NoLoneEnd(Encode(msg))
  {
    hide Encode, Escape;
    EncodeIsOnePass(msg);
    EscapeHasNoEnd(msg);
    var e := Escape(msg);
    assert Encode(msg) == [END] + (e + [END]);
    RunsAfterEnd(e + [END]);
    NonEmptyCons(e, []);
    assert [e] + [] == [e];
    if e == [] {
      RunsAfterEnd([]);
      assert e + [END] == [END] + [];
    } else {
      RunOf(e);
    }
    FrameNoLoneEnd(e);
  }

  lemma FrameNoLoneEnd(e: bytes)
    requires END !in e
    ensures NoLoneEnd([END] + e + [END])
  {
    var frame := [END] + e + [END];
    forall i | 0 < i < |frame| - 1
      ensures !LoneEnd(frame, i)
    {
      assert frame[i] == e[i - 1] && e[i - 1] in e;
    }
  }

  /** Two texts that meet in two END bytes have no END standing alone where they meet. */
  lemma JoinNoLoneEnd(a: bytes, b: bytes)
    requires NoLoneEnd(a) && NoLoneEnd(b)
    requires a != [] && a[|a| - 1] == END && (b != [] ==> b[0] == END)
    ensures NoLoneEnd(a + b)
  {
    var s := a + b;
    forall i | 0 < i < |s| - 1
      ensures !LoneEnd(s, i)
    {
      if i < |a| - 1 {
        assert !LoneEnd(a, i);
      } else if |a| < i {
        assert !LoneEnd(b, i - |a|);
      }
    }
  }

  predicate EndsClosed(s: bytes) {
    s != [] ==> s[0] == END && s[|s| - 1] == END
  }

  lemma {:induction false} StreamOfFrames(msgs: seq<bytes>)
    ensures NoLoneEnd(Frames(msgs))
    ensures Runs(Frames(msgs)) == NonEmpty(EscapeAll(msgs))
    ensures EndsClosed(Frames(msgs))
  {
    hide Encode, Escape, Runs, NoLoneEnd, NonEmpty;
    if msgs == [] {
      EmptyStream();
    } else {
      var frame, rest := Encode(msgs[0]), Frames(msgs[1..]);
      EncodeIsOnePass(msgs[0]);
      StreamOfFrames(msgs[1..]);
      RunsOfFrame(msgs[0]);
      RunsAppend(frame, rest);
      JoinNoLoneEnd(frame, rest);
      NonEmptyAppend([Escape(msgs[0])], EscapeAll(msgs[1..]));
    }
  }

  lemma EmptyStream()
    ensures NoLoneEnd([]) && Runs([]) == [] && NonEmpty([]) == []
  {
  }

  // ----- decoding the pieces

  /** `[slip.decode(p) for p in pieces]`; the first invalid piece raises. */
  function DecodeAll(pieces: seq<bytes>): Result<seq<bytes>, ProtocolError> {
    if pieces == [] then Ok([])
    else match Decode(pieces[0])
      case Err(e) => Err(e)
      case Ok(msg) =>
        match DecodeAll(pieces[1..])
        case Err(e) => Err(e)
        case Ok(rest) => Ok([msg] + rest)
  }

  /** Pieces whose non-empty bodies are escaped messages decode to those messages, apart from empty ones. */
  lemma {:induction false} DecodeAllPieces(pieces: seq<bytes>, msgs: seq<bytes>)
    requires NonEmpty(StripAll(pieces)) == EscapeAll(msgs)
    ensures DecodeAll(pieces).Ok?
    ensures NonEmpty(DecodeAll(pieces).value) == NonEmpty(msgs)
  {
    if pieces != [] {
      var body := Strip(pieces[0]);
      var tail := StripAll(pieces[1..]);
      assert StripAll(pieces)[1..] == tail && StripAll(pieces)[..1] == [body];
      DecodeIsOnePass(pieces[0]);
      if body == [] {
        assert NonEmpty(StripAll(pieces)) == NonEmpty(tail);
        DecodeAllPieces(pieces[1..], msgs);
        var msgs0: bytes := [];
        NonEmptyAppend([msgs0], DecodeAll(pieces[1..]).value);
        assert NonEmpty([msgs0]) == [];
      } else {
        assert NonEmpty(StripAll(pieces)) == [body] + NonEmpty(tail);
        assert EscapeAll(msgs)[0] == Escape(msgs[0]) && EscapeAll(msgs)[1..] == EscapeAll(msgs[1..]);
        DecodeAllPieces(pieces[1..], msgs[1..]);
        UnescapeEscape(msgs[0]);
        NonEmptyAppend(msgs[..1], DecodeAll(pieces[1..]).value);
        NonEmptyAppend(msgs[..1], msgs[1..]);
        assert msgs == msgs[..1] + msgs[1..];
        assert DecodeAll(pieces).value == msgs[..1] + DecodeAll(pieces[1..]).value;
      }
    }
  }

  /** The messages whose escaped forms are `runs`, or None when some run is not an escaped form. */
  function UnescapeAll(runs: seq<bytes>): Option<seq<bytes>> {
    if runs == [] then Some([])
    else match Unescape(runs[0])
      case None => None
      case Some(msg) =>
        match UnescapeAll(runs[1..])
        case None => None
        case Some(rest) => Some([msg] + rest)
  }

  /** The messages carried by a byte stream. */
  function Carried(stream: bytes): Option<seq<bytes>> {
    UnescapeAll(Runs(stream))
  }

  predicate WellFramed(stream: bytes) {
    NoLoneEnd(stream) && Carried(stream).Some?
  }

  lemma {:induction false} UnescapeAllAppend(a: seq<bytes>, b: seq<bytes>)
    ensures UnescapeAll(a + b).Some? <==> UnescapeAll(a).Some? && UnescapeAll(b).Some?
    ensures UnescapeAll(a + b).Some? ==> UnescapeAll(a + b).value == UnescapeAll(a).value + UnescapeAll(b).value
  {
    if a == [] {
      assert a + b == b;
    } else {
      assert (a + b)[1..] == a[1..] + b;
      UnescapeAllAppend(a[1..], b);
    }
  }

  lemma {:induction false} UnescapeAllEscapes(runs: seq<bytes>)
    requires UnescapeAll(runs).Some?
    ensures EscapeAll(UnescapeAll(runs).value) == runs
  {
    if runs != [] {
      EscapeUnescape(runs[0]);
      UnescapeAllEscapes(runs[1..]);
      var msgs := UnescapeAll(runs).value;
      assert msgs[1..] == UnescapeAll(runs[1..]).value;
    }
  }

  lemma {:induction false} CarriedNonEmpty(msgs: seq<bytes>)
    ensures UnescapeAll(NonEmpty(EscapeAll(msgs))) == Some(NonEmpty(msgs))
  {
    if msgs != [] {
      CarriedNonEmpty(msgs[1..]);
      EscapeHasNoEnd(msgs[0]);
      UnescapeEscape(msgs[0]);
      NonEmptyCons(Escape(msgs[0]), EscapeAll(msgs[1..]));
      if msgs[0] != [] {
        assert ([Escape(msgs[0])] + NonEmpty(EscapeAll(msgs[1..])))[1..] == NonEmpty(EscapeAll(msgs[1..]));
      }
    }
  }

  /** A stream of encoded messages is well framed and carries the non-empty ones, in order. */
  lemma FramesCarry(msgs: seq<bytes>)
    ensures WellFramed(Frames(msgs))
    ensures Carried(Frames(msgs)) == Some(NonEmpty(msgs))
  {
    StreamOfFrames(msgs);
    CarriedNonEmpty(msgs);
  }

  /** A well-framed piece decodes to the messages it carries, apart from empty packets. */
  lemma PieceDecodes(piece: bytes)
    requires WellFramed(piece)
    ensures DecodeAll(Split(piece)).Ok?
    ensures NonEmpty(DecodeAll(Split(piece)).value) == Carried(piece).value
  {
    var msgs := Carried(piece).value;
    UnescapeAllEscapes(Runs(piece));
    SplitGivesRuns(piece);
    DecodeAllPieces(Split(piece), msgs);
    CarriedNonEmpty(msgs);
    NonEmptyTwice(StripAll(Split(piece)));
  }

  /** One read from a well-framed stream, up to a cut right after an END or to the end of the stream. */
  lemma PieceOfStream(piece: bytes, rest: bytes)
    requires WellFramed(piece + rest)
    requires rest == [] || (piece != [] && piece[|piece| - 1] == END)
    ensures WellFramed(rest)
    ensures DecodeAll(Split(piece)).Ok?
    ensures Carried(piece + rest).value == NonEmpty(DecodeAll(Split(piece)).value) + Carried(rest).value
  {
    var stream := piece + rest;
    NoLoneEndSlice(stream, 0, |piece|);
    NoLoneEndSlice(stream, |piece|, |stream|);
    assert stream[0..|piece|] == piece && stream[|piece|..|stream|] == rest;
    if rest == [] {
      assert stream == piece;
    } else {
      RunsAppend(piece, rest);
      UnescapeAllAppend(Runs(piece), Runs(rest));
    }
    PieceDecodes(piece);
  }

  lemma {:induction false} NonEmptyTwice(ps: seq<bytes>)
    ensures NonEmpty(NonEmpty(ps)) == NonEmpty(ps)
  {
    if ps != [] {
      NonEmptyTwice(ps[1..]);
      if ps[0] != [] {
        NonEmptyCons(ps[0], NonEmpty(ps[1..]));
      }
    }
  }

  // ----- one buffer holding whole frames

  predicate AllNonEmpty(msgs: seq<bytes>) {
    forall i :: 0 <= i < |msgs| ==> msgs[i] != []
  }

  lemma {:induction false} SplitEndFree(e: bytes, rest: bytes)
    requires END !in e
    ensures Split(e + END_END + rest) == [e] + Split(rest)
    ensures Split(e + [END]) == [e + [END]]
  {
    var s := e + END_END + rest;
    if e == [] {
      assert s[..2] == END_END && s[2..] == rest;
      assert e + [END] == [END];
    } else {
      SplitEndFree(e[1..], rest);
      assert e[0] in e;
      assert s[..2][0] == e[0];
      assert s[1..] == e[1..] + END_END + rest;
      assert [e[0]] + e[1..] == e;
      var t := e + [END];
      assert t[..2][0] == e[0] && t[1..] == e[1..] + [END];
      assert [e[0]] + (e[1..] + [END]) == t;
    }
  }

  /** The pieces after a first opening END: every body as it is, the last one with its closing END. */
  function Pieces(msgs: seq<bytes>): (r: seq<bytes>)
    requires msgs != []
    ensures r != []
  {
    if |msgs| == 1 then [Escape(msgs[0]) + [END]] else [Escape(msgs[0])] + Pieces(msgs[1..])
  }

  lemma {:induction false} SplitOpened(msgs: seq<bytes>)
    requires msgs != [] && AllNonEmpty(msgs)
    ensures Frames(msgs)[0] == END
    ensures Split(Frames(msgs)[1..]) == Pieces(msgs)
    ensures |Frames(msgs)| > 1 && Frames(msgs)[1] != END
  {
    hide Encode, Escape;
    var e := Escape(msgs[0]);
    var rest := Frames(msgs[1..]);
    EncodeIsOnePass(msgs[0]);
    EscapeHasNoEnd(msgs[0]);
    assert Frames(msgs) == [END] + e + [END] + rest;
    assert Frames(msgs)[1] == e[0] && e[0] in e;
    if |msgs| == 1 {
      assert Frames(msgs)[1..] == e + [END];
      SplitEndFree(e, []);
    } else {
      SplitOpened(msgs[1..]);
      assert Frames(msgs)[1..] == e + END_END + rest[1..];
      SplitEndFree(e, rest[1..]);
    }
  }

  /** A body decodes to its message with or without END bytes at either side. */
  lemma DecodeBody(msg: bytes, before: nat, after: nat, packet: bytes)
    requires packet == seq(before, _ => END) + Escape(msg) + seq(after, _ => END)
    ensures Decode(packet) == Ok(msg)
  {
    EscapeHasNoEnd(msg);
    UnescapeEscape(msg);
    StripPadded(before, Escape(msg), after);
    DecodeIsOnePass(packet);
  }

  lemma DecodeBodies(msg: bytes)
    ensures Decode(Escape(msg)) == Ok(msg)
    ensures Decode(Escape(msg) + [END]) == Ok(msg)
    ensures Decode([END] + Escape(msg)) == Ok(msg)
    ensures Decode([END] + (Escape(msg) + [END])) == Ok(msg)
  {
    hide Decode, Escape;
    var e := Escape(msg);
    DecodeBody(msg, 0, 0, e);
    DecodeBody(msg, 0, 1, e + [END]);
    DecodeBody(msg, 1, 0, [END] + e);
    DecodeBody(msg, 1, 1, [END] + (e + [END]));
  }

  lemma {:induction false} DecodePieces(msgs: seq<bytes>)
    requires msgs != []
    ensures DecodeAll(Pieces(msgs)) == Ok(msgs)
    ensures Decode([END] + Pieces(msgs)[0]) == Ok(msgs[0])
  {
    DecodeBodies(msgs[0]);
    if |msgs| == 1 {
      assert DecodeAll(Pieces(msgs)[1..]) == Ok([]);
    } else {
      DecodePieces(msgs[1..]);
      assert Pieces(msgs)[1..] == Pieces(msgs[1..]);
    }
    assert msgs == [msgs[0]] + msgs[1..];
  }

  /** A buffer that holds whole frames of non-empty messages splits and decodes to those messages. */
  lemma SplitDecodeFrames(msgs: seq<bytes>)
    requires msgs != [] && AllNonEmpty(msgs)
    ensures DecodeAll(Split(Frames(msgs))) == Ok(msgs)
  {
    SplitOpened(msgs);
    DecodePieces(msgs);
    var s := Frames(msgs);
    assert s[..2][1] != END;
    var pieces := Pieces(msgs);
    assert Split(s) == [[END] + pieces[0]] + pieces[1..];
    assert Split(s)[1..] == pieces[1..];
    assert Decode(pieces[0]) == Ok(msgs[0]);
  }

  lemma FramesPrefix(msgs: seq<bytes>, k: nat)
    requires 0 < k <= |msgs|
    ensures |Frames(msgs[..k])| == |Encode(msgs[0])| + |Frames(msgs[1..][..k - 1])|
  {
    assert msgs[..k][1..] == msgs[1..][..k - 1];
  }

  ghost predicate AtBoundary(msgs: seq<bytes>, p: nat) {
    exists k :: 0 < k < |msgs| && p == |Frames(msgs[..k])|
  }

  /** A frame boundary is the end of the first of several frames, or a boundary of the others. */
  lemma BoundaryCases(msgs: seq<bytes>, p: nat)
    requires msgs != []
    ensures AtBoundary(msgs, p) <==>
            var n := |Encode(msgs[0])|;
            |msgs| > 1 && (p == n || (p >= n && AtBoundary(msgs[1..], p - n)))
  {
    var n, tail := |Encode(msgs[0])|, msgs[1..];
    if AtBoundary(msgs, p) {
      var k :| 0 < k < |msgs| && p == |Frames(msgs[..k])|;
      FramesPrefix(msgs, k);
      if k > 1 {
        assert 0 < k - 1 < |tail| && p - n == |Frames(tail[..k - 1])|;
      }
    }
    if |msgs| > 1 && p == n {
      FramesPrefix(msgs, 1);
      assert 0 < 1 < |msgs| && p == |Frames(msgs[..1])|;
    }
    if |msgs| > 1 && p >= n && AtBoundary(tail, p - n) {
      var k :| 0 < k < |tail| && p - n == |Frames(tail[..k])|;
      FramesPrefix(msgs, k + 1);
      assert 0 < k + 1 < |msgs| && p == |Frames(msgs[..k + 1])|;
    }
  }

  /** END_END occurs in a stream of non-empty messages exactly where two frames meet. */
  lemma {:induction false} EndEndAtBoundaries(msgs: seq<bytes>, i: nat)
    requires AllNonEmpty(msgs)
    ensures At(Frames(msgs), i, END_END) <==> AtBoundary(msgs, i + 1)
  {
    if msgs != [] {
      hide Encode, AtBoundary;
      var tail, n := msgs[1..], |Encode(msgs[0])|;
      BoundaryCases(msgs, i + 1);
      FramePositions(msgs[0], Frames(tail), i);
      if i >= n {
        EndEndAtBoundaries(tail, i - n);
      } else if i == n - 1 && |msgs| > 1 {
        EncodeIsOnePass(tail[0]);
      }
    }
  }

  /** Where END_END can be in a stream that starts with the frame of a non-empty message. */
  lemma FramePositions(msg: bytes, rest: bytes, i: nat)
    requires msg != []
    ensures var s, n := Encode(msg) + rest, |Encode(msg)|;
            if i >= n then At(s, i, END_END) <==> At(rest, i - n, END_END)
            else At(s, i, END_END) <==> i == n - 1 && rest != [] && rest[0] == END
  {
    hide Encode, Escape;
    var s, n, e := Encode(msg) + rest, |Encode(msg)|, Escape(msg);
    EncodeIsOnePass(msg);
    EscapeHasNoEnd(msg);
    TwoEnds(s, i);
    if i >= n {
      TwoEnds(rest, i - n);
    } else if i < n - 1 {
      assert s[if i == 0 then 1 else i] == e[if i == 0 then 0 else i - 1];
      assert e[if i == 0 then 0 else i - 1] in e;
    }
  }

  lemma TwoEnds(s: bytes, i: nat)
    ensures At(s, i, END_END) <==> i + 1 < |s| && s[i] == END && s[i + 1] == END
  {
    if i + 1 < |s| {
      assert s[i..i + 2] == [s[i], s[i + 1]];
      if At(s, i, END_END) {
        assert s[i..i + 2][0] == END && s[i..i + 2][1] == END;
      }
    }
  }
}
