/**
  slip.py: the SLIP codec of RFC 1055, as two successive whole-buffer replacements.

  `Encode`, `Decode` and `IsValid` follow the source, over `Replace`, `Strip` and a
  search for a bad escape.  `Escape` and `Unescape` are the one-pass byte machine of
  the RFC; the lemmas show that both descriptions agree.
*/
module Slip {
  import opened Wrappers
  import opened Bytes

  const END: byte := 0xC0
  const ESC: byte := 0xDB
  const ESC_END: byte := 0xDC
  const ESC_ESC: byte := 0xDD
  const END_END: bytes := [END, END]

  datatype ProtocolError = ProtocolError(packet: bytes)

  /** Python's `s.replace(from, to)`: leftmost, non-overlapping occurrences. */
  function Replace(s: bytes, from: bytes, to: bytes): bytes
    requires from != []
  {
    if |s| < |from| then s
    else if s[..|from|] == from then to + Replace(s[|from|..], from, to)
    else [s[0]] + Replace(s[1..], from, to)
  }

  function StripLeft(s: bytes): bytes {
    if s != [] && s[0] == END then StripLeft(s[1..]) else s
  }

  function StripRight(s: bytes): bytes {
    if s != [] && s[|s| - 1] == END then StripRight(s[..|s| - 1]) else s
  }

  /** Python's `packet.strip(END)`. */
  function Strip(s: bytes): bytes {
    StripRight(StripLeft(s))
  }

  function Encode(msg: bytes): bytes {
    [END] + Replace(Replace(msg, [ESC], [ESC, ESC_ESC]), [END], [ESC, ESC_END]) + [END]
  }

  /** The search for an ESC followed by a byte that is neither ESC_END nor ESC_ESC. */
  predicate HasBadEscape(s: bytes) {
    exists i :: 0 <= i < |s| - 1 && BadEscapeAt(s, i)
  }

  predicate BadEscapeAt(s: bytes, i: nat)
    requires i + 1 < |s|
  {
    s[i] == ESC && s[i + 1] != ESC_END && s[i + 1] != ESC_ESC
  }

  predicate Clean(body: bytes) {
    !(END in body || (body != [] && body[|body| - 1] == ESC) || HasBadEscape(body))
  }

  predicate IsValid(packet: bytes) {
    Clean(Strip(packet))
  }

  function Decode(packet: bytes): Result<bytes, ProtocolError> {
    if !IsValid(packet) then Err(ProtocolError(packet))
    else Ok(Replace(Replace(Strip(packet), [ESC, ESC_END], [END]), [ESC, ESC_ESC], [ESC]))
  }

  // ----- the one-pass byte machine

  function EscapeByte(b: byte): bytes {
    if b == ESC then [ESC, ESC_ESC] else if b == END then [ESC, ESC_END] else [b]
  }

  function Escape(msg: bytes): bytes {
    if msg == [] then [] else EscapeByte(msg[0]) + Escape(msg[1..])
  }

  /** Reads one escaped byte at a time; fails on END and on an incomplete or unknown escape. */
  function Unescape(s: bytes): Option<bytes> {
    if s == [] then Some([])
    else if s[0] == END then None
    else if s[0] == ESC then
      if |s| == 1 || (s[1] != ESC_END && s[1] != ESC_ESC) then None
      else match Unescape(s[2..])
        case None => None
        case Some(rest) => Some([if s[1] == ESC_END then END else ESC] + rest)
    else match Unescape(s[1..])
      case None => None
      case Some(rest) => Some([s[0]] + rest)
  }

  // ----- encoding

  lemma {:induction false} ReplaceOneAppend(a: bytes, s: bytes, x: byte, to: bytes)
    ensures Replace(a + s, [x], to) == Replace(a, [x], to) + Replace(s, [x], to)
  {
    if a == [] {
      assert a + s == s;
    } else {
      assert (a + s)[1..] == a[1..] + s && (a + s)[..1] == a[..1];
      ReplaceOneAppend(a[1..], s, x, to);
    }
  }

  /** The two replacement passes of the encoder do the work of one pass over the bytes. */
  lemma {:induction false} EncodeIsOnePass(msg: bytes)
    ensures Encode(msg) == [END] + Escape(msg) + [END]
  {
    EscapeIsTwoPasses(msg);
  }

  lemma ReplaceOneByte(b: byte, x: byte, to: bytes)
    ensures Replace([b], [x], to) == if b == x then to else [b]
  {
    var none: bytes := [b][1..];
    assert none == [] && [b][..1] == [b] && to + [] == to;
  }

  lemma EscapeByteIsTwoPasses(b: byte)
    ensures Replace(Replace([b], [ESC], [ESC, ESC_ESC]), [END], [ESC, ESC_END]) == EscapeByte(b)
  {
    hide Replace;
    ReplaceOneByte(b, ESC, [ESC, ESC_ESC]);
    if b == ESC {
      ReplaceOneAppend([ESC], [ESC_ESC], END, [ESC, ESC_END]);
      ReplaceOneByte(ESC, END, [ESC, ESC_END]);
      ReplaceOneByte(ESC_ESC, END, [ESC, ESC_END]);
      assert [ESC, ESC_ESC] == [ESC] + [ESC_ESC];
    } else {
      ReplaceOneByte(b, END, [ESC, ESC_END]);
    }
  }

  lemma {:induction false} EscapeIsTwoPasses(msg: bytes)
    ensures Replace(Replace(msg, [ESC], [ESC, ESC_ESC]), [END], [ESC, ESC_END]) == Escape(msg)
  {
    if msg != [] {
      var b, tail := msg[0], msg[1..];
      EscapeIsTwoPasses(tail);
      EscapeByteIsTwoPasses(b);
      hide Replace, EscapeByte;
      ReplaceOneAppend([b], tail, ESC, [ESC, ESC_ESC]);
      ReplaceOneAppend(Replace([b], [ESC], [ESC, ESC_ESC]), Replace(tail, [ESC], [ESC, ESC_ESC]), END, [ESC, ESC_END]);
      assert msg == [b] + tail;
    }
  }

  lemma {:induction false} EscapeHasNoEnd(msg: bytes)
    ensures END !in Escape(msg)
    ensures msg == [] <==> Escape(msg) == []
  {
    if msg != [] {
      EscapeHasNoEnd(msg[1..]);
    }
  }

  // ----- decoding

  lemma {:induction false} UnescapeEscape(msg: bytes)
    ensures Unescape(Escape(msg)) == Some(msg)
  {
    if msg != [] {
      UnescapeEscape(msg[1..]);
      var e := Escape(msg);
      assert e[|EscapeByte(msg[0])|..] == Escape(msg[1..]);
      assert msg == [msg[0]] + msg[1..];
    }
  }

  lemma {:induction false} EscapeUnescape(s: bytes)
    requires Unescape(s).Some?
    ensures Escape(Unescape(s).value) == s
  {
    if s != [] {
      var n := if s[0] == ESC then 2 else 1;
      EscapeUnescape(s[n..]);
      assert Unescape(s).value[1..] == Unescape(s[n..]).value;
      assert s == s[..n] + s[n..];
    }
  }

  /** The three separate tests of `is_valid` accept what the one-pass machine accepts. */
  lemma {:induction false} CleanIsUnescapable(body: bytes)
    ensures Clean(body) <==> Unescape(body).Some?
  {
    if body != [] && body[0] != END {
      if body[0] == ESC {
        if |body| > 1 && (body[1] == ESC_END || body[1] == ESC_ESC) {
          CleanIsUnescapable(body[2..]);
          BadEscapeTail(body, 2);
        } else if |body| > 1 {
          assert BadEscapeAt(body, 0);
        }
      } else {
        CleanIsUnescapable(body[1..]);
        BadEscapeTail(body, 1);
      }
    }
  }

  lemma BadEscapeTail(body: bytes, n: nat)
    requires n == 1 || n == 2
    requires |body| >= n && END !in body[..n]
    requires n == 1 ==> body[0] != ESC
    requires n == 2 ==> body[1] == ESC_END || body[1] == ESC_ESC
    ensures Clean(body) <==> Clean(body[n..])
  {
    var tail := body[n..];
    assert body == body[..n] + tail;
    assert forall b :: b in body <==> b in body[..n] || b in tail;
    if HasBadEscape(tail) {
      var i :| 0 <= i < |tail| - 1 && BadEscapeAt(tail, i);
      assert BadEscapeAt(body, i + n);
    }
    if HasBadEscape(body) {
      var i :| 0 <= i < |body| - 1 && BadEscapeAt(body, i);
      assert i >= n;
      assert BadEscapeAt(tail, i - n);
    }
  }

  lemma ReplacePairHere(x: byte, y: byte, rest: bytes, to: byte)
    ensures Replace([x, y] + rest, [x, y], [to]) == [to] + Replace(rest, [x, y], [to])
  {
    var s := [x, y] + rest;
    assert s[..2] == [x, y] && s[2..] == rest;
  }

  lemma ReplacePairSkips(b: byte, rest: bytes, x: byte, y: byte, to: byte)
    requires b != x || (rest != [] ==> rest[0] != y)
    ensures Replace([b] + rest, [x, y], [to]) == [b] + Replace(rest, [x, y], [to])
  {
    var s := [b] + rest;
    if rest == [] {
      assert s == [b];
    } else {
      assert s[..2] == [b, rest[0]] && s[1..] == rest;
    }
  }

  /** On escaped text the two replacement passes of the decoder agree with the one-pass machine. */
  lemma {:induction false} TwoPassesUnescape(s: bytes)
    requires Unescape(s).Some?
    ensures Replace(Replace(s, [ESC, ESC_END], [END]), [ESC, ESC_ESC], [ESC]) == Unescape(s).value
  {
    hide Replace;
    if s == [] {
      ReplaceShort([ESC, ESC_END], [END]);
      ReplaceShort([ESC, ESC_ESC], [ESC]);
    } else if s[0] == ESC {
      var rest := Replace(s[2..], [ESC, ESC_END], [END]);
      TwoPassesUnescape(s[2..]);
      if s[1] == ESC_END {
        assert s == [ESC, ESC_END] + s[2..];
        ReplacePairHere(ESC, ESC_END, s[2..], END);
        ReplacePairSkips(END, rest, ESC, ESC_ESC, ESC);
      } else {
        assert s == [ESC] + ([ESC_ESC] + s[2..]);
        ReplacePairSkips(ESC, [ESC_ESC] + s[2..], ESC, ESC_END, END);
        ReplacePairSkips(ESC_ESC, s[2..], ESC, ESC_END, END);
        assert [ESC] + ([ESC_ESC] + rest) == [ESC, ESC_ESC] + rest;
        ReplacePairHere(ESC, ESC_ESC, rest, ESC);
      }
    } else {
      TwoPassesUnescape(s[1..]);
      assert s == [s[0]] + s[1..];
      ReplacePairSkips(s[0], s[1..], ESC, ESC_END, END);
      ReplacePairSkips(s[0], Replace(s[1..], [ESC, ESC_END], [END]), ESC, ESC_ESC, ESC);
    }
  }

  lemma ReplaceShort(from: bytes, to: bytes)
    requires from != []
    ensures Replace([], from, to) == []
  {
  }

  /** `is_valid` accepts exactly the packets whose END-stripped body is the escaped form of a message. */
  lemma ValidIffEscaped(packet: bytes)
    ensures IsValid(packet) <==> exists msg :: Escape(msg) == Strip(packet)
  {
    CleanIsUnescapable(Strip(packet));
    if IsValid(packet) {
      EscapeUnescape(Strip(packet));
    }
    if msg :| Escape(msg) == Strip(packet) {
      UnescapeEscape(msg);
    }
  }

  /** `decode` is the one-pass machine on the stripped packet, and refuses exactly what it refuses. */
  lemma DecodeIsOnePass(packet: bytes)
    ensures Decode(packet) == match Unescape(Strip(packet))
                              case Some(msg) => Ok(msg)
                              case None => Err(ProtocolError(packet))
  {
    CleanIsUnescapable(Strip(packet));
    if Unescape(Strip(packet)).Some? {
      TwoPassesUnescape(Strip(packet));
    }
  }

  lemma {:induction false} StripRightEnds(s: bytes, n: nat)
    requires END !in s
    ensures StripRight(s + seq(n, _ => END)) == s
  {
    var padded := s + seq(n, _ => END);
    if n == 0 {
      assert padded == s;
    } else {
      assert padded[..|padded| - 1] == s + seq(n - 1, _ => END);
      StripRightEnds(s, n - 1);
    }
  }

  lemma {:induction false} StripLeftEnds(n: nat, s: bytes)
    requires s == [] || s[0] != END
    ensures StripLeft(seq(n, _ => END) + s) == s
  {
    var padded := seq(n, _ => END) + s;
    if n == 0 {
      assert padded == s;
    } else {
      assert padded[1..] == seq(n - 1, _ => END) + s;
      StripLeftEnds(n - 1, s);
    }
  }

  /** Any number of END bytes around an END-free body is removed, and nothing else. */
  lemma StripPadded(before: nat, s: bytes, after: nat)
    requires END !in s
    ensures Strip(seq(before, _ => END) + s + seq(after, _ => END)) == s
  {
    var tail := s + seq(after, _ => END);
    assert seq(before, _ => END) + s + seq(after, _ => END) == seq(before, _ => END) + tail;
    if s == [] {
      var all := seq(before + after, _ => END);
      assert seq(before, _ => END) + tail == all + [];
      StripLeftEnds(before + after, []);
    } else {
      StripLeftEnds(before, tail);
      StripRightEnds(s, after);
    }
  }

  /** The round trip of the codec, on every byte string. */
  lemma DecodeEncode(msg: bytes)
    ensures Decode(Encode(msg)) == Ok(msg)
  {
    EncodeIsOnePass(msg);
    EscapeHasNoEnd(msg);
    assert seq(1, _ => END) == [END];
    StripPadded(1, Escape(msg), 1);
    UnescapeEscape(msg);
    DecodeIsOnePass(Encode(msg));
  }

  /** Encoding what was decoded gives the stripped packet in one pair of END bytes. */
  lemma EncodeDecode(packet: bytes)
    requires IsValid(packet)
    ensures Encode(Decode(packet).value) == [END] + Strip(packet) + [END]
  {
    DecodeIsOnePass(packet);
    EscapeUnescape(Strip(packet));
    EncodeIsOnePass(Decode(packet).value);
  }

  /** Two valid packets carry the same message only if their bodies are equal. */
  lemma DecodeInjective(p: bytes, q: bytes)
    requires IsValid(p) && IsValid(q)
    ensures Decode(p) == Decode(q) <==> Strip(p) == Strip(q)
  {
    DecodeIsOnePass(p);
    DecodeIsOnePass(q);
    EscapeUnescape(Strip(p));
    EscapeUnescape(Strip(q));
  }
}
