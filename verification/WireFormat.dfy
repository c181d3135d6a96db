/**
  The formats of the OSC 1.0 specification and of RFC 1055 and RFC 5905 in literal bytes:
  what every reader makes of the bytes it finds, also where it fails, and which bytes every
  writer writes.  The statements here name numbers where the source has named constants.
*/
module WireFormat {
  import opened Wrappers
  import opened Bytes
  import opened PyValues
  import Ntp
  import opened OscTypes
  import opened OscMessage
  import opened OscMessageBuilder
  import opened InferredArguments
  import opened OscBundle
  import OscBundleBuilder
  import Slip
  import OscTcpServer

  // ----- words

  function Word(a: byte, b: byte, c: byte, e: byte): nat {
    a * 0x100_0000 + b * 0x1_0000 + c * 0x100 + e
  }

  lemma FourBytes(a: byte, b: byte, c: byte, e: byte)
    ensures FromBE([a, b, c, e]) == Word(a, b, c, e) < 0x1_0000_0000
  {
    FourByteWord(a, b, c, e);
  }

  lemma EightBytes(hi: bytes, lo: bytes)
    requires |hi| == 4 && |lo| == 4
    ensures FromBE(hi + lo) == FromBE(hi) * 0x1_0000_0000 + FromBE(lo)
  {
    FromBEAppend(hi, lo);
    Powers();
  }

  lemma {:induction false} FromBEAppend(a: bytes, b: bytes)
    ensures FromBE(a + b) == FromBE(a) * Pow256(|b|) + FromBE(b)
    decreases |b|
  {
    if b == [] {
      assert a + b == a;
    } else {
      var n := |b| - 1;
      assert (a + b)[..|a + b| - 1] == a + b[..n];
      FromBEAppend(a, b[..n]);
      Shifted(FromBE(a), Pow256(n), FromBE(b[..n]), b[n]);
    }
  }

  lemma Shifted(x: nat, p: nat, y: nat, c: nat)
    ensures (x * p + y) * 256 + c == x * (256 * p) + (y * 256 + c)
  {
  }

  /** Four bytes as a signed integer, as a colour, as a MIDI message and as a float. */
  lemma FourBytesRead(d: bytes, i: nat, a: byte, b: byte, c: byte, e: byte)
    requires i + 4 <= |d| && d[i..i + 4] == [a, b, c, e]
    ensures GetInt(d, i) == Got(Word(a, b, c, e) - (if a < 0x80 then 0 else 0x1_0000_0000), i + 4)
    ensures GetRgba(d, i) == Got(Word(a, b, c, e), i + 4)
    ensures GetMidi(d, i) == Got([a, b, c, e], i + 4)
    ensures GetFloat(d, i) == Got([a, b, c, e], i + 4)
  {
    Powers();
    WordAt(d, i, [a, b, c, e]);
    FloatAt(d, i, [a, b, c, e]);
    FourBytes(a, b, c, e);
    MidiParts(a, b, c, e);
    hide FromBE, GetWord, GetFloat, MidiOf;
  }

  /** Eight bytes as a signed integer, as a double, as a time tag in two parts, and as a date. */
  lemma EightBytesRead(d: bytes, i: nat, hi: bytes, lo: bytes)
    requires |hi| == 4 && |lo| == 4 && i + 8 <= |d| && d[i..i + 8] == hi + lo
    ensures var seconds, fraction := FromBE(hi), FromBE(lo);
            && GetInt64(d, i) == Got(seconds * 0x1_0000_0000 + fraction
                                     - (if seconds < 0x8000_0000 then 0 else 0x1_0000_0000_0000_0000), i + 8)
            && GetDouble(d, i) == Got(hi + lo, i + 8)
            && GetTimetag(d, i) == Got(Ntp.Timestamp(seconds, fraction), i + 8)
            && GetDate(d, i) == Got(if seconds == 0 && fraction == 1 then 0.0
                                    else seconds as real + fraction as real / 4294967296.0 - 2208988800.0, i + 8)
  {
    hide FromBE, GetWord, GetDate, Signed, DateOfTag, Ntp.ParseTimestamp;
    EightByteWord(d, i, hi, lo);
    Halves(hi, lo);
  }

  lemma EightByteWord(d: bytes, i: nat, hi: bytes, lo: bytes)
    requires |hi| == 4 && |lo| == 4 && i + 8 <= |d| && d[i..i + 8] == hi + lo
    ensures GetWord(d, i, 8) == Got(hi + lo, i + 8) && GetDate(d, i) == Got(DateOfTag(FromBE(hi + lo)), i + 8)
    ensures FromBE(hi + lo) == FromBE(hi) * 0x1_0000_0000 + FromBE(lo)
  {
    var w := hi + lo;
    assert |w| == 8 && At(d, i, w);
    hide FromBE, GetWord, GetDate, DateOfTag, At;
    WordAt(d, i, w);
    DateWord(d, i, w);
    EightBytes(hi, lo);
  }

  /** What the two halves of a 64-bit word say. */
  lemma Halves(hi: bytes, lo: bytes)
    requires |hi| == 4 && |lo| == 4
    ensures var seconds, fraction := FromBE(hi), FromBE(lo);
            var v := seconds * 0x1_0000_0000 + fraction;
            && Signed(v, 8) == v - (if seconds < 0x8000_0000 then 0 else 0x1_0000_0000_0000_0000)
            && Ntp.ParseTimestamp(v) == Ntp.Timestamp(seconds, fraction)
            && DateOfTag(v) == if seconds == 0 && fraction == 1 then 0.0
                               else seconds as real + fraction as real / 4294967296.0 - 2208988800.0
  {
    Powers();
    ToFromBE(hi);
    ToFromBE(lo);
    hide FromBE;
    var seconds, fraction := FromBE(hi), FromBE(lo);
    var v := seconds * 0x1_0000_0000 + fraction;
    assert v as real == seconds as real * 4294967296.0 + fraction as real;
  }

  /** Words that the datagram is too short for; a float alone is completed with zero bytes. */
  lemma ShortWords(d: bytes, i: nat)
    ensures i + 4 > |d| ==> GetInt(d, i) == Malformed && GetRgba(d, i) == Malformed && GetMidi(d, i) == Malformed
    ensures i + 8 > |d| ==> GetInt64(d, i) == Malformed && GetDouble(d, i) == Malformed
                            && GetTimetag(d, i) == Malformed && GetDate(d, i) == Malformed
    ensures i > |d| ==> GetFloat(d, i) == Malformed
    ensures i <= |d| < i + 4 ==> GetFloat(d, i) == Got(d[i..] + seq(4 - (|d| - i), _ => 0), i + 4)
  {
    hide FromBE, Signed, MidiOf;
    if i <= |d| < i + 4 {
      var missing := 4 - (|d| - i);
      assert (d + Zeros(missing))[i..i + 4] == d[i..] + seq(missing, _ => 0);
    }
  }

  // ----- strings and blobs

  /** The string of `n` bytes that starts at `i`, up to the first zero byte. */
  predicate StringEnds(d: bytes, i: nat, n: nat) {
    i + n < |d| && d[i + n] == 0 && forall k :: i <= k < i + n ==> d[k] != 0
  }

  /** A string is read exactly if a zero byte ends it, and the datagram holds its padding. */
  lemma StringRead(d: bytes, i: nat, n: nat)
    requires StringEnds(d, i, n)
    ensures GetString(d, i) == if i + (n / 4 + 1) * 4 <= |d| then Got(d[i..i + n], i + (n / 4 + 1) * 4) else Malformed
  {
    assert NulIndex(d, i) == i + n;
    assert RoundUp4(n + 1) == (n / 4 + 1) * 4;
  }

  lemma StringHasEnd(d: bytes, i: nat)
    ensures GetString(d, i).Got? ==> exists n: nat :: StringEnds(d, i, n)
  {
    if GetString(d, i).Got? {
      assert StringEnds(d, i, NulIndex(d, i) - i);
    }
  }

  /** The padding of a string: one to four zero bytes. */
  lemma StringWritten(s: bytes)
    ensures var w := WriteString(s);
            && |w| == (|s| / 4 + 1) * 4 && w[..|s|] == s
            && forall k :: |s| <= k < |w| ==> w[k] == 0
  {
  }

  /** A blob by its size as read, when that is not negative; a size that exceeds the datagram is refused. */
  lemma BlobRead(d: bytes, i: nat, size: nat)
    requires GetInt(d, i) == Got(size, i + 4) && i + 4 <= |d|
    ensures GetBlob(d, i) ==
            if i + 4 + size > |d| then Malformed
            else Got(d[i + 4..i + 4 + size], i + 4 + (size + 3) / 4 * 4)
  {
    hide GetInt;
    var n: int := size;
    assert n + -n % 4 == (n + 3) / 4 * 4;
  }

  lemma BlobWritten(b: bytes)
    ensures WriteBlob(b).Some? <==> 0 < |b| < 0x8000_0000
    ensures WriteBlob(b).Some? ==>
              var w := WriteBlob(b).value;
              && |w| == 4 + (|b| + 3) / 4 * 4 && Some(w[..4]) == WriteInt(|b|) && w[4..4 + |b|] == b
              && forall k :: 4 + |b| <= k < |w| ==> w[k] == 0
  {
    IntAt([], 0, |b|);
    IntWidth(|b|);
    hide WriteInt;
    if WriteBlob(b).Some? {
      var size, n := WriteInt(|b|).value, |b|;
      var w := WriteBlob(b).value;
      assert n + -n % 4 == (n + 3) / 4 * 4;
      assert w == size + b + Zeros(-n % 4);
      assert w[..4] == size;
    }
  }

  /** A blob whose size is read as negative: the index moves back by the size, rounded to a multiple of 4. */
  lemma NegativeBlobRead(d: bytes, i: nat, size: int)
    requires GetInt(d, i) == Got(size, i + 4) && i + 4 <= |d| && size < 0
    ensures GetBlob(d, i) == Got(Slice(d, i + 4, i + 4 + size), i + 4 - -size / 4 * 4)
    ensures i + 4 + size >= 0 ==> GetBlob(d, i).value == []
  {
    hide GetInt;
    assert size + -size % 4 == -(-size / 4 * 4);
  }

  // ----- numbers

  /** A 32-bit integer is written in two's complement, the most significant byte first. */
  lemma IntWritten(v: int)
    requires -0x8000_0000 <= v < 0x8000_0000
    ensures var u := if v < 0 then v + 0x1_0000_0000 else v;
            WriteInt(v) == Some([u / 0x100_0000, u / 0x1_0000 % 256, u / 0x100 % 256, u % 256])
  {
    Powers();
    FourDigits(if v < 0 then v + 0x1_0000_0000 else v);
    hide ToBE;
  }

  lemma FourDigits(u: nat)
    requires u < 0x1_0000_0000
    ensures ToBE(u, 4) == [u / 0x100_0000, u / 0x1_0000 % 256, u / 0x100 % 256, u % 256]
  {
    var a, b := u / 256, u / 256 / 256;
    assert a == u / 0x100 && b == u / 0x1_0000 && b / 256 == u / 0x100_0000;
    assert u / 0x100_0000 < 256;
    assert ToBE(b / 256, 1) == [b / 256] by {
      assert ToBE(b / 256 / 256, 0) == [];
    }
    assert ToBE(b, 2) == [b / 256, b % 256];
    assert ToBE(a, 3) == [b / 256, b % 256, a % 256];
  }

  /** A 64-bit integer is written as the words of its high and its low half. */
  lemma Int64Written(v: int)
    requires -0x8000_0000_0000_0000 <= v < 0x8000_0000_0000_0000
    ensures var u := if v < 0 then v + 0x1_0000_0000_0000_0000 else v;
            WriteInt64(v) == Some(ToBE(u / 0x1_0000_0000, 4) + ToBE(u % 0x1_0000_0000, 4))
  {
    Powers();
    EightDigits(if v < 0 then v + 0x1_0000_0000_0000_0000 else v);
    hide ToBE;
  }

  lemma EightDigits(u: nat)
    requires u < 0x1_0000_0000_0000_0000
    ensures ToBE(u, 8) == ToBE(u / 0x1_0000_0000, 4) + ToBE(u % 0x1_0000_0000, 4)
  {
    var hi, lo := ToBE(u / 0x1_0000_0000, 4), ToBE(u % 0x1_0000_0000, 4);
    Powers();
    FromToBE(u / 0x1_0000_0000, 4);
    FromToBE(u % 0x1_0000_0000, 4);
    EightBytes(hi, lo);
    ToFromBE(hi + lo);
  }

  lemma RgbaWritten(v: int)
    ensures WriteRgba(v) == if 0 <= v < 0x1_0000_0000
                            then Some([v / 0x100_0000, v / 0x1_0000 % 256, v / 0x100 % 256, v % 256])
                            else None
  {
    Powers();
    if 0 <= v < 0x1_0000_0000 {
      FourDigits(v);
    }
    hide ToBE;
  }

  lemma MidiWritten(m: seq<int>)
    ensures WriteMidi(m) == if |m| == 4 then Some([m[0] % 256, m[1] % 256, m[2] % 256, m[3] % 256]) else None
  {
    if |m| == 4 {
      MidiBytes(m[0] % 256, m[1] % 256, m[2] % 256, m[3] % 256);
      hide ToBE;
    }
  }

  lemma MidiBytes(a: byte, b: byte, c: byte, e: byte)
    ensures ToBE(a * 0x100_0000 + b * 0x1_0000 + c * 0x100 + e, 4) == [a, b, c, e]
  {
    var v := Word(a, b, c, e);
    FourDigits(v);
    MidiParts(a, b, c, e);
    assert MidiOf(v)[0] == v / 0x100_0000;
    hide ToBE;
  }

  /**
    IMMEDIATELY is the time tag of seven zero bytes and a one.  Other dates are counted in ticks
    from 1900, 2208988800 seconds before the Unix epoch, truncated towards zero; the tick count
    must fit eight bytes.
  */
  lemma DateWritten(s: real)
    ensures WriteDate(0.0) == Some([0, 0, 0, 0, 0, 0, 0, 1])
    ensures s != 0.0 ==>
              var ticks := (s + 2208988800.0) * 4294967296.0;
              WriteDate(s) == if ticks <= -1.0 || ticks >= 18446744073709551616.0 then None
                              else Some(ToBE(if ticks < 0.0 then 0 else ticks.Floor, 8))
  {
    EightDigits(1);
    FourDigits(0);
    FourDigits(1);
    hide ToBE;
    var zeros, one: bytes := [0, 0, 0, 0], [0, 0, 0, 1];
    assert zeros + one == [0, 0, 0, 0, 0, 0, 0, 1];
  }

  // ----- type tags

  /** What a reader's result is as a parameter: a value with the index after it, or a failure. */
  function Read<T>(r: OscTypes.Read<T>, wrap: T -> Value): Arg {
    match r
    case Malformed => Unreadable
    case Got(v, next) => Param(wrap(v), next)
  }

  /** The tags i, h, r and m; f and d; s and b; t; T, F and N; every other byte is skipped. */
  lemma TagsRead(d: bytes, i: int)
    ensures ReadArg(d, 0x69, i) == Read(GetInt(d, i), v => Int(v))
    ensures ReadArg(d, 0x68, i) == Read(GetInt64(d, i), v => Int(v))
    ensures ReadArg(d, 0x72, i) == Read(GetRgba(d, i), v => Int(v))
    ensures ReadArg(d, 0x6D, i) == Read(GetMidi(d, i), m => IntTuple(m))
    ensures ReadArg(d, 0x73, i) == Read(GetString(d, i), s => Str(s))
    ensures ReadArg(d, 0x62, i) == Read(GetBlob(d, i), b => Blob(b))
    ensures ReadArg(d, 0x54, i) == Param(Bool(true), i)
    ensures ReadArg(d, 0x46, i) == Param(Bool(false), i)
    ensures ReadArg(d, 0x4E, i) == Param(Nil, i)
  {
    hide GetInt, GetInt64, GetRgba, GetMidi, GetString, GetBlob;
  }

  lemma FloatTagsRead(d: bytes, i: int)
    ensures GetFloat(d, i).Malformed? ==> ReadArg(d, 0x66, i) == Unreadable
    ensures GetFloat(d, i).Got? ==> ReadArg(d, 0x66, i) == Param(Float(GetFloat(d, i).value), GetFloat(d, i).next)
    ensures GetDouble(d, i).Malformed? ==> ReadArg(d, 0x64, i) == Unreadable
    ensures GetDouble(d, i).Got? ==> ReadArg(d, 0x64, i) == Param(Double(GetDouble(d, i).value), GetDouble(d, i).next)
  {
  }

  /** A time tag is a pair of the seconds and the fraction, the halves of its eight bytes. */
  lemma TimetagRead(d: bytes, i: nat)
    ensures i + 8 > |d| ==> ReadArg(d, 0x74, i) == Unreadable
    ensures i + 8 <= |d| ==>
              ReadArg(d, 0x74, i) == Param(Tuple([Date(FromBE(d[i..i + 4])), Int(FromBE(d[i + 4..i + 8]))]), i + 8)
  {
    if i + 8 <= |d| {
      assert d[i..i + 8] == d[i..i + 4] + d[i + 4..i + 8];
      EightBytesRead(d, i, d[i..i + 4], d[i + 4..i + 8]);
    } else {
      ShortWords(d, i);
    }
    hide GetTimetag;
  }

  lemma OtherTagsSkipped(d: bytes, tag: byte, i: int)
    requires tag !in [0x69, 0x68, 0x66, 0x64, 0x73, 0x62, 0x72, 0x6D, 0x74, 0x54, 0x46, 0x4E]
    ensures ReadArg(d, tag, i) == Unhandled
  {
  }

  /** A MIDI message is a tuple of its four integers. */
  lemma MidiValue(a: int, b: int, c: int, e: int)
    ensures IntTuple([a, b, c, e]) == Tuple([Int(a), Int(b), Int(c), Int(e)])
  {
    assert seq(4, k requires 0 <= k < 4 => Int([a, b, c, e][k])) == [Int(a), Int(b), Int(c), Int(e)];
  }

  /** A tag that is no bracket adds its value, fails with its reader, or is passed over. */
  lemma SequenceTag(d: bytes, tag: byte, tags: bytes, i: int)
    requires tag != 0x5B && tag != 0x5D
    ensures var arg := ReadArg(d, tag, i);
            Sequence(d, [tag] + tags, i) ==
            if arg.Unreadable? then Failed(Incorrect)
            else if arg.Unhandled? then Sequence(d, tags, i)
            else Prepend([arg.value], Sequence(d, tags, arg.next))
  {
    hide ReadArg;
    assert ([tag] + tags)[1..] == tags;
  }

  /** An opening bracket starts a list, which the next closing bracket of its level ends. */
  lemma SequenceBrackets(d: bytes, tags: bytes, i: int)
    ensures Sequence(d, [0x5D] + tags, i) == Parsed([], [0x5D] + tags, i)
    ensures var inner := Sequence(d, tags, i);
            Sequence(d, [0x5B] + tags, i) ==
            if inner.Failed? then inner
            else if inner.rest == [] then Failed(MissingBracket)
            else Prepend([List(inner.values)], Sequence(d, inner.rest[1..], inner.next))
    ensures Sequence(d, [], i) == Parsed([], [], i)
  {
    assert ([0x5B] + tags)[1..] == tags;
  }

  /** Where `s` stands in the type tags, the parameter is the string at the index. */
  lemma StringTag(d: bytes, tags: bytes, i: nat, n: nat)
    requires StringEnds(d, i, n)
    ensures var next := i + (n / 4 + 1) * 4;
            Sequence(d, [0x73] + tags, i) ==
            if next <= |d| then Prepend([Str(d[i..i + n])], Sequence(d, tags, next)) else Failed(Incorrect)
  {
    hide Sequence, ReadArg, GetString, StringEnds, Prepend;
    SequenceTag(d, 0x73, tags, i);
    TagsRead(d, i);
    StringRead(d, i, n);
  }

  /** Where `i` stands in the type tags, the parameter is the signed integer of the next four bytes. */
  lemma IntTag(d: bytes, tags: bytes, i: nat, a: byte, b: byte, c: byte, e: byte)
    requires i + 4 <= |d| && d[i..i + 4] == [a, b, c, e]
    ensures var v := Word(a, b, c, e) - (if a < 0x80 then 0 else 0x1_0000_0000);
            Sequence(d, [0x69] + tags, i) == Prepend([Int(v)], Sequence(d, tags, i + 4))
  {
    SequenceTag(d, 0x69, tags, i);
    TagsRead(d, i);
    FourBytesRead(d, i, a, b, c, e);
    hide Sequence, ReadArg, GetInt;
  }

  // ----- messages

  /** An address alone is a message without parameters; otherwise the type tags must start with a comma. */
  lemma MessageForms(d: bytes)
    ensures var address := GetString(d, 0);
            && (address.Malformed? ==> ParseMessage(d) == Err(Incorrect))
            && (address.Got? && address.next >= |d| ==> ParseMessage(d) == Ok(Message(d, address.value, [])))
            && (address.Got? && address.next < |d| ==>
                  var tags := GetString(d, address.next);
                  && (tags.Malformed? ==> ParseMessage(d) == Err(Incorrect))
                  && (tags.Got? && !(tags.value != [] && tags.value[0] == 0x2C) ==> ParseMessage(d) == Err(NoComma))
                  && (tags.Got? && tags.value != [] && tags.value[0] == 0x2C ==>
                        var r := Sequence(d, tags.value[1..], tags.next);
                        ParseMessage(d) == if r.Failed? then Err(r.fault)
                                           else if r.rest == [] then Ok(Message(d, address.value, r.values))
                                           else Err(UnexpectedBracket)))
  {
    hide Sequence, NulIndex;
  }

  /** A datagram is taken for a message if it starts with a slash. */
  lemma MessageStart(d: bytes)
    ensures DgramIsMessage(d) <==> d != [] && d[0] == 0x2F
  {
  }

  /** A string that is written at an index is the one read there. */
  lemma StringStands(d: bytes, i: nat, s: bytes)
    requires At(d, i, WriteString(s)) && 0 !in s
    ensures StringEnds(d, i, |s|) && i + (|s| / 4 + 1) * 4 <= |d| && d[i..i + |s|] == s
  {
    StringWritten(s);
    ScanStops(d, i, s);
    StringAt(d, i, s);
    StringRead0(d, i, s);
  }

  lemma StringRead0(d: bytes, i: nat, s: bytes)
    requires At(d, i, WriteString(s)) && 0 !in s
    ensures StringEnds(d, i, |s|)
  {
    var w := WriteString(s);
    assert d[i + |s|] == d[i..i + |w|][|s|] == 0;
    forall k | i <= k < i + |s|
      ensures d[k] != 0
    {
      assert d[k] == d[i..i + |w|][k - i] == s[k - i];
    }
  }

  /**
    What the plugin sends: the address `/loopercontrol`, the type tags `,s`, and one string.
  */
  lemma PluginMessage(json: bytes)
    requires 0 !in json
    ensures var address := [0x2F, 0x6C, 0x6F, 0x6F, 0x70, 0x65, 0x72, 0x63, 0x6F, 0x6E, 0x74, 0x72, 0x6F, 0x6C];
            var d := address + [0, 0] + [0x2C, 0x73, 0, 0] + WriteString(json);
            ParseMessage(d) == Ok(Message(d, address, [Str(json)]))
  {
    var address: bytes := [0x2F, 0x6C, 0x6F, 0x6F, 0x70, 0x65, 0x72, 0x63, 0x6F, 0x6E, 0x74, 0x72, 0x6F, 0x6C];
    var d: bytes := address + [0, 0] + [0x2C, 0x73, 0, 0] + WriteString(json);
    PluginHeader(d, address, WriteString(json));
    StringStands(d, 20, json);
    hide WriteString, StringEnds, GetString;
    OneString(d, address, 16, 20, json);
  }

  lemma PluginHeader(d: bytes, address: bytes, payload: bytes)
    requires address == [0x2F, 0x6C, 0x6F, 0x6F, 0x70, 0x65, 0x72, 0x63, 0x6F, 0x6E, 0x74, 0x72, 0x6F, 0x6C]
    requires d == address + [0, 0] + [0x2C, 0x73, 0, 0] + payload
    ensures GetString(d, 0) == Got(address, 16) && GetString(d, 16) == Got([0x2C, 0x73], 20)
    ensures At(d, 20, payload) && |d| == 20 + |payload|
  {
    hide GetString;
    assert StringEnds(d, 0, 14) && StringEnds(d, 16, 2);
    StringRead(d, 0, 14);
    StringRead(d, 16, 2);
    assert d[0..14] == address && d[16..18] == [0x2C, 0x73];
  }

  /** A message whose type tags are `,s`. */
  lemma OneString(d: bytes, address: bytes, i: nat, j: nat, s: bytes)
    requires GetString(d, 0) == Got(address, i) && i < |d| && GetString(d, i) == Got([0x2C, 0x73], j)
    requires StringEnds(d, j, |s|) && j + (|s| / 4 + 1) * 4 <= |d| && d[j..j + |s|] == s
    ensures ParseMessage(d) == Ok(Message(d, address, [Str(s)]))
  {
    hide GetString, ParseMessage, Sequence, StringEnds;
    var tags: bytes := [0x2C, 0x73];
    MessageForms(d);
    StringTag(d, [], j, |s|);
    SequenceBrackets(d, [], j + (|s| / 4 + 1) * 4);
    assert tags[1..] == [0x73] + [];
    assert [Str(s)] + [] == [Str(s)];
  }

  // ----- entries of arguments

  /** The type tag of an argument without a type. */
  lemma InferredEntry(v: Value)
    requires !v.List?
    ensures AddArg(v, None) ==
            if v.Date? || (v.Tuple? && |v.items| != 4) then Added([], false)
            else Added([Entry(if v.Str? then 0x73
                              else if v.Blob? then 0x62
                              else if v.Bool? then (if v.truth then 0x54 else 0x46)
                              else if v.Nil? then 0x4E
                              else if v.Int? then (if -0x8000_0000 < v.i < 0x8000_0000 then 0x69 else 0x68)
                              else if v.Tuple? then 0x6D
                              else 0x66, v)], true)
  {
    if v.Int? {
      PickedTypePacks(v.i);
    }
  }

  /** A list without a type: its items between brackets, or nothing at all if one of them has no type. */
  lemma ListEntries(items: seq<Value>)
    ensures var inner := AddAll(items);
            AddArg(List(items), None) ==
            if inner.ok then Added([Entry(0x5B, Nil)] + inner.entries + [Entry(0x5D, Nil)], true) else Added([], false)
  {
    hide InferType;
    InferredTyped(items);
    ItemsTyped(items);
    ListTyped(items);
    AddAllFlattens(items);
    AddArgFlattens(List(items), None);
    if TypedArgs(items).Some? {
      GroupAlone(TypedArgs(items).value);
    } else {
      UntypedList(items);
    }
  }

  /** Every value with an inferred type has a tree. */
  lemma {:induction false} InferredTyped(vs: seq<Value>)
    ensures InferTypes(vs).Some? ==> TypedArgs(vs).Some?
  {
    if vs != [] && InferTypes(vs).Some? {
      InferredTyped(vs[1..]);
      if vs[0].List? {
        InferredTyped(vs[0].items);
        ListTyped(vs[0].items);
        assert vs[0] == List(vs[0].items);
      }
    }
  }

  lemma UntypedList(items: seq<Value>)
    requires InferTypes(items).None?
    ensures AddArg(List(items), None) == Added([], false)
  {
  }

  lemma GroupAlone(ws: seq<Wire>)
    ensures Flatten([Group(ws)]) == [Entry(0x5B, Nil)] + Flatten(ws) + [Entry(0x5D, Nil)]
  {
    var none: seq<Wire> := [Group(ws)][1..];
    assert none == [];
  }

  /** A type given as a tag must be one of those that can be written. */
  lemma ExplicitEntry(v: Value, tag: byte)
    ensures AddArg(v, Some(Code(tag))) ==
            if tag in [0x66, 0x64, 0x69, 0x68, 0x62, 0x73, 0x72, 0x6D, 0x54, 0x46, 0x4E]
            then Added([Entry(tag, v)], true) else Added([], false)
  {
  }

  /** An empty list of types counts as no type; items and types are paired up to the end of the shorter list. */
  lemma ExplicitEntries(v: Value, types: seq<ArgType>)
    ensures AddArg(v, Some(Many([]))) == AddArg(v, None)
    ensures types != [] && (exists k :: 0 <= k < |types| && !ValidType(types[k])) ==>
              AddArg(v, Some(Many(types))) == Added([], false)
    ensures types != [] && (forall k :: 0 <= k < |types| ==> ValidType(types[k])) && Items(v).Some? ==>
              var n := if |Items(v).value| < |types| then |Items(v).value| else |types|;
              var inner := AddArgs(Items(v).value[..n], types[..n]);
              AddArg(v, Some(Many(types))) ==
              Added([Entry(0x5B, Nil)] + inner.entries + (if inner.ok then [Entry(0x5D, Nil)] else []), inner.ok)
  {
    hide ValidType, Items, InferType;
    assert ValidType(Many(types)) <==> forall k :: 0 <= k < |types| ==> ValidType(types[k]) by {
      ValidTypes(types);
    }
    if types != [] && ValidType(Many(types)) && Items(v).Some? {
      ZipStops(Items(v).value, types);
    }
    hide AddArgs;
  }

  /** A list of types for a value that has no items leaves its opening bracket behind. */
  lemma NoItems(v: Value, types: seq<ArgType>)
    requires types != [] && ValidType(Many(types)) && Items(v).None?
    ensures AddArg(v, Some(Many(types))) == Added([Entry(0x5B, Nil)], false)
  {
    hide ValidType, Items;
  }

  /** What Python iterates over: items, characters, and the numbers of bytes. */
  lemma ItemsOf(v: Value)
    ensures v.List? || v.Tuple? ==> Items(v) == Some(v.items)
    ensures v.Str? ==> Items(v).Some? && |Items(v).value| == |v.s|
                       && forall k :: 0 <= k < |v.s| ==> Items(v).value[k] == Str([v.s[k]])
    ensures v.Blob? ==> Items(v).Some? && |Items(v).value| == |v.b|
                        && forall k :: 0 <= k < |v.b| ==> Items(v).value[k] == Int(v.b[k])
    ensures !(v.List? || v.Tuple? || v.Str? || v.Blob?) ==> Items(v) == None
  {
  }

  lemma ValidTypes(types: seq<ArgType>)
    ensures ValidType(Many(types)) <==> forall k :: 0 <= k < |types| ==> ValidType(types[k])
  {
  }

  lemma {:induction false} ZipStops(vs: seq<Value>, ts: seq<ArgType>)
    ensures var n := if |vs| < |ts| then |vs| else |ts|;
            AddArgs(vs, ts) == AddArgs(vs[..n], ts[..n])
  {
    hide AddArg;
    if vs != [] && ts != [] {
      var n := if |vs| < |ts| then |vs| else |ts|;
      ZipStops(vs[1..], ts[1..]);
      assert vs[..n][1..] == vs[1..][..n - 1] && ts[..n][1..] == ts[1..][..n - 1];
    }
  }

  /** Arguments added one by one append their entries one after the other, up to the first that fails. */
  lemma {:induction false} AddAllAppend(a: seq<Value>, b: seq<Value>)
    ensures AddAll(a).ok ==> AddAll(a + b) == Added(AddAll(a).entries + AddAll(b).entries, AddAll(b).ok)
    ensures !AddAll(a).ok ==> AddAll(a + b) == AddAll(a)
  {
    hide AddArg;
    if a == [] {
      assert a + b == b;
    } else {
      assert (a + b)[1..] == a[1..] + b;
      AddAllAppend(a[1..], b);
      var first := AddArg(a[0], None).entries;
      assert first + (AddAll(a[1..]).entries + AddAll(b).entries) == first + AddAll(a[1..]).entries + AddAll(b).entries;
    }
  }

  // ----- payloads

  /** The payloads of the tags; a value of the wrong kind cannot be written. */
  lemma PayloadWritten(v: Value)
    ensures WriteArg(0x73, v) == if v.Str? then Some(WriteString(v.s)) else None
    ensures WriteArg(0x62, v) == if v.Blob? then WriteBlob(v.b) else None
    ensures WriteArg(0x66, v) == if v.Float? then Some(v.single) else None
    ensures WriteArg(0x64, v) == if v.Double? then Some(v.double) else None
    ensures forall tag: byte :: tag in [0x54, 0x46, 0x4E, 0x5B, 0x5D] ==> WriteArg(tag, v) == Some([])
  {
    hide WriteBlob, WriteString;
  }

  /** The integer tags also take Python's booleans, as 1 and 0. */
  lemma IntegerWritten(v: Value)
    ensures v.Int? ==> WriteArg(0x69, v) == WriteInt(v.i) && WriteArg(0x68, v) == WriteInt64(v.i)
                       && WriteArg(0x72, v) == WriteRgba(v.i)
    ensures v.Bool? ==> WriteArg(0x69, v) == WriteInt(if v.truth then 1 else 0)
    ensures !v.Int? && !v.Bool? ==> WriteArg(0x69, v) == None && WriteArg(0x68, v) == None && WriteArg(0x72, v) == None
  {
    hide WriteInt, WriteInt64, WriteRgba;
  }

  lemma MidiEntryWritten(a: int, b: int, c: int, e: int)
    ensures WriteArg(0x6D, Tuple([Int(a), Int(b), Int(c), Int(e)])) == Some([a % 256, b % 256, c % 256, e % 256])
  {
    MidiWritten([a, b, c, e]);
    FourInts(a, b, c, e);
    hide WriteMidi, Ints;
  }

  lemma FourInts(a: int, b: int, c: int, e: int)
    ensures Ints([Int(a), Int(b), Int(c), Int(e)]) == Some([a, b, c, e])
  {
    var none: seq<Value> := [];
    assert [Int(a), Int(b), Int(c), Int(e)] == [Int(a)] + ([Int(b)] + ([Int(c)] + ([Int(e)] + none)));
    IntsCons(e, none);
    IntsCons(c, [Int(e)] + none);
    IntsCons(b, [Int(c)] + ([Int(e)] + none));
    IntsCons(a, [Int(b)] + ([Int(c)] + ([Int(e)] + none)));
    assert [a] + ([b] + ([c] + ([e] + []))) == [a, b, c, e];
  }

  lemma IntsCons(i: int, rest: seq<Value>)
    ensures Ints([Int(i)] + rest) == if Ints(rest).Some? then Some([i] + Ints(rest).value) else None
    ensures Ints([]) == Some([])
  {
    assert ([Int(i)] + rest)[1..] == rest;
  }

  // ----- built messages

  /** A datagram is the padded address, the padded type tags after a comma, and the payloads. */
  lemma BuiltLayout(address: bytes, entries: seq<Entry>)
    ensures var d := BuildDgram(Some(address), entries);
            && (d.Ok? <==> address != [] && WriteArgs(entries).Some?)
            && (address == [] ==> d == Err(EmptyAddress))
            && (d.Ok? ==> d.value == WriteString(address) + WriteString([0x2C] + EntryTags(entries))
                                     + WriteArgs(entries).value)
    ensures forall k :: 0 <= k < |entries| ==> EntryTags(entries)[k] == entries[k].tag
    ensures BuildDgram(None, entries) == Err(EmptyAddress)
  {
    hide WriteArgs, WriteString;
    TagsOfEntries(entries);
  }

  lemma {:induction false} TagsOfEntries(entries: seq<Entry>)
    ensures forall k :: 0 <= k < |entries| ==> EntryTags(entries)[k] == entries[k].tag
  {
    if entries != [] {
      TagsOfEntries(entries[1..]);
    }
  }

  /** A message of one argument has a comma and its tag after the padded address, and then its payload. */
  lemma OneArgument(address: bytes, e: Entry)
    requires address != [] && WriteArg(e.tag, e.value).Some?
    ensures BuildDgram(Some(address), [e]) ==
            Ok(WriteString(address) + [0x2C, e.tag, 0, 0] + WriteArg(e.tag, e.value).value)
  {
    BuiltLayout(address, [e]);
    WriteArgsOne(e);
    EntryTagsOne(e);
    assert [0x2C] + [e.tag] == [0x2C, e.tag];
    PaddedPair(0x2C, e.tag);
    hide WriteArg, WriteString, WriteArgs;
  }

  lemma PaddedPair(a: byte, b: byte)
    ensures WriteString([a, b]) == [a, b, 0, 0]
  {
  }

  /** A message that is built for one string has the type tags `,s`. */
  lemma BuiltString(address: bytes, s: bytes)
    requires address != []
    ensures BuildDgram(Some(address), AddAll([Str(s)]).entries) ==
            Ok(WriteString(address) + [0x2C, 0x73, 0, 0] + WriteString(s))
  {
    OneAdded(Str(s));
    InferredEntry(Str(s));
    PayloadWritten(Str(s));
    OneArgument(address, Entry(0x73, Str(s)));
    hide WriteArg, WriteString, BuildDgram, AddArg, AddAll;
  }

  lemma OneAdded(v: Value)
    ensures AddAll([v]) == AddArg(v, None)
  {
    hide AddArg;
    var none: seq<Value> := [v][1..];
    assert none == [] && AddAll(none) == Added([], true);
    assert AddArg(v, None).entries + [] == AddArg(v, None).entries;
  }

  // ----- normal forms

  /** What values come back as: MIDI bytes modulo 256, at any depth, and everything else as it was. */
  lemma NormalForms(v: Value, items: seq<Value>, a: int, b: int, c: int, e: int)
    ensures !v.Tuple? && !v.List? ==> Normal(v) == v
    ensures Normal(List(items)) == List(Normals(items))
    ensures Normal(Tuple([Int(a), Int(b), Int(c), Int(e)])) ==
            Tuple([Int(a % 256), Int(b % 256), Int(c % 256), Int(e % 256)])
  {
    FourInts(a, b, c, e);
    hide Ints;
    var m := [a, b, c, e];
    assert seq(4, k requires 0 <= k < 4 => m[k] % 256) == [a % 256, b % 256, c % 256, e % 256];
    MidiValue(a % 256, b % 256, c % 256, e % 256);
  }

  lemma {:induction false} NormalsAt(vs: seq<Value>)
    ensures |Normals(vs)| == |vs| && forall k :: 0 <= k < |vs| ==> Normals(vs)[k] == Normal(vs[k])
  {
    hide Normal;
    if vs != [] {
      NormalsAt(vs[1..]);
    }
  }

  // ----- bundles

  /** A bundle is `#bundle` with a zero byte, the time tag, and the elements with their sizes in front. */
  lemma BundleWritten(timestamp: real, es: seq<Element>)
    ensures var d := OscBundleBuilder.BundleDgram(timestamp, es);
            && (d.Some? <==> WriteDate(timestamp).Some? && OscBundleBuilder.WriteElements(es).Some?)
            && (d.Some? ==> d.value == [0x23, 0x62, 0x75, 0x6E, 0x64, 0x6C, 0x65, 0x00] + WriteDate(timestamp).value
                                       + OscBundleBuilder.WriteElements(es).value)
  {
    hide WriteDate, OscBundleBuilder.WriteElements;
  }

  lemma ElementsWritten(es: seq<Element>, e: Element)
    ensures OscBundleBuilder.WriteElements([]) == Some([])
    ensures var before, size := OscBundleBuilder.WriteElements(es), WriteInt(|Dgram(e)|);
            OscBundleBuilder.WriteElements(es + [e]) ==
            if before.Some? && size.Some? then Some(before.value + (size.value + Dgram(e))) else None
  {
    OscBundleBuilder.WriteElementsAppend(es, [e]);
    OscBundleBuilder.WriteElementsOne(e);
    hide WriteInt, Dgram;
  }

  /** A message named `foo`, without a slash, is dropped from a bundle. */
  lemma FooDropped()
    ensures ParseContent([0x66, 0x6F, 0x6F, 0, 0x2C, 0, 0, 0]) == Dropped
  {
    var c: bytes := [0x66, 0x6F, 0x6F, 0, 0x2C, 0, 0, 0];
    assert c[..8][0] == 0x66;
    ContentIs(c);
    hide ParseContent;
  }

  // ----- length prefixes

  /** The length of a datagram stands in front of it in four bytes, the most significant first. */
  lemma PrefixBytes(d: bytes, rest: seq<bytes>)
    requires |d| < 0x1_0000_0000 && OscTcpServer.Short(rest)
    ensures OscTcpServer.Short([d] + rest) && OscTcpServer.Prefixed([]) == []
    ensures OscTcpServer.Prefixed([d] + rest) ==
            [|d| / 0x100_0000, |d| / 0x1_0000 % 256, |d| / 0x100 % 256, |d| % 256] + d + OscTcpServer.Prefixed(rest)
  {
    FourDigits(|d|);
    assert ([d] + rest)[1..] == rest;
    hide ToBE;
  }

  // ----- slices

  /** Python counts negative bounds from the end, and clamps all bounds to the string. */
  lemma SliceBounds(s: bytes, a: nat, b: nat)
    requires a <= b <= |s|
    ensures Slice(s, a, b) == s[a..b]
    ensures b < |s| ==> Slice(s, a - |s|, b - |s|) == s[a..b] && From(s, a - |s|) == s[a..]
    ensures Slice(s, a, |s| + b) == s[a..] && From(s, |s| + b) == [] && From(s, a) == s[a..]
    ensures a < b ==> Slice(s, b, a) == []
    ensures b < |s| ==> Slice(s, -|s| - a, b) == s[..b]
  {
    assert s[|s|..] == [];
  }

  // ----- SLIP

  /** The bytes C0 and DB are sent as DB DC and DB DD, between two bytes C0. */
  lemma SlipBytes(msg: bytes)
    ensures Slip.Encode([]) == [0xC0, 0xC0]
    ensures msg != [] ==>
              Slip.Encode(msg) == [0xC0] + (if msg[0] == 0xC0 then [0xDB, 0xDC]
                                            else if msg[0] == 0xDB then [0xDB, 0xDD]
                                            else [msg[0]]) + Slip.Encode(msg[1..])[1..]
  {
    hide Slip.Encode, Slip.EscapeByte;
    Slip.EncodeIsOnePass([]);
    Slip.EncodeIsOnePass(msg);
    if msg != [] {
      Slip.EncodeIsOnePass(msg[1..]);
      EscapedByte(msg[0]);
      Framed(Slip.EscapeByte(msg[0]), Slip.Escape(msg[1..]));
    }
  }

  lemma EscapedByte(b: byte)
    ensures Slip.EscapeByte(b) == if b == 0xC0 then [0xDB, 0xDC] else if b == 0xDB then [0xDB, 0xDD] else [b]
  {
  }

  lemma Framed(a: bytes, b: bytes)
    ensures [0xC0] + (a + b) + [0xC0] == [0xC0] + a + ([0xC0] + b + [0xC0])[1..]
  {
  }
}
