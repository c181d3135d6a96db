/**
  parsing/osc_types.py: the readers and writers of the atomic OSC types (OSC 1.0
  specification, section "Atomic Data Types").

  A reader gives the value and the index after it, or Malformed where the source raises
  ParseError.  Indexes are integers of either sign and slices are Python's, because a
  negative blob size moves the index back.  A writer gives None where the source raises.
*/
module OscTypes {
  import opened Wrappers
  import opened Bytes
  import Ntp

  datatype Read<+T> = Got(value: T, next: int) | Malformed

  // ----- fixed-size words

  /** The length test, then `struct.unpack` of the slice, which needs all `n` bytes. */
  function GetWord(d: bytes, i: int, n: nat): Read<bytes> {
    var w := Slice(d, i, i + n);
    if |From(d, i)| < n || |w| != n then Malformed else Got(w, i + n)
  }

  lemma WordAt(d: bytes, i: int, w: bytes)
    requires At(d, i, w)
    ensures GetWord(d, i, |w|) == Got(w, i + |w|)
  {
  }

  function Signed(v: nat, n: nat): int {
    if 2 * v < Pow256(n) then v else v - Pow256(n)
  }

  function PackSigned(v: int, n: nat): Option<bytes> {
    if -2 * v <= Pow256(n) && 2 * v < Pow256(n)
    then Some(ToBE(if v < 0 then v + Pow256(n) else v, n))
    else None
  }

  lemma SignedPack(v: int, n: nat)
    requires PackSigned(v, n).Some?
    ensures Signed(FromBE(PackSigned(v, n).value), n) == v
  {
    FromToBE(if v < 0 then v + Pow256(n) else v, n);
  }

  lemma PackOfSigned(w: bytes)
    requires w != []
    ensures PackSigned(Signed(FromBE(w), |w|), |w|) == Some(w)
  {
    ToFromBE(w);
  }

  function GetSigned(d: bytes, i: int, n: nat): Read<int> {
    match GetWord(d, i, n)
    case Malformed => Malformed
    case Got(w, next) => Got(Signed(FromBE(w), n), next)
  }

  function GetInt(d: bytes, i: int): Read<int> { GetSigned(d, i, 4) }
  function GetInt64(d: bytes, i: int): Read<int> { GetSigned(d, i, 8) }
  function WriteInt(v: int): Option<bytes> { PackSigned(v, 4) }
  function WriteInt64(v: int): Option<bytes> { PackSigned(v, 8) }

  lemma IntWidth(v: int)
    ensures WriteInt(v).Some? ==> |WriteInt(v).value| == 4
  {
  }

  /** The 32-bit and 64-bit codecs give back every integer they accept, at any offset. */
  lemma IntAt(d: bytes, i: int, v: int)
    ensures WriteInt(v).Some? <==> -0x8000_0000 <= v < 0x8000_0000
    ensures WriteInt(v).Some? && At(d, i, WriteInt(v).value) ==> GetInt(d, i) == Got(v, i + 4)
  {
    Powers();
    if WriteInt(v).Some? && At(d, i, WriteInt(v).value) {
      SignedPack(v, 4);
      WordAt(d, i, WriteInt(v).value);
    }
  }

  lemma Int64At(d: bytes, i: int, v: int)
    ensures WriteInt64(v).Some? <==> -0x8000_0000_0000_0000 <= v < 0x8000_0000_0000_0000
    ensures WriteInt64(v).Some? && At(d, i, WriteInt64(v).value) ==> GetInt64(d, i) == Got(v, i + 8)
  {
    Powers();
    if WriteInt64(v).Some? && At(d, i, WriteInt64(v).value) {
      SignedPack(v, 8);
      WordAt(d, i, WriteInt64(v).value);
    }
  }

  /** An rgba value is an unsigned 32-bit integer. */
  function GetRgba(d: bytes, i: int): Read<int> {
    match GetWord(d, i, 4)
    case Malformed => Malformed
    case Got(w, next) => Got(FromBE(w), next)
  }

  function WriteRgba(v: int): Option<bytes> {
    if 0 <= v < Pow256(4) then Some(ToBE(v, 4)) else None
  }

  lemma RgbaAt(d: bytes, i: int, v: int)
    requires WriteRgba(v).Some? && At(d, i, WriteRgba(v).value)
    ensures GetRgba(d, i) == Got(v, i + 4)
  {
    FromToBE(v, 4);
    WordAt(d, i, WriteRgba(v).value);
  }

  /** A float cut short by the end of the datagram is completed with zero bytes. */
  function GetFloat(d: bytes, i: int): (r: Read<bytes>)
    ensures r.Got? ==> |r.value| == 4
  {
    var missing := 4 - |From(d, i)|;
    var padded := if missing > 0 then d + Zeros(missing) else d;
    var w := Slice(padded, i, i + 4);
    if |w| != 4 then Malformed else Got(w, i + 4)
  }

  function GetDouble(d: bytes, i: int): (r: Read<bytes>)
    ensures r.Got? ==> |r.value| == 8
  {
    GetWord(d, i, 8)
  }

  lemma FloatAt(d: bytes, i: int, w: bytes)
    requires |w| == 4 && At(d, i, w)
    ensures GetFloat(d, i) == Got(w, i + 4)
  {
  }

  // ----- MIDI messages: four bytes in one word

  function WriteMidi(val: seq<int>): Option<bytes> {
    if |val| != 4 then None
    else Some(ToBE(val[0] % 256 * 0x100_0000 + val[1] % 256 * 0x1_0000 + val[2] % 256 * 0x100 + val[3] % 256, 4))
  }

  function MidiOf(v: nat): (m: seq<int>)
    ensures |m| == 4 && forall k :: 0 <= k < 4 ==> 0 <= m[k] < 256
  {
    [v / 0x100_0000 % 256, v / 0x1_0000 % 256, v / 0x100 % 256, v % 256]
  }

  function GetMidi(d: bytes, i: int): Read<seq<int>> {
    match GetWord(d, i, 4)
    case Malformed => Malformed
    case Got(w, next) => Got(MidiOf(FromBE(w)), next)
  }

  lemma MidiParts(a: byte, b: byte, c: byte, e: byte)
    ensures MidiOf(a * 0x100_0000 + b * 0x1_0000 + c * 0x100 + e) == [a, b, c, e]
  {
    var v := a * 0x100_0000 + b * 0x1_0000 + c * 0x100 + e;
    assert v / 0x100_0000 == a;
    assert v / 0x1_0000 == a * 256 + b;
    assert v / 0x100 == (a * 256 + b) * 256 + c;
  }

  lemma MidiWhole(v: nat)
    requires v < 0x1_0000_0000
    ensures var m := MidiOf(v);
            v == m[0] * 0x100_0000 + m[1] * 0x1_0000 + m[2] * 0x100 + m[3]
  {
    var c := v / 0x100;
    var b := c / 0x100;
    assert v / 0x1_0000 == b && v / 0x100_0000 == b / 0x100;
  }

  lemma MidiAt(d: bytes, i: int, m: seq<int>)
    requires |m| == 4 && At(d, i, WriteMidi(m).value)
    ensures GetMidi(d, i) == Got([m[0] % 256, m[1] % 256, m[2] % 256, m[3] % 256], i + 4)
  {
    var v := m[0] % 256 * 0x100_0000 + m[1] % 256 * 0x1_0000 + m[2] % 256 * 0x100 + m[3] % 256;
    Powers();
    FromToBE(v, 4);
    MidiParts(m[0] % 256, m[1] % 256, m[2] % 256, m[3] % 256);
    WordAt(d, i, WriteMidi(m).value);
  }

  /** Every 4-byte word is the word of the MIDI message read from it. */
  lemma MidiOfWord(w: bytes)
    requires |w| == 4
    ensures WriteMidi(MidiOf(FromBE(w))) == Some(w)
  {
    hide FromBE, ToBE, Pow256, MidiOf, WriteMidi;
    Powers();
    ToFromBE(w);
    MidiWhole(FromBE(w));
    MidiRemainders(MidiOf(FromBE(w)));
  }

  lemma MidiRemainders(m: seq<int>)
    requires |m| == 4 && forall k :: 0 <= k < 4 ==> 0 <= m[k] < 256
    ensures WriteMidi(m) == Some(ToBE(m[0] * 0x100_0000 + m[1] * 0x1_0000 + m[2] * 0x100 + m[3], 4))
  {
    var a, b, c, e := m[0] % 256, m[1] % 256, m[2] % 256, m[3] % 256;
    assert a == m[0] && b == m[1] && c == m[2] && e == m[3];
  }

  // ----- strings: bytes up to the first NUL, padded with NUL bytes to a multiple of 4

  predicate NulFree(s: bytes) {
    0 !in s
  }

  function WriteString(val: bytes): (w: bytes)
    ensures |w| % 4 == 0
  {
    val + Zeros(4 - |val| % 4)
  }

  /** The index of the first NUL byte at or after `i`, or the end of the datagram. */
  function NulIndex(d: bytes, i: nat): (j: nat)
    requires i <= |d|
    ensures i <= j <= |d|
    ensures j < |d| ==> d[j] == 0
    ensures forall k :: i <= k < j ==> d[k] != 0
    decreases |d| - i
  {
    if i == |d| || d[i] == 0 then i else NulIndex(d, i + 1)
  }

  function RoundUp4(n: nat): nat {
    if n % 4 != 0 then n + (4 - n % 4) else n
  }

  function GetString(d: bytes, i: int): Read<bytes> {
    if i < 0 || i > |d| then Malformed
    else
      var end := NulIndex(d, i);
      var total := RoundUp4(end - i + 1);
      if end == |d| || i + total > |d| then Malformed else Got(d[i..end], i + total)
  }

  /** The scan loop of the source. */
  method ScanString(d: bytes, start: int) returns (r: Read<bytes>)
    ensures r == GetString(d, start)
  {
    if start < 0 {
      return Malformed;
    }
    var offset := 0;
    while start + offset < |d| && d[start + offset] != 0
      invariant offset >= 0
      invariant start <= |d| ==> start + offset <= |d|
      invariant start <= |d| ==> NulIndex(d, start) == NulIndex(d, start + offset)
      invariant start > |d| ==> offset == 0
    {
      offset := offset + 1;
    }
    if start + offset >= |d| {
      return Malformed;
    }
    var total := offset + 1;
    if total % 4 != 0 {
      total := total + (4 - total % 4);
    }
    if start + total > |d| {
      return Malformed;
    }
    return Got(d[start..start + offset], start + total);
  }

  /** The scan from the start of a written string stops at its first NUL byte, or at its padding. */
  lemma ScanStops(d: bytes, i: int, s: bytes)
    requires At(d, i, WriteString(s))
    ensures NulIndex(d, i) <= i + |s| < |d|
    ensures NulIndex(d, i) == i + |s| <==> NulFree(s)
    ensures d[i..i + |s|] == s
  {
    var w := WriteString(s);
    assert d[i..i + |s|] == d[i..i + |w|][..|s|] == s;
    assert d[i..i + |w|][|s|] == 0;
    if NulFree(s) {
      forall k | i <= k < i + |s|
        ensures d[k] != 0
      {
        assert d[k] == d[i..i + |s|][k - i] && s[k - i] in s;
      }
    } else {
      var k :| 0 <= k < |s| && s[k] == 0;
      assert d[i..i + |s|][k] == d[i + k];
    }
  }

  /** A written string is read back at any offset, with the index after its padding, iff it has no NUL. */
  lemma StringAt(d: bytes, i: int, s: bytes)
    requires At(d, i, WriteString(s))
    ensures GetString(d, i).Got?
    ensures GetString(d, i) == Got(s, i + |WriteString(s)|) <==> NulFree(s)
    ensures GetString(d, i).value == s <==> NulFree(s)
  {
    ScanStops(d, i, s);
    hide NulIndex, NulFree;
    var end := NulIndex(d, i);
    assert RoundUp4(end - i + 1) <= RoundUp4(|s| + 1) == |WriteString(s)|;
    assert |d[i..end]| == end - i;
  }

  // ----- blobs: a size, the bytes, and zero bytes to a multiple of 4

  function WriteBlob(val: bytes): Option<bytes> {
    if val == [] then None
    else match WriteInt(|val|)
      case None => None
      case Some(w) => Some(w + val + Zeros(-|val| % 4))
  }

  /** The padding loop of the source. */
  method PadBlob(val: bytes) returns (r: Option<bytes>)
    ensures r == WriteBlob(val)
  {
    hide WriteInt;
    if val == [] {
      return None;
    }
    var size := WriteInt(|val|);
    if size.None? {
      return None;
    }
    IntWidth(|val|);
    var dgram := size.value + val;
    ghost var n := 0;
    while |dgram| % 4 != 0
      invariant 0 <= n <= -|val| % 4
      invariant dgram == size.value + val + Zeros(n)
      decreases -|val| % 4 - n
    {
      assert Zeros(n + 1) == Zeros(n) + [0];
      dgram := dgram + [0];
      n := n + 1;
    }
    return Some(dgram);
  }

  /** The end test does not count the padding, and the size is used as read, even when negative. */
  function GetBlob(d: bytes, i: int): Read<bytes> {
    match GetInt(d, i)
    case Malformed => Malformed
    case Got(size, start) =>
      var total := size + -size % 4;
      if start + size - i > |From(d, i)| then Malformed
      else Got(Slice(d, start, start + size), start + total)
  }

  lemma BlobAt(d: bytes, i: int, b: bytes)
    requires WriteBlob(b).Some? && At(d, i, WriteBlob(b).value)
    ensures GetBlob(d, i) == Got(b, i + |WriteBlob(b).value|)
    ensures |WriteBlob(b).value| % 4 == 0
  {
    hide WriteInt, GetInt, Slice, From;
    var w := WriteInt(|b|).value;
    IntWidth(|b|);
    AtAppend(d, i, w + b, Zeros(-|b| % 4));
    AtAppend(d, i, w, b);
    IntAt(d, i, |b|);
    SliceAt(d, i + 4, b);
    SliceAt(d, i, w);
  }

  // ----- time tags

  /** A time tag as a date and the fraction of its second. */
  function GetTimetag(d: bytes, i: int): Read<Ntp.Timestamp> {
    match GetWord(d, i, 8)
    case Malformed => Malformed
    case Got(w, next) => Got(Ntp.ParseTimestamp(FromBE(w)), next)
  }

  const IMMEDIATELY: real := 0.0

  function GetDate(d: bytes, i: int): Read<real> {
    if Slice(d, i, i + 8) == Ntp.IMMEDIATELY then Got(IMMEDIATELY, i + 8)
    else match GetWord(d, i, 8)
      case Malformed => Malformed
      case Got(w, next) => Got(Ntp.NtpToSystemTime(FromBE(w)), next)
  }

  function WriteDate(systemTime: real): Option<bytes> {
    if systemTime == IMMEDIATELY then Some(Ntp.IMMEDIATELY) else Ntp.SystemTimeToNtp(systemTime)
  }

  /** The time that a written time tag denotes. */
  function DateOfTag(ticks: nat): real {
    if ticks == 1 then IMMEDIATELY else Ntp.NtpToSystemTime(ticks)
  }

  /** The time tag written for a time: tag 1 stands for IMMEDIATELY. */
  function TagOf(systemTime: real): int {
    if systemTime == IMMEDIATELY then 1 else Ntp.Ticks(systemTime)
  }

  /** What a reader gets from the time tag written for `systemTime`. */
  function DateRoundTrip(systemTime: real): real
    requires WriteDate(systemTime).Some?
  {
    DateOfTag(TagOf(systemTime))
  }

  lemma DateWord(d: bytes, i: int, w: bytes)
    requires |w| == 8 && At(d, i, w)
    ensures GetDate(d, i) == Got(DateOfTag(FromBE(w)), i + 8)
  {
    WordAt(d, i, w);
    ToFromBE(w);
    Powers();
    FromToBE(1, 8);
    assert Slice(d, i, i + 8) == w;
  }

  lemma WrittenDate(s: real)
    requires WriteDate(s).Some?
    ensures |WriteDate(s).value| == 8
    ensures FromBE(WriteDate(s).value) == TagOf(s)
  {
    Powers();
    FromToBE(TagOf(s), 8);
  }

  lemma DateAt(d: bytes, i: int, s: real)
    requires WriteDate(s).Some? && At(d, i, WriteDate(s).value)
    ensures GetDate(d, i) == Got(DateRoundTrip(s), i + 8)
  {
    WrittenDate(s);
    DateWord(d, i, WriteDate(s).value);
  }

  /** A time comes back rounded down to its tick, except before 1900 and for the time whose tag is 1. */
  lemma DateWithinTick(s: real)
    requires WriteDate(s).Some?
    ensures s - 1.0 / Ntp.TICKS_PER_SECOND as real < DateRoundTrip(s) <= s <==>
            s == IMMEDIATELY || (s >= -(Ntp.NTP_DELTA as real) && Ntp.Ticks(s) != 1)
  {
    if s != IMMEDIATELY {
      Ntp.TimeOfTicks(s);
    }
  }

  /** A time that was read is written and read again unchanged. */
  lemma DateStable(s: real)
    requires WriteDate(s).Some?
    ensures WriteDate(DateRoundTrip(s)).Some?
    ensures DateRoundTrip(DateRoundTrip(s)) == DateRoundTrip(s)
  {
    Ntp.TicksOfTime(TagOf(s));
  }

  /** Every time tag except that of the Unix epoch is the tag of the time read from it. */
  lemma TagOfDate(w: bytes)
    requires |w| == 8
    ensures WriteDate(DateOfTag(FromBE(w))) == Some(w) <==>
            FromBE(w) != Ntp.NTP_DELTA * Ntp.TICKS_PER_SECOND
  {
    Powers();
    ToFromBE(w);
    FromToBE(1, 8);
    Ntp.TicksOfTime(FromBE(w));
  }

  /** Later times get later tags, as long as neither is the value that stands for IMMEDIATELY. */
  lemma DateMonotone(s: real, t: real)
    requires s <= t && s != IMMEDIATELY && t != IMMEDIATELY
    ensures TagOf(s) <= TagOf(t)
  {
    Ntp.TicksMonotone(s, t);
  }
}
