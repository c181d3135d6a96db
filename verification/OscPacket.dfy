/**
  osc_packet.py: the messages of a packet with the times they are due, sorted by time (OSC
  1.0 specification, section "Temporal Semantics and OSC Time Tags").

  Messages of nested bundles are collected depth first; Python's `sorted` is a stable sort.
*/
module OscPacket {
  import opened Wrappers
  import opened Bytes
  import OscTypes
  import opened OscMessage
  import opened OscBundle

  datatype TimedMessage = TimedMessage(time: real, message: Message)

  datatype PacketFault = Unidentified | BadContents(fault: BundleFault)

  /** The time at which a message of a bundle is due. */
  function DueTime(timestamp: real, now: real): real {
    if timestamp == OscTypes.IMMEDIATELY || timestamp < now then now else timestamp
  }

  function TimedMsgs(timestamp: real, contents: seq<Element>, now: real): seq<TimedMessage>
    decreases contents
  {
    if contents == [] then []
    else
      (match contents[0]
       case Single(m) => [TimedMessage(DueTime(timestamp, now), m)]
       case Bundle(_, inner, items) => TimedMsgs(inner, items, now))
      + TimedMsgs(timestamp, contents[1..], now)
  }

  /** `_timed_msg_of_bundle` */
  method TimedMsgOfBundle(timestamp: real, contents: seq<Element>, now: real) returns (msgs: seq<TimedMessage>)
    ensures msgs == TimedMsgs(timestamp, contents, now)
    decreases contents
  {
    msgs := [];
    for k := 0 to |contents|
      invariant msgs + TimedMsgs(timestamp, contents[k..], now) == TimedMsgs(timestamp, contents, now)
    {
      assert contents[k..][1..] == contents[k + 1..];
      ghost var rest := TimedMsgs(timestamp, contents[k + 1..], now);
      match contents[k] {
        case Single(m) =>
          var due := TimedMessage(DueTime(timestamp, now), m);
          Regroup(msgs, [due], rest);
          msgs := msgs + [due];
        case Bundle(_, inner, items) =>
          var nested := TimedMsgOfBundle(inner, items, now);
          Regroup(msgs, nested, rest);
          msgs := msgs + nested;
      }
    }
    assert contents[|contents|..] == [] && msgs + [] == msgs;
  }

  lemma Regroup(a: seq<TimedMessage>, b: seq<TimedMessage>, c: seq<TimedMessage>)
    ensures a + (b + c) == a + b + c
  {
  }

  // ----- stable sorting by time

  predicate Sorted(xs: seq<TimedMessage>) {
    forall i, j :: 0 <= i < j < |xs| ==> xs[i].time <= xs[j].time
  }

  /** The messages due at one time, in order. */
  function DueAt(xs: seq<TimedMessage>, t: real): seq<TimedMessage> {
    if xs == [] then []
    else if xs[0].time == t then [xs[0]] + DueAt(xs[1..], t)
    else DueAt(xs[1..], t)
  }

  /** `ys` is `xs` sorted by time, with messages of equal times in their order in `xs`. */
  ghost predicate StablySorted(xs: seq<TimedMessage>, ys: seq<TimedMessage>) {
    Sorted(ys) && forall t: real :: DueAt(ys, t) == DueAt(xs, t)
  }

  /** Inserts `x` before the first message that is not due earlier. */
  function Insert(x: TimedMessage, ys: seq<TimedMessage>): seq<TimedMessage> {
    if ys == [] || x.time <= ys[0].time then [x] + ys else [ys[0]] + Insert(x, ys[1..])
  }

  /** Python's `sorted(xs, key=lambda x: x.time)`. */
  function SortByTime(xs: seq<TimedMessage>): seq<TimedMessage> {
    if xs == [] then [] else Insert(xs[0], SortByTime(xs[1..]))
  }

  lemma {:induction false} InsertMultiset(x: TimedMessage, ys: seq<TimedMessage>)
    ensures multiset(Insert(x, ys)) == multiset{x} + multiset(ys)
  {
    if ys != [] && x.time > ys[0].time {
      InsertMultiset(x, ys[1..]);
      assert ys == [ys[0]] + ys[1..];
    }
  }

  lemma {:induction false} InsertSorted(x: TimedMessage, ys: seq<TimedMessage>)
    requires Sorted(ys)
    ensures Sorted(Insert(x, ys))
    ensures Insert(x, ys)[0].time == if ys == [] || x.time <= ys[0].time then x.time else ys[0].time
  {
    if ys != [] && x.time > ys[0].time {
      InsertSorted(x, ys[1..]);
      SortedCons(ys[0], Insert(x, ys[1..]));
    } else {
      SortedCons(x, ys);
    }
  }

  lemma SortedCons(x: TimedMessage, ys: seq<TimedMessage>)
    requires Sorted(ys) && (ys != [] ==> x.time <= ys[0].time)
    ensures Sorted([x] + ys)
  {
  }

  lemma {:induction false} InsertDueAt(x: TimedMessage, ys: seq<TimedMessage>, t: real)
    ensures DueAt(Insert(x, ys), t) == (if x.time == t then [x] else []) + DueAt(ys, t)
  {
    if ys != [] && x.time > ys[0].time {
      InsertDueAt(x, ys[1..], t);
      assert ([ys[0]] + Insert(x, ys[1..]))[1..] == Insert(x, ys[1..]);
      assert ys[0].time == t ==> x.time != t;
    } else {
      assert ([x] + ys)[1..] == ys;
    }
  }

  /** `sorted` gives a stable sort that keeps every message. */
  lemma {:induction false} SortByTimeIsStable(xs: seq<TimedMessage>)
    ensures StablySorted(xs, SortByTime(xs))
    ensures multiset(SortByTime(xs)) == multiset(xs)
  {
    if xs != [] {
      SortByTimeIsStable(xs[1..]);
      var rest := SortByTime(xs[1..]);
      InsertSorted(xs[0], rest);
      InsertMultiset(xs[0], rest);
      forall t: real
        ensures DueAt(SortByTime(xs), t) == DueAt(xs, t)
      {
        InsertDueAt(xs[0], rest, t);
      }
      assert xs == [xs[0]] + xs[1..];
    }
  }

  /** There is only one stable sort of a list. */
  lemma {:induction false} StableSortUnique(ys: seq<TimedMessage>, zs: seq<TimedMessage>)
    requires Sorted(ys) && StablySorted(ys, zs)
    ensures ys == zs
  {
    if ys == [] {
      if zs != [] {
        DueAtFirst(zs);
      }
    } else {
      var y := ys[0];
      assert DueAt(zs, y.time) == DueAt(ys, y.time) == [y] + DueAt(ys[1..], y.time);
      DueAtMember(zs, y.time);
      DueAtMember(ys, zs[0].time);
      DueAtFirst(zs);
      assert zs[0].time == y.time;
      assert DueAt(zs, y.time)[0] == zs[0];
      forall t: real
        ensures DueAt(zs[1..], t) == DueAt(ys[1..], t)
      {
        assert DueAt(zs, t) == DueAt(ys, t);
        if t == y.time {
          assert DueAt(zs, t)[1..] == DueAt(ys, t)[1..];
        }
      }
      StableSortUnique(ys[1..], zs[1..]);
    }
  }

  lemma DueAtFirst(xs: seq<TimedMessage>)
    requires xs != []
    ensures DueAt(xs, xs[0].time) != []
  {
  }

  lemma {:induction false} DueAtMember(xs: seq<TimedMessage>, t: real)
    ensures DueAt(xs, t) != [] ==> exists k :: 0 <= k < |xs| && xs[k].time == t
  {
    if xs != [] && xs[0].time != t {
      DueAtMember(xs[1..], t);
      if DueAt(xs, t) != [] {
        var k :| 0 <= k < |xs[1..]| && xs[1..][k].time == t;
        assert xs[k + 1].time == t;
      }
    }
  }

  // ----- the packet

  function ParsePacket(d: bytes, now: real): Result<seq<TimedMessage>, PacketFault> {
    if DgramIsBundle(d) then
      match ParseBundle(d)
      case Err(f) => Err(BadContents(f))
      case Ok(b) => Ok(SortByTime(TimedMsgs(b.timestamp, b.contents, now)))
    else if DgramIsMessage(d) then
      match ParseMessage(d)
      case Err(_) => Err(BadContents(BadBundle))
      case Ok(m) => Ok([TimedMessage(now, m)])
    else Err(Unidentified)
  }

  // ----- where a message of the tree ends up

  function MessageCount(contents: seq<Element>): nat {
    if contents == [] then 0
    else
      (match contents[0] case Single(_) => 1 case Bundle(_, _, items) => MessageCount(items))
      + MessageCount(contents[1..])
  }

  /** The message at a path of indexes into nested contents, with the timestamp of its innermost bundle. */
  function MessageAt(timestamp: real, contents: seq<Element>, path: seq<nat>): Option<(real, Message)>
    decreases path
  {
    if path == [] || path[0] >= |contents| then None
    else
      match contents[path[0]]
      case Single(m) => if |path| == 1 then Some((timestamp, m)) else None
      case Bundle(_, inner, items) => MessageAt(inner, items, path[1..])
  }

  /** The number of messages before a path, depth first. */
  function MessagesBefore(contents: seq<Element>, path: seq<nat>): nat
    decreases path
  {
    if path == [] || path[0] >= |contents| then 0
    else
      MessageCount(contents[..path[0]])
      + match contents[path[0]]
        case Single(_) => 0
        case Bundle(_, _, items) => MessagesBefore(items, path[1..])
  }

  lemma {:induction false} TimedMsgsAppend(timestamp: real, a: seq<Element>, b: seq<Element>, now: real)
    ensures TimedMsgs(timestamp, a + b, now) == TimedMsgs(timestamp, a, now) + TimedMsgs(timestamp, b, now)
  {
    if a == [] {
      assert a + b == b;
    } else {
      assert (a + b)[1..] == a[1..] + b;
      TimedMsgsAppend(timestamp, a[1..], b, now);
    }
  }

  lemma {:induction false} TimedMsgsCount(timestamp: real, contents: seq<Element>, now: real)
    ensures |TimedMsgs(timestamp, contents, now)| == MessageCount(contents)
    decreases contents
  {
    if contents != [] {
      TimedMsgsCount(timestamp, contents[1..], now);
      match contents[0] {
        case Single(_) =>
        case Bundle(_, inner, items) => TimedMsgsCount(inner, items, now);
      }
    }
  }

  /** The messages before, in, and after the element at index `k`. */
  lemma TimedMsgsSplit(timestamp: real, contents: seq<Element>, k: nat, now: real)
    requires k < |contents|
    ensures TimedMsgs(timestamp, contents, now) ==
            TimedMsgs(timestamp, contents[..k], now)
            + (match contents[k]
               case Single(m) => [TimedMessage(DueTime(timestamp, now), m)]
               case Bundle(_, inner, items) => TimedMsgs(inner, items, now))
            + TimedMsgs(timestamp, contents[k + 1..], now)
    ensures |TimedMsgs(timestamp, contents[..k], now)| == MessageCount(contents[..k])
  {
    assert contents == contents[..k] + contents[k..];
    TimedMsgsAppend(timestamp, contents[..k], contents[k..], now);
    assert contents[k..][1..] == contents[k + 1..];
    TimedMsgsCount(timestamp, contents[..k], now);
  }

  /** `due` is the time `t` of the innermost bundle, unless that is IMMEDIATELY or past; then it is `now`. */
  predicate IsDue(t: real, now: real, due: real) {
    && (t != 0.0 && t >= now ==> due == t)
    && (t == 0.0 || t < now ==> due == now)
  }

  /**
    Every message of the tree is in the flattened list, at its depth-first position, with
    the time of its innermost bundle, or `now` if that is past or immediate.
  */
  lemma {:induction false} FlattenedAt(timestamp: real, contents: seq<Element>, path: seq<nat>, now: real)
    requires MessageAt(timestamp, contents, path).Some?
    ensures var (t, m) := MessageAt(timestamp, contents, path).value;
            var msgs, p := TimedMsgs(timestamp, contents, now), MessagesBefore(contents, path);
            p < |msgs| && msgs[p].message == m && IsDue(t, now, msgs[p].time)
    decreases path
  {
    TimedMsgsSplit(timestamp, contents, path[0], now);
    var before := TimedMsgs(timestamp, contents[..path[0]], now);
    var after := TimedMsgs(timestamp, contents[path[0] + 1..], now);
    match contents[path[0]] {
      case Single(m) =>
        hide TimedMsgs, MessageCount, DueTime;
        InMiddle(before, [TimedMessage(DueTime(timestamp, now), m)], after, 0);
      case Bundle(_, inner, items) =>
        FlattenedAt(inner, items, path[1..], now);
        hide TimedMsgs, MessageCount, DueTime;
        InMiddle(before, TimedMsgs(inner, items, now), after, MessagesBefore(items, path[1..]));
    }
  }

  lemma InMiddle(a: seq<TimedMessage>, b: seq<TimedMessage>, c: seq<TimedMessage>, k: nat)
    requires k < |b|
    ensures |a| + k < |a + b + c| && (a + b + c)[|a| + k] == b[k]
  {
  }

  /** Every position of the flattened list is the position of a message of the tree. */
  lemma {:induction false} PathOf(timestamp: real, contents: seq<Element>, p: nat) returns (path: seq<nat>)
    requires p < MessageCount(contents)
    ensures MessageAt(timestamp, contents, path).Some? && MessagesBefore(contents, path) == p
    decreases contents
  {
    var n := match contents[0] case Single(_) => 1 case Bundle(_, _, items) => MessageCount(items);
    assert contents[..0] == [];
    if p < n {
      match contents[0] {
        case Single(_) => path := [0];
        case Bundle(_, inner, items) =>
          var rest := PathOf(inner, items, p);
          path := [0] + rest;
          assert path[1..] == rest;
      }
    } else {
      var tail := PathOf(timestamp, contents[1..], p - n);
      path := [tail[0] + 1] + tail[1..];
      assert path[1..] == tail[1..];
      assert contents[..path[0]][1..] == contents[1..][..tail[0]];
    }
  }

  lemma {:induction false} CountMonotone(contents: seq<Element>, k: nat, l: nat)
    requires k < l <= |contents|
    ensures MessageCount(contents[..l]) >=
            MessageCount(contents[..k]) +
            match contents[k] case Single(_) => 1 case Bundle(_, _, items) => MessageCount(items)
    decreases k
  {
    var a, b := contents[..k], contents[..l];
    if k == 0 {
      assert a == [];
    } else {
      assert a[1..] == contents[1..][..k - 1] && b[1..] == contents[1..][..l - 1];
      CountMonotone(contents[1..], k - 1, l - 1);
    }
  }

  lemma {:induction false} BeforeInside(timestamp: real, contents: seq<Element>, path: seq<nat>)
    requires MessageAt(timestamp, contents, path).Some?
    ensures MessagesBefore(contents, path) < MessageCount(contents)
  {
    FlattenedAt(timestamp, contents, path, 0.0);
    TimedMsgsCount(timestamp, contents, 0.0);
  }

  /** Different messages of the tree have different positions. */
  lemma {:induction false} PathUnique(timestamp: real, contents: seq<Element>, a: seq<nat>, b: seq<nat>)
    requires MessageAt(timestamp, contents, a).Some? && MessageAt(timestamp, contents, b).Some?
    requires MessagesBefore(contents, a) == MessagesBefore(contents, b)
    ensures a == b
    decreases a
  {
    if a[0] == b[0] {
      match contents[a[0]] {
        case Single(_) =>
        case Bundle(_, inner, items) => PathUnique(inner, items, a[1..], b[1..]);
      }
      assert a == [a[0]] + a[1..] && b == [b[0]] + b[1..];
    } else if a[0] < b[0] {
      EarlierIndex(timestamp, contents, a, b);
    } else {
      EarlierIndex(timestamp, contents, b, a);
    }
  }

  lemma EarlierIndex(timestamp: real, contents: seq<Element>, a: seq<nat>, b: seq<nat>)
    requires MessageAt(timestamp, contents, a).Some? && MessageAt(timestamp, contents, b).Some?
    requires a[0] < b[0]
    ensures MessagesBefore(contents, a) < MessagesBefore(contents, b)
  {
    CountMonotone(contents, a[0], b[0]);
    match contents[a[0]] {
      case Single(_) =>
      case Bundle(_, inner, items) => BeforeInside(inner, items, a[1..]);
    }
  }

  lemma {:induction false} DueFromNow(timestamp: real, contents: seq<Element>, now: real)
    ensures forall k :: 0 <= k < |TimedMsgs(timestamp, contents, now)| ==>
              TimedMsgs(timestamp, contents, now)[k].time >= now
    decreases contents
  {
    if contents != [] {
      DueFromNow(timestamp, contents[1..], now);
      match contents[0] {
        case Single(_) =>
        case Bundle(_, inner, items) => DueFromNow(inner, items, now);
      }
    }
  }

  /** Paths in depth-first order. */
  predicate Precedes(a: seq<nat>, b: seq<nat>) {
    a != [] && b != [] && (a[0] < b[0] || (a[0] == b[0] && Precedes(a[1..], b[1..])))
  }

  /** Messages keep their depth-first order in the flattened list. */
  lemma {:induction false} DepthFirst(timestamp: real, contents: seq<Element>, a: seq<nat>, b: seq<nat>)
    requires MessageAt(timestamp, contents, a).Some? && MessageAt(timestamp, contents, b).Some? && Precedes(a, b)
    ensures MessagesBefore(contents, a) < MessagesBefore(contents, b)
    decreases a
  {
    if a[0] < b[0] {
      EarlierIndex(timestamp, contents, a, b);
    } else {
      match contents[a[0]] {
        case Single(_) =>
        case Bundle(_, inner, items) => DepthFirst(inner, items, a[1..], b[1..]);
      }
    }
  }

  /** A timed message says when some message of the tree is due. */
  ghost predicate FromTree(timestamp: real, contents: seq<Element>, now: real, tm: TimedMessage) {
    exists path, t :: MessageAt(timestamp, contents, path) == Some((t, tm.message)) && IsDue(t, now, tm.time)
  }

  lemma FlatFromTree(timestamp: real, contents: seq<Element>, now: real, p: nat)
    requires p < |TimedMsgs(timestamp, contents, now)|
    ensures FromTree(timestamp, contents, now, TimedMsgs(timestamp, contents, now)[p])
  {
    TimedMsgsCount(timestamp, contents, now);
    var path := PathOf(timestamp, contents, p);
    FlattenedAt(timestamp, contents, path, now);
    hide TimedMsgs, MessageAt, IsDue;
    var (t, m) := MessageAt(timestamp, contents, path).value;
    assert MessageAt(timestamp, contents, path) == Some((t, m));
  }

  /**
    The messages of a packet: all messages of the bundle tree, sorted by time, in depth-first
    order among equal times, each due when its innermost bundle says, and none before `now`.
    A packet that is a message is due at once.
  */
  lemma PacketMessages(d: bytes, now: real)
    requires ParsePacket(d, now).Ok?
    ensures var msgs := ParsePacket(d, now).value;
            && Sorted(msgs)
            && (forall k :: 0 <= k < |msgs| ==> msgs[k].time >= now)
            && (DgramIsBundle(d) ==>
                  var b := ParseBundle(d).value;
                  var flat := TimedMsgs(b.timestamp, b.contents, now);
                  StablySorted(flat, msgs) && multiset(msgs) == multiset(flat)
                  && forall k :: 0 <= k < |msgs| ==> FromTree(b.timestamp, b.contents, now, msgs[k]))
    ensures !DgramIsBundle(d) ==>
              && DgramIsMessage(d) && ParseMessage(d).Ok?
              && ParsePacket(d, now).value == [TimedMessage(now, ParseMessage(d).value)]
  {
    hide ParseMessage, SortByTime, TimedMsgs, FromTree;
    if DgramIsBundle(d) {
      var b := ParseBundle(d).value;
      var flat, msgs := TimedMsgs(b.timestamp, b.contents, now), ParsePacket(d, now).value;
      SortByTimeIsStable(flat);
      DueFromNow(b.timestamp, b.contents, now);
      forall k | 0 <= k < |msgs|
        ensures msgs[k].time >= now && FromTree(b.timestamp, b.contents, now, msgs[k])
      {
        assert msgs[k] in multiset(msgs) && msgs[k] in multiset(flat);
        var p :| 0 <= p < |flat| && flat[p] == msgs[k];
        FlatFromTree(b.timestamp, b.contents, now, p);
      }
    }
  }

  /** A packet that cannot be parsed: it is neither bundle nor message, or what it is does not parse. */
  lemma PacketFails(d: bytes, now: real)
    ensures ParsePacket(d, now).Err? <==>
            if StartsBundle(d) then ParseBundle(d).Err? else !StartsMessage(d) || ParseMessage(d).Err?
  {
    assert BUNDLE_PREFIX <= d <==> |d| >= 8 && d[..8] == BUNDLE_PREFIX;
    hide ParseBundle, ParseMessage, SortByTime, TimedMsgs;
  }
}
