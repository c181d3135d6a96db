/**
  The layers together: messages that one side builds and sends over TCP, in either framing,
  reach the dispatcher of the other side with their addresses and values, in order,
  whatever the chunks of the stream.
*/
module EndToEnd {
  import opened Wrappers
  import opened Bytes
  import opened PyValues
  import opened OscTypes
  import opened OscMessage
  import opened OscMessageBuilder
  import opened InferredArguments
  import opened OscBundle
  import opened OscBundleBuilder
  import opened OscPacket
  import opened SlipStream
  import opened OscTcpServer
  import opened Dispatcher

  /** A message as a client states it. */
  datatype Outgoing = Outgoing(address: bytes, args: seq<Value>)

  predicate Sendable(o: Outgoing) {
    && o.address != [] && o.address[0] == SLASH
    && NulFree(o.address)
    && AllBuildable(o.args) && NulFreeValues(o.args)
  }

  function DgramOf(o: Outgoing): bytes {
    match BuildDgram(Some(o.address), AddAll(o.args).entries) case Ok(d) => d case Err(_) => []
  }

  function DgramsOf(os: seq<Outgoing>): (ds: seq<bytes>)
    ensures |ds| == |os|
  {
    if os == [] then [] else [DgramOf(os[0])] + DgramsOf(os[1..])
  }

  /** The messages the receiving side is to get. */
  function Expected(os: seq<Outgoing>): seq<Message> {
    if os == [] then []
    else [Message(DgramOf(os[0]), os[0].address, Normals(os[0].args))] + Expected(os[1..])
  }

  function MessagesOf(ts: seq<TimedMessage>): seq<Message> {
    if ts == [] then [] else [ts[0].message] + MessagesOf(ts[1..])
  }

  /** The messages of packets given to the dispatcher, which ignores packets it cannot parse. */
  function Received(packets: seq<bytes>, now: real): seq<Message> {
    if packets == [] then []
    else
      (match ParsePacket(packets[0], now)
       case Ok(ts) => MessagesOf(ts)
       case Err(_) => [])
      + Received(packets[1..], now)
  }

  /** A sendable message is one packet, which parses to its address and values. */
  lemma OnePacket(o: Outgoing, now: real)
    requires Sendable(o)
    ensures DgramOf(o) != []
    ensures ParsePacket(DgramOf(o), now) ==
            Ok([TimedMessage(now, Message(DgramOf(o), o.address, Normals(o.args)))])
  {
    var entries, d := AddAll(o.args).entries, DgramOf(o);
    BuildInferred(o.address, o.args);
    BuildStarts(o.address, entries);
    assert ParseMessage(d) == Ok(Message(d, o.address, Normals(o.args)));
    hide ParseMessage, ParseBundle, BuildDgram;
    assert d[0] == SLASH;
    if DgramIsBundle(d) {
      BundleStarts(d);
    }
  }

  lemma BundleStarts(d: bytes)
    requires DgramIsBundle(d)
    ensures d != [] && d[0] != SLASH
  {
    assert d[0] == BUNDLE_PREFIX[0];
  }

  lemma BuildStarts(address: bytes, entries: seq<Entry>)
    requires address != [] && BuildDgram(Some(address), entries).Ok?
    ensures var d := BuildDgram(Some(address), entries).value; d != [] && d[0] == address[0]
  {
    hide WriteArgs;
  }

  lemma {:induction false} ReceivedNonEmpty(packets: seq<bytes>, now: real)
    ensures Received(packets, now) == Received(NonEmpty(packets), now)
  {
    hide ParseMessage, ParseBundle, SortByTime, TimedMsgs;
    if packets != [] {
      ReceivedNonEmpty(packets[1..], now);
      assert packets == [packets[0]] + packets[1..];
      if packets[0] == [] {
        assert ParsePacket([], now) == Err(Unidentified);
      } else {
        hide ParsePacket;
        NonEmptyCons(packets[0], packets[1..]);
        assert ([packets[0]] + NonEmpty(packets[1..]))[1..] == NonEmpty(packets[1..]);
      }
    }
  }

  lemma {:induction false} DgramsReceived(os: seq<Outgoing>, now: real)
    requires forall k :: 0 <= k < |os| ==> Sendable(os[k])
    ensures AllNonEmpty(DgramsOf(os)) && NonEmpty(DgramsOf(os)) == DgramsOf(os)
    ensures Received(DgramsOf(os), now) == Expected(os)
  {
    hide ParsePacket, Sendable, DgramOf;
    if os != [] {
      OnePacket(os[0], now);
      DgramsReceived(os[1..], now);
      var first, rest := DgramOf(os[0]), DgramsOf(os[1..]);
      assert DgramsOf(os)[1..] == rest;
      forall k | 0 <= k < |DgramsOf(os)|
        ensures DgramsOf(os)[k] != []
      {
        assert k > 0 ==> DgramsOf(os)[k] == rest[k - 1];
      }
      NonEmptyCons(first, rest);
      OneMessage(TimedMessage(now, Message(first, os[0].address, Normals(os[0].args))));
    }
  }

  lemma OneMessage(t: TimedMessage)
    ensures MessagesOf([t]) == [t.message]
  {
    var none: seq<TimedMessage> := [t][1..];
    assert none == [];
  }

  /**
    OSC 1.1: whatever packets the handler dispatches from the stream of SLIP frames, cut into
    chunks in any way, the dispatcher gets exactly the sent messages, in order.
  */
  lemma SlipDelivers(os: seq<Outgoing>, packets: seq<bytes>, now: real)
    requires forall k :: 0 <= k < |os| ==> Sendable(os[k])
    requires WellFramed(Frames(DgramsOf(os))) ==> NonEmpty(packets) == Carried(Frames(DgramsOf(os))).value
    ensures Received(packets, now) == Expected(os)
  {
    FramesCarry(DgramsOf(os));
    DgramsReceived(os, now);
    ReceivedNonEmpty(packets, now);
  }

  /** OSC 1.0: the same over length prefixes, for datagrams whose length fits the prefix. */
  lemma PrefixDelivers(os: seq<Outgoing>, now: real)
    requires forall k :: 0 <= k < |os| ==> Sendable(os[k])
    requires Short(DgramsOf(os))
    ensures Received(Datagrams(Prefixed(DgramsOf(os))), now) == Expected(os)
  {
    DgramsReceived(os, now);
    PrefixedDatagrams(DgramsOf(os));
  }

  // ----- trees of bundles

  /** The messages of a client's trees, depth first, with the times they are due. */
  function DueMessages(timestamp: real, ts: seq<Tree>, now: real): seq<TimedMessage>
    decreases ts
  {
    if ts == [] then []
    else
      (match ts[0]
       case Leaf(m) => [TimedMessage(DueTime(timestamp, now), m)]
       case Node(inner, children) => DueMessages(inner, children, now))
      + DueMessages(timestamp, ts[1..], now)
  }

  lemma {:induction false} DueMessagesOfElements(timestamp: real, es: seq<Element>, now: real)
    ensures TimedMsgs(timestamp, es, now) == DueMessages(timestamp, TreesOf(es), now)
    decreases es
  {
    hide DueTime;
    if es != [] {
      DueMessagesOfElements(timestamp, es[1..], now);
      assert TreesOf(es)[1..] == TreesOf(es[1..]);
      if es[0].Bundle? {
        DueMessagesOfElements(es[0].timestamp, es[0].contents, now);
      }
    }
  }

  /**
    A tree of bundles that was built and sent as one packet is dispatched as its messages in
    the order of the times that their innermost bundles say, depth first among equal times.
  */
  lemma BundleDelivers(timestamp: real, children: seq<Tree>, now: real)
    requires GenuineLeaves(children) && SlashLeaves(children)
    requires BuildTree(Node(timestamp, children)).Ok?
    ensures var d, tagged := Dgram(BuildTree(Node(timestamp, children)).value), Tagged(Node(timestamp, children));
            && tagged.Some? && tagged.value.Node?
            && ParsePacket(d, now) == Ok(SortByTime(DueMessages(tagged.value.timestamp, tagged.value.children, now)))
  {
    TreeRoundTrip(timestamp, children);
    BuiltIsBundle(timestamp, children);
    var b := BuildTree(Node(timestamp, children)).value;
    hide ParseBundle, ParseMessage, BuildTree, Tagged, GenuineLeaves, SlashLeaves, DgramIsBundle;
    hide TimedMsgs, DueMessages, SortByTime;
    DueMessagesOfElements(b.timestamp, b.contents, now);
  }

  lemma BuiltIsBundle(timestamp: real, children: seq<Tree>)
    requires BuildTree(Node(timestamp, children)).Ok?
    ensures var b := BuildTree(Node(timestamp, children)).value; b.Bundle? && DgramIsBundle(b.dgram)
  {
    hide ParseContents, WriteElements, WriteDate, BuildTrees;
    var es := BuildTrees(children).value;
    var d := BundleDgram(timestamp, es).value;
    BundleParts(timestamp, es, d);
  }

  // ----- down to the handlers

  /** The handlers to be invoked for messages, with the message of each. */
  function Invocations(reg: Registry, default: Option<Handler>, re: Engine, ms: seq<Message>): seq<(Handler, Message)> {
    if ms == [] then []
    else
      Each(HandlersFor(reg, default, ms[0].address, re), ms[0]) + Invocations(reg, default, re, ms[1..])
  }

  function Each(hs: seq<Handler>, m: Message): seq<(Handler, Message)> {
    seq(|hs|, k requires 0 <= k < |hs| => (hs[k], m))
  }

  function Undated(calls: seq<Call>): seq<(Handler, Message)> {
    seq(|calls|, k requires 0 <= k < |calls| => (calls[k].handler, calls[k].message))
  }

  lemma {:induction false} UndatedPlan(reg: Registry, default: Option<Handler>, re: Engine, ts: seq<TimedMessage>)
    ensures Undated(Plan(reg, default, re, ts)) == Invocations(reg, default, re, MessagesOf(ts))
  {
    hide HandlersFor;
    if ts != [] {
      UndatedPlan(reg, default, re, ts[1..]);
      var hs := HandlersFor(reg, default, ts[0].message.address, re);
      assert Undated(CallsOf(ts[0], hs)) == Each(hs, ts[0].message);
      UndatedAppend(CallsOf(ts[0], hs), Plan(reg, default, re, ts[1..]));
      assert MessagesOf(ts)[1..] == MessagesOf(ts[1..]);
    }
  }

  lemma UndatedAppend(a: seq<Call>, b: seq<Call>)
    ensures Undated(a + b) == Undated(a) + Undated(b)
  {
  }

  lemma {:induction false} InvocationsAppend(
    reg: Registry, default: Option<Handler>, re: Engine, a: seq<Message>, b: seq<Message>)
    ensures Invocations(reg, default, re, a + b) == Invocations(reg, default, re, a) + Invocations(reg, default, re, b)
  {
    hide HandlersFor;
    if a == [] {
      assert a + b == b;
    } else {
      assert (a + b)[1..] == a[1..] + b;
      InvocationsAppend(reg, default, re, a[1..], b);
    }
  }

  predicate NoBundles(packets: seq<bytes>) {
    forall k :: 0 <= k < |packets| ==> !DgramIsBundle(packets[k])
  }

  /** Packets that are no bundles hold the same messages at any time. */
  lemma {:induction false} ReceivedAnyTime(packets: seq<bytes>, now: real, later: real)
    requires NoBundles(packets)
    ensures Received(packets, now) == Received(packets, later)
  {
    hide ParseMessage, ParseBundle, SortByTime, TimedMsgs, DgramIsBundle;
    if packets != [] {
      assert !DgramIsBundle(packets[0]);
      forall k | 0 <= k < |packets[1..]|
        ensures !DgramIsBundle(packets[1..][k])
      {
        assert packets[1..][k] == packets[k + 1];
      }
      ReceivedAnyTime(packets[1..], now, later);
      if ParsePacket(packets[0], now).Ok? {
        OneMessage(ParsePacket(packets[0], now).value[0]);
        OneMessage(ParsePacket(packets[0], later).value[0]);
      }
    }
  }

  /** The dispatcher of a connection, packet by packet. */
  method DispatchPackets(packets: seq<bytes>, dispatcher: Dispatcher, clock: Clock, reply: Replies)
    returns (ghost calls: seq<Call>)
    requires NoBundles(packets)
    modifies clock
    ensures forall now: real :: Undated(calls) ==
              Invocations(dispatcher.registry, dispatcher.defaultHandler, dispatcher.re, Received(packets, now))
  {
    hide HandlersFor, ParsePacket, Undated, Invocations, DgramIsBundle;
    ghost var reg, default, re := dispatcher.registry, dispatcher.defaultHandler, dispatcher.re;
    calls := [];
    NothingInvoked(reg, default, re);
    assert packets[..0] == [];
    for k := 0 to |packets|
      invariant Undated(calls) == Invocations(reg, default, re, Received(packets[..k], 0.0))
    {
      ghost var parsedAt, more, times, readings;
      var finished, results;
      finished, results, parsedAt, more, times, readings := dispatcher.CallHandlersForPacket(packets[k], clock, reply);
      PacketInvoked(reg, default, re, packets, k, parsedAt, more);
      UndatedAppend(calls, more);
      calls := calls + more;
    }
    assert packets[..|packets|] == packets;
    forall now: real
      ensures Received(packets, now) == Received(packets, 0.0)
    {
      ReceivedAnyTime(packets, now, 0.0);
    }
  }

  lemma NothingInvoked(reg: Registry, default: Option<Handler>, re: Engine)
    ensures Undated([]) == Invocations(reg, default, re, Received([], 0.0))
  {
  }

  lemma PacketInvoked(
    reg: Registry, default: Option<Handler>, re: Engine, packets: seq<bytes>, k: nat, now: real, calls: seq<Call>)
    requires k < |packets| && NoBundles(packets)
    requires var r := ParsePacket(packets[k], now);
             calls == if r.Ok? then Plan(reg, default, re, r.value) else []
    ensures Invocations(reg, default, re, Received(packets[..k + 1], 0.0)) ==
            Invocations(reg, default, re, Received(packets[..k], 0.0)) + Undated(calls)
  {
    hide HandlersFor, ParsePacket, Plan, DgramIsBundle;
    var one := [packets[k]];
    assert packets[..k + 1] == packets[..k] + one;
    ReceivedAppend(packets[..k], one, 0.0);
    ReceivedAnyTime(one, now, 0.0);
    InvocationsAppend(reg, default, re, Received(packets[..k], 0.0), Received(one, 0.0));
    ReceivedOne(packets[k], now);
    if ParsePacket(packets[k], now).Ok? {
      UndatedPlan(reg, default, re, ParsePacket(packets[k], now).value);
    } else {
      NothingInvoked(reg, default, re);
    }
  }

  lemma ReceivedOne(packet: bytes, now: real)
    ensures var r := ParsePacket(packet, now);
            Received([packet], now) == if r.Ok? then MessagesOf(r.value) else []
  {
    hide ParsePacket;
    var none: seq<bytes> := [packet][1..];
    assert none == [];
  }

  lemma {:induction false} ReceivedAppend(a: seq<bytes>, b: seq<bytes>, now: real)
    ensures Received(a + b, now) == Received(a, now) + Received(b, now)
  {
    hide ParsePacket;
    if a == [] {
      assert a + b == b;
    } else {
      assert (a + b)[1..] == a[1..] + b;
      ReceivedAppend(a[1..], b, now);
    }
  }

  lemma {:induction false} SentAreNoBundles(os: seq<Outgoing>)
    requires forall k :: 0 <= k < |os| ==> Sendable(os[k])
    ensures NoBundles(DgramsOf(os))
  {
    hide Sendable, DgramOf;
    if os != [] {
      SlashFirst(os[0]);
      SentAreNoBundles(os[1..]);
    }
  }

  lemma SlashFirst(o: Outgoing)
    requires Sendable(o)
    ensures !DgramIsBundle(DgramOf(o))
  {
    var entries := AddAll(o.args).entries;
    BuildInferred(o.address, o.args);
    BuildStarts(o.address, entries);
    hide BuildDgram;
    if DgramIsBundle(DgramOf(o)) {
      BundleStarts(DgramOf(o));
    }
  }

  lemma {:induction false} NonEmptyNoBundles(packets: seq<bytes>)
    requires NoBundles(NonEmpty(packets))
    ensures NoBundles(packets)
  {
    if packets != [] {
      assert packets == [packets[0]] + packets[1..];
      NonEmptyCons(packets[0], packets[1..]);
      hide NonEmpty, DgramIsBundle;
      var rest := NonEmpty(packets[1..]);
      if packets[0] == [] {
        EmptyIsNoBundle();
      } else {
        assert NonEmpty(packets) == [packets[0]] + rest;
        assert !DgramIsBundle(NonEmpty(packets)[0]);
        forall k | 0 <= k < |rest|
          ensures !DgramIsBundle(rest[k])
        {
          assert rest[k] == NonEmpty(packets)[k + 1];
        }
      }
      NonEmptyNoBundles(packets[1..]);
    }
  }

  lemma EmptyIsNoBundle()
    ensures !DgramIsBundle([])
  {
  }

  /**
    OSC 1.1 from end to end: the messages are built and sent as SLIP frames, the stream is cut
    into chunks in any way, and the dispatcher invokes exactly the handlers of each message,
    with its address and values, message by message in the order of sending.
  */
  method ServeSlip(os: seq<Outgoing>, dispatcher: Dispatcher, clock: Clock, reply: Replies)
    returns (packets: seq<bytes>, ghost calls: seq<Call>)
    requires forall k :: 0 <= k < |os| ==> Sendable(os[k])
    modifies clock
    ensures forall now: real :: Received(packets, now) == Expected(os)
    ensures Undated(calls) ==
            Invocations(dispatcher.registry, dispatcher.defaultHandler, dispatcher.re, Expected(os))
  {
    hide Sendable, HandlersFor, Received, WellFramed, Carried, Frames, NonEmpty, Expected, Invocations, Undated;
    var connection := new Connection(Frames(DgramsOf(os)));
    var handler := new TCPHandler11(connection);
    FramesCarry(DgramsOf(os));
    var outcome := handler.Handle();
    packets := handler.dispatched;
    forall now: real
      ensures Received(packets, now) == Expected(os)
    {
      SlipDelivers(os, packets, now);
    }
    DgramsReceived(os, 0.0);
    SentAreNoBundles(os);
    NonEmptyNoBundles(packets);
    calls := DispatchPackets(packets, dispatcher, clock, reply);
  }

  /** OSC 1.0 from end to end: the same over length prefixes. */
  method ServePrefixed(os: seq<Outgoing>, dispatcher: Dispatcher, clock: Clock, reply: Replies)
    returns (packets: seq<bytes>, ghost calls: seq<Call>)
    requires forall k :: 0 <= k < |os| ==> Sendable(os[k])
    requires Short(DgramsOf(os))
    modifies clock
    ensures forall now: real :: Received(packets, now) == Expected(os)
    ensures Undated(calls) ==
            Invocations(dispatcher.registry, dispatcher.defaultHandler, dispatcher.re, Expected(os))
  {
    hide Sendable, HandlersFor, Received, Datagrams, Prefixed, Expected, Invocations, Undated;
    PrefixDelivers(os, 0.0);
    DgramsReceived(os, 0.0);
    PrefixedDatagrams(DgramsOf(os));
    SentAreNoBundles(os);
    var connection := new Connection(Prefixed(DgramsOf(os)));
    var handler := new TCPHandler10(connection);
    handler.Handle();
    packets := handler.dispatched;
    assert packets == DgramsOf(os);
    forall now: real
      ensures Received(packets, now) == Expected(os)
    {
      DgramsReceived(os, now);
    }
    calls := DispatchPackets(packets, dispatcher, clock, reply);
  }

  /** The message at a path of indexes into trees, with the timestamp of its innermost node. */
  function MessageIn(timestamp: real, ts: seq<Tree>, path: seq<nat>): Option<(real, Message)>
    decreases path
  {
    if path == [] || path[0] >= |ts| then None
    else
      match ts[path[0]]
      case Leaf(m) => if |path| == 1 then Some((timestamp, m)) else None
      case Node(inner, children) => MessageIn(inner, children, path[1..])
  }

  lemma {:induction false} MessageInTrees(timestamp: real, es: seq<Element>, path: seq<nat>)
    ensures MessageAt(timestamp, es, path) == MessageIn(timestamp, TreesOf(es), path)
    decreases path
  {
    TreesAt(es);
    if path != [] && path[0] < |es| && es[path[0]].Bundle? {
      MessageInTrees(es[path[0]].timestamp, es[path[0]].contents, path[1..]);
    }
  }

  lemma {:induction false} TreesAt(es: seq<Element>)
    ensures |TreesOf(es)| == |es| && forall k :: 0 <= k < |es| ==> TreesOf(es)[k] == TreeOf(es[k])
  {
    hide TreeOf;
    if es != [] {
      TreesAt(es[1..]);
    }
  }

  /**
    The call is for a message of the trees, and is due at the time of its innermost node; if
    `strict`, it is not made before that time.
  */
  ghost predicate InTime(timestamp: real, ts: seq<Tree>, now: real, c: Call, time: real, strict: bool) {
    exists path, t ::
      && MessageIn(timestamp, ts, path) == Some((t, c.message))
      && (if t != 0.0 && t >= now then c.due == t else c.due == now)
      && (strict && t != 0.0 ==> t <= time)
  }

  lemma TreeInTime(b: Element, d: bytes, now: real, reg: Registry, default: Option<Handler>, re: Engine,
                   calls: seq<Call>, times: seq<real>, strict: bool, end: real)
    requires b.Bundle? && DgramIsBundle(d) && ParseBundle(d) == Ok(b) && ParsePacket(d, now).Ok?
    requires calls == Plan(reg, default, re, ParsePacket(d, now).value) && WellTimed(calls, times, strict, end)
    ensures forall k :: 0 <= k < |calls| ==>
              InTime(b.timestamp, TreesOf(b.contents), now, calls[k], times[k], strict)
  {
    PacketMessages(d, now);
    hide Plan, ParseBundle, DgramIsBundle, InTime;
    var msgs := ParsePacket(d, now).value;
    forall k | 0 <= k < |calls|
      ensures InTime(b.timestamp, TreesOf(b.contents), now, calls[k], times[k], strict)
    {
      var j := PlanFrom(reg, default, re, msgs, k);
      assert FromTree(b.timestamp, b.contents, now, msgs[j]);
      CallInTime(b, now, msgs[j], calls[k], times[k], strict);
    }
  }

  lemma CallInTime(b: Element, now: real, tm: TimedMessage, c: Call, time: real, strict: bool)
    requires b.Bundle? && FromTree(b.timestamp, b.contents, now, tm)
    requires c.due == tm.time && c.message == tm.message && (strict ==> c.due <= time)
    ensures InTime(b.timestamp, TreesOf(b.contents), now, c, time, strict)
  {
    var path, t :| MessageAt(b.timestamp, b.contents, path) == Some((t, tm.message)) && IsDue(t, now, tm.time);
    MessageInTrees(b.timestamp, b.contents, path);
    assert MessageIn(b.timestamp, TreesOf(b.contents), path) == Some((t, c.message));
  }

  /**
    A tree of bundles from end to end: its messages are invoked in the order of their times,
    and under strict timing none before the time that its innermost bundle says.
  */
  method ServeTree(timestamp: real, children: seq<Tree>, dispatcher: Dispatcher, clock: Clock, reply: Replies)
    returns (ghost parsedAt: real, ghost calls: seq<Call>, ghost times: seq<real>)
    requires GenuineLeaves(children) && SlashLeaves(children) && Writable([Node(timestamp, children)])
    modifies clock
    ensures var tagged := Tagged(Node(timestamp, children));
            && tagged.Some? && tagged.value.Node?
            && calls == Plan(dispatcher.registry, dispatcher.defaultHandler, dispatcher.re,
                             SortByTime(DueMessages(tagged.value.timestamp, tagged.value.children, parsedAt)))
    ensures WellTimed(calls, times, dispatcher.strictTiming, clock.now)
    ensures var tagged := Tagged(Node(timestamp, children)).value;
            forall k :: 0 <= k < |calls| ==>
              InTime(tagged.timestamp, tagged.children, parsedAt, calls[k], times[k], dispatcher.strictTiming)
  {
    hide ParsePacket, HandlersFor, Plan, SortByTime, DueMessages, GenuineLeaves, SlashLeaves, DgramIsBundle, InTime;
    OneTree(timestamp, children);
    var built := BuildTree(Node(timestamp, children));
    var finished, results;
    ghost var readings;
    finished, results, parsedAt, calls, times, readings :=
      dispatcher.CallHandlersForPacket(Dgram(built.value), clock, reply);
    BundleDelivers(timestamp, children, parsedAt);
    TreeRoundTrip(timestamp, children);
    BuiltIsBundle(timestamp, children);
    TreeInTime(built.value, Dgram(built.value), parsedAt, dispatcher.registry, dispatcher.defaultHandler, dispatcher.re,
               calls, times, dispatcher.strictTiming, clock.now);
  }

  lemma OneTree(timestamp: real, children: seq<Tree>)
    requires GenuineLeaves(children) && SlashLeaves(children)
    ensures BuildTree(Node(timestamp, children)).Ok? <==> Writable([Node(timestamp, children)])
  {
    hide ParseMessage, DgramIsMessage, BuildBundle, SizesFit, WriteDate;
    TreesWritable(children);
    TreesBuildBack(children);
    NodeWritable(timestamp, children);
    var none: seq<Tree> := [Node(timestamp, children)][1..];
    assert none == [];
  }
}
