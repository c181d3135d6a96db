/**
  dispatcher.py: registrations, the choice of handlers for a message, and the timed loop that
  invokes them (OSC 1.0 specification, sections "OSC Message Dispatching and Pattern
  Matching" and "Temporal Semantics and OSC Time Tags").
*/
module Dispatcher {
  import opened Wrappers
  import opened Bytes
  import opened PyValues
  import opened RegularExpression
  import opened AddressPattern
  import OscMessage
  import opened OscBundle
  import opened OscPacket

  datatype Handler = Handler(callback: nat, args: seq<Value>, needsReplyAddress: bool)

  // ----- which handlers a message gets

  /**
    A registered address with `*` as a pattern for the incoming address: `*` becomes `.*?`,
    and a dot stays what it is for Python, any character; both stop only at a newline.  The
    dollar sign also matches before a final newline.
  */
  predicate WildcardMatches(registered: bytes, address: bytes)
    decreases |registered|, |address|
  {
    if registered == [] then address == [] || address == [NEWLINE]
    else if registered[0] == STAR then
      WildcardMatches(registered[1..], address) ||
      (address != [] && address[0] != NEWLINE && WildcardMatches(registered, address[1..]))
    else
      && address != []
      && (if registered[0] == DOT then address[0] != NEWLINE else address[0] == registered[0])
      && WildcardMatches(registered[1..], address[1..])
  }

  /** No character that Python's expressions give a meaning, apart from star and dot. */
  predicate Ordinary(registered: bytes) {
    forall c :: c in registered ==> (Special(c) ==> c == STAR || c == DOT) && c != OPEN_SET && c != OPEN_BRACE
  }

  /**
    `re.match` of a registered address with `*`, which the source does not escape, for the
    registered addresses that are not ordinary.
  */
  type Engine = (bytes, bytes) -> bool

  predicate KeyMatches(items: seq<Item>, pattern: bytes, registered: bytes, re: Engine) {
    || Matches(items, registered)
    || (STAR in registered &&
        if Ordinary(registered) then WildcardMatches(registered, pattern) else re(registered, pattern))
  }

  /** A Python dictionary of lists: its keys in insertion order, and the list of each key. */
  datatype Registry = Registry(keys: seq<bytes>, lists: map<bytes, seq<Handler>>) {
    ghost predicate Valid() {
      && (forall i, j :: 0 <= i < j < |keys| ==> keys[i] != keys[j])
      && (forall k :: k in keys <==> k in lists)
    }

    /** The list of a key that may be missing. */
    function Get(address: bytes): seq<Handler> {
      if address in lists then lists[address] else []
    }

    function Set(address: bytes, handlers: seq<Handler>): (r: Registry)
      requires Valid()
      ensures r.Valid()
    {
      Registry(if address in lists then keys else keys + [address], lists[address := handlers])
    }
  }

  /** Python's `list.remove`: the first equal element; None if there is none. */
  function RemoveFirst(hs: seq<Handler>, h: Handler): Option<seq<Handler>> {
    if hs == [] then None
    else if hs[0] == h then Some(hs[1..])
    else match RemoveFirst(hs[1..], h) case None => None case Some(rest) => Some([hs[0]] + rest)
  }

  lemma {:induction false} RemoveFirstIsFirst(a: seq<Handler>, h: Handler, b: seq<Handler>)
    requires h !in a
    ensures RemoveFirst(a + [h] + b, h) == Some(a + b)
  {
    if a == [] {
      assert ([] + [h] + b)[1..] == b && [] + b == b;
    } else {
      assert (a + [h] + b)[1..] == a[1..] + [h] + b;
      RemoveFirstIsFirst(a[1..], h, b);
      assert [a[0]] + (a[1..] + b) == a + b;
    }
  }

  /** Setting a list keeps the order of the keys, a new key comes last, and the other lists stay. */
  lemma SetList(reg: Registry, address: bytes, handlers: seq<Handler>)
    requires reg.Valid()
    ensures var r := reg.Set(address, handlers);
            && r.Get(address) == handlers
            && (forall other :: other != address ==> r.Get(other) == reg.Get(other))
            && (address in reg.keys ==> r.keys == reg.keys)
            && (address !in reg.keys ==> r.keys == reg.keys + [address])
  {
  }

  /** The handlers registered under the first `n` keys that match, key by key. */
  function Matched(reg: Registry, items: seq<Item>, pattern: bytes, n: nat, re: Engine): seq<Handler>
    requires n <= |reg.keys|
  {
    if n == 0 then []
    else
      Matched(reg, items, pattern, n - 1, re) +
      if KeyMatches(items, pattern, reg.keys[n - 1], re) then reg.Get(reg.keys[n - 1]) else []
  }

  predicate SomeKeyMatches(reg: Registry, items: seq<Item>, pattern: bytes, re: Engine) {
    exists k :: 0 <= k < |reg.keys| && KeyMatches(items, pattern, reg.keys[k], re)
  }

  /**
    The handlers for an incoming address: all matching registrations, or the default handler;
    none at all if its expression does not compile.
  */
  function HandlersFor(reg: Registry, default: Option<Handler>, pattern: bytes, re: Engine): seq<Handler> {
    match Compile(pattern)
    case Err(_) => []
    case Ok(items) =>
      Matched(reg, items, pattern, |reg.keys|, re) +
      if !SomeKeyMatches(reg, items, pattern, re) && default.Some? then [default.value] else []
  }

  /** An incoming address without a match gets the default handler alone. */
  lemma {:induction false} NothingMatched(reg: Registry, items: seq<Item>, pattern: bytes, n: nat, re: Engine)
    requires n <= |reg.keys| && forall k :: 0 <= k < n ==> !KeyMatches(items, pattern, reg.keys[k], re)
    ensures Matched(reg, items, pattern, n, re) == []
  {
    if n > 0 {
      NothingMatched(reg, items, pattern, n - 1, re);
    }
  }

  /** Every handler comes from a matching key, once for each of its registrations there. */
  lemma {:induction false} MatchedCount(reg: Registry, items: seq<Item>, pattern: bytes, n: nat, re: Engine, h: Handler)
    requires n <= |reg.keys|
    ensures multiset(Matched(reg, items, pattern, n, re))[h] == Registrations(reg, items, pattern, n, re, h)
  {
    if n > 0 {
      MatchedCount(reg, items, pattern, n - 1, re, h);
    }
  }

  function Registrations(reg: Registry, items: seq<Item>, pattern: bytes, n: nat, re: Engine, h: Handler): nat
    requires n <= |reg.keys|
  {
    if n == 0 then 0
    else
      Registrations(reg, items, pattern, n - 1, re, h) +
      if KeyMatches(items, pattern, reg.keys[n - 1], re) then multiset(reg.Get(reg.keys[n - 1]))[h] else 0
  }

  /** The number of handlers under the matching keys before key `n`. */
  function HandlersBefore(reg: Registry, items: seq<Item>, pattern: bytes, n: nat, re: Engine): nat
    requires n <= |reg.keys|
  {
    if n == 0 then 0
    else
      HandlersBefore(reg, items, pattern, n - 1, re) +
      if KeyMatches(items, pattern, reg.keys[n - 1], re) then |reg.Get(reg.keys[n - 1])| else 0
  }

  lemma {:induction false} MatchedBlock(reg: Registry, items: seq<Item>, pattern: bytes, n: nat, k: nat, re: Engine)
    requires k < n <= |reg.keys| && KeyMatches(items, pattern, reg.keys[k], re)
    ensures |Matched(reg, items, pattern, n, re)| == HandlersBefore(reg, items, pattern, n, re)
    ensures var start, list := HandlersBefore(reg, items, pattern, k, re), reg.Get(reg.keys[k]);
            && start + |list| <= |Matched(reg, items, pattern, n, re)|
            && Matched(reg, items, pattern, n, re)[start..start + |list|] == list
  {
    hide KeyMatches;
    MatchedLength(reg, items, pattern, n, re);
    if k < n - 1 {
      MatchedBlock(reg, items, pattern, n - 1, k, re);
    } else {
      MatchedLength(reg, items, pattern, k, re);
    }
  }

  lemma {:induction false} MatchedLength(reg: Registry, items: seq<Item>, pattern: bytes, n: nat, re: Engine)
    requires n <= |reg.keys|
    ensures |Matched(reg, items, pattern, n, re)| == HandlersBefore(reg, items, pattern, n, re)
  {
    hide KeyMatches;
    if n > 0 {
      MatchedLength(reg, items, pattern, n - 1, re);
    }
  }

  /**
    The handlers come in map order: the list of a matching key follows directly on the lists
    of the matching keys before it, and there is nothing else.
  */
  lemma HandlersInMapOrder(reg: Registry, default: Option<Handler>, pattern: bytes, re: Engine, k: nat)
    requires Compile(pattern).Ok? && k < |reg.keys|
    requires KeyMatches(Compile(pattern).value, pattern, reg.keys[k], re)
    ensures var items, hs := Compile(pattern).value, HandlersFor(reg, default, pattern, re);
            var start, list := HandlersBefore(reg, items, pattern, k, re), reg.Get(reg.keys[k]);
            && |hs| == HandlersBefore(reg, items, pattern, |reg.keys|, re)
            && start + |list| <= |hs| && hs[start..start + |list|] == list
  {
    hide KeyMatches, Compile;
    var items := Compile(pattern).value;
    MatchedBlock(reg, items, pattern, |reg.keys|, k, re);
    assert SomeKeyMatches(reg, items, pattern, re);
    hide Matched;
    assert HandlersFor(reg, default, pattern, re) == Matched(reg, items, pattern, |reg.keys|, re);
  }

  /**
    A handler is among the handlers for a message exactly if the expression of its address
    compiles, and some matching key has the handler, or no key matches and it is the default.
  */
  lemma HandlerChosen(reg: Registry, default: Option<Handler>, pattern: bytes, re: Engine, h: Handler)
    ensures h in HandlersFor(reg, default, pattern, re) <==>
            && Compile(pattern).Ok?
            && var items := Compile(pattern).value;
               || (exists k :: 0 <= k < |reg.keys| &&
                     KeyMatches(items, pattern, reg.keys[k], re) && h in reg.Get(reg.keys[k]))
               || (!SomeKeyMatches(reg, items, pattern, re) && default == Some(h))
  {
    hide KeyMatches, Compile;
    if Compile(pattern).Ok? {
      MatchedMember(reg, Compile(pattern).value, pattern, |reg.keys|, re, h);
    }
  }

  lemma {:induction false} MatchedMember(
    reg: Registry, items: seq<Item>, pattern: bytes, n: nat, re: Engine, h: Handler)
    requires n <= |reg.keys|
    ensures h in Matched(reg, items, pattern, n, re) <==>
            exists k :: 0 <= k < n && KeyMatches(items, pattern, reg.keys[k], re) && h in reg.Get(reg.keys[k])
  {
    if n > 0 {
      MatchedMember(reg, items, pattern, n - 1, re, h);
    }
  }

  /** Every matching key has an empty list. */
  predicate MatchesAreEmpty(reg: Registry, items: seq<Item>, pattern: bytes, n: nat, re: Engine)
    requires n <= |reg.keys|
  {
    forall k :: 0 <= k < n && KeyMatches(items, pattern, reg.keys[k], re) ==> reg.Get(reg.keys[k]) == []
  }

  /**
    The documentation of `set_default_handler` promises the default handler whenever no
    other handler is mapped to an address.  The code keeps that promise exactly if the
    expression of the address compiles, and some matching key has a handler or no key
    matches; a matching key with an empty list, as `unmap` leaves it behind, silences the
    message, and so does an expression that `re.compile` refuses.
  */
  lemma DefaultHandlerRule(reg: Registry, default: Handler, pattern: bytes, re: Engine)
    ensures HandlersFor(reg, Some(default), pattern, re) == [] <==>
            || Compile(pattern).Err?
            || (var items := Compile(pattern).value;
                SomeKeyMatches(reg, items, pattern, re) && MatchesAreEmpty(reg, items, pattern, |reg.keys|, re))
  {
    hide KeyMatches, Compile, MatchesAreEmpty;
    if Compile(pattern).Ok? {
      MatchedEmpty(reg, Compile(pattern).value, pattern, |reg.keys|, re);
    }
  }

  lemma {:induction false} MatchedEmpty(reg: Registry, items: seq<Item>, pattern: bytes, n: nat, re: Engine)
    requires n <= |reg.keys|
    ensures Matched(reg, items, pattern, n, re) == [] <==> MatchesAreEmpty(reg, items, pattern, n, re)
  {
    if n > 0 {
      MatchedEmpty(reg, items, pattern, n - 1, re);
    }
  }

  /** An address with a set that is left open gets no handler, whatever is registered: for instance "/a[". */
  lemma LeftOpenSilences(reg: Registry, default: Option<Handler>, pattern: bytes, re: Engine)
    requires LeftOpen(pattern)
    ensures HandlersFor(reg, default, pattern, re) == []
    ensures LeftOpen([SLASH, 0x61, OPEN_SET])
  {
    LeftOpenRefused(pattern);
    var p: bytes := [SLASH, 0x61, OPEN_SET];
    assert Tail(p) == [0x61, OPEN_SET] && Tail(Tail(p)) == [OPEN_SET];
    assert EmptySet([OPEN_SET]);
  }

  /** An address without pattern characters. */
  predicate NoPattern(address: bytes) {
    STAR !in address && QUESTION !in address && OPEN_SET !in address && OPEN_ALT !in address
  }

  /** As a pattern, such an address accepts itself, and itself with a newline, and nothing else. */
  lemma PlainAccepts(address: bytes, s: bytes)
    requires NoPattern(address)
    ensures Compile(address).Ok?
    ensures Matches(Compile(address).value, s) <==> s == address || s == address + [NEWLINE]
  {
    hide Accepts, Translate;
    PlainCompiles(address);
    PlainTranslates(address, s);
    if s != [] {
      PlainTranslates(address, s[..|s| - 1]);
    }
  }

  lemma {:induction false} PlainCompiles(address: bytes)
    requires NoPattern(address)
    ensures Compile(address) == Ok(Translate(address))
  {
    CompileIsRead(address);
    hide Compile;
    if address != [] {
      assert address == [address[0]] + address[1..] && address[0] in address;
      PlainCompiles(address[1..]);
      CompileIsRead(address[1..]);
    }
  }

  lemma {:induction false} PlainTranslates(address: bytes, s: bytes)
    requires NoPattern(address)
    ensures Accepts(Translate(address), s) <==> s == address
  {
    if address != [] {
      var tail := address[1..];
      assert address == [address[0]] + tail;
      assert address[0] in address;
      assert Translate(address) == [Literal(address[0])] + Translate(tail);
      assert Translate(address)[1..] == Translate(tail);
      if s != [] {
        PlainTranslates(tail, s[1..]);
        assert s == [s[0]] + s[1..];
      }
    }
  }

  /** No newline, except perhaps as the last character. */
  predicate OneLine(s: bytes) {
    NEWLINE !in if s != [] && s[|s| - 1] == NEWLINE then s[..|s| - 1] else s
  }

  lemma {:induction false} StarMatches(s: bytes)
    ensures WildcardMatches([STAR], s) <==> OneLine(s)
  {
    var none: bytes := [STAR][1..];
    assert none == [];
    if s != [] {
      var tail := s[1..];
      StarMatches(tail);
      assert s == [s[0]] + tail;
      if tail != [] {
        assert s[|s| - 1] == tail[|tail| - 1];
        assert s[..|s| - 1] == [s[0]] + tail[..|tail| - 1];
      }
    }
  }

  /** `s` starts with `prefix`, where a dot of the prefix is any character but a newline. */
  predicate StartsLike(prefix: bytes, s: bytes) {
    && |prefix| <= |s|
    && forall k :: 0 <= k < |prefix| ==> if prefix[k] == 0x2E then s[k] != 0x0A else s[k] == prefix[k]
  }

  lemma {:induction false} TrailingStar(prefix: bytes, s: bytes)
    requires STAR !in prefix
    ensures WildcardMatches(prefix + [STAR], s) <==> StartsLike(prefix, s) && OneLine(s[|prefix|..])
  {
    var registered := prefix + [STAR];
    if prefix == [] {
      assert registered == [STAR] && s[0..] == s;
      StarMatches(s);
    } else {
      var tail := prefix[1..];
      assert prefix == [prefix[0]] + tail;
      assert registered[0] == prefix[0] && registered[1..] == tail + [STAR];
      assert prefix[0] in prefix;
      hide OneLine;
      if s != [] {
        TrailingStar(tail, s[1..]);
        StartsLikeFirst(prefix, s);
        assert |prefix| <= |s| ==> s[|prefix|..] == s[1..][|tail|..];
      }
    }
  }

  lemma StartsLikeFirst(prefix: bytes, s: bytes)
    requires prefix != [] && s != []
    ensures StartsLike(prefix, s) <==>
            (if prefix[0] == DOT then s[0] != NEWLINE else s[0] == prefix[0]) && StartsLike(prefix[1..], s[1..])
  {
    assert prefix == [prefix[0]] + prefix[1..] && s == [s[0]] + s[1..];
    forall k | 0 < k < |prefix| <= |s|
      ensures prefix[k] == prefix[1..][k - 1] && s[k] == s[1..][k - 1]
    {
    }
  }

  /** Without a star, a registered address matches itself, its dots matching any character, or that with a newline. */
  lemma {:induction false} StarlessMatches(registered: bytes, s: bytes)
    requires 0x2A !in registered
    ensures WildcardMatches(registered, s) <==>
            StartsLike(registered, s) && (|s| == |registered| || s[|registered|..] == [0x0A])
  {
    if registered == [] {
      assert s[0..] == s;
    } else {
      var tail := registered[1..];
      assert registered == [registered[0]] + tail && registered[0] in registered;
      if s != [] {
        StarlessMatches(tail, s[1..]);
        StartsLikeFirst(registered, s);
        assert |registered| <= |s| ==> s[|registered|..] == s[1..][|tail|..];
      }
    }
  }

  /** From index `n` on, a star takes the text up to index `k`, without a newline, and `rest` matches what follows. */
  predicate StarTakes(n: nat, k: nat, rest: bytes, s: bytes) {
    n <= k <= |s| && 0x0A !in s[n..k] && WildcardMatches(rest, s[k..])
  }

  /** A star of a registered address matches any text without a newline. */
  lemma {:induction false} StarSplits(prefix: bytes, rest: bytes, s: bytes)
    requires 0x2A !in prefix
    ensures WildcardMatches(prefix + [0x2A] + rest, s) <==>
            StartsLike(prefix, s) && exists k: nat :: StarTakes(|prefix|, k, rest, s)
    decreases |prefix|, |s|
  {
    var registered := prefix + [0x2A] + rest;
    if prefix == [] {
      assert registered == [0x2A] + rest;
      StarRun(rest, s);
    } else {
      var tail := prefix[1..];
      assert prefix == [prefix[0]] + tail && prefix[0] in prefix;
      assert registered[0] == prefix[0] && registered[1..] == tail + [0x2A] + rest;
      hide StarTakes;
      if s != [] {
        StarSplits(tail, rest, s[1..]);
        StartsLikeFirst(prefix, s);
        ShiftedSplit(|prefix|, rest, s);
      }
    }
  }

  lemma ShiftedSplit(n: nat, rest: bytes, s: bytes)
    requires n > 0 && s != []
    ensures var m: nat, tail := n - 1, s[1..];
            (exists k: nat :: StarTakes(n, k, rest, s)) <==> exists k: nat :: StarTakes(m, k, rest, tail)
  {
    hide StarTakes;
    var m: nat, tail := n - 1, s[1..];
    if k: nat :| StarTakes(n, k, rest, s) {
      TakesShifted(n, k, rest, s);
      var j: nat := k - 1;
      assert StarTakes(m, j, rest, tail);
    }
    if k: nat :| StarTakes(m, k, rest, tail) {
      TakesShifted(n, k + 1, rest, s);
    }
  }

  lemma TakesShifted(n: nat, k: nat, rest: bytes, s: bytes)
    requires n > 0 && s != []
    ensures StarTakes(n, k, rest, s) ==> k > 0 && StarTakes(n - 1, k - 1, rest, s[1..])
    ensures k > 0 && StarTakes(n - 1, k - 1, rest, s[1..]) ==> StarTakes(n, k, rest, s)
  {
    hide WildcardMatches;
    if n <= k <= |s| {
      assert s[1..][n - 1..k - 1] == s[n..k] && s[1..][k - 1..] == s[k..];
    }
  }

  lemma {:induction false} StarRun(rest: bytes, s: bytes)
    ensures WildcardMatches([0x2A] + rest, s) <==> exists k: nat :: StarTakes(0, k, rest, s)
  {
    var registered := [0x2A] + rest;
    assert registered[1..] == rest && s[0..] == s && s[0..0] == [];
    assert StarTakes(0, 0, rest, s) <==> WildcardMatches(rest, s);
    if s != [] {
      var tail := s[1..];
      StarRun(rest, tail);
      hide StarTakes;
      if k: nat :| StarTakes(0, k, rest, tail) {
        TakesFirst(k + 1, rest, s);
      }
      if k: nat :| StarTakes(0, k, rest, s) {
        if k > 0 {
          TakesFirst(k, rest, s);
          var j: nat := k - 1;
          assert StarTakes(0, j, rest, tail);
        }
      }
    } else {
      assert forall k: nat :: StarTakes(0, k, rest, s) ==> k == 0;
    }
  }

  lemma TakesFirst(k: nat, rest: bytes, s: bytes)
    requires k > 0 && s != []
    ensures StarTakes(0, k, rest, s) <==> s[0] != 0x0A && StarTakes(0, k - 1, rest, s[1..])
  {
    hide WildcardMatches;
    if k <= |s| {
      assert s[0..k] == [s[0]] + s[1..][0..k - 1] && s[1..][k - 1..] == s[k..];
    }
  }

  /** What a registered address can match by, character by character. */
  lemma KeyMatchesBy(items: seq<Item>, pattern: bytes, registered: bytes, re: Engine)
    ensures var odd := exists c :: c in registered && c in [0x5C, 0x5E, 0x24, 0x7C, 0x28, 0x29, 0x2B, 0x3F, 0x5B, 0x7B];
            KeyMatches(items, pattern, registered, re) <==>
            || Matches(items, registered)
            || (0x2A in registered && if odd then re(registered, pattern) else WildcardMatches(registered, pattern))
  {
    hide Matches, WildcardMatches;
  }

  /**
    A registration of an ordinary prefix with slash and star gets exactly the incoming
    addresses without pattern characters strictly below that prefix, at any depth; a dot of
    the prefix stands for any character.  It never gets the prefix itself.
  */
  lemma SubtreeRegistration(prefix: bytes, address: bytes, re: Engine)
    requires Ordinary(prefix) && STAR !in prefix && NoPattern(address)
    ensures Compile(address).Ok? && Compile(prefix).Ok?
    ensures KeyMatches(Compile(address).value, address, prefix + [SLASH, STAR], re) <==>
            StartsLike(prefix + [SLASH], address) && OneLine(address[|prefix| + 1..])
    ensures DOT !in prefix ==> (StartsLike(prefix + [SLASH], address) <==> prefix + [SLASH] <= address)
    ensures !KeyMatches(Compile(prefix).value, prefix, prefix + [SLASH, STAR], re)
  {
    hide KeyMatches, Compile, OneLine;
    OrdinaryIsPlain(prefix);
    SubtreeOf(prefix, address, re);
    SubtreeOf(prefix, prefix, re);
    if DOT !in prefix {
      StartsWith(prefix + [SLASH], address);
    }
  }

  lemma OrdinaryIsPlain(prefix: bytes)
    requires Ordinary(prefix) && STAR !in prefix
    ensures NoPattern(prefix)
  {
    assert Special(QUESTION);
  }

  lemma StartsWith(prefix: bytes, s: bytes)
    requires DOT !in prefix
    ensures StartsLike(prefix, s) <==> prefix <= s
  {
    assert forall k :: 0 <= k < |prefix| ==> prefix[k] in prefix;
    if StartsLike(prefix, s) {
      assert s[..|prefix|] == prefix;
    }
  }

  lemma SubtreeOf(prefix: bytes, address: bytes, re: Engine)
    requires Ordinary(prefix) && STAR !in prefix && NoPattern(address)
    ensures Compile(address).Ok?
    ensures KeyMatches(Compile(address).value, address, prefix + [SLASH, STAR], re) <==>
            StartsLike(prefix + [SLASH], address) && OneLine(address[|prefix| + 1..])
  {
    var registered := prefix + [SLASH, STAR];
    assert registered == prefix + [SLASH] + [STAR];
    assert registered[|registered| - 1] == STAR && STAR in registered;
    assert Ordinary(registered);
    PlainAccepts(address, registered);
    assert registered != address && registered != address + [NEWLINE];
    hide OneLine, Matches, WildcardMatches, StartsLike, Compile, Ordinary;
    TrailingStar(prefix + [SLASH], address);
  }

  /** Mapping a handler and unmapping it again silences its address for the default handler. */
  lemma UnmapSilences(address: bytes, h: Handler, default: Handler, re: Engine)
    requires NoPattern(address)
    ensures var empty := Registry([], map[]);
            var unmapped := empty.Set(address, [h]).Set(address, RemoveFirst([h], h).value);
            && HandlersFor(empty, Some(default), address, re) == [default]
            && HandlersFor(unmapped, Some(default), address, re) == []
  {
    var empty := Registry([], map[]);
    var reg := empty.Set(address, [h]).Set(address, RemoveFirst([h], h).value);
    PlainAccepts(address, address);
    hide Compile, Matches, WildcardMatches;
    var items := Compile(address).value;
    NothingMatched(empty, items, address, 0, re);
    assert reg.keys == [address] && reg.Get(address) == [];
    assert KeyMatches(items, address, reg.keys[0], re);
    DefaultHandlerRule(reg, default, address, re);
  }

  // ----- the clock

  /** Wall-clock time, which passes between any two readings; `slept` records the sleeps that were asked for. */
  class Clock {
    var now: real
    ghost var slept: seq<real>

    constructor (start: real)
      ensures now == start && slept == []
    {
      now, slept := start, [];
    }

    /** `time.time()` */
    method Time() returns (t: real)
      modifies this
      ensures old(now) <= now && t == now && slept == old(slept)
    {
      var passed: real := *;
      if passed > 0.0 {
        now := now + passed;
      }
      t := now;
    }

    /** `time.sleep(d)` */
    method Sleep(d: real)
      requires d >= 0.0
      modifies this
      ensures now >= old(now) + d && slept == old(slept) + [d]
    {
      now, slept := now + d, slept + [d];
      var t := Time();
    }
  }

  // ----- dispatching a packet

  /** What is to be invoked: a handler, with a message and the time the message is due. */
  datatype Call = Call(due: real, handler: Handler, message: OscMessage.Message)

  function CallsOf(m: TimedMessage, hs: seq<Handler>): (calls: seq<Call>)
    ensures |calls| == |hs|
  {
    seq(|hs|, k requires 0 <= k < |hs| => Call(m.time, hs[k], m.message))
  }

  /** The calls for a list of messages: message by message, handler by handler. */
  function Plan(reg: Registry, default: Option<Handler>, re: Engine, msgs: seq<TimedMessage>): seq<Call> {
    if msgs == [] then []
    else CallsOf(msgs[0], HandlersFor(reg, default, msgs[0].message.address, re)) + Plan(reg, default, re, msgs[1..])
  }

  /** The number of calls for the first `n` messages. */
  function CallsBefore(reg: Registry, default: Option<Handler>, re: Engine, msgs: seq<TimedMessage>, n: nat): nat
    requires n <= |msgs|
  {
    if n == 0 then 0
    else CallsBefore(reg, default, re, msgs, n - 1) + |HandlersFor(reg, default, msgs[n - 1].message.address, re)|
  }

  /** The calls for a message follow on those for the messages before it: its handlers, in order, when it is due. */
  lemma PlanBlock(reg: Registry, default: Option<Handler>, re: Engine, msgs: seq<TimedMessage>, k: nat, j: nat)
    requires k < |msgs| && j < |HandlersFor(reg, default, msgs[k].message.address, re)|
    ensures var plan, p := Plan(reg, default, re, msgs), CallsBefore(reg, default, re, msgs, k) + j;
            var h := HandlersFor(reg, default, msgs[k].message.address, re)[j];
            && |plan| == CallsBefore(reg, default, re, msgs, |msgs|)
            && p < |plan| && plan[p].due == msgs[k].time && plan[p].handler == h && plan[p].message == msgs[k].message
  {
    hide HandlersFor, Plan, CallsBefore;
    PlanTake(reg, default, re, msgs, k);
    PlanTake(reg, default, re, msgs, |msgs|);
    assert msgs[..|msgs|] == msgs && msgs == msgs[..k] + msgs[k..] && msgs[k..][0] == msgs[k];
    PlanAppend(reg, default, re, msgs[..k], msgs[k..]);
    PlanFirst(reg, default, re, msgs[k..], j);
  }

  lemma PlanFirst(reg: Registry, default: Option<Handler>, re: Engine, msgs: seq<TimedMessage>, j: nat)
    requires msgs != [] && j < |HandlersFor(reg, default, msgs[0].message.address, re)|
    ensures var m := msgs[0];
            && j < |Plan(reg, default, re, msgs)|
            && Plan(reg, default, re, msgs)[j]
               == Call(m.time, HandlersFor(reg, default, m.message.address, re)[j], m.message)
  {
    hide HandlersFor;
  }

  lemma {:induction false} PlanAppend(
    reg: Registry, default: Option<Handler>, re: Engine, a: seq<TimedMessage>, b: seq<TimedMessage>)
    ensures Plan(reg, default, re, a + b) == Plan(reg, default, re, a) + Plan(reg, default, re, b)
  {
    hide HandlersFor;
    if a == [] {
      assert a + b == b;
    } else {
      assert (a + b)[1..] == a[1..] + b;
      PlanAppend(reg, default, re, a[1..], b);
    }
  }

  lemma {:induction false} PlanTake(
    reg: Registry, default: Option<Handler>, re: Engine, msgs: seq<TimedMessage>, n: nat)
    requires n <= |msgs|
    ensures |Plan(reg, default, re, msgs[..n])| == CallsBefore(reg, default, re, msgs, n)
  {
    hide HandlersFor;
    if n > 0 {
      PlanTake(reg, default, re, msgs, n - 1);
      assert msgs[..n] == msgs[..n - 1] + [msgs[n - 1]];
      PlanAppend(reg, default, re, msgs[..n - 1], [msgs[n - 1]]);
      var none: seq<TimedMessage> := [msgs[n - 1]][1..];
      assert none == [];
    }
  }

  /** Every planned call belongs to a message. */
  lemma {:induction false} PlanFrom(
    reg: Registry, default: Option<Handler>, re: Engine, msgs: seq<TimedMessage>, p: nat)
    returns (k: nat)
    requires p < |Plan(reg, default, re, msgs)|
    ensures k < |msgs| && Plan(reg, default, re, msgs)[p].due == msgs[k].time
    ensures Plan(reg, default, re, msgs)[p].message == msgs[k].message
    ensures Plan(reg, default, re, msgs)[p].handler in HandlersFor(reg, default, msgs[k].message.address, re)
  {
    hide HandlersFor;
    var first := HandlersFor(reg, default, msgs[0].message.address, re);
    if p < |first| {
      k := 0;
    } else {
      k := PlanFrom(reg, default, re, msgs[1..], p - |first|);
      k := k + 1;
    }
  }

  predicate Ordered(calls: seq<Call>) {
    forall i, j :: 0 <= i < j < |calls| ==> calls[i].due <= calls[j].due
  }

  /** Messages in the order of their times are called in that order. */
  lemma {:induction false} PlanOrdered(reg: Registry, default: Option<Handler>, re: Engine, msgs: seq<TimedMessage>)
    requires Sorted(msgs)
    ensures Ordered(Plan(reg, default, re, msgs))
    ensures forall k :: 0 <= k < |Plan(reg, default, re, msgs)| ==>
              msgs != [] && msgs[0].time <= Plan(reg, default, re, msgs)[k].due
  {
    hide HandlersFor;
    if msgs != [] {
      PlanOrdered(reg, default, re, msgs[1..]);
      var rest := Plan(reg, default, re, msgs[1..]);
      assert forall k :: 0 <= k < |rest| ==> msgs[0].time <= msgs[1].time <= rest[k].due;
    }
  }

  /** The reply of a callback, if it has one: handlers are outside the model. */
  type Replies = (Handler, OscMessage.Message) -> Option<bytes>

  function Results(calls: seq<Call>, reply: Replies): seq<bytes> {
    if calls == [] then [] else ReplyTo(calls[0], reply) + Results(calls[1..], reply)
  }

  function ReplyTo(c: Call, reply: Replies): seq<bytes> {
    match reply(c.handler, c.message) case Some(r) => [r] case None => []
  }

  /** The replies so far, and the replies of later calls after them. */
  lemma ResultAt(calls: seq<Call>, k: nat, reply: Replies)
    requires k < |calls|
    ensures var r, before := reply(calls[k].handler, calls[k].message), |Results(calls[..k], reply)|;
            && (r.Some? ==> before < |Results(calls, reply)| && Results(calls, reply)[before] == r.value)
            && |Results(calls[..k + 1], reply)| == before + if r.Some? then 1 else 0
    ensures Results([], reply) == []
  {
    assert calls[..k + 1] == calls[..k] + [calls[k]] && calls == calls[..k + 1] + calls[k + 1..];
    ResultsSnoc(calls[..k], calls[k], reply);
    ResultsAppend(calls[..k + 1], calls[k + 1..], reply);
  }

  lemma ResultsSnoc(calls: seq<Call>, c: Call, reply: Replies)
    ensures Results(calls + [c], reply) == Results(calls, reply) + ReplyTo(c, reply)
  {
    hide ReplyTo;
    ResultsAppend(calls, [c], reply);
    var none: seq<Call> := [c][1..];
    assert none == [];
  }

  /** The times of the calls never go back, and under strict timing no call comes before it is due. */
  ghost predicate WellTimed(calls: seq<Call>, times: seq<real>, strict: bool, now: real) {
    && |times| == |calls|
    && (forall k :: 0 <= k < |times| ==> times[k] <= now && (strict ==> calls[k].due <= times[k]))
    && (forall i, j :: 0 <= i < j < |times| ==> times[i] <= times[j])
  }

  /** The sleeps for messages whose turn comes at these readings of the clock: up to the time each is due. */
  function Sleeps(msgs: seq<TimedMessage>, readings: seq<real>): seq<real>
    requires |readings| == |msgs|
  {
    if msgs == [] then []
    else
      Sleeps(msgs[..|msgs| - 1], readings[..|msgs| - 1]) +
      var m, now := msgs[|msgs| - 1], readings[|msgs| - 1];
      if m.time > now then [m.time - now] else []
  }

  lemma SleepsSnoc(msgs: seq<TimedMessage>, k: nat, readings: seq<real>, now: real)
    requires k < |msgs| && |readings| == k
    ensures Sleeps(msgs[..k + 1], readings + [now]) ==
            Sleeps(msgs[..k], readings) + if msgs[k].time > now then [msgs[k].time - now] else []
  {
    var taken, all := msgs[..k + 1], readings + [now];
    assert taken[..k] == msgs[..k] && all[..k] == readings && taken[k] == msgs[k];
  }

  lemma SleepsStep(first: seq<real>, msgs: seq<TimedMessage>, k: nat, readings: seq<real>, now: real, strict: bool,
                   before: seq<real>, after: seq<real>)
    requires k < |msgs| && |readings| == k
    requires before == first + if strict then Sleeps(msgs[..k], readings) else []
    requires after == before + if strict && msgs[k].time > now then [msgs[k].time - now] else []
    ensures after == first + if strict then Sleeps(msgs[..k + 1], readings + [now]) else []
  {
    SleepsSnoc(msgs, k, readings, now);
    hide Sleeps;
  }

  class Dispatcher {
    var registry: Registry
    var defaultHandler: Option<Handler>
    const strictTiming: bool
    const re: Engine

    constructor (strictTiming: bool, re: Engine)
      ensures registry == Registry([], map[]) && defaultHandler == None
      ensures this.strictTiming == strictTiming && this.re == re
    {
      registry, defaultHandler := Registry([], map[]), None;
      this.strictTiming, this.re := strictTiming, re;
    }

    method Map(address: bytes, h: Handler)
      requires registry.Valid()
      modifies this
      ensures registry == old(registry.Set(address, registry.Get(address) + [h]))
      ensures registry.Valid() && defaultHandler == old(defaultHandler)
    {
      registry := registry.Set(address, registry.Get(address) + [h]);
    }

    /** The key is created or kept even when nothing, or the last handler, is removed. */
    method Unmap(address: bytes, h: Handler) returns (ok: bool)
      requires registry.Valid()
      modifies this
      ensures ok == (h in old(registry.Get(address)))
      ensures registry == old(registry.Set(address, match RemoveFirst(registry.Get(address), h)
                                                    case Some(rest) => rest
                                                    case None => registry.Get(address)))
      ensures registry.Valid() && defaultHandler == old(defaultHandler)
    {
      var hs := registry.Get(address);
      RemoveFirstFinds(hs, h);
      match RemoveFirst(hs, h) {
        case None =>
          registry := registry.Set(address, hs);
          return false;
        case Some(rest) =>
          registry := registry.Set(address, rest);
          return true;
      }
    }

    method SetDefaultHandler(h: Option<Handler>)
      modifies this
      ensures defaultHandler == h && registry == old(registry)
    {
      defaultHandler := h;
    }

    method HandlersForAddress(pattern: bytes) returns (hs: seq<Handler>)
      ensures hs == HandlersFor(registry, defaultHandler, pattern, re)
    {
      var compiled := CompilePattern(pattern);
      hide KeyMatches, Compile;
      hs := [];
      if compiled.Err? {
        return;
      }
      var items, matched := compiled.value, false;
      for k := 0 to |registry.keys|
        invariant hs == Matched(registry, items, pattern, k, re)
        invariant matched <==> exists j :: 0 <= j < k && KeyMatches(items, pattern, registry.keys[j], re)
      {
        if KeyMatches(items, pattern, registry.keys[k], re) {
          hs := hs + registry.Get(registry.keys[k]);
          matched := true;
        }
      }
      if !matched && defaultHandler.Some? {
        hs := hs + [defaultHandler.value];
      }
    }

    /**
      Invokes the handlers of every message of the packet; not `finished` says that parsing the
      packet never ends.  The ghost results are the time at which the packet was parsed, the
      calls that were made, the times they were made, and when the turn of each message came.
    */
    method CallHandlersForPacket(data: bytes, clock: Clock, reply: Replies)
      returns (finished: bool, results: seq<bytes>,
               ghost parsedAt: real, ghost calls: seq<Call>, ghost times: seq<real>, ghost readings: seq<real>)
      modifies clock
      ensures old(clock.now) <= parsedAt
      ensures !finished <==> ParsePacket(data, parsedAt) == Err(BadContents(Endless))
      ensures match ParsePacket(data, parsedAt)
              case Err(_) => calls == []
              case Ok(msgs) => calls == Plan(registry, defaultHandler, re, msgs)
      ensures results == Results(calls, reply)
      ensures WellTimed(calls, times, strictTiming, clock.now)
      ensures forall k :: 0 <= k < |times| ==> parsedAt <= times[k]
      ensures var msgs := if ParsePacket(data, parsedAt).Ok? then ParsePacket(data, parsedAt).value else [];
              && |readings| == |msgs| && (forall k :: 0 <= k < |readings| ==> parsedAt <= readings[k])
              && clock.slept == old(clock.slept) + if strictTiming then Sleeps(msgs, readings) else []
    {
      hide ParsePacket, HandlersFor;
      finished, results, calls, times, readings := true, [], [], [], [];
      var now := clock.Time();
      parsedAt := now;
      var packet := ParsePacket(data, now);
      if packet.Err? {
        finished := packet.error != BadContents(Endless);
        return;
      }
      results, calls, times, readings := CallHandlersForMessages(packet.value, clock, reply);
    }

    /** The loop over the messages of a packet. */
    method CallHandlersForMessages(msgs: seq<TimedMessage>, clock: Clock, reply: Replies)
      returns (results: seq<bytes>, ghost calls: seq<Call>, ghost times: seq<real>, ghost readings: seq<real>)
      modifies clock
      ensures calls == Plan(registry, defaultHandler, re, msgs) && results == Results(calls, reply)
      ensures WellTimed(calls, times, strictTiming, clock.now)
      ensures forall k :: 0 <= k < |times| ==> old(clock.now) <= times[k]
      ensures |readings| == |msgs| && forall k :: 0 <= k < |readings| ==> old(clock.now) <= readings[k]
      ensures clock.slept == old(clock.slept) + if strictTiming then Sleeps(msgs, readings) else []
    {
      hide HandlersFor;
      results, calls, times, readings := [], [], [], [];
      assert msgs[0..] == msgs && msgs[..0] == [];
      hide WellTimed, Plan, Results, CallsOf, Sleeps;
      for k := 0 to |msgs|
        invariant calls + Plan(registry, defaultHandler, re, msgs[k..]) == Plan(registry, defaultHandler, re, msgs)
        invariant results == Results(calls, reply)
        invariant WellTimed(calls, times, strictTiming, clock.now)
        invariant old(clock.now) <= clock.now && forall i :: 0 <= i < |times| ==> old(clock.now) <= times[i]
        invariant |readings| == k && forall i :: 0 <= i < k ==> old(clock.now) <= readings[i]
        invariant clock.slept == old(clock.slept) + if strictTiming then Sleeps(msgs[..k], readings) else []
      {
        ghost var before, start, sleptBefore := calls, clock.now, clock.slept;
        var more;
        ghost var newCalls, newTimes, readAt;
        more, newCalls, newTimes, readAt := CallHandlers(msgs[k], clock, reply);
        SleepsStep(old(clock.slept), msgs, k, readings, readAt, strictTiming, sleptBefore, clock.slept);
        readings := readings + [readAt];
        PlanStep(registry, defaultHandler, re, msgs, k, before);
        ResultsAppend(calls, newCalls, reply);
        WellTimedAppend(calls, times, start, newCalls, newTimes, clock.now, strictTiming);
        results := results + more;
        calls, times := calls + newCalls, times + newTimes;
      }
      PlanEnds(registry, defaultHandler, re, msgs, calls);
      assert msgs[..|msgs|] == msgs;
    }

    /** One message: sleep until it is due, then invoke its handlers. */
    method CallHandlers(m: TimedMessage, clock: Clock, reply: Replies)
      returns (results: seq<bytes>, ghost calls: seq<Call>, ghost times: seq<real>, ghost readAt: real)
      modifies clock
      ensures calls == CallsOf(m, HandlersFor(registry, defaultHandler, m.message.address, re))
      ensures old(clock.now) <= readAt
      ensures clock.slept == old(clock.slept) + if strictTiming && m.time > readAt then [m.time - readAt] else []
      ensures results == Results(calls, reply)
      ensures WellTimed(calls, times, strictTiming, clock.now)
      ensures old(clock.now) <= clock.now && forall k :: 0 <= k < |times| ==> old(clock.now) <= times[k]
    {
      hide HandlersFor;
      var now := clock.Time();
      readAt := now;
      var handlers := HandlersForAddress(m.message.address);
      if strictTiming && m.time > now {
        clock.Sleep(m.time - now);
      }
      results, calls, times := InvokeAll(m, handlers, clock, reply);
    }

    /** The loop over the handlers of one message, whose time has come. */
    method InvokeAll(m: TimedMessage, handlers: seq<Handler>, clock: Clock, reply: Replies)
      returns (results: seq<bytes>, ghost calls: seq<Call>, ghost times: seq<real>)
      requires strictTiming ==> m.time <= clock.now
      modifies clock
      ensures calls == CallsOf(m, handlers) && results == Results(calls, reply)
      ensures WellTimed(calls, times, strictTiming, clock.now) && clock.slept == old(clock.slept)
      ensures old(clock.now) <= clock.now && forall k :: 0 <= k < |times| ==> old(clock.now) <= times[k]
    {
      hide Results, ReplyTo, WellTimed, CallsOf;
      results, calls, times := [], [], [];
      NothingCalled(m, handlers, reply, strictTiming, clock.now);
      for k := 0 to |handlers|
        invariant calls == CallsOf(m, handlers)[..k]
        invariant results == Results(calls, reply)
        invariant WellTimed(calls, times, strictTiming, clock.now) && clock.slept == old(clock.slept)
        invariant strictTiming ==> m.time <= clock.now
        invariant old(clock.now) <= clock.now && forall i :: 0 <= i < |times| ==> old(clock.now) <= times[i]
      {
        ghost var before := clock.now;
        var t := clock.Time();
        ghost var c := Call(m.time, handlers[k], m.message);
        ResultsSnoc(calls, c, reply);
        ReplyIs(c, reply);
        CallsSnoc(m, handlers, k);
        WellTimedSnoc(calls, times, strictTiming, before, c, t);
        var r := reply(handlers[k], m.message);
        if r.Some? {
          results := results + [r.value];
        }
        calls, times := calls + [c], times + [t];
      }
    }
  }

  lemma ReplyIs(c: Call, reply: Replies)
    ensures var r := reply(c.handler, c.message); ReplyTo(c, reply) == if r.Some? then [r.value] else []
  {
  }

  lemma NothingCalled(m: TimedMessage, hs: seq<Handler>, reply: Replies, strict: bool, now: real)
    ensures CallsOf(m, hs)[..0] == [] && CallsOf(m, hs)[..|hs|] == CallsOf(m, hs)
    ensures Results([], reply) == [] && WellTimed([], [], strict, now)
  {
  }

  lemma CallsSnoc(m: TimedMessage, hs: seq<Handler>, k: nat)
    requires k < |hs|
    ensures CallsOf(m, hs)[..k + 1] == CallsOf(m, hs)[..k] + [Call(m.time, hs[k], m.message)]
  {
  }

  lemma WellTimedSnoc(calls: seq<Call>, times: seq<real>, strict: bool, now: real, c: Call, t: real)
    requires WellTimed(calls, times, strict, now) && now <= t && (strict ==> c.due <= t)
    ensures WellTimed(calls + [c], times + [t], strict, t)
  {
  }

  lemma WellTimedAppend(a: seq<Call>, ta: seq<real>, start: real, b: seq<Call>, tb: seq<real>, end: real, strict: bool)
    requires WellTimed(a, ta, strict, start) && WellTimed(b, tb, strict, end) && start <= end
    requires forall k :: 0 <= k < |tb| ==> start <= tb[k]
    ensures WellTimed(a + b, ta + tb, strict, end)
  {
  }

  lemma PlanEnds(reg: Registry, default: Option<Handler>, re: Engine, msgs: seq<TimedMessage>, calls: seq<Call>)
    requires calls + Plan(reg, default, re, msgs[|msgs|..]) == Plan(reg, default, re, msgs)
    ensures calls == Plan(reg, default, re, msgs)
  {
    hide HandlersFor;
    assert msgs[|msgs|..] == [] && calls + [] == calls;
  }

  lemma {:induction false} RemoveFirstFinds(hs: seq<Handler>, h: Handler)
    ensures RemoveFirst(hs, h).Some? <==> h in hs
    ensures RemoveFirst(hs, h).Some? ==> multiset(RemoveFirst(hs, h).value) == multiset(hs) - multiset{h}
  {
    if hs != [] {
      assert hs == [hs[0]] + hs[1..];
      RemoveFirstFinds(hs[1..], h);
    }
  }

  lemma PlanStep(
    reg: Registry, default: Option<Handler>, re: Engine, msgs: seq<TimedMessage>, k: nat, before: seq<Call>)
    requires k < |msgs|
    requires before + Plan(reg, default, re, msgs[k..]) == Plan(reg, default, re, msgs)
    ensures before + CallsOf(msgs[k], HandlersFor(reg, default, msgs[k].message.address, re))
            + Plan(reg, default, re, msgs[k + 1..])
         == Plan(reg, default, re, msgs)
  {
    hide HandlersFor, CallsOf;
    assert msgs[k..][1..] == msgs[k + 1..];
  }

  lemma {:induction false} ResultsAppend(a: seq<Call>, b: seq<Call>, reply: Replies)
    ensures Results(a + b, reply) == Results(a, reply) + Results(b, reply)
  {
    hide ReplyTo;
    if a == [] {
      assert a + b == b;
    } else {
      assert (a + b)[1..] == a[1..] + b;
      ResultsAppend(a[1..], b, reply);
      var first := ReplyTo(a[0], reply);
      assert first + (Results(a[1..], reply) + Results(b, reply)) == first + Results(a[1..], reply) + Results(b, reply);
    }
  }

  /** The calls for any packet are ordered by the times their messages are due. */
  lemma PacketCallsOrdered(reg: Registry, default: Option<Handler>, re: Engine, data: bytes, now: real)
    requires ParsePacket(data, now).Ok?
    ensures Ordered(Plan(reg, default, re, ParsePacket(data, now).value))
  {
    PacketMessages(data, now);
    PlanOrdered(reg, default, re, ParsePacket(data, now).value);
  }
}
