/**
  osc_bundle.py: parsing a bundle, a recursive format of length-prefixed elements (OSC 1.0
  specification, section "OSC Bundles").

  The loop advances by the element size as it was read.  Sizes of -1, -2 and -3 skip the
  element; at -4 the index stays where it is, and below -4 it moves back, even to negative
  indexes, which Python counts from the end.  The loop may then never end: the result is
  Endless, and the model finds that out by counting iterations (`EndlessIffForever`).
*/
module OscBundle {
  import opened Wrappers
  import opened Bytes
  import Ntp
  import opened OscTypes
  import opened OscMessage

  const BUNDLE_PREFIX: bytes := [0x23, 0x62, 0x75, 0x6E, 0x64, 0x6C, 0x65, 0x00]

  /** A parsed element.  Messages and bundles keep the datagram they were parsed from. */
  datatype Element =
    | Single(message: Message)
    | Bundle(dgram: bytes, timestamp: real, contents: seq<Element>)

  /** The parser raises, or never returns. */
  datatype BundleFault = BadBundle | Endless

  function Dgram(e: Element): bytes {
    match e
    case Single(m) => m.dgram
    case Bundle(d, _, _) => d
  }

  predicate DgramIsBundle(d: bytes) {
    BUNDLE_PREFIX <= d
  }

  /** An element slice is kept as an element, dropped with a warning, or makes the parser raise or hang. */
  datatype Content = Kept(element: Element) | Dropped | Bad(fault: BundleFault)

  type ContentsResult = Result<seq<Element>, BundleFault>

  function ParseBundle(d: bytes): (r: Result<Element, BundleFault>)
    ensures r.Ok? ==> r.value.Bundle? && r.value.dgram == d
    decreases |d|, Limit(d) + 2
  {
    match GetDate(d, |BUNDLE_PREFIX|)
    case Malformed => Err(BadBundle)
    case Got(timestamp, i) =>
      match ParseContents(d, i, Limit(d))
      case Err(f) => Err(f)
      case Ok(contents) => Ok(Bundle(d, timestamp, contents))
  }

  /** One iteration of the loop: it ends, raises, parses an element for ever, or adds to the contents and moves on. */
  datatype Iteration = Ends | Raises | Hangs | Moves(next: int, added: seq<Element>)

  function Iterate(d: bytes, i: int): Iteration
    decreases |d|, 0
  {
    if From(d, i) == [] then Ends
    else
      match GetInt(d, i)
      case Malformed => Raises
      case Got(size, start) =>
        SliceShorter(d, i);
        match ParseContent(Slice(d, start, start + size))
        case Bad(BadBundle) => Raises
        case Bad(Endless) => Hangs
        case Dropped => Moves(start + size, [])
        case Kept(e) => Moves(start + size, [e])
  }

  /** A size can be read at no more than twice as many indexes as the datagram has bytes. */
  function Limit(d: bytes): nat {
    2 * |d|
  }

  /** What the loop gives from index `i` on; a loop that is not over after `limit` iterations is Endless. */
  function ParseContents(d: bytes, i: int, limit: nat): ContentsResult
    decreases |d|, limit + 1
  {
    match Iterate(d, i)
    case Ends => Ok([])
    case Raises => Err(BadBundle)
    case Hangs => Err(Endless)
    case Moves(next, added) =>
      if limit == 0 then Err(Endless)
      else
        match ParseContents(d, next, limit - 1)
        case Err(f) => Err(f)
        case Ok(rest) => Ok(added + rest)
  }

  function ParseContent(c: bytes): Content
    decreases |c|, Limit(c) + 3
  {
    if DgramIsBundle(c) then
      match ParseBundle(c) case Err(f) => Bad(f) case Ok(b) => Kept(b)
    else if DgramIsMessage(c) then
      match ParseMessage(c) case Err(_) => Bad(BadBundle) case Ok(m) => Kept(Single(m))
    else Dropped
  }

  /** The indexes at which a size can be read. */
  predicate Readable(d: bytes, i: int) {
    -|d| <= i < |d|
  }

  /** An element slice is shorter than the datagram it is taken from. */
  lemma SliceShorter(d: bytes, i: int)
    ensures GetInt(d, i).Got? ==>
              && Readable(d, i) && From(d, i) != []
              && GetInt(d, i).next == i + 4 && (if i < 0 then i + 4 < 0 else i + 4 <= |d|)
              && |Slice(d, i + 4, i + 4 + GetInt(d, i).value)| < |d|
  {
    hide Signed, FromBE;
  }

  // ----- the loop

  method Parse(d: bytes) returns (r: Result<Element, BundleFault>)
    ensures r == ParseBundle(d)
    decreases |d|, Limit(d) + 2
  {
    var date := GetDate(d, |BUNDLE_PREFIX|);
    if date.Malformed? {
      return Err(BadBundle);
    }
    var contents := ParseLoop(d, date.next);
    match contents {
      case Err(f) => return Err(f);
      case Ok(elements) => return Ok(Bundle(d, date.value, elements));
    }
  }

  /** The loop of the source, with a count of its iterations that stops it where the source goes on for ever. */
  method ParseLoop(d: bytes, start: int) returns (r: ContentsResult)
    ensures r == ParseContents(d, start, Limit(d))
    decreases |d|, Limit(d) + 1
  {
    hide GetInt, ParseBundle, ParseMessage, DgramIsBundle, DgramIsMessage, Slice, From;
    var index, contents: seq<Element> := start, [];
    var left := Limit(d);
    StartLoop(ParseContents(d, start, left));
    while From(d, index) != []
      invariant 0 <= left <= Limit(d)
      invariant Continues(contents, ParseContents(d, index, left), ParseContents(d, start, Limit(d)))
      decreases left
    {
      var word := GetInt(d, index);
      SliceShorter(d, index);
      if word.Malformed? {
        return Err(BadBundle);
      }
      var size, first := word.value, word.next;
      var c := Slice(d, first, first + size);
      ghost var before, added: seq<Element> := contents, [];
      if DgramIsBundle(c) {
        var bundle := Parse(c);
        if bundle.Err? {
          assert Iterate(d, index) == if bundle.error == Endless then Hangs else Raises;
          return Err(bundle.error);
        }
        added := [bundle.value];
        contents := contents + [bundle.value];
      } else if DgramIsMessage(c) {
        var message := ParseMessage(c);
        if message.Err? {
          assert Iterate(d, index) == Raises;
          return Err(BadBundle);
        }
        added := [Single(message.value)];
        contents := contents + [Single(message.value)];
      } else {
        assert contents + [] == contents;
      }
      assert Iterate(d, index) == Moves(first + size, added);
      if left == 0 {
        return Err(Endless);
      }
      ghost var whole := ParseContents(d, start, Limit(d));
      Continue(d, index, left, before, added, whole);
      index, left := first + size, left - 1;
    }
    assert contents + [] == contents;
    return Ok(contents);
  }

  /** What is still to be parsed completes `done` to the result of the whole loop. */
  predicate Continues(done: seq<Element>, rest: ContentsResult, whole: ContentsResult) {
    match rest
    case Err(f) => whole == Err(f)
    case Ok(elements) => whole == Ok(done + elements)
  }

  lemma StartLoop(whole: ContentsResult)
    ensures Continues([], whole, whole)
  {
    assert whole.Ok? ==> [] + whole.value == whole.value;
  }

  lemma Continue(d: bytes, i: int, limit: nat, done: seq<Element>, added: seq<Element>,
                 whole: ContentsResult)
    requires Iterate(d, i).Moves? && Iterate(d, i).added == added && limit > 0
    requires Continues(done, ParseContents(d, i, limit), whole)
    ensures Continues(done + added, ParseContents(d, Iterate(d, i).next, limit - 1), whole)
  {
    hide Iterate;
    var rest := ParseContents(d, Iterate(d, i).next, limit - 1);
    assert rest.Ok? ==> done + (added + rest.value) == done + added + rest.value;
  }

  // ----- elements in literal bytes

  /** Starts with `#bundle` and a zero byte. */
  predicate StartsBundle(c: bytes) {
    |c| >= 8 && c[..8] == [0x23, 0x62, 0x75, 0x6E, 0x64, 0x6C, 0x65, 0x00]
  }

  /** Starts with a slash. */
  predicate StartsMessage(c: bytes) {
    c != [] && c[0] == 0x2F
  }

  /** An element that starts neither like a bundle nor like a message is dropped; one that does must parse. */
  lemma ContentIs(c: bytes)
    ensures StartsBundle(c) ==>
              ParseContent(c) == if ParseBundle(c).Ok? then Kept(ParseBundle(c).value) else Bad(ParseBundle(c).error)
    ensures !StartsBundle(c) && StartsMessage(c) ==>
              ParseContent(c) ==
              if ParseMessage(c).Ok? then Kept(Single(ParseMessage(c).value)) else Bad(BadBundle)
    ensures !StartsBundle(c) && !StartsMessage(c) ==> ParseContent(c) == Dropped
  {
    assert BUNDLE_PREFIX <= c <==> |c| >= 8 && c[..8] == BUNDLE_PREFIX;
    hide ParseBundle, ParseMessage;
  }

  /** A bundle is read from byte 16 on; a datagram without a whole time tag is refused. */
  lemma BundleIs(d: bytes)
    ensures |d| < 16 ==> ParseBundle(d) == Err(BadBundle)
    ensures |d| >= 16 ==>
              GetDate(d, 8).Got? &&
              var contents := ParseContents(d, 16, Limit(d));
              ParseBundle(d) ==
              if contents.Ok? then Ok(Bundle(d, GetDate(d, 8).value, contents.value)) else Err(contents.error)
  {
    if |d| >= 16 {
      DateWord(d, 8, d[8..16]);
    } else {
      assert Slice(d, 8, 16) != Ntp.IMMEDIATELY;
    }
    hide ParseContents, GetWord, Slice;
  }

  /** One iteration at any index, with a size of any sign: the element is the slice that Python takes. */
  lemma IterationAt(d: bytes, i: int)
    ensures From(d, i) == [] ==> Iterate(d, i) == Ends
    ensures From(d, i) != [] && GetInt(d, i).Malformed? ==> Iterate(d, i) == Raises
    ensures GetInt(d, i).Got? ==>
              var size := GetInt(d, i).value;
              var content := ParseContent(Slice(d, i + 4, i + 4 + size));
              Iterate(d, i) == if content == Bad(BadBundle) then Raises
                               else if content == Bad(Endless) then Hangs
                               else Moves(i + 4 + size, if content.Kept? then [content.element] else [])
  {
    SliceShorter(d, i);
    hide GetInt, ParseContent, Slice, From;
  }

  /**
    One iteration at an index from 0 on: it ends at the end of the datagram, raises where the
    rest is too short for a size, and takes an element, up to the end of the datagram at most.
  */
  lemma IterationIs(d: bytes, i: nat)
    ensures i >= |d| ==> Iterate(d, i) == Ends
    ensures i < |d| < i + 4 ==> Iterate(d, i) == Raises
    ensures i + 4 <= |d| && GetInt(d, i).Got? && GetInt(d, i).value >= 0 ==>
              var size := GetInt(d, i).value;
              var content := ParseContent(d[i + 4..if i + 4 + size < |d| then i + 4 + size else |d|]);
              Iterate(d, i) == if content == Bad(BadBundle) then Raises
                               else if content == Bad(Endless) then Hangs
                               else Moves(i + 4 + size, if content.Kept? then [content.element] else [])
  {
    hide ParseContent, GetInt, Slice;
    SliceShorter(d, i);
    if i + 4 > |d| {
      NoSize(d, i);
    } else if GetInt(d, i).Got? && GetInt(d, i).value >= 0 {
      ForwardSlice(d, i + 4, GetInt(d, i).value);
      hide From;
    }
  }

  lemma NoSize(d: bytes, i: nat)
    requires i + 4 > |d|
    ensures GetInt(d, i) == Malformed
  {
    hide Signed, FromBE;
  }

  lemma ForwardSlice(d: bytes, start: nat, size: nat)
    requires start <= |d|
    ensures Slice(d, start, start + size) == d[start..if start + size < |d| then start + size else |d|]
  {
  }

  /** A body of elements with their sizes in front. */
  function Body(cs: seq<bytes>): bytes
    requires Sizeable(cs)
  {
    if cs == [] then [] else WriteInt(|cs[0]|).value + cs[0] + Body(cs[1..])
  }

  predicate Sizeable(cs: seq<bytes>) {
    forall k :: 0 <= k < |cs| ==> WriteInt(|cs[k]|).Some?
  }

  /** What the elements of a body parse to, when `rest` is left after them. */
  function ElementsOf(cs: seq<bytes>, rest: bytes): ContentsResult {
    if cs == [] then if rest == [] then Ok([]) else Err(BadBundle)
    else if StartsBundle(cs[0]) then
      match ParseBundle(cs[0])
      case Err(f) => Err(f)
      case Ok(b) => WithElement(b, ElementsOf(cs[1..], rest))
    else if StartsMessage(cs[0]) then
      match ParseMessage(cs[0])
      case Err(_) => Err(BadBundle)
      case Ok(m) => WithElement(Single(m), ElementsOf(cs[1..], rest))
    else ElementsOf(cs[1..], rest)
  }

  function WithElement(e: Element, r: ContentsResult): ContentsResult {
    match r case Err(f) => Err(f) case Ok(es) => Ok([e] + es)
  }

  /**
    Whatever the elements of a body are: they are kept, dropped, or make the bundle raise, one
    after the other, as their first bytes say; a rest too short for a size makes it raise.
  */
  lemma {:induction false} BodyParsed(d: bytes, i: nat, cs: seq<bytes>, rest: bytes, limit: nat)
    requires Sizeable(cs) && |rest| < 4 && limit >= |d| - i
    requires At(d, i, Body(cs) + rest) && i + |Body(cs) + rest| == |d|
    ensures ParseContents(d, i, limit) == ElementsOf(cs, rest)
    decreases |cs|
  {
    hide At, ParseContents, Iterate, GetInt, ParseContent, ParseBundle, ParseMessage, StartsBundle, StartsMessage;
    if cs == [] {
      BodyEnds(d, i, rest, limit);
    } else {
      var c := cs[0];
      BodyFirst(d, i, cs, rest);
      BodyParsed(d, i + 4 + |c|, cs[1..], rest, limit - 1);
      ContentIs(c);
      ElementThen(d, i, c, limit);
    }
  }

  lemma ElementThen(d: bytes, i: nat, c: bytes, limit: nat)
    requires i + 4 + |c| <= |d| && GetInt(d, i) == Got(|c|, i + 4) && d[i + 4..i + 4 + |c|] == c && limit > 0
    ensures var content, rest := ParseContent(c), ParseContents(d, i + 4 + |c|, limit - 1);
            ParseContents(d, i, limit) == if content.Bad? then Err(content.fault)
                                          else if content.Dropped? then rest
                                          else WithElement(content.element, rest)
  {
    hide ParseContents, Iterate, GetInt, ParseContent;
    WholeElement(d, i, c);
    OneIteration(d, i, limit);
    var content, rest := ParseContent(c), ParseContents(d, i + 4 + |c|, limit - 1);
    assert rest.Ok? ==> [] + rest.value == rest.value;
    if content.Bad? && content.fault == Endless {
      assert Iterate(d, i) == Hangs;
    }
  }

  lemma WholeElement(d: bytes, i: nat, c: bytes)
    requires i + 4 + |c| <= |d| && GetInt(d, i) == Got(|c|, i + 4) && d[i + 4..i + 4 + |c|] == c
    ensures var content := ParseContent(c);
            Iterate(d, i) == if content == Bad(BadBundle) then Raises
                             else if content == Bad(Endless) then Hangs
                             else Moves(i + 4 + |c|, if content.Kept? then [content.element] else [])
  {
    IterationIs(d, i);
    hide Iterate, GetInt, ParseContent;
    var next := i + 4 + |c|;
    assert d[i + 4..if next < |d| then next else |d|] == c;
  }

  lemma BodyEnds(d: bytes, i: nat, rest: bytes, limit: nat)
    requires At(d, i, [] + rest) && i + |rest| == |d| && |rest| < 4
    ensures ParseContents(d, i, limit) == if rest == [] then Ok([]) else Err(BadBundle)
  {
    IterationIs(d, i);
    hide Iterate;
  }

  lemma BodyFirst(d: bytes, i: nat, cs: seq<bytes>, rest: bytes)
    requires cs != [] && Sizeable(cs) && At(d, i, Body(cs) + rest) && i + |Body(cs) + rest| == |d|
    ensures Sizeable(cs[1..])
    ensures var c, next := cs[0], i + 4 + |cs[0]|;
            && i + 4 <= |d| && GetInt(d, i) == Got(|c|, i + 4) && next <= |d| && d[i + 4..next] == c
            && At(d, next, Body(cs[1..]) + rest) && next + |Body(cs[1..]) + rest| == |d|
  {
    SizeableTail(cs);
    hide Sizeable, WriteInt, GetInt, At;
    var c, size, tail := cs[0], WriteInt(|cs[0]|).value, Body(cs[1..]) + rest;
    IntWidth(|c|);
    BodyHead(cs, rest);
    hide Body;
    SizedElement(d, i, size, c, tail);
    IntAt(d, i, |c|);
  }

  lemma SizeableTail(cs: seq<bytes>)
    requires cs != [] && Sizeable(cs)
    ensures WriteInt(|cs[0]|).Some? && Sizeable(cs[1..])
  {
    hide WriteInt;
  }

  lemma Regroup(a: bytes, b: bytes, c: bytes, d: bytes)
    ensures a + b + c + d == a + (b + (c + d))
  {
  }

  lemma BodyHead(cs: seq<bytes>, rest: bytes)
    requires cs != [] && Sizeable(cs)
    ensures Sizeable(cs[1..]) && Body(cs) + rest == WriteInt(|cs[0]|).value + (cs[0] + (Body(cs[1..]) + rest))
  {
    hide WriteInt;
    SizeableTail(cs);
    var size, tail := WriteInt(|cs[0]|).value, Body(cs[1..]);
    assert Body(cs) == size + cs[0] + tail;
    hide Body, Sizeable;
    Regroup(size, cs[0], tail, rest);
  }

  lemma SizedElement(d: bytes, i: nat, size: bytes, c: bytes, tail: bytes)
    requires |size| == 4 && At(d, i, size + (c + tail))
    ensures i + 4 + |c| <= |d| && At(d, i, size) && d[i + 4..i + 4 + |c|] == c && At(d, i + 4 + |c|, tail)
  {
    AtAppend(d, i, size, c + tail);
    AtAppend(d, i + 4, c, tail);
  }

  /** An iteration that moves on leaves the rest to the following ones. */
  lemma OneIteration(d: bytes, i: int, limit: nat)
    requires limit > 0
    ensures var step := Iterate(d, i);
            && (step == Raises ==> ParseContents(d, i, limit) == Err(BadBundle))
            && (step == Hangs ==> ParseContents(d, i, limit) == Err(Endless))
            && (step.Moves? ==>
                  var rest := ParseContents(d, step.next, limit - 1);
                  ParseContents(d, i, limit) == if rest.Ok? then Ok(step.added + rest.value) else rest)
  {
    hide Iterate;
  }

  // ----- termination

  /** The index advances at sizes above -4 only, stays at -4, and moves back below. */
  lemma StepAdvances(d: bytes, i: int)
    requires Iterate(d, i).Moves?
    ensures GetInt(d, i).Got?
    ensures var size, next := GetInt(d, i).value, Iterate(d, i).next;
            && (next > i <==> size > -4) && (next == i <==> size == -4) && (next < i <==> size < -4)
  {
    SliceShorter(d, i);
    hide GetInt, ParseContent, Slice, From;
  }

  /** At a size of -4, and at -1, -2 and -3 on the way forward, the element is empty and dropped. */
  lemma NegativeSizeSkips(d: bytes, i: int)
    requires GetInt(d, i).Got?
    requires GetInt(d, i).value == -4 || (i >= 0 && -4 < GetInt(d, i).value < 0)
    ensures Iterate(d, i) == Moves(i + 4 + GetInt(d, i).value, [])
  {
    SliceShorter(d, i);
    var size := GetInt(d, i).value;
    EmptySlice(d, i + 4, size);
    hide GetInt, From, Slice;
  }

  lemma EmptySlice(d: bytes, start: int, size: int)
    requires size < 0 && (start < 0 || start + size >= 0)
    ensures Slice(d, start, start + size) == []
  {
  }

  /** The index after `n` iterations from index `i`; None if the loop ends, raises or hangs before. */
  function Walk(d: bytes, i: int, n: nat): Option<int>
    decreases n
  {
    if n == 0 then Some(i)
    else match Iterate(d, i)
      case Moves(next, _) => Walk(d, next, n - 1)
      case _ => None
  }

  /** The loop never ends. */
  ghost predicate Forever(d: bytes, i: int) {
    forall n: nat :: Walk(d, i, n).Some?
  }

  /** The loop reaches a nested bundle that is parsed for ever. */
  ghost predicate HangsInside(d: bytes, i: int) {
    exists n: nat :: HangsAfter(d, i, n)
  }

  predicate HangsAfter(d: bytes, i: int, n: nat) {
    Walk(d, i, n).Some? && Iterate(d, Walk(d, i, n).value).Hangs?
  }

  lemma {:induction false} WalkAdd(d: bytes, i: int, m: nat, n: nat)
    ensures Walk(d, i, m + n) == match Walk(d, i, m) case None => None case Some(j) => Walk(d, j, n)
    decreases m
  {
    hide Iterate;
    if m > 0 && Iterate(d, i).Moves? {
      WalkAdd(d, Iterate(d, i).next, m - 1, n);
    }
  }

  lemma WalkPrefix(d: bytes, i: int, m: nat, n: nat)
    requires m <= n && Walk(d, i, n).Some?
    ensures Walk(d, i, m).Some?
    ensures m < n ==> Iterate(d, Walk(d, i, m).value).Moves?
  {
    hide Iterate;
    WalkAdd(d, i, m, n - m);
  }

  lemma {:induction false} Cycle(d: bytes, j: int, period: nat, n: nat)
    requires period > 0 && Walk(d, j, period) == Some(j)
    ensures Walk(d, j, n).Some?
  {
    hide Walk;
    if n <= period {
      WalkPrefix(d, j, n, period);
    } else {
      Cycle(d, j, period, n - period);
      WalkAdd(d, j, period, n - period);
    }
  }

  /** A repeated index is repeated for ever. */
  lemma RepeatForever(d: bytes, i: int, p: nat, q: nat)
    requires p < q && Walk(d, i, p).Some? && Walk(d, i, q) == Walk(d, i, p)
    ensures Forever(d, i)
  {
    hide Walk;
    var j := Walk(d, i, p).value;
    WalkAdd(d, i, p, q - p);
    forall n: nat
      ensures Walk(d, i, n).Some?
    {
      if n <= p {
        WalkPrefix(d, i, n, p);
      } else {
        Cycle(d, j, q - p, n - p);
        WalkAdd(d, i, p, n - p);
      }
    }
  }

  // More indexes than values: some index is repeated.

  function Values(xs: seq<int>): set<int> {
    set x | x in xs
  }

  lemma {:induction false} DistinctValues(xs: seq<int>)
    requires forall p, q :: 0 <= p < q < |xs| ==> xs[p] != xs[q]
    ensures |Values(xs)| == |xs|
  {
    if xs != [] {
      var n := |xs| - 1;
      DistinctValues(xs[..n]);
      assert xs == xs[..n] + [xs[n]];
      assert Values(xs) == Values(xs[..n]) + {xs[n]};
      assert xs[n] !in xs[..n];
    }
  }

  lemma {:induction false} FewValues(values: set<int>, lo: int, hi: int)
    requires lo <= hi && forall x :: x in values ==> lo <= x < hi
    ensures |values| <= hi - lo
    decreases hi - lo
  {
    if lo < hi {
      FewValues(values - {lo}, lo + 1, hi);
      assert values <= values - {lo} + {lo};
      assert |values| <= |values - {lo}| + 1;
    } else {
      assert forall x :: x !in values;
    }
  }

  /** A loop that goes on longer than there are readable indexes repeats one of them. */
  lemma LongWalkRepeats(d: bytes, i: int) returns (p: nat, q: nat)
    requires Walk(d, i, Limit(d) + 1).Some?
    ensures p < q <= Limit(d) && Walk(d, i, p).Some? && Walk(d, i, q) == Walk(d, i, p)
  {
    var n := Limit(d) + 1;
    forall k: nat | k < n
      ensures Walk(d, i, k).Some? && Readable(d, Walk(d, i, k).value)
    {
      WalkPrefix(d, i, k, n);
      ReadableWhereMoving(d, Walk(d, i, k).value);
    }
    hide Walk;
    var xs := seq(n, k requires 0 <= k < n => Walk(d, i, k).value);
    FewValues(Values(xs), -|d|, |d|);
    if forall p, q :: 0 <= p < q < |xs| ==> xs[p] != xs[q] {
      DistinctValues(xs);
      assert false;
    }
    p, q :| 0 <= p < q < |xs| && xs[p] == xs[q];
  }

  lemma ReadableWhereMoving(d: bytes, i: int)
    requires Iterate(d, i).Moves?
    ensures Readable(d, i)
  {
    SliceShorter(d, i);
  }

  /**
    The loop goes on for ever exactly if it comes to an index for the second time, which
    shows within `Limit(d)` iterations.
  */
  lemma ForeverIffRepeats(d: bytes, i: int)
    ensures Forever(d, i) <==>
            exists p: nat, q: nat :: p < q <= Limit(d) && Walk(d, i, p).Some? && Walk(d, i, q) == Walk(d, i, p)
  {
    hide Walk;
    if Forever(d, i) {
      var p, q := LongWalkRepeats(d, i);
    }
    if p: nat, q: nat :| p < q <= Limit(d) && Walk(d, i, p).Some? && Walk(d, i, q) == Walk(d, i, p) {
      RepeatForever(d, i, p, q);
    }
  }

  /** A loop that does not go on for ever stops within `Limit(d)` iterations. */
  lemma StopsWithinLimit(d: bytes, i: int) returns (n: nat)
    requires !Forever(d, i)
    ensures n <= Limit(d) && Walk(d, i, n).Some? && !Iterate(d, Walk(d, i, n).value).Moves?
  {
    hide Walk, Iterate;
    if Walk(d, i, Limit(d) + 1).Some? {
      var p, q := LongWalkRepeats(d, i);
      RepeatForever(d, i, p, q);
      assert false;
    }
    n := LastIndex(d, i, Limit(d) + 1);
  }

  lemma {:induction false} LastIndex(d: bytes, i: int, m: nat) returns (n: nat)
    requires Walk(d, i, m) == None
    ensures n < m && Walk(d, i, n).Some? && !Iterate(d, Walk(d, i, n).value).Moves?
    decreases m
  {
    hide Iterate;
    assert Walk(d, i, 0) == Some(i);
    if Iterate(d, i).Moves? {
      n := LastIndex(d, Iterate(d, i).next, m - 1);
      n := n + 1;
    } else {
      n := 0;
    }
  }

  lemma {:induction false} ContentsEndless(d: bytes, i: int, limit: nat)
    ensures ParseContents(d, i, limit) == Err(Endless) <==>
            || Walk(d, i, limit + 1).Some?
            || exists n: nat :: n <= limit && HangsAfter(d, i, n)
    decreases limit
  {
    hide Iterate;
    assert Walk(d, i, 0) == Some(i);
    if Iterate(d, i).Moves? {
      var next := Iterate(d, i).next;
      assert Walk(d, next, 0) == Some(next) && Walk(d, i, limit + 1) == Walk(d, next, limit);
      if limit > 0 {
        ContentsEndless(d, next, limit - 1);
        if n: nat :| n <= limit - 1 && HangsAfter(d, next, n) {
          assert HangsAfter(d, i, n + 1);
        }
        if n: nat :| n <= limit && HangsAfter(d, i, n) {
          var m: nat := n - 1;
          assert HangsAfter(d, next, m);
        }
      }
    } else if Iterate(d, i).Hangs? {
      assert HangsAfter(d, i, 0);
    }
  }

  /**
    The result is Endless exactly where the loop of the source never ends, or enters a nested
    bundle whose parsing never ends.
  */
  lemma EndlessIffForever(d: bytes, i: int)
    ensures ParseContents(d, i, Limit(d)) == Err(Endless) <==> Forever(d, i) || HangsInside(d, i)
  {
    hide Walk, Iterate, ParseContents;
    var n: nat := Limit(d) + 1;
    ContentsEndless(d, i, Limit(d));
    if Walk(d, i, n).Some? {
      var p, q := LongWalkRepeats(d, i);
      RepeatForever(d, i, p, q);
    }
    if m: nat :| HangsAfter(d, i, m) {
      if m > Limit(d) {
        WalkPrefix(d, i, n, m);
      }
    }
  }

  /** An index where the size is -4 is never left. */
  lemma StuckAtMinusFour(d: bytes, i: int)
    requires GetInt(d, i).Got? && GetInt(d, i).value == -4
    ensures Iterate(d, i) == Moves(i, []) && Forever(d, i)
    ensures ParseContents(d, i, Limit(d)) == Err(Endless)
  {
    NegativeSizeSkips(d, i);
    hide GetInt, ParseContents;
    assert Walk(d, i, 1) == Walk(d, i, 0) == Some(i);
    RepeatForever(d, i, 0, 1);
    EndlessIffForever(d, i);
  }

  /** A bundle of 20 bytes that is parsed for ever: the size of its only element is -4. */
  lemma MinusFourBundle(tag: bytes)
    requires |tag| == 8
    ensures ParseBundle(BUNDLE_PREFIX + tag + [0xFF, 0xFF, 0xFF, 0xFC]) == Err(Endless)
  {
    var d := BUNDLE_PREFIX + tag + [0xFF, 0xFF, 0xFF, 0xFC];
    assert d[..16] == BUNDLE_PREFIX + tag && d[16..20] == [0xFF, 0xFF, 0xFF, 0xFC];
    hide FromBE, Signed, GetInt, GetDate, ParseContents, From, Slice;
    BundleDate(d, tag);
    SizeWord(d, 16, 0xFF, 0xFF, 0xFF, 0xFC);
    StuckAtMinusFour(d, 16);
  }

  /** Another one: a size of -8 leads back into the time tag, whose low word is read as a size of 0. */
  lemma MinusEightBundle(seconds: bytes)
    requires |seconds| == 4
    ensures ParseBundle(BUNDLE_PREFIX + (seconds + [0, 0, 0, 0]) + [0xFF, 0xFF, 0xFF, 0xF8]) == Err(Endless)
  {
    var d := BUNDLE_PREFIX + (seconds + [0, 0, 0, 0]) + [0xFF, 0xFF, 0xFF, 0xF8];
    hide FromBE, Signed, GetInt, GetDate, Iterate;
    TagAndSize(d, seconds);
    SizeWord(d, 16, 0xFF, 0xFF, 0xFF, 0xF8);
    SizeWord(d, 12, 0, 0, 0, 0);
    BackAndForth(d);
    ComesBack(d, 16, 12);
    BundleDate(d, seconds + [0, 0, 0, 0]);
    hide ParseContents;
  }

  lemma TagAndSize(d: bytes, seconds: bytes)
    requires |seconds| == 4 && d == BUNDLE_PREFIX + (seconds + [0, 0, 0, 0]) + [0xFF, 0xFF, 0xFF, 0xF8]
    ensures |d| == 20 && d[16..20] == [0xFF, 0xFF, 0xFF, 0xF8] && d[12..16] == [0, 0, 0, 0]
    ensures d[..16] == BUNDLE_PREFIX + (seconds + [0, 0, 0, 0])
  {
  }

  lemma ComesBack(d: bytes, i: int, j: int)
    requires Iterate(d, i) == Moves(j, []) && Iterate(d, j) == Moves(i, [])
    ensures Forever(d, i) && ParseContents(d, i, Limit(d)) == Err(Endless)
  {
    hide Iterate, ParseContents;
    assert Walk(d, i, 2) == Walk(d, j, 1) == Walk(d, i, 0) == Some(i);
    RepeatForever(d, i, 0, 2);
    EndlessIffForever(d, i);
  }

  lemma BackAndForth(d: bytes)
    requires |d| == 20 && GetInt(d, 16) == Got(-8, 20) && GetInt(d, 12) == Got(0, 16)
    ensures Iterate(d, 16) == Moves(12, []) && Iterate(d, 12) == Moves(16, [])
  {
    hide GetInt;
    assert Slice(d, 20, 12) == [] && Slice(d, 16, 16) == [];
  }

  lemma BundleDate(d: bytes, tag: bytes)
    requires |tag| == 8 && |d| >= 16 && d[..16] == BUNDLE_PREFIX + tag
    ensures GetDate(d, |BUNDLE_PREFIX|).Got? && GetDate(d, |BUNDLE_PREFIX|).next == 16
  {
    assert d[8..16] == d[..16][8..] == tag;
    DateWord(d, 8, tag);
  }

  lemma SizeWord(d: bytes, i: nat, a: byte, b: byte, c: byte, e: byte)
    requires i + 4 <= |d| && d[i..i + 4] == [a, b, c, e]
    ensures var n := a * 0x100_0000 + b * 0x1_0000 + c * 0x100 + e;
            GetInt(d, i) == Got(if a < 0x80 then n else n - 0x1_0000_0000, i + 4)
  {
    Powers();
    WordAt(d, i, [a, b, c, e]);
    FourByteWord(a, b, c, e);
    hide FromBE, GetWord;
  }

  /** All sizes are above -4 on the way from index `i`, also in nested bundles. */
  predicate ForwardSizes(d: bytes, i: nat)
    decreases |d|, if i < |d| then |d| - i else 0
  {
    SliceShorter(d, i);
    i < |d| && GetInt(d, i).Got? ==>
      var size := GetInt(d, i).value;
      && size > -4
      && (var c := Slice(d, i + 4, i + 4 + size); DgramIsBundle(c) ==> ForwardSizes(c, |BUNDLE_PREFIX| + 8))
      && ForwardSizes(d, i + 4 + size)
  }

  /** Then parsing ends, whatever else the datagram holds. */
  lemma {:induction false} ForwardReturns(d: bytes, i: nat, limit: nat)
    requires ForwardSizes(d, i) && (i < |d| ==> limit >= |d| - i)
    ensures ParseContents(d, i, limit) != Err(Endless)
    decreases |d|, if i < |d| then |d| - i else 0
  {
    SliceShorter(d, i);
    hide GetInt, Slice, GetDate;
    if i < |d| && GetInt(d, i).Got? {
      var size := GetInt(d, i).value;
      var c := Slice(d, i + 4, i + 4 + size);
      if DgramIsBundle(c) {
        ForwardReturns(c, |BUNDLE_PREFIX| + 8, Limit(c));
        BundleReturns(c);
      }
      ForwardReturns(d, i + 4 + size, limit - 1);
      ElementReturns(d, i);
      hide Iterate, ForwardSizes;
    }
  }

  lemma BundleReturns(c: bytes)
    requires ParseContents(c, |BUNDLE_PREFIX| + 8, Limit(c)) != Err(Endless)
    ensures ParseBundle(c) != Err(Endless)
  {
    DateNext(c);
    hide GetDate, ParseContents;
  }

  lemma ElementReturns(d: bytes, i: int)
    requires GetInt(d, i).Got?
    requires var c := Slice(d, i + 4, i + 4 + GetInt(d, i).value); DgramIsBundle(c) ==> ParseBundle(c) != Err(Endless)
    ensures !Iterate(d, i).Hangs?
    ensures Iterate(d, i).Moves? ==> Iterate(d, i).next == i + 4 + GetInt(d, i).value
  {
    SliceShorter(d, i);
    hide GetInt, Slice, ParseBundle, DgramIsBundle;
  }

  lemma DateNext(d: bytes)
    ensures GetDate(d, |BUNDLE_PREFIX|).Got? ==> GetDate(d, |BUNDLE_PREFIX|).next == |BUNDLE_PREFIX| + 8
  {
  }

  /** The element slices that the loop takes, as offsets. */
  function Spans(d: bytes, i: nat): seq<(nat, nat)>
    decreases if i < |d| then |d| - i else 0
  {
    if i >= |d| then []
    else
      match GetInt(d, i)
      case Malformed => []
      case Got(size, start) =>
        if size <= -4 then []
        else [(start, Bound(start + (if size < 0 then 0 else size), |d|))] + Spans(d, start + size)
  }

  predicate NoNegativeSize(d: bytes, i: nat)
    decreases if i < |d| then |d| - i else 0
  {
    i < |d| && GetInt(d, i).Got? ==>
      GetInt(d, i).value >= 0 && NoNegativeSize(d, GetInt(d, i).next + GetInt(d, i).value)
  }

  /** When no size is negative the slices are disjoint, in order, and inside the datagram. */
  lemma {:induction false} SpansInOrder(d: bytes, i: nat)
    requires NoNegativeSize(d, i)
    ensures forall k :: 0 <= k < |Spans(d, i)| ==> i + 4 <= Spans(d, i)[k].0 <= Spans(d, i)[k].1 <= |d|
    ensures forall k, l :: 0 <= k < l < |Spans(d, i)| ==> Spans(d, i)[k].1 + 4 <= Spans(d, i)[l].0
    decreases if i < |d| then |d| - i else 0
  {
    SliceShorter(d, i);
    hide GetInt;
    if i < |d| && GetInt(d, i).Got? {
      var next := i + 4 + GetInt(d, i).value;
      SpansInOrder(d, next);
      var rest := Spans(d, next);
      assert Spans(d, i)[1..] == rest;
      forall k | 0 < k < |Spans(d, i)|
        ensures Spans(d, i)[k] == rest[k - 1]
      {
      }
    }
  }
}
