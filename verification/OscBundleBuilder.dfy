/**
  osc_bundle_builder.py: bundles built from messages and bundles, and the round trip of
  whole trees of bundles.
*/
module OscBundleBuilder {
  import opened Wrappers
  import opened Bytes
  import Ntp
  import opened OscTypes
  import OscMessage
  import opened OscBundle

  datatype BuildFault = Unwritable | Unparsable(fault: BundleFault)

  function WriteElements(es: seq<Element>): Option<bytes> {
    if es == [] then Some([])
    else match (WriteInt(|Dgram(es[0])|), WriteElements(es[1..]))
      case (Some(size), Some(rest)) => Some(size + Dgram(es[0]) + rest)
      case _ => None
  }

  /** None where the date or an element size cannot be written. */
  function BundleDgram(timestamp: real, es: seq<Element>): Option<bytes> {
    match (WriteDate(timestamp), WriteElements(es))
    case (Some(date), Some(body)) => Some(BUNDLE_PREFIX + date + body)
    case _ => None
  }

  /** `build` parses the datagram it has written. */
  function BuildBundle(timestamp: real, es: seq<Element>): Result<Element, BuildFault> {
    match BundleDgram(timestamp, es)
    case None => Err(Unwritable)
    case Some(d) => match ParseBundle(d) case Err(f) => Err(Unparsable(f)) case Ok(b) => Ok(b)
  }

  class OscBundleBuilder {
    const timestamp: real
    var contents: seq<Element>

    constructor (timestamp: real)
      ensures this.timestamp == timestamp && contents == []
    {
      this.timestamp := timestamp;
      contents := [];
    }

    method AddContent(content: Element)
      modifies this
      ensures contents == old(contents) + [content]
    {
      contents := contents + [content];
    }

    method Build() returns (r: Result<Element, BuildFault>)
      ensures r == BuildBundle(timestamp, contents)
    {
      hide ParseBundle, WriteDate, WriteInt;
      var dgram := BUNDLE_PREFIX;
      var date := WriteDate(timestamp);
      if date.None? {
        return Err(Unwritable);
      }
      dgram := dgram + date.value;
      ghost var head := dgram;
      assert contents[..0] == [] && dgram + [] == dgram;
      for k := 0 to |contents|
        invariant WriteElements(contents[..k]).Some? && dgram == head + WriteElements(contents[..k]).value
      {
        WriteElementsSplit(contents, k);
        var size := WriteInt(|Dgram(contents[k])|);
        if size.None? {
          return Err(Unwritable);
        }
        dgram := dgram + size.value;
        dgram := dgram + Dgram(contents[k]);
      }
      assert contents[..|contents|] == contents;
      var parsed := ParseBundle(dgram);
      match parsed { case Err(f) => return Err(Unparsable(f)); case Ok(b) => return Ok(b); }
    }
  }

  lemma {:induction false} WriteElementsAppend(a: seq<Element>, b: seq<Element>)
    ensures WriteElements(a + b) == match (WriteElements(a), WriteElements(b))
                                    case (Some(x), Some(y)) => Some(x + y)
                                    case _ => None
  {
    hide WriteInt;
    if a == [] {
      assert a + b == b;
      assert WriteElements(b).Some? ==> [] + WriteElements(b).value == WriteElements(b).value;
    } else {
      assert (a + b)[1..] == a[1..] + b;
      WriteElementsAppend(a[1..], b);
      var size := WriteInt(|Dgram(a[0])|);
      if size.Some? && WriteElements(a[1..]).Some? && WriteElements(b).Some? {
        var w := size.value + Dgram(a[0]);
        assert w + (WriteElements(a[1..]).value + WriteElements(b).value)
            == w + WriteElements(a[1..]).value + WriteElements(b).value;
      }
    }
  }

  lemma WriteElementsOne(e: Element)
    ensures WriteElements([e]) == match WriteInt(|Dgram(e)|) case Some(size) => Some(size + Dgram(e)) case None => None
  {
    hide WriteInt;
    var none: seq<Element> := [e][1..];
    assert none == [];
    if WriteInt(|Dgram(e)|).Some? {
      assert WriteInt(|Dgram(e)|).value + Dgram(e) + [] == WriteInt(|Dgram(e)|).value + Dgram(e);
    }
  }

  lemma WriteElementsSplit(es: seq<Element>, k: nat)
    requires k < |es|
    ensures WriteElements(es[..k + 1]) == match (WriteElements(es[..k]), WriteInt(|Dgram(es[k])|))
                                          case (Some(x), Some(size)) => Some(x + (size + Dgram(es[k])))
                                          case _ => None
    ensures WriteElements(es).Some? ==> WriteElements(es[..k + 1]).Some?
  {
    hide WriteInt, WriteElements;
    assert es[..k + 1] == es[..k] + [es[k]];
    WriteElementsOne(es[k]);
    WriteElementsAppend(es[..k], [es[k]]);
    assert es == es[..k + 1] + es[k + 1..];
    WriteElementsAppend(es[..k + 1], es[k + 1..]);
  }

  // ----- what comes back

  /** An object that some parser has made: it is what its datagram parses to. */
  predicate Genuine(e: Element) {
    match e
    case Single(m) => OscMessage.ParseMessage(m.dgram) == Ok(m)
    case Bundle(d, _, _) => ParseBundle(d) == Ok(e)
  }

  /** The datagram of the element starts like an element of its kind. */
  predicate Recognised(e: Element) {
    match e
    case Single(m) => OscMessage.DgramIsMessage(m.dgram)
    case Bundle(d, _, _) => DgramIsBundle(d)
  }

  predicate AllGenuine(es: seq<Element>) {
    forall k :: 0 <= k < |es| ==> Genuine(es[k])
  }

  predicate AllRecognised(es: seq<Element>) {
    forall k :: 0 <= k < |es| ==> Recognised(es[k])
  }

  /** A genuine element is parsed back as itself exactly if it is recognised. */
  lemma ContentOfGenuine(e: Element)
    requires Genuine(e)
    ensures ParseContent(Dgram(e)) == Kept(e) <==> Recognised(e)
  {
    hide OscMessage.ParseMessage;
  }

  /** The next element of a well-formed body, and the rest of the body. */
  lemma FirstElement(d: bytes, i: nat, es: seq<Element>)
    requires es != [] && WriteElements(es).Some?
    requires At(d, i, WriteElements(es).value) && i + |WriteElements(es).value| == |d|
    ensures WriteElements(es[1..]).Some?
    ensures var c := Dgram(es[0]);
            var next := i + 4 + |c|;
            && At(d, next, WriteElements(es[1..]).value) && next + |WriteElements(es[1..]).value| == |d|
            && i < |d| && GetInt(d, i) == Got(|c|, i + 4) && Slice(d, i + 4, next) == c
  {
    hide WriteElements, GetInt, WriteInt, Dgram, Slice;
    ElementFirst(es);
    var c, rest := Dgram(es[0]), WriteElements(es[1..]).value;
    var size := WriteInt(|c|).value;
    IntWidth(|c|);
    AtAppend(d, i, size + c, rest);
    AtAppend(d, i, size, c);
    IntAt(d, i, |c|);
    SliceAt(d, i + 4, c);
  }

  lemma ElementFirst(es: seq<Element>)
    requires es != [] && WriteElements(es).Some?
    ensures WriteInt(|Dgram(es[0])|).Some? && WriteElements(es[1..]).Some?
    ensures WriteElements(es).value == WriteInt(|Dgram(es[0])|).value + Dgram(es[0]) + WriteElements(es[1..]).value
  {
    hide WriteInt;
  }

  /** The elements that come back from a written body are the written ones if and only if all are recognised. */
  lemma {:induction false} ContentsAt(d: bytes, i: nat, es: seq<Element>, limit: nat)
    requires AllGenuine(es) && WriteElements(es).Some?
    requires At(d, i, WriteElements(es).value) && i + |WriteElements(es).value| == |d| && limit >= |d| - i
    ensures var r := ParseContents(d, i, limit);
            && (r == Ok(es) <==> AllRecognised(es))
            && (r.Ok? ==> |r.value| <= |es|)
    decreases |es|
  {
    hide ParseContent, ParseContents, WriteElements, GetInt, Genuine, Recognised, Slice, At, Dgram;
    if es == [] {
      EmptyBody(d, i, limit);
    } else {
      var c := Dgram(es[0]);
      var next := i + 4 + |c|;
      FirstElement(d, i, es);
      ContentsAt(d, next, es[1..], limit - 1);
      ContentOfGenuine(es[0]);
      ContentsStep(d, i, c, next, limit);
      JoinContents(es, ParseContent(c), ParseContents(d, next, limit - 1));
      assert AllRecognised(es) <==> Recognised(es[0]) && AllRecognised(es[1..]);
    }
  }

  lemma ContentsStep(d: bytes, i: nat, c: bytes, next: nat, limit: nat)
    requires i < |d| && GetInt(d, i) == Got(|c|, i + 4) && next == i + 4 + |c| && Slice(d, i + 4, next) == c
    requires limit > 0
    ensures ParseContents(d, i, limit) == JoinedContents(ParseContent(c), ParseContents(d, next, limit - 1))
  {
    SliceShorter(d, i);
    hide GetInt, Slice, ParseContent;
  }

  function JoinedContents(content: Content, rest: ContentsResult): ContentsResult {
    match content
    case Bad(f) => Err(f)
    case _ =>
      match rest
      case Err(f) => Err(f)
      case Ok(es) => Ok((if content.Kept? then [content.element] else []) + es)
  }

  lemma JoinContents(es: seq<Element>, content: Content, rest: ContentsResult)
    requires es != [] && (rest.Ok? ==> |rest.value| < |es|)
    ensures JoinedContents(content, rest) == Ok(es) <==> content == Kept(es[0]) && rest == Ok(es[1..])
    ensures JoinedContents(content, rest).Ok? ==> |JoinedContents(content, rest).value| <= |es|
  {
    assert es == [es[0]] + es[1..];
    if content.Kept? && rest.Ok? {
      var back := [content.element] + rest.value;
      assert back[0] == content.element && back[1..] == rest.value;
    }
  }

  lemma EmptyBody(d: bytes, i: nat, limit: nat)
    ensures WriteElements([]) == Some([])
    ensures i >= |d| ==> ParseContents(d, i, limit) == Ok([])
  {
  }

  /** Where the parts of a built bundle are found. */
  lemma BundleParts(timestamp: real, es: seq<Element>, d: bytes)
    requires BundleDgram(timestamp, es) == Some(d)
    ensures WriteDate(timestamp).Some? && WriteElements(es).Some?
    ensures DgramIsBundle(d) && GetDate(d, 8) == Got(DateRoundTrip(timestamp), 16)
    ensures At(d, 16, WriteElements(es).value) && 16 + |WriteElements(es).value| == |d|
  {
    var date, body := WriteDate(timestamp).value, WriteElements(es).value;
    WrittenDate(timestamp);
    hide WriteDate, WriteElements, GetDate, DateRoundTrip;
    assert d[0..|d|] == d;
    AtAppend(d, 0, BUNDLE_PREFIX + date, body);
    AtAppend(d, 0, BUNDLE_PREFIX, date);
    DateAt(d, 8, timestamp);
  }

  /**
    The bundle that `build` gives back holds the added elements in order, with the
    timestamp of its time tag, if and only if every element is recognised by its first
    bytes; otherwise elements are dropped or misread.
  */
  lemma BuildGivesBack(timestamp: real, es: seq<Element>)
    requires AllGenuine(es) && BundleDgram(timestamp, es).Some?
    ensures var d := BundleDgram(timestamp, es).value;
            && DgramIsBundle(d)
            && (BuildBundle(timestamp, es) == Ok(Bundle(d, DateRoundTrip(timestamp), es)) <==> AllRecognised(es))
  {
    var d := BundleDgram(timestamp, es).value;
    BundleParts(timestamp, es, d);
    ContentsAt(d, 16, es, Limit(d));
    hide ParseContents, WriteElements, WriteDate, AllGenuine, AllRecognised;
  }

  /** Neither a slash nor the prefix of bundles stands in front of the datagram. */
  predicate Unidentified(e: Element) {
    !StartsBundle(Dgram(e)) && !StartsMessage(Dgram(e))
  }

  function Identified(es: seq<Element>): seq<Element> {
    if es == [] then []
    else (if Unidentified(es[0]) then [] else [es[0]]) + Identified(es[1..])
  }

  predicate RecognisedOrUnidentified(es: seq<Element>) {
    forall k :: 0 <= k < |es| ==> Recognised(es[k]) || Unidentified(es[k])
  }

  /** Elements that cannot be identified are dropped, and the others come back in order. */
  lemma {:induction false} UnidentifiedDropped(d: bytes, i: nat, es: seq<Element>, limit: nat)
    requires AllGenuine(es) && RecognisedOrUnidentified(es) && WriteElements(es).Some?
    requires At(d, i, WriteElements(es).value) && i + |WriteElements(es).value| == |d| && limit >= |d| - i
    ensures ParseContents(d, i, limit) == Ok(Identified(es))
    decreases |es|
  {
    hide ParseContent, ParseContents, WriteElements, GetInt, Genuine, Recognised, Slice, At, Dgram, Unidentified;
    if es == [] {
      EmptyBody(d, i, limit);
    } else {
      var c := Dgram(es[0]);
      var next := i + 4 + |c|;
      FirstElement(d, i, es);
      UnidentifiedDropped(d, next, es[1..], limit - 1);
      ContentsStep(d, i, c, next, limit);
      KeptOrDropped(es[0]);
    }
  }

  lemma KeptOrDropped(e: Element)
    requires Genuine(e) && (Recognised(e) || Unidentified(e))
    ensures ParseContent(Dgram(e)) == if Unidentified(e) then Dropped else Kept(e)
  {
    ContentIs(Dgram(e));
    ContentOfGenuine(e);
    hide ParseContent, Genuine;
    RecognisedStarts(e);
  }

  lemma RecognisedStarts(e: Element)
    ensures Recognised(e) ==> !Unidentified(e)
  {
    if e.Bundle? && Recognised(e) {
      assert e.dgram[..8] == BUNDLE_PREFIX;
    }
  }

  /** A bundle built of elements of which some cannot be identified is parsed to the others, in order. */
  lemma BuildDrops(timestamp: real, es: seq<Element>)
    requires AllGenuine(es) && RecognisedOrUnidentified(es) && BundleDgram(timestamp, es).Some?
    ensures var d := BundleDgram(timestamp, es).value;
            BuildBundle(timestamp, es) == Ok(Bundle(d, DateRoundTrip(timestamp), Identified(es)))
  {
    var d := BundleDgram(timestamp, es).value;
    BundleParts(timestamp, es, d);
    UnidentifiedDropped(d, 16, es, Limit(d));
    hide ParseContents, WriteElements, WriteDate, AllGenuine, RecognisedOrUnidentified;
  }

  /** Writing fails exactly for a date outside the time tags or an element longer than an int32 can say. */
  lemma {:induction false} WritableElements(es: seq<Element>)
    ensures WriteElements(es).Some? <==> forall k :: 0 <= k < |es| ==> |Dgram(es[k])| < 0x8000_0000
  {
    if es != [] {
      IntAt([], 0, |Dgram(es[0])|);
      WritableElements(es[1..]);
      hide WriteInt;
      assert forall k :: 0 < k < |es| ==> es[k] == es[1..][k - 1];
      assert forall k :: 0 <= k < |es[1..]| ==> es[1..][k] == es[k + 1];
    }
  }

  predicate AllAligned(es: seq<Element>) {
    forall k :: 0 <= k < |es| ==> |Dgram(es[k])| % 4 == 0
  }

  lemma {:induction false} ElementsAligned(es: seq<Element>)
    requires WriteElements(es).Some? && AllAligned(es)
    ensures |WriteElements(es).value| % 4 == 0
  {
    hide WriteInt;
    if es != [] {
      IntWidth(|Dgram(es[0])|);
      assert |Dgram(es[0])| % 4 == 0;
      ElementsAligned(es[1..]);
    }
  }

  /** A bundle of elements of aligned length has an aligned length. */
  lemma BundleAligned(timestamp: real, es: seq<Element>)
    requires BundleDgram(timestamp, es).Some? && AllAligned(es)
    ensures |BundleDgram(timestamp, es).value| % 4 == 0
  {
    hide WriteDate, WriteElements, TagOf;
    WrittenDate(timestamp);
    ElementsAligned(es);
  }

  // ----- rebuilding what was parsed

  /** Every element from index `i` on is whole, recognised and parsed, up to the end of the datagram. */
  predicate Canonical(d: bytes, i: nat)
    decreases if i < |d| then |d| - i else 0
  {
    i == |d| ||
    (i < |d| && GetInt(d, i).Got? && GetInt(d, i).next == i + 4
     && 0 <= GetInt(d, i).value <= |d| - (i + 4)
     && ParseContent(d[i + 4..i + 4 + GetInt(d, i).value]).Kept?
     && Canonical(d, i + 4 + GetInt(d, i).value))
  }

  lemma KeptMoves(d: bytes, i: nat, limit: nat)
    requires GetInt(d, i).Got? && ParseContent(Slice(d, i + 4, i + 4 + GetInt(d, i).value)).Kept?
    requires ParseContents(d, i, limit).Ok?
    ensures limit > 0
  {
    SliceShorter(d, i);
    hide GetInt, Slice, ParseContent;
  }

  lemma KeptDgram(c: bytes)
    requires ParseContent(c).Kept?
    ensures Dgram(ParseContent(c).element) == c
  {
  }

  /** A size that was read is written as the same four bytes. */
  lemma SizeRewritten(d: bytes, i: nat)
    requires i + 4 <= |d| && GetInt(d, i).Got?
    ensures WriteInt(GetInt(d, i).value) == Some(d[i..i + 4])
  {
    assert Slice(d, i, i + 4) == d[i..i + 4];
    PackOfSigned(d[i..i + 4]);
  }

  /** Writing the elements parsed from a canonical body gives the body back. */
  lemma {:induction false} ContentsRewritten(d: bytes, i: nat, limit: nat)
    requires Canonical(d, i) && ParseContents(d, i, limit).Ok?
    ensures i <= |d| && WriteElements(ParseContents(d, i, limit).value) == Some(d[i..])
    decreases if i < |d| then |d| - i else 0
  {
    hide ParseContent, GetInt, WriteInt, ParseContents, Iterate, WriteElements;
    if i == |d| {
      EmptyBody(d, i, limit);
      assert d[i..] == [];
    } else {
      var size := GetInt(d, i).value;
      var next := i + 4 + size;
      var c := d[i + 4..next];
      SliceShorter(d, i);
      assert Slice(d, i + 4, next) == c;
      hide Slice;
      KeptMoves(d, i, limit);
      ContentsStep(d, i, c, next, limit);
      KeptDgram(c);
      SizeRewritten(d, i);
      ContentsRewritten(d, next, limit - 1);
      var e, rest := ParseContent(c).element, ParseContents(d, next, limit - 1).value;
      hide Canonical, Dgram;
      WriteElementsOne(e);
      WriteElementsAppend([e], rest);
      assert d[i..i + 4] + c + d[next..] == d[i..];
    }
  }

  /** A parsed canonical bundle is written as the same datagram, unless its time tag is that of the Unix epoch. */
  lemma BundleRewritten(d: bytes)
    requires DgramIsBundle(d) && ParseBundle(d).Ok? && |d| >= 16 && Canonical(d, 16)
    ensures var b := ParseBundle(d).value;
            BundleDgram(b.timestamp, b.contents) == Some(d) <==>
            FromBE(d[8..16]) != Ntp.NTP_DELTA * Ntp.TICKS_PER_SECOND
  {
    hide GetDate, WriteDate, DateOfTag, ParseBundle, ParseContents, WriteElements, Canonical, FromBE;
    var tag, b := d[8..16], ParseBundle(d).value;
    HeaderOf(d);
    DateWord(d, 8, tag);
    TagOfDate(tag);
    ParsedParts(d, DateOfTag(FromBE(tag)));
    ContentsRewritten(d, 16, Limit(d));
    if WriteDate(b.timestamp).Some? {
      WrittenDate(b.timestamp);
      SameMiddle(BUNDLE_PREFIX, WriteDate(b.timestamp).value, tag, d[16..]);
    }
  }

  lemma HeaderOf(d: bytes)
    requires DgramIsBundle(d) && |d| >= 16
    ensures At(d, 8, d[8..16])
    ensures d == BUNDLE_PREFIX + d[8..16] + d[16..]
  {
    assert BUNDLE_PREFIX == d[..8];
  }

  lemma ParsedParts(d: bytes, timestamp: real)
    requires GetDate(d, 8) == Got(timestamp, 16) && ParseBundle(d).Ok?
    ensures ParseBundle(d).value.timestamp == timestamp
    ensures ParseContents(d, 16, Limit(d)) == Ok(ParseBundle(d).value.contents)
  {
    hide GetDate, ParseContents;
  }

  lemma SameMiddle(a: bytes, x: bytes, y: bytes, c: bytes)
    requires |x| == |y|
    ensures a + x + c == a + y + c <==> x == y
  {
    assert (a + x + c)[|a|..|a| + |x|] == x && (a + y + c)[|a|..|a| + |y|] == y;
  }

  // ----- trees of bundles

  /** What a client builds: messages, and bundles of such trees. */
  datatype Tree = Leaf(message: OscMessage.Message) | Node(timestamp: real, children: seq<Tree>)

  function BuildTree(t: Tree): Result<Element, BuildFault> {
    match t
    case Leaf(m) => Ok(Single(m))
    case Node(timestamp, children) =>
      match BuildTrees(children)
      case Err(f) => Err(f)
      case Ok(es) => BuildBundle(timestamp, es)
  }

  function BuildTrees(ts: seq<Tree>): Result<seq<Element>, BuildFault> {
    if ts == [] then Ok([])
    else
      match BuildTree(ts[0])
      case Err(f) => Err(f)
      case Ok(e) =>
        match BuildTrees(ts[1..])
        case Err(f) => Err(f)
        case Ok(es) => Ok([e] + es)
  }

  /** The tree with every timestamp replaced by what its time tag says. */
  function Tagged(t: Tree): Option<Tree> {
    match t
    case Leaf(m) => Some(t)
    case Node(timestamp, children) =>
      match TaggedAll(children)
      case None => None
      case Some(ts) => if WriteDate(timestamp).None? then None else Some(Node(DateRoundTrip(timestamp), ts))
  }

  function TaggedAll(ts: seq<Tree>): Option<seq<Tree>> {
    if ts == [] then Some([])
    else match (Tagged(ts[0]), TaggedAll(ts[1..]))
      case (Some(t), Some(rest)) => Some([t] + rest)
      case _ => None
  }

  /** The tree of a parsed element, without the datagrams of its bundles. */
  function TreeOf(e: Element): Tree {
    match e
    case Single(m) => Leaf(m)
    case Bundle(_, timestamp, contents) => Node(timestamp, TreesOf(contents))
  }

  function TreesOf(es: seq<Element>): seq<Tree> {
    if es == [] then [] else [TreeOf(es[0])] + TreesOf(es[1..])
  }

  /** Every message of the tree is a parsed one. */
  predicate GenuineLeaves(ts: seq<Tree>) {
    ts != [] ==>
    && (match ts[0]
        case Leaf(m) => OscMessage.ParseMessage(m.dgram) == Ok(m)
        case Node(_, children) => GenuineLeaves(children))
    && GenuineLeaves(ts[1..])
  }

  /** Every message of the tree has an address that starts with a slash. */
  predicate SlashLeaves(ts: seq<Tree>) {
    ts != [] ==>
    && (match ts[0]
        case Leaf(m) => OscMessage.DgramIsMessage(m.dgram)
        case Node(_, children) => SlashLeaves(children))
    && SlashLeaves(ts[1..])
  }

  /** Trees can only fail to be built because a date or a size cannot be written. */
  predicate BuildsBack(ts: seq<Tree>) {
    match BuildTrees(ts)
    case Err(f) => f == Unwritable
    case Ok(es) =>
      && AllGenuine(es) && AllRecognised(es)
      && TaggedAll(ts) == Some(TreesOf(es))
  }

  /**
    Trees of any shape whose messages have addresses that start with a slash are parsed back,
    bundle by bundle, to the same trees: same order, same messages, and the timestamps of
    their time tags.
  */
  lemma {:induction false} TreesBuildBack(ts: seq<Tree>)
    requires GenuineLeaves(ts) && SlashLeaves(ts)
    ensures BuildsBack(ts)
  {
    hide OscMessage.ParseMessage, OscMessage.DgramIsMessage;
    if ts != [] {
      TreesBuildBack(ts[1..]);
      if ts[0].Leaf? {
        LeafBuildsBack(ts);
      } else {
        TreesBuildBack(ts[0].children);
        NodeBuildsBack(ts);
      }
    }
  }

  lemma ConsBuildsBack(ts: seq<Tree>, e: Element)
    requires ts != [] && BuildTree(ts[0]) == Ok(e) && BuildsBack(ts[1..])
    requires Genuine(e) && Recognised(e) && Tagged(ts[0]) == Some(TreeOf(e))
    ensures BuildsBack(ts)
  {
    hide Genuine, Recognised, BuildTree, Tagged, TreeOf;
    if BuildTrees(ts[1..]).Ok? {
      var rest := BuildTrees(ts[1..]).value;
      var es := [e] + rest;
      assert BuildTrees(ts) == Ok(es) && es[1..] == rest;
      assert forall k :: 0 < k < |es| ==> es[k] == rest[k - 1];
    }
  }

  lemma LeafBuildsBack(ts: seq<Tree>)
    requires ts != [] && ts[0].Leaf? && BuildsBack(ts[1..])
    requires GenuineLeaves(ts) && SlashLeaves(ts)
    ensures BuildsBack(ts)
  {
    hide OscMessage.ParseMessage, OscMessage.DgramIsMessage, BuildsBack;
    ConsBuildsBack(ts, Single(ts[0].message));
  }

  lemma NodeBuildsBack(ts: seq<Tree>)
    requires ts != [] && ts[0].Node? && BuildsBack(ts[1..]) && BuildsBack(ts[0].children)
    ensures BuildsBack(ts)
  {
    hide WriteElements, WriteDate, ParseBundle, ParseContents, DgramIsBundle, DateRoundTrip, AllGenuine, AllRecognised;
    var children, timestamp := ts[0].children, ts[0].timestamp;
    if BuildTrees(children).Ok? {
      var es := BuildTrees(children).value;
      if BundleDgram(timestamp, es).Some? {
        BuildGivesBack(timestamp, es);
        var b := Bundle(BundleDgram(timestamp, es).value, DateRoundTrip(timestamp), es);
        assert BuildTree(ts[0]) == Ok(b);
        assert TreeOf(b) == Node(DateRoundTrip(timestamp), TreesOf(es));
        ConsBuildsBack(ts, b);
      } else {
        assert BuildTree(ts[0]) == Err(Unwritable);
      }
    } else {
      assert BuildTree(ts[0]) == Err(Unwritable);
    }
  }

  /** The length of the datagram of a tree. */
  function TreeSize(t: Tree): nat {
    match t
    case Leaf(m) => |m.dgram|
    case Node(_, children) => |BUNDLE_PREFIX| + 8 + TreesSize(children)
  }

  function TreesSize(ts: seq<Tree>): nat {
    if ts == [] then 0 else 4 + TreeSize(ts[0]) + TreesSize(ts[1..])
  }

  /** The length of every one of the trees fits an int32. */
  predicate SizesFit(ts: seq<Tree>) {
    forall k :: 0 <= k < |ts| ==> TreeSize(ts[k]) < 0x8000_0000
  }

  /** All dates in the trees are those of some time tag, and the lengths of all elements fit an int32. */
  predicate Writable(ts: seq<Tree>) {
    ts != [] ==>
    && (match ts[0]
        case Leaf(_) => true
        case Node(timestamp, children) => WriteDate(timestamp).Some? && SizesFit(children) && Writable(children))
    && Writable(ts[1..])
  }

  predicate Sized(ts: seq<Tree>, es: seq<Element>) {
    |es| == |ts| && forall k :: 0 <= k < |es| ==> |Dgram(es[k])| == TreeSize(ts[k])
  }

  /** Exactly the writable trees can be built, and their datagrams have the lengths that can be foretold. */
  lemma {:induction false} TreesWritable(ts: seq<Tree>)
    requires GenuineLeaves(ts) && SlashLeaves(ts)
    ensures BuildTrees(ts).Ok? <==> Writable(ts)
    ensures BuildTrees(ts).Ok? ==> Sized(ts, BuildTrees(ts).value)
  {
    hide OscMessage.ParseMessage, OscMessage.DgramIsMessage, WriteDate, BuildBundle, SizesFit;
    if ts != [] {
      hide Sized;
      TreesWritable(ts[1..]);
      if ts[0].Node? {
        TreesWritable(ts[0].children);
        TreesBuildBack(ts[0].children);
        NodeWritable(ts[0].timestamp, ts[0].children);
      }
      if BuildTrees(ts).Ok? {
        var es := BuildTrees(ts).value;
        assert es[0] == BuildTree(ts[0]).value && es[1..] == BuildTrees(ts[1..]).value;
        SizedCons(ts, es);
      }
    }
  }

  lemma SizedCons(ts: seq<Tree>, es: seq<Element>)
    requires ts != [] && es != [] && |Dgram(es[0])| == TreeSize(ts[0]) && Sized(ts[1..], es[1..])
    ensures Sized(ts, es)
  {
    hide TreeSize, Dgram;
    assert forall k :: 0 < k < |es| ==> es[k] == es[1..][k - 1] && ts[k] == ts[1..][k - 1];
  }

  lemma NodeWritable(timestamp: real, children: seq<Tree>)
    requires BuildsBack(children)
    requires BuildTrees(children).Ok? ==> Sized(children, BuildTrees(children).value)
    ensures var t := Node(timestamp, children);
            && (BuildTree(t).Ok? <==> BuildTrees(children).Ok? && WriteDate(timestamp).Some? && SizesFit(children))
            && (BuildTree(t).Ok? ==> |Dgram(BuildTree(t).value)| == TreeSize(t))
  {
    hide ParseBundle, ParseContents, WriteDate, WriteElements, DateRoundTrip, DgramIsBundle;
    if BuildTrees(children).Ok? {
      var es := BuildTrees(children).value;
      WritableElements(es);
      assert WriteElements(es).Some? <==> SizesFit(children);
      if BundleDgram(timestamp, es).Some? {
        BuildGivesBack(timestamp, es);
        BundleParts(timestamp, es, BundleDgram(timestamp, es).value);
        ElementsSize(children, es);
      }
    }
  }

  lemma {:induction false} ElementsSize(ts: seq<Tree>, es: seq<Element>)
    requires Sized(ts, es) && WriteElements(es).Some?
    ensures |WriteElements(es).value| == TreesSize(ts)
  {
    hide Dgram, TreeSize;
    if es != [] {
      ElementFirst(es);
      IntWidth(|Dgram(es[0])|);
      assert |Dgram(es[0])| == TreeSize(ts[0]);
      assert forall k :: 0 <= k < |es[1..]| ==> es[1..][k] == es[k + 1] && ts[1..][k] == ts[k + 1];
      ElementsSize(ts[1..], es[1..]);
    }
  }

  /** The round trip of one bundle tree. */
  lemma TreeRoundTrip(timestamp: real, children: seq<Tree>)
    requires GenuineLeaves(children) && SlashLeaves(children)
    requires BuildTree(Node(timestamp, children)).Ok?
    ensures var b := BuildTree(Node(timestamp, children)).value;
            ParseBundle(Dgram(b)) == Ok(b) && Tagged(Node(timestamp, children)) == Some(TreeOf(b))
  {
    var t := Node(timestamp, children);
    TreesBuildBack(children);
    var es := BuildTrees(children).value;
    BuildGivesBack(timestamp, es);
    hide OscMessage.ParseMessage, ParseBundle, ParseContents, WriteElements, AllGenuine, AllRecognised;
  }
}
