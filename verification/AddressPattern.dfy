/**
  The address patterns of dispatcher.py (OSC 1.0 specification, section "OSC Message
  Dispatching and Pattern Matching").

  The loop of the source emits the text of one regular expression for the whole pattern, and
  `Compile` is what `re.compile` makes of that text.  `Translate` reads the pattern itself,
  item by item; both agree on every pattern without an empty set.  `PartMatches` is the
  matching of the specification for one part of an address.  On well-formed patterns the
  single expression accepts an address exactly when every part of the pattern matches its
  part of the address.
*/
module AddressPattern {
  import opened Wrappers
  import opened Bytes
  import opened RegularExpression

  const BANG: byte := 0x21
  const OPEN_ALT: byte := OPEN_BRACE
  const CLOSE_ALT: byte := CLOSE_BRACE

  /** The index of the first `c`, or the length. */
  function IndexOf(s: bytes, c: byte): (n: nat)
    ensures n <= |s|
    ensures n < |s| ==> s[n] == c
    ensures c !in s[..n]
  {
    if s == [] || s[0] == c then 0
    else
      var n := 1 + IndexOf(s[1..], c);
      assert s[..n] == [s[0]] + s[1..][..n - 1];
      n
  }

  /** The text after the first `c`. */
  function After(s: bytes, c: byte): (r: bytes)
    ensures |r| <= |s|
  {
    var n := IndexOf(s, c);
    if n < |s| then s[n + 1..] else []
  }

  /** The text before the first `c`. */
  function Before(s: bytes, c: byte): (r: bytes)
    ensures c !in r
  {
    s[..IndexOf(s, c)]
  }

  function SplitOn(s: bytes, c: byte): (parts: seq<bytes>)
    ensures parts != []
    decreases |s|
  {
    var n := IndexOf(s, c);
    if n == |s| then [s] else [s[..n]] + SplitOn(s[n + 1..], c)
  }

  // ----- the text of the expression

  /** `c in r"\^$.|()[]+*?"` */
  function EmitChar(c: byte): Token {
    if Operator(Plain(c)) then Escaped(c) else Plain(c)
  }

  function EmitMember(c: byte): Token {
    if Special(c) then Escaped(c) else Plain(c)
  }

  function EmitMembers(s: bytes): (text: seq<Token>)
    ensures |text| == |s|
  {
    seq(|s|, k requires 0 <= k < |s| => EmitMember(s[k]))
  }

  function EmitAlternative(c: byte): Token {
    if c == COMMA then Plain(BAR) else EmitChar(c)
  }

  function EmitAlternatives(s: bytes): (text: seq<Token>)
    ensures |text| == |s|
  {
    seq(|s|, k requires 0 <= k < |s| => EmitAlternative(s[k]))
  }

  /** `[^/]` */
  const ANY: seq<Token> := [Plain(OPEN_SET), Plain(CARET), Plain(SLASH), Plain(CLOSE_SET)]

  function EmitSet(negated: bool, body: bytes): seq<Token> {
    [Plain(OPEN_SET)] + (if negated then [Plain(CARET)] else []) + EmitMembers(body) + [Plain(CLOSE_SET)]
  }

  function EmitGroup(body: bytes): seq<Token> {
    [Plain(OPEN_GROUP)] + EmitAlternatives(body) + [Plain(CLOSE_GROUP)]
  }

  predicate Negated(p: bytes) {
    |p| > 1 && p[1] == BANG
  }

  /** The text of a set after its opening bracket and exclamation mark. */
  function SetTail(p: bytes): (tail: bytes)
    requires p != []
    ensures |tail| < |p|
  {
    if Negated(p) then p[2..] else p[1..]
  }

  /** What the loop emits for the first character or group of a pattern. */
  function EmitFirst(p: bytes): seq<Token>
    requires p != []
  {
    if p[0] == STAR then ANY + [Plain(STAR)]
    else if p[0] == QUESTION then ANY
    else if p[0] == OPEN_SET then EmitSet(Negated(p), Before(SetTail(p), CLOSE_SET))
    else if p[0] == OPEN_ALT then EmitGroup(Before(p[1..], CLOSE_ALT))
    else [EmitChar(p[0])]
  }

  /** The pattern after its first character or group. */
  function Tail(p: bytes): (tail: bytes)
    requires p != []
    ensures |tail| < |p|
  {
    if p[0] == OPEN_SET then After(SetTail(p), CLOSE_SET)
    else if p[0] == OPEN_ALT then After(p[1..], CLOSE_ALT)
    else p[1..]
  }

  /** The text after the caret. */
  function Emit(p: bytes): seq<Token>
    decreases |p|
  {
    if p == [] then [Plain(DOLLAR)] else EmitFirst(p) + Emit(Tail(p))
  }

  /** The compiled expression, or the reason why `re.compile` refuses it. */
  function Compile(p: bytes): Parsed {
    Parse(Emit(p))
  }

  /** The rest of the pattern after index `i`, which may be one beyond the end. */
  function Rest(p: bytes, i: nat): bytes {
    if i < |p| then p[i..] else []
  }

  /** The first `c` after `start` is the first one after `i`. */
  predicate StillAhead(p: bytes, start: nat, i: nat, c: byte)
    requires start <= i <= |p|
  {
    start + IndexOf(p[start..], c) == i + IndexOf(p[i..], c)
  }

  lemma LookAhead(p: bytes, start: nat, i: nat, c: byte)
    requires start <= i <= |p| && StillAhead(p, start, i, c)
    ensures i == |p| || p[i] == c ==> p[start..i] == Before(p[start..], c) && Rest(p, i + 1) == After(p[start..], c)
    ensures i < |p| && p[i] != c ==> StillAhead(p, start, i + 1, c)
  {
    if i < |p| {
      assert p[i..][1..] == p[i + 1..];
    }
    if i == |p| || p[i] == c {
      hide IndexOf;
      assert p[start..][..i - start] == p[start..i];
    }
  }

  lemma MembersSnoc(p: bytes, start: nat, i: nat)
    requires start <= i < |p|
    ensures EmitMembers(p[start..i + 1]) == EmitMembers(p[start..i]) + [EmitMember(p[i])]
  {
    assert p[start..i + 1] == p[start..i] + [p[i]];
  }

  lemma AlternativesSnoc(p: bytes, start: nat, i: nat)
    requires start <= i < |p|
    ensures EmitAlternatives(p[start..i + 1]) == EmitAlternatives(p[start..i]) + [EmitAlternative(p[i])]
  {
    assert p[start..i + 1] == p[start..i] + [p[i]];
  }

  /** The inner loop for the members of a set. */
  method CollectSet(p: bytes, start: nat) returns (text: seq<Token>, i: nat)
    requires start <= |p|
    ensures start <= i <= |p|
    ensures text == EmitMembers(Before(p[start..], CLOSE_SET)) && Rest(p, i + 1) == After(p[start..], CLOSE_SET)
  {
    i, text := start, [];
    assert StillAhead(p, start, i, CLOSE_SET);
    assert EmitMembers(p[start..i]) == [];
    hide StillAhead, IndexOf, Rest, After, Before, EmitMembers;
    while i < |p| && p[i] != CLOSE_SET
      invariant start <= i <= |p| && text == EmitMembers(p[start..i])
      invariant StillAhead(p, start, i, CLOSE_SET)
    {
      LookAhead(p, start, i, CLOSE_SET);
      MembersSnoc(p, start, i);
      text := text + [if Special(p[i]) then Escaped(p[i]) else Plain(p[i])];
      i := i + 1;
    }
    LookAhead(p, start, i, CLOSE_SET);
  }

  /** The inner loop for the alternatives between braces. */
  method CollectAlternatives(p: bytes, start: nat) returns (text: seq<Token>, i: nat)
    requires start <= |p|
    ensures start <= i <= |p|
    ensures text == EmitAlternatives(Before(p[start..], CLOSE_ALT)) && Rest(p, i + 1) == After(p[start..], CLOSE_ALT)
  {
    i, text := start, [];
    assert StillAhead(p, start, i, CLOSE_ALT);
    assert EmitAlternatives(p[start..i]) == [];
    hide StillAhead, IndexOf, Rest, After, Before, EmitAlternatives, EmitChar;
    while i < |p| && p[i] != CLOSE_ALT
      invariant start <= i <= |p| && text == EmitAlternatives(p[start..i])
      invariant StillAhead(p, start, i, CLOSE_ALT)
    {
      LookAhead(p, start, i, CLOSE_ALT);
      AlternativesSnoc(p, start, i);
      text := text + [if p[i] == COMMA then Plain(BAR) else EmitChar(p[i])];
      i := i + 1;
    }
    LookAhead(p, start, i, CLOSE_ALT);
  }

  /** The translation loop, and `re.compile` of its text after the caret. */
  method CompilePattern(p: bytes) returns (r: Parsed)
    ensures r == Compile(p)
  {
    var text: seq<Token>, i := [], 0;
    EmitStart(p);
    hide EmitFirst, Tail, EmitMembers, EmitAlternatives, EmitChar, After, Before, Emit, Rest;
    while i < |p|
      invariant 0 <= i
      invariant text + Emit(Rest(p, i)) == Emit(p)
      decreases |p| - i
    {
      var c, first := p[i], [];
      ghost var start := i;
      if c == OPEN_SET {
        i := i + 1;
        var negated := i < |p| && p[i] == BANG;
        if negated {
          i := i + 1;
        }
        SetFirst(p, start, negated, i);
        var members;
        members, i := CollectSet(p, i);
        first := [Plain(OPEN_SET)] + (if negated then [Plain(CARET)] else []) + members + [Plain(CLOSE_SET)];
      } else if c == OPEN_ALT {
        GroupFirst(p, start);
        var members;
        members, i := CollectAlternatives(p, i + 1);
        first := [Plain(OPEN_GROUP)] + members + [Plain(CLOSE_GROUP)];
      } else {
        CharFirst(p, start);
        first := if c == STAR then ANY + [Plain(STAR)] else if c == QUESTION then ANY else [EmitChar(c)];
      }
      i := i + 1;
      EmitStep(text, p, start);
      text := text + first;
    }
    EmitDone(p, i, text);
    return Parse(text + [Plain(DOLLAR)]);
  }

  lemma EmitStart(p: bytes)
    ensures [] + Emit(Rest(p, 0)) == Emit(p)
  {
    assert Rest(p, 0) == p;
  }

  lemma SetFirst(p: bytes, i: nat, negated: bool, start: nat)
    requires i < |p| && p[i] == OPEN_SET
    requires negated == (i + 1 < |p| && p[i + 1] == BANG) && start == if negated then i + 2 else i + 1
    ensures start <= |p|
    ensures EmitFirst(Rest(p, i)) == EmitSet(negated, Before(p[start..], CLOSE_SET))
    ensures Tail(Rest(p, i)) == After(p[start..], CLOSE_SET)
  {
    hide EmitSet, Before, After;
    assert SetTail(p[i..]) == p[start..];
  }

  lemma GroupFirst(p: bytes, i: nat)
    requires i < |p| && p[i] == OPEN_ALT
    ensures EmitFirst(Rest(p, i)) == EmitGroup(Before(p[i + 1..], CLOSE_ALT))
    ensures Tail(Rest(p, i)) == After(p[i + 1..], CLOSE_ALT)
  {
    hide EmitGroup, Before, After;
    assert p[i..][1..] == p[i + 1..];
  }

  lemma CharFirst(p: bytes, i: nat)
    requires i < |p| && p[i] != OPEN_SET && p[i] != OPEN_ALT
    ensures EmitFirst(Rest(p, i)) ==
            if p[i] == STAR then ANY + [Plain(STAR)] else if p[i] == QUESTION then ANY else [EmitChar(p[i])]
    ensures Tail(Rest(p, i)) == Rest(p, i + 1)
  {
    assert p[i..][1..] == p[i + 1..];
  }

  lemma EmitStep(text: seq<Token>, p: bytes, i: nat)
    requires i < |p|
    ensures text + Emit(Rest(p, i)) == text + EmitFirst(Rest(p, i)) + Emit(Tail(Rest(p, i)))
  {
    hide EmitFirst, Tail;
  }

  lemma EmitDone(p: bytes, i: nat, text: seq<Token>)
    requires i >= |p|
    ensures text + Emit(Rest(p, i)) == text + [Plain(DOLLAR)]
  {
  }

  // ----- reading the pattern

  const NOT_SLASH := Class(true, [Single(SLASH)])

  lemma NotSlash(c: byte)
    ensures InClass(NOT_SLASH, c) <==> c != SLASH
  {
    assert !InRanges(NOT_SLASH.ranges[1..], c);
  }

  /** The members of a set: characters, and ranges with a minus sign; None if a range runs backwards. */
  function RangesOf(s: bytes): Option<seq<Range>> {
    if s == [] then Some([])
    else if |s| == 1 || s[1] != MINUS then AddRange(Single(s[0]), RangesOf(s[1..]))
    else if |s| == 2 then Some([Single(s[0]), Single(MINUS)])
    else if s[2] < s[0] then None
    else AddRange(Range(s[0], s[2]), RangesOf(s[3..]))
  }

  function AddRange(m: Range, r: Option<seq<Range>>): Option<seq<Range>> {
    match r case None => None case Some(ranges) => Some([m] + ranges)
  }

  /** The item for the first character or group. */
  function FirstItem(p: bytes): Item
    requires p != []
  {
    if p[0] == STAR then Run(NOT_SLASH)
    else if p[0] == QUESTION then One(NOT_SLASH)
    else if p[0] == OPEN_SET then
      One(Class(Negated(p), match RangesOf(Before(SetTail(p), CLOSE_SET)) case Some(ranges) => ranges case None => []))
    else if p[0] == OPEN_ALT then Alternatives(SplitOn(Before(p[1..], CLOSE_ALT), COMMA))
    else Literal(p[0])
  }

  function Translate(p: bytes): seq<Item>
    decreases |p|
  {
    if p == [] then [] else [FirstItem(p)] + Translate(Tail(p))
  }

  predicate EmptySet(p: bytes) {
    p != [] && p[0] == OPEN_SET && Before(SetTail(p), CLOSE_SET) == []
  }

  predicate BackwardSet(p: bytes) {
    p != [] && p[0] == OPEN_SET && RangesOf(Before(SetTail(p), CLOSE_SET)) == None
  }

  /**
    What a set left open swallows of the text emitted for `p`: the characters up to the next
    closing bracket that is not escaped, whether a star follows it, and the pattern after it.
  */
  function Swallow(p: bytes): (r: Option<(bytes, bool, bytes)>)
    ensures r.Some? ==> |r.value.2| < |p|
    decreases |p|
  {
    if p == [] then None
    else if p[0] == STAR || p[0] == QUESTION then Some(([OPEN_SET, CARET, SLASH], p[0] == STAR, p[1..]))
    else if p[0] == OPEN_SET then
      Some(([OPEN_SET] + (if Negated(p) then [CARET] else []) + Before(SetTail(p), CLOSE_SET), false, Tail(p)))
    else
      match Swallow(Tail(p))
      case None => None
      case Some((chars, star, rest)) => Some((Chars(EmitFirst(p)) + chars, star, rest))
  }

  function Chars(text: seq<Token>): (s: bytes)
    ensures |s| == |text|
  {
    seq(|text|, k requires 0 <= k < |text| => text[k].c)
  }

  /**
    The expression of any pattern.  The closing bracket of an empty set is a member of that
    set, which goes on into the text that follows.
  */
  function Read(p: bytes): Parsed
    decreases |p|
  {
    if p == [] then Ok([])
    else if EmptySet(p) then
      match Swallow(Tail(p))
      case None => Err(BadSet)
      case Some((chars, star, rest)) =>
        match RangesOf([CLOSE_SET] + chars)
        case None => Err(BadSet)
        case Some(ranges) =>
          var cls := Class(Negated(p), ranges);
          WithItem(if star then Run(cls) else One(cls), Read(rest))
    else if BackwardSet(p) then Err(BadSet)
    else WithItem(FirstItem(p), Read(Tail(p)))
  }

  /** No closing bracket but a first one, and no escaped minus sign. */
  predicate Inside(text: seq<Token>, first: bool) {
    && (first ==> text != [])
    && (forall k :: 0 <= k < |text| ==> text[k] != Escaped(MINUS) && (text[k] == Plain(CLOSE_SET) ==> first && k == 0))
  }

  lemma InsideFrom(text: seq<Token>, first: bool, k: nat)
    requires Inside(text, first) && 0 < k <= |text|
    ensures Inside(text[k..], false) && Chars(text[k..]) == Chars(text)[k..]
  {
  }

  /** The parser finds the ranges of the characters up to the closing bracket. */
  lemma {:induction false} MembersAre(text: seq<Token>, rest: seq<Token>, first: bool)
    requires Inside(text, first)
    ensures ParseMembers(text + [Plain(CLOSE_SET)] + rest, first) ==
            match RangesOf(Chars(text)) case None => None case Some(ranges) => Some((ranges, rest))
    decreases |text|
  {
    var s, whole := Chars(text), text + [Plain(CLOSE_SET)] + rest;
    if text == [] {
      assert whole[1..] == rest;
    } else if |text| == 1 || s[1] != MINUS {
      InsideFrom(text, first, 1);
      assert whole[1..] == text[1..] + [Plain(CLOSE_SET)] + rest;
      MembersAre(text[1..], rest, false);
    } else if |text| == 2 {
      assert whole[3..] == rest;
    } else {
      InsideFrom(text, first, 3);
      assert whole[3..] == text[3..] + [Plain(CLOSE_SET)] + rest;
      MembersAre(text[3..], rest, false);
    }
  }

  /** A set without a closing bracket is refused. */
  lemma {:induction false} MembersUnclosed(text: seq<Token>, first: bool)
    requires Inside(text, first)
    ensures ParseMembers(text, first) == None
    decreases |text|
  {
    if |text| > 1 {
      InsideFrom(text, first, 1);
      MembersUnclosed(text[1..], false);
      if |text| > 3 {
        InsideFrom(text, first, 3);
        MembersUnclosed(text[3..], false);
      }
    }
  }

  lemma EmitMembersInside(s: bytes)
    requires CLOSE_SET !in s
    ensures Inside(EmitMembers(s), false) && Chars(EmitMembers(s)) == s
  {
    var text := EmitMembers(s);
    forall k | 0 <= k < |s|
      ensures text[k].c == s[k] && text[k] != Escaped(MINUS) && text[k] != Plain(CLOSE_SET)
    {
      assert s[k] in s;
    }
    assert Chars(text) == s;
  }

  /** A text that does not go on with a star. */
  predicate NoStar(text: seq<Token>) {
    text != [] && text[0] != Plain(STAR)
  }

  lemma EmitStarts(p: bytes)
    ensures NoStar(Emit(p))
  {
    if p != [] {
      assert EmitFirst(p) != [] && EmitFirst(p)[0] != Plain(STAR);
    }
  }

  /** What `Parse` makes of a set whose members are known. */
  lemma ParseSet(negated: bool, text: seq<Token>, star: bool, rest: seq<Token>)
    requires Inside(text, true) && NoStar(rest) && text[0] != Plain(CARET)
    ensures var whole := [Plain(OPEN_SET)] + (if negated then [Plain(CARET)] else []) + text + [Plain(CLOSE_SET)]
                         + (if star then [Plain(STAR)] else []) + rest;
            Parse(whole) == match RangesOf(Chars(text))
                            case None => Err(BadSet)
                            case Some(ranges) =>
                              var cls := Class(negated, ranges);
                              WithItem(if star then Run(cls) else One(cls), Parse(rest))
  {
    hide ParseMembers, RangesOf, ParseClass, Parse;
    var after := (if star then [Plain(STAR)] else []) + rest;
    var body := text + [Plain(CLOSE_SET)] + after;
    MembersAre(text, after, true);
    ClassOf(negated, body);
    ParseOpen((if negated then [Plain(CARET)] else []) + body);
    assert [Plain(OPEN_SET)] + (if negated then [Plain(CARET)] else []) + text + [Plain(CLOSE_SET)]
           + (if star then [Plain(STAR)] else []) + rest
        == [Plain(OPEN_SET)] + ((if negated then [Plain(CARET)] else []) + body);
    assert after[0] == Plain(STAR) <==> star;
    assert star ==> after[1..] == rest;
    assert !star ==> after == rest;
  }

  lemma ParseOpen(text: seq<Token>)
    ensures Parse([Plain(OPEN_SET)] + text) ==
            match ParseClass(text)
            case None => Err(BadSet)
            case Some((cls, rest)) =>
              if rest != [] && rest[0] == Plain(STAR) then WithItem(Run(cls), Parse(rest[1..]))
              else WithItem(One(cls), Parse(rest))
  {
    hide ParseClass;
    var whole := [Plain(OPEN_SET)] + text;
    assert whole[0] == Plain(OPEN_SET) && whole[1..] == text;
    assert whole != [Plain(DOLLAR)];
  }

  lemma ClassOf(negated: bool, body: seq<Token>)
    requires body != [] && body[0] != Plain(CARET)
    ensures ParseClass((if negated then [Plain(CARET)] else []) + body) ==
            match ParseMembers(body, true)
            case None => None
            case Some((ranges, rest)) => Some((Class(negated, ranges), rest))
  {
    hide ParseMembers;
    var text := (if negated then [Plain(CARET)] else []) + body;
    assert negated ==> text[1..] == body;
    assert !negated ==> text == body;
  }

  // Groups.

  lemma SplitOnCons(c: byte, s: bytes)
    ensures SplitOn([c] + s, COMMA) ==
            if c == COMMA then [[]] + SplitOn(s, COMMA) else PrependFirst(c, SplitOn(s, COMMA))
  {
    var t := [c] + s;
    assert t[1..] == s;
    var n := IndexOf(s, COMMA);
    if c != COMMA {
      assert IndexOf(t, COMMA) == n + 1;
      assert t[..n + 1] == [c] + s[..n];
      assert n < |s| ==> t[n + 2..] == s[n + 1..];
      assert n == |s| ==> SplitOn(s, COMMA)[1..] == [];
      assert n < |s| ==> SplitOn(s, COMMA)[1..] == SplitOn(s[n + 1..], COMMA);
    } else {
      assert t[..0] == [];
    }
  }

  lemma {:induction false} GroupIs(s: bytes, rest: seq<Token>)
    requires CLOSE_ALT !in s
    ensures ParseGroup(EmitAlternatives(s) + [Plain(CLOSE_GROUP)] + rest) == Some((SplitOn(s, COMMA), rest))
  {
    var whole := EmitAlternatives(s) + [Plain(CLOSE_GROUP)] + rest;
    if s == [] {
      assert whole[1..] == rest;
    } else {
      assert s == [s[0]] + s[1..] && s[0] in s;
      assert whole[1..] == EmitAlternatives(s[1..]) + [Plain(CLOSE_GROUP)] + rest;
      GroupIs(s[1..], rest);
      SplitOnCons(s[0], s[1..]);
      hide SplitOn;
    }
  }

  /** Away from empty sets, the parser reads one character or group as its item. */
  lemma ParseFirst(p: bytes, rest: seq<Token>)
    requires p != [] && !EmptySet(p) && NoStar(rest)
    ensures Parse(EmitFirst(p) + rest) == if BackwardSet(p) then Err(BadSet) else WithItem(FirstItem(p), Parse(rest))
  {
    hide Parse, RangesOf, SplitOn;
    if p[0] == STAR || p[0] == QUESTION {
      AnyIs(p[0] == STAR, rest);
    } else if p[0] == OPEN_SET {
      var body := Before(SetTail(p), CLOSE_SET);
      EmitMembersInside(body);
      ParseSet(Negated(p), EmitMembers(body), false, rest);
      assert EmitSet(Negated(p), body) + [] + rest == EmitSet(Negated(p), body) + rest;
    } else if p[0] == OPEN_ALT {
      ParseAlternatives(Before(p[1..], CLOSE_ALT), rest);
    } else {
      ParseChar(p[0], rest);
    }
  }

  lemma AnyIs(star: bool, rest: seq<Token>)
    requires NoStar(rest)
    ensures Parse(ANY + (if star then [Plain(STAR)] else []) + rest)
         == WithItem(if star then Run(NOT_SLASH) else One(NOT_SLASH), Parse(rest))
    ensures Parse((if star then ANY + [Plain(STAR)] else ANY) + rest)
         == WithItem(if star then Run(NOT_SLASH) else One(NOT_SLASH), Parse(rest))
  {
    hide Parse;
    var text := [Plain(SLASH)];
    ParseSet(true, text, star, rest);
    assert Chars(text) == [SLASH] && RangesOf([SLASH][1..]) == Some([]);
    assert [Single(SLASH)] + [] == NOT_SLASH.ranges;
    assert ANY == [Plain(OPEN_SET)] + [Plain(CARET)] + text + [Plain(CLOSE_SET)];
    assert (if star then ANY + [Plain(STAR)] else ANY) + rest == ANY + (if star then [Plain(STAR)] else []) + rest;
  }

  lemma ParseAlternatives(body: bytes, rest: seq<Token>)
    requires CLOSE_ALT !in body
    ensures Parse(EmitGroup(body) + rest) == WithItem(Alternatives(SplitOn(body, COMMA)), Parse(rest))
  {
    GroupIs(body, rest);
    var whole := EmitGroup(body) + rest;
    assert whole[1..] == EmitAlternatives(body) + [Plain(CLOSE_GROUP)] + rest;
    hide ParseGroup, SplitOn, EmitAlternatives;
  }

  lemma ParseChar(c: byte, rest: seq<Token>)
    requires c != OPEN_ALT && rest != []
    ensures Parse([EmitChar(c)] + rest) == WithItem(Literal(c), Parse(rest))
  {
    var whole := [EmitChar(c)] + rest;
    assert whole[1..] == rest;
  }

  // Empty sets.

  /** `text` is emitted for `p` up to the first closing bracket, as `Swallow` describes it. */
  predicate SwallowedText(p: bytes, text: seq<Token>) {
    && Inside(text, false)
    && match Swallow(p)
       case None => text == Emit(p)
       case Some((chars, star, rest)) =>
         && Chars(text) == chars
         && Emit(p) == text + [Plain(CLOSE_SET)] + (if star then [Plain(STAR)] else []) + Emit(rest)
  }

  lemma {:induction false} Swallowed(p: bytes) returns (text: seq<Token>)
    ensures SwallowedText(p, text)
    decreases |p|
  {
    hide SwallowedText, EmitFirst, Emit, Inside;
    if p == [] {
      text := [Plain(DOLLAR)];
      NothingSwallowed();
    } else if p[0] == STAR || p[0] == QUESTION {
      text := ANY[..3];
      AnySwallowed(p);
    } else if p[0] == OPEN_SET {
      text := SetSwallowed(p);
    } else {
      var tail := Swallowed(Tail(p));
      text := EmitFirst(p) + tail;
      MoreSwallowed(p, tail);
    }
  }

  lemma NothingSwallowed()
    ensures SwallowedText([], [Plain(DOLLAR)])
  {
  }

  lemma AnySwallowed(p: bytes)
    requires p != [] && (p[0] == STAR || p[0] == QUESTION)
    ensures SwallowedText(p, ANY[..3])
  {
    AnyInside(p);
    hide EmitFirst, Inside, Chars;
    assert Emit(p) == EmitFirst(p) + Emit(p[1..]);
  }

  lemma SetSwallowed(p: bytes) returns (text: seq<Token>)
    requires p != [] && p[0] == OPEN_SET
    ensures SwallowedText(p, text)
  {
    text := SetInside(p);
    hide EmitFirst, Inside, Chars, Before, SetTail, Tail;
    assert Emit(p) == text + [Plain(CLOSE_SET)] + Emit(Tail(p));
    assert text + [Plain(CLOSE_SET)] + [] == text + [Plain(CLOSE_SET)];
  }

  lemma MoreSwallowed(p: bytes, tail: seq<Token>)
    requires p != [] && p[0] != STAR && p[0] != QUESTION && p[0] != OPEN_SET
    requires SwallowedText(Tail(p), tail)
    ensures SwallowedText(p, EmitFirst(p) + tail)
  {
    FirstInside(p);
    hide EmitFirst, Inside, Chars, Tail;
    CharsAppend(EmitFirst(p), tail);
    var swallowed := Swallow(Tail(p));
    if swallowed.Some? {
      var (_, star, rest) := swallowed.value;
      Front(EmitFirst(p), tail, [Plain(CLOSE_SET)], if star then [Plain(STAR)] else [], Emit(rest));
    }
  }

  lemma Front(a: seq<Token>, b: seq<Token>, c: seq<Token>, d: seq<Token>, e: seq<Token>)
    ensures a + (b + c + d + e) == a + b + c + d + e
  {
  }

  lemma AnyInside(p: bytes)
    requires p != [] && (p[0] == STAR || p[0] == QUESTION)
    ensures EmitFirst(p) == ANY[..3] + [Plain(CLOSE_SET)] + (if p[0] == STAR then [Plain(STAR)] else [])
    ensures Tail(p) == p[1..]
    ensures Inside(ANY[..3], false) && Chars(ANY[..3]) == [OPEN_SET, CARET, SLASH]
  {
  }

  lemma SetInside(p: bytes) returns (text: seq<Token>)
    requires p != [] && p[0] == OPEN_SET
    ensures Inside(text, false)
    ensures Chars(text) == [OPEN_SET] + (if Negated(p) then [CARET] else []) + Before(SetTail(p), CLOSE_SET)
    ensures EmitFirst(p) == text + [Plain(CLOSE_SET)]
  {
    var open := [Plain(OPEN_SET)] + (if Negated(p) then [Plain(CARET)] else []);
    var body := Before(SetTail(p), CLOSE_SET);
    EmitMembersInside(body);
    text := open + EmitMembers(body);
    assert Inside(open, false) && Chars(open) == [OPEN_SET] + if Negated(p) then [CARET] else [];
    hide Inside, Chars, EmitMembers;
    CharsAppend(open, EmitMembers(body));
  }

  lemma CharsAppend(a: seq<Token>, b: seq<Token>)
    ensures Chars(a + b) == Chars(a) + Chars(b)
    ensures Inside(a, false) && Inside(b, false) ==> Inside(a + b, false)
  {
  }

  lemma FirstInside(p: bytes)
    requires p != [] && p[0] != STAR && p[0] != QUESTION && p[0] != OPEN_SET
    ensures Inside(EmitFirst(p), false)
  {
    hide Before;
  }

  /** An empty set is read with its closing bracket as a member, up to the next one. */
  lemma ParseEmptySet(p: bytes)
    requires EmptySet(p)
    ensures match Swallow(Tail(p))
            case None => Parse(Emit(p)) == Err(BadSet)
            case Some((chars, star, rest)) =>
              Parse(Emit(p)) == match RangesOf([CLOSE_SET] + chars)
                                case None => Err(BadSet)
                                case Some(ranges) =>
                                  var cls := Class(Negated(p), ranges);
                                  WithItem(if star then Run(cls) else One(cls), Parse(Emit(rest)))
  {
    hide Parse, RangesOf, Swallow, Tail, Emit, EmitFirst, EmptySet, Inside, Chars;
    EmptySetFirst(p);
    var tail := Swallowed(Tail(p));
    var swallowed := Swallow(Tail(p));
    MembersOfEmptySet(tail);
    if swallowed == None {
      EmptySetOpen(p, tail);
    } else {
      EmptySetClosed(p, tail, swallowed.value.1, swallowed.value.2);
    }
  }

  lemma EmptySetFirst(p: bytes)
    requires EmptySet(p)
    ensures p != []
    ensures EmitFirst(p) == [Plain(OPEN_SET)] + (if Negated(p) then [Plain(CARET)] else []) + [Plain(CLOSE_SET)]
  {
    hide Before;
    assert EmitMembers([]) == [];
  }

  lemma MembersOfEmptySet(tail: seq<Token>)
    requires Inside(tail, false)
    ensures Inside([Plain(CLOSE_SET)] + tail, true) && Chars([Plain(CLOSE_SET)] + tail) == [CLOSE_SET] + Chars(tail)
  {
    CharsAppend([Plain(CLOSE_SET)], tail);
  }

  lemma EmptySetOpen(p: bytes, tail: seq<Token>)
    requires p != [] && Emit(Tail(p)) == tail && Inside([Plain(CLOSE_SET)] + tail, true)
    requires EmitFirst(p) == [Plain(OPEN_SET)] + (if Negated(p) then [Plain(CARET)] else []) + [Plain(CLOSE_SET)]
    ensures Parse(Emit(p)) == Err(BadSet)
  {
    hide Parse, Tail, EmitFirst, Inside;
    var caret := if Negated(p) then [Plain(CARET)] else [];
    assert Emit(p) == [Plain(OPEN_SET)] + caret + [Plain(CLOSE_SET)] + tail;
    hide Emit, Negated;
    Reassociate([Plain(OPEN_SET)], caret, [Plain(CLOSE_SET)], tail);
    UnclosedSet(Negated(p), [Plain(CLOSE_SET)] + tail);
  }

  lemma EmptySetClosed(p: bytes, tail: seq<Token>, star: bool, rest: bytes)
    requires p != [] && Inside([Plain(CLOSE_SET)] + tail, true)
    requires Emit(Tail(p)) == tail + [Plain(CLOSE_SET)] + (if star then [Plain(STAR)] else []) + Emit(rest)
    requires EmitFirst(p) == [Plain(OPEN_SET)] + (if Negated(p) then [Plain(CARET)] else []) + [Plain(CLOSE_SET)]
    ensures Parse(Emit(p)) == match RangesOf(Chars([Plain(CLOSE_SET)] + tail))
                              case None => Err(BadSet)
                              case Some(ranges) =>
                                var cls := Class(Negated(p), ranges);
                                WithItem(if star then Run(cls) else One(cls), Parse(Emit(rest)))
  {
    hide Parse, RangesOf, Tail, Emit, EmitFirst, Inside, Chars;
    EmitStarts(rest);
    ParseSet(Negated(p), [Plain(CLOSE_SET)] + tail, star, Emit(rest));
    EmptySetText(p, tail, star, Emit(rest));
  }

  lemma Reassociate(a: seq<Token>, b: seq<Token>, c: seq<Token>, d: seq<Token>)
    ensures a + b + c + d == a + (b + (c + d))
  {
  }

  lemma EmptySetText(p: bytes, tail: seq<Token>, star: bool, rest: seq<Token>)
    requires p != [] && Emit(Tail(p)) == tail + [Plain(CLOSE_SET)] + (if star then [Plain(STAR)] else []) + rest
    requires EmitFirst(p) == [Plain(OPEN_SET)] + (if Negated(p) then [Plain(CARET)] else []) + [Plain(CLOSE_SET)]
    ensures Emit(p) == [Plain(OPEN_SET)] + (if Negated(p) then [Plain(CARET)] else []) + ([Plain(CLOSE_SET)] + tail)
                       + [Plain(CLOSE_SET)] + (if star then [Plain(STAR)] else []) + rest
  {
    hide EmitFirst, Tail;
  }

  lemma UnclosedSet(negated: bool, text: seq<Token>)
    requires Inside(text, true) && text[0] != Plain(CARET)
    ensures Parse([Plain(OPEN_SET)] + ((if negated then [Plain(CARET)] else []) + text)) == Err(BadSet)
  {
    hide ParseMembers;
    var whole := [Plain(OPEN_SET)] + ((if negated then [Plain(CARET)] else []) + text);
    MembersUnclosed(text, true);
    ClassOf(negated, text);
    assert whole[1..] == (if negated then [Plain(CARET)] else []) + text;
  }

  /**
    What `re.compile` makes of the emitted text can be read off any pattern.  It refuses a
    pattern for its sets alone: a backward range, or an empty set that nothing closes.
  */
  lemma {:induction false} CompileIsRead(p: bytes)
    ensures Compile(p) == Read(p)
    decreases |p|
  {
    hide EmitFirst, FirstItem, Swallow, RangesOf, EmptySet, BackwardSet, Parse;
    if p == [] {
      ParseEnd();
    } else if EmptySet(p) {
      ParseEmptySet(p);
      var swallowed := Swallow(Tail(p));
      if swallowed.Some? {
        CompileIsRead(swallowed.value.2);
      }
    } else {
      EmitStarts(Tail(p));
      ParseFirst(p, Emit(Tail(p)));
      CompileIsRead(Tail(p));
    }
  }

  lemma ParseEnd()
    ensures Parse([Plain(DOLLAR)]) == Ok([])
  {
  }

  /** Every set has a member. */
  predicate SetsFilled(p: bytes)
    decreases |p|
  {
    p == [] || (!EmptySet(p) && SetsFilled(Tail(p)))
  }

  /** No range of a set runs backwards. */
  predicate RangesForward(p: bytes)
    decreases |p|
  {
    p == [] || (!BackwardSet(p) && RangesForward(Tail(p)))
  }

  /** Without an empty set, the expression of a pattern is its items, unless a range runs backwards. */
  lemma {:induction false} CompileFilled(p: bytes)
    requires SetsFilled(p)
    ensures Compile(p) == if RangesForward(p) then Ok(Translate(p)) else Err(BadSet)
    decreases |p|
  {
    hide FirstItem, EmptySet, BackwardSet, Compile;
    CompileIsRead(p);
    if p != [] {
      CompileFilled(Tail(p));
      CompileIsRead(Tail(p));
    }
  }

  /** Some empty set is not closed by a later star, question mark or set. */
  predicate LeftOpen(p: bytes)
    decreases |p|
  {
    p != [] && if EmptySet(p) then !Closes(Tail(p)) else LeftOpen(Tail(p))
  }

  predicate Closes(p: bytes)
    decreases |p|
  {
    p != [] && (p[0] == STAR || p[0] == QUESTION || p[0] == OPEN_SET || Closes(Tail(p)))
  }

  /** Such a pattern is refused. */
  lemma {:induction false} LeftOpenRefused(p: bytes)
    requires LeftOpen(p)
    ensures Compile(p) == Err(BadSet)
    decreases |p|
  {
    hide Compile;
    CompileIsRead(p);
    if EmptySet(p) {
      NotClosed(Tail(p));
    } else {
      LeftOpenRefused(Tail(p));
      CompileIsRead(Tail(p));
    }
  }

  lemma {:induction false} NotClosed(p: bytes)
    ensures Swallow(p).Some? <==> Closes(p)
    decreases |p|
  {
    if p != [] {
      NotClosed(Tail(p));
    }
  }

  // ----- matching as the specification describes it

  /** A character of a set: one of its characters, or between the ends of one of its ranges. */
  predicate Member(body: bytes, c: byte) {
    if body == [] then false
    else if |body| > 2 && body[1] == MINUS then body[0] <= c <= body[2] || Member(body[3..], c)
    else body[0] == c || Member(body[1..], c)
  }

  lemma {:induction false} MemberInRanges(body: bytes, c: byte)
    requires RangesOf(body).Some?
    ensures InRanges(RangesOf(body).value, c) <==> Member(body, c)
  {
    if body != [] {
      var ranges := RangesOf(body).value;
      if |body| == 1 || body[1] != MINUS {
        MemberInRanges(body[1..], c);
        assert ranges[1..] == RangesOf(body[1..]).value;
      } else if |body| == 2 {
        assert !Member(body[1..][1..], c) && !InRanges(ranges[1..][1..], c);
      } else {
        MemberInRanges(body[3..], c);
        assert ranges[1..] == RangesOf(body[3..]).value;
      }
    }
  }

  /**
    The first character or group: brackets and braces are closed and have no slash inside;
    sets are neither empty nor negated, and their ranges run forward and leave out the slash.
  */
  predicate WellFormedFirst(p: bytes)
    requires p != []
  {
    if p[0] == OPEN_SET then
      var body := Before(p[1..], CLOSE_SET);
      && CLOSE_SET in p[1..] && !Negated(p)
      && body != [] && RangesOf(body).Some? && SLASH !in body && !Member(body, SLASH)
    else p[0] == OPEN_ALT ==> CLOSE_ALT in p[1..] && SLASH !in Before(p[1..], CLOSE_ALT)
  }

  predicate WellFormed(p: bytes)
    decreases |p|
  {
    p == [] || (WellFormedFirst(p) && WellFormed(Tail(p)))
  }

  /** One part of a pattern against one part of an address. */
  predicate PartMatches(p: bytes, s: bytes)
    decreases |p|
  {
    if p == [] then s == []
    else if p[0] == STAR then exists k :: 0 <= k <= |s| && PartMatches(p[1..], s[k..])
    else if p[0] == QUESTION then s != [] && PartMatches(p[1..], s[1..])
    else if p[0] == OPEN_SET then
      s != [] && Member(Before(p[1..], CLOSE_SET), s[0]) && PartMatches(After(p[1..], CLOSE_SET), s[1..])
    else if p[0] == OPEN_ALT then
      var alts := SplitOn(Before(p[1..], CLOSE_ALT), COMMA);
      exists k :: 0 <= k < |alts| && alts[k] <= s && PartMatches(After(p[1..], CLOSE_ALT), s[|alts[k]|..])
    else s != [] && s[0] == p[0] && PartMatches(p[1..], s[1..])
  }

  predicate PartsMatch(ps: seq<bytes>, parts: seq<bytes>) {
    |ps| == |parts| && forall k :: 0 <= k < |ps| ==> PartMatches(ps[k], parts[k])
  }

  /** A well-formed pattern compiles to its items. */
  lemma {:induction false} WellFormedCompiles(p: bytes)
    requires WellFormed(p)
    ensures Compile(p) == Ok(Translate(p))
  {
    WellFormedSets(p);
    CompileFilled(p);
  }

  lemma {:induction false} WellFormedSets(p: bytes)
    requires WellFormed(p)
    ensures SetsFilled(p) && RangesForward(p)
    decreases |p|
  {
    hide RangesOf, Before;
    if p != [] {
      WellFormedSets(Tail(p));
    }
  }

  // ----- one part

  lemma {:induction false} AnyRunAccepts(rest: seq<Item>, s: bytes)
    requires SLASH !in s
    ensures Accepts([Run(NOT_SLASH)] + rest, s) <==> exists k :: 0 <= k <= |s| && Accepts(rest, s[k..])
  {
    var items := [Run(NOT_SLASH)] + rest;
    assert items[1..] == rest && s[0..] == s;
    if s != [] {
      AnyRunAccepts(rest, s[1..]);
      assert s[0] in s;
      NotSlash(s[0]);
      if k :| 0 <= k <= |s[1..]| && Accepts(rest, s[1..][k..]) {
        assert s[k + 1..] == s[1..][k..];
      }
      if k :| 0 <= k <= |s| && Accepts(rest, s[k..]) {
        if k > 0 {
          assert s[k..] == s[1..][k - 1..];
        }
      }
    }
  }

  /** On an address part, the items of a pattern accept what the part of the pattern matches. */
  lemma {:induction false} PartIsAccepted(p: bytes, s: bytes)
    requires WellFormed(p) && SLASH !in s
    ensures PartMatches(p, s) <==> Accepts(Translate(p), s)
    decreases |p|
  {
    hide Before, After, InClass, RangesOf, SplitOn, IndexOf;
    if p != [] {
      var rest := Tail(p);
      var items := [FirstItem(p)] + Translate(rest);
      assert items[1..] == Translate(rest);
      forall k | 0 <= k <= |s|
        ensures PartMatches(rest, s[k..]) <==> Accepts(Translate(rest), s[k..])
      {
        SlashFreeSlice(s, k, |s|);
        PartIsAccepted(rest, s[k..]);
      }
      if s != [] {
        assert s[0] in s;
        NotSlash(s[0]);
      }
      if p[0] == STAR {
        AnyRunAccepts(Translate(rest), s);
      } else if p[0] == OPEN_SET && s != [] {
        SetItem(p, s[0]);
      }
    }
  }

  lemma SetItem(p: bytes, c: byte)
    requires p != [] && p[0] == OPEN_SET && WellFormedFirst(p)
    ensures FirstItem(p).One? && (InClass(FirstItem(p).cls, c) <==> Member(Before(p[1..], CLOSE_SET), c))
  {
    hide Before, RangesOf;
    MemberInRanges(Before(p[1..], CLOSE_SET), c);
  }

  // ----- slashes

  /** The item matches no text with a slash. */
  predicate ItemSlashFree(item: Item) {
    match item
    case Literal(c) => c != SLASH
    case One(cls) => !InClass(cls, SLASH)
    case Run(cls) => !InClass(cls, SLASH)
    case Alternatives(alts) => forall k :: 0 <= k < |alts| ==> SLASH !in alts[k]
  }

  predicate SlashFree(items: seq<Item>) {
    forall k :: 0 <= k < |items| ==> ItemSlashFree(items[k])
  }

  lemma SlashFreeSlice(s: bytes, i: nat, j: nat)
    requires SLASH !in s && i <= j <= |s|
    ensures SLASH !in s[i..j] && SLASH !in s[..j] && SLASH !in s[i..]
  {
  }

  lemma {:induction false} SplitOnParts(s: bytes, c: byte)
    requires SLASH !in s
    ensures forall k :: 0 <= k < |SplitOn(s, c)| ==> SLASH !in SplitOn(s, c)[k]
    decreases |s|
  {
    var n := IndexOf(s, c);
    SlashFreeSlice(s, 0, n);
    if n < |s| {
      SlashFreeSlice(s, n + 1, |s|);
      SplitOnParts(s[n + 1..], c);
      var rest := SplitOn(s[n + 1..], c);
      forall k | 0 <= k < |SplitOn(s, c)|
        ensures SLASH !in SplitOn(s, c)[k]
      {
        assert SplitOn(s, c)[k] == if k == 0 then s[..n] else rest[k - 1];
      }
    }
  }

  lemma FirstItemSlashFree(p: bytes)
    requires p != [] && WellFormedFirst(p) && p[0] != SLASH
    ensures ItemSlashFree(FirstItem(p))
  {
    NotSlash(SLASH);
    hide Before, RangesOf, InClass, SplitOn, Member;
    if p[0] == OPEN_SET {
      SetItem(p, SLASH);
    } else if p[0] == OPEN_ALT {
      SplitOnParts(Before(p[1..], CLOSE_ALT), COMMA);
    }
  }

  lemma {:induction false} TranslateSlashFree(p: bytes)
    requires WellFormed(p) && SLASH !in p
    ensures SlashFree(Translate(p))
    decreases |p|
  {
    hide FirstItem, ItemSlashFree, WellFormedFirst;
    if p != [] {
      FirstItemSlashFree(p);
      var head := Head(p);
      SlashFreeSlice(p, |head|, |p|);
      assert Tail(p) == p[|head|..];
      TranslateSlashFree(Tail(p));
    }
  }

  lemma {:induction false} IndexOfAppend(a: bytes, b: bytes, c: byte)
    ensures IndexOf(a + b, c) == if IndexOf(a, c) < |a| then IndexOf(a, c) else |a| + IndexOf(b, c)
  {
    if a == [] {
      assert a + b == b;
    } else {
      assert (a + b)[1..] == a[1..] + b;
      IndexOfAppend(a[1..], b, c);
    }
  }

  lemma IndexOfNone(s: bytes, c: byte)
    ensures IndexOf(s, c) == |s| <==> c !in s
  {
    var n := IndexOf(s, c);
    assert n == |s| ==> s[..n] == s;
  }

  /** Slash-free items accept no text with a slash. */
  lemma {:induction false} SlashFreeAccepts(items: seq<Item>, s: bytes)
    requires SlashFree(items) && Accepts(items, s)
    ensures SLASH !in s
    decreases |items|, |s|
  {
    if items != [] {
      var rest := items[1..];
      assert ItemSlashFree(items[0]);
      match items[0] {
        case Run(cls) =>
          if Accepts(rest, s) {
            SlashFreeAccepts(rest, s);
          } else {
            SlashFreeAccepts(items, s[1..]);
            assert s == [s[0]] + s[1..];
          }
        case Alternatives(alts) =>
          var k :| 0 <= k < |alts| && alts[k] <= s && Accepts(rest, s[|alts[k]|..]);
          SlashFreeAccepts(rest, s[|alts[k]|..]);
          assert s == alts[k] + s[|alts[k]|..];
        case _ =>
          SlashFreeAccepts(rest, s[1..]);
          assert s == [s[0]] + s[1..];
      }
    }
  }

  lemma SlashIndex(s: bytes, n: nat)
    requires n <= |s| && SLASH !in s[..n]
    ensures IndexOf(s, SLASH) == n + IndexOf(s[n..], SLASH)
  {
    hide IndexOf;
    assert s == s[..n] + s[n..];
    IndexOfAppend(s[..n], s[n..], SLASH);
    IndexOfNone(s[..n], SLASH);
  }

  lemma SlicesOfTail(s: bytes, n: nat, m: nat)
    requires n + m <= |s|
    ensures s[n..][..m] == s[..n + m][n..]
    ensures n + m < |s| ==> s[n..][m + 1..] == s[n + m + 1..]
  {
  }

  /** A slash between two groups of items can only match the first slash of the text. */
  predicate SlashCase(a: seq<Item>, b: seq<Item>, s: bytes) {
    var j := IndexOf(s, SLASH);
    Accepts(a + [Literal(SLASH)] + b, s) <==>
    j < |s| && Accepts(a, s[..j]) && Accepts(b, s[j + 1..])
  }

  lemma {:induction false} AcceptsSlash(a: seq<Item>, b: seq<Item>, s: bytes)
    requires SlashFree(a)
    ensures SlashCase(a, b, s)
    decreases |a|, |s|
  {
    var whole, j := a + [Literal(SLASH)] + b, IndexOf(s, SLASH);
    if a == [] {
      assert whole[1..] == b;
      assert s != [] && s[0] == SLASH ==> j == 0;
      assert j > 0 ==> s[..j] != [];
    } else {
      var rest := a[1..];
      assert whole[0] == a[0] && whole[1..] == rest + [Literal(SLASH)] + b;
      assert ItemSlashFree(a[0]);
      if s != [] && s[0] != SLASH {
        SlashIndex(s, 1);
        SlicesOfTail(s, 1, IndexOf(s[1..], SLASH));
        AcceptsSlash(rest, b, s[1..]);
      }
      match a[0] {
        case Run(cls) =>
          AcceptsSlash(rest, b, s);
          if s != [] && s[0] != SLASH {
            AcceptsSlash(a, b, s[1..]);
          }
        case Alternatives(alts) => AlternativesSlash(a, b, s, alts);
        case _ =>
      }
    }
  }

  lemma {:induction false} AlternativesSlash(a: seq<Item>, b: seq<Item>, s: bytes, alts: seq<bytes>)
    requires SlashFree(a) && a != [] && a[0] == Alternatives(alts)
    ensures SlashCase(a, b, s)
    decreases |a|, |s|, 0
  {
    var whole, rest, j := a + [Literal(SLASH)] + b, a[1..], IndexOf(s, SLASH);
    assert whole[0] == a[0] && whole[1..] == rest + [Literal(SLASH)] + b;
    assert ItemSlashFree(a[0]);
    forall k | 0 <= k < |alts| && alts[k] <= s
      ensures alts[k] <= s[..j]
      ensures Accepts(whole[1..], s[|alts[k]|..]) <==>
              j < |s| && Accepts(rest, s[..j][|alts[k]|..]) && Accepts(b, s[j + 1..])
    {
      assert s[..|alts[k]|] == alts[k];
      SlashIndex(s, |alts[k]|);
      SlicesOfTail(s, |alts[k]|, IndexOf(s[|alts[k]|..], SLASH));
      AcceptsSlash(rest, b, s[|alts[k]|..]);
    }
    assert forall k :: 0 <= k < |alts| && alts[k] <= s[..j] ==> alts[k] <= s;
  }

  // ----- the whole pattern

  /** The text of the first character or group of a well-formed pattern. */
  lemma Head(p: bytes) returns (head: bytes)
    requires p != [] && WellFormedFirst(p)
    ensures head != [] && p == head + Tail(p)
    ensures p[0] != SLASH ==> SLASH !in head
    ensures p[0] == SLASH ==> head == [SLASH]
  {
    hide IndexOf, RangesOf, Member, Before, After;
    if p[0] == OPEN_SET {
      var group := ClosedGroup(p[1..], CLOSE_SET);
      head := [p[0]] + group;
    } else if p[0] == OPEN_ALT {
      var group := ClosedGroup(p[1..], CLOSE_ALT);
      head := [p[0]] + group;
    } else {
      head := [p[0]];
    }
  }

  /** A closed group up to its closing character. */
  lemma ClosedGroup(s: bytes, close: byte) returns (head: bytes)
    requires close in s
    ensures s == head + After(s, close) && head == Before(s, close) + [close]
  {
    IndexOfNone(s, close);
    hide IndexOf;
    head := Before(s, close) + [close];
  }

  /** A closed group means the same whatever text follows it. */
  lemma GroupStable(a: bytes, x: bytes, y: bytes, c: byte)
    requires c in a + x && After(a + x, c) == x
    ensures c in a + y && After(a + y, c) == y && Before(a + y, c) == Before(a + x, c)
  {
    hide IndexOf;
    IndexOfNone(a + x, c);
    var n := IndexOf(a + x, c);
    assert |a + x| == n + 1 + |x|;
    IndexOfAppend(a, x, c);
    IndexOfAppend(a, y, c);
    assert (a + y)[..n] == a[..n] == (a + x)[..n];
    assert (a + y)[n + 1..] == y;
    assert (a + y)[n] == c;
  }

  lemma HeadStable(head: bytes, x: bytes, y: bytes)
    requires head != [] && WellFormedFirst(head + x) && Tail(head + x) == x
    ensures WellFormedFirst(head + y) && Tail(head + y) == y && FirstItem(head + y) == FirstItem(head + x)
  {
    hide Before, After, RangesOf, Member, SplitOn;
    var a := head[1..];
    assert (head + x)[1..] == a + x && (head + y)[1..] == a + y;
    if head[0] == OPEN_SET {
      GroupStable(a, x, y, CLOSE_SET);
      SetFilledHead(a, x, y);
    } else if head[0] == OPEN_ALT {
      GroupStable(a, x, y, CLOSE_ALT);
    }
  }

  /** The first character of a filled set decides about its negation. */
  lemma SetFilledHead(a: bytes, x: bytes, y: bytes)
    requires CLOSE_SET in a + x && After(a + x, CLOSE_SET) == x && Before(a + x, CLOSE_SET) != []
    ensures Negated([OPEN_SET] + a + y) == Negated([OPEN_SET] + a + x)
    ensures a != []
  {
    hide IndexOf;
    IndexOfNone(a + x, CLOSE_SET);
  }

  /** The items of `p` fall apart at its first slash, and so does its well-formedness. */
  predicate FallsApart(p: bytes) {
    var n := IndexOf(p, SLASH);
    && n < |p| && WellFormed(p[..n]) && WellFormed(p[n + 1..])
    && Translate(p) == Translate(p[..n]) + [Literal(SLASH)] + Translate(p[n + 1..])
  }

  lemma {:induction false} TranslateAtSlash(p: bytes)
    requires WellFormed(p) && SLASH in p
    ensures FallsApart(p)
    decreases |p|
  {
    hide FallsApart, WellFormedFirst, FirstItem;
    if p[0] == SLASH {
      SlashFirst(p);
    } else {
      var head := Head(p);
      SlashInRest(head, Tail(p));
      TranslateAtSlash(Tail(p));
      HeadAtSlash(head, Tail(p));
    }
  }

  lemma SlashInRest(a: bytes, b: bytes)
    requires SLASH in a + b && SLASH !in a
    ensures SLASH in b
  {
  }

  lemma SlashFirst(p: bytes)
    requires p != [] && p[0] == SLASH && WellFormed(p)
    ensures FallsApart(p)
  {
    assert p[..0] == [] && p[0 + 1..] == p[1..];
    assert Translate([]) == [] && WellFormed([]);
    assert [] + [Literal(SLASH)] == [Literal(SLASH)];
  }

  lemma HeadAtSlash(head: bytes, tail: bytes)
    requires head != [] && SLASH !in head && WellFormedFirst(head + tail) && Tail(head + tail) == tail
    requires FallsApart(tail)
    ensures FallsApart(head + tail)
  {
    hide IndexOf, WellFormedFirst, FirstItem, Tail;
    var p, m := head + tail, IndexOf(tail, SLASH);
    IndexOfAppend(head, tail, SLASH);
    IndexOfNone(head, SLASH);
    var n := |head| + m;
    assert p[..n] == head + tail[..m] && p[n + 1..] == tail[m + 1..];
    HeadStable(head, tail, tail[..m]);
    ItemInFront(FirstItem(p), Translate(tail), Translate(tail[..m]), Translate(tail[m + 1..]));
  }

  /** An item in front of items that fall apart at a slash. */
  lemma ItemInFront(g: Item, whole: seq<Item>, a: seq<Item>, b: seq<Item>)
    requires whole == a + [Literal(SLASH)] + b
    ensures [g] + whole == [g] + a + [Literal(SLASH)] + b
  {
  }

  lemma NoSlashInPart(s: bytes)
    requires SLASH !in s
    ensures SplitOn(s, SLASH) == [s]
  {
    assert IndexOf(s, SLASH) == |s|;
  }

  /**
    The one expression built for a well-formed pattern accepts an address exactly when
    pattern and address have the same number of parts and each part matches on its own.
  */
  lemma {:induction false} PatternMatchesByParts(p: bytes, address: bytes)
    requires WellFormed(p)
    ensures Accepts(Translate(p), address) <==> PartsMatch(SplitOn(p, SLASH), SplitOn(address, SLASH))
    decreases |p|
  {
    hide Accepts, PartMatches, Translate, WellFormed, IndexOf, SlashFree;
    var j := IndexOf(address, SLASH);
    if SLASH in p {
      var n := IndexOf(p, SLASH);
      TranslateAtSlash(p);
      TranslateSlashFree(p[..n]);
      AcceptsSlash(Translate(p[..n]), Translate(p[n + 1..]), address);
      if j < |address| {
        PartIsAccepted(p[..n], address[..j]);
        PatternMatchesByParts(p[n + 1..], address[j + 1..]);
        PartsMatchCons(p[..n], SplitOn(p[n + 1..], SLASH), address[..j], SplitOn(address[j + 1..], SLASH));
      }
    } else {
      NoSlashInPart(p);
      TranslateSlashFree(p);
      if Accepts(Translate(p), address) {
        SlashFreeAccepts(Translate(p), address);
      }
      if SLASH !in address {
        NoSlashInPart(address);
        PartIsAccepted(p, address);
        PartsMatchOne(p, address);
      } else {
        IndexOfNone(address, SLASH);
      }
    }
  }

  lemma PartsMatchOne(p: bytes, s: bytes)
    ensures PartsMatch([p], [s]) <==> PartMatches(p, s)
  {
    assert PartsMatch([p], [s]) ==> PartMatches([p][0], [s][0]);
  }

  lemma PartsMatchCons(p: bytes, ps: seq<bytes>, s: bytes, parts: seq<bytes>)
    ensures PartsMatch([p] + ps, [s] + parts) <==> PartMatches(p, s) && PartsMatch(ps, parts)
  {
    hide PartMatches;
    var us, vs := [p] + ps, [s] + parts;
    assert us[0] == p && vs[0] == s && us[1..] == ps && vs[1..] == parts;
    if PartsMatch(us, vs) {
      assert PartMatches(us[0], vs[0]);
      forall k | 0 <= k < |ps|
        ensures PartMatches(ps[k], parts[k])
      {
        assert PartMatches(us[k + 1], vs[k + 1]);
      }
    }
    if PartMatches(p, s) && PartsMatch(ps, parts) {
      forall k | 0 <= k < |us|
        ensures PartMatches(us[k], vs[k])
      {
        assert k > 0 ==> PartMatches(ps[k - 1], parts[k - 1]);
      }
    }
  }

  /** The same for the compiled expression, which also accepts one final newline. */
  lemma CompiledMatchesByParts(p: bytes, address: bytes)
    requires WellFormed(p)
    ensures Compile(p).Ok?
    ensures Matches(Compile(p).value, address) <==>
            || PartsMatch(SplitOn(p, SLASH), SplitOn(address, SLASH))
            || (address != [] && address[|address| - 1] == NEWLINE &&
                PartsMatch(SplitOn(p, SLASH), SplitOn(address[..|address| - 1], SLASH)))
  {
    WellFormedCompiles(p);
    PatternMatchesByParts(p, address);
    if address != [] {
      PatternMatchesByParts(p, address[..|address| - 1]);
    }
  }

  // ----- in literal characters

  /** The characters that are escaped in a set, and those that are escaped elsewhere. */
  lemma EscapedCharacters(c: byte)
    ensures EmitMember(c) ==
            if c in [0x5C, 0x5E, 0x24, 0x2E, 0x7C, 0x28, 0x29, 0x2B, 0x2A, 0x3F] then Escaped(c) else Plain(c)
    ensures EmitChar(c) ==
            if c in [0x5C, 0x5E, 0x24, 0x2E, 0x7C, 0x28, 0x29, 0x5B, 0x5D, 0x2B, 0x2A, 0x3F]
            then Escaped(c) else Plain(c)
  {
  }

  /** The dollar sign lets a final newline pass. */
  lemma FinalNewline(items: seq<Item>, s: bytes)
    ensures Matches(items, s) <==>
            Accepts(items, s) || (s != [] && s[|s| - 1] == 0x0A && Accepts(items, s[..|s| - 1]))
  {
    hide Accepts;
  }

  lemma OneItem(p: bytes)
    requires p != [] && !EmptySet(p) && !BackwardSet(p) && Tail(p) == []
    ensures Compile(p) == Ok([FirstItem(p)])
  {
    hide FirstItem, EmptySet, BackwardSet, Tail, Compile;
    CompileIsRead(p);
    assert Read([]) == Ok([]);
    assert [FirstItem(p)] + [] == [FirstItem(p)];
  }

  lemma OneOf(cls: Class, s: bytes)
    ensures Accepts([One(cls)], s) <==> |s| == 1 && InClass(cls, s[0])
  {
    hide InClass;
    var items := [One(cls)];
    assert items[1..] == [];
    if s != [] {
      assert Accepts(items[1..], s[1..]) <==> s[1..] == [];
    }
  }

  /** A star is any text without a slash, and a question mark any character but a slash. */
  lemma {:induction false} StarPattern(s: bytes)
    ensures Compile([0x2A]).Ok? && (Accepts(Compile([0x2A]).value, s) <==> 0x2F !in s)
    ensures Compile([0x3F]).Ok? && (Accepts(Compile([0x3F]).value, s) <==> |s| == 1 && s[0] != 0x2F)
  {
    OneItem([0x2A]);
    OneItem([0x3F]);
    hide Compile;
    RunIs(s);
    OneOf(NOT_SLASH, s);
    if s != [] {
      NotSlash(s[0]);
    }
  }

  lemma {:induction false} RunIs(s: bytes)
    ensures Accepts([Run(NOT_SLASH)], s) <==> 0x2F !in s
  {
    var items := [Run(NOT_SLASH)];
    assert items[1..] == [];
    if s != [] {
      NotSlash(s[0]);
      RunIs(s[1..]);
      assert s == [s[0]] + s[1..];
    }
  }

  /** Any character that starts no wildcard, set or group stands for itself. */
  lemma CharPattern(c: byte, s: bytes)
    requires c !in [0x2A, 0x3F, 0x5B, 0x7B]
    ensures Compile([c]).Ok? && (Accepts(Compile([c]).value, s) <==> s == [c])
  {
    OneItem([c]);
    hide Compile;
    var items := [Literal(c)];
    assert items[1..] == [];
    if s != [] {
      assert Accepts(items[1..], s[1..]) <==> s[1..] == [];
    }
  }

  lemma BodyOf(body: bytes, close: byte)
    requires close !in body
    ensures Before(body + [close], close) == body && After(body + [close], close) == []
  {
    IndexOfNone(body, close);
    IndexOfAppend(body, [close], close);
    assert IndexOf([close], close) == 0;
    hide IndexOf;
    var s := body + [close];
    assert s[..|body|] == body && s[|body| + 1..] == [];
  }

  lemma {:induction false} PlainMembers(body: bytes, c: byte)
    requires 0x2D !in body
    ensures RangesOf(body).Some? && (Member(body, c) <==> c in body)
  {
    if body != [] {
      assert body == [body[0]] + body[1..] && body[0] in body;
      PlainMembers(body[1..], c);
    }
  }

  /** A set of characters in brackets, and with an exclamation mark every character outside it, even the slash. */
  lemma SetPattern(body: bytes, s: bytes)
    requires body != [] && 0x5D !in body && 0x2D !in body
    ensures body[0] != 0x21 ==>
              var p := [0x5B] + body + [0x5D];
              Compile(p).Ok? && (Accepts(Compile(p).value, s) <==> |s| == 1 && s[0] in body)
    ensures var p := [0x5B, 0x21] + body + [0x5D];
            Compile(p).Ok? && (Accepts(Compile(p).value, s) <==> |s| == 1 && s[0] !in body)
  {
    hide Compile, Accepts, RangesOf;
    if body[0] != 0x21 {
      SetItems([0x5B] + body + [0x5D], body, false, s);
    }
    SetItems([0x5B, 0x21] + body + [0x5D], body, true, s);
  }

  lemma SetItems(p: bytes, body: bytes, negated: bool, s: bytes)
    requires body != [] && 0x5D !in body && 0x2D !in body && (!negated ==> body[0] != 0x21)
    requires p == (if negated then [0x5B, 0x21] else [0x5B]) + body + [0x5D]
    ensures Compile(p).Ok? && (Accepts(Compile(p).value, s) <==> |s| == 1 && ((s[0] in body) != negated))
  {
    hide Compile, Accepts, RangesOf, Before, After;
    var tail := body + [0x5D];
    BodyOf(body, 0x5D);
    assert Negated(p) == negated && SetTail(p) == tail;
    PlainMembers(body, 0);
    OneItem(p);
    var cls := Class(negated, RangesOf(body).value);
    assert FirstItem(p) == One(cls);
    OneOf(cls, s);
    if s != [] {
      PlainMembers(body, s[0]);
      MemberInRanges(body, s[0]);
    }
  }

  /** A range in brackets; one that runs backwards is refused. */
  lemma RangePattern(lo: byte, hi: byte, s: bytes)
    requires lo != 0x21 && lo != 0x5D && hi != 0x5D
    ensures var p := [0x5B, lo, 0x2D, hi, 0x5D];
            && (hi < lo ==> Compile(p) == Err(BadSet))
            && (lo <= hi ==> Compile(p).Ok? && (Accepts(Compile(p).value, s) <==> |s| == 1 && lo <= s[0] <= hi))
  {
    var p, body := [0x5B, lo, 0x2D, hi, 0x5D], [lo, 0x2D, hi];
    var none: bytes := body[3..];
    assert none == [] && RangesOf(none) == Some([]);
    assert [Range(lo, hi)] + [] == [Range(lo, hi)];
    assert RangesOf(body) == if hi < lo then None else Some([Range(lo, hi)]);
    hide Compile, Accepts, RangesOf, Before, After;
    BodyOf(body, 0x5D);
    assert !Negated(p) && SetTail(p) == body + [0x5D];
    if lo <= hi {
      OneItem(p);
      OneOf(Class(false, [Range(lo, hi)]), s);
      if s != [] {
        OneRange(lo, hi, s[0]);
      }
    } else {
      CompileIsRead(p);
    }
  }

  lemma OneRange(lo: byte, hi: byte, c: byte)
    ensures InClass(Class(false, [Range(lo, hi)]), c) <==> lo <= c <= hi
  {
    assert !InRanges([Range(lo, hi)][1..], c);
  }

  /** Alternatives in braces, with a comma between them. */
  lemma GroupPattern(a: bytes, b: bytes, s: bytes)
    requires 0x7D !in a && 0x7D !in b && 0x2C !in a && 0x2C !in b
    ensures var p := [0x7B] + (a + [0x2C] + b) + [0x7D];
            Compile(p).Ok? && (Accepts(Compile(p).value, s) <==> s == a || s == b)
  {
    var body := a + [0x2C] + b;
    var p := [0x7B] + body + [0x7D];
    assert p[1..] == body + [0x7D];
    BodyOf(body, 0x7D);
    TwoParts(a, b);
    hide Compile, SplitOn, Before, After;
    OneItem(p);
    assert FirstItem(p) == Alternatives([a, b]);
    TwoAlternatives(a, b, s);
  }

  lemma TwoParts(a: bytes, b: bytes)
    requires 0x2C !in a && 0x2C !in b
    ensures SplitOn(a + [0x2C] + b, 0x2C) == [a, b]
  {
    var body := a + [0x2C] + b;
    assert body == a + ([0x2C] + b);
    IndexOfAppend(a, [0x2C] + b, 0x2C);
    IndexOfNone(a, 0x2C);
    IndexOfNone(b, 0x2C);
    SplitOnFirst(body, 0x2C);
    SplitOnFirst(b, 0x2C);
    assert body[..|a|] == a && body[|a| + 1..] == b;
    hide SplitOn, IndexOf;
  }

  lemma SplitOnFirst(s: bytes, c: byte)
    ensures var n := IndexOf(s, c);
            SplitOn(s, c) == if n == |s| then [s] else [s[..n]] + SplitOn(s[n + 1..], c)
  {
  }

  lemma TwoAlternatives(a: bytes, b: bytes, s: bytes)
    ensures Accepts([Alternatives([a, b])], s) <==> s == a || s == b
  {
    var alts := [a, b];
    var items := [Alternatives(alts)];
    assert items[1..] == [];
    assert alts[0] == a && alts[1] == b;
    forall k | 0 <= k < 2 && alts[k] <= s
      ensures Accepts(items[1..], s[|alts[k]|..]) <==> s == alts[k]
    {
      assert s == alts[k] + s[|alts[k]|..];
    }
    if s == a {
      assert alts[0] <= s;
    }
    if s == b {
      assert alts[1] <= s;
    }
  }

  /** A bracket or brace that is not closed reaches to the end of the pattern. */
  lemma Unclosed(body: bytes)
    ensures 0x5D !in body && 0x2D !in body && body != [] && body[0] != 0x21 ==>
              Compile([0x5B] + body) == Compile([0x5B] + body + [0x5D])
    ensures 0x7D !in body ==> Compile([0x7B] + body) == Compile([0x7B] + body + [0x7D])
  {
    hide Compile, RangesOf, SplitOn, Before, After;
    if 0x5D !in body && 0x2D !in body && body != [] && body[0] != 0x21 {
      var open, closed := [0x5B] + body, [0x5B] + body + [0x5D];
      OpenBody(body, 0x5D);
      BodyOf(body, 0x5D);
      assert SetTail(open) == body && SetTail(closed) == body + [0x5D];
      assert !Negated(open) && !Negated(closed);
      PlainMembers(body, 0);
      OneItem(open);
      OneItem(closed);
    }
    if 0x7D !in body {
      var open, closed := [0x7B] + body, [0x7B] + body + [0x7D];
      OpenBody(body, 0x7D);
      BodyOf(body, 0x7D);
      assert open[1..] == body && closed[1..] == body + [0x7D];
      OneItem(open);
      OneItem(closed);
    }
  }

  lemma OpenBody(body: bytes, close: byte)
    requires close !in body
    ensures Before(body, close) == body && After(body, close) == []
  {
    IndexOfNone(body, close);
    hide IndexOf;
  }

  /** The pattern `[]?` is the set of the characters `]`, `[`, `^` and `/`. */
  lemma SwallowedSet()
    ensures Compile([0x5B, 0x5D, 0x3F]) ==
            Ok([One(Class(false, [Range(0x5D, 0x5D), Range(0x5B, 0x5B), Range(0x5E, 0x5E), Range(0x2F, 0x2F)]))])
  {
    var p: bytes, tail: bytes := [0x5B, 0x5D, 0x3F], [0x5D, 0x3F];
    hide Compile, RangesOf, Before, After;
    CompileIsRead(p);
    EmptyBody(tail);
    assert SetTail(p) == tail && !Negated(p);
    assert EmptySet(p) && Tail(p) == [0x3F];
    assert [0x3F][1..] == [];
    var next: bytes := [0x3F];
    assert Swallow(next) == Some(([0x5B, 0x5E, 0x2F], false, next[1..]));
    FourMembers();
    assert Read([]) == Ok([]);
    assert [0x5D] + [0x5B, 0x5E, 0x2F] == [0x5D, 0x5B, 0x5E, 0x2F];
    var cls := Class(false, RangesOf([0x5D, 0x5B, 0x5E, 0x2F]).value);
    assert next[1..] == [];
    hide Swallow;
    assert Read(p) == WithItem(One(cls), Read([]));
    assert [One(cls)] + [] == [One(cls)];
  }

  lemma EmptyBody(tail: bytes)
    requires tail == [0x5D, 0x3F]
    ensures Before(tail, 0x5D) == [] && After(tail, 0x5D) == [0x3F]
  {
    assert IndexOf(tail, 0x5D) == 0;
  }

  lemma FourMembers()
    ensures RangesOf([0x5D, 0x5B, 0x5E, 0x2F]) ==
            Some([Range(0x5D, 0x5D), Range(0x5B, 0x5B), Range(0x5E, 0x5E), Range(0x2F, 0x2F)])
  {
    var none: bytes := [];
    var d: bytes, c: bytes, b: bytes := [0x2F], [0x5E, 0x2F], [0x5B, 0x5E, 0x2F];
    assert d == [0x2F] + none && c == [0x5E] + d && b == [0x5B] + c;
    RangesCons(0x2F, none);
    RangesCons(0x5E, d);
    RangesCons(0x5B, c);
    RangesCons(0x5D, b);
    assert [0x5D] + b == [0x5D, 0x5B, 0x5E, 0x2F];
    hide RangesOf;
    var empty: seq<Range> := [];
    assert [Range(0x5D, 0x5D)] + ([Range(0x5B, 0x5B)] + ([Range(0x5E, 0x5E)] + ([Range(0x2F, 0x2F)] + empty)))
        == [Range(0x5D, 0x5D), Range(0x5B, 0x5B), Range(0x5E, 0x5E), Range(0x2F, 0x2F)];
  }

  lemma RangesCons(c: byte, rest: bytes)
    requires rest == [] || rest[0] != 0x2D
    ensures RangesOf([c] + rest) ==
            if RangesOf(rest).Some? then Some([Range(c, c)] + RangesOf(rest).value) else None
    ensures RangesOf([]) == Some([])
  {
    assert ([c] + rest)[1..] == rest;
  }
}
