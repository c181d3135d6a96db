/**
  The fragment of Python's regular expressions that dispatcher.py emits for an address
  pattern: its syntax as `re.compile` reads it, and its language.

  A text is read token by token: a character, or a backslash with the character it escapes.
  The fragment has literal characters, sets of characters, a star after a set, and groups
  of literal alternatives; the text ends with the dollar sign.
*/
module RegularExpression {
  import opened Wrappers
  import opened Bytes

  const STAR: byte := 0x2A
  const QUESTION: byte := 0x3F
  const OPEN_SET: byte := 0x5B
  const CLOSE_SET: byte := 0x5D
  const MINUS: byte := 0x2D
  const BACKSLASH: byte := 0x5C
  const CARET: byte := 0x5E
  const DOLLAR: byte := 0x24
  const DOT: byte := 0x2E
  const BAR: byte := 0x7C
  const OPEN_GROUP: byte := 0x28
  const CLOSE_GROUP: byte := 0x29
  const PLUS: byte := 0x2B
  const OPEN_BRACE: byte := 0x7B
  const CLOSE_BRACE: byte := 0x7D
  const NEWLINE: byte := 0x0A

  datatype Token = Plain(c: byte) | Escaped(c: byte)

  datatype Range = Range(lo: byte, hi: byte)

  datatype Class = Class(negated: bool, ranges: seq<Range>)

  /** `c`, `[...]`, `[...]*`, and `(a|b|...)`. */
  datatype Item =
    | Literal(c: byte)
    | One(cls: Class)
    | Run(cls: Class)
    | Alternatives(alts: seq<bytes>)

  /** A set that `re.compile` refuses; or syntax outside the fragment. */
  datatype SyntaxFault = BadSet | Unsupported

  type Parsed = Result<seq<Item>, SyntaxFault>

  // ----- syntax

  function Single(c: byte): Range {
    Range(c, c)
  }

  /**
    The members of a set up to its closing bracket, and the text after it; None where a range
    runs backwards or the text ends first.  A closing bracket in the first place is a member.
  */
  function ParseMembers(text: seq<Token>, first: bool): (r: Option<(seq<Range>, seq<Token>)>)
    ensures r.Some? ==> |r.value.1| < |text|
    decreases |text|
  {
    if text == [] then None
    else if text[0] == Plain(CLOSE_SET) && !first then Some(([], text[1..]))
    else if |text| == 1 then None
    else if text[1] != Plain(MINUS) then WithMember(Single(text[0].c), ParseMembers(text[1..], false))
    else if |text| == 2 then None
    else if text[2] == Plain(CLOSE_SET) then Some(([Single(text[0].c), Single(MINUS)], text[3..]))
    else if text[2].c < text[0].c then None
    else WithMember(Range(text[0].c, text[2].c), ParseMembers(text[3..], false))
  }

  function WithMember(m: Range, r: Option<(seq<Range>, seq<Token>)>): Option<(seq<Range>, seq<Token>)> {
    match r
    case None => None
    case Some((ranges, rest)) => Some(([m] + ranges, rest))
  }

  /** A set after its opening bracket. */
  function ParseClass(text: seq<Token>): (r: Option<(Class, seq<Token>)>)
    ensures r.Some? ==> |r.value.1| < |text|
  {
    var negated := text != [] && text[0] == Plain(CARET);
    match ParseMembers(if negated then text[1..] else text, true)
    case None => None
    case Some((ranges, rest)) => Some((Class(negated, ranges), rest))
  }

  /** Characters that have a meaning outside sets unless they are escaped. */
  predicate Operator(t: Token) {
    t.Plain? && (Special(t.c) || t.c == OPEN_SET || t.c == CLOSE_SET)
  }

  predicate Special(c: byte) {
    || c == BACKSLASH || c == CARET || c == DOLLAR || c == DOT || c == BAR
    || c == OPEN_GROUP || c == CLOSE_GROUP || c == PLUS || c == STAR || c == QUESTION
  }

  /**
    The alternatives of a group after its opening parenthesis.  Without a closing brace in
    the group an opening brace cannot start a repetition, and stands for itself.
  */
  function ParseGroup(text: seq<Token>): (r: Option<(seq<bytes>, seq<Token>)>)
    ensures r.Some? ==> |r.value.1| < |text| && r.value.0 != []
  {
    if text == [] then None
    else if text[0] == Plain(CLOSE_GROUP) then Some(([[]], text[1..]))
    else if text[0] != Plain(BAR) && (Operator(text[0]) || text[0] == Plain(CLOSE_BRACE)) then None
    else
      match ParseGroup(text[1..])
      case None => None
      case Some((alts, rest)) =>
        Some((if text[0] == Plain(BAR) then [[]] + alts else PrependFirst(text[0].c, alts), rest))
  }

  function PrependFirst(c: byte, alts: seq<bytes>): (r: seq<bytes>)
    requires alts != []
    ensures r != []
  {
    [[c] + alts[0]] + alts[1..]
  }

  function WithItem(item: Item, r: Parsed): Parsed {
    match r
    case Err(f) => Err(f)
    case Ok(items) => Ok([item] + items)
  }

  /** The expression after its caret. */
  function Parse(text: seq<Token>): Parsed
    decreases |text|
  {
    if text == [] then Err(Unsupported)
    else if text == [Plain(DOLLAR)] then Ok([])
    else if text[0] == Plain(OPEN_SET) then
      match ParseClass(text[1..])
      case None => Err(BadSet)
      case Some((cls, rest)) =>
        if rest != [] && rest[0] == Plain(STAR) then WithItem(Run(cls), Parse(rest[1..]))
        else WithItem(One(cls), Parse(rest))
    else if text[0] == Plain(OPEN_GROUP) then
      match ParseGroup(text[1..])
      case None => Err(Unsupported)
      case Some((alts, rest)) => WithItem(Alternatives(alts), Parse(rest))
    else if Operator(text[0]) || text[0] == Plain(OPEN_BRACE) then Err(Unsupported)
    else WithItem(Literal(text[0].c), Parse(text[1..]))
  }

  // ----- language

  predicate InRanges(ranges: seq<Range>, c: byte) {
    ranges != [] && (ranges[0].lo <= c <= ranges[0].hi || InRanges(ranges[1..], c))
  }

  predicate InClass(cls: Class, c: byte) {
    InRanges(cls.ranges, c) != cls.negated
  }

  function Accepts(items: seq<Item>, s: bytes): bool
    decreases |items|, |s|
  {
    if items == [] then s == []
    else
      match items[0]
      case Literal(c) => s != [] && s[0] == c && Accepts(items[1..], s[1..])
      case One(cls) => s != [] && InClass(cls, s[0]) && Accepts(items[1..], s[1..])
      case Run(cls) => Accepts(items[1..], s) || (s != [] && InClass(cls, s[0]) && Accepts(items, s[1..]))
      case Alternatives(alts) =>
        exists k :: 0 <= k < |alts| && alts[k] <= s && Accepts(items[1..], s[|alts[k]|..])
  }

  /** `match` of the compiled expression: the dollar sign also matches before a final newline. */
  predicate Matches(items: seq<Item>, s: bytes) {
    Accepts(items, s) || (s != [] && s[|s| - 1] == NEWLINE && Accepts(items, s[..|s| - 1]))
  }
}
