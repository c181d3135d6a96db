/**
  osc_message.py: parsing a datagram into an address and nested parameters (OSC 1.0
  specification, sections "OSC Type Tag String" and "OSC Arguments").

  `ParseMessage` describes the result with a recursive-descent grammar of the type tag
  string.  `Run` is the loop of the source over a stack of lists, as a function; module
  OscMessageHeap has the loop itself, over aliased lists in the heap.
*/
module OscMessage {
  import opened Wrappers
  import opened Bytes
  import opened PyValues
  import opened OscTypes

  const OPEN: byte := 0x5B
  const CLOSE: byte := 0x5D
  const TAG_INT: byte := 0x69
  const TAG_INT64: byte := 0x68
  const TAG_FLOAT: byte := 0x66
  const TAG_DOUBLE: byte := 0x64
  const TAG_STRING: byte := 0x73
  const TAG_BLOB: byte := 0x62
  const TAG_RGBA: byte := 0x72
  const TAG_MIDI: byte := 0x6D
  const TAG_TIMETAG: byte := 0x74
  const TAG_TRUE: byte := 0x54
  const TAG_FALSE: byte := 0x46
  const TAG_NIL: byte := 0x4E

  datatype Fault = Incorrect | NoComma | UnexpectedBracket | MissingBracket

  datatype Message = Message(dgram: bytes, address: bytes, params: seq<Value>)

  predicate DgramIsMessage(d: bytes) {
    d != [] && d[0] == SLASH
  }

  // ----- one parameter

  /** A parameter with the index after it; a tag the source does not know, which it skips; a read that fails. */
  datatype Arg = Param(value: Value, next: int) | Unhandled | Unreadable

  function ToArg<T>(r: Read<T>, wrap: T -> Value): Arg {
    match r
    case Malformed => Unreadable
    case Got(v, next) => Param(wrap(v), next)
  }

  function ReadFloat(d: bytes, i: int): Arg {
    match GetFloat(d, i)
    case Malformed => Unreadable
    case Got(w, next) => Param(Float(w), next)
  }

  function ReadDouble(d: bytes, i: int): Arg {
    match GetDouble(d, i)
    case Malformed => Unreadable
    case Got(w, next) => Param(Double(w), next)
  }

  function IntTuple(m: seq<int>): Value {
    Tuple(seq(|m|, k requires 0 <= k < |m| => Int(m[k])))
  }

  function ReadArg(d: bytes, tag: byte, i: int): Arg {
    if tag == TAG_INT then ToArg(GetInt(d, i), v => Int(v))
    else if tag == TAG_INT64 then ToArg(GetInt64(d, i), v => Int(v))
    else if tag == TAG_FLOAT then ReadFloat(d, i)
    else if tag == TAG_DOUBLE then ReadDouble(d, i)
    else if tag == TAG_STRING then ToArg(GetString(d, i), s => Str(s))
    else if tag == TAG_BLOB then ToArg(GetBlob(d, i), b => Blob(b))
    else if tag == TAG_RGBA then ToArg(GetRgba(d, i), v => Int(v))
    else if tag == TAG_MIDI then ToArg(GetMidi(d, i), m => IntTuple(m))
    else if tag == TAG_TIMETAG then
      ToArg(GetTimetag(d, i), (t: Ntp.Timestamp) => Tuple([Date(t.seconds), Int(t.fraction)]))
    else if tag == TAG_TRUE then Param(Bool(true), i)
    else if tag == TAG_FALSE then Param(Bool(false), i)
    else if tag == TAG_NIL then Param(Nil, i)
    else Unhandled
  }

  // ----- the grammar of type tags

  /** A sequence of values, with the type tags and the index that follow it. */
  datatype Parsed = Parsed(values: seq<Value>, rest: bytes, next: int) | Failed(fault: Fault)

  function Prepend(vs: seq<Value>, r: Parsed): Parsed {
    match r
    case Failed(f) => Failed(f)
    case Parsed(values, rest, next) => Parsed(vs + values, rest, next)
  }

  /** Reads values up to a closing bracket or the end of the type tags. */
  function Sequence(d: bytes, tags: bytes, i: int): (r: Parsed)
    ensures r.Parsed? ==> |r.rest| <= |tags| && (r.rest == [] || r.rest[0] == CLOSE)
    decreases |tags|
  {
    if tags == [] || tags[0] == CLOSE then Parsed([], tags, i)
    else if tags[0] == OPEN then
      match Sequence(d, tags[1..], i)
      case Failed(f) => Failed(f)
      case Parsed(items, rest, next) =>
        if rest == [] then Failed(MissingBracket)
        else Prepend([List(items)], Sequence(d, rest[1..], next))
    else
      match ReadArg(d, tags[0], i)
      case Unreadable => Failed(Incorrect)
      case Unhandled => Sequence(d, tags[1..], i)
      case Param(v, next) => Prepend([v], Sequence(d, tags[1..], next))
  }

  function Params(d: bytes, tags: bytes, i: int): Result<seq<Value>, Fault> {
    match Sequence(d, tags, i)
    case Failed(f) => Err(f)
    case Parsed(values, rest, _) => if rest == [] then Ok(values) else Err(UnexpectedBracket)
  }

  function ParseMessage(d: bytes): Result<Message, Fault> {
    match GetString(d, 0)
    case Malformed => Err(Incorrect)
    case Got(address, i) =>
      if From(d, i) == [] then Ok(Message(d, address, []))
      else
        match GetString(d, i)
        case Malformed => Err(Incorrect)
        case Got(tags, j) =>
          if tags == [] || tags[0] != COMMA then Err(NoComma)
          else
            match Params(d, tags[1..], j)
            case Err(f) => Err(f)
            case Ok(params) => Ok(Message(d, address, params))
  }

  // ----- the stack machine

  /** One iteration of the loop of the source; the last level is the innermost open list. */
  function Step(d: bytes, tag: byte, i: int, levels: seq<seq<Value>>): (r: Result<(int, seq<seq<Value>>), Fault>)
    requires levels != []
    ensures r.Ok? ==> r.value.1 != []
  {
    var n := |levels|;
    if tag == OPEN then Ok((i, levels + [[]]))
    else if tag == CLOSE then
      if n < 2 then Err(UnexpectedBracket) else Ok((i, Push(levels[..n - 1], List(levels[n - 1]))))
    else
      match ReadArg(d, tag, i)
      case Unreadable => Err(Incorrect)
      case Unhandled => Ok((i, levels))
      case Param(v, next) => Ok((next, Push(levels, v)))
  }

  function Run(d: bytes, tags: bytes, i: int, levels: seq<seq<Value>>): Result<seq<Value>, Fault>
    requires levels != []
    decreases |tags|
  {
    if tags == [] then if |levels| != 1 then Err(MissingBracket) else Ok(levels[0])
    else
      match Step(d, tags[0], i, levels)
      case Err(f) => Err(f)
      case Ok((next, levels')) => Run(d, tags[1..], next, levels')
  }

  function Push(levels: seq<seq<Value>>, v: Value): (r: seq<seq<Value>>)
    requires levels != []
    ensures |r| == |levels|
  {
    var n := |levels| - 1;
    levels[..n] + [levels[n] + [v]]
  }

  /** The machine goes through a sequence of the grammar by adding its values to the innermost open list. */
  lemma {:induction false} RunSequence(d: bytes, tags: bytes, i: int, outer: seq<seq<Value>>, top: seq<Value>)
    ensures match Sequence(d, tags, i)
            case Failed(f) => Run(d, tags, i, outer + [top]) == Err(f)
            case Parsed(vs, rest, next) => Run(d, tags, i, outer + [top]) == Run(d, rest, next, outer + [top + vs])
    decreases |tags|
  {
    if tags == [] || tags[0] == CLOSE {
      assert top + [] == top;
    } else if tags[0] == OPEN {
      RunSequence(d, tags[1..], i, outer + [top], []);
      var inner := Sequence(d, tags[1..], i);
      if inner.Parsed? {
        var levels := outer + [top] + [[] + inner.values];
        assert [] + inner.values == inner.values;
        if inner.rest != [] {
          RunSequence(d, inner.rest[1..], inner.next, outer, top + [List(inner.values)]);
          assert levels[..|levels| - 1] == outer + [top];
          assert Push(outer + [top], List(inner.values)) == outer + [top + [List(inner.values)]];
          AppendValues(top, [List(inner.values)], Sequence(d, inner.rest[1..], inner.next));
        }
      }
    } else {
      var arg := ReadArg(d, tags[0], i);
      if arg.Unhandled? {
        RunSequence(d, tags[1..], i, outer, top);
      } else if arg.Param? {
        RunSequence(d, tags[1..], arg.next, outer, top + [arg.value]);
        assert Push(outer + [top], arg.value) == outer + [top + [arg.value]];
        AppendValues(top, [arg.value], Sequence(d, tags[1..], arg.next));
      }
    }
  }

  lemma AppendValues(top: seq<Value>, vs: seq<Value>, r: Parsed)
    ensures r.Parsed? ==> top + vs + r.values == top + Prepend(vs, r).values
  {
  }

  /** The stack machine computes what the grammar describes, and fails as the grammar does. */
  lemma RunIsGrammar(d: bytes, tags: bytes, i: int)
    ensures Run(d, tags, i, [[]]) == Params(d, tags, i)
  {
    RunSequence(d, tags, i, [], []);
    var r := Sequence(d, tags, i);
    var empty: seq<Value>, none: seq<seq<Value>> := [], [];
    assert none + [empty] == [empty];
    if r.Parsed? {
      assert empty + r.values == r.values && none + [r.values] == [r.values];
    }
  }

  // ----- balanced brackets

  /** Brackets balance, counting from `depth` open ones. */
  predicate Balanced(tags: bytes, depth: nat) {
    if tags == [] then depth == 0
    else if tags[0] == OPEN then Balanced(tags[1..], depth + 1)
    else if tags[0] == CLOSE then depth > 0 && Balanced(tags[1..], depth - 1)
    else Balanced(tags[1..], depth)
  }

  lemma {:induction false} RunBalanced(d: bytes, tags: bytes, i: int, levels: seq<seq<Value>>)
    requires levels != []
    ensures var r := Run(d, tags, i, levels);
            && (r.Ok? ==> Balanced(tags, |levels| - 1))
            && (Balanced(tags, |levels| - 1) ==> r.Ok? || r == Err(Incorrect))
            && r != Err(NoComma)
    decreases |tags|
  {
    if tags != [] {
      var step := Step(d, tags[0], i, levels);
      if step.Ok? {
        RunBalanced(d, tags[1..], step.value.0, step.value.1);
      }
    }
  }

  /** Unless some payload cannot be read, exactly the balanced type tags are accepted. */
  lemma AcceptsBalanced(d: bytes, tags: bytes, i: int)
    ensures Params(d, tags, i) != Err(Incorrect) ==>
            (Params(d, tags, i).Ok? <==> Balanced(tags, 0))
  {
    RunIsGrammar(d, tags, i);
    RunBalanced(d, tags, i, [[]]);
  }

  // ----- alignment

  lemma ReadAligned(d: bytes, tag: byte, i: int)
    requires i % 4 == 0
    ensures var arg := ReadArg(d, tag, i);
            arg.Param? ==> arg.next % 4 == 0
  {
    if tag == TAG_STRING {
      StringAligned(d, i);
    } else if tag == TAG_BLOB {
      BlobAligned(d, i);
    } else {
      WordsAligned(d, tag, i);
    }
  }

  lemma StringAligned(d: bytes, i: int)
    requires i % 4 == 0
    ensures GetString(d, i).Got? ==> GetString(d, i).next % 4 == 0
  {
  }

  lemma BlobAligned(d: bytes, i: int)
    requires i % 4 == 0
    ensures GetBlob(d, i).Got? ==> GetBlob(d, i).next % 4 == 0
  {
    hide Slice, From, Signed, FromBE;
  }

  lemma WordNext(d: bytes, i: int, n: nat)
    ensures GetWord(d, i, n).Got? ==> GetWord(d, i, n).next == i + n
  {
  }

  lemma WordsAligned(d: bytes, tag: byte, i: int)
    requires i % 4 == 0 && tag != TAG_STRING && tag != TAG_BLOB
    ensures var arg := ReadArg(d, tag, i);
            arg.Param? ==> arg.next % 4 == 0
  {
    hide GetString, GetBlob, GetWord, FromBE, Signed, MidiOf, From, Slice;
    WordNext(d, i, 4);
    WordNext(d, i, 8);
  }

  /** Whatever the datagram holds, the read index stays a multiple of 4. */
  lemma {:induction false} SequenceAligned(d: bytes, tags: bytes, i: int)
    requires i % 4 == 0
    ensures var r := Sequence(d, tags, i);
            r.Parsed? ==> r.next % 4 == 0
    decreases |tags|
  {
    if tags == [] || tags[0] == CLOSE {
    } else if tags[0] == OPEN {
      SequenceAligned(d, tags[1..], i);
      var inner := Sequence(d, tags[1..], i);
      if inner.Parsed? && inner.rest != [] {
        SequenceAligned(d, inner.rest[1..], inner.next);
      }
    } else {
      ReadAligned(d, tags[0], i);
      var arg := ReadArg(d, tags[0], i);
      if arg.Unhandled? {
        SequenceAligned(d, tags[1..], i);
      } else if arg.Param? {
        SequenceAligned(d, tags[1..], arg.next);
      }
    }
  }

  // ----- every index on the way

  /** The index after one type tag; None where the read fails. */
  function NextIndex(d: bytes, tag: byte, i: int): Option<int> {
    if tag == OPEN || tag == CLOSE then Some(i)
    else
      match ReadArg(d, tag, i)
      case Unreadable => None
      case Unhandled => Some(i)
      case Param(_, next) => Some(next)
  }

  /** The index at every iteration of the loop, and after the last one, as far as the reads succeed. */
  function Indexes(d: bytes, tags: bytes, i: int): (indexes: seq<int>)
    ensures indexes != [] && indexes[0] == i
    decreases |tags|
  {
    [i] + if tags == [] then []
          else match NextIndex(d, tags[0], i)
            case None => []
            case Some(next) => Indexes(d, tags[1..], next)
  }

  /** The loop goes from index to index as `Indexes` says, until it ends or raises. */
  lemma StepIndex(d: bytes, tag: byte, i: int, levels: seq<seq<Value>>)
    requires levels != []
    ensures Step(d, tag, i, levels).Ok? ==> NextIndex(d, tag, i) == Some(Step(d, tag, i, levels).value.0)
  {
  }

  lemma {:induction false} RunIndexes(d: bytes, tags: bytes, i: int, levels: seq<seq<Value>>)
    requires levels != []
    ensures Run(d, tags, i, levels).Ok? ==> |Indexes(d, tags, i)| == |tags| + 1
    decreases |tags|
  {
    hide ReadArg;
    if tags != [] {
      StepIndex(d, tags[0], i, levels);
      var step := Step(d, tags[0], i, levels);
      if step.Ok? {
        RunIndexes(d, tags[1..], step.value.0, step.value.1);
      }
    }
  }

  /** Whatever the datagram holds, every index is a multiple of 4. */
  lemma {:induction false} IndexesAligned(d: bytes, tags: bytes, i: int)
    requires i % 4 == 0
    ensures forall k :: 0 <= k < |Indexes(d, tags, i)| ==> Indexes(d, tags, i)[k] % 4 == 0
    decreases |tags|
  {
    hide ReadArg;
    if tags != [] {
      ReadAligned(d, tags[0], i);
      var next := NextIndex(d, tags[0], i);
      if next.Some? {
        IndexesAligned(d, tags[1..], next.value);
        var rest := Indexes(d, tags[1..], next.value);
        assert forall k :: 0 < k < |Indexes(d, tags, i)| ==> Indexes(d, tags, i)[k] == rest[k - 1];
      }
    }
  }

  /** The read index moves back for one reason only: a blob whose size is read as -8 or less. */
  lemma IndexMovesBack(d: bytes, tag: byte, i: nat)
    ensures var arg := ReadArg(d, tag, i);
            arg.Param? ==> (arg.next < i <==> tag == TAG_BLOB && GetInt(d, i).value <= -8)
  {
    if tag == TAG_BLOB {
      hide GetInt, Slice, From;
      SizeNext(d, i);
    } else if tag == TAG_STRING {
      hide NulIndex;
    } else {
      hide GetWord, From, Slice, Signed, FromBE, MidiOf, GetString, GetBlob;
      WordNext(d, i, 4);
      WordNext(d, i, 8);
    }
  }

  lemma SizeNext(d: bytes, i: int)
    ensures GetInt(d, i).Got? ==> GetInt(d, i).next == i + 4
  {
  }
}
