/**
  osc_message_builder.py: typed arguments, their flattening into entries with bracket tags,
  and the datagram built from the entries.

  `Wire` is the typed argument as a tree.  The main result: the message that `build` gives
  back has the address and the nested values that were added, if and only if the address
  and the strings are free of NUL bytes.
*/
module OscMessageBuilder {
  import opened Wrappers
  import opened Bytes
  import opened PyValues
  import opened OscTypes
  import opened OscMessage

  // ----- argument types

  datatype ArgType = Code(tag: byte) | Many(types: seq<ArgType>)

  predicate Supported(tag: byte) {
    tag in [TAG_FLOAT, TAG_DOUBLE, TAG_INT, TAG_INT64, TAG_BLOB, TAG_STRING, TAG_RGBA, TAG_MIDI,
            TAG_TRUE, TAG_FALSE, TAG_NIL]
  }

  predicate ValidType(t: ArgType) {
    match t
    case Code(tag) => Supported(tag)
    case Many(types) => forall k :: 0 <= k < |types| ==> ValidType(types[k])
  }

  /** An absent type and an empty list of types make `add_arg` infer the type. */
  predicate Falsy(t: Option<ArgType>) {
    t == None || t == Some(Many([]))
  }

  function BitLength(n: nat): nat {
    if n == 0 then 0 else 1 + BitLength(n / 2)
  }

  function InferType(v: Value): Option<ArgType> {
    match v
    case Str(_) => Some(Code(TAG_STRING))
    case Blob(_) => Some(Code(TAG_BLOB))
    case Bool(truth) => Some(Code(if truth then TAG_TRUE else TAG_FALSE))
    case Int(i) => Some(Code(if BitLength(if i < 0 then -i else i) > 31 then TAG_INT64 else TAG_INT))
    case Float(_) => Some(Code(TAG_FLOAT))
    case Double(_) => Some(Code(TAG_FLOAT))
    case Tuple(items) => if |items| == 4 then Some(Code(TAG_MIDI)) else None
    case List(items) => (match InferTypes(items) case None => None case Some(types) => Some(Many(types)))
    case Nil => Some(Code(TAG_NIL))
    case Date(_) => None
  }

  function InferTypes(vs: seq<Value>): (r: Option<seq<ArgType>>)
    ensures r.Some? ==> |r.value| == |vs|
  {
    if vs == [] then Some([])
    else match (InferType(vs[0]), InferTypes(vs[1..]))
      case (Some(t), Some(rest)) => Some([t] + rest)
      case _ => None
  }

  /** The type used for an argument; None where `add_arg` raises ValueError. */
  function TypeFor(v: Value, t: Option<ArgType>): Option<ArgType> {
    if Falsy(t) then InferType(v)
    else if ValidType(t.value) then t
    else None
  }

  // ----- entries

  datatype Entry = Entry(tag: byte, value: Value)

  /** What a call of `add_arg` appends, and whether it returns without raising. */
  datatype Added = Added(entries: seq<Entry>, ok: bool)

  // Termination: the items of a string are strings again, but then the types get smaller.
  ghost function Depth(v: Value): nat {
    match v
    case Tuple(items) => 1 + MaxDepth(items)
    case List(items) => 1 + MaxDepth(items)
    case _ => 1
  }

  ghost function MaxDepth(vs: seq<Value>): (n: nat)
    ensures vs == [] ==> n == 0
    ensures vs != [] ==> exists k :: 0 <= k < |vs| && Depth(vs[k]) == n
  {
    if vs == [] then 0
    else
      var first, rest := Depth(vs[0]), MaxDepth(vs[1..]);
      if first >= rest then assert Depth(vs[0]) == first; first
      else
        var k :| 0 <= k < |vs[1..]| && Depth(vs[1..][k]) == rest;
        assert Depth(vs[k + 1]) == rest;
        rest
  }

  ghost function TypeSize(t: ArgType): nat {
    match t
    case Code(_) => 0
    case Many(types) => 1 + TypesSize(types)
  }

  ghost function TypesSize(ts: seq<ArgType>): nat {
    if ts == [] then 0 else 1 + TypeSize(ts[0]) + TypesSize(ts[1..])
  }

  lemma Bracketed(before: seq<Entry>, inner: seq<Entry>)
    ensures before + ([Entry(OPEN, Nil)] + inner + []) == before + [Entry(OPEN, Nil)] + inner
    ensures before + ([Entry(OPEN, Nil)] + inner + [Entry(CLOSE, Nil)]) ==
            before + [Entry(OPEN, Nil)] + inner + [Entry(CLOSE, Nil)]
  {
  }

  lemma ItemsSmaller(v: Value, t: Option<ArgType>)
    requires TypeFor(v, t).Some? && TypeFor(v, t).value.Many? && Items(v).Some?
    ensures var n := if t.None? then 0 else TypeSize(t.value);
            var items, types := Items(v).value, TypeFor(v, t).value.types;
            MaxDepth(items) < Depth(v) || (MaxDepth(items) <= Depth(v) && TypesSize(types) < n)
  {
  }

  function AddArg(v: Value, t: Option<ArgType>): Added
    decreases Depth(v), if t.None? then 0 else TypeSize(t.value)
  {
    match TypeFor(v, t)
    case None => Added([], false)
    case Some(Code(tag)) => Added([Entry(tag, v)], true)
    case Some(Many(types)) =>
      match Items(v)
      case None => Added([Entry(OPEN, Nil)], false)
      case Some(items) =>
        var inner := AddArgs(items, types);
        Added([Entry(OPEN, Nil)] + inner.entries + (if inner.ok then [Entry(CLOSE, Nil)] else []), inner.ok)
  }

  function AddArgs(vs: seq<Value>, ts: seq<ArgType>): Added
    decreases MaxDepth(vs), TypesSize(ts)
  {
    if vs == [] || ts == [] then Added([], true)
    else
      var first := AddArg(vs[0], Some(ts[0]));
      if !first.ok then first
      else
        var rest := AddArgs(vs[1..], ts[1..]);
        Added(first.entries + rest.entries, rest.ok)
  }

  // ----- writing the entries

  function WriteIf(i: Option<int>, write: int -> Option<bytes>): Option<bytes> {
    match i case None => None case Some(i) => write(i)
  }

  /** The payload of one entry; None where the writer raises. */
  function WriteArg(tag: byte, v: Value): Option<bytes> {
    if tag == TAG_STRING then (if v.Str? then Some(WriteString(v.s)) else None)
    else if tag == TAG_INT then WriteIf(AsInt(v), WriteInt)
    else if tag == TAG_INT64 then WriteIf(AsInt(v), WriteInt64)
    else if tag == TAG_FLOAT then (if v.Float? then Some(v.single) else None)
    else if tag == TAG_DOUBLE then (if v.Double? then Some(v.double) else None)
    else if tag == TAG_BLOB then (if v.Blob? then WriteBlob(v.b) else None)
    else if tag == TAG_RGBA then WriteIf(AsInt(v), WriteRgba)
    else if tag == TAG_MIDI then
      (match Items(v)
       case None => None
       case Some(items) => match Ints(items) case None => None case Some(m) => WriteMidi(m))
    else if tag in [TAG_TRUE, TAG_FALSE, OPEN, CLOSE, TAG_NIL] then Some([])
    else None
  }

  function EntryTags(entries: seq<Entry>): (tags: bytes)
    ensures |tags| == |entries|
  {
    if entries == [] then [] else [entries[0].tag] + EntryTags(entries[1..])
  }

  function WriteArgs(entries: seq<Entry>): Option<bytes> {
    if entries == [] then Some([])
    else match (WriteArg(entries[0].tag, entries[0].value), WriteArgs(entries[1..]))
      case (Some(w), Some(rest)) => Some(w + rest)
      case _ => None
  }

  datatype BuildFault = EmptyAddress | Unwritable | Unparsable(fault: Fault)

  function BuildDgram(address: Option<bytes>, entries: seq<Entry>): Result<bytes, BuildFault> {
    if address == None || address == Some([]) then Err(EmptyAddress)
    else match WriteArgs(entries)
      case None => Err(Unwritable)
      case Some(payload) =>
        Ok(WriteString(address.value) + WriteString([COMMA] + EntryTags(entries)) + payload)
  }

  /** `build` parses the datagram it has written. */
  function BuildMessage(address: Option<bytes>, entries: seq<Entry>): Result<Message, BuildFault> {
    match BuildDgram(address, entries)
    case Err(f) => Err(f)
    case Ok(d) => match ParseMessage(d) case Err(f) => Err(Unparsable(f)) case Ok(m) => Ok(m)
  }

  // ----- the builder

  class OscMessageBuilder {
    var address: Option<bytes>
    var args: seq<Entry>

    constructor (address: Option<bytes>)
      ensures this.address == address && args == []
    {
      this.address := address;
      args := [];
    }

    /** Appends the entries of the argument; entries appended before an error stay. */
    method Add(v: Value, t: Option<ArgType>) returns (ok: bool)
      modifies this`args
      ensures args == old(args) + AddArg(v, t).entries && ok == AddArg(v, t).ok
      decreases Depth(v), if t.None? then 0 else TypeSize(t.value)
    {
      hide Items, InferType, ValidType, Depth, MaxDepth, TypeSize, TypesSize;
      var argType := TypeFor(v, t);
      if argType.None? {
        return false;
      }
      match argType.value {
        case Code(tag) =>
          args := args + [Entry(tag, v)];
          return true;
        case Many(types) =>
          args := args + [Entry(OPEN, Nil)];
          var items := Items(v);
          if items.None? {
            return false;
          }
          ItemsSmaller(v, t);
          ghost var before, inner := old(args), AddArgs(items.value, types);
          hide AddArgs;
          ok := AddZipped(items.value, types);
          if ok {
            args := args + [Entry(CLOSE, Nil)];
          }
          Bracketed(before, inner.entries);
      }
    }

    /** `for v, t in zip(arg_value, arg_type): self.add_arg(v, t)` */
    method AddZipped(vs: seq<Value>, ts: seq<ArgType>) returns (ok: bool)
      modifies this`args
      ensures args == old(args) + AddArgs(vs, ts).entries && ok == AddArgs(vs, ts).ok
      decreases MaxDepth(vs), TypesSize(ts)
    {
      hide AddArg;
      if vs == [] || ts == [] {
        return true;
      }
      ok := Add(vs[0], Some(ts[0]));
      if ok {
        ok := AddZipped(vs[1..], ts[1..]);
      }
    }

    method Build() returns (r: Result<Message, BuildFault>)
      ensures r == BuildMessage(address, args)
    {
      hide ParseMessage, WriteArg, WriteString;
      if address == None || address == Some([]) {
        return Err(EmptyAddress);
      }
      var dgram := WriteString(address.value);
      if args == [] {
        dgram := dgram + WriteString([COMMA]);
        assert [COMMA] + EntryTags(args) == [COMMA] && dgram + [] == dgram;
        var parsed := ParseMessage(dgram);
        match parsed { case Err(f) => return Err(Unparsable(f)); case Ok(m) => return Ok(m); }
      }
      dgram := dgram + WriteString([COMMA] + EntryTags(args));
      ghost var head := dgram;
      for k := 0 to |args|
        invariant WriteArgs(args[..k]).Some? && dgram == head + WriteArgs(args[..k]).value
      {
        WriteArgsSplit(args, k);
        var w := WriteArg(args[k].tag, args[k].value);
        if w.None? {
          return Err(Unwritable);
        }
        dgram := dgram + w.value;
      }
      assert args[..|args|] == args;
      var parsed := ParseMessage(dgram);
      match parsed { case Err(f) => return Err(Unparsable(f)); case Ok(m) => return Ok(m); }
    }
  }

  lemma {:induction false} WriteArgsAppend(a: seq<Entry>, b: seq<Entry>)
    ensures WriteArgs(a + b) == match (WriteArgs(a), WriteArgs(b))
                                case (Some(x), Some(y)) => Some(x + y)
                                case _ => None
  {
    if a == [] {
      assert a + b == b;
      assert WriteArgs(b).Some? ==> [] + WriteArgs(b).value == WriteArgs(b).value;
    } else {
      assert (a + b)[1..] == a[1..] + b;
      WriteArgsAppend(a[1..], b);
      var w := WriteArg(a[0].tag, a[0].value);
      if w.Some? && WriteArgs(a[1..]).Some? && WriteArgs(b).Some? {
        assert w.value + (WriteArgs(a[1..]).value + WriteArgs(b).value)
            == w.value + WriteArgs(a[1..]).value + WriteArgs(b).value;
      }
    }
  }

  lemma WriteArgsOne(e: Entry)
    ensures WriteArgs([e]) == WriteArg(e.tag, e.value)
  {
    var none: seq<Entry> := [e][1..];
    assert none == [];
    if WriteArg(e.tag, e.value).Some? {
      assert WriteArg(e.tag, e.value).value + [] == WriteArg(e.tag, e.value).value;
    }
  }

  lemma WriteArgsSplit(entries: seq<Entry>, k: nat)
    requires k < |entries|
    ensures WriteArgs(entries[..k + 1]) == match (WriteArgs(entries[..k]), WriteArg(entries[k].tag, entries[k].value))
                                           case (Some(x), Some(w)) => Some(x + w)
                                           case _ => None
    ensures WriteArgs(entries).Some? ==> WriteArgs(entries[..k + 1]).Some?
  {
    hide WriteArg, WriteArgs;
    assert entries[..k + 1] == entries[..k] + [entries[k]];
    WriteArgsOne(entries[k]);
    WriteArgsAppend(entries[..k], [entries[k]]);
    assert entries == entries[..k + 1] + entries[k + 1..];
    WriteArgsAppend(entries[..k + 1], entries[k + 1..]);
  }

  // ----- typed arguments as trees

  datatype Wire = Leaf(tag: byte, value: Value) | Group(items: seq<Wire>)

  /** The tree of an argument that `add_arg` accepts. */
  function Typed(v: Value, t: Option<ArgType>): Option<Wire>
    decreases Depth(v), if t.None? then 0 else TypeSize(t.value)
  {
    match TypeFor(v, t)
    case None => None
    case Some(Code(tag)) => Some(Leaf(tag, v))
    case Some(Many(types)) =>
      match Items(v)
      case None => None
      case Some(items) => match TypedAll(items, types) case None => None case Some(ws) => Some(Group(ws))
  }

  function TypedAll(vs: seq<Value>, ts: seq<ArgType>): Option<seq<Wire>>
    decreases MaxDepth(vs), TypesSize(ts)
  {
    if vs == [] || ts == [] then Some([])
    else match (Typed(vs[0], Some(ts[0])), TypedAll(vs[1..], ts[1..]))
      case (Some(w), Some(ws)) => Some([w] + ws)
      case _ => None
  }

  function Flatten(ws: seq<Wire>): seq<Entry> {
    if ws == [] then []
    else
      (match ws[0]
       case Leaf(tag, v) => [Entry(tag, v)]
       case Group(items) => [Entry(OPEN, Nil)] + Flatten(items) + [Entry(CLOSE, Nil)])
      + Flatten(ws[1..])
  }

  predicate AllSupported(ws: seq<Wire>) {
    ws != [] ==>
    && (match ws[0] case Leaf(tag, _) => Supported(tag) case Group(items) => AllSupported(items))
    && AllSupported(ws[1..])
  }

  /** The value that a written leaf is read back as. */
  function Decoded(tag: byte, v: Value): Value {
    if tag in [TAG_INT, TAG_INT64, TAG_RGBA] then (match AsInt(v) case Some(i) => Int(i) case None => Nil)
    else if tag == TAG_MIDI then
      (match Items(v)
       case None => Nil
       case Some(items) =>
         match Ints(items)
         case None => Nil
         case Some(m) => IntTuple(seq(|m|, k requires 0 <= k < |m| => m[k] % 256)))
    else if tag == TAG_TRUE then Bool(true)
    else if tag == TAG_FALSE then Bool(false)
    else if tag == TAG_NIL then Nil
    else v
  }

  function Values(ws: seq<Wire>): (vs: seq<Value>)
    ensures |vs| == |ws|
  {
    if ws == [] then []
    else [match ws[0]
          case Leaf(tag, v) => Decoded(tag, v)
          case Group(items) => List(Values(items))] + Values(ws[1..])
  }

  predicate NulFreeWires(ws: seq<Wire>) {
    ws != [] ==>
    && (match ws[0]
        case Leaf(tag, v) => tag == TAG_STRING && v.Str? ==> NulFree(v.s)
        case Group(items) => NulFreeWires(items))
    && NulFreeWires(ws[1..])
  }

  lemma {:induction false} FlattenAppend(a: seq<Wire>, b: seq<Wire>)
    ensures Flatten(a + b) == Flatten(a) + Flatten(b)
  {
    if a == [] {
      assert a + b == b;
    } else {
      assert (a + b)[1..] == a[1..] + b;
      FlattenAppend(a[1..], b);
    }
  }

  /** `add_arg` returns normally for exactly the arguments with a tree, and appends its flattening. */
  lemma {:induction false} AddArgFlattens(v: Value, t: Option<ArgType>)
    ensures AddArg(v, t).ok <==> Typed(v, t).Some?
    ensures Typed(v, t).Some? ==>
              AddArg(v, t).entries == Flatten([Typed(v, t).value]) && AllSupported([Typed(v, t).value])
    decreases Depth(v), if t.None? then 0 else TypeSize(t.value)
  {
    var argType := TypeFor(v, t);
    InferSupported(v);
    if argType.Some? && argType.value.Many? && Items(v).Some? {
      var items := Items(v).value;
      AddArgsFlatten(items, argType.value.types);
    }
  }

  lemma {:induction false} AddArgsFlatten(vs: seq<Value>, ts: seq<ArgType>)
    ensures AddArgs(vs, ts).ok <==> TypedAll(vs, ts).Some?
    ensures TypedAll(vs, ts).Some? ==>
              AddArgs(vs, ts).entries == Flatten(TypedAll(vs, ts).value) && AllSupported(TypedAll(vs, ts).value)
    decreases MaxDepth(vs), TypesSize(ts)
  {
    if vs != [] && ts != [] {
      AddArgFlattens(vs[0], Some(ts[0]));
      AddArgsFlatten(vs[1..], ts[1..]);
      if TypedAll(vs, ts).Some? {
        var w, ws := Typed(vs[0], Some(ts[0])).value, TypedAll(vs[1..], ts[1..]).value;
        FlattenAppend([w], ws);
        assert ([w] + ws)[1..] == ws;
      }
    }
  }

  lemma InferSupported(v: Value)
    ensures InferType(v).Some? && InferType(v).value.Code? ==> Supported(InferType(v).value.tag)
  {
  }

  // ----- reading back what was written

  lemma IntegerLeafAt(d: bytes, i: int, tag: byte, v: Value)
    requires tag in [TAG_INT, TAG_INT64, TAG_RGBA]
    requires WriteArg(tag, v).Some? && At(d, i, WriteArg(tag, v).value)
    ensures |WriteArg(tag, v).value| % 4 == 0
    ensures ReadArg(d, tag, i) == Param(Decoded(tag, v), i + |WriteArg(tag, v).value|)
  {
    hide PackSigned, ToBE, Pow256, Signed, FromBE, GetWord;
    var n := AsInt(v).value;
    IntegerWidths(n);
    if tag == TAG_INT {
      IntAt(d, i, n);
      hide WriteInt, GetInt;
    } else if tag == TAG_INT64 {
      Int64At(d, i, n);
      hide WriteInt64, GetInt64;
    } else {
      RgbaAt(d, i, n);
      hide WriteRgba, GetRgba;
    }
  }

  lemma IntegerWidths(n: int)
    ensures WriteInt(n).Some? ==> |WriteInt(n).value| == 4
    ensures WriteInt64(n).Some? ==> |WriteInt64(n).value| == 8
    ensures WriteRgba(n).Some? ==> |WriteRgba(n).value| == 4
  {
    hide Pow256;
  }

  lemma MidiLeafAt(d: bytes, i: int, v: Value)
    requires WriteArg(TAG_MIDI, v).Some? && At(d, i, WriteArg(TAG_MIDI, v).value)
    ensures |WriteArg(TAG_MIDI, v).value| == 4
    ensures ReadArg(d, TAG_MIDI, i) == Param(Decoded(TAG_MIDI, v), i + 4)
  {
    var m := Ints(Items(v).value).value;
    MidiAt(d, i, m);
    assert seq(|m|, k requires 0 <= k < |m| => m[k] % 256) == [m[0] % 256, m[1] % 256, m[2] % 256, m[3] % 256];
  }

  lemma BytesLeafAt(d: bytes, i: int, tag: byte, v: Value)
    requires tag in [TAG_FLOAT, TAG_DOUBLE, TAG_BLOB]
    requires WriteArg(tag, v).Some? && At(d, i, WriteArg(tag, v).value)
    ensures |WriteArg(tag, v).value| % 4 == 0
    ensures ReadArg(d, tag, i) == Param(Decoded(tag, v), i + |WriteArg(tag, v).value|)
  {
    if tag == TAG_FLOAT {
      FloatAt(d, i, v.single);
    } else if tag == TAG_DOUBLE {
      WordAt(d, i, v.double);
    } else {
      BlobAt(d, i, v.b);
    }
  }

  /** A leaf whose string has a NUL byte is never read back as it was. */
  predicate Spoilt(tag: byte, v: Value) {
    tag == TAG_STRING && v.Str? && !NulFree(v.s)
  }

  /** A written leaf is read back at any offset, with the index after its payload. */
  lemma LeafAt(d: bytes, i: int, tag: byte, v: Value)
    requires Supported(tag) && WriteArg(tag, v).Some? && At(d, i, WriteArg(tag, v).value)
    ensures |WriteArg(tag, v).value| % 4 == 0
    ensures !Spoilt(tag, v) ==> ReadArg(d, tag, i) == Param(Decoded(tag, v), i + |WriteArg(tag, v).value|)
    ensures Spoilt(tag, v) ==> ReadArg(d, tag, i).Param? && ReadArg(d, tag, i).value != Decoded(tag, v)
  {
    if tag in [TAG_INT, TAG_INT64, TAG_RGBA] {
      IntegerLeafAt(d, i, tag, v);
    } else if tag == TAG_MIDI {
      MidiLeafAt(d, i, v);
    } else if tag in [TAG_FLOAT, TAG_DOUBLE, TAG_BLOB] {
      BytesLeafAt(d, i, tag, v);
    } else if tag == TAG_STRING {
      StringAt(d, i, v.s);
    }
  }

  function Tags(ws: seq<Wire>): bytes {
    EntryTags(Flatten(ws))
  }

  lemma {:induction false} EntryTagsAppend(a: seq<Entry>, b: seq<Entry>)
    ensures EntryTags(a + b) == EntryTags(a) + EntryTags(b)
  {
    if a == [] {
      assert a + b == b;
    } else {
      assert (a + b)[1..] == a[1..] + b;
      EntryTagsAppend(a[1..], b);
    }
  }

  lemma LeafParts(ws: seq<Wire>, more: bytes)
    requires ws != [] && ws[0].Leaf?
    ensures Tags(ws) + more == [ws[0].tag] + (Tags(ws[1..]) + more)
    ensures WriteArgs(Flatten(ws)).Some? ==>
              && WriteArg(ws[0].tag, ws[0].value).Some? && WriteArgs(Flatten(ws[1..])).Some?
              && WriteArgs(Flatten(ws)).value ==
                 WriteArg(ws[0].tag, ws[0].value).value + WriteArgs(Flatten(ws[1..])).value
  {
    var head, rest := Entry(ws[0].tag, ws[0].value), Flatten(ws[1..]);
    assert Flatten(ws) == [head] + rest;
    assert ([head] + rest)[1..] == rest;
  }

  lemma GroupFlattens(ws: seq<Wire>)
    requires ws != [] && ws[0].Group?
    ensures Flatten(ws) == [Entry(OPEN, Nil)] + (Flatten(ws[0].items) + ([Entry(CLOSE, Nil)] + Flatten(ws[1..])))
  {
  }

  lemma GroupTags(ws: seq<Wire>, more: bytes)
    requires ws != [] && ws[0].Group?
    ensures Tags(ws) + more == [OPEN] + (Tags(ws[0].items) + ([CLOSE] + (Tags(ws[1..]) + more)))
  {
    var open, close := Entry(OPEN, Nil), Entry(CLOSE, Nil);
    var inner, rest := Flatten(ws[0].items), Flatten(ws[1..]);
    GroupFlattens(ws);
    EntryTagsAppend([open], inner + ([close] + rest));
    EntryTagsAppend(inner, [close] + rest);
    EntryTagsAppend([close], rest);
    EntryTagsOne(open);
    EntryTagsOne(close);
  }

  lemma GroupPayload(ws: seq<Wire>)
    requires ws != [] && ws[0].Group? && WriteArgs(Flatten(ws)).Some?
    ensures WriteArgs(Flatten(ws[0].items)).Some? && WriteArgs(Flatten(ws[1..])).Some?
    ensures WriteArgs(Flatten(ws)).value ==
            WriteArgs(Flatten(ws[0].items)).value + WriteArgs(Flatten(ws[1..])).value
  {
    var open, close := Entry(OPEN, Nil), Entry(CLOSE, Nil);
    var inner, rest := Flatten(ws[0].items), Flatten(ws[1..]);
    GroupFlattens(ws);
    WriteArgsBracket(open, inner + ([close] + rest));
    WriteArgsAppend(inner, [close] + rest);
    WriteArgsBracket(close, rest);
  }

  /** Bracket entries have no payload. */
  lemma WriteArgsBracket(e: Entry, rest: seq<Entry>)
    requires e.tag == OPEN || e.tag == CLOSE
    ensures WriteArgs([e] + rest) == WriteArgs(rest)
  {
    assert ([e] + rest)[1..] == rest;
    assert WriteArgs(rest).Some? ==> [] + WriteArgs(rest).value == WriteArgs(rest).value;
  }

  lemma EntryTagsOne(e: Entry)
    ensures EntryTags([e]) == [e.tag]
  {
    assert |EntryTags([e])| == 1;
  }

  lemma PrependTwice(a: seq<Value>, b: seq<Value>, r: Parsed)
    ensures Prepend(a, Prepend(b, r)) == Prepend(a + b, r)
  {
    assert r.Parsed? ==> a + (b + r.values) == a + b + r.values;
  }

  /** What reading the payloads of `ws` at `i` gives when the type tags `more` follow. */
  predicate ReadsBack(d: bytes, ws: seq<Wire>, more: bytes, i: int)
    requires WriteArgs(Flatten(ws)).Some?
  {
    var r := Sequence(d, Tags(ws) + more, i);
    if NulFreeWires(ws)
    then r == Prepend(Values(ws), Sequence(d, more, i + |WriteArgs(Flatten(ws)).value|))
    else r.Parsed? ==> !(Values(ws) <= r.values)
  }

  /**
    The payloads of typed arguments, read by the grammar of their type tags, give their
    values, whatever surrounds them; if some string has a NUL byte, they do not.
  */
  lemma {:induction false} SequenceOfWires(d: bytes, ws: seq<Wire>, more: bytes, i: int)
    requires AllSupported(ws) && WriteArgs(Flatten(ws)).Some? && At(d, i, WriteArgs(Flatten(ws)).value)
    ensures |WriteArgs(Flatten(ws)).value| % 4 == 0
    ensures ReadsBack(d, ws, more, i)
  {
    hide Sequence, ReadArg, WriteArg, WriteArgs, Flatten, AllSupported, ReadsBack, Tags, At;
    if ws == [] {
      NothingReadsBack(d, more, i);
    } else if ws[0].Leaf? {
      LeafWritten(d, ws, i);
      SequenceOfWires(d, ws[1..], more, i + |WriteArg(ws[0].tag, ws[0].value).value|);
      LeafReadsBack(d, ws, more, i);
    } else {
      GroupWritten(d, ws, i);
      var after := [CLOSE] + (Tags(ws[1..]) + more);
      SequenceOfWires(d, ws[0].items, after, i);
      SequenceOfWires(d, ws[1..], more, i + |WriteArgs(Flatten(ws[0].items)).value|);
      GroupReadsBack(d, ws, more, i);
    }
  }

  /** Where the parts of the payloads are, when the first argument is a leaf. */
  lemma LeafWritten(d: bytes, ws: seq<Wire>, i: int)
    requires ws != [] && ws[0].Leaf?
    requires AllSupported(ws) && WriteArgs(Flatten(ws)).Some? && At(d, i, WriteArgs(Flatten(ws)).value)
    ensures AllSupported(ws[1..]) && Supported(ws[0].tag)
    ensures WriteArg(ws[0].tag, ws[0].value).Some? && WriteArgs(Flatten(ws[1..])).Some?
    ensures var w, rest := WriteArg(ws[0].tag, ws[0].value).value, WriteArgs(Flatten(ws[1..])).value;
            && At(d, i, w) && At(d, i + |w|, rest) && |w| % 4 == 0
            && |WriteArgs(Flatten(ws)).value| == |w| + |rest|
  {
    hide WriteArg, WriteArgs, Flatten, At, ReadArg, Decoded, Spoilt;
    LeafParts(ws, []);
    AtAppend(d, i, WriteArg(ws[0].tag, ws[0].value).value, WriteArgs(Flatten(ws[1..])).value);
    LeafAt(d, i, ws[0].tag, ws[0].value);
  }

  /** The same when the first argument is a group. */
  lemma GroupWritten(d: bytes, ws: seq<Wire>, i: int)
    requires ws != [] && ws[0].Group?
    requires AllSupported(ws) && WriteArgs(Flatten(ws)).Some? && At(d, i, WriteArgs(Flatten(ws)).value)
    ensures AllSupported(ws[1..]) && AllSupported(ws[0].items)
    ensures WriteArgs(Flatten(ws[0].items)).Some? && WriteArgs(Flatten(ws[1..])).Some?
    ensures var inner, rest := WriteArgs(Flatten(ws[0].items)).value, WriteArgs(Flatten(ws[1..])).value;
            && At(d, i, inner) && At(d, i + |inner|, rest)
            && |WriteArgs(Flatten(ws)).value| == |inner| + |rest|
  {
    hide WriteArgs, Flatten, At;
    GroupPayload(ws);
    AtAppend(d, i, WriteArgs(Flatten(ws[0].items)).value, WriteArgs(Flatten(ws[1..])).value);
  }

  lemma NothingReadsBack(d: bytes, more: bytes, i: int)
    ensures Flatten([]) == [] && WriteArgs([]) == Some([])
    ensures ReadsBack(d, [], more, i)
  {
    hide Sequence;
    assert Tags([]) + more == more;
    PrependNothing(Sequence(d, more, i));
  }

  lemma LeafReadsBack(d: bytes, ws: seq<Wire>, more: bytes, i: int)
    requires AllSupported(ws) && WriteArgs(Flatten(ws)).Some? && At(d, i, WriteArgs(Flatten(ws)).value)
    requires ws != [] && ws[0].Leaf? && WriteArg(ws[0].tag, ws[0].value).Some? && WriteArgs(Flatten(ws[1..])).Some?
    requires ReadsBack(d, ws[1..], more, i + |WriteArg(ws[0].tag, ws[0].value).value|)
    ensures ReadsBack(d, ws, more, i)
  {
    hide WriteArg, ReadArg, Decoded, Sequence, Flatten, Supported;
    LeafParts(ws, more);
    LeafWritten(d, ws, i);
    var tag, p := ws[0].tag, WriteArgs(Flatten(ws)).value;
    LeafAt(d, i, tag, ws[0].value);
    var v, arg := Decoded(tag, ws[0].value), ReadArg(d, tag, i);
    LeafFirst(d, tag, Tags(ws[1..]) + more, i);
    Join(arg.value, v, Sequence(d, Tags(ws[1..]) + more, arg.next), Values(ws[1..]), Sequence(d, more, i + |p|),
         NulFreeWires(ws[1..]));
  }

  lemma GroupReadsBack(d: bytes, ws: seq<Wire>, more: bytes, i: int)
    requires ws != [] && ws[0].Group? && WriteArgs(Flatten(ws)).Some?
    requires WriteArgs(Flatten(ws[0].items)).Some? && WriteArgs(Flatten(ws[1..])).Some?
    requires ReadsBack(d, ws[0].items, [CLOSE] + (Tags(ws[1..]) + more), i)
    requires ReadsBack(d, ws[1..], more, i + |WriteArgs(Flatten(ws[0].items)).value|)
    ensures ReadsBack(d, ws, more, i)
  {
    hide Sequence, ReadArg, WriteArg, WriteArgs, Flatten;
    var items, after := ws[0].items, [CLOSE] + (Tags(ws[1..]) + more);
    var j, p := i + |WriteArgs(Flatten(items)).value|, WriteArgs(Flatten(ws)).value;
    GroupTags(ws, more);
    GroupPayload(ws);
    GroupFirst(d, Tags(items) + after, i);
    SequenceStops(d, after, j);
    var r := Sequence(d, Tags(items) + after, i);
    assert after[1..] == Tags(ws[1..]) + more;
    if r.Parsed? && r.rest != [] {
      var tail := Sequence(d, r.rest[1..], r.next);
      if NulFreeWires(items) {
        assert r == Parsed(Values(items), after, j) by {
          assert Values(items) + [] == Values(items);
        }
        Join(List(r.values), List(Values(items)), tail, Values(ws[1..]), Sequence(d, more, i + |p|),
             NulFreeWires(ws[1..]));
      } else {
        PrefixCons(List(r.values), List(Values(items)), Values(ws[1..]), tail);
      }
    }
  }

  lemma SequenceStops(d: bytes, tags: bytes, i: int)
    requires tags != [] && tags[0] == CLOSE
    ensures Sequence(d, tags, i) == Parsed([], tags, i)
  {
  }

  /** A value read in front of a sequence: the whole is as expected only if both are. */
  lemma Join(head: Value, v: Value, tail: Parsed, vs: seq<Value>, more: Parsed, ok: bool)
    requires head == v ==> if ok then tail == Prepend(vs, more) else tail.Parsed? ==> !(vs <= tail.values)
    ensures var whole := Prepend([head], tail);
            if head == v && ok then whole == Prepend([v] + vs, more)
            else whole.Parsed? ==> !([v] + vs <= whole.values)
  {
    PrependTwice([v], vs, more);
    PrefixCons(head, v, vs, tail);
  }

  lemma PrependNothing(r: Parsed)
    ensures Prepend([], r) == r
  {
    assert r.Parsed? ==> [] + r.values == r.values;
  }

  lemma LeafFirst(d: bytes, tag: byte, tags: bytes, i: int)
    requires Supported(tag)
    ensures Sequence(d, [tag] + tags, i) ==
            match ReadArg(d, tag, i)
            case Unreadable => Failed(Incorrect)
            case Unhandled => Sequence(d, tags, i)
            case Param(v, next) => Prepend([v], Sequence(d, tags, next))
  {
    assert ([tag] + tags)[1..] == tags;
  }

  lemma GroupFirst(d: bytes, tags: bytes, i: int)
    ensures Sequence(d, [OPEN] + tags, i) ==
            match Sequence(d, tags, i)
            case Failed(f) => Failed(f)
            case Parsed(items, rest, next) =>
              if rest == [] then Failed(MissingBracket)
              else Prepend([List(items)], Sequence(d, rest[1..], next))
  {
    assert ([OPEN] + tags)[1..] == tags;
  }

  lemma PrefixCons(v: Value, expected: Value, vs: seq<Value>, r: Parsed)
    ensures Prepend([v], r).Parsed? ==>
            ([expected] + vs <= Prepend([v], r).values <==> expected == v && vs <= r.values)
  {
    if r.Parsed? {
      var a, b := [expected] + vs, [v] + r.values;
      if a <= b {
        assert a[0] == b[0] && a[1..] == vs && b[1..] == r.values;
        assert a[1..] <= b[1..];
      }
    }
  }

  // ----- whole messages

  lemma {:induction false} TagsNulFree(ws: seq<Wire>)
    requires AllSupported(ws)
    ensures NulFree(Tags(ws))
  {
    if ws != [] {
      TagsNulFree(ws[1..]);
      assert Tags(ws) + [] == Tags(ws) && Tags(ws[1..]) + [] == Tags(ws[1..]);
      if ws[0].Leaf? {
        LeafParts(ws, []);
      } else {
        TagsNulFree(ws[0].items);
        GroupTags(ws, []);
      }
    }
  }

  /** The three parts of a built datagram, where they are found. */
  lemma DgramParts(address: bytes, tags: bytes, payload: bytes)
    ensures var d, i := WriteString(address) + WriteString(tags) + payload, |WriteString(address)|;
            && At(d, 0, WriteString(address))
            && At(d, i, WriteString(tags))
            && At(d, i + |WriteString(tags)|, payload)
            && |WriteString(tags)| > 0 && From(d, i) != []
  {
    var head := WriteString(address) + WriteString(tags);
    var d := head + payload;
    assert d[0..|d|] == d;
    AtAppend(d, 0, head, payload);
    AtAppend(d, 0, WriteString(address), WriteString(tags));
  }

  /** The address and the type tags of a built datagram; an address with a NUL byte is never read back. */
  lemma HeaderParse(d: bytes, address: bytes, tags: bytes)
    requires At(d, 0, WriteString(address)) && At(d, |WriteString(address)|, WriteString([COMMA] + tags))
    requires NulFree(tags) && From(d, |WriteString(address)|) != []
    ensures var start := |WriteString(address)| + |WriteString([COMMA] + tags)|;
            if NulFree(address)
            then ParseMessage(d) == match Params(d, tags, start)
                                    case Err(f) => Err(f)
                                    case Ok(params) => Ok(Message(d, address, params))
            else ParseMessage(d).Ok? ==> ParseMessage(d).value.address != address
  {
    hide Params, GetString, WriteString;
    StringAt(d, 0, address);
    StringAt(d, |WriteString(address)|, [COMMA] + tags);
    assert ([COMMA] + tags)[1..] == tags;
  }

  lemma PayloadParse(d: bytes, ws: seq<Wire>, start: int)
    requires AllSupported(ws) && WriteArgs(Flatten(ws)).Some? && At(d, start, WriteArgs(Flatten(ws)).value)
    ensures |WriteArgs(Flatten(ws)).value| % 4 == 0
    ensures Params(d, Tags(ws), start) == Ok(Values(ws)) <==> NulFreeWires(ws)
    ensures NulFreeWires(ws) ==>
              Sequence(d, Tags(ws), start) == Parsed(Values(ws), [], start + |WriteArgs(Flatten(ws)).value|)
  {
    hide ReadArg, WriteArg, WriteArgs, Flatten, AllSupported;
    SequenceOfWires(d, ws, [], start);
    assert Tags(ws) + [] == Tags(ws) && Values(ws) + [] == Values(ws);
  }

  /** Where the parts of a built datagram are. */
  lemma BuiltParts(address: bytes, ws: seq<Wire>, d: bytes)
    requires BuildDgram(Some(address), Flatten(ws)) == Ok(d)
    ensures WriteArgs(Flatten(ws)).Some?
    ensures var i, tags := |WriteString(address)|, WriteString([COMMA] + Tags(ws));
            var start, payload := i + |tags|, WriteArgs(Flatten(ws)).value;
            && At(d, 0, WriteString(address)) && At(d, i, tags) && |tags| > 0 && From(d, i) != []
            && start % 4 == 0 && At(d, start, payload) && start + |payload| == |d|
  {
    hide WriteArgs, Flatten, WriteString, EntryTags, At;
    DgramParts(address, [COMMA] + Tags(ws), WriteArgs(Flatten(ws)).value);
  }

  /**
    The round trip of a message: what `build` has written is parsed back to the address and
    the nested values if and only if the address and the strings are free of NUL bytes.
    The reader then ends exactly at the end of the datagram.
  */
  lemma BuildParse(address: bytes, ws: seq<Wire>, d: bytes)
    requires AllSupported(ws) && BuildDgram(Some(address), Flatten(ws)) == Ok(d)
    ensures |d| % 4 == 0
    ensures ParseMessage(d) == Ok(Message(d, address, Values(ws))) <==> NulFree(address) && NulFreeWires(ws)
    ensures var start := |WriteString(address)| + |WriteString([COMMA] + Tags(ws))|;
            NulFreeWires(ws) ==> Sequence(d, Tags(ws), start) == Parsed(Values(ws), [], |d|)
  {
    hide Params, Sequence, ParseMessage, WriteArgs, Flatten, AllSupported, WriteString, Values, NulFreeWires;
    hide BuildDgram, At, Tags, From;
    var start := |WriteString(address)| + |WriteString([COMMA] + Tags(ws))|;
    BuiltParts(address, ws, d);
    TagsNulFree(ws);
    HeaderParse(d, address, Tags(ws));
    PayloadParse(d, ws, start);
  }

  // ----- the way of the index through a built message

  /** An entry whose payload is read back: a bracket, or an argument whose string has no NUL byte. */
  predicate ReadableEntry(e: Entry) {
    e.tag == OPEN || e.tag == CLOSE || (Supported(e.tag) && !Spoilt(e.tag, e.value))
  }

  predicate AllReadable(entries: seq<Entry>) {
    forall k :: 0 <= k < |entries| ==> ReadableEntry(entries[k])
  }

  lemma {:induction false} FlattenReadable(ws: seq<Wire>)
    requires AllSupported(ws) && NulFreeWires(ws)
    ensures AllReadable(Flatten(ws))
  {
    hide Supported;
    if ws != [] {
      FlattenReadable(ws[1..]);
      match ws[0] {
        case Leaf(tag, v) =>
        case Group(items) =>
          FlattenReadable(items);
          GroupFlattens(ws);
      }
    }
  }

  /** From `first` to `last` in steps of multiples of 4, none of them back. */
  predicate Steady(indexes: seq<int>, first: int, last: int) {
    && indexes != [] && indexes[0] == first && indexes[|indexes| - 1] == last
    && (forall k :: 0 <= k < |indexes| ==> first <= indexes[k] <= last && (indexes[k] - first) % 4 == 0)
    && (forall k :: 0 <= k < |indexes| - 1 ==> indexes[k] <= indexes[k + 1])
  }

  lemma SteadyCons(i: int, indexes: seq<int>, first: int, last: int)
    requires Steady(indexes, first, last) && i <= first && (first - i) % 4 == 0
    ensures Steady([i] + indexes, i, last)
  {
    var all := [i] + indexes;
    forall k | 0 <= k < |all|
      ensures i <= all[k] <= last && (all[k] - i) % 4 == 0
    {
      assert k > 0 ==> all[k] == indexes[k - 1] && (all[k] - first) % 4 == 0;
    }
    forall k | 0 <= k < |all| - 1
      ensures all[k] <= all[k + 1]
    {
      assert k > 0 ==> all[k] == indexes[k - 1] && all[k + 1] == indexes[k];
    }
  }

  lemma {:induction false} EntriesSteady(d: bytes, entries: seq<Entry>, i: int)
    requires AllReadable(entries) && WriteArgs(entries).Some? && At(d, i, WriteArgs(entries).value)
    ensures var indexes := Indexes(d, EntryTags(entries), i);
            |indexes| == |entries| + 1 && Steady(indexes, i, i + |WriteArgs(entries).value|)
  {
    hide Steady, At, AllReadable, WriteArgs, Indexes, NextIndex;
    if entries == [] {
      NoEntries(d, i);
      SteadyOne(i);
    } else {
      var e, tail := entries[0], entries[1..];
      FirstEntry(d, entries, i);
      var rest := |WriteArgs(tail).value|;
      var next := i + |WriteArgs(entries).value| - rest;
      EntriesSteady(d, tail, next);
      assert EntryTags(entries)[0] == e.tag && EntryTags(entries)[1..] == EntryTags(tail);
      hide EntryTags;
      IndexesCons(d, EntryTags(entries), i, next);
      SteadyCons(i, Indexes(d, EntryTags(tail), next), next, next + rest);
    }
  }

  lemma NoEntries(d: bytes, i: int)
    ensures WriteArgs([]) == Some([]) && Indexes(d, EntryTags([]), i) == [i]
  {
  }

  lemma IndexesCons(d: bytes, tags: bytes, i: int, next: int)
    requires tags != [] && NextIndex(d, tags[0], i) == Some(next)
    ensures Indexes(d, tags, i) == [i] + Indexes(d, tags[1..], next)
  {
    hide NextIndex;
  }

  lemma SteadyOne(i: int)
    ensures Steady([i], i, i)
  {
  }

  /** Reading the payload of the first entry leads to the payloads of the others. */
  lemma FirstEntry(d: bytes, entries: seq<Entry>, i: int)
    requires entries != [] && AllReadable(entries)
    requires WriteArgs(entries).Some? && At(d, i, WriteArgs(entries).value)
    ensures AllReadable(entries[1..]) && WriteArgs(entries[1..]).Some?
    ensures var w, rest := WriteArgs(entries).value, WriteArgs(entries[1..]).value;
            var n := |w| - |rest|;
            && n >= 0 && n % 4 == 0 && At(d, i + n, rest) && NextIndex(d, entries[0].tag, i) == Some(i + n)
  {
    hide ReadArg, WriteArg, Spoilt, Supported, At;
    var e, tail := entries[0], entries[1..];
    assert ReadableEntry(entries[0]);
    assert entries == [e] + tail;
    if e.tag == OPEN || e.tag == CLOSE {
      WriteArgsBracket(e, tail);
    } else {
      AtAppend(d, i, WriteArg(e.tag, e.value).value, WriteArgs(tail).value);
      LeafAt(d, i, e.tag, e.value);
    }
  }

  /**
    When a built message is parsed, the index goes from the end of the type tags to the end
    of the datagram, in multiples of 4, and never back.
  */
  lemma BuiltIndexes(address: bytes, ws: seq<Wire>, d: bytes)
    requires AllSupported(ws) && BuildDgram(Some(address), Flatten(ws)) == Ok(d) && NulFreeWires(ws)
    ensures var start := |WriteString(address)| + |WriteString([COMMA] + Tags(ws))|;
            && start % 4 == 0
            && |Indexes(d, Tags(ws), start)| == |Tags(ws)| + 1
            && Steady(Indexes(d, Tags(ws), start), start, |d|)
  {
    hide WriteArgs, Flatten, AllSupported, WriteString, EntryTags, NulFreeWires, Indexes, Steady, BuildDgram, At, Tags;
    BuiltParts(address, ws, d);
    FlattenReadable(ws);
    EntriesSteady(d, Flatten(ws), |WriteString(address)| + |WriteString([COMMA] + Tags(ws))|);
    TagsAreEntryTags(ws);
  }

  lemma TagsAreEntryTags(ws: seq<Wire>)
    ensures Tags(ws) == EntryTags(Flatten(ws)) && |Tags(ws)| == |Flatten(ws)|
  {
    hide Flatten;
  }
}
