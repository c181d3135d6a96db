/**
  Arguments added without a type, as `build_msg` adds them: exactly which values can be
  built, and that they come back from the built message.
*/
module InferredArguments {
  import opened Wrappers
  import opened Bytes
  import opened PyValues
  import opened OscTypes
  import opened OscMessage
  import opened OscMessageBuilder

  // ----- the choice of the integer type

  function Pow2(k: nat): (p: nat)
    ensures p > 0
  {
    if k == 0 then 1 else 2 * Pow2(k - 1)
  }

  lemma {:induction false} BitLengthBound(n: nat, k: nat)
    ensures BitLength(n) <= k <==> n < Pow2(k)
    decreases n
  {
    if n > 0 && k > 0 {
      BitLengthBound(n / 2, k - 1);
    }
  }

  lemma Pow2At31()
    ensures Pow2(31) == 0x8000_0000
  {
    assert Pow2(8) == 256;
    assert Pow2(16) == 256 * Pow2(8);
    assert Pow2(24) == 256 * Pow2(16);
    assert Pow2(31) == 128 * Pow2(24);
  }

  /** `bit_length() > 31` picks the 64-bit type, and the picked type packs every 64-bit integer. */
  lemma PickedTypePacks(i: int)
    ensures var tag := InferType(Int(i)).value.tag;
            && (tag == TAG_INT64 <==> i <= -0x8000_0000 || i >= 0x8000_0000)
            && (WriteArg(tag, Int(i)).Some? <==> -0x8000_0000_0000_0000 <= i < 0x8000_0000_0000_0000)
  {
    BitLengthBound(if i < 0 then -i else i, 31);
    Pow2At31();
    Powers();
  }

  // ----- the values that can be built

  /** The values `add_arg` can type and `build` can write. */
  predicate Buildable(v: Value) {
    match v
    case Blob(b) => b != [] && |b| < 0x8000_0000
    case Int(i) => -0x8000_0000_0000_0000 <= i < 0x8000_0000_0000_0000
    case Tuple(items) => |items| == 4 && Ints(items).Some?
    case List(items) => AllBuildable(items)
    case Double(_) => false
    case Date(_) => false
    case _ => true
  }

  predicate AllBuildable(vs: seq<Value>) {
    vs != [] ==> Buildable(vs[0]) && AllBuildable(vs[1..])
  }

  predicate NulFreeValues(vs: seq<Value>) {
    vs != [] ==>
    && (match vs[0]
        case Str(s) => NulFree(s)
        case List(items) => NulFreeValues(items)
        case _ => true)
    && NulFreeValues(vs[1..])
  }

  /** What a buildable value comes back as: itself, with MIDI bytes taken modulo 256. */
  function Normal(v: Value): Value {
    match v
    case Tuple(items) =>
      (match Ints(items)
       case Some(m) => IntTuple(seq(|m|, k requires 0 <= k < |m| => m[k] % 256))
       case None => v)
    case List(items) => List(Normals(items))
    case _ => v
  }

  function Normals(vs: seq<Value>): seq<Value> {
    if vs == [] then [] else [Normal(vs[0])] + Normals(vs[1..])
  }

  /** The trees of arguments added one by one. */
  function TypedArgs(vs: seq<Value>): Option<seq<Wire>> {
    if vs == [] then Some([])
    else match (Typed(vs[0], None), TypedArgs(vs[1..]))
      case (Some(w), Some(ws)) => Some([w] + ws)
      case _ => None
  }

  lemma {:induction false} InferredValid(v: Value)
    ensures InferType(v).Some? ==> ValidType(InferType(v).value)
  {
    if v.List? && InferTypes(v.items).Some? {
      InferredAllValid(v.items);
    }
  }

  lemma {:induction false} InferredAllValid(vs: seq<Value>)
    requires InferTypes(vs).Some?
    ensures forall k :: 0 <= k < |vs| ==> ValidType(InferTypes(vs).value[k])
  {
    if vs != [] {
      InferredValid(vs[0]);
      InferredAllValid(vs[1..]);
      var types := InferTypes(vs).value;
      assert types[1..] == InferTypes(vs[1..]).value;
      forall k | 0 <= k < |vs|
        ensures ValidType(types[k])
      {
        assert k > 0 ==> types[k] == types[1..][k - 1];
      }
    }
  }

  /** Passing on the inferred types of the items types them as if each had been added on its own. */
  lemma {:induction false} ItemsTyped(vs: seq<Value>)
    ensures InferTypes(vs).Some? ==> TypedAll(vs, InferTypes(vs).value) == TypedArgs(vs)
    ensures InferTypes(vs).None? ==> TypedArgs(vs) == None
  {
    if vs != [] {
      ItemsTyped(vs[1..]);
      InferredValid(vs[0]);
      if InferTypes(vs).Some? {
        var types := InferTypes(vs).value;
        assert types[1..] == InferTypes(vs[1..]).value;
        assert Typed(vs[0], Some(types[0])) == Typed(vs[0], None);
      }
    }
  }

  lemma ListTyped(items: seq<Value>)
    ensures Typed(List(items), None) == match TypedArgs(items)
                                        case None => None
                                        case Some(ws) => Some(Group(ws))
  {
    ItemsTyped(items);
  }

  /** Whether, and as what, the argument list can be built, and what it is read back as. */
  predicate Faithful(vs: seq<Value>) {
    && (AllBuildable(vs) <==> TypedArgs(vs).Some? && WriteArgs(Flatten(TypedArgs(vs).value)).Some?)
    && (AllBuildable(vs) ==>
          && AllSupported(TypedArgs(vs).value)
          && Values(TypedArgs(vs).value) == Normals(vs)
          && (NulFreeWires(TypedArgs(vs).value) <==> NulFreeValues(vs)))
  }

  lemma {:induction false} ArgumentsFaithful(vs: seq<Value>)
    ensures Faithful(vs)
  {
    if vs != [] {
      ArgumentsFaithful(vs[1..]);
      if vs[0].List? {
        ArgumentsFaithful(vs[0].items);
        ListFirst(vs);
      } else {
        ScalarFirst(vs);
      }
    }
  }

  lemma ListFirst(vs: seq<Value>)
    requires vs != [] && vs[0].List? && Faithful(vs[0].items) && Faithful(vs[1..])
    ensures Faithful(vs)
  {
    hide WriteArg, Typed;
    assert vs[0] == List(vs[0].items);
    ListTyped(vs[0].items);
    if TypedArgs(vs).Some? {
      var ws := TypedArgs(vs).value;
      var inner, rest := TypedArgs(vs[0].items).value, TypedArgs(vs[1..]).value;
      assert ws[0] == Group(inner) && ws[1..] == rest;
      GroupWritable(ws);
      assert AllBuildable(vs) <==> WriteArgs(Flatten(ws)).Some?;
      if AllBuildable(vs) {
        assert AllSupported(ws);
        assert Values(ws) == [List(Values(inner))] + Values(rest) == Normals(vs);
        assert NulFreeWires(ws) <==> NulFreeValues(vs);
      }
    } else {
      assert Buildable(vs[0]) <==> AllBuildable(vs[0].items);
      assert !AllBuildable(vs);
    }
  }

  lemma GroupWritable(ws: seq<Wire>)
    requires ws != [] && ws[0].Group?
    ensures WriteArgs(Flatten(ws)).Some? <==>
            WriteArgs(Flatten(ws[0].items)).Some? && WriteArgs(Flatten(ws[1..])).Some?
  {
    var open, close := Entry(OPEN, Nil), Entry(CLOSE, Nil);
    var inner, rest := Flatten(ws[0].items), Flatten(ws[1..]);
    GroupFlattens(ws);
    WriteArgsBracket(open, inner + ([close] + rest));
    WriteArgsAppend(inner, [close] + rest);
    WriteArgsBracket(close, rest);
  }

  lemma ScalarFirst(vs: seq<Value>)
    requires vs != [] && !vs[0].List? && Faithful(vs[1..])
    ensures Faithful(vs)
  {
    ScalarFaithful(vs[0]);
    hide WriteArg, Typed, Buildable, InferType, Decoded;
    if TypedArgs(vs).Some? {
      var ws := TypedArgs(vs).value;
      assert ws[1..] == TypedArgs(vs[1..]).value;
      LeafParts(ws, []);
      LeafWritable(ws);
    }
  }

  lemma LeafWritable(ws: seq<Wire>)
    requires ws != [] && ws[0].Leaf?
    ensures WriteArgs(Flatten(ws)).Some? <==>
            WriteArg(ws[0].tag, ws[0].value).Some? && WriteArgs(Flatten(ws[1..])).Some?
  {
    hide WriteArg;
    var head, rest := Entry(ws[0].tag, ws[0].value), Flatten(ws[1..]);
    assert Flatten(ws) == [head] + rest;
    assert ([head] + rest)[1..] == rest;
  }

  lemma ScalarFaithful(v: Value)
    requires !v.List?
    ensures Typed(v, None).Some? ==> Typed(v, None).value.Leaf? && Typed(v, None).value.value == v
    ensures Buildable(v) <==>
            Typed(v, None).Some? && WriteArg(Typed(v, None).value.tag, v).Some?
    ensures Buildable(v) ==>
              var tag := Typed(v, None).value.tag;
              Supported(tag) && Decoded(tag, v) == Normal(v) && (tag == TAG_STRING <==> v.Str?)
  {
    match v
    case Int(i) => PickedTypePacks(i);
    case Blob(b) => IntAt([], 0, |b|);
    case _ =>
  }

  // ----- build_msg

  /** The entries of arguments added one by one without a type. */
  function AddAll(vs: seq<Value>): Added {
    if vs == [] then Added([], true)
    else
      var first := AddArg(vs[0], None);
      if !first.ok then first
      else
        var rest := AddAll(vs[1..]);
        Added(first.entries + rest.entries, rest.ok)
  }

  lemma {:induction false} AddAllFlattens(vs: seq<Value>)
    ensures AddAll(vs).ok <==> TypedArgs(vs).Some?
    ensures TypedArgs(vs).Some? ==> AddAll(vs).entries == Flatten(TypedArgs(vs).value)
  {
    if vs != [] {
      AddArgFlattens(vs[0], None);
      AddAllFlattens(vs[1..]);
      if TypedArgs(vs).Some? {
        FlattenAppend([Typed(vs[0], None).value], TypedArgs(vs[1..]).value);
      }
    }
  }

  /** The arguments that `build_msg` makes of its value. */
  function ArgumentsOf(value: Value): seq<Value> {
    if value == Str([]) then []
    else if value.Str? || value.Blob? then [value]
    else match Items(value) case Some(items) => items case None => [value]
  }

  /** The message built from arguments added one by one; None where `add_arg` raises. */
  function MessageOf(address: bytes, vs: seq<Value>): Option<Result<Message, BuildFault>> {
    var added := AddAll(vs);
    if added.ok then Some(BuildMessage(Some(address), added.entries)) else None
  }

  /** A message with these parameters was built. */
  predicate Gives(r: Option<Result<Message, BuildFault>>, address: bytes, params: seq<Value>) {
    r.Some? && r.value.Ok? && r.value.value.address == address && r.value.value.params == params
  }

  /** What the result of `build_msg` must be for a value of each kind. */
  ghost predicate BuiltFrom(r: Option<Result<Message, BuildFault>>, address: bytes, value: Value) {
    match value
    case Str(s) => NulFree(s) ==> Gives(r, address, if s == [] then [] else [Str(s)])
    case Blob(b) => if 0 < |b| < 0x8000_0000 then Gives(r, address, [Blob(b)]) else r == Some(Err(Unwritable))
    case List(items) => AllBuildable(items) && NulFreeValues(items) ==> Gives(r, address, Normals(items))
    case Tuple(items) => AllBuildable(items) && NulFreeValues(items) ==> Gives(r, address, Normals(items))
    case Int(i) =>
      if -0x8000_0000_0000_0000 <= i < 0x8000_0000_0000_0000
      then Gives(r, address, [Int(i)]) else r == Some(Err(Unwritable))
    case Bool(_) => Gives(r, address, [value])
    case Nil => Gives(r, address, [value])
    case Float(_) => Gives(r, address, [value])
    case Double(_) => true
    case Date(_) => r == None
  }

  /** `build_msg`; None where `add_arg` raises ValueError. */
  method BuildMsg(address: bytes, value: Value) returns (r: Option<Result<Message, BuildFault>>)
    ensures r == MessageOf(address, ArgumentsOf(value))
    ensures address != [] && NulFree(address) ==> BuiltFrom(r, address, value)
  {
    MessageFrom(address, value);
    hide AddArg, BuildMessage, BuiltFrom, ArgumentsOf;
    var builder := new OscMessageBuilder(Some(address));
    var values := ArgumentsOf(value);
    for k := 0 to |values|
      invariant builder.address == Some(address)
      invariant AddAll(values).ok <==> AddAll(values[k..]).ok
      invariant AddAll(values).ok ==> AddAll(values).entries == builder.args + AddAll(values[k..]).entries
    {
      assert values[k..][1..] == values[k + 1..];
      var ok := builder.Add(values[k], None);
      if !ok {
        return None;
      }
    }
    assert values[|values|..] == [];
    assert builder.args + [] == builder.args;
    var built := builder.Build();
    return Some(built);
  }

  /**
    Building a message from values without types succeeds in writing exactly the buildable
    values, and the message that is parsed back has the address and those values if and
    only if the address and all strings are free of NUL bytes.
  */
  lemma BuildInferred(address: bytes, vs: seq<Value>)
    ensures var d := BuildDgram(Some(address), AddAll(vs).entries);
            && (AddAll(vs).ok && d.Ok? <==> address != [] && AllBuildable(vs))
            && (address != [] && AllBuildable(vs) ==>
                  && |d.value| % 4 == 0
                  && (BuildMessage(Some(address), AddAll(vs).entries) == Ok(Message(d.value, address, Normals(vs))) <==>
                      NulFree(address) && NulFreeValues(vs)))
  {
    ArgumentsFaithful(vs);
    AddAllFlattens(vs);
    if address != [] && AllBuildable(vs) {
      BuildParse(address, TypedArgs(vs).value, BuildDgram(Some(address), AddAll(vs).entries).value);
    }
  }

  /** The items of a list or a tuple are parameters of their own; a string, bytes, or any other value is one. */
  lemma MessageFrom(address: bytes, value: Value)
    ensures address != [] && NulFree(address) ==> BuiltFrom(MessageOf(address, ArgumentsOf(value)), address, value)
  {
    hide AddAll, BuildMessage, BuildDgram, NulFree;
    if address != [] && NulFree(address) {
      match value {
        case List(items) => Buildables(address, items);
        case Tuple(items) => Buildables(address, items);
        case Str(s) => if s == [] { Buildables(address, []); } else { OneValue(address, value); }
        case _ => OneValue(address, value);
      }
    }
  }

  lemma Buildables(address: bytes, vs: seq<Value>)
    requires address != [] && NulFree(address)
    ensures AllBuildable(vs) && NulFreeValues(vs) ==> Gives(MessageOf(address, vs), address, Normals(vs))
  {
    BuildInferred(address, vs);
  }

  lemma OneValue(address: bytes, v: Value)
    requires address != [] && NulFree(address) && !v.List? && !v.Tuple?
    ensures Buildable(v) && (v.Str? ==> NulFree(v.s)) ==> Gives(MessageOf(address, [v]), address, [v])
    ensures v.Date? ==> MessageOf(address, [v]) == None
    ensures (v.Blob? || v.Int?) && !Buildable(v) ==> MessageOf(address, [v]) == Some(Err(Unwritable))
  {
    var none: seq<Value> := [v][1..];
    assert none == [] && Normals([v]) == [v];
    assert AllBuildable([v]) <==> Buildable(v);
    BuildInferred(address, [v]);
    assert AddAll(none) == Added([], true);
    hide BuildDgram;
  }
}
