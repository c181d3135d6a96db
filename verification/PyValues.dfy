/**
  The Python values that OSC arguments are made of.  Strings are byte strings (UTF-8 is left
  out); a float is known by its packed word, 4 bytes for tag f and 8 bytes for tag d.
*/
module PyValues {
  import opened Wrappers
  import opened Bytes

  type word4 = w: bytes | |w| == 4 witness Zeros(4)
  type word8 = w: bytes | |w| == 8 witness Zeros(8)

  datatype Value =
    | Str(s: bytes)
    | Blob(b: bytes)
    | Bool(truth: bool)
    | Nil
    | Int(i: int)
    | Float(single: word4)
    | Double(double: word8)
    | Date(seconds: nat)
    | Tuple(items: seq<Value>)
    | List(items: seq<Value>)

  /** The integer that `struct.pack` and `&` see: Python's booleans are integers. */
  function AsInt(v: Value): Option<int> {
    match v
    case Int(i) => Some(i)
    case Bool(truth) => Some(if truth then 1 else 0)
    case _ => None
  }

  /** The items Python iterates over; None for a value that is not iterable. */
  function Items(v: Value): Option<seq<Value>> {
    match v
    case Tuple(items) => Some(items)
    case List(items) => Some(items)
    case Str(s) => Some(seq(|s|, i requires 0 <= i < |s| => Str([s[i]])))
    case Blob(b) => Some(seq(|b|, i requires 0 <= i < |b| => Int(b[i])))
    case _ => None
  }

  /** The items as integers; None if one of them is not an integer. */
  function Ints(vs: seq<Value>): (r: Option<seq<int>>)
    ensures r.Some? ==> |r.value| == |vs|
  {
    if vs == [] then Some([])
    else match (AsInt(vs[0]), Ints(vs[1..]))
      case (Some(i), Some(rest)) => Some([i] + rest)
      case _ => None
  }
}
