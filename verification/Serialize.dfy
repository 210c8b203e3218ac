/** `Serialize` and `Deserialize` of water/componet/serialize.h. A value is written as the bytes of
    its trivial parts, every container and string behind its length; it is read back into an object
    that may already hold something. */
module SerializeCodec {
  import opened Common

  // What the operators are instantiated for: a trivially copyable type of some size, std::string,
  // std::pair, std::vector, std::list or std::deque, std::set with its order, std::forward_list.
  datatype Type =
    | Trivial(size: nat)
    | Str
    | Pair(first: Type, second: Type)
    | Vector(item: Type)
    | List(item: Type)
    | Set(item: Type, less: (Value, Value) -> bool)
    | Forward(item: Type)

  datatype Value = Raw(bytes: seq<byte>) | Text(chars: seq<byte>) | Both(first: Value, second: Value) | Many(items: seq<Value>)

  // std::size_t of a 64-bit little-endian machine.
  const SIZE_BYTES: nat := 8

  function Power(k: nat): (r: nat)
    ensures r > 0
  {
    if k == 0 then 1 else 256 * Power(k - 1)
  }

  function ToBytes(n: nat, k: nat): (b: seq<byte>)
    ensures |b| == k
  {
    if k == 0 then [] else [(n % 256) as byte] + ToBytes(n / 256, k - 1)
  }

  function OfBytes(b: seq<byte>): nat {
    if b == [] then 0 else b[0] as int + 256 * OfBytes(b[1..])
  }

  lemma {:induction false} BytesBack(n: nat, k: nat)
    requires n < Power(k)
    ensures OfBytes(ToBytes(n, k)) == n
  {
    if k > 0 { BytesBack(n / 256, k - 1); }
  }

  // ---------------------------------------------------------------- values

  predicate Shape(v: Value, t: Type)
    decreases t
  {
    match t
    case Trivial(n) => v.Raw? && |v.bytes| == n
    case Str => v.Text?
    case Pair(a, b) => v.Both? && Shape(v.first, a) && Shape(v.second, b)
    case Vector(item) => v.Many? && forall i :: 0 <= i < |v.items| ==> Shape(v.items[i], item)
    case List(item) => v.Many? && forall i :: 0 <= i < |v.items| ==> Shape(v.items[i], item)
    case Set(item, _) => v.Many? && forall i :: 0 <= i < |v.items| ==> Shape(v.items[i], item)
    case Forward(item) => v.Many? && forall i :: 0 <= i < |v.items| ==> Shape(v.items[i], item)
  }

  predicate Items(vs: seq<Value>, t: Type) {
    forall i :: 0 <= i < |vs| ==> Shape(vs[i], t)
  }

  predicate Ascending(items: seq<Value>, less: (Value, Value) -> bool) {
    forall i, j :: 0 <= i < j < |items| ==> less(items[i], items[j]) && !less(items[j], items[i])
  }

  // A value of the type: lengths fit size_t and a set lists its members in its order.
  predicate Valid(v: Value, t: Type)
    requires Shape(v, t)
    decreases t
  {
    match t
    case Trivial(_) => true
    case Str => |v.chars| < Power(SIZE_BYTES)
    case Pair(a, b) => Valid(v.first, a) && Valid(v.second, b)
    case Vector(item) => |v.items| < Power(SIZE_BYTES) && forall i :: 0 <= i < |v.items| ==> Valid(v.items[i], item)
    case List(item) => |v.items| < Power(SIZE_BYTES) && forall i :: 0 <= i < |v.items| ==> Valid(v.items[i], item)
    case Set(item, less) =>
      && |v.items| < Power(SIZE_BYTES) && (forall i :: 0 <= i < |v.items| ==> Valid(v.items[i], item))
      && Ascending(v.items, less)
    case Forward(item) => |v.items| < Power(SIZE_BYTES) && forall i :: 0 <= i < |v.items| ==> Valid(v.items[i], item)
  }

  // A default-constructed object.
  function Default(t: Type): (v: Value)
    ensures Shape(v, t)
  {
    match t
    case Trivial(n) => Raw(seq(n, _ => 0))
    case Str => Text([])
    case Pair(a, b) => Both(Default(a), Default(b))
    case Vector(_) => Many([])
    case List(_) => Many([])
    case Set(_, _) => Many([])
    case Forward(_) => Many([])
  }

  // ---------------------------------------------------------------- writing

  function Encode(v: Value, t: Type): seq<byte>
    requires Shape(v, t)
    decreases t, 0
  {
    match t
    case Trivial(_) => v.bytes
    case Str => ToBytes(|v.chars|, SIZE_BYTES) + v.chars
    case Pair(a, b) => Encode(v.first, a) + Encode(v.second, b)
    case Vector(item) => ToBytes(|v.items|, SIZE_BYTES) + EncodeAll(v.items, item)
    case List(item) => ToBytes(|v.items|, SIZE_BYTES) + EncodeAll(v.items, item)
    case Set(item, _) => ToBytes(|v.items|, SIZE_BYTES) + EncodeAll(v.items, item)
    case Forward(item) => ToBytes(|v.items|, SIZE_BYTES) + EncodeAll(v.items, item)
  }

  function EncodeAll(vs: seq<Value>, t: Type): seq<byte>
    requires forall i :: 0 <= i < |vs| ==> Shape(vs[i], t)
    decreases t, |vs| + 1
  {
    if vs == [] then [] else EncodeAll(vs[..|vs| - 1], t) + Encode(vs[|vs| - 1], t)
  }

  // ---------------------------------------------------------------- reading

  // The bytes that are there; behind the end of the buffer the object keeps what it had.
  function Overwritten(was: seq<byte>, buffer: seq<byte>, pos: nat): (r: (seq<byte>, nat))
    requires pos <= |buffer|
    ensures |r.0| == |was| && pos <= r.1 <= |buffer|
  {
    var n := if |was| < |buffer| - pos then |was| else |buffer| - pos;
    (buffer[pos..pos + n] + was[n..], pos + n)
  }

  function Resized(items: seq<Value>, n: nat, fill: Value): (r: seq<Value>)
    ensures |r| == n
  {
    if n <= |items| then items[..n] else items + seq(n - |items|, _ => fill)
  }

  // std::set::insert.
  function Insert(items: seq<Value>, v: Value, less: (Value, Value) -> bool): (r: seq<Value>)
    ensures forall i :: 0 <= i < |r| ==> r[i] == v || r[i] in items
  {
    if items == [] then [v]
    else if less(v, items[0]) then [v] + items
    else if less(items[0], v) then [items[0]] + Insert(items[1..], v, less)
    else items
  }

  function InsertAll(items: seq<Value>, less: (Value, Value) -> bool): (r: seq<Value>)
    ensures forall i :: 0 <= i < |r| ==> r[i] in items
  {
    if items == [] then []
    else Insert(InsertAll(items[..|items| - 1], less), items[|items| - 1], less)
  }

  // Reads a value into `target`; None where a string's length points behind the buffer, which the
  // code does not check. The second result is the position that follows.
  function Decode(t: Type, target: Value, buffer: seq<byte>, pos: nat): (r: Option<(Value, nat)>)
    requires Shape(target, t) && pos <= |buffer|
    ensures r.Some? ==> Shape(r.value.0, t) && pos <= r.value.1 <= |buffer|
    decreases t, 0, 0
  {
    match t
    case Trivial(_) =>
      var o := Overwritten(target.bytes, buffer, pos);
      Some((Raw(o.0), o.1))
    case Str =>
      var (size, p) := DecodeSize(buffer, pos);
      if size > |buffer| - p then None else Some((Text(buffer[p..p + size]), p + size))
    case Pair(a, b) =>
      (match Decode(a, target.first, buffer, pos)
       case None => None
       case Some(x) =>
         match Decode(b, target.second, buffer, x.1)
         case None => None
         case Some(y) => Some((Both(x.0, y.0), y.1)))
    case Vector(item) =>
      (match DecodeItems(item, target.items, buffer, pos)
       case None => None
       case Some(x) => Some((Many(x.0), x.1)))
    case List(item) =>
      (match DecodeItems(item, [], buffer, pos)
       case None => None
       case Some(x) => Some((Many(x.0), x.1)))
    case Set(item, less) =>
      (match DecodeItems(item, [], buffer, pos)
       case None => None
       case Some(x) => Some((Many(InsertAll(x.0, less)), x.1)))
    case Forward(item) =>
      (match DecodeItems(item, [], buffer, pos)
       case None => None
       case Some(x) => Some((Many(x.0 + target.items), x.1)))
  }

  function DecodeSize(buffer: seq<byte>, pos: nat): (r: (nat, nat))
    requires pos <= |buffer|
    ensures pos <= r.1 <= |buffer|
  {
    var o := Overwritten(seq(SIZE_BYTES, _ => 0), buffer, pos);
    (OfBytes(o.0), o.1)
  }

  // The length, then as many items, each into the one that was at its place if there was one.
  function DecodeItems(t: Type, was: seq<Value>, buffer: seq<byte>, pos: nat): (r: Option<(seq<Value>, nat)>)
    requires pos <= |buffer| && Items(was, t)
    ensures r.Some? ==> Items(r.value.0, t) && pos <= r.value.1 <= |buffer|
    decreases t, 2, 0
  {
    var (size, p) := DecodeSize(buffer, pos);
    DecodeAll(t, Resized(was, size, Default(t)), buffer, p)
  }

  function DecodeAll(t: Type, targets: seq<Value>, buffer: seq<byte>, pos: nat): (r: Option<(seq<Value>, nat)>)
    requires pos <= |buffer| && Items(targets, t)
    ensures r.Some? ==> Items(r.value.0, t) && |r.value.0| == |targets| && pos <= r.value.1 <= |buffer|
    decreases t, 1, |targets|
  {
    if targets == [] then Some(([], pos))
    else
      match DecodeAll(t, targets[..|targets| - 1], buffer, pos)
      case None => None
      case Some(x) =>
        match Decode(t, targets[|targets| - 1], buffer, x.1)
        case None => None
        case Some(y) => Some((x.0 + [y.0], y.1))
  }

  // ---------------------------------------------------------------- what reading makes of a target

  // A forward list is not cleared before it is read, and a vector hands its old items on as
  // targets: this is what a written v looks like when it is read over `target`.
  function Merged(t: Type, target: Value, v: Value): (r: Value)
    requires Shape(target, t) && Shape(v, t)
    ensures Shape(r, t)
    decreases t, 0
  {
    match t
    case Trivial(_) => v
    case Str => v
    case Pair(a, b) => Both(Merged(a, target.first, v.first), Merged(b, target.second, v.second))
    case Vector(item) => Many(MergedAll(item, Resized(target.items, |v.items|, Default(item)), v.items))
    case List(_) => v
    case Set(_, _) => v
    case Forward(_) => Many(v.items + target.items)
  }

  function MergedAll(t: Type, targets: seq<Value>, vs: seq<Value>): (r: seq<Value>)
    requires |targets| == |vs| && Items(targets, t) && Items(vs, t)
    ensures Items(r, t) && |r| == |vs|
    decreases t, 1
  {
    seq(|vs|, i requires 0 <= i < |vs| => Merged(t, targets[i], vs[i]))
  }

  // Nothing is left over in the places where the old content survives.
  predicate Fresh(t: Type, target: Value, v: Value)
    requires Shape(target, t) && Shape(v, t)
    decreases t
  {
    match t
    case Trivial(_) => true
    case Str => true
    case Pair(a, b) => Fresh(a, target.first, v.first) && Fresh(b, target.second, v.second)
    case Vector(item) =>
      forall i :: 0 <= i < |v.items| && i < |target.items| ==> Fresh(item, target.items[i], v.items[i])
    case List(_) => true
    case Set(_, _) => true
    case Forward(_) => target.items == []
  }

  lemma {:induction false} DefaultIsFresh(t: Type, v: Value)
    requires Shape(v, t)
    ensures Fresh(t, Default(t), v)
    decreases t
  {
    match t
    case Pair(a, b) => DefaultIsFresh(a, v.first); DefaultIsFresh(b, v.second);
    case Trivial(_) =>
    case Str =>
    case Vector(_) =>
    case List(_) =>
    case Set(_, _) =>
    case Forward(_) =>
  }

  lemma {:induction false} MergedExactly(t: Type, target: Value, v: Value)
    requires Shape(target, t) && Shape(v, t)
    ensures Merged(t, target, v) == v <==> Fresh(t, target, v)
    decreases t
  {
    match t
    case Pair(a, b) => MergedExactly(a, target.first, v.first); MergedExactly(b, target.second, v.second);
    case Vector(item) =>
      var slots := Resized(target.items, |v.items|, Default(item));
      forall i | 0 <= i < |v.items|
        ensures MergedAll(item, slots, v.items)[i] == v.items[i] <==> (i < |target.items| ==> Fresh(item, target.items[i], v.items[i]))
      {
        MergedExactly(item, slots[i], v.items[i]);
        DefaultIsFresh(item, v.items[i]);
      }
    case Forward(_) => assert target.items != [] ==> |v.items + target.items| > |v.items|;
    case Trivial(_) =>
    case Str =>
    case List(_) =>
    case Set(_, _) =>
  }

  // ---------------------------------------------------------------- round trip

  predicate At(buffer: seq<byte>, pos: nat, bytes: seq<byte>) {
    pos + |bytes| <= |buffer| && buffer[pos..pos + |bytes|] == bytes
  }

  lemma AtSplit(buffer: seq<byte>, pos: nat, a: seq<byte>, b: seq<byte>)
    requires At(buffer, pos, a + b)
    ensures At(buffer, pos, a) && At(buffer, pos + |a|, b)
  {
    assert buffer[pos..pos + |a|] == buffer[pos..pos + |a + b|][..|a|];
    assert buffer[pos + |a|..pos + |a| + |b|] == buffer[pos..pos + |a + b|][|a|..];
  }

  lemma SizeBack(n: nat, buffer: seq<byte>, pos: nat)
    requires n < Power(SIZE_BYTES) && At(buffer, pos, ToBytes(n, SIZE_BYTES))
    ensures DecodeSize(buffer, pos) == (n, pos + SIZE_BYTES)
  {
    BytesBack(n, SIZE_BYTES);
    assert Overwritten(seq(SIZE_BYTES, _ => 0), buffer, pos).0 == ToBytes(n, SIZE_BYTES);
  }

  lemma {:induction false} InsertLast(items: seq<Value>, v: Value, less: (Value, Value) -> bool)
    requires forall i :: 0 <= i < |items| ==> less(items[i], v) && !less(v, items[i])
    ensures Insert(items, v, less) == items + [v]
  {
    if items != [] { InsertLast(items[1..], v, less); }
  }

  lemma {:induction false} InsertAscending(items: seq<Value>, less: (Value, Value) -> bool)
    requires Ascending(items, less)
    ensures InsertAll(items, less) == items
  {
    if items != [] {
      InsertAscending(items[..|items| - 1], less);
      InsertLast(items[..|items| - 1], items[|items| - 1], less);
    }
  }

  lemma BytesRoundTrip(bytes: seq<byte>, was: seq<byte>, buffer: seq<byte>, pos: nat)
    requires |was| == |bytes| && At(buffer, pos, bytes)
    ensures pos <= |buffer| && Overwritten(was, buffer, pos) == (bytes, pos + |bytes|)
  {
    var n := |bytes|;
    assert n <= |buffer| - pos;
    assert buffer[pos..pos + n] + was[n..] == bytes;
  }

  lemma SizedBytes(bytes: seq<byte>, buffer: seq<byte>, pos: nat)
    requires |bytes| < Power(SIZE_BYTES) && At(buffer, pos, ToBytes(|bytes|, SIZE_BYTES) + bytes)
    ensures pos + SIZE_BYTES + |bytes| <= |buffer| && DecodeSize(buffer, pos) == (|bytes|, pos + SIZE_BYTES)
    ensures buffer[pos + SIZE_BYTES..pos + SIZE_BYTES + |bytes|] == bytes
  {
    hide ToBytes, OfBytes, DecodeSize, Power;
    AtSplit(buffer, pos, ToBytes(|bytes|, SIZE_BYTES), bytes);
    SizeBack(|bytes|, buffer, pos);
  }

  lemma StringRoundTrip(chars: seq<byte>, target: Value, buffer: seq<byte>, pos: nat)
    requires |chars| < Power(SIZE_BYTES) && At(buffer, pos, ToBytes(|chars|, SIZE_BYTES) + chars) && target.Text?
    ensures pos <= |buffer| && Decode(Str, target, buffer, pos) == Some((Text(chars), pos + SIZE_BYTES + |chars|))
  {
    hide ToBytes, DecodeSize, Power, At;
    SizedBytes(chars, buffer, pos);
  }

  // Reading what was written gives the value, merged with what the target held, and stops where
  // the writer stopped, whatever surrounds the bytes.
  lemma {:induction false} RoundTrip(t: Type, v: Value, target: Value, buffer: seq<byte>, pos: nat)
    requires Shape(v, t) && Valid(v, t) && Shape(target, t) && At(buffer, pos, Encode(v, t))
    ensures Decode(t, target, buffer, pos) == Some((Merged(t, target, v), pos + |Encode(v, t)|))
    decreases t, 0, 0
  {
    hide At, DecodeItems, EncodeAll, MergedAll, InsertAll, Ascending, ToBytes, DecodeSize, Power, Resized, Overwritten;
    match t
    case Trivial(n) => BytesRoundTrip(v.bytes, target.bytes, buffer, pos);
    case Str => StringRoundTrip(v.chars, target, buffer, pos);
    case Pair(a, b) =>
      assert At(buffer, pos, Encode(v.first, a) + Encode(v.second, b));
      AtSplit(buffer, pos, Encode(v.first, a), Encode(v.second, b));
      RoundTrip(a, v.first, target.first, buffer, pos);
      RoundTrip(b, v.second, target.second, buffer, pos + |Encode(v.first, a)|);
    case Vector(item) => RoundTripItems(item, v.items, target.items, buffer, pos);
    case List(item) =>
      RoundTripItems(item, v.items, [], buffer, pos);
      FreshItems(item, v.items);
    case Set(item, less) =>
      RoundTripItems(item, v.items, [], buffer, pos);
      FreshItems(item, v.items);
      InsertAscending(v.items, less);
    case Forward(item) =>
      RoundTripItems(item, v.items, [], buffer, pos);
      FreshItems(item, v.items);
  }

  lemma FreshItems(t: Type, vs: seq<Value>)
    requires Items(vs, t)
    ensures MergedAll(t, Resized([], |vs|, Default(t)), vs) == vs
  {
    forall i | 0 <= i < |vs| ensures Merged(t, Default(t), vs[i]) == vs[i] {
      DefaultIsFresh(t, vs[i]);
      MergedExactly(t, Default(t), vs[i]);
    }
  }

  lemma {:induction false} RoundTripItems(t: Type, vs: seq<Value>, was: seq<Value>, buffer: seq<byte>, pos: nat)
    requires Items(vs, t) && Items(was, t) && |vs| < Power(SIZE_BYTES)
    requires forall i :: 0 <= i < |vs| ==> Valid(vs[i], t)
    requires At(buffer, pos, ToBytes(|vs|, SIZE_BYTES) + EncodeAll(vs, t))
    ensures DecodeItems(t, was, buffer, pos)
         == Some((MergedAll(t, Resized(was, |vs|, Default(t)), vs), pos + SIZE_BYTES + |EncodeAll(vs, t)|))
    decreases t, 2, 0
  {
    hide Decode, Encode, Merged, Shape, Valid, At, ToBytes, Power, DecodeAll, EncodeAll, MergedAll, DecodeSize;
    AtSplit(buffer, pos, ToBytes(|vs|, SIZE_BYTES), EncodeAll(vs, t));
    SizeBack(|vs|, buffer, pos);
    RoundTripAll(t, vs, Resized(was, |vs|, Default(t)), buffer, pos + SIZE_BYTES);
  }

  lemma {:induction false} RoundTripAll(t: Type, vs: seq<Value>, targets: seq<Value>, buffer: seq<byte>, pos: nat)
    requires Items(vs, t) && Items(targets, t) && |targets| == |vs|
    requires forall i :: 0 <= i < |vs| ==> Valid(vs[i], t)
    requires At(buffer, pos, EncodeAll(vs, t))
    ensures DecodeAll(t, targets, buffer, pos) == Some((MergedAll(t, targets, vs), pos + |EncodeAll(vs, t)|))
    decreases t, 1, |vs|
  {
    hide Decode, DecodeAll, Encode, Merged, MergedAll, Shape, Valid, At, Power;
    if vs == [] {
      NothingToRead(t, buffer, pos);
    } else {
      var last := |vs| - 1;
      AtSplit(buffer, pos, EncodeAll(vs[..last], t), Encode(vs[last], t));
      RoundTripAll(t, vs[..last], targets[..last], buffer, pos);
      RoundTrip(t, vs[last], targets[last], buffer, pos + |EncodeAll(vs[..last], t)|);
      ReadOneMore(t, vs, targets, buffer, pos, pos + |EncodeAll(vs[..last], t)|, pos + |EncodeAll(vs, t)|);
    }
  }

  lemma NothingToRead(t: Type, buffer: seq<byte>, pos: nat)
    requires At(buffer, pos, [])
    ensures pos <= |buffer| && DecodeAll(t, [], buffer, pos) == Some((MergedAll(t, [], []), pos))
  {
  }

  lemma ReadOneMore(t: Type, vs: seq<Value>, targets: seq<Value>, buffer: seq<byte>, pos: nat, mid: nat, end: nat)
    requires Items(vs, t) && Items(targets, t) && 0 < |targets| == |vs| && pos <= |buffer| && mid <= |buffer|
    requires DecodeAll(t, targets[..|vs| - 1], buffer, pos) == Some((MergedAll(t, targets[..|vs| - 1], vs[..|vs| - 1]), mid))
    requires Decode(t, targets[|vs| - 1], buffer, mid) == Some((Merged(t, targets[|vs| - 1], vs[|vs| - 1]), end))
    ensures DecodeAll(t, targets, buffer, pos) == Some((MergedAll(t, targets, vs), end))
  {
    var last := |vs| - 1;
    hide Decode, Merged, Shape;
    assert MergedAll(t, targets, vs) == MergedAll(t, targets[..last], vs[..last]) + [Merged(t, targets[last], vs[last])];
  }

  // Reading into any object gives back what was written exactly if no forward list in it, in a
  // place whose content survives, held anything; the reader ends where the writer ended.
  lemma UndoesExactly(t: Type, v: Value, target: Value, before: seq<byte>, after: seq<byte>)
    requires Shape(v, t) && Valid(v, t) && Shape(target, t)
    ensures var end: nat := |before| + |Encode(v, t)|;
      && (exists w :: Shape(w, t) && Decode(t, target, before + Encode(v, t) + after, |before|) == Some((w, end)))
      && (Decode(t, target, before + Encode(v, t) + after, |before|) == Some((v, end)) <==> Fresh(t, target, v))
  {
    hide Shape, Valid, Encode, Decode, Merged, Fresh;
    var buffer := before + Encode(v, t) + after;
    assert buffer[|before|..|before| + |Encode(v, t)|] == Encode(v, t);
    RoundTrip(t, v, target, buffer, |before|);
    MergedExactly(t, target, v);
    var w := Merged(t, target, v);
    var end: nat := |before| + |Encode(v, t)|;
    assert Decode(t, target, buffer, |before|) == Some((w, end));
  }

  // So a default-constructed object always gets it back.
  lemma DeserializeUndoesSerialize(t: Type, v: Value, before: seq<byte>, after: seq<byte>)
    requires Shape(v, t) && Valid(v, t)
    ensures Decode(t, Default(t), before + Encode(v, t) + after, |before|) == Some((v, |before| + |Encode(v, t)|))
  {
    DefaultIsFresh(t, v);
    UndoesExactly(t, v, Default(t), before, after);
  }

  // ---------------------------------------------------------------- the two objects

  class Serialize {
    var buffer: seq<byte>
    var opos: nat

    constructor ()
      ensures buffer == [] && opos == 0
    {
      buffer, opos := [], 0;
    }

    method Append(bytes: seq<byte>)
      modifies this
      ensures buffer == old(buffer) + bytes && opos == old(opos) + |bytes|
    {
      buffer := buffer + bytes;
      opos := opos + |bytes|;
    }

    // operator<<, with one case for each overload.
    method Put(v: Value, t: Type)
      requires Shape(v, t)
      modifies this
      ensures buffer == old(buffer) + Encode(v, t) && opos == old(opos) + |Encode(v, t)|
      decreases t, 0
    {
      match t {
        case Trivial(_) => Append(v.bytes);
        case Str =>
          Append(ToBytes(|v.chars|, SIZE_BYTES));
          Append(v.chars);
        case Pair(a, b) =>
          Put(v.first, a);
          Put(v.second, b);
        case Vector(item) => PutContainer(v.items, item);
        case List(item) => PutContainer(v.items, item);
        case Set(item, _) => PutContainer(v.items, item);
        case Forward(item) => PutContainer(v.items, item);
      }
    }

    method PutContainer(items: seq<Value>, t: Type)
      requires Items(items, t)
      modifies this
      ensures buffer == old(buffer) + (ToBytes(|items|, SIZE_BYTES) + EncodeAll(items, t))
      ensures opos == old(opos) + SIZE_BYTES + |EncodeAll(items, t)|
      decreases t, 1
    {
      hide Encode, EncodeAll, ToBytes, Shape;
      Append(ToBytes(|items|, SIZE_BYTES));
      var i := 0;
      assert EncodeAll(items[..0], t) == [] by { NoneWritten(t); }
      while i < |items|
        invariant 0 <= i <= |items|
        invariant buffer == old(buffer) + (ToBytes(|items|, SIZE_BYTES) + EncodeAll(items[..i], t))
        invariant opos == old(opos) + SIZE_BYTES + |EncodeAll(items[..i], t)|
      {
        Put(items[i], t);
        OneMoreWritten(items, i, t);
        i := i + 1;
      }
      assert items[..i] == items;
    }
  }

  lemma NoneWritten(t: Type)
    ensures EncodeAll([], t) == []
  {
  }

  lemma OneMoreWritten(items: seq<Value>, i: nat, t: Type)
    requires i < |items| && Items(items, t)
    ensures EncodeAll(items[..i + 1], t) == EncodeAll(items[..i], t) + Encode(items[i], t)
  {
    assert items[..i + 1][..i] == items[..i];
    hide Encode, Shape;
  }

  class Deserialize {
    const buffer: seq<byte>
    var ipos: nat

    constructor (buffer: seq<byte>)
      ensures this.buffer == buffer && ipos == 0
    {
      this.buffer := buffer;
      ipos := 0;
    }

    // operator>>(T&): byte by byte, as far as the buffer goes.
    method GetTrivial(was: seq<byte>) returns (bytes: seq<byte>)
      requires ipos <= |buffer|
      modifies this
      ensures (bytes, ipos) == Overwritten(was, buffer, old(ipos)) && ipos <= |buffer|
    {
      bytes := was;
      var i := 0;
      while i < |was| && ipos < |buffer|
        invariant 0 <= i <= |was| == |bytes| && ipos == old(ipos) + i <= |buffer|
        invariant bytes == buffer[old(ipos)..ipos] + was[i..]
      {
        bytes := bytes[i := buffer[ipos]];
        ipos := ipos + 1;
        i := i + 1;
      }
    }

    method GetSize() returns (size: nat)
      requires ipos <= |buffer|
      modifies this
      ensures (size, ipos) == DecodeSize(buffer, old(ipos)) && ipos <= |buffer|
    {
      var bytes := GetTrivial(seq(SIZE_BYTES, _ => 0));
      size := OfBytes(bytes);
    }

    // operator>>; the object read into starts as `was`.
    method Get(t: Type, was: Value) returns (r: Option<Value>)
      requires Shape(was, t) && ipos <= |buffer|
      modifies this
      ensures ipos <= |buffer|
      ensures match Decode(t, was, buffer, old(ipos))
              case None => r == None
              case Some(x) => r == Some(x.0) && ipos == x.1
      decreases t, 0
    {
      match t {
        case Trivial(_) =>
          var bytes := GetTrivial(was.bytes);
          r := Some(Raw(bytes));
        case Str =>
          var size := GetSize();
          if size > |buffer| - ipos { return None; }
          r := Some(Text(buffer[ipos..ipos + size]));
          ipos := ipos + size;
        case Pair(a, b) =>
          var x := Get(a, was.first);
          if x == None { return None; }
          var y := Get(b, was.second);
          if y == None { return None; }
          r := Some(Both(x.value, y.value));
        case Vector(item) =>
          var xs := GetItems(item, was.items);
          r := if xs == None then None else Some(Many(xs.value));
        case List(item) =>
          var xs := GetItems(item, []);
          r := if xs == None then None else Some(Many(xs.value));
        case Set(item, less) =>
          var xs := GetItems(item, []);
          r := if xs == None then None else Some(Many(InsertAll(xs.value, less)));
        case Forward(item) =>
          var xs := GetItems(item, []);
          r := if xs == None then None else Some(Many(xs.value + was.items));
      }
    }

    // The length and the items of a container.
    method GetItems(t: Type, was: seq<Value>) returns (r: Option<seq<Value>>)
      requires Items(was, t) && ipos <= |buffer|
      modifies this
      ensures ipos <= |buffer|
      ensures match DecodeItems(t, was, buffer, old(ipos))
              case None => r == None
              case Some(x) => r == Some(x.0) && ipos == x.1
      decreases t, 1
    {
      hide Decode, DecodeAll, DecodeSize, Shape, Default;
      var size := GetSize();
      ghost var start := ipos;
      NoneRead(t, buffer, start);
      var targets := Resized(was, size, Default(t));
      assert Items(targets, t);
      var xs := [];
      var i := 0;
      while i < size
        invariant 0 <= i <= size == |targets| && ipos <= |buffer| && |xs| == i
        invariant DecodeAll(t, targets[..i], buffer, start) == Some((xs, ipos))
      {
        ghost var p := ipos;
        var x := Get(t, targets[i]);
        OneMoreRead(t, targets, i, buffer, start, xs, p);
        if x == None {
          ReadFails(t, targets, i + 1, buffer, start);
          return None;
        }
        xs := xs + [x.value];
        i := i + 1;
      }
      assert targets[..i] == targets;
      r := Some(xs);
    }
  }

  lemma NoneRead(t: Type, buffer: seq<byte>, pos: nat)
    requires pos <= |buffer|
    ensures DecodeAll(t, [], buffer, pos) == Some(([], pos))
  {
  }

  lemma OneMoreRead(t: Type, targets: seq<Value>, i: nat, buffer: seq<byte>, pos: nat, xs: seq<Value>, p: nat)
    requires pos <= |buffer| && p <= |buffer| && Items(targets, t) && i < |targets|
    requires DecodeAll(t, targets[..i], buffer, pos) == Some((xs, p))
    ensures DecodeAll(t, targets[..i + 1], buffer, pos) ==
            match Decode(t, targets[i], buffer, p) case None => None case Some(y) => Some((xs + [y.0], y.1))
  {
    assert targets[..i + 1][..i] == targets[..i];
    hide Decode, Shape;
  }

  lemma {:induction false} ReadFails(t: Type, targets: seq<Value>, i: nat, buffer: seq<byte>, pos: nat)
    requires pos <= |buffer| && Items(targets, t) && i <= |targets| && DecodeAll(t, targets[..i], buffer, pos) == None
    ensures DecodeAll(t, targets, buffer, pos) == None
    decreases |targets|
  {
    var last := |targets| - 1;
    if i == |targets| {
      assert targets[..i] == targets;
    } else {
      assert targets[..last][..i] == targets[..i];
      ReadFails(t, targets[..last], i, buffer, pos);
    }
  }
}
