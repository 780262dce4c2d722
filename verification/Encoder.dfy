/** The encoder: a pass over the fields that writes a message to a stream, nested messages after a
    sizing pass of their own. */
module Encoder {
  import opened Basics
  import opened BigEndian
  import opened Varints
  import opened Messages
  import opened FieldIterator
  import opened Streams

  // ----- what the types of the structure guarantee -----

  /** The value is of the kind that the field's member of the structure holds. */
  ghost predicate Typed(field: Field, v: Value)
    decreases field, 0
  {
    match v
    case Number(_) => Packable(field.ltype)
    case Blob(b) => field.ltype.Bytes? || field.ltype.String?
        || (field.ltype.FixedBytes? && |b| == field.ltype.dataSize)
    case Message(slots) => field.ltype.Submessage? && TypedAll(field.ltype.fields, slots)
  }

  ghost predicate TypedSlot(fields: seq<Field>, i: nat, slot: Slot)
    requires i < |fields|
    decreases fields, 0
  {
    var field := fields[i];
    match slot
    case Single(v) => field.htype.Required? && Typed(field, v)
    case Maybe(has, v) => field.htype.Optional? && (has ==> Typed(field, v))
    case Many(items) => field.htype.Repeated? && forall k | 0 <= k < |items| :: Typed(field, items[k])
    case Choice(which, v) => field.htype.OneOf? && (which == field.tag ==> Typed(field, v))
    case Joined => false
  }

  /** Each field finds its kind of value where it is stored. */
  ghost predicate TypedAll(fields: seq<Field>, slots: seq<Slot>)
    decreases fields, 1
  {
    |slots| == |fields| && forall i | 0 <= i < |fields| :: TypedSlot(fields, i, slots[Home(fields, i)])
  }

  // ----- the primitive encoders -----

  method EncodeTag(stream: OutputStream, wire: nat, tag: nat) returns (status: Status)
    requires stream.Valid()
    modifies stream, stream.target
    ensures stream.Valid() && stream.maxSize == old(stream.maxSize)
    ensures status == if old(stream.Room(|Key(wire, tag)|)) then Done else Failed(StreamFull)
    ensures status.Done? ==> stream.Added(old(stream.Output()), old(stream.bytesWritten), Key(wire, tag))
  {
    status := EncodeVarint(stream, (8 * tag + wire) % SPAN64);
  }

  method EncodeString(stream: OutputStream, data: seq<byte>) returns (status: Status)
    requires stream.Valid()
    modifies stream, stream.target
    ensures stream.Valid() && stream.maxSize == old(stream.maxSize)
    ensures status == if old(stream.Room(|Delimited(data)|)) then Done else Failed(StreamFull)
    ensures status.Done? ==> stream.Added(old(stream.Output()), old(stream.bytesWritten), Delimited(data))
  {
    hide Encode;
    status := EncodeVarint(stream, |data| % SPAN64);
    if status.Done? {
      status := stream.Write(data);
    }
  }

  method EncodeFixed32(stream: OutputStream, value: nat) returns (status: Status)
    requires stream.Valid() && value < SPAN32
    modifies stream, stream.target
    ensures stream.Valid() && stream.maxSize == old(stream.maxSize)
    ensures status == if old(stream.Room(4)) then Done else Failed(StreamFull)
    ensures status.Done? ==> stream.Added(old(stream.Output()), old(stream.bytesWritten), LittleEndian(value, 4))
  {
    FourBytes(value);
    status := stream.Write([value % 256, value / 0x100 % 256, value / 0x1_0000 % 256, value / 0x100_0000 % 256]);
  }

  method EncodeFixed64(stream: OutputStream, value: nat) returns (status: Status)
    requires stream.Valid() && value < SPAN64
    modifies stream, stream.target
    ensures stream.Valid() && stream.maxSize == old(stream.maxSize)
    ensures status == if old(stream.Room(8)) then Done else Failed(StreamFull)
    ensures status.Done? ==> stream.Added(old(stream.Output()), old(stream.bytesWritten), LittleEndian(value, 8))
  {
    var high := value / SPAN32;
    EightBytes(value);
    status := stream.Write(
      [value % 256, value / 0x100 % 256, value / 0x1_0000 % 256, value / 0x100_0000 % 256,
       high % 256, high / 0x100 % 256, high / 0x1_0000 % 256, high / 0x100_0000 % 256]);
  }

  /** Shifting by bytes one after another. */
  lemma Shifts(v: nat)
    ensures v / 0x100 / 0x100 == v / 0x1_0000 && v / 0x1_0000 / 0x100 == v / 0x100_0000
            && v / 0x100_0000 / 0x100 == v / SPAN32
  {
  }

  lemma FourBytes(v: nat)
    ensures LittleEndian(v, 4) == [v % 256, v / 0x100 % 256, v / 0x1_0000 % 256, v / 0x100_0000 % 256]
  {
    Shifts(v);
    var a, b, c := v / 0x100, v / 0x1_0000, v / 0x100_0000;
    assert LittleEndian(c, 1) == [c % 256];
    assert LittleEndian(b, 2) == [b % 256] + LittleEndian(c, 1);
    assert LittleEndian(a, 3) == [a % 256] + LittleEndian(b, 2);
  }

  lemma EightBytes(v: nat)
    ensures LittleEndian(v, 8) == LittleEndian(v, 4) + LittleEndian(v / SPAN32, 4)
    ensures LittleEndian(v, 4) == [v % 256, v / 0x100 % 256, v / 0x1_0000 % 256, v / 0x100_0000 % 256]
    ensures var high := v / SPAN32;
            LittleEndian(high, 4) == [high % 256, high / 0x100 % 256, high / 0x1_0000 % 256, high / 0x100_0000 % 256]
  {
    FourBytes(v);
    FourBytes(v / SPAN32);
    Shifts(v);
    var a, b, c, d := v / 0x100, v / 0x1_0000, v / 0x100_0000, v / SPAN32;
    assert LittleEndian(c, 5) == [c % 256] + LittleEndian(d, 4);
    assert LittleEndian(b, 6) == [b % 256] + LittleEndian(c, 5);
    assert LittleEndian(a, 7) == [a % 256] + LittleEndian(b, 6);
  }

  method EncodeNumberTo(stream: OutputStream, t: LType, x: int) returns (status: Status)
    requires stream.Valid() && Packable(t)
    modifies stream, stream.target
    ensures stream.Valid() && stream.maxSize == old(stream.maxSize) && status != Failed(SizeChanged)
    ensures status.Done? <==> EncodeNumber(t, x).Some? && old(stream.Room(|EncodeNumber(t, x).value|))
    ensures status.Done? ==> stream.Added(old(stream.Output()), old(stream.bytesWritten), EncodeNumber(t, x).value)
  {
    hide Encode, LittleEndian, ZigZag;
    if t.Fixed32? {
      status := EncodeFixed32(stream, x % SPAN32);
    } else if t.Fixed64? {
      status := EncodeFixed64(stream, x % SPAN64);
    } else if !ValidSize(t.size) {
      status := Failed(InvalidDataSize);
    } else {
      status := EncodeVarint(stream, if t.SVarint? then ToU64(ZigZag(x)) else ToU64(x));
    }
  }

  /** The length of a string, counted up to its terminator or the end of its buffer. */
  method MeasureString(b: seq<byte>, max: nat) returns (size: nat)
    ensures size == StringLength(b, max)
  {
    size := 0;
    while size < max && size < |b| && b[size] != 0
      invariant size <= |b| && size <= max
      invariant StringLength(b, max) == size + StringLength(b[size..], max - size)
    {
      assert b[size..][1..] == b[size + 1..];
      size := size + 1;
    }
  }

  method EncodeBlobTo(stream: OutputStream, t: LType, b: seq<byte>) returns (status: Status)
    requires stream.Valid() && (t.Bytes? || t.String? || (t.FixedBytes? && |b| == t.dataSize))
    modifies stream, stream.target
    ensures stream.Valid() && stream.maxSize == old(stream.maxSize) && status != Failed(SizeChanged)
    ensures status.Done? <==> EncodeBlob(t, b).Some? && old(stream.Room(|EncodeBlob(t, b).value|))
    ensures status.Done? ==> stream.Added(old(stream.Output()), old(stream.bytesWritten), EncodeBlob(t, b).value)
  {
    hide Delimited;
    if t.Bytes? && |b| + 1 > t.dataSize {
      return Failed(BytesTooLong);
    }
    if t.String? {
      var size := MeasureString(b, t.dataSize);
      status := EncodeString(stream, b[..size]);
    } else {
      status := EncodeString(stream, b);
    }
  }

  // ----- fields -----

  /** `rest` behind `prefix`. */
  function Behind(prefix: seq<byte>, rest: Option<seq<byte>>): Option<seq<byte>> {
    match rest case None => None case Some(b) => Some(prefix + b)
  }

  lemma BehindNothing(rest: Option<seq<byte>>)
    ensures Behind([], rest) == rest
  {
    assert rest.Some? ==> [] + rest.value == rest.value;
  }

  lemma BehindEnd(prefix: seq<byte>)
    ensures Behind(prefix, Some([])) == Some(prefix)
  {
    assert prefix + [] == prefix;
  }

  lemma FirstItem(field: Field, items: seq<Value>, keyed: bool)
    requires items != []
    ensures var head := if keyed then EncodeKeyed(field, items[0]) else EncodeValue(field.ltype, items[0]);
            EncodeItems(field, items, keyed) ==
            if head.None? then None else Behind(head.value, EncodeItems(field, items[1..], keyed))
  {
    hide EncodeValue, Key;
    var head, rest := EncodeValue(field.ltype, items[0]), EncodeItems(field, items[1..], keyed);
    if head.Some? && rest.Some? {
      assert [] + head.value + rest.value == head.value + rest.value;
    }
  }

  lemma BehindBoth(prefix: seq<byte>, head: seq<byte>, rest: Option<seq<byte>>)
    ensures Behind(prefix, Behind(head, rest)) == Behind(prefix + head, rest)
  {
    assert rest.Some? ==> prefix + (head + rest.value) == prefix + head + rest.value;
  }

  /** A nested message: its size from a sizing pass, then the message itself, kept to that size. The two
      passes always agree. */
  method EncodeSubmessage(stream: OutputStream, fields: seq<Field>, slots: seq<Slot>) returns (status: Status)
    requires stream.Valid() && TypedAll(fields, slots)
    modifies stream, stream.target
    ensures stream.Valid() && stream.maxSize == old(stream.maxSize) && status != Failed(SizeChanged)
    ensures var body := EncodeFrom(fields, slots, 0);
            && (status.Done? <==> body.Some? && old(stream.Room(|Delimited(body.value)|)))
            && (status.Done? ==> stream.Added(old(stream.Output()), old(stream.bytesWritten), Delimited(body.value)))
    decreases fields, 2
  {
    hide Encode, EncodeFrom, TypedAll;
    var substream := new OutputStream.Sizing();
    status := EncodeMessage(substream, fields, slots);
    if status.Failed? {
      return;
    }
    ghost var body := EncodeFrom(fields, slots, 0).value;
    var size := substream.bytesWritten;
    status := EncodeVarint(stream, size % SPAN64);
    if status.Failed? {
      return;
    }
    if stream.target == null {
      stream.Count(size, body);
      return;
    }
    status := EncodeWithin(stream, fields, slots, size);
  }

  /** The second pass, on a substream that is kept to the size of the first. */
  method EncodeWithin(stream: OutputStream, fields: seq<Field>, slots: seq<Slot>, size: nat) returns (status: Status)
    requires stream.Valid() && TypedAll(fields, slots) && stream.target != null
    requires EncodeFrom(fields, slots, 0).Some? && |EncodeFrom(fields, slots, 0).value| == size
    modifies stream, stream.target
    ensures stream.Valid() && stream.maxSize == old(stream.maxSize)
    ensures status == if old(stream.Room(size)) then Done else Failed(StreamFull)
    ensures status.Done? ==> stream.Added(old(stream.Output()), old(stream.bytesWritten),
                                          EncodeFrom(fields, slots, 0).value)
    decreases fields, 1
  {
    hide EncodeFrom, TypedAll;
    if stream.bytesWritten + size > stream.maxSize {
      return Failed(StreamFull);
    }
    var substream := new OutputStream.FromBuffer(stream.target, stream.state, size);
    status := EncodeMessage(substream, fields, slots);
    stream.bytesWritten := stream.bytesWritten + substream.bytesWritten;
    stream.state := substream.state;
    if substream.bytesWritten != size {
      return Failed(SizeChanged);
    }
  }

  method EncodeValueTo(stream: OutputStream, field: Field, v: Value) returns (status: Status)
    requires stream.Valid() && Typed(field, v)
    modifies stream, stream.target
    ensures stream.Valid() && stream.maxSize == old(stream.maxSize) && status != Failed(SizeChanged)
    ensures var b := EncodeValue(field.ltype, v);
            && (status.Done? <==> b.Some? && old(stream.Room(|b.value|)))
            && (status.Done? ==> stream.Added(old(stream.Output()), old(stream.bytesWritten), b.value))
    decreases field, 0
  {
    hide EncodeNumber, EncodeBlob, EncodeFrom, Delimited, TypedAll;
    match v
    case Number(x) => status := EncodeNumberTo(stream, field.ltype, x);
    case Blob(b) => status := EncodeBlobTo(stream, field.ltype, b);
    case Message(slots) => status := EncodeSubmessage(stream, field.ltype.fields, slots);
  }

  /** One value after its key. */
  method EncodeKeyedTo(stream: OutputStream, field: Field, v: Value) returns (status: Status)
    requires stream.Valid() && Typed(field, v)
    modifies stream, stream.target
    ensures stream.Valid() && stream.maxSize == old(stream.maxSize) && status != Failed(SizeChanged)
    ensures var b := EncodeKeyed(field, v);
            && (status.Done? <==> b.Some? && old(stream.Room(|b.value|)))
            && (status.Done? ==> stream.Added(old(stream.Output()), old(stream.bytesWritten), b.value))
    decreases field, 1
  {
    hide EncodeValue, Key, Typed;
    status := EncodeTag(stream, WireType(field.ltype), field.tag);
    if status.Done? {
      status := EncodeValueTo(stream, field, v);
    }
  }

  /** The items of an array, each after its key if `keyed`. */
  method EncodeItemsTo(stream: OutputStream, field: Field, items: seq<Value>, keyed: bool) returns (status: Status)
    requires stream.Valid() && forall k | 0 <= k < |items| :: Typed(field, items[k])
    modifies stream, stream.target
    ensures stream.Valid() && stream.maxSize == old(stream.maxSize) && status != Failed(SizeChanged)
    ensures var b := EncodeItems(field, items, keyed);
            && (status.Done? <==> b.Some? && old(stream.Room(|b.value|)))
            && (status.Done? ==> stream.Added(old(stream.Output()), old(stream.bytesWritten), b.value))
    decreases field, 2
  {
    hide EncodeValue, EncodeKeyed, EncodeItems, Typed;
    ghost var prefix: seq<byte> := [];
    BehindNothing(EncodeItems(field, items, keyed));
    assert items[0..] == items;
    for i := 0 to |items|
      invariant stream.Valid() && stream.maxSize == old(stream.maxSize)
      invariant stream.Added(old(stream.Output()), old(stream.bytesWritten), prefix)
      invariant EncodeItems(field, items, keyed) == Behind(prefix, EncodeItems(field, items[i..], keyed))
    {
      assert items[i..][1..] == items[i + 1..];
      ghost var rest := EncodeItems(field, items[i + 1..], keyed);
      FirstItem(field, items[i..], keyed);
      if keyed {
        status := EncodeKeyedTo(stream, field, items[i]);
        if status.Failed? {
          return;
        }
        BehindBoth(prefix, EncodeKeyed(field, items[i]).value, rest);
        prefix := prefix + EncodeKeyed(field, items[i]).value;
      } else {
        status := EncodeValueTo(stream, field, items[i]);
        if status.Failed? {
          return;
        }
        BehindBoth(prefix, EncodeValue(field.ltype, items[i]).value, rest);
        prefix := prefix + EncodeValue(field.ltype, items[i]).value;
      }
    }
    NoItems(field, items[|items|..], keyed);
    BehindEnd(prefix);
    status := Done;
  }

  lemma NoItems(field: Field, items: seq<Value>, keyed: bool)
    requires items == []
    ensures EncodeItems(field, items, keyed) == Some([])
  {
  }

  /** The size of the items of a packed array: a fixed one each, or what a sizing stream counts. */
  method PackedSize(field: Field, items: seq<Value>) returns (status: Status, size: nat)
    requires Packable(field.ltype) && forall k | 0 <= k < |items| :: Typed(field, items[k])
    ensures status != Failed(SizeChanged)
    ensures var b := EncodeItems(field, items, false);
            (status.Done? <==> b.Some?) && (status.Done? ==> size == |b.value|)
    decreases field, 3
  {
    hide EncodeItems, Typed;
    size := 0;
    if field.ltype.Fixed32? {
      FixedSize(field, items, 4);
      return Done, 4 * |items|;
    }
    if field.ltype.Fixed64? {
      FixedSize(field, items, 8);
      return Done, 8 * |items|;
    }
    var sizeStream := new OutputStream.Sizing();
    status := EncodeItemsTo(sizeStream, field, items, false);
    size := sizeStream.bytesWritten;
  }

  lemma {:induction false} FixedSize(field: Field, items: seq<Value>, width: nat)
    requires (field.ltype.Fixed32? && width == 4) || (field.ltype.Fixed64? && width == 8)
    requires forall k | 0 <= k < |items| :: Typed(field, items[k])
    ensures EncodeItems(field, items, false).Some? && |EncodeItems(field, items, false).value| == width * |items|
  {
    if items != [] {
      assert Typed(field, items[0]);
      FixedSize(field, items[1..], width);
    }
  }

  method EncodeArrayTo(stream: OutputStream, field: Field, items: seq<Value>) returns (status: Status)
    requires stream.Valid() && field.htype.Repeated? && forall k | 0 <= k < |items| :: Typed(field, items[k])
    modifies stream, stream.target
    ensures stream.Valid() && stream.maxSize == old(stream.maxSize) && status != Failed(SizeChanged)
    ensures var b := EncodeArray(field, items);
            && (status.Done? <==> b.Some? && old(stream.Room(|b.value|)))
            && (status.Done? ==> stream.Added(old(stream.Output()), old(stream.bytesWritten), b.value))
    decreases field, 4
  {
    hide EncodeItems, Key, Typed, Encode;
    if |items| == 0 {
      return Done;
    }
    if |items| > field.htype.arraySize {
      return Failed(ArrayTooLong);
    }
    if !Packable(field.ltype) {
      status := EncodeItemsTo(stream, field, items, true);
      return;
    }
    status := EncodeTag(stream, WT_STRING, field.tag);
    if status.Failed? {
      return;
    }
    var size;
    status, size := PackedSize(field, items);
    if status.Failed? {
      return;
    }
    status := EncodeVarint(stream, size % SPAN64);
    if status.Failed? {
      return;
    }
    if stream.target == null {
      stream.Count(size, EncodeItems(field, items, false).value);
      return;
    }
    status := EncodeItemsTo(stream, field, items, false);
  }

  method EncodeFieldTo(stream: OutputStream, fields: seq<Field>, i: nat, slot: Slot) returns (status: Status)
    requires stream.Valid() && i < |fields| && TypedSlot(fields, i, slot)
    modifies stream, stream.target
    ensures stream.Valid() && stream.maxSize == old(stream.maxSize) && status != Failed(SizeChanged)
    ensures var b := EncodeField(fields[i], slot);
            && (status.Done? <==> b.Some? && old(stream.Room(|b.value|)))
            && (status.Done? ==> stream.Added(old(stream.Output()), old(stream.bytesWritten), b.value))
    decreases fields[i], 5
  {
    hide EncodeArray, EncodeKeyed, Typed;
    status := Done;
    match slot
    case Single(v) => status := EncodeKeyedTo(stream, fields[i], v);
    case Maybe(has, v) =>
      if has {
        status := EncodeKeyedTo(stream, fields[i], v);
      }
    case Many(items) => status := EncodeArrayTo(stream, fields[i], items);
    case Choice(which, v) =>
      if which == fields[i].tag {
        status := EncodeKeyedTo(stream, fields[i], v);
      }
  }

  /** Encodes a message. It succeeds exactly when the values can be encoded and the bytes are within the
      stream's limit, and then has written exactly the encoding; a sizing stream counts the same number. */
  method EncodeMessage(stream: OutputStream, fields: seq<Field>, slots: seq<Slot>) returns (status: Status)
    requires stream.Valid() && TypedAll(fields, slots)
    modifies stream, stream.target
    ensures stream.Valid() && stream.maxSize == old(stream.maxSize) && status != Failed(SizeChanged)
    ensures var b := EncodeFrom(fields, slots, 0);
            && (status.Done? <==> b.Some? && old(stream.Room(|b.value|)))
            && (status.Done? ==> stream.Added(old(stream.Output()), old(stream.bytesWritten), b.value))
    decreases fields, 0
  {
    hide EncodeField, TypedSlot, FieldIter.Valid, OutputStream.Output;
    var iter := new FieldIter(fields, 0);
    if fields == [] {
      return Done;
    }
    ghost var prefix: seq<byte> := [];
    BehindNothing(EncodeFrom(fields, slots, 0));
    var more := true;
    while more
      invariant stream.Valid() && stream.maxSize == old(stream.maxSize)
      invariant iter.Valid() && iter.fields == fields && fresh(iter)
      invariant stream.Added(old(stream.Output()), old(stream.bytesWritten), prefix)
      invariant more ==>
                  && iter.pos < |fields|
                  && EncodeFrom(fields, slots, 0) == Behind(prefix, EncodeFrom(fields, slots, iter.pos))
      invariant !more ==> EncodeFrom(fields, slots, 0) == Some(prefix)
      decreases if more then |fields| - iter.pos else 0
    {
      var i := iter.pos;
      var slot := slots[Home(fields, i)];
      status := EncodeFieldTo(stream, fields, i, slot);
      if status.Failed? {
        return;
      }
      BehindBoth(prefix, EncodeField(fields[i], slot).value, EncodeFrom(fields, slots, i + 1));
      prefix := prefix + EncodeField(fields[i], slot).value;
      more := iter.Next();
      BehindEnd(prefix);
    }
    status := Done;
  }

  /** The size of a message's encoding. */
  method GetEncodedSize(fields: seq<Field>, slots: seq<Slot>) returns (status: Status, size: nat)
    requires TypedAll(fields, slots)
    ensures var b := EncodeFrom(fields, slots, 0); (status.Done? <==> b.Some?) && (status.Done? ==> size == |b.value|)
  {
    var stream := new OutputStream.Sizing();
    status := EncodeMessage(stream, fields, slots);
    size := stream.bytesWritten;
  }
}
