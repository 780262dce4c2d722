/** The encoder and the decoder together: through any buffer that is large enough, and through no other,
    every message comes back. */
module Codec {
  import opened BigEndian
  import opened Varints
  import opened Messages
  import opened RoundTrip
  import opened Streams
  import opened Encoder
  import opened Decoder

  lemma {:induction false} FitsIsTypedValue(field: Field, v: Value)
    requires WellFormedField(field) && Fits(field, v)
    ensures Typed(field, v)
    decreases field, 0
  {
    hide FitsAll, TypedAll, WellFormedSchema;
    if v.Message? {
      FitsIsTyped(field.ltype.fields, v.slots);
    }
  }

  lemma {:induction false} FitsIsTypedSlot(fields: seq<Field>, slots: seq<Slot>, i: nat)
    requires WellFormedSchema(fields) && FitsAll(fields, slots) && i < |fields|
    ensures TypedSlot(fields, i, slots[Home(fields, i)])
    decreases fields, 0
  {
    hide Fits, Typed, Find, Home, WellFormedField;
    var h, field := Home(fields, i), fields[i];
    HomeIsFirst(fields, i);
    WellFormedHas(fields, i);
    assert SlotFits(fields, h, slots[h]);
    match slots[h]
    case Single(v) => FitsIsTypedValue(field, v);
    case Maybe(has, v) => if has { FitsIsTypedValue(field, v); }
    case Many(items) =>
      forall k | 0 <= k < |items| ensures Typed(field, items[k]) {
        FitsIsTypedValue(field, items[k]);
      }
    case Choice(which, v) =>
      FindsField(fields, i);
      if which == field.tag { FitsIsTypedValue(field, v); }
    case Joined =>
  }

  lemma {:induction false} FitsIsTyped(fields: seq<Field>, slots: seq<Slot>)
    requires WellFormedSchema(fields) && FitsAll(fields, slots)
    ensures TypedAll(fields, slots)
    decreases fields, 1
  {
    hide TypedSlot, SlotFits, WellFormedSchema;
    forall i | 0 <= i < |fields| ensures TypedSlot(fields, i, slots[Home(fields, i)]) {
      FitsIsTypedSlot(fields, slots, i);
    }
  }

  /** Encodes a message into a buffer and decodes it from there. Encoding succeeds exactly when the size
      that a sizing pass counts is within the buffer; then decoding succeeds and gives the message back. */
  method ThroughBuffer(fields: seq<Field>, slots: seq<Slot>, buffer: array<byte>)
    returns (size: nat, status: Status, ok: bool, decoded: seq<Slot>)
    requires WellFormedSchema(fields) && FitsAll(fields, slots) && buffer.Length < SPAN32
    modifies buffer
    ensures EncodeFrom(fields, slots, 0).Some? && size == |EncodeFrom(fields, slots, 0).value|
    ensures status.Done? <==> size <= buffer.Length
    ensures status.Done? ==> ok && buffer[..size] == EncodeFrom(fields, slots, 0).value
    ensures status.Done? ==> decoded == Canonical(fields, slots, |fields|) && SameMessage(fields, slots, decoded)
  {
    hide FitsAll, TypedAll, WellFormedSchema, EncodeFrom, Canonical, DecodeNoInit, DecodeLoop, SameMessage;
    FitsIsTyped(fields, slots);
    DecodeOfEncode(fields, slots);
    var sized;
    sized, size := GetEncodedSize(fields, slots);
    var output := new OutputStream.FromBuffer(buffer, 0, buffer.Length);
    status := EncodeMessage(output, fields, slots);
    ok, decoded := false, [];
    if status.Done? {
      assert output.Output() == EncodeFrom(fields, slots, 0).value;
      var input := new InputStream(buffer[..], 0, output.bytesWritten);
      ok, decoded := DecodeMessage(input, fields);
    }
  }
}
