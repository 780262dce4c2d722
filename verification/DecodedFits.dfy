/** Whatever decodes has the form of its schema: numbers in the range of their fields, byte strings within
    their buffers, arrays within their capacity, unions with a member of their own. */
module DecodedFits {
  import opened Basics
  import opened BigEndian
  import opened Varints
  import opened Messages
  import opened InitialState
  import opened RoundTrip

  /** The bytes lie within the buffer and their length within its counter; a string leaves room for its
      terminator. */
  predicate BlobHeld(t: LType, b: seq<byte>) {
    match t
    case Bytes(dataSize) => |b| <= 0xff && |b| < dataSize
    case String(dataSize) => |b| < dataSize
    case FixedBytes(dataSize) => |b| == dataSize
    case _ => false
  }

  ghost predicate Held(field: Field, v: Value)
    decreases field, 0
  {
    match v
    case Number(x) => NumberFits(field.ltype, x)
    case Blob(b) => BlobHeld(field.ltype, b)
    case Message(slots) => field.ltype.Submessage? && HeldAll(field.ltype.fields, slots)
  }

  /** Something that fits was stored, or nothing was. */
  ghost predicate Kept(field: Field, v: Value)
    decreases field, 1
  {
    Held(field, v) || ValueAtDefault(field, v)
  }

  ghost predicate HeldSlot(fields: seq<Field>, h: nat, slot: Slot)
    requires h < |fields|
    decreases fields, 0
  {
    var field := fields[h];
    match slot
    case Single(v) => field.htype.Required? && Kept(field, v)
    case Maybe(has, v) => field.htype.Optional? && Kept(field, v) && (has ==> Held(field, v))
    case Many(items) =>
      && field.htype.Repeated? && |items| <= field.htype.arraySize
      && forall k | 0 <= k < |items| :: Held(field, items[k])
    case Choice(which, v) =>
      && field.htype.OneOf? && !JoinsPrevious(fields, h)
      && (which == 0 || (Member(fields, h, which).Some? && Held(fields[Member(fields, h, which).value], v)))
    case Joined => JoinsPrevious(fields, h)
  }

  ghost predicate HeldAll(fields: seq<Field>, slots: seq<Slot>)
    decreases fields, 1
  {
    |slots| == |fields| && forall h | 0 <= h < |fields| :: HeldSlot(fields, h, slots[h])
  }

  /** The required fields in `seen` hold values that arrived. */
  ghost predicate SeenHeld(fields: seq<Field>, slots: seq<Slot>, seen: set<nat>) {
    && |slots| == |fields|
    && forall i <- seen ::
         i < |fields| && fields[i].htype.Required? && slots[i].Single? && Held(fields[i], slots[i].value)
  }

  // ----- numbers and byte strings -----

  lemma {:induction false} LowBitsBound(u: nat, bits: nat)
    requires bits > 0
    ensures var half: int := Pow2(bits - 1); -half <= Signed(u, bits) < half
  {
  }

  lemma NarrowedFits(t: LType, u: nat)
    requires u < SPAN64 && Narrowed(t, u).Some?
    ensures NumberFits(t, Narrowed(t, u).value)
  {
    hide Pow2, Signed, UnZigZag, ToU64;
    if t.UVarint? {
    } else {
      LowBitsBound(ToU64(Narrowed(t, u).value), 8 * t.size);
    }
  }

  lemma {:induction false} LittleEndianBound(s: seq<byte>)
    ensures LittleEndianValue(s) < Power256(|s|)
  {
    if s != [] {
      LittleEndianBound(s[1..]);
    }
  }

  lemma DecodedNumber(t: LType, s: seq<byte>)
    requires Packable(t) && DecodeNumber(t, s).Some?
    ensures DecodeNumber(t, s).value.0.Number? && NumberFits(t, DecodeNumber(t, s).value.0.v)
  {
    hide Narrowed, Decode64, LittleEndianValue, Pow2;
    assert Power256(4) == SPAN32;
    assert Power256(8) == SPAN64;
    if t.Fixed32? {
      LittleEndianBound(s[..4]);
    } else if t.Fixed64? {
      LittleEndianBound(s[..8]);
    } else {
      NarrowedFits(t, Decode64(s).value.0);
    }
  }

  lemma DecodedBlob(t: LType, s: seq<byte>)
    requires !Packable(t) && !t.Submessage? && DecodeBlob(t, s).Some?
    ensures DecodeBlob(t, s).value.0.Blob? && BlobHeld(t, DecodeBlob(t, s).value.0.bytes)
  {
    hide Decode32;
  }

  // ----- structures -----

  lemma DefaultSlotIsHeld(fields: seq<Field>, h: nat, slot: Slot)
    requires h < |fields| && SlotAtDefault(fields, h, slot)
    ensures HeldSlot(fields, h, slot)
  {
    hide ValueAtDefault, Held;
  }

  lemma {:induction false} DefaultsAreHeld(fields: seq<Field>, slots: seq<Slot>)
    requires AllAtDefault(fields, slots)
    ensures HeldAll(fields, slots)
  {
    hide FieldAtDefault, HeldSlot;
    forall h | 0 <= h < |fields| ensures HeldSlot(fields, h, slots[h]) {
      assert SlotAtDefault(fields, h, slots[h]);
      DefaultSlotIsHeld(fields, h, slots[h]);
    }
  }

  /** A value decoded over what the structure held before, or over the default, is one of the field's. */
  lemma {:induction false} DecodedValue(field: Field, base: Value, s: seq<byte>)
    requires Kept(field, base) && DecodeValue(field.ltype, base, s).Some?
    ensures Held(field, DecodeValue(field.ltype, base, s).value.0)
    decreases field, 0
  {
    hide NumberFits, BlobHeld, DecodeNumber, DecodeBlob, Split, DecodeNoInit, HeldAll, AllAtDefault;
    var t := field.ltype;
    if Packable(t) {
      DecodedNumber(t, s);
    } else if !t.Submessage? {
      DecodedBlob(t, s);
    } else {
      if !Held(field, base) {
        DefaultsAreHeld(t.fields, base.slots);
      }
      DecodedMessage(t.fields, base.slots, Split(s).value.0);
    }
  }

  lemma {:induction false} DecodedPacked(field: Field, arraySize: nat, items: seq<Value>, s: seq<byte>)
    requires Packable(field.ltype) && |items| <= arraySize && forall k | 0 <= k < |items| :: Held(field, items[k])
    requires DecodePacked(field.ltype, arraySize, items, s).Some?
    ensures var all := DecodePacked(field.ltype, arraySize, items, s).value;
            |all| <= arraySize && forall k | 0 <= k < |all| :: Held(field, all[k])
    decreases |s|
  {
    hide DecodeNumber, NumberFits, BlobHeld;
    if s != [] {
      DecodedNumber(field.ltype, s);
      var (v, rest) := DecodeNumber(field.ltype, s).value;
      DecodedPacked(field, arraySize, items + [v], rest);
    }
  }

  lemma DefaultIsKept(field: Field)
    ensures Kept(field, DefaultValue(field))
  {
    DefaultValueIsDefault(field);
  }

  /** The field that a key names, decoded into its slot, leaves there what the slot may hold. */
  lemma {:induction false} DecodedField(fields: seq<Field>, i: nat, wire: nat, slot: Slot, s: seq<byte>)
    requires i < |fields| && Find(fields, fields[i].tag) == Some(i)
    requires HeldSlot(fields, Home(fields, i), slot) && DecodeField(fields[i], wire, slot, s).Some?
    ensures HeldSlot(fields, Home(fields, i), DecodeField(fields[i], wire, slot, s).value.0)
    ensures fields[i].htype.Required? ==> var after := DecodeField(fields[i], wire, slot, s).value.0;
                                          after.Single? && Held(fields[i], after.value)
    decreases fields[i], 1
  {
    hide Held, ValueAtDefault, DecodeValue, DecodePacked, DefaultValue, Split, Find, Home;
    var field := fields[i];
    HomeIsFirst(fields, i);
    DefaultIsKept(field);
    match field.htype
    case Required => DecodedValue(field, slot.value, s);
    case Optional => DecodedValue(field, slot.value, s);
    case Repeated(arraySize) =>
      if wire == WT_STRING && Packable(field.ltype) {
        DecodedPacked(field, arraySize, slot.items, Split(s).value.0);
      } else {
        DecodedValue(field, DefaultValue(field), s);
      }
    case OneOf => DecodedValue(field, DefaultValue(field), s);
  }

  lemma {:induction false} DecodedTurn(fields: seq<Field>, slots: seq<Slot>, seen: set<nat>, s: seq<byte>)
    requires HeldAll(fields, slots) && SeenHeld(fields, slots, seen) && DecodeOne(fields, slots, seen, s).Next?
    ensures var turn := DecodeOne(fields, slots, seen, s);
            HeldAll(fields, turn.slots) && SeenHeld(fields, turn.slots, turn.seen)
    decreases fields, 0
  {
    hide Decode32, Skip, Home, DecodeField, HeldSlot, Held;
    var (key, rest) := Decode32(s).value;
    match Find(fields, key / 8)
    case None =>
    case Some(i) =>
      HomeIsFirst(fields, i);
      DecodedField(fields, i, key % 8, slots[Home(fields, i)], rest);
  }

  lemma HeldLength(fields: seq<Field>, slots: seq<Slot>)
    requires HeldAll(fields, slots)
    ensures |slots| == |fields|
  {
  }

  lemma {:induction false} DecodedLoop(fields: seq<Field>, slots: seq<Slot>, seen: set<nat>, s: seq<byte>)
    requires HeldAll(fields, slots) && SeenHeld(fields, slots, seen) && DecodeLoop(fields, slots, seen, s).Some?
    ensures var (after, met, _) := DecodeLoop(fields, slots, seen, s).value;
            HeldAll(fields, after) && SeenHeld(fields, after, met)
    decreases fields, 1, |s|
  {
    hide HeldAll, SeenHeld, DecodeOne;
    assert |slots| == |fields| by { HeldLength(fields, slots); }
    if s != [] {
      var turn := DecodeOne(fields, slots, seen, s);
      if turn.Next? {
        DecodedTurn(fields, slots, seen, s);
        DecodedLoop(fields, turn.slots, turn.seen, turn.rest);
      }
    }
  }

  /** Whatever is read into a structure, of any schema and from any bytes, leaves it within its bounds, and
      the first required fields hold what was read. */
  lemma {:induction false} DecodedMessage(fields: seq<Field>, base: seq<Slot>, s: seq<byte>)
    requires HeldAll(fields, base) && DecodeNoInit(fields, base, s).Some?
    ensures var slots := DecodeNoInit(fields, base, s).value;
            && HeldAll(fields, slots)
            && forall i | 0 <= i < |fields| && fields[i].htype.Required? && RequiredBefore(fields, i) < 64 ::
                 slots[i].Single? && Held(fields[i], slots[i].value)
    decreases fields, 2
  {
    hide HeldAll, DecodeLoop;
    DecodedLoop(fields, base, {}, s);
  }

  /** The same for decoding over the defaults. */
  lemma DecodedFits(fields: seq<Field>, s: seq<byte>)
    requires Decode(fields, s).Some?
    ensures var slots := Decode(fields, s).value;
            && HeldAll(fields, slots)
            && forall i | 0 <= i < |fields| && fields[i].htype.Required? && RequiredBefore(fields, i) < 64 ::
                 slots[i].Single? && Held(fields[i], slots[i].value)
  {
    hide HeldAll, AllAtDefault, DecodeNoInit;
    DefaultsAreDefault(fields);
    DefaultsAreHeld(fields, Defaults(fields, |fields|));
    DecodedMessage(fields, Defaults(fields, |fields|), s);
  }
}
