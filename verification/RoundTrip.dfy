/** Decoding undoes encoding, for every schema and every message that fits it. */
module RoundTrip {
  import opened Basics
  import opened BigEndian
  import opened Varints
  import opened Messages
  import opened InitialState

  // ----- schemas and messages -----

  /** Tags are positive, fit a key and differ; nested schemas likewise. */
  ghost predicate WellFormedSchema(fields: seq<Field>)
    decreases fields, 0
  {
    && (forall i | 0 <= i < |fields| :: 1 <= fields[i].tag < 0x2000_0000)
    && (forall i, j | 0 <= i < j < |fields| :: fields[i].tag != fields[j].tag)
    && (forall i | 0 <= i < |fields| :: WellFormedField(fields[i]))
  }

  ghost predicate WellFormedField(field: Field)
    decreases field, 1
  {
    field.ltype.Submessage? ==> WellFormedSchema(field.ltype.fields)
  }

  /** `x` fits a signed integer of `size` bytes. */
  predicate SignedFits(x: int, size: nat) {
    && size in {1, 2, 4, 8}
    && var half: int := Pow2(8 * size - 1);
       -half <= x < half
  }

  /** The number is one the field's integer type can hold. */
  predicate NumberFits(t: LType, x: int) {
    match t
    case Varint(size) => SignedFits(x, size)
    case UVarint(size) => size in {1, 2, 4, 8} && 0 <= x < Pow2(8 * size)
    case SVarint(size) => SignedFits(x, size)
    case Fixed32 => 0 <= x < SPAN32
    case Fixed64 => 0 <= x < SPAN64
    case _ => false
  }

  /** The bytes fit the buffer; a string leaves room for its terminator and has no zero inside. */
  predicate BlobFits(t: LType, b: seq<byte>) {
    match t
    case Bytes(dataSize) => |b| <= 255 && |b| + 1 <= dataSize
    case String(dataSize) => |b| < dataSize && forall i | 0 <= i < |b| :: b[i] != 0
    case FixedBytes(dataSize) => |b| == dataSize <= 255
    case _ => false
  }

  ghost predicate Fits(field: Field, v: Value)
    decreases field, 0
  {
    match v
    case Number(x) => NumberFits(field.ltype, x)
    case Blob(b) => BlobFits(field.ltype, b)
    case Message(slots) => field.ltype.Submessage? && FitsAll(field.ltype.fields, slots)
  }

  /** The field whose value a union holds: a member of the union with the chosen tag. */
  function Member(fields: seq<Field>, h: nat, which: nat): (j: Option<nat>)
    ensures j.Some? ==> j.value < |fields| && fields[j.value].tag == which && fields[j.value].htype.OneOf?
    ensures j.Some? ==> Home(fields, j.value) == h
  {
    match Find(fields, which)
    case None => None
    case Some(j) => if fields[j].htype.OneOf? && Home(fields, j) == h then Some(j) else None
  }

  ghost predicate SlotFits(fields: seq<Field>, h: nat, slot: Slot)
    requires h < |fields|
    decreases fields, 0
  {
    var field := fields[h];
    match slot
    case Single(v) => field.htype.Required? && Fits(field, v)
    case Maybe(has, v) => field.htype.Optional? && (has ==> Fits(field, v))
    case Many(items) =>
      && field.htype.Repeated? && |items| <= field.htype.arraySize
      && forall k | 0 <= k < |items| :: Fits(field, items[k])
    case Choice(which, v) =>
      && field.htype.OneOf? && !JoinsPrevious(fields, h)
      && (which == 0 || (Member(fields, h, which).Some? && Fits(fields[Member(fields, h, which).value], v)))
    case Joined => JoinsPrevious(fields, h)
  }

  ghost predicate FitsAll(fields: seq<Field>, slots: seq<Slot>)
    decreases fields, 1
  {
    |slots| == |fields| && forall h | 0 <= h < |fields| :: SlotFits(fields, h, slots[h])
  }

  // ----- what comes back: the same message, with absent fields at their defaults -----

  ghost function CanonicalValue(field: Field, v: Value): Value
    decreases field, 0
  {
    if field.ltype.Submessage? && v.Message? then
      Message(Canonical(field.ltype.fields, v.slots, |field.ltype.fields|))
    else v
  }

  ghost function CanonicalItems(field: Field, items: seq<Value>): (result: seq<Value>)
    ensures |result| == |items|
    decreases field, 1
  {
    seq(|items|, k requires 0 <= k < |items| => CanonicalValue(field, items[k]))
  }

  /** What slot `h` holds once the fields before `i` have arrived. */
  ghost function Arrived(fields: seq<Field>, slots: seq<Slot>, i: nat, h: nat): Slot
    requires |slots| == |fields| && h < |fields|
    decreases fields, 0
  {
    var field := fields[h];
    if JoinsPrevious(fields, h) then Joined
    else match slots[h]
      case Single(v) => if h < i then Single(CanonicalValue(field, v)) else DefaultSlot(field)
      case Maybe(has, v) => if h < i && has then Maybe(true, CanonicalValue(field, v)) else DefaultSlot(field)
      case Many(items) => if h < i then Many(CanonicalItems(field, items)) else DefaultSlot(field)
      case Choice(which, v) =>
        var j := Member(fields, h, which);
        if j.Some? && j.value < i then Choice(which, CanonicalValue(fields[j.value], v)) else DefaultSlot(field)
      case Joined => Joined
  }

  /** The structure once the fields before `i` have arrived. */
  ghost function Canonical(fields: seq<Field>, slots: seq<Slot>, i: nat): (result: seq<Slot>)
    ensures |result| == |fields|
    decreases fields, 1
  {
    if |slots| != |fields| then Defaults(fields, |fields|)
    else seq(|fields|, h requires 0 <= h < |fields| => Arrived(fields, slots, i, h))
  }

  ghost function RequiredSet(fields: seq<Field>, i: nat): (s: set<nat>)
    requires i <= |fields|
    ensures forall k :: k in s <==> 0 <= k < i && fields[k].htype.Required?
  {
    if i == 0 then {} else RequiredSet(fields, i - 1) + if fields[i - 1].htype.Required? then {i - 1} else {}
  }

  // ----- numbers -----

  /** The low bits of the 64-bit pattern give the number back. */
  lemma SignedOfToU64(x: int, size: nat)
    requires SignedFits(x, size)
    ensures Signed(ToU64(x), 8 * size) == x
    ensures size < 8 ==> Signed(ToU64(x), 32) == x
  {
    hide Pow2;
    Powers();
    Pow2Of64();
    if x < 0 {
      assert ToU64(x) == x + SPAN64;
    }
  }

  lemma Powers()
    ensures Pow2(7) == 0x80 && Pow2(8) == 0x100 && Pow2(15) == 0x8000 && Pow2(16) == 0x1_0000
  {
    assert Pow2(4) == 16;
    assert Pow2(8) == 256;
    assert Pow2(12) == 0x1000;
  }

  /** The 64-bit number that the encoding of `x` carries. */
  function Carried(t: LType, x: int): nat {
    if t.SVarint? then ToU64(ZigZag(x)) else ToU64(x)
  }

  lemma NarrowedOfCarried(t: LType, x: int)
    requires NumberFits(t, x) && !t.Fixed32? && !t.Fixed64?
    ensures Carried(t, x) < SPAN64 && Narrowed(t, Carried(t, x)) == Some(x)
  {
    hide Pow2, Signed;
    Powers();
    Pow2Of64();
    if t.UVarint? {
    } else {
      SignedOfToU64(x, t.size);
      if t.SVarint? {
        ZigZagRoundTrip(x);
      }
    }
  }

  lemma NumberRoundTrip(t: LType, x: int, rest: seq<byte>)
    requires NumberFits(t, x)
    ensures EncodeNumber(t, x).Some? && DecodeNumber(t, EncodeNumber(t, x).value + rest) == Some((Number(x), rest))
  {
    hide Pow2, Encode, Decode64, Signed, Narrowed, ZigZag, ToU64, LittleEndian, LittleEndianValue;
    if t.Fixed32? {
      FixedRoundTrip(x, 4, rest);
    } else if t.Fixed64? {
      FixedRoundTrip(x, 8, rest);
    } else {
      NarrowedOfCarried(t, x);
      Decode64OfEncode(Carried(t, x), rest);
    }
  }

  lemma FixedRoundTrip(x: nat, k: nat, rest: seq<byte>)
    requires (k == 4 && x < SPAN32) || (k == 8 && x < SPAN64)
    ensures var s := LittleEndian(x, k) + rest; LittleEndianValue(s[..k]) == x && s[k..] == rest
  {
    hide LittleEndian, LittleEndianValue;
    assert Power256(4) == SPAN32;
    assert Power256(8) == SPAN64;
    LittleEndianRoundTrip(x, k);
    assert (LittleEndian(x, k) + rest)[..k] == LittleEndian(x, k);
  }

  // ----- byte strings -----

  lemma SplitOfDelimited(body: seq<byte>, rest: seq<byte>)
    requires |body| < SPAN32
    ensures Split(Delimited(body) + rest) == Some((body, rest))
    ensures Decode32(Delimited(body) + rest) == Some((|body|, body + rest))
  {
    hide Encode, Decode32;
    assert Delimited(body) + rest == Encode(|body|) + (body + rest);
    Decode32OfEncode(|body|, body + rest);
    assert (body + rest)[..|body|] == body && (body + rest)[|body|..] == rest;
  }

  lemma {:induction false} NoZeroLength(b: seq<byte>, max: nat)
    requires |b| <= max && forall i | 0 <= i < |b| :: b[i] != 0
    ensures StringLength(b, max) == |b|
  {
    if b != [] {
      NoZeroLength(b[1..], max - 1);
    }
  }

  lemma BlobRoundTrip(t: LType, b: seq<byte>, rest: seq<byte>)
    requires BlobFits(t, b) && |b| < SPAN32
    ensures EncodeBlob(t, b).Some? && DecodeBlob(t, EncodeBlob(t, b).value + rest) == Some((Blob(b), rest))
  {
    hide Encode, Decode32, Delimited, StringLength;
    if t.String? {
      NoZeroLength(b, t.dataSize);
      assert b[..|b|] == b;
    }
    SplitOfDelimited(b, rest);
    assert (b + rest)[..|b|] == b && (b + rest)[|b|..] == rest;
    if t.FixedBytes? && |b| == 0 {
      assert seq(0, _ => 0 as byte) == b;
      assert b + rest == rest;
    }
  }

  // ----- one field -----

  /** A key decodes to its tag and wire type, and is never taken for the end of the message. */
  lemma KeyDecodes(wire: nat, tag: nat, rest: seq<byte>)
    requires wire < 8 && 1 <= tag < 0x2000_0000
    ensures Decode32(Key(wire, tag) + rest) == Some((8 * tag + wire, rest))
    ensures (8 * tag + wire) / 8 == tag && (8 * tag + wire) % 8 == wire
  {
    hide Encode, Decode32;
    Decode32OfEncode(8 * tag + wire, rest);
  }

  lemma FindsField(fields: seq<Field>, i: nat)
    requires WellFormedSchema(fields) && i < |fields|
    ensures Find(fields, fields[i].tag) == Some(i) && fields[i].tag > 0
  {
  }

  /** A key of the schema followed by what the field decoder takes is one turn of the loop. */
  lemma KeyedTurn(fields: seq<Field>, i: nat, slots: seq<Slot>, seen: set<nat>, wire: nat, s: seq<byte>)
    requires WellFormedSchema(fields) && i < |fields| == |slots| && wire < 8
    requires DecodeField(fields[i], wire, slots[Home(fields, i)], s).Some?
    ensures var (slot, rest) := DecodeField(fields[i], wire, slots[Home(fields, i)], s).value;
            DecodeLoop(fields, slots, seen, Key(wire, fields[i].tag) + s) ==
            DecodeLoop(fields, slots[Home(fields, i) := slot],
                       if fields[i].htype.Required? then seen + {i} else seen, rest)
  {
    hide Decode32, DecodeField, Key, Home;
    var input := Key(wire, fields[i].tag) + s;
    KeyDecodes(wire, fields[i].tag, s);
    FindsField(fields, i);
    assert input != [];
  }

  // ----- lengths: the decoder reads them as 32-bit numbers -----

  ghost predicate Short(b: Option<seq<byte>>) {
    b.Some? && |b.value| < SPAN32
  }

  /** What the length of a value counts, if it has one, is short. */
  ghost predicate ShortValue(t: LType, v: Value) {
    && EncodeValue(t, v).Some?
    && (v.Blob? ==> |v.bytes| < SPAN32)
    && (v.Message? && t.Submessage? ==> Short(EncodeFrom(t.fields, v.slots, 0)))
  }

  ghost predicate ShortItems(field: Field, items: seq<Value>) {
    if Packable(field.ltype) then Short(EncodeItems(field, items, false))
    else EncodeItems(field, items, true).Some? && forall k | 0 <= k < |items| :: ShortValue(field.ltype, items[k])
  }

  ghost predicate ShortField(field: Field, slot: Slot) {
    && EncodeField(field, slot).Some?
    && match slot
       case Single(v) => ShortValue(field.ltype, v)
       case Maybe(has, v) => has ==> ShortValue(field.ltype, v)
       case Many(items) => ShortItems(field, items)
       case Choice(which, v) => which == field.tag ==> ShortValue(field.ltype, v)
       case Joined => true
  }

  /** Every length-delimited part of the fields from `i` on is shorter than 2^32 bytes. */
  ghost predicate ShortParts(fields: seq<Field>, slots: seq<Slot>, i: nat) {
    && EncodeFrom(fields, slots, i).Some?
    && forall k | i <= k < |fields| && k < |slots| :: ShortField(fields[k], slots[Home(fields, k)])
  }

  lemma ShortWholeValue(field: Field, v: Value)
    requires Fits(field, v) && Short(EncodeValue(field.ltype, v))
    ensures ShortValue(field.ltype, v)
  {
    hide FitsAll, EncodeFrom;
    if v.Blob? {
      BlobShort(field.ltype, v.bytes);
    }
  }

  lemma {:induction false} ShortWholeItems(field: Field, items: seq<Value>)
    requires (forall k | 0 <= k < |items| :: Fits(field, items[k])) && Short(EncodeItems(field, items, true))
    ensures forall k | 0 <= k < |items| :: ShortValue(field.ltype, items[k])
    decreases |items|
  {
    hide Fits, EncodeValue, ShortValue;
    if items != [] {
      ShortWholeValue(field, items[0]);
      ShortWholeItems(field, items[1..]);
      assert forall k | 0 < k < |items| :: items[k] == items[1..][k - 1];
    }
  }

  lemma ShortWholeField(fields: seq<Field>, slots: seq<Slot>, i: nat)
    requires WellFormedSchema(fields) && FitsAll(fields, slots) && i < |fields|
    requires Short(EncodeField(fields[i], slots[Home(fields, i)]))
    ensures ShortField(fields[i], slots[Home(fields, i)])
  {
    hide Fits, EncodeValue, ShortValue, EncodeItems, Delimited, Find, Key, Home, WellFormedSchema;
    var h, field := Home(fields, i), fields[i];
    HomeIsFirst(fields, i);
    assert SlotFits(fields, h, slots[h]);
    match slots[h]
    case Single(v) => ShortWholeValue(field, v);
    case Maybe(has, v) => if has { ShortWholeValue(field, v); }
    case Many(items) =>
      if items == [] {
        NoItems(field);
      } else if Packable(field.ltype) {
        DelimitedLonger(EncodeItems(field, items, false).value);
      } else {
        ShortWholeItems(field, items);
      }
    case Choice(which, v) =>
      if which == field.tag {
        FindsField(fields, i);
        ChosenFits(fields, slots, i);
        ShortWholeValue(field, v);
      }
    case Joined =>
  }

  lemma NoItems(field: Field)
    ensures EncodeItems(field, [], true) == EncodeItems(field, [], false) == Some([])
  {
  }

  lemma ChosenFits(fields: seq<Field>, slots: seq<Slot>, i: nat)
    requires FitsAll(fields, slots) && i < |fields|
    requires slots[Home(fields, i)].Choice? && slots[Home(fields, i)].which == fields[i].tag
    requires Find(fields, fields[i].tag) == Some(i) && fields[i].tag > 0
    ensures Fits(fields[i], slots[Home(fields, i)].value)
  {
    hide Fits;
    var h := Home(fields, i);
    assert SlotFits(fields, h, slots[h]);
  }

  /** A message that is short as a whole has only short parts. */
  lemma {:induction false} ShortWhole(fields: seq<Field>, slots: seq<Slot>, i: nat)
    requires WellFormedSchema(fields) && FitsAll(fields, slots) && Short(EncodeFrom(fields, slots, i))
    ensures ShortParts(fields, slots, i)
    decreases |fields| - i
  {
    hide WellFormedSchema, FitsAll, EncodeField, ShortField, Home;
    if i < |fields| {
      ShortWholeField(fields, slots, i);
      ShortWhole(fields, slots, i + 1);
    }
  }

  lemma {:induction false} ValueRoundTrip(field: Field, v: Value, rest: seq<byte>)
    requires WellFormedField(field) && Fits(field, v)
    requires ShortValue(field.ltype, v)
    ensures DecodeValue(field.ltype, DefaultValue(field), EncodeValue(field.ltype, v).value + rest) ==
            Some((CanonicalValue(field, v), rest))
    decreases field, 0
  {
    hide EncodeNumber, DecodeNumber, EncodeBlob, DecodeBlob, Encode, Split, DecodeNoInit, Canonical, FitsAll,
         WellFormedSchema;
    match v
    case Number(x) => NumberRoundTrip(field.ltype, x, rest);
    case Blob(b) =>
      BlobRoundTrip(field.ltype, b, rest);
    case Message(slots) =>
      var fields := field.ltype.fields;
      var body := EncodeFrom(fields, slots, 0).value;
      SplitOfDelimited(body, rest);
      ShortWhole(fields, slots, 0);
      MessageRoundTrip(fields, slots);
  }

  lemma BlobShort(t: LType, b: seq<byte>)
    requires BlobFits(t, b) && Short(EncodeBlob(t, b))
    ensures |b| < SPAN32
  {
    if t.String? {
      NoZeroLength(b, t.dataSize);
    }
  }

  /** Decoding what was encoded gives the message back, over the defaults. */
  lemma {:induction false} MessageRoundTrip(fields: seq<Field>, slots: seq<Slot>)
    requires WellFormedSchema(fields) && FitsAll(fields, slots) && ShortParts(fields, slots, 0)
    ensures DecodeNoInit(fields, Defaults(fields, |fields|), EncodeFrom(fields, slots, 0).value) ==
            Some(Canonical(fields, slots, |fields|))
    decreases fields, |fields| + 1
  {
    hide WellFormedSchema, FitsAll, EncodeFrom, DecodeLoop;
    StartsAtDefaults(fields, slots);
    LoopRoundTrip(fields, slots, 0);
  }

  lemma StartsAtDefaults(fields: seq<Field>, slots: seq<Slot>)
    requires FitsAll(fields, slots)
    ensures Canonical(fields, slots, 0) == Defaults(fields, |fields|)
  {
    forall h | 0 <= h < |fields| ensures Arrived(fields, slots, 0, h) == Defaults(fields, |fields|)[h] {
      DefaultsAt(fields, |fields|, h);
      assert SlotFits(fields, h, slots[h]);
    }
  }

  /** From the state after `i` fields, the encoding of the others leads to the whole message. */
  lemma {:induction false} LoopRoundTrip(fields: seq<Field>, slots: seq<Slot>, i: nat)
    requires WellFormedSchema(fields) && FitsAll(fields, slots) && i <= |fields| && ShortParts(fields, slots, i)
    ensures DecodeLoop(fields, Canonical(fields, slots, i), RequiredSet(fields, i),
                       EncodeFrom(fields, slots, i).value) ==
            Some((Canonical(fields, slots, |fields|), RequiredSet(fields, |fields|), []))
    decreases fields, |fields| - i
  {
    hide WellFormedSchema, FitsAll, EncodeField, DecodeOne, Canonical;
    if i < |fields| {
      var head := EncodeField(fields[i], slots[Home(fields, i)]).value;
      var rest := EncodeFrom(fields, slots, i + 1).value;
      LoopRoundTrip(fields, slots, i + 1);
      FieldRoundTrip(fields, slots, i, rest);
    }
  }

  lemma {:induction false} HomeIsFirst(fields: seq<Field>, i: nat)
    requires i < |fields|
    ensures !JoinsPrevious(fields, Home(fields, i))
    ensures Home(fields, i) != i ==> fields[i].htype.OneOf? && fields[Home(fields, i)].htype.OneOf?
  {
    if JoinsPrevious(fields, i) {
      HomeIsFirst(fields, i - 1);
    }
  }

  /** The arrival of field `i` changes no slot but its own. */
  lemma OnlyHomeChanges(fields: seq<Field>, slots: seq<Slot>, i: nat)
    requires FitsAll(fields, slots) && i < |fields|
    ensures var h := Home(fields, i);
            Canonical(fields, slots, i + 1) == Canonical(fields, slots, i)[h := Arrived(fields, slots, i + 1, h)]
  {
    hide Fits, CanonicalValue, CanonicalItems, DefaultSlot, Find;
    HomeIsFirst(fields, i);
    forall g | 0 <= g < |fields| && g != Home(fields, i)
      ensures Arrived(fields, slots, i, g) == Arrived(fields, slots, i + 1, g)
    {
      assert SlotFits(fields, g, slots[g]);
    }
  }

  lemma {:induction false} PackedRoundTrip(field: Field, done: seq<Value>, items: seq<Value>)
    requires Packable(field.ltype) && field.htype.Repeated? && |done| + |items| <= field.htype.arraySize
    requires forall k | 0 <= k < |items| :: Fits(field, items[k])
    ensures EncodeItems(field, items, false).Some?
    ensures DecodePacked(field.ltype, field.htype.arraySize, done, EncodeItems(field, items, false).value) ==
            Some(done + items)
    decreases |items|
  {
    hide EncodeNumber, DecodeNumber, NumberFits;
    if items == [] {
      assert done + items == done;
    } else {
      var v, rest := items[0], EncodeItems(field, items[1..], false);
      assert Fits(field, v);
      PackedRoundTrip(field, done + [v], items[1..]);
      NumberRoundTrip(field.ltype, v.v, rest.value);
      NumberNotEmpty(field.ltype, v.v);
      assert EncodeValue(field.ltype, items[0]) == EncodeNumber(field.ltype, v.v);
      assert EncodeItems(field, items, false).value == EncodeNumber(field.ltype, v.v).value + rest.value;
      assert done + [v] + items[1..] == done + items;
    }
  }

  lemma NumberNotEmpty(t: LType, x: int)
    requires EncodeNumber(t, x).Some?
    ensures EncodeNumber(t, x).value != []
  {
  }

  /** The elements of an unpacked array arrive one by one. */
  lemma {:induction false} ItemsRoundTrip(fields: seq<Field>, i: nat, state: seq<Slot>, seen: set<nat>,
                                          done: seq<Value>, items: seq<Value>, rest: seq<byte>)
    requires WellFormedSchema(fields) && i < |fields| == |state| && Home(fields, i) == i
    requires var field := fields[i];
             && !Packable(field.ltype) && field.htype.Repeated? && |done| + |items| <= field.htype.arraySize
             && (forall k | 0 <= k < |items| :: Fits(field, items[k]))
             && ShortItems(field, items)
    ensures DecodeLoop(fields, state[i := Many(done)], seen, EncodeItems(fields[i], items, true).value + rest) ==
            DecodeLoop(fields, state[i := Many(done + CanonicalItems(fields[i], items))], seen, rest)
    decreases fields[i], |items| + 1
  {
    hide EncodeValue, DecodeValue, Key, Fits, CanonicalValue, DecodeLoop, WellFormedSchema, Home;
    var field := fields[i];
    if items == [] {
      assert done + CanonicalItems(field, items) == done;
      assert EncodeItems(field, items, true).value + rest == rest;
    } else {
      var v, after := items[0], EncodeItems(field, items[1..], true).value;
      var head := EncodeValue(field.ltype, v).value;
      var arrived := done + [CanonicalValue(field, v)];
      assert WellFormedField(field) by { WellFormedHas(fields, i); }
      ValueRoundTrip(field, v, after + rest);
      KeyedTurn(fields, i, state[i := Many(done)], seen, WireType(field.ltype), head + (after + rest));
      ItemsRoundTrip(fields, i, state, seen, arrived, items[1..], rest);
      assert EncodeItems(field, items, true).value + rest ==
             Key(WireType(field.ltype), field.tag) + (head + (after + rest));
      assert arrived + CanonicalItems(field, items[1..]) == done + CanonicalItems(field, items);
      assert state[i := Many(done)][i := Many(arrived)] == state[i := Many(arrived)];
    }
  }

  lemma WellFormedHas(fields: seq<Field>, i: nat)
    requires WellFormedSchema(fields) && i < |fields|
    ensures WellFormedField(fields[i])
  {
  }

  /** A single value of field `i` arrives in its slot. */
  lemma {:induction false} KeyedRoundTrip(fields: seq<Field>, i: nat, state: seq<Slot>, seen: set<nat>, v: Value,
                                          rest: seq<byte>)
    requires WellFormedSchema(fields) && i < |fields| == |state| && Fits(fields[i], v)
    requires ShortValue(fields[i].ltype, v)
    requires var field, slot := fields[i], state[Home(fields, i)];
             match field.htype
             case Required => slot == Single(DefaultValue(field))
             case Optional => slot.Maybe? && slot.value == DefaultValue(field)
             case Repeated(_) => false
             case OneOf => slot.Choice?
    ensures var field := fields[i];
            var w := CanonicalValue(field, v);
            var slot := if field.htype.Required? then Single(w) else if field.htype.Optional? then Maybe(true, w)
                        else Choice(field.tag, w);
            DecodeLoop(fields, state, seen, EncodeKeyed(field, v).value + rest) ==
            DecodeLoop(fields, state[Home(fields, i) := slot], if field.htype.Required? then seen + {i} else seen, rest)
    decreases fields[i], 1
  {
    hide EncodeValue, DecodeValue, Key, Fits, CanonicalValue, DecodeLoop, WellFormedSchema, Home, DefaultValue;
    var field := fields[i];
    WellFormedHas(fields, i);
    var head := EncodeValue(field.ltype, v).value;
    ValueRoundTrip(field, v, rest);
    KeyedTurn(fields, i, state, seen, WireType(field.ltype), head + rest);
    assert EncodeKeyed(field, v).value + rest == Key(WireType(field.ltype), field.tag) + (head + rest);
  }

  /** A repeated field arrives whole. */
  lemma {:induction false} ArrayRoundTrip(fields: seq<Field>, i: nat, state: seq<Slot>, seen: set<nat>,
                                          items: seq<Value>, rest: seq<byte>)
    requires WellFormedSchema(fields) && i < |fields| == |state| && Home(fields, i) == i
    requires fields[i].htype.Repeated? && state[i] == Many([]) && |items| <= fields[i].htype.arraySize
    requires forall k | 0 <= k < |items| :: Fits(fields[i], items[k])
    requires ShortItems(fields[i], items)
    ensures DecodeLoop(fields, state, seen, EncodeArray(fields[i], items).value + rest) ==
            DecodeLoop(fields, state[i := Many(CanonicalItems(fields[i], items))], seen, rest)
    decreases fields[i], |items| + 2
  {
    hide EncodeValue, EncodeItems, DecodeValue, Key, Fits, CanonicalValue, DecodeLoop, WellFormedSchema, Home,
         Delimited, Split;
    var field := fields[i];
    assert state[i := Many([])] == state;
    if items == [] {
      assert CanonicalItems(field, items) == [];
      assert EncodeArray(field, items).value + rest == rest;
    } else if Packable(field.ltype) {
      var body := EncodeItems(field, items, false).value;
      PackedRoundTrip(field, [], items);
      DelimitedLonger(body);
      SplitOfDelimited(body, rest);
      KeyedTurn(fields, i, state, seen, WT_STRING, Delimited(body) + rest);
      assert EncodeArray(field, items).value + rest == Key(WT_STRING, field.tag) + (Delimited(body) + rest);
      PackedIsCanonical(field, items);
    } else {
      ItemsRoundTrip(fields, i, state, seen, [], items, rest);
      assert [] + CanonicalItems(field, items) == CanonicalItems(field, items);
    }
  }

  lemma DelimitedLonger(body: seq<byte>)
    ensures |body| <= |Delimited(body)|
  {
  }

  lemma PackedIsCanonical(field: Field, items: seq<Value>)
    requires Packable(field.ltype)
    ensures CanonicalItems(field, items) == items && [] + items == items
  {
  }

  /** The encoding of field `i` takes the state after `i` fields to the one after `i + 1`. */
  lemma {:induction false} FieldRoundTrip(fields: seq<Field>, slots: seq<Slot>, i: nat, rest: seq<byte>)
    requires WellFormedSchema(fields) && FitsAll(fields, slots) && i < |fields|
    requires ShortField(fields[i], slots[Home(fields, i)])
    ensures DecodeLoop(fields, Canonical(fields, slots, i), RequiredSet(fields, i),
                       EncodeField(fields[i], slots[Home(fields, i)]).value + rest) ==
            DecodeLoop(fields, Canonical(fields, slots, i + 1), RequiredSet(fields, i + 1), rest)
    decreases fields, 0
  {
    hide EncodeKeyed, EncodeArray, Fits, CanonicalValue, CanonicalItems, DecodeLoop, WellFormedSchema, DefaultValue,
         Find, Home;
    var h, field, state := Home(fields, i), fields[i], Canonical(fields, slots, i);
    OnlyHomeChanges(fields, slots, i);
    HomeIsFirst(fields, i);
    assert SlotFits(fields, h, slots[h]);
    var after := Arrived(fields, slots, i + 1, h);
    var encoded := EncodeField(field, slots[h]).value;
    assert RequiredSet(fields, i + 1) == if field.htype.Required? then RequiredSet(fields, i) + {i}
           else RequiredSet(fields, i);
    match slots[h]
    case Single(v) => KeyedRoundTrip(fields, i, state, RequiredSet(fields, i), v, rest);
    case Maybe(has, v) =>
      if has {
        KeyedRoundTrip(fields, i, state, RequiredSet(fields, i), v, rest);
      } else {
        assert state[h := after] == state && encoded + rest == rest;
      }
    case Many(items) => ArrayRoundTrip(fields, i, state, RequiredSet(fields, i), items, rest);
    case Choice(which, v) =>
      if which == field.tag {
        FindsField(fields, i);
        KeyedRoundTrip(fields, i, state, RequiredSet(fields, i), v, rest);
      } else {
        assert state[h := after] == state && encoded + rest == rest;
      }
    case Joined =>
  }

  // ----- every message that fits can be encoded -----

  lemma {:induction false} ValueEncodes(field: Field, v: Value)
    requires WellFormedField(field) && Fits(field, v)
    ensures EncodeValue(field.ltype, v).Some?
    decreases field, 0
  {
    hide FitsAll, WellFormedSchema;
    if v.Message? {
      MessageEncodes(field.ltype.fields, v.slots, 0);
    }
  }

  lemma {:induction false} ItemsEncode(field: Field, items: seq<Value>, keyed: bool)
    requires WellFormedField(field) && forall k | 0 <= k < |items| :: Fits(field, items[k])
    ensures EncodeItems(field, items, keyed).Some?
    decreases field, |items| + 1
  {
    hide Fits, EncodeValue, WellFormedSchema;
    if items != [] {
      assert Fits(field, items[0]);
      ValueEncodes(field, items[0]);
      ItemsEncode(field, items[1..], keyed);
    }
  }

  lemma {:induction false} FieldEncodes(fields: seq<Field>, slots: seq<Slot>, i: nat)
    requires WellFormedSchema(fields) && FitsAll(fields, slots) && i < |fields|
    ensures EncodeField(fields[i], slots[Home(fields, i)]).Some?
    decreases fields, 0
  {
    hide Fits, EncodeValue, EncodeItems, Find, Home, WellFormedField;
    var h, field := Home(fields, i), fields[i];
    HomeIsFirst(fields, i);
    WellFormedHas(fields, i);
    assert SlotFits(fields, h, slots[h]);
    match slots[h]
    case Single(v) => ValueEncodes(field, v);
    case Maybe(has, v) => if has { ValueEncodes(field, v); }
    case Many(items) =>
      ItemsEncode(field, items, true);
      ItemsEncode(field, items, false);
    case Choice(which, v) =>
      FindsField(fields, i);
      if which == field.tag { ValueEncodes(field, v); }
    case Joined =>
  }

  lemma {:induction false} MessageEncodes(fields: seq<Field>, slots: seq<Slot>, i: nat)
    requires WellFormedSchema(fields) && FitsAll(fields, slots)
    ensures EncodeFrom(fields, slots, i).Some?
    decreases fields, if i <= |fields| then |fields| - i + 1 else 0
  {
    hide EncodeField, WellFormedSchema;
    if i < |fields| {
      FieldEncodes(fields, slots, i);
      MessageEncodes(fields, slots, i + 1);
    }
  }

  // ----- what coming back means -----

  /** `w` is the same value; of a nested message, the same message. */
  ghost predicate SameValue(field: Field, v: Value, w: Value)
    decreases field, 0
  {
    if field.ltype.Submessage? && v.Message? then w.Message? && SameMessage(field.ltype.fields, v.slots, w.slots)
    else w == v
  }

  /** What is present in `a` is in `b`, and nothing else is: an absent field is at its initial value there. */
  ghost predicate SameSlot(fields: seq<Field>, h: nat, a: Slot, b: Slot)
    requires h < |fields|
    decreases fields, 0
  {
    match a
    case Single(v) => b.Single? && SameValue(fields[h], v, b.value)
    case Maybe(has, v) =>
      b.Maybe? && b.has == has && if has then SameValue(fields[h], v, b.value) else ValueAtDefault(fields[h], b.value)
    case Many(items) =>
      b.Many? && |b.items| == |items| && forall k | 0 <= k < |items| :: SameValue(fields[h], items[k], b.items[k])
    case Choice(which, v) =>
      && b.Choice? && b.which == which
      && forall j | 0 <= j < |fields| && fields[j].tag == which :: SameValue(fields[j], v, b.value)
    case Joined => b == Joined
  }

  ghost predicate SameMessage(fields: seq<Field>, a: seq<Slot>, b: seq<Slot>)
    decreases fields, 1
  {
    |a| == |b| == |fields| && forall h | 0 <= h < |fields| :: SameSlot(fields, h, a[h], b[h])
  }

  lemma {:induction false} CanonicalValueIsSame(field: Field, v: Value)
    requires WellFormedField(field) && Fits(field, v)
    ensures SameValue(field, v, CanonicalValue(field, v))
    decreases field, 0
  {
    hide FitsAll, SameMessage, Canonical, WellFormedSchema;
    if v.Message? {
      CanonicalIsSame(field.ltype.fields, v.slots);
    }
  }

  lemma {:induction false} CanonicalSlotIsSame(fields: seq<Field>, slots: seq<Slot>, h: nat)
    requires WellFormedSchema(fields) && FitsAll(fields, slots) && h < |fields|
    ensures SameSlot(fields, h, slots[h], Arrived(fields, slots, |fields|, h))
    decreases fields, 0
  {
    hide Fits, SameValue, CanonicalValue, Find, Home, WellFormedField, ValueAtDefault, DefaultValue;
    WellFormedHas(fields, h);
    assert SlotFits(fields, h, slots[h]);
    match slots[h]
    case Single(v) => CanonicalValueIsSame(fields[h], v);
    case Maybe(has, v) =>
      if has {
        CanonicalValueIsSame(fields[h], v);
      } else {
        DefaultValueIsDefault(fields[h]);
      }
    case Many(items) =>
      forall k | 0 <= k < |items| ensures SameValue(fields[h], items[k], CanonicalItems(fields[h], items)[k]) {
        CanonicalValueIsSame(fields[h], items[k]);
      }
    case Choice(which, v) =>
      forall j | 0 <= j < |fields| && fields[j].tag == which
        ensures SameValue(fields[j], v, Arrived(fields, slots, |fields|, h).value)
      {
        FindsField(fields, j);
        WellFormedHas(fields, j);
        CanonicalValueIsSame(fields[j], v);
      }
    case Joined =>
  }

  /** The canonical message is the message, with what is absent at its initial value. */
  lemma {:induction false} CanonicalIsSame(fields: seq<Field>, slots: seq<Slot>)
    requires WellFormedSchema(fields) && FitsAll(fields, slots)
    ensures SameMessage(fields, slots, Canonical(fields, slots, |fields|))
    decreases fields, 1
  {
    hide SameSlot, SlotFits, WellFormedSchema, Arrived;
    forall h | 0 <= h < |fields| ensures SameSlot(fields, h, slots[h], Canonical(fields, slots, |fields|)[h]) {
      CanonicalSlotIsSame(fields, slots, h);
    }
  }

  /** For every schema and every message that fits it: the message can be encoded, and decoding the
      bytes consumes them all and gives the message back, if each part that is written after its length
      has fewer than 2^32 bytes. If the whole message has, so do its parts. */
  lemma DecodeOfEncode(fields: seq<Field>, slots: seq<Slot>)
    requires WellFormedSchema(fields) && FitsAll(fields, slots)
    ensures EncodeFrom(fields, slots, 0).Some?
    ensures var bytes := EncodeFrom(fields, slots, 0).value;
            ShortParts(fields, slots, 0) ==>
              && Messages.Decode(fields, bytes) == Some(Canonical(fields, slots, |fields|))
              && SameMessage(fields, slots, Messages.Decode(fields, bytes).value)
              && DecodeLoop(fields, Defaults(fields, |fields|), {}, bytes).value.2 == []
    ensures |EncodeFrom(fields, slots, 0).value| < SPAN32 ==> ShortParts(fields, slots, 0)
  {
    hide EncodeFrom, DecodeLoop, FitsAll, WellFormedSchema, ShortParts, SameMessage, Canonical;
    MessageEncodes(fields, slots, 0);
    if |EncodeFrom(fields, slots, 0).value| < SPAN32 {
      ShortWhole(fields, slots, 0);
    }
    if ShortParts(fields, slots, 0) {
      CanonicalIsSame(fields, slots);
      MessageRoundTrip(fields, slots);
      StartsAtDefaults(fields, slots);
      LoopRoundTrip(fields, slots, 0);
    }
  }

  // ----- the canonical message is the same message -----

  lemma {:induction false} CanonicalValueEncodesTheSame(field: Field, v: Value)
    requires WellFormedField(field) && Fits(field, v)
    ensures EncodeValue(field.ltype, CanonicalValue(field, v)) == EncodeValue(field.ltype, v)
    decreases field, 0
  {
    hide FitsAll, WellFormedSchema, Canonical, EncodeFrom;
    if v.Message? {
      CanonicalEncodesTheSame(field.ltype.fields, v.slots, 0);
    }
  }

  lemma {:induction false} CanonicalItemsEncodeTheSame(field: Field, items: seq<Value>, keyed: bool)
    requires WellFormedField(field) && forall k | 0 <= k < |items| :: Fits(field, items[k])
    ensures EncodeItems(field, CanonicalItems(field, items), keyed) == EncodeItems(field, items, keyed)
    decreases field, |items| + 1
  {
    hide Fits, EncodeValue, WellFormedSchema, CanonicalValue;
    if items != [] {
      assert Fits(field, items[0]);
      CanonicalValueEncodesTheSame(field, items[0]);
      CanonicalItemsEncodeTheSame(field, items[1..], keyed);
      assert CanonicalItems(field, items)[1..] == CanonicalItems(field, items[1..]);
    }
  }

  lemma {:induction false} CanonicalFieldEncodesTheSame(fields: seq<Field>, slots: seq<Slot>, i: nat)
    requires WellFormedSchema(fields) && FitsAll(fields, slots) && i < |fields|
    ensures var h := Home(fields, i);
            EncodeField(fields[i], Arrived(fields, slots, |fields|, h)) == EncodeField(fields[i], slots[h])
    decreases fields, 0
  {
    hide Fits, EncodeValue, EncodeItems, Find, Home, WellFormedField, CanonicalValue, CanonicalItems;
    var h, field := Home(fields, i), fields[i];
    HomeIsFirst(fields, i);
    WellFormedHas(fields, i);
    assert SlotFits(fields, h, slots[h]);
    match slots[h]
    case Single(v) => CanonicalValueEncodesTheSame(field, v);
    case Maybe(has, v) => if has { CanonicalValueEncodesTheSame(field, v); }
    case Many(items) =>
      CanonicalItemsEncodeTheSame(field, items, true);
      CanonicalItemsEncodeTheSame(field, items, false);
    case Choice(which, v) =>
      FindsField(fields, i);
      if which == field.tag { CanonicalValueEncodesTheSame(field, v); }
    case Joined =>
  }

  /** Setting absent fields to their defaults does not change a message: it encodes to the same bytes. */
  lemma {:induction false} CanonicalEncodesTheSame(fields: seq<Field>, slots: seq<Slot>, i: nat)
    requires WellFormedSchema(fields) && FitsAll(fields, slots)
    ensures EncodeFrom(fields, Canonical(fields, slots, |fields|), i) == EncodeFrom(fields, slots, i)
    decreases fields, if i <= |fields| then |fields| - i + 1 else 0
  {
    hide EncodeField, WellFormedSchema, Arrived, Fits, Home;
    if i < |fields| {
      CanonicalFieldEncodesTheSame(fields, slots, i);
      CanonicalEncodesTheSame(fields, slots, i + 1);
    }
  }

  /** Different messages encode differently. */
  lemma EncodingDistinguishes(fields: seq<Field>, a: seq<Slot>, b: seq<Slot>)
    requires WellFormedSchema(fields) && FitsAll(fields, a) && FitsAll(fields, b)
    requires EncodeFrom(fields, a, 0) == EncodeFrom(fields, b, 0) && ShortParts(fields, a, 0)
             && ShortParts(fields, b, 0)
    ensures Canonical(fields, a, |fields|) == Canonical(fields, b, |fields|)
  {
    hide WellFormedSchema, FitsAll, EncodeFrom, Canonical, DecodeNoInit;
    MessageRoundTrip(fields, a);
    MessageRoundTrip(fields, b);
  }
}
