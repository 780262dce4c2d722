/** Decoding does not look ahead: what follows a field does not change how it is read. So a field that
    the schema does not know, put between any two fields, leaves the decoded message as it is. */
module UnknownFields {
  import opened Basics
  import opened BigEndian
  import opened Varints
  import opened Messages
  import opened RoundTrip

  // ----- each decoder takes a prefix, whatever follows -----

  lemma {:induction false} ExtentAppend(s: seq<byte>, t: seq<byte>)
    requires Extent(s).Some?
    ensures Extent(s + t) == Extent(s)
  {
    assert (s + t)[0] == s[0];
    if s[0] >= 128 {
      assert (s + t)[1..] == s[1..] + t;
      ExtentAppend(s[1..], t);
    }
  }

  lemma Decode64Append(s: seq<byte>, t: seq<byte>)
    requires Decode64(s).Some?
    ensures Decode64(s + t) == Some((Decode64(s).value.0, Decode64(s).value.1 + t))
  {
    hide Groups, Extent;
    ExtentAppend(s, t);
    var n := Extent(s).value;
    assert (s + t)[..n] == s[..n] && (s + t)[n..] == s[n..] + t;
  }

  lemma {:induction false} Decode32FromAppend(s: seq<byte>, bitpos: nat, result: nat, t: seq<byte>)
    requires Decode32From(s, bitpos, result).Some?
    ensures var (v, rest) := Decode32From(s, bitpos, result).value;
            Decode32From(s + t, bitpos, result) == Some((v, rest + t))
    decreases |s|
  {
    hide Placed, Overflows, Or;
    var b := s[0];
    assert (s + t)[0] == b && (s + t)[1..] == s[1..] + t;
    if b >= 128 {
      Decode32FromAppend(s[1..], (bitpos + 7) % 256, if bitpos >= 32 then result else Or(result, Placed(b, bitpos)), t);
    }
  }

  lemma Decode32Append(s: seq<byte>, t: seq<byte>)
    requires Decode32(s).Some?
    ensures Decode32(s + t) == Some((Decode32(s).value.0, Decode32(s).value.1 + t))
  {
    hide Decode32From;
    assert (s + t)[0] == s[0] && (s + t)[1..] == s[1..] + t;
    if s[0] >= 128 {
      Decode32FromAppend(s[1..], 7, s[0] % 128, t);
    }
  }

  lemma SplitAppend(s: seq<byte>, t: seq<byte>)
    requires Split(s).Some?
    ensures Split(s + t) == Some((Split(s).value.0, Split(s).value.1 + t))
  {
    hide Decode32;
    Decode32Append(s, t);
    var (size, rest) := Decode32(s).value;
    assert (rest + t)[..size] == rest[..size] && (rest + t)[size..] == rest[size..] + t;
  }

  lemma SkipAppend(wire: nat, s: seq<byte>, t: seq<byte>)
    requires Skip(wire, s).Some?
    ensures Skip(wire, s + t) == Some(Skip(wire, s).value + t)
  {
    hide Split, Extent;
    if wire == WT_VARINT {
      ExtentAppend(s, t);
      assert (s + t)[Extent(s).value..] == s[Extent(s).value..] + t;
    } else if wire == WT_64BIT {
      assert (s + t)[8..] == s[8..] + t;
    } else if wire == WT_STRING {
      SplitAppend(s, t);
    } else {
      assert (s + t)[4..] == s[4..] + t;
    }
  }

  lemma NumberAppend(t: LType, s: seq<byte>, more: seq<byte>)
    requires Packable(t) && DecodeNumber(t, s).Some?
    ensures DecodeNumber(t, s + more) == Some((DecodeNumber(t, s).value.0, DecodeNumber(t, s).value.1 + more))
  {
    hide Decode64, Narrowed, LittleEndianValue;
    if t.Fixed32? {
      assert (s + more)[..4] == s[..4] && (s + more)[4..] == s[4..] + more;
    } else if t.Fixed64? {
      assert (s + more)[..8] == s[..8] && (s + more)[8..] == s[8..] + more;
    } else {
      Decode64Append(s, more);
    }
  }

  lemma BlobAppend(t: LType, s: seq<byte>, more: seq<byte>)
    requires DecodeBlob(t, s).Some?
    ensures DecodeBlob(t, s + more) == Some((DecodeBlob(t, s).value.0, DecodeBlob(t, s).value.1 + more))
  {
    hide Decode32, Zero;
    Decode32Append(s, more);
    var (size, rest) := Decode32(s).value;
    if size <= |rest| {
      assert (rest + more)[..size] == rest[..size] && (rest + more)[size..] == rest[size..] + more;
    }
  }

  lemma ValueAppend(t: LType, base: Value, s: seq<byte>, more: seq<byte>)
    requires DecodeValue(t, base, s).Some?
    ensures DecodeValue(t, base, s + more) ==
            Some((DecodeValue(t, base, s).value.0, DecodeValue(t, base, s).value.1 + more))
  {
    hide DecodeNumber, DecodeBlob, Split, DecodeNoInit;
    if Packable(t) {
      NumberAppend(t, s, more);
    } else if t.Submessage? {
      SplitAppend(s, more);
    } else {
      BlobAppend(t, s, more);
    }
  }

  lemma FieldAppend(field: Field, wire: nat, slot: Slot, s: seq<byte>, more: seq<byte>)
    requires DecodeField(field, wire, slot, s).Some?
    ensures DecodeField(field, wire, slot, s + more) ==
            Some((DecodeField(field, wire, slot, s).value.0, DecodeField(field, wire, slot, s).value.1 + more))
  {
    hide DecodeValue, Split, DecodePacked, DefaultValue;
    if field.htype.Repeated? && wire == WT_STRING && Packable(field.ltype) {
      SplitAppend(s, more);
    } else {
      var base := if field.htype.Required? || field.htype.Optional? then slot.value else DefaultValue(field);
      ValueAppend(field.ltype, base, s, more);
    }
  }

  /** A turn of the loop that goes on is the same turn, whatever follows. */
  lemma TurnAppend(fields: seq<Field>, slots: seq<Slot>, seen: set<nat>, s: seq<byte>, more: seq<byte>)
    requires |slots| == |fields| && DecodeOne(fields, slots, seen, s).Next?
    ensures DecodeOne(fields, slots, seen, s + more) ==
            DecodeOne(fields, slots, seen, s).(rest := DecodeOne(fields, slots, seen, s).rest + more)
  {
    hide Decode32, Find, Skip, DecodeField, Home;
    Decode32Append(s, more);
    var (key, rest) := Decode32(s).value;
    match Find(fields, key / 8)
    case None => SkipAppend(key % 8, rest, more);
    case Some(i) => FieldAppend(fields[i], key % 8, slots[Home(fields, i)], rest, more);
  }

  // ----- whole fields -----

  /** The structure and the required fields seen after `s`, if `s` is a sequence of whole fields. */
  function Whole(fields: seq<Field>, slots: seq<Slot>, seen: set<nat>, s: seq<byte>): (r: Option<(seq<Slot>, set<nat>)>)
    requires |slots| == |fields|
    ensures r.Some? ==> |r.value.0| == |fields|
    decreases |s|
  {
    if s == [] then Some((slots, seen))
    else match DecodeOne(fields, slots, seen, s)
      case Next(next, met, rest) => Whole(fields, next, met, rest)
      case _ => None
  }

  /** After a sequence of whole fields decoding goes on with what follows. */
  lemma {:induction false} LoopAfterWhole(fields: seq<Field>, slots: seq<Slot>, seen: set<nat>, s: seq<byte>,
                                          more: seq<byte>)
    requires |slots| == |fields| && Whole(fields, slots, seen, s).Some?
    ensures var (next, met) := Whole(fields, slots, seen, s).value;
            DecodeLoop(fields, slots, seen, s + more) == DecodeLoop(fields, next, met, more)
    decreases |s|
  {
    hide DecodeOne;
    if s == [] {
      assert s + more == more;
    } else {
      TurnAppend(fields, slots, seen, s, more);
      var turn := DecodeOne(fields, slots, seen, s);
      LoopAfterWhole(fields, turn.slots, turn.seen, turn.rest, more);
      assert s + more != [];
    }
  }

  /** `u` is one well-formed field with a tag that no field of the schema has. Its key may be in more bytes than
      it needs. */
  predicate Unknown(fields: seq<Field>, u: seq<byte>) {
    match Decode32(u)
    case None => false
    case Some((key, payload)) => IsUnknown(fields, key / 8) && WellFormedPayload(key % 8, payload)
  }

  predicate IsUnknown(fields: seq<Field>, tag: nat) {
    tag >= 1 && Find(fields, tag).None?
  }

  /** A varint of any length, eight bytes, a length and that many bytes, or four bytes. */
  predicate WellFormedPayload(wire: nat, payload: seq<byte>) {
    match wire
    case 0 => Extent(payload) == Some(|payload|)
    case 1 => |payload| == 8
    case 2 => Split(payload).Some? && Split(payload).value.1 == []
    case 5 => |payload| == 4
    case _ => false
  }

  /** Skipping takes exactly the unknown field. */
  lemma UnknownTurn(fields: seq<Field>, slots: seq<Slot>, seen: set<nat>, u: seq<byte>)
    requires |slots| == |fields| && Unknown(fields, u)
    ensures DecodeOne(fields, slots, seen, u) == Next(slots, seen, [])
  {
    hide Encode, Decode32, Find, Split, Extent;
  }

  /** A field written with the encoder's own key is unknown exactly if its tag is. */
  lemma KeyedIsUnknown(fields: seq<Field>, tag: nat, wire: nat, payload: seq<byte>)
    requires tag < 0x2000_0000 && wire < 8
    ensures Unknown(fields, Key(wire, tag) + payload) <==> IsUnknown(fields, tag) && WellFormedPayload(wire, payload)
  {
    hide Encode, Decode32, IsUnknown, WellFormedPayload;
    Decode32OfEncode(8 * tag + wire, payload);
  }

  /** A short key is read with any number of padding bytes in it. */
  lemma PaddedKeyIsRead(key: byte, n: nat, payload: seq<byte>)
    requires key < 128
    ensures Decode32([128 + key] + seq(n, _ => 128) + [0] + payload) == Some((key, payload))
  {
    hide Decode32From;
    var s := [128 + key] + seq(n, _ => 128) + [0] + payload;
    assert s[1..] == seq(n, _ => 128) + ([0] + payload);
    PaddingPasses(n, 7, key, [0] + payload);
    LastPadding([0] + payload, (7 + 7 * n) % 256, key);
  }

  lemma LastPadding(s: seq<byte>, bitpos: nat, result: nat)
    requires s != [] && s[0] == 0
    ensures Decode32From(s, bitpos, result) == Some((result, s[1..]))
  {
    hide Pow2;
    assert Placed(0, bitpos) == 0;
    OrWithNothing(result);
  }

  /** A field the schema does not know, anywhere between the fields of a message, changes neither the
      decoded message nor whether decoding succeeds. */
  lemma UnknownFieldIsTransparent(fields: seq<Field>, slots: seq<Slot>, before: seq<byte>, u: seq<byte>,
                                  after: seq<byte>)
    requires |slots| == |fields| && Unknown(fields, u) && Whole(fields, slots, {}, before).Some?
    ensures DecodeLoop(fields, slots, {}, before + u + after) == DecodeLoop(fields, slots, {}, before + after)
    ensures DecodeNoInit(fields, slots, before + u + after) == DecodeNoInit(fields, slots, before + after)
  {
    hide DecodeLoop, DecodeOne, Unknown;
    var (next, met) := Whole(fields, slots, {}, before).value;
    assert before + u + after == before + (u + after);
    LoopAfterWhole(fields, slots, {}, before, u + after);
    LoopAfterWhole(fields, slots, {}, before, after);
    UnknownTurn(fields, next, met, u);
    assert u != [] by { UnknownNotEmpty(fields, u); }
    assert Whole(fields, next, met, u) == Some((next, met));
    LoopAfterWhole(fields, next, met, u, after);
  }

  lemma UnknownNotEmpty(fields: seq<Field>, u: seq<byte>)
    requires Unknown(fields, u)
    ensures u != []
  {
  }

  // ----- unknown fields in an encoded message -----

  /** The encoding of the fields before `i`. */
  function EncodePrefix(fields: seq<Field>, slots: seq<Slot>, i: nat): Option<seq<byte>>
    requires i <= |fields| == |slots|
  {
    if i == 0 then Some([])
    else match EncodePrefix(fields, slots, i - 1)
      case None => None
      case Some(head) =>
        match EncodeField(fields[i - 1], slots[Home(fields, i - 1)])
        case None => None
        case Some(b) => Some(head + b)
  }

  lemma {:induction false} PrefixAndRest(fields: seq<Field>, slots: seq<Slot>, i: nat)
    requires i <= |fields| == |slots| && EncodeFrom(fields, slots, 0).Some?
    ensures EncodePrefix(fields, slots, i).Some? && EncodeFrom(fields, slots, i).Some?
    ensures EncodeFrom(fields, slots, 0).value ==
            EncodePrefix(fields, slots, i).value + EncodeFrom(fields, slots, i).value
  {
    hide EncodeField, Home;
    if i > 0 {
      PrefixAndRest(fields, slots, i - 1);
    }
  }

  lemma ShortPart(fields: seq<Field>, slots: seq<Slot>, k: nat)
    requires ShortParts(fields, slots, 0) && k < |fields| == |slots|
    ensures ShortField(fields[k], slots[Home(fields, k)])
  {
  }

  lemma {:induction false} PrefixRoundTrip(fields: seq<Field>, slots: seq<Slot>, i: nat, rest: seq<byte>)
    requires WellFormedSchema(fields) && FitsAll(fields, slots) && i <= |fields|
    requires ShortParts(fields, slots, 0) && EncodePrefix(fields, slots, i).Some?
    ensures DecodeLoop(fields, Canonical(fields, slots, 0), {}, EncodePrefix(fields, slots, i).value + rest) ==
            DecodeLoop(fields, Canonical(fields, slots, i), RequiredSet(fields, i), rest)
    decreases i
  {
    hide WellFormedSchema, SlotFits, ShortField, EncodeField, EncodeFrom, DecodeLoop, Canonical, RequiredSet, Home;
    if i == 0 {
      assert [] + rest == rest;
      assert RequiredSet(fields, 0) == {};
    } else {
      ShortPart(fields, slots, i - 1);
      var head := EncodePrefix(fields, slots, i - 1).value;
      var b := EncodeField(fields[i - 1], slots[Home(fields, i - 1)]).value;
      PrefixRoundTrip(fields, slots, i - 1, b + rest);
      FieldRoundTrip(fields, slots, i - 1, rest);
      assert head + b + rest == head + (b + rest);
    }
  }

  /** An encoded message with a field of another schema slipped in between two of its own still decodes
      to the message that was encoded. */
  lemma UnknownFieldInEncodedMessage(fields: seq<Field>, slots: seq<Slot>, i: nat, u: seq<byte>)
    requires WellFormedSchema(fields) && FitsAll(fields, slots) && i <= |fields| && ShortParts(fields, slots, 0)
    requires Unknown(fields, u)
    ensures EncodePrefix(fields, slots, i).Some? && EncodeFrom(fields, slots, i).Some?
    ensures Messages.Decode(fields, EncodePrefix(fields, slots, i).value + u + EncodeFrom(fields, slots, i).value) ==
            Some(Canonical(fields, slots, |fields|))
  {
    hide WellFormedSchema, EncodeFrom, DecodeOne, SlotFits, Unknown, Canonical, EncodePrefix;
    PrefixAndRest(fields, slots, i);
    var before, after := EncodePrefix(fields, slots, i).value, EncodeFrom(fields, slots, i).value;
    PrefixRoundTrip(fields, slots, i, u + after);
    assert before + u + after == before + (u + after);
    StartsAtDefaults(fields, slots);
    var state, met := Canonical(fields, slots, i), RequiredSet(fields, i);
    UnknownTurn(fields, state, met, u);
    UnknownNotEmpty(fields, u);
    assert Whole(fields, state, met, u) == Some((state, met));
    LoopAfterWhole(fields, state, met, u, after);
    LoopRoundTrip(fields, slots, i);
  }

  // ----- a message to a decoder of another schema -----

  /** `s` is a sequence of well-formed fields, none of which the schema knows. */
  ghost predicate AllUnknown(fields: seq<Field>, s: seq<byte>)
    decreases |s|
  {
    s == [] || exists n :: 0 < n <= |s| && Unknown(fields, s[..n]) && AllUnknown(fields, s[n..])
  }

  lemma OneMoreUnknown(fields: seq<Field>, u: seq<byte>, rest: seq<byte>)
    requires Unknown(fields, u) && AllUnknown(fields, rest)
    ensures AllUnknown(fields, u + rest)
  {
    hide Unknown;
    UnknownNotEmpty(fields, u);
    assert (u + rest)[..|u|] == u && (u + rest)[|u|..] == rest;
  }

  lemma OnlyUnknown(fields: seq<Field>, u: seq<byte>)
    requires Unknown(fields, u)
    ensures AllUnknown(fields, u)
  {
    hide Unknown;
    OneMoreUnknown(fields, u, []);
    assert u + [] == u;
  }

  lemma {:induction false} UnknownAppend(fields: seq<Field>, a: seq<byte>, b: seq<byte>)
    requires AllUnknown(fields, a) && AllUnknown(fields, b)
    ensures AllUnknown(fields, a + b)
    decreases |a|
  {
    hide Unknown;
    if a == [] {
      assert a + b == b;
    } else {
      var n :| 0 < n <= |a| && Unknown(fields, a[..n]) && AllUnknown(fields, a[n..]);
      UnknownAppend(fields, a[n..], b);
      OneMoreUnknown(fields, a[..n], a[n..] + b);
      assert a + b == a[..n] + (a[n..] + b);
    }
  }

  /** A decoder passes over all of it. */
  lemma {:induction false} AllUnknownIsSkipped(fields: seq<Field>, slots: seq<Slot>, seen: set<nat>, s: seq<byte>)
    requires |slots| == |fields| && AllUnknown(fields, s)
    ensures DecodeLoop(fields, slots, seen, s) == Some((slots, seen, []))
    decreases |s|
  {
    hide DecodeOne, Unknown;
    if s != [] {
      var n :| 0 < n <= |s| && Unknown(fields, s[..n]) && AllUnknown(fields, s[n..]);
      UnknownTurn(fields, slots, seen, s[..n]);
      TurnAppend(fields, slots, seen, s[..n], s[n..]);
      assert s[..n] + s[n..] == s && [] + s[n..] == s[n..];
      AllUnknownIsSkipped(fields, slots, seen, s[n..]);
    }
  }

  /** What is written for a value is a payload of the field's wire type. */
  lemma PayloadOfValue(t: LType, v: Value)
    requires ShortValue(t, v)
    ensures WellFormedPayload(WireType(t), EncodeValue(t, v).value)
  {
    hide Encode, Split, EncodeFrom, LittleEndian, StringLength, Delimited, Extent;
    var b := EncodeValue(t, v).value;
    assert b + [] == b;
    match v
    case Number(x) =>
      GroupsOfEncode(ToU64(if t.SVarint? then ZigZag(x) else x));
    case Blob(bytes) =>
      var sent := if t.String? then bytes[..StringLength(bytes, t.dataSize)] else bytes;
      SplitOfDelimited(sent, []);
    case Message(slots) => SplitOfDelimited(EncodeFrom(t.fields, slots, 0).value, []);
  }

  /** The wire type goes with what is written, so that anyone who does not know the field can skip it. */
  lemma KeyedForeign(field: Field, v: Value, other: seq<Field>)
    requires 1 <= field.tag < 0x2000_0000 && ShortValue(field.ltype, v) && Find(other, field.tag).None?
    ensures EncodeKeyed(field, v).Some? && Unknown(other, EncodeKeyed(field, v).value)
  {
    hide ShortValue, WellFormedPayload, Unknown, Key, EncodeValue;
    PayloadOfValue(field.ltype, v);
    ShortIsEncoded(field.ltype, v);
    KeyedIsUnknown(other, field.tag, WireType(field.ltype), EncodeValue(field.ltype, v).value);
  }

  lemma ShortIsEncoded(t: LType, v: Value)
    requires ShortValue(t, v)
    ensures EncodeValue(t, v).Some?
  {
  }

  lemma {:induction false} ItemsForeign(field: Field, items: seq<Value>, other: seq<Field>)
    requires 1 <= field.tag < 0x2000_0000 && Find(other, field.tag).None?
    requires EncodeItems(field, items, true).Some? && forall k | 0 <= k < |items| :: ShortValue(field.ltype, items[k])
    ensures AllUnknown(other, EncodeItems(field, items, true).value)
    decreases |items|
  {
    hide ShortValue, Unknown, Key, EncodeValue, AllUnknown;
    if items == [] {
      NothingUnknown(other);
    } else {
      KeyedForeign(field, items[0], other);
      ItemsForeign(field, items[1..], other);
      var rest := EncodeItems(field, items[1..], true).value;
      OneMoreUnknown(other, EncodeKeyed(field, items[0]).value, rest);
    }
  }

  lemma NothingUnknown(fields: seq<Field>)
    ensures AllUnknown(fields, [])
  {
  }

  lemma ArrayForeign(field: Field, items: seq<Value>, other: seq<Field>)
    requires 1 <= field.tag < 0x2000_0000 && Find(other, field.tag).None? && field.htype.Repeated?
    requires EncodeArray(field, items).Some? && ShortItems(field, items)
    ensures AllUnknown(other, EncodeArray(field, items).value)
  {
    hide ShortValue, Unknown, Key, EncodeValue, AllUnknown, EncodeItems, Delimited;
    if items == [] {
      NothingUnknown(other);
    } else if Packable(field.ltype) {
      var body := EncodeItems(field, items, false).value;
      SplitOfDelimited(body, []);
      assert Delimited(body) + [] == Delimited(body);
      KeyedIsUnknown(other, field.tag, WT_STRING, Delimited(body));
      OnlyUnknown(other, EncodeArray(field, items).value);
    } else {
      ItemsForeign(field, items, other);
    }
  }

  lemma FieldForeign(field: Field, slot: Slot, other: seq<Field>)
    requires 1 <= field.tag < 0x2000_0000 && Find(other, field.tag).None? && ShortField(field, slot)
    ensures AllUnknown(other, EncodeField(field, slot).value)
  {
    hide ShortValue, ShortItems, Unknown, AllUnknown, EncodeKeyed, EncodeArray;
    match slot
    case Single(v) =>
      KeyedForeign(field, v, other);
      OnlyUnknown(other, EncodeField(field, slot).value);
    case Maybe(has, v) =>
      if has {
        KeyedForeign(field, v, other);
        OnlyUnknown(other, EncodeField(field, slot).value);
      } else {
        NothingUnknown(other);
      }
    case Many(items) => ArrayForeign(field, items, other);
    case Choice(which, v) =>
      if which == field.tag {
        KeyedForeign(field, v, other);
        OnlyUnknown(other, EncodeField(field, slot).value);
      } else {
        NothingUnknown(other);
      }
    case Joined =>
  }

  /** An encoded message is a sequence of well-formed fields to every schema that has none of its tags. */
  lemma {:induction false} MessageForeign(fields: seq<Field>, slots: seq<Slot>, i: nat, other: seq<Field>)
    requires ShortParts(fields, slots, i) && i <= |fields|
    requires forall k | 0 <= k < |fields| :: 1 <= fields[k].tag < 0x2000_0000 && Find(other, fields[k].tag).None?
    ensures AllUnknown(other, EncodeFrom(fields, slots, i).value)
    decreases |fields| - i
  {
    hide ShortField, AllUnknown, EncodeField, Find, Home;
    if i == |fields| {
      NothingUnknown(other);
    } else {
      assert ShortField(fields[i], slots[Home(fields, i)]);
      FieldForeign(fields[i], slots[Home(fields, i)], other);
      MessageForeign(fields, slots, i + 1, other);
      var head := EncodeField(fields[i], slots[Home(fields, i)]).value;
      UnknownAppend(other, head, EncodeFrom(fields, slots, i + 1).value);
    }
  }

  /** So its decoder takes all of the message and is left with what it had. */
  lemma ForeignMessageIsSkipped(fields: seq<Field>, slots: seq<Slot>, other: seq<Field>, state: seq<Slot>)
    requires ShortParts(fields, slots, 0) && |state| == |other|
    requires forall k | 0 <= k < |fields| :: 1 <= fields[k].tag < 0x2000_0000 && Find(other, fields[k].tag).None?
    ensures DecodeLoop(other, state, {}, EncodeFrom(fields, slots, 0).value) == Some((state, {}, []))
  {
    hide ShortField, AllUnknown, EncodeFrom, Find, DecodeLoop;
    MessageForeign(fields, slots, 0, other);
    AllUnknownIsSkipped(other, state, {}, EncodeFrom(fields, slots, 0).value);
  }

  // ----- which required fields are seen -----

  /** The tags of the fields in `s`, in order, as far as decoding goes. */
  function Tags(fields: seq<Field>, slots: seq<Slot>, seen: set<nat>, s: seq<byte>): seq<nat>
    requires |slots| == |fields|
    decreases |s|
  {
    if s == [] then []
    else match DecodeOne(fields, slots, seen, s)
      case Next(next, met, rest) => [Decode32(s).value.0 / 8] + Tags(fields, next, met, rest)
      case _ => []
  }

  /** Field `i` is among the fields with these tags. */
  ghost predicate Occurs(fields: seq<Field>, tags: seq<nat>, i: nat) {
    exists tag :: tag in tags && Find(fields, tag) == Some(i)
  }

  lemma OccursFirst(fields: seq<Field>, tag: nat, later: seq<nat>, i: nat)
    ensures Occurs(fields, [tag] + later, i) <==> Find(fields, tag) == Some(i) || Occurs(fields, later, i)
  {
    hide Find;
    assert forall t :: t in [tag] + later <==> t == tag || t in later;
  }

  lemma {:induction false} SeenAreTags(fields: seq<Field>, slots: seq<Slot>, seen: set<nat>, s: seq<byte>, i: nat)
    requires |slots| == |fields| && DecodeLoop(fields, slots, seen, s).Some? && i < |fields|
    ensures i in DecodeLoop(fields, slots, seen, s).value.1 <==>
            i in seen || (fields[i].htype.Required? && Occurs(fields, Tags(fields, slots, seen, s), i))
    decreases |s|
  {
    hide Decode32, Skip, DecodeField, Find, Home, Occurs;
    if s == [] {
      assert !Occurs(fields, [], i) by { NoneOccurs(fields, i); }
    } else {
      var turn := DecodeOne(fields, slots, seen, s);
      if turn.Next? {
        SeenAreTags(fields, turn.slots, turn.seen, turn.rest, i);
        OccursFirst(fields, Decode32(s).value.0 / 8, Tags(fields, turn.slots, turn.seen, turn.rest), i);
      } else {
        NoneOccurs(fields, i);
      }
    }
  }

  lemma NoneOccurs(fields: seq<Field>, i: nat)
    ensures !Occurs(fields, [], i)
  {
  }

  /** A decode whose fields all decode succeeds if and only if each of the first sixty-four required
      fields occurs at least once. */
  lemma RequiredCheckIsExact(fields: seq<Field>, slots: seq<Slot>, s: seq<byte>)
    requires |slots| == |fields| && DecodeLoop(fields, slots, {}, s).Some?
    ensures DecodeNoInit(fields, slots, s).Some? <==>
            forall i | 0 <= i < |fields| && fields[i].htype.Required?
                && RequiredBefore(fields, i) < 64 ::
              Occurs(fields, Tags(fields, slots, {}, s), i)
  {
    hide DecodeLoop, DecodeOne, Find, Tags, Occurs;
    forall i | 0 <= i < |fields| && fields[i].htype.Required?
      ensures i in DecodeLoop(fields, slots, {}, s).value.1 <==> Occurs(fields, Tags(fields, slots, {}, s), i)
    {
      SeenAreTags(fields, slots, {}, s, i);
    }
  }
}
