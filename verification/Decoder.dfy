/** The decoder: a loop over the fields on the wire that looks each up in the schema, decodes it into
    the structure and notes the required ones it has met. */
module Decoder {
  import opened Basics
  import opened BigEndian
  import opened Varints
  import opened Messages
  import opened FieldIterator
  import opened InitialState
  import opened RoundTrip
  import FieldsSeen
  import opened Streams

  // ----- values -----

  method DecodeFixed(stream: InputStream, width: nat) returns (ok: bool, value: nat)
    requires stream.Valid() && (width == 4 || width == 8)
    modifies stream
    ensures stream.Valid() && stream.End() == old(stream.End())
    ensures ok <==> |old(stream.Rest())| >= width
    ensures ok ==>
              && value == LittleEndianValue(old(stream.Rest())[..width])
              && stream.Rest() == old(stream.Rest())[width..]
  {
    var b;
    ok, b := stream.Read(width);
    if !ok {
      return false, 0;
    }
    FourBytesValue(b);
    value := Combine(b[..4]);
    if width == 8 {
      FourBytesValue(b[4..]);
      value := value + SPAN32 * Combine(b[4..]);
    }
  }

  /** Four bytes, shifted into place. */
  function Combine(b: seq<byte>): nat
    requires |b| == 4
  {
    (b[0] as int) + 0x100 * (b[1] as int) + 0x1_0000 * (b[2] as int) + 0x100_0000 * (b[3] as int)
  }

  lemma FourBytesValue(s: seq<byte>)
    requires |s| >= 4
    ensures LittleEndianValue(s) == Combine(s[..4]) + SPAN32 * LittleEndianValue(s[4..])
    ensures |s| == 4 ==> LittleEndianValue(s[4..]) == 0
  {
    var a := s[1..];
    var b := a[1..];
    var c := b[1..];
    assert c[1..] == s[4..];
    assert LittleEndianValue(c) == c[0] + 256 * LittleEndianValue(s[4..]);
    assert LittleEndianValue(b) == b[0] + 256 * LittleEndianValue(c);
    assert LittleEndianValue(a) == a[0] + 256 * LittleEndianValue(b);
  }

  /** A varint, narrowed to the field's integer type with a check that nothing is lost. */
  method DecodeInteger(stream: InputStream, t: LType) returns (ok: bool, x: int)
    requires stream.Valid() && (t.Varint? || t.UVarint? || t.SVarint?)
    modifies stream
    ensures stream.Valid() && stream.End() == old(stream.End())
    ensures DecodeNumber(t, old(stream.Rest())) == if ok then Some((Number(x), stream.Rest())) else None
  {
    hide Decode64, Signed, UnZigZag, Pow2, ToU64;
    var value;
    ok, value := stream.DecodeVarint();
    if !ok || !ValidSize(t.size) {
      return false, 0;
    }
    var clamped: int;
    if t.Varint? {
      x := Signed(value, if t.size == 8 then 64 else 32);
      clamped := Signed(ToU64(x), 8 * t.size);
    } else if t.UVarint? {
      x := value;
      clamped := value % Pow2(8 * t.size);
    } else {
      x := UnZigZag(value);
      clamped := Signed(ToU64(x), 8 * t.size);
    }
    ok := clamped == x;
  }

  method DecodeNumberFrom(stream: InputStream, t: LType) returns (ok: bool, v: Value)
    requires stream.Valid() && Packable(t)
    modifies stream
    ensures stream.Valid() && stream.End() == old(stream.End())
    ensures DecodeNumber(t, old(stream.Rest())) == if ok then Some((v, stream.Rest())) else None
  {
    hide Decode64, Narrowed, LittleEndianValue;
    var x;
    if t.Fixed32? {
      ok, x := DecodeFixed(stream, 4);
    } else if t.Fixed64? {
      ok, x := DecodeFixed(stream, 8);
    } else {
      ok, x := DecodeInteger(stream, t);
    }
    v := Number(x);
  }

  method DecodeBlobFrom(stream: InputStream, t: LType) returns (ok: bool, v: Value)
    requires stream.Valid() && (t.Bytes? || t.String? || t.FixedBytes?)
    modifies stream
    ensures stream.Valid() && stream.End() == old(stream.End())
    ensures DecodeBlob(t, old(stream.Rest())) == if ok then Some((v, stream.Rest())) else None
  {
    hide Decode32;
    v := Zero(t);
    var size, eof;
    ok, size, eof := stream.DecodeVarint32();
    if !ok {
      return;
    }
    if t.Bytes? && (size > SIZE_MAX || size + 1 > t.dataSize) {
      return false, v;
    }
    if t.String? && size + 1 > t.dataSize {
      return false, v;
    }
    if t.FixedBytes? {
      if size > SIZE_MAX {
        return false, v;
      }
      if size == 0 {
        return true, v;
      }
      if size != t.dataSize {
        return false, v;
      }
    }
    var data;
    ok, data := stream.Read(size);
    v := Blob(data);
  }

  // ----- defaults -----

  /** Sets a structure to its defaults, field by field. */
  method SetToDefaults(fields: seq<Field>) returns (slots: seq<Slot>)
    ensures slots == Defaults(fields, |fields|) && AllAtDefault(fields, slots)
    decreases fields, 0
  {
    hide FieldIter.Valid, DefaultSlot, AllAtDefault;
    DefaultsAreDefault(fields);
    slots := [];
    var iter := new FieldIter(fields, 0);
    if fields == [] {
      return;
    }
    var more := true;
    while more
      invariant iter.Valid() && iter.fields == fields && fresh(iter)
      invariant if more then iter.pos < |fields| && slots == Defaults(fields, iter.pos)
                else slots == Defaults(fields, |fields|)
      decreases if more then |fields| - iter.pos else 0
    {
      var i := iter.pos;
      if JoinsPrevious(fields, i) {
        slots := slots + [Joined];
      } else {
        var slot := SetFieldToDefault(fields[i]);
        slots := slots + [slot];
      }
      more := iter.Next();
    }
  }

  method SetFieldToDefault(field: Field) returns (slot: Slot)
    ensures slot == DefaultSlot(field) && FieldAtDefault(field, slot)
    decreases field, 1
  {
    hide ValueAtDefault;
    match field.htype
    case Repeated(_) => slot := Many([]);
    case OneOf => slot := Choice(0, Number(0));
    case Required =>
      var v := InitialValue(field);
      slot := Single(v);
    case Optional =>
      var v := InitialValue(field);
      slot := Maybe(false, v);
  }

  method InitialValue(field: Field) returns (v: Value)
    ensures v == DefaultValue(field) && ValueAtDefault(field, v)
    decreases field, 0
  {
    hide AllAtDefault, Zero, IsZero;
    ZeroIsZero(field.ltype);
    if field.ltype.Submessage? {
      var slots := SetToDefaults(field.ltype.fields);
      v := Message(slots);
    } else if field.init.Some? {
      v := field.init.value;
    } else {
      v := Zero(field.ltype);
    }
  }

  // ----- fields -----

  /** A nested message, from a substream of its own; what the message leaves of it is skipped. */
  method DecodeSubmessage(stream: InputStream, fields: seq<Field>, base: Value) returns (ok: bool, v: Value)
    requires stream.Valid() && WellFormedSchema(fields)
    modifies stream
    ensures stream.Valid() && stream.End() <= old(stream.End()) && (ok ==> stream.End() == old(stream.End()))
    ensures DecodeValue(Submessage(fields), base, old(stream.Rest())) == if ok then Some((v, stream.Rest())) else None
    decreases fields, 2
  {
    hide Split, DecodeNoInit;
    v := base;
    var made, sub := stream.MakeSubstream();
    if !made || !base.Message? {
      return false, v;
    }
    var slots;
    ok, slots := DecodeMessageNoInit(sub, fields, base.slots);
    stream.CloseSubstream(sub);
    v := Message(slots);
  }

  method DecodeValueFrom(stream: InputStream, field: Field, base: Value) returns (ok: bool, v: Value)
    requires stream.Valid() && WellFormedField(field)
    modifies stream
    ensures stream.Valid() && stream.End() <= old(stream.End()) && (ok ==> stream.End() == old(stream.End()))
    ensures DecodeValue(field.ltype, base, old(stream.Rest())) == if ok then Some((v, stream.Rest())) else None
    decreases field, 0
  {
    hide DecodeNumber, DecodeBlob, DecodeNoInit;
    if Packable(field.ltype) {
      ok, v := DecodeNumberFrom(stream, field.ltype);
    } else if field.ltype.Submessage? {
      ok, v := DecodeSubmessage(stream, field.ltype.fields, base);
    } else {
      ok, v := DecodeBlobFrom(stream, field.ltype);
    }
  }

  /** A packed array: items until the substream or the capacity is used up. */
  method DecodePackedFrom(stream: InputStream, field: Field, items: seq<Value>) returns (ok: bool, all: seq<Value>)
    requires stream.Valid() && field.htype.Repeated? && Packable(field.ltype)
    modifies stream
    ensures stream.Valid() && stream.End() <= old(stream.End()) && (ok ==> stream.End() == old(stream.End()))
    ensures (match Split(old(stream.Rest()))
             case None => None
             case Some((body, rest)) =>
               (match DecodePacked(field.ltype, field.htype.arraySize, items, body)
                case None => None
                case Some(decoded) => Some((decoded, rest)))) == if ok then Some((all, stream.Rest())) else None
  {
    hide Split, DecodeNumber;
    all := items;
    var made, sub := stream.MakeSubstream();
    if !made {
      return false, all;
    }
    var status := true;
    ghost var body, start, left := sub.Rest(), stream.state, stream.bytesLeft;
    while sub.bytesLeft > 0 && |all| < field.htype.arraySize && status
      invariant stream.state == start && stream.bytesLeft == left
      invariant sub.Valid() && sub.End() + left == old(stream.End())
      invariant DecodePacked(field.ltype, field.htype.arraySize, items, body) ==
                if status then DecodePacked(field.ltype, field.htype.arraySize, all, sub.Rest()) else None
      decreases status, sub.bytesLeft
    {
      var v;
      status, v := DecodeNumberFrom(sub, field.ltype);
      if status {
        all := all + [v];
      }
    }
    if sub.bytesLeft != 0 {
      return false, all;
    }
    stream.CloseSubstream(sub);
    ok := status;
  }

  method DecodeFieldFrom(stream: InputStream, field: Field, wire: nat, slot: Slot) returns (ok: bool, next: Slot)
    requires stream.Valid() && WellFormedField(field)
    modifies stream
    ensures stream.Valid() && stream.End() <= old(stream.End()) && (ok ==> stream.End() == old(stream.End()))
    ensures DecodeField(field, wire, slot, old(stream.Rest())) == if ok then Some((next, stream.Rest())) else None
    decreases field, 2
  {
    hide DecodeValue, DecodePacked, Split, DefaultValue;
    next := slot;
    var v;
    match field.htype
    case Required =>
      if !slot.Single? {
        return false, slot;
      }
      ok, v := DecodeValueFrom(stream, field, slot.value);
      next := Single(v);
    case Optional =>
      if !slot.Maybe? {
        return false, slot;
      }
      ok, v := DecodeValueFrom(stream, field, slot.value);
      next := Maybe(true, v);
    case Repeated(arraySize) =>
      if !slot.Many? {
        return false, slot;
      }
      if wire == WT_STRING && Packable(field.ltype) {
        var items;
        ok, items := DecodePackedFrom(stream, field, slot.items);
        next := Many(items);
        return;
      }
      if |slot.items| >= arraySize {
        return false, slot;
      }
      var base := InitialValue(field);
      ok, v := DecodeValueFrom(stream, field, base);
      next := Many(slot.items + [v]);
    case OneOf =>
      if !slot.Choice? {
        return false, slot;
      }
      var base := InitialValue(field);
      ok, v := DecodeValueFrom(stream, field, base);
      next := Choice(field.tag, v);
  }

  // ----- keys -----

  /** Reads a key; `eof` tells that a key of zero ended the message. */
  method DecodeTag(stream: InputStream) returns (ok: bool, wire: nat, tag: nat, eof: bool)
    requires stream.Valid() && stream.bytesLeft > 0
    modifies stream
    ensures stream.Valid() && stream.End() == old(stream.End())
    ensures match Decode32(old(stream.Rest()))
            case None => !ok && !eof
            case Some((key, rest)) =>
              && stream.Rest() == rest && ok == (key != 0) && eof == (key == 0)
              && (ok ==> wire == key % 8 && tag == key / 8)
  {
    hide Decode32;
    wire, tag := 0, 0;
    var temp;
    ok, temp, eof := stream.DecodeVarint32();
    if !ok {
      return;
    }
    if temp == 0 {
      return false, 0, 0, true;
    }
    return true, temp % 8, temp / 8, false;
  }

  // ----- required fields -----

  /** The words note exactly the required fields of `met`, of the first sixty-four. */
  ghost predicate NotedAre(fields: seq<Field>, words: seq<bv32>, met: set<nat>) {
    && |words| == 2
    && (forall i | 0 <= i < |fields| && fields[i].htype.Required? && RequiredBefore(fields, i) < MAX_REQUIRED_FIELDS ::
          FieldsSeen.Noted(words, RequiredBefore(fields, i)) <==> i in met)
    && (forall k | RequiredBefore(fields, |fields|) <= k < MAX_REQUIRED_FIELDS :: !FieldsSeen.Noted(words, k))
  }

  lemma {:induction false} RequiredGrows(fields: seq<Field>, i: nat, j: nat)
    requires i < j <= |fields|
    ensures RequiredBefore(fields, i) + (if fields[i].htype.Required? then 1 else 0) <= RequiredBefore(fields, j)
  {
    if i + 1 < j {
      RequiredGrows(fields, i, j - 1);
    }
  }

  /** Required fields are numbered without gaps. */
  lemma {:induction false} RequiredNumbered(fields: seq<Field>, n: nat, k: nat) returns (i: nat)
    requires n <= |fields| && k < RequiredBefore(fields, n)
    ensures i < n && fields[i].htype.Required? && RequiredBefore(fields, i) == k
  {
    if k < RequiredBefore(fields, n - 1) {
      i := RequiredNumbered(fields, n - 1, k);
    } else {
      i := n - 1;
    }
  }

  lemma NothingNoted(fields: seq<Field>, words: seq<bv32>)
    requires words == [0, 0]
    ensures NotedAre(fields, words, {})
  {
    hide FieldsSeen.Has;
    forall k | 0 <= k < MAX_REQUIRED_FIELDS ensures !FieldsSeen.Noted(words, k) {
      FieldsSeen.NoneHas(k % 32);
    }
  }

  /** Notes field `i` as met. */
  method NoteField(fields: seq<Field>, fieldsSeen: array<bv32>, i: nat, requiredFieldIndex: nat, ghost met: set<nat>)
    requires i < |fields| && requiredFieldIndex == RequiredBefore(fields, i)
    requires fieldsSeen.Length == 2 && NotedAre(fields, fieldsSeen[..], met)
    modifies fieldsSeen
    ensures NotedAre(fields, fieldsSeen[..], if fields[i].htype.Required? then met + {i} else met)
  {
    hide FieldsSeen.Noted, RequiredBefore;
    if fields[i].htype.Required? && requiredFieldIndex < MAX_REQUIRED_FIELDS {
      FieldsSeen.Note(fieldsSeen, requiredFieldIndex);
      RequiredGrows(fields, i, |fields|);
      forall j | 0 <= j < |fields| && fields[j].htype.Required? && j != i
        ensures RequiredBefore(fields, j) != RequiredBefore(fields, i)
      {
        if j < i {
          RequiredGrows(fields, j, i);
        } else {
          RequiredGrows(fields, i, j);
        }
      }
    }
  }

  lemma SeenIffNoted(fields: seq<Field>, words: seq<bv32>, met: set<nat>, count: nat)
    requires NotedAre(fields, words, met)
    requires count == if RequiredBefore(fields, |fields|) > MAX_REQUIRED_FIELDS then MAX_REQUIRED_FIELDS
             else RequiredBefore(fields, |fields|)
    ensures AllSeen(fields, met) <==> forall k | 0 <= k < count :: FieldsSeen.Noted(words, k)
  {
    hide FieldsSeen.Noted, RequiredBefore;
    forall i | 0 <= i < |fields| && fields[i].htype.Required?
      ensures RequiredBefore(fields, i) < RequiredBefore(fields, |fields|)
    {
      RequiredGrows(fields, i, |fields|);
    }
    if AllSeen(fields, met) {
      forall k | 0 <= k < count ensures FieldsSeen.Noted(words, k) {
        var i := RequiredNumbered(fields, |fields|, k);
      }
    }
  }

  /** Counts the required fields by stepping to the end. */
  method CountRequired(fields: seq<Field>, iter: FieldIter) returns (count: nat)
    requires iter.Valid() && iter.fields == fields && WellFormedSchema(fields)
    modifies iter
    ensures count == RequiredBefore(fields, |fields|)
  {
    var lastRequired, more := true, true;
    count := 0;
    while more
      invariant iter.Valid() && iter.fields == fields
      invariant !more && fields == [] ==> count == 0
      invariant !more && fields != [] ==>
                  count == RequiredBefore(fields, |fields| - 1) && lastRequired == fields[|fields| - 1].htype.Required?
      decreases if more then |fields| - iter.pos + 1 else 0
    {
      count := iter.requiredFieldIndex;
      lastRequired := fields == [] || fields[iter.pos].htype.Required?;
      more := iter.Next();
    }
    if fields != [] {
      FindsField(fields, iter.pos);
    }
    if lastRequired && iter.Tag() != 0 {
      count := count + 1;
    }
  }

  /** Checks that each of the first sixty-four required fields was met. */
  method CheckRequired(fields: seq<Field>, iter: FieldIter, fieldsSeen: array<bv32>, ghost met: set<nat>)
    returns (ok: bool)
    requires iter.Valid() && iter.fields == fields && WellFormedSchema(fields)
    requires fieldsSeen.Length == 2 && NotedAre(fields, fieldsSeen[..], met)
    modifies iter
    ensures ok <==> AllSeen(fields, met)
  {
    hide FieldsSeen.Noted, RequiredBefore;
    var count := CountRequired(fields, iter);
    if count > MAX_REQUIRED_FIELDS {
      count := MAX_REQUIRED_FIELDS;
    }
    ghost var words := fieldsSeen[..];
    SeenIffNoted(fields, words, met, count);
    if count == 0 {
      return true;
    }
    ok := FieldsSeen.CheckNoted(fieldsSeen, count);
    assert fieldsSeen[..] == words;
  }

  // ----- messages -----

  /** Decodes a message into a structure that has been initialized. */
  method DecodeMessageNoInit(stream: InputStream, fields: seq<Field>, slots: seq<Slot>)
    returns (ok: bool, next: seq<Slot>)
    requires stream.Valid() && WellFormedSchema(fields)
    modifies stream
    ensures stream.Valid() && stream.End() <= old(stream.End()) && (ok ==> stream.End() == old(stream.End()))
    ensures DecodeNoInit(fields, slots, old(stream.Rest())) == if ok then Some(next) else None
    decreases fields, 1
  {
    hide DecodeOne, NotedAre, WellFormedSchema;
    next := slots;
    if |slots| != |fields| {
      return false, next;
    }
    var fieldsSeen := new bv32[2](_ => 0);
    assert fieldsSeen[..] == [0, 0];
    NothingNoted(fields, fieldsSeen[..]);
    var iter := new FieldIter(fields, 0);
    ghost var met: set<nat> := {};
    var more := true;
    while stream.bytesLeft > 0 && more
      invariant stream.Valid() && stream.End() == old(stream.End()) && iter.Valid() && iter.fields == fields
      invariant |next| == |fields| && NotedAre(fields, fieldsSeen[..], met)
      invariant DecodeLoop(fields, slots, {}, old(stream.Rest())) ==
                if more then DecodeLoop(fields, next, met, stream.Rest()) else Some((next, met, stream.Rest()))
      decreases more, stream.bytesLeft
    {
      ghost var turn := DecodeOne(fields, next, met, stream.Rest());
      ok, more, next := DecodeTurn(stream, fields, iter, fieldsSeen, next, met);
      if !ok {
        return;
      }
      if more {
        met := turn.seen;
      }
    }
    ok := CheckRequired(fields, iter, fieldsSeen, met);
  }

  /** One turn of the decoding loop. */
  method DecodeTurn(stream: InputStream, fields: seq<Field>, iter: FieldIter, fieldsSeen: array<bv32>, slots: seq<Slot>,
                    ghost met: set<nat>) returns (ok: bool, more: bool, next: seq<Slot>)
    requires stream.Valid() && stream.bytesLeft > 0 && WellFormedSchema(fields) && |slots| == |fields|
    requires iter.Valid() && iter.fields == fields && fieldsSeen.Length == 2 && NotedAre(fields, fieldsSeen[..], met)
    modifies stream, iter, fieldsSeen
    ensures stream.Valid() && stream.End() <= old(stream.End()) && (ok ==> stream.End() == old(stream.End()))
    ensures iter.Valid() && |next| == |fields|
    ensures match DecodeOne(fields, slots, met, old(stream.Rest()))
            case Stop(left) => ok && !more && next == slots && stream.Rest() == left
                && NotedAre(fields, fieldsSeen[..], met)
            case Fail => !ok
            case Next(after, seen, rest) =>
              ok && more && next == after && stream.Rest() == rest && NotedAre(fields, fieldsSeen[..], seen)
    decreases fields, 0
  {
    hide Decode32, Skip, DecodeField, Find, NotedAre, Home;
    next, more := slots, true;
    var wire, tag, eof;
    ok, wire, tag, eof := DecodeTag(stream);
    if !ok {
      return eof, false, slots;
    }
    var found := iter.Find(tag);
    FoundIsFind(fields, tag, iter.pos);
    if !found {
      ok := stream.SkipField(wire);
      return;
    }
    if fields == [] {
      // The terminator of an empty list matches tag zero, and its integer type has no valid size.
      var x;
      ok, x := DecodeInteger(stream, Varint(0));
      return;
    }
    var i := iter.pos;
    NoteField(fields, fieldsSeen, i, iter.requiredFieldIndex, met);
    WellFormedHas(fields, i);
    var slot;
    ok, slot := DecodeFieldFrom(stream, fields[i], wire, slots[Home(fields, i)]);
    next := slots[Home(fields, i) := slot];
  }

  lemma FoundIsFind(fields: seq<Field>, tag: nat, i: nat)
    requires WellFormedSchema(fields)
    ensures Find(fields, tag).Some? <==> exists k :: 0 <= k < |fields| && fields[k].tag == tag
    ensures i < |fields| && fields[i].tag == tag ==> Find(fields, tag) == Some(i)
  {
    if i < |fields| && fields[i].tag == tag {
      FindsField(fields, i);
    }
  }

  /** Decodes a message over the defaults. */
  method DecodeMessage(stream: InputStream, fields: seq<Field>) returns (ok: bool, slots: seq<Slot>)
    requires stream.Valid() && WellFormedSchema(fields)
    modifies stream
    ensures stream.Valid()
    ensures Messages.Decode(fields, old(stream.Rest())) == if ok then Some(slots) else None
  {
    hide DecodeNoInit, WellFormedSchema;
    var base := SetToDefaults(fields);
    ok, slots := DecodeMessageNoInit(stream, fields, base);
  }
}
