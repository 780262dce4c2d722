/** Protocol Buffers messages: schemas as nested field lists, the structures that hold a message, and
    what encoding and decoding do, on values. */
module Messages {
  import opened Basics
  import opened BigEndian
  import opened Varints

  /** `PB_SIZE_MAX` of the default build, where sizes and counts are single bytes. */
  const SIZE_MAX := 0xff
  const MAX_REQUIRED_FIELDS := 64

  /** The data type of a field; sizes are in bytes. */
  datatype LType =
    | Varint(size: nat)
    | UVarint(size: nat)
    | SVarint(size: nat)
    | Fixed32
    | Fixed64
    | Bytes(dataSize: nat)
    | String(dataSize: nat)
    | FixedBytes(dataSize: nat)
    | Submessage(fields: seq<Field>)

  /** How often a field occurs. */
  datatype HType = Required | Optional | Repeated(arraySize: nat) | OneOf

  /** Where a field lies in the structure: its distance from the end of the field before, the distance of
      its counter from its data, the size of one item, and whether there is only a pointer to it. */
  datatype Place = Place(dataOffset: nat, sizeOffset: int, dataSize: nat, isPointer: bool)

  /** `pb_field_t`, with the default value of a field that has one. */
  datatype Field = Field(tag: nat, htype: HType, ltype: LType, init: Option<Value>, place: Place)

  /** A value of one field: a number, the contents of a byte array or of a string up to its
      terminator, or a nested structure. */
  datatype Value = Number(v: int) | Blob(bytes: seq<byte>) | Message(slots: seq<Slot>)

  /** The storage of a field. A union is stored with its first field; `Joined` marks the others. */
  datatype Slot =
    | Single(value: Value)
    | Maybe(has: bool, value: Value)
    | Many(items: seq<Value>)
    | Choice(which: nat, value: Value)
    | Joined

  predicate Packable(t: LType) {
    t.Varint? || t.UVarint? || t.SVarint? || t.Fixed32? || t.Fixed64?
  }

  /** The field shares its union with the one before: both are of a oneof, and the offset is the marker. */
  predicate JoinsPrevious(fields: seq<Field>, i: nat)
    requires i < |fields|
  {
    i > 0 && fields[i - 1].htype.OneOf? && fields[i].htype.OneOf? && fields[i].place.dataOffset == SIZE_MAX
  }

  /** Where field `i` is stored. */
  function Home(fields: seq<Field>, i: nat): (h: nat)
    requires i < |fields|
    ensures h <= i
  {
    if JoinsPrevious(fields, i) then Home(fields, i - 1) else i
  }

  // ----- encoding -----

  const WT_VARINT := 0
  const WT_64BIT := 1
  const WT_STRING := 2
  const WT_32BIT := 5

  function WireType(t: LType): nat {
    match t
    case Varint(_) | UVarint(_) | SVarint(_) => WT_VARINT
    case Fixed32 => WT_32BIT
    case Fixed64 => WT_64BIT
    case _ => WT_STRING
  }

  function Key(wire: nat, tag: nat): seq<byte> {
    Encode((8 * tag + wire) % SPAN64)
  }

  /** `body` after its length. */
  function Delimited(body: seq<byte>): seq<byte> {
    Encode(|body| % SPAN64) + body
  }

  /** The length of a string in a buffer of `max` characters: up to the first zero. */
  function StringLength(b: seq<byte>, max: nat): (n: nat)
    ensures n <= |b| && n <= max
  {
    if b == [] || max == 0 || b[0] == 0 then 0 else 1 + StringLength(b[1..], max - 1)
  }

  function EncodeValue(t: LType, v: Value): Option<seq<byte>>
    decreases t, 0
  {
    match v
    case Number(x) => EncodeNumber(t, x)
    case Blob(b) => EncodeBlob(t, b)
    case Message(slots) =>
      if !t.Submessage? then None
      else match EncodeFrom(t.fields, slots, 0) case None => None case Some(body) => Some(Delimited(body))
  }

  predicate ValidSize(size: nat) {
    size == 1 || size == 2 || size == 4 || size == 8
  }

  function EncodeNumber(t: LType, x: int): Option<seq<byte>> {
    match t
    case Varint(size) => if ValidSize(size) then Some(Encode(ToU64(x))) else None
    case UVarint(size) => if ValidSize(size) then Some(Encode(ToU64(x))) else None
    case SVarint(size) => if ValidSize(size) then Some(Encode(ToU64(ZigZag(x)))) else None
    case Fixed32 => Some(LittleEndian(x % SPAN32, 4))
    case Fixed64 => Some(LittleEndian(x % SPAN64, 8))
    case _ => None
  }

  function EncodeBlob(t: LType, b: seq<byte>): Option<seq<byte>> {
    match t
    case Bytes(dataSize) => if |b| + 1 > dataSize then None else Some(Delimited(b))
    case String(dataSize) => Some(Delimited(b[..StringLength(b, dataSize)]))
    case FixedBytes(dataSize) => if |b| != dataSize then None else Some(Delimited(b))
    case _ => None
  }

  /** The items of an array, each after its key if `keyed`. */
  function EncodeItems(field: Field, items: seq<Value>, keyed: bool): Option<seq<byte>>
    decreases field, |items|
  {
    if items == [] then Some([])
    else match EncodeValue(field.ltype, items[0])
      case None => None
      case Some(head) =>
        match EncodeItems(field, items[1..], keyed)
        case None => None
        case Some(rest) => Some((if keyed then Key(WireType(field.ltype), field.tag) else []) + head + rest)
  }

  /** One value after its key. */
  function EncodeKeyed(field: Field, v: Value): Option<seq<byte>>
    decreases field, 0
  {
    match EncodeValue(field.ltype, v)
    case None => None
    case Some(b) => Some(Key(WireType(field.ltype), field.tag) + b)
  }

  function EncodeArray(field: Field, items: seq<Value>): Option<seq<byte>>
    requires field.htype.Repeated?
    decreases field, |items| + 1
  {
    if items == [] then Some([])
    else if |items| > field.htype.arraySize then None
    else if Packable(field.ltype) then
      match EncodeItems(field, items, false)
      case None => None
      case Some(body) => Some(Key(WT_STRING, field.tag) + Delimited(body))
    else EncodeItems(field, items, true)
  }

  function EncodeField(field: Field, slot: Slot): Option<seq<byte>>
    decreases field, if slot.Many? then |slot.items| + 2 else 1
  {
    match slot
    case Single(v) => if field.htype.Required? then EncodeKeyed(field, v) else None
    case Maybe(has, v) => if !field.htype.Optional? then None else if has then EncodeKeyed(field, v) else Some([])
    case Many(items) => if !field.htype.Repeated? then None else EncodeArray(field, items)
    case Choice(which, v) =>
      if !field.htype.OneOf? then None else if which == field.tag then EncodeKeyed(field, v) else Some([])
    case Joined => None
  }

  /** Fields `i` and up, in order. */
  function EncodeFrom(fields: seq<Field>, slots: seq<Slot>, i: nat): Option<seq<byte>>
    decreases fields, if i <= |fields| then |fields| - i else 0
  {
    if |slots| != |fields| then None
    else if i >= |fields| then Some([])
    else match EncodeField(fields[i], slots[Home(fields, i)])
      case None => None
      case Some(head) =>
        match EncodeFrom(fields, slots, i + 1)
        case None => None
        case Some(rest) => Some(head + rest)
  }

  // ----- defaults -----

  function DefaultValue(field: Field): Value
    decreases field, 0
  {
    match field.ltype
    case Submessage(fields) => Message(Defaults(fields, |fields|))
    case _ => if field.init.Some? then field.init.value else Zero(field.ltype)
  }

  function Zero(t: LType): Value {
    match t
    case Bytes(_) | String(_) => Blob([])
    case FixedBytes(dataSize) => Blob(seq(dataSize, _ => 0))
    case _ => Number(0)
  }

  function DefaultSlot(field: Field): Slot
    decreases field, 1
  {
    match field.htype
    case Required => Single(DefaultValue(field))
    case Optional => Maybe(false, DefaultValue(field))
    case Repeated(_) => Many([])
    case OneOf => Choice(0, Number(0))
  }

  /** The first `n` fields of a structure set to their defaults. */
  function Defaults(fields: seq<Field>, n: nat): (slots: seq<Slot>)
    requires n <= |fields|
    ensures |slots| == n
    decreases fields, n
  {
    if n == 0 then []
    else Defaults(fields, n - 1) + [if JoinsPrevious(fields, n - 1) then Joined else DefaultSlot(fields[n - 1])]
  }

  // ----- decoding -----

  function Find(fields: seq<Field>, tag: nat): (i: Option<nat>)
    ensures i.Some? ==> i.value < |fields| && fields[i.value].tag == tag
    ensures i.None? ==> forall k | 0 <= k < |fields| :: fields[k].tag != tag
  {
    if fields == [] then None
    else
      var last := |fields| - 1;
      if fields[last].tag == tag then Some(last) else Find(fields[..last], tag)
  }

  /** A length and that many bytes. */
  function Split(s: seq<byte>): (r: Option<(seq<byte>, seq<byte>)>)
    ensures r.Some? ==> |r.value.0| + |r.value.1| < |s|
  {
    match Decode32(s)
    case None => None
    case Some((size, rest)) => if size > |rest| then None else Some((rest[..size], rest[size..]))
  }

  function Skip(wire: nat, s: seq<byte>): (r: Option<seq<byte>>)
    ensures r.Some? ==> |r.value| <= |s|
  {
    if wire == WT_VARINT then match Extent(s) case None => None case Some(n) => Some(s[n..])
    else if wire == WT_64BIT then if |s| < 8 then None else Some(s[8..])
    else if wire == WT_STRING then match Split(s) case None => None case Some((_, rest)) => Some(rest)
    else if wire == WT_32BIT then if |s| < 4 then None else Some(s[4..])
    else None
  }

  function DecodeNumber(t: LType, s: seq<byte>): (r: Option<(Value, seq<byte>)>)
    requires Packable(t)
    ensures r.Some? ==> |r.value.1| < |s|
  {
    match t
    case Fixed32 => if |s| < 4 then None else Some((Number(LittleEndianValue(s[..4])), s[4..]))
    case Fixed64 => if |s| < 8 then None else Some((Number(LittleEndianValue(s[..8])), s[8..]))
    case _ =>
      match Decode64(s)
      case None => None
      case Some((u, rest)) => match Narrowed(t, u) case None => None case Some(x) => Some((Number(x), rest))
  }

  /** The number for the field that `u` stands for, if it fits there. */
  function Narrowed(t: LType, u: nat): Option<int>
    requires u < SPAN64
  {
    match t
    case Varint(size) =>
      var x := Signed(u, if size == 8 then 64 else 32);
      if ValidSize(size) && Signed(ToU64(x), 8 * size) == x then Some(x) else None
    case UVarint(size) => if ValidSize(size) && u % Pow2(8 * size) == u then Some(u) else None
    case SVarint(size) =>
      var x := UnZigZag(u);
      if ValidSize(size) && Signed(ToU64(x), 8 * size) == x then Some(x) else None
    case _ => None
  }

  function DecodeBlob(t: LType, s: seq<byte>): (r: Option<(Value, seq<byte>)>)
    ensures r.Some? ==> |r.value.1| <= |s|
  {
    match Decode32(s)
    case None => None
    case Some((size, rest)) =>
      if t.Bytes? && (size > SIZE_MAX || size + 1 > t.dataSize) then None
      else if t.String? && size + 1 > t.dataSize then None
      else if t.FixedBytes? && size > SIZE_MAX then None
      else if t.FixedBytes? && size == 0 then Some((Zero(t), rest))
      else if t.FixedBytes? && size != t.dataSize then None
      else if size > |rest| then None
      else Some((Blob(rest[..size]), rest[size..]))
  }

  /** One value of a field, decoded over `base`. */
  function DecodeValue(t: LType, base: Value, s: seq<byte>): (r: Option<(Value, seq<byte>)>)
    ensures r.Some? ==> |r.value.1| <= |s|
    ensures r.Some? && Packable(t) ==> |r.value.1| < |s|
    decreases t, 0
  {
    if Packable(t) then DecodeNumber(t, s)
    else if !t.Submessage? then DecodeBlob(t, s)
    else match Split(s)
      case None => None
      case Some((body, rest)) =>
        if !base.Message? then None
        else match DecodeNoInit(t.fields, base.slots, body)
          case None => None
          case Some(slots) => Some((Message(slots), rest))
  }

  /** The items of a packed array, up to the capacity. */
  function DecodePacked(t: LType, arraySize: nat, items: seq<Value>, s: seq<byte>): Option<seq<Value>>
    requires Packable(t)
    decreases |s|
  {
    if s == [] then Some(items)
    else if |items| >= arraySize then None
    else match DecodeNumber(t, s)
      case None => None
      case Some((v, rest)) => DecodePacked(t, arraySize, items + [v], rest)
  }

  function DecodeField(field: Field, wire: nat, slot: Slot, s: seq<byte>): (r: Option<(Slot, seq<byte>)>)
    ensures r.Some? ==> |r.value.1| <= |s|
    decreases field, 1
  {
    match field.htype
    case Required =>
      if !slot.Single? then None
      else (match DecodeValue(field.ltype, slot.value, s)
            case None => None
            case Some((v, rest)) => Some((Single(v), rest)))
    case Optional =>
      if !slot.Maybe? then None
      else (match DecodeValue(field.ltype, slot.value, s)
            case None => None
            case Some((v, rest)) => Some((Maybe(true, v), rest)))
    case Repeated(arraySize) =>
      if !slot.Many? then None
      else if wire == WT_STRING && Packable(field.ltype) then
        match Split(s)
        case None => None
        case Some((body, rest)) =>
          (match DecodePacked(field.ltype, arraySize, slot.items, body)
           case None => None
           case Some(items) => Some((Many(items), rest)))
      else if |slot.items| >= arraySize then None
      else
        (match DecodeValue(field.ltype, DefaultValue(field), s)
         case None => None
         case Some((v, rest)) => Some((Many(slot.items + [v]), rest)))
    case OneOf =>
      if !slot.Choice? then None
      else
        (match DecodeValue(field.ltype, DefaultValue(field), s)
         case None => None
         case Some((v, rest)) => Some((Choice(field.tag, v), rest)))
  }

  /** What one turn of the decoding loop does: end at a zero key, fail, or go on. `seen` holds the
      required fields met so far. */
  datatype Turn = Stop(left: seq<byte>) | Fail | Next(slots: seq<Slot>, seen: set<nat>, rest: seq<byte>)

  function DecodeOne(fields: seq<Field>, slots: seq<Slot>, seen: set<nat>, s: seq<byte>): (turn: Turn)
    requires |slots| == |fields|
    ensures turn.Next? ==> |turn.rest| < |s| && |turn.slots| == |fields|
    decreases fields, |s|, 0
  {
    match Decode32(s)
    case None => Fail
    case Some((key, rest)) =>
      if key == 0 then Stop(rest)
      else if fields == [] && key / 8 == 0 then Fail
      else match Find(fields, key / 8)
        case None => (match Skip(key % 8, rest) case None => Fail case Some(left) => Next(slots, seen, left))
        case Some(i) =>
          var h := Home(fields, i);
          (match DecodeField(fields[i], key % 8, slots[h], rest)
           case None => Fail
           case Some((slot, left)) =>
             Next(slots[h := slot], if fields[i].htype.Required? then seen + {i} else seen, left))
  }

  /** The decoding loop: the structure, the required fields seen and what is left after a zero key. */
  function DecodeLoop(fields: seq<Field>, slots: seq<Slot>, seen: set<nat>, s: seq<byte>):
    (r: Option<(seq<Slot>, set<nat>, seq<byte>)>)
    requires |slots| == |fields|
    decreases fields, |s|, 1
  {
    if s == [] then Some((slots, seen, []))
    else match DecodeOne(fields, slots, seen, s)
      case Stop(left) => Some((slots, seen, left))
      case Fail => None
      case Next(next, met, rest) => DecodeLoop(fields, next, met, rest)
  }

  /** How many of the first `i` fields are required. */
  function RequiredBefore(fields: seq<Field>, i: nat): (n: nat)
    requires i <= |fields|
    ensures n <= i
  {
    if i == 0 then 0 else RequiredBefore(fields, i - 1) + if fields[i - 1].htype.Required? then 1 else 0
  }

  /** Every required field was seen, of the first `MAX_REQUIRED_FIELDS`. */
  predicate AllSeen(fields: seq<Field>, seen: set<nat>) {
    forall i | 0 <= i < |fields| && fields[i].htype.Required? && RequiredBefore(fields, i) < MAX_REQUIRED_FIELDS ::
          i in seen
  }

  function DecodeNoInit(fields: seq<Field>, slots: seq<Slot>, s: seq<byte>): Option<seq<Slot>>
    decreases fields, |s|, 2
  {
    if |slots| != |fields| then None
    else match DecodeLoop(fields, slots, {}, s)
      case None => None
      case Some((next, seen, _)) => if AllSeen(fields, seen) then Some(next) else None
  }

  function Decode(fields: seq<Field>, s: seq<byte>): Option<seq<Slot>> {
    DecodeNoInit(fields, Defaults(fields, |fields|), s)
  }
}
