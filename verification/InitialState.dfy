/** What an untouched structure holds: no field present, and every value the one its schema gives, or
    zero. */
module InitialState {
  import opened Basics
  import opened BigEndian
  import opened Messages

  /** Zero, nothing, or as many zero bytes as the field has. */
  predicate IsZero(t: LType, v: Value) {
    match t
    case Bytes(_) | String(_) => v == Blob([])
    case FixedBytes(dataSize) => v.Blob? && |v.bytes| == dataSize && forall k | 0 <= k < dataSize :: v.bytes[k] == 0
    case _ => v == Number(0)
  }

  /** The initial value of the field's declaration if there is one, and otherwise zero; a nested structure is
      at its own defaults. */
  ghost predicate ValueAtDefault(field: Field, v: Value)
    decreases field, 0
  {
    if field.ltype.Submessage? then v.Message? && AllAtDefault(field.ltype.fields, v.slots)
    else if field.init.Some? then v == field.init.value
    else IsZero(field.ltype, v)
  }

  /** The presence flag is down, the counter has not counted, and no member of the union is chosen. */
  ghost predicate FieldAtDefault(field: Field, slot: Slot)
    decreases field, 1
  {
    match field.htype
    case Required => slot.Single? && ValueAtDefault(field, slot.value)
    case Optional => slot.Maybe? && !slot.has && ValueAtDefault(field, slot.value)
    case Repeated(_) => slot == Many([])
    case OneOf => slot.Choice? && slot.which == 0
  }

  ghost predicate SlotAtDefault(fields: seq<Field>, i: nat, slot: Slot)
    requires i < |fields|
    decreases fields, 0
  {
    if JoinsPrevious(fields, i) then slot == Joined else FieldAtDefault(fields[i], slot)
  }

  ghost predicate AllAtDefault(fields: seq<Field>, slots: seq<Slot>)
    decreases fields, 1
  {
    |slots| == |fields| && forall i | 0 <= i < |fields| :: SlotAtDefault(fields, i, slots[i])
  }

  lemma ZeroIsZero(t: LType)
    ensures IsZero(t, Zero(t))
  {
  }

  lemma {:induction false} DefaultValueIsDefault(field: Field)
    ensures ValueAtDefault(field, DefaultValue(field))
    decreases field, 0
  {
    hide Zero, IsZero, AllAtDefault;
    if field.ltype.Submessage? {
      DefaultsAreDefault(field.ltype.fields);
    } else if field.init.None? {
      ZeroIsZero(field.ltype);
    }
  }

  lemma DefaultSlotIsDefault(field: Field)
    ensures FieldAtDefault(field, DefaultSlot(field))
  {
    hide ValueAtDefault, DefaultValue;
    DefaultValueIsDefault(field);
  }

  lemma {:induction false} DefaultsAt(fields: seq<Field>, n: nat, h: nat)
    requires h < n <= |fields|
    ensures Defaults(fields, n)[h] == if JoinsPrevious(fields, h) then Joined else DefaultSlot(fields[h])
  {
    if h < n - 1 {
      DefaultsAt(fields, n - 1, h);
    }
  }

  /** Setting a structure to its defaults leaves it so. */
  lemma {:induction false} DefaultsAreDefault(fields: seq<Field>)
    ensures AllAtDefault(fields, Defaults(fields, |fields|))
    decreases fields, 1
  {
    hide DefaultSlot, FieldAtDefault;
    forall i | 0 <= i < |fields| ensures SlotAtDefault(fields, i, Defaults(fields, |fields|)[i]) {
      DefaultsAt(fields, |fields|, i);
      if !JoinsPrevious(fields, i) {
        DefaultSlotIsDefault(fields[i]);
      }
    }
  }

  /** Nothing decodes to a structure at its defaults, unless one of the first required fields is missing. */
  lemma NothingDecodes(fields: seq<Field>)
    ensures Decode(fields, []).Some? <==>
            forall i | 0 <= i < |fields| && fields[i].htype.Required? ::
              RequiredBefore(fields, i) >= 64
    ensures Decode(fields, []).Some? ==> AllAtDefault(fields, Decode(fields, []).value)
  {
    hide AllAtDefault, DecodeOne, Defaults;
    var slots := Defaults(fields, |fields|);
    DefaultsAreDefault(fields);
    assert DecodeLoop(fields, slots, {}, []) == Some((slots, {}, []));
  }
}
