/** The cyclic iterator over the fields of a message, which keeps a pointer into the message structure
    up to date step by step. */
module FieldIterator {
  import opened Messages

  const POINTER_SIZE := 8

  /** How far a field takes the pointer. */
  function Advance(field: Field): nat {
    if !field.place.isPointer && field.htype.Repeated? then field.place.dataSize * field.htype.arraySize
    else if field.place.isPointer then POINTER_SIZE
    else field.place.dataSize
  }

  /** The offset of field `i` in the structure: all that comes before it, where the members of a union
      have one offset. */
  function Offset(fields: seq<Field>, i: nat): nat
    requires i < |fields|
  {
    if i == 0 then fields[0].place.dataOffset
    else if JoinsPrevious(fields, i) then Offset(fields, i - 1)
    else Offset(fields, i - 1) + Advance(fields[i - 1]) + fields[i].place.dataOffset
  }

  /** Members of a union lie where its first member lies. */
  lemma {:induction false} UnionSharesOffset(fields: seq<Field>, i: nat)
    requires i < |fields|
    ensures Offset(fields, i) == Offset(fields, Home(fields, i))
  {
    if JoinsPrevious(fields, i) {
      UnionSharesOffset(fields, i - 1);
    }
  }

  /** A later field lies no further to the front, and behind all of an earlier one unless a union of
      which both are part is in between. */
  lemma {:induction false} OffsetsGrow(fields: seq<Field>, i: nat, j: nat)
    requires i < j < |fields|
    ensures Offset(fields, i) <= Offset(fields, j)
    ensures !JoinsPrevious(fields, i + 1) ==>
              Offset(fields, i) + Advance(fields[i]) <= Offset(fields, j)
  {
    if i + 1 < j {
      OffsetsGrow(fields, i, j - 1);
    }
  }

  /** Required fields are counted up to the field, joined or not. */
  lemma JoinedIsNotRequired(fields: seq<Field>, i: nat)
    requires i < |fields| && JoinsPrevious(fields, i)
    ensures RequiredBefore(fields, i) == RequiredBefore(fields, i - 1)
  {
  }

  // ----- the layout that the field list was made from -----

  /** A member of the structure: its offset and size, and the offset of its presence flag or counter. */
  datatype Member = Member(at: nat, size: nat, counter: int)

  /** The size of the member in the structure itself. */
  predicate SizeIs(field: Field, size: nat) {
    if field.place.isPointer then size == 8
    else if field.htype.Repeated? then size == field.place.dataSize * field.htype.arraySize
    else size == field.place.dataSize
  }

  /** The field list that the macros of the header make for a structure with these members, where `union[i]`
      marks a member placed in the union of the one before. */
  predicate Describes(fields: seq<Field>, layout: seq<Member>, union: seq<bool>) {
    && |fields| == |layout| == |union|
    && (forall i | 0 <= i < |fields| ::
          && SizeIs(fields[i], layout[i].size)
          && fields[i].place.sizeOffset == layout[i].counter - layout[i].at)
    && (fields != [] ==> !union[0] && fields[0].place.dataOffset == layout[0].at)
    && (forall i | 0 < i < |fields| :: if union[i] then InUnion(fields, layout, i) else Behind(fields, layout, i))
  }

  predicate InUnion(fields: seq<Field>, layout: seq<Member>, i: nat)
    requires 0 < i < |fields| == |layout|
  {
    && fields[i - 1].htype.OneOf? && fields[i].htype.OneOf? && fields[i].place.dataOffset == 0xff
    && layout[i].at == layout[i - 1].at && layout[i].counter == layout[i - 1].counter
  }

  predicate Behind(fields: seq<Field>, layout: seq<Member>, i: nat)
    requires 0 < i < |fields| == |layout|
  {
    layout[i].at == layout[i - 1].at + layout[i - 1].size + fields[i].place.dataOffset
  }

  /** A union that starts 255 bytes behind another looks as if it were the same one. */
  predicate Mistaken(fields: seq<Field>, union: seq<bool>, i: nat)
    requires i < |fields| == |union|
  {
    i > 0 && !union[i] && fields[i - 1].htype.OneOf? && fields[i].htype.OneOf? && fields[i].place.dataOffset == 0xff
  }

  lemma {:induction false} FollowsLayout(fields: seq<Field>, layout: seq<Member>, union: seq<bool>, i: nat)
    requires Describes(fields, layout, union) && i < |fields|
    requires forall k | 0 <= k <= i :: !Mistaken(fields, union, k)
    ensures JoinsPrevious(fields, i) <==> union[i]
    ensures Offset(fields, i) == layout[i].at
    ensures layout[Home(fields, i)].at == layout[i].at && layout[Home(fields, i)].counter == layout[i].counter
  {
    if i > 0 {
      FollowsLayout(fields, layout, union, i - 1);
      assert !Mistaken(fields, union, i);
      assert if union[i] then InUnion(fields, layout, i) else Behind(fields, layout, i);
    }
  }

  /** Adding up leads to every member of the structure exactly if no union is mistaken for the one before. */
  lemma OffsetsAreRight(fields: seq<Field>, layout: seq<Member>, union: seq<bool>)
    requires Describes(fields, layout, union)
    ensures (forall i | 0 <= i < |fields| :: Offset(fields, i) == layout[i].at) <==>
            (forall i | 0 <= i < |fields| :: !Mistaken(fields, union, i))
  {
    if forall i | 0 <= i < |fields| :: !Mistaken(fields, union, i) {
      forall i | 0 <= i < |fields| ensures Offset(fields, i) == layout[i].at {
        FollowsLayout(fields, layout, union, i);
      }
    } else {
      var i :| 0 <= i < |fields| && Mistaken(fields, union, i);
      assert Behind(fields, layout, i);
      assert Offset(fields, i) == Offset(fields, i - 1);
    }
  }

  /** The iterator's two pointers are at the member and at its flag or counter. */
  lemma AtMember(iter: FieldIter, layout: seq<Member>, union: seq<bool>)
    requires iter.Valid() && iter.fields != [] && Describes(iter.fields, layout, union)
    requires forall i | 0 <= i < |iter.fields| :: !Mistaken(iter.fields, union, i)
    ensures iter.pData == iter.destStruct + layout[iter.pos].at
    ensures iter.pSize == iter.destStruct + layout[iter.pos].counter
  {
    FollowsLayout(iter.fields, layout, union, iter.pos);
  }

  class FieldIter {
    const fields: seq<Field>
    const destStruct: nat
    var pos: nat
    var requiredFieldIndex: nat
    var pData: int
    var pSize: int

    /** The pointers are what adding up from the first field would give. */
    ghost predicate Valid()
      reads this
    {
      && (fields == [] ==> pos == 0 && requiredFieldIndex == 0)
      && (fields != [] ==>
            && pos < |fields|
            && requiredFieldIndex == RequiredBefore(fields, pos)
            && pData == destStruct + Offset(fields, pos)
            && pSize == pData + fields[Home(fields, pos)].place.sizeOffset)
    }

    constructor (fields: seq<Field>, destStruct: nat)
      ensures Valid() && pos == 0 && this.fields == fields
    {
      this.fields, this.destStruct := fields, destStruct;
      pos, requiredFieldIndex := 0, 0;
      pData, pSize := destStruct, destStruct;
      new;
      Begin();
    }

    method Begin()
      modifies this
      ensures Valid() && pos == 0
    {
      pos, requiredFieldIndex := 0, 0;
      if fields != [] {
        pData := destStruct + fields[0].place.dataOffset;
        pSize := pData + fields[0].place.sizeOffset;
      }
    }

    /** Steps to the next field, or back to the first after the last. */
    method Next() returns (more: bool)
      requires Valid()
      modifies this
      ensures Valid()
      ensures more <==> old(pos) + 1 < |fields|
      ensures pos == if more then old(pos) + 1 else 0
    {
      if fields == [] {
        return false;
      }
      var prev := pos;
      pos := pos + 1;
      if pos == |fields| {
        Begin();
        return false;
      }
      var prevSize := fields[prev].place.dataSize;
      if JoinsPrevious(fields, pos) {
        JoinedIsNotRequired(fields, pos);
        return true;
      } else if !fields[prev].place.isPointer && fields[prev].htype.Repeated? {
        prevSize := prevSize * fields[prev].htype.arraySize;
      } else if fields[prev].place.isPointer {
        prevSize := POINTER_SIZE;
      }
      if fields[prev].htype.Required? {
        requiredFieldIndex := requiredFieldIndex + 1;
      }
      pData := pData + prevSize + fields[pos].place.dataOffset;
      pSize := pData + fields[pos].place.sizeOffset;
      more := true;
    }

    /** The tag at the iterator; an empty list has only its terminator, whose tag is zero. */
    function Tag(): nat
      reads this
      requires Valid()
    {
      if fields == [] then 0 else fields[pos].tag
    }

    /** Looks for a field with this tag, once around from where the iterator is. It ends at such a field
        if there is one, and where it was if not. */
    method Find(tag: nat) returns (found: bool)
      requires Valid()
      modifies this
      ensures Valid()
      ensures found <==> (fields == [] && tag == 0) || exists k :: 0 <= k < |fields| && fields[k].tag == tag
      ensures found ==> Tag() == tag
      ensures !found ==> pos == old(pos)
    {
      var start := pos;
      if fields == [] {
        if tag == 0 {
          return true;
        }
        var _ := Next();
        return false;
      }
      ghost var around := false;
      while true
        invariant Valid() && if around then pos < start else start <= pos
        invariant forall k | 0 <= k < |fields| && (if around then start <= k || k < pos else start <= k < pos) ::
                    fields[k].tag != tag
        decreases if around then start - pos else start + |fields| - pos
      {
        if fields[pos].tag == tag {
          return true;
        }
        var more := Next();
        around := around || !more;
        if pos == start {
          return false;
        }
      }
    }
  }
}
