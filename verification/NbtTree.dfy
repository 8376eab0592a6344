/** NBT values as trees, and the grammar that lays a tree out as bytes. */
module NbtTree {
  import opened Bytes

  // Type bytes (include/clod/nbt.h).
  const END: byte := 0
  const INT8: byte := 1
  const INT16: byte := 2
  const INT32: byte := 3
  const INT64: byte := 4
  const FLOAT32: byte := 5
  const FLOAT64: byte := 6
  const INT8_ARRAY: byte := 7
  const STRING: byte := 8
  const LIST: byte := 9
  const COMPOUND: byte := 10
  const INT32_ARRAY: byte := 11
  const INT64_ARRAY: byte := 12

  /** Width of the six fixed-width types; 0 for every other type byte. */
  function NumberWidth(ty: byte): nat {
    if ty == INT8 then 1
    else if ty == INT16 then 2
    else if ty == INT32 || ty == FLOAT32 then 4
    else if ty == INT64 || ty == FLOAT64 then 8
    else 0
  }

  /** Width of an element of the three array types; 0 for every other type byte. */
  function ElementWidth(ty: byte): nat {
    if ty == INT8_ARRAY then 1
    else if ty == INT32_ARRAY then 4
    else if ty == INT64_ARRAY then 8
    else 0
  }

  /** `type_zero_size`: how many zero bytes make a default payload of a type. */
  function ZeroSize(ty: byte): nat {
    if NumberWidth(ty) != 0 then NumberWidth(ty)
    else if ElementWidth(ty) != 0 then 4
    else if ty == STRING then 2
    else if ty == LIST then 5
    else if ty == COMPOUND then 1
    else 0
  }

  predicate ValidType(ty: byte) {
    ZeroSize(ty) != 0
  }

  datatype Value =
    | Number(ty: byte, raw: seq<byte>)
    | Array(arrayType: byte, count: nat, elements: seq<byte>)
    | Text(chars: seq<byte>)
    | EndList(header: nat)            // a list of type END: any length field, no elements
    | List(itemType: byte, items: seq<Value>)
    | Compound(tags: seq<Tag>)

  datatype Tag = Tag(name: seq<byte>, value: Value)

  function TypeOf(v: Value): byte {
    match v
    case Number(ty, _) => ty
    case Array(ty, _, _) => ty
    case Text(_) => STRING
    case EndList(_) => LIST
    case List(_, _) => LIST
    case Compound(_) => COMPOUND
  }

  ghost predicate WellFormed(v: Value)
    decreases v
  {
    match v
    case Number(ty, raw) => NumberWidth(ty) != 0 && |raw| == NumberWidth(ty)
    case Array(ty, count, elements) =>
      ElementWidth(ty) != 0 && count < 0x8000_0000 && |elements| == count * ElementWidth(ty)
    case Text(chars) => |chars| < 0x1_0000
    case EndList(header) => header < 0x1_0000_0000
    case List(ty, items) => ValidType(ty) && |items| < 0x8000_0000 && WellFormedItems(ty, items)
    case Compound(tags) => WellFormedTags(tags)
  }

  ghost predicate WellFormedItems(ty: byte, items: seq<Value>)
    decreases items
  {
    forall i :: 0 <= i < |items| ==> TypeOf(items[i]) == ty && WellFormed(items[i])
  }

  ghost predicate WellFormedTags(tags: seq<Tag>) {
    forall i :: 0 <= i < |tags| ==> |tags[i].name| < 0x1_0000 && WellFormed(tags[i].value)
  }

  function Encode(v: Value): seq<byte> {
    match v
    case Number(_, raw) => raw
    case Array(_, count, elements) => U32Enc(count) + elements
    case Text(chars) => U16Enc(|chars|) + chars
    case EndList(header) => [END] + U32Enc(header)
    case List(ty, items) => [ty] + U32Enc(|items|) + EncodeItems(items)
    case Compound(tags) => EncodeTags(tags) + [END]
  }

  function EncodeItems(items: seq<Value>): seq<byte> {
    if items == [] then [] else Encode(items[0]) + EncodeItems(items[1..])
  }

  function TagHeader(tag: Tag): seq<byte> {
    [TypeOf(tag.value)] + U16Enc(|tag.name|) + tag.name
  }

  function EncodeTag(tag: Tag): seq<byte> {
    TagHeader(tag) + Encode(tag.value)
  }

  function EncodeTags(tags: seq<Tag>): seq<byte> {
    if tags == [] then [] else EncodeTag(tags[0]) + EncodeTags(tags[1..])
  }

  lemma WellFormedType(v: Value)
    requires WellFormed(v)
    ensures ValidType(TypeOf(v)) && |Encode(v)| >= 1
  {
  }

  /** The first item of a row and the rest. */
  lemma FirstItem(ty: byte, items: seq<Value>)
    requires WellFormedItems(ty, items) && items != []
    ensures WellFormed(items[0]) && TypeOf(items[0]) == ty && WellFormedItems(ty, items[1..])
    ensures EncodeItems(items) == Encode(items[0]) + EncodeItems(items[1..])
  {
    hide WellFormed, Encode;
  }

  lemma {:induction false} EncodeItemsAppend(xs: seq<Value>, ys: seq<Value>)
    ensures EncodeItems(xs + ys) == EncodeItems(xs) + EncodeItems(ys)
  {
    if xs == [] {
      assert xs + ys == ys;
    } else {
      assert (xs + ys)[1..] == xs[1..] + ys;
      EncodeItemsAppend(xs[1..], ys);
    }
  }

  lemma {:induction false} EncodeTagsAppend(xs: seq<Tag>, ys: seq<Tag>)
    ensures EncodeTags(xs + ys) == EncodeTags(xs) + EncodeTags(ys)
  {
    if xs == [] {
      assert xs + ys == ys;
    } else {
      assert (xs + ys)[1..] == xs[1..] + ys;
      EncodeTagsAppend(xs[1..], ys);
    }
  }
}
