/** The contents of a slot: a value, its key in an object, and the next slot. */
module Slots {
  import opened Bytes
  import opened Document

  type Scalar = v: Value | !v.Arr? && !v.Obj? witness Null

  type SlotId = nat
  // where the text of an owned string lies
  type Address = nat

  datatype Key = NoKey | LinkedKey(text: bytes) | OwnedKey(node: Address)

  /** A value that owns nothing, one that owns a string, or a linked list of
      slots from head to tail. */
  datatype VariantData =
    | Simple(value: Scalar)
    | OwnedString(node: Address)
    | Array(head: SlotId, tail: SlotId)
    | Object(head: SlotId, tail: SlotId)
  {
    predicate IsCollection() {
      Array? || Object?
    }
  }

  datatype VariantSlot = VariantSlot(data: VariantData, next: SlotId, key: Key)
}
