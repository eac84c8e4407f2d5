// Identifiers and machine integers shared by every layer (types.h).
module Types {
  // A subset type, so that every assignment to such a variable proves that no wrap-around happens.
  type uint16 = n: nat | n < 0x1_0000
  type byte = n: nat | n < 0x100

  type PageId = nat
  type SlotId = nat
  type FrameId = nat
  // The address of a File object, 0 being NULL.
  type FileId = nat

  const INVALID_NUMBER: PageId := 0
  const INVALID_SLOT: SlotId := 0

  datatype RecordId = RecordId(pageNumber: PageId, slotNumber: SlotId)

  datatype Option<+T> = None | Some(value: T)
}
