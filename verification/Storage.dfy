/** Identifiers shared by the storage components (p3/src/types.h). */
module Storage {
  /** Page number inside a file; 0 is the invalid number. */
  type PageId = nat

  const INVALID_NUMBER: PageId := 0

  /** Slot number inside a page; 0 is the invalid slot. */
  type SlotId = nat

  const INVALID_SLOT: SlotId := 0

  datatype RecordId = RecordId(pageNumber: PageId, slotNumber: SlotId)
}
