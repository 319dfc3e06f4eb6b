/** Types shared by the record files and the indexes. */
module Defs {

  // The place of a record: a page of the record file and a slot of that page.
  datatype Rid = Rid(pageNo: int, slotNo: int)
}
