/** Where a tensor's value lies: the unit the index files store and the
    readers fetch by. */
module Locations {

  /** `TensorLocation`: the tensor's name, the event file holding its record,
      and the record's byte offset and length there. Its serialized text and
      the fetch of the value it points to are done by code outside this
      model; they are passed in as functions wherever they are needed. */
  datatype TensorLocation = TensorLocation(tensorName: string, eventFile: string, start: nat, length: nat)
}
