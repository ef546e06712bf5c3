/** The MEM_UTILS return codes of the memory utilities library. */
module MemoryUtilsCodes {
  datatype Code = Success | Invalid | NoMemory | NotInitialized | IoError | Overflow | NotFound
}
