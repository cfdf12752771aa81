/** What all outstanding requests have in common. */
module Requests {
  import opened VolatileMetadata

  /** How many chunk responses a request expects and has received, and who asked for it. */
  datatype RequestInfo = RequestInfo(chunksExpected: nat, chunksReceived: nat, fileId: int, client: Client)
}
