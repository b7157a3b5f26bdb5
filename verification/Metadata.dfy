/** What the name server records about a file (`common.h`).  Times are opaque numbers, and the
    access-control list's count is its length. */
module Metadata {
  const ACCESS_NONE := 0
  const ACCESS_READ := 1
  const ACCESS_WRITE := 2
  const ACCESS_READWRITE := 3

  datatype AclEntry = AclEntry(username: string, access: int)

  datatype FileMetadata = FileMetadata(
    filename: string,
    folderPath: string,
    owner: string,
    ssId: int,
    size: int,
    wordCount: int,
    charCount: int,
    created: int,
    modified: int,
    accessed: int,
    lastAccessedBy: string,
    acl: seq<AclEntry>
  )
}
