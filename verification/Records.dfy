/** The cached index entries of a file and of its blocks, and the metadata of a mailed block. */
module Records {
  import opened Basics

  datatype BlockRecord = BlockRecord(number: int, uid: nat, md5: string, size: nat)

  datatype FileRecord = FileRecord(
    mailFolder: string,
    localPath: string,
    blockCount: int,
    md5: string,
    size: nat,
    blocks: seq<BlockRecord>)

  datatype Metadata = Metadata(
    subject: string,
    fileMd5: string,
    blockMd5: string,
    fileSize: nat,
    blockSize: nat,
    createTime: string,
    owner: string,
    localPath: string,
    mailFolder: string,
    blockSeq: int,
    blockCount: int,
    encrypted: bool)

  predicate IsCacheable(m: Metadata) {
    m.subject != [] && m.localPath != [] && m.blockSeq > 0 && m.blockCount > 0
  }
}
