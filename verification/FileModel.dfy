/** The entry of a meaningful file: its hashes, sizes and three status characters. */
module FileModel {
  import opened Bytes
  import opened Json

  const UNCONFIRMED := '0'
  const VALID := '1'
  const LOST := '2'
  const DELETED := '3'

  /** The status text holds the current, the waiting and the original character, in this order. */
  datatype FileEntry = FileEntry(hash: Hash, oldHash: Hash, size: nat, oldSize: nat, blockNum: nat,
                                 current: char, waiting: char, origin: char)

  function StatusText(f: FileEntry): string {
    [f.current, f.waiting, f.origin]
  }

  /** The JSON value of an entry, its keys in map order. */
  function FileJson(f: FileEntry): Json {
    Object([Field("block_num", Integral(f.blockNum)),
            Field("hash", HashValue(f.hash)),
            Field("old_hash", HashValue(f.oldHash)),
            Field("old_size", Integral(f.oldSize)),
            Field("size", Integral(f.size)),
            Field("status", String(StatusText(f)))])
  }
}
