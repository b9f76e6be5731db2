/** The abstract file system the walk runs over. A directory lists its
    entries in the order `ReadDir` returns them; a regular file carries the
    size its directory listing reports and the bytes that can actually be
    read from it, which may be fewer when the file shrank after listing.
    `readable` is false when reading fails outright once the file is open,
    as for a link to a directory (`EISDIR`) or a failing disk (`EIO`). */
module FileTree {
  import opened Bytes

  datatype FileEntry = FileEntry(name: string, listedSize: nat, content: seq<byte>, openable: bool, readable: bool)

  datatype Node =
    | File(entry: FileEntry)
    | Dir(name: string, listable: bool, children: seq<Node>)
  {
    function Name(): string {
      match this
      case File(e) => e.name
      case Dir(n, _, _) => n
    }
  }

  /** The I/O failures the engine propagates. Listing, opening and a failing
      read report an error naming the path; a short read fails with `io.EOF`
      when no byte was read and with `io.ErrUnexpectedEOF` otherwise, neither
      of which names the file. */
  datatype Error =
    | ReadDirFailed(path: string)
    | OpenFailed(path: string)
    | ReadFailed(path: string)
    | Eof
    | UnexpectedEof

  /** `dir + "/" + name`, the only way the engine builds paths. */
  function Join(dir: string, name: string): string {
    dir + "/" + name
  }
}
