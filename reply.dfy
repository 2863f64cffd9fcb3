/** What a request handler hands back to the kernel: an error number, an
    attribute record, a directory entry with its timeouts, or a batch of
    directory entries. */
module Reply {
  import opened Attributes

  /** The error numbers the handlers reply with. */
  datatype Errno =
    | NoEntry         // ENOENT
    | NotDirectory    // ENOTDIR
    | IsDirectory     // EISDIR
    | BadDescriptor   // EBADF
    | NotImplemented  // ENOSYS

  /** A handler either replies with a value or with an error number. */
  datatype Result<T> = Ok(value: T) | Err(error: Errno)

  /** `struct fuse_entry_param`: the inode, its generation, its attributes
      and how long (in seconds) the kernel may cache them. */
  datatype EntryParam = EntryParam(ino: nat, generation: nat, attr: Stat,
                                   attrTimeout: real, entryTimeout: real)

  /** Every entry reply of the filesystem uses generation 1 and timeouts of
      one second. */
  function Entry(ino: nat, attr: Stat): EntryParam {
    EntryParam(ino, 1, attr, 1.0, 1.0)
  }

  /** One entry packed by `fuse_add_direntry`: its name, the attributes it
      is listed with, and the offset of the entry that follows it. */
  datatype DirEntry = DirEntry(name: string, attr: Stat, next: int)
}
