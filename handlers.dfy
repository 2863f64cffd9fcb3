/** The request handlers that only read: attribute queries, name
    resolution and file reads. Each is a case analysis on its arguments
    over the stat table (passed as its current value) or the constant
    file contents. */
module Handlers {
  import opened Attributes
  import opened Reply
  import opened InodeTable

  /** getattr: inode numbers beyond the table are unknown; any other slot,
      slot 0 and never-written slots included, is returned as it stands. */
  function Getattr(t: seq<Stat>, ino: nat): (r: Result<Stat>)
    requires WellSized(t)
    ensures r.Err? <==> ino > FileCount
    ensures r.Err? ==> r.error == NoEntry
    ensures r.Ok? ==> r.value == t[ino]
  {
    if ino > FileCount then Err(NoEntry) else Ok(t[ino])
  }

  /** The three (parent, name) pairs that lookup resolves. */
  predicate Resolvable(parent: nat, name: string) {
    || (parent == RootDir && name == "assignment")
    || (parent == AssignDir && name == "username")
    || (parent == AssignDir && name == "features")
  }

  /** lookup: "assignment" in the root resolves to the assignment directory;
      both "username" and "features" in the assignment directory resolve to
      the username file; every other pair is unknown. A resolved entry
      carries the attributes of its slot, generation 1 and one-second
      timeouts. */
  function Lookup(t: seq<Stat>, parent: nat, name: string): (r: Result<EntryParam>)
    requires WellSized(t)
    ensures r.Ok? <==> Resolvable(parent, name)
    ensures r.Err? ==> r.error == NoEntry
    ensures r.Ok? ==> r.value.ino == (if parent == RootDir then AssignDir else UsernameFile)
    ensures r.Ok? ==> r.value.attr == t[r.value.ino]
    ensures r.Ok? ==> r.value.generation == 1 && r.value.attrTimeout == 1.0 && r.value.entryTimeout == 1.0
  {
    if parent == RootDir && name == "assignment" then
      Ok(Entry(AssignDir, t[AssignDir]))
    else if parent == AssignDir && name == "username" then
      Ok(Entry(UsernameFile, t[UsernameFile]))
    else if parent == AssignDir && name == "features" then
      Ok(Entry(UsernameFile, t[UsernameFile]))
    else
      Err(NoEntry)
  }

  /** The bytes behind one of the two built-in files. */
  function FileContent(ino: nat): string
    requires ino == UsernameFile || ino == FeatureFile
  {
    if ino == UsernameFile then UsernameContent else FeatureContent
  }

  /** The number of bytes a read of `size` bytes at `off` returns from a
      file of `len` bytes: what is left after `off`, but no more than
      `size`; nothing when `off` is outside the file. */
  function WindowLength(len: nat, off: int, size: nat): (n: nat)
    ensures n <= size
    ensures 0 <= off < len ==> off + n <= len
    ensures n == 0 <==> (off < 0 || off >= len || size == 0)
    ensures 0 <= off < len ==> n == size || off + n == len
  {
    if off < 0 || off >= len then 0
    else if len - off > size then size
    else len - off
  }

  /** The bytes a read of `size` bytes at `off` returns from `content`:
      exactly the content's bytes from `off` on, as many as WindowLength
      says. A negative `off` takes the empty path, as the C code compares
      `off` (an `off_t`) against `sizeof`, a `size_t`. */
  function Window(content: string, off: int, size: nat): (w: string)
    ensures |w| == WindowLength(|content|, off, size)
    ensures forall k :: 0 <= k < |w| ==> w[k] == content[off + k]
  {
    if off < 0 || off >= |content| then
      []
    else
      var len := |content| - off;
      var len' := if len > size then size else len;
      content[off .. off + len']
  }

  /** read: the two directories are refused with EISDIR and every inode
      other than the four reserved ones with EBADF; on the two files the
      reply is the window of the content at `off`, and is empty (not an
      error) when `off` is at or past the end. */
  function Read(ino: nat, off: int, size: nat): (r: Result<string>)
    ensures r == Err(IsDirectory) <==> ino == RootDir || ino == AssignDir
    ensures r == Err(BadDescriptor) <==> ino < RootDir || ino > FeatureFile
    ensures r.Ok? <==> ino == UsernameFile || ino == FeatureFile
    ensures r.Ok? ==> |r.value| == WindowLength(|FileContent(ino)|, off, size)
    ensures r.Ok? ==> forall k :: 0 <= k < |r.value| ==> r.value[k] == FileContent(ino)[off + k]
  {
    if ino == RootDir || ino == AssignDir then
      Err(IsDirectory)
    else if ino == UsernameFile || ino == FeatureFile then
      Ok(Window(FileContent(ino), off, size))
    else
      Err(BadDescriptor)
  }

  /** Two adjacent windows make up the window of their combined size. */
  lemma WindowSplit(content: string, off: int, a: nat, b: nat)
    requires off >= 0
    ensures Window(content, off, a + b) == Window(content, off, a) + Window(content, off + a, b)
  {
  }

  /** A read of a whole file returns its bytes, terminator included; one
      more read at the end returns nothing. */
  lemma ReadWholeFile(ino: nat, size: nat)
    requires ino == UsernameFile || ino == FeatureFile
    requires size >= |FileContent(ino)|
    ensures Read(ino, 0, size) == Ok(FileContent(ino))
    ensures Read(ino, |FileContent(ino)|, size) == Ok([])
  {
    assert FileContent(ino)[0 .. |FileContent(ino)|] == FileContent(ino);
  }

  /** Two consecutive reads return what one read of their combined size
      returns: the windows are byte-exact and adjacent. */
  lemma ReadSplit(ino: nat, off: int, a: nat, b: nat)
    requires ino == UsernameFile || ino == FeatureFile
    requires off >= 0
    ensures Read(ino, off, a + b).value == Read(ino, off, a).value + Read(ino, off + a, b).value
  {
    WindowSplit(FileContent(ino), off, a, b);
  }

  /** Reads of the username file: the whole file is the seven visible
      bytes and the terminator; a two-byte read at offset 3 is "jr"; at
      offset 8 there is nothing left. */
  lemma UsernameReads()
    ensures Read(UsernameFile, 0, 100) == Ok("p15jra\n\0")
    ensures Read(UsernameFile, 3, 2) == Ok("jr")
    ensures Read(UsernameFile, 8, 100) == Ok([])
  {
    ReadWholeFile(UsernameFile, 100);
    assert UsernameContent[3..5] == "jr";
  }
}
