# assign4: an in-memory FUSE filesystem, modelled in Dafny

`assign4.c` is a low-level FUSE filesystem (libfuse 2.9 callbacks) whose whole
state is a stat table of `FILE_COUNT + 1 = 101` records indexed by inode
number, plus an inode counter `curr_inode_num`. Initialisation lays out the
root directory (1), the `assignment` directory (2) and two read-only files,
`username` (3) and `features` (4), whose bytes are two constant C strings. The
request handlers resolve names, list directories, serve reads and answer
attribute queries from that table; `mkdir` and `mknod` write the table and the
counter; `create`, `open`, `rmdir`, `setattr`, `statfs`, `unlink` and `write`
reply "not implemented".

The model:

- `attributes.dfy` (module `Attributes`): the written fields of a
  `struct stat` (`st_ino`, `st_mode` as a 32-bit mode, `st_nlink`, `st_size`),
  the POSIX mode bits, and the directory/file modes the code builds.
- `reply.dfy` (module `Reply`): error numbers, results, `fuse_entry_param`
  and directory entries.
- `inode_table.dfy` (module `InodeTable`): the reserved inode numbers, the
  capacity, the two contents with their C terminator, and the table as
  initialisation leaves it.
- `handlers.dfy` (module `Handlers`): getattr, lookup and read, as functions
  of the table value and their arguments.
- `listing.dfy` (module `Listing`): what readdir replies, as a function of
  the table, the inode and the offset.
- `filesystem.dfy` (module `Filesystem`): the class `Filesystem` holding the
  table as an `array` and the counter as an `int`, with initialisation, mkdir
  and mknod updating them in place, readdir building its reply entry by
  entry, and the "not implemented" handlers (having no `modifies` clause,
  they provably change neither the table nor the counter).
- `findings.dfy` (module `Findings`): three discrepancies between the code
  and what it evidently intends, each as written and corrected.

The model follows the code, quirks included: file sizes count the C string
terminator (`sizeof("p15jra\n") == 8`), so the terminator is also served by
read; lookup of `"features"` answers with inode 3; mkdir writes the slot the
counter names (slot 0 first, since the counter starts at 0) and never advances
the counter, and links nothing into any directory, so no lookup resolves a new
name and no listing names it; only the slot it writes changes, and getattr or
readdir on that inode, and lookup and readdir of the reserved names when the
counter is 2 to 4, show the new record. The code has no working rmdir, unlink or setattr, no
allocator that fails when the table is full, and no lookup of directories made
by mkdir; the model follows the code.

## Model

| member | source | states |
|---|---|---|
| `Attributes.ModeKinds` | assign4.c:65-77 | the directory mode is 040555 and a directory, the file mode 0100444 and a regular file, a zeroed record neither |
| `InodeTable.InitialLayout` | assign4.c:63-84 | after init: slots 1 and 2 are r-x directories with one link, slots 3 and 4 r-- files with one link and sizes 8 and 146 (terminator included), slot 0 and slots 5..100 all zero |
| `Filesystem.Filesystem.Init` | assign4.c:45-84 | init leaves exactly the initial table in a fresh 101-slot array and the counter at 0 |
| `Handlers.Getattr` | assign4.c:159-164 | ENOENT exactly when ino > 100; otherwise the slot as it stands, slot 0 and zeroed slots included |
| `Handlers.Lookup` | assign4.c:178-209 | resolves exactly (1,"assignment") to 2 and (2,"username"), (2,"features") to 3, each with its slot's attributes, generation 1 and timeouts of 1; every other pair is ENOENT |
| `Handlers.WindowLength` | assign4.c:363-385 | a read at an offset inside the content returns `min(size, len - off)` bytes: at most `size`, staying inside the content, and either `size` bytes or all the rest; none exactly when the offset is outside the content or size is 0 |
| `Handlers.Window` | assign4.c:363-386 | the reply has WindowLength bytes and byte k of it is byte off + k of the content |
| `Handlers.Read` | assign4.c:356-395 | EISDIR exactly for inodes 1 and 2, EBADF exactly for inodes outside 1..4, and on inodes 3 and 4 the byte-exact window of the content, empty (not an error) at or past the end |
| `Handlers.WindowSplit` | assign4.c:363-386 | two adjacent windows concatenate to the window of their combined size |
| `Handlers.ReadSplit` | assign4.c:363-386 | read(off, a) followed by read(off + a, b) returns what read(off, a + b) returns |
| `Handlers.ReadWholeFile` | assign4.c:363-386 | a read from 0 of at least the file's size returns the whole content; a read at the end returns nothing |
| `Handlers.UsernameReads` | assign4.c:363-374 | read(3, 0, 100) is "p15jra\n" plus the terminator, read(3, 3, 2) is "jr", read(3, 8, 100) is empty |
| `Listing.Children` | assign4.c:314-336 | the fixed children, all at reserved slots: "assignment" in 1, "username" and "features" in 2, none elsewhere |
| `Listing.FullListing` | assign4.c:293-336 | a directory's listing is "." with its own record, ".." with the root's, then each child with its slot's record |
| `Listing.Numbered` | assign4.c:298-334 | numbering a listing keeps one entry per element |
| `Listing.NumberedAt` | assign4.c:298-334 | entry j of a listing numbered from `first` is element j with next-offset first + j |
| `Listing.ReaddirReply` | assign4.c:282-336 | off > 2 gives an empty reply for any inode, before the slot is looked at; otherwise ENOTDIR exactly for non-directories, else the listing less "." (off >= 1) and ".." (off >= 2), entry j carrying next-offset j + 1 |
| `Listing.ReaddirFromStart` | assign4.c:300-336 | from offset 0 or below a directory lists "." (own record, offset 1), ".." (root's record, offset 2), then its children with offsets 3, 4, ... |
| `Listing.InitialListings` | assign4.c:300-336 | after init the root lists ".", "..", "assignment" and the assignment directory ".", "..", "username", "features", with their records and offsets 1..4 |
| `Filesystem.Filesystem.Readdir` | assign4.c:273-342 | the reply the handler builds entry by entry equals ReaddirReply of the current table |
| `Filesystem.MkdirTable` | assign4.c:227-229 | mkdir at counter n makes slot n a directory record with inode n and one link, keeps its size, and leaves every other slot unchanged |
| `Filesystem.Filesystem.Mkdir` | assign4.c:219-242 | the new table is MkdirTable of the old one at the counter, the counter is unchanged, and the entry reply carries the counter and the new record |
| `Filesystem.MkdirRepeated` | assign4.c:227-239 | as the counter is not advanced, a second mkdir changes nothing more |
| `Filesystem.MkdirLeavesLookup` | assign4.c:219-242 | after mkdir every lookup succeeds or fails as before, and answers identically unless slot 2 or 3 was overwritten |
| `Filesystem.MkdirOverwritesReservedSlots` | assign4.c:227-229 | from the initial table the first mkdir writes slot 0 only, and readdir of inode 0, ENOTDIR before, then lists "." with the new record and ".."; a mkdir at counter 4 turns the features record into a directory of 146 bytes |
| `Filesystem.Filesystem.Mknod` | assign4.c:245-262 | the counter goes up by exactly one, no slot changes, and the reply carries the old counter with the username file's record |
| `Filesystem.Filesystem.Create` | assign4.c:131-151 | replies ENOSYS and changes nothing |
| `Filesystem.Filesystem.Open` | assign4.c:265-270 | replies ENOSYS and changes nothing |
| `Filesystem.Filesystem.Rmdir` | assign4.c:405-413 | walks the issued inode numbers doing nothing, replies ENOSYS and changes nothing |
| `Filesystem.Filesystem.Setattr` | assign4.c:416-422 | replies ENOSYS and changes nothing |
| `Filesystem.Filesystem.Statfs` | assign4.c:425-430 | replies ENOSYS and changes nothing |
| `Filesystem.Filesystem.Unlink` | assign4.c:433-438 | replies ENOSYS and changes nothing |
| `Filesystem.Filesystem.Write` | assign4.c:441-448 | replies ENOSYS and changes nothing |
| `Findings.ReadAsWritten` | assign4.c:352-401 | as written, read aborts exactly on inodes 3 and 4 at an offset outside the content, and otherwise replies what Read replies |
| `Findings.ReadAtEndAborts` | assign4.c:363-397 | read(3, 8, 4096) aborts as written, where the intended reply is empty |
| `Findings.LookupIntended` | assign4.c:178-209 | the same three names resolve, "features" to inode 4 with its own record |
| `Findings.LookupIntendedAgreesWithListing` | assign4.c:184-194 | corrected, a name resolves in a directory exactly when it is one of the children readdir lists there, and to the slot it is listed with |
| `Findings.FeaturesLookupDisagrees` | assign4.c:190-194 | after init readdir lists "features" with inode 4 and 146 bytes, but lookup answers inode 3 with 8 bytes |
| `Findings.TailFrom` | assign4.c:298-334 | a resumable tail has one entry per listing element from the offset on |
| `Findings.ReaddirResumable` | assign4.c:282-336 | corrected readdir: empty past the end of the listing, otherwise ENOTDIR exactly for non-directories |
| `Findings.NumberedDrop` | assign4.c:298-334 | dropping k entries of a numbered listing is the listing less k elements numbered from first + k |
| `Findings.TailFromResume` | assign4.c:298-334 | resuming a tail at the offset entry j carries returns the entries after j |
| `Findings.ResumeAfterEntry` | assign4.c:298-334 | corrected, readdir at the next-offset of any entry it returned gives exactly the entries that followed it |
| `Findings.ResumableAgreesFromStart` | assign4.c:300-336 | from offset 0 the corrected and the as-written readdir agree |
| `Findings.ResumeAsWrittenRepeats` | assign4.c:300-334 | as written, readdir(2, 2) answers "username"@1 and "features"@2, and resuming at 2 returns the same two entries again |

## Left out

- The transport: every `fuse_reply_*` call and its return code. mkdir and mknod send an entry reply and then an ENOSYS reply for the same request; only the entry reply and the state change are modelled.
- Filesystem.Filesystem.Readdir: the byte packing of `fuse_add_direntry` and the `size` budget of the reply buffer are a libfuse call and are not modelled; the reply is a sequence of (name, record, next-offset) entries, and `size` is accepted but unused.
- Filesystem.Filesystem.Readdir and Listing.ReaddirReply: require `off > 2` or `ino <= 100`, because for a larger inode the code reads past the end of the table.
- Filesystem.Filesystem.Mkdir: requires `curr_inode_num <= 100`, because past that the code writes past the end of the table.
- Filesystem.Filesystem.Mknod: the counter is an unbounded integer, so the overflow of the C `int` after 2^31 - 1 mknods is not modelled.
- The `assert` in read that aborts on the zero-length path is kept out of `Handlers.Read`, which gives the empty reply the code computes; the abort is modelled separately (see Findings).
- Fields of `struct stat` other than `st_ino`, `st_mode`, `st_nlink` and `st_size`: the code never writes them, so they stay zero.
- The one-second attribute timeout passed with the getattr reply is transport; the entry timeouts, which are doubles, are modelled as reals.
- Logging, `assign4_destroy` (freeing the table), the `backing_file` userdata, the operations table and `assign4_fuse_ops`: wiring only.
- The commented-out `struct Node` tree code: dead code.
- Concurrency: the handlers share global state without locking; the model takes requests one at a time.

## Findings

| source | as written | input that shows it | evidently intended | confidence | as-written member | corrected member |
|---|---|---|---|---|---|---|
| assign4.c:363-397 | on an offset at or past the end of a file `response_data` stays NULL, so `assert(response_data != NULL)` aborts | read(3, off = 8, size = 4096), a read request at or past the end of the file | an empty reply, as `response_len = 0` shows | high; not executed | `Findings.ReadAtEndAborts` (on `Findings.ReadAsWritten`) | `Handlers.Read` |
| assign4.c:190-194 | lookup of "features" in the assignment directory answers inode 3 with the username file's record | lookup(2, "features") after init | inode 4 with the features file's record, as readdir lists it | high; not executed | `Findings.FeaturesLookupDisagrees` (on `Handlers.Lookup`) | `Findings.LookupIntendedAgreesWithListing` (on `Findings.LookupIntended`) |
| assign4.c:298-334 | the next-offset counter starts at 0 on every request, whatever `off` is | readdir(2, off = 2) answers "username"@1 and "features"@2; asking again at 2 returns the same entries | each entry carries its position in the full listing plus one, so a listing resumes where it stopped | medium; not executed | `Findings.ResumeAsWrittenRepeats` (on `Listing.ReaddirReply`) | `Findings.ResumeAfterEntry` (on `Findings.ReaddirResumable`) |

`Handlers.Read` is the read the rest of the model uses. For lookup and readdir
the class `Filesystem` and the rest of the model keep the code's behaviour, and
the corrected members stand beside it.
