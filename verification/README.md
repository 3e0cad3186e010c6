# Verified models of bpm-sw

bpm-sw runs the beam position monitors of a particle accelerator. This project
models four of its parts in Dafny and proves what they promise each other.

- **The SDB filesystem** (`foreign/libsdbfs`). `gensdbfs` lays a directory tree out in
  storage and writes it as tables of 64-byte records; the library walks such an image
  with a four-level stack, opens records by name or id, and reads, writes and erases
  inside a record's range. Record formats follow the Self-Describing Bus specification,
  version 1.1, as written down in `include/sdb.h`.
- **The DEVIO registry** (`src/dev_io/dev_io_core.c`): slots, two hash tables and the set
  of polled sockets, under registrations that may fail half-way, unregistrations and the
  CONFIG DONE messages of config actors.
- **Requests and registers**: the argument checker and the replies of `src/msg/msg.c`, the
  32-bit reads and writes an SMIO thread sends to its DEVIO, the SET and GET macros of
  `include/rw_param.h` on top of them, and any number of SMIO threads doing this at once.
- **The device manager**: rounds of scanning and spawning.

## How the model is built

An image is a finite map from addresses to bytes and reads as zero elsewhere. Addresses
are 64 bits wide and wrap (`Add64`); the host is little-endian. Bit operations are
functions on natural numbers, characterised bit by bit. Code that changes state is a
class whose methods are proved against functions on values: `Filesystem.Fs`,
`Writer.OutFile`, `DevIo.DevIo`, `Messages.Message`, `Messages.Pipe`, `Params.Smio` and
`Manager.Manager`. Calls into code outside the model become parameters: `Env` says which
steps of a registration succeed, `Board.answers` what the low-level access returned, and
`works` whether a process could be spawned. Hash tables are maps, their key lists any
order, sockets first-in first-out queues.

| file | subject |
|---|---|
| `Basics`, `Bits`, `Endian` | options and spans; bits of natural numbers; byte orders |
| `Records`, `Images`, `Access` | SDB records; images and devices; changes inside a span |
| `Listing`, `Filesystem` | the recursive listing and the scanner's stack; the library |
| `Layout`, `Chunks`, `Spacing` | the allocator; what is stored where; windows and pieces |
| `Room`, `Pieces` | when windows, and when stored pieces, keep apart |
| `Writer`, `Stored`, `RoundTrip` | the writer; what an image holds; reading a tree back |
| `Displaced`, `Preorder`, `Tools` | directories with user positions; the result on the tree alone; the two tools |
| `Representation` | byte-swapped and callback devices; changes beside the tables |
| `Registry`, `DevIo` | the registry as a transition system; the class refining it |
| `Messages`, `Rpc`, `Fields`, `Params` | requests, remote registers, fields, SET and GET |
| `Interleaving`, `Races` | many threads on different registers; two threads on one |
| `Manager` | the device manager |

## Where the code does not do what one would expect

Each of these is stated by a lemma or a contract below, with the exact condition where
there is one.

- `SDB_ALIGN` masks with a 32-bit constant, so for a power of two it rounds up if and only
  if the value plus the block size, less one, is below 2^32; and below that limit it rounds
  every value up if and only if the block size is a power of two, which nothing ensures.
- A bridge is given the last byte of its contents as its size and then loses one more byte
  per level, so a directory can overlap its successor. Where no directory has a size of
  its own set by the user, the stored pieces keep apart if and only if every directory
  followed by something that takes space has room, in whole blocks, up to the end of its
  contents; whole-block files nested no deeper than the block size suffice. A user's size
  leaves a hole, and a tree is given in which the next file happens to lie in such a hole.
- A bridge with a position set by the user stores its contents where the allocator had
  got to, and lists them at the user's position: all files are where their entries say if
  and only if no bridge that was moved away like this has a file in it. Directories inside
  such a bridge are looked for at the wrong place too, so (with nothing stored there) a
  scan returns the whole tree if and only if no such bridge has a directory in it. A tree
  is given for each failure.
- The allocator does not move on past such a bridge, so the next entry that takes space is
  put on the bridge's own table. Where positions are set on directories only, the pieces
  keep apart if and only if nothing that takes space follows such a bridge and the
  condition on room above holds.
- A table that claims zero records makes the scanner go on for 2^32 - 1 of them.
- When the entry point holds no table, the first call of a scan reports that, but the scan
  goes on from the count left over from an earlier one.
- An open that finds nothing leaves the offset and the record of the last entry scanned,
  together with the length and position of what was open before.
- A query finds a record if and only if it fits the field and either comes to the same
  name once blank-filled or ends where the name has a blank. So nothing but
  the name itself finds it if and only if it fills the field and has no blank in it.
- A registration that fails often returns success, for example on a duplicate key; it uses
  up a slot all the same, and the limit check lets a registration in when no slot is left.
- Unregistering leaves the message pipe of the SMIO polled.
- A SET whose read failed still writes the register, and destroys the other fields.
- Two registers of a channel have one address if and only if they differ only in bits of
  the channel's base. With the trigger interface's stride of twelve the three registers are
  distinct in every fourth channel only; in the next one they are all the same, and in each
  of the others two are.
- SETs of two threads to one register end with one of four values: the two serial ones, and
  those with either SET missing; each is reached. For different fields no schedule does
  harm if and only if both fields hold their new values already; for the same field none
  does.
- Nothing guards the setter of a device's state: marking a spawned device ready makes the
  device manager spawn it again.

## Model

| member | source | states |
|---|---|---|
| Preorder.TreeRoundTrip | foreign/libsdbfs/tools/gensdbfs.c:354-476 | for every tree laid out without overlap, user positions in the top directory included, and with nothing stored where directories inside displaced ones are looked for: the scan of the written image shows the tree's own preorder (type, flags, vendor, device and name of every record, four levels deep) if and only if no displaced directory has a directory inside, and the whole of it if and only if, besides, at most four tables are nested; the image holds every listed file with its padding; all entries say where their files are if and only if no displaced directory has a file inside |
| Preorder.NearTreeIff | foreign/libsdbfs/libsdbfs.h:15 | the reader's four levels hold all of a tree if and only if at most four tables are nested |
| Preorder.ChainRead | foreign/libsdbfs/glue.c:145-151 | directories in one another, up to 63 below the top one: the image is read back whole if and only if they are at most three |
| Preorder.BlocksRoundTrip | foreign/libsdbfs/tools/gensdbfs.c:354-476 | without user positions, with whole-block files and a height of at most the block size, the layout needs no further condition and every entry's range holds its file and padding |
| Preorder.DirViews | foreign/libsdbfs/glue.c:122-182 | what the records of any laid-out tree show is the input tree in preorder, cut where the reader's stack ends, independent of addresses |
| Displaced.ImageRoundTrip | foreign/libsdbfs/tools/gensdbfs.c:354-476 | the same in terms of the layout: exactly which records the scan returns, and that they are all records of the laid-out tree if and only if no displaced directory has a directory inside |
| Displaced.TopItemsIff | foreign/libsdbfs/glue.c:122-182 | what the scan returns is part of the tree's records, and all of them exactly under that condition |
| Displaced.NestedMissed | foreign/libsdbfs/glue.c:141-163 | in every tree, a directory inside a user-positioned one is listed, but nothing in it is read when nothing is stored where it is looked for |
| Displaced.DeepUnread | foreign/libsdbfs/tools/gensdbfs.c:373-394 | a concrete tree whose innermost table is never read |
| Displaced.AdriftMisplaced | foreign/libsdbfs/tools/gensdbfs.c:373-394 | a concrete tree whose only file is listed away from where it is stored |
| RoundTrip.DirReads | foreign/libsdbfs/glue.c:103-182 | an image holding the chunks of a directory lists as that directory, also for a reader wrong about its base as long as there are no tables to find in it, by induction over nested tables |
| RoundTrip.DirHeld | foreign/libsdbfs/tools/gensdbfs.c:413-476 | every file of the tree is stored, with its padding, where its item says |
| RoundTrip.RecordRanges | foreign/libsdbfs/tools/gensdbfs.c:389-408 | the ranges the records of a tree announce: a table's ends at the largest of its entries' last addresses and the place they start from, an entry's covers its size |
| Displaced.InPlaceIffStraight | foreign/libsdbfs/glue.c:184-191 | the range computed for every listed file is where it is stored if and only if no displaced bridge has a file in it |
| Displaced.BridgeFileListed | foreign/libsdbfs/tools/gensdbfs.c:373-394 | in every tree, each file directly below a bridge of the top directory is listed by the scan with the bridge's own position as base; the entry says where the file is if and only if that is the position the allocator had reached |
| Displaced.TopFileStored | foreign/libsdbfs/tools/gensdbfs.c:388-401 | every file of the top directory is stored with its padding, and listed, at the position the user fixed, or else where the allocator had got to |
| Pieces.FixedBridgeOverrun | foreign/libsdbfs/tools/gensdbfs.c:388-394 | for every list of entries, one that asks for space after a user-positioned directory is put on that directory's table |
| Pieces.TopApartIff | foreign/libsdbfs/tools/gensdbfs.c:373-405 | for every tree with user positions on top-level directories only, and without user sizes on directories, all stored tables and files are pairwise disjoint if and only if nothing that asks for space follows a user-positioned directory and every other directory followed by such an entry reaches, rounded up, the end of its contents |
| Tools.BuildImage | foreign/libsdbfs/tools/gensdbfs.c:354-476 | allocating and writing produces exactly the image of the exact-arithmetic layout |
| Tools.BuildAndList | foreign/libsdbfs/tools/sdb-read.c:193-204 | building an image and listing it with the library returns the records of the scan above, which show the tree in preorder if and only if no displaced directory has a directory inside |
| Tools.Cat | foreign/libsdbfs/tools/sdb-read.c:206-220 | printing a record by name outputs the bytes of the first match's range, which are the file if the entry says where it is, or fails exactly when no record after the root matches |
| Tools.BuildAndCat | foreign/libsdbfs/tools/sdb-read.c:206-220 | the same from a freshly built image; without displaced directories in the way it is the first record of the tree with that name, and if that is a file, its contents and padding, whatever the read size |
| Layout.SdbAlignRounds | foreign/libsdbfs/tools/gensdbfs.c:41-44 | the mask rounds up to the next block if and only if the value plus the block size, less one, is below 2^32 |
| Layout.AlignsIffPow2 | foreign/libsdbfs/tools/gensdbfs.c:41-44 | the mask rounds every small value up if and only if the block size is a power of two |
| Layout.RoundUpLeast | foreign/libsdbfs/tools/gensdbfs.c:41-44 | rounding up gives the least multiple of the block size not below the value |
| Layout.PlaceNode | foreign/libsdbfs/tools/gensdbfs.c:372-401 | one loop step gives an entry the place and size the layout function says, below the 32-bit limit |
| Layout.AllocStorage | foreign/libsdbfs/tools/gensdbfs.c:354-410 | the loop with its masks computes the exact-arithmetic layout of the whole tree |
| Spacing.KidLaid | foreign/libsdbfs/tools/gensdbfs.c:372-401 | each entry keeps its product, flags, contents and size, a directory's size being enlarged to its contents' last address; it goes to its fixed position or to where the allocator has got to, and a directory's table to the latter |
| Spacing.PosNext | foreign/libsdbfs/tools/gensdbfs.c:388-405 | the allocator goes on at the next block past what it placed, and stays where it is after an entry with a fixed position |
| Spacing.DirWithin | foreign/libsdbfs/tools/gensdbfs.c:369-408 | everything stored for a directory lies between its base and its true end |
| Spacing.DirApart | foreign/libsdbfs/tools/gensdbfs.c:354-410 | if siblings' windows are disjoint at every level, all tables and files of the whole tree are pairwise disjoint |
| Spacing.LayBased | foreign/libsdbfs/tools/gensdbfs.c:374-385 | every bridge's child pointer, relative to its table's base, is the base of the subdirectory |
| Pieces.PiecesApartIff | foreign/libsdbfs/tools/gensdbfs.c:382-405 | without user positions the second half of that condition is the exact one |
| Pieces.DirCovered | foreign/libsdbfs/tools/gensdbfs.c:366-405 | in such a tree a stored piece lies over every block start between a directory's table and its true end |
| Pieces.UnsizedSnug | foreign/libsdbfs/tools/gensdbfs.c:381-384 | directories without a user size get exactly the size their contents ask for |
| Pieces.HollowApart | foreign/libsdbfs/tools/gensdbfs.c:381-399 | a concrete tree with a user size on a directory in which a directory falls short of its end and is followed by a file, and yet no two pieces meet |
| Room.RoomIsExact | foreign/libsdbfs/tools/gensdbfs.c:382-405 | with or without user sizes, the windows of a tree without user positions (a directory's window runs from its table to its true end) are disjoint at every level if and only if the same condition holds |
| Room.LossBound | foreign/libsdbfs/tools/gensdbfs.c:382-408 | with whole-block files, a directory's recorded last byte is short of its true end by at most its height |
| Room.BlocksLeaveRoom | foreign/libsdbfs/tools/gensdbfs.c:354-410 | whole-block files and a height of at most the block size leave every bridge enough room |
| Room.BlocksApart | foreign/libsdbfs/tools/gensdbfs.c:354-410 | under the same conditions all tables and files at every level are pairwise disjoint |
| Room.StartsOnBlocks | foreign/libsdbfs/tools/gensdbfs.c:366-405 | without user positions every table and file starts on a block boundary |
| Room.CrowdedOverlaps | foreign/libsdbfs/tools/gensdbfs.c:382-399 | a concrete tree in which a file inside a directory and the file after the directory are given the same byte |
| Writer.WriteTable | foreign/libsdbfs/tools/gensdbfs.c:432-437 | the records of a directory are written one after the other at its table's position |
| Writer.CopyFile | foreign/libsdbfs/tools/gensdbfs.c:462-471 | copying block by block stores exactly the file, whatever the block size |
| Writer.WriteNode | foreign/libsdbfs/tools/gensdbfs.c:443-460 | an entry is written at its place, a subdirectory recursively |
| Writer.WriteSdb | foreign/libsdbfs/tools/gensdbfs.c:413-476 | the output file holds the chunks of the whole tree, in the order written |
| Stored.ChunkByte | foreign/libsdbfs/tools/gensdbfs.c:413-476 | when chunks are disjoint, each byte of a reserved span is the chunk's byte or zero padding, whatever else is written before or after |
| Stored.AllHeld | foreign/libsdbfs/tools/gensdbfs.c:413-476 | a blank image written with disjoint chunks holds all of them |
| Records.AssembledFields | include/sdb.h:21-94 | every field put into a record, big-endian, is read back from it; the product version is 1 and the date 0 |
| Records.KindsAre | include/sdb.h:48-71 | byte by byte, what counts as the head of a table and as a bridge |
| Records.DeviceFields | foreign/libsdbfs/tools/gensdbfs.c:130-138 | a file's record holds the file's flags, no class or version, and its range |
| Records.PadNameBytes | foreign/libsdbfs/tools/gensdbfs.c:49-57 | a name is cut at nineteen bytes or filled with blanks |
| Records.DefaultVendor | foreign/libsdbfs/tools/gensdbfs.h:6 | without a config file the vendor is the eight letters FileData |
| Records.InterconnectFields | foreign/libsdbfs/tools/gensdbfs.c:66-82 | an interconnect record has the magic number, its type and its record count |
| Records.BridgeFields | include/sdb.h:66-94 | a bridge record gives back its child pointer and range |
| Records.DefaultDeviceId | foreign/libsdbfs/tools/gensdbfs.c:46-63 | without a config file the device id is the first four bytes of the blank-filled name |
| Endian.HostToNetFinds | foreign/libsdbfs/libsdbfs.h:76-89 | comparing stored bytes, read as a host number, with a swapped value finds exactly the records holding that value big-endian |
| Listing.TableBound | foreign/libsdbfs/glue.c:141-177 | a listing is finite and bounded on every image, also when child pointers form cycles |
| Listing.CountIsHonoured | foreign/libsdbfs/glue.c:116-118 | a table lists at least as many entries as it counts, and at least 2^32 if it counts none |
| Listing.OpensIff | foreign/libsdbfs/libsdbfs.h:15 | a bridge to a table is entered at depths 0, 1 and 2, and not at 3 |
| Listing.PendingFrame | foreign/libsdbfs/glue.c:143-151 | stack levels above the current depth do not affect what is still to be returned |
| Listing.AdvanceLists | foreign/libsdbfs/glue.c:174-177 | reading on takes the head off the work list and replaces it by its contents |
| Listing.EnterLists | foreign/libsdbfs/glue.c:141-160 | going into a bridge takes the head of its table off the work list and nothing else |
| Listing.PopLists | foreign/libsdbfs/glue.c:167-172 | leaving exhausted levels keeps the work list, and it is empty when the loop gives up |
| Listing.NextLists | foreign/libsdbfs/glue.c:137-182 | one step of the scanner returns the head of the recursive listing still to come and leaves its tail, or ends when it is empty |
| Listing.StartLists | foreign/libsdbfs/glue.c:132-158 | entering the root table leaves the whole rest of the recursive listing to do |
| Filesystem.Fs.DevCreate | foreign/libsdbfs/glue.c:17-40 | succeeds exactly if the four bytes at the entry point are the magic number in one of the two orders, which decides whether words are swapped; otherwise -ENOTDIR and no change |
| Filesystem.RecognisedIff | foreign/libsdbfs/glue.c:25-34 | which order leads to which device |
| Filesystem.Fs.ScanNewdir | foreign/libsdbfs/glue.c:103-120 | a directory is entered exactly if its first record is an interconnect with the magic number; otherwise the stack is untouched |
| Filesystem.Fs.ScanOn | foreign/libsdbfs/glue.c:166-181 | the pop loop and the read do what the value-level step says, and end |
| Filesystem.Fs.ScanNext | foreign/libsdbfs/glue.c:137-181 | descent into a bridge, or the next record, as the value-level step says, with the record's absolute offset |
| Filesystem.Fs.ScanFirst | foreign/libsdbfs/glue.c:132-165 | a new scan returns the root and leaves its listing, or reports no table and leaves the walk that follows |
| Filesystem.Fs.Scan | foreign/libsdbfs/glue.c:122-182 | successive calls return the recursive preorder listing one by one: bridges before contents, bridges without a table as leaves, none entered below the fourth level, offsets summed over enclosing bridges; at the end, which record is left as the current one and what a further call would list |
| Filesystem.Fs.ListAll | foreign/libsdbfs/tools/sdb-read.c:193-204 | the listing loop ends on every image and collects the recursive listing |
| Filesystem.Fs.Open | foreign/libsdbfs/glue.c:193-228 | opens the first record after the root, in scan order, that matches, with its absolute range; -ENOENT exactly when none matches, leaving the old length and position with the offset and record of the last entry scanned |
| Filesystem.NameMatchesIff | foreign/libsdbfs/glue.c:202-205 | for all queries and names: a query matches if and only if it has at most nineteen bytes and either equals the name once both are blank-filled or, with a blank after it, is a prefix of the name |
| Filesystem.OnlyItselfIff | foreign/libsdbfs/glue.c:202-205 | a name is matched by nothing but itself if and only if it has nineteen bytes and no blank |
| Filesystem.BlankFreeIff | foreign/libsdbfs/glue.c:202-205 | among queries without blanks only the name itself matches if and only if the name has no blank |
| Filesystem.LongNameFindsNothing | foreign/libsdbfs/glue.c:196-199 | a name over nineteen bytes matches nothing |
| Filesystem.IdMatchesValues | foreign/libsdbfs/tools/sdb-read.c:222-237 | ids passed in network order match exactly the records whose big-endian fields have those values |
| Filesystem.Fs.Fread | foreign/libsdbfs/access.c:22-40 | returns the bytes from the offset on (from the position if it is negative), clipped at the record's end, and moves the position; -ENOENT without an open record |
| Filesystem.Fs.Fwrite | foreign/libsdbfs/access.c:42-60 | stores the first bytes of the data, as many as fit, at the offset and moves the position; the image is otherwise as before |
| Filesystem.Fs.Ferase | foreign/libsdbfs/access.c:62-80 | fills the clipped range with 0xFF and moves the position; the image is otherwise as before |
| Filesystem.Fs.Cat | foreign/libsdbfs/tools/sdb-read.c:215-216 | repeated reads of any positive size end, and their concatenation is the rest of the record |
| Access.RunFrames | foreign/libsdbfs/access.c:42-80 | no sequence of writes and erases changes a byte outside the record |
| Access.WriteStores | foreign/libsdbfs/access.c:42-60 | a write stores its bytes in order, as many as fit |
| Access.EraseStores | foreign/libsdbfs/access.c:62-80 | an erase stores 0xFF, as often as fits |
| Access.ReadBack | foreign/libsdbfs/access.c:22-80 | after any sequence of writes and erases each byte is what the last one to cover it gave it, a byte of its data or 0xFF, or the original |
| Access.Isolated | foreign/libsdbfs/access.c:42-80 | two records with disjoint ranges: each reads as if the other's changes had not happened, in any interleaving |
| Representation.SameTable | foreign/libsdbfs/glue.c:70-182 | devices that agree on every address a listing visits give the same listing |
| Representation.SwappedAgrees | foreign/libsdbfs/glue.c:70-100 | an image with all words swapped, read with conversion, gives the same records at word addresses |
| Representation.CallbackAgrees | foreign/libsdbfs/glue.c:70-100 | reading through the callback gives the same records at addresses that fit an `int` |
| Representation.NativeRecognised | foreign/libsdbfs/glue.c:17-34 | an image in its own order is accepted without conversion |
| Representation.SwappedRecognised | foreign/libsdbfs/glue.c:17-34 | a word-swapped image is accepted with conversion |
| Representation.RepresentationIndependence | foreign/libsdbfs/glue.c:17-100 | an image, swapped or not, mapped or read by callback, is recognised and lists the same |
| Representation.ChangesKeepListing | foreign/libsdbfs/access.c:42-80 | writes and erases in a record away from the tables leave the whole listing as it was |
| Registry.RegisterInv | src/dev_io/dev_io_core.c:776-945 | a registration, successful or not, keeps the registry invariant |
| Registry.DestroyConfigInv | src/dev_io/dev_io_core.c:1305-1326 | destroying a config actor keeps the invariant and succeeds exactly for a known key |
| Registry.DestroySmioInv | src/dev_io/dev_io_core.c:1305-1326 | destroying an SMIO actor whose config actor is gone keeps the invariant and succeeds exactly for a known key |
| Registry.UnregisterInv | src/dev_io/dev_io_core.c:983-994 | unregistering removes the key from both tables, keeps the invariant and fails exactly for an unknown key |
| Registry.PipesStayPolled | src/dev_io/dev_io_core.c:1284-1301 | unregistering any key leaves every message pipe polled |
| Registry.UnregisterAllClears | src/dev_io/dev_io_core.c:1009-1021 | unregistering all succeeds, empties both tables and all actor slots, and leaves exactly the message pipes polled |
| Registry.ConfigDoneOwn | src/dev_io/dev_io_core.c:617-671 | the message of a live config actor finds its own key, removes exactly that actor and does not stop the reactor |
| Registry.StepInv | src/dev_io/dev_io_core.c:617-1326 | every event keeps the invariant: entries name distinct live slots, no live actor is lost, polled sockets are exactly those of live actors and message pipes |
| Registry.RunSafe | src/dev_io/dev_io_core.c:617-1326 | after every sequence of events the reactor runs, no assertion has failed, config keys are SMIO keys and slots are distinct |
| Registry.RegisterReturn | src/libs/liberrhand/include/errhand_assert.h:16-32 | exactly which steps must succeed for success to be returned, and which for the SMIO to be registered; what is then in the tables and polled, and that otherwise nothing but the slot count differs |
| Registry.AbortsIff | src/dev_io/dev_io_core.c:1284-1326 | destroying an actor fails its assertion exactly if the table names an empty slot |
| Registry.ConfigInsertSucceeds | src/dev_io/dev_io_core.c:892-900 | a key new to the SMIO table is new to the config table |
| Registry.FailuresUseSlots | src/dev_io/dev_io_core.c:821-829 | failing registrations use up a slot each and change nothing else |
| Registry.GuardTooLax | src/dev_io/dev_io_core.c:782-783 | the limit check passes in every reachable state, one without a free slot among them |
| DevIo.StageOutcome | src/dev_io/dev_io_core.c:821-944 | how far a registration got determines its result: complete, or the old state with one slot used up |
| DevIo.DevIo.constructor | src/dev_io/dev_io_core.c:165-173 | a new DEVIO has empty tables, free slots and nothing polled, and satisfies the invariant |
| DevIo.DevIo.Acquire | src/dev_io/dev_io_core.c:821-912 | the steps of a registration leave exactly the partial state of the stage reached |
| DevIo.DevIo.Rollback | src/dev_io/dev_io_core.c:914-944 | the chain of labels undoes every stage: all tables, actors and polled sockets as before, one slot number used |
| DevIo.DevIo.RegisterSm | src/dev_io/dev_io_core.c:776-945 | refines the registration of the transition system and keeps the invariant |
| DevIo.DevIo.DestroyConfigActor | src/dev_io/dev_io_core.c:1305-1326 | refines destruction through the config table; the slot it names is never empty |
| DevIo.DevIo.DestroySmioActor | src/dev_io/dev_io_core.c:1305-1326 | refines destruction through the SMIO table; the slot it names is never empty |
| DevIo.DevIo.UnregisterSm | src/dev_io/dev_io_core.c:983-994 | refines unregistration |
| DevIo.DevIo.DestroyConfigAll | src/dev_io/dev_io_core.c:1261-1282 | the loop over the config table's keys refines destroying them one by one up to a failure |
| DevIo.DevIo.DestroySmioAll | src/dev_io/dev_io_core.c:1261-1282 | the loop over the SMIO table's keys refines destroying them one by one up to a failure |
| DevIo.DevIo.UnregisterAllSm | src/dev_io/dev_io_core.c:1009-1021 | refines unregistering all, whatever order the tables list their keys in |
| DevIo.DevIo.HandlePipeCfg | src/dev_io/dev_io_core.c:617-671 | CONFIG DONE removes the named config actor; no message, a missing frame or an unknown name stops the reactor with -1, and nothing else does; other commands change nothing |
| Messages.CheckArgs | src/msg/msg.c:160-216 | succeeds exactly if counts agree and every frame suits its descriptor; otherwise the error is that of the first mismatch; the cursor is back at the first frame on every path |
| Messages.KthReply | src/dev_io/dev_io_core.c:557-574 | the k-th reply answers the k-th request, in the state the earlier requests left |
| Messages.RejectedReply | src/msg/msg.c:116-158 | a request with a bad opcode, an unknown one or unsuitable arguments changes nothing and is answered by one frame holding 1 |
| Messages.ReplyShape | src/msg/msg.c:304-401 | any other gets the state and the answer of its operation: three frames (OK, size, that many bytes of the data) exactly for a positive count, otherwise one frame with the code |
| Messages.SuitsIff | src/libs/libdisptable/include/disptable_core.h:47-51 | in numbers, when a frame suits the word that describes it |
| Messages.Pipe.HandleRequest | src/msg/msg.c:116-158 | exactly one reply is sent per request, and the state changes as the dispatched operation says |
| Messages.Pipe.Drain | src/dev_io/dev_io_core.c:548-577 | draining empties the inbox and sends one reply per request, in order |
| Rpc.ReadHandled | src/msg/smio_thsafe_ops/smio_thsafe_zmq_server.c:144-172 | the server's answer to a client's read request |
| Rpc.WriteHandled | src/msg/smio_thsafe_ops/smio_thsafe_zmq_server.c:238-268 | the server's answer to a client's write request |
| Rpc.FormatReceived | src/msg/smio_thsafe_ops/smio_thsafe_zmq_client.c:487-551 | what the client makes of a formatted reply: full word, empty, or failure |
| Rpc.RequestFrames | src/msg/smio_thsafe_ops/smio_thsafe_zmq_client.c:298-438 | the frames of the two requests: opcode 3 or 6, address, word |
| Rpc.ReceivedIff | src/msg/smio_thsafe_ops/smio_thsafe_zmq_client.c:487-551 | exactly which replies the client takes data from, and which it takes as empty |
| Rpc.ClientReadRefines | src/msg/smio_thsafe_ops/smio_thsafe_zmq_client.c:298-360 | a remote read through request, dispatch, reply and unpacking is a plain register read, with the same success |
| Rpc.ClientWriteRefines | src/msg/smio_thsafe_ops/smio_thsafe_zmq_client.c:362-438 | a remote write is a plain register write, with the same success |
| Fields.InsertBit | include/rw_param.h:141-156 | after insertion each bit is the value's inside the field and the old one outside |
| Fields.ExtractBit | include/hw/wb_acq_core_regs.h:29-31 | extraction gives the field's bits, moved to the bottom |
| Fields.GetAfterSet | include/rw_param.h:76-179 | extracting an inserted value gives it back, reduced to the field's width, for every field narrower than a word |
| Fields.OtherFieldKept | include/rw_param.h:141-156 | a field disjoint from the one set is unchanged |
| Fields.SetsCommute | include/rw_param.h:141-156 | setting two disjoint fields commutes |
| Fields.UpdatedSameIff | include/rw_param.h:141-156 | a set leaves the register as it was if and only if the field already holds the value |
| Fields.UpdatedTwice | include/rw_param.h:141-156 | of two sets of one field only the later one counts |
| Fields.OrAddsIff | include/rw_param.h:81-82 | ORing an offset in adds it if and only if the two share no bit |
| Fields.ChannelAdds | include/rw_param.h:252-271 | with base and stride multiples of a power of two above the offset, the channel address is the sum |
| Fields.ChannelsDistinct | include/rw_param.h:252-271 | then two addresses are equal if and only if channel and register are |
| Fields.OrSameIff | include/rw_param.h:81-82 | ORing two offsets into one base gives one address if and only if they differ only in bits of the base |
| Fields.ChannelSameIff | include/rw_param.h:252-271 | so two registers of a channel have one address if and only if they differ only in bits of the channel's base |
| Fields.TriggerAddress | src/sm_io/modules/trigger_iface/sm_io_trigger_iface_exp.c:42 | the address of each register of each channel with a stride of twelve |
| Fields.TriggerCollidesIff | include/hw/wb_trigger_iface_regs.h:1041-1050 | exactly which registers share an address: of one channel only, none if its number is a multiple of four, all three if it is one more, and two otherwise |
| Params.Smio.Read32 | src/sm_io/sm_io.c:764-768 | reads the register at base OR offset |
| Params.Smio.Write32 | src/sm_io/sm_io.c:790-794 | writes the register at base OR offset |
| Params.Smio.SetParam | include/rw_param.h:119-179 | a SET does what the value-level outcome says, on every failure of the accesses; a rejected value writes nothing |
| Params.Smio.GetParam | include/rw_param.h:76-111 | a GET does what the value-level outcome says |
| Params.Smio.AddressBit | src/sm_io/sm_io.c:764-794 | each bit of an address is that of the base or of the offset |
| Params.Smio.ChannelBit | include/rw_param.h:252-271 | each bit of a channel's address is that of the SMIO's base, of the channel's base, computed in 32 bits, or of the register |
| Params.GetExact | include/rw_param.h:76-111 | a GET changes no register, reports success exactly if its access moved four bytes, and then returns the field's bits |
| Params.SetExact | include/rw_param.h:119-179 | which error a SET reports, when it writes, and each bit of what it writes, in terms of its two accesses |
| Params.RefusedIff | include/rw_param.h:128-129 | a SET is refused, with no access, exactly if its value is out of bounds or fails its test |
| Params.Smio.SetGetParamChannel | include/rw_param.h:236-274 | a channel past the last is refused with no access; otherwise a SET or GET at the channel's address |
| Params.SetGetLaw | include/rw_param.h:76-179 | after a successful SET a GET whose access succeeds returns the value reduced to the field; disjoint fields and all other registers are unchanged |
| Params.SetKeepsOthers | include/rw_param.h:130-158 | a SET keeps the register's other bits if and only if it was rejected, its read succeeded, its write failed, or the stale local happened to agree |
| Params.FailedSetDestroys | include/rw_param.h:130-158 | a concrete SET with a failed read that clears bits of another field |
| Interleaving.ApplyIsSet | include/rw_param.h:119-179 | a client's operation run by itself is the SET of a parameter, whatever its two accesses return |
| Interleaving.AskedIsHandled | src/dev_io/dev_io_core.c:548-577 | the reactor's step on a read request is the message handler's answer to it, as the client takes it apart |
| Interleaving.WritingIsHandled | src/dev_io/dev_io_core.c:548-577 | the reactor's step on a write request is the message handler's work on it |
| Interleaving.StepInv | include/rw_param.h:119-179 | every step of any client keeps: each client's registers are as its finished SETs left them, and its pending request fits |
| Interleaving.RunInv | include/rw_param.h:119-179 | the same over every schedule |
| Interleaving.Serializable | include/rw_param.h:119-179 | any number of threads doing SETs on pairwise different registers, accesses failing or not: every interleaving of their read and write requests ends with the registers of running them one after another, in any order |
| Interleaving.SchedulesEnd | include/rw_param.h:119-179 | no schedule is longer than five moves per SET |
| Interleaving.StuckIsFinished | include/rw_param.h:119-179 | on every schedule, no client can move if and only if all are done |
| Races.OutcomesExact | include/rw_param.h:119-179 | two threads SET any two fields of one register: a value is left by some complete schedule if and only if it is that of a serial order or that with one of the SETs missing |
| Races.InTurn | include/rw_param.h:119-179 | the two serial values are those of running the programs one after the other |
| Races.DisjointHarmlessIff | include/rw_param.h:119-179 | for disjoint fields every complete schedule ends with the serial value if and only if both fields hold their new values already |
| Races.SameFieldHarmless | include/rw_param.h:119-179 | for one and the same field every complete schedule ends as one of the serial orders |
| Races.UpdateLost | include/rw_param.h:119-179 | whenever the first SET of two disjoint fields has something to change, some schedule leaves its field as it was, which no serial order does |
| Manager.Manager.ScanDevs | src/dev_mngr/dev_mngr_core.c:522-588 | the loop registers the devices found and returns how many it saw, the known ones included |
| Manager.Manager.SpawnAllDevios | src/dev_mngr/dev_mngr_core.c:398-513 | the loop starts what is due, up to the first failure, and reports whether there was one |
| Manager.ScanKeeps | src/dev_mngr/dev_mngr_core.c:522-588 | a scan registers every device shown under its identifier and the path first found, ready to run, and changes no registered one |
| Manager.SpawnAllRuns | src/dev_mngr/dev_mngr_core.c:398-497 | when nothing fails, ready devices run, killed ones run exactly if respawning is on, no other changes, and identities stay |
| Manager.AllSpawnIff | src/dev_mngr/dev_mngr_core.c:489-491 | the loop reports no failure if and only if every device due can be spawned |
| Manager.SpawnStops | src/dev_mngr/dev_mngr_core.c:489-491 | after the first failure nothing more is done |
| Manager.SpawnedAre | src/dev_mngr/dev_mngr_core.c:419-497 | what is spawned is due, with the identity the table has, and every change of state comes with a spawn |
| Manager.SettersExact | src/dev_mngr/dev_mngr_dev_info.c:84-218 | an identity can be set exactly while a device is inactive or ready, a state always, and nothing else changes |
| Manager.SpawnedOnce | src/dev_mngr/dev_mngr_core.c:398-588 | over every run without respawning in which nobody marks a spawned device inactive or ready, each device is spawned at most once, and its identity stays what it was spawned with |
| Manager.MarkIff | src/dev_mngr/dev_mngr_dev_info.c:210-218 | setting a state keeps that invariant if and only if it does not mark a spawned device inactive or ready |
| Manager.MarkedReadySpawnsTwice | src/dev_mngr/dev_mngr_dev_info.c:210-218 | a spawned device that is marked ready is spawned a second time |
| Manager.StepInv | src/dev_mngr/dev_mngr_dev_info.c:84-218 | every other event keeps it; the setters of a spawned device's identity are without effect |

## Left out

- Layout.AllocStorage: tree nodes are returned as values instead of being updated in place; it takes a block size that is a power of two and sizes below 2^32, outside which the alignment mask is wrong (`Layout.SdbAlignRounds`).
- Layout.PlaceNode: under the same conditions as `Layout.AllocStorage`.
- Tools.BuildImage: under the same conditions as `Layout.AllocStorage`.
- Preorder.TreeRoundTrip: asks that all sizes stay below 2^32 and record counts below 2^16, and that nothing is stored where directories inside a displaced one are looked for; what a scan returns if a stored piece happens to lie there is not stated.
- Tools.Cat: asks that a record of that name is short enough for its size and the buffer's to be added as `int`s.
- Pieces.TopApartIff: files with user positions, which may lie anywhere; and user sizes on directories, for which the condition is sufficient but not necessary (`Pieces.HollowApart`).
- Listing.CountIsHonoured: takes `int` arithmetic to wrap, which the C standard leaves undefined after 2^31 records.
- Filesystem.Fs.Scan: aliasing of the current record with mapped storage, so a write over the tables does not change the record already returned.
- Filesystem.Fs.Fread: the callback forms of read, write and erase, which may return short counts; offsets outside the record and negative counts, which the library does not guard against.
- Filesystem.Fs.Cat: records so long that position and count no longer fit an `int`.
- Registry.RegisterInv: asks for a free slot, since a registration without one writes past the arrays; a failure to poll the config socket (`dev_io_core.c:907`), whose rollback uses a key already cleared.
- Registry.StepInv: unregistering by pipe command and registering all, which are unfinished in the code; the wait loop of a config actor for its termination message.
- Manager.SpawnedOnce: runs in which a spawned device is marked inactive or ready, which `Manager.MarkIff` shows to break it; no code does that.
- Params.Smio.GetParam: format functions, the single-bit clear form (which lacks an operator) and fields as wide as the register.
- The linked list of filesystem devices and destroying a device.
- Reading directories and config files in `gensdbfs`, device size padding, files that cannot be opened.
- Big-endian hosts.
- The 16-bit, 64-bit, block and DMA operations of the register protocol; requests through the message broker.
- Allocation failures, signals, logging, option parsing, the example programs and the address tables.
