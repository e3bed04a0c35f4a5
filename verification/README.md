# ClipShare server: a verified model

This project models the parts of the ClipShare server whose correctness is not visible in any single function: the
file protocol and its landing on disk, the X selection transfer, the in-place text and URL codecs, the socket
primitives, version negotiation and the method sessions. Every property below is stated for all inputs, all runs or
all behaviours of the network and the operating system, unless it says otherwise.

`dafny verify dfyconfig.toml` checks the whole project.

## How the pieces fit

**Bytes and text.** `Bytes`, `Utf8` (section 4 of RFC 3629 as a grammar, and an automaton with the same language),
`Eol`, `Url`, and the clipboard's file list: its writer `CutFiles`, its readers `CutReader`, and `CutRoundTrip`. The
conversions are defined as functions and the C loops as methods on arrays that rewrite one buffer; each method's result
equals the function. The backward CRLF loop carries the count of bare LFs still to its left as the distance between its
two indices. The readers split, decode and step through one buffer that they rewrite; that they stay inside it on every
text rests on a count of the terminators at or behind their position, which stays large enough whatever they write.

**The network.** `NetUtils.Socket` holds what the peer sent (`incoming`), what the server sent (`sent`), and an oracle
that decides for every call how many bytes move, or that the call fails. `Reliable` means that no call fails or
stalls. `Session` and `Text` build on it: for every session there is a plan, the bytes that a fault-free network sees, and
whatever the network does the bytes written are a prefix of the plan. `Session.Serve` states this for a connection, and with
it that nothing is written after a refusal. What a plan is made of is stated once more on the codes and bytes of the protocol
themselves (`Session.RefusedCodes` to `Session.AnyCode`).

**The file system.** `FileSystem.Fs` is a map from absolute paths (sequences of names) to files and directories,
with path resolution that knows `.`, `..` and empty components, and an oracle for the calls that the system refuses
(`Healthy`: none). `Receive` is `save_file`, `Landing` is `_check_and_rename` and `clean_temp_dir`, `FileV1` is the
one-file method of version 1, `Walk` is the recursive listing, `Send` the sending side, `CommonDir` the length that the
first takes from one path and the second applies to all, `Batch` the whole of
`_send_files_dirs`, `RoundTrip` puts both ends together up to the temp directory, and `Transfer` from the clipboard of one
server to the working directory of another.

**The X selection.** `XSelection` is a step system: one property, one event queue for each side, and steps that are the
two `switch (*context)` machines with their event loops (sections 2.5 and 2.7.2 of the ICCCM). `Xclib` has the machines as
classes that update their fields, each proved equal to its step.

**Small but exact.** `ListUtils` (growth of the list), `Config` (numbers with suffixes, trimming).

## Main results

- A tree whose paths are in the clipboard of one server, fetched in version 3 or 4 and sent to another one, ends in the working
  directory of that one with all its contents, below the new names of its top-level entries, and exactly as it is if the directory
  has none of its names, if nothing fails and the limits allow it (`Transfer.CopyTree`); and what landed can be pasted from there (`Transfer.ReceiveAndPaste`). In the temp directory it is the same tree, with exactly the sent bytes consumed
  (`RoundTrip.TreeRoundTrip`).
- Whatever names a peer sends, `save_file` creates entries below the temp directory only (`Receive.SaveFileCall`), and
  `_send_files_dirs` loses and changes nothing that existed, whether it succeeds or fails (`Batch.SendFilesDirs`). No file that
  either of them leaves is larger than the configured limit (`Receive.FilesFit` in their contracts), and one that is announced as
  larger is refused before it is opened.
- Landing leaves every entry at its own place or at a name that was free, and no two at the same place, also when some renames
  fail (`Landing.CleanTempDir`), and it succeeds if the system refuses nothing and there are fewer than a million entries. An
  entry gets its own name if that is free and not protected, and otherwise the least free number, an underscore and the name
  (`Landing.FindFree`, `Landing.OwnNameIsKept`).
- The readers of the file list stay inside their buffer for every text, however long its lines are, with one exact exception:
  a list that ends with the bare prefix `file://` (`CutReader.ReaderStaysInside`, `CutReader.OverrunIff`; with short lines it
  can be told from the lines, `CutRoundTrip.TextRunsOffIff`).
- In every run of the X selection transfer that comes to rest the caller gets exactly the owner's bytes if and only if they pass
  the allocation limit nowhere, are not empty, and are fewer than 2^31 - 1 (`XSelection.Delivery`); every run can be completed,
  and a measure bounds its length (`XSelection.RunsEnd`, `XSelection.RunKeepsInv`, `XSelection.NobodyWaitsForever`). The owner's
  loop has ended exactly if it lost the selection and has no transfer going on (`XSelection.OwnerReturns`).
- Whatever a client asks for, a method that is switched off gets status 4 and nothing else (`Session.RefusedCodes`,
  `Session.SwitchedOffIsRefused`, and in the contracts of `Session.RunVersion` and `Session.Serve`).
- The CRLF conversion puts a CR before every LF that has none and changes nothing else, and the LF conversion drops the CR of
  every CR LF pair and changes nothing else (`Eol.CrlfThroughout`, `Eol.OneCrForEachBareLf`, `Eol.OneCrLessForEachPair`,
  `Eol.OnlyCrsChange`, and `Eol.ConvertEol` for the code).
- The walk lists every regular file and, if asked, every entry-free directory within the depth limit exactly once
  (`Walk.DirWalk.RecurseDir`).
- Both ends of a negotiation agree on a version exactly if their ranges meet (`Session.BothEndsAgree`), and every
  connection carries a prefix of its plan and nothing after a refusal (`Session.Serve`).
- What `set_clipboard_cut_files` offers is read back by either reader under exactly the conditions given below
  (`CutRoundTrip.CutAndRead`).

Some properties that one might expect do not hold of the code. They are stated with the exact condition:

- The length of the common directory comes from the first copied path and is added to the start of every listed path, without
  a comparison. No read leaves a path if every copied path is at least that long, whatever else happens
  (`CommonDir.GetFiles`), and for copied regular files that can be sent otherwise only then (`CommonDir.FilesStayInsideIff`); for any listing the
  condition is on the listed paths (`CommonDir.StaysInsideIff`, `Send.ReadsOffIff`). `/aaaa/b` and `/c` do not meet it
  (`CommonDir.ShortPathReadsOff`). `Session.Serve` tells on which connections it happens.
- LF after CRLF restores a text exactly if it has no CR LF pair; contracting twice equals contracting once exactly if it
  has no CR CR LF (`Eol.LfRestoresIff`, `Eol.LfIdempotentIff`, with examples in `Eol.LfDoesNotRestoreExample` and
  `Eol.LfNotIdempotentExample`); so text passed from one server to another is unchanged
  exactly under the second condition (`Text.TextRoundTrip`).
- A cut list fills its buffer exactly if no URL is longer than 4096 bytes (`CutFiles.AllocationIsEnough`), and it is read back as it
  was written exactly if every URL but the last has at most 2048 bytes and the last at most 4096
  (`CutRoundTrip.CutListRoundTripIff`; for `get_copied_dirs_files` there are limits on the paths as well,
  `CutRoundTrip.CutNamesRoundTripIff`); `CutRoundTrip.LongUrlLosesTheRest` and `CutRoundTrip.CutUrlIsLost` are examples.
- The decoder looks for the terminator only after its first character, so for the bare prefix it goes on behind it: on a list
  that ends with it, it leaves the buffer (`CutRoundTrip.BareListRunsOff`).
- A text of 2^31 - 1 bytes or more that the configured limit allows is transferred and then dropped
  (`XSelection.LongTextIsNotDelivered`).
- A requestor that gives up in the middle of a text of several chunks, because the text passes its limit, leaves the owner
  waiting: after the loss of the selection the owner's loop does not end exactly if the text fits neither one chunk nor that limit
  (`XSelection.OwnerReturns`; `XSelection.OwnerIsStuck` has a run for every such text).
- `_send_files_dirs` reports success although the files could not leave the temp directory: a landing that fails after every
  record was saved is a failure of the call exactly if the temp directory could not be listed or is empty
  (`Batch.SendFilesDirs`, `Batch.Land`; `Batch.StuckFileIsSuccess` has a rename that is refused).
- `set_int64` promises values up to 2^61-1; without a suffix it stores up to 2^63-1 (`Config.UnsuffixedExceedsTheComment`),
  and for numbers from 2^63 on the multiplication by a suffix can overflow (`Config.Int64OfLargeNumber`,
  `Config.LargeNumberOverflows`).
- `send_text` acknowledges a text before it checks that it is UTF-8, so a text is dropped after it was acknowledged
  exactly if it is not UTF-8 or begins with a NUL (`Text.StoredIff`; `Text.AcknowledgedAndDropped` has examples).

## Where code and comments differ

The model follows the code in each case: `set_int64` as above (src/utils/config.c:152-157); `send_file_v1` mentions a limit of
1024 characters for names but the limit is 2048 less 16 (src/proto/methods.c:457-461); `_is_valid_fname` is described as
rejecting every control character, but looks only as far as the first NUL, and what follows that NUL is ignored
(src/proto/methods.c:80-86, 402-405).

## Model

| member | source | states |
|---|---|---|
| Utf8.AutomatonIsGrammar | src/proto/methods.c:172-178 | the byte automaton that the proofs use accepts exactly the UTF-8 strings of RFC 3629, which is what u8_check decides |
| Utf8.PrefixBeforeAscii | src/proto/methods.c:395-401 | cutting a UTF-8 string before an ASCII byte, such as a NUL, leaves a UTF-8 string |
| Eol.LfAfterCrlf | src/utils/utils.c:289-345 | LF(CRLF(s)) is LF(s) for every text |
| Eol.CrlfIdempotent | src/utils/utils.c:315-328 | expanding an expanded text changes nothing |
| Eol.LfRestoresIff | src/utils/utils.c:315-345 | contraction undoes expansion if and only if the text has no CR LF pair |
| Eol.LfIdempotentIff | src/utils/utils.c:331-345 | contracting twice is contracting once if and only if the text has no CR CR LF |
| Eol.CrlfThroughout | src/utils/utils.c:315-328 | after the expansion every LF comes right after a CR |
| Eol.OneCrForEachBareLf | src/utils/utils.c:293-328 | the expansion adds one byte for each LF that does not come right after a CR |
| Eol.SameIffNoBareLf | src/utils/utils.c:293-303 | a text is its own expansion if and only if it has no such LF |
| Eol.OneCrLessForEachPair | src/utils/utils.c:331-345 | the contraction drops one byte for each CR LF pair, and a text is its own contraction if and only if it has none |
| Eol.OnlyCrsChange | src/utils/utils.c:289-345 | neither conversion changes anything but CRs |
| Eol.LfNotIdempotentExample | src/utils/utils.c:336-342 | CR CR LF needs two passes |
| Eol.LfDoesNotRestoreExample | src/utils/utils.c:315-345 | CR LF comes back as LF |
| Eol.ConversionsKeepUtf8 | src/utils/utils.c:289-366 | either conversion of a text is UTF-8 if and only if the text is |
| Eol.StoredTextIsWellFormed | src/proto/methods.c:170-184 | text that passed the UTF-8 check is UTF-8 when it is stored, even when a NUL cuts it short |
| Eol.ReallocForCrlf | src/utils/utils.c:289-313 | 0 exactly if every LF comes right after a CR, -1 exactly if the result does not fit in 32 bits or memory fails, else a buffer with room for exactly the expanded text |
| Eol.CountBareLf | src/utils/utils.c:293-299 | the number of LFs that do not come right after a CR; the length plus that number is the length of the expanded text |
| Eol.ConvertToCrlf | src/utils/utils.c:315-328 | the buffer ends up holding the expansion of the old text, and nothing behind it changes |
| Eol.ExpandBackwards | src/utils/utils.c:319-327 | the backward loop never overwrites a byte it has still to read: the write index leads by the number of bare LFs on the left |
| Eol.CopyBack | src/utils/utils.c:320-325 | one turn of that loop moves one character and keeps the distance |
| Eol.ConvertToLf | src/utils/utils.c:331-345 | the buffer ends up holding the contraction of the old text, terminated, and its length is returned |
| Eol.ConvertEol | src/utils/utils.c:347-366 | LF when forced and CRLF otherwise, and -1 only if the expansion cannot be stored; with CRLF every LF of the result comes right after a CR, one byte is added for each bare LF, and the text is unchanged exactly if it has none; with LF one byte goes for each CR LF pair; bytes other than CR stay, in order |
| Url.UrlRoundTrip | src/utils/utils.c:939-1024 | decoding the encoding of any path gives the path |
| Url.UrlIsClean | src/utils/utils.c:978-1024 | a URL holds no newline and no NUL, and its length is between that of the path and three times that, plus seven |
| Url.EncodedByteIs | src/utils/utils.c:1000-1020 | a to z, @ and A to Z, & to :, _ = ! and ~ are written as they are, every other byte as a percent sign and two digits, the upper half first |
| Url.UrlAlphabet | src/utils/utils.c:978-1024 | a URL holds those characters and percent signs only, so no question mark, no space and no hash sign |
| Url.EscapedCount | src/utils/utils.c:978-995 | its length is that of the path, seven, and two for each byte that is escaped |
| Url.DecodedIff | src/utils/utils.c:944-967 | what follows the prefix is decoded if and only if every percent sign has two hexadecimal digits after it, and each triplet becomes one byte |
| Url.CountUrl | src/utils/utils.c:978-995 | the first pass counts exactly the bytes of the URL and its terminator |
| Url.UrlEncode | src/utils/utils.c:978-1024 | the second pass fills the counted buffer to the last byte with the encoding |
| Url.UrlDecode | src/utils/utils.c:939-971 | in-place decoding at any position of a terminated buffer: it succeeds if and only if a URL is there, writes the decoded path and a terminator, touches nothing else, and runs off if and only if the bare prefix ends the buffer |
| Url.DecodeLoop | src/utils/utils.c:944-967 | the loop for the string that is decoded, whose write index stays at least seven behind its read index |
| Url.DecodeBehind | src/utils/utils.c:943-967 | after the bare prefix the loop copies the terminator and goes on with the string behind it |
| CutFiles.AllocationIsEnough | src/utils/utils.c:1405-1434 | the text never exceeds the computed allocation, and fills it exactly if and only if no URL is longer than 4096 bytes |
| CutFiles.SetClipboardCutFiles | src/utils/utils.c:1405-1440 | succeeds exactly if the length fits and memory is granted; the buffer holds "cut" and the URLs of the paths for which memory was granted, each after a newline, in order |
| CutFiles.WriteLines | src/utils/utils.c:1426-1433 | the writing loop produces exactly that text and stays inside the buffer |
| CutFiles.CollectUrls | src/utils/utils.c:1406-1417 | one URL for each path for which memory is granted, and the sum of their lengths |
| CutFiles.EncodeIfGranted | src/utils/utils.c:1409-1416 | a path for whose URL malloc grants no memory is skipped |
| CutFiles.GrantedAre | src/utils/utils.c:1409-1416 | the paths that are listed are exactly those at the positions for which memory is granted, in their order |
| CutRoundTrip.LinesOfCut | src/utils/utils.c:1405-1434 | the lines of the text are "cut" and then, in order, the URLs, up to 4096 bytes of each |
| CutRoundTrip.EntriesAreIndependent | src/utils/utils.c:395-420 | decoding one entry in place never disturbs a later one: the loop gives what decoding each entry by itself gives |
| CutRoundTrip.CutIsTerminated | src/utils/utils.c:1391-1402 | replacing newlines by terminators turns the text into its lines, each terminated |
| CutReader.GetCopiedFiles | src/utils/utils.c:372-422 | for every text: a list exactly if the first line is "cut" or "copy", and then the names of the regular files, unless the decoder would read behind the buffer, which only a buffer that ends with the bare prefix can cause |
| CutReader.WalkStaysInside | src/utils/utils.c:395-420 | however long the entries are and wherever the steps of 2049 bytes lead, with as many terminators as entries every read stays inside the buffer, unless it ends with the bare prefix |
| CutReader.OverrunIff | src/utils/utils.c:395-420 | the loop reads behind the buffer if and only if it comes to the last eight bytes and finds the bare prefix there |
| CutRoundTrip.EntriesRunOffIff | src/utils/utils.c:395-420 | a condition to check beforehand: if no line before the last has more than 2048 bytes or is the bare prefix, the loop reads behind the buffer if and only if the last line is the bare prefix and all before it decode and are accepted |
| CutRoundTrip.TextRunsOffIff | src/utils/utils.c:372-420 | the same on the lines of the text |
| CutReader.ReaderStaysInside | src/utils/utils.c:372-420 | the same for every text: newlines give a terminator for every entry that is counted |
| CutReader.PrepareList | src/utils/utils.c:1391-1402 | a list is accepted exactly if its first line is "cut" or "copy"; every newline becomes a terminator, and the entries are counted |
| CutReader.HeaderIff | src/utils/utils.c:1391-1402 | a text is a list if and only if it begins with "cut" or "copy" and a newline |
| CutReader.CopiedNames | src/utils/utils.c:678-710 | both readers up to stat: the names in their order, for every text |
| CutReader.SplitInPlace | src/utils/utils.c:380-386 | newlines become terminators and the count is the number of lines |
| CutReader.DecodeEntries | src/utils/utils.c:395-420 | with as many terminators as entries, the loop that decodes in place and steps over each entry never reads outside the buffer: it gives the names, or stops where the decoder would run off |
| CutRoundTrip.CutListRoundTrip | src/utils/utils.c:1352-1440 | reading a written list gives back the paths in order, in either reader, if every URL but the last has at most 2048 bytes and the last at most 4096 |
| CutRoundTrip.CutListRoundTripIff | src/utils/utils.c:1352-1440 | and only then, for paths of regular files that do not contain file:// themselves |
| CutRoundTrip.CutNamesRoundTripIff | src/utils/utils.c:678-710 | for either reader and paths that do not contain file://: the names come back if and only if the URLs fit and, in get_copied_dirs_files, no path has more than 2048 bytes and the first does not end with a separator |
| CutRoundTrip.CutAndRead | src/utils/utils.c:1352-1440 | writing a list and reading the buffer that was offered gives the paths for whose URL there was memory, under exactly these conditions |
| CutRoundTrip.Paste | src/utils/utils.c:1352-1402 | the reader on a buffer that was offered |
| CutRoundTrip.LongEntryEndsTheList | src/utils/utils.c:395-420 | for a first path that does not contain file://, an entry of more than 2048 bytes is the last one that either reader reads |
| CutRoundTrip.EncodingHasNoUrl | src/utils/utils.c:978-1024 | the encoding of a path holds no file:// that the path does not hold |
| CutRoundTrip.ClippedIsShorter | src/utils/utils.c:939-1024 | a URL that is cut short decodes to a shorter path, if at all |
| CutRoundTrip.LongUrlLosesTheRest | src/utils/utils.c:395-420 | with an absolute path of eight components of 255 letters, a URL of 2055 bytes, the second path is lost |
| CutRoundTrip.CutUrlIsLost | src/utils/utils.c:1426-1433 | a URL of 4603 bytes is cut by the writer, and even a list of this one path is not read back |
| CutRoundTrip.BareListRunsOff | src/utils/utils.c:939-967 | "copy", a newline and the bare prefix make the decoder read behind the buffer |
| NetUtils.Socket.ReadSock | src/utils/net_utils.c:633-665 | success means exactly the next bytes in order, failure a proper prefix of them, in at most 11 calls per byte and one |
| NetUtils.Socket.WriteSock | src/utils/net_utils.c:726-758 | success means that all was sent in order, failure that a proper prefix was, in at most 11 calls per byte and one |
| NetUtils.Socket.SendSize | src/utils/net_utils.c:760-768 | sends the eight bytes of the size |
| NetUtils.Socket.ReadSize | src/utils/net_utils.c:770-784 | reads eight bytes and returns the size they encode |
| NetUtils.FillSize | src/utils/net_utils.c:760-768 | the loop writes the two's complement form, most significant byte first |
| NetUtils.UnpackSize | src/utils/net_utils.c:770-784 | the shifting loop computes the signed value without leaving 64 bits |
| NetUtils.SizeRoundTrip | src/utils/net_utils.c:760-784 | every signed 64-bit value survives, -1 included |
| NetUtils.SizeBytesRoundTrip | src/utils/net_utils.c:760-784 | every eight bytes are the encoding of the value they decode to |
| NetUtils.SizeBytes | src/utils/net_utils.c:760-768 | the most significant byte is sent first, and -1 is eight times 255 |
| Paths.OnlyTheLastIsDotDot | src/proto/methods.c:613-614 | a path without "/../" has ".." at most as its last component |
| Paths.SplitOfJoin | src/utils/utils.c:632-676 | cutting a composed path at the separators gives back its names |
| FileSystem.EnsureDirsGrows | src/utils/utils.c:528-559 | making directories without ".." keeps every entry and adds entries below the start only |
| FileSystem.EnsuredResolves | src/utils/utils.c:528-559 | after that the path leads to a directory |
| FileSystem.Fs.MkdirCheck | src/utils/utils.c:500-526 | success means that there is a directory, new or not |
| FileSystem.Fs.MkdirsCall | src/utils/utils.c:528-559 | success gives exactly the file system of mkdir -p; failure leaves that of some first components |
| FileSystem.Fs.MakeEach | src/utils/utils.c:549-557 | the loop that cuts the path at each separator and makes one directory after another |
| FileSystem.Fs.ReadDir | src/utils/utils.c:561-604 | every entry of the directory once |
| Receive.NewEntryIsBelow | src/proto/methods.c:613-620 | a path that enters a directory with ".." at most last, and leads to nothing yet, leads below the directory |
| Receive.CheckedComponents | src/proto/methods.c:602-614 | the components of a composed path that passed the "/../" test |
| Receive.ParentsStayBelow | src/proto/methods.c:555-565 | making the parents adds entries below the temp directory only, wherever it stops |
| Receive.TouchedStaysBelow | src/proto/methods.c:339-393 | what _save_file_common does to a path that leads to nothing yet stays below the temp directory |
| Receive.ReceiveContent | src/proto/methods.c:368-387 | the receiving loop stores exactly the announced bytes, or removes the file |
| Receive.SaveFileCommon | src/proto/methods.c:339-393 | success gives the file with its content, or the directory, and consumes exactly that record; a size above the limit is refused and touches nothing, and no new file is larger than the limit |
| Receive.IsValidFname | src/proto/methods.c:395-407 | accepts exactly UTF-8 names whose first byte, and every byte before the first NUL, is 32 or more |
| Receive.ComposePath | src/proto/methods.c:589-611 | the path is the temp directory, one separator, and the name without a separator at either end |
| Receive.PathForms | src/proto/methods.c:589-611 | a name, with or without a slash before and after it, or with a NUL and anything behind it, gives the same path |
| Receive.SavedIsStored | src/proto/methods.c:567-627 | what an accepted record was and what it left: a name of 1 to 2048 bytes, a size from -1 to the limit, and one file with exactly the content, or a new directory from version 3 on |
| Receive.SaveNamedCall | src/proto/methods.c:588-626 | save_file once the name was read: contained, and equal to its specification |
| Receive.SaveFileCall | src/proto/methods.c:567-627 | for every name a peer can send, every entry that appears is below the temp directory and nothing is lost; success gives exactly the specified file system: one new file with the announced bytes, at most max_file_size of them, or from version 3 on for size -1 a new directory, and no other new file |
| Receive.SaveFiles | src/proto/methods.c:721-727 | the same for the loop over all records; no new file is larger than max_file_size |
| Landing.RenameKeepsWellFormed | src/proto/methods.c:655-660 | moving a subtree to a free name leaves every entry in a directory |
| Landing.FindFree | src/proto/methods.c:641-653 | the own name if it is neither there nor protected, else the least number from 1 to 999999, an underscore and the own name that is not there; none only if all are there |
| Landing.CheckAndRename | src/proto/methods.c:629-670 | one entry moves to that name, or nothing changes; if the system refuses nothing it fails only when no name is free |
| Landing.OwnNameIsKept | src/proto/methods.c:640-653 | an entry whose name is not there, not protected, and not given away keeps it |
| Landing.OneMoreLands | src/proto/methods.c:680-689 | each rename keeps the account of where every old entry is |
| Landing.PlacesDiffer | src/proto/methods.c:629-696 | no two old entries end up at the same place, whether the temp directory is gone or not |
| Landing.OutsideStays | src/proto/methods.c:629-696 | an entry outside the temp directory stays where it was with its content |
| Landing.SomeNameIsFree | src/proto/methods.c:641-653 | with fewer than a million entries some candidate is free |
| Landing.LandOne | src/proto/methods.c:680-689 | one turn of the loop |
| Landing.CleanTempDir | src/proto/methods.c:672-696 | whatever fails, every old entry is at its own place or a name that was free, and no two at the same place; a name is the own one, or a number and the own one if that was there, protected or given away before; with a result the temp directory is gone and there is one path per entry in order; it succeeds if nothing is refused; nothing moves if all renames are refused |
| Walk.DirWalk.ProcessPath | src/utils/utils.c:622-630 | a file is listed, a directory is walked one level deeper |
| Walk.DirWalk.RecurseDir | src/utils/utils.c:632-676 | the list grows by exactly the regular files within the depth limit and, if asked, the entry-free directories with a separator, each once |
| Walk.DirWalk.VisitNames | src/utils/utils.c:656-671 | the same for the readdir loop, which gives up at a path that is too long |
| Walk.DirWalk.GetCopiedDirsFiles | src/utils/utils.c:678-736 | from the text of the selection over all copied paths: files at most 256 levels below a path and, if asked for, directories without entries at most 255 below, each once and nothing else; their texts are absolute paths, with a separator after a directory; the length of the common directory is that of the parent of the first path with its separators, or 0 for the root |
| Walk.DirWalk.WalkNames | src/utils/utils.c:706-735 | the loop over the decoded names |
| Walk.DirWalk.Append | src/utils/list_utils.c:44-63 | an entry is listed, or the list is unchanged because the call was refused |
| Walk.DirWalk.CommonLength | src/utils/utils.c:711-722 | that length ends just after the separator before the last name |
| Send.SendRecords | src/proto/methods.c:322-334 | the records before the first that cannot be sent, in order; success exactly if all can, when nothing fails; the loop comes to a name behind its path exactly if ReadsOff says so |
| Send.TransferRegularFile | src/proto/methods.c:191-228 | name length, name, size and content; nothing if the file is missing or too large; a prefix on failure |
| Send.TransferDirectory | src/proto/methods.c:231-239 | name length, name and -1 |
| Send.TransferSingleFile | src/proto/methods.c:242-296 | the record of the path: under its last component in version 1 and what follows the common directory later; a content of at most max_file_size bytes, or -1 after a name that ended with a separator; a name behind its path is reported |
| Send.GetFilesCommon | src/proto/methods.c:298-337 | NO_DATA and a closed socket for no files or too many, else status, count and one such record for each path in order, up to a name that would be read behind its path |
| Send.ReadsOffIff | src/proto/methods.c:257-267 | the loop reads behind a path if and only if some path is shorter than path_len and everything before it can be sent |
| Send.StaysInsideIff | src/proto/methods.c:257-267 | no read leaves a path if all are long enough, and only then if everything that is long enough can be sent |
| Send.NothingReadsOff | src/proto/methods.c:245-254 | in version 1 no list is read behind a path |
| Send.RecordIff | src/proto/methods.c:242-296 | what is sent for a path: the name is its last component, without a slash, in version 1, and what follows the common directory later, with 1 to 2048 bytes; then the size, at most the limit, and the content of the file, or -1 for a directory; nothing is sent if and only if there is no such record |
| Send.BatchIsRecords | src/proto/methods.c:322-334 | a batch is one record for each path, in the order of the paths |
| CommonDir.ListReaches | src/utils/utils.c:711-732 | if every copied path is at least as long as the directory of the first, so is everything that is listed |
| CommonDir.FileMustReach | src/utils/utils.c:711-732 | for a copied regular file that is also necessary |
| CommonDir.StaysInsideIff | src/proto/methods.c:257-334 | for listed entries with short names and sizes that are allowed: no read leaves a path if and only if every listed path is at least path_len long |
| CommonDir.FilesStayInsideIff | src/proto/methods.c:257-334 | for copied regular files: if and only if every copied path is at least path_len long |
| CommonDir.ShortPathReadsOff | src/proto/methods.c:257-267 | with /aaaa/b and /c, two regular files, path_len is 6 and the second path has two bytes: it is read behind its end, in whatever order the two are listed |
| CommonDir.GetFiles | src/proto/methods.c:766-800 | from the selection to the answer: no read leaves a path if every copied path reaches, whatever the network and the system do; if nothing fails one does exactly if a listed path is too short |
| RoundTrip.OneRecord | src/proto/methods.c:567-627 | a record of a legal entry is accepted and adds the entry and the directories above it, nothing else |
| RoundTrip.ReceivingRebuilds | src/proto/methods.c:567-627 | the records of a tree, in any order of its leaves, rebuild exactly the tree in a fresh directory |
| RoundTrip.WalkListsLeaves | src/utils/utils.c:622-736 | what the walk lists are the leaves of the copied tree, each once |
| RoundTrip.RecordOnTheWire | src/proto/methods.c:242-296 | what is sent for a listed entry is its record |
| RoundTrip.BatchOnTheWire | src/proto/methods.c:322-334 | what is sent for the list is the records in its order |
| RoundTrip.TreeRoundTrip | src/proto/methods.c:191-393 | walking, sending and receiving a tree rebuilds it, with contents and empty directories, and consumes exactly the sent bytes |
| Batch.PickName | src/proto/methods.c:712-717 | the loop over random identifiers ends with the first name that does not exist |
| Batch.PickedIsFresh | src/proto/methods.c:712-717 | that name is "./" and a legal name, fits its buffer, and nothing is there |
| Batch.OwnNamesAreKept | src/proto/methods.c:672-696 | a batch none of whose names is there or protected lands under its own names |
| Batch.SendFilesDirs | src/proto/methods.c:698-761 | nothing that existed is lost or changed and nothing appears outside the working directory; after the reception every entry ends at exactly one place, success or not; the version 4 acknowledgement is written exactly when every record was saved; if the entries do not land the status is success exactly if all was saved and the temp directory could be listed and is not empty; if they land it depends on the cut list, whose paths are those of the new entries; the announced number is within 1 and the limit, no file is larger than max_file_size, and if no received name is there or protected every entry keeps its own |
| Batch.AcceptCount | src/proto/methods.c:698-706 | the status byte, and a number of records within 1 and the limit |
| Batch.ReceiveBatch | src/proto/methods.c:719-760 | the same from the making of the temp directory on |
| Batch.SaveAndAcknowledge | src/proto/methods.c:720-744 | the acknowledgement is written only after all records were saved |
| Batch.Land | src/proto/methods.c:742-760 | every entry ends at exactly one place; after a failed reception nothing moves; an empty temp directory is removed unless that is refused; a landing that fails is a failure of the call exactly if the directory is empty or could not be listed; so it is a success if everything is refused from the first rename on; a failed cut list is a failure |
| Batch.StuckFileIsSuccess | src/proto/methods.c:742-760 | one file was saved, its rename is refused, it stays in the temp directory, and the status is success |
| Transfer.AnnouncedIsReceived | src/proto/methods.c:298-337 | what follows the status byte is what the receiver takes as count and records |
| Transfer.CopiedTreeArrives | src/proto/methods.c:698-727 | the answer of one server is accepted by another, and its temp directory then holds the tree |
| Transfer.TreeHasLanded | src/proto/methods.c:672-696 | after landing every entry of the tree is below the new name of its first component, with its content |
| Transfer.TreeIsRoomy | src/proto/methods.c:672-696 | what the temp directory holds after a tree was received can land |
| Transfer.CopiedListIsRead | src/utils/utils.c:678-710 | the list of the copied paths is read as it was written |
| Transfer.ReceiveTree | src/proto/methods.c:698-761 | on the answer of another server, with nothing failing and room left, every entry of its tree lands in the working directory, and exactly its bytes are consumed; under its own names if none of them is there or protected |
| Transfer.CopyTree | src/proto/methods.c:191-761 | both ends from the clipboard of one to the directory of the other: the copied tree is there, below the new names of its top-level entries; into a directory without these names it arrives exactly as it is |
| Transfer.OfferTree | src/proto/methods.c:298-337 | the sending half: from the text of the selection to the bytes of the answer |
| Transfer.ArrivedAsIs | src/proto/methods.c:672-696 | a tree none of whose top-level names is there or protected is in the working directory exactly as it was copied |
| Transfer.LandedAreListable | src/proto/methods.c:662-669 | the paths in the cut list are those of the new entries of the working directory, and can be in a list |
| Transfer.ReceiveAndPaste | src/proto/methods.c:698-761 | a batch that landed can be pasted: a reader of the selection gets the paths of the new entries in order, if they fit the limits |
| FileV1.RenameIfExists | src/proto/methods.c:426-443 | the own name if it is neither there nor protected, else the least free number, an underscore and the own name; none only if all are there |
| FileV1.SendFileV1 | src/proto/methods.c:450-509 | for every name at most one new file appears, directly in the working directory, under a free name; a broken transfer leaves no file; the file is saved exactly if a name is free, when nothing fails, and the status then depends on the cut list; no file is larger than max_file_size |
| FileV1.SaveFileV1 | src/proto/methods.c:450-493 | the part that receives the file: exactly the content that was sent, at most max_file_size bytes, under the first free name made from the last component of the received one |
| FileV1.HeaderIff | src/proto/methods.c:450-475 | the head of an upload is accepted if and only if it is the length of a clean name of 1 to 2032 bytes, and this name |
| FileV1.SavedIsUploaded | src/proto/methods.c:450-493 | in terms of the received bytes: a clean name of at most 2032 bytes, a size within the limit, and one new file with exactly that content whose name is the own one, or numbered if that is taken |
| Text.StoredIsText | src/proto/methods.c:172-184 | what is stored is not empty, has no NUL and is UTF-8 |
| Text.StoredIff | src/proto/methods.c:172-184 | received bytes are stored if and only if they are UTF-8 and do not begin with a NUL; then the text before the first NUL is, with one byte less for each CR LF pair and nothing but CRs gone |
| Text.OfferedIff | src/proto/methods.c:94-129 | a text is offered if and only if the clipboard holds one that is not empty, within the limit, and does not begin with a NUL |
| Text.AcknowledgedAndDropped | src/proto/methods.c:131-187 | the byte 0x80, and a text that begins with a NUL, are read like any text and not stored |
| Text.TextRoundTrip | src/proto/methods.c:94-187 | text that one server offers is read back exactly by another, and stored unchanged if and only if the clipboard text has no CR CR LF |
| Text.GetTextV1 | src/proto/methods.c:94-129 | NO_DATA or status, length and the text with LF line endings |
| Text.SendTextCommon | src/proto/methods.c:131-187 | the acknowledgement only after the whole announced text was read; the stored text is the received one, converted, if it is UTF-8 and its length is within the limit |
| Text.ReadAck | src/proto/methods.c:803-815 | success exactly for the acknowledgement byte |
| Session.VersionLimits.ApplyDefaults | src/main.c:221-225 | a minimum of 0 becomes 1 and one above 4 becomes 4; a maximum below the minimum or above 4 becomes 4; nothing else changes, and the range is ordered |
| Session.BothEndsAgree | docs/index.html:31-69 | server and client end on the same version if and only if their ranges meet, and it is the smaller of the two maxima |
| Session.CheckMethodEnabled | src/proto/versions.c:42-92 | code 1 to 7, 124 or 125 with its own switch off is answered with METHOD_NOT_IMPLEMENTED and the socket is closed; nothing else is refused here |
| Session.RefusalIsLast | src/proto/versions.c:42-277 | in the plan of every session NO_DATA, UNKNOWN_METHOD or METHOD_NOT_IMPLEMENTED is the last byte |
| Session.RefusedCodes | src/proto/versions.c:42-277 | each of the nine codes with its own switch off is answered with 4 alone; a code that is unknown, or not in this version, with 3 alone |
| Session.AnsweredCodes | src/proto/versions.c:96-277 | 1 answers with the text, 5 with the image, 6 from version 3 on with the copied image, 125 with the information text, in version 4 perhaps with the server name behind it |
| Session.AcceptedCodes | src/proto/versions.c:96-277 | 2 and 4 answer with 1, and in version 4 with a second 1 exactly if all that was announced was received |
| Session.ScreenshotCode | src/proto/methods.c:776-784 | 7 answers with 1, and after the number of the display with the image of that display, or of display 0 for a number out of range |
| Session.FilesCode | src/proto/methods.c:445-448 | 3 answers with the regular files in version 1, the files in version 2, and files and directories from version 3 on |
| Session.AnyCode | src/proto/methods.c:991-1020 | 124 answers with type 1 and the text, type 2 and the files and directories, or type 3 and the copied image |
| Session.SwitchedOffIsRefused | src/proto/server.c:40-109 | on a connection a code that is switched off gets the version and 4, and nothing else |
| Session.RefusedVersionIsLast | src/proto/server.c:40-77 | in the plan OBSOLETE is sent exactly for versions below the range and is the last byte; without acceptance nothing follows the offer |
| Session.NothingAfterRefusal | src/proto/server.c:40-109 | whatever part of the plan is written, nothing follows an obsolete version, an offer that is not accepted, or a status that refuses or reports no data |
| Session.GetImageCommon | src/proto/methods.c:512-538 | NO_DATA or status, length and image |
| Session.GetScreenshotCommon | src/proto/methods.c:776-784 | a status, and after the display was read a second status and perhaps the image |
| Session.GetAny | src/proto/methods.c:991-1020 | NO_DATA, or status, type and the content of that type |
| Session.RespondAnyFiles | src/proto/methods.c:921-944 | status, type, count and records, up to a name that would be read behind its path |
| Session.Answering | src/proto/methods.c:828-1045 | every method that answers writes a prefix of its plan, all of it if nothing fails |
| Session.Accepting | src/proto/methods.c:131-187 | the same for the methods that receive; the file system grows below the working directory only |
| Session.RunVersion | src/proto/versions.c:96-277 | a disabled or unknown method touches no file and no clipboard and reads nothing more; text is stored and files appear only for their enabled methods; for a code that is switched off at most the byte 4 is written, and exactly that if nothing fails |
| Session.Serve | src/proto/server.c:31-109 | every connection writes a prefix of its plan, all of it if nothing fails, and nothing after a refusal; a version is dispatched only if agreed on and in the configured range; a name is looked for behind its path only on a connection of ServerReadsOff, and there always if nothing fails; after a code that is switched off the server has written the version and 4, or a beginning of that |
| Session.SafeHost | src/proto/methods.c:257-267 | if every listed path is at least path_len long, no client can bring that about |
| Session.Negotiate | src/proto/server.c:31-77 | the version both agreed on, or none, and the bytes of the negotiation or their beginning |
| XSelection.StepKeepsInv | src/xclip/xclib.c:97-425 | every step of either side keeps the transfer in one of six phases and lowers the measure |
| XSelection.RunKeepsInv | src/xclip/xclib.c:97-425 | the same for every run, whose length the measure bounds |
| XSelection.NobodyWaitsForever | src/xclip/xclip.c:41-167 | as long as the requestor has not finished some side can move |
| XSelection.Delivery | src/xclip/xclib.c:97-425 | in every run that comes to rest the caller gets exactly the owner's bytes if and only if the text passes the allocation limit nowhere, is not empty and has fewer than 2^31 - 1 bytes; both contexts are then back at NONE; beyond the limit the process exits |
| XSelection.OwnerReturns | src/xclip/xclip.c:60-84 | in every run doIn has returned if and only if the selection was lost and no transfer is going on; in a run that came to rest after a loss, if and only if the text fits one chunk or the limit of the requestor, so always if the requestor has finished |
| XSelection.OwnerIsStuck | src/xclip/xclip.c:60-84 | for every other text there is a run in which the requestor gives up in the middle and the owner waits for ever |
| XSelection.RunsEnd | src/xclip/xclip.c:41-167 | every run can be completed to one that has come to rest |
| XSelection.LongTextIsNotDelivered | src/xclip/xclip.c:151-160 | a text of 2^31 - 1 bytes within the limit is transferred and then returned as a null pointer |
| XSelection.ChunkAccounting | src/xclip/xclib.c:371-420 | over any events, requests during the transfer included, the chunks written are the text up to the number of deletions times the chunk size, and only the last one is empty; only a request after the last deletion would begin anew |
| XSelection.BeforeTheEnd | src/xclip/xclib.c:371-420 | the restriction on requests says nothing about events up to and including the last deletion |
| XSelection.RoundsCount | src/xclip/xclib.c:371-420 | the last deletion is number ceil(length / chunk) + 1, also for an exact multiple |
| Xclib.OwnerLoop.Xcin | src/xclip/xclib.c:282-425 | the machine on its fields is the owner's step: TARGETS gets the two atoms, a text within the chunk size goes out at once, a longer one as INCR, and a deletion is answered with the next chunk |
| Xclib.OwnerLoop.HandleNextEvent | src/xclip/xclip.c:60-84 | one turn of the loop of doIn: a SelectionClear is remembered, and it returns exactly if one was seen and the context is NONE |
| Xclib.RequestorLoop.Xcout | src/xclip/xclib.c:97-254 | the machine on its fields is the requestor's step |
| Xclib.RequestorLoop.HandleNext | src/xclip/xclip.c:98-160 | one turn of the loop of doOut: it asks for its target; a refused UTF8_STRING is asked for again as STRING, and any other refusal is a failure; the final copy and the buffer that is returned |
| Xclib.RequestorLoop.Allocate | src/xclip/xclib.c:35-63 | an allocation of nothing or above the limit ends the process |
| ListUtils.RunKeepsSound | src/utils/list_utils.c:44-63 | over any calls of append the length stays within the capacity and the capacity within 32 bits |
| ListUtils.CopiedIsLinear | src/utils/list_utils.c:44-63 | growing moves fewer than two elements for each element in the list |
| ListUtils.RunKeepsAll | src/utils/list_utils.c:44-63 | if memory does not run out, up to 2^32 - 1 appended elements are all there in order |
| ListUtils.RunSelects | src/utils/list_utils.c:44-63 | whatever fails, the list holds appended elements in order, none twice |
| ListUtils.List2.Append | src/utils/list_utils.c:44-63 | the element is appended, or the list is unchanged because memory failed or the limit is reached |
| Config.Uint32OfNumber | src/utils/config.c:203-236 | a decimal number with no suffix or k, m or g is accepted if and only if the exact product is in 1..4294967294, and the product is stored |
| Config.Int64OfNumber | src/utils/config.c:158-196 | below 2^63: with a suffix accepted if and only if the product is in 1..2^61-1, without one if positive; nothing overflows |
| Config.Int64OfLargeNumber | src/utils/config.c:158-196 | from 2^63 on: rejected, unless the multiplication overflows, and exactly when it does |
| Config.UnsuffixedExceedsTheComment | src/utils/config.c:152-164 | 2^61 without a suffix is stored |
| Config.LargeNumberOverflows | src/utils/config.c:158-170 | 2^63 with the suffix k overflows |
| Config.OtherSuffixIsRejected | src/utils/config.c:158-236 | anything else after the number is rejected |
| Config.SuffixLetters | src/utils/config.c:158-236 | k, m and g stand for 10^3, 10^6 and 10^9, and t for 10^12 in set_int64 only; the products in range are stored and the others rejected |
| Config.CapitalSuffix | src/utils/config.c:158-236 | a capital letter means what the small one means |
| Config.LeadIsSkipped | src/utils/config.c:158-162 | white space and a sign before the number are skipped, and a minus sign negates modulo 2^64 |
| Config.StoredIsInRange | src/utils/config.c:158-236 | whatever the text, what is stored is positive and in range |
| Config.Field.SetUint32 | src/utils/config.c:203-236 | the table of limits gives exactly the range of the product |
| Config.Field.SetInt64 | src/utils/config.c:158-196 | the same for 64 bits |
| Config.TrimmedSplits | src/utils/config.c:37-57 | only bytes from 1 to 32 are removed, at both ends, and none is left at either end |
| Config.Trim | src/utils/config.c:37-57 | the buffer ends up holding the trimmed text |
| Receive.MakeDirectories | src/proto/methods.c:555-565 | the directories above the last separator are made as mkdirs makes them |
| Landing.RenameFile | src/utils/utils.h:271 | rename: the subtree moves, or nothing changes |
| Landing.LandEach | src/proto/methods.c:680-689 | a failed rename does not stop the loop, and the account of all entries holds throughout |
| NetUtils.Socket.Recv | src/utils/net_utils.c:589-631 | one call gives a non-empty part of what was asked for, or fails and changes nothing |
| NetUtils.Socket.Send | src/utils/net_utils.c:683-724 | one call sends a part of the data from its start, or fails and changes nothing |
| NetUtils.Socket.ReadBytes | src/utils/net_utils.c:633-665 | a buffer of exactly the requested size |
| Walk.DirWalk.AddRoot | src/utils/utils.c:716-732 | one copied path: nothing if it does not exist, itself if it is a file, else a walk |
| Send.SendData | src/proto/methods.c:49-63 | length and data, or a prefix of them on failure |
| Send.SendContent | src/proto/methods.c:217-227 | the loop sends the content in blocks and in order |
| Url.PutEncoded | src/utils/utils.c:1000-1020 | one character of the second pass |
| Url.DecodeOne | src/utils/utils.c:944-967 | one character or one triplet is read without passing the terminator |
| Url.HasPrefix | src/utils/utils.c:939-944 | the comparison with file:// stops at the terminator |
| CutFiles.PutLine | src/utils/utils.c:1426-1433 | a newline and at most 4096 bytes of the URL |
| CutReader.DecodeEntry | src/utils/utils.c:396-419 | one entry is decoded in place, judged, and stepped over as it was |
| CutReader.KeepName | src/utils/utils.c:708-713 | empty and long names end the list, and the first one loses a slash at its end |
| Text.SendAnswer | src/proto/methods.c:118-127 | status, length and data, or a prefix of them on failure |
| Session.GetFiles | src/proto/methods.c:445-448 | the file list of the version is sent, or NO_DATA, up to a name that would be read behind its path |
| Session.GetAnyText | src/proto/methods.c:889-919 | NO_DATA, or status, type, length and text |
| Session.AnswerAny | src/proto/methods.c:964-989 | status, type, length and data, or a prefix of them on failure |
| Session.Finish | src/proto/methods.c:828-887 | in version 4 success needs the acknowledgement of the client; nothing more is written |
| Session.OfferVersion | src/proto/server.c:57-70 | UNKNOWN and the largest version, or a prefix of them on failure |
| Config.FirstNonBlank | src/utils/config.c:38-41 | the first loop stops where the text without leading blanks begins |
| Config.ShiftDown | src/utils/config.c:42-48 | the second loop moves the rest to the front without overwriting what it has still to read |
| Config.CutBack | src/utils/config.c:50-54 | the third loop stops inside the text and leaves it without trailing blanks |
| FileSystem.Fs.Rmdir | src/utils/utils.h:272 | removes a directory exactly if it is empty |

## Left out

Parts of the repository that are not modelled:

- Sockets, TLS, certificates, multicast, processes and threads (src/utils/net_utils.c:66-631, src/servers/clip_share.c): foreign
  calls; the socket oracle stands for them.
- The web server and the UDP scan reply (src/servers/clip_share_web.c, src/servers/udp_serve.c): plumbing.
- The count of concurrent requests in src/servers/clip_share.c: it races with a signal handler, so an atomic model would not be faithful.
- Clipboard back ends, screenshots, PNG and tray icons: library wrappers; texts, images and file lists are given values
  (`Session.Host`).
- Windows wide-character paths and the HEADLESS variants; of the Windows branch only the CRLF functions are modelled.
- `put_clipboard_text` and the owner process that offers a text or a cut list: what they are given is known, its fate is not.
- The PNG and JPEG signature checks of `xclip_util` (src/xclip/xclip.c), and the limit of 2^32 - 2 entries of a file list, which a text
  of fewer than 2^31 - 1 bytes cannot reach.
- The key-by-key part of `parse_line`, and the setters other than `set_uint32` and `set_int64`: easy members.
- Symbolic links, permissions, and other processes that change the file system between a test and its use; refused calls are an
  arbitrary oracle.
- Joining the names of TARGETS in `doOut` (src/xclip/xclip.c:111-135), and several requestors at once in `xcin`.

Contracts that say less than one might expect:

- Walk.DirWalk.RecurseDir: the listing is complete when no call is refused, which includes the allocations of `append` and `strdup`, and no path is
  longer than 2048 bytes; it always lists nothing else and nothing twice.
- Walk.DirWalk.GetCopiedDirsFiles: the names in the list are absolute paths of named entries without "." and "..", none of which lies below another;
  other lists are covered up to their names (CutReader.CopiedNames).
- Landing.CleanTempDir: the memory for the paths of the result is granted.
- Url.UrlEncode: the memory for the URL is granted; CutFiles.EncodeIfGranted has the other case.
- CutReader.GetCopiedFiles: the memory for the list and for the copies of its names is granted, and what stat reports is a given set of regular files.
- CutFiles.SetClipboardCutFiles: URL lengths do not wrap around 32 bits, which takes a path of more than 2^30 bytes.
- CutRoundTrip.CutNamesRoundTripIff: one direction needs paths without file:// in them; with it, the wrong reading position could by chance begin a URL.
- CutRoundTrip.CutListRoundTripIff: the same.
- Transfer.CopyTree: both servers have the same limit for the size of a file, and the second one gets the bytes of the first after its status byte; the client between them is not part of this model.
- Batch.Land: a directory that cannot be listed ends in free_list(NULL) in the code; the model returns there.
- Batch.PickName: the values of time and rand are a list in which some identifier is free; the source would otherwise loop.
- FileV1.SendFileV1: the memory for the path and the list of one is granted.
- FileSystem.Fs.ReadDir: the memory for the list of names is granted, or the call fails as a whole; the source would drop single names.
- FileSystem.Fs.Write: fwrite writes everything or nothing; a partly written file is removed by the caller in either case.
- FileSystem.Fs.MkdirsCall: a path that ends with a separator and leads to a missing directory is treated component by component, the last one being empty.
- Send.TransferSingleFile: what is read behind a path that is too short, and then sent, is undefined in C; the model reports it and stops there.
- Send.TransferRegularFile: the file does not change while it is sent; if it shrank, the loop in the code would not end.
- Config.Field.SetInt64: when the multiplication overflows, which is undefined in C, the model reports it and stores nothing.
- ListUtils.List2.constructor: needs a capacity of at least one, since doubling a capacity of zero leaves it at zero.
- Xclib.RequestorLoop.Allocate: a failing malloc, which ends the process as the limit does, is not modelled.
- XSelection.Delivery: one requestor with one property; the atom and window of a property event are not distinguished, and the server never fails a request.
- Session.Serve: the range of versions is ordered, which Session.VersionLimits.ApplyDefaults establishes, and the memory for a received text is granted or refused once; what the clipboard and the display hold is given.
