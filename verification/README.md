# Proofs about a small kernel and its userland

A model in Dafny of eleven pieces of a hobby x86 kernel, its user programs and the libraries they bundle, with proofs of
what each piece is for. Code that updates state step by step is modelled by classes and methods with loops; the
specifications are functions and predicates that do not mention the code. `dafny verify dfyconfig.toml` checks the whole
project. `Common` holds the constants and types the modules share.

- **Inflate** (`Bits`, `CanonicalCode`, `BitReversal`, `Inflate`): the Huffman tables and the bit reader of the
  compressed-font decoder, against the canonical code of section 3.2.2 of RFC 1951. The tables are accepted exactly when
  the Kraft sum is at most one, and the fast table with its slow path decodes exactly that code.
- **JPEG** (`JpegBits`, `JpegHuffman`, `JpegTiling`): the bit reader refines the unstuffed bit sequence padded with ones
  (section F.2.2.5 of ITU-T T.81), a DHT segment leaves four 65536-entry tables that each decode the last definition
  naming them by the code of Annex C of ITU-T T.81, and the blocks of a scan tile every component plane.
- **Shell** (`ShellGrammar`, `Shell`): a grammar on tokens with a printer and round trips both ways, the cursor parser
  that agrees with it on every buffer, and in-place termination that leaves every word readable.
- **Process groups and sessions** (`Queue`, `LinkedQueue`, `Sessions`): queues as sequences, which the kernel's doubly
  linked list is shown to refine; processes, groups and sessions as linked objects; every system call keeps the
  links consistent and group ids unique, over every run.
- **Page cache** (`BTree`, `PageCache`): a search tree in the heap with parent links, whose deletion inserts two whole
  subtrees again; on it a cache of pages that agrees with the file for any history of hits, misses and freed pages.
- **Pattern matcher** (`Regex`): sound and complete against a language given by cutting a text into pieces.
- **Paths** (`VfsPath`): canonical absolute paths, in a buffer of exactly the right size, stable under parsing again.
- **Bit map** (`Bitmap`): first-fit search, setting and clearing of runs in 32-bit words.
- **Mutex** (`Mutex`): mutual exclusion, exact accounting and first-come service over every interleaving.
- **Pipe** (`Pipe`): bytes are conserved and kept in order over every interleaving, also when the 32-bit counters wrap.
- **Descriptors** (`FdTable`): reference counts equal the slots that name a file, over every run of calls.

What is taken as given:

- Allocation succeeds. A section under a spin lock is one step. Addresses of freed objects are not used again in
  `Sessions`, `BTree` and `FdTable`, and process ids do not run out.
- The inflate reader has no end-of-input test; its memory is a total function from addresses to bytes.
- The driver behind the page cache copies bytes of the file, as many as it likes of those asked for, and says how many;
  the file does not change.
- The results of a lookup, of opening or closing an inode and of making a pipe are parameters in `FdTable`.
- Offsets are 32 bits wide in `PageCache`, and `char` is signed in `VfsPath`, so bytes from 0x80 on are rejected there;
  the constants listed one by one in `vfs_path_syntax` above 0x80 never decide anything.

Three promises do not hold of the code as it stands, and each has its exact condition:

- `dup2` leaves a slot naming a freed file exactly when the last reference to the replaced file goes and closing its
  inode fails (`FdTable.System.Dup2`, with `FdTable.TornExample`).
- `ringbuf_available` is the number of bytes in the ring exactly while the tail counter is not behind the head counter;
  once it has wrapped, a full ring does not look full. A writer goes round for ever exactly when its bytes do not fit
  and the head counter is within 512 of two to the 32 before the call (`Pipe.AvailableIsCount`, `Pipe.FullButUnseen`,
  `Pipe.Channel.WriteStep`).
- `iread` answers -1, also after it has copied bytes, exactly when a page is still due at the end of the file
  (`PageCache.Mapping.Read`, with `PageCache.EndAfterCopy`).

`setpgid` on a child by a caller that has no session locks a null session; the model calls this a panic
(`Sessions.SetPgidPanics` reaches it). `setpgid` on a process that is neither the caller nor a child answers -EPERM,
where IEEE Std 1003.1 names ESRCH; the model follows the code.

## Model

| member | source | states |
|---|---|---|
| `BitReversal.BitReverse16IsTop` | kernel/include/font/ssfn.h:476-483 | the four mask-and-shift swaps reverse all 16 bits of any number |
| `BitReversal.BitReverseIsTop` | kernel/include/font/ssfn.h:485-488 | for every width up to 16, the shifted reversal is the first `bits` stream bits read most significant first |
| `CanonicalCode.FitsIffKraft` | kernel/include/font/ssfn.h:500-514 | every level of the code fits its width exactly when the Kraft sum is at most one |
| `CanonicalCode.KraftIsLimit` | kernel/include/font/ssfn.h:503-514 | the running code counter ends at the Kraft sum scaled to 15 bits |
| `CanonicalCode.CodeInRange` | kernel/include/font/ssfn.h:504-530 | the canonical code of a symbol lies between the first code of its length and the limit of that length |
| `CanonicalCode.PrefixFree` | kernel/include/font/ssfn.h:504-530 | at most one symbol's canonical code starts any bit string |
| `CanonicalCode.BelowLimit` | kernel/include/font/ssfn.h:511-512 | bits below the limit at one length are below the first code of every longer length |
| `CanonicalCode.SortedIndexInjective` | kernel/include/font/ssfn.h:519-522 | different symbols get different places in the tables sorted by code |
| `Inflate.Huffman.PlausibleSizes` | kernel/include/font/ssfn.h:500-502 | rejects exactly when some length has more symbols than codes, and then the code does not fit |
| `Inflate.Huffman.AssignCodes` | kernel/include/font/ssfn.h:503-515 | accepts exactly the lists whose code fits, and leaves first codes, first symbols and limits of every length right |
| `Inflate.Huffman.FillFast` | kernel/include/font/ssfn.h:523-529 | writes a fast entry into exactly the slots whose reversed bits start with the code |
| `Inflate.Huffman.AddSymbol` | kernel/include/font/ssfn.h:516-531 | after symbol i the sorted tables, the fast table and the next codes are right for the first i+1 symbols |
| `Inflate.Huffman.Build` | kernel/include/font/ssfn.h:490-534 | returns 1 exactly when the Kraft sum is at most one, and then the tables are built |
| `Inflate.ReversedSlots` | kernel/include/font/ssfn.h:524-528 | the slots from the reversed code on, in steps of two to the length, are those that start with the code |
| `Inflate.MatchesIffTop` | kernel/include/font/ssfn.h:586-598 | the unread bits begin with a symbol's code exactly when the reversed front of the bit buffer equals it |
| `Inflate.UniqueMatch` | kernel/include/font/ssfn.h:586-598 | no two symbols match the same unread bits |
| `Inflate.AboveShortCodes` | kernel/include/font/ssfn.h:575-578 | bits that match no code up to a length reach the limit of that length |
| `Inflate.AboveMeansNoMatch` | kernel/include/font/ssfn.h:576-579 | bits at or above the limit of a length match no code up to that length |
| `Inflate.ZBuf.FillBits` | kernel/include/font/ssfn.h:554-560 | more than 24 bits are buffered and the position in the stream has not moved |
| `Inflate.ZBuf.Receive` | kernel/include/font/ssfn.h:562-570 | gives the next n stream bits, lowest first, and moves n on, for all n up to 25 |
| `Inflate.SlowPath` | kernel/include/font/ssfn.h:572-584 | when no short code matches, finds the symbol whose longer code matches, or -1 when the bits are above every code |
| `Inflate.LookUp` | kernel/include/font/ssfn.h:590-597 | fast table and slow path together: the matching symbol with its length, or -1 when the bits are above every code |
| `Inflate.ZBuf.Decode` | kernel/include/font/ssfn.h:586-598 | for every built table and every stream: returns symbol i and moves by its length exactly when the unread bits begin with i's canonical code, and -1 without moving exactly when none matches |
| `JpegBits.SplitField` | usr/lib/nanojpeg.c:464-524 | reading a and then b bits is splitting one read of a+b bits |
| `JpegBits.Reader.Marker` | usr/lib/nanojpeg.c:481-507 | after an FF byte, the word and the rest stand for the unstuffed stream: stuffing is dropped, FF FF is one FF, an end marker ends the data, a restart marker is kept |
| `JpegBits.Reader.Load` | usr/lib/nanojpeg.c:471-507 | one round of refilling keeps the bits ahead, padded with ones at the end of the data |
| `JpegBits.Reader.Refill` | usr/lib/nanojpeg.c:469-508 | the reader still stands for the same padded bit sequence, with more bits in the word; no error on clean data |
| `JpegBits.Reader.ShowBits` | usr/lib/nanojpeg.c:464-510 | shows the next bits of the unstuffed sequence padded with ones, at most 16, and consumes none |
| `JpegBits.Reader.GetBits` | usr/lib/nanojpeg.c:519-524 | gives the next bits and moves past them |
| `JpegBits.Reader.ByteAlign` | usr/lib/nanojpeg.c:526-529 | moves to the next byte boundary of the loaded bytes, by less than a byte |
| `JpegBits.IsRestartMarker` | usr/lib/nanojpeg.c:496 | the mask test holds exactly for the eight restart markers |
| `JpegHuffman.CodeStart` | usr/lib/nanojpeg.c:654-677 | the code of Annex C of ITU-T T.81, moved to the top of 16 bits, is where the running pointer stands |
| `JpegHuffman.StartsWithIsRun` | usr/lib/nanojpeg.c:666-675 | a 16-bit value starts with a symbol's code exactly when it lies in that symbol's run of entries |
| `JpegHuffman.UniqueSymbol` | usr/lib/nanojpeg.c:654-677 | no value starts with two codes |
| `JpegHuffman.ExpandedDecodes` | usr/lib/nanojpeg.c:654-682 | in the table written, entry v has length L and symbol s exactly when the top L bits of v are the code of s, and length 0 when no code fits |
| `JpegHuffman.WrittenOnce` | usr/lib/nanojpeg.c:669-682 | writes that each go to the next entry write every entry of the table exactly once |
| `JpegHuffman.WriteLevel` | usr/lib/nanojpeg.c:666-675 | the runs of all symbols of one length are in place |
| `JpegHuffman.BuildLevel` | usr/lib/nanojpeg.c:655-677 | one length: its runs are in place, or the segment is too short or the code does not fit |
| `JpegHuffman.BuildTable` | usr/lib/nanojpeg.c:653-682 | accepts exactly when all symbols are there and the code fits, and then every one of the 65536 entries is the expansion of the definition and was written exactly once |
| `JpegHuffman.CheckId` | usr/lib/nanojpeg.c:644-648 | accepts exactly the table numbers 0 and 1 for both classes |
| `JpegHuffman.SelectTable` | usr/lib/nanojpeg.c:649 | the mask expression numbers the four tables by class and number |
| `JpegHuffman.Decoder.ReadTable` | usr/lib/nanojpeg.c:644-682 | one definition: fails exactly when it is malformed; otherwise its table is expanded, each entry written once, and the other three stay |
| `JpegHuffman.Decoder.DecodeDHT` | usr/lib/nanojpeg.c:635-686 | fails exactly when the length field does not fit the data or the segment is not a list of definitions; otherwise a table that definitions name decodes the last of them, any other is as before, and each definition wrote all entries of its table exactly once |
| `JpegHuffman.ApplyDecodes` | usr/lib/nanojpeg.c:642-686 | after any list of definitions a table decodes the last one that names it, in both directions for all 65536 entries |
| `JpegHuffman.ApplyKeeps` | usr/lib/nanojpeg.c:642-686 | a table that no definition names is unchanged |
| `JpegHuffman.ExtendEncodes` | usr/lib/nanojpeg.c:735-737 | the sign extension of section F.2.2.1 of ITU-T T.81 inverts the encoding of a difference in its bits |
| `JpegHuffman.Decoder.PeekCode` | usr/lib/nanojpeg.c:721-722 | the entry for the next 16 bits tells which code is ahead, or that none is; clean data leaves the error flag alone |
| `JpegHuffman.Decoder.AdditionalBits` | usr/lib/nanojpeg.c:732-738 | takes the extra bits the symbol asks for and gives the value they encode; clean data leaves the error flag alone |
| `JpegHuffman.Decoder.TakeCode` | usr/lib/nanojpeg.c:728-738 | moves past the code and its extra bits; clean data leaves the error flag alone |
| `JpegHuffman.Decoder.GetVLC` | usr/lib/nanojpeg.c:719-739 | for every table built from a definition: the symbol whose code is ahead and the value of its extra bits, moving exactly past both; a syntax error without moving when no code is ahead, and on clean data no error when one is |
| `JpegHuffman.Decoder.DefineAndRead` | usr/lib/nanojpeg.c:635-739 | from the bytes of a DHT segment to a decoded symbol: the first symbol read behind the segment is that of the last definition of its table, for the unstuffed bits there |
| `JpegTiling.OffsetInBounds` | usr/lib/nanojpeg.c:616-625 | no sample of any block is written outside the plane |
| `JpegTiling.SampleAtOffset` | usr/lib/nanojpeg.c:791-799 | a sample is found again from its offset |
| `JpegTiling.OffsetOfSampleAt` | usr/lib/nanojpeg.c:791-799 | every offset of the plane is that of a sample of the scan |
| `JpegTiling.PlaceBlock` | usr/lib/nanojpeg.c:760-763 | the 64 writes of a block log each of its samples at its own place, once |
| `JpegTiling.PlaceMacroblock` | usr/lib/nanojpeg.c:794-799 | the same for all blocks of a macroblock |
| `JpegTiling.PlaceAll` | usr/lib/nanojpeg.c:793-799 | the same for all components at one macroblock |
| `JpegTiling.DecodeScan` | usr/lib/nanojpeg.c:791-805 | after the scan every sample place of every component's plane was written exactly once, by the block, row and column that own it |
| `JpegTiling.PlaneCoversComponent` | usr/lib/nanojpeg.c:612-620 | the plane is at least as wide as the component for every sampling factor |
| `ShellGrammar.LexIsGood` | usr/apps/sh.c:273-317 | words are non-empty and free of blanks, symbols and NUL |
| `ShellGrammar.RenderRoundTrip` | usr/apps/sh.c:273-317 | tokens written out are read back as the same tokens |
| `ShellGrammar.ExecRoundTrip` | usr/apps/sh.c:429-461 | a printed simple command, redirection or block parses back and goes on with what follows |
| `ShellGrammar.LineRoundTrip` | usr/apps/sh.c:353-370 | a printed line parses back, before the end or a closing parenthesis |
| `ShellGrammar.RoundTrip` | usr/apps/sh.c:335-461 | every well-formed tree with fewer than ten arguments per command is the parse of its own text |
| `ShellGrammar.ParseLineWellFormed` | usr/apps/sh.c:353-461 | every tree the parser builds is well formed |
| `ShellGrammar.ParsePrintParse` | usr/apps/sh.c:335-461 | printing a parsed tree and parsing again gives the same tree |
| `Shell.GetToken` | usr/apps/sh.c:273-317 | 0 exactly at the end, otherwise the first token, consumed with the blanks around it |
| `Shell.Peek` | usr/apps/sh.c:319-328 | tells whether the next token starts with one of the symbols, consuming only blanks |
| `Shell.ParseLineAt` | usr/apps/sh.c:353-370 | the cursor parser of a line does what the grammar says, or panics exactly when it does |
| `Shell.ParsePipeAt` | usr/apps/sh.c:372-384 | the same for a pipeline |
| `Shell.ParseRedirsAt` | usr/apps/sh.c:386-411 | the same for redirections |
| `Shell.ParseBlockAt` | usr/apps/sh.c:413-427 | the same for a block |
| `Shell.ParseArgsAt` | usr/apps/sh.c:443-457 | the same for the loop over arguments, with its limit |
| `Shell.ParseExecAt` | usr/apps/sh.c:429-461 | the same for a simple command |
| `Shell.NulTerminate` | usr/apps/sh.c:463-509 | writes terminators at the ends of the words of the tree and nowhere else |
| `Shell.EndsAreBetweenWords` | usr/apps/sh.c:463-509 | every such place is a blank, a symbol or the end, never inside a word |
| `Shell.WordReadsBack` | usr/apps/sh.c:463-509 | a word read up to the next terminator is the word the tokenizer delimited |
| `Shell.TreeReadsBack` | usr/apps/sh.c:463-509 | every argument and file name of the terminated tree reads as its word |
| `Shell.ParseCmd` | usr/apps/sh.c:335-351 | on any buffer: a tree exactly when the text parses, and the tree read from the terminated buffer is that parse; a rejected buffer is unchanged |
| `Shell.ParseShown` | usr/apps/sh.c:335-351 | a buffer holding the text of any well-formed tree is parsed to a tree that reads back as that one |
| `Queue.RemoveKeepsNoDup` | kernel/ds/queue/queue.c:185-193 | the element is gone and nothing is listed twice |
| `LinkedQueue.Chain.Enqueue` | kernel/ds/queue/queue.c:57-82 | the list then holds its data and the new one at the end, linked both ways |
| `LinkedQueue.Chain.Dequeue` | kernel/ds/queue/queue.c:26-46 | gives and takes off the first datum, or null for an empty list |
| `LinkedQueue.Chain.Find` | kernel/ds/queue/queue.c:92-99 | the first node that holds the data, or null exactly when none does |
| `LinkedQueue.Chain.RemoveNode` | kernel/ds/queue/queue.c:155-183 | takes out exactly that node, wherever it is, or -ENOENT and no change |
| `LinkedQueue.RemoveFirst` | kernel/ds/queue/queue.c:185-193 | taking out the first node that holds a datum is removal from the sequence |
| `LinkedQueue.Chain.RemoveData` | kernel/ds/queue/queue.c:185-193 | the data of the list is the sequence with one occurrence removed, or -ENOENT |
| `Sessions.Kernel.SessionLeave` | kernel/sys/session.c:451-499 | the process leaves its group, which goes when it was the last one; all other links stay right |
| `Sessions.Kernel.SessionPgroupJoin` | kernel/sys/session.c:501-551 | succeeds exactly when the session has such a group, and keeps every invariant |
| `Sessions.Kernel.SessionCreatePgroup` | kernel/sys/session.c:318-347 | a new group with the leader's pid as id, led by it and with it alone inside, unique among all groups; others stay |
| `Sessions.Kernel.SessionCreate` | kernel/sys/session.c:236-316 | a new session with one new group, both led by the caller, keeping every invariant; others stay |
| `Sessions.Kernel.SessionExit` | kernel/sys/session.c:553-597 | leaves, and frees a session without groups; -EINVAL and no change for another session |
| `Sessions.Kernel.SessionsFindPgroup` | kernel/sys/session.c:625-656 | finds exactly whether any session has a group with that id |
| `Sessions.Kernel.Fork` | kernel/sys/sysproc.c:41-119 | the child has a fresh pid, its parent, and its parent's group and session, listed there once |
| `Sessions.Kernel.SetSid` | kernel/sys/sysproc.c:487-519 | -EPERM and no change exactly when a group has the caller's pid as id; otherwise a new session and group led by the caller, and all others where they were |
| `Sessions.Kernel.MoveTo` | kernel/sys/sysproc.c:327-453 | joins the named group or creates the process's own; -EPERM and no change exactly when neither is possible |
| `Sessions.Kernel.SetPgidOf` | kernel/sys/sysproc.c:292-477 | the error is the one the guards name, every invariant is kept, other processes stay where they are, success moves the process |
| `Sessions.Kernel.SetPgid` | kernel/sys/sysproc.c:268-485 | the same for any pid and pgid, with -EINVAL and -ESRCH, and a panic exactly when a child is named by a caller without session |
| `Sessions.SetPgidPanics` | kernel/sys/sysproc.c:268-298 | the initial process forks and names its child: the panic is reached |
| `Sessions.Kernel.Exit` | kernel/sys/syscall/exit.c:11-81 | takes the process out of its group, session and the process list and hands its children to the initial process, keeping every invariant; others stay |
| `Sessions.PgidsUnique` | kernel/sys/session.c:318-347 | in every state that satisfies the invariant, a group id occurs once in all sessions |
| `Sessions.LinksAgree` | kernel/sys/session.c:105-202 | a process points at a group exactly when it is listed there, once; a group at a session likewise; a process's session is its group's; and no listed group or session is empty |
| `Sessions.Step` | kernel/sys/sysproc.c:268-519 | every system call by every live process keeps the invariant |
| `Sessions.Run` | kernel/sys/sysproc.c:41-519 | after every run of calls from the initial state the invariant holds |
| `BTree.GraftParts` | kernel/ds/btree.c:73-90 | nothing is lost when a whole subtree is inserted by its root key |
| `BTree.GraftKeepsOrder` | kernel/ds/btree.c:73-90 | inserting a subtree by its root key alone keeps search order, for all keys below it, when it fits between two keys |
| `BTree.GraftLinks` | kernel/ds/btree.c:82-89 | writing the two pointers links the whole grafted tree, parents included |
| `BTree.SubFinds` | kernel/ds/btree.c:187-195 | walking down by the key finds it exactly when it is there |
| `BTree.SubApart` | kernel/ds/btree.c:114-119 | a subtree that is cut off fits between two of the keys that remain |
| `BTree.PruneLinks` | kernel/ds/btree.c:114-119 | clearing the one child pointer leaves the rest linked |
| `BTree.LeftStillFits` | kernel/ds/btree.c:124-134 | after the right child is back as a whole, the left child still fits as a whole |
| `BTree.BothBack` | kernel/ds/btree.c:124-134 | with both children back: search order, and exactly the keys, data and nodes but the deleted one |
| `BTree.DeletedEntries` | kernel/ds/btree.c:98-135 | deletion removes the one entry and keeps every other, search order and the count |
| `BTree.BTree.Lookup` | kernel/ds/btree.c:180-198 | the node holding the key, or null exactly when no entry has it |
| `BTree.BTree.InsertNode` | kernel/ds/btree.c:56-96 | inserts a node with everything below it, or -EEXIST and no change |
| `BTree.BTree.Insert` | kernel/ds/btree.c:200-223 | the contents as a map gain the entry, or -EEXIST and no change; order, links and count stay right |
| `BTree.BTree.Detach` | kernel/ds/btree.c:110-122 | the heap then holds the rest, and what was below the node is as before |
| `BTree.BTree.PutBack` | kernel/ds/btree.c:124-134 | a subtree is back in place and the count is as before |
| `BTree.BTree.DeleteNode` | kernel/ds/btree.c:98-135 | the heap then holds the tree without the node |
| `BTree.BTree.Delete` | kernel/ds/btree.c:163-169 | the contents as a map lose exactly the key; order, links and count stay right |
| `PageCache.Mapping.Find` | kernel/mm/mapping.c:73-99 | the cached page, or a new zeroed one entered under its number; the page count follows the tree |
| `PageCache.Mapping.Fill` | kernel/mm/mapping.c:102-119 | for any driver, also one that delivers less: a page becomes valid exactly when all its bytes arrived, and then holds the file's bytes and zeros behind them |
| `PageCache.Mapping.GetPage` | kernel/mm/mapping.c:58-128 | for any history of the cache and any driver: a valid page with the file's bytes at its offset, exactly when it is cached or can be read; -EINVAL for a negative number; earlier pages stay |
| `PageCache.Mapping.FreePage` | kernel/mm/mapping.c:130-147 | the cache loses exactly the page and counts one less, or -ENOENT |
| `PageCache.Mapping.ReadPage` | kernel/fs/inode_helpers.c:87-98 | copies from the page that holds the position, as far as page, file and buffer go |
| `PageCache.ProgressIsReach` | kernel/fs/inode_helpers.c:80-103 | page by page, the bytes copied are the least of the room, the rest of the file and the pages allowed |
| `PageCache.Mapping.Read` | kernel/fs/inode_helpers.c:50-111 | for any history of the cache: the buffer holds exactly that many bytes of the file from the position on and is otherwise untouched; -1 exactly when a page is still due at the end of the file |
| `PageCache.EndAfterCopy` | kernel/fs/inode_helpers.c:80-103 | reading two pages from a file of one copies the page and answers -1 |
| `Regex.LanguageCons` | usr/apps/grep.c:82-93 | a piece for the first item and a text of the rest make a text of the whole |
| `Regex.LanguageHead` | usr/apps/grep.c:82-93 | a text of the whole splits into a piece for the first item and a text of the rest |
| `Regex.MatchHere` | usr/apps/grep.c:82-93 | true exactly when a prefix of the text is in the language of the pattern, the whole text before a final dollar |
| `Regex.MatchStar` | usr/apps/grep.c:96-103 | true exactly when a run of the character followed by a match of the rest starts the text |
| `Regex.Match` | usr/apps/grep.c:69-79 | true exactly when some part of the text is in the language, from its start after a caret |
| `VfsPath.ComponentsDivide` | kernel/lib/string.c:257-267 | a separator divides the components of a text |
| `VfsPath.ComponentsAreNames` | kernel/lib/string.c:257-267 | components are not empty and hold no separator |
| `VfsPath.StripEnd` | kernel/lib/string.c:254-256 | overwriting them leaves the same components |
| `VfsPath.Tokenize` | kernel/lib/string.c:238-272 | exactly the components of the text |
| `VfsPath.PathSyntax` | kernel/fs/vfs.c:120-134 | accepts exactly the non-empty texts of printable bytes other than the backslash |
| `VfsPath.Fold` | kernel/fs/vfs.c:248-269 | the array holds the path walked, and the length is that of its text with its NUL |
| `VfsPath.Write` | kernel/fs/vfs.c:292-303 | writes the text of the path inside the buffer, or -ENAMETOOLONG exactly when a name is too long |
| `VfsPath.Render` | kernel/fs/vfs.c:271-309 | the buffer is exactly as long as the text and its NUL |
| `VfsPath.TokensLead` | kernel/fs/vfs.c:203-237 | the combined text leads where the path leads from the working directory |
| `VfsPath.ParsePath` | kernel/fs/vfs.c:179-319 | the error, or the absolute path walked from the working directory in a buffer of exactly its length |
| `VfsPath.Canonical` | kernel/fs/vfs.c:248-309 | the result is absolute, made of accepted bytes, and names its directory without empty, dot or dot-dot components |
| `VfsPath.Idempotent` | kernel/fs/vfs.c:179-319 | parsing the result again, from any working directory, gives it back |
| `Bitmap.Map.Set` | kernel/ds/bmap.c:57-78 | sets the run exactly when all of it is clear, otherwise -EALREADY and no change |
| `Bitmap.Map.Unset` | kernel/ds/bmap.c:80-101 | clears the run exactly when all of it is set, otherwise -EALREADY and no change |
| `Bitmap.Map.FirstRun` | kernel/ds/bmap.c:114-129 | the least start of such a run, although failed runs are skipped at once; -ENOENT exactly when there is none |
| `Bitmap.Map.FirstUnset` | kernel/ds/bmap.c:103-130 | the same for clear bits |
| `Bitmap.Map.FirstSet` | kernel/ds/bmap.c:132-159 | the same for set bits |
| `Bitmap.TakenAndGivenBack` | kernel/ds/bmap.c:57-101 | setting a clear run changes only it, and clearing it again restores the map |
| `Bitmap.Map.TakeAndGiveBack` | kernel/ds/bmap.c:57-130 | setting the run found and clearing it succeeds and restores the map |
| `Mutex.Mutex.Lock` | kernel/locks/mutex.c:62-85 | takes the mutex exactly when no thread holds it or is on its way to it, otherwise sleeps at the end of the queue; a panic exactly for the holder |
| `Mutex.Mutex.Resume` | kernel/locks/mutex.c:77-82 | the one woken thread becomes the holder |
| `Mutex.Mutex.Unlock` | kernel/locks/mutex.c:87-98 | hands the mutex to the first waiter, if any; a panic exactly for a thread that is not the holder |
| `Mutex.Mutex.Bounded` | kernel/locks/mutex.c:74-94 | the counter stays below the sign bit |
| `Mutex.Interleave` | kernel/locks/mutex.c:62-98 | over every interleaving: at most one holder or woken thread, the counter equal to holder, woken and waiting threads, no waiter without a holder or woken thread, and waiters served in order, one for each unlock |
| `Pipe.WrapKeepsIndex` | kernel/include/ds/ringbuf.h:5 | the place in the buffer is the same before and after the counters wrap |
| `Pipe.AvailableIsCount` | kernel/ds/ringbuf.c:93-101 | `ringbuf_available` is the count exactly while the tail is not behind the head, and says full exactly when the ring is full as well |
| `Pipe.FullButUnseen` | kernel/ds/ringbuf.c:93-101 | a full ring whose tail has wrapped is not seen as full |
| `Pipe.Ring.SeemsFull` | kernel/fs/pipefs/pipe.c:286 | the writer's test holds exactly when the ring is full and its tail has not wrapped |
| `Pipe.Ring.Read` | kernel/ds/ringbuf.c:60-74 | takes as many bytes as wanted or there, in order |
| `Pipe.Ring.Write` | kernel/ds/ringbuf.c:76-91 | adds as many bytes as offered or fit, in order |
| `Pipe.Channel.ReadStep` | kernel/fs/pipefs/pipe.c:204-262 | delivers the next bytes; returns, waits or gives -EPIPE exactly as wanted, written and closed |
| `Pipe.Channel.WriteStep` | kernel/fs/pipefs/pipe.c:264-321 | accepts as many bytes as fit; returns, waits or gives -EPIPE, and goes round for ever exactly when the bytes do not fit and, before the call, the head is within 512 of the wrap |
| `Pipe.Transfer` | kernel/fs/pipefs/pipe.c:174-321 | over every order of a reader's and a writer's steps and closings: bytes read and then bytes in the ring are bytes there before and then bytes written |
| `Pipe.Interleave` | kernel/fs/pipefs/pipe.c:174-321 | the same for any number of readers and writers: all they read, in order, and then the ring is the ring before and then all they wrote, in order |
| `FdTable.System.FdAlloc` | kernel/fs/sysfile.c:30-48 | the lowest free slot, or -EMFILE exactly when there is none |
| `FdTable.System.OpenFile` | kernel/fs/sysfile.c:87-132 | a new file with one reference in the lowest free slot, or the error and no slot |
| `FdTable.System.OpenPipe` | kernel/fs/sysfile.c:181-230 | two new files in the two lowest free slots, no other slot changed, or the error and no slot |
| `FdTable.System.Dup` | kernel/fs/sysfile.c:320-355 | one more reference and the lowest free slot, no other slot changed, or the error and no change |
| `FdTable.System.Dup2` | kernel/fs/sysfile.c:357-413 | the counts stay right exactly unless the last reference to the replaced file goes and closing its inode fails |
| `FdTable.TornExample` | kernel/fs/sysfile.c:394-401 | two open files and a failing close leave a slot on a freed file |
| `FdTable.System.Close` | kernel/fs/sysfile.c:415-441 | the slot is free and one reference gone, whatever closing the inode gives |
| `FdTable.System.Fork` | kernel/sys/proc.c:237-241 | the child has the same slots and every file counts them |
| `FdTable.System.Exit` | kernel/sys/syscall/exit.c:43-44 | all slots of the process are free, other tables stay |
| `FdTable.Run` | kernel/fs/sysfile.c:30-441 | after every run of calls by any processes, a file counts the slots that name it and is freed exactly when there are none, unless a call was torn |

## Left out

- Hardware, traps, scheduling, memory zones and address spaces: device access and raw layout.
- Console, windows, font rendering, the rest of the inflate decoder and of the JPEG decoder (quantisation, transform, chroma filter, colour): no property of comparable depth.
- Allocation failures and lock objects: many easy branches.
- `runcmd` and the rest of the shell: process creation and descriptors are modelled on the kernel side.
- Uniqueness of session ids: `setpgid` does not refuse a session leader, so only group ids are unique.
- `mutex_try_lock` and interrupted sleeps: the exchange there overwrites the count of waiters.
- `iwrite`, dirty pages and page reference counts: the cache is modelled for reading; a page whose read fails stays in the tree.
- Condition variables of the pipe: a waiting reader or writer may go on at any moment; the permission checks on the two ends are not modelled.
- Lookup, mounts and file system drivers behind `open` and `read`.
- Null-pointer tests at the start of functions: the model has no null arguments there.
- Device files and their own close routines: only the posix file operations are modelled.
- Sessions.Run: the queues of groups and sessions are sequences here, not the linked list of `LinkedQueue`.
- Shell.ParseCmd: command nodes are values; the pointer through which the parser appends arguments below its redirections is the function `AddArg`.
- FdTable.System.Fork: descriptor tables are sequences in one field, so two tables never share storage.
- Sessions.Kernel.Exit: leaves the session before the process is unlisted, and Sessions.Kernel.SessionCreate lists the session before its group is added; both are single steps, so the order cannot be seen.
- JpegHuffman.Decoder.DecodeDHT: the symbol bytes of a table are skipped once per table rather than once per length; a table that was being written when the segment turns out malformed is not described.
- JpegTiling.DecodeScan: no restart intervals and no decoding errors.
- VfsPath.StripEnd: stops at the start of the buffer; the code would read on before it.
- PageCache.Mapping.Read: driver reads inside the file succeed in it; when one fails, the code goes on with the page of the round before.
