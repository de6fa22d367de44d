# Verified models of KLone

KLone is an embedded web server together with a translator from pages to C. This
project models, in Dafny, nine of its mechanisms whose correctness does not show
in any single function body, and proves what each of them is for.

| files | mechanism | main results |
|---|---|---|
| `Codec`, `Chain`, `OutputIo`, `InputIo` | buffered io over chains of codecs | any run of writes and flushes delivers the composed function of all bytes written; any interleaving of reads delivers the composed function of the device contents |
| `Codecs`, `Response`, `ResponseFilter`, `Instances` | the null codec, the cipher codec, the filter that puts the HTTP header before a body, and the io layer over them | each meets the codec contract; one header, which a client reads back field by field, then the whole body, and the in-memory device never cuts it; what is written encrypted is read back decrypted |
| `Md5` | streaming MD5 | for every chunking, the digest is the one-shot definition of RFC 1321 |
| `TemplateTree`, `Template`, `Translate`, `TemplateText` | template inheritance | in-place edits of linked blocks print the base template with every overridden block substituted; on the page, the text around a block stays and the body stands in its place |
| `AtomList`, `Eviction`, `SessionStore` | the in-memory session store, on its linked list | the store is the longest recent part of the history within both limits; over every run it stays consistent if and only if every save fits |
| `Supervisor` | the prefork parent | the counters agree with the list of children over every run, and no more children run or wait than were configured and asked for; pending spawns halve with every pass |
| `AlarmManager` | alarms multiplexed on one system alarm | the handler fires exactly the due alarms nobody deleted, in order; over every run no alarm fires early or twice, none is lost, and no listed alarm is left without a system alarm |
| `PageParser` | the page parser | parsing inverts printing, if and only if every block has a length the buffer can hold |
| `UrlCoding`, `SessionVars`, `UriPath`, `Multipart` | session files, URIs, uploads | saved sessions load back if and only if every line fits; normalisation is resolution on a stack, and ".." takes back exactly the segment before it; the scanner without backtracking is a first-occurrence search |

A C byte is a `char`, a byte string a `string`; `Wrappers` holds the option type. Objects the C code updates in place
are classes whose methods state the new state; ghost fields hold the history (bytes
taken and given by every codec, the message hashed so far, the tree that linked
nodes stand for). A codec is a pair of functions over its private state, and
`Codec.Meets` is the contract it must keep. The codecs of a chain share one type of
state; for a mixture of codecs that is a sum type, to which `Instances.LiftMeets`
lifts the contract.

Termination is part of every result: the pump through a chain of any length
terminates because in each round of codec k either input is taken, or the output
still owed by codec k for it shrinks, or its staging buffer does.

Where the C code does not do what its comments or callers expect, the model follows
the code and states exactly when it does:

- Re-saving a session id under a memory limit can evict the very atom that is being
  replaced, whose node is then unlinked a second time (`SessionStore.ResaveBreaks`,
  `SessionStore.ResaveBreaksOutOfOrder`). For every list, the store stays consistent
  if and only if the new data fits beside the atoms that would be evicted later than
  the replaced one (`SessionStore.Store.Add`, `Eviction.Fits`); otherwise the new
  atom is lost, or the list is longer than its count.
- `u_getline` drops a byte of every chunk but the last, so a line survives if and
  only if it has at most 1022 bytes (`SessionVars.GetLineExact`). The lost bytes never
  go unnoticed: a session loads back if and only if all its lines are that short
  (`SessionVars.LoadSaved`, `SessionVars.SaveAndLoad`).
- A saved variable without a value comes back with a value of one NUL byte, and a
  variable without a name or with an empty value ends the saving
  (`SessionVars.RestoredExactly`, `SessionVars.SaveTo`).
- The page parser hands over a block whole if and only if it leaves room for the
  mark that follows, or fills the buffer to the byte (`PageParser.ParsePrint`).
- `read_until` checks the room in its buffer only while no match is in progress.
  `Multipart.Overruns` is the exact condition under which that is not enough
  (`Multipart.ReadUntil`; on the bytes alone, `Multipart.OverrunsInBytes`), and
  `Multipart.OverrunsHappen` a stream that meets it.
- One pass of the supervisor starts only half of the pending children, rounded up
  (`Supervisor.Server.SpawnBackend`).
- Removing the codecs of an io to which nothing was ever written does not flush
  them, so a codec that gives output for empty input gives none
  (`OutputIo.Io.RemoveCodecs`).

## Model

| member | source | states |
|---|---|---|
| `CodecChain.Chain.TransformAt` | src/libio/io.c:244-290 | for a chain of any length from codec k on: terminates, takes or gives at least one byte, extends the input of codec k by the bytes taken and the output of the last codec by the bytes given, leaves earlier codecs alone, keeps every link (output of one codec = input of the next plus what is staged between them) and every staging buffer within its 4096 bytes; fails only if some codec may fail |
| `CodecChain.Chain.Drain` | src/libio/io.c:292-318 | handing staged bytes on keeps the links, leaves the codec's own state alone and, when nothing reaches the destination, shortens what is staged |
| `CodecChain.Chain.Transfer` | src/libio/io.c:320-340 | through the chain or a plain copy: progress, the exact bytes taken and given, and never more output than the composed function allows |
| `CodecChain.Chain.Pump` | src/libio/io.c:263-284 | one round of the pump: when it neither takes nor gives, the codec has produced more, or the same and its staging buffer has shrunk |
| `CodecChain.Chain.FlushChunk` | src/libio/io.c:342-389 | collects bytes still inside the chain; COMPLETE exactly when there are none left, and then the chain has given exactly the composed function of all it took |
| `CodecChain.Chain.FlushAt` | src/libio/io.c:361-381 | the inner flush loop ends with bytes for the caller or with the codec done and everything of it handed on |
| `CodecChain.Chain.AddTail` | src/libio/io.c:963-972 | a codec that meets the contract extends a fresh chain at its end |
| `CodecChain.Chain.AddHead` | src/libio/io.c:943-952 | the same at its beginning |
| `CodecChain.OnlineChain` | src/libio/io.c:244-318 | what an open chain has given is a prefix of the composed function on every continuation of its input |
| `CodecChain.OnlineFlush` | src/libio/io.c:342-389 | a chain half flushed has given no more than the composed function of its input |
| `CodecChain.DoneChain` | src/libio/io.c:342-389 | once every codec is done the chain has given the composed function exactly |
| `CodecChain.DrainStep` | src/libio/io.c:292-318 | dropping from the staging buffer what the next codec took restores the link between the two |
| `OutputIo.Io.FlushBuffer` | src/libio/io.c:722-743 | however the device cuts the data, it receives the whole write buffer in order |
| `OutputIo.Io.WriteSome` | src/libio/io.c:768-781 | one round: consistent again, and either bytes were taken or the output owed has shrunk |
| `OutputIo.Io.Write` | src/libio/io.c:757-786 | all the data is taken, whatever its size; device plus buffer stay equal to what the chain has given; terminates |
| `OutputIo.Io.FlushChain` | src/libio/io.c:391-428 | device plus buffer become the earlier output followed by the composed function of all written through the chain |
| `OutputIo.Io.RemoveCodecs` | src/libio/io.c:982-1003 | after removal the output so far is complete: composed if anything was ever written, untouched otherwise; the codecs go whatever the outcome |
| `OutputIo.Io.Run` | src/libio/io.c:757-1003 | for every sequence of writes and flushes ended by removal and flush, the device has received exactly the composed function of the concatenation of all writes, or nothing if there was no write |
| `InputIo.Io.Underflow` | src/libio/io.c:503-555 | fills the read buffer with the next bytes of the transformed stream; an empty buffer means all of it has been delivered |
| `InputIo.Io.Read` | src/libio/io.c:572-605 | returns exactly the next bytes of the transformed stream, fewer than asked only when fewer are left; rtot grows by their number |
| `InputIo.Io.GetUntil` | src/libio/io.c:853-914 | returns the transformed stream up to the first stop byte, at most size-1 bytes; an error and no change when size is below 2 |
| `InputIo.Io.Run` | src/libio/io.c:572-914 | for every interleaving of the two calls, refused ones included, the answers are a function of the transformed stream alone; together with what remains they make it up, and rtot counts them |
| `InputIo.LineEnds` | src/libio/io.c:853-914 | such a line ends with its first stop byte, or at the limit, or at the end of the stream, and has no stop byte before its last |
| `InputIo.AnswerIs` | src/libio/io.c:572-914 | what the answers are on the bytes: refused exactly below two bytes for a line; else the beginning of what is left, as long as asked for or up to the stop byte or the end |
| `InputIo.Find` | src/libio/io.c:820-836 | the first occurrence, or none |
| `NullCodec.NullMeets` | src/libcodec/null.c:25-52 | the null codec meets the contract with the identity |
| `CipherCodec.CipherMeets` | src/libcodec/cipher.c:52-135 | the cipher codec meets the contract with the function that gives, for every input, all that update gives and then the final block |
| `CipherCodec.Cipher.CopyOut` | src/libcodec/cipher.c:37-50 | the first held bytes that fit are copied out and the rest stays held |
| `CipherCodec.Cipher.Transform` | src/libcodec/cipher.c:91-135 | held bytes go out first; else what is given and what is then held make up exactly what EVP adds for the next bytes of the input; errors exactly for no input, no room or a failing update; EVP output always fits the buffer |
| `CipherCodec.Cipher.Flush` | src/libcodec/cipher.c:52-89 | what is held, and once that is gone the final block, whole and once; complete only when nothing is left; an error exactly when final fails |
| `ResponseHeader.PrintHeader` | src/libpage/response.c:329-350 | prints the status line (unless CGI), every field in order, and an empty line |
| `ResponseHeader.HeaderReadBack` | src/libpage/response.c:209-350 | reading inverts printing: cutting at line ends and each line at its first ": ", a client gets the status number, its text, all fields in order and then the body, for names without colon and texts without carriage return |
| `ResponseHeader.DecimalRead` | src/libpage/response.c:209-217 | a printed status, read in base ten, is the status |
| `ResponseHeader.MaxHeaderSize` | src/libpage/response.c:289-314 | the estimate exceeds the printed length, and by exactly how much |
| `ResponseHeader.DecimalLength` | src/libpage/response.c:209-217 | a status printed with %d takes at most eleven characters |
| `MemDevice.Mem.Write` | src/libio/iomem.c:74-91 | stores as much as fits and reports it |
| `MemDevice.Mem.Drain` | src/libio/io.c:722-743 | flushing onto that device loses exactly the bytes beyond its end, without an error |
| `ResponseFilter.FilterMeets` | src/libpage/rsfilter.c:84-184 | in last place, with a header that no longer changes, the filter meets the codec contract with the function that gives the header and then the body (the header alone for HEAD) |
| `ResponseFilter.Filter.InitIob` | src/libpage/rsfilter.c:47-82 | header and buffered body are in the in-memory io in full: nothing is cut off |
| `ResponseFilter.Filter.Transform` | src/libpage/rsfilter.c:120-184 | refines the abstract step; leaving the buffering state fixes the header as it stands, after the last chance to add a session cookie |
| `ResponseFilter.Filter.Flush` | src/libpage/rsfilter.c:84-118 | refines the abstract step; complete exactly when header and body have been given |
| `ResponseFilter.Filter.ServePage` | src/libpage/rsfilter.c:84-184 | for every sequence of body chunks and header changes, and every room offered, the client gets one header and the whole body; the header shows all changes if the body stays below 4096 bytes, else those before the chunk that filled the buffer |
| `Instances.CipherRoundTrip` | src/libio/io.c:503-1003 | whatever is written, in any run of calls, to an io with an encrypting codec is read back, by any calls, from an io with the codec that undoes it, as if read directly |
| `Instances.LiftMeets` | src/libio/io.c:342-389 | a codec keeps its contract when its state becomes part of a larger type, so that different codecs can share a chain |
| `Instances.EncryptedPage` | src/libio/io.c:757-1003 | two different codecs in one chain, the cipher and then the response filter: the client gets the header and then what EVP gives for the whole body, its final block included; always if EVP does not fail |
| `Instances.PageThroughFilter` | src/libpage/rsfilter.c:84-184 | a page written in any run of calls behind the filter reaches the client as one header and the whole body; nothing is sent if nothing was ever written |
| `Md5.State.constructor` | src/libutils/md5.c:304-311 | the state for the empty message |
| `Md5.State.Append` | src/libutils/md5.c:314-349 | the state stands for the message with the new bytes appended: count words are the bit length mod 2^64, the chain value is the fold over the whole blocks, the buffer holds the rest |
| `Md5.State.Finish` | src/libutils/md5.c:352-372 | the digest of everything appended, by the one-shot definition |
| `Md5.Hash` | src/libutils/md5.c:304-372 | for every message and every way of cutting it into appends, the one-shot digest of the concatenation |
| `Md5.PaddedBytes` | src/libutils/md5.c:352-372 | the padded message byte by byte: the message, 0x80, zeros, and eight bytes whose value is the bit length mod 2^64 (sections 3.1 and 3.2 of RFC 1321) |
| `Md5.FoldBlock` | src/libutils/md5.c:314-349 | the chaining value starts from the initial words and takes in one block after another |
| `Md5.InitialBytes` | src/libutils/md5.c:304-311 | the initial words are the bytes that section 3.3 of RFC 1321 lists |
| `Md5.OutputWords` | src/libutils/md5.c:352-372 | the sixteen bytes of a digest hold the four words in order, low-order byte first |
| `Md5.CountStep` | src/libutils/md5.c:324-328 | adding to the low word with the carry test, and the bits beyond it to the high word, is addition of the 64-bit length |
| `Md5.PaddingIsShortest` | src/libutils/md5.c:366-367 | the padding is the shortest that reaches 56 mod 64 (section 3.1 of RFC 1321) |
| `Md5.PadCount` | src/libutils/md5.c:366-367 | the unsigned, masked difference is that number of bytes for every length |
| `Template.Preprocessor.constructor` | src/libtrans/translat.c:239-261 | an empty tree, nothing open |
| `Template.Preprocessor.Attach` | src/libtrans/translat.c:84-93 | appending a tree to a live block, the top or a dead node edits the represented tree accordingly and keeps every parent link right |
| `Template.Preprocessor.TextBlock` | src/libtrans/translat.c:648-690 | text goes to the current block; outside the blocks of a child template the live tree does not change |
| `Template.Preprocessor.FindByName` | src/libtrans/translat.c:380-402 | the first block of that name, depth first, and its index in the list of its parent |
| `TemplateTree.SameIs` | src/libtrans/translat.c:380-402 | two block names are the same if and only if they agree byte by byte but for the case of letters |
| `TemplateTree.FindIsFirst` | src/libtrans/translat.c:380-402 | the search equals a linear one along the blocks of the tree, each before those inside it |
| `Template.Preprocessor.NewBlock` | src/libtrans/translat.c:418-432 | in a base template: fails exactly when the name is taken, else opens an empty block below the current one |
| `Template.Preprocessor.OverridingBlock` | src/libtrans/translat.c:434-478 | in a child template: the found block is replaced in place by an empty one that remembers it; without one the tree is unchanged |
| `Template.Preprocessor.EndBlock` | src/libtrans/translat.c:486-514 | exactly the two errors (nothing open, wrong name), and where the cursor goes |
| `Template.Preprocessor.InheritDirective` | src/libtrans/translat.c:516-542 | all children of the replaced block move to the end of the current one, in order, and none stay behind; an error exactly when nothing was replaced |
| `TemplateTree.RepSubst` | src/libtrans/translat.c:461-477 | exchanging one pointer in the list of the parent is substitution in the tree |
| `TemplateTree.SubstOverrides` | src/libtrans/translat.c:380-478 | substituting at the node a search finds is overriding by name |
| `TemplateTree.ExtendedNames` | src/libtrans/translat.c:404-484 | extending keeps block names unique, whatever the child is |
| `Translate.PrintList` | src/libtrans/translat.c:125-144 | printing the linked nodes prints the tree they represent |
| `TemplateTree.ReadWritten` | src/libtrans/translat.c:404-514 | the reading of directives as a tree inverts writing a tree out, whatever follows |
| `TemplateText.PrintSaid` | src/libtrans/translat.c:125-144 | a template without a child prints its texts in the order in which they are written |
| `TemplateText.OverrideInPlace` | src/libtrans/translat.c:434-542 | for a block anywhere in a template with unique names, overriding changes that block and nothing around it |
| `TemplateText.PageOfChild` | src/libtrans/translat.c:434-542 | on the page: the text in front of the block and behind it as before, in between the words of the body, with the old text of the block where the body first says inherit, and nowhere if it does not |
| `TemplateText.NamesAre` | src/libtrans/translat.c:380-402 | a name is taken if and only if some block, at whatever depth, has it |
| `TemplateText.UniqueIs` | src/libtrans/translat.c:418-432 | names are unique if and only if no block shares its name with another |
| `Translate.BuildItems` | src/libtrans/translat.c:404-514 | directive by directive, reading a base template builds exactly its tree; fails exactly on a block left open, an endblock with another name, an inherit, or a block name that occurs twice, case ignored |
| `Translate.OverrideBlock` | src/libtrans/translat.c:404-542 | a child's block, from block to endblock: the tree with that block given the new body, the first inherit bringing the previous children and later ones nothing; fails exactly on an inherit in a block that overrides nothing and on an endblock with another name |
| `Translate.ExtendWith` | src/libtrans/translat.c:544-621 | a whole child template: one override after another, text outside blocks dropped |
| `Translate.Translate` | src/libtrans/translat.c:839-881 | for every stream of base directives and every child with flat blocks, the printed page is the print of the extended base, and the exact condition for an error |
| `Translate.ExtendedAtOnce` | src/libtrans/translat.c:404-542 | when no block is overridden twice, overriding one by one is the simultaneous substitution of all bodies, so order does not matter even for nested blocks |
| `AtomList.PushLinked` | src/kloned/atom.c:124-137 | LIST_INSERT_HEAD puts the atom in front and keeps every back link right |
| `AtomList.UnlinkLinked` | src/kloned/atom.c:140-154 | LIST_REMOVE of a listed node takes exactly its atom out and keeps every back link right |
| `AtomList.UnlinkedTwice` | src/kloned/atom.c:140-154 | LIST_REMOVE of a node that was removed before and whose neighbours may be gone too, after an insertion: the new atom is lost, or there is more on the list than before the insertion |
| `SessionStore.Store.Find` | src/kloned/atom.c:102-121 | the node of the first atom of that id, or none |
| `SessionStore.Store.Insert` | src/kloned/atom.c:124-137 | new atom in front, count one up and size up by its data, both in step with the list |
| `SessionStore.Store.RemoveListed` | src/kloned/atom.c:140-154 | that atom gone, count one down and size down by its data, both in step with the list |
| `Eviction.OldestIsOldest` | src/libpage/ses_mem.c:42-67 | the search finds an atom of least time, on a tie the one furthest down the list |
| `SessionStore.Store.DeleteOldest` | src/libpage/ses_mem.c:42-67 | removes exactly one atom, of least time and furthest down; an error only on an empty store |
| `SessionStore.Store.RemoveId` | src/libpage/ses_mem.c:94-113 | exactly the atoms of other ids stay; an unknown id changes nothing |
| `SessionStore.Store.Add` | src/libpage/ses_mem.c:116-169 | for every consistent store: fails exactly when the data exceeds the limit; afterwards the store is consistent if and only if the save fits, and then it is exactly what it should be; otherwise the count is short, and the new atom lost or the list longer |
| `Eviction.Survives` | src/libpage/ses_mem.c:127-147 | the replaced atom survives the evictions if and only if the new data fits beside the atoms evicted later than it, for lists in any order |
| `Eviction.ResaveKeeps` | src/libpage/ses_mem.c:127-162 | for a list in any order, a save that replaces an atom leaves exactly those others that fit, together with all that outlive them, beside the growth of the data |
| `Eviction.SaveKeeps` | src/libpage/ses_mem.c:127-162 | the same for a save of a new id that the count allows |
| `Eviction.SavedConsistent` | src/libpage/ses_mem.c:116-169 | a save that fits keeps ids unique and both limits |
| `Eviction.OutlivingOrdered` | src/libpage/ses_mem.c:127-147 | in a list in time order the atoms evicted later are those nearer to the head |
| `SessionStore.ResaveBreaks` | src/libpage/ses_mem.c:127-162 | a concrete run after which the counters disagree with the list |
| `SessionStore.ResaveBreaksOutOfOrder` | src/libpage/ses_mem.c:127-162 | another one, with messages out of the order of their times |
| `Eviction.SavedLongest` | src/libpage/ses_mem.c:116-169 | a new id in a store in time order leaves the longest recent part within both limits, never less than fits |
| `Eviction.LongestOverall` | src/libpage/ses_mem.c:116-169 | evicting from what was kept is as good as choosing from the whole history |
| `SessionStore.Store.SaveDistinct` | src/libpage/ses_mem.c:116-169 | after any saves of distinct ids in time order, the store is exactly the longest suffix of the history within both limits |
| `SessionStore.Store.SaveRepeated` | src/libpage/ses_mem.c:116-169 | without memory limit, saves in time order keep exactly the most recently saved distinct ids, each with its latest data |
| `Eviction.LatestAre` | src/libpage/ses_mem.c:116-169 | the latest saves of a history are, of every id, its most recent one |
| `SessionStore.Store.Handle` | src/libpage/ses_mem.c:173-225 | any message on any consistent store: what it leaves, and that it stays consistent if and only if a save fits |
| `SessionStore.Store.Serve` | src/libpage/ses_mem.c:173-225 | over every interleaving of messages from any number of children the store is what the messages say as long as every save fits at its turn, and the first that does not breaks it |
| `Eviction.FreshIsOrderly` | src/libpage/ses_mem.c:116-225 | saves of ids that are new each time always fit, and so do all saves without a memory limit |
| `Supervisor.Server.constructor` | src/libbackend/backend.c:93-110 | nothing running and the initial children pending is a consistent state |
| `Supervisor.Server.AddChild` | src/kloned/server.c:92-108 | list and both counters in step |
| `Supervisor.Server.ForkChild` | src/kloned/server.c:478-546 | a new child, or nothing changed; where the system never refuses, fails exactly at one of the two limits |
| `Supervisor.Server.ReapChild` | src/kloned/server.c:65-89 | exactly that child leaves; running and pending children of its backend together become the initial number if fewer than that still run, else what is pending stays; for a prefork backend they are never more than before; an unknown pid changes nothing |
| `Supervisor.Server.RequestChild` | src/kloned/ppc_fork_child.c:53-78 | children plus pending spawns grow by one, now or later |
| `Supervisor.Server.SpawnBackend` | src/kloned/server.c:849-857 | a pass without failures leaves half of the pending spawns, rounded down; children plus pending are conserved in any case |
| `Supervisor.Server.SpawnPass` | src/kloned/server.c:835-862 | the same for all backends at once, and success whenever there is room |
| `Supervisor.Server.Passes` | src/kloned/server.c:835-862 | after k passes a backend with n pending has none left if and only if n < 2^k, and all have become children |
| `Supervisor.HalveToZero` | src/kloned/server.c:849-857 | the number of passes is the binary length of n |
| `Supervisor.Server.Run` | src/kloned/server.c:478-862 | over every run: counters equal the list, neither limit is exceeded, running plus pending of a prefork backend is at least the initial number, and at most what it was plus what was requested |
| `Supervisor.RunFromStart` | src/kloned/server.c:65-862 | from the start on, a prefork backend has its initial number of children, running or pending, and beyond that at most one for each request; exactly the initial number if none was requested |
| `AlarmManager.Timer.SetAlarm` | src/libutils/timer.c:53-66 | the system alarm moves only to an earlier time |
| `AlarmManager.Timer.SetNext` | src/libutils/timer.c:68-77 | afterwards the system alarm is set for the first listed alarm, at least a second from now, unless it was set for an earlier time |
| `AlarmManager.Timer.Reschedule` | src/libutils/timer.c:224-256 | inserted behind everything not later, list sorted with ties in order of insertion, system alarm in time |
| `AlarmManager.Timer.Add` | src/libutils/timer.c:258-299 | the same for a new alarm |
| `AlarmManager.Timer.Again` | src/libutils/timer.c:224-256 | the same for an alarm that exists and is not listed, whoever sets it again |
| `AlarmManager.Timer.Delete` | src/libutils/timer.c:313-334 | exactly that alarm leaves, listed or not; system alarm in time |
| `AlarmManager.Timer.Sigalrm` | src/libutils/timer.c:79-126 | with callbacks that delete alarms, set new ones, set old ones again and take time, and may do something else at each firing, fires exactly the specified alarms; what remains is later than the start of the handler and is what the callbacks leave set when they act one after another; the next signal comes later than this one, and exactly in time for the first alarm if the callbacks set and delete nothing; an alarm set before or by a callback is listed if and only if it has neither fired nor been deleted |
| `AlarmManager.LedgerHandled` | src/libutils/timer.c:79-126 | whatever the callbacks of any run of firings do, every insertion is listed, fired or deleted, and nothing else is listed |
| `AlarmManager.SetStays` | src/libutils/timer.c:258-299 | an alarm that a callback sets, and does not delete again, is listed for the time asked for when the callback returns |
| `AlarmManager.Timer.Perform` | src/libutils/timer.c:53-334 | one call, or the passing of time: whenever the clock moves on, exactly the alarms due by then fire, unless deleted, and none of them stays listed |
| `AlarmManager.FiresExactly` | src/libutils/timer.c:79-126 | an alarm fires if and only if it is due and no alarm fired before it deleted it |
| `AlarmManager.FiresInOrder` | src/libutils/timer.c:79-126 | firing follows expiry, ties by insertion, and nothing fires twice |
| `AlarmManager.DueInsert` | src/libutils/timer.c:224-256 | setting a later alarm does not touch what is due |
| `AlarmManager.DueDrop` | src/libutils/timer.c:313-334 | deleting commutes with taking what is due |
| `AlarmManager.Timer.Run` | src/libutils/timer.c:53-334 | over every run in one process, whatever each single firing does, each listed alarm has a system alarm no later than its expiry or one second from now, no alarm fires early, no insertion fires twice, and every insertion is listed if and only if it has neither fired nor been deleted |
| `PageParser.Run` | src/libtrans/parser.c:74-202 | the character loop with its buffer makes exactly the callbacks of the functional machine |
| `PageParser.ReadText` | src/libtrans/parser.c:74-202 | text free of "<%" is only buffered, from any state and position |
| `PageParser.ReadBlock` | src/libtrans/parser.c:74-202 | on the bytes: text, "<%", a first byte, code and "%>" give the text and the code; the first byte is the command unless it is one of the six blanks, which belong to the code; nothing for an empty block |
| `PageParser.FirstToken` | src/libtrans/parser.c:74-202 | the first block of a page comes back whole if and only if it fits, and then the rest is parsed as a page of its own |
| `PageParser.ParsePrint` | src/libtrans/parser.c:74-202 | for every unambiguous page, parsing the printed text calls back exactly its tokens, in order, if and only if every text and code block has a length the buffer can hold |
| `UrlCoding.EncodeBuffer` | src/libutils/utils.c:416-444 | the loop encodes byte by byte |
| `UrlCoding.DecodeBuffer` | src/libutils/utils.c:446-477 | the loop decodes, or fails on an escape that is malformed or cut short |
| `UrlCoding.DecodeExactly` | src/libutils/utils.c:446-477 | a text decodes to some bytes if and only if it spells them: any byte but % and + as itself, a blank as +, or an escape of two hexadecimal digits of either case; everything else fails |
| `UrlCoding.EncodeSpelled` | src/libutils/utils.c:416-444 | each byte is spelled in one way: letters, digits and `_-.` as they are, a blank as +, all others escaped with upper-case digits |
| `UrlCoding.DecodeEncode` | src/libutils/utils.c:416-477 | decoding undoes encoding for every byte string |
| `UrlCoding.CodeIsShortest` | src/libutils/utils.c:416-477 | no text over the alphabet of codes that decodes to some bytes is shorter than their code |
| `UrlCoding.EncodeClean` | src/libutils/utils.c:416-444 | codes hold only letters, digits and `_-.+%`, and at most three bytes per byte |
| `SessionVars.GetLineExact` | src/libutils/utils.c:889-913 | a line comes back whole if and only if it has at most 1022 bytes |
| `SessionVars.GetLongLine` | src/libutils/utils.c:889-913 | what a line of any length comes back as: without the last byte of every chunk but the last |
| `SessionVars.ThinAt` | src/libutils/utils.c:889-913 | how long a line of n bytes comes back (n - n / 1023 bytes), and which byte of the line each of them is |
| `SessionVars.GetLineUnended` | src/libutils/utils.c:889-913 | what comes behind the last line end is not given back |
| `SessionVars.GetLineReturn` | src/libutils/utils.c:889-913 | a carriage return that is the last byte of a chunk ends a line |
| `SessionVars.ReadLine` | src/libutils/utils.c:889-913 | the chunk loop over io_gets, through any chain of codecs, computes that function of the stream |
| `SessionVars.ParseExactly` | src/libpage/vars.c:209-282 | a line parses to a variable if and only if it reads a=b with a and b spelling its name and value, or a= and the value is a NUL byte |
| `SessionVars.PlainLine` | src/libpage/session.c:843-931 | a name and value of letters and digits are saved as name=value |
| `SessionVars.ParseSaved` | src/libpage/vars.c:209-282 | splitting and decoding a saved line gives back name and value, a NUL byte for a missing value |
| `SessionVars.ParseThin` | src/libpage/vars.c:209-282 | a saved line that has lost bytes is malformed or gives another variable, never its own |
| `SessionVars.RestoredExactly` | src/libpage/vars.c:243-252 | a list comes back as it was if and only if no value was missing |
| `SessionVars.LoadSaved` | src/libpage/session.c:422-500 | loading the lines of a list gives back the list if and only if every line has at most 1022 bytes |
| `SessionVars.LoadFrom` | src/libpage/session.c:422-500 | the load loop computes that function of the stream, malformed lines included; when reading fails it keeps the variables read so far |
| `SessionVars.SaveVar` | src/libpage/session.c:843-931 | one line is written, also for a missing value; refused exactly without a name or with a value of no bytes |
| `SessionVars.SaveTo` | src/libpage/session.c:795-840 | for every list, the device receives the encoded lines of the variables before the first that is refused |
| `SessionVars.AcceptedAre` | src/libpage/session.c:795-931 | the variables before the first without a name or with a value of no bytes |
| `SessionVars.LoadStep` | src/libpage/session.c:422-500 | the end of the stream, an empty line, a malformed one and a variable, each with what loading makes of it |
| `SessionVars.MirrorUndoes` | src/libpage/session.c:434-452 | codecs added on loading in the reverse order of saving, each undoing its counterpart, undo the whole chain, of any length |
| `SessionVars.SaveAndLoad` | src/libpage/session.c:422-931 | saving through one chain and loading through its mirror image gives back the same ordered list if and only if every line has at most 1022 bytes |
| `UriPath.Normalize` | src/libutils/path.c:36-99 | equals resolution of the segments on a stack; an error exactly for a path that is not absolute |
| `UriPath.NormalIsNormal` | src/libutils/path.c:36-99 | the result is absolute, has no two slashes in a row and no "." or ".." segment, and normalising again changes nothing |
| `UriPath.NormalUp` | src/libutils/path.c:73-80 | a segment and the ".." behind it are as if they were not there, anywhere in a path |
| `UriPath.NormalTop` | src/libutils/path.c:73-80 | ".." at the top is as if it was not there |
| `UriPath.NormalEmpty` | src/libutils/path.c:36-99 | a path that goes up to the top again is the top |
| `UriPath.NormalHere` | src/libutils/path.c:36-99 | nor is a "." there |
| `UriPath.NormalTwice` | src/libutils/path.c:36-99 | nor a slash that follows another |
| `UriPath.NormalStays` | src/libutils/path.c:36-99 | a path without any of these stays as it is, a slash at its end included |
| `UriPath.ResolveDots` | src/libutils/path.c:36-99 | the same on lists of segments |
| `UriPath.SlashedBytes` | src/libutils/path.c:36-99 | every backslash becomes a slash and nothing else changes |
| `UriPath.NormalLength` | src/libutils/path.c:36-99 | normalising never lengthens a path, so copying back is in bounds |
| `UriPath.EatLast` | src/libutils/path.c:73-80 | cropping the string removes the last segment of the stack, and no other, if there is one |
| `UriPath.FindLast` | src/libutils/utils.c:758-769 | the last occurrence, or none |
| `UriPath.SplitPath` | src/libpage/request.c:641-660 | filename and path info make up the path; filename is the longest prefix, cut only before a slash, that the validator accepts, or all of it |
| `UriPath.PathIs` | src/libpage/request.c:606-640 | the path is the decoded URI up to its first NUL or question mark |
| `UriPath.SetUri` | src/libpage/request.c:606-660 | the same on the decoded and normalised path, which has no two slashes in a row; the query string as it stands in the URI, and exactly when the URI is refused |
| `Multipart.NewlineBoundary` | src/libpage/request.c:1547-1549 | the boundaries in use have a first byte that occurs nowhere else in them |
| `Multipart.Advance` | src/libpage/request.c:1178-1182 | the reset without backtracking keeps the longest match |
| `Multipart.ScanMeaning` | src/libpage/request.c:1162-1186 | while the scan runs there was no occurrence; it stops on the first one |
| `Multipart.ReadUntil` | src/libpage/request.c:1151-1190 | how a call ends: found exactly with the whole boundary consumed, else at the end of the stream or between matches; and exactly when the room check is too late |
| `Multipart.OverrunsInBytes` | src/libpage/request.c:1162-1186 | when the room check is too late, said of the bytes alone |
| `Multipart.OverrunsHappen` | src/libpage/request.c:1162-1186 | a stream on which the room check comes too late, for every such boundary and buffer |
| `Multipart.ReadPart` | src/libpage/request.c:1443-1457 | the content written is the stream up to the first boundary and the stream is left right behind it; failure means there is no boundary, or, exactly when some call of the loop overruns, that the room check came too late |

## Left out

- `OutputIo.Io.FlushBuffer`: a device that accepts zero bytes, on which io_flush gives up without an error; every write is taken to accept a byte or fail. `MemDevice.Mem.Drain` models the bounded in-memory device, which does accept zero.
- `CodecChain.Chain.AddTail`, `CodecChain.Chain.AddHead`: codecs are added before any byte goes through the chain.
- `ResponseFilter.FilterMeets`: only as the last codec of a chain that is written to, because its COMPLETE leaves the byte count as it was; and for a header that no longer changes. Changing headers are covered by `ResponseFilter.Filter.ServePage`.
- `ResponseFilter.Filter.InitIob`: header and body go to the in-memory device as one piece; the write buffer in between is the one of `OutputIo`. Fields without name or value are not modelled.
- `CipherCodec.CipherMeets`: EVP is abstract: output that only grows, bounded by the block size, and a final block. zlib codecs are left out; they would be further instances of the same contract over an abstract library.
- `Md5.State.Append`: the compression function is a parameter. From 2^28 bytes in one call on, the C expression for the bit count shifts an int out of its range; the model takes it to wrap around.
- `Translate.Translate`: one level of extends and no block inside a child's block, because the cursor does not return to the enclosing block there; include, file positions, warnings, dependency lists and the contents of the dead tree are left out. A child template is given as its texts and whole blocks, so that a child with a block left open is not modelled.
- `SessionStore.Store.Serve`: the parent only; the copies the children keep, and GET messages, are left out, and nothing is said of a store after it is broken. Sizes do not wrap around, except that a total below zero counts as over the limit, as it does in unsigned arithmetic.
- `Supervisor.Server.ForkChild`: the parent's side only; process ids and refusals of the system are arbitrary, and a pid is not reused while its child is listed.
- `AlarmManager.Timer.Sigalrm`: one process; alarms inherited over a fork are left out. Callbacks set alarms at least a second ahead; setting an alarm again that is listed or was freed is taken to have no effect.
- `PageParser.Run`: line numbers, and the states for quotes and for eating newlines that nothing enters.
- `SessionVars.SaveAndLoad`: the cipher key variable, temporary files and buffers, and the size estimate for the save buffer.
- `UriPath.SetUri`: the request fields other than filename, path info and query; a missing validator is one that accepts everything.
- `Multipart.ReadPart`: MIME headers, form fields that are not files, and the temporary file.
- Allocation failures, NULL arguments and logging everywhere; sizes are unbounded integers except where a width is stated. Pointers are keys of a map or positions in a sequence, so aliasing is modelled only where the code relies on it (the template tree).
- TLS, CGI, virtual hosts, access logs, header parsing, HTML and SQL escaping, dates, and the generated C text.
