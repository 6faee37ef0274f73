# OServer in Dafny

OServer is a small threaded HTTP/1.x server in C. This project models its core and proves what that core is for:
the headers of a message survive printing and parsing, requests are the same however the network cuts them, responses
come out whole whatever buffers they are written into, the tree behind the headers stays a threaded AVL tree, and no
task, connection slot or wakeup gets lost between the threads.

Every piece of code that works by changing things in place is a class or a method with the source's own fields, loops and
branches, proved against a function or a relation on values; what the source promises is then proved of that function
for all inputs. What a parser accepts is also decided without its cursors and loops, both ways, so that the function it
is proved against is itself held to what a reader can check. The two concurrent parts are transition systems whose events are the steps of single threads between two
accesses to what the threads share, so that a theorem about every sequence of events is a theorem about every
interleaving of those steps; where the code holds no lock, reading and writing are two events.

| module | what it models |
|---|---|
| BTreeShape, BTreeInsert, BTreeThreads, BTree | the threaded AVL tree of btree.c on a heap whose threads point upwards: rotations, insertion, rethreading, the traversal without a stack, lookup |
| HeaderTable | hashing, the index sorted by XOR swaps, and binary search (http_header.c) |
| HeaderText, HttpHeader | the one-pass header parser, the bounded printer that walks the threads, and the collection that joins them to the tree (http_header.c) |
| UrlCoding, UrlPath, UrlPathRfc, HttpUrl | percent-coding in place, the segment stack of paths, its relation to RFC 3986 section 5.2.4, and the URL of a request line (http_url.c, stack.c) |
| Wrappers, Outcome, HttpMethod, HttpVersion, HttpRequest | the request line, and the stage machine over method, URL, version and headers |
| RequestStream, ServerReceive | the receive loop of a connection: what it makes of the bytes, and how it keeps them in its buffer (server.c) |
| ResponseStream, HttpResponse, HttpLog | what a response writes over a whole run of buffers, the stage machine that writes it, and the exactly fitting log buffers (http_response.c) |
| List, ObjectPool, SyncQueue | the circular list, the free list of slots, and the linked queue, as heap structures |
| ThreadPool | the queue between producers, workers and the destroyer, in every interleaving |
| Server | connection slots between the main loop with its stale descriptor set and the workers, in every interleaving |

Where the code falls short of a promise, the code is modelled as it is and the exact condition is proved:

- `http_request_parse` may be given its bytes in any pieces, except that a piece must not end behind a lone `P`, and the
  bytes at hand must not end exactly behind the URL: there `http_version_parse` leaves the parsed length as the URL set
  it, and the call claims more bytes than it was given (`HttpRequest.CutHarmlessExactly`, `HttpRequest.OverrunExactly`;
  `HttpRequest.CutBehindUrl` is such a cut).
- A whole request is left in the buffer, unserved until more bytes come, exactly if it lies there behind the end of the
  one before it and nothing has come since (`RequestStream.LeftUnserved`, `RequestStream.SecondLeftUnserved`).
- The stack of path segments agrees with RFC 3986 exactly on paths whose last segment is not a lone `.`, which the code
  compares with a prefix of `../` (`UrlPathRfc.RefinesRfc`; `UrlPathRfc.LoneDotAccepted` is such a path).
- A response arrives as it should, whatever buffers it is written into, exactly if every call is offered enough for
  where the response stands: a header print is spoilt exactly by a room that takes the first line it has to print and no
  more than all its lines, and the content by no room at all or a failing read (`ResponseStream.RunExactly`,
  `ResponseStream.SpoilsExactly`). Every response with headers has buffers that spoil it (`ResponseStream.SpoiltRun`);
  one larger than the head never does (`ResponseStream.BufferSuffices`).
- The main loop puts a new descriptor into the shared set without the lock. When it has read the word, and others go on
  before it writes it back, a connection is stranded out of the set exactly if a worker gave back its descriptor, one of
  that word, in between (`Server.MainWriteLosesExactly`, `Server.StrandedExactly`). It is lost for good, whatever
  happens, exactly if moreover no worker is just then about to write the descriptor back with an old word
  (`Server.LostForGoodExactly`; `Server.CanStrand` is such a run). The other way round, a worker's old word drops a
  descriptor exactly if the main loop has written that word since (`Server.WorkerWriteLosesExactly`).
- A worker closes a socket before it sets the slot's copy to -1. In between accept may return the same descriptor. It
  then belongs to two connections exactly if the slot has still not been told when the new connection is enlisted,
  whatever the workers do in the meantime (`Server.ReuseSharesExactly`); and the old slot can be given a second task
  while the first one runs (`Server.CanDispatchTwice`).
- What a task saves for the next one is what remains of its buffer exactly if that fits and, when nothing remains,
  nothing had been saved before (`ServerReceive.Connection.Save`; `ServerReceive.StaleBytes` shows bytes coming back).
- A worker sleeps through the broadcast that ends the pool exactly if, when the flag is set, it is between its check
  and its wait (`ThreadPool.WakeupLostExactly`; `ThreadPool.CanSleepThrough` is such a run).
- A connection accepted while no slot is free is never served and never closed (`Server.LeaksExactly`,
  `Server.LeakedForGood`; `Server.CanLeak` is such a run).
- A print that stops between two headers resumes at or before the last header printed, so it repeats it
  (`HttpHeader.ResumeRepeats`).

`dafny verify dfyconfig.toml` checks the whole project.

## Model

| member | source | states |
|---|---|---|
| `BTreeInsert.RotateLeftKeepsOrder` | btree.c:141-152 | a left rotation keeps the nodes, their in-order sequence and the search order |
| `BTreeInsert.RotateRightKeepsOrder` | btree.c:153-165 | a right rotation keeps the nodes, their in-order sequence and the search order |
| `BTreeInsert.LeftRotationFactors` | btree.c:147-148 | the formulas of the left rotation give height difference for both nodes, for subtrees of any heights, balanced or not |
| `BTreeInsert.RightRotationFactors` | btree.c:161-162 | the same for the right rotation |
| `BTreeInsert.LeftRotate` | btree.c:141-152 | on a heap with partly missing threads, the links, factors and threads after the rotation are those of the rotated tree |
| `BTreeInsert.RightRotate` | btree.c:153-165 | the same for the right rotation, which has to turn a thread into a child link |
| `BTreeInsert.SingleLeftHeights` | btree.c:107-113 | a right-heavy right subtree: one rotation restores balance, takes the height back by one and leaves both sides equally high |
| `BTreeInsert.SingleRightHeights` | btree.c:126-132 | the mirror image |
| `BTreeInsert.DoubleLeftHeights` | btree.c:107-113 | a left-heavy right subtree: two rotations do the same |
| `BTreeInsert.DoubleRightHeights` | btree.c:126-132 | the mirror image |
| `BTreeInsert.RebalanceRight` | btree.c:109-112 | the chosen rotations leave a good tree of the old height whose root has factor 0: the assertion in the code holds |
| `BTreeInsert.RebalanceLeft` | btree.c:128-131 | the mirror image, with the other assertion |
| `BTreeInsert.RightGrew` | btree.c:104-117 | after the right subtree grew: a balanced tree, and a return code that tells whether the whole grew and which side is higher |
| `BTreeInsert.LeftGrew` | btree.c:123-136 | the mirror image |
| `BTreeInsert.DescendRight` | btree.c:98-103 | a thread is dropped before the descent, and no node outside the subtree is touched |
| `BTreeInsert.InternalInsert` | btree.c:83-140 | the result is a search tree of exactly the old nodes and the new one, with true balance factors between -1 and 1 and sound threads; on a duplicate the tree is unchanged; the code says which happened |
| `BTreeThreads.NodeThreading` | btree.c:166-179 | one visit of rethreading: the node loses its old thread, and its predecessor gets one exactly if it has no right child |
| `BTreeThreads.VisitThreading` | btree.c:166-179 | what has been threaded before the visited node stays threaded, up to that node |
| `BTreeThreads.ThreadInOrder` | btree.c:30-40 | the in-order pass, which never follows an old thread, threads a whole subtree but for its last node, and changes no child link, key or factor |
| `BTreeThreads.ThreadToSuccessor` | btree.c:98-185 | however many threads are missing from a tree, one that is there leads to the in-order successor |
| `BTreeThreads.ThreadSound` | btree.c:98-185 | so it does in a subtree, whose last thread leads to the node behind the subtree |
| `BTreeThreads.SubLinked` | btree.c:186-202 | every subtree of a fully threaded tree is fully threaded, with the node behind it as its successor |
| `BTreeThreads.Step` | btree.c:195-201 | behind a node, its right link leads to the next node in order, by a thread or as the right child whose leftmost node that is |
| `BTreeThreads.Leftmost` | btree.c:191-192 | the inner loop ends at the first node of the subtree it started in |
| `BTreeThreads.FollowThreads` | btree.c:195-200 | the threads are followed through consecutive nodes of the order |
| `BTreeThreads.ThreadTraverse` | btree.c:186-204 | the traversal without a stack ends, and shows the visitor exactly the rest of the in-order sequence and then null, or its beginning up to the first node the visitor stops at |
| `BTree.InOrderSorted` | btree.c:30-40 | the in-order sequence of a search tree is strictly ascending |
| `BTree.SortedUnique` | btree.c:83-140 | a strictly ascending sequence is determined by its elements: the shape of the tree does not matter |
| `BTree.InsertedOrder` | btree.c:83-140 | the order after an insertion, rotations and all, is the sorted insertion into the order before |
| `BTree.InsortContents` | btree.c:75-82 | seen as a map, an insertion adds the key unless it is there |
| `BTree.KeysOfOrder` | btree.c:52-74 | a key is found by descending exactly if it is in the order |
| `BTree.BTree.constructor` | btree.c:15-18 | the empty tree is a good one |
| `BTree.BTree.Insert` | btree.c:75-82 | validity is kept, the contents gain the key unless it was there, and the return value says which |
| `BTree.BTree.BuildThreads` | btree.c:180-185 | from any sound and partial threading: afterwards every node without a right child, but the last, is threaded to its successor, and the tree is the same |
| `BTree.BTree.Find` | btree.c:52-74 | the search, which stops at threads, finds the node with the key exactly if the map has it |
| `BTree.BTree.Run` | btree.c:75-185 | any sequence of insertions and rethreadings keeps every invariant and computes the map the sequence describes |
| `HeaderTable.XorCancels` | http_header.c:570-572 | XOR with the same number twice gives the number back |
| `HeaderTable.NHash` | http_header.c:594-607 | the loop computes the 16-bit hash, with the wrap-around and sign of the C types |
| `HeaderTable.HashIgnoresCase` | http_header.c:581-607 | strings that differ in case only have one hash |
| `HeaderTable.CaseVariantFound` | http_header.c:633-657 | with distinct hashes, scanning the table for any case variant of an entry gives that entry |
| `HeaderTable.FoundExactly` | http_header.c:633-657 | a lookup answers with a name exactly if that has the hash of the target and begins with it, letter case aside |
| `HeaderTable.KnownHashes` | http_header.c:594-607 | two hashes, one of them negative, as numbers |
| `HeaderTable.KnownHigh` | http_header.c:594-607 | and that of a byte above 127, which the code takes for a negative number |
| `HeaderTable.SwapKeepsPermutation` | http_header.c:570-572 | exchanging two neighbours keeps the index a permutation |
| `HeaderTable.BubbleStep` | http_header.c:566-575 | one step of the inner loop carries the largest hash on and keeps the sorted tail |
| `HeaderTable.OneCandidate` | http_header.c:644-650 | with distinct hashes at most one entry can match, so giving up after one hash match is right |
| `HeaderTable.HeaderIndex.constructor` | http_header.c:550-560 | hashing and indexing all fields leaves a valid index: a permutation sorted by hash |
| `HeaderTable.HeaderIndex.XorSwap` | http_header.c:570-572 | three XOR assignments exchange two entries |
| `HeaderTable.HeaderIndex.BubbleSort` | http_header.c:561-580 | the index ends up a permutation in ascending order of the hashes |
| `HeaderTable.HeaderIndex.BinaryNSearch` | http_header.c:633-657 | binary search returns what a linear scan of the table returns, found or not |
| `HeaderText.ScanByte` | http_header.c:481-546 | the switch of the parser moves its five cursors as the specification of a line does, and refuses the same bytes |
| `HeaderText.NextLine` | http_header.c:457-549 | the parser's loop over one line agrees with the specification: a field, the blank line, an error, or not yet complete |
| `HeaderText.BlankExactly` | http_header.c:479-513 | a line is blank exactly if it ends in CR LF and has no byte but spaces, colons and CRs |
| `HeaderText.FieldExactly` | http_header.c:479-546 | it is a field with this name and value exactly if it ends in CR LF, has no stray byte, its name runs from the first significant byte to the first space or colon, and its value from the first to the last significant byte behind the first colon |
| `HeaderText.RefusedExactly` | http_header.c:481-537 | it is refused exactly if there is no CR before its LF, a significant byte between a name and its colon, or a name without colon or value |
| `HeaderText.UnendedLine` | http_header.c:479-537 | before its LF it is refused exactly for such a stray byte |
| `HeaderText.LineReads` | http_header.c:514-543 | name and value are found whatever blanks, or none, stand around them |
| `HeaderText.LinesParsed` | http_header.c:457-549 | lines that are fields, and then one that is refused, blank or not yet complete: the call reports the fields in order, and fails, ends or waits accordingly |
| `HeaderText.LineStable` | http_header.c:479-547 | a line that is complete or refused stays so when more bytes follow |
| `HeaderText.ParseExtends` | http_header.c:457-549 | a finished or failed parse is the same with more bytes; an unfinished one goes on as if restarted on its tail |
| `HeaderText.FeedingIsParsing` | http_header.c:457-549 | feeding chunks, each behind the unconsumed tail, gives what one call on all bytes gives, for every stable line scanner |
| `HeaderText.ChunkingInvariance` | http_header.c:457-549 | for the header parser: same fields, end flag, error and bytes consumed for every way of cutting the stream |
| `HeaderText.LineRoundTrip` | http_header.c:429 | a printed line, with anything behind it, scans as its name and value |
| `HeaderText.LineByteByByte` | http_header.c:429 | the bytes of a printed line |
| `HeaderText.BlockRoundTrip` | http_header.c:438-549 | a printed block of good names and values parses into exactly those fields, to its last byte, with the end flag |
| `HttpHeader.LoadIsParse` | http_header.c:457-549 | what the parser stores is what adding the parsed fields one by one stores |
| `HttpHeader.AddedExactly` | http_header.c:384-407 | a field is stored under the id of its name, in whatever case, unless the id is there; an empty value and a name of no known hash change nothing |
| `HttpHeader.LoadExtends` | http_header.c:457-549 | loading into a collection may stop anywhere and go on from the collection it left |
| `HttpHeader.TextFits` | http_header.c:427-429 | snprintf never writes more than the space the visitor asked for |
| `HttpHeader.EmitsAll` | http_header.c:418-437 | given more room than all lines need, every line comes out whole, in order, and the lengths add up |
| `HttpHeader.EmitsSome` | http_header.c:418-437 | in any room whole lines come out, but for the last byte of an exact fit, and all of them exactly if there is room for all |
| `HttpHeader.CStringCut` | http_header.c:429 | a printed value stops at its first NUL |
| `HttpHeader.TreeNeedsInOrder` | http_header.c:408-417 | the length summed in pre-order is the length of the lines in order |
| `HttpHeader.PrintParseRoundTrip` | http_header.c:438-549 | for every collection with printable values: its printed block, parsed into an empty collection, gives exactly the same map, with the end flag and every byte consumed |
| `HttpHeader.WalkPrints` | http_header.c:418-437 | the traversal stopped by this visitor shows it one node more than it prints |
| `HttpHeader.ResumeRepeats` | http_header.c:432 | a print resumed after the k-th node starts at or before that node |
| `HttpHeader.HeaderCollection.constructor` | http_header.c:364-368 | an empty collection with its cursor at the root |
| `HttpHeader.HeaderCollection.AddById` | http_header.c:393-407 | the first value of an id is kept, empty values are dropped, the cursor returns to the root |
| `HttpHeader.HeaderCollection.Add` | http_header.c:384-392 | a name in any case is stored under its table id, an unknown one is dropped |
| `HttpHeader.HeaderCollection.Len` | http_header.c:412-417 | the length of all lines and the blank line |
| `HttpHeader.HeaderCollection.Walk` | http_header.c:444-445 | the nodes shown to the printing visitor, from the cursor on |
| `HttpHeader.HeaderCollection.ToStr` | http_header.c:438-456 | never more than `size` bytes; from the root, with at least http_header_len bytes, all headers in ascending order of id and the blank line, exactly that length, the end flag, and the cursor rewound for a second print |
| `HttpHeader.HeaderCollection.Parse` | http_header.c:457-549 | the loop stores, consumes, ends and fails as the specification of loading says |
| `HttpHeader.HeaderCollection.Destroy` | http_header.c:374-383 | the collection is empty again |
| `HttpHeader.FreeNodes` | http_header.c:369-378 | the post-order pass frees every node once, and looks at none it has freed |
| `HttpHeader.AccumulateLen` | http_header.c:408-417 | the pre-order pass adds up the lengths of all nodes, whatever threads there are |
| `HttpHeader.PrintNodes` | http_header.c:418-437 | the snprintf calls of a walk write the lines one behind the other |
| `HttpHeader.Copy` | http_header.c:438-549 | printing a collection on the heap and parsing the text into a new one yields an equal collection |
| `List.List.Append` | list.c:9-15 | the node is last in the ring, the others as before |
| `List.List.Remove` | list.c:16-20 | the ring without that node, whose own links are left alone |
| `List.List.RemoveFirst` | list.c:37-47 | the first node, or null exactly if there is none |
| `List.List.Pop` | stack.c:5-15 | the last node, or null exactly if there is none |
| `List.List.Traverse` | list.c:21-32 | a visitor may unlink the node it is shown: every node is visited once, in order, up to the first refusal, and exactly the unlinked ones are gone |
| `ObjectPool.ObjectPool.constructor` | object_pool.c:4-19 | a chain of as many distinct free slots as asked for |
| `ObjectPool.ObjectPool.Acquire` | object_pool.c:20-29 | the first free slot, or null exactly if there is none |
| `ObjectPool.ObjectPool.Return` | object_pool.c:30-42 | the slot is free again, in front of the others |
| `SyncQueue.SyncQueue.Link` | sync_queue.c:22-36 | the entry is last in the queue, tail and head agree with the chain |
| `SyncQueue.SyncQueue.Take` | sync_queue.c:51-57 | the first entry leaves, or null exactly if there is none |
| `UrlCoding.HexRoundTrip` | http_url.c:160-173 | the value of a hex digit is the number it was written for |
| `UrlCoding.HexDigitsExactly` | http_url.c:160-173 | the sixteen digits, in either case, have their places as values, and nothing else is a digit |
| `UrlCoding.AlnumExactly` | http_url.c:19-149 | the bytes that need no encoding are the digits and letters |
| `UrlCoding.EncodesExactly` | http_url.c:199-225 | those are left alone, and every other byte becomes a percent sign and its two upper-case digits |
| `UrlCoding.DecodesPlain` | http_url.c:174-198 | what has no percent sign decodes to itself, whatever follows |
| `UrlCoding.DecodesEscape` | http_url.c:174-198 | a percent sign and two digits, in either case, decode to the byte they write |
| `UrlCoding.RefusesExactly` | http_url.c:180-187 | decoding stops at a percent sign exactly if two digits do not follow it |
| `UrlCoding.DecodeEncode` | http_url.c:174-225 | decoding an encoded string gives the string back |
| `UrlCoding.EscapedSize` | http_url.c:203-206 | the first pass computes exactly the bytes the second writes |
| `UrlCoding.Escape` | http_url.c:199-225 | the two-pass encoder fills its allocation with the encoding and its terminator |
| `UrlCoding.Unescape` | http_url.c:174-198 | decoding in place, the write cursor never passing the read cursor, computes the decoding of what was there, and fails exactly on a bad escape |
| `UrlCoding.EscapeThenUnescape` | http_url.c:174-225 | unescaping the escaped copy in place succeeds and restores the string, for all bytes 1 to 127 |
| `UrlPath.PathBytesExactly` | http_url.c:19-152 | the bytes a path may have are the digits, the letters and four more |
| `UrlPath.PushSegment` | http_url.c:337-352 | one segment against the stack in the heap: popped, dropped or pushed; the underflow is the only failure |
| `UrlPath.SegmentDone` | http_url.c:333-358 | a segment scanned byte by byte is the segment the specification cuts off |
| `UrlPath.ParsePath` | http_url.c:322-369 | the loop leaves the stack of the specification, its length stops at the query or fragment, and it fails when the specification does |
| `UrlPathRfc.PopState` | http_url.c:337-345 | popping the stack removes the last segment from the RFC's output buffer |
| `UrlPathRfc.RfcStep` | http_url.c:333-358 | one segment takes the RFC's algorithm through its rules A to E as it takes the stack |
| `UrlPathRfc.RefinesFrom` | http_url.c:322-369 | from any matching pair of stack and output buffer, both algorithms end in matching states |
| `UrlPathRfc.RefinesRfc` | http_url.c:322-369 | for a path of allowed characters that does not underflow: the segments behind a leading slash are remove_dot_segments of the path exactly if its last segment is not a lone dot |
| `UrlPathRfc.LoneDotAccepted` | http_url.c:337-345 | `a/.` is accepted and normalises to nothing, where the RFC gives `/a/` |
| `UrlPathRfc.FailsExactly` | http_url.c:337-363 | normalisation fails exactly if a byte before the end of the path is not allowed, or the dot-dot segments outnumber the ordinary ones before them at some point |
| `UrlPathRfc.PathOnly` | http_url.c:333-357 | what follows the path has no influence |
| `UrlPathRfc.PathCutOff` | http_url.c:333-357 | a path ends before the first question mark or number sign |
| `UrlPathRfc.NormalIsFixed` | http_url.c:322-369 | a stack without dot segments, written out, normalises to itself |
| `UrlPathRfc.Idempotent` | http_url.c:322-369 | normalising the output changes nothing |
| `HttpUrl.PathBehindHost` | http_url.c:276-289 | behind the first two slashes in a row comes the host, and behind the next slash the path |
| `HttpUrl.HostAlone` | http_url.c:285-289 | a host without a slash behind it leaves no path |
| `HttpUrl.PathFromRoot` | http_url.c:291-296 | without two slashes in a row the path is what follows a first slash |
| `HttpUrl.NoRoot` | http_url.c:272-305 | and anything else is refused, but for nothing at all and the scheme alone |
| `HttpUrl.UrlCutOff` | http_url.c:250-271 | a URL is cut off at the first space, waited for without one, and refused with a NUL before it or from 1024 bytes on |
| `HttpUrl.UrlStable` | http_url.c:250-266 | a URL that is complete or refused stays so when more bytes follow |
| `HttpUrl.ParseText` | http_url.c:270-320 | where the path of a URL begins, and what it leaves on the stack |
| `HttpUrl.ParseUrl` | http_url.c:244-321 | waits, refuses, or cuts off the URL, as specified, for every input |
| `HttpMethod.MatchRest` | http_method.c:71-81 | the loop decides between the word, a prefix of it, and a mismatch |
| `HttpMethod.ParseMethod` | http_method.c:20-82 | deciding by the first bytes is the same as comparing with every recognised word, but for a lone P, which is refused whatever lies behind it |
| `HttpMethod.DecidedExactly` | http_method.c:8-82 | a method is found exactly if one of GET, PUT, POST, HEAD and OPTIONS and a blank are there |
| `HttpMethod.WaitsExactly` | http_method.c:20-82 | the code waits exactly on a NUL and on the beginnings of these, but for none and a lone P |
| `HttpMethod.MethodStable` | http_method.c:20-82 | a decision, other than on a lone P, stays the same when more bytes follow |
| `HttpVersion.Compare` | http_version.c:23-36 | both comparison loops stop at the end of the data, the end of the word, or behind the first difference |
| `HttpVersion.ParseVersion` | http_version.c:12-52 | complete, incomplete or refused on every prefix; on no bytes the parsed length keeps its old value |
| `HttpVersion.DecidedExactly` | http_version.c:12-52 | version 1.0 or 1.1 is found exactly if `HTTP/1.0` or `HTTP/1.1` and CR LF are there, all ten bytes |
| `HttpVersion.WaitsExactly` | http_version.c:23-52 | the code waits exactly on the beginnings of these, and on up to seven bytes of which all but the last are one |
| `HttpVersion.TextRoundTrip` | http_version.c:57-72 | what the printer writes for a version, nine bytes, is what the parser reads as that version |
| `HttpVersion.VersionStable` | http_version.c:12-52 | a decision stays the same when more bytes follow |
| `HttpRequest.StageDone` | http_request.c:41-101 | if the stages behind may be cut anywhere, so may this one once it is done |
| `HttpRequest.HeaderHarmless` | http_request.c:87-94 | a call may be cut anywhere in the header stage |
| `HttpRequest.VersionHarmless` | http_request.c:73-86 | a call may be cut anywhere in the version stage but before its first byte |
| `HttpRequest.UrlHarmless` | http_request.c:59-72 | a call may be cut anywhere in the URL stage but behind the URL |
| `HttpRequest.MethodHarmless` | http_request.c:45-58 | a call may be cut anywhere in the method stage but behind a lone P |
| `HttpRequest.OverrunExactly` | http_request.c:99-108 | the call claims more bytes than it was given exactly if those end behind the URL |
| `HttpRequest.BehindVersion` | http_request.c:41-86 | a call on a request line of whichever method, URL and version goes on to the headers with these |
| `HttpRequest.WaitsIn` | http_request.c:45-86 | on a line that is not complete it takes the parts that are, and waits in the stage of the next |
| `HttpRequest.RefusesIn` | http_request.c:45-86 | on a line with a bad part it fails, has ended and read nothing, and keeps the parts before |
| `HttpRequest.OverrunsBy` | http_request.c:73-86 | when the bytes end behind the URL its length is counted twice, and the version is skipped |
| `HttpRequest.HeadersDecide` | http_request.c:87-94 | behind the line it fails, ends or waits as the headers do, with the headers read so far |
| `HttpRequest.RequestRead` | http_request.c:33-111 | a request with good names and values, whatever follows it, is read whole: its line, and each field under the id of its name |
| `HttpRequest.LineAsked` | http_request.c:41-86 | a call on an ordinary request line, whatever follows, goes on to the headers with its method, URL and version |
| `HttpRequest.WholeRequest` | http_request.c:41-101 | a request line and a blank line are a whole request, to their last byte |
| `HttpRequest.CutBehindUrl` | http_version.c:14-48 | the first bytes of that line, up to its version, are a bad cut: the call claims more than it was given |
| `HttpRequest.NoJunk` | http_request.c:33-40 | what lies in the uninitialised length matters only to a call without bytes |
| `HttpRequest.CutHarmlessExactly` | http_request.c:33-111 | a stream may be cut behind given bytes, whatever follows, exactly if they are not a lone P and do not end behind the URL |
| `HttpRequest.OneMoreChunk` | http_request.c:33-111 | receiving one more chunk keeps a connection level with one call on all bytes |
| `HttpRequest.ChunkingInvariance` | http_request.c:33-111 | for every way of cutting a stream at good places: the stage, method, URL, version, headers, end, error, bytes used and bytes left of one call on the whole |
| `HttpRequest.HttpRequest.constructor` | http_request.c:17-24 | a request that has read nothing |
| `HttpRequest.HttpRequest.Round` | http_request.c:41-101 | one round of the loop, on the heap: what was to be parsed is what is to be parsed behind it, or the call ends as specified |
| `HttpRequest.HttpRequest.Parse` | http_request.c:33-111 | the loop over the request in the heap computes the specified call on any bytes, or none: fields, bytes read, end and error; on a refusal, everything but the fields of a refused URL |
| `HttpRequest.HttpRequest.Reset` | http_request.c:25-32 | whatever was parsed, the request is as new, and its headers can be printed from the first |
| `RequestStream.CallerComposes` | server.c:293-317 | the request parser can be called on what was left over and what has come, wherever the last call was content |
| `RequestStream.ServedExtends` | server.c:265-347 | more bytes do not change the requests a stream begins with |
| `RequestStream.ServedOneMore` | server.c:318-346 | a whole request behind those found is the next one |
| `RequestStream.OneMoreRead` | server.c:293-302 | the call on the bytes left and new answers what one call on all bytes of the request answers |
| `RequestStream.NextTold` | server.c:265-347 | one recv keeps the account of the stream, or the refusal or overrun is that of one call on the whole request |
| `RequestStream.TellerCarried` | server.c:265-347 | so does every recv of a task, wherever its bytes are cut |
| `RequestStream.LeftUnserved` | server.c:265-347 | a whole request lies unserved in what has come exactly if it lies in the buffer and nothing has come since the request before it ended |
| `RequestStream.SecondLeft` | server.c:318-347 | of two requests in one recv the second is left in the buffer |
| `RequestStream.SecondLeftUnserved` | server.c:318-347 | such requests there are |
| `ServerReceive.Compact` | server.c:303-316 | both copy branches move the unconsumed bytes to the front; memcpy is never asked to copy overlapping ranges |
| `ServerReceive.Connection.ParseOnce` | server.c:294-346 | parse, and reset once a request has ended or was refused |
| `ServerReceive.Connection.ReadOnce` | server.c:294-318 | the buffer holds exactly the bytes the parser left; on a refusal it holds what it held before the recv |
| `ServerReceive.Connection.Save` | server.c:276-282 | what is saved is what remains, exactly if it fits and, when nothing remains, nothing had been saved before |
| `ServerReceive.Connection.Turn` | server.c:267-346 | one recv and its consequences are those of the specification |
| `ServerReceive.Connection.Receive` | server.c:265-370 | the loop ends, never exceeds the buffer, and keeps whatever one recv keeps; the connection is kept alive exactly if no request was refused, every one served is to be kept, and all that came was taken; and up to the last recv nothing had failed |
| `ServerReceive.Connection.Serve` | server.c:247-370 | in one task: the bytes saved and received are the requests served, then what the present request has taken, then the buffer; the requests are those one call after the other would find in the stream, however recv cuts it; the connection is kept exactly if none was refused, each is to be kept, all that came was taken and recv would block; otherwise the task stops at the first recv after which one of these fails, or at a full buffer |
| `ServerReceive.StaleBytes` | server.c:276-282 | a byte saved by one task and used by the next is there again for a third |
| `HttpLog.StrNCpy` | http_response.c:369 | strncpy copies the text and fills the room with NUL bytes, and touches nothing else |
| `HttpLog.PrintWithin` | http_header.c:438-456 | from wherever the cursor stands, a print without its blank line fits into the lines' length |
| `HttpLog.RenderedByteByByte` | http_response.c:414-430 | the bytes of a log buffer |
| `HttpLog.Render` | http_request.c:112-127 | both log functions stay inside their buffers, and when all headers are printed the last terminator is the last byte |
| `ResponseStream.HeadersRight` | http_response.c:378-386 | a print into a room it may have writes the next bytes of the response, or none, and moves to where the rest begins |
| `ResponseStream.HeadersWrong` | http_header.c:418-456 | a print into any other room writes a wrong byte, or leaves the cursor before the header that is due |
| `ResponseStream.LinesDiffer` | http_header.c:427-429 | the lines of two headers differ at some byte of both |
| `ResponseStream.DoomedPrints` | http_header.c:418-456 | from a cursor before the header that is due, a print that writes anything writes a wrong byte |
| `ResponseStream.SpoilsExactly` | http_header.c:418-437 | the rooms that spoil a print are those into which some headers but not all are printed, or all with their last byte lost |
| `ResponseStream.SpoilingRooms` | http_header.c:418-437 | wherever headers are to be printed there are such rooms, and rooms below and above them that do no harm |
| `ResponseStream.SpoiltRun` | server.c:325-342 | for every response with headers, a first buffer for exactly the lines and a second of two bytes: the run ends, and has sent a wrong byte |
| `ResponseStream.RoundStatus` | http_response.c:351-411 | a round that is offered what it needs keeps the bytes sent a beginning of the response; any other makes them differ, or dooms them, or ends too early; and that never heals |
| `ResponseStream.CallUpholds` | http_response.c:351-411 | what every round upholds a call upholds |
| `ResponseStream.RunUpholds` | server.c:325-342 | and so does a run over any buffers |
| `ResponseStream.EnoughIsFitting` | http_response.c:351-411 | a caller can tell from the room and the state whether every round of the call will have what it needs |
| `ResponseStream.RunExactly` | server.c:325-342 | for every sequence of buffer sizes: the bytes of a run that has ended are version, status, headers and content exactly if every call was offered enough for the state it met, and up to then they are their beginning |
| `ResponseStream.RunEnds` | server.c:325-342 | if every call is offered enough and none stalls before a whole line, the run ends within one call for each stage, each byte of content and two more, and has sent everything |
| `ResponseStream.RoomForHead` | server.c:325-342 | a first buffer with room for more than the head and others that are not empty are enough, and do not stall |
| `ResponseStream.BufferSuffices` | server.c:325-342 | one buffer larger than the head, offered again and again, sends everything |
| `ResponseStream.TailIsBlock` | http_response.c:378-405 | from its first header on, what a response has to say is the printed block and the content |
| `ResponseStream.StatusLine` | http_response.c:356-377 | the first two lines written are the protocol, the status, and CR LF |
| `ResponseStream.ClientReads` | http_response.c:343-413 | what a response has to say begins with its two lines; behind them the header parser finds exactly its headers, and stops at the content |
| `HttpResponse.HttpResponse.constructor` | http_response.c:321-329 | a response that has written nothing |
| `HttpResponse.HttpResponse.LineRound` | http_response.c:356-377 | version and status are each written in one piece or not at all |
| `HttpResponse.HttpResponse.ToText` | http_header.c:438-456 | a print, in terms of the header the next print begins with |
| `HttpResponse.HttpResponse.HeaderRound` | http_response.c:378-386 | for every room and cursor, the headers written behind what is there and the cursor left are those of the specification |
| `HttpResponse.HttpResponse.ContentRound` | http_response.c:387-405 | the bytes read go behind what is there, and the end is what the read says |
| `HttpResponse.HttpResponse.RoundBehind` | http_response.c:351-410 | one round writes the specified bytes behind what is there, and no others |
| `HttpResponse.HttpResponse.Generate` | http_response.c:343-413 | for every buffer and every state, cursor included, the loop writes exactly the specified bytes at the front of the buffer, never more than `size`, and leaves the specified state |
| `HttpResponse.HttpResponse.Send` | server.c:325-342 | the send loop, on the heap: what is sent, the end, and where the response stands are those of the specified run with the one buffer offered again and again |
| `HttpResponse.SoundResponse` | http_response.c:321-342 | a valid response without NUL bytes in its header values is one the theorems on runs speak of |
| `ThreadPool.MutexKept` | sync_queue.c:20-61 | no step lets two threads into the critical sections |
| `ThreadPool.CheckedKept` | sync_queue.c:47-57 | what a thread found out under the lock stays true while it holds it |
| `ThreadPool.ClosedForever` | sync_queue.c:25-66 | once the flag is set, the queue empty and no producer past its check, this stays so |
| `ThreadPool.ShutKept` | thread_pool.c:44-76 | a worker is told to exit only when the queue is closed, and the drain begins only when all workers have exited |
| `ThreadPool.ConservedKept` | sync_queue.c:20-61 | no step loses, duplicates or reorders a task |
| `ThreadPool.ExclusiveKept` | thread_pool.c:44-53 | no step gives a worker a task that was handed out before |
| `ThreadPool.CountedKept` | sync_queue.c:27-57 | while a worker is blocked there are no more tasks than workers about to look, but for one just being announced |
| `ThreadPool.HandedThenQueued` | thread_pool.c:38-79 | in every interleaving the tasks handed out, then those queued, are the accepted ones in order; none is handed out twice, none is run by two workers, none is freed unrun |
| `ThreadPool.AcceptedExactly` | sync_queue.c:20-40 | in every interleaving a task its producer is done with has been accepted exactly if the flag was clear when the producer looked under the lock; before the flag is set, every task is accepted or still in its producer's hand |
| `ThreadPool.HandedIsRun` | thread_pool.c:44-53 | the tasks handed out are those workers have run, or run, or are about to run |
| `ThreadPool.ThreadsMove` | sync_queue.c:20-61 | in every reachable state the threads that cannot go on are exactly those that wait: for the lock, a signal, an exit, or work |
| `ThreadPool.PopsFront` | sync_queue.c:38-61 | a worker that is not disturbed runs the first task; without one it waits, or exits once the flag is set |
| `ThreadPool.PushesBack` | thread_pool.c:57-63 | a producer that is not disturbed leaves its task last in the queue and one blocked worker awake; once the flag is set, nothing |
| `ThreadPool.Broadcasts` | sync_queue.c:62-66 | the destroyer's first two steps set the flag and wake every blocked worker, and no other worker sees a difference |
| `ThreadPool.ExitIsFinal` | thread_pool.c:47-56 | once any worker has been told to exit, the queue is empty forever, nothing more is accepted, and every accepted task was handed out |
| `ThreadPool.DestroyedClean` | thread_pool.c:65-79 | when the pool is destroyed, all workers have exited and all accepted tasks were handed out |
| `ThreadPool.NoSleepingTask` | sync_queue.c:42-61 | in no reachable state is a task queued, and announced, while all live workers are blocked |
| `ThreadPool.WakeupLostExactly` | sync_queue.c:62-66 | a worker can sleep through the broadcast exactly if it is between check and wait when the flag is set |
| `ThreadPool.CanSleepThrough` | sync_queue.c:47-66 | a run of three steps leads there |
| `Server.CloseKept` | server.c:352 | a worker's close keeps every invariant: the descriptor was in no set |
| `Server.ForgetKept` | server.c:353 | so does setting the slot's socket to -1 |
| `Server.ReadBackKept` | server.c:356-358 | so does taking the lock and reading the word the descriptor goes back to |
| `Server.WriteBackKept` | server.c:358-359 | so does writing that word back, if it is up to date, and releasing the lock |
| `Server.WriteKept` | server.c:99 | so does the main thread's writing of an up-to-date word |
| `Server.EnlistKept` | server.c:100-116 | so does enlisting a new connection, whose descriptor cannot be in the stale set, unless a slot still has it |
| `Server.VisitKept` | server.c:224-230 | so does a visit, which may return the slot to the pool |
| `Server.ClearKept` | server.c:231-236 | so does FD_CLR |
| `Server.InvKept` | server.c:62-119 | every step of every thread keeps the invariant, but for the writing of a word that is out of date, and for the enlisting of a descriptor a slot still has |
| `Server.OneOwner` | server.c:62-119 | in every state reached without those two each slot is exactly one of free, idle, dispatched to exactly one place, and closed; none is lost or duplicated |
| `Server.ReclaimedUnused` | server.c:224-230 | a slot returns to the pool only when no task for it is queued or running |
| `Server.DispatchedFromIdle` | server.c:231-238 | a slot gets a task only while it is idle, however old the descriptor set is |
| `Server.MainMoves` | server.c:62-119 | between its waits the main thread can always go on |
| `Server.NewIsLast` | server.c:100-116 | a new connection takes the first free slot, and is last in the list; without one it has leaked, and nothing else changes |
| `Server.SweepBegins` | server.c:74-117 | a sweep begins before the whole list, a new connection included, with what select returned |
| `Server.EveryConnectionVisited` | server.c:117-240 | in a sweep, whatever the workers do, every connection of the list is looked at, once and in order, and answered as it was found: from -1 to the pool, if ready a task, else nothing |
| `Server.AnswersMean` | server.c:220-240 | what each of these answers does to list, pool and tasks |
| `Server.ReadyIsServed` | server.c:62-240 | an idle connection is among those select is asked for, and if select returns its descriptor a task for it is queued in that sweep |
| `Server.ReturnsMove` | server.c:68-86 | when select or accept returns, the main thread goes on to a new connection, the sweep, or back |
| `Server.WorkersMove` | server.c:248-361 | in every reachable state a worker with a task has its socket, and only the lock can make it wait |
| `Server.GivesBack` | server.c:354-360 | a task that keeps its connection puts the descriptor back and changes nothing else |
| `Server.ClosesDown` | server.c:348-353 | one that does not closes the descriptor and leaves its slot without |
| `Server.TakenInOrder` | thread_pool.c:44-63 | workers take on the tasks in the order in which they were queued, each once |
| `Server.SameWordExactly` | server.c:99 | the words of a descriptor set are its stretches of 64 |
| `Server.MainWriteLosesExactly` | server.c:99 | between the main thread's reading and writing of a word, whatever the workers do: some slot is then stranded, open but out of the set and without a task, exactly if one of them has written that word, and otherwise the word is up to date |
| `Server.StrandedExactly` | server.c:99 | and a given slot is stranded exactly if its descriptor is one of that word and a worker has given it back in between |
| `Server.LostForGoodExactly` | server.c:99 | it stays stranded in every continuation, whichever words are written, exactly if moreover the lock holder's word does not hold its descriptor |
| `Server.ForgottenForGood` | server.c:62-119 | from any state at all: a stranded slot whose descriptor is in no thread's hand stays so through every step of every thread |
| `Server.WorkerWriteLosesExactly` | server.c:356-359 | the other way round: behind a worker's writing some open descriptor is in no set, and not being accepted or served, exactly if the main thread has written that word since the worker read it |
| `Server.NothingDropped` | server.c:62-119 | under the invariant every open descriptor is in the set, or some thread has it in hand |
| `Server.CanStrand` | server.c:99-359 | a run from the start that loses a slot for good |
| `Server.ReuseSharesExactly` | server.c:88-353 | whatever workers do, and whichever words are written, between accept and the enlisting: the descriptor then belongs to two connections exactly if a slot that is being closed still has it, which is so exactly if it had it when accept returned it and has not been told since |
| `Server.CanForgetInTime` | server.c:88-353 | a run from the start in which the slot is told in time, and the descriptor that came back is not shared |
| `Server.CanDispatchTwice` | server.c:88-353 | a run from the start in which a second task for a slot is queued while the first one runs |
| `Server.LeakedForGood` | server.c:99-104 | a descriptor accepted without a slot stays open without one in every continuation, and in the set in every continuation that writes no word out of date |
| `Server.SlotlessAlways` | server.c:62-359 | from any state, no events of any threads close an open descriptor without a slot, or give it one |
| `Server.LeaksExactly` | server.c:99-116 | a new connection stays open without a slot in every continuation exactly if the pool is empty, and no slot still has its descriptor |
| `Server.CanLeak` | server.c:99-104 | a run from the start that finds the pool empty |

## Left out

- Operating-system calls (sockets, select, recv, write, accept, read, pipes, files): arrivals, readiness, read lengths and failures are parameters or events.
- `server_process_request`, the MIME types, the configuration, the logger and the status texts: plain data or I/O. What they do to keep_alive is a parameter of the receive loop.
- The names in the header table: the table is any list of names, and lookup results rest on the hypothesis that their hashes are distinct.
- A header line that begins with a colon gives a name of negative length. The model looks it up as an empty name, which differs from the code only for a table entry whose hash is 0.
- Header values of 32768 bytes and more, whose 16-bit length wraps.
- The query of a URL: the value's start is overwritten on every character, so no clean specification fits; it never fails and follows the path.
- The host of a URL is not kept; that `http:` alone is accepted, and where the path begins, are modelled.
- `object_pool_expand` is never called. `list_empty` and `stack_top` have no row of their own.
- Allocation failure and weak memory: an access to what threads share is atomic and seen by all at once. FD_SET is a read and a write of one word; the memcpy of the set and FD_CLR, into which no other access can fall, are one step each.
- The end of the server (`server_clean`), and that every worker eventually exits.
- The two looks at a socket in one visit are two steps; a -1 seen by the second is taken to be in no set.
- UrlCoding.EscapeThenUnescape: bytes from 128 on are negative `char`s in the source and index its tables out of range, so the heap round trip is stated for 1 to 127; UrlCoding.DecodeEncode holds for all bytes.
- HttpHeader.HeaderCollection.AddById: the node allocated for a duplicate is not freed by the source; the model has no account of memory that is merely unreachable.
- Short writes to a socket: the source does not send the rest.
- HttpRequest.HttpRequest.Parse: what a refused URL has left in the URL's own fields is not promised; the server resets the request then.
- ServerReceive.Connection.Serve: where the parser claims more bytes than it was given, the count of bytes left would be negative, and the model stops.
- Server.OneOwner: stated for the runs in which no thread writes a word of the descriptor set that is out of date, and no connection is enlisted under a descriptor a slot still has; what the first such step does is stated exactly by Server.StrandedExactly, Server.WorkerWriteLosesExactly and Server.ReuseSharesExactly.
- ServerReceive.Connection.Save: conservation of bytes holds within one task; across tasks only under the condition stated.
- HeaderText.NextLine: the parser's loop is modelled line by line, restarted where the code clears its cursors.
- BTreeThreads.ThreadTraverse: a visitor is a function of the nodes it has been shown so far.
