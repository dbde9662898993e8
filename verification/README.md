# Verified models of libevent and of the list header

Models, in Dafny 4.11, of the parts of the bundled libevent 2.0.22 that hold the
most state, and of the circular list in `include/list.h`. Each part that changes
things step by step is a class, or methods with loops, and every operation is tied
to what it means: flat byte strings for buffers, the set of live events for the
changelist, labels for DNS packets, a plain map for the hash table, a sequence for
the linked list. Most parts end in a method `Run` (or `RunBoth`, `ReadBack`,
`RoundTrip`) that performs any script of operations; its contract ties the result,
or the state after each step, to the same script on that meaning.

| file | part |
|---|---|
| `Evbuffer.dfy`, `EvbufferRun.dfy` | chains with `misalign` and `off`, `last_with_datap`, and all moving of bytes |
| `EvbufferRead.dfy` | reserving and committing space, reading from a descriptor |
| `EvbufferHeap.dfy` | the same chains linked in memory: `first`, `last`, `next` and the pointer `last_with_datap` |
| `EvbufferSearch.dfy`, `EvbufferLines.dfy` | pointers, search, end-of-line styles, readln |
| `Evmap.dfy`, `EvmapRun.dfy` | per-fd counts, the coalescing changelist, epoll |
| `EventQueues.dfy`, `Scheduler.dfy`, `Timeouts.dfy`, `EventLoop.dfy` | flags and queues, common timeouts and their timers, priorities |
| `DnsName.dfy`, `DnsParse.dfy`, `DnsEncode.dfy`, `DnsRoundTrip.dfy` | names in packets, compression, name_parse (sections 3.1 and 4.1.4 of RFC 1035) |
| `DnsLedger.dfy` | requests in flight and waiting, nameservers |
| `RateLimit.dfy`, `RateLimitBev.dfy`, `RateLimitRun.dfy`, `RateGroup.dfy` | token buckets, the refill timer, the group protocol |
| `TagCodec.dfy`, `Tagging.dfy`, `TagItems.dfy` | the tagged wire format on buffers |
| `HashTable.dfy` | the chained hash table and both rehash paths |
| `LinkedList.dfy` | circular doubly linked lists on the heap |
| `Bytes.dfy`, `Prelude.dfy` | octets, an option type, powers of two |

## Where the code differs from what is promised

Each of these is a statement for all inputs with its exact condition.

- `evbuffer_add`, `evbuffer_add_reference`, `evbuffer_remove_buffer` and
  `evbuffer_commit_space` can leave `last_with_datap` stale when empty chains stand
  behind the data, and `evbuffer_add` can drop bytes when two of them do
  (`Evbuffer.Buffer.Add`, `Evbuffer.Buffer.AddReference`,
  `Evbuffer.Buffer.RemoveBuffer`, `Evbuffer.Buffer.CommitSpace`;
  `EvbufferRun.StaleAfterAdd` and `EvbufferRun.LostAfterAdd` get there by calls).
- `evbuffer_commit_space` refuses what `evbuffer_reserve_space` gave out as one vector
  when that passed over some room and is not in the last chain
  (`EvbufferRead.ReserveWriteCommit`, `EvbufferRead.RefusedCommit`).
- The comment on the wire format in `event_tagging.c` has tags and integers with their
  highest part first; the code writes the lowest first (`TagCodec.TagExample`,
  `TagCodec.IntExample`, `TagCodec.TagBytes`, `TagCodec.IntBytes`).
- Deleting one of two interests drops `EPOLLET` (`Evmap.EdgeTriggerKept`,
  `EvmapRun.WriterComesAndGoes`).
- A DNS name with an empty interior label is cut short (`DnsName.MeaningIsName`), and
  pointers to offsets from 0x4000 on read back wrong (`DnsEncode.PointerRoundTrip`).
- The zero byte behind the last label is stored without a check of the buffer
  (`DnsEncode.ZeroPastEnd`, `DnsEncode.OneLetterSpills`), and `name_parse` copies a
  label without a check of the packet (`DnsParse.NameParse`, `DnsParse.ShortPacketStrays`).
- `decode_tag_internal` reads on behind the five bytes it pulled up
  (`Tagging.TagEndsWhen`, `Tagging.SixHighBytes`).
- The refill of a bucket above its maximum wraps around, and can leave it empty with
  no one to wake it (`RateLimit.RefillIsCapped`, `RateLimit.RefillAboveMaximum`,
  `RateLimit.RefillEmpties`, `RateLimitRun.RefundForgets`).
- The allowance of a configured limit is not capped at 16384 bytes
  (`RateLimitBev.Bev.Allowance`).
- `HT_GROW` looks behind its table of primes for sizes from the last load limit on
  (`HashTable.NextSize`), though no insertion makes it (`HashTable.Table.Insert`).
- `list_cut_position` on an empty list leaves the receiving list as it was
  (`LinkedList.CutThenSplice`).
- An internal event with a priority other than 0 lets less urgent events run first
  (`EventLoop.Turn`, `EventLoop.InternalOutOfPlace`).

To check the whole project: `dafny verify dfyconfig.toml`.

## Model

| member | source | states |
|---|---|---|
| `Evbuffer.AllocSize` | libevent/buffer.c:154-189 | the least doubling of MIN_BUFFER_SIZE that holds header and data, or just enough from half of EVBUFFER_CHAIN_MAX on |
| `Evbuffer.Buffer.ExtendLast` | libevent/buffer.c:1577-1585 | bytes stored in the last chain are appended to the contents; the stated invariant survives exactly when no empty chain stood behind the data |
| `Evbuffer.Buffer.ChainInsert` | libevent/buffer.c:290-319 | from any state the new chain takes the place of the first victim and of all behind it; from a state with the invariant no byte is lost, and the invariant survives exactly when the chain is empty or the kept chains are none or all |
| `Evbuffer.Buffer.Add` | libevent/buffer.c:1543-1634 | for every buffer: fails exactly when frozen or too long, changing nothing; else the bytes are appended if and only if Loses does not hold, and otherwise just the part that fitted in the last chain, and what stood behind the victim, is gone; the stated invariant survives if and only if StaysValid |
| `Evbuffer.Buffer.AddInNewChain` | libevent/buffer.c:1602-1627 | the part that needs another chain, from any state: the last chain is filled, then evbuffer_chain_insert may replace it; the new chain is no smaller, and twice as large up to EVBUFFER_CHAIN_MAX_AUTO_SIZE |
| `Evbuffer.ShapeContents` | libevent/buffer.c:1561-1627 | what evbuffer_add does to the chains gives the right contents, and the right length, if and only if nothing is lost; and what is left otherwise |
| `Evbuffer.ShapeValid` | libevent/buffer.c:1561-1627 | where the stated invariant held, it holds after an add if and only if StaysValid |
| `Evbuffer.ShapePacked` | libevent/buffer.c:1561-1627 | on buffers whose last chain holds the last data nothing is lost and packing is kept |
| `Evbuffer.ShapeStale` | libevent/buffer.c:1561-1627 | a last_with_datap that stands before an empty chain and data is not mended by adding |
| `Evbuffer.Buffer.AddReference` | libevent/buffer.c:2740-2777 | append of caller memory as a read-only chain, to every buffer with the invariant; exactly when the invariant survives |
| `Evbuffer.Buffer.Prepend` | libevent/buffer.c:1636-1716 | bytes in front of the contents, none included, using the misalign gap first; fails exactly when frozen or too long |
| `Evbuffer.Buffer.PushFirst` | libevent/buffer.c:1693-1708 | the remaining bytes in a new first chain, last_with_datap moved along |
| `Evbuffer.Buffer.Drain` | libevent/buffer.c:958-1026 | drops the first min(n, length) bytes and nothing else; the invariant, tightness and packing survive the freeing of chains and the reset of last_with_datap |
| `Evbuffer.Buffer.FindCut` | libevent/buffer.c:988-1010 | the loop that finds the chain in which the cut falls, which is the number of chains that lie wholly in front of it, and where last_with_datap goes |
| `Evbuffer.Buffer.CutFront` | libevent/buffer.c:1126-1153 | whole chains in front of the cut leave in order, the rest keeps the invariant |
| `Evbuffer.Buffer.CopyOut` | libevent/buffer.c:1043-1088 | returns the first min(n, length) bytes, across chains |
| `Evbuffer.Buffer.Remove` | libevent/buffer.c:1028-1041 | copy and drop together: what is returned and what is left make up the old contents |
| `Evbuffer.Buffer.ZeroChain` | libevent/buffer.c:745-752 | an empty buffer with the invariant |
| `Evbuffer.Buffer.TakeChains` | libevent/buffer.c:820-864 | COPY_CHAIN, APPEND_CHAIN and PREPEND_CHAIN on values: chains of the other buffer behind or in front, contents concatenated, last_with_datap right |
| `Evbuffer.Buffer.AddBuffer` | libevent/buffer.c:866-910 | all bytes move to the end of the other buffer and none is lost or duplicated; both keep invariant and packing; frozen ends fail without effect |
| `Evbuffer.Buffer.PrependBuffer` | libevent/buffer.c:912-956 | all bytes move to the front of the other buffer, likewise |
| `Evbuffer.Buffer.Adopt` | libevent/buffer.c:1140-1157 | freeing of empty chains, appending and advance_last_with_data, into every buffer with the invariant; it survives if and only if no data stands behind an empty chain |
| `Evbuffer.Buffer.PassFront` | libevent/buffer.c:1126-1153 | the source side: whole chains are unlinked unless none of them has data, and exactly when last_with_datap has gone wrong |
| `Evbuffer.Buffer.MoveFront` | libevent/buffer.c:1126-1176 | between every two buffers with the invariant: the source keeps the right bytes; exactly when the receiver has the right bytes and when either invariant survives |
| `Evbuffer.Buffer.RemoveBuffer` | libevent/buffer.c:1090-1181 | splits the contents at min(n, length) for every two buffers with the invariant; if and only if conditions for the received bytes and for both invariants, and that packed buffers meet them |
| `Evbuffer.Buffer.Gather` | libevent/buffer.c:1222-1268 | the loop of evbuffer_pullup: one chain with the bytes of the chains it replaces, and which of last_with_datap and its slot went with them |
| `Evbuffer.PulledFlat` | libevent/buffer.c:1255-1277 | gathering the first chains and part of the next changes no byte |
| `Evbuffer.PulledSlot` | libevent/buffer.c:1279-1286 | the three ways of setting last_with_datap after a pullup are right |
| `Evbuffer.Buffer.Pullup` | libevent/buffer.c:1183-1293 | contents unchanged; succeeds exactly for a size between 1 and the length, and then that many bytes are in the first chain |
| `Evbuffer.Buffer.ExpandSingleChain` | libevent/buffer.c:1742-1853 | contents unchanged, and one writable chain at or right behind the data has the room asked for; last_with_datap and chains that are full or hold more than 2048 bytes are not touched; which chain it is |
| `Evbuffer.TryRoom` | libevent/buffer.c:1878-1903 | the loop of _evbuffer_expand_fast: empty chains are realigned, and the space and the number of chains that count are those of the chains passed |
| `Evbuffer.Buffer.ExpandFast` | libevent/buffer.c:1855-1965 | contents and last_with_datap unchanged, and the chains from the last data chain on have the room in at most the number asked for |
| `Evbuffer.Buffer.CommitAt` | libevent/buffer.c:717-730 | committed extents are appended in order and the invariant holds |
| `Evbuffer.Buffer.CommitLast` | libevent/buffer.c:685-696 | the shortcut for one extent: bytes appended; the invariant survives exactly when the last chain is at most one behind the last data chain |
| `Evbuffer.Buffer.CheckVecs` | libevent/buffer.c:698-716 | accepts exactly extents that lie at the free space of consecutive chains |
| `Evbuffer.Buffer.CommitSpace` | libevent/buffer.c:669-737 | fails leaving everything unchanged, or extends the contents by the committed bytes in order; exact condition for the invariant |
| `EvbufferRead.SetupVecs` | libevent/buffer.c:2031-2065 | behind _evbuffer_expand_fast no chain is missing: the vectors are the free spaces of the chains from the first with room on, enough for howmuch bytes, and no more if exact |
| `EvbufferRead.ReserveSpace` | libevent/buffer.c:620-651 | fails exactly when frozen or without vectors; contents unchanged and room in the vectors; where they lie |
| `EvbufferRead.Accepted` | libevent/buffer.c:684-715 | what was used of vectors from a chain on is accepted if and only if it is the first chain with room, or the only vector is in the last chain |
| `EvbufferRead.ReserveWriteCommit` | libevent/buffer.c:620-737 | reserve, write, commit appends the bytes and keeps the invariant, and is refused if and only if one vector was asked for, the last data chain has some room but not enough, and two chains stand behind it |
| `EvbufferRead.RefusedCommit` | libevent/buffer.c:684-715 | such a refused commit, built by calls |
| `EvbufferRead.Store` | libevent/buffer.c:2150-2154 | readv fills the vectors in order and changes no data |
| `EvbufferRead.TakeIn` | libevent/buffer.c:2184-2208 | the loop behind readv makes just the bytes that were read data, in order, and keeps the invariant |
| `EvbufferRead.Read` | libevent/buffer.c:2088-2218 | -1 exactly when frozen or failed; else the first bytes that arrive are appended, as many as there are up to howmuch, FIONREAD and 4096, and nothing else changes |
| `EvbufferRun.StaleAfterAdd` | libevent/buffer.c:1543-1634 | add until a chain is full, expand, add: built by these calls the stated invariant is broken |
| `EvbufferRun.LostAfterAdd` | libevent/buffer.c:1543-1634 | expand twice behind a full chain and add more than fits: bytes of the addition are gone |
| `EvbufferRun.Perform` | libevent/buffer.c:745-1293 | one operation on either of two buffers has the effect it has on two flat strings |
| `EvbufferRun.Run` | libevent/buffer.c:866-1716 | every run of adds, prepends, drains, moves both ways, partial moves and pullups on two buffers ends with the contents of the same run on two flat strings |
| `EvbufferHeap.HeapBuffer.CopyChain` | libevent/buffer.c:820-832 | first, last and last_with_datap of the other list, with &src->first turned into &dst->first: the invariant holds of the same links |
| `EvbufferHeap.HeapBuffer.AppendChain` | libevent/buffer.c:834-846 | the links of both lists in order, last_with_datap leading to the same chain as in the source, which was &src->first or the next field of one of its chains |
| `EvbufferHeap.HeapBuffer.PrependChain` | libevent/buffer.c:848-864 | the links of the source in front; &dst->first becomes the next field of the last source chain |
| `EvbufferHeap.HeapBuffer.AddBuffer` | libevent/buffer.c:866-910 | the chains of the other buffer, moved by links, behind those of this one, and nothing left there |
| `EvbufferHeap.HeapBuffer.PrependBuffer` | libevent/buffer.c:912-956 | likewise in front |
| `EvbufferHeap.HeapBuffer.FirstVictim` | libevent/buffer.c:301-304 | the walk over pointers to pointers stops at the field that leads to the first victim |
| `EvbufferHeap.HeapBuffer.ChainInsert` | libevent/buffer.c:290-319 | from any linked state, what the operation on values does: same chains, same place of last_with_datap |
| `EvbufferHeap.HeapBuffer.PassOver` | libevent/buffer.c:988-1010 | the walk of evbuffer_drain: last_with_datap is taken back to &buf->first exactly when it led to or out of a chain passed over |
| `EvbufferHeap.HeapBuffer.CutFront` | libevent/buffer.c:980-1015 | the links from the cut on, untouched, with last_with_datap leading to the same chain as before |
| `EvbufferHeap.HeapBuffer.Drain` | libevent/buffer.c:958-1026 | drops the first min(n, length) bytes, or fails when frozen |
| `EvbufferHeap.Splice` | libevent/buffer.c:839-839 | one assignment to a next field makes two lists one |
| `EvbufferSearch.PtrSet` | libevent/buffer.c:2449-2494 | succeeds exactly for positions inside the contents, and then points at that byte |
| `EvbufferSearch.PtrMemcmp` | libevent/buffer.c:2496-2534 | true exactly when the pattern occurs at the pointer, however chains cut it |
| `EvbufferSearch.SearchRange` | libevent/buffer.c:2542-2605 | the least position from start on where the pattern occurs wholly before the end pointer, or -1 when there is none |
| `EvbufferLines.FindEolChar` | libevent/buffer.c:1327-1352 | the 128-byte chunked scan finds the first CR or LF, as a byte by byte scan does |
| `EvbufferLines.ScanFor` | libevent/buffer.c:1305-1325 | first wanted byte at or behind the pointer, across chains, or none |
| `EvbufferLines.StrSpn` | libevent/buffer.c:1376-1413 | the length of the run of CR and LF bytes, across chains |
| `EvbufferLines.SearchCrlf` | libevent/buffer.c:1439-1476 | first LF, with a CR before it taken into the terminator |
| `EvbufferLines.SearchStrict` | libevent/buffer.c:1453-1459 | first CR LF, with its chain and the place in it |
| `EvbufferLines.SearchEol` | libevent/buffer.c:1425-1498 | in every style the first terminator at or behind start and its length, as a position with its chain and the place in it, or none anywhere |
| `EvbufferLines.StrictIsOccurrence` | libevent/buffer.c:1453-1458 | a strict terminator is an occurrence of the two-byte string CR LF |
| `EvbufferLines.Readln` | libevent/buffer.c:1500-1537 | no line and nothing changed, or line, terminator and new contents make up the old contents, cut at the first terminator of the style |
| `Evmap.ApplyOneRight` | libevent/epoll.c:173-330 | one pending change brings the kernel from what the change says was watched to what it asks for, touches no other fd, and never fails |
| `Evmap.ApplyOneHeals` | libevent/epoll.c:258-318 | for every kernel, whether it has the fd or not: a change that asks for something succeeds, by the retries of MOD as ADD and ADD as MOD, and the fd is watched for just what is wanted, with the edge-triggering asked for |
| `Evmap.FlushHeals` | libevent/epoll.c:332-349 | whatever the kernel knew before, a flush brings every fd with a change to what its change asks for |
| `Evmap.EdgeTriggerKept` | libevent/epoll.c:234-257 | EPOLLET survives a change exactly when the change adds something or does nothing |
| `Evmap.CountsAreSizes` | libevent/evmap.c:277-331 | nread and nwrite are the numbers of live events of the fd that read and write |
| `Evmap.CountsRemove` | libevent/evmap.c:346-366 | taking an event out of a list lowers exactly the counts it was in |
| `Evmap.AppendTargets` | libevent/evmap.c:611-644 | a fresh change for an fd that had none is found by its index and changes what will be watched on that fd only |
| `Evmap.MarkTargets` | libevent/evmap.c:646-726 | other marks in a change retarget its fd only |
| `Evmap.FlushStep` | libevent/epoll.c:332-349 | applying change i settles its fd and no other |
| `Evmap.FlushEnd` | libevent/epoll.c:332-349 | with all changes applied and all indices cleared the kernel watches what was to be watched |
| `Evmap.Base.MakeSpace` | libevent/evmap.c:198-223 | the least doubling of the map, or of 32 slots, that has the slot; the new slots are empty and nothing else changes |
| `Evmap.Base.GetOrConstruct` | libevent/evmap.c:611-644 | finds the one change of an fd by idxplus1, or appends one that changes nothing |
| `Evmap.Base.ChangelistAdd` | libevent/evmap.c:646-675 | queued addition: what will be watched on the fd gains the events, and which record the queue then holds |
| `Evmap.Base.ChangelistDel` | libevent/evmap.c:677-726 | queued deletion: what will be watched loses the events, whatever was pending; deleting what was only queued leaves no mark |
| `Evmap.Base.Direct` | libevent/epoll.c:351-383 | immediate change with the same effect on what is watched |
| `Evmap.Base.IoAdd` | libevent/evmap.c:262-331 | the event joins the map unless a 16-bit counter is full; counters, index and targets stay right; the back end is told exactly when a first reader or writer comes, and what |
| `Evmap.Base.IoDel` | libevent/evmap.c:333-387 | -1 exactly for an fd beyond the map; else the event leaves the map and the back end is told exactly when what is wanted changes, and what |
| `Evmap.Base.ApplyChanges` | libevent/epoll.c:332-349 | all pending changes applied in order |
| `Evmap.Base.RemoveAll` | libevent/evmap.c:559-578 | every index cleared, no change left |
| `Evmap.Base.Flush` | libevent/epoll.c:402-403 | apply and clear together keep the invariant with nothing pending; the kernel is that after all queued changes in order |
| `EvmapRun.Settled` | libevent/evmap.c:262-387 | with nothing pending the kernel watches READ exactly on fds with a live reader and WRITE exactly on fds with a live writer |
| `EvmapRun.Run` | libevent/evmap.c:262-387 | for either back end, after every script of adds, deletes and dispatches and a final flush, the kernel interest is that of the live events |
| `EvmapRun.RunBoth` | libevent/epoll.c:173-383 | queueing and flushing gives the same kernel map as applying each change at once |
| `EvmapRun.WriterComesAndGoes` | libevent/epoll.c:234-257 | by calls of evmap_io_add and evmap_io_del on either back end: a writer added and deleted beside an edge-triggered reader costs the direct one the EPOLLET bit and the queue not |
| `EvmapRun.WantedIsWatched` | libevent/evmap.c:277-331 | the counters of an fd say exactly what its live events ask for |
| `DnsName.MeaningIsName` | libevent/evdns.c:1574-1649 | the labels written for a name join to the name exactly when it has no empty interior label |
| `DnsName.EmptyLabelCuts` | libevent/evdns.c:1574-1649 | the name a..b is read back as a |
| `DnsName.MeaningLength` | libevent/evdns.c:1574-1649 | what is read back is never longer than what was written |
| `DnsParse.NameAtUnique` | libevent/evdns.c:943-997 | a place in a packet denotes at most one name (section 4.1.4 of RFC 1035) |
| `DnsParse.NameAtExtend` | libevent/evdns.c:943-997 | bytes appended to a packet change no name in it |
| `DnsParse.NameParse` | libevent/evdns.c:943-997 | on every packet: succeeds exactly when a name is there that fits and takes no more pointers than the packet has bytes, and gives its dotted form and its end (DnsParse.PointerLeads says over the bytes where a pointer goes); the unchecked memcpy leaves the packet exactly when Strays says so |
| `DnsParse.PointerLeads` | libevent/evdns.c:959-976 | over the bytes: for every t below 0x4000, bytes with an upper bit and t / 256, then t % 256, denote the names at t with one more pointer (section 4.1.4 of RFC 1035) |
| `DnsParse.ReadPointer` | libevent/evdns.c:943-997 | a 17-byte packet with the name a at 12 and a pointer at 15: the name is a and ends at 17 |
| `DnsParse.CopyLabel` | libevent/evdns.c:978-986 | a label is refused without room, or when the packet ends before the name does; when its copy leaves the packet |
| `DnsParse.ShortPacketStrays` | libevent/evdns.c:984-984 | a packet of one byte that announces three more |
| `DnsParse.NoStray` | libevent/evdns.c:959-986 | where the way through labels and pointers ends, no label is cut off |
| `DnsEncode.PointerRoundTrip` | libevent/evdns.c:1612-1615 | the pointer bytes, high part with both upper bits first, read back as their offset exactly for offsets below 0x4000 |
| `DnsEncode.DnsnameToLabels` | libevent/evdns.c:1574-1649 | for a buffer of exactly buf_len bytes or more: writes the encoding of the name behind what was there and grows the table, or fails with the right code; where the table has the name at t below 0x4000 the bytes are 192 + t / 256 and t % 256; says when the last zero byte is stored behind the buffer |
| `DnsEncode.EncodeBytes` | libevent/evdns.c:1574-1649 | every byte that is written, without the encoder: lengths for dots up to the first end of the name that the table has, then the two bytes of its offset, or in full with a zero byte |
| `DnsEncode.WrittenAgain` | libevent/evdns.c:1559-1618 | a name written again through a table with room takes two bytes, which lead to where it stood first |
| `DnsEncode.FailsFor` | libevent/evdns.c:1574-1649 | -1 only for a label of more than 63 bytes, -2 only without room |
| `DnsEncode.ZeroPastEnd` | libevent/evdns.c:1620-1645 | the unchecked zero byte lands at buf_len if and only if the name is not empty, does not end in a dot, has short labels, fills the buffer up to its last byte, and no end of it is in the table |
| `DnsEncode.OneLetterSpills` | libevent/evdns.c:1645-1645 | a one-letter name in a buffer of two bytes stores three |
| `DnsEncode.RequestNeverSpills` | libevent/evdns.c:1654-1660 | a buffer of evdns_request_len bytes is never left, and only a long label fails |
| `DnsEncode.Terminate` | libevent/evdns.c:1642-1646 | the last store, inside the array or just behind it |
| `DnsRoundTrip.EncodeDenotes` | libevent/evdns.c:1574-1649 | what the encoder wrote denotes the name, through backward pointers only |
| `DnsRoundTrip.EncodeKeepsTable` | libevent/evdns.c:1543-1572 | every table entry denotes its name at its offset with fewer pointers than the offset |
| `DnsEncode.EncodeFits` | libevent/evdns.c:1574-1649 | a result takes at most two bytes more than the name, and a name with short labels never fails when there is room for that |
| `DnsRoundTrip.WriteItem` | libevent/evdns.c:1586-1649 | one name, or other bytes, written behind the packet so far, in a buffer of exactly the length that is checked |
| `DnsRoundTrip.Compose` | libevent/evdns.c:1527-1649 | a series of names through one shared table: each is readable at its start, with its end |
| `DnsRoundTrip.ReadBack` | libevent/evdns.c:943-997 | name_parse at every start returns that very name and the end that the encoder reported |
| `DnsLedger.Resolver.FindFromTransId` | libevent/evdns.c:478-493 | looking in one bucket finds a request exactly when some request in flight has the id |
| `DnsLedger.Resolver.TransactionIdPick` | libevent/evdns.c:1302-1315 | an id below 0xffff that is not in flight |
| `DnsLedger.Resolver.NameserverPick` | libevent/evdns.c:1317-1354 | none exactly without servers; else the first one up, which is turned to the back, or the next one when all are down; the servers and which are up do not change |
| `DnsLedger.ChosenIsEligible` | libevent/evdns.c:1317-1354 | what is picked is a server, and one that is up if any is |
| `DnsLedger.Resolver.Pump` | libevent/evdns.c:733-759 | requests move from the front of the queue while there is room and a server; the lists in flight only grow, by requests that go to servers that are up if any is; none is lost; it stops only when full, drained or without servers |
| `DnsLedger.Resolver.Submit` | libevent/evdns.c:2695-2789 | in flight exactly when there is room and a nameserver, last in its list and with the server that nameserver_pick has the turn of; else last in the queue; counted once |
| `DnsLedger.Resolver.ToInflight` | libevent/evdns.c:2776-2783 | last in the bucket of its id, with all ids in flight distinct, for one of the servers |
| `DnsLedger.Resolver.Finish` | libevent/evdns.c:647-698 | the nameserver field tells the list; exactly that request leaves the books, and the queue is pumped |
| `DnsLedger.Resolver.SetMaxInflight` | libevent/evdns.c:3329-3358 | the same requests in flight, each in the bucket of its id for the new number of buckets |
| `DnsLedger.Redistribute` | libevent/evdns.c:3343-3351 | moving every list empties none of its requests away and places each rightly |
| `DnsLedger.Resolver.Suspend` | libevent/evdns.c:2373-2436 | nothing in flight; every request waits again without server and id, each in the place its bucket and its place there give, in front of those that waited before, which keep their order |
| `DnsLedger.Resolver.NameserverFailed` | libevent/evdns.c:555-614 | exactly the requests of this server that were not sent yet are given to one that is up, if one is; all stay in flight and in place; the count of good servers is right |
| `DnsLedger.Resolver.AddServer` | libevent/evdns.c:2519-2530 | the new server stands behind server_head and is counted |
| `DnsLedger.Run` | libevent/evdns.c:647-759 | in every run the counts are the list lengths, requests are in flight exactly when they have a nameserver, which is one of the base, each in the bucket of its id, and the books hold what was submitted and not finished |
| `RateLimit.RefillIsCapped` | libevent/bufferevent_ratelim.c:72-110 | refill by division equals min(maximum, limit + ticks * rate) exactly when the limit is at most the maximum, or the wrapped difference is small enough |
| `RateLimit.RefillAboveMaximum` | libevent/bufferevent_ratelim.c:88-100 | a limit above the maximum grows further |
| `RateLimit.RefillEmpties` | libevent/bufferevent_ratelim.c:88-100 | a bucket with something in it is left empty by a refill if and only if it was above its maximum and the sum wraps below zero |
| `RateLimit.FullBucketEmpties` | libevent/bufferevent_ratelim.c:88-100 | the fullest bucket and one tick |
| `RateLimit.TicksAcrossWrap` | libevent/bufferevent_ratelim.c:76-81 | the 32-bit difference is the time that passed, across a wrap |
| `RateLimit.Paid` | libevent/bufferevent_ratelim.c:199-310 | what is charged over a run is covered by the starting limit and the refills |
| `RateLimit.WindowBound` | libevent/bufferevent_ratelim.c:199-310 | in any window of any run charged within the allowance, bytes are at most maximum + ticks * rate |
| `RateLimitBev.Bev.Suspend` | libevent/bufferevent.c:65-111 | a flag added; the back end stops |
| `RateLimitBev.Bev.Unsuspend` | libevent/bufferevent.c:65-111 | a flag removed; the back end runs again exactly when enabled and nothing else suspends it |
| `RateLimitBev.Bev.Enable` | libevent/bufferevent.c:407-430 | enabling keeps the invariant: a direction runs exactly when enabled and not suspended |
| `RateLimitBev.Bev.Disable` | libevent/bufferevent.c:497-510 | disabling keeps the invariant, likewise |
| `RateLimitBev.Bev.Update` | libevent/bufferevent_ratelim.c:72-123 | each bucket, reading and writing, that was within its maximum becomes min(maximum, limit + ticks * rate) in machine arithmetic; the wake-up invariant survives if and only if no bucket is left empty that is not suspended, and buckets within their maximum only grow and stay there |
| `RateLimitBev.ToppedGains` | libevent/bufferevent_ratelim.c:72-123 | for each direction the refill is the capped sum |
| `RateLimitBev.Bev.Allowance` | libevent/bufferevent_ratelim.c:199-260 | both buckets refilled, each to min(maximum, limit + ticks * rate); the result is the refilled limit of the direction, or the fixed cap without a limit, never negative; it exceeds the cap if and only if a limit is configured and the bucket holds more |
| `RateLimitBev.Bev.Charge` | libevent/bufferevent_ratelim.c:274-348 | the bucket pays, or is refunded, to whatever level; the direction is suspended for bandwidth exactly when it is empty, with the timer pending exactly for that; which refunds lift a bucket over its maximum |
| `RateLimitBev.Bev.DecrementLimit` | libevent/bufferevent_ratelim.c:900-954 | a direct decrement: the suspension changes exactly when the bucket becomes empty or is no longer |
| `RateLimitBev.Bev.RefillCallback` | libevent/bufferevent_ratelim.c:393-441 | both buckets refilled, each to min(maximum, limit + ticks * rate); a direction stopped for bandwidth is free of that exactly when its sum is positive; the timer stays pending exactly while one is not; when the invariant survives for overfull buckets |
| `RateLimitBev.Bev.SetRateLimit` | libevent/bufferevent_ratelim.c:558-635 | a new or dropped configuration leaves no direction stopped without a timer, and no bucket over its new maximum |
| `RateLimitBev.Bev.Install` | libevent/bufferevent_ratelim.c:577-632 | limits carried over or fresh, flags settled by them, timer pending as needed |
| `RateLimitRun.Run` | libevent/bufferevent_ratelim.c:274-635 | the states of every run: each follows from the one before as Next says of its step, and in each an empty bucket has suspended its direction, no bucket is over its maximum, the timer is pending exactly when bandwidth suspends a direction, and a direction runs exactly when enabled and unsuspended |
| `RateLimitRun.Perform` | libevent/bufferevent_ratelim.c:274-635 | each method moves the fields exactly as the step does in the transition system |
| `RateLimitRun.RefundForgets` | libevent/bufferevent_ratelim.c:88-100 | by calls: a refund over the maximum and one tick leave reading running on an empty bucket with no timer |
| `RateGroup.InvNext` | libevent/bufferevent_ratelim.c:350-556 | every step of suspend, unsuspend, two-step join, leave and allowance check, with any try-lock failing against a holder, keeps the invariant |
| `RateGroup.NeverForgotten` | libevent/bufferevent_ratelim.c:731-806 | in every state of every interleaving with the group lock free, a member with BEV_SUSPEND_BW_GROUP has a suspended group or a pending unsuspend; with RateGroup.SuspendSweep and RateGroup.UnsuspendSweep, which say what sweeps achieve |
| `RateGroup.SuspendSweep` | libevent/bufferevent_ratelim.c:350-373 | in every run, at the end of a suspend sweep every member whose lock was taken is stopped, and every member is stopped or was held by another thread |
| `RateGroup.UnsuspendSweep` | libevent/bufferevent_ratelim.c:462-525 | in every run, at the end of an unsuspend sweep no member whose lock was taken is stopped, another unsuspend is pending if and only if some lock was not to be had, and without one nobody is stopped |
| `RateGroup.AllowanceStops` | libevent/bufferevent_ratelim.c:229-243 | in every run, a member that asks for its allowance is stopped if the group is suspended, and no other flag changes |
| `RateGroup.JoinStops` | libevent/bufferevent_ratelim.c:731-776 | in every run, one that has joined is a member, and is stopped exactly if the group was suspended when it began to join |
| `RateGroup.LeaveFrees` | libevent/bufferevent_ratelim.c:784-806 | in every run, one that has left is no member and not stopped by the group |
| `RateGroup.StopAndGo` | libevent/bufferevent_ratelim.c:350-556 | a run in which a member joins, is stopped by its group and goes on |
| `RateGroup.RotatedMembers` | libevent/bufferevent_ratelim.c:443-485 | the rotated order has the same members |
| `RateGroup.VisitAll` | libevent/bufferevent_ratelim.c:443-485 | the traversal from a random member visits each member exactly once |
| `TagCodec.EncodeInt` | libevent/event_tagging.c:115-148 | the nibble loop writes the encoding: count, then nibbles from the lowest |
| `TagCodec.IntBytes` | libevent/event_tagging.c:115-136 | every byte of the encoding: the number of digits less one over the lowest digit, then the digits in pairs, lower one in the high half |
| `TagCodec.IntExample` | libevent/event_tagging.c:115-136 | 0x166 is 26 61: lowest digit first, where the comment at lines 87-91 has the highest first |
| `TagCodec.IntRoundTrip` | libevent/event_tagging.c:306-341 | an encoded integer reads back, with its length, whatever follows |
| `TagCodec.DecodeInt` | libevent/event_tagging.c:306-341 | length and value of the integer in front, or -1 exactly when it is too long or cut off |
| `TagCodec.EncodeTag` | libevent/event_tagging.c:171-192 | seven bits a byte, lowest first, high bit on all but the last |
| `TagCodec.TagBytes` | libevent/event_tagging.c:171-192 | every byte of a tag: seven bits from the lowest on, plus 128 in all but the last, and as few as possible |
| `TagCodec.TagExample` | libevent/event_tagging.c:171-192 | 0x166 is E6 02, where the comment at lines 81-83 has 82 66 |
| `TagCodec.EncTagLength` | libevent/event_tagging.c:171-192 | a 32-bit tag takes at most five bytes |
| `TagCodec.TagRoundTrip` | libevent/event_tagging.c:194-233 | an encoded tag reads back, with its length, whatever follows |
| `TagCodec.DecodeTag` | libevent/event_tagging.c:194-233 | length of the tag in front, or 0 when it does not end, and its value modulo 2^32; whether the loop stays inside the bytes that were pulled up |
| `Tagging.Marshal` | libevent/event_tagging.c:247-254 | tag, length and payload are appended, in this order and each in its encoding |
| `Tagging.WireExample` | libevent/event_tagging.c:247-254 | three bytes under the tag 0x166 |
| `Tagging.DecodeTagFrom` | libevent/event_tagging.c:194-233 | the tag in front of any buffer, drained or not; the loop stays inside what was pulled up if and only if TagEnds |
| `Tagging.TagEndsWhen` | libevent/event_tagging.c:207-221 | that is so if and only if there are at most five bytes or one of the first five has its high bit clear |
| `Tagging.SixHighBytes` | libevent/event_tagging.c:212-221 | six bytes with the high bit set: the sixth is read |
| `Tagging.DecodeIntFrom` | libevent/event_tagging.c:352-364 | the integer at an offset of a buffer, whose contents stay |
| `Tagging.HeadOfWire` | libevent/event_tagging.c:428-442 | an item is taken apart into the tag, length and payload it was made of |
| `Tagging.UnmarshalHeader` | libevent/event_tagging.c:428-442 | for any buffer whose tag ends: tag and length are consumed; -1 for a bad tag, a bad length or too few bytes; a length of 2^31 or more comes back negative |
| `Tagging.PeekLength` | libevent/event_tagging.c:392-408 | for any buffer whose tag ends: the bytes of header and payload together modulo 2^32, with nothing consumed |
| `Tagging.Unmarshal` | libevent/event_tagging.c:457-471 | for any buffer whose tag ends: the payload moves to the destination, or, for a bad header, too few bytes or 2^31 bytes and more, nothing beyond the header is consumed and the destination is as it was |
| `Tagging.UnmarshalInt` | libevent/event_tagging.c:475-525 | for any buffer whose tag ends: succeeds exactly for the tag asked for with an integer in front of its payload, and leaves what follows the payload |
| `Tagging.UnmarshalTimeval` | libevent/event_tagging.c:570-596 | for any buffer whose tag ends: the payload is consumed in any case; success exactly for the tag and two integers inside it; a length of 2^31 or more drains what a buffer can hold, except the largest, which drains nothing |
| `TagItems.Put` | libevent/event_tagging.c:247-304 | each kind of item is appended as its image |
| `TagItems.TimeExample` | libevent/event_tagging.c:294-304 | a timeval: seconds, then microseconds, in one payload |
| `TagItems.Take` | libevent/event_tagging.c:457-596 | the reader for its kind returns the very item and leaves what follows; the peeked length is its size |
| `TagItems.ImagesSplit` | libevent/event_tagging.c:247-304 | images of a sequence concatenate |
| `TagItems.RoundTrip` | libevent/event_tagging.c:247-596 | any sequence of byte payloads, 32- and 64-bit integers and timevals is read back as it was written, and the bytes behind it stay |
| `HashTable.NextSize` | libevent/ht-internal.h:322-327 | the next prime whose load limit is above the size; the search leaves the table of primes if and only if the size is at least the load limit of the last one |
| `HashTable.RehashFresh` | libevent/ht-internal.h:328-345 | the new table has the same elements, each in the bucket its hash names |
| `HashTable.RehashInPlace` | libevent/ht-internal.h:346-366 | the same when chains are sorted out in place; the loops end |
| `HashTable.Table.Grow` | libevent/ht-internal.h:312-371 | same elements and count; the load limit is above the size or the table is the largest; exactly when the search leaves the table of primes |
| `HashTable.Table.FindP` | libevent/ht-internal.h:139-152 | finds an element exactly when the plain map has its key |
| `HashTable.Table.Find` | libevent/ht-internal.h:155-163 | answers as a plain map |
| `HashTable.Table.Insert` | libevent/ht-internal.h:166-177 | one more element, in a table of any load; the search for a size never leaves the table of primes; the 32-bit count is right exactly below 2^32 elements |
| `HashTable.Table.MakeRoom` | libevent/ht-internal.h:169-171 | the test for growth leaves room under the load limit, or the largest table |
| `HashTable.Table.Remove` | libevent/ht-internal.h:202-214 | returns and removes the element of the key, if there is one |
| `HashTable.Table.Next` | libevent/ht-internal.h:262-275 | the element after this one is passed next; its bucket is found from its hash |
| `HashTable.Table.NextRmv` | libevent/ht-internal.h:277-293 | removes the element and stands where the next one is |
| `HashTable.Table.Sweep` | libevent/ht-internal.h:246-293 | a traversal that removes on its way meets every element once and leaves the others |
| `HashTable.Table.RepIsBad` | libevent/ht-internal.h:384-417 | reports nothing exactly when sizes agree, the load is within its limit, every element is in its bucket and the count is right; a table in use is reported exactly when it is loaded over its limit |
| `HashTable.Run` | libevent/ht-internal.h:139-371 | in every run of insert, remove, find and grow, by either rehash, every answer is that of a plain map |
| `LinkedList.RotateParts` | include/list.h:18-22 | a ring may be opened anywhere |
| `LinkedList.Insert` | include/list.h:24-32 | the ring with the entry between the two nodes |
| `LinkedList.Add` | include/list.h:42-45 | the entry right behind the head |
| `LinkedList.AddTail` | include/list.h:55-58 | the entry right before the head |
| `LinkedList.Unlink` | include/list.h:67-71 | the ring closes over the node |
| `LinkedList.Del` | include/list.h:78-83 | the rest is a ring; the entry is poisoned |
| `LinkedList.DelInit` | include/list.h:112-116 | the rest is a ring, and the entry is one by itself |
| `LinkedList.Replace` | include/list.h:92-99 | the new entry stands where the old one did, also when that was alone |
| `LinkedList.ReplaceInit` | include/list.h:101-106 | and the old one is a ring by itself |
| `LinkedList.Move` | include/list.h:123-127 | from one list, or the same, to behind a head; both stay rings |
| `LinkedList.MoveTail` | include/list.h:134-139 | from one list, or the same, to before a head; both stay rings |
| `LinkedList.RotateLeft` | include/list.h:165-173 | the first entry goes to the end |
| `LinkedList.TestsAreRight` | include/list.h:146-182 | empty, singular and last are seen exactly when they are so |
| `LinkedList.Cut` | include/list.h:184-194 | the entries up to the chosen one form one ring with the new head, the others one with the old head |
| `LinkedList.CutPosition` | include/list.h:210-222 | the same, or nothing touched for an empty list or a single entry that is another |
| `LinkedList.Join` | include/list.h:224-236 | the entries between two nodes of the other ring; the old head as it was |
| `LinkedList.Splice` | include/list.h:243-276 | list_splice and list_splice_init: the entries in front |
| `LinkedList.SpliceTail` | include/list.h:255-293 | list_splice_tail and list_splice_tail_init: the entries at the end |
| `LinkedList.CutThenSplice` | include/list.h:210-248 | cut and splice back: the list is as it was exactly when it was not empty or the other list was |
| `EventQueues.Entered` | libevent/event.c:2591-2630 | an event that enters one queue: every queue still holds exactly the events whose flags say so, once |
| `EventQueues.Left` | libevent/event.c:2521-2557 | an event that leaves one queue, likewise |
| `EventQueues.RestCut` | libevent/event.c:2521-2557 | cutting an event out of a queue leaves the others in their order |
| `EventQueues.TakenOffAll` | libevent/event.c:2214-2286 | an event cut out of its queues one after the other is in none of them |
| `EventQueues.CoreEnter` | libevent/event.c:2591-2630 | and both counters and the order of common timeouts agree |
| `EventQueues.CoreLeave` | libevent/event.c:2521-2557 | and both counters and the order of common timeouts agree |
| `Scheduler.EventBase.constructor` | libevent/event.c:1180-1252 | a base with nothing queued is consistent |
| `Scheduler.EventBase.QueueInsert` | libevent/event.c:2591-2630 | flag set, event in exactly the queue it names, at the end or in order of deadline, and first in a common timeout queue exactly when all others are later; counters right |
| `Scheduler.EventBase.QueueRemove` | libevent/event.c:2521-2557 | flag cleared, event out of exactly that queue; counters right |
| `Scheduler.EventBase.InsertPosition` | libevent/event.c:2560-2588 | behind exactly the events that are not later; the queue stays sorted |
| `Scheduler.EventBase.EventDel` | libevent/event.c:2214-2286 | without naming a result: the event is in no queue and no evmap list and no flag of it is set, its other fields and all other events are as they were, and every queue keeps its other members in order |
| `Scheduler.EventBase.EventActive` | libevent/event.c:2306-2341 | written out: active with its cause, last in the queue of its priority, in every other queue as before, all queues keeping their other members in order; event_continue is set exactly for a new event ahead of the running priority |
| `Scheduler.EventBase.SetPriority` | libevent/event.c:1847-1860 | fails for an active event or a bad priority, else changes only that |
| `Scheduler.EventBase.AddTimeout` | libevent/event.c:2104-2165 | written out: pending with the deadline now + tv, or tv if absolute; an old timeout or its activation is taken back; it comes first in a common timeout queue exactly when all others are later; queues keep their other members in order |
| `Scheduler.EventBase.EventAdd` | libevent/event.c:2044-2192 | written out: listed exactly if asked for, with a relative timeout pending at now + tv.usec, or failed with nothing changed; the timer of a common timeout queue is set to the same deadline exactly when all others in it are later; every queue keeps its other members in order; every common timeout still has its timer awake |
| `Scheduler.AddedMeans` | libevent/event.c:2044-2192 | field by field and without naming the new event: what event_add_internal makes of the event, of the timer of its queue, and of no other event |
| `Scheduler.HeadIsLeast` | libevent/event.c:2560-2588 | the first of a common timeout queue is due no later than any other |
| `Scheduler.FirstSound` | libevent/event.c:1144-1151 | a new first event and the timer set for it: all timers awake |
| `Scheduler.LaterSound` | libevent/event.c:2168-2182 | an event that is not first needs no new timer |
| `Timeouts.HeapTop` | libevent/event.c:2493-2511 | the least deadline in the heap, or none exactly when it is empty |
| `Timeouts.TimeoutProcess` | libevent/event.c:2493-2517 | exactly the heap events due by now become active, the others and the order in all queues stay; event_continue is set exactly if one of them is ahead of the running priority |
| `Timeouts.CommonTimeoutCallback` | libevent/event.c:1156-1177 | exactly the due events of one queue become active and all queues keep their other members in order; the timer is set for the first that is left, or stays as it is if none is |
| `Timeouts.NothingMissed` | libevent/event.c:1142-1177 | a common queue whose timer sleeps has nothing due |
| `Timeouts.ProcessDue` | libevent/event.c:1142-1177 | after timeout_process and the callbacks of active timers exactly the events with a pending deadline that has come, in the heap or any common queue, are active for their timeout alone, in no other queue; no other event changes |
| `Timeouts.AddThenWait` | libevent/event.c:2104-2517 | event_add with a relative timeout at now and then timeout_process at a later time: the event is active from its timeout if and only if later >= now + tv.usec, and still pending if and only if not |
| `Timeouts.ShiftQueue` | libevent/event.c:2464-2486 | each event of the queue is shifted once |
| `Timeouts.ShiftedCore` | libevent/event.c:2440-2490 | a uniform shift keeps flags, queues, counters and order |
| `Timeouts.ShiftedSound` | libevent/event.c:2440-2490 | and keeps every timer awake |
| `Timeouts.TimeoutCorrect` | libevent/event.c:2440-2490 | when time ran backwards exactly the pending deadlines move back by the difference, so the time left to each is what it was |
| `EventLoop.Recur` | libevent/event.c:1256-1306 | a recurring timeout is set again for its own queue: one period after the last deadline, or after now if that has passed, without drift; nothing else changes; the assertion on the two timevals holds |
| `EventLoop.Dequeue` | libevent/event.c:1337-1371 | written out: the first of the queue leaves it, and is off every queue or only off this one; a recurring one is set again; all queues keep their other members in order |
| `EventLoop.Scan` | libevent/event.c:1434-1452 | the next queue with an event, and why none |
| `EventLoop.Turn` | libevent/event.c:1329-1453 | what one stretch of the loop did to every field, for each reason to run an event or none; no event is active ahead of the one that is run, except exactly when an interrupted queue ran only internal events and processing went on |
| `EventLoop.Perform` | libevent/event.c:1329-1453 | each step of a caller or of the loop changes the fields of the base exactly as Did says: an added timeout has its deadline and its place, a deleted event is in no queue, the rest keep their order |
| `EventLoop.RunsMostUrgent` | libevent/event.c:1434-1452 | an event that is dequeued in a run has the least priority number of all that are active then |
| `EventLoop.Run` | libevent/event.c:1329-1453 | with internal events at priority 0, for every run the states before and after each step: flags, queues, counters, priorities and timers agree in each; neighbours are related by what the step did; each event dequeued is the first of its queue, with none active ahead of it in the state before |
| `EventLoop.InternalOutOfPlace` | libevent/event.c:1441-1449 | an internal event at priority 1 lets priority 2 run before an active event of priority 0 |

## Left out

- Evbuffer.Buffer: chains are values in a sequence and last_with_datap is the number of a slot; EvbufferHeap.HeapBuffer has the links and the pointer for the operations that move whole chains. Pinned chains, callbacks with n_add_for_cb and n_del_for_cb, reference counts and evbuffer_file segments are not captured. Failed allocations are not modelled, and assertions are taken as compiled out (NDEBUG): the one at buffer.c:312 would stop the program exactly where Evbuffer.Loses drops bytes.
- EvbufferHeap.HeapBuffer.PrependChain: the test for a last_with_datap that leads to NULL is left out, since the buffer has data.
- evbuffer_peek, evbuffer_write and the printf family are not modelled.
- EvbufferRead.ReserveSpace: sizes below EVBUFFER_CHAIN_MAX; a negative size ends as a failed allocation.
- EvbufferRead.Read: with iovecs; readv is a parameter that fails or delivers a prefix of some bytes.
- EvmapRun.RunBoth: equality of the whole maps is stated for level-triggered scripts; with edge-triggering EvmapRun.WriterComesAndGoes shows them apart, Evmap.EdgeTriggerKept says exactly which change keeps the bit, and the watched READ and WRITE sets still agree.
- DnsParse.NameParse: what lies behind the packet is not modelled; where the copy reads it the call fails in the next turn.
- RateLimitRun.Run: amounts that would overflow the signed limit, and refunds that lift a bucket over its maximum, are steps without effect here; RateLimitBev.Bev.Charge and RateLimitRun.RefundForgets say what such refunds do.
- Tagging.Marshal: on packed buffers that own their memory, as every buffer filled by evbuffer_add is; so for all of Tagging.
- Tagging.DecodeTagFrom: where the loop leaves the bytes it pulled up, which is stated exactly, nothing is said of what it finds there or of its shift by more than the width of an int.
- HashTable.Table.RepIsBad: the check of cached hash values, and with it the result 1000 + i, is not modelled: the hash is computed from the key each time.
- HashTable.Run: HT_GROW is asked for sizes below the load limit of the last prime; HashTable.Table.Grow says exactly what happens from there on.
- Scheduler.EventBase.EventAdd: whether evmap can register the event is a parameter, not taken from the Evmap model; so is the success of evmap_io_del in Scheduler.EventBase.EventDel.
- Timeouts.ProcessDue: runs the callbacks of the active timers one after the other at one time; EventLoop.Run has them as separate steps with anything in between.
- Real I/O (readv, writev, sendfile, mmap, sockets, epoll_wait), clocks and random sources: times, ticks, random draws and the success of evmap and allocation are parameters.
- Evbuffer.Buffer.ExpandSingleChain: the branch that copies data into a larger chain cannot be reached under its precondition and is not written.
- Evmap.Base: epoll_ctl on open file descriptors only, and no descriptor is closed behind the back of the map in these runs; Evmap.ApplyOneHeals and Evmap.FlushHeals say what a change does where one was.
- DnsRoundTrip.Compose: packets shorter than 0x4000 bytes, as those the resolver builds; DnsEncode.PointerRoundTrip says exactly when a pointer is right.
- DnsLedger.Resolver: requests are values in sequences for the circular lists; probes, retransmission, search domains and the callbacks to users are not modelled.
- DnsLedger.Resolver.Suspend: without outstanding probe requests, whose cancelling pumps the queue in the middle of the loop.
- RateGroup: the shares that group members are granted and the group bucket itself are not modelled, only the suspend protocol.
- HashTable.Table: chains are sequences of values, so the identity of elements is not captured; HT_REPLACE, which leaves the link of a new element unset, HT_CLEAR and failing of both allocations are not modelled.
- LinkedList.Del: the two poison addresses are null.
- Scheduler.EventBase: queues are sequences of event numbers and the heap one with selection of the least deadline; the packing of queue numbers into tv_usec, signal call counts, deferred callbacks, notification of other threads and event_base_init_common_timeout after start are not modelled.
- EventLoop.Turn: one lock-held stretch of the loop; callbacks are whatever steps come between two turns.
- minheap-internal.h, ratelim-internal.h and the BitTorrent sources other than include/list.h are not part of this model.
