# A model of the Hamachi port: tun driver, tap emulation, loader and their helpers

The repository runs a Linux VPN client on a FreeBSD-like kernel. A kernel module provides tun devices
(`tun/`), a loader maps the Linux binary and stands in for its C library (`ldr/`), and an application
drives the client (`app/`). This project models the stateful parts of all three and proves what they
are for.

| module | models |
|---|---|
| `TunDriver` | the lock-free protocol over `used[]` and `ifaces[]`: any number of tasks that open, close and send, one atomic step at a time, in any interleaving, and what each of them sends |
| `Sends` | requests, address lists, and the copies that one list calls for |
| `UdpBroadcast` | the hook that copies a limited broadcast to every tun interface, as one caller runs it |
| `Frames` | Ethernet and ARP frames, the read and write side of the tap emulation as functions on values, whole runs, and two nodes on one wire |
| `ArpCache` | the chained hash map behind the ARP cache, with its rehash loop |
| `TunTap` | the tap emulation as it runs, on buffers overwritten in place, proved to compute what `Frames` says |
| `SymbolLookup` | the character-at-a-time double binary search |
| `ShippedRows`, `ShippedTable` | the symbol table as it ships, and the names a search of it gets wrong |
| `ElfLoader` | reading the headers and building the image of an executable |
| `Relocations` | symbol resolution, and the two passes that patch the image while reading their tables from it |
| `Program` | the dynamic section, and `load_elf` from end to end |
| `Resources` | the intrusive list of resources, whose back pointers point at the field that points to the node |
| `Epoll` | epoll over select |
| `EpollTap` | the wake-up of epoll for a reply that the tap emulation owes |
| `ListNetworks` | the two-pass parser of `hamachi list` |
| `PopenBuffer` | the doubling buffer for a child's output |
| `WideText` | widening and narrowing a string in its own buffer |
| `Options`, `Bytes` | an option type; bytes, words and little-endian loads, which are the numerals of base 256 |

Ghost fields and ghost parameters carry what the C code does not store: the numbers that tell
interfaces at a reused address apart, the chains of the hash map, the list as a sequence.

## Model

| member | source | states |
|---|---|---|
| TunDriver.InitInv | tun/main.c:51-52 | The cleared arrays satisfy the invariant: nobody owns an index or holds a slot. |
| TunDriver.StepOwners | tun/main.c:54-65 | Every atomic step of every task keeps `used[]` set exactly on the indices that some session owns, one owner each. |
| TunDriver.StepHolders | tun/main.c:69-84 | Every step keeps a slot ACQUIRED exactly while one task holds it. |
| TunDriver.StepSlots | tun/main.c:148-149 | Every step keeps a slot 0 unless its index has an owner that has published, and then ACQUIRED or that owner's interface. |
| TunDriver.StepInterfaces | tun/main.c:159-161 | Every step keeps the interface of each session allocated, and no two sessions' interfaces the same. |
| TunDriver.StepLending | tun/main.c:309-339 | Every step keeps what a broadcast holds the interface that the slot's owner published, with that owner not yet past its own acquire. |
| TunDriver.StepInv | tun/main.c:54-84 | One step of any task keeps all five parts of the invariant together. |
| TunDriver.RunInv | tun/main.c:54-84 | The invariant holds at every state of every run. |
| TunDriver.AcquiredMeansOneHolder | tun/main.c:69-84 | In every run a slot reads ACQUIRED if and only if some task holds it, and never two hold the same. |
| TunDriver.UsedMeansOneOwner | tun/main.c:54-65 | In every run an index is marked if and only if a live session has it, and never two have the same. |
| TunDriver.HeldInterfaceIsLive | tun/main.c:309-339 | What a broadcast holds is allocated and is the very interface that stood there at its compare-and-swap, even if the address was reused between load and swap; no session at that address is past its acquire in `opaque_free`. |
| TunDriver.NobodyHoldsWhatIsDetached | tun/main.c:148-161 | When `opaque_free` is about to detach and free its interface, its slot reads 0, nobody holds the slot, no broadcast holds the interface, and the interface is still allocated. |
| TunDriver.SessionStepsFindTheirSlot | tun/main.c:214 | `opaque_alloc` only ever publishes over a 0; the acquire in `opaque_free` never gives up empty-handed; the compare-and-swap of `release_idx` never fails. |
| TunDriver.ScanSaw | tun/main.c:54-60 | A scan of `acquire_idx` that stands at i has seen each index below i taken, at the step that looked at it. |
| TunDriver.OpenFailsOnlyIfAllSeenUsed | tun/main.c:54-60 | `acquire_idx` returns -1 only if its own scan saw every index taken. |
| TunDriver.RunLogs | tun/main.c:304-342 | In every run, at every step of a sender: its log holds the copies for the lists it has walked and for the walked part of the one it is in, and once it is done its own request behind them. |
| TunDriver.OtherSendsGoAlone | tun/main.c:306-307 | In every run a call with a request that is not to 255.255.255.255 over AF_INET sends exactly that request. |
| TunDriver.SendOrder | tun/main.c:309-313 | In every run the visits of a broadcast are to different slots, in slot order. |
| TunDriver.VisitsWalked | tun/main.c:314-339 | In every run each visit was walked to the end of its interface's address list while the slot was held. |
| TunDriver.SendSaw | tun/main.c:309-339 | A broadcast that is past slot i has walked the interface there, or has itself loaded the slot and found it empty. |
| TunDriver.HeldStaysNoted | tun/main.c:309-339 | Whatever interface a broadcast has held, it is still at its list or has it among its visits. |
| TunDriver.BroadcastSends | tun/main.c:304-342 | In every run, with any interference: a call with a request to 255.255.255.255 sends, for each interface it visits in slot order and each entry with an AF_INET address in list order, the request with that address and everything else unchanged, port and payload included, and then exactly the request itself; every interface it held is among the visits, no slot is visited twice, and each slot left out is one that it looked at itself and found empty. |
| TunDriver.AbaHappens | tun/main.c:71-78 | A concrete run in which a slot goes P, 0, P between a broadcast's load and its compare-and-swap, the swap succeeds, and what is held is the second interface: the theorems above are not vacuous about ABA. |
| Sends.AddrSendAt | tun/main.c:315-335 | Within one interface, the copies are in list order, one for each usable address, none for a missing or non-AF_INET one, with only the destination address replaced. |
| Sends.OneListMore | tun/main.c:315-335 | Over several lists, the copies are one for each entry with an address, in order, and no other: field by field the request with that address. |
| UdpBroadcast.BroadcastSendAt | tun/main.c:309-339 | Over all slots there are as many sends as usable addresses, and the one of slot i, entry j comes after exactly those of usable entries before it, with only the destination address replaced. |
| UdpBroadcast.SlotSendsAre | tun/main.c:309-339 | The sends of a broadcast are exactly the copies for the address lists in the slots, in slot order. |
| UdpBroadcast.UdpHook.AcquireIface | tun/main.c:69-79 | The spin loop where the only interference is a holder that lets go: it gives what the holder leaves, takes out an interface and leaves ACQUIRED, or gives nothing for an empty slot. |
| UdpBroadcast.UdpHook.ReleaseIface | tun/main.c:81-84 | Stores into its slot and no other. |
| UdpBroadcast.UdpHook.SendToAddrs | tun/main.c:315-335 | Issues exactly the sends of one interface's address list. |
| UdpBroadcast.UdpHook.VisitSlot | tun/main.c:311-338 | One slot: its interface is acquired, gets its copies and is put back. |
| UdpBroadcast.UdpHook.NewUdpSend | tun/main.c:304-342 | Where the only interference is holders that let go: a request to 255.255.255.255 over AF_INET issues one copy for each AF_INET broadcast address in the slots, in order, the request with that address and nothing else changed, and then the request itself; any other request is issued alone; the result is that of the original; slots that nobody held end as they began. |
| Frames.HeaderParts | ldr/tuntap.c:48-57 | A frame built from a header and a payload takes apart into the same destination, source, type and payload (RFC 894). |
| Frames.ArpParts | ldr/tuntap.c:59-88 | A built ARP packet is, byte for byte, the frame of RFC 826 over RFC 894 with both address pairs, passes the ARP test, and gives back its operation, senders and targets. |
| Frames.ReplyBytes | ldr/tuntap.c:205-206 | Byte for byte: the reply goes to the sender of the request with both address pairs turned round. |
| Frames.AcceptsArpIff | ldr/tuntap.c:165-196 | By the bytes: which frames are taken as ARP frames for this node. |
| Frames.ArpExchange | ldr/tuntap.c:101-213 | For all addresses and every packet of 20 bytes or more to an unknown destination: A.read, B.write, B.read, A.write teaches each node the other's MAC, changes nothing else and leaves nothing owed. |
| Frames.DeliveredIff | ldr/tuntap.c:126-150 | B's tun device gets A's packet byte for byte if and only if A resolves the destination to B's MAC or to the broadcast one. |
| Frames.TwoNodeDelivery | ldr/tuntap.c:101-213 | The exchange followed by A.read and B.write hands B's tun device the original packet. |
| Frames.HandsUpOnlyItsOwn | ldr/tuntap.c:156-192 | A frame reaches the tun device if and only if it is an IP frame for this MAC or for everybody, and then exactly its payload does. |
| Frames.WriteResults | ldr/tuntap.c:156-213 | For every frame, by its bytes: what goes to the device, what is learned, which reply is owed, and the result: the device's plus 14, its error, or the whole length of a frame eaten or dropped. |
| Frames.ReadResults | ldr/tuntap.c:101-154 | For every packet: the reply owed, cut to the buffer; the device's error; -1 for a short packet or a frame that does not fit; or the frame itself, byte for byte. |
| Frames.RequestIsAnswered | ldr/tuntap.c:103-208 | After any run, a request for this node's address is answered by the next read, byte for byte. |
| Frames.AfterRun | ldr/tuntap.c:93-213 | After any run of configurations, reads and writes, the cache gives each address the MAC of the last accepted ARP frame with that sender, and the one-slot reply has size 0 or 42 and is the answer to the last request for this node since it was drained. |
| Frames.EmittedAfterRun | ldr/tuntap.c:126-150 | After any run that owes no reply, byte for byte: towards the configured broadcast address a frame to ff:ff:ff:ff:ff:ff, towards a taught address a frame to the MAC last taught, towards any other an ARP request for it with the target MAC unknown, and nothing exactly when the buffer is too small. |
| TunTap.EthernetHeader | ldr/tuntap.c:48-57 | The 14 header bytes, everything behind them unchanged. |
| TunTap.ArpRequest | ldr/tuntap.c:59-76 | The 28 bytes of the ARP packet in place behind the header, everything else unchanged. |
| TunTap.TunTap.constructor | ldr/tuntap.c:17-94 | The emulation starts unconfigured, with an empty cache and nothing owed. |
| TunTap.TunTap.SetHwaddr | ldr/tuntap.c:21-25 | Sets the hardware address and nothing else. |
| TunTap.TunTap.SetIpaddr | ldr/tuntap.c:27-30 | Sets the IP address and nothing else. |
| TunTap.TunTap.SetBrdaddr | ldr/tuntap.c:32-35 | Sets the broadcast address and nothing else. |
| TunTap.TunTap.HasFakePkt | ldr/tuntap.c:96-99 | The size of the reply owed. |
| TunTap.TunTap.GetMacForIpMbbr | ldr/tuntap.c:37-46 | Finds a MAC exactly for the broadcast address and for cached ones, the broadcast address taking precedence. |
| TunTap.TunTap.ShiftUp | ldr/tuntap.c:145-146 | The overlapping move by 14 bytes delivers the original bytes. |
| TunTap.TunTap.Encapsulate | ldr/tuntap.c:145-147 | After the move, header and original packet stand one behind the other. |
| TunTap.TunTap.AskFor | ldr/tuntap.c:134-135 | A whole ARP request for the destination, from this node. |
| TunTap.TunTap.Drain | ldr/tuntap.c:103-113 | Hands out the owed reply, cut to the buffer, and owes nothing after. |
| TunTap.TunTap.Forward | ldr/tuntap.c:118-153 | What a packet already read becomes: the same as `Frames.Read`, in the same buffer. |
| TunTap.TunTap.Read | ldr/tuntap.c:101-154 | The method on buffers computes `Frames.Read` on every branch: new state, result, bytes, and EAGAIN exactly for a skipped packet. |
| TunTap.TunTap.Addressed | ldr/tuntap.c:165-171 | Tells frames for this MAC and for everybody from others. |
| TunTap.TunTap.Reply | ldr/tuntap.c:205-207 | Replaces the owed reply by the answer to this request. |
| TunTap.TunTap.LearnArp | ldr/tuntap.c:201-208 | Learns the sender of an accepted ARP frame, and owes a reply exactly to a request for its own address. |
| TunTap.TunTap.Write | ldr/tuntap.c:156-213 | The method on buffers computes `Frames.Write` on every branch: new state, result, what is written to the device; the caller's buffer is unchanged. |
| TunTap.Pass | ldr/tuntap.c:101-213 | One device's read carried to another's write moves both as the functions say, for two devices that share no memory. |
| TunTap.Introduce | ldr/tuntap.c:101-213 | Two devices run the whole exchange on their own buffers and hash maps: the second one's tun device gets the original packet, each has learned the other's MAC, and nothing else has changed. |
| Bytes.LoadsAreNumerals | ldr/ldr.c:49-56 | Words are read least byte first. |
| ArpCache.HashIs | ldr/map.c:5-22 | The bucket is the remainder of the address with the bits of 0xdeadbeef turned over. |
| ArpCache.Cache.constructor | ldr/map.c:14-16 | The cache starts as the empty map with no buckets. |
| ArpCache.Cache.FoundInBucket | ldr/map.c:22-25 | A known address has its entry in the chain of its hash. |
| ArpCache.Cache.EntryCounts | ldr/map.c:22-25 | Every linked entry is in the chain of its hash and gives what the map says of its key. |
| ArpCache.Cache.KeysUnique | ldr/map.c:41-48 | No key is linked twice, in one chain or in two. |
| ArpCache.Cache.GetInternal | ldr/map.c:18-27 | Finds an entry exactly if the address is known, and then the one of that address. |
| ArpCache.Cache.GetMac | ldr/map.c:29-39 | Agrees with the plain map; leaves the caller's bytes alone when there is none. |
| ArpCache.Cache.RelinkedOld | ldr/map.c:55-63 | Relinking one entry leaves the old chains below it as they were. |
| ArpCache.Cache.RelinkedNew | ldr/map.c:55-63 | Relinking one entry extends exactly one new chain, that of its new hash. |
| ArpCache.Cache.RelinkedOwner | ldr/map.c:55-63 | Relinking one entry loses no key: each is in the new table or still ahead of the loop. |
| ArpCache.Cache.MoveEntry | ldr/map.c:57-62 | One turn of the inner loop keeps the invariant of the half-moved table. |
| ArpCache.Cache.Rehash | ldr/map.c:50-66 | For tables of any two sizes, the nodes are relinked in place, and the cache keeps the same entries under the same keys with the same MACs. |
| ArpCache.Cache.Overwrite | ldr/map.c:43-49 | Overwriting a MAC byte by byte changes the map at that address and nowhere else. |
| ArpCache.Cache.PrependedValid | ldr/map.c:67-73 | A node put in front of the chain of its hash keeps the cache well formed. |
| ArpCache.Cache.Insert | ldr/map.c:67-73 | Adds the address to the map and changes no other. |
| ArpCache.FirstSetIff | ldr/map.c:53-73 | What the first set needs of the bucket it reads in its new block: the cache is the map of one address if and only if no other address is found in what is there already, as in a null bucket. |
| ArpCache.Cache.SetMac | ldr/map.c:41-74 | Sets the address in the plain map and changes no other, with or without a rehash before it; the capacity grows from 0 to 1 and then no more. |
| SymbolLookup.AtIsSigned | ldr/lookup.c:253-267 | Characters are compared as signed bytes, the terminator as 0. |
| SymbolLookup.BisectLoop | ldr/lookup.c:248-258 | Either inner loop gives the boundary its test defines, or a fault if it would read behind a name; no index leaves the table. |
| SymbolLookup.ColumnLoop | ldr/lookup.c:246-273 | Both inner loops on one character decide the search or narrow it, as the specification does. |
| SymbolLookup.LookupIn | ldr/lookup.c:241-276 | The two-sided search ends for every table, sorted or not, with the outcome of the specification. |
| SymbolLookup.ColumnAscends | ldr/lookup.c:252-257 | Of two names in order that agree with a third up to a column, the first is not above in that column, as signed characters. |
| SymbolLookup.BisectSplits | ldr/lookup.c:248-258 | Over a column in order for the name the loop finds the exact split point without a fault. |
| SymbolLookup.Narrowed | ldr/lookup.c:260-273 | Narrowing keeps exactly the names that agree with one character more. |
| SymbolLookup.SearchFinds | ldr/lookup.c:246-275 | From any column that is in order, with those behind it, the search finds the lowest candidate equal to the name, or that there is none. |
| SymbolLookup.SearchReaches | ldr/lookup.c:246-275 | Through columns in order the search comes to exactly the names that agree with one up to a given column. |
| SymbolLookup.FittingTableIsSearched | ldr/lookup.c:241-276 | If, in each column, the names that agree so far come in the order below, at, above the name's character, the search finds the lowest index with the name, or null exactly when there is none, and reads behind no string. |
| SymbolLookup.SortedTableIsSearched | ldr/lookup.c:241-276 | In every sorted table, for every name: the lowest index with that name, or null exactly when there is none, and no read behind the end of a string. |
| SymbolLookup.UnsortedYetSearched | ldr/lookup.c:241-276 | A table that is not sorted and in which every search of any name ends as it should: sortedness is sufficient, not necessary. |
| ShippedRows.Ascends | ldr/lookup.c:111-229 | Of the 117 rows as they ship, all neighbours ascend but those around `getpid` and `getpeername`. |
| ShippedTable.OthersAreFound | ldr/lookup.c:156-157 | Every name that does not lie between those two rows is answered rightly by the shipped table. |
| ShippedTable.ShippedTableIsSearchedIff | ldr/lookup.c:110-229 | Of all names there are, a search of the shipped table answers every one rightly but two: it misses `getpeername`, which is there, and takes `getpiername`, which is not, for it. |
| Relocations.PlaceFits | ldr/lookup.c:278-284 | Where both tables are in order for the name, lookup gives the lowest match of the main table, or else of the auxiliary one, and no other answer. |
| Relocations.ShippedPlaceIff | ldr/lookup.c:278-284 | With the shipped table in front, lookup answers rightly if and only if the name is none of the two. |
| Relocations.Loader.Lookup | ldr/lookup.c:278-284 | The two searches, main table first. |
| Relocations.Loader.LookupFunction | ldr/lookup.c:286-292 | A function's address, or a stub made for this call. |
| Relocations.Loader.LookupData | ldr/lookup.c:294-313 | The four answers for data, what is recorded of a copy, and the sentinel with its counter for what is not data. |
| ElfLoader.PhdrDecodes | ldr/ldr.c:73-98 | A program header laid out as in the gABI gives its type, offset, address, file size and memory size. |
| ElfLoader.EhdrDecodes | ldr/ldr.c:43-57 | A file header laid out as in the gABI gives the entry point and the place, size and number of the program headers. |
| ElfLoader.PageMasks | ldr/ldr.c:83-84 | The page masks on 64-bit words are the roundings used on numbers. |
| ElfLoader.NoWrapIff | ldr/ldr.c:83-84 | Some range of whole pages covers the segments if and only if none reaches into the last page of the address space. |
| ElfLoader.RawRange | ldr/ldr.c:68-82 | The lowest start and the highest end of the loaded segments, as 64-bit words. |
| ElfLoader.AddressRange | ldr/ldr.c:68-84 | For all segments: the range covers every loaded one if and only if some range of whole pages does, and then it is the smallest. |
| ElfLoader.File.ReadAll | ldr/ldr.c:10-22 | However the reads are cut up, the requested bytes arrive in one piece and no others change, or the call fails; it fails only if a read did or the file ends. |
| ElfLoader.LoadSegments | ldr/ldr.c:90-109 | If all reads succeed, each byte of the mapping is what the segments say; and they do succeed on a complete file whose reads never fail. |
| ElfLoader.SegmentBytes | ldr/ldr.c:90-109 | With disjoint segments, each byte below the file size is the file's byte at offset plus index. |
| ElfLoader.OtherBytes | ldr/ldr.c:90-109 | Every other byte is zero. |
| ElfLoader.ReadTable | ldr/ldr.c:56-67 | The program headers of the file at its table's position. |
| ElfLoader.ReadPhdrs | ldr/ldr.c:43-67 | Entry point and program headers of the file; refused exactly as the checks refuse, if no read fails. |
| ElfLoader.BuildImage | ldr/ldr.c:68-109 | The mapping has the smallest range and the image's bytes. |
| ElfLoader.LoadElf | ldr/ldr.c:43-109 | A loaded file has the smallest page range, every byte as its segments say and its own entry point; and a complete file loads if nothing it asks for fails. |
| Relocations.PatchFrame | ldr/ldr.c:145-184 | A byte that no write targets keeps its value whatever the order of writes. |
| Relocations.PatchIsSimultaneous | ldr/ldr.c:145-184 | With disjoint targets, each target holds its own value after all writes. |
| Relocations.RelocSame | ldr/ldr.c:147-153 | Decoding a relocation depends on nothing but its row, its symbol and its name with the terminator. |
| Relocations.RowUndisturbed | ldr/ldr.c:145-184 | If no target lies in what the passes read, every row still decodes as before after any number of writes. |
| Relocations.OneMore | ldr/ldr.c:154-162 | The effect of one relocation on lookups and memory: a patch, nothing, or an abort. |
| Relocations.Loader.Decode | ldr/ldr.c:147-153 | Target, kind and name of a row as memory holds them now. |
| Relocations.Loader.ApplyRow | ldr/ldr.c:145-184 | One turn of either loop, on every kind: the PLT pass alone skips kind 6, an unknown kind aborts with nothing written. |
| Relocations.Loader.Pass | ldr/ldr.c:145-184 | The loop over one table, stopped by an abort. |
| Relocations.RelocsAreSaid | ldr/ldr.c:145-184 | There is one relocation for each row of 24 bytes that begins in a table, made of its bytes: the target is the first word, the kind the low half and the symbol the high half of the second, the name the string of that symbol; those of the first table come first; and there is no other. |
| Relocations.Loader.Relocate | ldr/ldr.c:145-184 | Both passes, reading tables from the memory they patch, leave the writes of exactly the relocations that the tables say, as they stood before the first one. A skipped row's target may lie anywhere. |
| Relocations.AbortsIff | ldr/ldr.c:158-162 | The passes abort if and only if some relocation has a kind other than 5, 6 and 7. |
| Relocations.AbortStays | ldr/ldr.c:158-162 | Nothing happens after an abort. |
| Relocations.StepWrite | ldr/ldr.c:145-184 | The k-th write goes to the k-th target with what its name resolves to after the lookups before it, and there is none exactly for a skipped one. |
| Relocations.WritesApart | ldr/ldr.c:145-184 | Writes of relocations with disjoint targets are disjoint. |
| Relocations.RelocationIsSimultaneous | ldr/ldr.c:145-184 | With disjoint targets and known kinds the two passes are one simultaneous update: each target holds its resolved value, every other byte is unchanged. |
| Relocations.NamedTargetHolds | ldr/ldr.c:145-184 | With disjoint targets, every target holds what its name resolves to by the row where the name stands: a function's address or a stub, a symbol's copied word, its last copy or its address, or a sentinel. |
| Relocations.CounterGrows | ldr/lookup.c:310-312 | The sentinel counter never goes back, and grows by at most one a relocation. |
| Relocations.UnresolvedGetsSentinel | ldr/lookup.c:310-312 | Data without a symbol is patched with the sentinel of the counter at that point. |
| Relocations.SentinelsDiffer | ldr/lookup.c:310-312 | Two such relocations get different sentinels while the counter stays below 2^32. |
| Relocations.SentinelHalves | ldr/lookup.c:310-312 | A sentinel has the counter in its high half and 0xdeadbeef in its low one. |
| Relocations.StubsDiffer | ldr/lookup.c:286-292 | Each function without a symbol gets a stub of its own. |
| Relocations.CopyIsRecorded | ldr/lookup.c:299-305 | After a copy of a data symbol, a lookup with target 0 gives where it was copied to, and no other symbol has moved. |
| Program.LastValueAt | ldr/ldr.c:127-144 | A tag has the value of its last entry in the section. |
| Program.ValueOfOnlyEntry | ldr/ldr.c:127-144 | A tag with a single entry has that entry's value wherever it stands. |
| Program.AbsentIsZero | ldr/ldr.c:121-126 | A tag without an entry counts as 0. |
| Program.TablesGrow | ldr/ldr.c:129-143 | Each entry sets the one field of its tag and no other. |
| Program.DynamicIs | ldr/ldr.c:111-120 | The section is that of the last header of type 2: its address and its memory size. |
| Program.DynTableIs | ldr/ldr.c:121-144 | Each field has the value of the last entry of its tag among those that begin in the section, or 0. |
| Program.FindDynamic | ldr/ldr.c:111-120 | Position and size of the section by the last program header that names one. |
| Program.ScanDynamic | ldr/ldr.c:121-144 | The whole section is read, past its terminator too, and gives each field the last value of its tag. |
| Program.Link | ldr/ldr.c:111-184 | Scan and both passes on an image leave the image with the writes of its own tables made. |
| Program.LoadProgram | ldr/ldr.c:43-185 | From file to started program: the memory is the image of the file over the smallest page range with all relocations made; it aborts exactly if they do; and a complete file is not refused if nothing it asks for fails. |
| Program.RelocsOfRows | ldr/ldr.c:145-184 | The relocations of a program are exactly those its image's tables say, row by row. |
| Program.NamedTarget | ldr/ldr.c:43-185 | In the memory of a program so started, the target of every row that begins in a table, but for rows of kind 6 in the second, holds what the name of that row resolves to, stubs and sentinels included. |
| Program.RestOfImage | ldr/ldr.c:43-185 | And every other byte is still that of the file's image. |
| Resources.ApplyOnce | ldr/handles.c:19-108 | Each operation that does not crash keeps: every resource ever created is live or was destroyed once, never both. |
| Resources.RunOnce | ldr/handles.c:19-108 | So does every run. |
| Resources.CollectEndsAll | ldr/handles.c:95-108 | After a run that ends in a collect, every destructor has run exactly once and nothing is live. |
| Resources.DestroyedGrows | ldr/handles.c:86 | Destructor calls are never undone or reordered. |
| Resources.NewestFirst | ldr/handles.c:24-29 | After any run the live resources are listed from the newest to the oldest. |
| Resources.CrashesIff | ldr/handles.c:69-88 | After any run, freeing or moving a live resource crashes if and only if it is the oldest; else a move changes nothing and a free destroys exactly that one. |
| Resources.OnlyOneCrashes | ldr/handles.c:69-88 | A concrete failing run: freeing or moving the only resource. |
| Resources.Tracker.PrevPointsBack | ldr/handles.c:24-27 | `*node.prev == node` for every live node. |
| Resources.Tracker.ResourceAlloc | ldr/handles.c:19-32 | Puts the new resource in front and keeps the rest, with both pointers of each node right. |
| Resources.Tracker.ResourceRealloc | ldr/handles.c:58-74 | A moved node takes the place of the old one in the list and keeps its identity; it crashes exactly on the oldest resource. |
| Resources.Tracker.Unlink | ldr/handles.c:87-88 | Takes out exactly this node, or crashes exactly if it is the oldest. |
| Resources.Tracker.ResourceFree | ldr/handles.c:76-93 | Runs the destructor of exactly this resource and removes it; nothing on a null handle; it crashes exactly on the oldest resource. |
| Resources.Tracker.ResourceCollect | ldr/handles.c:95-108 | Ends with an empty list, each live resource destroyed once, newest first. |
| Epoll.CodeSets | ldr/glue.c:482-508 | After any run, a bit is set for a descriptor if and only if some ADD asked for it or some MOD touched the descriptor with no DEL of it since; in particular a deleted descriptor is in no set. |
| Epoll.AbstractIs | ldr/glue.c:482-508 | What is requested of a descriptor is what its last operation asked for, and nothing after a DEL. |
| Epoll.NothingLost | ldr/glue.c:474-511 | No interest requested by a descriptor's last ADD or MOD is ever lost, and each descriptor has the data last given for it. |
| Epoll.ExactAfterIff | ldr/glue.c:484-498 | After any run, one more call leaves its descriptor's sets as requested if and only if it is a DEL, an ADD that asks for all that is set, or a MOD that asks for everything; every other descriptor's are if they were. |
| Epoll.ExactIff | ldr/glue.c:474-511 | After any run a descriptor's sets are as requested if and only if every bit put for it since its last DEL is in its last request. |
| Epoll.ModKeepsWaiting | ldr/glue.c:484-492 | A concrete failing run: a MOD from reading to writing leaves all three waited for. |
| Epoll.InterestHasData | ldr/glue.c:499 | Whatever is waited for has been given data. |
| Epoll.PlainRunsAreExact | ldr/glue.c:474-511 | In runs without MOD and without a repeated ADD the sets are those of an abstract epoll. |
| Epoll.TagsAre | ldr/glue.c:539-561 | Exactly what is ready is to be reported. |
| Epoll.TagsAscend | ldr/glue.c:539-561 | Smaller descriptors come first, IN before OUT before ERR, and nothing twice. |
| Epoll.FakeReportedOnce | ldr/glue.c:541-550 | Of all that is reported exactly one entry is the tap's descriptor as readable, at its place behind the smaller ones, if the caller's array reaches it; and else none. |
| Epoll.Layer.EpollCreate | ldr/glue.c:460-472 | Empties the sets; aborts if there is one already. |
| Epoll.Layer.EpollCtl | ldr/glue.c:474-511 | Opcode 1 adds the requested bits, 2 clears all, 3 sets all; 1 and 3 store the data; nothing else changes; EBADF for another descriptor or before a create, an abort for another opcode. |
| Epoll.Layer.EpollWait | ldr/glue.c:515-564 | After any run of epoll_ctl the events are exactly the first `maxevents`, in order, of what select found and, only if a reply is owed and select was asked about it, the tap; each with the data of its descriptor's last ADD or MOD; the timeout is zero exactly then, and else the caller's. |
| EpollTap.TapIsAwaited | ldr/glue.c:528 | If the last ADD or MOD of the tap's descriptor asked for reading, select is asked about it. |
| EpollTap.Wait | ldr/glue.c:527-550 | Only while the emulation owes the reply to an ARP request is the timeout zero and the tap reported on that account; and if the tap's last ADD or MOD asked for reading, it then is, exactly once, unless the array is full of what comes before it. |
| Epoll.Layer.Fill | ldr/glue.c:538-561 | The loop writes exactly the first `maxevents` events, however many it stops short of. |
| Epoll.Report | ldr/glue.c:541-560 | One turn appends the descriptor's events as far as there is room. |
| ListNetworks.LineEndIs | app/app/utils.c:27-32 | A line ends at the first newline or NUL, or with the data. |
| ListNetworks.BracketIs | app/app/utils.c:53 | The first bracket, or none. |
| ListNetworks.NamesAreTexts | app/app/utils.c:63-81 | Character by character, the names are in order the texts from " * [" at a line's start to the first ']' on that line, and there is no other. |
| ListNetworks.NamesOfLines | app/app/utils.c:63-81 | A text is a result if and only if it stands so on some line. |
| ListNetworks.NamesAreStrings | app/app/utils.c:72-75 | No name contains the NUL that is to end it. |
| ListNetworks.LayoutAt | app/app/utils.c:72-75 | Each name stands, with its NUL, right behind the names before it. |
| ListNetworks.WalkEndsIff | app/app/utils.c:48-60 | The walk over the lines ends, instead of running past the data, if and only if the data is empty or its last byte is a newline or NUL. |
| ListNetworks.UnendedRunsOn | app/app/utils.c:48-60 | A concrete failing input: one line without its newline. |
| ListNetworks.SplitLines | app/app/utils.c:27-32 | Newlines become NULs, and nothing else changes. |
| ListNetworks.FindName | app/app/utils.c:51-54 | The test of both passes finds the name of a line exactly if it has one. |
| ListNetworks.CountPass | app/app/utils.c:45-61 | Counts exactly the names, and exactly the bytes of their layout. |
| ListNetworks.PutName | app/app/utils.c:71-75 | Writes one pointer and one name behind those before it. |
| ListNetworks.FillPass | app/app/utils.c:63-81 | Fills exactly the space counted, no pointer and no byte more or less. |
| ListNetworks.ListNetworks | app/app/utils.c:34-84 | For every ended output, the results are in order the texts of all its networks, each a string of its own, packed one behind the other into exactly the space allocated. |
| PopenBuffer.WriteStaysLean | app/app/popen.c:11-22 | One write keeps: the capacity is a power of two below twice the size, or 0 when empty, and the bytes moved so far are fewer than the capacity. |
| PopenBuffer.WritesAreCheap | app/app/popen.c:11-22 | Over any run of writes the capacity is the least power of two that fits, and all reallocations together move fewer than twice the bytes. |
| PopenBuffer.DoublingEndsIff | app/app/popen.c:13-17 | On 64-bit words, the wrapping sum of the sizes included: the loop ends if and only if that sum, as a word, is at most 2^63, and ends with room for all the bytes if and only if the sum itself is. |
| PopenBuffer.OneByteTooMany | app/app/popen.c:13-17 | A concrete failing input: with 2^63 + 1 bytes the loop never ends. |
| PopenBuffer.Popen.Realloc | app/app/popen.c:19 | Keeps the old bytes in front and moves as many as the old capacity. |
| PopenBuffer.Popen.CapacityFor | app/app/popen.c:13-17 | The doubling loop ends, within 64 bits, with the specified capacity. |
| PopenBuffer.Popen.Write | app/app/popen.c:11-22 | Appends the bytes to all those written since the last get. |
| PopenBuffer.Popen.Get | app/app/popen.c:24-32 | Hands over exactly the concatenation of the writes since the last get, and starts anew. |
| WideText.NarrowAfterWiden | app/app/gui.cpp:239-256 | Narrowing the widened form restores the string with its terminator where it stood; what lies behind is as widening left it. |
| WideText.WidenAfterNarrow | app/app/gui.cpp:239-256 | Widening a narrowed text restores its units if and only if every one of them, the last one included, is below 256. |
| WideText.ConvertFromAscii | app/app/gui.cpp:239-249 | In place, despite the overlap, byte by byte: each character and a 0, zeros from the terminator up to the size, and nothing behind it changed. |
| WideText.ConvertToAscii | app/app/gui.cpp:251-256 | In place: the low bytes up to the first that is 0, everything behind unchanged. |
| WideText.ThereAndBack | app/app/gui.cpp:239-256 | Both on one buffer restore the string. |

## Left out

Where the code falls short of its intent, the model follows the code unless a line here says otherwise.

- SymbolLookup.FittingTableIsSearched: order in every column is sufficient and not necessary, as `UnsortedYetSearched` shows; for the shipped table `ShippedTableIsSearchedIff` is exact. An auxiliary table is taken to be in order for the names looked up.
- SymbolLookup.LookupIn: a read behind a name's terminator, which C leaves undefined, ends the search with a fault.
- ArpCache.Cache.SetMac: the bucket array is zero-filled, which ldr/map.c:53 does not do; what the code needs of the block instead is `FirstSetIff`; the element count is never incremented (ldr/map.c:15, ldr/map.c:50), so growth is 0 to 1 only; the field `grown` stands for the local `e`, and the six MAC bytes of an entry are one value.
- ArpCache.Cache.Rehash: the sizes are free and need not be those of ldr/map.c:52.
- Resources.Tracker.ResourceFree: the null dereference at ldr/handles.c:88 is the outcome of a crash, after which nothing is said of the list; the lock, the magic number and the disabled heap check are left out, and so are the caller's bytes behind the header.
- Resources.Tracker.ResourceRealloc: the same for ldr/handles.c:69; whether realloc moves the block is a parameter.
- Epoll.Layer.EpollCtl: MOD sets the bits it should clear (ldr/glue.c:484-492) and is modelled as it is; descriptors are below FD_SETSIZE.
- Epoll.Layer.EpollWait: select's answer is a parameter, within the sets it was given, and so is the reply owed, which `EpollTap.Wait` takes from the emulation; the fields of the time value are one number of microseconds. Closing the epoll descriptor and how `tun_fd` is set are not modelled.
- TunDriver.RunInv: `opaque_free` reads `op->idx` after freeing `op` (tun/main.c:172-174); the model reads it before. `IFNET_CACHE`, the socket calls, `op->lock` and `free_lock`, and the read, write, ioctl and poll entry points are left out. devfs calls the destructor once for each opened file.
- TunDriver: nothing is said about progress. `opaque_free` spins at tun/main.c:148 while it holds `op->lock`, and a broadcast that holds the slot may need that lock in `tun_output` (tun/main.c:116).
- UdpBroadcast.UdpHook.AcquireIface: nobody interferes but by letting go of what they hold, and they do, which is the step `HolderLetsGo`; `TunDriver` has every interleaving. The length of the slot array is free.
- UdpBroadcast.UdpHook.NewUdpSend: the same interference only; duplicated buffers and control data are the same values; the result of each copy is only logged in the code and ignored here, and in `TunDriver`.
- ElfLoader.LoadElf: `munmap`, opening the file and the `/dev/fd/` form of its path are left out; whether mmap succeeds is a parameter; no segment reaches the last page of the address space, sizes fit an int, and the file part of a segment is not larger than the segment.
- Program.LoadProgram: the dynamic section, the tables, the symbols and their names lie in the image, so do all targets written, and none in what the passes read; the sizes of the tables are taken as unbounded, where the loops count in an int.
- Relocations.Loader.LookupFunction: a generated stub is the next of an unknown sequence of addresses; `ldr/stub_gen.c` is not part of this model.
- ListNetworks.ListNetworks: the output ends in a newline or NUL or is empty, the exact condition of `WalkEndsIff`; pointers are offsets into the area behind them, and allocation does not fail.
- PopenBuffer.Popen.Write: at most 2^63 bytes in all, the exact condition of `DoublingEndsIff` for room; allocation does not fail, and `buf` is not the buffer itself.
- WideText.ConvertFromAscii: the 16-bit form with its terminator fits the buffer, as the store at app/app/gui.cpp:245 demands.
- TunTap.TunTap.Read: the result of `read` on the device and, for `Write`, that of `write`, are parameters.
- The rest of `ldr/glue.c`, the machine-level files of `tun/` and `ldr/`, and the user interface of `app/`: thin wrappers, firmware offsets and drawing.
