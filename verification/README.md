# Verified model of ingenialink

ingenialink is a C library that talks to servo drives over Ethernet and EtherCAT. It carries its own copies of klib's
hash table and of parts of the lwIP network stack. This Dafny project models its algorithms, keeps the form in which
the source writes them (arrays and fields updated in place, loops), and proves what they promise.

| component | modules |
|---|---|
| khash, the open-addressing table, and the label dictionary on top of it | `RoundUp32`, `Probing`, `FlagWords`, `KHashLayout`, `KHashResize`, `KHash`, `DictLabels` |
| Internet checksum (RFC 1071), pbuf chains, pseudo-headers, IP headers | `OnesComplement`, `InetChecksum`, `PbufChecksum`, `IpHeader` |
| IPv4 fragmentation and reassembly (section 3.2 of RFC 791) | `IpFrag`, `ReassQueue`, `IpReass`, `ReassRun`, `ReassSystem`, `ReassDelivery`, `ReassRoundTrip` |
| ARP cache (RFC 826, sections 2.3.2.1 and 2.3.2.2 of RFC 1122) | `ArpTable`, `ArpRun`, `ArpLaws`, `ArpCache` |
| CRC of the MCB frames, Intel HEX files, monitoring and disturbance data | `CrcCcitt`, `IntelHex`, `IntelHexFiles`, `Monitoring` |
| The two-buffer poller and the CiA 402 power state sequences | `Poller`, `PowerStates`, `PowerRuns`, `PowerLink` |
| Addresses and numbers as text, netmasks | `AddressText`, `AddressGrammar` |
| Shared types, remainders | `Basics`, `ModArith` |

`dafny verify dfyconfig.toml` checks everything.

## Main results

- The in-place kick-out rehash keeps the map: two views of the same arrays, old flags and new, together with the element
  in hand always make up the whole (`KHashResize.Place`, `KHashResize.Rehash`). Over it, every operation of the table is
  an operation on a finite map (`KHash.Table`), a put has exactly the bucket count, the tombstones and the bucket that
  it should have (`KHash.Table.Put`), probes end because triangular steps meet every bucket (`Probing.ProbeCovers`),
  and the wrap-around exits are never taken below 2^31 buckets (`KHash.ProbesEnd`).
- The three checksum loops return the same canonical word from every alignment, and the chain versions depend only on
  the flat bytes.
- Reassembly is followed through whole runs of packets and seconds, with the limits on pbufs and entries, eviction and
  the timer in place: what is handed up at every packet of a datagram is known exactly in every run
  (`ReassDelivery.ArrivalExact`), no entry outlives its age (`ReassSystem.AgeExact`), and the list stays within its
  limits (`ReassSystem.StateFit`). Fragmentation followed by reassembly is the identity for every arrival order if and
  only if no arrival fools the check for holes, provided the fragments keep within the limit on pbufs and the entry is
  got and kept (`ReassRoundTrip.RoundTrip`; alone and in order, `ReassRoundTrip.InOrderAlone`); beyond that limit
  nothing comes back in any run (`ReassDelivery.NeverTooLarge`).
- The ARP cache sends or frees every packet exactly once and in order, never sends to an address it has not heard of for
  ARP_MAXAGE seconds, and keeps its refresh requests for an address at least two timer ticks apart, in every run. Which
  entry is recycled, what news of an address changes and where a packet is routed is told of the table and the packets
  alone (`ArpLaws`).
- An Intel HEX file of data records is accepted if and only if every record adds up to 0 modulo 256
  (`IntelHexFiles.FileAccepted`).
- The table-driven CRC is a polynomial remainder and detects every burst of up to 16 bits.
- Each fetch from the poller returns exactly the samples since the last one, in every interleaving.
- The power state sequences are step machines over the statuswords read, whatever these are, and the loops do exactly
  what the machines do, command by command (`PowerLink.Link.Enable`, `PowerLink.Link.Approach`). The controlword in force
  is always the one planned for the word read last (`PowerRuns.KeepsStep`), and a drive that moves only as the
  controlword in force allows is thereby brought to the target from every state without fault (`PowerRuns.Arrives`).
- When a sequence is still running is known exactly from the words read, for every sequence, fault resets included
  (`PowerRuns.RunningIff`).
- The text form of addresses: the texts that mislead the code are exactly known from their parts
  (`AddressGrammar.AtonExact`); every other text gives the address that the grammar of C numbers promises, or is refused
  as promised.

## Where the code does less than it says

- `ip4_frag` judges the last fragment by `left <= mtu - 20` although fragments are cut at multiples of 8 bytes:
  `IpFrag.FlagsRightIff` says exactly when the MF flags are right. With an MTU of 13 to 27, and no other, its unit count
  is 0 and it sends empty fragments until memory runs out (`IpFrag.NoUnits`, `IpFrag.Ip4Frag`); with one of at most 12
  the count wraps, and the whole payload leaves as one fragment that announces another (`IpFrag.WholeAtOnce`). What
  misjudged flags come to at the other end is a shorter datagram, handed up one fragment too early
  (`IpFrag.MisjudgedSplit`, `ReassRoundTrip.MisjudgedAlone`).
- `ip_reass_chain_frag_into_datagram_and_validate` does not test for a hole before a fragment inserted in the middle,
  although its comment says that all is checked: `ReassQueue.VerdictExact`, `ReassRun.BlindSpotIffFooled`.
- A new first fragment is not tested against the one that was first. If it reaches into that one, the overlap stays and
  nothing is handed up as long as the entry is there: `ReassQueue.OverlapArises`, `ReassQueue.OverlapStays`,
  `ReassDelivery.BlockedRun`, with bytes in `ReassQueue.OverlapExample`.
- The total length in the header that reassembly hands up is that of the data only if no fragment was queued beyond the
  one without MF and the datagram fits an IP packet: `ReassRun.LengthExact`, `ReassRun.BeyondTheLast`.
- With IP_REASS_MAX_PBUFS at its value of 10, a payload of more than ten full fragments never comes back, not even alone
  and in order: `ReassRoundTrip.TooLong`, `ReassRoundTrip.ElevenFragments`.
- A saturated hash table (2^31 live buckets) makes `kh_put` return the bucket of another key with 0, and
  `il_dict_labels_set` then overwrites that key's label: `KHash.Table.Put`, `DictLabels.Labels.Set`; `KHash.FillUp` and
  `KHash.OneTooMany` get there.
- When the memory for a rehash is denied, `kh_put` returns -1 and bucket n_buckets, and `il_dict_labels_set` stores
  there, past the end of the array; `KHash.Table.Denied` is the exact condition; `DictLabels.Labels.Set` shows the
  store, `DictLabels.FirstStoreBeyond` gives the inputs.
- `ip4_forward` wraps a TTL of 0 to 255 and then breaks the checksum: `IpHeader.Forward`, `IpHeader.ForwardBreaks`.
- Intel HEX files of more than 64 KiB are written with five-digit addresses that the reader takes for others:
  `IntelHex.RoundTrip`.
- The Intel HEX reader tests whether the check byte could be scanned, but not whether it was there: a record cut off before
  it is accepted if its last data byte would close it (`IntelHexFiles.MissingCheck`).
- `ip4addr_aton` lets a number wrap at 32 bits instead of refusing it, takes the digits 8 and 9 in an octal part, and
  takes 0x without digits. `AddressGrammar.AtonExact`: it returns something else than promised if and only if there are
  at most four parts, all of accepted digits, one of them of these three kinds, and the values modulo 2^32 fit their
  places. `AddressGrammar.TooLargeTaken` and `AddressGrammar.Misread` give inputs. That anything may follow the first
  white space is the code's leniency, taken over in the promised form: `AddressGrammar.RestUnread`.
- The comment of `sw_wait_change` says that the time-out is updated with what remains. It is not, so every wait has its
  own interval: `PowerRuns.RunningInterval`. But even with one time-out for all waits a drive whose statusword changes at
  every read without showing the target keeps the sequences running past it: `PowerRuns.RunningPastLimit`;
  `PowerRuns.NeedNotEnd`, `PowerRuns.FaultsNeedNotEnd` and `PowerLink.LongRun` give such drives for every number of
  reads.
- ARP entries live for 100 seconds, not for the five minutes of the comment beside ARP_MAXAGE: `ArpRun.LivesItsAge`.

## Model

| member | source | states |
|---|---|---|
| RoundUp32.KRoundUp32Spec | include/klib/khash.h:176 | For 1 to 2^31 the macro gives the least power of two not below its argument; for 0 and above 2^31 the 32-bit steps wrap it to 0. |
| RoundUp32.ResizeRequests | include/klib/khash.h:310-316 | The two sizes kh_put asks for: n-1 keeps the bucket count n, n+1 doubles it, and doubling 2^31 wraps to 0. |
| RoundUp32.PowersAreSpaced | include/klib/khash.h:248-250 | Two different powers of two differ by a factor of at least 2, which is why a request has one answer. |
| Probing.ProbeStep | include/klib/khash.h:237-239 | One turn of i = (i + ++step) & mask in 32-bit arithmetic is one more triangular step from the hash value. |
| Probing.TriTwice | include/klib/khash.h:239 | Where the probe is after s steps: twice the distance travelled is s (s + 1). |
| Probing.ProbeInjective | include/klib/khash.h:237-239 | No bucket is met twice within n probes of a table of n = 2^k buckets. |
| Probing.ProbeCovers | include/klib/khash.h:237-239 | Every bucket of a power-of-two table is met within n probes, from any hash value. |
| Probing.ProbeReturns | include/klib/khash.h:239 | The probe is back at its first bucket after 2n-1 steps at the latest, so the test i == last ends every loop. |
| FlagWords.EmptyFlag | include/klib/khash.h:165 | The shift-and-mask test on the packed words is the emptiness of that bucket. |
| FlagWords.DeletedFlag | include/klib/khash.h:166 | The shift-and-mask test on the packed words tells whether that bucket is a tombstone. |
| FlagWords.EitherFlag | include/klib/khash.h:167 | The shift-and-mask test on the packed words is false exactly for a live bucket. |
| FlagWords.ShiftValue | include/klib/khash.h:165-171 | The pair of bits of bucket i lies 2 (i mod 16) bits up in its word. |
| FlagWords.SetDeleted | include/klib/khash.h:171 | Setting the deleted bit changes the mark of that bucket, whatever it was, and of no other of the sixteen in the word; a live bucket becomes a tombstone. |
| FlagWords.SetOccupied | include/klib/khash.h:169 | Clearing the empty bit changes the mark of that bucket, whatever it was, and of no other; an empty bucket becomes live. |
| FlagWords.SetLive | include/klib/khash.h:170 | Clearing both bits makes that bucket live whatever it was, and leaves all others as they were. |
| FlagWords.Fill | include/klib/khash.h:226 | Filling the words with 0xaa makes every bucket empty. |
| FlagWords.NewFlags | include/klib/khash.h:253-255 | The new flag array has the words that n buckets need and every bucket empty. |
| FlagWords.FewestWords | include/klib/khash.h:173 | A table takes as few words of flags as hold two bits for each bucket. |
| KHashLayout.UpperBoundRounds | include/klib/khash.h:192-303 | The load limit is 0.77 times the bucket count, rounded to the nearest number. |
| KHashLayout.EmptyMeansAbsent | include/klib/khash.h:237-241 | A probe that comes to an empty bucket without having met the key proves that the key is not in the map. |
| KHashLayout.ReturnMeansAbsent | include/klib/khash.h:239 | So does a probe that comes back to where it started, because it has met every bucket. |
| KHashLayout.LayoutAdd | include/klib/khash.h:336-345 | Taking over a free bucket on the probe path of an absent key adds exactly that key and keeps every other key findable. |
| KHashLayout.LayoutRemove | include/klib/khash.h:351-353 | A tombstone removes exactly one key and keeps every other key findable. |
| KHashResize.FindEmpty | include/klib/khash.h:278-281 | The search over the new flags ends, in an empty bucket that the probe of the hash value reaches. |
| KHashResize.PlaceFree | include/klib/khash.h:288-290 | Writing an element over a bucket that is live in neither view adds it to the new view and leaves the old view alone. |
| KHashResize.KickOut | include/klib/khash.h:283-286 | Swapping with an occupant of the old view moves that occupant into the hand and the element into the new view. |
| KHashResize.KickStep | include/klib/khash.h:282-286 | One kick-out on the arrays: everything to be moved, everything placed and the element in hand together stay the whole map. |
| KHashResize.DropStep | include/klib/khash.h:288-290 | The last write of a kick-out chain: nothing is left in hand and the two views together are the whole map. |
| KHashResize.Place | include/klib/khash.h:277-292 | The kick-out process for one element ends, and afterwards every element is live in exactly one of the two views of the same arrays. |
| KHashResize.Rehash | include/klib/khash.h:268-294 | The in-place rehash, same-size, growing or shrinking: the new flags describe exactly the map that the old flags described, with no tombstone and no key cut off from its probe path. |
| KHash.ProbesEnd | include/klib/khash.h:232-241 | Below 2^31 buckets size <= n_occupied <= upper_bound < n_buckets, and every probe meets an empty bucket within n_buckets steps and before it returns: the wrap-around exits are never taken. |
| KHash.BucketCountSpec | include/klib/khash.h:248-250 | Every requested size from 5 to 2^31 becomes the least power of two not below it; all others become 4. |
| KHash.RequestGrants | include/klib/khash.h:310-316 | Below 2^31 buckets the request kh_put makes is always large enough for one more key; at 2^31 it never changes the bucket count. |
| KHash.RequestIs | include/klib/khash.h:310-316 | Below 2^31 buckets the request is granted and comes to twice the buckets if at least half are live, to as many as before if fewer are; at 2^31 it is granted exactly if less than half are live, and for the same count. |
| KHash.Table.constructor | include/klib/khash.h:212-214 | A new table is coherent and stands for the empty map. |
| KHash.Table.Clear | include/klib/khash.h:223-229 | The table stands for the empty map, with no tombstone left, and keeps its bucket count. |
| KHash.Table.Get | include/klib/khash.h:230-243 | A bucket comes back exactly when the key is in the map, and it holds the key and its value. |
| KHash.Table.Rebuild | include/klib/khash.h:268-304 | After the rehash the map is unchanged, the bucket count is the new one and no tombstone is left. |
| KHash.Table.Resize | include/klib/khash.h:244-306 | The map survives every resize, also a failed one; -1 comes back exactly if the resize was not declined for the size and an allocation it needs failed; with room and memory the table has the requested bucket count and no tombstones, otherwise nothing changes. |
| KHash.Table.MakeRoom | include/klib/khash.h:310-316 | Nothing changes unless a rehash is due. One that is due leaves no tombstone below 2^31 buckets, and doubles the buckets exactly if at least half were live (from none it makes 4); it fails exactly if the memory for the flags, or for the keys or values of a doubled table, is denied, and then the counts stay. Afterwards a bucket is to spare, unless all 2^31 are taken; the map is unchanged. |
| KHash.Table.Site | include/klib/khash.h:318-334 | The bucket of the key if it is present. Otherwise the last tombstone met before the first empty bucket, or if there is none that empty bucket; after a full round without an empty bucket the last tombstone, or the first bucket of the probe if every bucket is live. |
| KHash.Table.Enter | include/klib/khash.h:336-346 | The last part of a put: 0 for a bucket in use, 1 for an empty one, 2 for a tombstone, with the counters to match. |
| KHash.Table.Put | include/klib/khash.h:307-348 | The result is the bucket of the key, never a second one, and ret says whether the key was there (0), took an empty bucket (1) or reused a tombstone (2). Without a rehash due the bucket of a new key is the last tombstone on its way or else the first empty one, and the counts change by that bucket alone; with one due, bucket count and occupied count are those of a table doubled or cleared of tombstones, plus the new key. Both exceptions are exact: -1 and bucket n_buckets if a rehash is due and denied the memory for the flags, or for the keys or values of a doubled table; the bucket of another key with 0 if there are 2^31 live buckets and the key is absent. |
| KHash.FillUp | include/klib/khash.h:307-348 | 2^31 puts of new keys fill the table. |
| KHash.OneTooMany | include/klib/khash.h:324-346 | The next new key is then given the bucket of another key, with 0. |
| KHash.Table.Del | include/klib/khash.h:349-355 | A live bucket's key leaves the map and no other does; any other bucket number changes nothing. |
| DictLabels.Labels.constructor | ingenialink/dict_labels.c:7-30 | A new dictionary is empty. |
| DictLabels.Labels.Get | ingenialink/dict_labels.c:50-65 | The label of a language that is there, an error for one that is not. |
| DictLabels.Labels.Set | ingenialink/dict_labels.c:67-80 | A map update, with two exact exceptions: the store goes past the end of the array exactly if the memory for a rehash is denied, and the label of some other language is overwritten exactly if the table is saturated and the language new. |
| DictLabels.FirstStoreBeyond | ingenialink/dict_labels.c:67-80 | In a new dictionary the store goes past the end if any allocation of the first rehash fails. |
| DictLabels.Labels.Del | ingenialink/dict_labels.c:82-93 | The language leaves the dictionary; all others stay. |
| DictLabels.Labels.Langs | ingenialink/dict_labels.c:100-125 | The array has one slot more than there are labels, lists every language exactly once, and ends with a null. |
| DictLabels.KeysOfStock | ingenialink/dict_labels.c:114-120 | The live buckets in order list the keys of the map, each once, so their number is the table's size. |
| OnesComplement.SumIsLeSum | ingenialink/ecat/lwip/inet_chksum.c:133-174 | Adding the words in host order gives, up to one byte swap, the end-around-carry sum in network order (section 2 of RFC 1071). |
| OnesComplement.RfcExample | ingenialink/ecat/lwip/inet_chksum.c:80-115 | The reference sum gives the published value for the example of section 3 of RFC 1071. |
| OnesComplement.NetworkSumCanon | ingenialink/ecat/lwip/inet_chksum.c:80-115 | The end-around-carry sum is the canonical residue of the plain sum modulo 65535: 0 only when every byte is 0. |
| OnesComplement.FoldTwice | ingenialink/ecat/lwip/inet_chksum.h:52 | Folding any 32-bit sum twice gives the canonical 16-bit residue; no third fold is needed. |
| OnesComplement.OddStart | ingenialink/ecat/lwip/inet_chksum.c:141-149 | Bytes read from an odd position give the byte-swapped sum. |
| OnesComplement.LeSumAppend | ingenialink/ecat/lwip/inet_chksum.c:568-590 | The sum of two pieces is the sum of their sums, the second one byte-swapped when the first has odd length. |
| InetChecksum.Checksum1 | ingenialink/ecat/lwip/inet_chksum.c:80-115 | Version 1 returns the canonical one's complement sum of the buffer, for every length up to 2^17 bytes. |
| InetChecksum.Checksum2 | ingenialink/ecat/lwip/inet_chksum.c:133-174 | Version 2 returns the same word from either start alignment, for every length up to 2^17 bytes. |
| InetChecksum.Checksum3 | ingenialink/ecat/lwip/inet_chksum.c:189-256 | Version 3 returns the same word from every start address and for every length. |
| InetChecksum.AddLongCanon | ingenialink/ecat/lwip/inet_chksum.c:217-229 | Adding a 32-bit word with its wrap-around counted back in never loses a carry: the residue modulo 65535 stays that of the exact sum. |
| PbufChecksum.TurnAdds | ingenialink/ecat/lwip/inet_chksum.c:574-584 | One turn of a chain loop adds a piece, whether or not it swaps, as long as `swapped` records it. |
| PbufChecksum.InetChksum | ingenialink/ecat/lwip/inet_chksum.c:555-559 | The checksum is the complement of the reference sum, from every address and for every 16-bit length. |
| PbufChecksum.InetChksumPbuf | ingenialink/ecat/lwip/inet_chksum.c:568-590 | The checksum of a chain is the checksum of its flat bytes, however they are cut, odd and empty pieces included. |
| PbufChecksum.InetChksumPseudo | ingenialink/ecat/lwip/inet_chksum.c:260-328 | The result is the checksum of the pseudo-header followed by the data of the chain. |
| PbufChecksum.PseudoHeaderBytes | ingenialink/ecat/lwip/inet_chksum.c:260-328 | Which byte of the pseudo-header is which: source, destination, zero, protocol, length with its high byte first. |
| PbufChecksum.InetChksumPseudoPartial | ingenialink/ecat/lwip/inet_chksum.c:399-474 | The result is the checksum of the pseudo-header and the first chksum_len bytes, also when these end inside a piece and the swap test looks at the whole piece. |
| IpHeader.OutputHeader | ingenialink/ecat/lwip/ip4.c:810-897 | Every field of the header is in its place with its value: version and header length, TOS, length and id with the high byte first, no offset or flags, TTL, protocol, source, destination, the options and zeros up to a multiple of four bytes. The checksum summed up while the fields are written is the one inet_chksum gives for the header with a zero checksum field, and the header verifies. |
| IpHeader.Forward | ingenialink/ecat/lwip/ip4.c:301-320 | A packet is sent on unless its TTL was 1; the incremental update keeps a valid header valid exactly when the TTL was at least 1, and never makes an invalid one valid then; every other byte is untouched, and of a packet that is not sent on only the TTL changes. |
| IpHeader.ForwardBreaks | ingenialink/ecat/lwip/ip4.c:301-320 | A header that verifies with a TTL of 0 is sent on with 255 and does not verify any more. |
| IpHeader.VerifiesIff | ingenialink/ecat/lwip/ip4.c:853-897 | A header verifies exactly when its host-word sum is a positive multiple of 65535. |
| IpFrag.CopyOut | ingenialink/ecat/lwip/ip4_frag.c:750-788 | The inner loop hands out exactly the next bytes of the chain and stops where the next fragment must begin, across empty pieces too. |
| IpFrag.Ip4Frag | ingenialink/ecat/lwip/ip4_frag.c:684-830 | For every MTU of 16 bits: what is sent are the fragments of the payload in order, all of them, or as many as memory allows with an error; where no unit fits, empty fragments until memory runs out; options or a set MF flag are refused and nothing is sent. |
| IpFrag.NoUnits | ingenialink/ecat/lwip/ip4_frag.c:693 | The 16-bit unit count is 0 exactly for MTUs of 13 to 27; below, it wraps to more than any payload. |
| IpFrag.SplitJoins | ingenialink/ecat/lwip/ip4_frag.c:715-824 | The fragments' payloads joined are the payload. |
| IpFrag.SplitPlaced | ingenialink/ecat/lwip/ip4_frag.c:795-823 | Every fragment's offset field says where it starts, and it starts where the one before it ends. |
| IpFrag.SplitSized | ingenialink/ecat/lwip/ip4_frag.c:693-717 | All fragments but the last carry 8*nfb bytes, the last no more, and each fits an MTU of at least 28 with its header. |
| IpFrag.SplitCount | ingenialink/ecat/lwip/ip4_frag.c:715-824 | There are as many fragments as it takes, no more. |
| IpFrag.FlagsRightIff | ingenialink/ecat/lwip/ip4_frag.c:791-798 | MF is set on all fragments but the last, and on no other, if and only if the MTU holds the header and the payload does not end 1 to (MTU-20) mod 8 bytes after a whole number of fragments; so always when MTU-20 is a multiple of 8. |
| IpFrag.FlagsMisjudgedExample | ingenialink/ecat/lwip/ip4_frag.c:791-798 | A concrete failure: 9 bytes over an MTU of 29 leave as two fragments, neither with MF. |
| IpFrag.WholeAtOnce | ingenialink/ecat/lwip/ip4_frag.c:693-798 | Below an MTU of 13 the whole payload leaves as one fragment, with MF. |
| IpFrag.MisjudgedSplit | ingenialink/ecat/lwip/ip4_frag.c:791-798 | With misjudged flags all fragments but the last two have MF, the last but one carries the end of a whole number of full fragments and says that it is the last. |
| ReassQueue.Locate | ingenialink/ecat/lwip/ip4_frag.c:360-403 | The walk over the sorted queue finds the insertion point, drops a fragment with the start of, or overlapping, a queued one as far as that is tested, and reports whether the pairs passed are without holes. |
| ReassQueue.RejectedExact | ingenialink/ecat/lwip/ip4_frag.c:365-403 | A fragment is thrown away exactly if it shares a byte with a queued one, unless it starts before all of them. |
| ReassQueue.NoHolesAfter | ingenialink/ecat/lwip/ip4_frag.c:430-449 | The second loop finds whether the pairs after the new fragment are without holes. |
| ReassQueue.Chain | ingenialink/ecat/lwip/ip4_frag.c:338-475 | Insertion and verdict together do what the specification of one arrival says: drop, queue, or queue and complete. |
| ReassQueue.InsertedSorted | ingenialink/ecat/lwip/ip4_frag.c:365-425 | The queue keeps strictly increasing starts. |
| ReassQueue.VerdictExact | ingenialink/ecat/lwip/ip4_frag.c:392-455 | With the last fragment seen, "complete" is said exactly when the queue covers one range from 0 on, or when the only hole is just before a fragment inserted in the middle, which the code does not test. |
| ReassQueue.BlindSpotExample | ingenialink/ecat/lwip/ip4_frag.c:369-377 | A concrete failure: bytes 0-7, then 24-31 as the last, then 16-23; the datagram is handed up without bytes 8-15. |
| ReassQueue.OverlapArises | ingenialink/ecat/lwip/ip4_frag.c:365-403 | A queue without overlaps gets one exactly by a new first fragment that reaches into the one that was first. |
| ReassQueue.OverlapStays | ingenialink/ecat/lwip/ip4_frag.c:365-455 | An overlap stays whatever arrives, and the queue is not taken for complete again, not even wrongly. |
| ReassQueue.OverlapExample | ingenialink/ecat/lwip/ip4_frag.c:378-380 | A concrete failure: after bytes 8-15, bytes 0-11 are queued and the true bytes 0-7 dropped. |
| IpReass.Reassembler.constructor | ingenialink/ecat/lwip/ip4_frag.c:100-112 | No datagram is queued and the pbuf count is 0. |
| IpReass.Reassembler.FindOldest | ingenialink/ecat/lwip/ip4_frag.c:231-252 | The scan finds the entry of another datagram with the least timer, the last of several. |
| IpReass.Reassembler.EvictOne | ingenialink/ecat/lwip/ip4_frag.c:229-260 | One round removes the oldest other entry, the last of several, and nothing else. |
| IpReass.Reassembler.RemoveOldest | ingenialink/ecat/lwip/ip4_frag.c:223-264 | Other datagrams go, oldest first, until enough pbufs are free or none is left, and no more: without the last one to go it would not have been enough. The datagram of the current fragment stays. |
| IpReass.Reassembler.Tick | ingenialink/ecat/lwip/ip4_frag.c:123-148 | Every entry's timer goes down by one and those at zero are freed with their pbufs; the list and the pbuf count stay within the limits. |
| IpReass.AgedJoin | ingenialink/ecat/lwip/ip4_frag.c:123-148 | A second ages every entry by itself, and those that are left keep their order. |
| IpReass.AgedOne | ingenialink/ecat/lwip/ip4_frag.c:132-146 | The timer of an entry goes down by one; at 0 the entry goes. |
| IpReass.Reassembler.Reass | ingenialink/ecat/lwip/ip4_frag.c:483-637 | The list afterwards and what is handed up are those of the specification of one packet. A fragment without options is accepted exactly if its own datagram leaves room for it and an entry is free, becomes free, or is bought by evicting at least as many pbufs; what had to go went oldest first. The pbuf count stays the sum over the queues and within the limit, each datagram has one entry, and starts strictly increase. |
| IpReass.EvictFacts | ingenialink/ecat/lwip/ip4_frag.c:223-264 | Eviction on the list as a value: only other datagrams go, none younger before an older one, until enough pbufs are free or none is left; and no more than that. |
| IpReass.ServeCases | ingenialink/ecat/lwip/ip4_frag.c:483-637 | One packet on the list as a value: exactly when it is accepted, and that nothing is evicted for it when there is room. |
| IpReass.AcceptFit | ingenialink/ecat/lwip/ip4_frag.c:559-621 | Where there is room, taking a fragment in keeps one entry per datagram, sorted queues and the limits. |
| IpReass.NewAtFront | ingenialink/ecat/lwip/ip4_frag.c:273-306 | The first fragment of a datagram makes an entry at the front of the list with the full time to live; all others keep their order. |
| IpReass.Reassembler.Take | ingenialink/ecat/lwip/ip4_frag.c:559-621 | With room, the list afterwards is the list with the fragment's entry updated, created or, when complete, removed. |
| ReassSystem.StateFit | ingenialink/ecat/lwip/ip4_frag.c:123-637 | In every run of packets and seconds the list stays in order and within the limits on pbufs, entries and age. |
| ReassSystem.ServeEntry | ingenialink/ecat/lwip/ip4_frag.c:483-637 | A packet moves the entry of its own datagram if it is accepted and leaves it alone otherwise; the entry of another datagram it leaves alone or evicts, and does not evict when there is room. |
| ReassSystem.AgeExact | ingenialink/ecat/lwip/ip4_frag.c:123-148 | In every run from the empty list, whatever arrives between the ticks: an entry was made by a packet of its datagram, has been there ever since, and its timer is the maximal age less the seconds since then. |
| ReassSystem.NothingOutlives | ingenialink/ecat/lwip/ip4_frag.c:123-148 | In every run, an entry that is there after more than the maximal age in seconds was made in the meantime. |
| IpReass.ReceiveKeepsTimer | ingenialink/ecat/lwip/ip4_frag.c:559-600 | A further fragment does not give its datagram more time. |
| ReassRun.Arrival | ingenialink/ecat/lwip/ip4_frag.c:360-425 | Against the fragments that have arrived, a duplicate is dropped and any other fragment goes to its place. |
| ReassRun.CompleteIffFull | ingenialink/ecat/lwip/ip4_frag.c:450-455 | Once the last fragment is there, the queue is without holes exactly when all fragments are there. |
| ReassRun.BlindSpotIffFooled | ingenialink/ecat/lwip/ip4_frag.c:369-377 | In terms of what has arrived: the check is fooled exactly if the arrival closes all holes but the one just before it. |
| ReassRun.ArrivalVerdict | ingenialink/ecat/lwip/ip4_frag.c:338-475 | The verdict on every arrival, in any order: complete if all fragments are there, or if the check is fooled. |
| ReassRun.OneArrival | ingenialink/ecat/lwip/ip4_frag.c:559-621 | One arrival hands up the datagram when the set becomes full, too short a datagram when the check is fooled, and nothing otherwise. |
| ReassRun.LengthExact | ingenialink/ecat/lwip/ip4_frag.c:568-621 | Of a datagram without holes, the total length in the header handed up is that of the data if and only if the data fit an IP packet and end where the fragment without MF said. |
| ReassRun.BeyondTheLast | ingenialink/ecat/lwip/ip4_frag.c:568-621 | A concrete failure: bytes 8-15 with MF, then 0-7 without; 16 bytes are handed up under a total length of 28. |
| ReassDelivery.Projection | ingenialink/ecat/lwip/ip4_frag.c:483-637 | In every run, whatever is evicted or expires: the entry of a datagram holds exactly the fragments accepted since it was made, never all of them. |
| ReassDelivery.ArrivalExact | ingenialink/ecat/lwip/ip4_frag.c:483-637 | In every run, at every packet of a datagram: nothing is handed up if it cannot be accepted; the datagram if its entry now has all fragments; too little if the check is fooled; nothing otherwise. |
| ReassDelivery.NeverTooLarge | ingenialink/ecat/lwip/ip4_frag.c:507-528 | In every run only a datagram whose fragments keep within the limit on pbufs is handed up. |
| ReassDelivery.RunExact | ingenialink/ecat/lwip/ip4_frag.c:483-637 | For every arrival order with any duplicates, among other datagrams and seconds, within the limit on pbufs, with an entry got and kept: the datagram is handed up with the last missing fragment, and nothing before, if and only if no arrival fools the check. |
| ReassDelivery.RoomIsEnough | ingenialink/ecat/lwip/ip4_frag.c:507-537 | Where every packet finds room, an entry is got and kept if and only if no more seconds pass than the maximal age. |
| ReassDelivery.BlockedRun | ingenialink/ecat/lwip/ip4_frag.c:483-637 | In every run, with an overlap in its queue, whoever sent it, nothing is handed up for a datagram as long as its entry is there. |
| ReassRoundTrip.RoundTrip | ingenialink/ecat/lwip/ip4_frag.c:483-830 | Fragmentation then reassembly, for every payload up to 65515 bytes, every MTU under which the code gets on and the flags come out right, every arrival order, duplicates, packets of other datagrams and seconds between; with no more pbufs than the limit, and the entry got, not evicted and not expired: exactly the payload is handed up at the last missing fragment, and nothing before, if and only if no arrival fools the check. |
| ReassRoundTrip.InOrderAlone | ingenialink/ecat/lwip/ip4_frag.c:483-830 | Alone and in order, from an empty list, the fragments of a payload give it back if and only if they keep within the limit on pbufs. |
| ReassRoundTrip.AloneInOrder | ingenialink/ecat/lwip/ip4_frag.c:483-637 | The same for any fragments of one datagram with right flags. |
| ReassRoundTrip.MisjudgedAlone | ingenialink/ecat/lwip/ip4_frag.c:483-830 | With misjudged flags, alone and in order and within the limit on pbufs, the payload up to the last fragment is handed up one fragment too early. |
| ReassRoundTrip.TooLong | ingenialink/ecat/lwip/ip4_frag.c:507-528 | A payload of more full fragments than the limit on pbufs is never handed up, in any run. |
| ReassRoundTrip.ElevenFragments | ingenialink/ecat/lwip/opt.h:705 | With the limit of 10, 88 bytes over an MTU of 28, which are 11 fragments, never come back. |
| ReassRoundTrip.InOrderNeverFools | ingenialink/ecat/lwip/ip4_frag.c:369-388 | Arrival in order, with earlier fragments repeated at will, never fools the check. |
| ReassRoundTrip.ReversedNeverFools | ingenialink/ecat/lwip/ip4_frag.c:378-380 | Nor does arrival back to front. |
| ArpTable.VictimIsCheapest | ingenialink/ecat/lwip/etharp.c:281-373 | A full search recycles the first empty entry or else the oldest entry of the least dear class: resolved, waiting, waiting with packets; of equally old ones the last. |
| ArpLaws.FindRecycles | ingenialink/ecat/lwip/etharp.c:249-395 | The entry in use for the address, if there is one. Otherwise, if recycling is allowed: the first empty entry; or else the oldest resolved one; or else the oldest that waits without packets; or else the oldest of all; of equally old ones the last. Its packets are freed in order, it becomes empty and for the new address, and every other entry stays. |
| ArpLaws.HearTells | ingenialink/ecat/lwip/etharp.c:405-485 | News of a known address makes its entry stable with the address heard and age 0, and all that waited goes out there in order. An unknown address is entered only by a message for us; otherwise nothing changes. A reply goes out exactly for a request for us. |
| ArpLaws.QueryTells | ingenialink/ecat/lwip/etharp.c:947-1102 | A query for a resolved address sends and changes nothing, for one that is waited for it queues and gives up the oldest packet past the limit; a request goes out for a new address or a call without a packet. A new address gets the entry that makes way. With the status of each case. |
| ArpLaws.OutputRoutes | ingenialink/ecat/lwip/etharp.c:806-912 | Where a packet goes: to everyone for a broadcast or multicast address; to the host itself on the local net; to the gateway for all others. There is no route exactly for a remote host without a gateway. |
| ArpLaws.HopServed | ingenialink/ecat/lwip/etharp.c:763-912 | A resolved next hop is sent to at once, at its link address, and asked for again exactly if its entry is stable and 70 seconds old or more and the request could be sent, by broadcast from 85 seconds on; an unresolved one is queried. |
| ArpLaws.PendingLives | ingenialink/ecat/lwip/etharp.c:190-226 | An address that is asked for is asked for again in each of the next four seconds; in the fifth it is given up with the packets that wait, in order. |
| ArpLaws.StableLives | ingenialink/ecat/lwip/etharp.c:190-226 | A resolved address without news is held for 99 seconds, in silence, and given up in the hundredth. |
| ArpLaws.RefreshRests | ingenialink/ecat/lwip/etharp.c:212-217 | After two seconds a host that was asked for again may be asked for once more. |
| ArpLaws.TickAsks | ingenialink/ecat/lwip/etharp.c:190-226 | In one second requests go out exactly for the addresses that are still waited for afterwards. |
| ArpTable.FindKeeps | ingenialink/ecat/lwip/etharp.c:250-395 | A search keeps the invariant, fails exactly for an unknown address with recycling not allowed, and changes at most one entry, whose packets are freed. |
| ArpTable.UpdateKeeps | ingenialink/ecat/lwip/etharp.c:415-485 | News of an address keeps the invariant, and the packets that waited for it leave in order. |
| ArpTable.QueryKeeps | ingenialink/ecat/lwip/etharp.c:947-1102 | A query keeps the invariant and conserves packets, whatever it recycles, queues or drops. |
| ArpTable.QueryStatusTells | ingenialink/ecat/lwip/etharp.c:914-946 | A query that is given a packet reports success exactly if the packet was sent or taken in. |
| ArpTable.OutputStatusTells | ingenialink/ecat/lwip/etharp.c:788-805 | Output reports success exactly if the packet was sent or taken in; no route, a bad address and lack of memory are the errors. |
| ArpTable.TickKeeps | ingenialink/ecat/lwip/etharp.c:190-226 | A tick of the timer keeps the invariant: expired entries go with their packets, ages stay below their bounds. |
| ArpRun.StepKeeps | ingenialink/ecat/lwip/etharp.c:190-1102 | Every event keeps one entry per address, packets on waiting entries only and within the limit, ages below ARP_MAXAGE (ARP_MAXPENDING while waiting); and conserves the packets of every address. |
| ArpRun.Conserved | ingenialink/ecat/lwip/etharp.c:161-182 | In every run, for every address: the packets taken in are, in that order, those that left the queue, each sent or freed once, followed by those still waiting. |
| ArpRun.AlwaysUpToDate | ingenialink/ecat/lwip/etharp.c:415-485 | In every run a resolved entry holds the link address last heard for its address, and its age is the time since then. |
| ArpRun.SentFresh | ingenialink/ecat/lwip/etharp.c:763-786 | In every run a packet to a resolved address goes where that host was last heard, less than ARP_MAXAGE seconds ago; queued packets go out only on news of their address. |
| ArpRun.HintIsScan | ingenialink/ecat/lwip/etharp.c:870-885 | The short cut through the entry used last is taken exactly when the scan would pick that entry. |
| ArpRun.RefreshesApart | ingenialink/ecat/lwip/etharp.c:190-226 | Between two refresh requests for one address at least two ticks of the timer pass, in every run. |
| ArpRun.LivesItsAge | ingenialink/ecat/lwip/etharp.c:190-226 | In every run, with no news of its address and as long as no search recycles it, a resolved entry lives exactly as long as its age is below ARP_MAXAGE seconds, and keeps its link address. |
| ArpRun.EmptyEntrySpares | ingenialink/ecat/lwip/etharp.c:281-373 | As long as some entry is empty, nothing but the timer gives up a resolved entry. |
| ArpCache.Arp.constructor | ingenialink/ecat/lwip/etharp.c:102-106 | The table is empty and the invariant holds. |
| ArpCache.Arp.FreeEntry | ingenialink/ecat/lwip/etharp.c:161-182 | The waiting packets are freed in order and the entry is empty; no other entry changes. |
| ArpCache.Arp.Sweep | ingenialink/ecat/lwip/etharp.c:281-337 | The single sweep finds the match, or else the first empty entry and the oldest entry of each class. |
| ArpCache.Arp.FindEntry | ingenialink/ecat/lwip/etharp.c:249-395 | The search in place, by candidates of each class, is the search on the table as a value, of which `ArpLaws.FindRecycles` tells which entry it gives and what it leaves. |
| ArpCache.Arp.UpdateEntry | ingenialink/ecat/lwip/etharp.c:415-485 | The update in place is the update on the table as a value, packet by packet. |
| ArpCache.Arp.QueryEntry | ingenialink/ecat/lwip/etharp.c:947-1102 | The query in place is the query on the table as a value, with the hint set where a packet went out and the status of the query. |
| ArpCache.Arp.EnqueueAt | ingenialink/ecat/lwip/etharp.c:1043-1080 | The packet joins the end of the queue; past the limit the oldest one is freed. |
| ArpCache.Arp.OutputToIndex | ingenialink/ecat/lwip/etharp.c:763-786 | A refresh request goes out, and the entry starts its pause of two ticks, exactly if the entry is stable, old enough and the request could be sent; the packet always goes out. |
| ArpCache.Arp.Send | ingenialink/ecat/lwip/etharp.c:806-912 | Output with the hint and the scan is output by the first resolved entry, with its status, and keeps the invariant; `ArpLaws.OutputRoutes` tells where the packet goes. |
| ArpCache.Arp.Timer | ingenialink/ecat/lwip/etharp.c:190-226 | The sweep in place ages every entry once and keeps the invariant. |
| ArpCache.Arp.Receive | ingenialink/ecat/lwip/etharp.c:632-758 | A well-formed message updates the table, recycling only if it is for us, and is answered exactly if it is a request for us. |
| CrcCcitt.CrcIsRemainder | ingenialink/ecat/net.c:187-225 | The bit-by-bit CRC is the remainder of the message times x^16 divided by x^16 + x^12 + x^5 + 1. |
| CrcCcitt.PolyValue | ingenialink/ecat/net.c:198 | The divisor below x^16 is the number 0x1021. |
| CrcCcitt.TableStep | ingenialink/ecat/net.c:207-212 | One table look-up does eight bit steps. |
| CrcCcitt.InitTable | ingenialink/ecat/net.c:187-205 | Every table entry is eight bit steps on its index. |
| CrcCcitt.Calc | ingenialink/ecat/net.c:214-225 | The table-driven loop computes the remainder of the message, for every byte string. |
| CrcCcitt.MessageBitsAt | ingenialink/ecat/net.c:214-225 | The message divided is the bytes in their order, each with its most significant bit first. |
| CrcCcitt.CrcLinear | ingenialink/ecat/net.c:207-225 | The CRC is linear under exclusive or. |
| CrcCcitt.BurstDetected | ingenialink/ecat/net.c:207-225 | Two messages of the same length that differ by a non-empty burst of at most 16 bits have different CRCs. |
| CrcCcitt.CrcCloses | ingenialink/ecat/net.c:207-225 | A message followed by its own CRC has CRC zero. |
| IntelHex.Output | ingenialink/ecat/net.c:2337-2364 | The file written is the data records of the buffer, 32 bytes each, and the end record. |
| IntelHex.ChecksumCloses | ingenialink/ecat/net.c:2349-2356 | The printed digits of a data record fall into bytes that add up to 0 modulo 256 exactly if its address has four digits; with five a digit is left over. |
| IntelHex.ScanHexPrinted | ingenialink/ecat/net.c:2293-2301 | What was printed with k digits is read back by a scan of k digits, wherever it stands. |
| IntelHex.RecordReadBack | ingenialink/ecat/net.c:2291-2312 | Reading one written record with a four-digit address puts its bytes back, and moves start and length as it should. |
| IntelHex.SpilledRecord | ingenialink/ecat/net.c:2293-2312 | A record past 64 KiB has a five-digit address; whatever reading it does, start and length stay. |
| IntelHex.Input | ingenialink/ecat/net.c:2258-2327 | The reading loop on the buffer does what the reading of the file as a text says (`IntelHexFiles.FileAccepted`): result and every byte, and start and length on success; on failure the caller's variables stay. |
| IntelHexFiles.RecordAccepted | ingenialink/ecat/net.c:2284-2308 | A data record that is printed in full is accepted if and only if its bytes, count, address and check byte included, add up to 0 modulo 256; either way its data are stored at its address and start and length take it in. |
| IntelHexFiles.FileAccepted | ingenialink/ecat/net.c:2272-2318 | A file of data records short enough for the line buffer (122 bytes each) is read with success if and only if every one of them adds up to 0, and then all are stored in their order. |
| IntelHexFiles.BadLineFails | ingenialink/ecat/net.c:2278-2283 | A line of less than 11 characters or without a colon makes the reading fail. |
| IntelHexFiles.OtherTypesIgnored | ingenialink/ecat/net.c:2286-2287 | A record of another type is passed over, whatever its check byte. |
| IntelHexFiles.UnreadableIgnored | ingenialink/ecat/net.c:2286-2287 | So is a line whose count cannot be read. |
| IntelHexFiles.MissingCheck | ingenialink/ecat/net.c:2300-2301 | A record whose line ends before the check byte is judged by its last data byte in place of it. |
| IntelHexFiles.LongLineCut | ingenialink/ecat/net.c:2276-2277 | A line of more than 255 characters is cut after 255 of them, and the next character is lost. |
| IntelHexFiles.WrittenAt | ingenialink/ecat/net.c:2346-2359 | Up to 64 KiB record k stands 76 k characters into the file and holds the 32 bytes from 32 k on, or those that are left. |
| IntelHexFiles.Literally | ingenialink/ecat/net.c:2351-2357 | One byte 0xAB at 0x12EF is written as the line :0112EF00AB53. |
| IntelHexFiles.EndRecordCloses | ingenialink/ecat/net.c:2360 | The bytes of the end record add up to 0 modulo 256. |
| IntelHex.RoundTrip | ingenialink/ecat/net.c:2258-2364 | Reading back what was written returns start 0, the length and the bytes if and only if the buffer holds 1 to 65536 bytes; the rest of the memory is as it was. |
| Monitoring.Interleave | ingenialink/eth/net.c:1477-1515 | The loop ends and writes the samples of all channels block by block, as many blocks as reach the size; exactly the size if and only if that is a whole number of blocks. |
| Monitoring.EncodeAt | ingenialink/eth/net.c:1484-1513 | Byte k of a sample has the weight 256^k. |
| Monitoring.SampleRange | ingenialink/eth/net.c:1486-1513 | A channel carries every 16-bit or 32-bit pattern of its type, and nothing for another type. |
| Monitoring.WireExample | ingenialink/eth/net.c:1477-1515 | Two samples of a 16-bit and a 32-bit channel, byte by byte as they are sent. |
| Monitoring.Process | ingenialink/eth/net.c:1783-1825 | Every whole block is taken apart into the channels, and nothing else changes, also where the blocks of the drive are shorter than the mapped channels and samples come from the next one. |
| Monitoring.CoveringBlocks | ingenialink/eth/net.c:1783-1825 | Blocks that cover the mapped channels are never read beyond the bytes collected. |
| Monitoring.Collect | ingenialink/eth/net.c:1755-1767 | A frame's bytes, clipped to what was ready, are appended to those collected. |
| Monitoring.RoundTrip | ingenialink/eth/net.c:1477-1825 | Taking apart what was interleaved returns every sample of every channel of two and four bytes. |
| Monitoring.CollectedWhole | ingenialink/eth/net.c:1336-1357 | Frames that carry a byte string in pieces of any size are collected to that byte string. |
| Monitoring.EndToEnd | ingenialink/eth/net.c:1336-1825 | From the channels of the drive to those of the caller: every sample comes through, whatever the sizes of the frames between. |
| Poller.EachFetchAsExpected | ingenialink/poller.c:31-63 | In every interleaving each fetch returns, in order, the complete samples since the last fetch, as many as the buffer holds, marked as having lost some exactly when a tick found the buffer full. |
| Poller.SampleOf | ingenialink/poller.c:36-60 | Each reading adds one sample, with its time and the values of the mapped channels, unless a mapped channel failed. |
| Poller.NothingMissing | ingenialink/poller.c:239-250 | If no buffer is marked, the fetched buffers and the current one hold every complete sample exactly once, in the order of the ticks. |
| Poller.Sampler.Start | ingenialink/poller.c:192-226 | Refused while running; a timer or counter that fails leaves everything as it was, a thread that fails an emptied buffer; otherwise a session begins with an empty buffer. |
| Poller.Sampler.Tick | ingenialink/poller.c:29-60 | The buffer being filled gets the sample, is marked, or stays, and the other buffer is not touched. |
| Poller.Sampler.DataGet | ingenialink/poller.c:239-250 | The filled buffer is handed out with all it holds, and the other becomes the one being filled, empty. |
| Poller.Sampler.Execute | ingenialink/poller.c:239-250 | In every interleaving a buffer looked at just before the next fetch still holds what it held when it was handed out. |
| PowerStates.DecodeExact | ingenialink/eth/servo.c:210-234 | A statusword shows at most one state and decoding finds it, so the order of the tests does not matter; words that show none count as not ready. |
| PowerStates.EveryTransitionHelps | ingenialink/eth/servo.c:365-505 | Every transition the drive may take under the command sent leads strictly closer to the target and never into a fault (Figure 3 and Table 27 of DS402 Part 2). |
| PowerStates.PlannedCommands | ingenialink/eth/servo.c:365-505 | The command by its name for every goal and state: voltage is disabled wherever no other command is due, so switch_on takes a drive out of a quick stop while enable lets it go on; a quick stop is never commanded. |
| PowerStates.FaultEnds | ingenialink/eth/servo.c:507-549 | A fault ends under the reset command, and under no other that is sent. |
| PowerStates.PlanMoves | ingenialink/eth/servo.c:365-505 | In every state on the way the planned command allows some transition, so an obedient drive is never stuck. |
| PowerRuns.KeepsStep | ingenialink/eth/servo.c:365-505 | As long as a sequence is not over and no fault shows, the controlword in force, the last one accepted, is the one planned for the word read last. |
| PowerRuns.Arrives | ingenialink/eth/servo.c:365-505 | A drive that moves only as the controlword in force allows, and within a delay where it allows a move, reaches the target within its distance times the delay; the sequence ends there, with success, and not before. |
| PowerRuns.AnObedientDrive | ingenialink/eth/servo.c:452-505 | There are such drives: one that is enabled from switch-on disabled. |
| PowerRuns.RunningIff | ingenialink/eth/servo.c:74-549 | With no write refused, every sequence, fault resets included, is still running after any reads if and only if no word read in the loop showed the target (or, in enable, a fault), no reset episode, from a faulty word looked at to the first without fault, brought a 21st faulty word, and every repeated word came with time left; its commands are then those that the words ask for, one for every new word. |
| PowerRuns.RunningInterval | ingenialink/eth/servo.c:74-128 | With an interval of a number of reads for every wait, as in the code: still running if and only if no word ended it and none came more often than that in a row. |
| PowerRuns.RunningPastLimit | ingenialink/eth/servo.c:64-72 | With one time-out for all waits together, as the comment promises: still running past its limit if and only if it was at the limit, and every word read since is new and ends nothing. |
| PowerRuns.NeedNotEnd | ingenialink/eth/servo.c:74-505 | For every number of reads and every time-out there is a drive that keeps a sequence going that long, one command a read. |
| PowerRuns.FaultsNeedNotEnd | ingenialink/eth/servo.c:365-450 | Disabling and switching on can be kept going by faults that are gone whenever the reset looks. |
| PowerLink.Link.WaitChange | ingenialink/eth/servo.c:74-128 | The wait ends with the first other statusword, or gives up on the same one, and only when its time is over. |
| PowerLink.Link.FaultReset | ingenialink/eth/servo.c:507-549 | The reset is its step machine: at most 20 pulses of a zero and a reset command, one for every faulty word, cut short only by a refused write; success only if the last statusword shows no fault, and a fault reported only after all 20. |
| PowerLink.Link.Enable | ingenialink/eth/servo.c:452-505 | Against any drive: the commands written, the reads made and the outcome are those of the step machine, and it reads on exactly until that is over. |
| PowerLink.Link.Approach | ingenialink/eth/servo.c:365-450 | Disabling and switching on, likewise. |
| PowerLink.Link.EnableObedient | ingenialink/eth/servo.c:452-505 | A drive that obeys the controlwords it is sent is enabled from every state without fault, within a bound on the reads. |
| PowerLink.Link.ApproachObedient | ingenialink/eth/servo.c:365-450 | Such a drive is disabled, or switched on, from every state without fault. |
| PowerLink.LongRun | ingenialink/eth/servo.c:452-505 | For every number of reads, and whatever the time-outs, there is a link on which enable makes that many and is still running. |
| AddressText.Aton | ingenialink/ecat/lwip/ip4_addr.c:154-266 | The loops in place read what their definition over the text says. |
| AddressGrammar.AtonExact | ingenialink/ecat/lwip/ip4_addr.c:144-266 | For every text: something else is returned than promised, with numbers as in C of any size, if and only if there are at most four parts of accepted digits, one of them 2^32 or more, with an 8 or 9 in octal, or just 0x, and the values modulo 2^32 fit their places. Then they are the address returned, where the promise is to refuse. |
| AddressGrammar.RestUnread | ingenialink/ecat/lwip/ip4_addr.c:213-218 | What follows the white space or NUL after the parts does not matter. |
| AddressGrammar.EveryTextSplits | ingenialink/ecat/lwip/ip4_addr.c:200-224 | Every text is some pieces with dots between, up to its end, a NUL or white space. |
| AddressGrammar.PieceRead | ingenialink/ecat/lwip/ip4_addr.c:173-199 | A piece of accepted digits is read to its end with its value modulo 2^32; any other stops the reading within it. |
| AddressGrammar.TooLargeTaken | ingenialink/ecat/lwip/ip4_addr.c:188-198 | Every decimal number of 2^32 or more is taken for what is left modulo 2^32. |
| AddressGrammar.Misread | ingenialink/ecat/lwip/ip4_addr.c:173-199 | Concrete failures: 4294967296 is taken for 0, 08 for 8, 0x for 0. |
| AddressText.NtoaR | ingenialink/ecat/lwip/ip4_addr.c:292-329 | The dotted text and its end mark are written exactly if the buffer holds them. |
| AddressText.TextExample | ingenialink/ecat/lwip/ip4_addr.c:292-329 | The parts are written with the high byte first: 0xC0A80001 is 192.168.0.1. |
| AddressText.TextReadBack | ingenialink/ecat/lwip/ip4_addr.c:154-329 | Reading the printed form of any address returns the address. |
| AddressText.SixteenSuffice | ingenialink/ecat/lwip/ip4_addr.c:280-284 | 16 bytes hold every address with its end mark. |
| AddressText.NetmaskValid | ingenialink/ecat/lwip/ip4_addr.c:92-113 | Accepted are exactly the numbers 2^32 - 2^k. |
| AddressText.Itoa | ingenialink/ecat/lwip/def.c:193-217 | For every number, the least included, the signed decimal text and its end mark are written and nothing beyond. |
| AddressText.DecReadBack | ingenialink/ecat/lwip/def.c:193-217 | A decimal reader gets the printed number back. |
| AddressText.SignedReadBack | ingenialink/ecat/lwip/def.c:206-210 | A reader of signed numbers gets every integer back, and no number but zero starts with a zero. |

## Left out

- PowerLink.Link.Approach: is one method for disable and switch_on, whose loops differ only in the target and the commands. Sleeping and the clock are a function from the read at which a wait begins to the read at which it gives up on an unchanged word.
- PowerLink.Link.FaultReset: reading the statusword is taken to succeed, here and in all sequences (the code does not look at failures of these reads), and so is reading the clock before a wait; None stands for a run that is not over when the given answers are used up.
- Monitoring.Interleave: requires a positive block size; with none the loop of the code does not end. The code allocates only `size` bytes and the last block may reach beyond them.
- Monitoring.Process: requires a positive block size of the drive, and that the mapped channels of the last block lie within the bytes collected; beyond them the code would read what it did not write; a sample is its bytes in memory, so signed and floating-point values are carried as bit patterns.
- AddressText.Itoa: requires room for the text, since the code ignores the size it is given.
- DictLabels.Labels.Set: what the store past the end of the array does is not modelled, only that it happens; the copies of the two strings are taken to succeed.
- CrcCcitt.Calc: requires fewer than 0x8000 words; with more, the 16-bit byte index of the code wraps before it reaches their number and the loop does not end.
- InetChecksum.Checksum1: requires at most 2^17 bytes; beyond that the 32-bit accumulator may wrap.
- InetChecksum.Checksum2: requires at most 2^17 bytes, for the same reason.
- IntelHex.Input: a scan takes digits only; the white space, signs and 0x prefixes that sscanf would also take are not modelled, and a read beyond the line buffer counts as the end of the line. What the scan variable holds before the first scan is a parameter.
- ArpTable.VictimIsCheapest: static entries, and matching by interface, are configured off in the repository and not modelled.
- Poller.Sampler.Tick: reading a register is a value or a failure; reconfiguring a stopped poller is not modelled.
- KHash.Table.Rebuild: giving memory back to the allocator when a table shrinks is taken to succeed; the bound 0.77*n + 0.5 is taken as (77*n + 50)/100, which agrees for every power of two.
- The hash function of strings (X31) is a parameter: every result holds for every hash function.
- Pbufs and memory pools: a chain is a sequence of pieces; an allocation succeeds or fails as a parameter says. Lists of datagrams and fragments are sequences, so pointer relinking is not modelled.
- Of a fragment's own header only the offset field and MF are modelled; its length and checksum fields follow from the payload.
- Byte swaps and string searches in `ingenialink/ecat/lwip/def.c`, and the broadcast test of `ip4_addr.c`: easy members.
- A little-endian host is assumed by the checksum, as by the drivers.
- Debug assertions of lwIP, statistics, ICMP, IPv6, AutoIP, DHCP, IGMP and VLAN are configured off or side effects only.
- The result of handing a frame to the driver is taken as success in the ARP model.
- Which addresses are broadcast, multicast, local or remote is a parameter of the ARP model; the tests behind it are not modelled.
- Sockets, threads, sleeping, signals, EEPROM access and firmware update: input and output only.
- Dictionaries in XML (`ingenialink/dict.c`): rest on libxml2; their hash tables are those modelled here.
- Dispatch tables (`ingenialink/servo.c`, `ingenialink/net.c`) and the EtherCAT copies of the Ethernet servo and monitoring code: they would only repeat what is here.
- Subscriber arrays, the emergency ring and reference counts (`ingenialink/base`, `ingenialink/utils.c`): easy members.
