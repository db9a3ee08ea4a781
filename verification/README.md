# SOPT announce path, gatekeeper and site helpers in Dafny

A model of the core of SOPT, a private BitTorrent tracker written in Rust.
It covers four parts.

- **The tracker's peer registry** (a Redis module). Each torrent has one
  `SeederInfo`. While the swarm is small this is an inline `SeederArray` of
  four buckets with in-use flags and per-bucket expiry. When the array
  overflows it is promoted to a `SeederMap`: two insertion-ordered
  generations that flip when the refresh window runs out. It is demoted
  again when compaction leaves fewer than three peers. `ANNOUNCE` parses
  its arguments, compacts, then deletes or inserts the peer. It answers
  with compact peer buffers: six bytes per IPv4 peer as in BEP 23, and
  eighteen bytes per IPv6 peer as in BEP 7.
- **The proxy in front of it.** The passkey filter is a counting Bloom
  filter, modelled as an exact count per key. Updates queue in front of it
  and are committed in batches of 32, and it is rebuilt when it outgrows
  its capacity. The admission check reads the peer id length and the
  filter. `fix_ip` normalises addresses and the `ANNOUNCE` command is
  built from the request. The tracker's reply is relayed to the client as
  a bencoded dictionary (the "bencoding" section of BEP 3). The encoder
  writes each peer buffer as a list of integers, one per byte, not as the
  compact byte string a client expects (see Findings). Peer ids are
  classified into client vendors with the BEP 20 conventions and base16
  (section 8 of RFC 4648).
- **The site's helpers.** These are:
  - the invitation-code timestamp round trip;
  - the passkey shape;
  - the torrent-file framing with a personal announce address;
  - the table row derived from an uploaded torrent;
  - the search engine's tokenizer and its forward and reverse index;
  - the role-bit predicates.

Everything is a pure function over immutable values. The following are
parameters instead of effects:
- the clock, as `now` or `clock`;
- the random draws, as `seed`, `rand` and the random characters;
- hash digests;
- address parsing and printing;
- the tracker's reply as the proxy receives it;
- whether the backend accepted the relayed record.

Each async filter method is one atomic step. The one exception is
`expand`, which is split at the point where concurrent updates can
arrive.

The model follows the code in these places, some of which look
unintended:
- `SeederMap::compaction` sets the next compaction time to the current
  time, not one window later (tracker/src/seederinfo/seedermap.rs:68-71).
  So an entry that is not refreshed is still served from the passive
  generation after one flip. `SeederMaps.UnrefreshedEntryLifetime`
  states this.
- Inserting a key that only the passive generation holds stores the new
  peer unmerged (seedermap.rs:77-86).
- The bencoded reply's interval key is spelled `inteval`
  (proxy/src/tracker_route/data.rs:164).
- The tracker parses the torrent and user ids as `u64`, so a negative id
  written by the proxy is refused (`AnnounceData.NegativeTidRefused`).
  `numwant` is read as a `usize`, not a `u16`.
- The admission check never classifies the peer id and never consults
  `ALLOWED_CLIENT` (proxy/src/config/mod.rs). It checks only the id's
  length and the passkey (proxy/src/tracker_route/context.rs:30-45).
- A delete of a key the filter never counted still lowers `amount`, which
  wraps as an `AtomicU32`. See `PasskeyFilter.UnknownDeletesWrapAmount`.

## Model

| member | source | states |
|---|---|---|
| Peers.New | tracker/src/peerinfo.rs:22-30 | a new peer has no IPv4, no IPv6 and port 0 |
| Peers.From | tracker/src/peerinfo.rs:32-62 | `get_ipv4`, `get_ipv6` and `get_port` (`Peers.GetIpv4`, `GetIpv6`, `GetPort`) give back exactly the values `from` was given |
| Peers.Update | tracker/src/peerinfo.rs:64-79 | a family the update carries overwrites this peer's address of that family; a family it lacks is kept; the port never changes; a present family is never cleared |
| Peers.UpdateIdempotent | tracker/src/peerinfo.rs:64-79 | applying the same update twice equals applying it once |
| Peers.UpdateJoinsFamilies | tracker/src/peerinfo.rs:64-79 | an IPv4-only peer updated by an IPv6-only one ends with both, its IPv4 unchanged |
| Registry.NewBucket | tracker/src/seederinfo/mod.rs:19-25 | `Bucket::new` has key 0, expiry 0 and an address-less peer |
| Registry.BucketFrom | tracker/src/seederinfo/mod.rs:27-33 | `Bucket::from` keeps key and peer and expires 2700 seconds after `now` |
| Registry.Insert | tracker/src/seederinfo/seedermap.rs:79-84 | `IndexMap::insert` adds the key, appends a new key at the end, and leaves exactly the new entry plus the old entries of other keys |
| Registry.SwapRemove | tracker/src/seederinfo/seedermap.rs:88-93 | `swap_remove` keeps exactly the entries of other keys, shrinks the table by one when the key was there, and leaves the key absent |
| Registry.GetInsert | tracker/src/seederinfo/seedermap.rs:79-84 | after an insert, lookup of the key gives the new value and every other lookup is unchanged |
| Registry.GetSwapRemove | tracker/src/seederinfo/seedermap.rs:88-93 | after a swap-remove, lookup of the key gives nothing and every other lookup is unchanged |
| SeederArrays.New | tracker/src/seederinfo/seederarray.rs:12-17 | four default buckets, none in use, holding no entry |
| SeederArrays.Insert | tracker/src/seederinfo/seederarray.rs:23-42 | a live key is merged in place with a refreshed expiry; else the lowest free slot is claimed with a fresh bucket; with none free it fails; no other slot changes; slot keys stay distinct |
| SeederArrays.InsertLookup | tracker/src/seederinfo/seederarray.rs:23-42 | insert fails exactly when the key is absent and all four slots are taken; on success the key reads as the merged (or new) peer and every other key reads as before |
| SeederArrays.InsertRoom | tracker/src/seederinfo/seederarray.rs:33-41 | with a free slot insert cannot fail, and it takes at most one slot |
| SeederArrays.Delete | tracker/src/seederinfo/seederarray.rs:44-51 | the first slot in index order holding the key, live or not, is freed; buckets and other flags are untouched; the key is no longer live |
| SeederArrays.DeleteLookup | tracker/src/seederinfo/seederarray.rs:44-51 | after delete the key reads as absent and every other key reads as before |
| SeederArrays.Compaction | tracker/src/seederinfo/seederarray.rs:53-60 | frees exactly the in-use slots whose expiry is before `now`; buckets are untouched |
| SeederArrays.CompactionLookup | tracker/src/seederinfo/seederarray.rs:53-60 | after compaction a key reads as its peer when its bucket has not expired, else as absent |
| SeederArrays.GenResponse | tracker/src/seederinfo/seederarray.rs:62-79 | `peers` and `peers6` decode, in slot order, to the IPv4 and IPv6 address and port of every in-use peer that has that family |
| SeederArrays.From | tracker/src/seederinfo/seederarray.rs:81-90 | fails exactly when the map holds four or more entries; otherwise distinct entries fill a prefix of the slots in the map's iteration order |
| SeederArrays.HoldsPrefixLookup | tracker/src/seederinfo/seederarray.rs:81-90 | an array built that way reads exactly as the entries it was built from |
| SeederMaps.New | tracker/src/seederinfo/seedermap.rs:24-30 | both generations empty, generation 0 live, compaction one window away |
| SeederMaps.Count | tracker/src/seederinfo/seedermap.rs:73-75 | `get_seeder_cnt` is the sum of both generations' sizes |
| SeederMaps.Iter | tracker/src/seederinfo/seedermap.rs:134-136 | the live entries then the passive ones; distinct keys when the generations are disjoint; reads as the map reads |
| SeederMaps.Insert | tracker/src/seederinfo/seedermap.rs:77-86 | a uid already live is merged, otherwise stored as given even if passive held it; the uid leaves the passive generation; other keys are untouched; the generations stay disjoint |
| SeederMaps.Delete | tracker/src/seederinfo/seedermap.rs:88-93 | the uid is in neither generation afterwards; other keys are untouched; the generations stay disjoint |
| SeederMaps.Compaction | tracker/src/seederinfo/seedermap.rs:95-102 | past the compaction time the passive generation is dropped, live becomes passive, an empty one becomes live and the time is set to `now`; before that nothing changes |
| SeederMaps.UnrefreshedEntryLifetime | tracker/src/seederinfo/seedermap.rs:68-71 | an entry not refreshed is still served after one flip and gone after the next |
| SeederMaps.Selected | tracker/src/seederinfo/seedermap.rs:104-120 | the window skips `rand` entries and takes at most `num_want`; exactly `num_want` when there are that many, and every entry when there are no more |
| SeederMaps.GenResponse | tracker/src/seederinfo/seedermap.rs:104-132 | the two lists decode to the addresses of exactly the selected window's peers, in order |
| SeederMaps.From | tracker/src/seederinfo/seedermap.rs:32-41 | every in-use bucket lands in the live generation in slot order; the passive generation is empty |
| SeederInfos.New | tracker/src/seederinfo/mod.rs:48-50 | a new registry is inline and holds no peer |
| SeederInfos.Insert | tracker/src/seederinfo/mod.rs:86-97 | promotion happens exactly when the array is full and the uid is new; afterwards the uid reads as the merged or new peer and every other uid as before |
| SeederInfos.PromoteFacts | tracker/src/seederinfo/mod.rs:89-94 | the map built on overflow holds every peer of the array plus the new one |
| SeederInfos.Delete | tracker/src/seederinfo/mod.rs:79-84 | the uid reads as absent, other uids as before, and the variant does not change |
| SeederInfos.Compaction | tracker/src/seederinfo/mod.rs:52-64 | an array stays an array; a map becomes an array exactly when its compaction leaves fewer than three peers, holding the same peers |
| SeederInfos.DemoteFacts | tracker/src/seederinfo/mod.rs:57-60 | a map of fewer than three peers always converts, and the array reads exactly as the map |
| SeederInfos.GenResponse | tracker/src/seederinfo/mod.rs:66-77 | the reply is `[1800, peers, peers6]`, the lists decoding to the served peers |
| SeederInfos.ServedBounds | tracker/src/seederinfo/mod.rs:66-77 | an array ignores `num_want`; a map sends at most `num_want` peers, and all of them when it holds no more |
| Tracker.ParseEvent | tracker/src/lib.rs:32-43 | `completed` and `stopped` map to their events, `started` and anything else to `Started` |
| Tracker.TryFrom | tracker/src/lib.rs:76-111 | fewer than six arguments are refused; on success each field is what its argument parses to, `none` means no address, numwant defaults to 50 and event to `Started`; a failure comes from an argument that does not parse |
| Tracker.Timestamp | tracker/src/util.rs:3-9 | the timestamp is the clock with bit 0 cleared |
| Tracker.Apply | tracker/src/lib.rs:115-149 | a stop for an empty key answers `?` and creates nothing. Otherwise the key is created if needed, its idle expiry is reset to 2700 s, and other keys are untouched. Every uid but the announcing one reads as in the compacted registry. A stop removes the uid and answers `?`. Any other event makes the uid read as the announced peer merged into its array or live entry, and answers `gen_response(numwant)` |
| Tracker.Prior | tracker/src/lib.rs:123-131 | an empty key is worked on as a new registry with no peers; a stored one as it is |
| Tracker.Refresh | tracker/src/lib.rs:138-146 | the registry stays valid, and every uid but the announcing one reads as after compaction. A stop answers `?` and removes the uid. Otherwise the uid reads as the announced peer merged into its array or live entry, and the answer is drawn from the updated registry |
| Tracker.Announce | tracker/src/lib.rs:115-122 | a malformed command is refused and changes nothing; otherwise the parsed request is applied |
| CompactPeers.Lists | tracker/src/seederinfo/seedermap.rs:121-130 | the two buffers decode to the peers' IPv4 and IPv6 addresses with big-endian ports, in order |
| Bytes.BE16 | tracker/src/seederinfo/seederarray.rs:67-68 | `to_be_bytes` gives two bytes that read back big-endian as the port |
| AnnounceData.FixIp | proxy/src/tracker_route/data.rs:28-48 | an `ip` of one family gives the explicit field of that family or itself; the connection address fills a family still unset; it fails exactly when no family is set; the other fields are unchanged |
| AnnounceData.EventName | proxy/src/tracker_route/data.rs:84-93 | the tracker parses each event's name back to that event |
| AnnounceData.AnnounceCmd | proxy/src/tracker_route/data.rs:50-68 | eight arguments: `ANNOUNCE`, then ids, addresses or `none`, port, numwant and event, each reading back as the request's field |
| AnnounceData.CmdRoundTrip | proxy/src/tracker_route/data.rs:50-68 | with non-negative ids and address text that parses back, the tracker reads exactly the request the proxy wrote |
| AnnounceData.NegativeTidRefused | proxy/src/tracker_route/data.rs:60 | a negative torrent id makes the tracker refuse the command |
| AnnounceData.Bypass | proxy/src/tracker_route/data.rs:104-120 | ids and traffic are copied; the action is always present and is `Stop` or `Complete` exactly for those events |
| AnnounceData.ResponseFrom | proxy/src/tracker_route/data.rs:136-157 | an integer first element is the interval, else 1800; data second and third elements are the peer lists, else empty |
| AnnounceData.EncodeResponse | proxy/src/tracker_route/data.rs:159-171 | the output parses as one bencoded dictionary of `inteval`, `peers`, `peers6`, keys in byte order; each peer buffer reads back as a list of one integer per byte |
| AnnounceData.ListsNotCompact | proxy/src/tracker_route/data.rs:165-166 | the reply as written never equals the compact one: `peers` always reads back as a list |
| AnnounceData.ListExample | proxy/src/tracker_route/data.rs:165 | example: one peer 10.0.0.1:6881 is sent as the list `li10ei0ei0ei1ei26ei225ee` |
| AnnounceData.EncodeCompactResponse | proxy/src/tracker_route/data.rs:159-171 | corrected: the peer buffers go out as byte strings; the dictionary reads back with the buffers unchanged and the keys sorted |
| Bencode.RoundTrip | proxy/src/tracker_route/data.rs:162-170 | any bencoded value parses back from its encoding, consuming exactly the encoding, whatever follows |
| PasskeyFilter.New | proxy/src/filter.rs:54-70 | an empty filter of capacity 8192, amount 0, empty queue, not expanding |
| PasskeyFilter.Push | proxy/src/filter.rs:72-102 | an update is queued; when the queue passes 32 and no expansion runs, the whole queue is committed; the updates in effect gain exactly this one |
| PasskeyFilter.Commit | proxy/src/filter.rs:32-52 | committing empties the queue, applies each update to the counts in order, and moves `amount` one per update, wrapping at 2^32 |
| PasskeyFilter.ScanCache | proxy/src/filter.rs:110-118 | the scan finds a queued set for the key exactly when there is one |
| PasskeyFilter.NoFalseNegatives | proxy/src/filter.rs:104-120 | a key counted once every queued update is applied is reported as contained |
| PasskeyFilter.InsertContains | proxy/src/filter.rs:88-120 | a key just inserted is contained, whether queued or committed |
| PasskeyFilter.QueuedDeleteInvisible | proxy/src/filter.rs:72-86 | a delete still in the queue changes no answer of `contains` |
| PasskeyFilter.CacheBounded | proxy/src/filter.rs:79-85 | outside an expansion the queue never holds more than 32 updates |
| PasskeyFilter.UnknownDeletesWrapAmount | proxy/src/filter.rs:39-42 | 33 deletes of an uncounted key wrap `amount` round, so `check_expand` asks for a rebuild |
| PasskeyFilter.ExpandBegin | proxy/src/filter.rs:132-151 | only one expansion holds the flag; the new capacity is `len * 3 / 2` in 32 bits; the queue is committed into the old filter; the new one counts exactly the keys listed |
| PasskeyFilter.ExpandFinish | proxy/src/filter.rs:152-168 | queued sets are replayed into the new filter, queued deletes dropped, the queue emptied and the flag cleared |
| PasskeyFilter.Expand | proxy/src/filter.rs:132-169 | a second expansion changes nothing; otherwise exactly the listed keys are contained afterwards |
| PasskeyFilter.ExpandConcurrent | proxy/src/filter.rs:152-163 | with updates arriving during the rebuild, exactly the listed keys and the keys set meanwhile are contained |
| PasskeyFilter.ExpandSettles | proxy/src/filter.rs:122-129 | right after an expansion that ran alone, `check_expand` is false |
| Gatekeeper.Validation | proxy/src/tracker_route/context.rs:30-45 | a peer id that is not 20 bytes is refused first, then an unknown passkey; otherwise the request passes |
| Gatekeeper.UpdateFilter | proxy/src/tracker_route/mod.rs:61-78 | the key set is contained afterwards unless a rebuild runs, in which case exactly the database's keys are |
| Gatekeeper.SetPasskeyAdmitted | proxy/src/tracker_route/mod.rs:61-78 | a passkey just set is admitted on the next announce, unless a rebuild ran and the database lacks it |
| Gatekeeper.ReplyValues | proxy/src/tracker_route/mod.rs:40 | reading the reply as `Vec<Value>` succeeds exactly for an array (its elements) or nil (none); anything else is a type error |
| Gatekeeper.Announce | proxy/src/tracker_route/mod.rs:30-58 | only a validated request reaches the tracker; a missing address panics; a reply that is not an array or nil fails before the relay; a refused relay is an error; the body parses as the tracker's interval and peer lists, as the encoder writes them |
| Gatekeeper.StopNeverRelayed | proxy/src/tracker_route/mod.rs:40 | the tracker's `?` answer to a stop makes the handler fail before the backend is told, whatever the backend would say |
| Gatekeeper.AnnounceIntended | proxy/src/tracker_route/mod.rs:30-58 | corrected: any reply is read, a non-array as no values; every validated announce with an address is relayed; the body carries compact byte strings |
| Gatekeeper.StopRelayedWhenCorrected | proxy/src/tracker_route/mod.rs:40-56 | corrected: a stop is answered exactly when the backend accepts it, with interval 1800 and no peers |
| Gatekeeper.IntendedRelaysPeers | proxy/src/tracker_route/mod.rs:40-42 | corrected: the client's `peers` and `peers6` are byte strings decoding to exactly the peers `gen_response` chose |
| Gatekeeper.TrackerReplyRelayed | proxy/src/tracker_route/mod.rs:40-42 | `gen_response`'s reply converts; the buffers the proxy reads from it decode to exactly the peers the tracker chose, with interval 1800 |
| ClientIds.SubStr | proxy/src/config/client.rs:220-222 | the slice between two positions, failing exactly when a position is past the end or not on a character boundary |
| ClientIds.IsAzStyle | proxy/src/config/client.rs:205-218 | true only for a leading `-`; false for any other first character; it panics exactly when there is no character, or a leading `-` with fewer than eight characters and no code to read |
| ClientIds.Classify | proxy/src/config/client.rs:188-201 | an Azureus-style id with a listed code gets that client; otherwise the fixed prefix that begins the id decides, else `EncodeError`. It panics exactly when `is_az_style` panics, or when the id is Azureus-style and `sub_str(id, 1, 3)` panics |
| ClientIds.PrefixDecision | proxy/src/config/client.rs:195-201 | the client whose fixed prefix begins the id, or `EncodeError` when none does |
| ClientIds.PeerId | proxy/src/config/client.rs:175-186 | a 20-byte id is taken as it is; otherwise its hex decoding must be 20 bytes of UTF-8, else `EncodeError` |
| ClientIds.New | proxy/src/config/client.rs:174-202 | `Client::new` is the classification of the decoded peer id, or `EncodeError` |
| ClientIds.SpPrefixFree | proxy/src/config/client.rs:157-171 | no two fixed prefixes begin the same id |
| ClientIds.SpOrderIrrelevant | proxy/src/config/client.rs:195-199 | any iteration order of the prefix table gives the same answer |
| ClientIds.HexFormSame | proxy/src/config/client.rs:177-186 | the hex form of a 20-byte id names the same client as the id itself |
| ClientIds.AsciiNeverPanics | proxy/src/config/client.rs:205-222 | a 20-byte ASCII id never makes classification panic |
| ClientIds.AzAscii | proxy/src/config/client.rs:188-194 | an ASCII Azureus-style id with a listed code is classified by that code |
| ClientIds.SpAscii | proxy/src/config/client.rs:195-199 | an ASCII id not starting with `-` is classified by the prefix that begins it |
| ClientIds.UnlistedRejected | proxy/src/config/client.rs:201 | an Azureus-style id with an unlisted code and no matching prefix is refused |
| ClientIds.OddLengthRejected | proxy/src/config/client.rs:177-178 | text of odd length is refused |
| ClientIds.PanicExample | proxy/src/config/client.rs:208 | example: a well-formed 20-byte id with a leading `-` and only six characters makes `is_az_style` panic |
| ClientIds.AresExample | proxy/src/config/client.rs:227-237 | example: the test's raw Azureus-style id names Ares |
| ClientIds.PandoExample | proxy/src/config/client.rs:264-272 | example: the test's `Pando` id names Pando |
| ClientIds.TixatiExample | proxy/src/config/client.rs:264-272 | example: the test's `TIX` id names Tixati |
| Bytes.HexRoundTrip | proxy/src/config/client.rs:178 | hex decoding undoes hex encoding |
| SiteUtil.Split | backend/src/util.rs:142 | `split('_')` always gives a piece, no piece holds the separator, and there is one piece exactly when the separator is absent |
| SiteUtil.SplitJoin | backend/src/util.rs:142 | joining the pieces with the separator gives back the input |
| SiteUtil.JoinSplit | backend/src/util.rs:142 | splitting a join of separator-free pieces gives back the pieces |
| SiteUtil.RandomCodePieces | backend/src/util.rs:125-137 | a code from `SiteUtil.RandomCode` splits into the random characters and the time's decimal form |
| SiteUtil.TimeFromCode | backend/src/util.rs:141-147 | the invalid-code error happens exactly when there is no `_` |
| SiteUtil.TwoPieces | backend/src/util.rs:141-147 | a code of two `_`-free pieces gives the trimmed second piece read as an `i64`, or a parse error |
| SiteUtil.ExtraPiecesIgnored | backend/src/util.rs:146 | pieces after the second do not change the time |
| SiteUtil.CodeRoundTrip | backend/src/util.rs:125-147 | a generated code gives back the time it was made with |
| SiteUtil.ValidCodeExample | backend/src/util.rs:303-311 | example: the test's valid code gives 114514 |
| SiteUtil.NoSeparatorExample | backend/src/util.rs:304-312 | example: the test's code without `_` is invalid |
| SiteUtil.LettersInTimeExample | backend/src/util.rs:305-313 | example: the test's code with letters in its time is a parse error |
| SiteUtil.Passkey | backend/src/util.rs:40-55 | 32 ASCII characters that hex-decode to the first 16 bytes of the digest |
| SiteUtil.PasskeyIsLowerHex | backend/src/util.rs:53-54 | every passkey character is a lower-case hex digit |
| SiteUtil.AnnounceUrl | backend/src/util.rs:224-227 | the address begins with the configured announce address |
| SiteUtil.AnnounceUrlFields | backend/src/util.rs:224-227 | the address splits at its one `?` into the configured address and a query of exactly `passkey=`, `tid=` and `uid=` fields |
| SiteUtil.AnnounceIdsRead | backend/src/util.rs:224-227 | the ids in the query read back as the numbers written |
| SiteUtil.TorrentFileUnsorted | backend/src/util.rs:215-237 | the file `SiteUtil.TorrentFile` writes parses as a dictionary of the info, the personal announce address and the comment, but its keys are not in BEP 3's sorted order |
| SiteUtil.SortedTorrentFileParses | backend/src/util.rs:215-237 | the corrected file parses to the same entries with the keys in sorted order |
| SiteUtil.SameEntries | backend/src/util.rs:231-234 | both files hold the same entries, in a different order |
| SiteUtil.RowLength | backend/src/util.rs:188 | the info's length when present, else eight pieces, wrapping in `i64` |
| SiteUtil.PathJoin | backend/src/util.rs:194-198 | the joined path is empty exactly when there are no components |
| SiteUtil.PathRoundTrip | backend/src/util.rs:194-198 | when no component holds `/`, splitting the path on `/` gives an empty piece then the components |
| SiteUtil.ParseTorrentRow | backend/src/util.rs:171-210 | the row has the placeholder id, name, comment and info bytes, the length above, the digest in hex, and one joined path per file (none for a single file) |
| SiteUtil.Trim | backend/src/util.rs:146 | `trim` leaves no whitespace at either end |
| SiteUtil.TrimStart | backend/src/util.rs:146 | `trim_start` drops the leading whitespace and nothing else |
| SiteUtil.TrimEnd | backend/src/util.rs:146 | `trim_end` drops the trailing whitespace and nothing else |
| Decimal.SignedRoundTrip | backend/src/util.rs:146 | printing an `i64` and parsing it back gives it again |
| Search.SortDedup | src/search.rs:82-83 | `sort` and `dedup` leave the distinct strings in strictly increasing order |
| Search.SortedUnique | src/search.rs:82-83 | only one strictly increasing sequence has a given set of strings |
| Search.SplitWhitespace | src/search.rs:72 | `split_ascii_whitespace` yields non-empty runs without ASCII whitespace, and the text itself when it has none |
| Search.SplitTerminator | src/search.rs:76-77 | `split_terminator` pieces lack the separator and are made of the text's characters; text without it stays whole, and empty text gives nothing |
| Search.Tokenize | src/search.rs:70-85 | tokens are strictly sorted, non-empty and free of ASCII whitespace, `[` and `]`; they are exactly the non-empty pieces of the split text |
| Search.TokenizeIdempotent | src/search.rs:70-85 | tokenizing tokens gives them back |
| Search.NewEngine | src/search.rs:17-23 | a new engine is empty and consistent |
| Search.Delete | src/search.rs:63-68 | panics exactly when one of the id's tokens has no list; otherwise the forward entry is gone and the token set is kept |
| Search.RetainAll | src/search.rs:64-66 | `id` is retained out of the lists of exactly the given tokens |
| Search.DeleteConsistent | src/search.rs:63-68 | on a consistent engine delete cannot panic, keeps it consistent, and leaves the id in no list and without tokens |
| Search.PushAll | src/search.rs:28-30 | the lists gain `id` for exactly the given tokens, a missing list created first |
| Search.Insert | src/search.rs:25-32 | panics exactly when the delete would; the id's tokens become the tokenized text and other ids' entries are kept |
| Search.InsertConsistent | src/search.rs:25-32 | on a consistent engine insert cannot panic, keeps it consistent, and leaves `id` in exactly the lists of the new tokens |
| Search.ReinsertForgets | src/search.rs:112-120 | after re-insertion with new text, a token only the old text had no longer leads to the id |
| Search.SearchIds | src/search.rs:34-60 | each id at most once, exactly the ids in the lists of tokens some pattern is similar to, and only ids with a forward entry |
| Search.CollectIds | src/search.rs:47-53 | the second loop collects the ids of the scored tokens' lists, once each |
| Roles.IsNotSu | src/controller/config.rs:5-7 | holds exactly when bit 63 of the role is clear |
| Roles.IsNoPermissionToTorrents | src/controller/config.rs:8-10 | holds exactly when bit 62 is clear |
| Roles.IsNoPermissionToUsers | src/controller/config.rs:11-13 | holds exactly when bit 61 is clear |
| Roles.IsNoPermissionToSite | src/controller/config.rs:14-16 | holds exactly when bit 60 is clear |
| Roles.CannotInvite | src/controller/config.rs:17-19 | holds exactly when bit 1 is clear |
| Roles.IsNotOrdinaryUser | src/controller/config.rs:20-22 | holds exactly when bit 0 is clear |
| Roles.MaskClear | src/controller/config.rs:5-22 | `role & (1 << k) == 0` on the two's-complement pattern holds exactly when bit k is clear |
| Roles.SuIsSign | src/controller/config.rs:5-7 | a role lacks the super-user right exactly when it is not negative |
| Roles.InviteIsSecondBit | src/controller/config.rs:17-19 | a role cannot invite exactly when its half, rounded down, is even |
| Roles.NoRights | src/controller/config.rs:5-22 | the role 0 holds no right |
| Roles.AllRights | src/controller/config.rs:5-22 | the role -1 holds every right |
| Registry.GetMembership | tracker/src/seederinfo/seedermap.rs:79-93 | in a table of distinct keys, a lookup gives a peer exactly when that entry is in the table |
| SeederInfos.InsertInline | tracker/src/seederinfo/mod.rs:89-95 | the inline insert promotes exactly when the uid is new and no slot is free; the uid then reads as the merged or new peer, other uids as before |
| SeederInfos.EveryOffsetReachable | tracker/src/seederinfo/seedermap.rs:108-120 | every window offset `rand` may produce is reached by some random draw |
| Tracker.ParseAddr | tracker/src/lib.rs:85-92 | `none` is no address; other text is accepted exactly when the address parser accepts it |
| Tracker.ParseNum | tracker/src/lib.rs:83-84 | a number argument is accepted exactly when it is decimal within the type's maximum |
| CompactPeers.Entry4Decodes | tracker/src/seederinfo/seederarray.rs:65-69 | one peer's six-byte entry reads back as its IPv4 address and port, ahead of whatever follows |
| CompactPeers.Entry6Decodes | tracker/src/seederinfo/seederarray.rs:70-75 | one peer's eighteen-byte entry reads back as its IPv6 address and port, ahead of whatever follows |
| Decimal.UnsignedRoundTrip | tracker/src/lib.rs:83-84 | printing a number and parsing it back as an unsigned integer gives it again exactly when it fits the type |
| Bytes.HexEncode | backend/src/util.rs:53 | two lower-case hex digits per byte |
| Bytes.HexDecode | proxy/src/config/client.rs:178 | a decoding has half as many bytes as the text |
| Bencode.ParseValue | proxy/src/tracker_route/data.rs:159-171 | a parsed value consumes at least one byte and no more than the input |
| AnnounceData.FromIp4 | proxy/src/tracker_route/data.rs:31-33 | only an IPv4 `ip` gives an IPv4 address, the explicit `ipv4` field first |
| AnnounceData.FromIp6 | proxy/src/tracker_route/data.rs:34-36 | only an IPv6 `ip` gives an IPv6 address, the explicit `ipv6` field first |
| AnnounceData.KeysSorted | proxy/src/tracker_route/data.rs:161-169 | the reply dictionary's keys are in byte order, in both encodings |
| PasskeyFilter.Contains | proxy/src/filter.rs:104-120 | `contains` never misses a key whose count, with every queued update applied, is positive |
| PasskeyFilter.InsertKey | proxy/src/filter.rs:88-102 | `insert` raises by one the count the filter stands for of that key only; capacity and rebuild flag unchanged |
| PasskeyFilter.DeleteKey | proxy/src/filter.rs:72-86 | `delete` lowers by one the count the filter stands for of a counted key only; capacity and rebuild flag unchanged |
| PasskeyFilter.Wrap | proxy/src/filter.rs:37-41 | a value in range is kept and -1 becomes 2^32 - 1, as `AtomicU32` arithmetic does |
| PasskeyFilter.Add | proxy/src/filter.rs:36 | one more count for the key and no other key touched |
| PasskeyFilter.Remove | proxy/src/filter.rs:40 | one count less for a counted key, an uncounted key left alone, no other key touched |
| PasskeyFilter.BatchAmount | proxy/src/filter.rs:32-45 | the amount after a batch is the old amount plus sets minus deletes, wrapped to 32 bits |
| PasskeyFilter.Queue | proxy/src/filter.rs:72-86 | during a rebuild an update only joins the queue; the old and new filters are untouched |
| PasskeyFilter.SetsOnly | proxy/src/filter.rs:153-163 | the replayed updates are sets, and a key has a queued set in them exactly when it had one in the queue |
| PasskeyFilter.BuildCounts | proxy/src/filter.rs:148-151 | the new filter counts exactly the keys listed |
| PasskeyFilter.ApplySets | proxy/src/filter.rs:153-163 | replaying sets leaves a key counted exactly when it was counted or was set |
| Gatekeeper.Updated | proxy/src/tracker_route/mod.rs:63-68 | the key to set is contained afterwards, and capacity and rebuild flag are unchanged |
| ClientIds.SpMatch | proxy/src/config/client.rs:195-199 | a client is found exactly when some fixed prefix begins the id, and it is one whose prefix does |
| Utf8.StartsAreLeads | proxy/src/config/client.rs:220-222 | in well-formed UTF-8, a position is a character boundary exactly when its byte is not a continuation byte |
| Utf8.AsciiValid | proxy/src/config/client.rs:182-184 | ASCII bytes are well-formed UTF-8, each byte one character |
| SiteUtil.WrapI64 | backend/src/util.rs:188 | the result is congruent to the input modulo 2^64, and equal to it when it fits an `i64` |
| SiteUtil.PathsRoundTrip | backend/src/util.rs:189-199 | for every file whose components lack `/`, its joined path splits back into an empty piece and the components |
| SiteUtil.TrimKeeps | backend/src/util.rs:146 | text without whitespace at either end is left unchanged |
| Search.Remove | src/search.rs:65 | exactly the elements other than the id remain, and distinct elements stay distinct |
| Search.NonEmpty | src/search.rs:81 | exactly the non-empty tokens remain |
| Search.AddAll | src/search.rs:50 | the result holds exactly the ids seen so far and the list's ids, each once |

## Left out

- Concurrency: each async filter method is one atomic step. `expand` is two steps, with any updates arriving in between.
- The counting Bloom filter's hashing and false positives: the filter is an exact count per key, so the model states no false negatives and no false-positive rate.
- Clocks and randomness are parameters: `now`, the tracker clock, the random window offset, the random code characters and the passkey's random number.
- Hash functions are parameters: SHA-256 of the passkey input and SHA-1 of the re-encoded info dictionary.
- Parsing and printing of IP address text belong to the standard library. They are the parameters `parse4`, `parse6`, `show4` and `show6`.
- The Redis module plumbing is left out: key opening, type registration, RDB persistence and the `free` hook. The store is a map from torrent id to registry with an expiry time, read as absent once the clock passes it.
- The Redis error for a key holding another type (tracker/src/lib.rs:134-137) is left out: the model's keyspace holds only registries.
- The HTTP layer, query deserialisation and `serde_qs` encoding of the relayed record are left out. So are the network calls to the tracker and the backend; their results are parameters.
- `get_passkey_from_db` is a database query. Its result is the parameter `keys`.
- The `tokio::spawn` of the rebuild in `update_filter` is modelled as following the update directly.
- Search.SearchIds: the similarity test (Jaro-Winkler above the threshold) is the parameter `similar`, because it is floating-point. The summing of scores and the ordering of results by score are not modelled, so only the set of ids returned is stated, not their order.
- Search.Delete: a panic is the error `Panicked`, with no partial state. The source could have retained the id out of some lists before the panic; from a consistent engine this cannot happen (`Search.DeleteConsistent`).
- SiteUtil.ParseTorrentRow: decoding the upload, setting `private` and re-encoding the info dictionary belong to serde, so their results are parameters. The row is stated given them.
- SiteUtil.RowLength: the multiplication wraps as in a release build. A debug build would panic on overflow instead.
- SiteUtil.TimeFromCode: `trim` uses the Unicode White_Space set, and `from_str_radix` accepts one leading sign; no other Unicode behaviour is modelled.
- `parse_email`, `hash_password`, `verify_password`, `send_mail` and `decode_and_verify_jwt` in backend/src/util.rs are library wrappers outside this core.
- Tracker.TryFrom: the error is one of three kinds, not the library's error text.
- SeederMaps.GenResponse: answers for every `numWant`. The source reserves `num_want * 6` and `num_want * 18` bytes (tracker/src/seederinfo/seedermap.rs:105-106), and `numwant` may be as large as `usize::MAX`. For a large value that product overflows or the allocation fails, and the module panics or aborts. Whether that happens depends on the build and on the memory available, so the model does not state it.
- Gatekeeper.ReplyValues: a reply that is a single bulk string is treated as a type error. Some versions of the client library convert it to a one-element vector instead. The tracker never answers with one.
- Roles: `&` is modelled on the two's-complement pattern of the role, one bit at a time, rather than as a machine operation.
- Logging and the proxy's conversion of replies into HTTP responses are left out, beyond the body bytes.

## Findings

| source | as written | input that shows it | evidently intended | confidence | as-written member | corrected member |
|---|---|---|---|---|---|---|
| backend/src/util.rs:231-234 | the torrent file's dictionary is written by hand with the keys in the order `info`, `announce`, `comment` | any call, e.g. info `de`, comment empty: the file starts `d4:infode8:announce` | a BEP 3 dictionary, whose keys must appear in sorted order: `announce`, `comment`, `info` | medium; not executed | SiteUtil.TorrentFileUnsorted | SiteUtil.SortedTorrentFileParses |
| proxy/src/tracker_route/data.rs:165-166 | the peer buffers are passed to the encoder as `Vec<u8>`, which the encoder's generic vector encoding writes as a list of integers | one IPv4 peer 10.0.0.1:6881: `peers` is sent as `li10ei0ei0ei1ei26ei225ee` | the compact byte string of BEP 23 and BEP 7, `6:` followed by the six bytes | medium (rests on the encoder library's vector encoding, which is not part of this model); not executed | AnnounceData.ListsNotCompact | AnnounceData.EncodeCompactResponse |
| proxy/src/tracker_route/mod.rs:40 | the tracker's reply is read as `Vec<Value>`, but the tracker answers every stop with the status `?` (tracker/src/lib.rs:127, 140), which does not convert | any `event=stopped` announce that passes validation | the stop is relayed to the backend as `Action::Stop`, which the relayed record provides for (data.rs:106-111) | medium; not executed | Gatekeeper.StopNeverRelayed | Gatekeeper.StopRelayedWhenCorrected |
