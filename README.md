# Lambda core, modelled in Dafny

This project models the core of Lambda, a Discord bot for the Tempus Team
Fortress 2 jump servers, together with the QueryMaster game-server client
it ships. It proves properties of that model. Five parts are modelled:

- **UDP query response reassembly** (`UdpQuery.dfy`, with `ByteCursor.dfy`).
  QueryMaster's `UdpQuery` reads a response from a game server.
  - The little-endian int32 header says whether it is a single datagram
    (-1) or a multi-packet response (-2).
  - A multi-packet response is rebuilt from numbered fragments, in the
    GoldSource or the Source layout.
  - A Source response may be bzip2-compressed and CRC32-checked.

  The socket is a sequence of arrivals held by the query object. Each
  receive consumes one arrival, and an exhausted sequence stands for the
  receive timeout. The methods of the `UdpQuery` class follow the source's
  loops. Each is proved equal to a specification function, and the lemmas
  about those functions state the behaviour of the protocol handling.
- **The log filter collection** (`LogFilterCollection.dfy`). This is an
  ordered list of filter objects, some of which may be null:
  - append;
  - remove the first reference;
  - clear;
  - switch `Enabled` on all filters, or on the filters of one type.
- **Tempus data access** (`TempusDataAccess.dfy`). This covers:
  - resolving a typed map name against the map-name list;
  - the bounded, most-recent-first cache of full map overviews;
  - the lookup through that cache;
  - the filter that builds the map-name list.
- **Tempus helpers** (`TempusHelper.dfy`):
  - class id to letter and emote;
  - tick scaling with 64-bit wrap-around;
  - the link builders.
- **Discord channel reconciliation** (`MessageReconciliation.dfy`,
  `TempusServerUpdater.dfy`, `TempusActivityUpdater.dfy`). This is the
  edit/send/delete rule the updaters use to bring a channel in line with a
  fresh list of embeds. It covers the every-fifth-embed delay of the
  server-status update and the pass over the configured channels. The
  Discord calls are modelled as a list of actions.

`Wrappers.dfy` holds the `Option` and `Result` types.

## Model

| member | source | states |
|---|---|---|
| ByteCursor.Skip | src/QueryMaster/GameServer/UdpQuery.cs:103 | LINQ `Skip(n)`: the elements after the first `n`, or nothing when there are fewer |
| ByteCursor.Int32LE | src/QueryMaster/GameServer/UdpQuery.cs:81 | `BitConverter.ToInt32` reads a signed 32-bit value |
| ByteCursor.DecodeEncodeInt32 | src/QueryMaster/GameServer/UdpQuery.cs:81 | every int32 value is read back from its little-endian encoding |
| ByteCursor.EncodeDecodeInt32 | src/QueryMaster/GameServer/UdpQuery.cs:81 | the four bytes read are exactly the encoding of the value read |
| ByteCursor.Int32Negative | src/QueryMaster/GameServer/UdpQuery.cs:165-166 | the int32 is negative iff the top bit of its last byte is set |
| ByteCursor.Int32MinusOne | src/QueryMaster/GameServer/UdpQuery.cs:84 | the header is -1 iff its bytes are FF FF FF FF |
| ByteCursor.Int32MinusTwo | src/QueryMaster/GameServer/UdpQuery.cs:87 | the header is -2 iff its bytes are FE FF FF FF |
| UdpQuery.UdpQuery.constructor | src/QueryMaster/GameServer/UdpQuery.cs:46-47 | a fresh query has all arrivals pending and is not disposed |
| UdpQuery.UdpQuery.ReceiveData | src/QueryMaster/GameServer/UdpQuery.cs:55 | one receive consumes exactly one arrival, or ends in the timeout once none is left |
| UdpQuery.UdpQuery.Dispose | src/QueryMaster/GameServer/UdpQuery.cs:74 | the socket is disposed and nothing else changes |
| UdpQuery.UdpQuery.GetResponse | src/QueryMaster/GameServer/UdpQuery.cs:49-101 | result, unread arrivals and disposal are those of the response specification; the engine type is recorded |
| UdpQuery.UdpQuery.ParseMultiPkt | src/QueryMaster/GameServer/UdpQuery.cs:105-120 | dispatches on the recorded engine type; any other engine is an `ArgumentException` |
| UdpQuery.UdpQuery.ReceiveFragments | src/QueryMaster/GameServer/UdpQuery.cs:129-133 | the fragment loop collects exactly the requested number of datagrams, each keyed by its declared index |
| UdpQuery.UdpQuery.GoldSourcePackets | src/QueryMaster/GameServer/UdpQuery.cs:122-142 | the GoldSource handler equals its specification: collect, sort by index, concatenate |
| UdpQuery.UdpQuery.SourcePackets | src/QueryMaster/GameServer/UdpQuery.cs:144-193 | the Source handler equals its specification: collect, sort, parse the header, concatenate, decompress and check |
| UdpQuery.JoinGoldSource | src/QueryMaster/GameServer/UdpQuery.cs:136-141 | the first fragment from offset 13, then every later one from offset 9, in list order |
| UdpQuery.JoinSource | src/QueryMaster/GameServer/UdpQuery.cs:162-185 | the header of the first fragment, then its payload and each later payload from offset 12; a short fragment is a parse failure |
| UdpQuery.PreCollectConcatenates | src/QueryMaster/GameServer/UdpQuery.cs:56-72 | with `isMultiPacket`, every datagram up to the timeout is appended in arrival order |
| UdpQuery.PreCollectFaultPropagates | src/QueryMaster/GameServer/UdpQuery.cs:66-76 | a socket error other than the timeout ends the pre-collection with that error |
| UdpQuery.FragmentIndex | src/QueryMaster/GameServer/UdpQuery.cs:126-132 | the GoldSource index is the high nibble of byte 8 (below 16); the Source index is byte 9 |
| UdpQuery.FragmentCount | src/QueryMaster/GameServer/UdpQuery.cs:124 | the GoldSource count is the low nibble of byte 8; the Source count is byte 8 |
| UdpQuery.GoldSourceNibbles | src/QueryMaster/GameServer/UdpQuery.cs:124-127 | byte 8 is exactly 16 times the index plus the count |
| UdpQuery.CollectFragments | src/QueryMaster/GameServer/UdpQuery.cs:129-133 | on success, exactly `n` datagrams are consumed, in order, and nothing else; fewer than `n` arrivals is a failure |
| UdpQuery.CollectTimesOut | src/QueryMaster/GameServer/UdpQuery.cs:129-133 | when fewer datagrams arrive than are asked for, the loop ends in the timeout |
| UdpQuery.CollectReadsExactly | src/QueryMaster/GameServer/UdpQuery.cs:129-133 | with enough datagrams, the loop keys each one by its declared index and leaves the rest unread |
| UdpQuery.InsertByIndex | src/QueryMaster/GameServer/UdpQuery.cs:135 | insertion adds exactly one fragment to the list |
| UdpQuery.InsertKeepsSorted | src/QueryMaster/GameServer/UdpQuery.cs:135 | insertion keeps the list ordered by index |
| UdpQuery.SortByIndex | src/QueryMaster/GameServer/UdpQuery.cs:135 | `Sort` by key: an ordering by index that is a permutation of the list |
| UdpQuery.SortedPermutationsAgree | src/QueryMaster/GameServer/UdpQuery.cs:135 | two sorted permutations of fragments whose indices are distinct are equal |
| UdpQuery.SortIgnoresArrivalOrder | src/QueryMaster/GameServer/UdpQuery.cs:135 | with distinct indices, the sorted list does not depend on arrival order |
| UdpQuery.GoldSourceIgnoresArrivalOrder | src/QueryMaster/GameServer/UdpQuery.cs:135-141 | with distinct indices, the GoldSource output does not depend on arrival order |
| UdpQuery.LowestIndexFirst | src/QueryMaster/GameServer/UdpQuery.cs:135-137 | the fragment read from offset 13 is the one with the lowest index |
| UdpQuery.GoldSourceReadsDeclaredCount | src/QueryMaster/GameServer/UdpQuery.cs:124-141 | GoldSource consumes exactly count-1 further datagrams and returns their sorted concatenation; the 4-byte header is not stripped |
| UdpQuery.ParseSourceHeader | src/QueryMaster/GameServer/UdpQuery.cs:163-174 | the payload offset lies within the first fragment |
| UdpQuery.SourceHeaderLayout | src/QueryMaster/GameServer/UdpQuery.cs:163-176 | compressed iff the int32 at offset 4 is negative; the payload starts at 12 or 18; the checksum is the int32 at 14; too short exactly when it ends before its payload |
| UdpQuery.SourceReadsDeclaredCount | src/QueryMaster/GameServer/UdpQuery.cs:150-161 | Source consumes exactly count-1 further datagrams and assembles them in ascending byte-9 order |
| UdpQuery.SourceUncompressedResult | src/QueryMaster/GameServer/UdpQuery.cs:186 | an uncompressed response is the concatenation minus its first 4 bytes |
| UdpQuery.SourceChecksumGuards | src/QueryMaster/GameServer/UdpQuery.cs:187-192 | compressed: succeeds iff decompression works and the CRC32 matches; a mismatch is `InvalidPacketException`; success is the decompressed data minus 4 bytes |
| UdpQuery.ParseSinglePkt | src/QueryMaster/GameServer/UdpQuery.cs:103 | a datagram of at least 4 bytes is its 4 header bytes followed by the payload; a shorter one gives nothing |
| UdpQuery.IsValid | src/QueryMaster/GameServer/UdpQuery.cs:215-222 | valid iff the checksum equals the CRC32 of the data, in both directions |
| UdpQuery.SinglePacketResponse | src/QueryMaster/GameServer/UdpQuery.cs:81-85 | a header of -1 yields the datagram with its first 4 bytes dropped, and nothing more is read |
| UdpQuery.InvalidHeaderRejected | src/QueryMaster/GameServer/UdpQuery.cs:82-97 | a header other than -1 and -2 is an `InvalidHeaderException` carrying the data, and the socket is disposed |
| UdpQuery.UnrecognisedEngineRejected | src/QueryMaster/GameServer/UdpQuery.cs:108-116 | a multi-packet header with an engine other than Source and GoldSource is an `ArgumentException` |
| UdpQuery.PreCollectionStarvesFragmentLoop | src/QueryMaster/GameServer/UdpQuery.cs:56-77 | after the pre-collection, a response declaring two or more fragments finds no datagram left and times out |
| UdpQuery.PreCollectionSocketErrorPropagates | src/QueryMaster/GameServer/UdpQuery.cs:66-76 | a non-timeout socket error in the pre-collection disposes the socket and is rethrown |
| UdpQuery.SortedFragmentsAgree | src/QueryMaster/GameServer/UdpQuery.cs:126-135 | two arrival orders of the same datagrams sort to the same fragment list |
| UdpQuery.ReassemblyIgnoresArrivalOrder | src/QueryMaster/GameServer/UdpQuery.cs:105-161 | with distinct indices, a multi-packet response is reassembled the same whatever the arrival order |
| UdpQuery.GoldSourceExampleSorted | src/QueryMaster/GameServer/UdpQuery.cs:135 | example: fragments arriving as 1, 0 are sorted to 0, 1 |
| UdpQuery.GoldSourceExampleJoined | src/QueryMaster/GameServer/UdpQuery.cs:136-141 | example: two GoldSource fragments join to DE AD BE EF |
| UdpQuery.GoldSourceExampleReassembled | src/QueryMaster/GameServer/UdpQuery.cs:122-142 | example: the GoldSource handler rebuilds DE AD BE EF from out-of-order fragments |
| UdpQuery.GoldSourceTwoFragmentExample | src/QueryMaster/GameServer/UdpQuery.cs:49-101 | example: a whole two-fragment GoldSource query |
| UdpQuery.SinglePacketExample | src/QueryMaster/GameServer/UdpQuery.cs:103 | example: a single-packet response without its header |
| LogFilters.RemoveFirst | src/QueryMaster/GameServer/DataObjects/LogFilterCollection.cs:119 | `List.Remove`: an absent element changes nothing; otherwise exactly one occurrence leaves |
| LogFilters.RemoveFirstAt | src/QueryMaster/GameServer/DataObjects/LogFilterCollection.cs:119 | the first occurrence is cut out; the order of the others is kept |
| LogFilters.RemoveUndoesAdd | src/QueryMaster/GameServer/DataObjects/LogFilterCollection.cs:103-121 | adding a new filter and removing it restores the list |
| LogFilters.FirstNull | src/QueryMaster/GameServer/DataObjects/LogFilterCollection.cs:62-97 | the position where `ForEach` meets the first null filter: every filter before it is present, and it is the end of the list iff no filter is null |
| LogFilters.LogFilterCollection.constructor | src/QueryMaster/GameServer/DataObjects/LogFilterCollection.cs:46 | a new collection is empty |
| LogFilters.LogFilterCollection.Enumerate | src/QueryMaster/GameServer/DataObjects/LogFilterCollection.cs:52-55 | enumeration yields the filters in list order |
| LogFilters.LogFilterCollection.Add | src/QueryMaster/GameServer/DataObjects/LogFilterCollection.cs:103-109 | the filter, null or not, is appended; earlier filters keep their order |
| LogFilters.LogFilterCollection.Remove | src/QueryMaster/GameServer/DataObjects/LogFilterCollection.cs:115-121 | the first reference equal to the filter (a null one included) leaves |
| LogFilters.LogFilterCollection.Clear | src/QueryMaster/GameServer/DataObjects/LogFilterCollection.cs:126-129 | the collection is empty |
| LogFilters.LogFilterCollection.SetEnabled | src/QueryMaster/GameServer/DataObjects/LogFilterCollection.cs:62-97 | the `ForEach` sets `Enabled` on the selected filters before the first null filter and leaves every other one unchanged; it fails with a null reference iff a filter is null |
| LogFilters.LogFilterCollection.EnableAll | src/QueryMaster/GameServer/DataObjects/LogFilterCollection.cs:62-65 | every filter before the first null is enabled, the rest keep their flag; success iff no filter is null |
| LogFilters.LogFilterCollection.EnableAllOfType | src/QueryMaster/GameServer/DataObjects/LogFilterCollection.cs:71-77 | filters of the type before the first null are enabled; the others keep their flag; success iff no filter is null |
| LogFilters.LogFilterCollection.DisableAll | src/QueryMaster/GameServer/DataObjects/LogFilterCollection.cs:82-85 | every filter before the first null is disabled, the rest keep their flag; success iff no filter is null |
| LogFilters.LogFilterCollection.DisableAllOfType | src/QueryMaster/GameServer/DataObjects/LogFilterCollection.cs:91-97 | filters of the type before the first null are disabled; the others keep their flag; success iff no filter is null |
| TempusData.ToLower | src/LambdaUI/Data/Access/TempusDataAccess.cs:129 | lowers each letter in place and keeps the length |
| TempusData.ToLowerIdempotent | src/LambdaUI/Data/Access/TempusDataAccess.cs:129 | lowering twice is lowering once |
| TempusData.Split | src/LambdaUI/Data/Access/TempusDataAccess.cs:134 | `Split('_')` gives at least one piece, and no piece holds the separator |
| TempusData.JoinSplit | src/LambdaUI/Data/Access/TempusDataAccess.cs:134 | joining the pieces back gives the name |
| TempusData.SplitJoin | src/LambdaUI/Data/Access/TempusDataAccess.cs:134 | splitting joined separator-free pieces gives them back |
| TempusData.MapNames | src/LambdaUI/Data/Access/TempusDataAccess.cs:145 | `ConvertAll(x => x.Name)` fails with a null reference exactly when a map in the list is null; otherwise it gives each map's name at the map's position |
| TempusData.NonBlankNames | src/LambdaUI/Data/Access/TempusDataAccess.cs:145 | every kept name is one of the given names and is not null, empty or white space |
| TempusData.NonBlankNamesAppend | src/LambdaUI/Data/Access/TempusDataAccess.cs:145 | the filter keeps the order of the names |
| TempusData.NonBlankNamesComplete | src/LambdaUI/Data/Access/TempusDataAccess.cs:145 | every non-blank name is kept |
| TempusData.MapNameListExact | src/LambdaUI/Data/Access/TempusDataAccess.cs:145 | from a list without null maps, a name is in the name list iff some map has it and it is not blank |
| TempusData.FirstWithPart | src/LambdaUI/Data/Access/TempusDataAccess.cs:132-136 | the first name, in list order, with a part equal to the input |
| TempusData.ParseMapName | src/LambdaUI/Data/Access/TempusDataAccess.cs:127-139 | any result is in the name list; a null list is a null reference |
| TempusData.ParseMapNameChoice | src/LambdaUI/Data/Access/TempusDataAccess.cs:129-138 | an exact lowered match wins; else the first part match; "Map not found" iff neither exists |
| TempusData.ParseMapNameIgnoresCase | src/LambdaUI/Data/Access/TempusDataAccess.cs:129 | the resolved name does not depend on the input's case |
| TempusData.InsertCacheItem | src/LambdaUI/Data/Access/TempusDataAccess.cs:35-42 | the cache is never empty after an insertion; the new overview is at index 0 when the capacity is at least 2 |
| TempusData.CacheKeepsAllWithinCapacity | src/LambdaUI/Data/Access/TempusDataAccess.cs:37-39 | nothing is removed while the grown cache fits |
| TempusData.CacheStaysWithinCapacity | src/LambdaUI/Data/Access/TempusDataAccess.cs:38-40 | a cache within its capacity stays within it |
| TempusData.CacheKeepsOldest | src/LambdaUI/Data/Access/TempusDataAccess.cs:40 | the removal range never reaches the oldest entry |
| TempusData.SingleSlotCacheNeverChanges | src/LambdaUI/Data/Access/TempusDataAccess.cs:37-40 | with capacity 1, a full cache drops the new overview itself |
| TempusData.FullCacheEvictsSecondOldest | src/LambdaUI/Data/Access/TempusDataAccess.cs:37-40 | a full cache loses its second-oldest entry |
| TempusData.CacheScan | src/LambdaUI/Data/Access/TempusDataAccess.cs:98 | `First` stops at the first match or at the first entry it cannot read |
| TempusData.OverviewLookupUnresolved | src/LambdaUI/Data/Access/TempusDataAccess.cs:94-110 | an unresolvable name fails the lookup and leaves the cache alone |
| TempusData.OverviewLookupFindsFirst | src/LambdaUI/Data/Access/TempusDataAccess.cs:98 | a hit returns the first cached overview of the resolved name; the cache is unchanged |
| TempusData.OverviewLookupMissInserts | src/LambdaUI/Data/Access/TempusDataAccess.cs:100-106 | a miss returns the fetched overview and inserts it into the cache |
| TempusData.OverviewLookupCachesFetched | src/LambdaUI/Data/Access/TempusDataAccess.cs:98-106 | with capacity at least 2, a fetched overview is found by the next lookup of the same name |
| TempusData.TempusDataAccess.constructor | src/LambdaUI/Data/Access/TempusDataAccess.cs:21-22 | the cache starts empty; the map lists start unset |
| TempusData.TempusDataAccess.AddMapOverviewCacheItem | src/LambdaUI/Data/Access/TempusDataAccess.cs:35-42 | the cache becomes the insertion result and stays within capacity |
| TempusData.TempusDataAccess.GetFullMapOverview | src/LambdaUI/Data/Access/TempusDataAccess.cs:94-110 | the result and new cache are those of the lookup |
| TempusData.TempusDataAccess.UpdateMapList | src/LambdaUI/Data/Access/TempusDataAccess.cs:141-146 | the map list is stored; a null list or a null map in it is a null reference after that store, with the name list unchanged; otherwise the name list is the non-blank map names |
| TempusHelper.GetClass | src/LambdaUI/Utilities/TempusHelper.cs:8-19 | 4 is "D", 3 is "S", any other id is written in the one decimal form `ToString()` gives it (no leading zero, no "-0"), which reads back as the id |
| TempusHelper.NatToString | src/LambdaUI/Utilities/TempusHelper.cs:17 | the digits of a number, with no leading zero: the first digit is 0 only for 0 itself |
| TempusHelper.IntToString | src/LambdaUI/Utilities/TempusHelper.cs:17 | `ToString()` starts with a minus sign exactly for negative ids |
| TempusHelper.IntToStringDenotes | src/LambdaUI/Utilities/TempusHelper.cs:17 | the decimal string of an id is in canonical form and denotes the id |
| TempusHelper.DenotesExactly | src/LambdaUI/Utilities/TempusHelper.cs:17 | a string denotes `n` in canonical form iff it is `n.ToString()`: the form is unique |
| TempusHelper.NatToStringParse | src/LambdaUI/Utilities/TempusHelper.cs:17 | canonical digits are the decimal string of the number they read as |
| TempusHelper.DenotesExamples | src/LambdaUI/Utilities/TempusHelper.cs:17 | "7", "-7" and "0" are canonical; "07", "-" and "-0" are not |
| TempusHelper.IntToStringRoundTrip | src/LambdaUI/Utilities/TempusHelper.cs:17 | the decimal string reads back as the id |
| TempusHelper.IntToStringInjective | src/LambdaUI/Utilities/TempusHelper.cs:17 | distinct ids give distinct strings |
| TempusHelper.GetClassDistinguishes | src/LambdaUI/Utilities/TempusHelper.cs:8-19 | "S" iff 3, "D" iff 4, and distinct ids give distinct strings |
| TempusHelper.GetClassExamples | src/LambdaUI/Utilities/TempusHelper.cs:10-17 | 4 is "D", 3 is "S", other ids are their decimal string |
| TempusHelper.GetClassEmote | src/LambdaUI/Utilities/TempusHelper.cs:21-26 | the soldier emote iff the id is 3; the demoman emote otherwise |
| TempusHelper.WrapInt64 | src/LambdaUI/Utilities/TempusHelper.cs:43 | a 64-bit result congruent to the exact value |
| TempusHelper.TicksToTimeSpan | src/LambdaUI/Utilities/TempusHelper.cs:43 | ticks times 149998, modulo 2^64 |
| TempusHelper.TicksToTimeSpanExact | src/LambdaUI/Utilities/TempusHelper.cs:43 | without overflow, exactly ticks times 149998 |
| TempusHelper.TicksToTimeSpanMonotone | src/LambdaUI/Utilities/TempusHelper.cs:43 | without overflow, scaling keeps the order |
| TempusHelper.GetMapUrl | src/LambdaUI/Utilities/TempusHelper.cs:44 | the map link is the map prefix followed by the unchanged name |
| TempusHelper.GetRecordUrl | src/LambdaUI/Utilities/TempusHelper.cs:45 | the record link is the record prefix followed by the id in the canonical decimal form, which reads back as the id; by `LinksToExactly`, exactly prefix + `id.ToString()` |
| TempusHelper.GetPlayerUrl | src/LambdaUI/Utilities/TempusHelper.cs:46 | the player link is the player prefix followed by the id in the canonical decimal form, which reads back as the id; by `LinksToExactly`, exactly prefix + `id.ToString()` |
| TempusHelper.GetDemoUrl | src/LambdaUI/Utilities/TempusHelper.cs:47 | the demo link is the demo prefix followed by the id in the canonical decimal form, which reads back as the id; by `LinksToExactly`, exactly prefix + `id.ToString()` |
| TempusHelper.GetServerUrl | src/LambdaUI/Utilities/TempusHelper.cs:48 | the server link is the server prefix followed by the id in the canonical decimal form, which reads back as the id; by `LinksToExactly`, exactly prefix + `id.ToString()` |
| TempusHelper.GetYoutubeUrl | src/LambdaUI/Utilities/TempusHelper.cs:49 | the YouTube link is the YouTube prefix followed by the unchanged name |
| TempusHelper.IdUrlRoundTrip | src/LambdaUI/Utilities/TempusHelper.cs:45-48 | an id link is its prefix followed by the id in decimal, which reads back |
| TempusHelper.LinksToExactly | src/LambdaUI/Utilities/TempusHelper.cs:45-48 | a link to an id is exactly its prefix followed by `id.ToString()` |
| TempusHelper.IdUrlsDistinct | src/LambdaUI/Utilities/TempusHelper.cs:45-48 | distinct ids give distinct record, player, demo and server links |
| TempusHelper.NameUrlsDistinct | src/LambdaUI/Utilities/TempusHelper.cs:44-49 | distinct names give distinct map and YouTube links |
| MessageReconciliation.FirstMatch | src/LambdaUI/Discord/Updaters/TempusServerUpdater.cs:105-106 | `FirstOrDefault`: the first pending message with exactly one embed of the same title |
| MessageReconciliation.Deletions | src/LambdaUI/Discord/Updaters/TempusServerUpdater.cs:121-127 | one delete per leftover message, in list order |
| MessageReconciliation.Reconcile | src/LambdaUI/Discord/Updaters/TempusServerUpdater.cs:99-127 | the loop with `Remove` and the deletion loop produce the reconciliation's actions |
| MessageReconciliation.AnswerEmbeds | src/LambdaUI/Discord/Updaters/TempusServerUpdater.cs:98-119 | the `foreach` over the embeds, with its delay before every fifth embed and its edit-or-post choice, leaves exactly the embed pass's actions and pending messages |
| MessageReconciliation.EmbedPassAnswersEach | src/LambdaUI/Discord/Updaters/TempusServerUpdater.cs:51-64 | each embed is answered by exactly one modify or send, in embed order; nothing is deleted |
| MessageReconciliation.EmbedPassConserves | src/LambdaUI/Discord/Updaters/TempusServerUpdater.cs:105-116 | each existing message is either edited once or still pending |
| MessageReconciliation.EmbedPassEditsOnlyMatches | src/LambdaUI/Discord/Updaters/TempusServerUpdater.cs:53-59 | only a pending user message whose single embed has the embed's title is edited |
| MessageReconciliation.ReconciliationAccountsForAll | src/LambdaUI/Discord/Updaters/TempusServerUpdater.cs:51-72 | every embed is answered in order; each old message is edited or deleted exactly once, never both |
| MessageReconciliation.DeletionsFilters | src/LambdaUI/Discord/Updaters/TempusServerUpdater.cs:66-72 | the deletion loop deletes exactly the leftovers and does nothing else |
| MessageReconciliation.ThrottleDelays | src/LambdaUI/Discord/Updaters/TempusServerUpdater.cs:98-118 | throttled: one delay per started group of five embeds; otherwise none |
| MessageReconciliation.EmbedPassPrefix | src/LambdaUI/Discord/Updaters/TempusServerUpdater.cs:98-119 | the actions for the first embeds are a prefix of the actions for all of them |
| MessageReconciliation.PassOneMore | src/LambdaUI/Discord/Updaters/TempusServerUpdater.cs:98-119 | one more embed adds its delay, if any, and its edit or post |
| MessageReconciliation.DelayBeforeEveryFifth | src/LambdaUI/Discord/Updaters/TempusServerUpdater.cs:101-104 | throttled, right after the actions for the first `k` embeds there is a delay exactly when `k % 5 == 0`, and then embed `k` is edited or posted |
| MessageReconciliation.EmbedPassDelays | src/LambdaUI/Discord/Updaters/TempusServerUpdater.cs:98-119 | the embed loop's delay count is `(n + 4) / 5` when throttled |
| MessageReconciliation.EmptyChannelSendsAll | src/LambdaUI/Discord/Updaters/TempusActivityUpdater.cs:53-66 | an empty channel gets every embed as a new message, in order |
| MessageReconciliation.UpdateAll | src/LambdaUI/Discord/Updaters/TempusServerUpdater.cs:80-86 | the loop over the configured channels is the configuration pass |
| MessageReconciliation.ConfigPassAppend | src/LambdaUI/Discord/Updaters/TempusActivityUpdater.cs:32-33 | the pass over joined configurations is the pass over the first followed by the pass over the second, entries numbered on |
| MessageReconciliation.NonTextChannelSkipped | src/LambdaUI/Discord/Updaters/TempusServerUpdater.cs:38 | an id that is not a text channel causes no action |
| MessageReconciliation.ConfigPassOnlyTextChannels | src/LambdaUI/Discord/Updaters/TempusServerUpdater.cs:82-90 | every update is for a configuration entry that names a text channel and follows that entry's plan; updates come in entry order |
| MessageReconciliation.RepeatedChannelVisitedTwice | src/LambdaUI/Discord/Updaters/TempusServerUpdater.cs:84-85 | a channel configured twice is updated twice, each visit with its own entry's plan |
| MessageReconciliation.NoConfigNoUpdate | src/LambdaUI/Discord/Updaters/TempusServerUpdater.cs:30-31 | a null or empty configuration touches no channel |
| TempusServerUpdater.UpdateChannelOverview | src/LambdaUI/Discord/Updaters/TempusServerUpdater.cs:36-78 | the overview channel is reconciled with the two overview embeds, without delays |
| TempusServerUpdater.OverviewOrder | src/LambdaUI/Discord/Updaters/TempusServerUpdater.cs:42-47 | the status overview is answered first, then the stalk-top list; no delay |
| TempusServerUpdater.PresentEmbeds | src/LambdaUI/Discord/Updaters/TempusServerUpdater.cs:94 | `Where(x => x != null)` keeps exactly the embeds that exist |
| TempusServerUpdater.PresentEmbedsAppend | src/LambdaUI/Discord/Updaters/TempusServerUpdater.cs:94 | the filter works piece by piece, so it keeps the order and the repetitions of the embeds |
| TempusServerUpdater.PresentEmbedsSingle | src/LambdaUI/Discord/Updaters/TempusServerUpdater.cs:94 | a null embed is dropped and a present one is kept |
| TempusServerUpdater.UpdateChannel | src/LambdaUI/Discord/Updaters/TempusServerUpdater.cs:88-135 | a null server list posts the error; otherwise a throttled reconciliation of the present embeds |
| TempusServerUpdater.ServerUpdateShape | src/LambdaUI/Discord/Updaters/TempusServerUpdater.cs:93-127 | the present embeds are answered in order, with `(n + 4) / 5` delays; each old message is edited or deleted once |
| TempusServerUpdater.UpdateOverviews | src/LambdaUI/Discord/Updaters/TempusServerUpdater.cs:28-34 | the overview pass over `tempusOverviewChannel`; each entry's visit reconciles what that visit fetches |
| TempusServerUpdater.UpdateServers | src/LambdaUI/Discord/Updaters/TempusServerUpdater.cs:80-86 | the server pass over `tempusUpdateChannel`; each entry's visit reconciles what that visit fetches |
| TempusActivityUpdater.InOrder | src/LambdaUI/Discord/Updaters/TempusActivityUpdater.cs:43-49 | exactly four embeds |
| TempusActivityUpdater.UpdateChannel | src/LambdaUI/Discord/Updaters/TempusActivityUpdater.cs:37-81 | a null activity posts the error; otherwise the four embeds are reconciled |
| TempusActivityUpdater.ActivityUpdateShape | src/LambdaUI/Discord/Updaters/TempusActivityUpdater.cs:43-75 | map records, map top times, course records, bonus records are answered in that order, without delays; each old message is edited or deleted once |
| TempusActivityUpdater.UpdateActivity | src/LambdaUI/Discord/Updaters/TempusActivityUpdater.cs:28-35 | the activity pass over `tempusActivityChannel`; each entry's visit reconciles what that visit fetches |

## Left out

- Sockets: `SendData` and the request message are not modelled. `ServerSocket` (`ReceiveData`, `Dispose`, the timeout setting) is not part of this model either. Receives consume a given sequence of arrivals, and its end is the timeout.
- Bzip2 decompression and CRC32 are foreign code. They are function-valued fields of the query object (`decompress`, `crc32`), not implementations. A malformed bzip2 stream is `None`.
- QueryMaster's `Parser` is not part of this model. Reading or skipping past the end of a fragment is modelled as a parse failure.
- `UdpQuery.SortByIndex`: .NET `List.Sort` is unstable. The model uses a stable insertion sort. Order independence is proved only when each index identifies one fragment, and the outcome for duplicate indices is not captured.
- The exception's "ReceivedData" entry is modelled as data carried by the failure. The `?? new byte[1]` fallback is not needed, because the buffer is never null here.
- The static lock in `LogFilterCollection` is concurrency and is left out. The collection is modelled single-threaded.
- A filter's runtime type is modelled as its `kind` name, and type equality as name equality.
- HTTP requests, JSON deserialisation, the stopwatch and logging in `TempusDataAccess` are left out. What a request returns is a parameter (`fetched`, `maps`), `None` when it failed.
- `MapList`'s getter, which reloads the list when it is unset, is left out. It is network I/O followed by a re-read.
- `TempusData.ToLower`: the culture-aware `ToLower` is modelled on ASCII letters only.
- `TempusConstants.FullMapOverviewCacheSize` is not part of this model. The capacity is a parameter required to be at least 1.
- `TempusData.InsertCacheItem`: the new overview is promised at index 0 only when the capacity is at least 2. With capacity 1 the removal range starts at 0 and drops the new overview, so a full one-slot cache never changes (`SingleSlotCacheNeverChanges`).
- A null `Name` inside a cached overview's `MapInfo` is not modelled. Names are strings, and null entries and null `MapInfo`s are modelled.
- `TempusHelper.IntToString`: `ToString()` writes the current culture's negative sign; the model takes it to be `-`, as in the invariant culture.
- The data and the messages each configuration entry's visit fetches are inputs, one per entry. The model does not derive the messages a later visit finds from the actions of an earlier visit to the same channel, because Discord's message store is not modelled.
- `TempusHelper.TimeSpanToFormattedTime` and `TicksToFormattedTime` use floating-point rounding and are left out.
- `TimeSpan` is modelled by its tick count.
- Discord calls are not executed. Each call is an action in the produced list.
- A Discord call that fails partway is left out. In the source, the `catch` would post the error after the actions already made.
- The embed-building services (`TempusServerStatusService`, `TempusApiService`, `TempusActivityService`) and `Logger` are not part of this model. The embeds they build are inputs, and the posted exception is the `SendError` action. The overview update therefore never posts an error: an exception from the overview services (for instance on the null `GetServerStatusAsync` returns after a failed request) is not modelled, while the server and activity updates do model their null inputs.
- `async`/`await` and the length of `Task.Delay(4200)` are left out. The delay appears only as a `Delay` action.
