# Verified models of the WeScale cores

WeScale is a MySQL proxy. This project models its self-contained algorithmic cores in Dafny and proves what they are
for, over all inputs and all runs. `dafny verify dfyconfig.toml` checks everything.

| files | what they model |
|---|---|
| `GtidIntervals`, `GtidDifference`, `GtidSweeps`, `GtidSets`, `ReplicationPosition` | the algebra of MySQL 5.6 GTID sets: a map from server IDs to interval lists that stands for a set of transactions, and the positions and errant transactions built on it |
| `GtidServers`, `GtidSidBlock`, `GtidText` | the binary and the text form of such a set |
| `ResourcePool`, `ResourcePoolSafety` | the resource pool as a step machine: any number of callers of `Get`, `Put` and `CloseIdleResources`, and one `SetCapacity`, in every interleaving |
| `WireEncoding`, `WirePackets`, `WireRows`, `WirePayloads`, `WireResults` | the MySQL wire protocol from length-encoded integers up to a whole query response between two connections |
| `BinlogCells`, `BinlogRows`, `BinlogTableMap`, `BinlogEvents`, `BinlogDecimal` | the row-based binlog codec: printers, parsers and packed decimals |
| `FilePos` | the binlog stream of the file-position flavor, with its one-slot buffer |
| `BucketPool`, `LruCache`, `SrvShuffle` | the buffer pool, the LRU cache and the RFC 2782 shuffle |
| `Bytes`, `Options`, `Decimals` | shared vocabulary: bytes, optional values, decimal text |

Code that works by changing things is modelled so: connections, pools, caches and the flavor are classes, buffers are
arrays filled in place, loops are loops. Each such method is tied to a function of values, and the properties are
proved of that function. Where a reader is proved against what a writer produced, the written value is a ghost
parameter; the reader itself sees bytes only. `None` and the error constructors stand for the source's errors and, as
their comments say, for its index panics.

These results say exactly when the code does not do what one would expect of it:

* `Difference` loses the head interval of a server whose list in the other set is empty (`TrimGTIDSet` can make such
  lists). It also keeps transactions it should drop where intervals of the receiver overlap, as the parser lets them:
  the cursor does not come back to an interval it is past. It loses nothing and keeps nothing too much under two exact
  conditions, one for each fault; against every other set it keeps nothing too much if and only if no interval of the
  receiver begins before an earlier one ends. `FindErrantGTIDs` inherits this: it can report a transaction that is not
  errant.
* The binary form of a set loses its servers without intervals, and the parser rejects the text of such a server.
* `Contains` decides inclusion of every set if and only if touching or overlapping intervals of the receiver are spanned
  by a single one, which for disjoint lists is canonical form.
* `TrimGTIDSet` is documented to return nothing beyond the receiver. The code bounds each server by the end of the
  receiver's last interval only, and stays within the receiver if and only if the other set fills no gap of it.
* A round of `CloseIdleResources` that begins while one of the pool's channels is closed takes the channel's zero value
  for a slot. All through a run the slots in the pool's two channels and in hand add up to the capacity, with what
  `SetCapacity` has still to add or remove, if and only if no round begins so, and then nothing is ever left in a
  channel that a reopen replaces. From every state where a round begins so the scan can go on to a panic, and every new
  pool has a run that comes to one.
* A NEWDECIMAL negative zero of scale 0 with fewer than nine digits becomes a bare minus sign; every other cell in range
  becomes a numeral with its value.
* A buffer of a foreign capacity spoils the buffer pool: buckets keep their sizes if and only if every buffer put has a
  bucket's capacity or one above all of them, and after any other some `Get` panics.
* The OK packet that ends a result set is taken for its end if and only if it is shorter than a full packet; otherwise
  it is taken for a row, and the whole result fails.

Smaller ones of the same kind: an info text without session tracking comes back only if it is empty; rows of an event
without present columns are gone; a table map comes back if and only if names and metadata fit their bytes.

## Model

| member | source | states |
|---|---|---|
| `GtidIntervals.CanonicalUnique` | go/mysql/mysql56_gtid_set.go:36-42 | two canonical lists (valid, sorted, disjoint, not touching) that hold the same numbers are the same list |
| `GtidDifference.CarveKeeps` | go/mysql/mysql56_gtid_set.go:702-759 | each of the six overlap cases either finishes the receiver's interval or leaves it wholly past the interval of `other`; the panicking default case is never reached |
| `GtidDifference.Round` | go/mysql/mysql56_gtid_set.go:669-772 | one round and the cursor move after it keep the sweep's invariant, and ending on either side leaves exactly the numbers that survive |
| `GtidDifference.Sweep` | go/mysql/mysql56_gtid_set.go:669-772 | for every receiver list, in any order and overlapping or not, and every `b` ordered by start, the two-cursor loop ends and leaves exactly the numbers that survive: those in some `a[k]` such that every interval of `b` holding them ends, like all before it, before an earlier interval of `a`; gaps between intervals are kept |
| `GtidDifference.Subtract` | go/mysql/mysql56_gtid_set.go:663-772 | the per-server body: what survives where `b` has an interval, the server dropped exactly when nothing does, and an empty `b` loses the head interval of `a` |
| `GtidDifference.SweepExact` | go/mysql/mysql56_gtid_set.go:669-772 | what survives is `a` minus `b` **if and only if** no interval of `b` shares with some `a[k]` a first number that the cursor is past; the condition is a finite one on the two lists |
| `GtidDifference.MissesDisjoint` | go/mysql/mysql56_gtid_set.go:669-772 | against a disjoint `b` that is exactly: no interval of `b` ends before one interval of `a` and meets a later one |
| `GtidDifference.NeverMisses` | go/mysql/mysql56_gtid_set.go:669-772 | the sweep is exact against every ordered `b` **if and only if** no interval of `a` begins before an earlier one ends |
| `GtidDifference.MinusSurvives` | go/mysql/mysql56_gtid_set.go:669-772 | whatever the lists, no number outside `b` is lost |
| `GtidSweeps.PopInterval` | go/mysql/mysql56_gtid_set.go:831-848 | the interval taken starts no later than any that is left, and fewer are left |
| `GtidSweeps.PushKeeps` | go/mysql/mysql56_gtid_set.go:586-606 | pushing the next interval by start keeps a canonical list canonical and adds exactly its numbers |
| `GtidSweeps.Merge` | go/mysql/mysql56_gtid_set.go:578-609 | the merge of two ordered lists is canonical and holds exactly the numbers of both, whether or not the inputs overlap or touch |
| `GtidSweeps.MeetKeeps` | go/mysql/mysql56_gtid_set.go:396-434 | one move of the intersection sweep keeps what was found equal to the common part of what was passed |
| `GtidSweeps.MeetKeepsGaps` | go/mysql/mysql56_gtid_set.go:396-434 | on canonical lists the found intervals keep a gap between them |
| `GtidSweeps.Common` | go/mysql/mysql56_gtid_set.go:391-435 | the common list holds exactly the numbers in both, canonical if both are |
| `GtidSweeps.Covers` | go/mysql/mysql56_gtid_set.go:238-259 | the single pass answers whether every interval of `b` lies inside one interval of `a` |
| `GtidSweeps.SingleCover` | go/mysql/mysql56_gtid_set.go:238-259 | where touching or overlapping intervals are spanned by a single one, an interval is covered number by number exactly if one interval covers it |
| `GtidSweeps.CoversIsSubset` | go/mysql/mysql56_gtid_set.go:238-259 | so with such a receiver the single pass decides inclusion, both ways |
| `GtidSweeps.CoversExact` | go/mysql/mysql56_gtid_set.go:238-259 | the single pass decides inclusion of every ordered list **if and only if** every two touching or overlapping intervals of the receiver are spanned by a single one |
| `GtidSweeps.DisjointUnbroken` | go/mysql/mysql56_gtid_set.go:238-259 | for disjoint lists that condition is canonical form |
| `GtidSweeps.Find` | go/mysql/mysql56_gtid_set.go:206-224 | the scan that stops early answers membership exactly |
| `GtidSweeps.Insert` | go/mysql/mysql56_gtid_set.go:322-351 | for every list of valid intervals: inserting a number that is not there adds exactly that number and leaves every old interval inside a new one; order is kept, and so is canonical form, joining neighbours on either side; the 64-bit wrap of `end + 1` is modelled |
| `GtidSweeps.Cut` | go/mysql/mysql56_gtid_set.go:529-548 | cutting at a limit keeps exactly the numbers up to it |
| `GtidSweeps.CutExact` | go/mysql/mysql56_gtid_set.go:529-548 | what the cutting loop leaves is exactly the numbers up to the limit, and canonical if the list was |
| `GtidSweeps.InListOrGap` | go/mysql/mysql56_gtid_set.go:520-548 | up to its end, a number is in a disjoint list exactly if it is not before the first interval or between two neighbours |
| `GtidSets.CanonicalSetUnique` | go/mysql/mysql56_gtid_set.go:267-298 | two canonical sets are the same map exactly if they stand for the same transactions |
| `GtidSets.Difference` | go/mysql/mysql56_gtid_set.go:652-776 | for every receiver: nothing that should stay is lost **if and only if** no shared server has an empty list in `other` while the head of its own list matters, and nothing that should go is kept **if and only if** the sweep misses nothing; successive, disjoint and canonical form are kept; the loop ends and cannot panic |
| `GtidSets.DifferenceExact` | go/mysql/mysql56_gtid_set.go:652-776 | the server-by-server results amount to the set difference exactly under those conditions |
| `GtidSets.DifferenceLosesHead` | go/mysql/mysql56_gtid_set.go:690-695 | `Difference` of `{1-5, 7-9}` and an empty list for the same server drops 3 |
| `GtidSets.DifferenceKeepsOverlap` | go/mysql/mysql56_gtid_set.go:669-772 | `Difference` of `1-10:2-10`, which the parser accepts, and `5` keeps 5 |
| `GtidSets.NeverMissesShared` | go/mysql/mysql56_gtid_set.go:652-776 | no `other` makes `Difference` keep too much **if and only if** no interval of the receiver begins before an earlier one of its server ends |
| `GtidSets.DisjointDifference` | go/mysql/mysql56_gtid_set.go:652-776 | with a disjoint receiver `Difference` is set difference **if and only if** no shared server has an empty list in `other` |
| `GtidSets.JoinShared` | go/mysql/mysql56_gtid_set.go:554-620 | the loop over the other set's servers: each gets the union of both lists |
| `GtidSets.AddMissing` | go/mysql/mysql56_gtid_set.go:554-620 | the loop over the receiver's servers adds those the other set lacks |
| `GtidSets.UnionExact` | go/mysql/mysql56_gtid_set.go:554-620 | server-by-server unions amount to the union of the transactions |
| `GtidSets.Union` | go/mysql/mysql56_gtid_set.go:554-620 | denotes set union, ordered always and canonical on canonical sets; another flavor leaves the receiver as it is |
| `GtidSets.Intersect` | go/mysql/mysql56_gtid_set.go:370-443 | denotes set intersection, canonical on canonical sets; another flavor gives the empty set |
| `GtidSets.Contains` | go/mysql/mysql56_gtid_set.go:227-264 | true exactly if the lists cover each other interval by interval, which is inclusion where touching intervals are spanned by a single one; false for another flavor |
| `GtidSets.CoversSetIsSubset` | go/mysql/mysql56_gtid_set.go:227-264 | covering server by server is inclusion of transactions, both ways, for such a receiver |
| `GtidSets.ContainsExact` | go/mysql/mysql56_gtid_set.go:227-264 | `Contains` decides inclusion of every ordered set **if and only if** every two touching or overlapping intervals of a server are spanned by a single one |
| `GtidSets.UnbrokenIsCanonical` | go/mysql/mysql56_gtid_set.go:227-264 | for disjoint receivers that condition is canonical form |
| `GtidSets.ContainsMissesTouching` | go/mysql/mysql56_gtid_set.go:227-264 | `Contains` of `1-2:3-4` and its subset `1-4` is false |
| `GtidSets.Equal` | go/mysql/mysql56_gtid_set.go:267-298 | on canonical sets, true exactly if the maps are the same, which is exactly if the transactions are |
| `GtidSets.ContainsGTID` | go/mysql/mysql56_gtid_set.go:206-224 | true exactly if the transaction is in the set |
| `GtidSets.AddGTID` | go/mysql/mysql56_gtid_set.go:301-367 | for every ordered receiver: adds exactly one transaction and leaves every old interval inside a new one; keeps order and canonical form, and leaves the set alone for another flavor |
| `GtidSets.TrimGTIDSet` | go/mysql/mysql56_gtid_set.go:503-551 | keeps exactly the other set's transactions of shared servers up to the end of the receiver's last interval; the result is within the receiver, as documented, **if and only if** the other set fills no gap of it |
| `GtidSets.TrimExact` | go/mysql/mysql56_gtid_set.go:503-551 | what the loop leaves denotes that, under that condition |
| `GtidSets.FillsGapOfDisjoint` | go/mysql/mysql56_gtid_set.go:503-551 | for a disjoint receiver the condition is that no transaction of the other set is before the first interval of its server or between two of them |
| `GtidSets.TrimKeepsGap` | go/mysql/mysql56_gtid_set.go:503-551 | `{1-2, 8-9}` trims `{5}` to `{5}` |
| `GtidSets.SplitAndRejoin` | go/mysql/mysql56_gtid_set.go:554-620 | for all canonical `a`, `b`: Union(Difference(a, b), Intersect(a, b)) is `a`, and `Equal` says so |
| `ReplicationPosition.Equal` | go/mysql/replication_position.go:62-67 | equality, and the same as each having reached the other |
| `ReplicationPosition.AtLeast` | go/mysql/replication_position.go:70-85 | for every ordered position: true exactly if the other is nil, or both have sets and every interval of the other lies inside a single one; that is inclusion of transactions where touching intervals are spanned by a single one |
| `ReplicationPosition.SoundIsReadable` | go/mysql/replication_position.go:70-85 | positions with canonical sets are of that kind, so for them `AtLeast` is inclusion |
| `ReplicationPosition.AtLeastExact` | go/mysql/replication_position.go:70-85 | `AtLeast` decides inclusion against every other position **if and only if** touching or overlapping intervals are spanned by a single one |
| `ReplicationPosition.ReachedAntisymmetric` | go/mysql/replication_position.go:70-85 | two positions that have reached each other are equal |
| `ReplicationPosition.ReachedTransitive` | go/mysql/replication_position.go:70-85 | reaching is transitive, so with the previous row a partial order |
| `ReplicationPosition.AppendGTID` | go/mysql/replication_position.go:103-111 | for every ordered position: exactly one more transaction, and `AtLeast` holds of the result and the old position; canonical form is kept |
| `ReplicationPosition.AllPositionsComparable` | go/mysql/replication_position.go:202-218 | the double loop answers whether of every two positions one is at least the other, which is comparability by inclusion where touching intervals are spanned by a single one |
| `ReplicationPosition.MostAdvanced` | go/mysql/replication_position.go:202-218 | among comparable positions there is one that has reached all the others |
| `ReplicationPosition.FindErrantGTIDs` | go/mysql/replication_status.go:182-221 | every relay-log transaction that is neither from the source server nor known to another replica is reported, whatever the relay log; nothing else is, as documented, if no interval of the relay log begins before an earlier one ends; what is reported is what the exact `Difference` leaves replica by replica; nil exactly if nothing is reported; other flavors are an error |
| `ReplicationPosition.OverlapReports` | go/mysql/replication_status.go:182-221 | for any relay log where an interval begins before an earlier one ends, a replica for which the search reports a transaction that replica has, so the condition above is exact |
| `ReplicationPosition.ReportsNotErrant` | go/mysql/replication_status.go:182-221 | a relay log `1-10:2-10` and one replica that has 5: the search reports 5, which is not errant |
| `ReplicationPosition.EmptyIffNoTransactions` | go/mysql/replication_status.go:213-220 | a set without empty lists has no server exactly if it has no transaction, which is what the nil test relies on |
| `GtidSidBlock.EndShift` | go/mysql/mysql56_gtid_set.go:626-648 | writing `end + 1` and reading it back less one is the identity on 64-bit numbers, across the wrap |
| `GtidServers.SIDs` | go/mysql/mysql56_gtid_set.go:147-160 | every server once, strictly increasing by its bytes |
| `GtidServers.SortedUnique` | go/mysql/mysql56_gtid_set.go:147-160 | only one list is that, so what is written does not depend on the order of the map |
| `GtidServers.BeforeTotal` | go/mysql/mysql56_gtid_set.go:156-160 | of two different IDs exactly one compares less |
| `GtidSidBlock.SIDBlock` | go/mysql/mysql56_gtid_set.go:626-648 | the block is the count, then ID, interval count and shifted intervals of each server in increasing order |
| `GtidSidBlock.FromSIDBlock` | go/mysql/mysql56_gtid_set.go:795-826 | a block, with anything after it, gives back its set less the servers without intervals; a block cut short anywhere is an error |
| `GtidSidBlock.BlockThereAndBack` | go/mysql/mysql56_gtid_set.go:626-648 | every set of 16-byte server IDs comes back from `SIDBlock` less its servers without intervals, so unchanged **if and only if** there is none |
| `GtidText.SidRoundTrip` | go/mysql/mysql56_gtid.go:65-93 | every server ID survives printing as dashed hexadecimal and parsing |
| `GtidText.ParseInterval` | go/mysql/mysql56_gtid_set.go:44-63 | whatever parses starts at 1 or later and ends at 0 or later; a reversed range is accepted here and discarded by the caller |
| `GtidText.IntervalRoundTrip` | go/mysql/mysql56_gtid_set.go:44-63 | an interval from 1 on survives printing and parsing, the one-number form included |
| `GtidText.ParseIntervals` | go/mysql/mysql56_gtid_set.go:100-121 | whatever the text, the intervals kept are valid; the printed list of a server gives back its intervals |
| `GtidText.SortPermutes` | go/mysql/mysql56_gtid_set.go:133-137 | sorting by start keeps the intervals |
| `GtidText.SortOrdered` | go/mysql/mysql56_gtid_set.go:133-137 | sorting by start orders them |
| `GtidText.SortSorted` | go/mysql/mysql56_gtid_set.go:133-137 | an ordered list is left as it is |
| `GtidText.ToText` | go/mysql/mysql56_gtid_set.go:163-182 | the text is the servers in increasing order, comma separated, each with its intervals |
| `GtidText.ParseServer` | go/mysql/mysql56_gtid_set.go:82-131 | one comma-separated part gives a server with valid intervals, nothing, or an error; the text of a server gives back that server, or an error if it has no interval |
| `GtidText.ParseGTIDSet` | go/mysql/mysql56_gtid_set.go:68-141 | any accepted text gives 16-byte IDs with ordered, non-empty lists, which may overlap; the text of a set, its servers and intervals in any order, gives back that set with its lists sorted, or an error if one is empty |
| `GtidText.TextThereAndBack` | go/mysql/mysql56_gtid_set.go:68-182 | the text of every set with valid intervals parses as the same transactions, and as the same set **if and only if** its lists are ordered and none is empty; an empty list is an error |
| `GtidText.AsParsedSame` | go/mysql/mysql56_gtid_set.go:133-137 | sorting every list keeps the transactions, and changes nothing exactly if the lists are ordered |
| `GtidText.SubtractTexts` | go/mysql/mysql56_gtid_set.go:859-870 | from the texts of two sets, an error exactly if a server has no interval; otherwise the text, servers in increasing order, of what the exact `Difference` leaves: no transaction too few, and none too many **if and only if** the sweep misses nothing |
| `GtidText.SubtractDisjoint` | go/mysql/mysql56_gtid_set.go:859-870 | with disjoint lists that is the text of the set difference |
| `ResourcePoolSafety.ThreadStepKeeps` | go/pools/resource_pool.go:307-547 | every step of `Get`, `Put` or `CloseIdleResources` keeps the invariant: slots, counters and resources all accounted for, settings as asked for |
| `ResourcePoolSafety.ResizerStepKeeps` | go/pools/resource_pool.go:565-616 | every step of `SetCapacity` keeps it, through shrinking, growing, closing and reopening |
| `ResourcePoolSafety.RunKeeps` | go/pools/resource_pool.go:307-616 | so every state of every interleaving satisfies it |
| `ResourcePoolSafety.SlotsConserved` | go/pools/resource_pool.go:307-616 | all through a run there is no panic and the slots in the pool's two channels and in hand are the capacity plus pending removals less pending additions, **if and only if** no scan begins a round while one of these channels is closed |
| `ResourcePoolSafety.QuietStrandsNothing` | go/pools/resource_pool.go:565-616 | in such a run nothing is ever left behind in a channel that a reopen has replaced |
| `ResourcePoolSafety.OwnIsAll` | go/pools/resource_pool.go:565-616 | so the pool's two channels hold every queued slot and resource |
| `ResourcePoolSafety.NoPanic` | go/pools/resource_pool.go:343-350 | without phantoms no run panics, and whoever holds a slot always has room to send it to either channel |
| `ResourcePoolSafety.RestExact` | go/pools/resource_pool.go:655-675 | at rest available plus inUse is the capacity, inUse counts the holders, active counts the open resources; in a run where no scan begins a round on a closed channel, available counts the slots in the pool's two channels, and active the resources in them and with the holders |
| `ResourcePoolSafety.ClosesEmpty` | go/pools/resource_pool.go:592-614 | when the channels are being closed no slot is queued or in hand **if and only if** no scan has begun a round on a closed channel, and then no resource is open |
| `ResourcePoolSafety.SettingsDelivered` | go/pools/resource_pool.go:380-505 | a `Get` with a setting returns a resource with that setting, one without returns a resource with none, in every run |
| `ResourcePoolSafety.PhantomNeedsClosed` | go/pools/resource_pool.go:319-327 | a thread can receive a phantom **if and only if** it is about to scan and finds a channel closed and empty, which needs capacity zero |
| `ResourcePoolSafety.FirstPhantom` | go/pools/resource_pool.go:319-327 | while there is none yet, a step receives a phantom **if and only if** it is the select of a scan and one of the pool's channels is closed |
| `ResourcePoolSafety.PhantomFree` | go/pools/resource_pool.go:307-616 | so a run is free of phantoms **if and only if** no scan begins a round while one of the pool's channels is closed |
| `ResourcePoolSafety.QuietCloseIsSafe` | go/pools/resource_pool.go:307-349 | and such a run does not panic |
| `ResourcePoolSafety.ExposedScanPanics` | go/pools/resource_pool.go:313-349 | from every state where a scan is about to receive while a channel is closed, three steps of that thread panic, whether it receives a slot left in the channel or a phantom |
| `ResourcePoolSafety.ExposedRunPanics` | go/pools/resource_pool.go:307-349 | so every run that comes to such a state can go on to a panic |
| `ResourcePoolSafety.ScanAcrossClosePanics` | go/pools/resource_pool.go:307-349 | from every new pool, whatever its capacity and its threads, some run panics: a scan begins, the pool is drained and closed, the scan receives a phantom and sends it back |
| `WireEncoding.LenEncIntRoundTrip` | go/mysql/encoding.go:217-252 | every 64-bit number written length-encoded is read back wherever it stands, and its size is what `lenEncIntSize` says |
| `WireEncoding.LenEncIntFirst` | go/mysql/encoding.go:49-77 | the first byte is never 0xfb or 0xff, and is 0xfe exactly from 2^24 on |
| `WireEncoding.LenEncStringRoundTrip` | go/mysql/encoding.go:254-302 | every string written length-encoded is read back wherever it stands |
| `WireEncoding.FixedRoundTrip` | go/mysql/encoding.go:196-215 | fixed-width numbers read back wherever they stand |
| `WireEncoding.WriteFixed` | go/mysql/encoding.go:98-127 | writing in place changes exactly the bytes of the field |
| `WireEncoding.WriteLenEncInt` | go/mysql/encoding.go:49-77 | the same for length-encoded numbers |
| `WireEncoding.PutString` | go/mysql/encoding.go:134-138 | appending a string at the position reached |
| `WirePackets.PacketCount` | go/mysql/conn.go:580-638 | a payload takes one packet more than it has full ones, counted in the 8-bit sequence number |
| `WirePackets.FramesReadBack` | go/mysql/conn.go:529-560 | the reader gets every payload back from its packets, whatever follows, exact multiples of the packet size and the empty payload included |
| `WirePackets.ReadsOnlyFrames` | go/mysql/conn.go:507-560 | conversely, whatever the reader accepts is the packets of the payload it returns |
| `WirePackets.Conn.WritePacket` | go/mysql/conn.go:580-638 | what is sent is the packets of the payload, and the caller's buffer is as it was |
| `WirePackets.Conn.SendChunk` | go/mysql/conn.go:597-619 | one chunk: header over the payload, send, restore |
| `WirePackets.Conn.ReadOnePacket` | go/mysql/conn.go:363-391 | one packet: a wrong sequence number or missing bytes are errors |
| `WirePackets.Conn.ReadPacket` | go/mysql/conn.go:529-560 | the payload, the input left and the sequence number are those of the reference reader; all its errors too |
| `WirePackets.Conn.ReadEphemeralPacket` | go/mysql/conn.go:401-454 | the same, and the read policy is taken |
| `WirePackets.Conn.StartEphemeralPacket` | go/mysql/conn.go:640-649 | a buffer with room for the header, holding anything |
| `WirePackets.Conn.WriteEphemeralPacket` | go/mysql/conn.go:653-681 | sends the buffer's payload and releases the policy |
| `WirePackets.ThereAndBack` | go/mysql/conn.go:580-638 | every payload, from any sequence number, is read back by either reader; both counters end equal; the buffer is restored |
| `WirePackets.CarriesNext` | go/mysql/conn.go:401-454 | from a run of payloads on the wire the next message read is the first of them, and the rest follow |
| `WireRows.RowIsNotAnEnd` | go/mysql/conn.go:1460-1468 | a row with a column is never empty and never taken for an EOF or error packet, with or without DEPRECATE_EOF |
| `WireRows.NullIsNotText` | go/mysql/query.go:261-282 | the first byte of a column tells NULL from every string, the empty one included |
| `WireRows.RowLength` | go/mysql/query.go:948-957 | the length pass gives the length of the row |
| `WireRows.FillRow` | go/mysql/query.go:959-968 | the writing pass fills the buffer with the row, exactly to its end |
| `WireRows.WriteRow` | go/mysql/query.go:948-971 | sends the row as one payload |
| `WireRows.ParseRow` | go/mysql/query.go:261-282 | a row that was written parses as its values; any row parsed has as many values as columns |
| `WirePayloads.ColumnRoundTrip` | go/mysql/query.go:89-182 | every column definition written reads back field by field |
| `WirePayloads.WriteColumn` | go/mysql/query.go:902-946 | sends the definition as one payload, in a buffer of the length summed up beforehand |
| `WirePayloads.ColumnSizeExact` | go/mysql/query.go:903-914 | that sum is the length of what is written, so the check that the packet is full never fails |
| `WirePayloads.EofRoundTrip` | go/mysql/conn.go:1475-1485 | flags and warnings of an EOF packet read back |
| `WirePayloads.WriteEof` | go/mysql/conn.go:881-889 | sends that packet |
| `WirePayloads.WriteOk` | go/mysql/conn.go:753-791 | sends an OK packet, with the session state only where it is tracked and changed, in a buffer of the length summed up beforehand |
| `WirePayloads.OkSizeExact` | go/mysql/conn.go:754-774 | that sum is the length of what is written |
| `WirePayloads.OkHeadRoundTrip` | go/mysql/conn.go:1511-1537 | the numbers of an OK packet read back |
| `WirePayloads.BareInfoIsLost` | go/mysql/conn.go:1539-1543 | an info text written without its length reads back **if and only if** it is empty |
| `WirePayloads.ParseSessionState` | go/mysql/conn.go:1545-1586 | the GTIDs of a tracked session read back through the sub-packet loop |
| `WirePayloads.ParseOk` | go/mysql/conn.go:1499-1590 | every field of an OK packet reads back; the info text exactly if it is empty, or both sides track the session and the client keeps it |
| `WireResults.WriteFields` | go/mysql/query.go:975-996 | sends the column count, the definitions and, unless deprecated, an EOF packet |
| `WireResults.WriteRows` | go/mysql/query.go:999-1006 | sends the rows in order |
| `WireResults.WithMore` | go/mysql/query.go:1014-1016 | the more-results bit is set exactly if there is more or it was set; the other bits stay |
| `WireResults.WriteEndResult` | go/mysql/query.go:1010-1035 | sends an EOF packet, or an OK packet with the EOF header |
| `WireResults.EndIsEof` | go/mysql/query.go:1010-1035 | the client takes the end packet for the end **if and only if** it is shorter than a full packet of 2^24-1 bytes |
| `WireResults.WriteResultSet` | go/mysql/conn.go:1363-1437 | sends fields, rows and end as one run of payloads |
| `WireResults.FirstPacket` | go/mysql/query.go:502-531 | the first byte of a response tells an OK, an error and a column count apart |
| `WireResults.ReadColumns` | go/mysql/query.go:384-396 | returns the columns sent |
| `WireResults.ReadRows` | go/mysql/query.go:417-482 | returns the rows sent and stops at the end packet; an error packet is reported; more rows than wanted are drained and refused |
| `WireResults.DrainResults` | go/mysql/query.go:485-500 | reads up to the end packet and no further, and reports an error packet |
| `WireResults.ReadEnding` | go/mysql/query.go:427-456 | flags, warnings and the more-results bit are those of the end packet |
| `WireResults.ReadQueryResult` | go/mysql/query.go:358-482 | understands every response whose end it can see: OK alone, error, or result set, ended or cut off; leaves the input just past it; a result set whose end packet is a full packet or longer, with nothing after it, is a failure |
| `WireResults.Exchange` | go/mysql/query.go:358-1035 | a result set written by one side is returned by the other, columns, rows, NULLs, flags and warnings, **if and only if** its end packet is shorter than a full packet and the row limit allows; otherwise a failure, and beyond the limit the limit error |
| `BinlogCells.MetadataRoundTrip` | go/mysql/binlog_event_rbr.go:145-199 | metadata of a known type reads back **if and only if** it fits the bytes the type has for it |
| `BinlogCells.CellLengthMoves` | go/mysql/binlog_event_rbr.go:205-320 | a cell has the same length wherever its bytes stand |
| `BinlogCells.WithBitSets` | go/mysql/binlog_event.go:294-302 | setting or clearing one bit of a byte gives that bit and leaves the others |
| `BinlogCells.SetBit` | go/mysql/binlog_event.go:294-302 | `Set` gives one bit of the bitmap and leaves all others |
| `BinlogCells.NewBitmap` | go/mysql/binlog_event.go:264-270 | a bitmap has the bytes its bits need |
| `BinlogCells.BitCount` | go/mysql/binlog_event.go:307-315 | counts the bits in use that are set, and no padding |
| `BinlogRows.CellsMove` | go/mysql/binlog_event_rbr.go:1013-1042 | cells that end where their bytes end do so anywhere in the event |
| `BinlogRows.SkipCells` | go/mysql/binlog_event_rbr.go:1022-1041 | the cell loop ends where the cells of the present, non-NULL columns end |
| `BinlogRows.ReadImage` | go/mysql/binlog_event_rbr.go:1016-1043 | one image of a row, null bitmap and cells, reads back |
| `BinlogRows.ReadRow` | go/mysql/binlog_event_rbr.go:1010-1088 | one row, its before and after images as the type has them, reads back |
| `BinlogRows.EmptyRow` | go/mysql/binlog_event_rbr.go:1010-1088 | without a present column a row takes no byte |
| `BinlogRows.ReadHead` | go/mysql/binlog_event_rbr.go:981-1007 | flags, column count and column bitmaps read back |
| `BinlogRows.ReadRowLoop` | go/mysql/binlog_event_rbr.go:1009-1090 | the row loop returns the rows and ends exactly at the end of the buffer |
| `BinlogRows.ReadRows` | go/mysql/binlog_event_rbr.go:981-1093 | a V2 write, update or delete event reads back **if and only if** some column is present or there is no row; otherwise its rows are gone |
| `BinlogRows.EventLength` | go/mysql/binlog_event_make.go:417-428 | the computed length is that of the event |
| `BinlogRows.BuildRows` | go/mysql/binlog_event_make.go:402-461 | the bytes are flags, counts, bitmaps and rows in order, exactly filling the buffer |
| `BinlogTableMap.MetadataTotalLength` | go/mysql/binlog_event_rbr.go:136-142 | the total is the number of bytes the writing loop emits, whatever the metadata |
| `BinlogTableMap.PutMetadata` | go/mysql/binlog_event_rbr.go:171-199 | writes the metadata bytes of the type in place |
| `BinlogTableMap.PutMetadatas` | go/mysql/binlog_event_make.go:370-372 | the writing loop emits the metadata in order |
| `BinlogTableMap.ReadMetadatas` | go/mysql/binlog_event_rbr.go:86-97 | the reading loop returns the metadata and consumes exactly as many bytes |
| `BinlogTableMap.NameRoundTrip` | go/mysql/binlog_event_rbr.go:66-72 | a name reads back **if and only if** it is shorter than 256 bytes |
| `BinlogTableMap.ReadTableMap` | go/mysql/binlog_event_rbr.go:55-107 | a table map that was written reads back, names, types, metadata and null bitmap, **if and only if** the names are shorter than 256 bytes, the metadata fits its bytes and the bitmap has a bit for each column |
| `BinlogTableMap.BuildTableMap` | go/mysql/binlog_event_make.go:327-377 | the bytes are the table map in order, exactly filling the buffer; names and metadata that do not fit their bytes are written truncated |
| `BinlogEvents.Packetize` | go/mysql/binlog_event_make.go:100-130 | header, payload and checksum, with zeroes where nothing is written |
| `BinlogEvents.PacketRoundTrip` | go/mysql/binlog_event_common.go:61-90 | the event is valid and of its type, and stripping the checksum leaves the payload |
| `BinlogEvents.RowsThereAndBack` | go/mysql/binlog_event_make.go:384-464 | built, packed, stripped and parsed, a rows event gives back its rows, with or without checksum |
| `BinlogEvents.MapThereAndBack` | go/mysql/binlog_event_make.go:327-381 | a table map event, with or without checksum, gives back its table map **if and only if** names and metadata fit |
| `BinlogDecimal.Unpack` | go/mysql/binlog_event_rbr.go:662-678 | sign bit and byte inversion undone |
| `BinlogDecimal.GroupsValue` | go/mysql/binlog_event_rbr.go:708-713 | the digits of the full groups spell the packed base-10^9 number, nine digits a group |
| `BinlogDecimal.DigitsValue` | go/mysql/binlog_event_rbr.go:680-777 | the digits on both sides of the point spell one number, with as many after the point as the scale |
| `BinlogDecimal.TrimKeepsValue` | go/mysql/binlog_event_rbr.go:783-797 | trimming leading zeros keeps the number |
| `BinlogDecimal.TrimWhole` | go/mysql/binlog_event_rbr.go:783-797 | trimming stops at the point |
| `BinlogDecimal.SpelledReads` | go/mysql/binlog_event_rbr.go:715-797 | a text so put together reads as its sign, digits and scale, or as nothing where it has no digit |
| `BinlogDecimal.DecodeDecimal` | go/mysql/binlog_event_rbr.go:651-797 | the length is that of `cellLength`; for groups in range the text is a numeral with exactly the sign, number and scale of the cell **if and only if** it is not a negative zero of scale 0 with fewer than nine digits |
| `BinlogDecimal.DecodeNegativeZero` | go/mysql/binlog_event_rbr.go:651-797 | minus zero as DECIMAL(x,0), for every x below nine, decodes to `-`, which is no numeral |
| `FilePos.Flavor.HandleEvent` | go/mysql/flavor_filepos.go:162-212 | the type switch returns the first event of the translation and saves the second |
| `FilePos.Flavor.ReadBinlogEvent` | go/mysql/flavor_filepos.go:138-214 | returns the first pending event and leaves the others pending, or the problem when none is |
| `FilePos.ReadAll` | go/mysql/flavor_filepos.go:138-214 | successive reads return exactly the flattened translation of the packets: nothing dropped, doubled or reordered |
| `FilePos.StreamPaired` | go/mysql/flavor_filepos.go:189-212 | every made-up GTID is followed at once by the event it announces, with its time and position; every change or query is announced so |
| `FilePos.StreamFiled` | go/mysql/flavor_filepos.go:182-212 | every made-up GTID comes from some packet and carries the file named by the last rotate event before that packet, or the first file |
| `FilePos.FileInForce` | go/mysql/flavor_filepos.go:182-186 | the file in force after any number of packets is the one the last rotate event among them names |
| `BucketPool.AndPredecessor` | go/bucketpool/bucketpool.go:74-76 | `n & (n-1)` is zero exactly for powers of two |
| `BucketPool.Sizes` | go/bucketpool/bucketpool.go:49-66 | the sizes double from the smallest, and the last is the largest |
| `BucketPool.IndexBounds` | go/bucketpool/bucketpool.go:72-76 | the index is the least number of doublings that reaches the size |
| `BucketPool.FindPoolSmallest` | go/bucketpool/bucketpool.go:68-78 | the index is in bounds and names the smallest bucket that fits |
| `BucketPool.Pool.constructor` | go/bucketpool/bucketpool.go:49-66 | an empty, valid pool |
| `BucketPool.Pool.Get` | go/bucketpool/bucketpool.go:82-90 | on any pool, the slice expression panics exactly if the buffer handed out is too small; on a valid pool it never does: a buffer of the length asked for, within its capacity, which is the smallest bucket that fits or above all of them |
| `BucketPool.Pool.Put` | go/bucketpool/bucketpool.go:93-100 | the pool stays valid **if and only if** the capacity is a bucket's or above all of them |
| `BucketPool.Run` | go/bucketpool/bucketpool.go:82-100 | in every run where only buffers taken are put back, every pooled buffer has exactly its bucket's size |
| `BucketPool.ForeignBufferPanics` | go/bucketpool/bucketpool.go:82-100 | after a buffer of any other capacity is put, some `Get` panics |
| `BucketPool.OwnBucket` | go/bucketpool/bucketpool.go:68-78 | the size of a bucket is looked up in that bucket |
| `LruCache.EvictsShortest` | go/cache/lru_cache.go:242-252 | eviction removes the shortest tail that restores the bound: no longer part of the list fits |
| `LruCache.RecentUse` | go/cache/lru_cache.go:229-232 | a key just used comes before all others in order of last use |
| `LruCache.LRUCache.CheckCapacity` | go/cache/lru_cache.go:242-252 | what is left is that part of the list, the counter counts the evicted, list, table and size agree |
| `LruCache.LRUCache.MoveToFront` | go/cache/lru_cache.go:229-232 | the element goes to the front, and the list is in order of last use |
| `LruCache.LRUCache.Get` | go/cache/lru_cache.go:78-90 | the value under the key, moved to the front; a miss changes only its counter |
| `LruCache.LRUCache.UpdateInplace` | go/cache/lru_cache.go:219-227 | value and size change in place and the total with them |
| `LruCache.LRUCache.AddNew` | go/cache/lru_cache.go:234-240 | a new element in front, in list and table |
| `LruCache.LRUCache.Set` | go/cache/lru_cache.go:93-104 | the new entry first, the old one gone, then the least recently used evicted as far as needed; size never above capacity |
| `LruCache.LRUCache.Delete` | go/cache/lru_cache.go:107-120 | takes out exactly the entry under the key |
| `LruCache.LRUCache.SetCapacity` | go/cache/lru_cache.go:147-153 | shrinks to the new bound |
| `SrvShuffle.Select` | go/netutil/netutil.go:57-69 | every draw below the sum selects a record, the one in whose stretch of the running sum it falls |
| `SrvShuffle.FrontedSame` | go/netutil/netutil.go:62-66 | moving a record to the front keeps the records, and the sum of the others |
| `SrvShuffle.MoveToFront` | go/netutil/netutil.go:62-66 | the shift in place puts the record in front and changes nothing outside |
| `SrvShuffle.DrawOne` | go/netutil/netutil.go:57-71 | one draw brings a record with weight to the front; the running sum is that of the records left |
| `SrvShuffle.ShuffleByWeight` | go/netutil/netutil.go:51-73 | a permutation, records with weight before those without, nothing outside changed, whatever is drawn |
| `SrvShuffle.SortRfc2782` | go/netutil/netutil.go:75-85 | a permutation ordered by priority, with weighted records first inside each priority |

## Left out

- ReplicationPosition.AllPositionsComparable: positions must not be nil, because the source calls a method of the set without a test.
- ReplicationPosition.FindErrantGTIDs: for overlapping relay logs and several replicas the set reported is stated step by step, because what a further `Difference` does depends on how the earlier one left the list.
- ReplicationPosition.Equal: positions with canonical sets only, because other sets can be equal with different lists.
- GtidText.SortSorted: intervals with the same start stay in their order, which the sort of the source does not promise.
- GtidSets.TrimGTIDSet: the receiver's lists of shared servers must not be empty, because the source indexes the last interval without a test.
- GtidDifference.Sweep: the intervals of both lists begin at 1 or later and do not end before they begin, and those of the other list are ordered by start, which the parser ensures and a binary block does not.
- WireResults.ReadQueryResult: columns are read in full; the variant that reads only their types is not modelled. Where the end of a result set is not seen and other packets follow, what becomes of them is not stated.
- WirePayloads.ColumnRoundTrip: wire types and flags are raw numbers; the mapping to SQL types and the NUM flag rule are not modelled.
- WirePayloads.ParseSessionState: a session-state length of 2^63 or more, which the source turns negative, is an error here.
- WireEncoding.LenEncStringRoundTrip: a string length of 2^63 or more, which the source turns negative, reads as too long here.
- BinlogRows.ReadRows: bytes left over when no column is present are an error here, because the source does not come to an end on them.
- BinlogDecimal.DecodeDecimal: groups beyond their digits are not given a meaning; a scale above the precision is an error here.
- BucketPool.Sizes: sizes stay at or below 2^62, because beyond that the doubling overflows and the source's loop does not end.
- LruCache.LRUCache.Set: sizes are unbounded integers, so overflow of the 64-bit total is not modelled; times of use are a log of keys.
- SrvShuffle.SortRfc2782: the result of `sort.Sort` is a parameter, any sorted permutation of the records.
- ResourcePoolSafety.RunKeeps: one `SetCapacity` at a time; timers, refresh, wait statistics and contexts are not modelled, and a caller closes a resource before putting nil. Reading a channel variable and acting on that channel is one step, except in the third select of `Get`, which reads both before it blocks.
- `Mysql56GTIDSet.Merge`, the MariaDB and file-position GTID sets: they have no set meaning to prove.
- V1 rows events through the builder, which writes the V2 extra-data length for them too.
- Cell values other than NEWDECIMAL, date and time text, binary JSON.
- The binary protocol, prepared statements, error packet contents, the handshake, authentication, TLS and sockets.
- The checksum function of binlog events, which is a parameter.
- Commands and queries of the replication flavors, protobuf wrappers, flags and statistics.
