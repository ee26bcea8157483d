# Protocols and replication of kit-go, verified

This project models the parts of the kit-go repository whose behaviour does not rest on a hidden library, and proves
what those parts are for. It is written for Dafny 4.11; `dafny verify dfyconfig.toml` checks all of it.

* **RocketMQ remoting.** `Codec` is the remoting command, the private header codec and the frame; `HeaderFormat` says
  which bytes are a header or a frame, whoever wrote them; `Framing` cuts a byte stream into frames again, once as the
  receive loop and once as the scanner; `Correlation` is the response table with its callers, connection readers,
  completion goroutines, timeouts and shutdown, interleaved in atomic steps.
* **Change-data replay.** `Replay` holds row events and the column lists, placeholders and values of a statement.
  `Mysql` is the statement generator for a MySQL replica. `ClickHouseTable` derives sort key, partition and nullability
  from a CREATE TABLE, `ClickHouseReplay` appends versioned rows and collapses them, and `ClickHouseSchema` joins the two.
* **Routes and name servers.** `Route` detects changes, `PublishInfo` expands a route into message queues, `BrokerIndex`
  is the index that shares its broker objects with the stored routes, `Namesrv` asks the name servers in turn.
* **Message traces.** `Trace` groups a batch and cuts it into messages; `Dispatch` is the queue and the loop in front of it.
* **WeCom envelope.** `Wecom` has padding, cipher block chaining, base64, the length layout and the signature;
  `WecomAcceptance` says, layer by layer, what is accepted and what is refused.
* **Smaller loops.** `Paging` cuts a table into key ranges, `OffsetTable` reads two hand-parsed table formats
  (with `Decimal` for their numbers), and `Nat` is a delimited record format.

`Common`, `Bytes`, `Text` and `Ordering` hold what several of these need: outcomes of Go calls, fixed-width integers,
splitting and joining, and the order of strings.

Code that updates state is a class or a method with loops, proved equal to a function of its inputs or of the old state;
the properties are lemmas about those functions. Where Go leaves an order open (ranging over a map, an unstable sort, a
`select`), the model leaves it open too, and the results hold for every choice. A Go panic is an outcome of its own.

## Where the code falls short of what it is meant to do

Some properties hold only under a condition that the code does not check. Each has a lemma that says exactly when it
holds.

* A frame survives encode and decode if and only if its header is below 2^24 bytes, its keys are below 2^15 bytes and its
  body is below 2^31 bytes (`Codec.RoundTripIff`). On the wire the whole frame must stay below 2^31 bytes as well: a longer
  one reads as a frame of negative length and ends the reader (`Framing.FrameArrivesIff`, `Framing.ArrivesIff`).
* The scanner agrees with the receive loop if and only if every frame fits its 128 MiB buffer (`Framing.ScannerAgreesIff`).
* A frame is skipped without a trace if and only if its payload fails to decode: a payload on which decoding panics, such
  as one with a key of negative length, ends the reader (`Framing.BadFrameIsSkippedIff`, `Framing.NegativeKeyPanics`).
* Done is closed at most once in every schedule if and only if no opaque may be answered on two connections
  (`Correlation.ClosedOnceIff`). Opaques repeat after 2^32 commands (`Correlation.OpaquesRepeatIff`).
* No call is lost as long as a new call's opaque belongs to no unfinished call and to no response that a reader holds
  (`Correlation.NobodyIsLost`). A shared opaque loses a response: the new call takes the place of the earlier one in the
  table, which is lost if and only if nothing else leads to it (`Correlation.BeginLosesIff`), and then for good
  (`Correlation.DisplacedCallIsLost`); a reader that still holds an earlier response deletes the key of the new call
  (`Correlation.StaleReaderLosesCall`).
* A MySQL replica stays equal to the source through a run if and only if every inserted row leaves out only columns whose
  default is NULL and every update changes something (`Mysql.ReplicaStaysEqualIff`).
* ClickHouse replay follows the source if and only if every column of the primary key is in the sort key, or is read by
  a partition expression that tells its values apart (`ClickHouseReplay.SortKeyMustCover`), and then if and only if the
  data versions never decrease (`ClickHouseReplay.VersionsMustNotDecrease`). In terms of the CREATE TABLE: if and only if
  every such column is declared PRIMARY KEY, or spelled letter for letter as a part of some key, and is not passed over,
  or has such a partition (`ClickHouseSchema.CreatedTableFollowsIff`); MySQL itself ignores case there. A key column is
  passed over if and only if it is called like the sort expression of an earlier column that is not
  (`ClickHouseSchema.InSortKeyIff`, `ClickHouseSchema.PassedOverIff`).
* Broker records compare as equal only when they are, if and only if no address is empty (`Route.BrokerEqualsIff`), and so no
  change of a route goes unseen if and only if its addresses are filled (`Route.ChangesSeenIff`). A route is found
  unchanged against itself if and only if queue records of one name are the same and broker records of one name compare
  as equal in both directions (`Route.UnchangedAgainstItselfIff`).
* `process` counts ticks as well as contexts and compares with `==`. The size limit of a batch is lost if and only if an
  expired tick finds the count one below it (`Dispatch.LimitLostIff`); until then batches keep the limit
  (`Dispatch.LimitHolds`), afterwards no received context commits one (`Dispatch.LimitStaysLost`) and a batch can grow
  beyond any size (`Dispatch.NoLimitAfterwards`). What is still queued when the loop ends is never committed
  (`Dispatch.EndedCommits`, `Dispatch.NothingAfterTheEnd`).
* Every region is sent exactly its own trace records, whatever their texts, if and only if each context of the batch
  keeps its region (`Trace.RegionsServedIff`): topic and region are without the splitter, or the second piece of the topic
  happens to be the region (`Trace.OwnRegionIff`). One trace context without beans drops its whole batch (`Trace.Dispatcher.BatchCommit`).
* `GetNextPage` orders by the ID column whatever the key column is; its pages are exact if and only if keys grow with IDs
  (`Paging.ExactPagesIff`).
* An offset table reads back from its gson form if and only if no queue text contains `],[` or `},`
  (`OffsetTable.GsonReadsBackIff`), and from its fastjson form if and only if none contains `,{` or `}:`
  (`OffsetTable.FastReadsBackIff`). Otherwise the first returns no table at all, and the second can return a wrong one, because it ignores errors.
* DNAT records read back if and only if no field contains a separator (`Nat.RoundTripIff`).

## Model

| member | source | states |
|---|---|---|
| `Codec.Encode` | rocketmq/client/remote/codec.go:173-215 | encode writes size, mark, header and body; the ext fields come in some order that lists every key once |
| `Codec.EncodeHeader` | rocketmq/client/remote/codec.go:319-385 | the header is written field by field, always with Language Go |
| `Codec.EncodeMaps` | rocketmq/client/remote/codec.go:387-413 | every ext field is written once, in whatever order the map is ranged over |
| `Codec.DecodeExtFields` | rocketmq/client/remote/codec.go:482-508 | the loop over the ext fields ends with exactly the parse of its data, including its errors and panics |
| `Codec.ReadHeader` | rocketmq/client/remote/codec.go:415-512 | reading the header off a shrinking buffer is decoding at fixed offsets, with the same failures |
| `Codec.ReadPayload` | rocketmq/client/remote/codec.go:217-254 | decode takes mark, header and body off one buffer, with lengths in 32 bits and unknown codecs refused |
| `Codec.HeaderRoundTrip` | rocketmq/client/remote/codec.go:319-512 | decodeHeader undoes encodeHeader for every order of the ext fields, with empty fields read as nil |
| `Codec.DecodedFits` | rocketmq/client/remote/codec.go:415-512 | a header that decodes to a command is never shorter than that command's own header, and its keys are short |
| `Codec.RoundTripIff` | rocketmq/client/remote/codec.go:173-254 | decode gives back the encoded command exactly when header, keys and body are within their length fields |
| `Codec.JsonRoundTrip` | rocketmq/client/remote/codec.go:278-295 | the frame adds nothing to a header codec: if the JSON codec has a round trip, so has the frame around it |
| `Codec.ResponseIsBitZero` | rocketmq/client/remote/codec.go:114-120 | of the 32 bits of the flag only the lowest decides whether a command is a response, and marking one sets that bit and no other |
| `HeaderFormat.HeaderDecodesIff` | rocketmq/client/remote/codec.go:415-512 | decodeHeader succeeds exactly on headers, and gives the command they are headers of: fixed fields, language byte included, remark block and ext block, whoever wrote them |
| `HeaderFormat.ExtParsesIff` | rocketmq/client/remote/codec.go:482-508 | ext fields parse exactly when the block is a list of whole entries, the last value of a key counting |
| `HeaderFormat.ExtPanicsIff` | rocketmq/client/remote/codec.go:482-521 | parsing them panics exactly when whole entries are followed by a negative length |
| `HeaderFormat.AnySenderIsRead` | rocketmq/client/remote/codec.go:431-435 | the layout that encodeHeader writes, with any language byte in place of 9, is read back with that language |
| `HeaderFormat.TruncatedFails` | rocketmq/client/remote/codec.go:459-481 | a header whose remark or ext block announces more bytes than there are is refused |
| `HeaderFormat.CutShortFails` | rocketmq/client/remote/codec.go:415-512 | a written header cut anywhere is refused |
| `HeaderFormat.FrameLayout` | rocketmq/client/remote/codec.go:173-215 | a frame is its length, the codec, three bytes of header length, header and body |
| `HeaderFormat.PayloadReads` | rocketmq/client/remote/codec.go:217-254 | codec 0 is read as JSON, codec 1 as the private header, any other is refused; an empty body is none |
| `HeaderFormat.ShortPayloadFails` | rocketmq/client/remote/codec.go:217-229 | a payload without its mark, or shorter than its header length says, is refused |
| `Framing.Wire.ReadFull` | rocketmq/client/remote/remote_client.go:195-210 | however the stream is cut into reads, exactly n bytes are taken from its front, or none are returned |
| `Framing.WriteTo` | rocketmq/client/remote/codec.go:136-171 | WriteTo leaves one whole frame behind everything written before |
| `Framing.ReceiveResponse` | rocketmq/client/remote/remote_client.go:170-222 | for every chunking, the receive loop delivers the decodable payloads of the stream in order |
| `Framing.Scan` | rocketmq/client/remote/remote_client.go:265-297 | for every chunking, the scanner delivers the same payloads up to the first frame beyond its buffer |
| `Framing.ScannerAgreesIff` | rocketmq/client/remote/remote_client.go:265-297 | scanner and receive loop agree exactly when no frame exceeds the buffer |
| `Framing.WrittenArrives` | rocketmq/client/remote/remote_client.go:170-222 | everything a sequence of WriteTo calls sends within these limits arrives once and in order, and what follows starts at a frame boundary |
| `Framing.FrameArrivesIff` | rocketmq/client/remote/codec.go:136-171 | a command that the codec can carry arrives, whatever follows it, exactly when its whole frame is below 2^31 bytes |
| `Framing.ArrivesIff` | rocketmq/client/remote/remote_client.go:170-222 | of all commands, exactly those within the limits of the codec and of a frame arrive, whatever follows them and however JSON is read |
| `Framing.BadFrameIsSkippedIff` | rocketmq/client/remote/remote_client.go:207-219 | a frame is skipped without a trace, whatever follows it, exactly when its payload fails to decode; one on which decoding panics ends the reader |
| `Framing.NegativeKeyPanics` | rocketmq/client/remote/codec.go:514-521 | an ext key of negative length is such a payload |
| `Framing.StreamsAppend` | rocketmq/client/remote/remote_client.go:170-222 | reading a stream that ends with a frame and then another one is reading both as one |
| `Correlation.StepKeeps` | rocketmq/client/remote/remote_client.go:93-141 | every step of every participant keeps table, readers, completions, opaques and calls consistent |
| `Correlation.RunKeeps` | rocketmq/client/remote/remote_client.go:93-141 | so does every schedule, if each opaque is answered on one connection |
| `Correlation.CorrelationIsSafe` | rocketmq/client/remote/remote_client.go:93-141 | in every schedule a key leads to the unfinished future with that opaque, Done is closed at most once, a call returns its own received response or the timeout error, and a finished InvokeAsync has run its callback exactly once with one of the two set |
| `Correlation.LateEventsChangeNothing` | rocketmq/client/remote/remote_client.go:224-237 | late and duplicate responses change neither the result of a finished call nor its callback runs |
| `Correlation.ClosedOnceIff` | rocketmq/client/remote/remote_client.go:224-237 | for every assignment of opaques to connections: Done is closed at most once in every schedule exactly when no opaque may be answered on two connections |
| `Correlation.TwoConnectionsCloseTwice` | rocketmq/client/remote/remote_client.go:226-236 | for any two connections and any response, a schedule in which both readers take one future and close its Done channel twice |
| `Correlation.UninterruptedResponse` | rocketmq/client/remote/remote_client.go:224-237 | the five steps of the state machine that answer a response, run without interruption, change table and future as ProcessCMD does |
| `Correlation.ReplyCompletesCall` | rocketmq/client/remote/remote_client.go:224-256 | a request changes nothing at the client that receives it, and the reply to it completes the call that sent it and no other |
| `Correlation.FailedSendReturnsNotSent` | rocketmq/client/remote/remote_client.go:99-133 | from any state: a call whose request cannot be written returns the error of the write, its key is gone, its callback has not run, nobody else has noticed |
| `Correlation.FailedSendStays` | rocketmq/client/remote/remote_client.go:99-133 | that error is final in every continuation |
| `Correlation.UnansweredCallTimesOut` | rocketmq/client/remote/future.go:55-68 | from any state: a call nobody answers returns the timeout error once its context has ended and not before; the callback of an asynchronous call has run once and seen it |
| `Correlation.AnsweredCallEnds` | rocketmq/client/remote/remote_client.go:93-141 | from any state: a call that is answered returns its answer, its key is gone, and its callback has run once and seen the answer |
| `Correlation.ShutDownAbandons` | rocketmq/client/remote/remote_client.go:351-355 | shutdown takes a key out of the table, and a call that only the table led to never gets a response |
| `Correlation.NobodyIsLost` | rocketmq/client/remote/remote_client.go:93-141 | in every schedule without shutdown whose new calls have fresh opaques, each call that is sending or waiting is in the table, held by a reader or being completed |
| `Correlation.AnsweredCallReturns` | rocketmq/client/remote/remote_client.go:224-237 | whatever else has happened, a response to a waiting call in the table, processed to the end, is what that call returns |
| `Correlation.BeginLosesIff` | rocketmq/client/remote/remote_client.go:93-141 | a new call loses somebody exactly when it displaces from the table a call that still expects its response and that nothing else leads to |
| `Correlation.LostForever` | rocketmq/client/remote/remote_client.go:93-141 | a lost call never gets a response, whatever happens; if it returns, then with a timeout |
| `Correlation.DisplacedCallIsLost` | rocketmq/client/remote/remote_client.go:99-101 | so a call displaced by one with its opaque never gets a response in any continuation |
| `Correlation.StaleReaderLosesCall` | rocketmq/client/remote/remote_client.go:226-229 | a reader that holds a response from before a new call with its opaque deletes the key of that call, which never gets a response in any continuation |
| `Correlation.OpaquesRepeatIff` | rocketmq/client/remote/codec.go:92-107 | two commands share an opaque exactly when a multiple of 2^32 lies between them |
| `Correlation.ResponseFuture.ExecuteInvokeCallback` | rocketmq/client/remote/future.go:47-53 | the callback runs on the first call only and sees the response or error set by then |
| `Correlation.ResponseFuture.WaitResponse` | rocketmq/client/remote/future.go:55-68 | waiting ends with the response and error of the future, or with the timeout error stored in it |
| `Correlation.ResponseFuture.Complete` | rocketmq/client/remote/remote_client.go:230-236 | completion sets the response before the callback and closes Done after it |
| `Correlation.RemotingClient.Register` | rocketmq/client/remote/remote_client.go:99-101 | a new future is stored under its opaque and nothing else changes |
| `Correlation.RemotingClient.RegisterRequestFunc` | rocketmq/client/remote/remote_client.go:88-90 | a function is registered for a code and replaces an earlier one |
| `Correlation.RemotingClient.ProcessCMD` | rocketmq/client/remote/remote_client.go:224-256 | an odd flag: the key goes and that future and no other is completed; an even flag: table and futures stay, and the reply of the function registered for the code goes back under the same opaque, marked as a response |
| `Correlation.RemotingClient.ShutDown` | rocketmq/client/remote/remote_client.go:351-355 | shutdown empties the table and touches no future |
| `Replay.SlotsAppend` | mysql/dml.go:64-113 | a statement's lists bind part by part: SET takes its values first and leaves the rest for WHERE |
| `Replay.Compacted` | mysql/dml.go:115-136 | deleting the nil entries of the three slices keeps names, places and values aligned |
| `Mysql.Insert` | mysql/dml.go:20-43 | the slice-filling loop produces the insert of the non-NULL columns |
| `Mysql.UpdateAndDelete` | mysql/dml.go:64-113 | the loop produces the update of the changed columns, or the delete, both found by the old key |
| `Mysql.StatementWrites` | mysql/dml.go:20-113 | an INSERT lists exactly the columns that are not NULL; an UPDATE sets exactly the changed columns; both UPDATE and DELETE find their row by the whole old key, with its values |
| `Mysql.InsertReadsBackIff` | mysql/dml.go:20-43 | an insert into an empty table stores the row exactly when every omitted column defaults to NULL |
| `Mysql.InsertReplaysIff` | mysql/dml.go:20-43 | on a replica that equals the source, the generated insert adds the row exactly when what it omits defaults to NULL |
| `Mysql.DeleteReplays` | mysql/dml.go:60-113 | the generated delete removes that row and no other |
| `Mysql.UpdateReplays` | mysql/dml.go:51-113 | the generated update turns the old row into the new one and leaves the others, also across key changes and set-to-NULL |
| `Mysql.UpdateAcceptedIff` | mysql/dml.go:75-101 | the server accepts a generated update exactly when it changes a column |
| `Mysql.ReplicaStaysEqualIff` | mysql/dml.go:20-136 | for every valid run and all column defaults, the replica equals the source after each event exactly when every insert omits only NULL defaults and every update changes something |
| `Mysql.ReplicaFollowsSource` | mysql/dml.go:20-136 | such a run ends with a replica equal to the source |
| `ClickHouseTable.Table.GetColumns` | clickhouse/clickhouse.go:444-507 | each definition becomes a column object of its own, and names lead to positions |
| `ClickHouseTable.Table.AddVersionColumn` | clickhouse/clickhouse.go:509-515 | two plain columns are appended and the others kept |
| `ClickHouseTable.Table.GetConstraint` | clickhouse/clickhouse.go:542-569 | each key part marks the column of that name, and only that one |
| `ClickHouseTable.Table.GetOrderByPolicy` | clickhouse/clickhouse.go:583-633 | the loop computes the sort key, or fails without a primary key |
| `ClickHouseTable.Table.GetPartitionPolicy` | clickhouse/clickhouse.go:635-665 | the partition is that of the last primary-key column with a partitionable type |
| `ClickHouseTable.Translate` | clickhouse/clickhouse.go:383-436 | the passes over a definition leave the columns, sort key and partition the later results speak about |
| `ClickHouseSchema.FinalColumn` | clickhouse/clickhouse.go:444-569 | a created column is nullable, or a key, exactly as the options and constraints that name it say |
| `ClickHouseSchema.VersionColumnsPlain` | clickhouse/clickhouse.go:509-515 | the two columns behind those of the definition are `_del` and `_version`, in no key whatever the constraints say |
| `ClickHouseSchema.PositionsLast` | clickhouse/clickhouse.go:444-450 | a name leads to the last column that bears it |
| `ClickHouseSchema.OrderByColumns` | clickhouse/clickhouse.go:583-633 | the sort key reads exactly the columns of some key that are not passed over, and exists exactly when one of them is a primary key |
| `ClickHouseSchema.SortKeyOrder` | clickhouse/clickhouse.go:583-633 | the sort key lists each of its columns once: AUTO_INCREMENT columns last, otherwise as they are defined; nullable ones under assumeNotNull, a single one in a tuple |
| `ClickHouseSchema.InSortKeyIff` | clickhouse/clickhouse.go:588-618 | a column is in the list exactly when some key names it and it is not called like the sort expression of an earlier column in the list |
| `ClickHouseSchema.PassedOverIff` | clickhouse/clickhouse.go:588-618 | which columns are passed over is visible in the definition |
| `ClickHouseSchema.PolicyListsAllIff` | clickhouse/clickhouse.go:590-598 | every key column gets into the sort key exactly when none is called like the sort expression of an earlier one |
| `ClickHouseSchema.ClashIff` | clickhouse/clickhouse.go:590-603 | whether that happens is visible in the definition: a key column named assumeNotNull(x) behind a nullable key column x |
| `ClickHouseSchema.CreatedIff` | clickhouse/clickhouse.go:619-621 | a table is created exactly when its definition has a primary key in the spelling of a column that is not passed over |
| `ClickHouseSchema.PartitionIsKey` | clickhouse/clickhouse.go:635-665 | the partition depends on a primary-key column only |
| `ClickHouseSchema.PartitionIff` | clickhouse/clickhouse.go:635-665 | the partition is that of the last column of the primary key whose type has one: by month, by value, or by a thousandth of the unsigned range of the type |
| `ClickHouseSchema.CreatedSchemaOk` | clickhouse/clickhouse.go:542-665 | the created table is fit for replay, and tells all primary keys apart exactly when every column of the primary key is declared PRIMARY KEY or spelled letter for letter as a part of some key and not passed over, or has a partition for each value |
| `ClickHouseSchema.KeptWithoutClash` | clickhouse/clickhouse.go:588-603 | when no key column is called like the sort expression of an earlier one, the spelling alone decides |
| `ClickHouseSchema.SourceRowsFit` | clickhouse/clickhouse.go:444-569 | every row the source accepts has NULL only where the created table does |
| `ClickHouseSchema.CreatedTableFollowsSource` | clickhouse/clickhouse.go:383-436 | from such a CREATE TABLE through every valid run, the collapsed table equals the source |
| `ClickHouseSchema.CreatedTableFollowsIff` | clickhouse/clickhouse.go:383-436 | for every definition: the created table ends equal to the source after every run exactly when every column of the primary key is kept in that sense |
| `ClickHouseReplay.OnCkInsert` | clickhouse/dml.go:87-116 | the loop produces the row with its two version columns last, NULL written out only where asked |
| `ClickHouseReplay.InsertStores` | clickhouse/dml.go:87-116 | executing it appends exactly the rendered row with its mark and version |
| `ClickHouseReplay.GeneratedWrites` | clickhouse/dml.go:34-71 | an insert writes the row without its NULLs; a delete the old row with mark 1; an update both that and the new row with its NULLs and mark 0; all under the version of the event |
| `ClickHouseReplay.WinnerIsHighest` | clickhouse/clickhouse.go:409-409 | the row kept for a sort key has the highest version, and no later row has the same |
| `ClickHouseReplay.WinnerIsLatest` | clickhouse/clickhouse.go:409-409 | with non-decreasing versions the last row inserted for a key is the one kept |
| `ClickHouseReplay.CollapseFollowsSource` | clickhouse/dml.go:34-71 | from any log that stands for a table, for every valid run with non-decreasing versions, collapsing the appended rows gives exactly the source table |
| `ClickHouseReplay.SortKeyMustCover` | clickhouse/clickhouse.go:583-633 | replay follows every run exactly when each primary-key column is in the sort key or told apart by the partition; for a partition by a column of the sort key, exactly when the sort key contains the primary key |
| `ClickHouseReplay.VersionsMustNotDecrease` | clickhouse/dml.go:34-71 | replay with given versions follows every run of that length exactly when the versions never decrease |
| `Route.BrokerEqualsIff` | rocketmq/client/route.go:658-678 | Equals is equality of records exactly for records without an empty address |
| `Route.EmptyAddressEqualsMissing` | rocketmq/client/route.go:671-675 | every record with an empty address equals one in which another key takes the place of that address |
| `Route.TopicRouteData.Clone` | rocketmq/client/route.go:572-588 | a clone has new lists of the same records |
| `Route.RouteEquals` | rocketmq/client/route.go:590-610 | the comparison is position by position over brokers and queues |
| `Route.ComparisonIgnoresOrder` | rocketmq/client/route.go:448-469 | whatever the unstable sorts leave: unchanged with filled addresses means the same records, and the same records with unambiguous names mean unchanged |
| `Ordering.SortIsUniqueIff` | rocketmq/client/route.go:455-466 | an unstable sort by name has one outcome exactly when records of one name are the same record |
| `Route.UnchangedAgainstItselfIff` | rocketmq/client/route.go:448-469 | a route is found unchanged against itself, whatever the sorts leave, exactly when queue records of one name are the same and broker records of one name equal each other |
| `Route.ChangesSeenIff` | rocketmq/client/route.go:448-469 | no change of a route goes unseen, whatever the sorts leave, exactly when its addresses are filled |
| `Route.TopicRouteDataIsChange` | rocketmq/client/route.go:448-469 | a missing route is a change; otherwise detection, sorting included, depends on the records and not on list order, each direction under its own exact condition, and it changes no existing list |
| `BrokerIndex.Namesrvs.OccursInRoutes` | rocketmq/client/route.go:58-71 | the search finds an address exactly when some broker of some stored route has it |
| `BrokerIndex.Namesrvs.DropOffline` | rocketmq/client/route.go:57-79 | one broker keeps exactly its live addresses, and all of them if a route reaches it |
| `BrokerIndex.Namesrvs.CleanOfflineBroker` | rocketmq/client/route.go:50-88 | the index keeps exactly the live addresses it had and no empty name; no object a route reaches changes, although the index may share it |
| `BrokerIndex.CleanedTwice` | rocketmq/client/route.go:50-88 | cleaning twice is cleaning once |
| `BrokerIndex.CleanedIff` | rocketmq/client/route.go:50-88 | a broker stays exactly when it has a live address, and then with exactly those |
| `BrokerIndex.LimitedRecords` | rocketmq/client/route.go:148-155 | no record is read from more queues than the limit; one within it stays as it is, one cut down also writes to as many, and nothing else of it changes |
| `BrokerIndex.StoredAt` | rocketmq/client/route.go:212-216 | under each name the index holds the last record of that name, or what it held before |
| `BrokerIndex.Namesrvs.AddBroker` | rocketmq/client/route.go:212-216 | every broker of a route is stored, in list order |
| `BrokerIndex.Namesrvs.UpdateTopicRoute` | rocketmq/client/route.go:124-210 | afterwards the stored route holds the records of the fetched one, stored or found unchanged; producers and index hear of it only on a change; a copy is returned |
| `PublishInfo.MasterAddress` | rocketmq/client/route.go:506-516 | the master address is that of the first broker record with the name |
| `PublishInfo.RouteToPublishInfo` | rocketmq/client/route.go:471-529 | the loops list the queues of the records in the order the sort call left, which permutes the route's own list |
| `PublishInfo.ListedPerRecord` | rocketmq/client/route.go:501-526 | each queue appears once for every record that lists it |
| `PublishInfo.ExpansionOfPermutation` | rocketmq/client/route.go:471-529 | for every permutation the queues are those below WriteQueueNums of the writable records with a master, their number is the sum of the counts, and none is there twice exactly when no two contributing records share a name |
| `PublishInfo.WriteableIsBitOne` | rocketmq/client/perm.go:28-30 | only the second lowest bit of the permissions decides whether a record is written to |
| `PublishInfo.RecordPublishes` | rocketmq/client/route.go:501-526 | a record is published as queues 0 to writeQueueNums, each once, exactly when its write bit is set and the first broker record of its name has a non-empty address under 0 |
| `PublishInfo.ExpandAppend` | rocketmq/client/route.go:501-526 | records are published one after the other |
| `Namesrv.NameServers.GetNameServerAddress` | rocketmq/client/namesrv.go:132-147 | a request reads the position the index points to and moves the index on |
| `Namesrv.NameServers.UpdateNameServerAddress` | rocketmq/client/namesrv.go:166-181 | the list is replaced exactly by a list that is not empty and that Diff tells from it, so that it then names the resolved servers; the index stays |
| `Namesrv.SchemeIsStripped` | rocketmq/client/namesrv.go:143-146 | the scheme is taken off an address and nothing else is |
| `Namesrv.RotationVisitsEachOnce` | rocketmq/client/namesrv.go:132-147 | n requests over n servers read every position once, from any index, also past a shrunken list |
| `Namesrv.FullRound` | rocketmq/client/namesrv.go:132-147 | a full round asks the servers of the list as often as they are listed |
| `Namesrv.NameServers.QueryTopicRoute` | rocketmq/client/route.go:387-446 | the first answer decides; without one, every server has been asked exactly once |
| `Namesrv.AnswersMean` | rocketmq/client/route.go:421-446 | code 0 with a body that decodes is a route, 17 says that there is no such topic, everything else is an error |
| `Trace.Marshal` | rocketmq/client/trace.go:181-189 | the keys of a record are the ids and the keys of its beans |
| `Trace.RecordGrows` | rocketmq/client/trace.go:181-189 | the record of a context carries its text, and for each bean in turn its message id and its keys unless they are empty |
| `Trace.ChunksAreWellCut` | rocketmq/client/trace.go:430-455 | no record is lost, repeated or reordered; every message but the last exceeds the limit, and only by its last record |
| `Trace.CutAtLimit` | rocketmq/client/trace.go:430-455 | the limit is 118000 bytes: every message but the last has more, and none has more before its last record |
| `Trace.CutIsUnique` | rocketmq/client/trace.go:430-455 | there is only one way to cut a group like that |
| `Trace.Dispatcher.Flush` | rocketmq/client/trace.go:430-455 | flush sends the cut of its group to its region, each message with exactly the keys of its records |
| `Trace.Dispatcher.BatchCommit` | rocketmq/client/trace.go:392-417 | each group is flushed once, in any order; a context without beans makes the whole batch send nothing |
| `Trace.RecoverIff` | rocketmq/client/trace.go:398-416 | a key gives back its topic and region exactly when neither contains the splitter |
| `Trace.SplitterMergesGroups` | rocketmq/client/trace.go:400-403 | otherwise two different pairs can share a key |
| `Trace.OwnRegionIff` | rocketmq/client/trace.go:398-416 | the region comes back from the key exactly when topic and region are without the splitter, or the second piece of the topic is the region |
| `Trace.EachRecordSentOnce` | rocketmq/client/trace.go:392-455 | a batch whose contexts keep their regions sends every region its records once: topic after topic, those of a topic in order and well cut, whatever the order of the groups |
| `Trace.RegionsServedIff` | rocketmq/client/trace.go:392-455 | every region is served like that, for all texts of the records, exactly when every context of the batch keeps its region |
| `Dispatch.RunConserves` | rocketmq/client/trace.go:322-388 | in every run the accepted contexts are the committed batches, the pending batch and the queue, in order, and the calls of Append while running are the accepted and the discarded ones |
| `Dispatch.AcceptsIff` | rocketmq/client/trace.go:322-337 | a context is accepted exactly while the dispatcher runs and fewer than 1024 wait |
| `Dispatch.TickCommits` | rocketmq/client/trace.go:358-370 | an expired tick leaves nothing pending and commits no empty batch; any other tick changes nothing |
| `Dispatch.HundredMakeABatch` | rocketmq/client/trace.go:346-357 | without ticks, contexts are committed a hundred at a time and are pending, in order, up to then |
| `Dispatch.ClosedWhenDrained` | rocketmq/client/trace.go:340-388 | a dispatcher closed once its queue has been received commits everything it has accepted |
| `Dispatch.EndedCommits` | rocketmq/client/trace.go:371-387 | at the end nothing is pending, and everything accepted is committed exactly when the queue was empty |
| `Dispatch.NothingAfterTheEnd` | rocketmq/client/trace.go:371-387 | what is in the queue then stays there |
| `Dispatch.LimitLostIff` | rocketmq/client/trace.go:340-370 | the count passes the batch size exactly when an expired tick finds it one below |
| `Dispatch.LimitHolds` | rocketmq/client/trace.go:346-357 | until then no batch, pending or committed, is larger than the batch size |
| `Dispatch.LimitStaysLost` | rocketmq/client/trace.go:340-388 | from then on, under all events, the count never comes back and no received context commits a batch |
| `Dispatch.NoLimitAfterwards` | rocketmq/client/trace.go:340-370 | then, while the dispatcher runs, some events make the pending batch larger than any given size |
| `Dispatch.TraceDispatcher.Append` | rocketmq/client/trace.go:322-337 | a context is queued, discarded and counted, or refused because the dispatcher is closed |
| `Dispatch.TraceDispatcher.Receive` | rocketmq/client/trace.go:346-357 | a received context joins the batch, which is committed when the count is exactly the batch size |
| `Dispatch.TraceDispatcher.Tick` | rocketmq/client/trace.go:358-370 | an expired tick counts and commits what is pending |
| `Dispatch.TraceDispatcher.Done` | rocketmq/client/trace.go:371-387 | cancellation commits the pending batch and ends the loop |
| `Dispatch.TraceDispatcher.Process` | rocketmq/client/trace.go:340-388 | under every schedule of calls and turns the object follows the run of the model |
| `Wecom.UnpadUndoesPad` | wecom/wxbizmsgcrypt.go:124-143 | padding fills whole blocks and comes off again |
| `Wecom.CbcRoundTrip` | wecom/wxbizmsgcrypt.go:145-201 | chained decryption undoes chained encryption for every bijective block cipher |
| `Wecom.DecryptInPlace` | wecom/wxbizmsgcrypt.go:196-200 | decrypting in one slice, last block first, gives the chained plain text |
| `Wecom.DecryptCbc` | wecom/wxbizmsgcrypt.go:170-201 | the decrypter, in place, with its two length errors and the base64 error |
| `Wecom.Base64RoundTrip` | wecom/wxbizmsgcrypt.go:165-182 | decoding undoes encoding, padding symbols included |
| `Wecom.SortSorts` | wecom/wxbizmsgcrypt.go:204-205 | sorting gives an ascending list of the same strings |
| `Wecom.CalSignature` | wecom/wxbizmsgcrypt.go:203-215 | sorting in place and concatenating computes the signature |
| `Wecom.SignatureIgnoresOrder` | wecom/wxbizmsgcrypt.go:203-215 | the signature depends on the four strings as a collection only |
| `Ordering.AtMostIff` | wecom/wxbizmsgcrypt.go:204-205 | a string sorts before another when it is a prefix of it or has the smaller byte where they first differ |
| `WecomAcceptance.SignatureIff` | wecom/wxbizmsgcrypt.go:203-215 | the signature is the digest of the four strings, one after the other in ascending order |
| `WecomAcceptance.PadAdds` | wecom/wxbizmsgcrypt.go:124-131 | padding adds 1 to 32 bytes up to whole blocks, each of them their number |
| `WecomAcceptance.UnpadIff` | wecom/wxbizmsgcrypt.go:133-143 | unpadding believes the last byte; a number larger than the text panics, and a text that is not whole blocks is refused |
| `WecomAcceptance.XorIsBitwise` | wecom/wxbizmsgcrypt.go:145-201 | exclusive or sets the bits in which two bytes differ |
| `WecomAcceptance.BlockIsChained` | wecom/wxbizmsgcrypt.go:145-168 | each block is encrypted after it was combined with the cipher text of the one before, the first with the initial vector |
| `WecomAcceptance.BlockIsUnchained` | wecom/wxbizmsgcrypt.go:170-201 | and decrypted the other way round |
| `WecomAcceptance.Base64DecodesIff` | wecom/wxbizmsgcrypt.go:165-182 | decoding succeeds exactly when the text without line breaks is an encoding, up to bits that encode nothing |
| `WecomAcceptance.DeciphersIff` | wecom/wxbizmsgcrypt.go:170-201 | deciphering succeeds exactly on base64 of one or more whole blocks, with the error of each other case |
| `Wecom.ParseLayout` | wecom/wxbizmsgcrypt.go:217-238 | parsing the padded layout gives prefix, message and receiver exactly when the lengths fit 32 bits |
| `WecomAcceptance.ParsesIff` | wecom/wxbizmsgcrypt.go:217-238 | a text parses into prefix, message and receiver exactly when it is their padded layout and they fit 32 bits |
| `WecomAcceptance.NoLayout` | wecom/wxbizmsgcrypt.go:217-238 | a text shorter than 20 bytes or than its length field says is refused; a length field that overflows panics |
| `Wecom.Encrypt` | wecom/wxbizmsgcrypt.go:265-286 | the buffer is written as prefix, length, message and receiver, encrypted and signed |
| `Wecom.Decrypt` | wecom/wxbizmsgcrypt.go:288-315 | signature, cipher text, layout and receiver are checked in this order, each with its own error |
| `Wecom.EnvelopeRoundTripIff` | wecom/wxbizmsgcrypt.go:265-315 | decrypting an encrypted message gives it back exactly when the lengths fit 32 bits |
| `WecomAcceptance.AcceptsIff` | wecom/wxbizmsgcrypt.go:240-315 | for all inputs: a message is accepted exactly when the signature is that of token, timestamp, nonce and cipher text, and the cipher text carries it to the receiver of the account, if that has one |
| `WecomAcceptance.RefusesIff` | wecom/wxbizmsgcrypt.go:240-315 | the signature error is given exactly for another signature, the receiver error exactly for a signed message to another receiver |
| `WecomAcceptance.OtherReceiverIsRefused` | wecom/wxbizmsgcrypt.go:265-315 | an envelope made for one receiver and opened by another with the same token and key is refused with the receiver error |
| `Wecom.SendReply` | wecom/wxbizmsgcrypt.go:145-168 | the reply of an account, from decoding its key to the XML text, with the errors of both |
| `Wecom.ReceivePost` | wecom/wxbizmsgcrypt.go:288-315 | a post is parsed and its signature checked before the key is decoded, each step with its own error |
| `Wecom.MessageRoundTripIff` | wecom/wxbizmsgcrypt.go:265-315 | from message to XML and back, for every account and every reply that succeeds: if the XML reads back as the cipher text, the message is received exactly when the lengths fit 32 bits; if it is refused, receiving it is an error |
| `WecomAcceptance.OpensIff` | wecom/wxbizmsgcrypt.go:145-160 | the key of an account is base64 text that the cipher takes, and its first block the initial vector |
| `WecomAcceptance.ReplyOutcomes` | wecom/wxbizmsgcrypt.go:145-168 | a reply is the XML of the envelope under that key; the errors of an undecodable key, a refused key and unwritable XML |
| `WecomAcceptance.ReceivesIff` | wecom/wxbizmsgcrypt.go:288-315 | for all inputs: a post is accepted exactly when it parses, its signature is right, the key opens, and its cipher text carries the message to the account |
| `WecomAcceptance.ReceiveRefuses` | wecom/wxbizmsgcrypt.go:288-299 | a post that does not parse, and one under a wrong signature, are refused as such whatever the key is |
| `WecomAcceptance.ReceiveRefusesReceiver` | wecom/wxbizmsgcrypt.go:310-312 | a rightly signed post for another receiver is refused as such |
| `WecomAcceptance.ReceiveKeyErrors` | wecom/wxbizmsgcrypt.go:170-186 | a signed post that fails on the key of the account or on its base64 |
| `Wecom.SmallEnvelopesFit` | wecom/wxbizmsgcrypt.go:217-238 | they do for every layout below 2^32 bytes |
| `Paging.GetNextPage` | mysql/client.go:203-228 | the loop ends and returns all cuts, or nil when a query fails |
| `Paging.CutsIncrease` | mysql/client.go:203-228 | the cuts strictly increase and are keys of the table |
| `Paging.OneInterval` | mysql/client.go:203-228 | every key above the start lies in exactly one interval |
| `Paging.AtLeastLimit` | mysql/client.go:215-226 | every interval holds at least `limit` rows or all that are left |
| `Paging.ExactPages` | mysql/client.go:215-226 | when keys grow with IDs every interval but the last holds exactly `limit` rows |
| `Paging.ExactPagesIff` | mysql/client.go:215-215 | pages are exact from every start and for every limit exactly when keys grow with IDs |
| `OffsetTable.ParseGsonFormat` | rocketmq/client/model.go:394-445 | the loop over the pieces, with its nil tables and its panics |
| `OffsetTable.ParseFastJsonFormat` | rocketmq/client/model.go:447-486 | the loop over the pieces, ignoring conversion errors |
| `OffsetTable.Decode` | rocketmq/client/model.go:380-392 | valid JSON is read as gson, everything else as fastjson |
| `OffsetTable.GsonRoundTrip` | rocketmq/client/model.go:394-445 | the gson form of a table, its entries in any order, decodes to the table |
| `OffsetTable.FastRoundTrip` | rocketmq/client/model.go:447-486 | the fastjson form of a table, its entries in any order, decodes to the table |
| `OffsetTable.GsonReadsBackIff` | rocketmq/client/model.go:394-445 | for every table and order, with a parser of objects none of which continues another: the gson form decodes to the table exactly when no queue text contains one of its separators, and otherwise to no table at all |
| `OffsetTable.FastReadsBackIff` | rocketmq/client/model.go:447-486 | likewise the fastjson form, when an object cut short leaves the empty queue and that is no key of the table |
| `OffsetTable.BothFormsAgree` | rocketmq/client/model.go:378-392 | both forms of one table, each read by its own JSON library, decode to the same map, the original, also when it has no entry or one |
| `OffsetTable.SeparatorInText` | rocketmq/client/model.go:411-441 | with any parser, a one-entry gson form whose text contains `},` panics, fails, or yields what follows the separator as the offset |
| `OffsetTable.GsonTextIff` | rocketmq/client/model.go:411-441 | with any parser that accepts the text, it reads back with every offset exactly when it does not contain `},`, given that it does not contain `],[` |
| `OffsetTable.PrefixesMatter` | rocketmq/client/model.go:409-441 | a parser that accepts a text and its continuation can read back a text with separators |
| `Decimal.ParseOfFormat` | rocketmq/client/model.go:419-419 | every 64-bit offset reads back from its decimal form |
| `Decimal.ParseOutOfRange` | rocketmq/client/model.go:471-471 | a number beyond 64 bits ends in the nearest limit, also when the error is ignored |
| `Decimal.NoNumber` | rocketmq/client/model.go:471-471 | a text with a character that is no digit is no number, and reads as 0 when the error is ignored |
| `Decimal.SignInFront` | rocketmq/client/model.go:419-419 | one sign may stand in front, a second may not |
| `Decimal.DigitsInOrder` | rocketmq/client/model.go:419-419 | decimal means the digits of the tens and then the unit |
| `Nat.MkDnat` | weyos/v1/nat.go:283-307 | each field of the struct goes to its position in the record |
| `Nat.MarshalDnat` | weyos/v1/nat.go:226-251 | the records are joined in order; no record gives the empty text |
| `Nat.RecordText` | weyos/v1/nat.go:283-307 | a record is status, protocol, WAN addresses, WAN port, LAN port, LAN address, name and WAN interface, with `<` between them |
| `Nat.MarshalledSnoc` | weyos/v1/nat.go:226-251 | records are joined by `>` |
| `Nat.ReadFields` | weyos/v1/nat.go:380-394 | the eight fields are read back whatever the reused value held before |
| `Nat.NatTable.DNatFrom` | weyos/v1/nat.go:370-402 | unmarshalling appends the well-formed records to the list |
| `Nat.NatTable.AddEntry` | weyos/v1/nat.go:22-31 | a DNAT entry is appended to the list |
| `Nat.NatTable.DNatString` | weyos/v1/nat.go:93-99 | the text of the table is its marshalled list |
| `Nat.RoundTripIff` | weyos/v1/nat.go:226-402 | a list reads back exactly when no field contains a separator |
| `Nat.RewriteKeepsWellFormed` | weyos/v1/nat.go:226-402 | reading any text and writing it again keeps exactly its records of eight fields, in order |
| `Nat.RewriteTwice` | weyos/v1/nat.go:226-402 | a rewritten text is stable |
| `Text.SplitOfJoin` | weyos/v1/nat.go:370-376 | splitting a join of clean pieces gives the pieces, for separators that do not overlap themselves |
| `Text.JoinOfSplit` | weyos/v1/nat.go:370-376 | joining a split gives the text |

## Left out

- Sockets, deadlines, dialing, write errors and closing connections: a connection is the sequence of bytes its reader sees, and `Framing.Scan` sees the end of the stream on a read of its own.
- JSON, XML, AES and SHA-1: parameters with a round trip, a bijection or nothing at all assumed of them. The hexadecimal form of a signature is part of its digest.
- Correlation.CorrelationIsSafe: assumes that each opaque is answered on one connection, which ClosedOnceIff shows to be what it takes. The run of a callback is one step, and InvokeSync and InvokeAsync are steps of the state machine and not methods, because others act between their steps.
- Correlation.NobodyIsLost: is about schedules without shutdown, which empties the table on purpose.
- Correlation.RemotingClient.ProcessCMD: runs the completion goroutine at once, which the state machine runs in three steps, and UninterruptedResponse relates the two. A registered function is a function of the request alone; the address it is also given, and writing the reply to the connection, are left out.
- InvokeOneWay, RequestResponseFuture and its cache: they do not use the response table, or live in an external cache.
- Mysql.ReplicaStaysEqualIff: rendering a value to text is an arbitrary function that keeps key values apart, and the replica stores rendered values; SQL text, quoting and transactions are left out, and column names are taken as not empty.
- ClickHouseSchema.CreatedTableFollowsIff: column names differ from each other and from `_del` and `_version`, because the server refuses a table with two columns of one name, and its checks are not modelled. The emitted DDL text, storage options, ALTER TABLE and the old version-flag mode are left out, as is `update2`, which nothing calls.
- ClickHouseReplay.InsertStores: the server refuses explicit values for a MATERIALIZED column, as `_del` and `_version` are, unless a setting of it allows them; the model takes such an insert as accepted, and every result on ClickHouse replay rests on that.
- ClickHouseReplay.CollapseFollowsSource: assumes non-decreasing versions, which VersionsMustNotDecrease shows to be necessary; the clock that supplies a missing version is a parameter.
- BrokerIndex.Namesrvs.UpdateTopicRoute: starts once the query has returned a route. That an unchanged route holds the same records is stated for stored routes without empty addresses, and that a changed one does not for stored routes with unambiguous names; ChangesSeenIff and UnchangedAgainstItselfIff show that neither can be dropped. Queue records are values in the list and not shared objects. Consumers are not told, and order-topic configuration is not compared, as in the source.
- PublishInfo.RouteToPublishInfo: the branch for an order-topic configuration and `fetchQueueIndex` after its counter wraps are left out.
- Namesrv.NameServers.QueryTopicRoute: one caller at a time; the decoder of a route is a parameter.
- Namesrv.NameServers.UpdateNameServerAddress: `primitive.Diff` is not part of this model; it is a function of the two lists.
- Trace.RegionsServedIff: is about batches whose contexts all have beans; BatchCommit says that any other batch sends nothing. The text of a record is given, message keys are a set, and choosing a queue for a message is left out.
- Dispatch.RunConserves: begins after Start; committed batches are handed over one by one and what their goroutines do is in `Trace`.
- Paging.GetNextPage: keys are integers; their textual form and retries of a query are left out.
- OffsetTable.GsonReadsBackIff: assumes of the JSON library that no object continues the text of another one, as holds of JSON; PrefixesMatter shows a parser without that law. Whether a body is valid JSON and the text of its offset table are parameters.
- SNAT records: their printer and parser use different separators and are not meant to undo each other. `DelEntry`, the character set conversion and unmarshalling into a single struct are left out too.
- Exporters, containers, etcd, cloud and SSH clients, loggers: plumbing over libraries whose behaviour is not in the repository.
