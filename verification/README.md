# bee-c, modelled and proved

bee-c is a C client library for a database that speaks MessagePack inside IPROTO
frames. This project models its byte-level machinery in Dafny and proves what each
part is for. Code that works in place is a class or a method here, with the same
buffers, cursors, loops and error exits; each is proved against a pure specification,
and the theorems are about the specification and about runs of the methods.

- `Bytes`, `Memory`: big-endian numbers, scatter lists, block copies.
- `MsgPack`, `MsgPackLaws`: the MessagePack formats nil, bool, int, float, str, bin,
  array and map; a decoder that accepts every encoding, an encoder that writes the
  shortest one (or 32-bit container headers), and the laws that tie them together.
- `ObjectSpec`, `ObjectStream`, `ObjectLaws`, `ObjectRuns`: the object builder. A
  `Forest` is the tree of values under construction; `Represents` is the invariant
  that relates it to the buffer and the frame stack.
- `Format`, `FormatLaws`: the format strings of `beer_object_format` as a compiler.
- `Update`: containers of update operations.
- `BufStream`: the stream in memory. `RequestSpec`, `Request`, `RequestLaws`: the
  request compiler, and a server-side reader of frames. `Direct`, `DirectLaws`: the
  direct functions and their agreement with the compiler.
- `IoSend`, `IoRecv`: buffered sending and receiving over a transport that moves any
  part of what it is asked to move, or fails. `Wire` and `Source` stand for the
  transport; their choices are free, so every statement is for all schedules. A
  transport marked `reliable` does not fail while there is something to do.
- `ReplySpec`, `Reply`, `ReplyLaws`, `Framing`: the reply parser, incremental framing
  and pipelining. `Iter`: the array and map iterators.
- `SchemaSpec`, `Schema`, `SchemaLaws`: the schema's hash. `Net`, `Reload`: requests in
  flight and the pipelined loading of the schema.
- `Log`: the reader of log files.
- `Vectors`: the protocol's numbers and bytes on the wire, written out.
- `TpSpec`, `Tp`, `TpLaws`: the header-only builder of `include/tp.h`, and its requests
  read back.

Integers are C's where it matters: frame sizes, write counters and schema numbers wrap
at 2^32, the request counter at 2^64, and results are read as signed where the code
does. Native byte order is little-endian. Checksums are a function of which nothing is
known. Float and double payloads are opaque bytes.

## What the proofs found

The model follows the code, also where the code does not do what it seems to be meant
to do. For each such place there is the exact condition, or an input.

- A frame stack that grows does not copy its frames (`ObjectLaws.OpenExact`,
  `ObjectLaws.GrowthLoses`).
- An unsigned format argument from 2^63 on turns negative (`FormatLaws.UnsignedExact`).
- A compiled upsert carries no space, and a direct one declares a pair too many
  (`RequestLaws.SpaceCarried`, `DirectLaws.UpsertUnreadable`).
- A scatter list whose first batch holds no byte is reported as a failure
  (`IoSend.Sender.SendvRaw`).
- A receive that fails at its first refill has reset the read cursor
  (`IoRecv.Receiver.Recv`).
- A reply without a body is never accepted (`ReplyLaws.HeaderOnlyRejected`).
- A space number can be found as a name (`SchemaLaws.StosidExact`), and numbers from
  2^31 on come back negative (`SchemaLaws.SignedAnswer`).
- Loading the schema overlays the old one, where doc/source/connection.rst:159 says
  that the old one is deleted: a name is forgotten exactly if it is matched anew or was
  unknown (`Reload.ReloadDeletes`), and entries survive (`SchemaLaws.OldEntriesSurvive`).
  It cuts the request counter to 32 bits (`Net.Ask`).
- A load whose first reply is bad or cannot be read leaves the second request in flight
  (`Net.ReloadSchema`, `Net.RefusalInput`), and a load is refused while one is.
- An update of 2^32 operations or more gets a wrong count (`Update.UpdateRun`).
- The log reader takes an empty record for the end of the file (`Log.ReadsRecord`), and
  reads four bytes behind the last header as a damaged end marker, also if they are a
  record's data (`Log.LogReadsBack`).
- `tp_realloc` ignores the bytes in use (`TpSpec.GrownEnough`), and `tp_op_splice`
  reserves for the wrong numbers (`TpSpec.SpliceSize`).

## Model

| member | source | states |
|---|---|---|
| `ObjectStream.Builder.Resize` | beer/beer_object.c:44-60 | room for more bytes, with the bytes in use unchanged |
| `ObjectStream.Builder.Writev` | beer/beer_buf.c:92-109 | the pieces are appended in order as one write |
| `ObjectStream.Builder.AddNil` | beer/beer_object.c:90-98 | nil is appended and counted in the innermost open container |
| `ObjectStream.Builder.AddUInt` | beer/beer_object.c:100-109 | the same for an unsigned number in its shortest form |
| `ObjectStream.Builder.AddInt` | beer/beer_object.c:111-123 | the same for a signed number, which is encoded as unsigned unless it is negative |
| `ObjectStream.Builder.AddStr` | beer/beer_object.c:125-140 | the same for a string |
| `ObjectStream.Builder.AddBin` | beer/beer_object.c:148-162 | the same for a binary |
| `ObjectStream.Builder.AddBool` | beer/beer_object.c:164-173 | the same for a flag |
| `ObjectStream.Builder.AddFloat` | beer/beer_object.c:175-184 | the same for a float, whose four bytes are opaque |
| `ObjectStream.Builder.AddDouble` | beer/beer_object.c:186-195 | the same for a double |
| `ObjectStream.Builder.GrowStack` | beer/beer_object.c:31-42 | twice the room for frames, up to a limit, and none of the old frames |
| `ObjectStream.Builder.AddContainer` | beer/beer_object.c:204-265 | opening an array or a map counts it in its parent, pushes a frame at the current size and writes the placeholder of the current mode; a full stack is first replaced by one of twice the size whose memory is arbitrary, and nothing happens if it cannot grow |
| `ObjectStream.Builder.AddArray` | beer/beer_object.c:204-230 | the array's part of it |
| `ObjectStream.Builder.AddMap` | beer/beer_object.c:239-265 | the map's part of it |
| `ObjectStream.Builder.Widen` | beer/beer_object.c:291-304 | the header replaces the placeholder's one byte, and everything behind it moves up |
| `ObjectStream.Builder.ContainerClose` | beer/beer_object.c:267-308 | the new state is that of the closing rule: the payload moved right by 0, 2 or 4 bytes and the real header written (packed), the fixed header patched (sparse), nothing (simple); -1 and an unchanged object for an empty stack or a map with an odd child |
| `ObjectStream.Builder.SetType` | beer/beer_object.c:23-29 | the mode changes only while nothing has been written |
| `ObjectStream.Builder.Reset` | beer/beer_object.c:463-476 | an object is emptied whatever containers are open |
| `ObjectLaws.AddValueLayout` | beer/beer_object.c:90-194 | completing one more value, anywhere in a forest with open containers, appends exactly its encoding to the buffer and adds one to the innermost count |
| `ObjectLaws.ScalarKeeps` | beer/beer_object.c:90-194 | adding a scalar keeps the builder invariant: the buffer is the encoding of a forest of values with placeholders at the offsets of the frames, and each frame's size is its number of children |
| `ObjectLaws.OpenExact` | beer/beer_object.c:204-265 | opening a container keeps the invariant for every content of fresh memory if and only if the frame stack is not full |
| `ObjectLaws.OpenWrites` | beer/beer_object.c:204-265 | opening writes, and returns the number of, one byte 0x90 or 0x80 in packed mode, 0xdd or 0xdf and four zeros in sparse mode, and the shortest header of the declared size in simple mode |
| `ObjectLaws.GrowthLoses` | beer/beer_object.c:31-42 | a stack that grows does not copy its frames: there is memory for which the invariant is lost |
| `ObjectLaws.CloseExact` | beer/beer_object.c:267-308 | a close that is not refused turns the open container into a finished value, outer offsets included, if and only if its count came out right: the declared one in simple mode, a 32-bit one otherwise |
| `ObjectLaws.CloseRefusal` | beer/beer_object.c:272-277 | a close is refused if and only if nothing is open or the innermost container is a map with an odd number of children, and a refused close changes nothing |
| `ObjectRuns.RunKeeps` | beer/beer_object.c:90-308 | every run of calls, of any length and with refused closes in between, keeps the invariant while the depth fits the stack and the counts are right |
| `ObjectRuns.BalancedRun` | beer/beer_object.c:90-308 | a balanced run leaves exactly the encoding of the values, with five-byte container headers in sparse mode and the shortest form in packed and simple mode, and it decodes to exactly them |
| `ObjectRuns.BalancedRunShortest` | beer/beer_object.c:90-308 | in packed and simple mode no bytes that decode to the values are fewer |
| `MsgPackLaws.ShortestForm` | beer/beer_object.c:286-300 | the form the encoder writes is the shortest that decodes to the value, whatever the value |
| `ObjectRuns.ModesAgree` | beer/beer_object.c:204-308 | the same balanced calls decode to the same values in any two modes |
| `ObjectRuns.VerifyAccepts` | beer/beer_object.c:310-318 | verify accepts the result of a run if and only if it built exactly one value, and no type or that value's own is asked for |
| `ObjectRuns.FrameOffsets` | beer/beer_object.c:214-216 | in every state the open frames' offsets are strictly increasing and a placeholder stands at each |
| `ObjectRuns.FrameCounts` | beer/beer_object.c:208-209 | every frame's size is the number of its finished children, plus one if a container is open inside it |
| `ObjectRuns.Replay` | beer/beer_object.c:90-308 | the same on the object itself, for any list of calls made on it |
| `Format.VFormat` | beer/beer_object.c:320-434 | the character loop over the format leaves the object and returns the number that the step-by-step reading of the format prescribes |
| `FormatLaws.FormatCompiles` | beer/beer_object.c:320-434 | for every tree of items, formatting its text with its arguments leaves exactly the packed encoding of its values, uses up the arguments, and returns the final size less the sum over all containers of header width minus one |
| `FormatLaws.SpellingMeans` | beer/beer_object.c:345-418 | each of the 21 directives takes arguments of just its C types and makes just its kind of value of them |
| `FormatLaws.UnsignedExact` | beer/beer_object.c:380-418 | an unsigned argument keeps its value if and only if it is below 2^63; from there on it becomes negative |
| `FormatLaws.SignedExact` | beer/beer_object.c:345-418 | every other integer directive keeps its argument |
| `Update.UpdateBit` | beer/beer_update.c:166-174 | a bit operation that is not and, or, xor is refused without effect; else the operation is appended |
| `Update.UpdateArithInt` | beer/beer_update.c:175-186 | an integer operation other than plus or minus is refused without effect; else the operation is appended |
| `Update.UpdateArithFloat` | beer/beer_update.c:187-195 | the same for a float |
| `Update.UpdateArithDouble` | beer/beer_update.c:196-204 | the same for a double |
| `Update.UpdateDelete` | beer/beer_update.c:205-212 | a deletion is appended |
| `Update.UpdateInsert` | beer/beer_update.c:213-221 | an insertion is appended, or refused if its value is not one value |
| `Update.UpdateAssign` | beer/beer_update.c:222-230 | an assignment likewise |
| `Update.UpdateSplice` | beer/beer_update.c:231-247 | a splice is appended with its five elements |
| `Update.OpDecodes` | beer/beer_update.c:104-164 | the bytes of an accepted operation decode to an array of its sign, field and operands: three elements, or five for a splice |
| `Update.AcceptedExactly` | beer/beer_update.c:166-247 | a call is refused if and only if its sign does not belong to it or its value is not one value |
| `Update.RunCounts` | beer/beer_update.c:122-247 | whatever operations are called, refused ones included, the write counter minus its start is the number of accepted ones (modulo 2^32) |
| `Update.RunDecodes` | beer/beer_update.c:150-247 | whatever is already in the buffer, the bytes a run adds decode to exactly the accepted operations, in order |
| `Update.UpdateRun` | beer/beer_update.c:122-247 | after any calls and one close the buffer has an array32 header with the count in 32 bits, and it is one array of exactly the accepted operations if and only if there are fewer than 2^32 of them |
| `Update.ContainerClose` | beer/beer_update.c:133-138 | the close writes the counter minus one into the frame and closes the array |
| `Update.Container` | beer/beer_update.c:122-131 | a sparse object with one open array |
| `Update.ContainerReset` | beer/beer_update.c:140-148 | the same state again, with the stack it has |
| `BufStream.Buffer.Writev` | beer/beer_buf.c:92-109 | the pieces are appended as one write; a borrowed buffer refuses |
| `Request.RequestObject.SetFunc` | beer/beer_request.c:130-141 | a name is stored if and only if the request is a call and the name is there; otherwise nothing changes |
| `Request.RequestObject.SetExpr` | beer/beer_request.c:153-164 | an expression is stored if and only if the request is an eval and the expression is there |
| `Request.RequestObject.SetOps` | beer/beer_request.c:176-188 | operations go to the tuple of an update and the key of an upsert, and are refused elsewhere |
| `Request.RequestObject.SetKey` | beer/beer_request.c:106-111 | the key is stored |
| `Request.RequestObject.SetTuple` | beer/beer_request.c:191-196 | the tuple is stored |
| `Request.Assemble` | beer/beer_request.c:223-308 | the pieces put together are the header and the body with a placeholder for its count; own and foreign pieces take turns, and the own ones do not overlap, stand in order and lie inside the 128 bytes |
| `Request.Finish` | beer/beer_request.c:309-326 | filling in count and length afterwards makes the pieces one frame |
| `Request.Writeout` | beer/beer_request.c:215-327 | the stream grows by exactly the frame of the request, or by nothing if a key is given to a request without one or the stream refuses; the sync number is used up in both cases |
| `Request.CompileRequest` | beer/beer_request.c:329-335 | the result is the sync number as a signed one, or -1 |
| `Request.SyncNeverMinusOne` | beer/beer_request.c:218-222 | a sync number handed out to such a caller never reads as -1 or as INT64_MAX |
| `Request.FlatPatched` | beer/beer_request.c:309-312 | storing one byte of the area changes exactly one byte of the bytes that will be sent, provided that the pieces of the area do not overlap |
| `RequestLaws.RequestRecovered` | beer/beer_request.c:215-327 | a reader recovers from the frame of every request, whatever follows it, the type, the sync number and exactly the fields that the request carries |
| `RequestLaws.FrameReads` | beer/beer_request.c:223-326 | a frame of any readable pairs reads as their map, and ends where its length says |
| `RequestLaws.PrefixWidth` | beer/beer_proto_internal.h:28-43 | the length takes five bytes if and only if the payload is shorter than 2^32 |
| `RequestLaws.SpaceCarried` | beer/beer_request.c:239-243 | the space reaches the server if and only if the type is below CALL_16; an upsert loses it |
| `RequestLaws.SevenPairs` | beer/beer_request.c:239-308 | a request other than an upsert has at most seven pairs |
| `Direct.EncodeHeader` | beer/beer_proto_internal.h:15-26 | the header map is encoded in at most 25 bytes |
| `Direct.Select` | beer/beer_select.c:18-58 | the direct select appends the frame of its arguments, or refuses a key that is not one array |
| `Direct.Store` | beer/beer_insert.c:17-48 | the direct insert and replace |
| `Direct.Insert` | beer/beer_insert.c:50-54 | with type 2 |
| `Direct.Replace` | beer/beer_insert.c:56-60 | with type 3 |
| `Direct.Delete` | beer/beer_delete.c:19-52 | the direct delete |
| `Direct.Update` | beer/beer_update.c:18-60 | the direct update |
| `Direct.Rpc` | beer/beer_call.c:19-58 | the direct call and eval; a missing or empty name is refused |
| `Direct.Call` | beer/beer_call.c:60-65 | with type 10 |
| `Direct.Call16` | beer/beer_call.c:67-72 | with type 6 |
| `Direct.Eval` | beer/beer_call.c:74-79 | with type 8 |
| `Direct.Upsert` | beer/beer_update.c:62-101 | the direct upsert appends its header and its body of three pairs under a count of four |
| `DirectLaws.EncodersAgree` | beer/beer_request.c:239-308 | a compiled and a direct frame of the same request under the same sync number read alike: same header, same fields once an absent index, offset or iterator is read as 0 |
| `DirectLaws.SelectSays` | beer/beer_select.c:18-58 | a reader finds in a direct select type 1, its sync, and just space, index, limit, offset, iterator and key under 0x10 to 0x14 and 0x20, each the argument of that name |
| `DirectLaws.StoreSays` | beer/beer_insert.c:17-48 | in an insert or replace just the space and the tuple |
| `DirectLaws.DeleteSays` | beer/beer_delete.c:19-52 | in a delete just space, index and key |
| `DirectLaws.UpdateSays` | beer/beer_update.c:18-60 | in an update just space, index, key and, under 0x21, the operations |
| `DirectLaws.RpcSays` | beer/beer_call.c:19-58 | in a call the name under 0x22, in an eval the text under 0x27, and the arguments |
| `DirectLaws.DirectArguments` | beer/beer_select.c:23-24 | every argument list a direct function accepts is that of a request the agreement is about, except that the text of a call or an eval must be shorter than 2^32, and that exactly |
| `DirectLaws.UpsertUnreadable` | beer/beer_update.c:62-101 | no direct upsert can be read: it declares four pairs and writes three |
| `DirectLaws.UpsertFrameUnreadable` | beer/beer_update.c:62-101 | so no message can be read from its frame |
| `IoSend.Sender.SendRaw` | beer/beer_io.c:320-341 | for every schedule of partial sends the bytes on the wire grow by exactly the data, or by a prefix on failure |
| `IoSend.Sender.Advance` | beer/beer_io.c:357-374 | dropping the bytes that were taken from the front of a scatter list leaves exactly the rest, shortened in place, and never an empty piece in front |
| `IoSend.Sender.SendvRaw` | beer/beer_io.c:343-377 | for every schedule, empty pieces included, the concatenation of all pieces goes to the wire once and in order, and its length is returned; on failure a front part of it; over a transport that works it fails if and only if the first batch is empty |
| `IoSend.Sender.Send` | beer/beer_io.c:379-399 | what is on the wire and in the buffer grows by the data, or not at all if the data can never fit; data that fits beside what waits does not touch the transport; whatever happens, the wire holds a front part of the stream and the data |
| `IoSend.Sender.Sendv` | beer/beer_io.c:412-435 | the same for a scatter list; over a transport that works it fails only if the list is too big, or unbuffered and empty in its first batch |
| `IoSend.Sender.Flush` | beer/beer_io.c:310-318 | everything accepted is on the wire; a failure may have put a front part of the buffer there and still keeps all of it |
| `IoSend.RunCalls` | beer/beer_io.c:310-435 | for any interleaving of sends and flushes, wire and buffer hold exactly the accepted writes, once and in order, up to the first transport failure, and refused ones contribute nothing; after that failure the wire holds a front part of them and of the call that failed |
| `IoRecv.Receiver.RecvRaw` | beer/beer_io.c:437-459 | for every schedule of short reads, exactly the next bytes of the stream are stored |
| `IoRecv.Receiver.Recv` | beer/beer_io.c:460-497 | a call that succeeds delivers exactly size bytes, also more than the buffer holds, and delivered bytes and buffered bytes are those buffered before and those taken from the transport; one that the buffer can meet does not touch the transport, and the transport is asked for whole buffers only; it succeeds if the transport works and has enough |
| `IoRecv.Receiver.RecvBuffered` | beer/beer_io.c:466-497 | the refill loop conserves the stream and ends, because what the buffer cannot meet gets smaller with each refill; a failure at the first refill has reset the cursor |
| `IoRecv.RunReceives` | beer/beer_io.c:460-497 | over any run of receives the bytes delivered before the first failure are the next ones of the stream; without one, they and the buffered bytes are all that was taken from the transport |
| `Reply.ReplyObject.ReadHeader` | beer/beer_reply.c:88-114 | the header loop fills the fields that the reading of the pairs prescribes |
| `Reply.ReplyObject.ReadBody` | beer/beer_reply.c:126-146 | the body loop likewise |
| `Reply.ReplyObject.FromPayload` | beer/beer_reply.c:61-153 | parses a payload, or clears every field |
| `Reply.ParseBuffer` | beer/beer_reply.c:164-189 | one reply of a buffer, or the number of missing bytes |
| `Reply.BufReply` | beer/beer_buf.c:111-123 | the read offset moves over a reply that was parsed and nothing else |
| `Reply.ReplyIter.Next` | beer/beer_iter.c:170-180 | one step of the iterator; a malformed reply makes it fail, the end does not |
| `ReplyLaws.ReplyParses` | beer/beer_reply.c:80-147 | a header map and a body map with known keys, in any order and any encoding, parse to exactly what the maps say, with the code cut to 15 bits by an error; they are rolled back if and only if a key or a type breaks the rules |
| `ReplyLaws.HeaderFinds` | beer/beer_reply.c:88-114 | the header loop over any encoding of pairs finds exactly their values |
| `ReplyLaws.BodyFinds` | beer/beer_reply.c:126-146 | the body loop likewise, and the tuples it delimits are one value |
| `ReplyLaws.HeaderOnlyRejected` | beer/beer_reply.c:116-117 | a reply without a body is always rolled back |
| `Framing.PrefixAsks` | beer/beer_reply.c:164-182 | every proper prefix of a reply gets a request that does not reach beyond it, and from five bytes on it is for exactly the rest |
| `Framing.TwoRequests` | beer/beer_reply.c:164-189 | a caller who supplies what it is asked for is done after at most two requests, and exactly the reply is used whatever follows |
| `Framing.FrameInFront` | beer/beer_reply.c:164-189 | the answer to a reply does not depend on what follows it |
| `Framing.PayloadIsFrame` | beer/beer_reply.c:66-76 | a payload behind its five-byte length is a reply if and only if it parses |
| `Framing.AnswerExact` | beer/beer_reply.c:164-189 | the answer to every buffer that begins with a five-byte length: a request for what is missing, a reply, or a failure if the payload is rolled back |
| `Framing.NoLength` | beer/beer_reply.c:174-175 | a buffer that begins with anything but an unsigned number is a failure |
| `Framing.FramesAreFound` | beer/beer_buf.c:111-123 | replies laid end to end are found in order and tile the stream, whatever follows them |
| `Framing.FramesAreAll` | beer/beer_buf.c:111-123 | nothing else is found if the stream ends with a reply or in the middle of one |
| `Framing.Drain` | beer/beer_iter.c:170-180 | a loop over the iterator returns exactly those replies, moves the read offset over exactly their bytes, and leaves the iterator failed if and only if something malformed follows |
| `Iter.ArrayIter.Next` | beer/beer_iter.c:57-71 | the iterator moves to the next child's bytes, or fails at the end |
| `Iter.MapIter.Next` | beer/beer_iter.c:111-129 | the same for a key and its value |
| `Iter.ArrayPass` | beer/beer_iter.c:57-109 | a pass over an array, first or after a rewind, yields exactly the declared number of slices, each the bytes of one child |
| `Iter.MapPass` | beer/beer_iter.c:111-168 | a pass over a map yields keys and values in turn |
| `Iter.PassTwice` | beer/beer_iter.c:73-80 | a rewound iterator yields the same elements again |
| `Iter.IterArray` | beer/beer_iter.c:87-108 | an iterator for exactly the inputs that hold an array |
| `Iter.IterMap` | beer/beer_iter.c:147-168 | an iterator for exactly the inputs that hold a map |
| `Iter.SliceIsChild` | beer/beer_iter.c:57-71 | every slice decodes on its own to that child, however deep its contents are |
| `Iter.SlicesCover` | beer/beer_iter.c:88-109 | header, slices and what follows are the whole input: the slices are contiguous, begin after the header and end with the container |
| `Schema.SchemaIndex.AddSpace` | beer/beer_schema.c:111-163 | a space is entered under its name and under the four bytes of its number |
| `Schema.SchemaIndex.AddIndex` | beer/beer_schema.c:181-238 | an index is entered in the space found under its number, or refused |
| `Schema.SchemaIndex.AddRows` | beer/beer_schema.c:165-179 | the loop over the tuples; rows before a bad one stay |
| `Schema.SchemaIndex.AddSpaces` | beer/beer_schema.c:165-179 | all spaces of a reply |
| `Schema.SchemaIndex.AddIndexes` | beer/beer_schema.c:240-254 | all indexes of a reply |
| `Schema.SchemaIndex.SpaceId` | beer/beer_schema.c:256-266 | the number under a name |
| `Schema.SchemaIndex.IndexId` | beer/beer_schema.c:268-284 | the number of an index under its name |
| `SchemaLaws.SchemaIsTwoMaps` | beer/beer_schema.c:111-284 | after every run of spaces and indexes in any mixture, also one that fails, the hash agrees with a map from names to numbers and a map from space numbers and index names to numbers, last entry first, for every name that is not the memory of a number in the same hash |
| `SchemaLaws.RepliesAreTwoMaps` | beer/beer_schema.c:165-284 | a reply with spaces and then one with indexes, in any encoding and with malformed tuples in them, load into an empty schema as the two maps of the rows of both |
| `SchemaLaws.SignedAnswer` | beer/beer_schema.c:256-266 | a number comes back as it is if and only if it is below 2^31 |
| `SchemaLaws.StosidExact` | beer/beer_schema.c:147-158 | with no condition on names, the answer is the last space that has the name, or whose number has its bytes |
| `SchemaLaws.StosidAgrees` | beer/beer_schema.c:147-158 | so it is the space that was named if and only if no later space of another answer shadows it |
| `SchemaLaws.StoiidExact` | beer/beer_schema.c:181-284 | with no condition on names and over any old schema, the answer is what the object under the space number has under the name: its indexes are those put into it under any of its keys while it stood there |
| `SchemaLaws.StoiidAfterReload` | beer/beer_schema.c:181-284 | the same after the tuples of two replies, of which the rows up to the first index of an unknown space are taken |
| `SchemaLaws.StosidOver` | beer/beer_schema.c:111-163 | rows loaded over an old schema: a name finds the last new space that matches it, and what it found before if there is none |
| `SchemaLaws.NameForgotten` | beer/beer_schema.c:111-163 | the old schema is gone as far as a name can tell if and only if the name is matched anew or was unknown |
| `SchemaLaws.StoiidOver` | beer/beer_schema.c:181-238 | an index is looked up in the new space of that number if there is one, and else in the old one with its old indexes, for rows that load on their own |
| `SchemaLaws.IndexForgotten` | beer/beer_schema.c:181-238 | its old answer is gone if and only if the number is matched anew or there was none |
| `SchemaLaws.NamesClash` | beer/beer_schema.c:147-158 | two spaces for which the wrong one is found |
| `SchemaLaws.ReplyLoads` | beer/beer_schema.c:165-179 | tuples in any encoding are taken one after another up to the first that does not fit |
| `Net.NetStream.Writev` | beer/beer_net.c:86-94 | the counter of requests in flight goes up by one if and only if the request is accepted, and always is requests written minus replies asked for |
| `Net.NetStream.Write` | beer/beer_net.c:77-84 | the same for one block |
| `Net.NetStream.GetRows` | beer/beer_schema.c:306-332 | a request for all rows of a system space is accepted as one request |
| `Net.NetStream.NextReply` | beer/beer_iter.c:170-180 | the iterator over the network stream |
| `Net.NetStream.ReadReply` | beer/beer_net.c:101-107 | no reply is read while none is due; a reply that is read is the first of the stream, whatever the transport's chunks, and over a transport that works a complete one is always read |
| `Net.ReplyFrom` | beer/beer_reply.c:61-80 | five bytes and then as many as they tell are taken from the stream |
| `Net.ReloadSchema` | beer/beer_net.c:168-217 | over any transport and any replies: at most two replies are read, the first of the stream; the schema is what the loop makes of them; it succeeds if and only if both requests are answered without an error, and over transports that work if and only if the requests fit the send buffer and the first two replies are such answers; a request stays in flight if and only if both were sent and the first reply could not be read or was bad |
| `Net.ReloadRefused` | beer/beer_net.c:181-217 | over transports that work, a bad first reply, whatever follows it, makes the reload fail and leaves the second request in flight |
| `Net.RefusalInput` | beer/beer_net.c:184-187 | there is such a stream: an error in answer to the first request |
| `Net.Ask` | beer/beer_net.c:173-177 | once flushed, both requests are on the wire, in order and under 127 and 128; over a transport that works both are sent if and only if they fit the send buffer; the request counter comes back unchanged if and only if it was below 2^32 |
| `Net.RowsSay` | beer/beer_schema.c:306-332 | a reader finds in such a request type 1, its sync, the space, index 2, limit 0xffffffff, offset 0, iterator 2 and an empty array as key |
| `Net.AskSays` | beer/beer_net.c:173-176 | the two requests ask for all rows of space 281 under 127 and of space 289 under 128 |
| `Net.TakeOne` | beer/beer_net.c:182-206 | the body of the reply loop does one turn of it on schema, counter and saved reply |
| `Net.TakeReplies` | beer/beer_net.c:178-213 | the reply loop over any transport: the replies it reads are the first of the stream, the schema is theirs, and the number of requests left in flight is exact: those behind a bad reply, or behind a read that failed |
| `Net.ServerAnswers` | beer/beer_net.c:168-217 | a server's two error-free answers, framed and in either order, meet what a reload asks of the stream, make it succeed, and put exactly their rows into the schema |
| `Net.MapsCarry` | beer/beer_reply.c:61-153 | any encoding of a header and a body map with that sync and those tuples is such an answer |
| `Reload.ReloadSucceeds` | beer/beer_net.c:178-217 | a loop over at most two replies succeeds if and only if one is an error-free 127 and the other an error-free 128 |
| `Reload.OrderIrrelevant` | beer/beer_net.c:191-211 | the schema is the same for both orders of arrival, whatever the tuples are: spaces are in it before indexes |
| `Reload.ReloadOverlays` | beer/beer_net.c:178-217 | with well-formed tuples the new schema is the old one with the rows of both replies put into it, in either order of arrival |
| `Reload.ReloadDeletes` | beer/beer_net.c:168-217 | a reload deletes the old schema, as documented, as far as a name can tell, if and only if a new space matches the name or no old one did |
| `Reload.EmptyRepliesKeep` | beer/beer_net.c:168-217 | two replies without a tuple delete nothing: every old entry is still found |
| `SchemaLaws.OldEntriesSurvive` | beer/beer_schema.c:165-284 | an old space and an old index that are found after such a reload |
| `SchemaLaws.ReloadForgetsIndex` | beer/beer_schema.c:165-284 | for indexes, when the new ones all belong to new spaces: the old answer is gone if and only if the space number is matched anew or there was none |
| `Reload.SecondSavedReplaces` | beer/beer_net.c:199-203 | a second early answer with indexes replaces the first, and the reload fails |
| `Log.LogFile.Seek` | beerrpl/beer_log.c:93-106 | the window is always the last four bytes, lowest first, and the scan stops just behind the first marker at or beyond the cursor, or at the end |
| `Log.LogFile.Next` | beerrpl/beer_log.c:88-140 | one record, the end, or damage |
| `Log.LogFile.AtEof` | beerrpl/beer_log.c:69-86 | the end marker is looked at only if four bytes are left behind the last header |
| `Log.ReadsRecord` | beerrpl/beer_log.c:88-140 | resynchronisation: behind any gap without a marker a record is returned if and only if its data is not empty; an empty one reads as the end of the file |
| `Log.NoBadRow` | beerrpl/beer_log.c:115-136 | a returned record stands behind the first marker, and the checksums in the first and the last four bytes of its header are those of the rest of the header and of its data |
| `Log.DamageTold` | beerrpl/beer_log.c:118-136 | behind a marker a wrong checksum of the header or of whole data is reported as damage, and the next read goes on behind it; data cut short by the file is its end |
| `Log.LogReadsBack` | beerrpl/beer_log.c:69-140 | a file of non-empty records with marker-free gaps is read back record by record; the last answer is the end, except that four bytes behind the last header that are not the end marker read as damage |
| `Log.MarkAfterGap` | beerrpl/beer_log.c:98-106 | no gap hides a marker, because no marker overlaps another |
| `Vectors.CallThenEval` | test/bee_tcp.c:317-320 | the frames of a call and an evaluation, byte for byte |
| `Vectors.SelectFrame` | test/bee_tcp.c:376-378 | the frame of a select, byte for byte |
| `Vectors.SelectAllFrame` | test/bee_tcp.c:484-486 | the frame of a select with every field, byte for byte |
| `Vectors.Formats` | test/bee_tcp.c:98-102 | the first byte of every short format |
| `Vectors.NumberFormats` | test/bee_tcp.c:98-112 | wide numbers, most significant byte first |
| `Vectors.TextFormats` | test/bee_tcp.c:98-112 | string and binary headers of every width |
| `Vectors.LongUInt` | beer/beer_object.c:100-109 | an unsigned number of eight bytes |
| `Vectors.LongSInt` | beer/beer_object.c:111-123 | the lowest signed number |
| `Vectors.ContainerHeads` | test/bee_tcp.c:118-265 | array and map headers of every width |
| `Vectors.Types` | include/bee/beer_proto.h:83-97 | the numbers of the request types |
| `Vectors.Keys` | include/bee/beer_proto.h:40-78 | the numbers of the keys |
| `Vectors.Markers` | beerrpl/beer_log.c:66-67 | the log markers and their bytes in a file |
| `Tp.Tp.Ensure` | include/tp.h:869-890 | the buffer may move anywhere; every pointer keeps its distance from its start and no byte in use changes |
| `Tp.Tp.Append` | include/tp.h:1371-1493 | the open request grows by the bytes and its length is exact again |
| `Tp.Tp.Add` | include/tp.h:894-904 | n bytes join the open request and its length is rewritten, with all other bytes unchanged |
| `Tp.Tp.EncodeValue` | include/tp.h:1371-1530 | one value in its shortest form joins the open request |
| `Tp.Tp.EncodeContainer` | include/tp.h:1466-1494 | the header of an array or a map joins the open request |
| `Tp.Tp.UpdateBegin` | include/tp.h:1185-1195 | the operations' key and count join the open request |
| `Tp.Tp.Op` | include/tp.h:1213-1225 | an operation's sign and field join the open request |
| `Tp.Tp.Ping` | include/tp.h:946-955 | a new frame with an empty body |
| `Tp.Tp.Select` | include/tp.h:968-1001 | a new frame with the select's fields behind the others |
| `Tp.Tp.BeginSpace` | include/tp.h:1007-1023 | the frames of insert, replace and update |
| `Tp.Tp.Insert` | include/tp.h:1036-1040 | insert |
| `Tp.Tp.Replace` | include/tp.h:1053-1057 | replace |
| `Tp.Tp.Update` | include/tp.h:1163-1179 | update |
| `Tp.Tp.BeginText` | include/tp.h:1099-1147 | the frames of call and eval |
| `Tp.Tp.Call` | include/tp.h:1099-1116 | call |
| `Tp.Tp.Eval` | include/tp.h:1130-1147 | eval |
| `Tp.Tp.Reqid` | include/tp.h:1359-1366 | the sync of the open request is set and nothing else changes |
| `TpSpec.FramesSplit` | include/tp.h:894-904 | the buffer is a row of frames: a reader that goes from length to length finds exactly the payloads |
| `TpSpec.LengthExact` | include/tp.h:894-904 | a length is right if and only if 32 bits can hold it |
| `TpSpec.SizesExact` | include/tp.h:968-1493 | every size computed beforehand is the number of bytes then encoded |
| `TpSpec.SpliceSize` | include/tp.h:1231-1253 | the size of a splice is right if and only if offset and length together are as wide as two field numbers |
| `TpSpec.GrownEnough` | include/tp.h:816-825 | the bundled reallocator makes enough room if and only if doubling does, or doubling does not even cover the request alone |
| `TpLaws.TpFrameReads` | include/tp.h:923-935 | a frame with a map of readable pairs reads as that map, with its code and sync |
| `TpLaws.SelectReads` | include/tp.h:968-1001 | a select that was begun, whose key was appended in any number of pieces and whose sync was set reads as exactly its numbers, key and sync, behind the requests before it |
| `TpLaws.StoreReads` | include/tp.h:1007-1057 | the same for an insert and a replace with their tuple |
| `TpLaws.TextReads` | include/tp.h:1099-1147 | the same for a call and an eval with their arguments |
| `TpLaws.UpdateReads` | include/tp.h:1163-1225 | the same for an update with its key and any number of operations, each of which reads as its sign, field and argument |

## Left out

- The sources of msgpuck, mhash and the CRC are not part of this model: MessagePack is written from its specification, a hash is a map, and the CRC is a parameter.
- MessagePack's extension types: a value that holds one does not decode here, while the library would skip it.
- A reply whose length has the nine-byte form: the parser then decodes memory it has not read (beer/beer_reply.c:67-71); such input is a precondition.
- Reply bodies with keys other than DATA and ERROR are parsed as the code does, without skipping their values, but the value-level theorem is about known keys only.
- Reads outside the tuples of a schema reply that are too short are undefined, and excluded by preconditions of the loaders.
- Allocation failure, freeing, and the custom allocator: allocation succeeds, except for the frame stack's limit and the reserve function of tp.h.
- Sockets, name resolution, timeouts, options, greeting, authentication, scramble and base64.
- Memory orders of the in-flight counter: it is sequential.
- beer_buf_read, which copies in the wrong direction, and beer_object_as with its immutable objects.
- The request setters that format a key or tuple, and the sharing of memory between a request and the objects it was given: keys and tuples are values here.
- Direct ping.
- The objects a schema leaves behind when a space is added again are kept but never freed here; their memory is not modelled.
- tp_delete, tp_auth, tp_deauth, tp_format, the strings that tp_op_splice writes, and the reply side of tp.h: the first ones encode another number of bytes than they reserve, the last repeats what is proved for the reply parser and the iterators.
- beer_dir, beer_rpl, beer_snapshot, beer_xlog, the opening of log files and the processing of their rows.
- Failures of file input other than the end of the file, and of memory for a record's data.
- Iter.ArrayIter.Next: does not model the C int index beyond 2^31 - 1 steps, where its overflow is undefined; Iter.MapIter.Next likewise.
- IoRecv.RunReceives: says nothing about the bytes after a failed receive, because the code has then lost its place.
- ObjectStream.Builder.Writev: does not model the refusal of an object made by beer_object_as, which is left out with it.
- IoSend.Sender.Batch: a descriptor is offered all pieces of a scatter list at once, as the code does (beer/beer_io.c:352); that the operating system refuses more than IOV_MAX pieces is not modelled, so such a list counts as one the transport takes.
- Net.ReloadSchema: the tuples of the next two replies must be long enough for the code to read them; Net.ServerAnswers says when they are.
- Tp.Tp.Append: the caller's reserve function is taken to keep the bytes and to make enough room; for the bundled one that is a precondition, by the exact condition of TpSpec.GrownEnough.
