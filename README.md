# sigma_dut.h in Dafny

sigma_dut is a test-control agent. A test controller sends it text commands
over TCP, and it drives a wireless device under test and runs traffic streams.
Its shared header `sigma_dut.h` holds one piece of executable logic and a set
of fixed-size structures. This project models both:

- **The big-endian 32-bit codec** (`WPA_GET_BE32`, `WPA_PUT_BE32`), module
  `Be32`. The macros are written over Dafny's `bv32` and `bv8`, which are
  exactly C's `u32` and `u8`, so the shifts and masks are the macros' own.
  The decoder is a function. The encoder is a method that writes four bytes
  of a caller's array in place. The lemmas prove the round trips both ways,
  the byte order, the integer value of a decoded word, and the C conversion
  `(u32) val` as reduction modulo 2^32.
- **The result-code contract of a handler's `process` function**, module
  `ProcessStatus`. The four integer codes become a datatype, with conversions
  both ways. A function gives the `sigma_status` the caller sends for each
  outcome, or says it sends nothing.
- **The bounded structures that hold the agent's state**, as classes with
  capacity invariants:
  - `Command.SigmaCmd` (`struct sigma_cmd`): parallel name and value arrays
    of `MAX_PARAMS` = 100 slots.
  - `Connection.SigmaConn` (`struct sigma_conn`): a receive buffer of
    `MAX_CMD_LEN + 5` = 2053 bytes (`u8`), the `pos` cursor and the
    `waiting_completion` flag.
  - `Traffic.SigmaStream` (`struct sigma_stream`): the frame counters and
    up to `MAX_SIGMA_STATS` = 6000 `sigma_frame_stats` records.
  - `Traffic.TrafficAgent` (the traffic-agent part of `struct sigma_dut`):
    `MAX_SIGMA_STREAMS` = 16 stream slots, `num_streams` and
    `next_streamid`.

The code that fills these structures is not in the header: the command
parser, the connection framer, the dispatcher and the traffic workers. The
operations on the classes are the smallest updates of the header's fields that
keep its bounds: add a pair, take in received bytes, record a frame, take a
stream slot. They do not reproduce those missing algorithms.

Files: `wrappers.dfy` (Option, Result), `be32.dfy`, `status.dfy`,
`command.dfy`, `connection.dfy`, `traffic.dfy`.

## Model

| member | source | states |
|---|---|---|
| `Be32.GetBe32Value` | sigma_dut.h:64-68 | `WPA_GET_BE32(a)` equals a[0]·2^24 + a[1]·2^16 + a[2]·2^8 + a[3] |
| `Be32.DecodeThenEncode` | sigma_dut.h:67-75 | encoding the decoded word gives back the four bytes it was read from |
| `Be32.GetBe32Injective` | sigma_dut.h:67-68 | two buffers decode to the same word exactly when their first four bytes agree |
| `Be32.EncodeBe32` | sigma_dut.h:69-75 | the four bytes `WPA_PUT_BE32` stores decode back to the same word |
| `Be32.ToU32Value` | sigma_dut.h:69-75 | the cast `(u32) val` has the value val mod 2^32, also for negative val |
| `Be32.PutBe32` | sigma_dut.h:69-75 | writes exactly a[off..off+4] with the encoding of `(u32) val`; every other byte keeps its value; decoding at `off` then gives `(u32) val` |
| `Be32.EncodeBe32ByteOrder` | sigma_dut.h:69-75 | big-endian layout: byte 0 is bits 31..24, byte 1 bits 23..16, byte 2 bits 15..8, byte 3 bits 7..0, each in 0..255 |
| `Be32.PutThenGet` | sigma_dut.h:67-75 | encoding val and decoding the result gives val mod 2^32 |
| `Be32.GetThenPut` | sigma_dut.h:64-75 | a decoded word is below 2^32, and converting it back and re-encoding it reproduces the four bytes |
| `ProcessStatus.StatusValue` | sigma_dut.h:538-540 | each `sigma_status` has C value 0..3 in declaration order, and that value maps back to it |
| `ProcessStatus.StatusOfValue` | sigma_dut.h:538-540 | exactly the integers 0..3 name a `sigma_status` |
| `ProcessStatus.ResultCode` | sigma_dut.h:94-108 | each outcome's code lies in -2..1, is negative exactly for the two failures, and maps back to the outcome, so the four codes are pairwise distinct |
| `ProcessStatus.ResultOfCode` | sigma_dut.h:94-97 | exactly the integers -2..1 are outcome codes |
| `ProcessStatus.CallerActionFor` | sigma_dut.h:103-108 | the caller sends nothing exactly when the handler already responded; it sends ERROR exactly for code -2 and INVALID exactly for code -1, so it answers a failure with INVALID or ERROR and a success with COMPLETE; it never sends RUNNING |
| `ProcessStatus.CallerActionForCode` | sigma_dut.h:94-108 | -2 sends ERROR, -1 sends INVALID, 0 sends nothing, 1 sends COMPLETE; other integers have no action |
| `ProcessStatus.CallerActionInjective` | sigma_dut.h:103-108 | different outcomes lead to different caller actions |
| `Command.SigmaCmd.constructor` | sigma_dut.h:77-81 | a new command has two separate 100-slot arrays and no pairs |
| `Command.SigmaCmd.AddParam` | sigma_dut.h:58-81 | appends (name, value) in the same slot of both arrays when fewer than `MAX_PARAMS` pairs are held; otherwise changes nothing and fails |
| `Command.SigmaCmd.ParamAt` | sigma_dut.h:77-81 | returns the i-th name together with the i-th value |
| `Connection.SigmaConn.constructor` | sigma_dut.h:83-92 | a new connection has a 2053-byte buffer, nothing pending and nothing deferred |
| `Connection.SigmaConn.Receive` | sigma_dut.h:83-90 | appends the first min(|data|, room) received bytes after the pending ones; `pos` never passes the buffer's end |
| `Connection.SigmaConn.DropPending` | sigma_dut.h:89-90 | resets the cursor, so nothing is pending |
| `Connection.SigmaConn.BeginWaiting` | sigma_dut.h:91 | marks the connection as waiting; fails when a deferred command is already outstanding; keeps the buffer and cursor |
| `Connection.SigmaConn.EndWaiting` | sigma_dut.h:91 | clears the waiting flag |
| `Traffic.KeptRecordsAreOldest` | sigma_dut.h:127-185 | keeping each received frame while the 6000-record array has room leaves exactly the first min(n, 6000) frames, in arrival order |
| `Traffic.SigmaStream.Recorded` | sigma_dut.h:127-185 | the records a stream holds are exactly the first min(n, 6000) of the n frames it received, in arrival order |
| `Traffic.SigmaStream.constructor` | sigma_dut.h:137-186 | a new stream has its id, a 6000-slot records array, no records and zero counters |
| `Traffic.SigmaStream.RecordRx` | sigma_dut.h:173-185 | adds the frame to the received history; counts it and its bytes (modulo 2^64) and an out-of-sequence arrival; keeps its record only while the array has room; keeps `num_stats` ≤ 6000 and ≤ `rx_frames` |
| `Traffic.SigmaStream.RecordTx` | sigma_dut.h:173-181 | counts one sent frame and its payload bytes modulo 2^64 |
| `Traffic.TrafficAgent.constructor` | sigma_dut.h:446-452 | a new agent has 16 slots, none in use, and `next_streamid` (declared at sigma_dut.h:227) 0 |
| `Traffic.TrafficAgent.AddStream` | sigma_dut.h:446-450 | with 16 streams in use, fails with `CapacityExceeded` and changes nothing; otherwise takes slot `num_streams` for a fresh stream with its own fresh records array, no records, zero counters and id `next_streamid` (declared at sigma_dut.h:227), which no stream in use has, and increments both; the streams already in use stay in their slots |
| `Traffic.TrafficAgent.ResetStreams` | sigma_dut.h:448-450 | releases all slots and leaves `next_streamid` (declared at sigma_dut.h:227) alone, so ids are not reused |
| `Traffic.TrafficAgent.RecordRxOn` | sigma_dut.h:448-450 | a frame received on the stream in slot k extends that stream's history and records, counts it, its bytes (modulo 2^64) and an out-of-sequence arrival, and leaves that stream's sent counters, profile and role as they were; the ids in use are unchanged, and every stream in use, which owns its own records array, stays within its bounds |
| `Traffic.TrafficAgent.FindStream` | sigma_dut.h:448-450 | finds the slot in use holding the given id, which is then the only such slot, or reports that no stream in use has that id |

The classes are specified against abstract state, which ghost functions
define from the fields:
- `Command.SigmaCmd.Pairs()` is the list of (`params[i]`, `values[i]`) for
  i below `count`. `AddParam` and `ParamAt` are stated in terms of it.
- `Connection.SigmaConn.Pending()` is `buf[..pos]`, and `Room()` is what is
  left of the buffer after it. `Receive` is stated in terms of both.
- `Traffic.SigmaStream.received` is the ghost history of received frames.
  `Recorded()` is `stats[..num_stats]`.
- `Traffic.TrafficAgent.Ids()` lists the ids of the streams in use, slot by
  slot.

Each class also has an invariant `Valid()`:
- `Traffic.TrafficAgent.Valid` keeps `num_streams` within 0..16. It keeps
  every stream in use valid. It keeps the ids of the streams in use distinct
  and below `next_streamid`. It gives every stream in use its own records
  array, so recording into one stream leaves the others alone.
- `Traffic.SigmaStream.Valid` keeps `num_stats` within 0..6000. It makes
  `rx_frames` the length of the received history. It ties the records in use
  to the fold `KeptRecords` of that history.
- `Command.SigmaCmd.Valid` keeps `count` within 0..100.
- `Connection.SigmaConn.Valid` keeps `pos` within the buffer.

Every method that changes a class's fields requires and ensures that class's
invariant. `ParamAt` and `FindStream` change nothing, so they keep it.

## Left out

- Sockets and addresses: `s`, `addr` and `addrlen` of `sigma_conn`, the
  stream's `sock`, `dst`, `src` and ports, and `send_resp`. These are I/O.
  `Receive` takes the bytes a socket read delivered as a parameter.
- Threads and U-APSD synchronisation: `thr`, `uapsd_send_thr`, `tx_thr_cond`,
  `tx_thr_mutex`, the U-APSD state fields, `receive_uapsd` and
  `send_uapsd_console`. These exist for concurrency.
- Timestamps: the four time fields of `sigma_frame_stats` are opaque
  naturals. No timing arithmetic is done.
- The handler registry: `sigma_cmd_handler.next`, `cmd`, `validate`,
  `sigma_dut.cmds`, `get_param`, `sigma_dut_reg_cmd` and
  `sigma_dut_register_cmds`. The header declares them without bodies, so
  their lookup order, duplicate-name handling and case sensitivity are not
  fixed.
- The command parser, connection framer and dispatcher, which fill
  `sigma_cmd` and `sigma_conn`. They are not part of this model. Rejecting
  empty or duplicate parameter names, and searching for the line terminator,
  belong to them.
- Logging, driver and platform calls, the domain command handlers, and the
  AP/STA configuration fields of `struct sigma_dut`. These are foreign calls
  or plain storage.
- The stream's configuration fields (`frame_rate`, `duration`,
  `payload_size`, `start_delay`, `max_cnt`, `tc`, `user_priority`, `started`,
  `stop`, `trans_proto`, `tx_act_frames`, `ifname`, `test_name` and the
  others). The header gives them no behaviour. That includes `tc` and its
  `enum sigma_traffic_class`.
- The `stream_id` field of `struct sigma_dut` (sigma_dut.h:449). The header
  does not fix its role.
- Operations on the stream table. The header declares the table and its
  counters but no operation on them, not even a reset.
  - `AddStream`, `ResetStreams`, `FindStream` and `RecordRxOn` are the
    model's own smallest updates and queries of those fields.
  - `ResetStreams` sets `num_streams` to 0. Destroying a single stream is
    not modelled.
  - Keeping `next_streamid` across a reset is this model's choice. It keeps
    stream ids increasing, so no id is handed out twice.
- `TrafficAgent.Install` is `AddStream`'s slot-update step. It is a separate
  method only so that each proof stays small. It needs no row of its own.
- Stream storage. C embeds each `struct sigma_stream` by value in
  `streams[MAX_SIGMA_STREAMS]` (sigma_dut.h:448), so a new stream reuses its
  slot's storage. The model allocates a new `SigmaStream` object on each
  `AddStream`. A reference kept to a slot's earlier stream still points at
  that stream, not at the slot's new contents. This in-place reuse is not
  modelled.
- Be32.GetBe32: takes the buffer as unsigned bytes (`u8`), as the encoder's
  `(u8)` casts write it. If a caller passed a signed `char` buffer, the
  `(u32)` cast would sign-extend bytes of 0x80 and above. That case is not
  modelled.
- Command.SigmaCmd.AddParam: stores names and values as strings. In C,
  `params` and `values` are pointers, usually into the connection's buffer.
  That aliasing is not modelled.
- Connection.SigmaConn.BeginWaiting: `waiting_completion` is an `int` in C.
  Here it is a boolean flag. The header only declares the flag. Refusing a
  second deferred command while one is outstanding is this model's reading
  of it.
- Traffic.SigmaStream.RecordRx: the frame counters are unbounded naturals,
  although C declares them as `int`. Their overflow is undefined in C and
  needs over 2^31 frames. The out-of-sequence decision is made by the
  receiving worker and comes in as a parameter. Keeping the first 6000
  records and dropping later ones is the traffic agent's policy. The header
  fixes only the 6000-record bound.
- Traffic.SigmaStream.RecordTx: `tx_frames` is an unbounded natural, like
  the counters above.
- Traffic.TrafficAgent.AddStream: `next_streamid` is an unbounded natural.
  The C `int` would overflow only after 2^31 streams.
