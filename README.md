# A verified model of a small Redis-like server core

This project models the request/response core of a single-threaded,
epoll-based key-value server in C++. The server speaks the array-of-bulk-strings
subset of RESP2, the Redis Serialization Protocol. The model covers five parts.

- **Request parser** (`RespParser`, file `resp_parser.dfy`). It reads one command
  `*<n>\r\n` followed by n times `$<len>\r\n<bytes>\r\n` from the front of a
  buffer. The result is a complete command, "incomplete" or "malformed".
  - The parser has three fields: `args` as (offset, length) views into the buffer, `consumed` and a sticky `hasError` flag.
  - `ParseFrame` is the reference semantics.
  - The `Parser` class runs the source's cursor loop in place and is proved to agree with `ParseFrame`.
  - The lemmas cover these properties:
    - a frame built by the serialisers parses back to the same strings;
    - every proper prefix of a frame is incomplete;
    - more input never changes a complete or malformed verdict;
    - draining a buffer command by command does not depend on how the bytes were split into chunks.
- **Reply serialisers** (`Resp`, file `resp.hpp` in the source). Each `Append*` method returns
  `out` followed by the wire form of one reply. The encoding of a `Reply` is proved injective.
- **Number text** (`Decimal`). `from_chars` on a `long long` is modelled as `FromChars`: an optional `-`,
  then one or more digits, within range. `to_chars` and `to_string` are modelled as
  `NatToDecimal` and `IntToDecimal`. `FromChars` is proved to be their inverse.
- **Store with lazy expiration** (`Db`). The two maps `kv` and `expires` are fields
  of a `Store` class. Each method is proved equal to a function on the two maps.
  - Lemmas state what a client observes through `Live`: the entries whose deadline has not passed.
  - Every operation keeps the invariant dom(expires) ⊆ dom(kv).
- **Dispatcher** (`Commands`). It matches command names exactly and case-sensitively, checks arity before any store access,
  parses the EXPIRE argument, and counts DEL and EXISTS in order.
  - `Execute` is the reference semantics of one command as (reply, new maps).
  - `Dispatcher.Dispatch` and the handlers append exactly `Encode` of that reply.
  - The arity errors appear on the wire as `-ERR ERR wrong number of arguments for '<cmd>'\r\n`.
    The handlers pass a message that already starts with "ERR", and `append_error` adds "-ERR " in front. The model keeps this text as is.
- **Connection buffers** (`Net`). The socket is a script of `recv`/`send`
  results: data, 0 (closed), EAGAIN, EWOULDBLOCK, EINTR or another error. A script that has run out answers
  EAGAIN.
  - `ReadLoop`, `FlushLoop` and `Serve` are the reference semantics of `read_from_socket`, `flush_write` and the
    parse/dispatch/consume loop of `on_read`.
  - The `Connection` class runs them in place over `readBuf` and `writeBuf`, with the 1 MiB read and write caps.

Time is an explicit `now` argument in steady_clock ticks, one tick per nanosecond,
so `TicksPerMs` is 1 000 000. One `now` is used for all the work of one `OnRead`.

## Model

| member | source | states |
|---|---|---|
| Decimal.DigitChar | src/protocol/resp.hpp:25 | the character produced for a digit value is a decimal digit whose value is that digit |
| Decimal.DigitsValueOfPrefix | src/protocol/resp_parser.cpp:17-22 | a prefix of a digit string is a digit string whose value is no larger than the whole string's |
| Decimal.ScanDigitsMeaning | src/protocol/resp_parser.cpp:17-22 | the digit scan with an overflow limit succeeds iff the rest of the text is all digits with value within the limit, and then returns that value |
| Decimal.FromCharsMeaning | src/protocol/resp_parser.cpp:17-22 | parsing accepts exactly the texts that are an optional '-' followed by one or more digits, denoting a value in the `long long` range, and yields that value |
| Decimal.FromCharsEdgeCases | src/commands/dispatcher.cpp:34-39 | "-0" gives 0; "", "-" and any text starting with '+' are rejected |
| Decimal.FromCharsRejectsOversizedCount | src/protocol/resp_parser.cpp:44-50 | the decimal text of any number above `LONG_LONG_MAX` is rejected, so an oversized count or length is malformed |
| Decimal.NatToDecimal | src/protocol/resp.hpp:24-28 | the length text of a bulk string is never empty |
| Decimal.NatToDecimalMeaning | src/protocol/resp.hpp:24-28 | `to_chars` of a length is all digits, denotes the length and has no leading zero unless it is 0 |
| Decimal.IntToDecimalMeaning | src/protocol/resp.hpp:53-57 | `to_string` of a signed integer is integer text ('-' for negatives) denoting that integer |
| Decimal.FromCharsInvertsIntToDecimal | src/protocol/resp.hpp:53-57 | parsing the text of any `long long` gives it back (round trip) |
| Resp.AppendStatusString | src/protocol/resp.hpp:16-20 | out is extended by '+', the message and CRLF; nothing before is changed |
| Resp.AppendString | src/protocol/resp.hpp:23-32 | out is extended by '$', the decimal length, CRLF, the value and CRLF |
| Resp.AppendOptionalString | src/protocol/resp.hpp:34-41 | an absent value appends "$-1\r\n"; a present one appends its bulk encoding |
| Resp.AppendOk | src/protocol/resp.hpp:43-45 | out is extended by "+OK\r\n" |
| Resp.AppendError | src/protocol/resp.hpp:47-51 | out is extended by "-ERR ", the message and CRLF |
| Resp.AppendInteger | src/protocol/resp.hpp:53-57 | out is extended by ':', the signed decimal value and CRLF |
| Resp.AppendNullString | src/protocol/resp.hpp:59-61 | out is extended by "$-1\r\n", the encoding of an absent bulk value |
| Resp.AppendArrayHeader | src/protocol/resp.hpp:63-67 | out is extended by '*', the decimal count and CRLF |
| Resp.AppendNullArray | src/protocol/resp.hpp:69-71 | out is extended by "*-1\r\n" |
| Resp.NullStringIsNoBulkString | src/protocol/resp.hpp:12 | no bulk encoding of a present value equals the null bulk string |
| Resp.IntegerReplyCarriesValue | src/protocol/resp.hpp:53-57 | an integer reply is framed by ':' and CRLF, and parsing its body gives back the value |
| Resp.EncodeFraming | src/protocol/resp.hpp:16-57 | every reply ends in CRLF and starts with the marker of its kind: '+', '$', '-' or ':' |
| Resp.DecimalPrefixes | src/protocol/resp.hpp:23-32 | two digit strings each followed by CRLF split a shared text at the same place |
| Resp.LineTextInjective | src/protocol/resp.hpp:16-20 | equal one-line replies with the same marker carry equal text |
| Resp.BulkStringInjective | src/protocol/resp.hpp:23-32 | equal bulk encodings come from equal values |
| Resp.BulkInjective | src/protocol/resp.hpp:34-41 | equal optional-bulk encodings come from equal optional values |
| Resp.IntegerInjective | src/protocol/resp.hpp:53-57 | equal integer replies come from equal integers |
| Resp.EncodeIsInjective | src/protocol/resp.hpp:16-71 | distinct replies have distinct wire forms, so a client can always tell which reply was sent |
| RespParser.FindTerminator | src/protocol/resp_parser.cpp:12-15 | a found position is at or after `from` and holds CRLF |
| RespParser.FindTerminatorIsFirst | src/protocol/resp_parser.cpp:12-15 | a found CRLF is the first after `from`; "not found" means no CRLF exists after `from` |
| RespParser.ParseHeader | src/protocol/resp_parser.cpp:33-52 | a parsed array header ends inside the buffer, at least 3 bytes in |
| RespParser.ParseElement | src/protocol/resp_parser.cpp:56-99 | a parsed element's data lies after its length line, is followed by two bytes, and ends inside the buffer |
| RespParser.ParseElements | src/protocol/resp_parser.cpp:55-100 | a complete run of elements has exactly the requested count and consumes part of the buffer from the cursor on |
| RespParser.ParseFrame | src/protocol/resp_parser.cpp:24-104 | a complete command consumes a non-empty prefix of the buffer, never more than the buffer |
| RespParser.ParseFrameWithin | src/protocol/resp_parser.cpp:44-103 | on success the number of args is the declared count, and every arg is a slice framed by CRLF on both sides, inside the consumed prefix |
| RespParser.FindTerminatorExtend | src/protocol/resp_parser.cpp:12-15 | appending bytes does not change a terminator already found |
| RespParser.ParseHeaderExtend | src/protocol/resp_parser.cpp:33-52 | appending bytes does not change a header that is already parsed or malformed |
| RespParser.ParseElementExtend | src/protocol/resp_parser.cpp:56-99 | appending bytes does not change an element that is already parsed or malformed |
| RespParser.ParseElementsExtend | src/protocol/resp_parser.cpp:55-100 | appending bytes does not change a complete or malformed run of elements |
| RespParser.ParseFrameExtend | src/protocol/resp_parser.cpp:24-104 | more input never changes a complete or malformed verdict, so waiting on "incomplete" is safe |
| RespParser.FindTerminatorPrefix | src/protocol/resp_parser.cpp:12-15 | in a prefix of the buffer, the terminator search finds the same CRLF if it lies wholly within the prefix, and nothing otherwise |
| RespParser.ParseHeaderPrefix | src/protocol/resp_parser.cpp:39-42 | a prefix that cuts a parsed header short is incomplete; a longer one parses the same header |
| RespParser.ParseElementPrefix | src/protocol/resp_parser.cpp:56-88 | a prefix that cuts a parsed element short is incomplete; a longer one parses the same element |
| RespParser.ParseElementsPrefix | src/protocol/resp_parser.cpp:55-100 | a prefix that cuts a complete run of elements short is incomplete, not malformed |
| RespParser.ParseFramePrefix | src/protocol/resp_parser.cpp:24-104 | every proper prefix of a complete command is incomplete, not malformed |
| RespParser.DecimalLineEnd | src/protocol/resp_parser.cpp:39-45 | when the decimal text of a number followed by CRLF sits at `from`, the terminator search from there finds exactly the CRLF right after the digits |
| RespParser.BulkLayout | src/protocol/resp.hpp:23-32 | a bulk encoding in a buffer has '$', the length digits, CRLF, the value and CRLF at the computed positions |
| RespParser.ParseElementOfBulk | src/protocol/resp_parser.cpp:56-99 | the parser reads a bulk encoding as one element viewing exactly the encoded value, ending right after it |
| RespParser.ParseElementsOfBulks | src/protocol/resp_parser.cpp:55-100 | a run of bulk encodings parses as complete, consumes exactly the run, and its views are the encoded values |
| RespParser.FrameRoundTrip | src/protocol/resp_parser.cpp:24-104 | a frame built from an array header and n bulk strings, followed by any bytes, parses as complete with `consumed` equal to the frame's length and args viewing the same n strings |
| RespParser.ProperPrefixOfFrameIsIncomplete | src/protocol/resp_parser.cpp:24-104 | every proper prefix of such a frame is incomplete, never malformed |
| RespParser.NullArrayIsNoRequest | src/protocol/resp_parser.cpp:44-50 | the null array "*-1\r\n" is rejected as malformed because the count is negative |
| RespParser.DrainStep | src/protocol/resp_parser.hpp:9-16 | after one complete command, draining the buffer ends like draining what follows that command |
| RespParser.DrainRestIsSuffix | src/protocol/resp_parser.cpp:106-112 | parsing and consuming commands until none is left leaves a suffix of the buffer |
| RespParser.DrainStopsAtIncompleteOrMalformed | src/protocol/resp_parser.hpp:9-16 | draining stops exactly at malformed input (flagged) or at an incomplete command (not flagged) |
| RespParser.DrainSplit | src/protocol/resp_parser.hpp:9-16 | draining a + b is draining a, then draining what a leaves followed by b |
| RespParser.FeedIsChunkingInvariant | src/protocol/resp_parser.hpp:9-16 | feeding the bytes chunk by chunk yields the same commands, rest and error as parsing them all at once |
| RespParser.Parser.constructor | src/protocol/resp_parser.hpp:22-24 | a new parser has no args, nothing consumed and no error |
| RespParser.Parser.Parse | src/protocol/resp_parser.cpp:24-104 | returns true iff no earlier error and the buffer starts with a complete command, and then holds its args and consumed length; otherwise args are empty and consumed is 0; the error flag is set iff it was set before or the buffer is malformed (sticky) |
| RespParser.Parser.ReadElement | src/protocol/resp_parser.cpp:56-99 | one pass of the element loop: the cursor steps agree with ParseElement |
| RespParser.Parser.Consume | src/protocol/resp_parser.cpp:106-112 | drops exactly the first `consumed` bytes and resets it to 0; when `consumed` is 0 or larger than the buffer, nothing changes, so a second call is a no-op |
| RespParser.Parser.Reset | src/protocol/resp_parser.cpp:114-118 | clears args, consumed and the error flag |
| Db.LiveShrinksOverTime | src/db/store.cpp:19 | as time passes, live keys can only disappear, and a live key keeps its value |
| Db.LazyRemovalIsInvisible | src/db/store.cpp:19-23 | erasing an expired key changes what a client sees, now or later, in no way |
| Db.GetOpMeaning | src/db/store.cpp:9-25 | get returns the value iff the key is live at `now`; its erasures leave the live view unchanged |
| Db.SetOpMeaning | src/db/store.cpp:27-32 | after set, the live view is the old one with the key bound to the value at every time, and the key has no deadline |
| Db.DelOpMeaning | src/db/store.cpp:34-45 | del returns true iff the key is in kv, expired or not; afterwards the key is in neither map and the live view only loses it |
| Db.ExpireOpMeaning | src/db/store.cpp:65-78 | expire returns true iff the key is stored and leaves kv unchanged; the key is then live exactly before the new deadline; other keys are unaffected |
| Db.TtlOpMeaning | src/db/store.cpp:80-97 | ttl is -2 iff the key is not live, -1 iff it is live without a deadline, and otherwise the whole milliseconds left (≥ 0); its erasures leave the live view unchanged |
| Db.ExpireThenTtl | src/db/store.cpp:65-97 | with the corrected deadline, TTL right after EXPIRE n on a stored key gives n back (or -2 for n = 0) |
| Db.SweepOpMeaning | src/db/store.cpp:99-110 | sweep keeps only deadlines still in the future, unchanged, and leaves the live view unchanged at `now` and later |
| Db.OperationsKeepConsistent | src/db/store.cpp:9-117 | every store operation keeps each deadline attached to a stored key |
| Db.DeadlineAsWrittenAgreesWhenSmall | src/db/store.cpp:70 | whenever the exact deadline now + ttl ms fits in a signed 64-bit nanosecond count, the source's wrapping computation gives exactly that deadline |
| Db.ExpireAsWrittenThenTtl | src/db/store.cpp:65-97 | with the deadline computed as the source does, TTL right after EXPIRE n on a stored key reads n back (or -2 for n = 0) as long as now + n ms fits in 64 bits |
| Db.HugeTtlWrapsIntoThePast | src/db/store.cpp:70 | a TTL of 10^13 ms, which EXPIRE accepts, wraps the 64-bit deadline to before `now` |
| Db.Store.constructor | src/db/store.cpp:7 | a new store has both maps empty and is consistent (`Valid`: every deadline belongs to a stored key); every Store method, the dispatcher and `OnRead` keep `Valid` |
| Db.Store.Get | src/db/store.cpp:9-25 | the returned value and the new maps are those of GetOp |
| Db.Store.Set | src/db/store.cpp:27-32 | the new maps are those of SetOp |
| Db.Store.Del | src/db/store.cpp:34-45 | the returned flag and the new maps are those of DelOp |
| Db.Store.Exists | src/db/store.cpp:47-63 | exists answers as get would, with the same lazy erasure |
| Db.Store.Expire | src/db/store.cpp:65-78 | the returned flag and the new maps are those of ExpireOp |
| Db.Store.Ttl | src/db/store.cpp:80-97 | the returned count and the new maps are those of TtlOp |
| Db.Store.SweepExpired | src/db/store.cpp:99-110 | the erase-while-iterating loop leaves the maps of SweepOp |
| Db.Store.RemoveExpiration | src/db/store.cpp:112-117 | only the key's deadline is dropped |
| Commands.ToCommandIsExactMatch | src/commands/dispatcher.cpp:22-32 | a name maps to a command iff it is exactly that command's upper-case name, and is unknown iff it is none of them |
| Commands.LowerCaseNamesAreUnknown | src/commands/dispatcher.cpp:22-32 | "get", "set" and "ping" are unknown commands (the match is case-sensitive) |
| Commands.NamedMeaning | src/commands/dispatcher.cpp:125 | the set named by the DEL arguments holds exactly the keys listed |
| Commands.DelAllKv | src/commands/dispatcher.cpp:124-129 | the DEL loop erases exactly the named keys from kv |
| Commands.DelAllCount | src/commands/dispatcher.cpp:124-129 | the DEL count is the number of distinct named keys that were stored |
| Commands.DelAllExpires | src/commands/dispatcher.cpp:124-129 | on a consistent store, the DEL loop erases exactly the named keys' deadlines |
| Commands.DelAllMeaning | src/commands/dispatcher.cpp:119-131 | DEL counts each distinct stored key once and removes all named keys from both maps |
| Commands.ExistsAllMeaning | src/commands/dispatcher.cpp:133-145 | EXISTS counts every argument that is live, duplicates included, and leaves the live view unchanged |
| Commands.DelAllKeepsConsistent | src/commands/dispatcher.cpp:119-131 | the DEL loop keeps the store consistent |
| Commands.ExecuteKeepsConsistent | src/commands/dispatcher.cpp:42-168 | every command keeps the store consistent |
| Commands.EmptyOrUnknownChangesNothing | src/commands/dispatcher.cpp:43-46 | an empty command replies "empty command" and an unknown name "unknown command"; the store is unchanged |
| Commands.WrongArityChangesNothing | src/commands/dispatcher.cpp:80-163 | a known command with the wrong number of arguments replies its arity error and leaves the store unchanged |
| Commands.InvalidExpireChangesNothing | src/commands/dispatcher.cpp:152-156 | an EXPIRE time that is not a whole `long long`, or is negative, replies "ERR invalid expire time" and leaves the store unchanged |
| Commands.SetThenGetAndTtl | src/commands/dispatcher.cpp:101-117 | after SET, GET returns the value and TTL returns -1 at any later time |
| Commands.ExpireThenTtlReply | src/commands/dispatcher.cpp:147-168 | EXPIRE replies 1 iff the key is stored; with the corrected deadline, a TTL at the same instant then replies the number of milliseconds given (the source agrees while now + n ms fits in 64 bits, see Db.ExpireAsWrittenThenTtl and Findings) |
| Commands.DelCountsRepeatedKeyOnce | src/commands/dispatcher.cpp:119-131 | "DEL a a" on a stored key replies 1 |
| Commands.ExistsCountsRepeatedKeyTwice | src/commands/dispatcher.cpp:133-145 | "EXISTS a a" on a live key replies 2 |
| Commands.Dispatcher.constructor | src/commands/dispatcher.hpp:13 | the dispatcher works on the given store |
| Commands.Dispatcher.Dispatch | src/commands/dispatcher.cpp:42-78 | appends exactly one reply, the one Execute gives, and leaves the store as Execute says |
| Commands.Dispatcher.HandlePing | src/commands/dispatcher.cpp:80-91 | appends the reply of RunPing and touches nothing else |
| Commands.Dispatcher.HandleEcho | src/commands/dispatcher.cpp:93-99 | appends the reply of RunEcho and touches nothing else |
| Commands.Dispatcher.HandleSet | src/commands/dispatcher.cpp:101-108 | appends the reply of RunSet and leaves its maps |
| Commands.Dispatcher.HandleGet | src/commands/dispatcher.cpp:110-117 | appends the reply of RunGet and leaves its maps |
| Commands.Dispatcher.HandleDel | src/commands/dispatcher.cpp:119-131 | appends the reply of RunDel and leaves its maps |
| Commands.Dispatcher.HandleExists | src/commands/dispatcher.cpp:133-145 | appends the reply of RunExists and leaves its maps |
| Commands.Dispatcher.DelKeys | src/commands/dispatcher.cpp:124-129 | the counting loop returns the count and maps of DelAll |
| Commands.Dispatcher.ExistsKeys | src/commands/dispatcher.cpp:138-143 | the counting loop returns the count and maps of ExistsAll |
| Commands.Dispatcher.HandleExpire | src/commands/dispatcher.cpp:147-159 | appends the reply of RunExpire and leaves its maps |
| Commands.Dispatcher.HandleTtl | src/commands/dispatcher.cpp:161-168 | appends the reply of RunTtl and leaves its maps |
| Net.ReadLoop | src/net/connection.cpp:24-47 | the read loop consumes socket results and never invents any |
| Net.ReadLoopRest | src/net/connection.cpp:24-47 | the unread results are a suffix of the script, and at least one result is read unless the script is empty |
| Net.ReadLoopVerdict | src/net/connection.cpp:26-45 | every result before the last one read was data or EINTR; success ends on EAGAIN/EWOULDBLOCK (or the script ran out); failure ends on peer close, a chunk past the cap, or a hard error |
| Net.ReadLoopBytes | src/net/connection.cpp:28-33 | the buffer is the old buffer followed by every received chunk, in arrival order, that was kept |
| Net.ReadLoopKeepsCap | src/net/connection.cpp:29-32 | the read buffer never exceeds 1 MiB |
| Net.FlushLoop | src/net/connection.cpp:49-65 | the flush loop consumes send results and never invents any |
| Net.FlushLoopConsumes | src/net/connection.cpp:49-65 | the unused send results are a suffix of the script |
| Net.FlushLoopRest | src/net/connection.cpp:50-55 | what is left of the write buffer is a suffix of it: only sent prefixes are erased, with no reordering |
| Net.FlushLoopVerdict | src/net/connection.cpp:50-64 | every result before the last one used was a positive count or EINTR; failure happens iff data was pending and the last result was a zero count or a hard error; success with data left means EAGAIN/EWOULDBLOCK or the script ran out |
| Net.ServeReplies | src/net/connection.cpp:72-83 | the write buffer receives, in order, the replies of the dispatched commands, then the protocol error if any; the store is as running those commands in order leaves it |
| Net.ServeRestIsSuffix | src/net/connection.cpp:72-78 | what the loop leaves of the read buffer is a suffix of it: consumed commands are dropped from the front |
| Net.ServeErrorVerdict | src/net/connection.cpp:80-83 | with the parser already in error nothing is dispatched; an error closes the connection and comes from the old flag or from malformed input |
| Net.ServeIdle | src/net/connection.cpp:72-85 | when nothing is dispatched and the connection stays open, the write buffer is unchanged |
| Net.ServeAliveVerdict | src/net/connection.cpp:72-85 | an open connection leaves no complete command in the read buffer, and a write buffer within the cap once something was dispatched |
| Net.ServeBackpressure | src/net/connection.cpp:75-77 | a close without protocol error means the write buffer grew past 1 MiB |
| Net.ServeFollowsDrain | src/net/connection.cpp:72-78 | commands are dispatched in buffer order as a prefix of the drained commands; unless backpressure closed it, they are all of them, and the rest and the error verdict are those of draining |
| Net.Socket.constructor | src/net/connection.cpp:27 | the socket starts from the given recv and send scripts with nothing sent |
| Net.Socket.Recv | src/net/connection.cpp:27 | recv returns the next scripted result, or EAGAIN once the script is exhausted |
| Net.Socket.Send | src/net/connection.cpp:51 | send takes the scripted number of bytes (at most the data's length) from the front of the data, or fails as scripted |
| Net.Connection.constructor | src/net/connection.cpp:11 | a new connection has empty buffers and a fresh parser without error |
| Net.Connection.ReadFromSocket | src/net/connection.cpp:24-47 | the verdict, the read buffer and the unread results are those of ReadLoop; the cap is kept |
| Net.Connection.FlushWrite | src/net/connection.cpp:49-65 | the verdict, the write buffer and the unused results are those of FlushLoop; sent bytes followed by the remaining buffer equal the old sent bytes followed by the old buffer |
| Net.Connection.OnWrite | src/net/connection.cpp:88-90 | on_write is flush_write |
| Net.Connection.OnRead | src/net/connection.cpp:67-86 | a failed read dispatches nothing and closes; otherwise the verdict, both buffers, the store and the error flag are those of Serve on the bytes read, and the parser's `consumed` is 0 again; the read cap and the store's invariant are kept |

## Left out

- The epoll reactor, accept loop and interest-set update (src/main.cpp, src/net/epoll.cpp/.hpp): OS multiplexing. The one rule there, "watch for writability iff `wants_write`" (src/main.cpp:92-96), is `Net.Connection.WantsWrite`, a predicate with no contract of its own.
- Socket creation, socket options and `exit` on failure (src/net/socket.cpp/.hpp, src/util/error.hpp): pure I/O and process termination.
- The clock (src/util/time.hpp): replaced by a `now` argument. Each `OnRead` uses a single `now` for all its commands, though the source reads the clock again for each store call.
- recv/send themselves: replaced by scripts in `Net.Socket`. The 4096-byte stack buffer of `read_from_socket` is not modelled; a scripted chunk may have any size.
- The connection's fd lifecycle (`close`, the destructor, the `fd`/`fd_` naming mismatch in connection.hpp): resource management only.
- PMR pools, transparent hashing and `args.reserve`: allocation details. The maps are Dafny `map`s.
- The load generator (client/runner.py) and the plotting script (utils/plot.py): they run against real sockets or draw charts, outside the server.
- `parse_integer` and `parse_ll` are the same `from_chars` call, so both are modelled by `Decimal.FromChars`.
- Values are strings of `char`, not bytes: the protocol treats data as opaque, and nothing in the core depends on the encoding.
- Db.ExpireOp / Db.Store.Expire: the deadline is computed exactly as `Db.Deadline` (now + ttl·10^6 ns), without the 64-bit wrap of src/db/store.cpp:70. The same holds for everything built on them (`Commands.Execute`, `Net.Serve`, `Net.Connection.OnRead`). The wrapping arithmetic as written is `Db.DeadlineAsWritten`; see Findings.
- Db.TtlOpMeaning: assumes `expires[k] - now` does not overflow 64 bits. That holds whenever the deadline was computed without overflow; see Findings for when it is not.
- Net.ReadLoopVerdict: states the stopping reasons as implications from the verdict, not as an if-and-only-if.
- Net.FlushLoopVerdict: the success case is stated as an implication, not an if-and-only-if.
- Net.ServeFollowsDrain: when backpressure closes the connection, it states only that the dispatched commands are a prefix of the drained ones.

## Findings

| source | as written | input that shows it | evidently intended | confidence | as-written member | corrected member |
|---|---|---|---|---|---|---|
| src/db/store.cpp:70 | `now() + milliseconds(ttl_ms)` converts the TTL to 64-bit nanoseconds, which wraps for TTLs above about 9.2·10^12 ms; EXPIRE accepts any non-negative `long long` | `EXPIRE k 10000000000000` on a stored key: the deadline wraps to about 8.4·10^18 ns before now, so the next GET finds the key expired | the key stays live for the requested time, and TTL reports it back | not executed | Db.HugeTtlWrapsIntoThePast | Db.ExpireThenTtl |
