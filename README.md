# JDWP connection and session bookkeeping

A Dafny model of the sequential core of ART's JDWP (Java Debug Wire Protocol)
transport in `runtime/jdwp/jdwp_main.cc`:

- **Options** — the `-Xrunjdwp` option string (`transport=dt_socket,address=8000,server=y`)
  is split on commas, each `name=value` pair is applied to a `JdwpOptions` record,
  and the record is checked at the end (`ParseJdwpOption`, `ParseJdwpOptions`);
  plus the field-wise `==`/`!=` on `JdwpOptions` and `JdwpLocation`.
- **Framing** — bytes, the big-endian 32-bit length that opens every packet (and
  counts its own four bytes), and the 14-byte handshake length.
- **Transport** — class `NetState` (`JdwpNetStateBase`): the client socket, the
  fixed input buffer with its held-byte count and handshake flag, in-place
  consumption of bytes, full-packet detection, closing, and the write paths.
- **Session** — class `JdwpState`: the request/event serial counters, the DDMS
  one-shot flag, exit-after-reply, the send helpers, and the bookkeeping of
  `HandlePacket` (in-flight flag, token, consuming the request bytes).

`ParseJdwpOption` writes through a pointer to a plain record; it is modelled as a
function from the record and the pair to the verdict and the record as left
behind (the record is written on failing paths too, as in the code).
`ParseJdwpOptions` is a method with the source's loop and early returns, proved
equal to the function `ParseOptions`. The transport's buffer is an `array` that
`ConsumeBytes` shifts in place. Socket writes are modelled by their reported
result (`written`, a parameter) and a ghost record `wire` of the bytes handed
to the socket. The request processor behind `HandlePacket` is represented by
its outputs: reply bytes, reply length, skip flag and request length.

Three points where the code behaves differently from what a reader might expect:

- Only an *unsupported* transport name, or a starting record that already
  holds Unknown, makes the transport check fail (the check is on
  `kJdwpTransportUnknown`, lines 135-138). A string that names no transport
  passes when the starting record holds "no transport" (`NoTransportNamed`).
  Outside the Android-target build, nothing fills in a default.
- Parsing is order-independent only for pairs that succeed and have different
  keys (`SwapAdjacentPairs`). A repeated key keeps its later value, even with
  other keys between the two (`DuplicateKeyOverwrites`, `LaterDuplicateWins`). A failing pair stops the loop, and the record
  keeps whatever earlier pairs and the failing pair wrote.
- The two serial ranges stay apart only for the first 2^28 serials of each
  (`SerialsDisjoint`). The 2^28-th request serial equals the first event
  serial (`SerialsMeet`).

## Model

| member | source | states |
|---|---|---|
| `Framing.Get4BEPut4BE` | runtime/jdwp/jdwp_main.cc:212-213 | reading a written length field gives the 32-bit value back, whatever bytes follow it |
| `Framing.Put4BEGet4BE` | runtime/jdwp/jdwp_main.cc:212-213 | writing back a read length field gives the same four bytes, so the big-endian reading is a bijection |
| `Framing.Get4BE` | runtime/jdwp/jdwp_main.cc:212 | the length prefix is the first four bytes read as a big-endian 32-bit number |
| `Framing.Frame` | runtime/jdwp/jdwp_main.cc:209-213 | a framed packet is its self-inclusive length, decoded as its total size, then the payload unchanged |
| `Options.OptionsEqual` | runtime/jdwp/jdwp_main.cc:770-780 | `==` on options holds exactly when the records are equal in every field |
| `Options.LocationEqual` | runtime/jdwp/jdwp_main.cc:761-764 | `==` on locations holds exactly when every field is equal |
| `Options.LocationNotEqual` | runtime/jdwp/jdwp_main.cc:766-768 | `!=` on locations is true exactly for different locations, and is the negation of `==` taken in either order |
| `Options.FindChar` | runtime/jdwp/jdwp_main.cc:76 | `find` returns the first occurrence of the character, with none before it, or npos (the length) exactly when the character is absent |
| `Options.Split` | runtime/jdwp/jdwp_main.cc:116-117 | splitting on the separator yields non-empty pieces that contain no separator |
| `Options.SplitAtSeparator` | runtime/jdwp/jdwp_main.cc:116-117 | a separator cuts the list of pairs into the pieces of the part before it followed by those of the part after it |
| `Options.SplitField` | runtime/jdwp/jdwp_main.cc:116-117 | a non-empty text with no separator is one piece |
| `Options.SplitKeepsEveryOtherChar` | runtime/jdwp/jdwp_main.cc:116-117 | the pieces concatenated are the input with its separators removed: no character is lost or invented |
| `Options.Strtoul` | runtime/jdwp/jdwp_main.cc:87-89 | the conversion stops at the end of the run of leading digits (the character it stops at, if any, is not a digit) and yields their decimal value; it stops at the very end exactly when the text is all digits |
| `Options.DecimalRoundTrip` | runtime/jdwp/jdwp_main.cc:88 | decimal text read back gives the number it spells |
| `Options.HostAndPort` | runtime/jdwp/jdwp_main.cc:75-82 | the address is cut at its first colon: the host, which holds no colon, is before it, and the port text after it; without a colon the host is empty and the port text is the whole value |
| `Options.ParseAddress` | runtime/jdwp/jdwp_main.cc:72-93 | the host is always replaced. The option succeeds exactly when the port text is non-empty, all digits and at most 65535. On success the port is its decimal value; on failure the port is unchanged. No other field changes |
| `Options.YesNo` | runtime/jdwp/jdwp_main.cc:54-71 | a flag value is accepted exactly when it is `y` or `n`, and means true exactly for `y` |
| `Options.ParseJdwpOption` | runtime/jdwp/jdwp_main.cc:41-102 | `transport` accepts only `dt_socket` or `dt_android_adb`, and a failure records Unknown. `server`/`suspend` accept only `y`/`n`, and on failure leave the flag unchanged. `address` is `ParseAddress`. Every other key succeeds and changes nothing, and each key changes only its own fields |
| `Options.AddressPortOnly` | runtime/jdwp/jdwp_main.cc:72-93 | `address=<port>` succeeds with an empty host and that port, for every port up to 65535 |
| `Options.AddressHostPort` | runtime/jdwp/jdwp_main.cc:72-93 | `address=<host>:<port>` succeeds with that host and port for every colon-free host |
| `Options.AddressMissingPort` | runtime/jdwp/jdwp_main.cc:83-86 | `address=<host>:` fails, but the host has already been stored |
| `Options.DuplicateKeyOverwrites` | runtime/jdwp/jdwp_main.cc:119-133 | applying one key twice, both times successfully, is the same as applying only the later value |
| `Options.LaterDuplicateWins` | runtime/jdwp/jdwp_main.cc:119-133 | in a sequence of successful pairs, an earlier pair whose key is repeated later, with only other keys in between, can be dropped without changing the outcome, whatever comes before and after |
| `Options.ApplyPairs` | runtime/jdwp/jdwp_main.cc:119-133 | the pairs applied left to right, stopping at the first failure; with no pairs the parse succeeds and the record is unchanged |
| `Options.SuccessMeansEveryPairSplits` | runtime/jdwp/jdwp_main.cc:120-124 | a successful run over the pairs means every pair had an `=` |
| `Options.DistinctKeysCommute` | runtime/jdwp/jdwp_main.cc:41-102 | two successful pairs with different keys give the same record in either order, and the second succeeds first as well |
| `Options.NameAndValue` | runtime/jdwp/jdwp_main.cc:120-129 | a pair with no `=` is rejected. Otherwise the name, which holds no `=`, and the value are the text before and after the first `=` |
| `Options.ParseOptions` | runtime/jdwp/jdwp_main.cc:104-151 | `help` fails with the record untouched. Otherwise the record is the one the split pairs leave, and the string is accepted exactly when every pair applies and the result passes the final checks: a supported-or-unset transport and, without `server=y`, a non-empty host and a non-zero port |
| `Options.ParseJdwpOptions` | runtime/jdwp/jdwp_main.cc:104-151 | the loop over the split pairs, with its early returns and final checks, computes exactly `ParseOptions`: both the verdict and the record |
| `Options.ApplyPairsConcat` | runtime/jdwp/jdwp_main.cc:119-133 | applying two runs of pairs is applying the first run, then the second only if the first run succeeded |
| `Options.StopsAtFirstFailure` | runtime/jdwp/jdwp_main.cc:128-132 | once a prefix of the pairs fails, the later pairs are never applied |
| `Options.PairWithoutEqualsFails` | runtime/jdwp/jdwp_main.cc:120-124 | a pair without `=` after successful pairs fails the whole parse, and the record is what those earlier pairs left |
| `Options.SwapAdjacentPairs` | runtime/jdwp/jdwp_main.cc:119-133 | swapping two adjacent successful pairs with different keys leaves the outcome of the whole sequence unchanged, whatever follows |
| `Options.SwapFirstTwo` | runtime/jdwp/jdwp_main.cc:119-133 | the same swap applied at the front of the sequence |
| `Options.TransportKeptWithoutKey` | runtime/jdwp/jdwp_main.cc:135-138 | with no `transport` pair, the parsed record's transport is the starting record's |
| `Options.ServerExample` | runtime/jdwp/jdwp_main.cc:104-151 | `transport=dt_socket,address=8000,server=y` gives a socket server on port 8000 with an empty host |
| `Options.NoTransportNamed` | runtime/jdwp/jdwp_main.cc:135-138 | `server=y` succeeds when the starting record names no transport: only Unknown is rejected |
| `Transport.NetState.constructor` | runtime/jdwp/jdwp_main.cc:156-163 | a new transport is unconnected (socket -1), holds no bytes and is not awaiting the handshake |
| `Transport.NetState.ConsumeBytes` | runtime/jdwp/jdwp_main.cc:192-203 | for `0 < count <= held`, the count drops by `count` and the held bytes are the old ones from `count` on. Buffer cells from the new count onward are untouched, so when every byte is consumed the buffer is not written at all |
| `Transport.NetState.HaveFullPacket` | runtime/jdwp/jdwp_main.cc:205-214 | while awaiting the handshake: full iff at least 14 bytes are held. Otherwise not full with fewer than 4 bytes, and full iff the held count reaches the big-endian length in the first four bytes |
| `Transport.NetState.IsAwaitingHandshake` | runtime/jdwp/jdwp_main.cc:216-218 | while it is true, readiness depends only on holding the 14-byte handshake |
| `Transport.NetState.SetAwaitingHandshake` | runtime/jdwp/jdwp_main.cc:220-222 | the flag takes the given value |
| `Transport.NetState.IsConnected` | runtime/jdwp/jdwp_main.cc:224-226 | connected exactly when the client socket descriptor is not negative |
| `Transport.NetState.Close` | runtime/jdwp/jdwp_main.cc:224-240 | afterwards the transport is not connected. An unconnected socket is left exactly as it was (a second close is a no-op); a connected one becomes -1 |
| `Transport.NetState.WritePacket` | runtime/jdwp/jdwp_main.cc:245-253 | when not connected it returns -1 and sends nothing. Otherwise it returns what the socket reported and sends exactly that prefix of the packet |
| `Transport.NetState.WriteBufferedPacket` | runtime/jdwp/jdwp_main.cc:258-267 | on a connected transport, the gathered ranges go out as one write; the reported prefix of their concatenation is sent and the count is returned |
| `Transport.ExpectedLength` | runtime/jdwp/jdwp_main.cc:279-282 | the loop that sums the range lengths gives the length of their concatenation |
| `Transport.FramedPacketIsFull` | runtime/jdwp/jdwp_main.cc:205-214 | once a whole framed packet is at the front of the buffer, a full packet is reported |
| `Transport.PartialPacketIsNotFull` | runtime/jdwp/jdwp_main.cc:205-214 | any strict prefix of a framed packet, including one shorter than the length field, is not reported full |
| `Session.SerialStep` | runtime/jdwp/jdwp_main.cc:316-326 | one call moves the n-th serial to the (n+1)-th: old value plus one, wrapped at 32 bits |
| `Session.SerialsDisjoint` | runtime/jdwp/jdwp_main.cc:341-342 | for the first 2^28 calls, the counters give base plus call number, and no request serial equals an event serial |
| `Session.SerialsIncrease` | runtime/jdwp/jdwp_main.cc:316-326 | until it wraps, a counter gives strictly increasing serials |
| `Session.SerialsMeet` | runtime/jdwp/jdwp_main.cc:341-342 | the 2^28-th request serial is the first event serial |
| `Session.JdwpState.constructor` | runtime/jdwp/jdwp_main.cc:328-356 | a new session has no transport, request serial 0x10000000, event serial 0x20000000, and every flag clear |
| `Session.JdwpState.IsConnected` | runtime/jdwp/jdwp_main.cc:269-271 | the session is connected exactly when it has a transport and that transport is connected |
| `Session.JdwpState.ShutdownMustWait` | runtime/jdwp/jdwp_main.cc:474-477 | destruction must wait exactly while a command is in flight |
| `Session.ReplyWriteResult` | runtime/jdwp/jdwp_main.cc:523-528 | the reply write result is 0 for a skipped reply, -1 when the transport is no longer connected (as `WritePacket` reports), and otherwise what the socket write returned |
| `Session.JdwpState.NextRequestSerial` | runtime/jdwp/jdwp_main.cc:316-318 | returns the current request serial, which is the n-th of the sequence, then adds one to that counter alone, wrapping at 32 bits |
| `Session.JdwpState.NextEventSerial` | runtime/jdwp/jdwp_main.cc:324-326 | returns the current event serial, which is the n-th of the sequence, then adds one to that counter alone, wrapping at 32 bits |
| `Session.JdwpState.NotifyDdmsActive` | runtime/jdwp/jdwp_main.cc:689-694 | DDMS is active afterwards, and the facade is told of the connection only when it was not already active |
| `Session.JdwpState.ExitAfterReplying` | runtime/jdwp/jdwp_main.cc:748-752 | the exit is requested, with that status |
| `Session.JdwpState.SendRequest` | runtime/jdwp/jdwp_main.cc:297-310 | with no connected transport nothing is sent. Otherwise the packet goes through `WritePacket`, and it counts as sent iff its whole length was written. The socket, the held bytes, the buffer and the handshake flag are unchanged |
| `Session.JdwpState.SendBufferedRequest` | runtime/jdwp/jdwp_main.cc:273-295 | with no connected transport nothing is sent. Otherwise the ranges go out in one gathered write, and they count as sent iff the write reported their total length. The socket, the held bytes, the buffer and the handshake flag are unchanged |
| `Session.JdwpState.HandlePacket` | runtime/jdwp/jdwp_main.cc:510-547 | succeeds iff the write result (0 when the reply is skipped, -1 when not connected) equals the reply length. On success exactly the request's bytes are consumed and the in-flight flag is cleared. On failure nothing is consumed and the flag stays set. The bytes sent are the reported prefix of the reply, or none when it is skipped, the transport is not connected or the write failed. The token is released on both paths, and the socket and handshake flag are unchanged |
| `Session.JdwpState.HandlePacketFixed` | runtime/jdwp/jdwp_main.cc:510-547 | as `HandlePacket`, including the bytes sent, except that nothing is left in flight on either path, so shutdown never has to wait afterwards |
| `Session.ShortReplyBlocksShutdown` | runtime/jdwp/jdwp_main.cc:535-538 | a connected session whose reply write fails is left with a request in flight, which the destructor's wait loop (lines 474-477) waits on |
| `Session.ShortReplyFixedAllowsShutdown` | runtime/jdwp/jdwp_main.cc:535-546 | with the fix, the same failed write leaves nothing for shutdown to wait for |

## Findings

| source | as written | input that shows it | evidently intended | confidence | as-written member | corrected member |
|---|---|---|---|---|---|---|
| runtime/jdwp/jdwp_main.cc:535-546 | when the reply write comes up short, `HandlePacket` returns false before it clears `processing_request_`. Nothing clears the flag until a later request succeeds, so `~JdwpState` waits on it for ever (lines 474-477) | a connected session: an 11-byte command is held, its 11-byte reply write returns -1 (peer reset), and the session is then destroyed | the in-flight flag is cleared, and shutdown waiters are woken, on the failing path too | medium; not executed | `Session.ShortReplyBlocksShutdown` (with `Session.JdwpState.HandlePacket`) | `Session.JdwpState.HandlePacketFixed`, `Session.ShortReplyFixedAllowsShutdown` |

## Left out

- Sockets, pipes and raw writes (`pipe`, `write`, `writev`, `close(fd)`, `MakePipe`, `WakePipe`, the destructor's pipe cleanup) are operating-system I/O. A write is represented by the count it reports.
- Threads and rendezvous (`pthread_create`/`pthread_join`, `StartJdwpThread`, `Run`, the start/attach/shutdown condition-variable waits in `Create` and `~JdwpState`, `socket_lock_`, the token lock) exist for concurrency. Only the guard of the shutdown wait is modelled (`ShutdownMustWait`), and the token is a ghost flag.
- `Create`, `~JdwpState`, `ResetState`, `Run`, `GetDebugThread` are thread and collaborator plumbing. They call `Dbg::*`, `Runtime` attach/detach, `UnregisterAll`, `Accept`, `Establish`, `ProcessIncoming` and `Shutdown`, and none of those are part of this model.
- `ProcessRequest`, `Request` parsing and `ExpandBuf` are not part of this model. Their outputs (reply, reply length, skip flag, request length) are parameters of `HandlePacket`.
- `JdwpState::IsActive` is the same test as `JdwpState::IsConnected`, which is modelled.
- `LastDebuggerActivity` needs the clock and `Dbg::IsDebuggerActive`; logging, `StringPrintf` and `operator<<` on `JdwpLocation` (which calls `Dbg`) produce text only.
- The `ART_TARGET_ANDROID` default-transport branch (lines 139-144) depends on the build configuration. `JdwpState::Create`'s choice of transport kind comes with the threading.
- Options.Strtoul: models `strtoul` on ASCII digits only. Leading white space and a sign, which `strtoul` accepts, make the model reject the port. `strtoul`'s clamp on overflow gives the same verdict as the unbounded value, because either way the port exceeds 65535.
- Options.Split: the helper's code is not part of this model. It is modelled as dropping empty fields, so `a=b,,c=d` is two pairs.
- The `JdwpOptions` default values and the `JdwpLocation` field types come from `jdwp.h`, which is not part of this model. The parser starts from any record it is given, and a location's type tag is any byte.
- `kMagicHandshakeLen` (14) and `Get4BE` come from `jdwp_priv.h` and `jdwp_bits.h`, which are not part of this model. They are taken as the 14-byte `JDWP-Handshake` and the big-endian read of four bytes.
- The buffer capacity `kInputBufferSize` is not part of this model. The buffer has whatever size the constructor was given, and nothing caps a length prefix against it, as in the code.
- The `&lhs == &rhs` shortcut of `operator==` on `JdwpOptions` has no counterpart: records are values, and a record is equal to itself anyway.
- Transport.NetState.WritePacket and Transport.NetState.WriteBufferedPacket take the write's reported count as a parameter. They require it to be -1 or at most the length requested, which is what `write`/`writev` return. The `DCHECK`s on the length and on being connected are preconditions.
- Session.JdwpState.HandlePacket: the `CHECK` that a transport exists, and `ConsumeBytes`' `CHECK`s on the request length, are preconditions. The `DCHECK` that a skipped reply has length 0 is not: as in a release build, a skipped reply with a non-zero length fails.
- Session.JdwpState.SendRequest and Session.JdwpState.SendBufferedRequest return whether the whole packet went out, where the code only logs that case. The packet type passed to `SendBufferedRequest` affects only the log message and is dropped.
