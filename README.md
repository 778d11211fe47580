# A verified model of the 11mad11/esp32 firmware core

The firmware runs on an ESP32 board with four relay outputs. It has a Wi-Fi
access point and Ethernet. This project models the small pieces of
sequential logic that its I/O tasks are built from. It also models the
host-side OTA uploader script. Each Dafny module follows one source file:

- `Dhcp` (src/dhcp.rs) is the DHCP server of the access point. The lease
  table (`DhcpLeaser`) holds at most four leases, and the server carries out
  the Discover, Request, Release and Decline decisions of RFC 2131
  section 4.3. Packets are classified by the Message Type, Server Identifier
  (RFC 2132 section 9.7) and Requested IP Address (RFC 2132 section 9.1)
  options.
- `Tcp` (src/tcp.rs) is the TCP bridge. Bytes from the socket are collected
  in a 1024-byte buffer until a newline, and each complete line is
  published. `tcp_send` queues outgoing packets on a two-slot channel.
- `MqttInbound` (src/mqtt/inbound.rs) covers the handler for received MQTT
  messages. It routes topics and parses a relay command as four hex pairs.
  Commands go onto a two-slot queue that panics when it overflows.
- `MqttPublish` (src/mqtt/publish.rs) covers `mqtt_send`. It checks the
  topic and payload limits and puts the message on an eight-slot publish
  channel, waiting while that channel is full. `next_publish` takes messages
  off in FIFO order.
- `LegacyMqtt` (src/mqtt.rs) is the older MQTT client. Its `mqtt_send`
  drops a message when the channel is full. Its handler has its own command
  parser, which also reads a trailing single character.
- `Output` (src/output.rs) is the relay task. Each relay has its own timer
  and pin. A command value of 0 releases a relay and 255 holds it. Any other
  value n holds it for n seconds. The task wakes at the soonest deadline.
- `CaptiveDns` (`run_dns` in src/wifi.rs) makes every name resolve to the
  access point. It answers each query in place (RFC 1035 sections 4.1.1,
  4.1.3 and 4.1.4).
- `Ethernet` (src/ethernet.rs) parses the build-time MAC address text.
- `Memory` (src/memory.rs) maps the key-value store's flash pages to flash
  addresses.
- `Firmware` (src/main.rs) decodes the version from `GIT_HASH` and bounds the
  random start-up spin.
- `OtaUploader` (ota_uploader/index.ts) parses the device `.env` files,
  picks the device name, and runs the flow control that sends firmware
  chunks.
- Two modules are shared by the others. `Base` defines bytes, `Option` and
  the embassy-time clock. `Hex` models the Rust core text routines the
  firmware calls: `u8::from_str_radix(_, 16)`, `as_ascii` and the UTF-8 check
  of `from_utf8`.

Conventions used throughout:

- **State and values.** State that the source changes in place is a class:
  the lease table, the line accumulator, the queues and channels, the relay
  task, the DNS scratch buffer and the uploader. A class method is proved
  against a function of its old state. Parsing and arithmetic are functions
  and lemmas.
- **Panics.** A panic is an outcome of the model (a `None` or a `...Panic`
  constructor), never a precondition.
- **Waiting.** An `await` on a full channel is a `Blocked` (or `false`)
  outcome that leaves the state unchanged. The task would retry later.
- **Time.** An embassy-time `Instant` is a tick count at 1,000,000 ticks per
  second. The current time is a parameter.

## Model

| member | source | states |
|---|---|---|
| Hex.DigitsValue | src/mqtt/inbound.rs:49 | A digit string has a base-16 value exactly when every byte is a hex digit of either case |
| Hex.OneCharRadix | src/main.rs:62 | `from_str_radix` of one byte succeeds exactly for a hex digit, and gives that digit's value |
| Hex.TwoCharRadix | src/mqtt/inbound.rs:47-49 | `from_str_radix` of two bytes gives 16·hi+lo for two digits, the digit for '+' followed by a digit, and fails otherwise |
| Hex.RadixInputIsAscii | src/mqtt/inbound.rs:47-49 | Whatever `from_str_radix` accepts is ASCII and therefore valid UTF-8, so the `from_utf8` step never rejects a chunk that parses |
| Hex.AsciiIsUtf8 | src/mqtt/inbound.rs:39 | ASCII text passes the UTF-8 check |
| Hex.DigitRoundTrip | build.rs:67-71 | Reading back a hex digit written in either case gives the original value |
| Dhcp.FindIndex | src/dhcp.rs:43-53 | The index found is the first lease whose MAC matches, or the table length when no MAC matches; no earlier lease matches |
| Dhcp.FindLeaseSpec | src/dhcp.rs:43-53 | The lookup is None exactly when no lease has the MAC; otherwise it is the first lease with that MAC |
| Dhcp.DhcpLeaser.GetLease | src/dhcp.rs:43-53 | The loop returns the first lease of the MAC, or None, and changes nothing |
| Dhcp.LowestFree | src/dhcp.rs:55-77 | The result is the lowest address in the pool, from the start address up, that no lease holds; None only when every address is held |
| Dhcp.DhcpLeaser.NextLease | src/dhcp.rs:55-77 | The nested loops return the lowest free pool address, and change nothing |
| Dhcp.FreeAddressExists | src/dhcp.rs:55-77 | Pigeonhole: when fewer addresses are held than the rest of the range has, a free one exists |
| Dhcp.NextLeaseNeverNone | src/dhcp.rs:55-77 | With at most four leases (the Vec capacity at line 39), `next_lease` never returns None |
| Dhcp.RemoveFirstSpec | src/dhcp.rs:87-98 | Removal takes out exactly the first lease of the MAC, keeps the others in order, and leaves the table unchanged when the MAC has no lease |
| Dhcp.RemoveFirstUnique | src/dhcp.rs:87-98 | With one lease per MAC, the MAC has no lease after removal and uniqueness is kept |
| Dhcp.RemoveFirstOthers | src/dhcp.rs:87-98 | Removing one MAC's lease does not change what a lookup of any other MAC returns |
| Dhcp.DhcpLeaser.RemoveLease | src/dhcp.rs:87-98 | Returns true exactly when the MAC had a lease; the new table is the old one without that lease; the table invariant is kept |
| Dhcp.AddLeaseSpec | src/dhcp.rs:79-85 | Adding fails exactly when the MAC had no lease and the table holds four. On success the new lease is the MAC's only lease. On failure nothing changes. Other MACs' leases are untouched and the table stays valid |
| Dhcp.DhcpLeaser.AddLease | src/dhcp.rs:79-85 | Removes the MAC's old lease and then pushes the new one, exactly as the insert function says; the table stays valid |
| Dhcp.FindMessageType | src/dhcp.rs:273-281 | The result is the first Message Type option, and None exactly when there is none |
| Dhcp.FindServerId | src/dhcp.rs:283-286 | The result is the first Server Identifier option, and None exactly when there is none |
| Dhcp.GetRequestedIp | src/dhcp.rs:330-340 | The result is the first Requested IP Address option, and None exactly when there is none |
| Dhcp.GetPacketAction | src/dhcp.rs:266-328 | Replies, packets without a message type, and packets naming another server are ignored. Discover is taken with the requested address. Request takes option 50, then a non-zero `ciaddr`, or yields nothing. Release and Decline need the server identifier 192.168.2.1 and carry `yiaddr`. Each "is taken" condition is an if-and-only-if |
| Dhcp.ProcessKeepsTableValid | src/dhcp.rs:141-199 | Every packet keeps the table at most four leases with one lease per MAC |
| Dhcp.DiscoverAlwaysOffers | src/dhcp.rs:150-169 | A Discover leaves the table alone and always gets an Offer: the requested address if available to the MAC, else the MAC's lease address, else the lowest free address |
| Dhcp.RequestAckOrNak | src/dhcp.rs:170-193 | A Request gets Ack with the address exactly when the address is available to the MAC and the lease can be stored; the stored lease expires 86400 s from now; otherwise Nak with no address and an unchanged table |
| Dhcp.ReleaseDropsLease | src/dhcp.rs:194-197 | Release and Decline send nothing, drop the MAC's lease and keep every other lease |
| Dhcp.DhcpServer.ProcessPacket | src/dhcp.rs:141-199 | The method computes the new table and the reply that the decision function gives, built from the table operations, and keeps the table valid |
| Tcp.ReadChunk | src/tcp.rs:82-105 | A closure call that does not panic consumes between one byte and the whole chunk |
| Tcp.ReadChunkClosedForm | src/tcp.rs:82-105 | The closure panics exactly when the chunk is empty or the bytes up to the first newline do not fit in the buffer. Otherwise it consumes exactly those bytes and reports a complete line exactly when the chunk holds a newline |
| Tcp.ReadChunkConsumes | src/tcp.rs:84-104 | The consumed bytes hold no newline except possibly the last, which is a newline exactly when the line is complete. Without a newline the whole chunk is consumed. The buffer never exceeds 1024 bytes |
| Tcp.ServeStepMatchesStream | src/tcp.rs:107-113 | One readable event has the same effect as feeding its chunk byte by byte, whatever bytes follow |
| Tcp.DriveMatchesStream | src/tcp.rs:78-118 | Feeding a sequence of chunks publishes the same lines, leaves the same partial line and panics alike as the byte-by-byte reference on their concatenation |
| Tcp.ChunkingInvariant | src/tcp.rs:78-118 | Two ways of cutting the same byte stream into non-empty chunks publish the same lines and end in the same state |
| Tcp.LineAccumulator.ReadWith | src/tcp.rs:82-105 | The loop stores the consumed bytes at `accum[index..]` and advances `index` by exactly their count; its result is the closure's defined outcome |
| Tcp.LineAccumulator.OnReadable | src/tcp.rs:107-113 | A partial line stays pending. A complete line of under 1024 bytes is published and `index` resets to 0. A 1024-byte line panics at `mqtt_send` |
| Tcp.TcpOutbound.TcpSend | src/tcp.rs:24-37 | Panics unless the buffer is under 64 bytes; otherwise queues an exact copy, or waits with nothing changed while the two-slot channel is full |
| Tcp.TcpOutbound.NextWrite | src/tcp.rs:114-116 | The oldest queued packet is written, as `buf[..len]`, and leaves the queue |
| MqttInbound.ParseCtrl | src/mqtt/inbound.rs:41-54 | The loop fills slot i with chunk i's parse, and leaves the slot None for a missing, one-byte or unparsable chunk |
| MqttInbound.CtrlSlotMeaning | src/mqtt/inbound.rs:42-53 | A slot holds b exactly when its two bytes are present and are two hex digits worth 16·hi+lo = b, or '+' and a digit worth b |
| MqttInbound.CtrlIgnoresExtra | src/mqtt/inbound.rs:42 | Only the first eight bytes of a ctrl payload matter |
| MqttInbound.CopyPayload | src/mqtt/inbound.rs:68-76 | A payload under 1024 bytes is copied verbatim; a longer one panics |
| MqttInbound.RouteSpec | src/mqtt/inbound.rs:36-66 | Exactly the three subscribed topics produce a command. Ctrl panics exactly on non-UTF-8. Tcp and echo carry the payload unchanged, or panic at 1024 bytes or more |
| MqttInbound.InboundQueue.Enqueue | src/mqtt/inbound.rs:23-30 | Panics exactly when the two-slot queue is full; otherwise appends at the back |
| MqttInbound.InboundQueue.DrainOne | src/mqtt/inbound.rs:32-34 | Returns the oldest command and removes it, or None on an empty queue |
| MqttInbound.InboundQueue.MessageHandler | src/mqtt/inbound.rs:36-66 | Panics exactly when routing panics or a command meets a full queue. Otherwise it returns Ok and the queue gains the routed command (nothing for an ignored topic) |
| MqttPublish.PublishChannel.MqttSend | src/mqtt/publish.rs:18-31 | A topic over 64 bytes panics, then a payload of 1024 bytes or more panics. Otherwise the exact topic, payload copy and length are queued, or the sender waits with nothing changed while eight are queued |
| MqttPublish.PublishChannel.NextPublish | src/mqtt/publish.rs:33-35 | Packets leave in the order they were queued (queued = sent minus taken), each within the limits |
| LegacyMqtt.LegacyChannel.MqttSend | src/mqtt.rs:24-44 | A topic over 64 bytes panics, then a payload of 1024 bytes or more panics. Otherwise `buf[..len]` of the queued packet is the payload, or the packet is dropped without waiting when four are queued |
| LegacyMqtt.ParseLegacyCtrl | src/mqtt.rs:188-195 | The loop fills slot i with the parse of chunk i of `chunks(2)`, a trailing one-byte chunk included |
| LegacyMqtt.TrailingDigitParsed | src/mqtt.rs:189-191 | A trailing single character of an odd-length payload fills its slot with that digit's value |
| LegacyMqtt.PairParsed | src/mqtt.rs:189-191 | A complete pair parses as two digits, or as '+' and a digit |
| LegacyMqtt.MessageHandler | src/mqtt.rs:182-207 | Routes ctrl (which panics exactly on non-ASCII), ota/start and ota/data, and ignores every other topic; the ctrl command is delivered (corrected, see Findings) |
| LegacyMqtt.CtrlNeverDelivered | src/mqtt.rs:196 | As written no ctrl message reaches the relays. The corrected handler delivers every ASCII one, and the two agree on every other topic |
| LegacyMqtt.CtrlDropExample | src/mqtt.rs:184-196 | Payload "01": as written nothing happens; corrected, relay 0 gets one second |
| Output.ApplyKeepsConsistent | src/output.rs:26-43 | Applying a command keeps "pin low exactly when a timer runs" |
| Output.ExpireKeepsConsistent | src/output.rs:44-55 | Expiring keeps "pin low exactly when a timer runs" |
| Output.TimedRelayReleased | src/output.rs:35-52 | A relay given n seconds (1 to 254) stays low at every deadline up to now+n and is released strictly after |
| Output.HoldNeverExpires | src/output.rs:32-34 | A relay given 255 is never released by a deadline |
| Output.MinIndex | src/output.rs:19-23 | The picked timer is the first one with the smallest whole-second value, and None exactly when no timer runs |
| Output.SoonestWithinASecond | src/output.rs:19-23 | The wait deadline is earlier than every running timer plus one second (timers compare by whole seconds), and `Instant::MAX` with no timer |
| Output.OutputTask.constructor | src/main.rs:208-229 | Every pin starts high with no timer |
| Output.OutputTask.OutputState | src/output.rs:10-12 | Queues the command, or waits with nothing changed while the two-slot channel is full |
| Output.OutputTask.HandlePacket | src/output.rs:26-43 | Each relay becomes the command's effect on it (0 releases, 255 holds, n times n seconds, None leaves it) |
| Output.OutputTask.HandleTimeout | src/output.rs:44-55 | Each expired relay is released, each running one is set low, and relays without a timer are untouched |
| Output.OutputTask.Step | src/output.rs:18-57 | One turn: a queued command is taken in FIFO order and applied; else the deadlines are expired once `now` reaches the soonest one; else nothing changes. The invariant holds throughout |
| CaptiveDns.SetTopBit | src/wifi.rs:142-143 | Setting bit 0x80 of a byte gives a value of at least 0x80 with the seven low bits unchanged |
| CaptiveDns.FooterFields | src/wifi.rs:128-132 | The answer record is a name pointer to offset 12, type A, class IN, TTL 10 s and a four-byte address (RFC 1035 sections 4.1.3 and 4.1.4) |
| CaptiveDns.ReplyFromQueryOnly | src/wifi.rs:142-146 | The reply is the marked query followed by the record; no stale buffer byte reaches it |
| CaptiveDns.EveryNameResolvesToAp | src/wifi.rs:132 | Whatever the query, the reply ends with 192.168.2.1 |
| CaptiveDns.DnsResponder.constructor | src/wifi.rs:128-134 | The record is built for the configured address and the scratch buffer starts zeroed |
| CaptiveDns.DnsResponder.Respond | src/wifi.rs:136-151 | No reply exactly for queries over 100 bytes; otherwise the reply is the query with QR, RA and ANCOUNT set, followed by the record. The whole new scratch buffer is stated |
| Ethernet.FromHexDigit | src/ethernet.rs:90-97 | Defined exactly on '0'-'9', 'a'-'f' and 'A'-'F', giving a value below 16 that writes back as the same digit |
| Ethernet.ShiftOrIsSum | src/ethernet.rs:111 | Shifting a digit left by four and or-ing in a second digit gives 16·hi+lo |
| Ethernet.ParseMac | src/ethernet.rs:99-120 | Succeeds exactly on 17 bytes of six hex pairs with ':' between them (nothing checked after the last pair), giving octet i = 16·hex(s[3i]) + hex(s[3i+1]) |
| Ethernet.FormatMacLayout | build.rs:67-71 | Colon notation puts each octet's digits at 3i and 3i+1 and the separators at 3i+2 |
| Ethernet.ParseFormatRoundTrip | src/ethernet.rs:99-120 | Any address the build script writes, in either case, parses back to the same six octets |
| Memory.FourPages | src/memory.rs:25-27 | With the 4096-byte sector the store gets four pages |
| Memory.PageEndsInRegion | src/memory.rs:25-27 | Every page below the page count ends inside the region |
| Memory.EraseRangeInRegion | src/memory.rs:29-40 | With no arithmetic wrapping, the erase range of page p is [0x9000 + p·ps, 0x9000 + p·ps + ps), inside [0x9000, 0xD000) |
| Memory.PagesDisjoint | src/memory.rs:29-32 | Distinct pages have disjoint erase ranges |
| Memory.AccessInPage | src/memory.rs:48-49 | A read or write at an offset within the page goes to 0x9000 + p·ps + offset, inside that page's erase range |
| Firmware.DecodeGitHash | src/main.rs:58-65 | Byte i is chunk i read as hex, later bytes stay 0. It panics exactly when a chunk is not hex or there are more than seven chunks |
| Firmware.LastDigitAlone | src/main.rs:61-62 | An odd-length hash's last character is read as one digit |
| Firmware.FallbackIsZero | build.rs:30 | The fallback "0000000" decodes to seven zero bytes |
| Firmware.TooLongPanics | src/main.rs:60-62 | A hash of more than 14 characters always panics |
| Firmware.SpinCount | src/main.rs:101 | The spin count lies in [50, 1049] |
| OtaUploader.TrimStart | ota_uploader/index.ts:20 | Removes exactly the leading JavaScript whitespace |
| OtaUploader.TrimEnd | ota_uploader/index.ts:20 | Removes exactly the trailing JavaScript whitespace |
| OtaUploader.SplitHead | ota_uploader/index.ts:18 | The first piece of a split is the text before the first separator, and the rest is the split of the text after it |
| OtaUploader.LineFields | ota_uploader/index.ts:18 | The key is the text before the first '='. The value is the text between the first and second '=' (or the end). Anything after a second '=' is not read |
| OtaUploader.LastLineWins | ota_uploader/index.ts:17-23 | A key is in the environment exactly when some kept line sets it, and its value is that of the last such line |
| OtaUploader.DeviceNameOfFile | ota_uploader/index.ts:17-24 | The device name is the last `desc` value, else the last `id` value, else the file path |
| OtaUploader.TotalLengthAppend | ota_uploader/index.ts:130 | The byte count grows by exactly the sent chunk's length |
| OtaUploader.Uploader.constructor | ota_uploader/index.ts:75-82 | Counters start at zero with `future` = 1 and nothing sent |
| OtaUploader.Uploader.Send | ota_uploader/index.ts:128-132 | Publishes the next chunk and adds its length to `totalBytes`, or fails with nothing changed when the stream is over |
| OtaUploader.Uploader.Ready | ota_uploader/index.ts:120-126 | Counts one acknowledgement, then sends the next chunks of the file in order until `sendCnt ≥ readyCnt + future`. There is equality when `sendCnt` was not already ahead. It stops early only when the file is exhausted |

## Left out

- Network and socket I/O is not modelled: UDP and TCP sockets, `accept`, `recv_from`, `send_to`, the MQTT broker connection and `mqtt_task`. The model starts at the bytes a socket delivers and ends at the bytes handed to it.
- DHCP packet encoding and decoding belong to the `edge_dhcp` crate. Packets are abstract records of the fields the server reads, and `send_reply` is represented by the reply's type and address.
- Concurrency is not modelled: embassy tasks, `select` and critical sections. Each task step is one atomic call, and the arms of `loop_s`'s `select` are separate methods.
- Dhcp.Process: `process_packet` reads `Instant::now()` separately for each availability check and for the lease expiry. The model uses one `now` per packet.
- Output.OutputTask.HandlePacket and Output.OutputTask.HandleTimeout: the source reads `Instant::now()` once per relay. The model uses one `now` per loop turn.
- Instant overflow: `Instant + Duration` panics on u64 overflow. `ClockInRange(now)` rules that out, since it would need an uptime of about 584,000 years.
- The embassy-time tick rate is taken as its default of 1,000,000 ticks per second.
- OTA flashing (src/ota.rs), the LED task (src/led.rs), the UART (src/uart.rs) and the heap (src/myheap.rs) are not part of this model. `ota_start` and `ota_write` appear only as dispatch targets.
- Memory: the ekv database and the `FlashStorage` calls themselves are not modelled, only the address arithmetic. `PageCount` uses the sector size as a parameter.
- Memory: the overflow panics of a debug build are not modelled. The model wraps at 32 bits as a release build does, and proves that no wrap happens for pages the store uses.
- Firmware.SpinCount: the random number is a parameter, and the spin loop itself is not modelled.
- Ethernet.ParseMac: `parse_mac` is a `const fn`, so its panics are build errors. The model returns None instead.
- The build script's file and environment I/O is not modelled, apart from the fallback hash and the MAC format.
- CaptiveDns.DnsResponder.Respond: a datagram longer than the 128-byte buffer is truncated by `recv_from`, which belongs to embassy-net. The model takes the received bytes, at most 128 of them.
- Allocation failure of `vec_in_myheap!` is not modelled. The heap copies in `tcp_send` and `mqtt_send` are modelled as fresh arrays that are always allocated.
- OtaUploader: strings are sequences of Unicode scalar values, not UTF-16 code units. `Buffer.toString` decoding is not modelled, and the file text is the parser's input.
- OtaUploader.ParseEnv: keys such as `__proto__`, which a plain JavaScript object treats specially, are stored like any other key.
- OtaUploader.Uploader.Send: a read with no data is modelled as a failed send whether the promise rejects or stays pending. `Ready` then stops, since the awaited send never completes normally.
- OtaUploader: the progress timer with its floating-point rate and percentage, the MQTT start message with its CRC, and the interactive device selection are not modelled.
- Tcp: the log message published on each accepted connection and the one-second pause after a connection closes are not modelled.

## Findings

| source | as written | input that shows it | evidently intended | confidence | as-written member | corrected member |
|---|---|---|---|---|---|---|
| src/mqtt.rs:196 | `output::output_state(bytes)` is an `async fn` called without `.await`, so the future is dropped unpolled, nothing is sent to the relay task, and the ctrl handler of the older client never changes a relay | payload "01" on `iot/<ID>/ctrl` | the parsed command reaches the relay task, which holds relay 0 low for one second | not executed | LegacyMqtt.DispatchAsWritten (LegacyMqtt.CtrlNeverDelivered, LegacyMqtt.CtrlDropExample) | LegacyMqtt.DispatchOf (LegacyMqtt.MessageHandler) |
