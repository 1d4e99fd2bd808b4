# Raspberry Pi examples: TCP control server and LM75A decode

This project models two pieces of the Raspberry Pi example programs and proves
properties of them.

**`TcpServer` (tcp_server.dfy).** This is the single-client TCP control loop of
`Examples/Network/TCP_test.cpp`. Sockets are abstracted away. Each pass of the
`while (true)` body is driven by an `Event` that gives the value `accept`
returned and the outcome of `read`. The outcome of `read` is either a
non-positive code or 1 to 1024 bytes. The class `Server` holds:

- the connection flag (`network_connected_flag`);
- the client descriptor;
- the 1024-byte receive buffer as an `array<bv8>`;
- a ghost log of effects: accept, close, reboot, send.

`TryAccept`, `TryRead`, `Step` and `Serve` each change that state in place. Each
is proved equal to a function on `Snapshot` values: `AcceptPhase`, `ReadPhase`,
`Iteration` and `Run`. The lemmas state properties of those functions.

`read` overwrites only the front of the buffer, and the buffer is never cleared.
`strcmp` is modelled byte by byte (`StrCmp`). So the reboot decision depends on
stale bytes left by earlier, longer messages, and the lemmas show this. The
comparison is against a 12-byte NUL-terminated literal. It stops at index 11 at
the latest, so it never reads past the buffer, even when a full 1024-byte read
leaves no NUL in it.

**`Lm75a` (lm75a.dfy).** This covers `Examples/I2C_LM75A_test/I2C_LM75A_test.cpp`:

- the register-pointer and configuration frames the program writes;
- the temperature decode `((int)b0 << 8 | (int)b1) >> 7`.

The C operators `<<`, `|` and `>>` are defined on non-negative integers.
`BitOr` works bit by bit, and `Shl`/`Shr` multiply or divide by a power of two.
The decode is then proved equal to `2*b0 + b1/128`, a count of half-degrees
from 0 to 511.

## Behaviour of the code as written

- **Reply after reboot.** The reply "Hello from Raspberry Pi!" is sent after every
  positive read, including the one that calls the reboot. The reboot call comes
  first. The reply is not sent *instead of* the reboot.
- **Command matching.** The command is matched against the C string in the
  buffer, not against the received payload. A payload of "sudo reboot" after
  "hello world!" does not reboot (`StaleTailMasksCommand`). A payload of
  "sudo rebo" after a "sudo reboot" that itself rebooted, and so left byte 11
  NUL, reboots again (`TruncatedCommandReboots`).
- **No "no data" result.** The accepted client socket is never made
  non-blocking; only the listening socket is. So `read` has no "no data yet"
  outcome, and any result ≤ 0 drops the client.
- **Failed `send`.** The result of `send` is ignored. A failed send does not drop
  the client.
- **Failed `accept`.** Its return value is still stored in `clientSocket`, because
  the assignment sits inside the condition. The flag stays false.
- **No sign extension.** The temperature comment calls the register two's
  complement. The decode does no sign extension, so readings below 0 °C come out
  as 256 to 511 half-degrees (`NoSignExtension`, `MinusHalfDegreeReadsHot`).

## Model

| member | source | states |
|---|---|---|
| TcpServer.Initial | Examples/Network/TCP_test.cpp:29-44 | Before the loop, no client is held, the effect log is empty, the invariant holds, and every byte of the 1024-byte buffer is zero |
| TcpServer.Server.constructor | Examples/Network/TCP_test.cpp:29-44 | The new server is valid, its buffer is a fresh 1024-byte array, and its state is the initial state |
| TcpServer.Overwrite | Examples/Network/TCP_test.cpp:196 | A read of n bytes replaces exactly `buffer[0..n)` with the received bytes and leaves `buffer[n..1024)` as it was |
| TcpServer.CString | Examples/Network/TCP_test.cpp:218 | The string a buffer holds is its longest NUL-free prefix, and when shorter than the buffer it is followed by a NUL |
| TcpServer.StrCmp | Examples/Network/TCP_test.cpp:218 | strcmp against a NUL-terminated literal returns 0 exactly when the buffer's bytes up to the literal's terminator equal the literal, terminator included |
| TcpServer.CStringIs | Examples/Network/TCP_test.cpp:218 | A buffer's C string equals a NUL-free word iff the word is a prefix of the buffer and a NUL follows it |
| TcpServer.RebootTest | Examples/Network/TCP_test.cpp:218-222 | The reboot test succeeds iff bytes 0..10 spell "sudo reboot" and byte 11 is NUL, iff the buffer's C string is "sudo reboot" |
| TcpServer.LongPayloadDecides | Examples/Network/TCP_test.cpp:196-218 | For a payload of at least 12 bytes, the reboot fires iff the payload itself starts with "sudo reboot" and a NUL, whatever the buffer held before |
| TcpServer.ShortPayloadUsesStaleTail | Examples/Network/TCP_test.cpp:196-218 | For a payload shorter than 12 bytes, the reboot fires iff the payload followed by the stale buffer bytes up to index 11 spells "sudo reboot" and a NUL |
| TcpServer.Dispatch | Examples/Network/TCP_test.cpp:218-225 | A positive read logs exactly a reboot then the 24-byte reply to the given descriptor when the buffer's C string is "sudo reboot", and exactly the reply otherwise |
| TcpServer.AcceptPhase | Examples/Network/TCP_test.cpp:166-173 | After the accept half, a client is held iff one was held already or accept returned ≥ 0. The buffer is untouched, and the log only grows, by at most one entry |
| TcpServer.ReadPhase | Examples/Network/TCP_test.cpp:193-227 | After the read half, a client is held iff one was held and the read returned bytes. The descriptor is kept, the buffer stays 1024 bytes and the log only grows |
| TcpServer.Iteration | Examples/Network/TCP_test.cpp:163-229 | After one pass, a client is held iff one was held or accept succeeded, and the read then returned bytes. The buffer stays 1024 bytes and the log only grows |
| TcpServer.AcceptGating | Examples/Network/TCP_test.cpp:166-173 | While a client is held, accept's result is ignored. A result ≥ 0 takes that client, sets the flag and logs the accept. A negative result leaves the flag, the buffer and the log unchanged, and is stored as the descriptor |
| TcpServer.ReadGating | Examples/Network/TCP_test.cpp:193-214 | With no client held nothing is read. A read result ≤ 0 clears the flag, logs the close of the held descriptor and leaves the buffer unchanged |
| TcpServer.PositiveRead | Examples/Network/TCP_test.cpp:193-226 | A positive read keeps the client and overwrites exactly the first n bytes. It logs one reboot iff the buffer's C string is "sudo reboot", and none otherwise. It always logs the 24-byte reply last, after any reboot. The log gains exactly those entries and nothing else |
| TcpServer.DisciplinedAppend | Examples/Network/TCP_test.cpp:166-213 | Appending an effect allowed for the held client keeps the log disciplined, and updates the held client by accept/close |
| TcpServer.DisciplinedHeld | Examples/Network/TCP_test.cpp:166-213 | In a disciplined log, accepts minus closes is 1 when a client is held and 0 otherwise |
| TcpServer.AtMostOneClient | Examples/Network/TCP_test.cpp:166-213 | At every prefix of a disciplined log, the number of clients held is 0 or 1 |
| TcpServer.AcceptPhaseKeepsInv | Examples/Network/TCP_test.cpp:166-173 | The accept half of an iteration keeps the invariant: log disciplined, flag and descriptor agree with the log |
| TcpServer.ReadPhaseKeepsInv | Examples/Network/TCP_test.cpp:193-227 | The read half of an iteration keeps the invariant: closes, reboots and replies concern only the held client |
| TcpServer.IterationKeepsInv | Examples/Network/TCP_test.cpp:163-229 | A whole pass of the loop body keeps the invariant |
| TcpServer.RunKeepsInv | Examples/Network/TCP_test.cpp:163-229 | Any number of passes keeps the invariant |
| TcpServer.SingleClient | Examples/Network/TCP_test.cpp:163-229 | Whatever accept and read return, a run from the start state never holds two clients at once |
| TcpServer.FirstCommandReboots | Examples/Network/TCP_test.cpp:44-225 | From the start state, a client that connects and sends "sudo reboot" without a NUL makes the server reboot, because the initial zero bytes terminate the command. The reply is still sent after the reboot and the client stays connected |
| TcpServer.StaleTailMasksCommand | Examples/Network/TCP_test.cpp:196-225 | After "hello world!", an exact "sudo reboot" payload leaves "sudo reboot!" in the buffer. It does not reboot and only gets the reply |
| TcpServer.TruncatedCommandReboots | Examples/Network/TCP_test.cpp:196-225 | After a "sudo reboot" that left byte 11 NUL, the truncated payload "sudo rebo" reboots again, using the stale "ot" and NUL |
| TcpServer.SecondPeerWaits | Examples/Network/TCP_test.cpp:166-213 | While a client is held, a pending peer is not accepted and the held client's end of stream closes it. On the next pass the pending peer is accepted and becomes the descriptor, whatever its first read returns; it stays held iff that read returns data |
| TcpServer.RebootsAppend | Examples/Network/TCP_test.cpp:221 | The number of reboots in a concatenation of logs is the sum of the numbers in each |
| TcpServer.Server.TryAccept | Examples/Network/TCP_test.cpp:166-173 | Updates flag, descriptor and log in place exactly as `AcceptPhase`, keeps the server valid and leaves the buffer untouched |
| TcpServer.Server.TryRead | Examples/Network/TCP_test.cpp:193-227 | Updates flag, buffer contents and log in place exactly as `ReadPhase`, and keeps the server valid |
| TcpServer.Server.Step | Examples/Network/TCP_test.cpp:163-229 | One pass of the loop body changes the state exactly as `Iteration` |
| TcpServer.Server.Serve | Examples/Network/TCP_test.cpp:163-229 | Running the loop over a sequence of events changes the state exactly as `Run`, and the server stays valid |
| TcpServer.Run | Examples/Network/TCP_test.cpp:163-229 | Running the loop body over any events keeps the buffer at 1024 bytes |
| Lm75a.BitOrBits | Examples/I2C_LM75A_test/I2C_LM75A_test.cpp:91 | Bit i of `a OR b` is set iff bit i of a or bit i of b is set |
| Lm75a.BitOrZero | Examples/I2C_LM75A_test/I2C_LM75A_test.cpp:91 | OR-ing zero into x gives x |
| Lm75a.BitOrBelowShift | Examples/I2C_LM75A_test/I2C_LM75A_test.cpp:91 | OR-ing a value below 2^k into `x << k` equals adding it |
| Lm75a.Shl | Examples/I2C_LM75A_test/I2C_LM75A_test.cpp:91 | Shifting right by k undoes shifting left by k |
| Lm75a.Shr | Examples/I2C_LM75A_test/I2C_LM75A_test.cpp:91 | `x >> k` is the floor of x divided by 2^k |
| Lm75a.ShrOfShl | Examples/I2C_LM75A_test/I2C_LM75A_test.cpp:91 | `(x * 2^k) >> k` is x |
| Lm75a.BitOr | Examples/I2C_LM75A_test/I2C_LM75A_test.cpp:91 | `a OR b` is at least each operand and at most their sum |
| Lm75a.RawWord | Examples/I2C_LM75A_test/I2C_LM75A_test.cpp:91 | The 16-bit word `(int)b0 << 8` OR `(int)b1` equals `256*b0 + b1`, which is below 65536 and so never overflows an int |
| Lm75a.TempCount | Examples/I2C_LM75A_test/I2C_LM75A_test.cpp:91 | The decoded count equals `2*b0 + b1/128` and lies in 0..511 |
| Lm75a.UndefinedBitsIgnored | Examples/I2C_LM75A_test/I2C_LM75A_test.cpp:91 | Two second bytes with the same bit 7 give the same count, so the undefined bits D0–D6 never matter |
| Lm75a.TopBit | Examples/I2C_LM75A_test/I2C_LM75A_test.cpp:12 | Bit 7 of a byte is set iff the byte is at least 128 |
| Lm75a.TempCountMonotonic | Examples/I2C_LM75A_test/I2C_LM75A_test.cpp:91 | The count never decreases as the 16-bit word `b0*256 + b1` grows |
| Lm75a.EncodeCount | Examples/I2C_LM75A_test/I2C_LM75A_test.cpp:9-12 | The register bytes for a count leave the undefined bits zero, so the second byte is 0x00 or 0x80 |
| Lm75a.CountRoundTrip | Examples/I2C_LM75A_test/I2C_LM75A_test.cpp:91-92 | Decoding the register bytes of any count 0..511 returns that count. A pair of bytes decodes to c iff its first byte is c/2 and its bit 7 is c mod 2, one LSB being half a degree |
| Lm75a.SignedCount | Examples/I2C_LM75A_test/I2C_LM75A_test.cpp:9-12 | The register read as the nine-bit two's complement value that the comment describes lies in -256..255 |
| Lm75a.NoSignExtension | Examples/I2C_LM75A_test/I2C_LM75A_test.cpp:91 | The decode equals the two's complement value when the first byte is below 0x80, and that value plus 512 otherwise. The count is ≥ 256 exactly when the first byte's top bit is set |
| Lm75a.MinusHalfDegreeReadsHot | Examples/I2C_LM75A_test/I2C_LM75A_test.cpp:91-92 | Register 0xFF80, which is -0.5 °C in two's complement, decodes to 511 half-degrees (255.5 °C) |
| Lm75a.PointerByte | Examples/I2C_LM75A_test/I2C_LM75A_test.cpp:35-37 | A register's pointer value uses only the select bits P0–P2, so it is below 8 |
| Lm75a.RegisterAt | Examples/I2C_LM75A_test/I2C_LM75A_test.cpp:35-37 | A pointer byte names the register whose pointer it is, and a byte that is none of 0x00, 0x01, 0x07 names no register |
| Lm75a.Encode | Examples/I2C_LM75A_test/I2C_LM75A_test.cpp:67-78 | A pointer-select frame is one byte and a register write is two. The first byte is the register's pointer and the second, if any, the value |
| Lm75a.DecodeEncode | Examples/I2C_LM75A_test/I2C_LM75A_test.cpp:67-78 | Every frame decodes back from its bytes |
| Lm75a.Decode | Examples/I2C_LM75A_test/I2C_LM75A_test.cpp:67-78 | Every byte string that decodes to a frame is exactly that frame's encoding |
| Lm75a.ProgramFrames | Examples/I2C_LM75A_test/I2C_LM75A_test.cpp:66-89 | The configuration write is `[0x01, 0x00]` and decodes to the power-up default. The ID read selects `[0x07]` and the temperature read selects `[0x00]` |
| Lm75a.DecodeConfig | Examples/I2C_LM75A_test/I2C_LM75A_test.cpp:15-25 | The fault-queue field of a configuration byte is below 4 |
| Lm75a.EncodeConfig | Examples/I2C_LM75A_test/I2C_LM75A_test.cpp:15-25 | A configuration encodes into the defined bits D0–D4 only (a value below 32) |
| Lm75a.ConfigRoundTrip | Examples/I2C_LM75A_test/I2C_LM75A_test.cpp:15-25 | Encoding then decoding a configuration gives it back. A byte with D5–D7 clear survives decoding then encoding |
| Lm75a.ConfigZeroIsDefault | Examples/I2C_LM75A_test/I2C_LM75A_test.cpp:66-68 | Among bytes with D5–D7 clear, 0x00 is the only one that decodes to the power-up default (all fields clear) |

## Left out

- Socket setup is not modelled: `socket`, `fcntl`, `bind`, `listen`, the port and the address structure are operating-system plumbing before the loop. The model starts from a listening server, and the early `return -1` paths are not represented.
- `accept`, `read`, `send` and `close` are not modelled as I/O. Their results come in as `Event` values and their effects go into the ghost log; only the result conventions are kept (accept ≥ 0, read ≤ 0 or 1..1024 bytes).
- The reboot (`system("sudo reboot")`) is a log entry only. Its real effect, ending the process some time later, is not modelled.
- All console output is left out: the `cout`/`cerr` lines, the peer address from `inet_ntoa`/`ntohs`, and the echo of the buffer at line 217. That echo reads past the buffer when a full 1024-byte read leaves no NUL in it.
- Signals raised by `send` are not modelled. Line 225 passes no `MSG_NOSIGNAL`, so a send to a peer that has reset the connection raises SIGPIPE, which by default ends the process. The model treats every send as returning.
- Blocking is not modelled. Whether `read` waits for data is invisible in a model driven by results.
- TcpServer.StrCmp: only whether the result is zero is specified. The model returns the difference of the first differing bytes, but the sign of a non-zero result is not stated, because the program only tests `== 0`.
- TcpServer.Initial: `clientSocket` is uninitialised in the program until the first `accept`. The model starts it at -1; it is never read before an accept assigns it.
- LM75A device I/O is not modelled: `open`, `ioctl(I2C_SLAVE)`, `read` and `write` on `/dev/i2c-1`, their error returns, the bus address 0x4A, and the `id` assignment after `close` at line 83.
- The float division `temp/2.0` at line 92 is not modelled. The model keeps the temperature in half-degree units, which is the integer count.
- `Libraries/ADS1X15-RPI/examples_RPI/ADS_read.cpp` is not part of this model. It is a read-and-print loop over the ADS1X15 library, which is outside this model, and its voltage factor is a float.
