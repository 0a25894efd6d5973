# ApolloOS (Serbian eID) card driver — Dafny model

A model of OpenSC's driver for the ApolloOS card used by the Serbian
electronic identity document. The driver adapts two ISO/IEC 7816-4 commands:
READ BINARY (INS `B0`, section 7.2.3 of ISO/IEC 7816-4:2005) and GET DATA
(INS `CA`, section 7.4.2). The card prefixes every transparent file with a
6-byte header. Bytes 4 and 5 of that header hold the content size,
little-endian. The driver therefore:

- probes that header after every successful selection and caches the size in
  `file_s`;
- classifies a file as a DF or a transparent working EF from its name length,
  and re-probes the size of EFs;
- clamps every read to the cached size and shifts its offset past the header;
- fetches the card's serial number once and caches it for the session.

Files:

- `iso7816.dfy`: module `Iso7816`. Bytes, the short case-2 command, the
  transport's answer, the receive buffer after an exchange, and the meaning of
  P1-P2 in READ BINARY. Also a stock `Option` in module `Wrappers`.
- `apolloos.dfy`: module `ApolloOs`. The pure part:
  - the read clamp (`ReadPlan`) and the command it builds (`ReadCommand`);
  - the size probe (`ProbeSize`) and its inverse (`SizeHeader`);
  - a whole read as a value (`ReadBinaryOutcome`);
  - one serial-number query (`GetSerialStep`) and runs of queries
    (`SerialSession`);
  - lemmas about all of these.
- `driver.dfy`: module `ApolloOsDriver`. Three classes:
  - `Driver` holds `file_s`. It is a static variable in C, so one object is
    shared by every card.
  - `Card` holds `serialnr` and `max_recv_size`.
  - `File` holds the fields of `sc_file` that the metadata override writes.

  Each override is a method whose contract ties the new state and the result
  to the functions of `ApolloOs`.

No card is simulated: each exchange is a parameter, the `Response` the
card gives to the command the method sends. That response holds the
transport's result code, SW1-SW2 and the data bytes. Each method also returns
`sent`, the list of commands it put on the wire. The status-word mapping
`sc_check_sw` is a function-typed field of `Card`, `checkSw`. The driver never
checks how many bytes a probe or a GET DATA returned. So the model takes as a
parameter what the fixed-size receive buffer held before the exchange
(`stale`), and `Received` overlays the card's bytes on it.

Behaviour kept as the code has it:

- A probe whose transport fails returns the negative error converted to a
  64-bit `size_t` (2^64 + error), not 0 (src/libopensc/card-apolloos.c:121).
  Only a bad status word gives 0 (src/libopensc/card-apolloos.c:124-125).
  `ProbeFailureDisablesClamp` shows the consequence: until a later successful
  selection overwrites `file_s` (src/libopensc/card-apolloos.c:145), every read
  of at most 255 bytes is sent unclamped.
- A probe answer shorter than 6 bytes with a good status word is not
  rejected: the size comes from whatever the receive buffer already held
  (`ShortProbeReadsStaleBytes`).
- A read at a non-zero offset equal to the cached size with count 0 is not
  short-circuited. It sends READ BINARY with Le = 0.
- `idx + 6` is computed in an `unsigned int`, and only its low 16 bits reach
  P1-P2. Nothing checks the 15-bit offset limit. `OffsetLimitReachable` shows
  a 40000-byte file in which an in-file read sets bit 8 of P1.
- `count + idx` is a `size_t` sum. Its wrap-around is written out in
  `ReadPlan`.
- A successful GET DATA overwrites only the first 16 bytes of the cached
  value. The copy returned to the caller is the whole `sc_serial_number`.

Constants taken from OpenSC headers that are not part of this model:
- `SC_ERROR_NOT_SUPPORTED` = -1408;
- `SC_CARDCTL_GET_SERIALNR` = 5;
- `SC_MAX_SERIALNR` = 32.

`size_t` is taken as 64 bits and `int` and `unsigned int` as 32 bits.

## Model

| member | source | states |
|---|---|---|
| `ApolloOs.ReadPlan` | src/libopensc/card-apolloos.c:205-213 | At offset 0 the count becomes min(count, file_s). A read that is sent never asks for more than requested and, without wrap-around, stays inside the cached size with the longest count that does. Nothing is sent exactly when a non-zero offset is at or past the end with something left to request. A zero count at the end is still sent. With `size_t` wrap-around the count is never clamped. |
| `ApolloOs.ReadCommand` | src/libopensc/card-apolloos.c:216-218 | The command is READ BINARY with Le equal to the effective count. |
| `ApolloOs.ReadCommandAddress` | src/libopensc/card-apolloos.c:214-216 | P1-P2 encode (idx + 6) mod 2^16. Bit 8 of P1 is set, so under ISO 7816-4 P1 names a short EF identifier and P1-P2 is no 15-bit offset, exactly when that value is 0x8000 or more. Below 0x8000 - 6 the addressed offset is exactly idx + 6. |
| `ApolloOs.ProbeSize` | src/libopensc/card-apolloos.c:114-130 | A transport error becomes the size 2^64 + error, which is at least 2^64 - 2^31. A bad status word gives 0. A good one gives a size below 2^16. The result always fits a `size_t`. |
| `ApolloOs.SizeHeader` | src/libopensc/card-apolloos.c:127 | Encodes a size into a 6-byte header, keeping the four leading bytes: byte 4 is the size mod 256 and byte 5 the size div 256. |
| `ApolloOs.ShortProbeReadsStaleBytes` | src/libopensc/card-apolloos.c:120-127 | With a good status word and an answer of at most 4 bytes, the probed size is read from bytes 4 and 5 of the receive buffer as they were before the exchange. |
| `ApolloOs.ProbeReadsHeaderSize` | src/libopensc/card-apolloos.c:114-127 | With a good status word, probing a header that stores size n yields n, whatever the stale receive buffer held. |
| `ApolloOs.HeaderOfProbedSize` | src/libopensc/card-apolloos.c:127 | The first 6 bytes of any answer at least 6 bytes long are exactly the header of the size the probe decodes from it. |
| `ApolloOs.FiveByteProbeMixesBytes` | src/libopensc/card-apolloos.c:120-127 | With a good status word and a 5-byte answer, the probed size is the stale byte 5 of the receive buffer times 256 plus the card's byte 4. |
| `ApolloOs.ProbeFailureDisablesClamp` | src/libopensc/card-apolloos.c:120-121 | After a probe whose transport fails, a read of at most 255 bytes at any offset is sent with its full count. |
| `ApolloOs.OffsetLimitReachable` | src/libopensc/card-apolloos.c:208-216 | A 40000-byte file read at offset 32762 passes the clamp, yet its command has bit 8 of P1 set. |
| `ApolloOs.SixteenByteFile` | src/libopensc/card-apolloos.c:205-216 | A header ending in 10 00 gives size 16. A 20-byte read at offset 10 is cut to 6 bytes and sent as B0 00 10 with Le 6. |
| `ApolloOs.ReadBinaryOutcome` | src/libopensc/card-apolloos.c:205-229 | A command is sent unless the clamp skips, and then it is the clamped READ BINARY. A skip returns 0 and copies nothing. Copied bytes are a prefix of the card's data, at most `count` of them, and, without wrap-around of `count + idx`, within the cached size. A sent read whose transport succeeds copies exactly min(answer length, effective count) bytes of the answer. A non-empty copy returns its length. With nothing copied, a sent command returns the transport error or else `sc_check_sw` of SW1-SW2. |
| `Iso7816.Received` | src/libopensc/card-apolloos.c:116-120 | The receive buffer after an exchange keeps its length. It holds the card's bytes where the card sent some and the old contents elsewhere. |
| `Iso7816.OffsetOf` | src/libopensc/card-apolloos.c:216 | A READ BINARY P1-P2 names a 15-bit offset exactly when bit 8 of P1 is 0. |
| `ApolloOs.GetSerialStep` | src/libopensc/card-apolloos.c:73-92 | GET DATA 01 01 with Le 32 is sent only while the cache is empty. A query succeeds exactly when the cache ends up filled, and a cached value is kept. On an empty cache the query succeeds exactly when the transport succeeds and `sc_check_sw` gives success. A failure returns the transport error or the status verdict and changes nothing. A fresh success stores the first 16 bytes of the receive buffer, stale where the card sent fewer, with length 16. Every success copies the cache out when asked. |
| `ApolloOs.SerialSession` | src/libopensc/card-apolloos.c:73-92 | A run of queries gives one outcome per query, and every cached value keeps the 32-byte capacity. |
| `ApolloOs.CachedSerialIsFinal` | src/libopensc/card-apolloos.c:73-87 | Once a serial number is cached, every later query sends nothing, succeeds and leaves the cache as it was. |
| `ApolloOs.SerialFetchedOnce` | src/libopensc/card-apolloos.c:73-92 | In any run of queries, after the first success no query sends a command, and all later ones succeed with the same serial number. Any query that sends GET DATA comes before every success, on a card that started empty. |
| `ApolloOsDriver.Driver.constructor` | src/libopensc/card-apolloos.c:48 | The cached file size starts at 0. |
| `ApolloOsDriver.Driver.SelectFile` | src/libopensc/card-apolloos.c:133-148 | The base select's result is returned. On failure the cached size is unchanged and nothing is sent. On success the override sends one probe and its size overwrites the cache. |
| `ApolloOsDriver.Driver.ProcessFci` | src/libopensc/card-apolloos.c:150-186 | The base decoder's result is returned, and on failure the file is unchanged. A named file becomes DF / EF_UNKNOWN with its size untouched. An unnamed file becomes WORKING_EF / TRANSPARENT with its size from a fresh probe. The cached size is never written. |
| `ApolloOsDriver.Driver.ReadBinary` | src/libopensc/card-apolloos.c:188-230 | The result and commands sent are those of `ReadBinaryOutcome`. The caller's buffer receives exactly the copied bytes at its start, and the rest of it is unchanged. |
| `ApolloOsDriver.Driver.GetSerialNr` | src/libopensc/card-apolloos.c:60-93 | The result, new cache, copy and commands are those of `GetSerialStep` from the old cache. |
| `ApolloOsDriver.Driver.CardCtl` | src/libopensc/card-apolloos.c:95-102 | GET_SERIALNR behaves as `GetSerialNr`. Any other command returns NOT_SUPPORTED, sends nothing and changes nothing. |
| `ApolloOsDriver.Driver.Init` | src/libopensc/card-apolloos.c:233-248 | `max_recv_size` becomes 255, and the result, cache and commands are those of one serial query with no output buffer. |
| `ApolloOsDriver.SelectTwiceThenRead` | src/libopensc/card-apolloos.c:141-147 | After two successful selections, the cache holds the second file's probed size, and the read's result and commands are those of a read clamped against it. |

## Left out

- Card matching (`apolloos_match_card`): it only calls OpenSC's ATR matcher, which is not part of this model.
- Driver registration (`sc_get_driver`, `sc_get_apolloos_driver`) and the copying of the ISO operations table: plain wiring, no logic.
- `apolloos_finish`: it does nothing and returns success.
- The bodies of the ISO `select_file` and `process_fci`: they are external. Their results are parameters, and the `File` passed to `ProcessFci` already holds what the ISO decoder wrote into it. The `file_out` of a selection is passed through untouched and is not modelled.
- `sc_transmit_apdu`, `sc_format_apdu` and the status-word mapping are not modelled. Each exchange is its answer, given as a parameter, and the mapping is the `checkSw` function. The transport is taken to write at most Le bytes into the receive buffer and to leave the rest of it as it was.
- Logging macros: only their return behaviour is kept. A failure return happens for a negative code, and any other code goes on.
- The unused `flags` argument of `apolloos_read_binary`.
- The zeroed `sc_card` that OpenSC allocates when a card connects: the model starts a `Card` with an empty, zeroed serial number. That allocation is not part of this model.
- Concurrency: `file_s` is shared by all cards with no locking. The model shares one `Driver` object but has a single caller.
