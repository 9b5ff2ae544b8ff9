# CC3200 sample firmware: network time and HTTP GET, modelled in Dafny

This project models two sequential parts of the CC3200 sample firmware.

- **Network time** (`source/SampleProject/time.cpp`).
  - `getOfficialTime` builds the 48-byte NTP client request of RFC 5905 (section 7.3) in a buffer. It calls `parsePacket` at most 101 times, with at most 100 delays of 100 ms between the calls, and reads the transmit-timestamp seconds from bytes 40-43.
  - `getUnixTime` moves those seconds from the NTP epoch (1900) to the Unix epoch with `uint32_t` subtraction.
  - `getCurrentTime` turns the Unix seconds into the device's date-time record. It counts from 2000-03-01 (`LEAPOCH`), cuts the day count into 400-, 100-, 4- and 1-year cycles and walks a month table that starts in March.
- **HTTP GET** (`source/SampleProject/http.cpp`). `httpGetRequest` builds the request text. It then resolves the host, opens a TCP socket, sets a 45-second receive timeout, connects to port 80, sends the request and receives into a 1024-byte buffer. Every exit after the open goes through one `cleanup` label that closes the socket.

The files:

- `CArith.dfy`: the C integer semantics the code relies on.
  - Truncating `/` and `%` (`CDiv`, `CRem`); Dafny's own operators are Euclidean.
  - `uint32_t` wrap-around (`Sub32`), `<<` on `uint32_t` and bitwise OR.
  - The fixed-width types `byte`, `uint16`, `int16` and `uint32`.
- `Gregorian.dfy`: a reference proleptic Gregorian calendar, written independently of the firmware's method.
  - `IsCivilOf(t, unix)` says that `t` is the civil date-time of the Unix second `unix`: every field in range, the date exists, weekday and year-day agree, and the fields add up to `unix`.
  - `CivilUnique` shows that at most one `t` satisfies it.
- `Ntp.dfy`: `getOfficialTime` and `getUnixTime`.
  - The packet buffer is an `array` filled in place. The poll is a `while` loop.
  - The UDP socket is an oracle: `arrivals[k]` is what the k-th `parsePacket` reports, and `reply` is the datagram `read` copies.
- `Calendar.dfy`: `getCurrentTime`, statement by statement, as methods with the same branches and clamps, proved to return `IsCivilOf(t, unix)`. Several reference instants are pinned down as lemmas.
- `Http.dfy`: the request-text function and its parser, and a `Transport` class.
  - `Transport`'s fields are the socket state (unopened, open, closed), a close counter and the trace of calls made.
  - Its `HttpGetRequest` method follows the source step by step, with one exception: it tests the open result as a signed value, so a failed open returns at once. As written, the source stores that result in a `uint16_t` and its test never fires (see "## Findings"); `ProtocolAsWritten` models that behaviour. A labelled block stands for `goto cleanup`.
  - A `Replies` value gives each SimpleLink call's result. `Protocol` and `Outcome` state which calls are made and what is returned by the corrected request, the one with the signed open test; the lemmas about them prove the lifecycle properties over every combination of results. `ProtocolAsWritten` and `OutcomeAsWritten` state the same for the code as written, and the two agree whenever the open succeeds (`AsWrittenAgreesWhenOpened`).

## Model

| member | source | states |
|---|---|---|
| CArith.CDiv | source/SampleProject/time.cpp:65 | C's `/` on a negative dividend truncates toward zero: the remainder it leaves lies in (-b, 0] |
| CArith.CRem | source/SampleProject/time.cpp:66 | C's `%`: quotient times divisor plus remainder is the dividend, and the remainder takes the dividend's sign |
| CArith.Sub32 | source/SampleProject/time.cpp:60 | `uint32_t` subtraction: the exact difference when it is non-negative, otherwise the difference plus 2^32 |
| CArith.Shl32 | source/SampleProject/time.cpp:52 | `x << k` on a `uint32_t` is `x * 2^k` less a multiple of 2^32, so the bits past bit 31 are dropped; it is exactly `x * 2^k` when x fits in the low 32 - k bits |
| CArith.BitOr | source/SampleProject/time.cpp:52 | bitwise OR keeps every bit of both operands: the result is at least each operand and at most their sum |
| CArith.BitOrDisjoint | source/SampleProject/time.cpp:52 | OR-ing a value below 2^k into a number shifted left by k is addition, so `high << 16 \| low` is `high * 65536 + low` |
| Ntp.HeaderByte | source/SampleProject/time.cpp:29 | the first header byte packs leap indicator, version and mode, and each field decodes back |
| Ntp.RequestPacket | source/SampleProject/time.cpp:21-38 | the request is 48 bytes: byte 0 is 0xE3 (leap indicator 3, version 4, mode 3), bytes 1-3 are 0, 6, 0xEC, bytes 12-15 are '1', 'N', '1', '4', and every other byte is 0 |
| Ntp.FillRequest | source/SampleProject/time.cpp:26-38 | zeroing the buffer and storing the header bytes in place leaves exactly RequestPacket in it |
| Ntp.AwaitReply | source/SampleProject/time.cpp:44-47 | the poll loop stops after at most 100 delays (`retries` never below 0) and makes one poll more than delays, so at most 101; no poll before the stopping one found a datagram, and if the budget was not used up, the stopping poll did find one |
| Ntp.AfterRead | source/SampleProject/time.cpp:49 | `read` overwrites the buffer's first bytes with those of the datagram, at most 48 of them, and leaves the rest |
| Ntp.ReadReply | source/SampleProject/time.cpp:49 | the in-place copy leaves the buffer equal to AfterRead of its old contents |
| Ntp.Word | source/SampleProject/time.cpp:50-51 | `word(h, l)` is `h * 256 + l` |
| Ntp.TransmitSeconds | source/SampleProject/time.cpp:50-52 | the extracted seconds are `b40*2^24 + b41*2^16 + b42*2^8 + b43`, below 2^32 by their type |
| Ntp.UnixTime | source/SampleProject/time.cpp:59-61 | `ntp - 2208988800` on `uint32_t`: exact from 1970 on, wrapped by 2^32 before; adding the offset back modulo 2^32 recovers the input |
| Ntp.GetOfficialTime | source/SampleProject/time.cpp:19-57 | the datagram written is RequestPacket; the poll facts of AwaitReply hold, including one poll more than delays; the result is TransmitSeconds of the buffer after `read`, which is the big-endian value of reply bytes 40-43 when the reply has them |
| Ntp.GetUnixTime | source/SampleProject/time.cpp:59-61 | the result is UnixTime of the official seconds |
| Ntp.NoReplyTime | source/SampleProject/time.cpp:49-60 | when `read` copies nothing the buffer still holds the request, the seconds are 0 and the Unix time is 2085978496, not an error value |
| Gregorian.CivilUnique | source/SampleProject/time.cpp:130-139 | at most one date-time record is the civil date-time of a given second, so IsCivilOf determines the converter's output completely |
| Gregorian.DateUnique | source/SampleProject/time.cpp:134-136 | distinct valid dates have distinct day counts |
| Calendar.MarchTableSums | source/SampleProject/time.cpp:17 | the running sums of `days_in_month` from March reach 366, so a walk over at most 365 days stops inside the table |
| Calendar.MarchYearLeap | source/SampleProject/time.cpp:109 | the leap flag `!remyears && (q_cycles \|\| !c_cycles)` is the Gregorian leap rule for the year that starts in the cycles' last March |
| Calendar.LeapYearsBeforeMarchYear | source/SampleProject/time.cpp:12-14 | the cycle lengths count 97 leap days per 400 years, 24 per 100 years and 1 per 4 years |
| Calendar.MarchFirst | source/SampleProject/time.cpp:109-116 | the cycles' day count plus LEAPOCH is the Gregorian day number of March 1 of year `2000 + years` |
| Calendar.LeapDayExists | source/SampleProject/time.cpp:103-107 | when `remdays` is 365 (a February 29) the calendar year it falls in is a leap year |
| Calendar.MarchToDecember | source/SampleProject/time.cpp:119-128 | a table month from March to December is Gregorian month `months + 3` of the same year, with the source's year-day |
| Calendar.JanuaryFebruary | source/SampleProject/time.cpp:123-128 | the table's last two months are January and February of the next year |
| Calendar.CycleDateIsCivil | source/SampleProject/time.cpp:109-136 | the year, month, day and year-day assembled from the cycles and the month walk form a valid Gregorian date whose day number is LEAPOCH's plus `days` |
| Calendar.CivilFromParts | source/SampleProject/time.cpp:130-139 | a valid date with the right day number, weekday, year-day and clock fields is the civil date-time of the input |
| Calendar.TimeOfDay | source/SampleProject/time.cpp:131-133 | second and minute are in 0..59 and hour in 0..23, and together they make up the second of the day |
| Calendar.WeekDayFromLeapoch | source/SampleProject/time.cpp:73 | counting weekdays from LEAPOCH (a Wednesday, 3) agrees with counting from 1970-01-01 (a Thursday) |
| Calendar.WeekDayRemainder | source/SampleProject/time.cpp:75-77 | adding 7 to a negative truncated remainder gives the Euclidean remainder |
| Calendar.SplitDays | source/SampleProject/time.cpp:64-71 | `0 <= remsecs < 86400` and `days * 86400 + remsecs == unix - LEAPOCH`, with `days` between -11017 and 38693 for 32-bit inputs |
| Calendar.DayOfWeek | source/SampleProject/time.cpp:73-77 | the weekday is in 0..6, congruent to `3 + days` modulo 7, and is the Gregorian weekday of the date |
| Calendar.CycleDecomposition | source/SampleProject/time.cpp:79-107 | `0 <= c_cycles <= 3`, `0 <= q_cycles <= 24` (so the `q_cycles == 25` clamp never fires), `0 <= remyears <= 3`, `0 <= remdays <= 365` with 365 only on a February 29, and the cycles add back up to `days` |
| Calendar.WalkMonths | source/SampleProject/time.cpp:117-121 | the walk stops at a month inside the table, and the day left over lies within that month |
| Calendar.SecsToCivil | source/SampleProject/time.cpp:63-139 | the result is the civil date-time of the input in the Gregorian calendar; its weekday is in 0..6 and its year-day below the year's length |
| Calendar.GetCurrentTime | source/SampleProject/time.cpp:63-64 | getCurrentTime returns the civil date-time of getUnixTime's value |
| Calendar.UnixEpochAnchor | source/SampleProject/time.cpp:63-139 | second 0 is 1970-01-01T00:00:00, weekday 4, year-day 0 |
| Calendar.LeapochAnchor | source/SampleProject/time.cpp:11 | LEAPOCH (951868800) is 2000-03-01T00:00:00, weekday 3, year-day 60 |
| Calendar.RecentAnchor | source/SampleProject/time.cpp:63-139 | 1700000000 is 2023-11-14T22:13:20, weekday 2, year-day 317 |
| Calendar.LeapDay2000Anchor | source/SampleProject/time.cpp:63-139 | 951782400 is 2000-02-29, the leap day of a year divisible by 400 |
| Calendar.Century2100Anchor | source/SampleProject/time.cpp:63-139 | 4107456000 is 2100-02-28, weekday 0, year-day 58 |
| Calendar.Century2100NextDayAnchor | source/SampleProject/time.cpp:63-139 | the next day is 2100-03-01: 2100 has no February 29 |
| Calendar.NoReplyAnchor | source/SampleProject/time.cpp:63-139 | the time a missing reply produces, 2085978496, is 2036-02-07T06:28:16 |
| Http.BuildRequest | source/SampleProject/http.cpp:8-13 | the request is 22 characters longer than host and path together |
| Http.RequestLayout | source/SampleProject/http.cpp:8-13 | the request is `"GET " + path + " HTTP/1.1\nHost: " + host + "\n\n"`, part by part; it has a carriage return only if host or path brings one (bare line feeds) |
| Http.ExampleRequest | source/SampleProject/http.cpp:8-13 | host `example.com` and path `/x` give `GET /x HTTP/1.1\nHost: example.com\n\n` |
| Http.RequestRoundTrip | source/SampleProject/http.cpp:8-13 | for a path without spaces, parsing the request gives back the host and the path |
| Http.Protocol | source/SampleProject/http.cpp:24-83 | the calls made by the corrected request (signed open test): the resolve always comes first, the open follows exactly when the host resolved, and a close ends the trace exactly when the socket was opened |
| Http.Outcome | source/SampleProject/http.cpp:24-83 | the result of the corrected request (signed open test) is always one of the call results, and a non-negative result means every call succeeded and it is the received byte count |
| Http.StepsRun | source/SampleProject/http.cpp:48-77 | a step runs only if all steps before it succeeded; the steps stop at the first failure or after the last |
| Http.StepsRunAt | source/SampleProject/http.cpp:48-77 | exactly k steps run when the first k - 1 succeed and the k-th fails or is the last |
| Http.StepsRunFindsFirstFailure | source/SampleProject/http.cpp:48-83 | the last step run is the first failing one, or the receive when none fails |
| Http.OutcomeIsFirstFailure | source/SampleProject/http.cpp:24-83 | for the corrected request (signed open test), the result is the first negative result among resolution, open, set-timeout, connect, send and receive, or the received byte count; it is negative exactly when some call failed |
| Http.DnsFailureOpensNothing | source/SampleProject/http.cpp:24-28 | a negative resolver result is returned at once, with no socket opened and no close |
| Http.StepRunsIffEarlierSucceeded | source/SampleProject/http.cpp:47-77 | for the corrected request (signed open test), set-timeout, connect, send and receive are each made exactly when the socket was opened and every earlier step succeeded |
| Http.ClosedOnceWhenOpened | source/SampleProject/http.cpp:52-83 | an opened socket is closed once, by the last call |
| Http.CloseExactlyOnce | source/SampleProject/http.cpp:52-83 | for the corrected request (signed open test), the trace holds one close, as its last call, when the socket was opened, and none otherwise |
| Http.SuccessfulRequest | source/SampleProject/http.cpp:15-83 | when every call succeeds the calls are resolve, open (IPv4, stream, TCP), set a 45 s timeout, connect to port 80 of the resolved address, send the built request, receive with capacity 1024 and close; the result is the received byte count |
| Http.StoredHandleAsWritten | source/SampleProject/http.cpp:16 | storing the signed `sl_Socket` result in a `uint16_t` keeps a non-negative handle and turns a negative one into that value plus 65536 |
| Http.ProtocolAsWritten | source/SampleProject/http.cpp:16-83 | as written, once the host resolved, the trace always ends with a close of the stored `uint16_t` handle, whatever `sl_Socket` returned |
| Http.OutcomeAsWritten | source/SampleProject/http.cpp:16-83 | as written, a failed resolve returns its code, and otherwise the result is one of the four step results: the open's code is never returned |
| Http.FailedOpenReportsSuccessAsWritten | source/SampleProject/http.cpp:40-45 | as written, a failed open followed by successful steps returns the received byte count, which is non-negative, where the corrected request returns the open's negative code |
| Http.AsWrittenAgreesWhenOpened | source/SampleProject/http.cpp:16-83 | when `sl_Socket` succeeds, the code as written and the corrected request make the same calls and return the same result |
| Http.FailedOpenClosedAsWritten | source/SampleProject/http.cpp:40-45 | as written, every failed open, whatever the later results, leads to exactly one close, of the handle `result + 65536`, as the last call, where the intended request closes nothing |
| Http.OpenFailureUndetectedAsWritten | source/SampleProject/http.cpp:40-45 | as written, `socket_handle < 0` never holds: a failed open (-1) goes on to use and close handle 65535 |
| Http.OpenFailureClosesNothing | source/SampleProject/http.cpp:40-45 | with the handle read as signed, a failed open returns its code at once, after only resolve and open, with no close |
| Http.Transport.Resolve | source/SampleProject/http.cpp:24 | the resolver call is appended to the trace and its result returned |
| Http.Transport.CreateSocket | source/SampleProject/http.cpp:40 | `sl_Socket` is recorded, and the socket becomes open exactly when the result is non-negative |
| Http.Transport.Issue | source/SampleProject/http.cpp:48-72 | a call on the open socket is appended to the trace and its result returned |
| Http.Transport.CloseSocket | source/SampleProject/http.cpp:82 | closing is allowed only on the open socket; it becomes closed and the close counter goes up by one |
| Http.Transport.ExchangeAndClose | source/SampleProject/http.cpp:47-83 | the steps run are appended to the trace up to the first failure, then one close; the result is the last step's |
| Http.Transport.HttpGetRequest | source/SampleProject/http.cpp:7-84 | the corrected request, which tests the open result as signed: the result is Outcome, the calls made are Protocol, the socket is closed exactly once if it was opened, and otherwise it stays unopened with no close. The source as written is ProtocolAsWritten, which closes handle `result + 65536` after a failed open |

## Left out

- `source/SampleProject/wifi.cpp` and `source/SampleProject/accelerometer.cpp` are not part of this model. They are hardware and Wi-Fi I/O with no logic to state.
- `setCurrentTime` (time.cpp:142-145) only hands getCurrentTime's record to `sl_DevSet`, a device call. The model stops at that record.
- I/O is left out. This covers the UDP socket set-up and tear-down (`begin`, `beginPacket`, `endPacket`, `stop`), the local port 2390, the server port 123, the time server address 129.6.15.29, `delay(100)` and `Serial.println`.
  - The bytes written are exposed as GetOfficialTime's `sent`.
  - The number of delays is exposed as `waits`, and AwaitReply also counts the polls.
- What `read` copies is an oracle, `reply`. The library's behaviour when no datagram arrived is not modelled. NoReplyTime states the consequence for the case where `read` copies nothing.
- The SimpleLink calls are oracles. Their internals are not modelled.
  - The resolver, socket, option, connect, send, receive and close calls are given by `Replies`.
  - The contents of the receive buffer and of the HTTP response are not modelled.
  - `Serial.println(receive_msg_buffer)` is not modelled. Neither is whether that buffer is NUL-terminated.
  - The byte order set by `sl_Htons` and `sl_Htonl` is not modelled. The address is recorded as port 80 and the resolved 32-bit address.
- The secure-socket method declared at http.cpp:21 is never applied, and no TLS path is modelled.
- The request is a `seq<char>`: `String` allocation and `c_str()` are not modelled.
- Notes on the code where its comments or its obvious reading differ from what it does:
  - Byte 0 is `0b11100011`, that is leap indicator 3 (clock not synchronised), version 4, mode 3. It is not leap indicator 0.
  - Bytes 12-15 are the characters `1N14`.
  - `getOfficialTime` has no error path: with no reply it still extracts bytes 40-43 from the buffer.
  - After the cycle decomposition, `remdays < 365 + leap` does not hold on a February 29. There `remdays` is 365 while `leap` is 0, because `leap` describes the year that starts in March, and the February belongs to the next year. CycleDecomposition states the bound that holds: at most 365, and 365 only on that day.

## Findings

| source | as written | input that shows it | evidently intended | confidence | as-written member | corrected member |
|---|---|---|---|---|---|---|
| source/SampleProject/http.cpp:40-45 | `socket_handle` is declared `uint16_t` (line 16), so the test `socket_handle < 0` after `sl_Socket` can never be true | `sl_Socket` returns -1 (resolution succeeded, later calls succeed): the handle becomes 65535, the function sets options on it, connects, sends, receives and finally calls `sl_Close(65535)`, although no socket was opened | a negative `sl_Socket` result is returned at once, with no further socket call and no close | high; not executed | Http.FailedOpenClosedAsWritten | Http.OpenFailureClosesNothing |
| source/SampleProject/http.cpp:42-44 | the same dead test means the open's error code is never returned: `success` keeps the last step's result and line 83 returns it | `sl_Socket` returns -1 while resolution, set-timeout, connect, send and receive succeed: the function returns the received byte count, so the caller sees success | the negative `sl_Socket` result is returned | high; not executed | Http.FailedOpenReportsSuccessAsWritten | Http.OpenFailureClosesNothing |
