# sensai-hardware acquisition and actuation core, in Dafny

This project models the part of sensai-hardware that sits between the
hardware and the web layer, and proves properties of the model:

- **DS18B20 reader** (`server/services/temperature_sensor.py`), in
  `temperature_sensor.dfy` with the string helpers in `text.dfy`.
  - Device lookup takes the first entry of `/sys/bus/w1/devices/` that matches
    `28*` and appends `/w1_slave`.
  - The raw read fails with "Temperature sensor not found" when the lookup
    finds nothing.
  - The readiness loop re-reads while the stripped first line does not end in
    `YES`.
  - The temperature is the text after the first `t=` on the second line. It is
    converted from milli-degrees to Celsius and Fahrenheit, and each is
    rounded to two decimals.
  - The loop is the method `ReadTemp`. It runs over a finite sequence of
    reads, and each element is what one `_read_temp_raw` call returns or raises
    (`ReadTempRaw` of the directory listing and file contents at that moment).
- **Write-then-verify store** (`server/services/temperature_db.py`), in
  `temperature_db.dfy`.
  - The database client is a function parameter from the insert request to
    what executing it gave.
  - Only the first returned row is examined. It must validate as a reading and
    lie strictly within 0.01 of what was sent, in both scales.
- **Polling loop** (`server/services/monitor.py`, `background_monitor`), in
  `monitor.dfy`.
  - A method runs one cycle per entry of a finite script of read and store
    outcomes, and records a trace of events: read, store, warning, caught
    exception, sleep.
  - Lemmas over the trace state failure isolation for `Exception`s, ordering,
    and how many events of each kind every cycle has.
- **Relay** (`server/services/relay_controller.py`), in `relay_controller.dfy`.
  - A class holds gpiozero's logical value and a ghost history of the
    `on()`/`off()` calls that took effect.
  - `control_relay(True)` calls `off()` and reports "ON", and
    `control_relay(False)` calls `on()` and reports "OFF". The inversion is
    modelled exactly.
- **Relay request handler** (`server/api/relay.py`, `set_relay_state`), in
  `relay_api.dfy`. It switches the relay off, applies the requested state and
  checks the result.

Python floats are exact reals here. Python's `round` is round-half-to-even on
the exact value. `float()` is restricted to integer text with optional sign and
surrounding whitespace, which is what the sensor writes. Whitespace comes in two
sets: `str.strip()` removes everything `str.isspace` accepts, while `float()`
leaves the ASCII separators U+001C-U+001F in place and then rejects the text.

Three behaviours of the code a reader might not expect:

- Fahrenheit is computed from the unrounded Celsius value and then rounded. It
  is not the rounded conversion of the rounded Celsius value.
  `TemperatureSensor.FahrenheitFromUnroundedCelsius` shows the two differ at
  `t=25005`.
- An empty frame, or a ready frame with one line, raises IndexError, not the
  "Invalid temperature data" error.
- The "force off" call at the start of every relay request is
  `control_relay(False)`, which calls `relay.on()`.

## Model

| member | source | states |
|---|---|---|
| TemperatureSensor.Glob | server/services/temperature_sensor.py:23-25 | no more matches than entries; none exactly when no entry matches `28*`; otherwise the first is the devices directory joined to the first matching entry of the listing |
| TemperatureSensor.GlobMembers | server/services/temperature_sensor.py:23-25 | a path is among the matches exactly when it is the devices directory joined to a listed entry that starts with `28` |
| TemperatureSensor.GlobInListingOrder | server/services/temperature_sensor.py:23-25 | the matches keep the listing's order: matching a listing in two parts gives the first part's matches, then the second's |
| TemperatureSensor.LocateDevice | server/services/temperature_sensor.py:16-30 | None exactly when no entry matches `28*`; otherwise the first match with `/w1_slave` appended |
| TemperatureSensor.ReadTempRaw | server/services/temperature_sensor.py:33-48 | fails with SensorNotFound exactly when the lookup gives None; when the located file exists, the result is exactly its lines |
| TemperatureSensor.ReadyIffMarkerBeforeSpace | server/services/temperature_sensor.py:62 | a first line passes the loop test exactly when `YES` is followed by nothing but whitespace |
| TemperatureSensor.ReadyHasMarker | server/services/temperature_sensor.py:62 | a ready line has `YES` right before its trailing whitespace |
| TemperatureSensor.MarkerIsReady | server/services/temperature_sensor.py:62 | `YES` followed only by whitespace passes the loop test |
| TemperatureSensor.TempField | server/services/temperature_sensor.py:65-67 | None exactly when the line has no `t=`; otherwise the suffix that starts right after the first `t=` |
| TemperatureSensor.RoundHalfEven | server/services/temperature_sensor.py:71 | the result is within one half of the input, and even on a tie |
| TemperatureSensor.RoundHalfEvenUnique | server/services/temperature_sensor.py:71 | those two properties determine the rounding: any integer that has them is the result |
| TemperatureSensor.Round2 | server/services/temperature_sensor.py:71 | `round(x, 2)` is a whole number of hundredths within half a hundredth of `x`, with an even number of hundredths on a tie |
| TemperatureSensor.Round2Unique | server/services/temperature_sensor.py:71 | those properties determine `round(x, 2)`: any value that has them is the result |
| TemperatureSensor.FromMilli | server/services/temperature_sensor.py:68-71 | Celsius is milli/1000 and Fahrenheit is its unrounded conversion milli/1000·9/5+32, each rounded to two decimals half to even: whole hundredths, within half a hundredth, even on a tie |
| TemperatureSensor.FromMilliExample | server/services/temperature_sensor.py:68-71 | `t=25500` gives (25.5, 77.9) |
| TemperatureSensor.FahrenheitFromUnroundedCelsius | server/services/temperature_sensor.py:69-71 | `t=25005` gives (25.0, 77.01), while converting the returned 25.0 would give 77.0 |
| TemperatureSensor.ParseFrame | server/services/temperature_sensor.py:65-74 | IndexError exactly when the frame has fewer than two lines; "Invalid temperature data" exactly when line 2 has no `t=`; a malformed number exactly when the text after the first `t=` is not a numeral; otherwise the reading of that numeral |
| TemperatureSensor.Examine | server/services/temperature_sensor.py:62 | an empty frame raises IndexError; otherwise the loop waits exactly while the first line is not ready, and a frame whose first line is ready is passed on as it is |
| TemperatureSensor.FirstSettled | server/services/temperature_sensor.py:62-64 | the index of the first read that ends the wait: all earlier reads leave it waiting |
| TemperatureSensor.FirstSettledAt | server/services/temperature_sensor.py:62-64 | a read preceded only by waiting reads, that does not wait itself, is the first to settle |
| TemperatureSensor.FirstSettledFrame | server/services/temperature_sensor.py:61-74 | the read after only waiting reads that does not wait is the first to end the wait; its result is its own error when it raised, IndexError when it gave no lines, and otherwise its first line is ready and the result is the parse of its lines |
| TemperatureSensor.SettledAttempt | server/services/temperature_sensor.py:61-65 | one read that does not leave the loop waiting yields its error, IndexError for no lines, or the parse of lines whose first line is ready |
| TemperatureSensor.ReadTemp | server/services/temperature_sensor.py:61-74 | the result is the outcome of the first read that does not wait, and exactly that many reads are made; the reads run out exactly when every read waits |
| TemperatureSensor.DecodesWellFormedFrame | server/services/temperature_sensor.py:61-71 | a kernel-style frame (`...YES` and `...t=<value>`, with trailing whitespace that `strip()` and `float()` respectively remove) is ready and decodes to the reading of its value |
| TemperatureSensor.SecondLineParses | server/services/temperature_sensor.py:65-71 | a second line with `t=` after text without `t=`, then an integer and whitespace that `float()` strips, parses to that integer's reading |
| TemperatureSensor.SeparatorAfterValueIsMalformed | server/services/temperature_sensor.py:65-68 | an ASCII separator U+001C-U+001F after the value makes the frame a malformed number |
| Text.StripIsTrimmedSlice | server/services/temperature_sensor.py:62 | `strip()` is a contiguous slice with only whitespace cut on either side, and does not start or end with whitespace; this holds for `str.strip()`'s set and for `float()`'s |
| Text.Find | server/services/temperature_sensor.py:65 | `find` gives -1 exactly when the pattern does not occur, otherwise its first occurrence |
| Text.FindAfterPrefix | server/services/temperature_sensor.py:65 | `t=` after a prefix without `t=` is found at the end of that prefix |
| Text.ParseInt | server/services/temperature_sensor.py:68 | a value exactly when the text, stripped of the whitespace `float()` accepts, is an optional sign followed by decimal digits; a negative value only with a leading minus |
| Text.ParseShowInt | server/services/temperature_sensor.py:68 | `float()` of a formatted integer with whitespace it strips on either side, such as the trailing newline, gives the integer back |
| Text.ParseSignedDigits | server/services/temperature_sensor.py:68 | `float()` of whitespace it strips, an optional `+` or `-`, a non-empty run of digits and more such whitespace gives the digits' value, negated after a minus |
| Text.SignedNumeral | server/services/temperature_sensor.py:68 | an optional sign before digits is integer text with no whitespace at either end, worth the digits' value negated after a minus |
| Text.ParseZeroPadded | server/services/temperature_sensor.py:68 | leading zeros after the optional sign do not change the value `float()` gives |
| Text.LeadingZeros | server/services/temperature_sensor.py:68 | zeros in front of a run of digits leave it a run of digits of the same value |
| Text.SeparatorRejected | server/services/temperature_sensor.py:68 | a formatted integer followed by U+001C-U+001F is rejected by `float()`, while `str.strip()` would remove that character |
| Text.DigitsValueOfShowNat | server/services/temperature_sensor.py:68 | decimal digits read back to the number they were formatted from |
| TemperatureDb.InsertFor | server/services/temperature_db.py:34-35 | exactly the record {celsius, fahrenheit} goes to table `temperature_readings` |
| TemperatureDb.Validate | server/services/temperature_db.py:38 | a reading exactly when both columns are present and numeric, holding those two values; other columns are ignored |
| TemperatureDb.Verify | server/services/temperature_db.py:36-58 | a reading is returned exactly when execution gave rows and the first validates and is strictly within 0.01 in both scales, and it is that stored row |
| TemperatureDb.StoreTemperature | server/services/temperature_db.py:19-58 | a returned reading is always within 0.01 of the values given, in both scales |
| TemperatureDb.ValidateSentRecord | server/services/temperature_db.py:34-38 | the record sent validates as the reading sent |
| TemperatureDb.EchoedRowVerifies | server/services/temperature_db.py:34-46 | a database that echoes the stored row, with extra columns and later rows, makes the store return the values sent |
| TemperatureDb.NothingBackGivesNone | server/services/temperature_db.py:53-58 | an exception, a response without data and an empty list of rows each give None |
| TemperatureDb.OnlyFirstRowMatters | server/services/temperature_db.py:37 | rows after the first never change the result |
| TemperatureDb.OffByToleranceFails | server/services/temperature_db.py:39-52 | a stored value off by exactly 0.01 in either scale gives None: the comparison is strict |
| TemperatureDb.WithinToleranceVerifies | server/services/temperature_db.py:39-46 | a stored row strictly within 0.01 in both scales is returned as stored, not as sent |
| TemperatureDb.InvalidRowGivesNone | server/services/temperature_db.py:38 | a first row with a missing or non-numeric Celsius column gives None, whatever follows |
| Monitor.StoreArgs | server/services/monitor.py:44-47 | a tuple is spread into positional arguments; any other result is the single argument |
| Monitor.CycleEvents | server/services/monitor.py:29-54 | a cycle has three or four events, opens with the read and closes with the sleep, and all its events carry its number |
| Monitor.CountInCycle | server/services/monitor.py:29-54 | a cycle has one read and one sleep, one store exactly when the read returned, one logged exception exactly when a call raised, one warning exactly when the store returned a falsy value |
| Monitor.CountInTrace | server/services/monitor.py:28-54 | in the whole trace, each cycle has exactly those counts of each kind of event |
| Monitor.ReadOnceStoreAtMostOnce | server/services/monitor.py:33-47 | in the whole trace, each cycle calls the read function exactly once and the store function at most once |
| Monitor.RaiseThenReturnStoresOnce | server/services/monitor.py:28-54 | a read that raises in the first cycle and returns in the second: both cycles read and sleep once, and the store runs exactly once, in the second cycle |
| Monitor.RunCycle | server/services/monitor.py:29-54 | one pass of the loop body produces exactly that cycle's events |
| Monitor.BackgroundMonitor | server/services/monitor.py:28-54 | the loop's trace is the cycles' events, in script order |
| Monitor.InTraceIff | server/services/monitor.py:28-54 | an event is in the trace exactly when its cycle was run and that cycle produced it |
| Monitor.TraceInCycleOrder | server/services/monitor.py:28-54 | cycles are strictly sequential: no event of a later cycle comes before an event of an earlier one |
| Monitor.EveryCycleReadsAndSleeps | server/services/monitor.py:51-54 | every cycle reads and sleeps, so an `Exception` raised by either call never ends the loop |
| Monitor.StoreIffReadReturned | server/services/monitor.py:33-47 | the store is called in a cycle exactly when the read returned, and with the read's arguments |
| Monitor.FailedIffRaised | server/services/monitor.py:29-52 | an exception is logged in a cycle exactly when the read raised or the store raised |
| Monitor.UnverifiedIffFalsy | server/services/monitor.py:49-50 | the warning is logged exactly when the store ran and returned a falsy value |
| RelayController.LastCallWins | server/services/relay_controller.py:52-57 | after any non-empty series of calls the logical value is the one the last call sets |
| RelayController.RepeatedCallIdempotent | server/services/relay_controller.py:52-57 | repeating a call leaves the value unchanged |
| RelayController.CommandFor | server/services/relay_controller.py:52-57 | the call `control_relay(state)` makes sets the logical value to the negation of `state` |
| RelayController.ControlResponse | server/services/relay_controller.py:51-59 | the status is never empty and is "success" exactly when the driver did not raise; "state" is "ON" exactly for True; an error carries the exception's message |
| RelayController.ReportedStateInverted | server/services/relay_controller.py:52-57 | on success the reported state is "ON" exactly when the device's logical value is off afterwards |
| RelayController.Relay.constructor | server/services/relay_controller.py:30-36 | the device starts logically off, after one `off()` call |
| RelayController.Relay.Switch | server/services/relay_controller.py:53-56 | `on()`/`off()` sets the logical value and is recorded; a driver exception is passed back |
| RelayController.Relay.ControlRelay | server/services/relay_controller.py:39-59 | returns the response dictionary; on success records the call and leaves the value `!state`; a driver exception never propagates |
| RelayApi.CheckResult | server/api/relay.py:28-31 | raises HTTP 500 with the message exactly when the status is falsy, otherwise returns the dictionary |
| RelayApi.SetRelayState | server/api/relay.py:19-31 | the driver sees `on()` then the requested call; the response is the second call's dictionary; the final value depends only on the requested state |
| RelayApi.CheckNeverFires | server/api/relay.py:28-31 | whatever the driver does, the handler returns `control_relay`'s dictionary, an error one included |
| RelayApi.CheckResultIntended | server/api/relay.py:28-29 | the intended check: HTTP 500 with the message exactly when the status is not "success" |
| RelayApi.IntendedCheckReportsFaults | server/api/relay.py:28-29 | with the intended check a driver failure becomes HTTP 500 with its message, and success returns the dictionary |

## Left out

- `lifespan` (server/services/monitor.py:57-81): asyncio task creation, cancellation and awaiting. Its point is concurrency.
- The sleeps (`time.sleep(0.2)` in the readiness loop, `asyncio.sleep` in the monitor). They are comments in the loop bodies and an event in the monitor trace. Timing is not modelled.
- The lgpio monkey patch and pin factory (server/services/relay_controller.py:17-25,34). They are hardware library internals, and the pin voltage is not modelled.
- The `__main__` example blocks, logging, and all log-message strings.
- Real `glob` and `open` I/O. The directory listing and file contents are inputs.
- server/db/supabase_client.py (client construction and transport) is not part of this model. The insert's outcome is a function parameter.
- server/api/temperature.py, the pydantic models beyond the two numeric fields, the startup scripts and the tests are not part of this model.
- TemperatureSensor.ReadTemp: the source loop is unbounded. The model reads from a finite sequence and ends with FramesExhausted when every read waits, which the source never does.
- TemperatureSensor.ReadTemp: the reads are given as what `_read_temp_raw` returns or raises. Linking them to the directory tree is `ReadTempRaw`, stated separately.
- TemperatureSensor.ReadTempRaw: an unreadable device file is a single DeviceUnreadable error. The kinds of OSError are not distinguished.
- Text.ParseInt: accepts only an optional sign and decimal digits between whitespace. Decimals, exponents, underscores, inf/nan and non-ASCII digits, which `float()` also accepts, are not modelled. The kernel writes an integer.
- Monitor.BackgroundMonitor: only `Exception` subclasses are caught. A `BaseException` that is not one (KeyboardInterrupt, SystemExit, asyncio's CancelledError) raised in the read or store function ends the loop; the model has no such outcome.
- TemperatureSensor.Round2: rounds the exact value half to even. Python rounds the binary float, which can differ near ties. The model does not capture binary-float error.
- TemperatureDb.Validate: a column value is either a number the validator accepts or not. Pydantic's coercion of strings and booleans to float is folded into that choice.
- RelayController.Relay.Switch: a driver exception is assumed to leave the logical value unchanged. What gpiozero does on a failed write is not visible.

## Findings

| source | as written | input that shows it | evidently intended | confidence | as-written member | corrected member |
|---|---|---|---|---|---|---|
| server/api/relay.py:28 | `if not result["status"]` raises HTTP 500 only for a falsy status, and `control_relay` always returns "success" or "error" | a request with `state: true` whose `relay.off()` raises: the handler returns `{"status": "error", "message": ...}` as an ordinary response | raise HTTP 500 with the message whenever the status is not "success" | medium, not executed | RelayApi.CheckNeverFires | RelayApi.CheckResultIntended |
