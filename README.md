# Real-time database and serial command interface of a Zephyr I/O node

This project models, in Dafny, the sequential core of a small Zephyr firmware
for a monitoring-and-control node. The node keeps one shared record of device
state, the real-time database (RTDB). Several threads read and update it:

- `led_state[4]` and `button_state[4]` are `uint8_t` flags;
- `an_raw` is the raw analog sample (`int16_t`);
- `an_val` is the processed sensor value (`int`).

The model covers:

- **The record** (`Rtdb`). A class `RealTimeDatabase` with two arrays of four
  bytes and two integer fields. It starts all zero, as `main` leaves it after
  `memset`. Each mutex-guarded critical section of the source is one method,
  and its `modifies` clause names the only fields it may write. Together these
  clauses give the "one writer per field" discipline:
  - the command interface writes `led_state`;
  - the button thread writes `button_state`;
  - the database thread writes `an_raw` and `an_val`;
  - the LED thread writes nothing in the record.
- **The command interface** (`Command`), i.e. `uart_callback`. On a
  receive-ready event it goes through the received bytes
  `buf[offset .. offset+len)` in order:
  - `'1'`..`'4'` flips the low bit of an LED flag and answers `Toggle LED n \r\n`;
  - `'5'`..`'8'` answers `Button n state: v\r\n`;
  - `'9'` answers `Raw sensor value: <an_raw>\r\n`;
  - `'0'` answers `Processed sensor value: <an_val>  Celsius\r\n`;
  - any other byte is skipped.

  A receive-disabled event re-enables reception on the 10-byte receive buffer
  with timeout `RECEIVE_TIMEOUT` = 100. Every other event does nothing. The callback returns
  what it asks of the UART driver as a list of actions: one `Transmit` per
  response line, in order, or one `EnableReceive`.
- **`%d` formatting** (`Decimal`). The decimal text of an integer, including
  negative values, with a parser as its partner. Both round trips are proved:
  parsing the text of any integer gives it back, and `%d` text (canonical
  digits, a minus sign only before a non-zero magnitude, so never `-0`) is the
  text of its own value. The text of a 32-bit value is proved to be at most
  11 characters long.
- **One pass of the LED thread** (`Leds`). It compares `led_state` with the
  thread's private shadow copy and writes only the pins that differ, then
  brings the shadow up to date. The pin writes come back as a list.
- **One pass of the button thread.** Sampled pin levels come in as a parameter.
- **One pass of the database thread.** One reading comes in as a parameter.

The specification of a state-changing method is a pure function of the old
record, defined on the value type `IoModuleData`: `Dispatch` for one byte,
`DispatchAll` for a run of bytes, `Callback` for one event and
`PendingWrites` for the LED pass. The lemmas about these functions state the
properties:

- exact response lines;
- a toggle sent twice restores the record;
- LED flag `i` ends up flipped exactly when its toggle byte occurs an odd
  number of times;
- one response per command byte, in the order of the bytes;
- non-command bytes are skipped;
- flags that start as 0/1 stay 0/1;
- every response fits the 64-byte output buffer and is exactly one line;
- after an LED pass, pins that showed the shadow copy show `led_state` (a pin
  is active for any non-zero value), and a second pass writes nothing. The model starts the pins off, as the zero
  shadow assumes; the code starts them lit (see "## Findings").

Three details of the code that the model keeps as written:

- The toggle response is `"Toggle LED %d \r\n"`, with a space before `\r\n`
  (src/main.c:153).
- The LED and button states are `uint8_t` values, not booleans. A toggle is
  `^= 1`, which flips only the low bit (`FlipLowBit`). So the flags stay 0/1
  only because they start at 0 and every writer keeps them 0/1; the model
  proves this as a preserved invariant.
- A button poll stores `true` for any non-zero value from `gpio_pin_get_dt`,
  including a negative error code (`LevelFlag`).

## Model

| member | source | states |
|---|---|---|
| `Rtdb.RealTimeDatabase.constructor` | src/main.c:413 | the record is allocated once with every LED flag, button flag, raw sample and processed value zero, so every flag is 0 or 1 |
| `Rtdb.FlipLowBit` | src/main.c:151 | `v ^ 1` on a byte flips the low bit and keeps the higher bits; a 0/1 flag becomes the other flag |
| `Rtdb.FlipLowBitTwice` | src/main.c:151 | flipping twice gives the byte back |
| `Rtdb.LevelFlag` | src/main.c:235-240 | (definition) C's conversion of an `int` to `bool`: 1 exactly for a non-zero value, 0 otherwise, and 0/1 unchanged; it is the stored button flag for a level read from a pin, and the level a pin shows after `gpio_pin_set_dt` |
| `Rtdb.RealTimeDatabase.ToggleLed` | src/main.c:150-152 | the LED critical section changes only LED flag `idx`, by flipping its low bit, and keeps 0/1 flags 0/1 |
| `Rtdb.RealTimeDatabase.UpdateButton` | src/main.c:238-242 | after one button's check, its stored flag is the flag of the sampled level and the other buttons are unchanged |
| `Rtdb.RealTimeDatabase.PollButtons` | src/main.c:234-265 | after a button pass, `button_state[i]` is 1 exactly when level `i` is non-zero, for all four buttons; LED flags, raw sample and processed value are unchanged |
| `Rtdb.RealTimeDatabase.CommitReading` | src/main.c:391-394 | a commit sets the raw sample and processed value to the reading and changes no flag |
| `Decimal.FormatNat` | src/main.c:159 | the `%d` text of a non-negative value is non-empty, all digits, with no leading zero, and is `0` exactly for zero |
| `Decimal.FormatInt` | src/main.c:164 | the `%d` text starts with `-` exactly for negative values, and the rest is canonical digit text, never `-0` |
| `Decimal.ParseFormatNat` | src/main.c:159 | reading back the digits of a non-negative value gives that value |
| `Decimal.ParseFormatInt` | src/main.c:164 | reading back the `%d` text of any integer gives that integer |
| `Decimal.FormatParseInt` | src/main.c:164 | `%d` text of any sign is the text of its own value (the other integer round trip) |
| `Decimal.FormatParseNat` | src/main.c:159 | canonical digit text is the `%d` text of its own value (the other round trip) |
| `Decimal.FormatIntInjective` | src/main.c:164-169 | distinct values are reported with distinct text |
| `Decimal.FormatInt32Length` | src/main.c:164-169 | the text of any 32-bit `int` is at most 11 characters |
| `Command.Snprintf` | src/main.c:141-153 | formatting into the 64-byte buffer keeps a prefix of fewer than 64 characters, and all of a text shorter than 64 |
| `Command.ResponseFitsOutput` | src/main.c:146-169 | every command byte's line is at most 46 characters, so `snprintf` into the 64-byte `output` never truncates, and the byte is answered with the whole line |
| `Command.ResponseText` | src/main.c:148-169 | (definition) the line each digit byte's branch formats before `snprintf`: `Toggle LED n \r\n`, `Button n state: v\r\n`, `Raw sensor value: <an_raw>\r\n`, `Processed sensor value: <an_val>  Celsius\r\n`; every one ends in `\r\n` |
| `Command.ResponseIsOneLine` | src/main.c:153-169 | every response is exactly one line: no line break before its closing `\r\n` |
| `Command.Dispatch` | src/main.c:146-172 | a byte gets a response exactly when it is a digit `'0'`..`'9'`; button flags, raw sample and processed value never change; only `'1'`..`'4'` change the record |
| `Command.ToggleCommand` | src/main.c:148-153 | byte `'1'`..`'4'` flips LED flag `byte-'1'`, leaves the other LED flags and all other fields alone, and answers exactly `Toggle LED n \r\n` with n the digit sent |
| `Command.ButtonCommand` | src/main.c:154-159 | byte `'5'`..`'8'` changes nothing and answers exactly `Button n state: v\r\n`, n = byte-'4', v the digit of `button_state[byte-'5']` |
| `Command.RawCommand` | src/main.c:160-164 | byte `'9'` changes nothing and answers `Raw sensor value: <an_raw>\r\n`; the number on the line reads back as `an_raw` |
| `Command.ProcessedCommand` | src/main.c:165-169 | byte `'0'` changes nothing and answers `Processed sensor value: <an_val>  Celsius\r\n`; the number on the line reads back as `an_val` |
| `Command.ReportScenario` | src/main.c:154-169 | with buttons [1,0,0,0], raw 512 and value -15 (any LED flags), `'5'`, `'9'` and `'0'` give `Button 1 state: 1\r\n`, `Raw sensor value: 512\r\n` and `Processed sensor value: -15  Celsius\r\n` |
| `Command.ButtonReportExample` | src/main.c:154-159 | with button 1's flag set, `'5'` gives exactly `Button 1 state: 1\r\n` |
| `Command.RawReportExample` | src/main.c:160-164 | with a raw sample of 512, `'9'` gives exactly `Raw sensor value: 512\r\n` |
| `Command.ProcessedReportExample` | src/main.c:165-169 | with a processed value of -15, `'0'` gives exactly `Processed sensor value: -15  Celsius\r\n` |
| `Command.SameByteTwiceRestores` | src/main.c:148-153 | processing the same byte twice restores the record |
| `Command.DispatchAll` | src/main.c:145-175 | a run of bytes leaves button flags, raw sample and processed value unchanged and gives at most one line per byte |
| `Command.Recognised` | src/main.c:170-171 | the command bytes kept from a run are all digits and no more than the run |
| `Command.ResponseIgnoresLeds` | src/main.c:154-169 | the line a byte gets does not depend on the LED flags |
| `Command.ResponsesInOrder` | src/main.c:145-174 | a run gets exactly one line per command byte, the k-th line is the response to the k-th command byte, and it reflects the record as it was before the run |
| `Command.DispatchLedFlag` | src/main.c:148-151 | one byte flips LED flag i exactly when it is that LED's toggle byte `'1'+i`, and leaves it otherwise |
| `Command.LedParity` | src/main.c:145-153 | after a run, LED flag i is flipped exactly when its toggle byte occurs an odd number of times in the run |
| `Command.DispatchAllKeepsFlags` | src/main.c:151 | if every flag is 0 or 1 before a run, every flag is 0 or 1 after it |
| `Command.DispatchAllAppend` | src/main.c:145-175 | processing two runs one after the other is processing their concatenation, and the lines are concatenated |
| `Command.UnrecognisedIsSkipped` | src/main.c:170-171 | a non-command byte is skipped: the run with it gives the same record and lines as the run without it |
| `Command.Transmissions` | src/main.c:174 | (definition) each response line becomes one transmit action, in order |
| `Command.Callback` | src/main.c:143-182 | a receive-disabled event gives exactly one re-arm of reception on the 10-byte buffer with timeout `RECEIVE_TIMEOUT` = 100 and no change; any event other than receive-ready gives no action and no change; receive-ready gives only transmissions and touches only LED flags |
| `Command.ProcessByte` | src/main.c:146-172 | the loop body for one byte changes the record and returns the line as `Dispatch` says |
| `Command.HandleRxReady` | src/main.c:145-175 | the receive-ready loop leaves the record as the bytes `buf[offset .. offset+len)` processed in order leave it, and transmits their response lines in that order |
| `Command.UartCallback` | src/main.c:140-183 | the callback leaves the record and returns the actions that `Callback` gives for the old record; it keeps 0/1 flags 0/1 |
| `Leds.PendingWrites` | src/main.c:205-210 | a pass over the first n LEDs writes at most n pins, each with index below n (the increasing order is proved by `PendingWritesInOrder`) |
| `Leds.PendingWritesExact` | src/main.c:206-207 | LED i is written with level v exactly when its flag differs from the shadow and v is that flag |
| `Leds.PendingWritesInOrder` | src/main.c:205 | the pins are written in increasing index order, each at most once |
| `Leds.ApplyWrites` | src/main.c:207 | (definition) the pin levels after `gpio_pin_set_dt` calls made in order: each write makes its pin active for a non-zero value and inactive for zero; the number of pins is kept |
| `Leds.PinLevels` | src/main.c:207 | (definition) the levels pins show after being set to given values: `LevelFlag` of each |
| `Leds.PinLevelsOfFlags` | src/main.c:207 | pins set to 0/1 flags show exactly those flags |
| `Leds.WritesMirrorDatabase` | src/main.c:204-211 | after a pass over LEDs 0..n-1, a pin whose LED flag differs from the shadow shows that flag's level, and every other pin keeps its level |
| `Leds.PassSyncsPins` | src/main.c:204-211 | after a full pass, pins that showed the levels of the shadow show the levels of `led_state` |
| `Leds.ConfiguredLedsHideFirstToggle` | src/main.c:122-125 | with the LEDs configured active, a cleared record and a zero shadow, the first pass writes nothing while the lit pins disagree with the record, and the first toggle of LED 1 writes 1 to a pin already lit |
| `Leds.IntendedStartFirstPass` | src/main.c:201-211 | with the pins starting off, as the zero shadow assumes, the first pass leaves the pins showing the levels of `led_state`, which are the flags themselves when they are 0/1 |
| `Leds.InSyncPassIsQuiet` | src/main.c:206 | a pass whose shadow equals `led_state` writes nothing |
| `Leds.LedThread.constructor` | src/main.c:201 | the shadow starts as four zeros and the pins start off, so the thread's invariant (each pin shows the level of its shadow value) holds |
| `Leds.LedThread.Pass` | src/main.c:204-211 | a pass writes exactly the pins whose flag differs from the shadow, with that flag; then the shadow equals `led_state`, the pins show its levels, and the record is unchanged |
| `Leds.LedThread.TwoPasses` | src/main.c:203-212 | after one pass the pins show the levels of `led_state` (the flags themselves when every flag is 0/1), and an immediate second pass writes nothing |

## Left out

- Sensor acquisition and conversion are not modelled: `sensor_reading_thread`, `read_adc` and the float conversion in `data_processing_thread`. They need the ADC driver and floating-point arithmetic. `CommitReading` receives the reading already converted to an integer.
- The disabled `adc_thread` is not modelled. It is commented out, and its scaling constant differs from the active path (60 against 60000).
- Zephyr message queues are not modelled. Their blocking, back-pressure and FIFO order belong to kernel code that is not part of this model. One pass of the database thread is one call of `CommitReading`.
- Mutex locking, thread creation, `k_msleep`, priorities and the endless `while (1)` loops are not modelled. Each critical section and each loop iteration is one atomic method, so interleavings are not modelled.
- GPIO, ADC and UART driver calls are replaced by parameters and returned lists: sampled levels for `gpio_pin_get_dt`, `LedWrite` values for `gpio_pin_set_dt`, and `UartAction` values for `uart_tx` and `uart_rx_enable`.
- Driver call results are not modelled, for example the return codes of `uart_tx` and `uart_rx_enable`.
- `uart_tx` is asynchronous in Zephyr, and it can refuse a transfer while another is in progress. The static `output` buffer can also be reformatted before an earlier transfer completes. None of this is modelled: the action list is the sequence of transmit requests in the order they are issued.
- `main`'s startup is not modelled: device-readiness checks, the button pins' configuration, the welcome banner and the callback registration. Only the zero-initialisation of the record and the LED pins' configured level (`ConfiguredLedLevels`) are kept.
- The `k_thread_create` call that starts `uart_callback` as a thread with null arguments is not modelled either; it belongs to the same startup code.
- `Command.ButtonCommand`: states the one-character line only for button flags 0 and 1. For any other byte value, `Dispatch` and `ResponseFitsOutput` cover the general `%d` text.
- `Leds.LedThread.constructor`: starts the pins off, the level the zero shadow assumes, rather than at the `GPIO_OUTPUT_ACTIVE` level `configure_buttons_and_leds` gives them. The as-written start is kept in `ConfiguredLedsHideFirstToggle` (see "## Findings").
- `Leds.LedThread.TwoPasses`: promises that the pins show `led_state` only when each pin showed the level of its shadow value before the pass. That holds from the corrected start, not from the configured one.

## Findings

| source | as written | input that shows it | evidently intended | confidence | as-written member | corrected member |
|---|---|---|---|---|---|---|
| src/main.c:122-125 | the LED pins are configured `GPIO_OUTPUT_ACTIVE` (lit), while `led_state` (src/main.c:413) and the LED thread's shadow (src/main.c:201) start at 0, so a pass writes only where the record differs from a shadow that does not match the pins | start-up, then byte `'1'`: the first pass writes nothing while all four LEDs are lit and the record says off; after `'1'` the pass writes 1 to LED 1, which is already lit, so the first toggle has no visible effect | the pins start off (`GPIO_OUTPUT_INACTIVE`), matching the zero shadow and the cleared record, so after every pass the LEDs show `led_state` | medium; not executed | `Leds.ConfiguredLedsHideFirstToggle` | `Leds.IntendedStartFirstPass` |
