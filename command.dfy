/** The serial command interface: the UART callback. On a receive-ready event
    it reads every received byte in order and, for each command byte, toggles
    an LED flag or reports a button flag, the raw sample or the processed
    value as one line of text; other bytes are skipped. On a receive-disabled
    event it re-enables reception. What the callback asks of the UART driver
    is returned as a list of actions instead of being sent. */
module Command {
  import opened Decimal
  import opened Rtdb

  /** `RECEIVE_BUFF_SIZE`: the size of the receive buffer `rx_buf`. */
  const RECEIVE_BUFF_SIZE: nat := 10
  /** `RECEIVE_TIMEOUT`: the inactivity timeout passed to `uart_rx_enable`. */
  const RECEIVE_TIMEOUT: int := 100
  /** The size of the static `output` buffer each response is formatted into. */
  const OUTPUT_SIZE: nat := 64

  datatype Option<T> = None | Some(value: T)

  /** The events the UART driver delivers to the callback. */
  datatype UartEvent =
    | TxDone
    | TxAborted
    | RxRdy(buf: seq<UInt8>, offset: nat, len: nat)
    | RxBufRequest
    | RxBufReleased
    | RxDisabled
    | RxStopped

  /** The driver guarantees that the received bytes lie inside the buffer. */
  predicate WellFormedEvent(evt: UartEvent) {
    evt.RxRdy? ==> evt.offset + evt.len <= |evt.buf|
  }

  /** A request the callback makes of the UART driver. */
  datatype UartAction =
    | Transmit(text: string)                          // uart_tx of one response
    | EnableReceive(bufferSize: nat, timeout: int)    // uart_rx_enable on rx_buf

  predicate IsToggle(cmd: UInt8) {
    '1' as int <= cmd as int <= '4' as int
  }

  predicate IsButtonQuery(cmd: UInt8) {
    '5' as int <= cmd as int <= '8' as int
  }

  /** The bytes that get a response: the digits '0' .. '9'. */
  predicate IsRecognised(cmd: UInt8) {
    '0' as int <= cmd as int <= '9' as int
  }

  /** `snprintf` into the output buffer: at most OUTPUT_SIZE - 1 characters
      are kept (one byte is left for the terminating NUL). */
  function Snprintf(text: string): (out: string)
    ensures |out| < OUTPUT_SIZE
    ensures out <= text
    ensures |text| < OUTPUT_SIZE ==> out == text
  {
    if |text| < OUTPUT_SIZE then text else text[..OUTPUT_SIZE - 1]
  }

  /** What one byte does: the record afterwards and the line sent, if any. */
  datatype Outcome = Outcome(data: IoModuleData, response: Option<string>)

  /** Text with no line break in it. */
  predicate NoBreaks(t: string) {
    forall k | 0 <= k < |t| :: t[k] != '\r' && t[k] != '\n'
  }

  /** Exactly one line: text with no line break, then "\r\n". */
  predicate IsOneLine(t: string) {
    |t| >= 2 && t[|t| - 2..] == "\r\n" && NoBreaks(t[..|t| - 2])
  }

  lemma NoBreaksConcat(a: string, b: string)
    requires NoBreaks(a) && NoBreaks(b)
    ensures NoBreaks(a + b)
  {
    forall k | 0 <= k < |a + b|
      ensures (a + b)[k] != '\r' && (a + b)[k] != '\n'
    {
      if k >= |a| {
        assert (a + b)[k] == b[k - |a|];
      }
    }
  }

  /** `%d` text holds digits and a minus sign only. */
  lemma FormatIntNoBreaks(n: int)
    ensures NoBreaks(FormatInt(n))
  {
    var s := FormatInt(n);
    forall k | 0 <= k < |s|
      ensures s[k] != '\r' && s[k] != '\n'
    {
      if k > 0 && n < 0 {
        assert s[k] == s[1..][k - 1];
      }
    }
  }

  /** The line a command byte is answered with, before `snprintf`: the
      format of its branch filled in from the record. */
  function ResponseText(d: IoModuleData, cmd: UInt8): (line: string)
    requires d.WellFormed() && IsRecognised(cmd)
    ensures |line| >= 2 && line[|line| - 2..] == "\r\n"
  {
    var c := cmd as int;
    if '1' as int <= c <= '4' as int then
      var ledIdx := c - '1' as int;
      "Toggle LED " + FormatInt(ledIdx + 1) + " \r\n"
    else if '5' as int <= c <= '8' as int then
      var buttonIdx := c - '5' as int;
      var state := d.buttonState[buttonIdx] as int;
      "Button " + FormatInt(buttonIdx + 1) + " state: " + FormatInt(state) + "\r\n"
    else if c == '9' as int then
      "Raw sensor value: " + FormatInt(d.anRaw) + "\r\n"
    else
      "Processed sensor value: " + FormatInt(d.anVal) + "  Celsius\r\n"
  }

  /** A number written with `%d` between text without line breaks leaves
      no line break. */
  lemma NumberNoBreaks(prefix: string, n: int, suffix: string)
    requires NoBreaks(prefix) && NoBreaks(suffix)
    ensures NoBreaks(prefix + FormatInt(n) + suffix)
  {
    FormatIntNoBreaks(n);
    NoBreaksConcat(prefix, FormatInt(n));
    NoBreaksConcat(prefix + FormatInt(n), suffix);
  }

  /** Text, a `%d` number, and a one-line tail make one line. */
  lemma NumberLine(prefix: string, n: int, tail: string)
    requires NoBreaks(prefix) && IsOneLine(tail)
    ensures IsOneLine(prefix + FormatInt(n) + tail)
  {
    var body := tail[..|tail| - 2];
    NumberNoBreaks(prefix, n, body);
    var line := prefix + FormatInt(n) + tail;
    assert line == (prefix + FormatInt(n) + body) + "\r\n" by {
      assert tail == body + "\r\n";
    }
    assert line[..|line| - 2] == prefix + FormatInt(n) + body;
  }

  /** Every response is exactly one line: no line break before its
      closing "\r\n". */
  lemma ResponseIsOneLine(d: IoModuleData, cmd: UInt8)
    requires d.WellFormed() && IsRecognised(cmd)
    ensures IsOneLine(ResponseText(d, cmd))
  {
    var c := cmd as int;
    var line := ResponseText(d, cmd);
    if IsToggle(cmd) {
      var n := c - '1' as int + 1;
      assert line == "Toggle LED " + FormatInt(n) + " \r\n";
      ToggleLineIsOneLine(n);
    } else if IsButtonQuery(cmd) {
      var n := c - '5' as int + 1;
      var v := d.buttonState[n - 1] as int;
      assert line == "Button " + FormatInt(n) + " state: " + FormatInt(v) + "\r\n";
      ButtonLineIsOneLine(n, v);
    } else if c == '9' as int {
      assert line == "Raw sensor value: " + FormatInt(d.anRaw) + "\r\n";
      RawLineIsOneLine(d.anRaw);
    } else {
      assert line == "Processed sensor value: " + FormatInt(d.anVal) + "  Celsius\r\n";
      ProcessedLineIsOneLine(d.anVal);
    }
  }

  lemma ToggleLineIsOneLine(n: int)
    ensures IsOneLine("Toggle LED " + FormatInt(n) + " \r\n")
  {
    NumberLine("Toggle LED ", n, " \r\n");
  }

  lemma ButtonLineIsOneLine(n: int, v: int)
    ensures IsOneLine("Button " + FormatInt(n) + " state: " + FormatInt(v) + "\r\n")
  {
    NumberNoBreaks("Button ", n, " state: ");
    NumberLine("Button " + FormatInt(n) + " state: ", v, "\r\n");
  }

  lemma RawLineIsOneLine(v: int)
    ensures IsOneLine("Raw sensor value: " + FormatInt(v) + "\r\n")
  {
    NumberLine("Raw sensor value: ", v, "\r\n");
  }

  lemma ProcessedLineIsOneLine(v: int)
    ensures IsOneLine("Processed sensor value: " + FormatInt(v) + "  Celsius\r\n")
  {
    NumberLine("Processed sensor value: ", v, "  Celsius\r\n");
  }

  function Dispatch(d: IoModuleData, cmd: UInt8): (r: Outcome)
    requires d.WellFormed()
    ensures r.data.WellFormed()
    ensures r.response.Some? <==> IsRecognised(cmd)
    ensures r.data.buttonState == d.buttonState
    ensures r.data.anRaw == d.anRaw && r.data.anVal == d.anVal
    ensures !IsToggle(cmd) ==> r.data == d
  {
    if IsToggle(cmd) then
      var ledIdx := cmd as int - '1' as int;
      Outcome(d.(ledState := d.ledState[ledIdx := FlipLowBit(d.ledState[ledIdx])]),
              Some(Snprintf(ResponseText(d, cmd))))
    else if IsRecognised(cmd) then
      Outcome(d, Some(Snprintf(ResponseText(d, cmd))))
    else
      Outcome(d, None)
  }

  /** Every response fits the 64-byte output buffer, so `snprintf` never cuts
      one short and a command byte is answered with its whole line: the
      longest, a processed value of -2147483648, is 46 characters. */
  lemma ResponseFitsOutput(d: IoModuleData, cmd: UInt8)
    requires d.WellFormed() && IsRecognised(cmd)
    ensures |ResponseText(d, cmd)| < OUTPUT_SIZE
    ensures |ResponseText(d, cmd)| <= 46
    ensures Dispatch(d, cmd).response == Some(ResponseText(d, cmd))
  {
    var c := cmd as int;
    if IsToggle(cmd) {
      FormatDigit(c - '1' as int + 1);
    } else if IsButtonQuery(cmd) {
      FormatDigit(c - '5' as int + 1);
      FormatInt32Length(d.buttonState[c - '5' as int] as int);
    } else if c == '9' as int {
      FormatInt32Length(d.anRaw);
    } else {
      FormatInt32Length(d.anVal);
    }
  }

  /** '1' .. '4' flips the low bit of LED flag n - 1, where n is the digit
      sent, leaves the other flags alone, and answers "Toggle LED n \r\n". */
  lemma ToggleCommand(d: IoModuleData, cmd: UInt8)
    requires d.WellFormed() && IsToggle(cmd)
    ensures var i := cmd as int - '1' as int;
      Dispatch(d, cmd) == Outcome(d.(ledState := d.ledState[i := FlipLowBit(d.ledState[i])]),
                                  Some("Toggle LED " + [cmd as int as char] + " \r\n"))
  {
    var n := cmd as int - '1' as int + 1;
    FormatDigit(n);
    assert DigitChar(n) == cmd as int as char;
    ResponseFitsOutput(d, cmd);
  }

  /** '5' .. '8' answers "Button n state: v\r\n", where n is the digit sent
      minus 4 and v the digit of button flag n - 1; nothing changes. */
  lemma ButtonCommand(d: IoModuleData, cmd: UInt8)
    requires d.WellFormed() && IsButtonQuery(cmd)
    requires IsFlag(d.buttonState[cmd as int - '5' as int])
    ensures var v := d.buttonState[cmd as int - '5' as int];
      Dispatch(d, cmd) == Outcome(d, Some("Button " + [(cmd as int - 4) as char] + " state: " +
                                          [if v == 1 then '1' else '0'] + "\r\n"))
  {
    var n := cmd as int - '5' as int + 1;
    var v := d.buttonState[n - 1] as int;
    FormatDigit(n);
    FormatDigit(v);
    ResponseFitsOutput(d, cmd);
  }

  /** '9' answers with the raw sample, and the number on the line reads back
      as that sample; nothing changes. */
  lemma RawCommand(d: IoModuleData)
    requires d.WellFormed()
    ensures Dispatch(d, '9' as int) ==
      Outcome(d, Some("Raw sensor value: " + FormatInt(d.anRaw) + "\r\n"))
    ensures var line := Dispatch(d, '9' as int).response.value;
      |line| > 20 && line[18..|line| - 2] == FormatInt(d.anRaw) &&
      ParseInt(line[18..|line| - 2]) == d.anRaw
  {
    ResponseFitsOutput(d, '9' as int);
    var line := Dispatch(d, '9' as int).response.value;
    assert line[18..|line| - 2] == FormatInt(d.anRaw);
    ParseFormatInt(d.anRaw);
  }

  /** '0' answers with the processed value, and the number on the line reads
      back as that value; nothing changes. */
  lemma ProcessedCommand(d: IoModuleData)
    requires d.WellFormed()
    ensures Dispatch(d, '0' as int) ==
      Outcome(d, Some("Processed sensor value: " + FormatInt(d.anVal) + "  Celsius\r\n"))
    ensures var line := Dispatch(d, '0' as int).response.value;
      |line| > 35 && line[24..|line| - 11] == FormatInt(d.anVal) &&
      ParseInt(line[24..|line| - 11]) == d.anVal
  {
    ResponseFitsOutput(d, '0' as int);
    var line := Dispatch(d, '0' as int).response.value;
    assert line[24..|line| - 11] == FormatInt(d.anVal);
    ParseFormatInt(d.anVal);
  }

  /** The record of the report example below: buttons [1, 0, 0, 0], a raw
      sample of 512 and a processed value of -15, whatever the LED flags. */
  function ExampleRecord(leds: seq<UInt8>): (d: IoModuleData)
    requires |leds| == IO_COUNT
    ensures d.WellFormed()
  {
    IoModuleData(leds, [1, 0, 0, 0], 512, -15)
  }

  /** With the example record, the three report commands give these exact
      lines. */
  lemma ReportScenario(leds: seq<UInt8>)
    requires |leds| == IO_COUNT
    ensures Dispatch(ExampleRecord(leds), '5' as int).response == Some("Button 1 state: 1\r\n")
    ensures Dispatch(ExampleRecord(leds), '9' as int).response == Some("Raw sensor value: 512\r\n")
    ensures Dispatch(ExampleRecord(leds), '0' as int).response == Some("Processed sensor value: -15  Celsius\r\n")
  {
    ButtonReportExample(ExampleRecord(leds));
    RawReportExample(ExampleRecord(leds));
    ProcessedReportExample(ExampleRecord(leds));
  }

  lemma ButtonReportExample(d: IoModuleData)
    requires d.WellFormed() && d.buttonState[0] == 1
    ensures Dispatch(d, '5' as int).response == Some("Button 1 state: 1\r\n")
  {
    ButtonCommand(d, '5' as int);
    assert (('5' as int) - 4) as char == '1';
    assert "Button " + "1" + " state: " + "1" + "\r\n" == "Button 1 state: 1\r\n";
  }

  lemma RawReportExample(d: IoModuleData)
    requires d.WellFormed() && d.anRaw == 512
    ensures Dispatch(d, '9' as int).response == Some("Raw sensor value: 512\r\n")
  {
    ResponseFitsOutput(d, '9' as int);
    assert FormatInt(512) == "512" by {
      assert FormatNat(51) == "51";
    }
    assert "Raw sensor value: " + "512" + "\r\n" == "Raw sensor value: 512\r\n";
  }

  lemma ProcessedReportExample(d: IoModuleData)
    requires d.WellFormed() && d.anVal == -15
    ensures Dispatch(d, '0' as int).response == Some("Processed sensor value: -15  Celsius\r\n")
  {
    ResponseFitsOutput(d, '0' as int);
    assert FormatInt(-15) == "-15";
    assert "Processed sensor value: " + "-15" + "  Celsius\r\n" == "Processed sensor value: -15  Celsius\r\n";
  }

  /** Sending the same byte twice leaves the record as it was. */
  lemma SameByteTwiceRestores(d: IoModuleData, cmd: UInt8)
    requires d.WellFormed()
    ensures Dispatch(Dispatch(d, cmd).data, cmd).data == d
  {
    if IsToggle(cmd) {
      var i := cmd as int - '1' as int;
      assert FlipLowBit(FlipLowBit(d.ledState[i])) == d.ledState[i];
      assert d.ledState[i := FlipLowBit(d.ledState[i])][i := d.ledState[i]] == d.ledState;
    }
  }

  /** What a run of bytes does: the record afterwards and the lines sent. */
  datatype Batch = Batch(data: IoModuleData, responses: seq<string>)

  /** The bytes processed one after the other, from the first. */
  function DispatchAll(d: IoModuleData, bytes: seq<UInt8>): (r: Batch)
    requires d.WellFormed()
    ensures r.data.WellFormed()
    ensures r.data.buttonState == d.buttonState
    ensures r.data.anRaw == d.anRaw && r.data.anVal == d.anVal
    ensures |r.responses| <= |bytes|
    decreases |bytes|
  {
    if bytes == [] then Batch(d, [])
    else
      var before := DispatchAll(d, bytes[..|bytes| - 1]);
      var step := Dispatch(before.data, bytes[|bytes| - 1]);
      Batch(step.data, before.responses + (if step.response.Some? then [step.response.value] else []))
  }

  /** The command bytes among `bytes`, in the order they came. */
  function Recognised(bytes: seq<UInt8>): (cmds: seq<UInt8>)
    ensures forall k | 0 <= k < |cmds| :: IsRecognised(cmds[k])
    ensures |cmds| <= |bytes|
    decreases |bytes|
  {
    if bytes == [] then []
    else
      var last := bytes[|bytes| - 1];
      Recognised(bytes[..|bytes| - 1]) + (if IsRecognised(last) then [last] else [])
  }

  /** The line a command byte is answered with depends only on the record's
      button flags and sensor values, which no command changes. */
  lemma ResponseIgnoresLeds(d: IoModuleData, e: IoModuleData, cmd: UInt8)
    requires d.WellFormed() && e.WellFormed()
    requires d.buttonState == e.buttonState && d.anRaw == e.anRaw && d.anVal == e.anVal
    ensures Dispatch(d, cmd).response == Dispatch(e, cmd).response
  {
  }

  /** One line per command byte, in the order of the bytes, and each line is
      the one that byte gets from the record as it was before the buffer. */
  lemma {:induction false} ResponsesInOrder(d: IoModuleData, bytes: seq<UInt8>)
    requires d.WellFormed()
    ensures |DispatchAll(d, bytes).responses| == |Recognised(bytes)|
    ensures forall k | 0 <= k < |Recognised(bytes)| ::
      DispatchAll(d, bytes).responses[k] == Dispatch(d, Recognised(bytes)[k]).response.value
    decreases |bytes|
  {
    if bytes != [] {
      var init := bytes[..|bytes| - 1];
      var last := bytes[|bytes| - 1];
      ResponsesInOrder(d, init);
      var before := DispatchAll(d, init);
      ResponseIgnoresLeds(before.data, d, last);
    }
  }

  /** The byte that toggles LED i. */
  function ToggleByte(i: nat): (cmd: UInt8)
    requires i < IO_COUNT
    ensures IsToggle(cmd) && cmd as int - '1' as int == i
  {
    ('1' as int + i) as UInt8
  }

  /** One byte flips LED flag i exactly when it is that LED's toggle byte. */
  lemma DispatchLedFlag(d: IoModuleData, cmd: UInt8, i: nat)
    requires d.WellFormed() && i < IO_COUNT
    ensures Dispatch(d, cmd).data.ledState[i] ==
      if cmd == ToggleByte(i) then FlipLowBit(d.ledState[i]) else d.ledState[i]
  {
  }

  /** How many times `cmd` occurs in `bytes`. */
  function Occurrences(bytes: seq<UInt8>, cmd: UInt8): (n: nat)
    ensures n <= |bytes|
    decreases |bytes|
  {
    if bytes == [] then 0
    else Occurrences(bytes[..|bytes| - 1], cmd) + (if bytes[|bytes| - 1] == cmd then 1 else 0)
  }

  /** The last byte of a run flips LED flag i exactly when it is that LED's
      toggle byte. */
  lemma DispatchAllLedStep(d: IoModuleData, bytes: seq<UInt8>, i: nat)
    requires d.WellFormed() && bytes != [] && i < IO_COUNT
    ensures var prev := DispatchAll(d, bytes[..|bytes| - 1]).data.ledState[i];
      DispatchAll(d, bytes).data.ledState[i] ==
        if bytes[|bytes| - 1] == ToggleByte(i) then FlipLowBit(prev) else prev
  {
    DispatchLedFlag(DispatchAll(d, bytes[..|bytes| - 1]).data, bytes[|bytes| - 1], i);
  }

  /** After a run of bytes, LED flag i is flipped exactly when its toggle
      byte occurs an odd number of times in the run. */
  lemma {:induction false} LedParity(d: IoModuleData, bytes: seq<UInt8>, i: nat)
    requires d.WellFormed() && i < IO_COUNT
    ensures DispatchAll(d, bytes).data.ledState[i] ==
      if Occurrences(bytes, ToggleByte(i)) % 2 == 0 then d.ledState[i] else FlipLowBit(d.ledState[i])
    decreases |bytes|
  {
    if bytes != [] {
      var init := bytes[..|bytes| - 1];
      var last := bytes[|bytes| - 1];
      var t := ToggleByte(i);
      var v := d.ledState[i];
      var k := Occurrences(init, t);
      LedParity(d, init, i);
      var cur := DispatchAll(d, init).data.ledState[i];
      assert cur == if k % 2 == 0 then v else FlipLowBit(v);
      DispatchAllLedStep(d, bytes, i);
      var now := DispatchAll(d, bytes).data.ledState[i];
      if last == t {
        assert Occurrences(bytes, t) == k + 1;
        assert now == FlipLowBit(cur);
        FlipLowBitTwice(v);
      } else {
        assert Occurrences(bytes, t) == k;
        assert now == cur;
      }
    }
  }

  /** Flags that are 0 or 1 stay 0 or 1 whatever bytes arrive. */
  lemma {:induction false} DispatchAllKeepsFlags(d: IoModuleData, bytes: seq<UInt8>)
    requires d.WellFormed() && FlagsAreBits(d)
    ensures FlagsAreBits(DispatchAll(d, bytes).data)
    decreases |bytes|
  {
    if bytes != [] {
      DispatchAllKeepsFlags(d, bytes[..|bytes| - 1]);
      var before := DispatchAll(d, bytes[..|bytes| - 1]).data;
      forall j | 0 <= j < IO_COUNT
        ensures IsFlag(FlipLowBit(before.ledState[j]))
      {
      }
    }
  }

  /** Processing two runs one after the other is processing their
      concatenation. */
  lemma {:induction false} DispatchAllAppend(d: IoModuleData, s: seq<UInt8>, t: seq<UInt8>)
    requires d.WellFormed()
    ensures DispatchAll(d, s + t) ==
      var a := DispatchAll(d, s);
      var b := DispatchAll(a.data, t);
      Batch(b.data, a.responses + b.responses)
    decreases |t|
  {
    if t != [] {
      var init := t[..|t| - 1];
      assert (s + t)[..|s + t| - 1] == s + init;
      DispatchAllAppend(d, s, init);
    } else {
      assert s + t == s;
    }
  }

  /** A byte that is not a command is skipped: the bytes after it are
      processed as if it had not been there. */
  lemma UnrecognisedIsSkipped(d: IoModuleData, s: seq<UInt8>, cmd: UInt8, t: seq<UInt8>)
    requires d.WellFormed() && !IsRecognised(cmd)
    ensures DispatchAll(d, s + [cmd] + t) == DispatchAll(d, s + t)
  {
    assert DispatchAll(d, s + [cmd]) == DispatchAll(d, s) by {
      assert (s + [cmd])[..|s|] == s;
    }
    DispatchAllAppend(d, s + [cmd], t);
    DispatchAllAppend(d, s, t);
    assert s + [cmd] + t == (s + [cmd]) + t;
  }

  /** The action list for a list of response lines. */
  function Transmissions(lines: seq<string>): (actions: seq<UartAction>)
    ensures |actions| == |lines|
    ensures forall k | 0 <= k < |lines| :: actions[k] == Transmit(lines[k])
  {
    seq(|lines|, k requires 0 <= k < |lines| => Transmit(lines[k]))
  }

  /** Processing one more byte after a run. */
  lemma DispatchAllSnoc(d: IoModuleData, s: seq<UInt8>, cmd: UInt8)
    requires d.WellFormed()
    ensures var before := DispatchAll(d, s);
      var step := Dispatch(before.data, cmd);
      DispatchAll(d, s + [cmd]) ==
        Batch(step.data, before.responses + (if step.response.Some? then [step.response.value] else []))
  {
    assert (s + [cmd])[..|s|] == s;
  }

  /** One more line gives one more transmit action at the end. */
  lemma TransmissionsSnoc(lines: seq<string>, line: string)
    ensures Transmissions(lines + [line]) == Transmissions(lines) + [Transmit(line)]
  {
  }

  /** What the callback does with one event. */
  datatype Reaction = Reaction(data: IoModuleData, actions: seq<UartAction>)

  function Callback(d: IoModuleData, evt: UartEvent): (r: Reaction)
    requires d.WellFormed() && WellFormedEvent(evt)
    ensures r.data.WellFormed()
    ensures r.data.buttonState == d.buttonState
    ensures r.data.anRaw == d.anRaw && r.data.anVal == d.anVal
    ensures !evt.RxRdy? ==> r.data == d
    ensures evt.RxDisabled? ==> r.actions == [EnableReceive(RECEIVE_BUFF_SIZE, RECEIVE_TIMEOUT)]
    ensures !evt.RxRdy? && !evt.RxDisabled? ==> r.actions == []
    ensures evt.RxRdy? ==> forall k | 0 <= k < |r.actions| :: r.actions[k].Transmit?
  {
    match evt
    case RxRdy(buf, offset, len) =>
      var b := DispatchAll(d, buf[offset..offset + len]);
      Reaction(b.data, Transmissions(b.responses))
    case RxDisabled =>
      Reaction(d, [EnableReceive(RECEIVE_BUFF_SIZE, RECEIVE_TIMEOUT)])
    case _ =>
      Reaction(d, [])
  }

  /** The body of the callback's loop for one received byte: the critical
      section the byte calls for, then the line formatted into the output
      buffer, or nothing for a byte that is not a command. */
  method ProcessByte(db: RealTimeDatabase, cmd: UInt8) returns (output: Option<string>)
    requires db.Valid()
    modifies db.ledState
    ensures db.Data() == Dispatch(old(db.Data()), cmd).data
    ensures output == Dispatch(old(db.Data()), cmd).response
  {
    if IsToggle(cmd) {
      db.ToggleLed(cmd as int - '1' as int);
      output := Some(Snprintf(ResponseText(db.Data(), cmd)));
    } else if IsRecognised(cmd) {
      output := Some(Snprintf(ResponseText(db.Data(), cmd)));
    } else {
      output := None;
    }
  }

  /** The receive-ready branch of the callback: every received byte
      `buf[offset + i]`, for i from 0 to len - 1, is processed in turn, and
      each response is transmitted before the next byte is read. */
  method HandleRxReady(db: RealTimeDatabase, buf: seq<UInt8>, offset: nat, len: nat)
    returns (actions: seq<UartAction>)
    requires db.Valid() && offset + len <= |buf|
    modifies db.ledState
    ensures db.Data() == DispatchAll(old(db.Data()), buf[offset..offset + len]).data
    ensures actions == Transmissions(DispatchAll(old(db.Data()), buf[offset..offset + len]).responses)
  {
    ghost var d0 := db.Data();
    ghost var received := buf[offset..offset + len];
    actions := [];
    for i := 0 to len
      invariant db.Data() == DispatchAll(d0, received[..i]).data
      invariant actions == Transmissions(DispatchAll(d0, received[..i]).responses)
    {
      var cmd := buf[offset + i];
      ghost var prev := DispatchAll(d0, received[..i]);
      assert received[..i + 1] == received[..i] + [cmd];
      DispatchAllSnoc(d0, received[..i], cmd);
      var output := ProcessByte(db, cmd);
      if output.None? {
        continue;
      }
      TransmissionsSnoc(prev.responses, output.value);
      actions := actions + [Transmit(output.value)];
    }
    assert received[..len] == received;
  }

  /** `uart_callback`. Only the LED flags may change; every other field of
      the record is left as it was. */
  method UartCallback(db: RealTimeDatabase, evt: UartEvent) returns (actions: seq<UartAction>)
    requires db.Valid() && WellFormedEvent(evt)
    modifies db.ledState
    ensures db.Data() == Callback(old(db.Data()), evt).data
    ensures actions == Callback(old(db.Data()), evt).actions
    ensures old(FlagsAreBits(db.Data())) ==> FlagsAreBits(db.Data())
  {
    match evt
    case RxRdy(buf, offset, len) =>
      ghost var d0 := db.Data();
      if FlagsAreBits(d0) {
        DispatchAllKeepsFlags(d0, buf[offset..offset + len]);
      }
      actions := HandleRxReady(db, buf, offset, len);
    case RxDisabled =>
      actions := [EnableReceive(RECEIVE_BUFF_SIZE, RECEIVE_TIMEOUT)];
    case _ =>
      actions := [];
  }
}
