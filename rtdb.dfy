/** The real-time database: the one record of device state that the firmware's
    threads share. `led_state` and `button_state` are four `uint8_t` flags each,
    `an_raw` is an `int16_t` and `an_val` a 32-bit `int`. The mutex around the record is not modelled: every
    critical section of the source is one method, which runs atomically. */
module Rtdb {

  type UInt8 = x: int | 0 <= x < 0x100
  type Int16 = x: int | -0x8000 <= x < 0x8000
  type Int32 = x: int | -0x8000_0000 <= x < 0x8000_0000

  /** The number of LEDs and of buttons. */
  const IO_COUNT: nat := 4

  /** The value of the record at one moment. */
  datatype IoModuleData = IoModuleData(
    ledState: seq<UInt8>,
    buttonState: seq<UInt8>,
    anRaw: Int16,
    anVal: Int32)
  {
    predicate WellFormed() {
      |ledState| == IO_COUNT && |buttonState| == IO_COUNT
    }
  }

  /** The record as `main` leaves it after clearing it with `memset`. */
  const Zero := IoModuleData([0, 0, 0, 0], [0, 0, 0, 0], 0, 0)

  predicate IsFlag(v: UInt8) {
    v == 0 || v == 1
  }

  /** `v ^ 1` on a `uint8_t`: the lowest bit flips, the higher bits stay. */
  function FlipLowBit(v: UInt8): (r: UInt8)
    ensures r / 2 == v / 2 && r % 2 != v % 2
    ensures IsFlag(v) ==> IsFlag(r) && r != v
  {
    if v % 2 == 0 then v + 1 else v - 1
  }

  /** Flipping the low bit twice gives the value back. */
  lemma FlipLowBitTwice(v: UInt8)
    ensures FlipLowBit(FlipLowBit(v)) == v
  {
  }

  /** Every LED and button flag is 0 or 1. */
  predicate FlagsAreBits(d: IoModuleData)
    requires d.WellFormed()
  {
    forall i | 0 <= i < IO_COUNT :: IsFlag(d.ledState[i]) && IsFlag(d.buttonState[i])
  }

  /** C's conversion of an `int` to `bool`, as a 0/1 byte. It is the flag a
      button poll stores for a level read from the pin (any non-zero level,
      also a negative error code, becomes 1), and the level a pin shows after
      `gpio_pin_set_dt` with a value (active for any non-zero value). */
  function LevelFlag(level: int): (v: UInt8)
    ensures IsFlag(v)
    ensures v == 1 <==> level != 0
    ensures level == 0 || level == 1 ==> v == level
  {
    if level != 0 then 1 else 0
  }

  class RealTimeDatabase {
    const ledState: array<UInt8>
    const buttonState: array<UInt8>
    var anRaw: Int16
    var anVal: Int32

    predicate Valid()
    {
      ledState.Length == IO_COUNT && buttonState.Length == IO_COUNT && ledState != buttonState
    }

    /** The current value of the record. */
    function Data(): (d: IoModuleData)
      reads this, ledState, buttonState
      requires Valid()
      ensures d.WellFormed()
    {
      IoModuleData(ledState[..], buttonState[..], anRaw, anVal)
    }

    /** The record allocated once and zero-initialised. */
    constructor ()
      ensures Valid() && fresh(ledState) && fresh(buttonState)
      ensures Data() == Zero
      ensures FlagsAreBits(Data())
    {
      ledState := new UInt8[IO_COUNT](_ => 0);
      buttonState := new UInt8[IO_COUNT](_ => 0);
      anRaw, anVal := 0, 0;
      new;
      assert ledState[..] == [0, 0, 0, 0];
      assert buttonState[..] == [0, 0, 0, 0];
    }

    /** The command interface's critical section for an LED command: flip the
        low bit of one LED flag. Nothing else in the record changes. */
    method ToggleLed(idx: nat)
      requires Valid() && idx < IO_COUNT
      modifies ledState
      ensures Data() == old(Data()).(ledState := old(ledState[..])[idx := FlipLowBit(old(ledState[idx]))])
      ensures old(FlagsAreBits(Data())) ==> FlagsAreBits(Data())
    {
      ledState[idx] := FlipLowBit(ledState[idx]);
    }

    /** One pass of the button thread: every button flag becomes the flag of
        the level sampled from its pin, and it is written only when it differs.
        This is the only writer of `button_state`. */
    method PollButtons(levels: seq<int>)
      requires Valid() && |levels| == IO_COUNT
      modifies buttonState
      ensures forall i | 0 <= i < IO_COUNT :: buttonState[i] == LevelFlag(levels[i])
      ensures Data().ledState == old(Data().ledState)
      ensures anRaw == old(anRaw) && anVal == old(anVal)
      ensures old(FlagsAreBits(Data())) ==> FlagsAreBits(Data())
    {
      UpdateButton(0, levels[0]);
      UpdateButton(1, levels[1]);
      UpdateButton(2, levels[2]);
      UpdateButton(3, levels[3]);
    }

    /** The check the button thread repeats for each button: overwrite the
        stored flag when the sampled level's flag differs from it. */
    method UpdateButton(idx: nat, level: int)
      requires Valid() && idx < IO_COUNT
      modifies buttonState
      ensures buttonState[..] == old(buttonState[..])[idx := LevelFlag(level)]
    {
      var current := LevelFlag(level);
      if current != buttonState[idx] {
        buttonState[idx] := current;
      }
    }

    /** One pass of the database thread: store one reading. This is the only
        writer of `an_raw` and `an_val`. */
    method CommitReading(raw: Int16, val: Int32)
      requires Valid()
      modifies this`anRaw, this`anVal
      ensures Data() == old(Data()).(anRaw := raw, anVal := val)
      ensures old(FlagsAreBits(Data())) ==> FlagsAreBits(Data())
    {
      anRaw := raw;
      anVal := val;
    }
  }
}
