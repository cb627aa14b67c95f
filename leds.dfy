/** The LED thread. It keeps a private shadow of the LED levels it last wrote
    to the pins and, on every pass, writes a pin only where the database's
    `led_state` differs from that shadow. The pin writes are returned in the
    order they are issued instead of being sent to the GPIO driver. */
module Leds {
  import opened Rtdb

  /** One `gpio_pin_set_dt` call: LED `led` is set to `level`. */
  datatype LedWrite = LedWrite(led: nat, level: UInt8)

  /** Each LED is written at most once, in increasing order of index. */
  predicate LedsIncrease(w: seq<LedWrite>) {
    forall k, l | 0 <= k < l < |w| :: w[k].led < w[l].led
  }

  /** The writes a pass issues for LEDs 0 .. n-1, in index order, when the
      database holds `leds` and the shadow holds `shadow`. */
  function PendingWrites(leds: seq<UInt8>, shadow: seq<UInt8>, n: nat): (w: seq<LedWrite>)
    requires n <= |leds| && n <= |shadow|
    ensures |w| <= n
    ensures forall k | 0 <= k < |w| :: w[k].led < n
    decreases n
  {
    if n == 0 then []
    else
      PendingWrites(leds, shadow, n - 1) +
      (if leds[n - 1] != shadow[n - 1] then [LedWrite(n - 1, leds[n - 1])] else [])
  }

  /** A pass writes LED i with level v exactly when i is one of the LEDs
      looked at, its flag differs from the shadow, and v is that flag. */
  lemma {:induction false} PendingWritesExact(leds: seq<UInt8>, shadow: seq<UInt8>, n: nat, i: nat, v: UInt8)
    requires n <= |leds| && n <= |shadow|
    ensures LedWrite(i, v) in PendingWrites(leds, shadow, n) <==>
      i < n && leds[i] != shadow[i] && v == leds[i]
    decreases n
  {
    if n > 0 {
      PendingWritesExact(leds, shadow, n - 1, i, v);
    }
  }

  /** A pass writes the LEDs in increasing order of index, each at most once. */
  lemma {:induction false} PendingWritesInOrder(leds: seq<UInt8>, shadow: seq<UInt8>, n: nat)
    requires n <= |leds| && n <= |shadow|
    ensures LedsIncrease(PendingWrites(leds, shadow, n))
    decreases n
  {
    if n > 0 {
      PendingWritesInOrder(leds, shadow, n - 1);
    }
  }

  /** The levels pins show after each was last set with `gpio_pin_set_dt` to
      the matching value: active for any non-zero value. */
  function PinLevels(values: seq<UInt8>): (levels: seq<UInt8>)
    ensures |levels| == |values|
    ensures forall i | 0 <= i < |values| :: levels[i] == LevelFlag(values[i])
  {
    seq(|values|, i requires 0 <= i < |values| => LevelFlag(values[i]))
  }

  /** Setting pins to 0/1 flags makes them show exactly those flags. */
  lemma PinLevelsOfFlags(values: seq<UInt8>)
    requires forall i | 0 <= i < |values| :: IsFlag(values[i])
    ensures PinLevels(values) == values
  {
  }

  /** The pin levels after the writes `writes` are applied, in order, to pins
      that showed `pins`; a write to a pin that does not exist has no effect. */
  function ApplyWrites(pins: seq<UInt8>, writes: seq<LedWrite>): (r: seq<UInt8>)
    ensures |r| == |pins|
    decreases |writes|
  {
    if writes == [] then pins
    else
      var last := writes[|writes| - 1];
      var before := ApplyWrites(pins, writes[..|writes| - 1]);
      if last.led < |before| then before[last.led := LevelFlag(last.level)] else before
  }

  /** One more write sets one more pin. */
  lemma ApplyWritesSnoc(pins: seq<UInt8>, writes: seq<LedWrite>, x: LedWrite)
    ensures ApplyWrites(pins, writes + [x]) ==
      var before := ApplyWrites(pins, writes);
      if x.led < |before| then before[x.led := LevelFlag(x.level)] else before
  {
    assert (writes + [x])[..|writes|] == writes;
  }

  /** After the writes of a pass over LEDs 0 .. n-1, a pin whose LED flag
      differs from the shadow shows that flag's level; every other pin
      keeps the level it showed. */
  lemma {:induction false} WritesMirrorDatabase(pins: seq<UInt8>, leds: seq<UInt8>, shadow: seq<UInt8>, n: nat)
    requires |pins| == |leds| == |shadow| && n <= |leds|
    ensures forall i | 0 <= i < |leds| ::
      ApplyWrites(pins, PendingWrites(leds, shadow, n))[i] ==
        if i < n && leds[i] != shadow[i] then LevelFlag(leds[i]) else pins[i]
    decreases n
  {
    if n > 0 {
      WritesMirrorDatabase(pins, leds, shadow, n - 1);
      var prev := PendingWrites(leds, shadow, n - 1);
      var before := ApplyWrites(pins, prev);
      var now := ApplyWrites(pins, PendingWrites(leds, shadow, n));
      if leds[n - 1] != shadow[n - 1] {
        var x := LedWrite(n - 1, leds[n - 1]);
        assert PendingWrites(leds, shadow, n) == prev + [x];
        ApplyWritesSnoc(pins, prev, x);
        assert now == before[n - 1 := LevelFlag(leds[n - 1])];
      } else {
        assert PendingWrites(leds, shadow, n) == prev;
      }
      forall i | 0 <= i < |leds|
        ensures now[i] == if i < n && leds[i] != shadow[i] then LevelFlag(leds[i]) else pins[i]
      {
        assert before[i] == if i < n - 1 && leds[i] != shadow[i] then LevelFlag(leds[i]) else pins[i];
      }
    }
  }

  /** After a full pass, pins that showed the shadow's levels show the
      levels of the database's LED flags. */
  lemma PassSyncsPins(pins: seq<UInt8>, leds: seq<UInt8>, shadow: seq<UInt8>)
    requires |leds| == |shadow| && pins == PinLevels(shadow)
    ensures ApplyWrites(pins, PendingWrites(leds, shadow, |leds|)) == PinLevels(leds)
  {
    WritesMirrorDatabase(pins, leds, shadow, |leds|);
  }

  /** The level `configure_buttons_and_leds` gives every LED pin:
      `GPIO_OUTPUT_ACTIVE`, which is logical 1. */
  const ConfiguredLedLevels: seq<UInt8> := [1, 1, 1, 1]

  /** The level the LED thread's shadow assumes the pins start at, and the
      level `led_state` starts at: every LED off (`GPIO_OUTPUT_INACTIVE`). */
  const IntendedLedLevels: seq<UInt8> := [0, 0, 0, 0]

  /** With the pins configured active, the record cleared and the shadow
      zero, the first pass writes nothing and the LEDs stay lit while the
      record says they are off; after '1' sets LED flag 0, the pass writes 1
      to a pin that is already lit, so the first toggle shows no change. */
  lemma ConfiguredLedsHideFirstToggle()
    ensures PendingWrites(Zero.ledState, IntendedLedLevels, IO_COUNT) == []
    ensures ApplyWrites(ConfiguredLedLevels, []) != Zero.ledState
    ensures PendingWrites([1, 0, 0, 0], IntendedLedLevels, IO_COUNT) == [LedWrite(0, 1)]
    ensures ApplyWrites(ConfiguredLedLevels, [LedWrite(0, 1)]) == ConfiguredLedLevels
  {
    InSyncPassIsQuiet(IntendedLedLevels, IO_COUNT);
    assert ApplyWrites(ConfiguredLedLevels, [LedWrite(0, 1)]) ==
      ApplyWrites(ConfiguredLedLevels, [])[0 := LevelFlag(1)];
  }

  /** With the pins starting off, as the zero shadow assumes, the first pass
      leaves the pins showing the levels of the database's LED flags, which
      are the flags themselves when they are 0/1. */
  lemma IntendedStartFirstPass(leds: seq<UInt8>)
    requires |leds| == IO_COUNT
    ensures ApplyWrites(IntendedLedLevels, PendingWrites(leds, IntendedLedLevels, IO_COUNT)) == PinLevels(leds)
    ensures (forall i | 0 <= i < IO_COUNT :: IsFlag(leds[i])) ==>
      ApplyWrites(IntendedLedLevels, PendingWrites(leds, IntendedLedLevels, IO_COUNT)) == leds
  {
    assert PinLevels(IntendedLedLevels) == IntendedLedLevels;
    PassSyncsPins(IntendedLedLevels, leds, IntendedLedLevels);
    if forall i | 0 <= i < IO_COUNT :: IsFlag(leds[i]) {
      PinLevelsOfFlags(leds);
    }
  }

  /** When the shadow already equals the database there is nothing to write. */
  lemma {:induction false} InSyncPassIsQuiet(leds: seq<UInt8>, n: nat)
    requires n <= |leds|
    ensures PendingWrites(leds, leds, n) == []
    decreases n
  {
    if n > 0 {
      InSyncPassIsQuiet(leds, n - 1);
    }
  }

  class LedThread {
    /** `current_led_states`: the levels last written to the four pins. */
    const currentLedStates: array<UInt8>
    /** The levels the four LED pins show. */
    ghost var pins: seq<UInt8>

    /** The thread's invariant: its shadow is its own four-byte array, and
        each pin shows the level of the value last written to it. */
    ghost predicate Valid(db: RealTimeDatabase)
      reads this, currentLedStates
    {
      db.Valid() && currentLedStates.Length == IO_COUNT &&
      currentLedStates != db.ledState && currentLedStates != db.buttonState &&
      pins == PinLevels(currentLedStates[..])
    }

    /** The shadow starts with every LED off, and so do the pins. */
    constructor ()
      ensures fresh(currentLedStates)
      ensures currentLedStates[..] == IntendedLedLevels
      ensures pins == IntendedLedLevels
      ensures forall db: RealTimeDatabase | db.Valid() :: Valid(db)
    {
      currentLedStates := new UInt8[IO_COUNT](_ => 0);
      pins := IntendedLedLevels;
      new;
      assert currentLedStates[..] == IntendedLedLevels;
      assert PinLevels(IntendedLedLevels) == IntendedLedLevels;
    }

    /** One pass of the LED thread: write the pins whose flag differs from
        the shadow and bring the shadow up to date. The database is only read. */
    method Pass(db: RealTimeDatabase) returns (writes: seq<LedWrite>)
      requires Valid(db)
      modifies this`pins, currentLedStates
      ensures Valid(db)
      ensures writes == PendingWrites(db.ledState[..], old(currentLedStates[..]), IO_COUNT)
      ensures currentLedStates[..] == db.ledState[..]
      ensures pins == ApplyWrites(old(pins), writes) == PinLevels(db.ledState[..])
      ensures db.Data() == old(db.Data())
    {
      ghost var shadow := currentLedStates[..];
      writes := [];
      for i := 0 to IO_COUNT
        invariant writes == PendingWrites(db.ledState[..], shadow, i)
        invariant forall j | 0 <= j < i :: currentLedStates[j] == db.ledState[j]
        invariant forall j | i <= j < IO_COUNT :: currentLedStates[j] == shadow[j]
        invariant pins == PinLevels(currentLedStates[..])
      {
        if db.ledState[i] != currentLedStates[i] {
          writes := writes + [LedWrite(i, db.ledState[i])];
          currentLedStates[i] := db.ledState[i];
          pins := pins[i := LevelFlag(db.ledState[i])];
        }
      }
      PassSyncsPins(old(pins), db.ledState[..], shadow);
    }

    /** Two passes with no database change in between: after the first the
        pins show the database's LED flags (their levels, for flags other
        than 0/1), and the second writes nothing. */
    method TwoPasses(db: RealTimeDatabase) returns (first: seq<LedWrite>, second: seq<LedWrite>)
      requires Valid(db)
      modifies this`pins, currentLedStates
      ensures Valid(db)
      ensures first == PendingWrites(db.ledState[..], old(currentLedStates[..]), IO_COUNT)
      ensures ApplyWrites(old(pins), first) == PinLevels(db.ledState[..])
      ensures second == []
      ensures pins == PinLevels(db.ledState[..])
      ensures FlagsAreBits(db.Data()) ==> pins == db.ledState[..]
    {
      first := Pass(db);
      second := Pass(db);
      InSyncPassIsQuiet(db.ledState[..], IO_COUNT);
      if FlagsAreBits(db.Data()) {
        PinLevelsOfFlags(db.ledState[..]);
      }
    }
  }
}
