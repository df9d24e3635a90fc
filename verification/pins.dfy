/**
 * The pin controller on an abstract board: the level of every output pin,
 * and the restore-on-boot records (one file under `/pins` per pin last
 * switched on), which the boot-time restore routine reads back.
 */
module Pins {
  import opened PyBytes

  const PIN_ID_MIN: nat := 0
  const PIN_ID_MAX: nat := 22

  /** The symbolic on-board LED, or a numbered GPIO pin. */
  datatype PinId = Led | Gpio(n: nat)

  /** The pins a request may name: the LED and GPIO 0 to 22. */
  predicate ValidPin(p: PinId)
  {
    p.Gpio? ==> PIN_ID_MIN <= p.n <= PIN_ID_MAX
  }

  // The pair mirrors the source's `b'on'`, compared with the `x-state` header
  // bytes, against `'on'`, the text sent back; both are bytes on the wire.
  const STATE_ON: seq<byte> := Ascii("on")
  const STATE_ON_STR: seq<byte> := Ascii("on")
  const STATE_OFF_STR: seq<byte> := Ascii("off")

  /**
   * What can be observed of the board: each pin's output level (true is
   * high) and the set of pins with a restore record.
   */
  datatype BoardState = BoardState(levels: map<PinId, bool>, records: set<PinId>)

  /** The level a pin reads back; a pin that was never driven reads low. */
  predicate High(st: BoardState, p: PinId)
  {
    p in st.levels && st.levels[p]
  }

  /**
   * The board after `SetPin(p, state)`: `p` is high exactly when `state` is
   * `on`, its record follows it when restore-on-boot is enabled, and no other
   * pin or record changes.
   */
  function Driven(st: BoardState, p: PinId, state: seq<byte>, restoreOnBoot: bool): (st': BoardState)
    ensures High(st', p) <==> state == STATE_ON
    ensures forall q :: q != p ==> (High(st', q) <==> High(st, q))
    ensures restoreOnBoot ==> (p in st'.records <==> state == STATE_ON)
    ensures !restoreOnBoot ==> st'.records == st.records
    ensures forall q :: q != p ==> (q in st'.records <==> q in st.records)
  {
    var on := state == STATE_ON;
    BoardState(st.levels[p := on],
               if !restoreOnBoot then st.records
               else if on then st.records + {p}
               else st.records - {p})
  }

  /** `GetCurrentPinState`: `on` for a high pin, `off` otherwise. */
  function GetCurrentPinState(st: BoardState, p: PinId): (s: seq<byte>)
    ensures s == STATE_ON_STR <==> High(st, p)
    ensures s == STATE_OFF_STR <==> !High(st, p)
  {
    assert STATE_ON_STR != STATE_OFF_STR by {
      assert |STATE_ON_STR| != |STATE_OFF_STR|;
    }
    if High(st, p) then STATE_ON_STR else STATE_OFF_STR
  }

  /** Driving a pin and reading it back gives `on` exactly when it was driven with `on`. */
  lemma ReadBackAfterDrive(st: BoardState, p: PinId, state: seq<byte>, restoreOnBoot: bool)
    ensures GetCurrentPinState(Driven(st, p, state, restoreOnBoot), p)
         == if state == STATE_ON then STATE_ON_STR else STATE_OFF_STR
  {
  }

  /** Driving a pin twice with the same state is the same as driving it once. */
  lemma DriveIdempotent(st: BoardState, p: PinId, state: seq<byte>, restoreOnBoot: bool)
    ensures Driven(Driven(st, p, state, restoreOnBoot), p, state, restoreOnBoot)
         == Driven(st, p, state, restoreOnBoot)
  {
  }

  /** The board hardware and the `/pins` record directory, both changed in place. */
  class Board {
    var levels: map<PinId, bool>
    var records: set<PinId>

    constructor (levels: map<PinId, bool>, records: set<PinId>)
      ensures State() == BoardState(levels, records)
    {
      this.levels := levels;
      this.records := records;
    }

    function State(): BoardState
      reads this
    {
      BoardState(levels, records)
    }

    /**
     * Drive `p` high for `on` and low for anything else; with restore-on-boot
     * enabled, write the pin's record when switching on and remove it, if
     * present, when switching off.
     */
    method SetPin(p: PinId, state: seq<byte>, restoreOnBoot: bool)
      modifies this
      ensures State() == Driven(old(State()), p, state, restoreOnBoot)
    {
      if state == STATE_ON {
        levels := levels[p := true];
        if restoreOnBoot {
          records := records + {p};
        }
      } else {
        levels := levels[p := false];
        if restoreOnBoot && p in records {
          records := records - {p};
        }
      }
    }
  }
}
