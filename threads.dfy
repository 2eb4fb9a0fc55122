/**
 * The pause between lock attempts. Time itself is not modelled: a sleep is
 * counted, and which sleeps are interrupted is given up front.
 */
module Threads {

  /** How a sleep ends. */
  datatype Wake =
    | Woke               // slept the full delay
    | InterruptedEx      // another thread interrupted the sleeper
    | IllegalArgument    // the delay was negative; nothing was slept

  datatype SleepState = SleepState(interrupts: set<nat>, sleeps: nat)

  /** One call of the sleep: the `interrupts` hold the numbers of the calls that are interrupted. */
  function SleepStep(z: SleepState, millis: int): (r: (SleepState, Wake)) {
    var t := z.(sleeps := z.sleeps + 1);
    if millis < 0 then (t, IllegalArgument)
    else if t.sleeps in z.interrupts then (t, InterruptedEx)
    else (t, Woke)
  }

  /** The calling thread, as far as its sleeps go. */
  class Sleeper {
    const interrupts: set<nat>
    var sleeps: nat

    function State(): SleepState
      reads this
    {
      SleepState(interrupts, sleeps)
    }

    constructor (interrupts: set<nat>)
      ensures State() == SleepState(interrupts, 0)
    {
      this.interrupts := interrupts;
      sleeps := 0;
    }

    method Sleep(millis: int) returns (w: Wake)
      modifies this
      ensures (State(), w) == SleepStep(old(State()), millis)
    {
      sleeps := sleeps + 1;
      if millis < 0 {
        w := IllegalArgument;
      } else if sleeps in interrupts {
        w := InterruptedEx;
      } else {
        w := Woke;
      }
    }
  }
}
