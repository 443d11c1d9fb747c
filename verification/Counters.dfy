/** The two locked integers (crates/clock, crates/ids). One primitive call is one lock acquisition. */
module Counters {

  class Generator {
    var value: int

    constructor ()
      ensures value == 0
    {
      value := 0;
    }

    method NextId() returns (id: int)
      modifies this
      ensures id == value == old(value) + 1
    {
      value := value + 1;
      id := value;
    }

    method Current() returns (v: int)
      ensures v == value
    {
      v := value;
    }

    method SetCurrent(v: int)
      modifies this
      ensures value == v
    {
      value := v;
    }
  }

  class Logical {
    var value: int

    constructor (start: int)
      ensures value == start
    {
      value := start;
    }

    method Now() returns (v: int)
      ensures v == value
    {
      v := value;
    }

    method Tick()
      modifies this
      ensures value == old(value) + 1
    {
      value := value + 1;
    }

    /** `Logical`'s override of `set_now`: one write, backwards too. */
    method SetNow(v: int)
      modifies this
      ensures value == v
    {
      value := v;
    }

    /** Other threads may tick any number of times between two lock acquisitions of this one. */
    method OthersTick() returns (n: nat)
      modifies this
      ensures value == old(value) + n
    {
      n :| n >= 0;
      value := value + n;
    }

    /** The trait's default `set_now`, among ticking threads: it makes exactly max(0, v - now) ticks of its
        own, every tick counts, so the clock ends at `v` or later. Alone it ends at max(v, now), which is
        what the override leaves exactly when `v` is not in the past. */
    method SetNowByTicks(v: int) returns (own: nat, others: nat)
      modifies this
      ensures own == if v > old(value) then v - old(value) else 0
      ensures value == old(value) + own + others
      ensures value >= v && value >= old(value)
      ensures others == 0 ==> (value == v <==> v >= old(value))
    {
      own, others := 0, 0;
      var cur := Now();
      while cur < v
        invariant cur == old(value) + own && value == cur + others
        invariant cur <= v || own == 0
      {
        var n := OthersTick();
        Tick();
        cur, own, others := cur + 1, own + 1, others + n;
      }
    }
  }
}
