/** i2c_read_temps: measurements are started on all sensors in one call and read back one sensor per
    call. */
module I2c {

  /** What i2c_read_measurement yields for a sensor. */
  datatype Measurement = Failed | Measured(temp: real, pressure: real, humidity: real)

  /** step, sensor, and the sensors read since measurements were last started. */
  datatype Phase = Phase(step: nat, sensor: nat, done: seq<nat>)

  /** The first active sensor from an index on; the number of sensors if there is none. */
  function NextActive(active: seq<bool>, from: nat): (i: nat)
    requires from <= |active|
    ensures from <= i <= |active|
    ensures i < |active| ==> active[i]
    ensures forall k :: from <= k < i ==> !active[k]
    decreases |active| - from
  {
    if from == |active| || active[from] then from else NextActive(active, from + 1)
  }

  /** One call, with the bus in use. */
  function Poll(p: Phase, active: seq<bool>): Phase
    requires p.step == 1 ==> p.sensor <= |active|
  {
    if p.step != 1 then Phase(1, 0, [])
    else
      var i := NextActive(active, p.sensor);
      Phase(if i + 1 >= |active| then 2 else 1, i + 1, if i < |active| then p.done + [i] else p.done)
  }

  /** The delay that a call asks for. */
  predicate DelayFits(p: Phase, active: seq<bool>, wait: int)
    requires p.step == 1 ==> p.sensor <= |active|
  {
    if p.step == 1 then wait == if Poll(p, active).step == 2 then 10000 else 50
    else wait > 0
  }

  /** The start phase asks for the longest delay that an active sensor needs, or for 15 s if none needs
      any. */
  ghost predicate StartDelay(active: seq<bool>, started: seq<int>, wait: int)
    requires |started| == |active|
  {
    if forall i :: 0 <= i < |active| && active[i] ==> started[i] <= 0 then wait == 15000
    else
      && (forall i :: 0 <= i < |active| && active[i] ==> started[i] <= wait)
      && (exists i :: 0 <= i < |active| && active[i] && started[i] == wait)
  }

  class Poller {
    var step: nat
    var sensor: nat
    const vtemp: array<real>
    const vpressure: array<real>
    const vhumidity: array<real>
    ghost var done: seq<nat>

    ghost predicate Valid(n: nat)
      reads this
    {
      && vtemp.Length == n && vpressure.Length == n && vhumidity.Length == n
      && vtemp != vpressure && vpressure != vhumidity && vtemp != vhumidity
      && (step == 1 ==> sensor <= n)
    }

    ghost function State(): Phase
      reads this
    {
      Phase(step, sensor, done)
    }

    constructor (n: nat)
      ensures Valid(n) && State() == Phase(0, 0, []) && fresh(vtemp) && fresh(vpressure) && fresh(vhumidity)
    {
      step, sensor, done := 0, 0, [];
      vtemp := new real[n](_ => 0.0);
      vpressure := new real[n](_ => 0.0);
      vhumidity := new real[n](_ => 0.0);
    }

    /** Start a conversion on every active sensor; the longest delay that one asks for counts. */
    method StartAll(active: seq<bool>, started: seq<int>) returns (wait: int)
      requires |started| == |active|
      ensures wait > 0 && StartDelay(active, started, wait)
    {
      wait := 0;
      for i := 0 to |active|
        invariant wait >= 0
        invariant forall k :: 0 <= k < i && active[k] ==> started[k] <= wait
        invariant wait == 0 || exists k :: 0 <= k < i && active[k] && started[k] == wait
      {
        if active[i] {
          if started[i] >= 0 {
            if started[i] > wait {
              wait := started[i];
            }
          }
        }
      }
      if wait < 1 {
        wait := 15000;
      }
    }

    /** i2c_read_temps. active says which sensors are configured for I2C and initialised. */
    method ReadTemps(busInUse: bool, active: seq<bool>, started: seq<int>, measured: seq<Measurement>)
      returns (wait: int)
      requires Valid(|active|) && |started| == |active| == |measured|
      modifies this, vtemp, vpressure, vhumidity
      ensures Valid(|active|)
      ensures !busInUse ==> wait == -1 && State() == old(State())
      ensures busInUse ==> State() == Poll(old(State()), active) && DelayFits(old(State()), active, wait) && wait > 0
      ensures busInUse && old(step) != 1 ==> StartDelay(active, started, wait)
      ensures busInUse && old(step) == 1 ==> wait == if step == 1 then 50 else 10000
      ensures forall i :: 0 <= i < |active| ==>
                if busInUse && old(step) == 1 && i == NextActive(active, old(sensor)) && measured[i].Measured?
                then vtemp[i] == measured[i].temp && vpressure[i] == measured[i].pressure
                     && vhumidity[i] == measured[i].humidity
                else vtemp[i] == old(vtemp[i]) && vpressure[i] == old(vpressure[i]) && vhumidity[i] == old(vhumidity[i])
    {
      if !busInUse {
        return -1;
      }
      if step > 1 {
        step := 0;
      }
      if step == 0 {
        wait := StartAll(active, started);
        sensor := 0;
        step := step + 1;
        done := [];
      } else {
        ghost var first := NextActive(active, sensor);
        var i := sensor;
        while i < |active| && !active[i]
          invariant sensor <= i <= first
        {
          i := i + 1;
        }
        if i < |active| {
          if measured[i].Measured? {
            vtemp[i] := measured[i].temp;
            vpressure[i] := measured[i].pressure;
            vhumidity[i] := measured[i].humidity;
          }
          done := done + [i];
        }
        sensor := i + 1;
        if sensor >= |active| {
          wait := 10000;
          step := step + 1;
        } else {
          wait := 50;
        }
      }
    }
  }

  // ---- Whole rounds ----

  /** The active sensors from an index on, in increasing order. */
  function ActiveFrom(active: seq<bool>, from: nat): seq<nat>
    requires from <= |active|
    decreases |active| - from
  {
    if from == |active| then []
    else if active[from] then [from] + ActiveFrom(active, from + 1)
    else ActiveFrom(active, from + 1)
  }

  lemma {:induction false} ActiveFromNext(active: seq<bool>, from: nat)
    requires from <= |active|
    ensures var i := NextActive(active, from);
            ActiveFrom(active, from) == if i < |active| then [i] + ActiveFrom(active, i + 1) else []
    decreases |active| - from
  {
    if from < |active| && !active[from] {
      ActiveFromNext(active, from + 1);
    }
  }

  /** The list holds exactly the active sensors, each once, in increasing order. */
  lemma {:induction false} ActiveFromIsComplete(active: seq<bool>, from: nat)
    requires from <= |active|
    ensures var a := ActiveFrom(active, from);
            && (forall i, j :: 0 <= i < j < |a| ==> a[i] < a[j])
            && (forall s: nat :: s in a <==> from <= s < |active| && active[s])
    decreases |active| - from
  {
    if from < |active| {
      ActiveFromIsComplete(active, from + 1);
      var a, b := ActiveFrom(active, from), ActiveFrom(active, from + 1);
      if active[from] {
        assert a == [from] + b;
        forall i, j | 0 <= i < j < |a| ensures a[i] < a[j] {
          assert a[j] == b[j - 1] && b[j - 1] in b;
        }
      }
    }
  }

  function PollN(p: Phase, active: seq<bool>, n: nat): (r: Phase)
    requires p.step == 1 ==> p.sensor <= |active|
    ensures r.step == 1 ==> r.sensor <= |active|
  {
    if n == 0 then p else Poll(PollN(p, active, n - 1), active)
  }

  lemma {:induction false} PollFirst(p: Phase, active: seq<bool>, n: nat)
    requires p.step == 1 ==> p.sensor <= |active|
    ensures PollN(p, active, n + 1) == PollN(Poll(p, active), active, n)
  {
    if n > 0 {
      PollFirst(p, active, n - 1);
    }
  }

  /** How many calls a read phase takes from a sensor on: one for each active sensor left, and one more
      to find that there is none behind the last, unless the last sensor of all was read. */
  function CallsFrom(active: seq<bool>, from: nat): nat
    requires from <= |active|
  {
    var a := ActiveFrom(active, from);
    if a != [] && a[|a| - 1] == |active| - 1 then |a| else |a| + 1
  }

  lemma CallsStep(active: seq<bool>, from: nat)
    requires from <= |active|
    ensures var i := NextActive(active, from);
            CallsFrom(active, from) == if i + 1 < |active| then 1 + CallsFrom(active, i + 1) else 1
  {
    var i := NextActive(active, from);
    ActiveFromNext(active, from);
    if i < |active| {
      var a, b := ActiveFrom(active, from), ActiveFrom(active, i + 1);
      assert a == [i] + b && (b != [] ==> a[|a| - 1] == b[|b| - 1]);
      ActiveFromIsComplete(active, i + 1);
    }
  }

  lemma {:induction false} PollReads(p: Phase, active: seq<bool>)
    requires p.step == 1 && p.sensor <= |active|
    ensures var i := NextActive(active, p.sensor);
            Poll(p, active) == Phase(if i + 1 < |active| then 1 else 2, i + 1,
                                     if i < |active| then p.done + [i] else p.done)
  {
  }

  /** A call of a read phase behind which there are more sensors. */
  lemma {:induction false} ReadStepOn(p: Phase, active: seq<bool>, i: nat)
    requires p.step == 1 && p.sensor <= |active| && i == NextActive(active, p.sensor) && i + 1 < |active|
    ensures Poll(p, active) == Phase(1, i + 1, p.done + [i])
    ensures p.done + [i] + ActiveFrom(active, i + 1) == p.done + ActiveFrom(active, p.sensor)
    ensures CallsFrom(active, p.sensor) == 1 + CallsFrom(active, i + 1)
  {
    hide ActiveFrom, CallsFrom, NextActive;
    PollReads(p, active);
    CallsStep(active, p.sensor);
    hide Poll;
    ActiveFromNext(active, p.sensor);
    Collected(p.done, i, ActiveFrom(active, i + 1));
  }

  /** The call that ends a read phase. */
  lemma {:induction false} ReadStepLast(p: Phase, active: seq<bool>, i: nat)
    requires p.step == 1 && p.sensor <= |active| && i == NextActive(active, p.sensor) && i + 1 >= |active|
    ensures Poll(p, active) == Phase(2, i + 1, p.done + ActiveFrom(active, p.sensor))
    ensures CallsFrom(active, p.sensor) == 1
  {
    hide ActiveFrom, CallsFrom, NextActive;
    PollReads(p, active);
    CallsStep(active, p.sensor);
    hide Poll;
    ActiveFromNext(active, p.sensor);
    NothingBehind(active);
    Collected(p.done, i, []);
  }

  lemma Collected(done: seq<nat>, i: nat, behind: seq<nat>)
    ensures done + [] == done && [i] + [] == [i]
    ensures done + [i] + behind == done + ([i] + behind)
  {
  }

  lemma {:induction false} ReadPhaseEnds(p: Phase, active: seq<bool>)
    requires p.step == 1 && p.sensor <= |active|
    ensures var n := CallsFrom(active, p.sensor);
            && PollN(p, active, n).step == 2
            && PollN(p, active, n).done == p.done + ActiveFrom(active, p.sensor)
    decreases |active| - p.sensor
  {
    var q, i := Poll(p, active), NextActive(active, p.sensor);
    assert PollN(q, active, 0) == q;
    hide ActiveFrom, CallsFrom, NextActive, Poll, PollN;
    if i + 1 < |active| {
      ReadStepOn(p, active, i);
      ReadPhaseEnds(q, active);
      PollFirst(p, active, CallsFrom(active, i + 1));
    } else {
      ReadStepLast(p, active, i);
      PollFirst(p, active, 0);
    }
  }

  lemma {:induction false} ReadPhaseLasts(p: Phase, active: seq<bool>, k: nat)
    requires p.step == 1 && p.sensor <= |active| && k < CallsFrom(active, p.sensor)
    ensures PollN(p, active, k).step == 1
    decreases |active| - p.sensor
  {
    assert PollN(p, active, 0) == p;
    hide ActiveFrom, CallsFrom, NextActive, Poll, PollN;
    if k > 0 {
      var i := NextActive(active, p.sensor);
      if i + 1 < |active| {
        ReadStepOn(p, active, i);
        ReadPhaseLasts(Phase(1, i + 1, p.done + [i]), active, k - 1);
        PollFirst(p, active, k - 1);
      } else {
        ReadStepLast(p, active, i);
      }
    }
  }

  lemma {:induction false} NothingBehind(active: seq<bool>)
    ensures ActiveFrom(active, |active|) == []
  {
  }

  /** From any state outside a read phase, with an unchanged configuration: one call starts all sensors,
      then a read phase reads every active sensor exactly once in increasing order and ends within one
      call more than there are active sensors; after it the next round begins. */
  lemma Round(p: Phase, active: seq<bool>)
    requires p.step != 1
    ensures var n := CallsFrom(active, 0);
            && PollN(p, active, 1) == Phase(1, 0, [])
            && n <= |ActiveFrom(active, 0)| + 1
            && (forall k: nat :: 1 <= k <= n ==> PollN(p, active, k).step == 1)
            && PollN(p, active, n + 1).step == 2 && PollN(p, active, n + 1).done == ActiveFrom(active, 0)
  {
    var n, q := CallsFrom(active, 0), Poll(p, active);
    assert PollN(p, active, 1) == Poll(PollN(p, active, 0), active);
    ReadPhaseEnds(q, active);
    PollFirst(p, active, n);
    forall k: nat | 1 <= k <= n ensures PollN(p, active, k).step == 1 {
      ReadPhaseLasts(q, active, k - 1);
      PollFirst(p, active, k - 1);
    }
  }

  lemma {:induction false} PollConcat(p: Phase, active: seq<bool>, a: nat, b: nat)
    requires p.step == 1 ==> p.sensor <= |active|
    ensures PollN(p, active, a + b) == PollN(PollN(p, active, a), active, b)
  {
    hide Poll;
    if b > 0 {
      PollConcat(p, active, a, b - 1);
      var n: nat := a + (b - 1);
      assert n + 1 == a + b && PollN(p, active, n + 1) == Poll(PollN(p, active, n), active);
    }
  }

  const FIRST_CALL := Phase(0, 0, [])

  /** The calls before the r-th round. */
  function RoundStart(active: seq<bool>, r: nat): (n: nat)
    ensures n == r * (CallsFrom(active, 0) + 1)
  {
    if r == 0 then 0 else RoundStart(active, r - 1) + CallsFrom(active, 0) + 1
  }

  lemma {:induction false} NoRoundIsOpen(active: seq<bool>, r: nat)
    ensures PollN(FIRST_CALL, active, RoundStart(active, r)).step != 1
  {
    assert PollN(FIRST_CALL, active, 0) == FIRST_CALL;
    hide PollN, Poll, CallsFrom, ActiveFrom;
    if r > 0 {
      NoRoundIsOpen(active, r - 1);
      var start := RoundStart(active, r - 1);
      Round(PollN(FIRST_CALL, active, start), active);
      PollConcat(FIRST_CALL, active, start, CallsFrom(active, 0) + 1);
    }
  }

  /** From power-on all calls fall into rounds of one length: in every round the first call starts the
      sensors, all others read, and the last leaves every active sensor read exactly once. */
  lemma Rounds(active: seq<bool>, r: nat, k: nat)
    requires 1 <= k <= CallsFrom(active, 0) + 1
    ensures var q, n := PollN(FIRST_CALL, active, RoundStart(active, r) + k), CallsFrom(active, 0);
            && (k == 1 ==> q == Phase(1, 0, []))
            && (k <= n ==> q.step == 1)
            && (k == n + 1 ==> q.step == 2 && q.done == ActiveFrom(active, 0))
  {
    hide PollN, Poll, CallsFrom, ActiveFrom;
    var start := RoundStart(active, r);
    hide RoundStart;
    NoRoundIsOpen(active, r);
    Round(PollN(FIRST_CALL, active, start), active);
    PollConcat(FIRST_CALL, active, start, k);
  }
}
