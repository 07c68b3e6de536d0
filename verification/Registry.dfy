/** The aircraft registry as a state machine, and the objects that implement it. */
module Registry {
  import opened Common

  const TRACK_EXPIRE: int := 300000
  const SIGNALS: nat := 8

  // ---- the specification: one entry for every address ----

  /** What the registry holds of an aircraft. `levels` are all signal levels so far. */
  datatype Entry = Entry(seen: int, messages: nat, squawk: nat, levels: seq<real>)

  type State = map<nat, Entry>

  datatype Event =
    | Received(addr: nat, squawk: Option<nat>, level: real, now: int)
    | Squawked(addr: nat, code: nat, now: int)
    | Swept(now: int)

  /** Addresses that no aircraft has. */
  predicate NoAddress(addr: nat) {
    addr == 0 || addr == 0xFFFFFF
  }

  function Step(s: State, e: Event): State {
    match e
    case Received(addr, squawk, level, now) =>
      if NoAddress(addr) then s
      else
        var before := if addr in s then s[addr] else Entry(now, 0, 0, []);
        s[addr := Entry(now, before.messages + 1, if squawk.Some? then squawk.value else before.squawk,
                        before.levels + if level > 0.0 then [level] else [])]
    case Squawked(addr, code, now) => if addr in s then s[addr := s[addr].(seen := now, squawk := code)] else s
    case Swept(now) => map a | a in s && now < s[a].seen + TRACK_EXPIRE :: s[a]
  }

  function Run(h: seq<Event>): State {
    if |h| == 0 then map[] else Step(Run(h[..|h| - 1]), h[|h| - 1])
  }

  // ---- the objects ----

  /** In the ring, level number `k` stands in slot k % 8, for the last eight levels. */
  ghost predicate HoldsLast(ring: seq<real>, levels: seq<real>) {
    |ring| == 8 && forall k :: 0 <= k < |levels| && |levels| - 8 <= k ==> ring[k % 8] == levels[k]
  }

  lemma RingStep(ring: seq<real>, levels: seq<real>, level: real)
    requires HoldsLast(ring, levels)
    ensures HoldsLast(ring[|levels| % SIGNALS := level], levels + [level])
  {
    var now, all := ring[|levels| % SIGNALS := level], levels + [level];
    forall k | 0 <= k < |all| && |all| - SIGNALS <= k
      ensures now[k % SIGNALS] == all[k]
    {
      if k < |levels| {
        assert ring[k % SIGNALS] == levels[k];
      }
    }
  }

  /** An aircraft. `levels` are all signal levels ever added. */
  class Aircraft {
    const addr: nat
    var seen: int
    var messages: nat
    var squawk: nat
    var signalLevel: seq<real>
    var signalNext: nat
    ghost var levels: seq<real>

    ghost predicate Valid()
      reads this
    {
      signalNext == |levels| && HoldsLast(signalLevel, levels)
    }

    constructor (addr: nat, now: int)
      ensures this.addr == addr && seen == now && messages == 0 && squawk == 0
      ensures Valid() && levels == [] && signalLevel == seq(SIGNALS, _ => 0.0)
    {
      this.addr, seen, messages, squawk := addr, now, 0, 0;
      signalLevel, signalNext, levels := seq(SIGNALS, _ => 0.0), 0, [];
    }

    /** The last eight signal levels are kept in a ring. */
    method AddSignal(level: real)
      requires Valid()
      modifies this`signalLevel, this`signalNext, this`levels
      ensures Valid() && levels == old(levels) + [level]
    {
      RingStep(signalLevel, levels, level);
      levels := levels + [level];
      signalLevel := signalLevel[signalNext % SIGNALS := level];
      signalNext := signalNext + 1;
    }

    /** What one message changes. The signal level is kept only when it is positive. */
    method Update(code: Option<nat>, level: real, now: int)
      requires Valid()
      modifies this
      ensures Valid() && levels == old(levels) + (if level > 0.0 then [level] else [])
      ensures messages == old(messages) + 1 && seen == now
      ensures squawk == if code.Some? then code.value else old(squawk)
    {
      if code.Some? {
        squawk := code.value;
      }
      if level > 0.0 {
        AddSignal(level);
      }
      messages := messages + 1;
      seen := now;
    }
  }

  class AircraftRegistry {
    var aircraft: map<nat, Aircraft>

    ghost predicate Valid()
      reads this, aircraft.Values
    {
      forall a :: a in aircraft ==> aircraft[a].addr == a && aircraft[a].Valid()
    }

    ghost function View(): (s: State)
      reads this, aircraft.Values
      ensures s.Keys == aircraft.Keys
    {
      map a | a in aircraft :: Entry(aircraft[a].seen, aircraft[a].messages, aircraft[a].squawk, aircraft[a].levels)
    }

    constructor ()
      ensures Valid() && View() == map[] && aircraft == map[]
    {
      aircraft := map[];
    }

    method GetOrCreate(addr: nat, now: int) returns (a: Aircraft)
      requires Valid()
      modifies this
      ensures Valid() && addr in aircraft && aircraft[addr] == a
      ensures addr in old(aircraft) ==> aircraft == old(aircraft)
      ensures addr !in old(aircraft) ==>
                && fresh(a) && aircraft == old(aircraft)[addr := a]
                && a.seen == now && a.messages == 0 && a.squawk == 0 && a.levels == []
    {
      if addr in aircraft {
        a := aircraft[addr];
      } else {
        a := new Aircraft(addr, now);
        aircraft := aircraft[addr := a];
      }
    }

    method RemoveStale(now: int, expire: int) returns (removed: nat)
      requires Valid()
      modifies this
      ensures Valid()
      ensures aircraft == map a | a in old(aircraft) && now < old(aircraft)[a].seen + expire :: old(aircraft)[a]
      ensures removed == |old(aircraft)| - |aircraft|
    {
      hide HoldsLast, Aircraft.Valid;
      var before := |aircraft|;
      ghost var all := aircraft.Keys;
      aircraft := map a | a in aircraft && now < aircraft[a].seen + expire :: aircraft[a];
      Fewer(aircraft.Keys, all);
      removed := before - |aircraft|;
    }
  }

  lemma Fewer(a: set<nat>, b: set<nat>)
    requires a <= b
    ensures |a| <= |b|
  {
    if a != {} {
      var x :| x in a;
      Fewer(a - {x}, b - {x});
    }
  }

  class Tracker {
    const registry: AircraftRegistry

    constructor ()
      ensures fresh(registry) && registry.Valid() && registry.View() == Run([])
    {
      registry := new AircraftRegistry();
    }

    /** One decoded message. */
    method UpdateFromMessage(addr: nat, squawk: Option<nat>, signalLevel: real, now: int)
      requires registry.Valid()
      modifies registry, registry.aircraft.Values
      ensures registry.Valid()
      ensures registry.View() == Step(old(registry.View()), Received(addr, squawk, signalLevel, now))
    {
      hide HoldsLast, Aircraft.Valid;
      if addr == 0 || addr == 0xFFFFFF {
        return;
      }
      var a := registry.GetOrCreate(addr, now);
      a.Update(squawk, signalLevel, now);
    }

    method UpdateSquawkOnly(addr: nat, squawk: nat, now: int)
      requires registry.Valid()
      modifies registry.aircraft.Values
      ensures registry.Valid()
      ensures registry.View() == Step(old(registry.View()), Squawked(addr, squawk, now))
    {
      hide HoldsLast;
      if addr in registry.aircraft {
        var a := registry.aircraft[addr];
        a.squawk := squawk;
        a.seen := now;
      }
    }

    method RemoveStale(now: int) returns (removed: nat)
      requires registry.Valid()
      modifies registry
      ensures registry.Valid()
      ensures registry.View() == Step(old(registry.View()), Swept(now))
      ensures removed == |old(registry.View())| - |registry.View()|
    {
      hide HoldsLast, Aircraft.Valid;
      removed := registry.RemoveStale(now, TRACK_EXPIRE);
      assert |registry.View()| == |registry.View().Keys|;
      assert |old(registry.View())| == |old(registry.View()).Keys|;
    }
  }
}
