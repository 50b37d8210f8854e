/** Suppressing repeated filesystem events, with eviction of entries that can no longer matter. */
module Debounce {

  /** The unbounded reference: when each key was last let through. */
  type Emissions = map<string, real>

  predicate ShouldEmit(m: Emissions, window: real, key: string, now: real) {
    window == 0.0 || key !in m || now - m[key] >= window
  }

  function Emit(m: Emissions, window: real, key: string, now: real): Emissions {
    if window != 0.0 && ShouldEmit(m, window, key, now) then m[key := now] else m
  }

  lemma SameKeysWithout(keys: seq<string>, m: map<string, real>)
    requires keys != [] && (forall k :: k in keys <==> k in m)
    requires forall i, j :: 0 <= i < j < |keys| ==> keys[i] != keys[j]
    ensures forall k :: k in keys[1..] <==> k in m - {keys[0]}
  {
    assert keys == [keys[0]] + keys[1..];
  }

  class EventDebouncer {
    const window: real
    var keys: seq<string>          // oldest emission first
    var lastSeen: map<string, real>
    ghost var emissions: Emissions // nothing evicted
    ghost var clock: real          // the latest time seen

    /** The kept entries are the true emission times, oldest first; whatever is missing is at least a
        window old. */
    ghost predicate Valid()
      reads this
    {
      && window >= 0.0
      && (forall k :: k in keys <==> k in lastSeen)
      && (forall i, j :: 0 <= i < j < |keys| ==> keys[i] != keys[j] && lastSeen[keys[i]] <= lastSeen[keys[j]])
      && (forall k :: k in lastSeen ==> k in emissions && emissions[k] == lastSeen[k] <= clock)
      && (forall k :: k in emissions && k !in lastSeen ==> clock - emissions[k] >= window)
    }

    constructor (window: real, now: real)
      requires window >= 0.0
      ensures Valid() && this.window == window && emissions == map[] && clock == now
    {
      this.window := window;
      keys, lastSeen, emissions, clock := [], map[], map[], now;
    }

    /** Decides as the unbounded map would, and afterwards keeps no entry a window old. */
    method ShouldEmitNow(key: string, now: real) returns (emit: bool)
      requires Valid() && clock <= now
      modifies this
      ensures Valid() && clock == now
      ensures emit <==> ShouldEmit(old(emissions), window, key, now)
      ensures emissions == Emit(old(emissions), window, key, now)
      ensures window == 0.0 ==> emit
      ensures emit && window != 0.0 ==> key in lastSeen && lastSeen[key] == now
      ensures window != 0.0 ==> forall k :: k in lastSeen ==> now - lastSeen[k] < window
    {
      if window == 0.0 {
        clock := now;
        return true;
      }
      EvictStale(now);
      if key in lastSeen && now - lastSeen[key] < window { return false; }
      assert key !in keys;
      lastSeen := lastSeen[key := now];
      keys := keys + [key];
      emissions := emissions[key := now];
      emit := true;
    }

    /** Drops entries from the front until one is younger than the window. */
    method EvictStale(now: real)
      requires Valid() && clock <= now && window > 0.0
      modifies this
      ensures Valid() && clock == now && emissions == old(emissions)
      ensures forall k :: k in lastSeen ==> now - lastSeen[k] < window
    {
      clock := now;
      while keys != []
        invariant Valid() && clock == now && emissions == old(emissions)
        invariant keys == [] ==> forall k :: k in lastSeen ==> now - lastSeen[k] < window
        decreases |keys|
      {
        var oldest := keys[0];
        if now - lastSeen[oldest] < window {
          forall k | k in lastSeen ensures now - lastSeen[k] < window {
            var i :| 0 <= i < |keys| && keys[i] == k;
          }
          break;
        }
        DropOldest(now);
      }
    }

    method DropOldest(now: real)
      requires Valid() && clock == now && keys != [] && now - lastSeen[keys[0]] >= window
      modifies this`keys, this`lastSeen
      ensures Valid() && keys == old(keys)[1..]
    {
      var oldest := keys[0];
      SameKeysWithout(keys, lastSeen);
      lastSeen := lastSeen - {oldest};
      keys := keys[1..];
    }

    method Reset()
      requires Valid()
      modifies this
      ensures Valid() && emissions == map[] && clock == old(clock)
    {
      keys, lastSeen, emissions := [], map[], map[];
    }
  }

  // ----- over whole runs -----

  datatype Event = Event(key: string, time: real)

  function After(m: Emissions, window: real, events: seq<Event>): Emissions
    decreases |events|
  {
    if events == [] then m
    else
      var n := |events| - 1;
      Emit(After(m, window, events[..n]), window, events[n].key, events[n].time)
  }

  predicate Emitted(window: real, events: seq<Event>, i: nat)
    requires i < |events|
  {
    ShouldEmit(After(map[], window, events[..i]), window, events[i].key, events[i].time)
  }

  ghost predicate Monotone(events: seq<Event>) {
    forall i, j :: 0 <= i < j < |events| ==> events[i].time <= events[j].time
  }

  /** The reference map holds, for each key, the time of its latest emission. */
  lemma {:induction false} LatestEmission(window: real, events: seq<Event>, k: nat, i: nat)
    requires window > 0.0 && Monotone(events) && i < k <= |events| && Emitted(window, events, i)
    ensures var m := After(map[], window, events[..k]);
            events[i].key in m && m[events[i].key] >= events[i].time
  {
    assert events[..k][..k - 1] == events[..k - 1];
    if i < k - 1 {
      LatestEmission(window, events, k - 1, i);
    }
  }

  /** Two emissions of one key are at least a window apart. */
  lemma EmissionsAreSpaced(window: real, events: seq<Event>, i: nat, j: nat)
    requires window > 0.0 && Monotone(events) && i < j < |events| && events[i].key == events[j].key
    requires Emitted(window, events, i) && Emitted(window, events, j)
    ensures events[j].time - events[i].time >= window
  {
    LatestEmission(window, events, j, i);
  }

  lemma {:induction false} EntryWasEmitted(window: real, events: seq<Event>, k: nat, key: string) returns (i: nat)
    requires window > 0.0 && k <= |events| && key in After(map[], window, events[..k])
    ensures i < k && events[i].key == key && Emitted(window, events, i)
    ensures After(map[], window, events[..k])[key] == events[i].time
  {
    assert k > 0;
    assert events[..k][..k - 1] == events[..k - 1];
    if events[k - 1].key == key && Emitted(window, events, k - 1) {
      i := k - 1;
    } else {
      i := EntryWasEmitted(window, events, k - 1, key);
    }
  }

  /** An event is suppressed exactly when the same key was emitted less than a window before. */
  lemma SuppressedExactly(window: real, events: seq<Event>, j: nat)
    requires window > 0.0 && Monotone(events) && j < |events|
    ensures !Emitted(window, events, j)
            <==> exists i :: 0 <= i < j && events[i].key == events[j].key && Emitted(window, events, i)
                             && events[j].time - events[i].time < window
  {
    if !Emitted(window, events, j) {
      var i := EntryWasEmitted(window, events, j, events[j].key);
    }
    forall i | 0 <= i < j && events[i].key == events[j].key && Emitted(window, events, i)
      ensures Emitted(window, events, j) ==> events[j].time - events[i].time >= window
    {
      if Emitted(window, events, j) {
        EmissionsAreSpaced(window, events, i, j);
      }
    }
  }
}
