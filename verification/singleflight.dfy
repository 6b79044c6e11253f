/** The duplicate-suppression group of gee-cache's singleflight package.

    `Group.Do` has two lock sections (lines 24-36 and 41-43).  Between
    them, with the mutex released, the leader runs the function, stores its
    result and calls `wg.Done`.  Each of the three parts is one atomic step
    here: `Begin` (look the key up, join the call found or register a new
    one), `Complete` (store what the function returned and mark the call
    done, in place of `wg.Done`) and `Remove` (delete the key).  `Complete`
    may be atomic because only the leader writes the call, and nobody reads
    its result before `wg.Done`.  A joiner's
    `wg.Wait()` followed by reading the result is `Call.Wait`, which may be
    taken once the call is done.  The function itself is not modelled: the
    value and error it returns are parameters of `Complete`.  Ghost counters
    record, per key, how many calls were created (waves) and how many times
    the function ran (runs). */
module SingleFlight {

  /** An in-flight or completed `Do` call. */
  class Call<V(0), E(0)> {
    var val: V
    var err: E
    var done: bool         // the WaitGroup has reached zero
    ghost const key: string
    ghost const wave: nat  // this is the wave-th call created for key

    /** `new(call)` followed by `wg.Add(1)`: not done. */
    constructor (ghost key: string, ghost wave: nat)
      ensures !done && this.key == key && this.wave == wave
    {
      this.key := key;
      this.wave := wave;
      done := false;
    }

    /** `c.wg.Wait()` then `return c.val, c.err`: once the call is done, the
        caller gets exactly the result stored in it. */
    method Wait() returns (v: V, e: E)
      requires done
      ensures v == val && e == err
    {
      v, e := val, err;
    }
  }

  /** What the first lock section of `Do` finds: a call to join, or the
      fresh call this caller now leads. */
  datatype Outcome<V(0), E(0)> = Joined(c: Call<V, E>) | Leader(c: Call<V, E>)

  class Group<V(0), E(0)> {
    var m: map<string, Call<V, E>>
    var made: bool                     // g.m is no longer nil
    ghost var runs: map<string, nat>   // times the function ran, per key
    ghost var waves: map<string, nat>  // calls created, per key

    ghost function Runs(key: string): nat
      reads this
    {
      if key in runs then runs[key] else 0
    }

    ghost function Waves(key: string): nat
      reads this
    {
      if key in waves then waves[key] else 0
    }

    /** A registered call whose function has not returned yet. */
    ghost predicate InFlight(key: string)
      reads this, m.Values
    {
      key in m && !m[key].done
    }

    /** The nil map is empty; each registered call belongs to its key and is
        the latest call created for it; and the function has run once per
        call created for a key, except for a call still in flight. */
    ghost predicate Valid()
      reads this, m.Values
    {
      && (!made ==> m == map[])
      && (forall key | key in m :: m[key].key == key && m[key].wave == Waves(key))
      && (forall key :: Runs(key) + (if InFlight(key) then 1 else 0) == Waves(key))
    }

    /** The zero `Group`: its map is nil and nothing has run. */
    constructor ()
      ensures Valid() && !made && m == map[]
      ensures forall key :: Runs(key) == 0 && Waves(key) == 0
    {
      m := map[];
      made := false;
      runs := map[];
      waves := map[];
    }

    /** The first lock section of `Do`: create the map if it is nil; join
        the call registered for `key` if there is one, done or not, leaving
        everything as it was; otherwise register a fresh call under `key`
        and lead it, leaving the other keys alone. */
    method Begin(key: string) returns (o: Outcome<V, E>)
      requires Valid()
      modifies this
      ensures Valid() && made
      ensures runs == old(runs)
      ensures key in old(m) ==> o == Joined(old(m)[key]) && m == old(m) && waves == old(waves)
      ensures key !in old(m) ==>
        && o.Leader? && fresh(o.c) && !o.c.done
        && m == old(m)[key := o.c]
        && waves == old(waves)[key := old(Waves(key)) + 1]
    {
      if !made {
        m := map[];
        made := true;
      }
      if key in m {
        o := Joined(m[key]);
        return;
      }
      var wave := Waves(key) + 1;
      var c := new Call(key, wave);
      m := m[key := c];
      waves := waves[key := wave];
      o := Leader(c);
      forall k | k != key
        ensures Runs(k) + (if InFlight(k) then 1 else 0) == Waves(k)
      {
        assert InFlight(k) == old(InFlight(k));
      }
    }

    /** `c.val, c.err = fn()` and `c.wg.Done()`, by the leader of the call
        registered under `key`: the function runs once, its result is stored
        unchanged and the call is done; the call stays registered. */
    method Complete(key: string, c: Call<V, E>, v: V, e: E)
      requires Valid() && key in m && m[key] == c && !c.done
      modifies this, c
      ensures Valid()
      ensures c.done && c.val == v && c.err == e
      ensures m == old(m) && made == old(made) && waves == old(waves)
      ensures runs == old(runs)[key := old(Runs(key)) + 1]
    {
      // each registered call belongs to its own key, so no other key holds c
      assert forall k | k in m && k != key :: m[k] != c;
      c.val, c.err := v, e;
      c.done := true;
      runs := runs[key := Runs(key) + 1];
      forall k | k != key
        ensures Runs(k) + (if InFlight(k) then 1 else 0) == Waves(k)
      {
        assert InFlight(k) == old(InFlight(k));
      }
    }

    /** The last lock section of `Do`: delete `key`, whose call (if any) is
        done; the other keys keep their calls. */
    method Remove(key: string)
      requires Valid() && (key in m ==> m[key].done)
      modifies this
      ensures Valid()
      ensures m == old(m) - {key}
      ensures made == old(made) && runs == old(runs) && waves == old(waves)
    {
      m := m - {key};
      // the deleted call was done, so no key changes whether it is in flight
      forall k
        ensures Runs(k) + (if InFlight(k) then 1 else 0) == Waves(k)
      {
        assert InFlight(k) == old(InFlight(k));
      }
    }

    /** `Do` for a caller that does not have to block: the key is absent or
        its call is done.  `(v, e)` is what the function would return.  A
        joiner gets the stored result and the function does not run; a
        leader runs it once, gets exactly its result and leaves the key
        absent. */
    method Do(key: string, v: V, e: E) returns (val: V, err: E)
      requires Valid() && (key in m ==> m[key].done)
      modifies this
      ensures Valid() && made
      ensures key in old(m) ==>
        && val == old(m[key].val) && err == old(m[key].err)
        && m == old(m) && runs == old(runs) && waves == old(waves)
      ensures key !in old(m) ==>
        && val == v && err == e
        && m == old(m)
        && runs == old(runs)[key := old(Runs(key)) + 1]
        && waves == old(waves)[key := old(Waves(key)) + 1]
    {
      var o := Begin(key);
      match o {
        case Joined(c) =>
          val, err := c.Wait();
        case Leader(c) =>
          Complete(key, c, v, e);
          Remove(key);
          val, err := c.val, c.err;
      }
    }
  }

  /** Registering a call under an absent key and deleting it again gives
      back the map as it was. */
  lemma UpdateThenRemove<K, W>(m: map<K, W>, k: K, w: W)
    requires k !in m
    ensures m[k := w] - {k} == m
  {
  }

  /** `joiners` callers run the first lock section of `Do` while the call
      under `key` is in flight: each of them joins that call, and the group
      is left as it was. */
  method JoinInFlight<V(0), E(0)>(g: Group<V, E>, key: string, joiners: nat) returns (calls: seq<Call<V, E>>)
    requires g.Valid() && key in g.m && !g.m[key].done
    modifies g
    ensures g.Valid() && g.made
    ensures g.m == old(g.m) && g.runs == old(g.runs) && g.waves == old(g.waves)
    ensures |calls| == joiners
    ensures forall i :: 0 <= i < |calls| ==> calls[i] == old(g.m[key])
  {
    calls := [];
    while |calls| < joiners
      invariant g.Valid() && g.made
      invariant g.m == old(g.m) && g.runs == old(g.runs) && g.waves == old(g.waves)
      invariant |calls| <= joiners
      invariant forall i :: 0 <= i < |calls| ==> calls[i] == old(g.m[key])
    {
      var o := g.Begin(key);
      calls := calls + [o.c];
    }
  }

  /** Every joiner waits on its call once it is done: each gets exactly the
      result stored in its call. */
  method WaitAll<V(0), E(0)>(calls: seq<Call<V, E>>) returns (results: seq<(V, E)>)
    requires forall i :: 0 <= i < |calls| ==> calls[i].done
    ensures |results| == |calls|
    ensures forall i :: 0 <= i < |calls| ==> results[i] == (calls[i].val, calls[i].err)
  {
    results := [];
    for i := 0 to |calls|
      invariant |results| == i
      invariant forall j :: 0 <= j < i ==> results[j] == (calls[j].val, calls[j].err)
    {
      var vi, ei := calls[i].Wait();
      results := results + [(vi, ei)];
    }
  }

  /** One wave with `joiners` callers arriving while the leader's function
      runs: the function runs once and every caller, leader and joiners,
      gets the result it returned, error included; the key is absent
      afterwards and the other keys keep their calls. */
  method CoalescedWave<V(0), E(0)>(g: Group<V, E>, key: string, joiners: nat, v: V, e: E)
    returns (results: seq<(V, E)>)
    requires g.Valid() && key !in g.m
    modifies g
    ensures g.Valid()
    ensures |results| == joiners + 1
    ensures forall i :: 0 <= i < |results| ==> results[i] == (v, e)
    ensures g.m == old(g.m)
    ensures g.runs == old(g.runs)[key := old(g.Runs(key)) + 1]
  {
    ghost var runs0 := g.runs;
    var lead := g.Begin(key);
    var c := lead.c;
    assert g.m == old(g.m)[key := c] && g.runs == runs0;
    var calls := JoinInFlight(g, key, joiners);
    assert forall i :: 0 <= i < |calls| ==> calls[i] == c;
    g.Complete(key, c, v, e);
    assert c.done && c.val == v && c.err == e;
    results := WaitAll(calls);
    assert forall i :: 0 <= i < |results| ==> results[i] == (v, e);
    UpdateThenRemove(old(g.m), key, c);
    g.Remove(key);
    results := results + [(c.val, c.err)];
  }

  /** A caller arriving after `wg.Done` but before `delete` finds the
      completed call still registered, joins it and gets its result without
      running the function. */
  method LateArrivalJoins<V(0), E(0)>(g: Group<V, E>, key: string, v: V, e: E)
    returns (late: (V, E))
    requires g.Valid() && key !in g.m
    modifies g
    ensures g.Valid()
    ensures late == (v, e)
    ensures g.m == old(g.m)
    ensures g.runs == old(g.runs)[key := old(g.Runs(key)) + 1]
  {
    ghost var runs0, n0 := g.runs, g.Runs(key);
    var lead := g.Begin(key);
    var c := lead.c;
    assert g.m == old(g.m)[key := c] && g.runs == runs0 && g.Runs(key) == n0;
    g.Complete(key, c, v, e);
    assert g.m == old(g.m)[key := c] && c.done && c.val == v && c.err == e;
    assert g.runs == runs0[key := n0 + 1];
    var o := g.Begin(key);
    assert o == Joined(c) && g.m == old(g.m)[key := c];
    var lv, le := c.Wait();
    late := (lv, le);
    UpdateThenRemove(old(g.m), key, c);
    g.Remove(key);
  }

  /** No caching across waves: a `Do` after the previous one returned finds
      no entry, runs the function again and returns its new result. */
  method NoCachingAcrossWaves<V(0), E(0)>(g: Group<V, E>, key: string, v1: V, e1: E, v2: V, e2: E)
    returns (first: (V, E), second: (V, E))
    requires g.Valid() && key !in g.m
    modifies g
    ensures g.Valid()
    ensures first == (v1, e1) && second == (v2, e2)
    ensures g.m == old(g.m)
    ensures g.Runs(key) == old(g.Runs(key)) + 2 && g.Waves(key) == old(g.Waves(key)) + 2
  {
    var a, b := g.Do(key, v1, e1);
    first := (a, b);
    a, b := g.Do(key, v2, e2);
    second := (a, b);
  }
}
