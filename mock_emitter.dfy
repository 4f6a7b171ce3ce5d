/** The event methods the mock DHT client and the mock peer discovery object
    carry, identical in both: `_events` is a plain object from event names to
    listener arrays, updated in place. Unlike the `EventEmitter` stand-in, a
    removed listener leaves its (possibly empty) array behind, every
    occurrence is removed, and a once-wrapper removes itself before it calls
    the listener. Listener functions are known by their identity; what a user
    function does when it runs is reduced to whether it throws. */
module MockEmitter {
  import opened Wrappers
  import opened Lists

  /** A listener function: a user function with identity `id`, or the wrapper
      `once` creates, with its own identity `tag`, the event it removes itself
      from, and the user function it calls. */
  datatype Handler = User(id: nat) | OnceWrapper(tag: nat, event: string, fn: nat)

  /** The user function a call of `h` runs. */
  function Target(h: Handler): nat {
    if h.User? then h.id else h.fn
  }

  /** `_events` as a map, with `keys` the order `Object.keys` reports. */
  datatype Events = Events(lists: map<string, seq<Handler>>, keys: seq<string>)

  /** The keys are exactly the events that have an array, once each. */
  ghost predicate WellFormed(r: Events) {
    Distinct(r.keys) && forall e :: e in r.lists <==> e in r.keys
  }

  const NoEvents := Events(map[], [])

  /** The listeners of `e`; `[]` when it has no array. */
  function ListOf(r: Events, e: string): seq<Handler> {
    if e in r.lists then r.lists[e] else []
  }

  /** `on`: a missing array is created (a new key, last in the order) and the
      listener is pushed onto it. */
  function Added(r: Events, e: string, h: Handler): Events {
    if e in r.lists then Events(r.lists[e := r.lists[e] + [h]], r.keys)
    else Events(r.lists[e := [h]], r.keys + [e])
  }

  /** The test `l !== listener`. */
  function Other(h: Handler): Handler -> bool {
    (x: Handler) => x != h
  }

  /** `removeListener`: an existing array is replaced by its entries other
      than `h`; the key stays even when nothing is left. */
  function Removed(r: Events, e: string, h: Handler): Events {
    if e in r.lists then Events(r.lists[e := Filter(Other(h), r.lists[e])], r.keys) else r
  }

  /** `removeAllListeners(event)`: a truthy name loses its key; no name, or
      the falsy `''`, replaces the object with an empty one. */
  function Cleared(r: Events, e: Option<string>): Events {
    if e.Some? && e.value != "" then Events(r.lists - {e.value}, Filter((n: string) => n != e.value, r.keys))
    else NoEvents
  }

  /** Adding pushes onto the array of `e` and touches no other event. */
  lemma AddedSpec(r: Events, e: string, h: Handler)
    requires WellFormed(r)
    ensures WellFormed(Added(r, e, h))
    ensures ListOf(Added(r, e, h), e) == ListOf(r, e) + [h]
    ensures forall d :: d != e ==> ListOf(Added(r, e, h), d) == ListOf(r, d)
  {
    if e !in r.lists {
      assert e !in r.keys;
    }
  }

  /** Removing drops every occurrence of `h` from the array of `e`, keeps the
      others in order, keeps the key, and touches no other event; an event
      without an array is left alone. */
  lemma RemovedSpec(r: Events, e: string, h: Handler)
    requires WellFormed(r)
    ensures WellFormed(Removed(r, e, h)) && Removed(r, e, h).keys == r.keys
    ensures ListOf(Removed(r, e, h), e) == Filter(Other(h), ListOf(r, e))
    ensures h !in ListOf(Removed(r, e, h), e)
    ensures forall x :: x != h ==> (x in ListOf(Removed(r, e, h), e) <==> x in ListOf(r, e))
    ensures forall d :: d != e ==> ListOf(Removed(r, e, h), d) == ListOf(r, d)
    ensures e !in r.lists ==> Removed(r, e, h) == r
  {
    forall x {
      FilterMembers(Other(h), ListOf(r, e), x);
    }
  }

  /** When every listener of `e` is `h`, removing it leaves an empty array
      under the key rather than deleting it. */
  lemma RemovedLeavesEmpty(r: Events, e: string, h: Handler)
    requires e in r.lists && forall k :: 0 <= k < |r.lists[e]| ==> r.lists[e][k] == h
    ensures e in Removed(r, e, h).lists && Removed(r, e, h).lists[e] == []
  {
    FilterNone(Other(h), r.lists[e]);
  }

  /** Clearing a truthy name deletes only its key; clearing without one
      deletes every key. */
  lemma ClearedSpec(r: Events, e: Option<string>)
    requires WellFormed(r)
    ensures WellFormed(Cleared(r, e))
    ensures e.Some? && e.value != "" ==>
      (e.value !in Cleared(r, e).lists && forall d :: d != e.value ==> ListOf(Cleared(r, e), d) == ListOf(r, d))
    ensures !(e.Some? && e.value != "") ==> Cleared(r, e).lists == map[] && Cleared(r, e).keys == []
  {
    if e.Some? && e.value != "" {
      var p := (n: string) => n != e.value;
      FilterDistinct(p, r.keys);
      forall d ensures d in Filter(p, r.keys) <==> d in r.keys && d != e.value {
        FilterMembers(p, r.keys, d);
      }
    }
  }

  // ---- emitting ----

  /** Calling one listener: a once-wrapper first removes itself from its
      event, then calls its function; a user function leaves `_events` as it
      is. Whether the function throws does not matter to `_events`. */
  function AfterCall(r: Events, h: Handler): Events {
    if h.OnceWrapper? then Removed(r, h.event, h) else r
  }

  /** `_events` after calling `ls` in order. */
  function Run(r: Events, ls: seq<Handler>): Events
    decreases |ls|
  {
    if ls == [] then r else Run(AfterCall(r, ls[0]), ls[1..])
  }

  /** `emit`: `forEach` walks the array stored when it starts, so the
      listeners run are the ones registered before the call. */
  function Emitted(r: Events, e: string): Events {
    Run(r, ListOf(r, e))
  }

  /** `emit`'s result: whether `e` still has a non-empty array after its
      listeners ran. */
  function EmitResult(r: Events, e: string): bool {
    |ListOf(Emitted(r, e), e)| > 0
  }

  /** Whether an entry of the array of `d` survives calling `ls`: only the
      once-wrappers for `d` among `ls` remove themselves. */
  function Survives(ls: seq<Handler>, d: string): Handler -> bool {
    (x: Handler) => !(x.OnceWrapper? && x.event == d && x in ls)
  }

  /** Calling `ls` removes exactly the once-wrappers among them, each from its
      own event, keeping every other entry in place, and adds or deletes no
      key. */
  lemma {:induction false} RunSpec(r: Events, ls: seq<Handler>)
    requires WellFormed(r)
    ensures WellFormed(Run(r, ls)) && Run(r, ls).keys == r.keys
    ensures forall d :: d in Run(r, ls).lists <==> d in r.lists
    ensures forall d :: ListOf(Run(r, ls), d) == Filter(Survives(ls, d), ListOf(r, d))
    decreases |ls|
  {
    if ls == [] {
      forall d ensures ListOf(r, d) == Filter(Survives(ls, d), ListOf(r, d)) {
        FilterAll(Survives(ls, d), ListOf(r, d));
      }
    } else {
      var h := ls[0];
      var r1 := AfterCall(r, h);
      if h.OnceWrapper? {
        RemovedSpec(r, h.event, h);
      }
      RunSpec(r1, ls[1..]);
      forall d ensures ListOf(Run(r, ls), d) == Filter(Survives(ls, d), ListOf(r, d)) {
        var rest := Survives(ls[1..], d);
        var all := Survives(ls, d);
        if h.OnceWrapper? && h.event == d {
          forall x ensures all(x) == (Other(h)(x) && rest(x)) {
            assert x in ls <==> x == h || x in ls[1..] by {
              assert ls == [h] + ls[1..];
            }
          }
          FilterFilter(rest, Other(h), all, ListOf(r, d));
        } else {
          var l := ListOf(r, d);
          forall i | 0 <= i < |l| ensures rest(l[i]) == all(l[i]) {
            assert l[i] in ls <==> l[i] == h || l[i] in ls[1..] by {
              assert ls == [h] + ls[1..];
            }
          }
          FilterSame(rest, all, l);
        }
      }
    }
  }

  /** After `e` is emitted, no once-wrapper for `e` that was registered when
      the emission began is left, whether or not its function threw: the
      wrapper runs at most once. */
  lemma OnceRunsOnce(r: Events, e: string, w: Handler)
    requires WellFormed(r) && w.OnceWrapper? && w.event == e && w in ListOf(r, e)
    ensures w !in ListOf(Emitted(r, e), e)
  {
    RunSpec(r, ListOf(r, e));
    FilterMembers(Survives(ListOf(r, e), e), ListOf(r, e), w);
  }

  /** Emitting changes the array of `e` only by dropping its once-wrappers,
      and leaves the arrays of other events without the once-wrappers for
      them among the listeners run (none, when no listener of `e` is a wrapper
      for another event). */
  lemma EmittedSpec(r: Events, e: string)
    requires WellFormed(r)
    ensures WellFormed(Emitted(r, e)) && Emitted(r, e).keys == r.keys
    ensures forall x :: x in ListOf(Emitted(r, e), e) <==> x in ListOf(r, e) && !(x.OnceWrapper? && x.event == e)
    ensures (forall k :: 0 <= k < |ListOf(r, e)| ==> ListOf(r, e)[k].User?) ==> Emitted(r, e) == r
  {
    var ls := ListOf(r, e);
    RunSpec(r, ls);
    forall x {
      FilterMembers(Survives(ls, e), ls, x);
    }
    if forall k :: 0 <= k < |ls| ==> ls[k].User? {
      RunUsers(r, ls);
    }
  }

  /** User functions leave `_events` alone. */
  lemma {:induction false} RunUsers(r: Events, ls: seq<Handler>)
    requires forall k :: 0 <= k < |ls| ==> ls[k].User?
    ensures Run(r, ls) == r
    decreases |ls|
  {
    if ls != [] {
      RunUsers(r, ls[1..]);
    }
  }

  /** `emit` returns true exactly when some listener of `e` is not a
      once-wrapper for `e`; a lone once-listener therefore yields false. */
  lemma EmitResultSpec(r: Events, e: string)
    requires WellFormed(r)
    ensures EmitResult(r, e) <==> exists k :: 0 <= k < |ListOf(r, e)| && !(ListOf(r, e)[k].OnceWrapper? && ListOf(r, e)[k].event == e)
  {
    var ls := ListOf(r, e);
    EmittedSpec(r, e);
    var after := ListOf(Emitted(r, e), e);
    if exists k :: 0 <= k < |ls| && !(ls[k].OnceWrapper? && ls[k].event == e) {
      var k :| 0 <= k < |ls| && !(ls[k].OnceWrapper? && ls[k].event == e);
      assert ls[k] in after;
    } else if after != [] {
      assert after[0] in ls;
    }
  }

  /** A lone once-listener: `emit` calls it, returns false, and leaves an
      empty array under the key. */
  lemma LoneOnce(r: Events, e: string, w: Handler)
    requires WellFormed(r) && ListOf(r, e) == [w] && w.OnceWrapper? && w.event == e
    ensures !EmitResult(r, e)
    ensures e in Emitted(r, e).lists && Emitted(r, e).lists[e] == []
  {
    EmitResultSpec(r, e);
    RunSpec(r, [w]);
  }

  // ---- the emitter object ----

  /** The `_events` and `_maxListeners` fields with the methods over them. */
  class Emitter {
    var lists: map<string, seq<Handler>>
    var keys: seq<string>
    var maxListeners: int

    function State(): Events
      reads this
    {
      Events(lists, keys)
    }

    ghost predicate Valid()
      reads this
    {
      WellFormed(State())
    }

    /** No listeners; the listener limit starts at 10. */
    constructor()
      ensures Valid() && State() == NoEvents && maxListeners == 10
    {
      lists := map[];
      keys := [];
      maxListeners := 10;
    }

    /** `on(event, listener)`. */
    method On(event: string, listener: Handler)
      requires Valid()
      modifies this
      ensures Valid() && State() == Added(old(State()), event, listener)
      ensures maxListeners == old(maxListeners)
    {
      AddedSpec(State(), event, listener);
      if event !in lists {
        lists := lists[event := []];
        keys := keys + [event];
      }
      lists := lists[event := lists[event] + [listener]];
    }

    /** `once(event, listener)`: registers a new wrapper, with identity `tag`,
        around the user function `fn`. */
    method Once(event: string, fn: nat, tag: nat)
      requires Valid()
      modifies this
      ensures Valid() && State() == Added(old(State()), event, OnceWrapper(tag, event, fn))
      ensures maxListeners == old(maxListeners)
    {
      On(event, OnceWrapper(tag, event, fn));
    }

    /** `removeListener(event, listener)`. */
    method RemoveListener(event: string, listener: Handler)
      requires Valid()
      modifies this
      ensures Valid() && State() == Removed(old(State()), event, listener)
      ensures maxListeners == old(maxListeners)
    {
      RemovedSpec(State(), event, listener);
      if event in lists {
        lists := lists[event := Filter(Other(listener), lists[event])];
      }
    }

    /** `removeAllListeners(event)`. */
    method RemoveAllListeners(event: Option<string>)
      requires Valid()
      modifies this
      ensures Valid() && State() == Cleared(old(State()), event)
      ensures maxListeners == old(maxListeners)
    {
      ClearedSpec(State(), event);
      if event.Some? && event.value != "" {
        lists := lists - {event.value};
        keys := Filter((n: string) => n != event.value, keys);
      } else {
        lists := map[];
        keys := [];
      }
    }

    method SetMaxListeners(n: int)
      modifies this
      ensures maxListeners == n && State() == old(State())
    {
      maxListeners := n;
    }

    method GetMaxListeners() returns (n: int)
      ensures n == maxListeners
    {
      n := maxListeners;
    }

    /** `listeners(event)`: a copy of the array, or `[]`. */
    function Listeners(event: string): (r: seq<Handler>)
      reads this
      ensures event !in lists ==> r == []
      ensures event in lists ==> r == lists[event]
    {
      ListOf(State(), event)
    }

    /** `listenerCount(event)`: the length of the array, 0 without one. */
    function ListenerCount(event: string): (n: nat)
      reads this
      ensures n == |Listeners(event)|
      ensures n == 0 <==> event !in lists || lists[event] == []
    {
      if event in lists then |lists[event]| else 0
    }

    /** `eventNames()`: `Object.keys(_events)`, the events that have an array,
        including emptied ones, each once. */
    function EventNames(): (r: seq<string>)
      reads this
      requires Valid()
      ensures Distinct(r) && forall e :: e in r <==> e in lists
    {
      keys
    }

    /** `emit(event, ...args)`: calls the listeners registered when it starts,
        in order, catching and reporting what they throw; `called` is the user
        functions run and `warned` those that threw. */
    method Emit(event: string, throws: nat -> bool) returns (any: bool, called: seq<nat>, warned: seq<nat>)
      requires Valid()
      modifies this
      ensures Valid() && State() == Emitted(old(State()), event)
      ensures maxListeners == old(maxListeners)
      ensures called == Map(Target, ListOf(old(State()), event))
      ensures warned == Filter(throws, called)
      ensures any == EmitResult(old(State()), event)
    {
      var snapshot := if event in lists then lists[event] else [];
      called, warned := CallAll(snapshot, throws);
      any := event in lists && |lists[event]| > 0;
    }

    /** The `forEach` over the snapshot `ls`. */
    method CallAll(ls: seq<Handler>, throws: nat -> bool) returns (called: seq<nat>, warned: seq<nat>)
      requires Valid()
      modifies this
      ensures Valid() && State() == Run(old(State()), ls)
      ensures maxListeners == old(maxListeners)
      ensures called == Map(Target, ls)
      ensures warned == Filter(throws, called)
    {
      ghost var r0 := State();
      called := [];
      warned := [];
      var i := 0;
      while i < |ls|
        invariant 0 <= i <= |ls|
        invariant Valid() && Run(State(), ls[i..]) == Run(r0, ls)
        invariant maxListeners == old(maxListeners)
        invariant called == Map(Target, ls[..i])
        invariant warned == Filter(throws, called)
      {
        var h := ls[i];
        assert ls[i..][1..] == ls[i + 1..];
        if h.OnceWrapper? {
          RemoveListener(h.event, h);
        }
        MapAppend(Target, ls[..i], [h]);
        assert ls[..i + 1] == ls[..i] + [h];
        var t := Target(h);
        assert (called + [t])[..|called|] == called;
        called := called + [t];
        warned := if throws(t) then warned + [t] else warned;
        i := i + 1;
      }
      assert ls[i..] == [] && ls[..i] == ls;
    }
  }
}
