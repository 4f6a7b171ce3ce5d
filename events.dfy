/** The browser stand-in for Node's `EventEmitter`: a registry from event names
    to listener lists, updated in place. Listener functions are known by their
    identity; what a user function does when it runs is reduced to whether it
    throws. */
module Events {
  import opened Wrappers
  import opened Lists

  /** A listener function: a user function with identity `id`, or the wrapper
      `once`/`prependOnceListener` create, with its own identity `tag`, the
      event it removes itself from, and the listener it wraps (its `listener`
      property). */
  datatype Listener = Plain(id: nat) | Once(tag: nat, event: string, inner: Listener)

  /** A value passed where a listener is expected: a function or anything else. */
  datatype Arg = Fn(f: Listener) | NotFn

  /** Whether a registered entry is `x` itself or a once-wrapper of `x`. */
  predicate Matches(entry: Listener, x: Listener) {
    entry == x || (entry.Once? && entry.inner == x)
  }

  /** The user function a call of `l` ends up running. */
  function Target(l: Listener): nat {
    match l
    case Plain(id) => id
    case Once(_, _, inner) => Target(inner)
  }

  // ---- removing one listener from a list ----

  /** The last index whose entry matches `x`, or -1. */
  function LastMatch(l: seq<Listener>, x: Listener): (k: int)
    ensures -1 <= k < |l|
  {
    if l == [] then -1
    else if Matches(l[|l| - 1], x) then |l| - 1
    else LastMatch(l[..|l| - 1], x)
  }

  /** The list without its last entry that matches `x`. */
  function RemoveLast(l: seq<Listener>, x: Listener): seq<Listener> {
    var k := LastMatch(l, x);
    if k < 0 then l else l[..k] + l[k + 1..]
  }

  /** `LastMatch` finds the last matching entry, or -1 when none matches. */
  lemma {:induction false} LastMatchSpec(l: seq<Listener>, x: Listener)
    ensures var k := LastMatch(l, x);
      (0 <= k ==> Matches(l[k], x)) && forall j :: k < j < |l| ==> !Matches(l[j], x)
  {
    if l != [] && !Matches(l[|l| - 1], x) {
      LastMatchSpec(l[..|l| - 1], x);
    }
  }

  /** A matching entry with no match after it is the last match. */
  lemma {:induction false} LastMatchAt(l: seq<Listener>, x: Listener, k: nat)
    requires k < |l| && Matches(l[k], x)
    requires forall j :: k < j < |l| ==> !Matches(l[j], x)
    ensures LastMatch(l, x) == k
  {
    if k < |l| - 1 {
      LastMatchAt(l[..|l| - 1], x, k);
    }
  }

  /** `removeListener` on one list: without a match the list is unchanged;
      otherwise exactly the last matching entry goes and the others keep their
      order. */
  lemma RemoveLastSpec(l: seq<Listener>, x: Listener)
    ensures (forall j :: 0 <= j < |l| ==> !Matches(l[j], x)) ==> RemoveLast(l, x) == l
    ensures forall k :: 0 <= k < |l| && Matches(l[k], x) && (forall j :: k < j < |l| ==> !Matches(l[j], x)) ==>
      RemoveLast(l, x) == l[..k] + l[k + 1..]
  {
    LastMatchSpec(l, x);
    forall k | 0 <= k < |l| && Matches(l[k], x) && (forall j :: k < j < |l| ==> !Matches(l[j], x))
      ensures RemoveLast(l, x) == l[..k] + l[k + 1..]
    {
      LastMatchAt(l, x, k);
    }
  }

  // ---- the registry ----

  /** `_events` as a map, with `names` the order `Object.keys` reports. */
  datatype Registry = Registry(events: map<string, seq<Listener>>, names: seq<string>)

  /** Every stored list is non-empty and the names are exactly the keys, once each. */
  ghost predicate WellFormed(r: Registry) {
    (forall e :: e in r.events ==> r.events[e] != [])
    && Distinct(r.names)
    && (forall e :: e in r.events <==> e in r.names)
  }

  const Empty := Registry(map[], [])

  /** The listeners of `e`; `[]` when it has no list. */
  function ListOf(r: Registry, e: string): seq<Listener> {
    if e in r.events then r.events[e] else []
  }

  /** Stores `list` as the list of `e`; an empty list deletes the key. A new key
      goes at the end of the names. */
  function Store(r: Registry, e: string, list: seq<Listener>): Registry {
    if list == [] then Registry(r.events - {e}, Filter((n: string) => n != e, r.names))
    else if e in r.events then Registry(r.events[e := list], r.names)
    else Registry(r.events[e := list], r.names + [e])
  }

  /** Storing keeps the registry well formed, sets the list of `e` and no other. */
  lemma StoreSpec(r: Registry, e: string, list: seq<Listener>)
    requires WellFormed(r)
    ensures var s := Store(r, e, list);
      WellFormed(s) && ListOf(s, e) == list
      && (forall d :: d != e ==> ListOf(s, d) == ListOf(r, d))
  {
    if list == [] {
      var p := (n: string) => n != e;
      FilterDistinct(p, r.names);
      forall d ensures d in Filter(p, r.names) <==> d in r.names && d != e {
        FilterMembers(p, r.names, d);
      }
    } else if e !in r.events {
      assert e !in r.names;
    }
  }

  /** `on`: the listener goes at the end of the list of `e`. */
  function AddLast(r: Registry, e: string, l: Listener): Registry {
    Store(r, e, ListOf(r, e) + [l])
  }

  /** `prependListener`: the listener goes at the front of the list of `e`. */
  function AddFirst(r: Registry, e: string, l: Listener): Registry {
    Store(r, e, [l] + ListOf(r, e))
  }

  /** `removeListener`: an unknown event is left alone; otherwise its last
      matching entry is removed and an emptied list deleted. */
  function Remove(r: Registry, e: string, x: Listener): Registry {
    if e !in r.events then r else Store(r, e, RemoveLast(r.events[e], x))
  }

  /** `removeAllListeners`: a truthy event name loses its list; no name, or the
      falsy `''`, clears every event. */
  function Clear(r: Registry, e: Option<string>): Registry {
    if e.Some? && e.value != "" then Store(r, e.value, []) else Empty
  }

  /** Adding appends to the end (or puts at the front) of the list of `e` and
      touches no other event. */
  lemma AddSpec(r: Registry, e: string, l: Listener)
    requires WellFormed(r)
    ensures WellFormed(AddLast(r, e, l)) && ListOf(AddLast(r, e, l), e) == ListOf(r, e) + [l]
    ensures WellFormed(AddFirst(r, e, l)) && ListOf(AddFirst(r, e, l), e) == [l] + ListOf(r, e)
    ensures forall d :: d != e ==> ListOf(AddLast(r, e, l), d) == ListOf(r, d) && ListOf(AddFirst(r, e, l), d) == ListOf(r, d)
  {
    StoreSpec(r, e, ListOf(r, e) + [l]);
    StoreSpec(r, e, [l] + ListOf(r, e));
  }

  /** Removing changes nothing for an unknown event; otherwise it removes the
      last match from the list of `e` and touches no other event. */
  lemma RemoveSpec(r: Registry, e: string, x: Listener)
    requires WellFormed(r)
    ensures WellFormed(Remove(r, e, x))
    ensures e !in r.events ==> Remove(r, e, x) == r
    ensures ListOf(Remove(r, e, x), e) == RemoveLast(ListOf(r, e), x)
    ensures forall d :: d != e ==> ListOf(Remove(r, e, x), d) == ListOf(r, d)
  {
    if e in r.events {
      StoreSpec(r, e, RemoveLast(r.events[e], x));
    }
  }

  /** Clearing one truthy event empties only its list; clearing without a
      truthy name empties every list. */
  lemma ClearSpec(r: Registry, e: Option<string>)
    requires WellFormed(r)
    ensures WellFormed(Clear(r, e))
    ensures e.Some? && e.value != "" ==> (ListOf(Clear(r, e), e.value) == []
      && forall d :: d != e.value ==> ListOf(Clear(r, e), d) == ListOf(r, d))
    ensures !(e.Some? && e.value != "") ==> forall d :: ListOf(Clear(r, e), d) == []
  {
    if e.Some? && e.value != "" {
      StoreSpec(r, e.value, []);
    }
  }

  /** The names are exactly the events with at least one listener. */
  lemma NamesHaveListeners(r: Registry, e: string)
    requires WellFormed(r)
    ensures e in r.names <==> |ListOf(r, e)| > 0
  {
  }

  // ---- emitting ----

  /** The registry after a call, whether the call threw, and the user function
      it ran. */
  datatype Step = Step(reg: Registry, threw: bool, called: nat)

  /** Calling a listener: a user function runs and may throw; a once-wrapper
      calls what it wraps and, only when that returns normally, removes itself
      from its event. */
  function Call(r: Registry, l: Listener, throws: nat -> bool): Step
    decreases l
  {
    match l
    case Plain(id) => Step(r, throws(id), id)
    case Once(_, e, inner) =>
      var s := Call(r, inner, throws);
      if s.threw then s else Step(Remove(s.reg, e, l), false, s.called)
  }

  /** The registry after calling `ls` in order; a throw is caught and the next
      listener still runs. */
  function Run(r: Registry, ls: seq<Listener>, throws: nat -> bool): Registry
  {
    if ls == [] then r else Call(Run(r, ls[..|ls| - 1], throws), ls[|ls| - 1], throws).reg
  }

  /** `emit`: the registry after calling a snapshot of the list of `e`. */
  function Emitted(r: Registry, e: string, throws: nat -> bool): Registry {
    if e in r.events then Run(r, r.events[e], throws) else r
  }

  /** A call runs the innermost user function, throws exactly when it does, and
      then leaves the registry unchanged. */
  lemma {:induction false} CallThrowing(r: Registry, l: Listener, throws: nat -> bool)
    ensures Call(r, l, throws).called == Target(l)
    ensures Call(r, l, throws).threw == throws(Target(l))
    ensures throws(Target(l)) ==> Call(r, l, throws).reg == r
  {
    if l.Once? {
      CallThrowing(r, l.inner, throws);
    }
  }

  /** Listeners that are user functions or whose function throws leave the
      registry as it was. */
  lemma {:induction false} RunUnchanged(r: Registry, ls: seq<Listener>, throws: nat -> bool)
    requires forall i :: 0 <= i < |ls| ==> ls[i].Plain? || throws(Target(ls[i]))
    ensures Run(r, ls, throws) == r
  {
    if ls != [] {
      RunUnchanged(r, ls[..|ls| - 1], throws);
      CallThrowing(r, ls[|ls| - 1], throws);
    }
  }

  /** A once-wrapper of a user function, registered for `e`. */
  predicate OnceFor(l: Listener, e: string) {
    l.Once? && l.event == e && l.inner.Plain?
  }

  /** Emitting an event whose listeners are all distinct once-wrappers of user
      functions that return normally removes every one of them, although each
      removal happens while the snapshot is being walked, and leaves the other
      events alone. */
  lemma OnceDrain(r: Registry, e: string, throws: nat -> bool)
    requires WellFormed(r) && e in r.events && Distinct(r.events[e])
    requires forall i :: 0 <= i < |r.events[e]| ==> OnceFor(r.events[e][i], e) && !throws(Target(r.events[e][i]))
    ensures ListOf(Emitted(r, e, throws), e) == []
    ensures forall d :: d != e ==> ListOf(Emitted(r, e, throws), d) == ListOf(r, d)
  {
    var list := r.events[e];
    OnceDrainPrefix(r, e, list, |list|, throws);
    assert list[..|list|] == list;
  }

  lemma {:induction false} OnceDrainPrefix(r: Registry, e: string, list: seq<Listener>, k: nat, throws: nat -> bool)
    requires WellFormed(r) && ListOf(r, e) == list && Distinct(list) && k <= |list|
    requires forall i :: 0 <= i < |list| ==> OnceFor(list[i], e) && !throws(Target(list[i]))
    ensures var s := Run(r, list[..k], throws);
      WellFormed(s) && ListOf(s, e) == list[k..]
      && forall d :: d != e ==> ListOf(s, d) == ListOf(r, d)
  {
    if k > 0 {
      OnceDrainPrefix(r, e, list, k - 1, throws);
      var s := Run(r, list[..k - 1], throws);
      var w := list[k - 1];
      assert list[..k][..k - 1] == list[..k - 1];
      var rest := list[k - 1..];
      assert rest[0] == w;
      forall j | 0 < j < |rest| ensures !Matches(rest[j], w) {
        assert rest[j] == list[k - 1 + j];
      }
      LastMatchAt(rest, w, 0);
      assert RemoveLast(rest, w) == list[k..];
      RemoveSpec(s, e, w);
      assert OnceFor(w, e) && !throws(Target(w));
      assert Call(s, w, throws).reg == Remove(s, e, w);
    }
  }

  // ---- the emitter object ----

  class EventEmitter {
    var events: map<string, seq<Listener>>
    var names: seq<string>
    var maxListeners: int

    function State(): Registry
      reads this
    {
      Registry(events, names)
    }

    ghost predicate Valid()
      reads this
    {
      WellFormed(State())
    }

    /** No listeners; the listener limit starts at 10. */
    constructor()
      ensures Valid() && State() == Empty && maxListeners == 10
    {
      events := map[];
      names := [];
      maxListeners := 10;
    }

    method SetMaxListeners(n: int)
      modifies this
      ensures maxListeners == n && State() == old(State())
    {
      maxListeners := n;
    }

    method GetMaxListeners() returns (n: int)
      ensures n == maxListeners
    {
      n := maxListeners;
    }

    /** `on`: a non-function is refused with a `TypeError` (`ok` false) and
        nothing changes; otherwise the listener is appended, and `warned` tells
        whether the list is now longer than the limit. */
    method On(event: string, listener: Arg) returns (ok: bool, warned: bool)
      requires Valid()
      modifies this
      ensures Valid() && maxListeners == old(maxListeners)
      ensures ok <==> listener.Fn?
      ensures State() == if ok then AddLast(old(State()), event, listener.f) else old(State())
      ensures warned <==> ok && |ListOf(State(), event)| > maxListeners
    {
      if listener.NotFn? {
        return false, false;
      }
      AddSpec(State(), event, listener.f);
      var list := if event in events then events[event] else [];
      if event !in events {
        names := names + [event];
      }
      events := events[event := list + [listener.f]];
      ok := true;
      warned := |events[event]| > maxListeners;
    }

    method AddListener(event: string, listener: Arg) returns (ok: bool, warned: bool)
      requires Valid()
      modifies this
      ensures Valid() && maxListeners == old(maxListeners)
      ensures ok <==> listener.Fn?
      ensures State() == if ok then AddLast(old(State()), event, listener.f) else old(State())
      ensures warned <==> ok && |ListOf(State(), event)| > maxListeners
    {
      ok, warned := On(event, listener);
    }

    /** `once`: the listener is wrapped in a new once-wrapper with identity
        `tag`, and the wrapper is appended as by `on`. */
    method Once(event: string, listener: Arg, tag: nat) returns (ok: bool, warned: bool)
      requires Valid()
      modifies this
      ensures Valid() && maxListeners == old(maxListeners)
      ensures ok <==> listener.Fn?
      ensures State() == if ok then AddLast(old(State()), event, Listener.Once(tag, event, listener.f)) else old(State())
      ensures warned <==> ok && |ListOf(State(), event)| > maxListeners
    {
      if listener.NotFn? {
        return false, false;
      }
      ok, warned := On(event, Fn(Listener.Once(tag, event, listener.f)));
    }

    /** `prependListener`: as `on`, but at the front and without the limit check. */
    method PrependListener(event: string, listener: Arg) returns (ok: bool)
      requires Valid()
      modifies this
      ensures Valid() && maxListeners == old(maxListeners)
      ensures ok <==> listener.Fn?
      ensures State() == if ok then AddFirst(old(State()), event, listener.f) else old(State())
    {
      if listener.NotFn? {
        return false;
      }
      AddSpec(State(), event, listener.f);
      var list := if event in events then events[event] else [];
      if event !in events {
        names := names + [event];
      }
      events := events[event := [listener.f] + list];
      ok := true;
    }

    method PrependOnceListener(event: string, listener: Arg, tag: nat) returns (ok: bool)
      requires Valid()
      modifies this
      ensures Valid() && maxListeners == old(maxListeners)
      ensures ok <==> listener.Fn?
      ensures State() == if ok then AddFirst(old(State()), event, Listener.Once(tag, event, listener.f)) else old(State())
    {
      if listener.NotFn? {
        return false;
      }
      ok := PrependListener(event, Fn(Listener.Once(tag, event, listener.f)));
    }

    /** `removeListener`: a non-function is refused; an unknown event is left
        alone; otherwise the list is searched from the end and the first entry
        found that is the listener or wraps it is spliced out. An emptied list
        is deleted. */
    method RemoveListener(event: string, listener: Arg) returns (ok: bool)
      requires Valid()
      modifies this
      ensures Valid() && maxListeners == old(maxListeners)
      ensures ok <==> listener.Fn?
      ensures State() == if ok then Remove(old(State()), event, listener.f) else old(State())
    {
      if listener.NotFn? {
        return false;
      }
      ok := true;
      if event !in events {
        return;
      }
      var x := listener.f;
      var list := events[event];
      var rest := list;
      var i := |list|;
      while i > 0
        invariant 0 <= i <= |list| && rest == list
        invariant forall j :: i <= j < |list| ==> !Matches(list[j], x)
      {
        if Matches(list[i - 1], x) {
          rest := list[..i - 1] + list[i..];
          break;
        }
        i := i - 1;
      }
      RemoveLastSpec(list, x);
      assert rest == RemoveLast(list, x);
      RemoveSpec(State(), event, x);
      if rest == [] {
        events := events - {event};
        names := Filter((n: string) => n != event, names);
      } else {
        events := events[event := rest];
      }
    }

    method Off(event: string, listener: Arg) returns (ok: bool)
      requires Valid()
      modifies this
      ensures Valid() && maxListeners == old(maxListeners)
      ensures ok <==> listener.Fn?
      ensures State() == if ok then Remove(old(State()), event, listener.f) else old(State())
    {
      ok := RemoveListener(event, listener);
    }

    /** `removeAllListeners`: deletes the list of a truthy event name, or every
        list. */
    method RemoveAllListeners(event: Option<string>)
      requires Valid()
      modifies this
      ensures Valid() && maxListeners == old(maxListeners)
      ensures State() == Clear(old(State()), event)
    {
      ClearSpec(State(), event);
      if event.Some? && event.value != "" {
        events := events - {event.value};
        names := Filter((n: string) => n != event.value, names);
      } else {
        events := map[];
        names := [];
      }
    }

    /** `listeners`: a copy of the list, `[]` for an event without one. */
    function Listeners(event: string): seq<Listener>
      reads this
    {
      ListOf(State(), event)
    }

    /** `listenerCount`: positive exactly for the events `eventNames` reports. */
    function ListenerCount(event: string): (n: nat)
      requires Valid()
      reads this
      ensures n == |Listeners(event)|
      ensures n > 0 <==> event in names
    {
      if event in events then |events[event]| else 0
    }

    /** `eventNames`: the events that have listeners, in the order their lists
        were created. */
    function EventNames(): (r: seq<string>)
      requires Valid()
      reads this
      ensures Distinct(r)
      ensures forall e :: e in r <==> |Listeners(e)| > 0
    {
      names
    }

    /** Runs one listener: a user function may throw; a once-wrapper runs what
        it wraps and then, unless that threw, removes itself from its event. */
    method Invoke(l: Listener, throws: nat -> bool) returns (threw: bool, called: nat)
      requires Valid()
      modifies this
      ensures Valid() && maxListeners == old(maxListeners)
      ensures Step(State(), threw, called) == Call(old(State()), l, throws)
      decreases l
    {
      match l {
        case Plain(id) =>
          threw, called := throws(id), id;
        case Once(_, e, inner) =>
          threw, called := Invoke(inner, throws);
          if !threw {
            var removed := RemoveListener(e, Fn(l));
          }
      }
    }

    /** `emit`: `false` and no call for an event without a list; otherwise each
        listener of a snapshot of the list is called in order, a throw is caught
        and does not stop the rest, and the result is `true`. `calls` lists the
        user function each call ran. */
    method Emit(event: string, throws: nat -> bool) returns (fired: bool, calls: seq<nat>)
      requires Valid()
      modifies this
      ensures Valid() && maxListeners == old(maxListeners)
      ensures fired <==> event in old(events)
      ensures calls == Map(Target, old(ListOf(State(), event)))
      ensures State() == Emitted(old(State()), event, throws)
    {
      if event !in events {
        return false, [];
      }
      var snapshot := events[event];
      ghost var start := State();
      calls := [];
      var i := 0;
      while i < |snapshot|
        invariant 0 <= i <= |snapshot| && Valid() && maxListeners == old(maxListeners)
        invariant State() == Run(start, snapshot[..i], throws)
        invariant calls == Map(Target, snapshot[..i])
      {
        ghost var before := State();
        var threw, called := Invoke(snapshot[i], throws);
        CallThrowing(before, snapshot[i], throws);
        assert snapshot[..i + 1] == snapshot[..i] + [snapshot[i]];
        assert snapshot[..i + 1][..i] == snapshot[..i];
        MapAppend(Target, snapshot[..i], [snapshot[i]]);
        calls := calls + [called];
        i := i + 1;
      }
      assert snapshot[..|snapshot|] == snapshot;
      fired := true;
    }
  }
}
