/** The browser stand-in for the DHT client: an object with the mock event
    methods, `destroyed` and `listening` flags, and a `destroy` that only acts
    the first time. */
module BittorrentDht {
  import opened Wrappers
  import opened MockEmitter

  /** The object `new Client(opts)` returns; `emitter` holds its `_events`
      and `_maxListeners`. */
  class Client {
    const emitter: Emitter
    var destroyed: bool
    var listening: bool

    ghost predicate Valid()
      reads this, emitter
    {
      emitter.Valid()
    }

    /** A fresh client: not destroyed, not listening, no listeners. */
    constructor()
      ensures Valid() && fresh(emitter)
      ensures !destroyed && !listening
      ensures emitter.State() == NoEvents && emitter.maxListeners == 10
    {
      emitter := new Emitter();
      destroyed := false;
      listening := false;
    }

    /** `destroy(callback)`: the first call marks the client destroyed, stops
        it listening and removes every listener; a later call changes
        nothing. Either way a given callback is scheduled (`scheduled`). */
    method Destroy(hasCallback: bool) returns (scheduled: bool)
      requires Valid()
      modifies this, emitter
      ensures Valid() && destroyed && scheduled == hasCallback
      ensures emitter.maxListeners == old(emitter.maxListeners)
      ensures old(destroyed) ==> listening == old(listening) && emitter.State() == old(emitter.State())
      ensures !old(destroyed) ==> !listening && emitter.State() == NoEvents
    {
      scheduled := hasCallback;
      if destroyed {
        return;
      }
      destroyed := true;
      listening := false;
      emitter.RemoveAllListeners(None);
    }
  }

  /** A second `destroy` leaves the client as the first one left it. */
  method DestroyTwice(c: Client) returns (first: (bool, bool, Events), second: (bool, bool, Events))
    requires c.Valid()
    modifies c, c.emitter
    ensures second == first && first.0
    ensures !old(c.destroyed) ==> first == (true, false, NoEvents)
  {
    var _ := c.Destroy(false);
    first := (c.destroyed, c.listening, c.emitter.State());
    var _ := c.Destroy(true);
    second := (c.destroyed, c.listening, c.emitter.State());
  }
}
