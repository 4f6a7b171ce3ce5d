/** The browser stand-in for peer discovery: an object with the mock event
    methods, the peer id and port it was given, a `port` that `updatePort`
    changes, and a `destroy` that only acts the first time. */
module TorrentDiscovery {
  import opened Wrappers
  import opened MockEmitter

  /** The options the constructor reads: `peerId` and `port`, either of which
      may be missing. */
  datatype Options = Options(peerId: Option<string>, port: Option<int>)

  /** `opts.peerId || null`: a missing or empty id becomes `null` (`None`). */
  function PeerIdOf(opts: Options): (r: Option<string>)
    ensures r.Some? <==> opts.peerId.Some? && opts.peerId.value != ""
    ensures r.Some? ==> r == opts.peerId
  {
    if opts.peerId.Some? && opts.peerId.value != "" then opts.peerId else None
  }

  /** `opts.port || 0`: a missing port becomes 0, and a port of 0 stays 0. */
  function PortOf(opts: Options): (r: int)
    ensures opts.port.None? ==> r == 0
    ensures opts.port.Some? ==> r == opts.port.value
  {
    if opts.port.Some? && opts.port.value != 0 then opts.port.value else 0
  }

  /** The object `new TorrentDiscovery(opts)` returns; `emitter` holds its
      `_events` and `_maxListeners`. */
  class Discovery {
    const emitter: Emitter
    var destroyed: bool
    var peerId: Option<string>
    var port: int

    ghost predicate Valid()
      reads this, emitter
    {
      emitter.Valid()
    }

    /** Not destroyed, with the id and port from `opts` and no listeners. */
    constructor(opts: Options)
      ensures Valid() && fresh(emitter)
      ensures !destroyed && peerId == PeerIdOf(opts) && port == PortOf(opts)
      ensures emitter.State() == NoEvents && emitter.maxListeners == 10
    {
      emitter := new Emitter();
      destroyed := false;
      peerId := PeerIdOf(opts);
      port := PortOf(opts);
    }

    /** `updatePort(port)`: sets the port and returns the same object. */
    method UpdatePort(newPort: int) returns (self: Discovery)
      modifies this
      ensures self == this && port == newPort
      ensures destroyed == old(destroyed) && peerId == old(peerId)
    {
      port := newPort;
      self := this;
    }

    /** `stop(infoHash)`: changes nothing and returns the same object. */
    method Stop(infoHash: string) returns (self: Discovery)
      ensures self == this
    {
      self := this;
    }

    /** `destroy(callback)`: the first call marks the object destroyed and
        removes every listener; a later call changes nothing. Either way a
        given callback is scheduled (`scheduled`). */
    method Destroy(hasCallback: bool) returns (scheduled: bool)
      requires Valid()
      modifies this, emitter
      ensures Valid() && destroyed && scheduled == hasCallback
      ensures port == old(port) && peerId == old(peerId)
      ensures emitter.maxListeners == old(emitter.maxListeners)
      ensures old(destroyed) ==> emitter.State() == old(emitter.State())
      ensures !old(destroyed) ==> emitter.State() == NoEvents
    {
      scheduled := hasCallback;
      if destroyed {
        return;
      }
      destroyed := true;
      emitter.RemoveAllListeners(None);
    }
  }
}
