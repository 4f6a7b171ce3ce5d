/** `TorrentManager`: the tracker list and its persisted form, the registry of
    torrents by info hash, the peer snapshot, the torrent records handed to the
    interface, and the choice of torrent for a folder export. The WebTorrent
    client is represented by its list of torrent objects; what the engine does
    on its own (adding a torrent, learning its info hash, removing it) appears
    as the state change it makes before the manager's handler runs. */
module Manager {
  import opened Wrappers
  import opened Text
  import opened Lists
  import opened Trackers
  import opened Engine
  import opened TorrentTypes
  import opened FolderExport

  // ---- the registry ----

  /** The map from info hash to torrent: every key is a non-empty info hash,
      it maps to a torrent of the client with that info hash. */
  ghost predicate Registry(byHash: map<string, Torrent>, ts: seq<Torrent>)
    reads (set t | t in ts), byHash.Values
  {
    forall k :: k in byHash ==> k != "" && byHash[k] in ts && byHash[k].infoHash == k
  }

  /** The client's torrents without `t`. */
  function Without(ts: seq<Torrent>, t: Torrent): seq<Torrent> {
    Filter((u: Torrent) => u != t, ts)
  }

  /** Removing `t` drops exactly `t` and keeps the other torrents. */
  lemma WithoutMembers(ts: seq<Torrent>, t: Torrent, u: Torrent)
    ensures u in Without(ts, t) <==> u in ts && u != t
  {
    FilterMembers((u: Torrent) => u != t, ts, u);
  }

  // ---- the peer snapshot ----

  /** `wire.type || (wire.remoteAddress ? 'tcp' : 'webrtc')`. */
  function PeerType(w: Wire): string {
    if w.wireType != "" then w.wireType else if w.remoteAddress != "" then "tcp" else "webrtc"
  }

  /** The entry pushed for the wire that is the `n`-th of the snapshot; `ids(n)`
      and `addrs(n)` stand for the random peer id and the random address suffix
      the code draws for that entry when the wire lacks them. */
  function PeerOf(w: Wire, n: nat, ids: nat -> string, addrs: nat -> string): PeerInfo {
    PeerInfo(
      if w.peerId != "" then w.peerId else ids(n),
      if w.remoteAddress != "" then w.remoteAddress else "webrtc-" + addrs(n),
      PeerType(w))
  }

  /** Every entry has a non-empty address and type; its id is the wire's peer id
      when there is one, and its type says `tcp` exactly for a wire without a
      type of its own but with a remote address (or one whose type is `tcp`). */
  lemma PeerOfShape(w: Wire, n: nat, ids: nat -> string, addrs: nat -> string)
    ensures var p := PeerOf(w, n, ids, addrs);
      p.addr != "" && p.peerType != ""
      && (w.peerId != "" ==> p.id == w.peerId)
      && (w.remoteAddress != "" ==> p.addr == w.remoteAddress)
      && (p.peerType == "tcp" <==> w.wireType == "tcp" || (w.wireType == "" && w.remoteAddress != ""))
      && (p.peerType == "webrtc" <==> w.wireType == "webrtc" || (w.wireType == "" && w.remoteAddress == ""))
  {
  }

  /** The wires of each torrent: `None` when the property is missing or throws. */
  function WireLists(ts: seq<Torrent>): (r: seq<Option<seq<Wire>>>)
    reads set t | t in ts
    ensures |r| == |ts|
  {
    seq(|ts|, i requires 0 <= i < |ts| reads set t | t in ts => ts[i].wires)
  }

  /** The wires of all torrents, torrent after torrent; a torrent without wires
      contributes none. */
  function AllWires(lists: seq<Option<seq<Wire>>>): seq<Wire> {
    if lists == [] then []
    else
      var last := lists[|lists| - 1];
      AllWires(lists[..|lists| - 1]) + (if last.Some? then last.value else [])
  }

  /** Torrents keep their client order in the snapshot. */
  lemma {:induction false} AllWiresAppend(a: seq<Option<seq<Wire>>>, b: seq<Option<seq<Wire>>>)
    ensures AllWires(a + b) == AllWires(a) + AllWires(b)
    decreases |b|
  {
    if b == [] {
      assert a + b == a;
    } else {
      var b0 := b[..|b| - 1];
      assert (a + b)[..|a + b| - 1] == a + b0;
      AllWiresAppend(a, b0);
    }
  }

  /** A torrent whose wires are missing or throw adds nothing to the snapshot,
      and one with wires adds exactly those wires, in their order. */
  lemma TorrentWires(a: seq<Option<seq<Wire>>>, ws: Option<seq<Wire>>, b: seq<Option<seq<Wire>>>)
    ensures AllWires(a + [ws] + b) == AllWires(a) + (if ws.Some? then ws.value else []) + AllWires(b)
  {
    AllWiresAppend(a + [ws], b);
    AllWiresAppend(a, [ws]);
    assert [ws][..0] == [];
  }

  /** One entry per wire, in wire order. */
  function Peers(ws: seq<Wire>, ids: nat -> string, addrs: nat -> string): (r: seq<PeerInfo>)
    ensures |r| == |ws|
  {
    seq(|ws|, k requires 0 <= k < |ws| => PeerOf(ws[k], k, ids, addrs))
  }

  lemma PeersSnoc(ws: seq<Wire>, w: Wire, ids: nat -> string, addrs: nat -> string)
    ensures Peers(ws + [w], ids, addrs) == Peers(ws, ids, addrs) + [PeerOf(w, |ws|, ids, addrs)]
  {
    var l := Peers(ws + [w], ids, addrs);
    var r := Peers(ws, ids, addrs) + [PeerOf(w, |ws|, ids, addrs)];
    assert |l| == |r|;
    forall k | 0 <= k < |l|
      ensures l[k] == r[k]
    {
      if k < |ws| {
        assert (ws + [w])[k] == ws[k];
      }
    }
  }

  // ---- the records for the interface ----

  /** A file as shown in the torrent list: its name, length and downloaded
      count are copied as they are. */
  function FileInfoOf(f: EngineFile): (r: FileInfo)
    ensures r.name == f.name && r.length == f.length && r.downloaded == f.downloaded
  {
    FileInfo(f.name, f.length, f.downloaded)
  }

  /** `torrentToInfo` without its floating-point fields: a torrent without a
      name shows as `Unknown`, and its files keep their order. */
  function TorrentToInfo(t: Torrent): (r: TorrentInfo)
    reads t
    ensures r.name != "" && (t.name != "" ==> r.name == t.name)
    ensures r.infoHash == t.infoHash && |r.files| == |t.files|
    ensures forall i :: 0 <= i < |t.files| ==> r.files[i] == FileInfoOf(t.files[i])
  {
    var files := t.files;
    TorrentInfo(
      t.infoHash,
      if t.name != "" then t.name else "Unknown",
      t.length,
      seq(|files|, i requires 0 <= i < |files| => FileInfoOf(files[i])),
      t.magnetUri,
      t.numPeers,
      t.downloaded,
      t.uploaded,
      t.done)
  }

  /** `client.torrents.map(torrentToInfo)`, as `getTorrents` and the update loop send it. */
  function Infos(ts: seq<Torrent>): (r: seq<TorrentInfo>)
    reads set t | t in ts
    ensures |r| == |ts|
    ensures forall i :: 0 <= i < |ts| ==> r[i] == TorrentToInfo(ts[i])
    ensures forall i :: 0 <= i < |ts| ==>
      r[i].infoHash == ts[i].infoHash && r[i].name != "" && (ts[i].name != "" ==> r[i].name == ts[i].name)
  {
    seq(|ts|, i requires 0 <= i < |ts| reads set t | t in ts => TorrentToInfo(ts[i]))
  }

  // ---- the torrent for a folder export ----

  /** The first torrent whose info hash equals `key` after lower-casing both. */
  function FindLower(ts: seq<Torrent>, key: string): (r: Option<Torrent>)
    reads set t | t in ts
    ensures r.Some? ==> r.value in ts && ToLowerAscii(r.value.infoHash) == ToLowerAscii(key)
  {
    if ts == [] then None
    else if ToLowerAscii(ts[0].infoHash) == ToLowerAscii(key) then Some(ts[0])
    else FindLower(ts[1..], key)
  }

  /** The case-insensitive search fails only when no torrent matches. */
  lemma {:induction false} FindLowerFinds(ts: seq<Torrent>, key: string, i: nat)
    requires i < |ts| && ToLowerAscii(ts[i].infoHash) == ToLowerAscii(key)
    ensures FindLower(ts, key).Some?
  {
    if i > 0 && ToLowerAscii(ts[0].infoHash) != ToLowerAscii(key) {
      FindLowerFinds(ts[1..], key, i - 1);
    }
  }

  /** The first torrent with a non-empty file list. */
  function FirstWithFiles(ts: seq<Torrent>): (r: Option<Torrent>)
    reads set t | t in ts
    ensures r.Some? ==> r.value in ts && r.value.files != []
  {
    if ts == [] then None
    else if ts[0].files != [] then Some(ts[0])
    else FirstWithFiles(ts[1..])
  }

  /** The first torrent with files is found whenever there is one. */
  lemma {:induction false} FirstWithFilesFinds(ts: seq<Torrent>, i: nat)
    requires i < |ts| && ts[i].files != []
    ensures FirstWithFiles(ts).Some?
  {
    if i > 0 && ts[0].files == [] {
      FirstWithFilesFinds(ts[1..], i - 1);
    }
  }

  /** The torrent `saveTorrentToFolder` exports: the registered one, else the
      engine's, else one whose info hash matches ignoring case, else the first
      with files, else the first of all. */
  function Resolve(byHash: map<string, Torrent>, ts: seq<Torrent>, key: string): (r: Option<Torrent>)
    reads set t | t in ts
  {
    if key in byHash then Some(byHash[key])
    else
      var got := EngineGet(ts, key);
      if got.Some? then got
      else
        var lower := FindLower(ts, key);
        if lower.Some? then lower
        else
          var withFiles := FirstWithFiles(ts);
          if withFiles.Some? then withFiles
          else if ts != [] then Some(ts[0])
          else None
  }

  /** A torrent is chosen exactly when the client has one, and it is one of the
      client's torrents. */
  lemma ResolveChooses(byHash: map<string, Torrent>, ts: seq<Torrent>, key: string)
    requires Registry(byHash, ts)
    ensures Resolve(byHash, ts, key).Some? <==> ts != []
    ensures Resolve(byHash, ts, key).Some? ==> Resolve(byHash, ts, key).value in ts
  {
  }

  /** When a torrent's info hash is the key, a torrent with that info hash is chosen. */
  lemma ResolveExact(byHash: map<string, Torrent>, ts: seq<Torrent>, key: string, i: nat)
    requires Registry(byHash, ts)
    requires key != "" && i < |ts| && ts[i].infoHash == key
    ensures Resolve(byHash, ts, key).Some? && Resolve(byHash, ts, key).value.infoHash == key
  {
  }

  /** When a torrent's info hash matches the key ignoring case, a torrent that
      matches ignoring case is chosen. */
  lemma ResolveIgnoringCase(byHash: map<string, Torrent>, ts: seq<Torrent>, key: string, i: nat)
    requires Registry(byHash, ts)
    requires i < |ts| && ToLowerAscii(ts[i].infoHash) == ToLowerAscii(key)
    ensures var r := Resolve(byHash, ts, key);
      r.Some? && ToLowerAscii(r.value.infoHash) == ToLowerAscii(key)
  {
    FindLowerFinds(ts, key, i);
  }

  /** With no match at all, the first torrent with files is chosen if there is
      one, and the first torrent otherwise. */
  lemma ResolveFallback(byHash: map<string, Torrent>, ts: seq<Torrent>, key: string)
    requires Registry(byHash, ts) && ts != []
    requires forall i :: 0 <= i < |ts| ==> ToLowerAscii(ts[i].infoHash) != ToLowerAscii(key)
    ensures var r := Resolve(byHash, ts, key);
      r == (if FirstWithFiles(ts).Some? then FirstWithFiles(ts) else Some(ts[0]))
  {
    forall k | k in byHash
      ensures ToLowerAscii(byHash[k].infoHash) == ToLowerAscii(k)
    {
    }
  }

  /** The fields of a torrent that the manager only reads keep their values. */
  twostate predicate KeepsData(t: Torrent)
    reads t
  {
    t.name == old(t.name) && t.length == old(t.length) && t.files == old(t.files)
    && t.wires == old(t.wires) && t.magnetUri == old(t.magnetUri)
    && t.numPeers == old(t.numPeers) && t.downloaded == old(t.downloaded)
    && t.uploaded == old(t.uploaded) && t.done == old(t.done)
  }

  /** Fields of a torrent other than its announce list keep their values. */
  twostate predicate OnlyAnnounce(t: Torrent)
    reads t
  {
    KeepsData(t) && t.infoHash == old(t.infoHash) && t.awaitingMetadata == old(t.awaitingMetadata)
  }

  /** The loop of `setCustomTrackers`: every torrent's announce list is
      replaced by `merge` of its current list. */
  method UpdateAnnounces(ts: seq<Torrent>, merge: seq<string> -> seq<string>)
    requires Distinct(ts)
    modifies ts
    ensures forall j :: 0 <= j < |ts| ==> OnlyAnnounce(ts[j])
    ensures forall j :: 0 <= j < |ts| ==> ts[j].announce == merge(old(ts[j].announce))
  {
    var i := 0;
    while i < |ts|
      invariant i <= |ts|
      invariant forall j :: 0 <= j < |ts| ==> OnlyAnnounce(ts[j])
      invariant forall j :: 0 <= j < i ==> ts[j].announce == merge(old(ts[j].announce))
      invariant forall j :: i <= j < |ts| ==> ts[j].announce == old(ts[j].announce)
    {
      ts[i].announce := merge(ts[i].announce);
      i := i + 1;
    }
  }

  /** Fields other than the announce lists keep their values, so the registry
      still holds. The map and the torrents come as one pair. */
  twostate lemma RegistryKept(registry: (map<string, Torrent>, seq<Torrent>))
    requires old(Registry(registry.0, registry.1))
    requires forall j :: 0 <= j < |registry.1| ==> OnlyAnnounce(registry.1[j])
    ensures Registry(registry.0, registry.1)
  {
    var (byHash, ts) := registry;
    forall k | k in byHash
      ensures byHash[k].infoHash == k
    {
      var j :| 0 <= j < |ts| && ts[j] == byHash[k];
      assert OnlyAnnounce(ts[j]);
    }
  }

  /** The export of the chosen torrent, if any. */
  function ExportOf(chosen: Option<Torrent>, waited: seq<EngineFile>, hasPicker: bool, granted: bool, fs0: Fs): (o: Outcome)
    reads if chosen.Some? then {chosen.value} else {}
    ensures chosen.None? ==> !o.saved && o.events == [] && o.fs == fs0
  {
    if chosen.None? then Outcome(false, [], fs0)
    else Export(Jobs(chosen.value.files), Jobs(waited), hasPicker, granted, fs0)
  }

  /** `saveTorrentToFolder` once the torrent is resolved: with none, `false`. */
  method ExportTorrent(chosen: Option<Torrent>, waited: seq<EngineFile>, hasPicker: bool, granted: bool, fs0: Fs)
    returns (saved: bool, events: seq<Progress>, fs: Fs)
    ensures Outcome(saved, events, fs) == ExportOf(chosen, waited, hasPicker, granted, fs0)
  {
    if chosen.None? {
      return false, [], fs0;
    }
    saved, events, fs := SaveToFolder(chosen.value.files, waited, hasPicker, granted, fs0);
  }

  /** The torrent manager. `storage` is the value under the trackers' storage key;
      `torrents` is the client's torrent list. */
  class TorrentManager {
    var trackers: seq<string>
    var storage: Stored
    var torrents: seq<Torrent>
    var torrentsByHash: map<string, Torrent>

    /** The tracker list is sanitised; the client holds each torrent object
        once; the registry maps info hashes to the client's torrents with
        those hashes. The storage may lag behind the list, since a failed
        write is ignored. */
    ghost predicate Valid()
      reads this, (set t | t in torrents), torrentsByHash.Values
    {
      IsSanitized(trackers) && Distinct(torrents) && Registry(torrentsByHash, torrents)
    }

    /** The trackers are loaded from `stored`; the client starts empty. */
    constructor (stored: Stored)
      ensures Valid()
      ensures trackers == LoadTrackers(stored) && storage == stored
      ensures torrents == [] && torrentsByHash == map[]
    {
      trackers := LoadTrackers(stored);
      storage := stored;
      LoadTrackersSanitized(stored);
      torrents := [];
      torrentsByHash := map[];
    }

    /** `getTrackers`: a copy of the list, which is sanitised. */
    method GetTrackers() returns (r: seq<string>)
      requires Valid()
      ensures r == trackers && IsSanitized(r)
    {
      r := trackers;
    }

    /** `setCustomTrackers`: an input that sanitises to nothing changes nothing;
        otherwise the sanitised list becomes the tracker list, is persisted, and
        goes in front of every torrent's announce list, which is sanitised
        again. `writeOk` says whether the storage write succeeds; a failed
        write leaves the storage as it was and is otherwise ignored. */
    method SetCustomTrackers(list: seq<string>, writeOk: bool)
      requires Valid()
      modifies this, torrents
      ensures Valid()
      ensures torrents == old(torrents) && torrentsByHash == old(torrentsByHash)
      ensures forall i :: 0 <= i < |torrents| ==> OnlyAnnounce(torrents[i])
      ensures Sanitize(list) == [] ==>
        trackers == old(trackers) && storage == old(storage)
        && forall i :: 0 <= i < |torrents| ==> torrents[i].announce == old(torrents[i].announce)
      ensures Sanitize(list) != [] ==>
        trackers == Sanitize(list)
        && storage == (if writeOk then Persisted(Sanitize(list)) else old(storage))
        && forall i :: 0 <= i < |torrents| ==>
             torrents[i].announce == Sanitize(Sanitize(list) + old(torrents[i].announce))
    {
      var cleaned := Sanitize(list);
      if cleaned == [] {
        return;
      }
      SanitizeValid(list);
      UseTrackers(cleaned, writeOk);
    }

    /** The rest of `setCustomTrackers` once the sanitised list `cleaned` is
        known to be non-empty. */
    method UseTrackers(cleaned: seq<string>, writeOk: bool)
      requires Valid() && IsSanitized(cleaned)
      modifies this, torrents
      ensures Valid()
      ensures torrents == old(torrents) && torrentsByHash == old(torrentsByHash)
      ensures forall i :: 0 <= i < |torrents| ==> OnlyAnnounce(torrents[i])
      ensures trackers == cleaned && storage == (if writeOk then Persisted(cleaned) else old(storage))
      ensures forall i :: 0 <= i < |torrents| ==>
        torrents[i].announce == Sanitize(cleaned + old(torrents[i].announce))
    {
      PersistTrackers(cleaned, writeOk);
      MergeAnnounces(cleaned);
    }

    /** `this.trackers = cleaned` and the write to storage, whose failure is
        swallowed. After a write that succeeds, loading the storage gives
        the list back. */
    method PersistTrackers(cleaned: seq<string>, writeOk: bool)
      requires Valid() && IsSanitized(cleaned)
      modifies this
      ensures Valid()
      ensures torrents == old(torrents) && torrentsByHash == old(torrentsByHash)
      ensures trackers == cleaned
      ensures storage == if writeOk then Persisted(cleaned) else old(storage)
      ensures writeOk ==> LoadTrackers(storage) == trackers
    {
      trackers := cleaned;
      if writeOk {
        storage := Persisted(cleaned);
        LoadPersisted(cleaned);
      }
    }

    /** The `forEach` over the client's torrents that puts `cleaned` in front
        of each announce list. */
    method MergeAnnounces(cleaned: seq<string>)
      requires Valid()
      modifies torrents
      ensures Valid()
      ensures forall i :: 0 <= i < |torrents| ==> OnlyAnnounce(torrents[i])
      ensures forall i :: 0 <= i < |torrents| ==>
        torrents[i].announce == Sanitize(cleaned + old(torrents[i].announce))
    {
      var ts := torrents;
      UpdateAnnounces(ts, current => Sanitize(cleaned + current));
      RegistryKept((torrentsByHash, ts));
    }

    /** Registering a torrent when the engine reports it: under its info hash
        when it has one, otherwise by attaching a one-shot `metadata` listener. */
    method Register(t: Torrent)
      requires Valid() && t in torrents
      modifies this, t
      ensures Valid()
      ensures torrents == old(torrents) && trackers == old(trackers) && storage == old(storage)
      ensures KeepsData(t) && t.infoHash == old(t.infoHash) && t.announce == old(t.announce)
      ensures t.infoHash != "" ==>
        torrentsByHash == old(torrentsByHash)[t.infoHash := t] && t.awaitingMetadata == old(t.awaitingMetadata)
      ensures t.infoHash == "" ==> torrentsByHash == old(torrentsByHash) && t.awaitingMetadata
    {
      if t.infoHash != "" {
        torrentsByHash := torrentsByHash[t.infoHash := t];
      } else {
        t.awaitingMetadata := true;
      }
    }

    /** The client's `torrent` event: the engine has appended `t` to its list,
        and the handler registers it. */
    method OnTorrent(t: Torrent)
      requires Valid() && t !in torrents
      modifies this, t
      ensures Valid()
      ensures torrents == old(torrents) + [t]
      ensures trackers == old(trackers) && storage == old(storage)
      ensures KeepsData(t) && t.infoHash == old(t.infoHash) && t.announce == old(t.announce)
      ensures t.infoHash != "" ==>
        torrentsByHash == old(torrentsByHash)[t.infoHash := t] && t.awaitingMetadata == old(t.awaitingMetadata)
      ensures t.infoHash == "" ==> torrentsByHash == old(torrentsByHash) && t.awaitingMetadata
    {
      torrents := torrents + [t];
      Register(t);
    }

    /** The callback of `addTorrent`: register the torrent, then put the
        tracker list in front of its announce list and sanitise the result. */
    method OnAdded(t: Torrent)
      requires Valid() && t in torrents
      modifies this, t
      ensures Valid()
      ensures torrents == old(torrents) && trackers == old(trackers) && storage == old(storage)
      ensures KeepsData(t) && t.infoHash == old(t.infoHash)
      ensures t.announce == Sanitize(trackers + old(t.announce))
      ensures t.infoHash != "" ==>
        torrentsByHash == old(torrentsByHash)[t.infoHash := t] && t.awaitingMetadata == old(t.awaitingMetadata)
      ensures t.infoHash == "" ==> torrentsByHash == old(torrentsByHash) && t.awaitingMetadata
    {
      Register(t);
      t.announce := Sanitize(trackers + t.announce);
    }

    /** The engine learns the info hash `h` of a torrent that had none and emits
        `metadata`; a waiting one-shot listener registers the torrent and is gone. */
    method OnMetadata(t: Torrent, h: string)
      requires Valid() && t in torrents && t.infoHash == "" && h != ""
      modifies this, t
      ensures Valid()
      ensures torrents == old(torrents) && trackers == old(trackers) && storage == old(storage)
      ensures t.infoHash == h && !t.awaitingMetadata
      ensures KeepsData(t) && t.announce == old(t.announce)
      ensures old(t.awaitingMetadata) ==> torrentsByHash == old(torrentsByHash)[h := t]
      ensures !old(t.awaitingMetadata) ==> torrentsByHash == old(torrentsByHash)
    {
      t.infoHash := h;
      if t.awaitingMetadata {
        t.awaitingMetadata := false;
        torrentsByHash := torrentsByHash[h := t];
      }
    }

    /** `removeTorrent`: an info hash the engine does not know changes nothing;
        otherwise the engine drops that torrent and the registry forgets the
        hash. */
    method RemoveTorrent(infoHash: string)
      requires Valid()
      modifies this
      ensures Valid()
      ensures trackers == old(trackers) && storage == old(storage)
      ensures old(EngineGet(torrents, infoHash)).None? ==>
        torrents == old(torrents) && torrentsByHash == old(torrentsByHash)
      ensures old(EngineGet(torrents, infoHash)).Some? ==>
        torrents == Without(old(torrents), old(EngineGet(torrents, infoHash)).value)
        && torrentsByHash == old(torrentsByHash) - {infoHash}
    {
      var found := EngineGet(torrents, infoHash);
      if found.None? {
        return;
      }
      var t := found.value;
      FilterDistinct((u: Torrent) => u != t, torrents);
      forall u | u in torrents && u != t
        ensures u in Without(torrents, t)
      {
        WithoutMembers(torrents, t, u);
      }
      torrents := Without(torrents, t);
      torrentsByHash := torrentsByHash - {infoHash};
    }

    /** `updatePeers`: one entry per wire, torrents in client order and wires
        in order within each torrent. */
    method UpdatePeers(ids: nat -> string, addrs: nat -> string) returns (peers: seq<PeerInfo>)
      ensures peers == Peers(AllWires(WireLists(torrents)), ids, addrs)
    {
      var ts := torrents;
      ghost var lists := WireLists(ts);
      peers := [];
      var i := 0;
      while i < |ts|
        invariant i <= |ts|
        invariant peers == Peers(AllWires(lists[..i]), ids, addrs)
      {
        ghost var before := AllWires(lists[..i]);
        var wires := ts[i].wires;
        if wires.Some? {
          var ws := wires.value;
          var j := 0;
          while j < |ws|
            invariant j <= |ws|
            invariant peers == Peers(before + ws[..j], ids, addrs)
          {
            var w := ws[j];
            var peerType := if w.wireType != "" then w.wireType
              else if w.remoteAddress != "" then "tcp" else "webrtc";
            var id := if w.peerId != "" then w.peerId else ids(|peers|);
            var addr := if w.remoteAddress != "" then w.remoteAddress else "webrtc-" + addrs(|peers|);
            PeersSnoc(before + ws[..j], w, ids, addrs);
            assert before + ws[..j + 1] == before + ws[..j] + [w];
            peers := peers + [PeerInfo(id, addr, peerType)];
            j := j + 1;
          }
          assert ws[..j] == ws;
        } else {
          assert before + [] == before;
        }
        assert lists[..i + 1][..i] == lists[..i];
        i := i + 1;
      }
      assert lists[..i] == lists;
    }

    /** `saveTorrentToFolder`: no torrent to choose means `false` and nothing
        written; otherwise the chosen torrent's files are exported. `waited`
        is its file list after the wait for metadata, `hasPicker` whether the
        directory picker exists and `granted` whether a directory was picked. */
    method SaveTorrentToFolder(infoHash: string, waited: seq<EngineFile>, hasPicker: bool, granted: bool, fs0: Fs)
      returns (saved: bool, events: seq<Progress>, fs: Fs)
      ensures Outcome(saved, events, fs) == ExportOf(Resolve(torrentsByHash, torrents, infoHash), waited, hasPicker, granted, fs0)
    {
      var chosen := Resolve(torrentsByHash, torrents, infoHash);
      saved, events, fs := ExportTorrent(chosen, waited, hasPicker, granted, fs0);
    }
  }
}
