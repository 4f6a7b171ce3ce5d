/** The peer list panel: it shows each peer id once (the first entry with that
    id wins), a header with the number of peers shown, and the first eight
    characters of every id. */
module PeerList {
  import opened Dedup
  import opened TorrentTypes

  function PeerId(p: PeerInfo): string { p.id }

  /** `peers.filter((peer, index, self) => index === self.findIndex(p => p.id === peer.id))`,
      over the first `n` entries: an entry is kept when the first entry of the
      whole array with its id is the entry itself. */
  function FilterFirst(self: seq<PeerInfo>, n: nat): seq<PeerInfo>
    requires n <= |self|
  {
    if n == 0 then []
    else
      var keep := FirstIndexBy(self, PeerId, self[n - 1].id) == n - 1;
      FilterFirst(self, n - 1) + (if keep then [self[n - 1]] else [])
  }

  /** `uniquePeers`. */
  function UniquePeers(peers: seq<PeerInfo>): seq<PeerInfo> {
    FilterFirst(peers, |peers|)
  }

  /** An entry is its id's first occurrence exactly when no earlier entry has the id. */
  lemma FirstIndexIsSelf(self: seq<PeerInfo>, n: nat)
    requires 0 < n <= |self|
    ensures FirstIndexBy(self, PeerId, self[n - 1].id) == n - 1
      <==> !HasKey(self[..n - 1], PeerId, PeerId(self[n - 1]))
  {
    var k := self[n - 1].id;
    var i := FirstIndexBy(self, PeerId, k);
    assert PeerId(self[n - 1]) == k;
    if HasKey(self[..n - 1], PeerId, k) {
      var j :| 0 <= j < n - 1 && PeerId(self[..n - 1][j]) == k;
      assert PeerId(self[j]) == k;
    } else {
      forall j | 0 <= j < n - 1
        ensures PeerId(self[j]) != k
      {
        assert self[j] == self[..n - 1][j];
      }
    }
  }

  lemma {:induction false} FilterFirstIsDedup(self: seq<PeerInfo>, n: nat)
    requires n <= |self|
    ensures FilterFirst(self, n) == DedupBy(self[..n], PeerId)
  {
    if n > 0 {
      var p, x := self[..n], self[n - 1];
      assert p[..|p| - 1] == self[..n - 1] && p[|p| - 1] == x;
      var keep := FirstIndexBy(self, PeerId, x.id) == n - 1;
      assert keep <==> !HasKey(self[..n - 1], PeerId, PeerId(x)) by {
        FirstIndexIsSelf(self, n);
      }
      assert DedupBy(p, PeerId) == DedupBy(self[..n - 1], PeerId) + (if keep then [x] else []);
      assert FilterFirst(self, n - 1) == DedupBy(self[..n - 1], PeerId) by {
        FilterFirstIsDedup(self, n - 1);
      }
    }
  }

  /** The component's filter is first-occurrence de-duplication by id. */
  lemma UniquePeersIsDedup(peers: seq<PeerInfo>)
    ensures UniquePeers(peers) == DedupBy(peers, PeerId)
  {
    FilterFirstIsDedup(peers, |peers|);
    assert peers[..|peers|] == peers;
  }

  /** No two shown peers share an id, and never more peers are shown than given. */
  lemma UniquePeersDistinct(peers: seq<PeerInfo>)
    ensures var u := UniquePeers(peers);
      |u| <= |peers| && forall i, j :: 0 <= i < j < |u| ==> u[i].id != u[j].id
  {
    UniquePeersIsDedup(peers);
    DedupByDistinct(peers, PeerId);
    var u := UniquePeers(peers);
    forall i, j | 0 <= i < j < |u|
      ensures u[i].id != u[j].id
    {
      assert PeerId(u[i]) != PeerId(u[j]);
    }
  }

  /** No entry before position `i` has the id of entry `i`. */
  predicate IsFirstWithId(peers: seq<PeerInfo>, i: int)
    requires 0 <= i < |peers|
  {
    forall j :: 0 <= j < i ==> peers[j].id != peers[i].id
  }

  /** Every id of the input is shown. */
  lemma UniquePeersCoverIds(peers: seq<PeerInfo>)
    ensures var u := UniquePeers(peers);
      forall i :: 0 <= i < |peers| ==> exists m :: 0 <= m < |u| && u[m].id == peers[i].id
  {
    UniquePeersIsDedup(peers);
    var u := UniquePeers(peers);
    forall i | 0 <= i < |peers|
      ensures exists m :: 0 <= m < |u| && u[m].id == peers[i].id
    {
      assert PeerId(peers[i]) == peers[i].id;
      DedupByKeys(peers, PeerId, peers[i].id);
      var m :| 0 <= m < |u| && PeerId(u[m]) == peers[i].id;
    }
  }

  /** Every shown peer is the first input entry with its id. */
  lemma UniquePeersAreFirst(peers: seq<PeerInfo>)
    ensures var u := UniquePeers(peers);
      forall m :: 0 <= m < |u| ==> IsFirstOccurrence(peers, u[m])
  {
    var u := UniquePeers(peers);
    forall m | 0 <= m < |u|
      ensures IsFirstOccurrence(peers, u[m])
    {
      UniquePeerIsFirst(peers, m);
      var i := FirstIndexBy(peers, PeerId, u[m].id);
      assert 0 <= i < |peers| && u[m] == peers[i] && IsFirstWithId(peers, i);
    }
  }

  /** `p` is an entry of `peers` and no earlier entry has its id. */
  predicate IsFirstOccurrence(peers: seq<PeerInfo>, p: PeerInfo) {
    exists i :: 0 <= i < |peers| && p == peers[i] && IsFirstWithId(peers, i)
  }

  lemma UniquePeerIsFirst(peers: seq<PeerInfo>, m: nat)
    requires m < |UniquePeers(peers)|
    ensures var i := FirstIndexBy(peers, PeerId, UniquePeers(peers)[m].id);
      i < |peers| && UniquePeers(peers)[m] == peers[i] && IsFirstWithId(peers, i)
  {
    UniquePeersIsDedup(peers);
    var u := UniquePeers(peers);
    DedupByFirstOccurrence(peers, PeerId);
    assert PeerId(u[m]) == u[m].id;
    var i := FirstIndexBy(peers, PeerId, u[m].id);
    assert forall j :: 0 <= j < i ==> PeerId(peers[j]) != PeerId(u[m]);
  }

  /** Shown peers keep the input order. */
  lemma UniquePeersOrder(peers: seq<PeerInfo>)
    ensures var u := UniquePeers(peers);
      forall i, j :: 0 <= i < j < |u| ==>
        FirstIndexBy(peers, PeerId, u[i].id) < FirstIndexBy(peers, PeerId, u[j].id)
  {
    UniquePeersIsDedup(peers);
    DedupByOrder(peers, PeerId);
    var u := UniquePeers(peers);
    forall i, j | 0 <= i < j < |u|
      ensures FirstIndexBy(peers, PeerId, u[i].id) < FirstIndexBy(peers, PeerId, u[j].id)
    {
      assert PeerId(u[i]) == u[i].id && PeerId(u[j]) == u[j].id;
    }
  }

  /** Filtering the shown list again changes nothing. */
  lemma UniquePeersIdempotent(peers: seq<PeerInfo>)
    ensures UniquePeers(UniquePeers(peers)) == UniquePeers(peers)
  {
    UniquePeersIsDedup(peers);
    UniquePeersIsDedup(UniquePeers(peers));
    DedupByIdempotent(peers, PeerId);
  }

  /** The header's peer count. */
  function HeaderCount(peers: seq<PeerInfo>): (n: nat)
    ensures n <= |peers|
    ensures peers != [] ==> n >= 1
  {
    UniquePeersDistinct(peers);
    UniquePeersCoverIds(peers);
    |UniquePeers(peers)|
  }

  /** `id.substring(0, 8)`: the first eight characters, or the whole id when shorter. */
  function ShortId(id: string): (r: string)
    ensures |r| == if |id| < 8 then |id| else 8
    ensures r == id[..|r|]
  {
    if |id| < 8 then id else id[..8]
  }
}
