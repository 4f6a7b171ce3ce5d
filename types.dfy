/** The records the manager hands to the interface. Floating-point fields
    (progress, speeds, ratio, time remaining) are not part of this model. */
module TorrentTypes {
  import opened Wrappers

  /** One connected peer as shown in the peer list. */
  datatype PeerInfo = PeerInfo(id: string, addr: string, peerType: string)

  /** One file of a torrent, without its download progress. `length` is
      `None` when the engine's value is not a number. */
  datatype FileInfo = FileInfo(name: string, length: Option<nat>, downloaded: nat)

  /** A torrent as shown in the torrent list, without its floating-point fields. */
  datatype TorrentInfo = TorrentInfo(
    infoHash: string,
    name: string,
    length: nat,
    files: seq<FileInfo>,
    magnetUri: string,
    numPeers: nat,
    downloaded: nat,
    uploaded: nat,
    done: bool)
}
