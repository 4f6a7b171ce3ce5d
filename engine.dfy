/** What the manager sees of the WebTorrent engine's objects: torrents with
    their files, wires and announce list, and the engine's own lookup by info
    hash. The engine itself (downloading, seeding, announcing) is not part of
    this model. Missing or empty string properties are both written `""`,
    since the code only ever tests them for truthiness. */
module Engine {
  import opened Wrappers

  /** How reading a file's data behaves when the file is exported: `getBlob`
      yields a blob of `size` bytes, or `getBlob` reports an error, or there is
      no `getBlob` but `stream()` gives a reader that yields chunks of the given
      byte lengths and then either finishes or rejects, or `stream()` gives no
      reader, or the file offers neither. `Unwritable` stands for a file whose
      `createWritable` call rejects. */
  datatype Content =
    | Blob(size: nat)
    | BlobFails
    | Stream(chunks: seq<nat>, completes: bool)
    | NoReader
    | NoSource
    | Unwritable

  /** A file of a torrent. `length` is `None` when it is not a number. */
  datatype EngineFile = EngineFile(
    name: string,
    path: string,
    length: Option<nat>,
    downloaded: nat,
    content: Content)

  /** A peer connection: its peer id, remote address and transport type. */
  datatype Wire = Wire(peerId: string, remoteAddress: string, wireType: string)

  /** A torrent object of the engine. `infoHash` is `""` until the metadata
      arrives; `wires` is `None` when the property is missing or reading it
      throws; `awaitingMetadata` records that the manager attached a one-shot
      `metadata` listener to register the torrent later. */
  class Torrent {
    var infoHash: string
    var name: string
    var length: nat
    var files: seq<EngineFile>
    var wires: Option<seq<Wire>>
    var announce: seq<string>
    var magnetUri: string
    var numPeers: nat
    var downloaded: nat
    var uploaded: nat
    var done: bool
    var awaitingMetadata: bool

    constructor (infoHash: string, name: string, files: seq<EngineFile>, announce: seq<string>)
      ensures this.infoHash == infoHash && this.name == name
      ensures this.files == files && this.announce == announce
      ensures wires == None && !awaitingMetadata
    {
      this.infoHash := infoHash;
      this.name := name;
      this.files := files;
      this.announce := announce;
      this.length := 0;
      this.wires := None;
      this.magnetUri := "";
      this.numPeers := 0;
      this.downloaded := 0;
      this.uploaded := 0;
      this.done := false;
      this.awaitingMetadata := false;
    }
  }

  /** `client.get(infoHash)` for a key in the engine's own form (lower-case
      hex): the first torrent whose info hash is the key; an empty key
      identifies nothing. Parsed keys (magnet URIs, base32 hashes) are not
      modelled. */
  function EngineGet(torrents: seq<Torrent>, key: string): (r: Option<Torrent>)
    reads set t | t in torrents
    ensures r.Some? <==> key != "" && exists i :: 0 <= i < |torrents| && torrents[i].infoHash == key
    ensures r.Some? ==> r.value in torrents && r.value.infoHash == key
  {
    if key == "" || torrents == [] then None
    else if torrents[0].infoHash == key then Some(torrents[0])
    else EngineGet(torrents[1..], key)
  }
}
