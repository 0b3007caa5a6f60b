/** Loading a tile-cache set (NavMesh::read): the header checks, the set-up
    of the Detour mesh and tile cache, the tile loop and the sizing of the
    slot arrays. The file arrives already decoded: a header and, for each
    position i, the tile record that reading at that position yields. Every
    Detour allocation, initialisation and tile insertion is an oracle answer
    in `Detour`. */
module TileSetLoad {
  import opened Wrappers
  import Slots
  import Mesh
  import opened Geometry

  /** 'T'<<24 | 'S'<<16 | 'E'<<8 | 'T': the letters of "TSET" packed with
      the first one in the top byte. */
  const TILECACHESET_MAGIC: int :=
    ((('T' as int) as bv32 << 24) | (('S' as int) as bv32 << 16) | (('E' as int) as bv32 << 8) | (('T' as int) as bv32)) as int
  const TILECACHESET_VERSION: int := 1

  /** dtNavMeshParams: handed to the mesh's init unchanged. */
  datatype MeshParams = MeshParams(origin: Vec3, tileWidth: real, tileHeight: real, maxTiles: int, maxPolys: int)

  /** The dtTileCacheParams fields the load itself reads; the rest only
      matters to the tile cache's init and is folded into `others`. */
  datatype CacheParams = CacheParams(walkableRadius: real, maxObstacles: nat, others: seq<int>)

  datatype Header = Header(magic: int, version: int, numTiles: int, meshParams: MeshParams, cacheParams: CacheParams)

  /** One tile record: its header (placeholder reference and byte size) and
      the bytes the zero-filled buffer holds after reading the payload. */
  datatype TileRecord = TileRecord(tileRef: nat, dataSize: int, data: seq<bv8>)

  /** Answers of the file system and of the Detour library. */
  datatype Detour = Detour(
    fileOpens: bool,
    navMeshAllocs: bool,
    navMeshInit: MeshParams -> bool,
    tileCacheAllocs: bool,
    tileCacheInit: CacheParams -> bool,
    /** dtAlloc of a tile buffer of this many bytes succeeds. */
    tileDataAllocs: int -> bool,
    /** The reference addTile assigns to the payload of the record at this
        position; 0 when the cache refuses it. The position stands for
        everything added before it, so the answer may depend on that. */
    addTile: (nat, seq<bv8>, int) -> nat)

  datatype LoadError =
    | FileNotOpened
    | BadMagic
    | BadVersion
    | NavMeshAllocFailed
    | NavMeshInitFailed
    | TileCacheAllocFailed
    | TileCacheInitFailed

  datatype FileState = NeverOpened | Closed | Open

  /** What is still held when read returns: the file, and whether the mesh
      and tile-cache objects were allocated (they are freed by the
      destructor, not by read). */
  datatype Held = Held(file: FileState, navMesh: bool, tileCache: bool)

  datatype LoadResult =
    | Failed(error: LoadError, held: Held)
    | Loaded(mesh: Mesh.NavMesh, held: Held, tilesAccepted: nat, recordsRead: nat)

  /** Every check of the header and every set-up step succeeds. */
  predicate SetUpSucceeds(d: Detour, h: Header) {
    && d.fileOpens
    && h.magic == TILECACHESET_MAGIC
    && h.version == TILECACHESET_VERSION
    && d.navMeshAllocs
    && d.navMeshInit(h.meshParams)
    && d.tileCacheAllocs
    && d.tileCacheInit(h.cacheParams)
  }

  /** A record that ends the tile loop: a zero reference, a zero size, or a
      buffer that cannot be allocated. */
  predicate EndsTileLoop(d: Detour, rec: TileRecord) {
    rec.tileRef == 0 || rec.dataSize == 0 || !d.tileDataAllocs(rec.dataSize)
  }

  /** The references of the tiles built from the first `n` records: the
      nonzero answers of addTile, in record order. */
  function BuiltTiles(d: Detour, records: nat -> TileRecord, n: nat): (r: seq<nat>)
    ensures |r| <= n
    ensures forall k :: 0 <= k < |r| ==> r[k] != 0
    decreases n
  {
    if n == 0 then []
    else
      var rec := records(n - 1);
      var tile := d.addTile(n - 1, rec.data, rec.dataSize);
      BuiltTiles(d, records, n - 1) + (if tile != 0 then [tile] else [])
  }

  /** The tile loop: reads at most `numTiles` record headers, stops at the
      first record that ends the loop, and builds each accepted record whose
      insertion into the cache produced a reference. `accepted` counts the
      records processed in full; `headersRead` also counts the one that
      stopped the loop. */
  method ReadTiles(d: Detour, numTiles: int, records: nat -> TileRecord)
    returns (accepted: nat, headersRead: nat, built: seq<nat>)
    ensures accepted <= headersRead <= (if numTiles < 0 then 0 else numTiles)
    ensures forall i :: 0 <= i < accepted ==> !EndsTileLoop(d, records(i))
    ensures accepted < numTiles ==> EndsTileLoop(d, records(accepted)) && headersRead == accepted + 1
    ensures accepted >= numTiles ==> headersRead == accepted
    ensures built == BuiltTiles(d, records, accepted)
  {
    var i: nat := 0;
    built := [];
    while i < numTiles
      invariant i <= numTiles || i == 0
      invariant forall k :: 0 <= k < i ==> !EndsTileLoop(d, records(k))
      invariant built == BuiltTiles(d, records, i)
      decreases numTiles - i
    {
      var rec := records(i);
      if rec.tileRef == 0 || rec.dataSize == 0 {
        return i, i + 1, built;
      }
      if !d.tileDataAllocs(rec.dataSize) {
        return i, i + 1, built;
      }
      var tile := d.addTile(i, rec.data, rec.dataSize);
      if tile != 0 {
        built := built + [tile];
      }
      i := i + 1;
    }
    return i, i, built;
  }

  /** The slot arrays, crowd and tiles of a successful load. */
  predicate LoadedAsSpecified(d: Detour, h: Header, records: nat -> TileRecord, r: LoadResult)
    requires r.Loaded?
  {
    && r.mesh.agents == Slots.Fresh(Mesh.MAX_AGENTS)
    && r.mesh.obstacles == Slots.Fresh(h.cacheParams.maxObstacles)
    && r.mesh.agentQuery == map[]
    && r.mesh.hasCrowd
    && r.tilesAccepted <= r.recordsRead <= (if h.numTiles < 0 then 0 else h.numTiles)
    && (forall i :: 0 <= i < r.tilesAccepted ==> !EndsTileLoop(d, records(i)))
    && (r.tilesAccepted < h.numTiles ==> EndsTileLoop(d, records(r.tilesAccepted)) && r.recordsRead == r.tilesAccepted + 1)
    && (r.tilesAccepted >= h.numTiles ==> r.recordsRead == r.tilesAccepted)
    && r.mesh.tiles == BuiltTiles(d, records, r.tilesAccepted)
  }

  /** The file opened and the header carries the expected magic and version. */
  predicate HeaderAccepted(d: Detour, h: Header) {
    d.fileOpens && h.magic == TILECACHESET_MAGIC && h.version == TILECACHESET_VERSION
  }

  /** The header was accepted and the mesh was allocated and initialised. */
  predicate MeshReady(d: Detour, h: Header) {
    HeaderAccepted(d, h) && d.navMeshAllocs && d.navMeshInit(h.meshParams)
  }

  /** Each step, when every step before it succeeded and it fails, is the
      reported error, and what is left allocated is what the steps before it
      allocated. */
  predicate FailedAsSpecified(d: Detour, h: Header, r: LoadResult)
    requires r.Failed?
  {
    && (!d.fileOpens ==>
          r == Failed(FileNotOpened, Held(NeverOpened, false, false)))
    && (d.fileOpens && h.magic != TILECACHESET_MAGIC ==>
          r == Failed(BadMagic, Held(Closed, false, false)))
    && (d.fileOpens && h.magic == TILECACHESET_MAGIC && h.version != TILECACHESET_VERSION ==>
          r == Failed(BadVersion, Held(Closed, false, false)))
    && (HeaderAccepted(d, h) && !d.navMeshAllocs ==>
          r == Failed(NavMeshAllocFailed, Held(Closed, false, false)))
    && (HeaderAccepted(d, h) && d.navMeshAllocs && !d.navMeshInit(h.meshParams) ==>
          r == Failed(NavMeshInitFailed, Held(Closed, true, false)))
    && (MeshReady(d, h) && !d.tileCacheAllocs ==>
          r == Failed(TileCacheAllocFailed, Held(Closed, true, false)))
    && (MeshReady(d, h) && d.tileCacheAllocs && !d.tileCacheInit(h.cacheParams) ==>
          r == Failed(TileCacheInitFailed, Held(Closed, true, true)))
  }

  /** NavMesh::read as written: every failure after the file was opened
      closes it first, but the success return leaves it open. */
  method ReadTileSet(d: Detour, h: Header, records: nat -> TileRecord) returns (r: LoadResult)
    ensures r.Loaded? <==> SetUpSucceeds(d, h)
    ensures r.Failed? ==> FailedAsSpecified(d, h, r)
    ensures r.Loaded? ==> LoadedAsSpecified(d, h, records, r) && r.held == Held(Open, true, true)
  {
    if !d.fileOpens {
      return Failed(FileNotOpened, Held(NeverOpened, false, false));
    }
    if h.magic != TILECACHESET_MAGIC {
      return Failed(BadMagic, Held(Closed, false, false));
    }
    if h.version != TILECACHESET_VERSION {
      return Failed(BadVersion, Held(Closed, false, false));
    }
    if !d.navMeshAllocs {
      return Failed(NavMeshAllocFailed, Held(Closed, false, false));
    }
    if !d.navMeshInit(h.meshParams) {
      return Failed(NavMeshInitFailed, Held(Closed, true, false));
    }
    if !d.tileCacheAllocs {
      return Failed(TileCacheAllocFailed, Held(Closed, true, false));
    }
    if !d.tileCacheInit(h.cacheParams) {
      return Failed(TileCacheInitFailed, Held(Closed, true, true));
    }
    var accepted, headersRead, built := ReadTiles(d, h.numTiles, records);
    var mesh := Mesh.NavMesh(
      Slots.Fresh(Mesh.MAX_AGENTS), Slots.Fresh(h.cacheParams.maxObstacles), map[], true, built);
    return Loaded(mesh, Held(Open, true, true), accepted, headersRead);
  }

  /** read with the file closed before the success return as well, the way
      the failure paths already do: the same verdict and the same mesh, and
      no exit path leaves the file open. */
  method Read(d: Detour, h: Header, records: nat -> TileRecord) returns (r: LoadResult)
    ensures r.Loaded? <==> SetUpSucceeds(d, h)
    ensures r.Failed? ==> FailedAsSpecified(d, h, r)
    ensures r.Loaded? ==> LoadedAsSpecified(d, h, records, r) && r.held == Held(Closed, true, true)
    ensures r.held.file != Open
  {
    r := ReadTileSet(d, h, records);
    if r.Loaded? {
      r := Loaded(r.mesh, Held(Closed, r.held.navMesh, r.held.tileCache), r.tilesAccepted, r.recordsRead);
    }
  }

  /** A loaded mesh starts out valid: nothing is held by either slot array. */
  lemma LoadedMeshIsValid(d: Detour, h: Header, records: nat -> TileRecord, r: LoadResult)
    requires r.Loaded? && LoadedAsSpecified(d, h, records, r)
    ensures Mesh.Valid(r.mesh)
    ensures Slots.Occupants(r.mesh.agents.slots) == multiset{}
    ensures |r.mesh.agents.slots| == Mesh.MAX_AGENTS
  {
    Slots.FreshConsistent<Mesh.AgentHandle>(Mesh.MAX_AGENTS);
    Slots.FreshConsistent<Mesh.ObstacleHandle>(h.cacheParams.maxObstacles);
  }

  /** The references built from a longer prefix of records extend those
      built from a shorter one: stopping the loop early keeps every tile
      already built. */
  lemma {:induction false} BuiltTilesExtend(d: Detour, records: nat -> TileRecord, m: nat, n: nat)
    requires m <= n
    ensures BuiltTiles(d, records, m) <= BuiltTiles(d, records, n)
    decreases n - m
  {
    if m < n {
      BuiltTilesExtend(d, records, m, n - 1);
    }
  }

  /** Every built reference is the answer addTile gave for one of the
      accepted records. */
  lemma {:induction false} BuiltTilesComeFromRecords(d: Detour, records: nat -> TileRecord, n: nat, k: nat)
    requires k < |BuiltTiles(d, records, n)|
    ensures exists i :: 0 <= i < n && BuiltTiles(d, records, n)[k] == d.addTile(i, records(i).data, records(i).dataSize)
    decreases n
  {
    var prev := BuiltTiles(d, records, n - 1);
    if k < |prev| {
      BuiltTilesComeFromRecords(d, records, n - 1, k);
    } else {
      assert BuiltTiles(d, records, n)[k] == d.addTile(n - 1, records(n - 1).data, records(n - 1).dataSize);
    }
  }

  /** A tile set that declares no tiles reads no record and builds no tile. */
  lemma NoTilesDeclaredBuildsNone(d: Detour, h: Header, records: nat -> TileRecord, r: LoadResult)
    requires r.Loaded? && LoadedAsSpecified(d, h, records, r)
    requires h.numTiles <= 0
    ensures r.recordsRead == 0 && r.tilesAccepted == 0 && r.mesh.tiles == []
  {
  }
}
