/** The read-only view of the FPGA device the core relies on. The device database is not
    part of this model: a device is the finite table of answers to the three queries the
    core makes (tile by name, corresponding site, compatible sites). */
module DeviceGrid {
  import opened Wrappers

  /** The name of a tile family other than the two the relocation rule distinguishes. */
  type OtherFamily = family: string | family != "CLBLL" && family != "CLBLM" witness ""

  /** The tile families the relocation rule distinguishes; every other family is `OtherTile`,
      which cannot spell either of the two. */
  datatype TileType = CLBLL | CLBLM | OtherTile(family: OtherFamily)

  /** A tile of the device grid: its name and its X/Y tile coordinates. */
  datatype Tile = Tile(name: string, x: int, y: int, tileType: TileType)

  /** A primitive site; it belongs to exactly one tile. */
  datatype Site = Site(name: string, tile: Tile)

  /** A primitive type such as "SLICEL" or "SLICEM". */
  type PrimitiveType = string

  /** A programmable interconnect point: a connection between two wires inside a tile. */
  datatype Pip = Pip(tile: Tile, startWire: string, endWire: string)

  datatype Device = Device(
    tiles: map<string, Tile>,
    correspondingSites: map<(Site, PrimitiveType, Tile), Site>,
    compatibleSites: map<PrimitiveType, seq<Site>>)

  /** `dev.getTile(name)`: the tile with that name, or nothing. */
  function GetTile(dev: Device, name: string): (t: Option<Tile>)
    ensures t.Some? <==> name in dev.tiles
  {
    if name in dev.tiles then Some(dev.tiles[name]) else None
  }

  /** `Device.getCorrespondingPrimitiveSite(site, type, tile)`: the site on `tile` that plays
      the role `site` plays on its own tile for primitives of `primitiveType`, or nothing. */
  function GetCorrespondingSite(dev: Device, site: Site, primitiveType: PrimitiveType, tile: Tile): (s: Option<Site>)
    ensures s.Some? <==> (site, primitiveType, tile) in dev.correspondingSites
  {
    if (site, primitiveType, tile) in dev.correspondingSites
    then Some(dev.correspondingSites[(site, primitiveType, tile)])
    else None
  }

  /** `dev.getAllCompatibleSites(type)`, in device order (a type the device does not list has none). */
  function GetAllCompatibleSites(dev: Device, primitiveType: PrimitiveType): seq<Site> {
    if primitiveType in dev.compatibleSites then dev.compatibleSites[primitiveType] else []
  }
}
