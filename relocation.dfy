/** Module.getCorrespondingTile: where a tile of a hard-macro template lands when the
    module's anchor moves from the tile it occupies now to a new anchor tile. */
module Relocation {
  import opened Wrappers
  import opened Text
  import opened SiteNames
  import opened DeviceGrid

  /** The template name up to and including its last `X`; empty when it has no `X`. */
  function MarkerPrefix(name: string): string {
    name[..LastIndexOf(name, 'X') + 1]
  }

  /** The name looked up first: the template's marker prefix followed by the new X, `Y`
      and the new Y, in Java's decimal rendering. */
  function TargetName(templateName: string, x: int, y: int): string {
    MarkerPrefix(templateName) + IntToString(x) + "Y" + IntToString(y)
  }

  /** The fixed substitution between the two interchangeable logic-block tile families. */
  function FallbackName(tileType: TileType, x: int, y: int): Option<string> {
    match tileType
    case CLBLL => Some(CoordinateName("CLBLM_", x, y))
    case CLBLM => Some(CoordinateName("CLBLL_", x, y))
    case OtherTile(_) => None
  }

  /** The tile corresponding to `templateTile` when the anchor moves from `anchorTile`
      (the tile of the module's current anchor) to `newAnchorTile`, or nothing. */
  function CorrespondingTile(dev: Device, templateTile: Tile, anchorTile: Tile, newAnchorTile: Tile): (r: Option<Tile>)
    ensures var newX := newAnchorTile.x + (templateTile.x - anchorTile.x);
            var newY := newAnchorTile.y + (templateTile.y - anchorTile.y);
            var name := TargetName(templateTile.name, newX, newY);
            && (name in dev.tiles ==> r == Some(dev.tiles[name]))
            && (name !in dev.tiles && templateTile.tileType == CLBLL ==> r == GetTile(dev, CoordinateName("CLBLM_", newX, newY)))
            && (name !in dev.tiles && templateTile.tileType == CLBLM ==> r == GetTile(dev, CoordinateName("CLBLL_", newX, newY)))
            && (name !in dev.tiles && templateTile.tileType.OtherTile? ==> r.None?)
  {
    var tileXOffset := templateTile.x - anchorTile.x;
    var tileYOffset := templateTile.y - anchorTile.y;
    var newTileX := newAnchorTile.x + tileXOffset;
    var newTileY := newAnchorTile.y + tileYOffset;
    var exact := GetTile(dev, TargetName(templateTile.name, newTileX, newTileY));
    if exact.Some? then exact
    else match FallbackName(templateTile.tileType, newTileX, newTileY)
      case None => None
      case Some(name) => GetTile(dev, name)
  }

  /** A tile named in the grid convention: its name carries its own coordinates after its last `X`. */
  predicate WellNamed(t: Tile) {
    var k := LastIndexOf(t.name, 'X');
    k >= 0 && t.name == CoordinateName(t.name[..k], t.x, t.y)
  }

  /** The tile filed under `name`, if any, carries that name and is well named. */
  predicate FiledWellNamed(dev: Device, name: string) {
    name in dev.tiles ==> dev.tiles[name].name == name && WellNamed(dev.tiles[name])
  }

  /** Every tile of the device is filed under its own name and is well named. */
  ghost predicate TilesWellNamed(dev: Device) {
    forall name :: FiledWellNamed(dev, name)
  }

  /** The first lookup name keeps the template name through its last `X` and carries exactly
      the new coordinates; without an `X` in the template, only the Y can be read back. */
  lemma TargetNameShape(templateName: string, x: int, y: int)
    ensures var k := LastIndexOf(templateName, 'X');
            && TargetName(templateName, x, y)[..k + 1] == templateName[..k + 1]
            && SiteNameParses(TargetName(templateName, x, y))
            && SiteCoordinates(TargetName(templateName, x, y)) == (if k >= 0 then x else -1, y)
  {
    var k := LastIndexOf(templateName, 'X');
    if k >= 0 {
      assert MarkerPrefix(templateName) == templateName[..k] + "X";
      assert TargetName(templateName, x, y) == CoordinateName(templateName[..k], x, y);
      CoordinateNameRoundTrip(templateName[..k], x, y);
    } else {
      assert TargetName(templateName, x, y) == IntToString(x) + "Y" + IntToString(y);
      NoXMarker(IntToString(x), y);
    }
  }

  /** Relocating onto the anchor's own tile is the identity on well-named tiles of the device. */
  lemma IdentityRelocation(dev: Device, templateTile: Tile, anchorTile: Tile)
    requires WellNamed(templateTile)
    requires templateTile.name in dev.tiles && dev.tiles[templateTile.name] == templateTile
    ensures CorrespondingTile(dev, templateTile, anchorTile, anchorTile) == Some(templateTile)
  {
    var name := templateTile.name;
    var k := LastIndexOf(name, 'X');
    assert MarkerPrefix(name) == name[..k] + "X";
    assert TargetName(name, templateTile.x, templateTile.y) == name;
  }

  /** A tile filed in a well-named device reads its own coordinates back from its name. */
  lemma FoundTileCoordinates(dev: Device, name: string)
    requires TilesWellNamed(dev) && name in dev.tiles
    ensures LastIndexOf(name, 'X') >= 0
    ensures SiteCoordinates(name) == (dev.tiles[name].x, dev.tiles[name].y)
  {
    assert FiledWellNamed(dev, name);
    var t := dev.tiles[name];
    CoordinateNameRoundTrip(t.name[..LastIndexOf(t.name, 'X')], t.x, t.y);
  }

  /** A tile found under a first-lookup name has exactly the coordinates written into that name. */
  lemma ExactNameCoordinates(dev: Device, templateName: string, x: int, y: int)
    requires TilesWellNamed(dev) && TargetName(templateName, x, y) in dev.tiles
    ensures dev.tiles[TargetName(templateName, x, y)].x == x
    ensures dev.tiles[TargetName(templateName, x, y)].y == y
  {
    var name := TargetName(templateName, x, y);
    FoundTileCoordinates(dev, name);
    TargetNameShape(templateName, x, y);
  }

  /** Likewise for a tile found under a fallback name. */
  lemma FallbackNameCoordinates(dev: Device, prefix: string, x: int, y: int)
    requires TilesWellNamed(dev) && CoordinateName(prefix, x, y) in dev.tiles
    ensures dev.tiles[CoordinateName(prefix, x, y)].x == x
    ensures dev.tiles[CoordinateName(prefix, x, y)].y == y
  {
    FoundTileCoordinates(dev, CoordinateName(prefix, x, y));
    CoordinateNameRoundTrip(prefix, x, y);
  }

  /** On a device whose tiles are well named, whatever tile is found sits at the same offset
      from the new anchor tile as the template tile sits from the current anchor tile. */
  lemma RelocationPreservesOffsets(dev: Device, templateTile: Tile, anchorTile: Tile, newAnchorTile: Tile)
    requires TilesWellNamed(dev)
    ensures var r := CorrespondingTile(dev, templateTile, anchorTile, newAnchorTile);
            r.Some? ==> && r.value.x - newAnchorTile.x == templateTile.x - anchorTile.x
                        && r.value.y - newAnchorTile.y == templateTile.y - anchorTile.y
  {
    var newX := newAnchorTile.x + (templateTile.x - anchorTile.x);
    var newY := newAnchorTile.y + (templateTile.y - anchorTile.y);
    var name := TargetName(templateTile.name, newX, newY);
    var r := CorrespondingTile(dev, templateTile, anchorTile, newAnchorTile);
    if name in dev.tiles {
      assert r == Some(dev.tiles[name]);
      ExactNameCoordinates(dev, templateTile.name, newX, newY);
    } else {
      var fallback := FallbackName(templateTile.tileType, newX, newY);
      if fallback.Some? && fallback.value in dev.tiles {
        assert r == Some(dev.tiles[fallback.value]);
        var prefix := if templateTile.tileType == CLBLL then "CLBLM_" else "CLBLL_";
        assert fallback.value == CoordinateName(prefix, newX, newY);
        FallbackNameCoordinates(dev, prefix, newX, newY);
      } else {
        assert r.None?;
      }
    }
  }

  /** The example of a two-instance module: the instance one tile right of an anchor at
      SLICE_X5Y10 is looked up at SLICE_X21Y30 when the anchor moves to SLICE_X20Y30. */
  lemma SliceRelocationExample(dev: Device, family: OtherFamily)
    ensures var anchorTile := Tile("SLICE_X5Y10", 5, 10, OtherTile(family));
            var templateTile := Tile("SLICE_X6Y10", 6, 10, OtherTile(family));
            var newAnchorTile := Tile("SLICE_X20Y30", 20, 30, OtherTile(family));
            && TargetName(templateTile.name, 21, 30) == "SLICE_X21Y30"
            && CorrespondingTile(dev, templateTile, anchorTile, newAnchorTile) == GetTile(dev, "SLICE_X21Y30")
  {
    assert LastIndexOf("SLICE_X6Y10", 'X') == 6 by {
      LastIndexOfIs("SLICE_X6Y10", 'X', 6);
    }
    assert IntToString(21) == "21";
    assert IntToString(30) == "30";
    assert MarkerPrefix("SLICE_X6Y10") == "SLICE_X";
  }
}
