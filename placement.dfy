/** Module.isValidPlacement and the filter behind Module.calculateAllValidPlacements, on a
    value snapshot of the module: its anchor, its placed instances and the tiles of its PIPs. */
module Placement {
  import opened Wrappers
  import opened DeviceGrid
  import opened Relocation

  /** A placed instance of the module template: its site and its primitive type. */
  datatype Member = Member(site: Site, primitiveType: PrimitiveType)

  /** What the validator reads from a module: the anchor, every instance (the anchor is one
      of them in a well-formed module, but nothing here depends on it), and the tile of every
      PIP of every net. */
  datatype Footprint = Footprint(anchor: Member, members: set<Member>, pipTiles: set<Tile>)

  /** The tile that `templateTile` lands on when the anchor moves to `newAnchorTile`. */
  function Relocated(dev: Device, fp: Footprint, templateTile: Tile, newAnchorTile: Tile): Option<Tile> {
    CorrespondingTile(dev, templateTile, fp.anchor.site.tile, newAnchorTile)
  }

  /** The proposed site is the site that plays the anchor's role on its own tile. */
  predicate AnchorConsistent(dev: Device, fp: Footprint, proposed: Site) {
    GetCorrespondingSite(dev, fp.anchor.site, fp.anchor.primitiveType, proposed.tile) == Some(proposed)
  }

  /** An instance fits: its tile has a corresponding tile, and that tile has a site of the
      instance's type corresponding to the instance's site. */
  predicate MemberFits(dev: Device, fp: Footprint, m: Member, newAnchorTile: Tile) {
    var t := Relocated(dev, fp, m.site.tile, newAnchorTile);
    t.Some? && GetCorrespondingSite(dev, m.site, m.primitiveType, t.value).Some?
  }

  /** A PIP fits when its tile has a corresponding tile. */
  predicate PipFits(dev: Device, fp: Footprint, pipTile: Tile, newAnchorTile: Tile) {
    Relocated(dev, fp, pipTile, newAnchorTile).Some?
  }

  /** The validator: a missing site or device fails, then the anchor check, then every
      instance, then every PIP; a single failure makes the whole answer false. */
  function IsValidPlacement(dev: Option<Device>, fp: Footprint, proposed: Option<Site>): (ok: bool)
    ensures proposed.None? || dev.None? ==> !ok
    ensures ok ==> GetCorrespondingSite(dev.value, fp.anchor.site, fp.anchor.primitiveType, proposed.value.tile) == proposed
    ensures proposed.Some? && dev.Some? ==>
              forall m :: m in fp.members && !MemberFits(dev.value, fp, m, proposed.value.tile) ==> !ok
    ensures proposed.Some? && dev.Some? ==>
              forall t :: t in fp.pipTiles && !PipFits(dev.value, fp, t, proposed.value.tile) ==> !ok
  {
    && proposed.Some? && dev.Some?
    && AnchorConsistent(dev.value, fp, proposed.value)
    && (forall m :: m in fp.members ==> MemberFits(dev.value, fp, m, proposed.value.tile))
    && (forall t :: t in fp.pipTiles ==> PipFits(dev.value, fp, t, proposed.value.tile))
  }

  /** The in-order subsequence of `sites` that pass the validator. */
  function ValidAmong(dev: Device, fp: Footprint, sites: seq<Site>): (r: seq<Site>)
    ensures |r| <= |sites|
    ensures forall s :: s in r ==> s in sites && IsValidPlacement(Some(dev), fp, Some(s))
  {
    if sites == [] then []
    else
      var front := ValidAmong(dev, fp, sites[..|sites| - 1]);
      var last := sites[|sites| - 1];
      if IsValidPlacement(Some(dev), fp, Some(last)) then front + [last] else front
  }

  /** The device describes the module where it stands now: the anchor's site corresponds to
      itself on its own tile, every instance's tile is well named and filed under its name
      and offers the instance's site for its type, and so does every PIP tile. */
  predicate DescribesCurrentPlacement(dev: Device, fp: Footprint) {
    && GetCorrespondingSite(dev, fp.anchor.site, fp.anchor.primitiveType, fp.anchor.site.tile) == Some(fp.anchor.site)
    && (forall m :: m in fp.members ==>
          && WellNamed(m.site.tile)
          && m.site.tile.name in dev.tiles && dev.tiles[m.site.tile.name] == m.site.tile
          && (m.site, m.primitiveType, m.site.tile) in dev.correspondingSites)
    && (forall t :: t in fp.pipTiles ==>
          WellNamed(t) && t.name in dev.tiles && dev.tiles[t.name] == t)
  }

  /** Leaving the module where it is, is a valid placement: every tile relocates onto itself. */
  lemma {:induction false} CurrentAnchorIsValid(dev: Device, fp: Footprint)
    requires DescribesCurrentPlacement(dev, fp)
    ensures IsValidPlacement(Some(dev), fp, Some(fp.anchor.site))
  {
    var anchorTile := fp.anchor.site.tile;
    forall m | m in fp.members
      ensures MemberFits(dev, fp, m, anchorTile)
    {
      IdentityRelocation(dev, m.site.tile, anchorTile);
    }
    forall t | t in fp.pipTiles
      ensures PipFits(dev, fp, t, anchorTile)
    {
      IdentityRelocation(dev, t, anchorTile);
    }
  }

  /** On a device whose tiles are well named, a valid placement moves every instance by the
      same offset as the anchor: each instance keeps its distance to the anchor. */
  lemma ValidPlacementPreservesOffsets(dev: Device, fp: Footprint, proposed: Site, m: Member)
    requires TilesWellNamed(dev)
    requires IsValidPlacement(Some(dev), fp, Some(proposed)) && m in fp.members
    ensures var t := Relocated(dev, fp, m.site.tile, proposed.tile);
            && t.Some?
            && t.value.x - proposed.tile.x == m.site.tile.x - fp.anchor.site.tile.x
            && t.value.y - proposed.tile.y == m.site.tile.y - fp.anchor.site.tile.y
  {
    RelocationPreservesOffsets(dev, m.site.tile, fp.anchor.site.tile, proposed.tile);
  }

  /** The enumeration is a filter: a site is listed exactly when it is a candidate and valid. */
  lemma {:induction false} ValidAmongIsFilter(dev: Device, fp: Footprint, sites: seq<Site>, s: Site)
    ensures s in ValidAmong(dev, fp, sites) <==> s in sites && IsValidPlacement(Some(dev), fp, Some(s))
  {
    if sites != [] {
      var init := sites[..|sites| - 1];
      ValidAmongIsFilter(dev, fp, init, s);
      assert sites == init + [sites[|sites| - 1]];
    }
  }

  /** Filtering two runs of candidates one after the other gives the two filtered runs in
      order: the enumeration keeps the device's order. */
  lemma {:induction false} ValidAmongAppend(dev: Device, fp: Footprint, xs: seq<Site>, ys: seq<Site>)
    ensures ValidAmong(dev, fp, xs + ys) == ValidAmong(dev, fp, xs) + ValidAmong(dev, fp, ys)
    decreases |ys|
  {
    if ys == [] {
      assert xs + ys == xs;
    } else {
      var init := ys[..|ys| - 1];
      var last := ys[|ys| - 1];
      assert (xs + ys)[..|xs + ys| - 1] == xs + init;
      assert (xs + ys)[|xs + ys| - 1] == last;
      ValidAmongAppend(dev, fp, xs, init);
    }
  }

  /** When every candidate passes, nothing is filtered out. */
  lemma {:induction false} ValidAmongAllValid(dev: Device, fp: Footprint, sites: seq<Site>)
    requires forall i :: 0 <= i < |sites| ==> IsValidPlacement(Some(dev), fp, Some(sites[i]))
    ensures ValidAmong(dev, fp, sites) == sites
  {
    if sites != [] {
      ValidAmongAllValid(dev, fp, sites[..|sites| - 1]);
    }
  }
}
