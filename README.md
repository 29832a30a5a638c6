# rapidSmith hard macros: relocation, placement search and netlist removal

This project models the core of rapidSmith's hard-macro support for Xilinx FPGAs.

A `Module` is a hard macro, also called a module template. It is a set of placed primitive
instances and routed nets around one anchor instance. The module can be stamped elsewhere on
the device by moving its anchor to another primitive site, and every other tile follows at the
same offset.

The model covers:

- **Relocation.** `getCorrespondingTile` finds where a template tile lands for a new anchor
  tile. It rebuilds the tile name from the name's last `X` and the new coordinates: the new anchor tile's plus the template tile's offset. When
  that name is unknown, it falls back between the `CLBLL` and `CLBLM` logic tile families.
- **Placement search.** `isValidPlacement` checks one candidate anchor site: the anchor
  site itself, then every instance, then the tile of every PIP. `calculateAllValidPlacements`
  filters the device's compatible sites in device order and caches the result, which
  `getAllValidPlacements` returns.
- **Module bookkeeping.** The constructor, `addNet`, `addInstance`, `getNet`, `getInstance`
  and `hasAttribute`.
- **Removal.** `removeNet` detaches a net from every pin the net lists, and from those pins'
  instances.
  `removeInstance` goes through the instance's pins. Each pin's net is unrouted. A net with a
  single pin left is dropped from the module's net map; any other net loses the pin. The
  instance then leaves the module. Both have by-name variants.
- **Instance placement.** `place`, `unPlace`, `isPlaced`, `getTile`, `addToNetList`,
  `hasAttribute` and the private `setPrimitiveSite`. The last reads the instance's X and Y
  coordinates back from a site name such as `SLICE_X5Y10`.

The files are:

- `wrappers.dfy`: the Option type standing for Java's null.
- `text.dfy`: the Java string operations the core uses (`lastIndexOf`, `"" + int`,
  `Integer.parseInt`).
- `site_names.dfy`: the `<prefix>X<int>Y<int>` naming convention and the coordinate scan.
- `device.dfy`: the read-only device queries.
- `relocation.dfy`: `getCorrespondingTile`.
- `placement.dfy`: the validator and the filter, on a value snapshot of the module.
- `netlist.dfy`: the classes `Instance`, `Pin`, `Net` and `Design`, and the per-net removal
  rule.
- `hard_macro.dfy`: the class `Module`.

## Model

| member | source | states |
|---|---|---|
| Relocation.CorrespondingTile | edu/byu/ece/rapidSmith/design/Module.java:454-470 | If the name made of the template name through its last `X`, the new X, `Y` and the new Y (the new anchor tile's coordinates plus the template tile's offset from the current anchor tile) is a tile of the device, that tile is the answer. Otherwise a `CLBLL` template tile looks up `CLBLM_X<x>Y<y>` and a `CLBLM` one looks up `CLBLL_X<x>Y<y>`. Any other tile family gives nothing. |
| Relocation.TargetNameShape | edu/byu/ece/rapidSmith/design/Module.java:459-460 | The lookup name keeps the template name through its last `X`, and reading coordinates back from it gives exactly the new X and Y. Without an `X` in the template name, only the Y can be read back and X reads as -1. |
| Relocation.IdentityRelocation | edu/byu/ece/rapidSmith/design/Module.java:454-470 | When the new anchor tile is the current anchor tile, a well-named tile of the device corresponds to itself. |
| Relocation.ExactNameCoordinates | edu/byu/ece/rapidSmith/design/Module.java:459-461 | On a device whose tiles are filed under names that carry their coordinates, a tile found under the first lookup name has exactly the new coordinates. |
| Relocation.FallbackNameCoordinates | edu/byu/ece/rapidSmith/design/Module.java:462-468 | The same holds for a tile found under a fallback name. |
| Relocation.RelocationPreservesOffsets | edu/byu/ece/rapidSmith/design/Module.java:454-470 | On such a device, any tile that is found sits at the same X and Y offset from the new anchor tile as the template tile sits from the current anchor tile. |
| Relocation.SliceRelocationExample | edu/byu/ece/rapidSmith/design/Module.java:459-461 | Concrete case: with the anchor at `SLICE_X5Y10` moved to `SLICE_X20Y30`, the template tile `SLICE_X6Y10` is looked up as `SLICE_X21Y30`. |
| Placement.IsValidPlacement | edu/byu/ece/rapidSmith/design/Module.java:404-443 | A missing site or device is invalid. A valid site is the one the device names as corresponding to the anchor's site on the proposed tile. One instance with no corresponding tile or site, or one PIP tile with no corresponding tile, makes the placement invalid. |
| Placement.CurrentAnchorIsValid | edu/byu/ece/rapidSmith/design/Module.java:404-443 | If the device describes the module where it stands now, the anchor's own site is a valid placement. |
| Placement.ValidPlacementPreservesOffsets | edu/byu/ece/rapidSmith/design/Module.java:421-430 | On a well-named device, every instance of a validly placed module keeps its tile offset to the anchor. |
| Placement.ValidAmong | edu/byu/ece/rapidSmith/design/Module.java:383-394 | The filtered list is no longer than the candidates, and each of its sites is a candidate that passes the validator. |
| Placement.ValidAmongIsFilter | edu/byu/ece/rapidSmith/design/Module.java:386-391 | In both directions: a site is listed exactly when it is a candidate and passes the validator. |
| Placement.ValidAmongAppend | edu/byu/ece/rapidSmith/design/Module.java:386-391 | Filtering two runs of candidates gives the two filtered runs in order, so the device's order is kept. |
| Placement.ValidAmongAllValid | edu/byu/ece/rapidSmith/design/Module.java:386-391 | When every candidate passes, the result is the candidate list itself. |
| HardMacro.Module.constructor | edu/byu/ece/rapidSmith/design/Module.java:81-89 | A new module has no name, no anchor, no attributes, instances or nets, and an empty placement cache. |
| HardMacro.Module.AddNet | edu/byu/ece/rapidSmith/design/Module.java:329-331 | The net is filed under its name, replacing any earlier net of that name, and `GetNet` then finds it. |
| HardMacro.Module.AddInstance | edu/byu/ece/rapidSmith/design/Module.java:337-339 | The instance is filed under its name and `GetInstance` then finds it. |
| HardMacro.Module.GetNet | edu/byu/ece/rapidSmith/design/Module.java:203-205 | A net is returned exactly when the name is filed, and it is the filed net. |
| HardMacro.Module.GetInstance | edu/byu/ece/rapidSmith/design/Module.java:186-188 | An instance is returned exactly when the name is filed, and it is the filed instance. |
| HardMacro.Module.HasAttribute | edu/byu/ece/rapidSmith/design/Module.java:154-161 | True exactly when some attribute of the module has the physical name. |
| HardMacro.Module.IsValidPlacement | edu/byu/ece/rapidSmith/design/Module.java:404-443 | On the module's objects: a missing argument gives false. A valid site corresponds to the anchor's current site on the proposed tile, and every instance of the module fits there. |
| HardMacro.Module.GetAllValidPlacements | edu/byu/ece/rapidSmith/design/Module.java:400-402 | Returns the cached list as it stands, without recomputing it. `CalculateAllValidPlacements` states that its own result equals this cache. |
| HardMacro.Module.CalculateAllValidPlacements | edu/byu/ece/rapidSmith/design/Module.java:383-402 | Without an anchor the result is nothing and the cache is kept. Otherwise the result is the device's compatible sites for the anchor's type that pass the validator, in device order. The same list becomes the cache that `getAllValidPlacements` returns. |
| HardMacro.Module.RemoveNet | edu/byu/ece/rapidSmith/design/Module.java:228-236 | The net's name leaves the net map. Every listed pin's instance loses the net from its net list. Every listed pin that was on the net is detached, and listed pins on other nets keep their net. Nothing else about those pins and instances changes: only their `net` and `netList` fields are in the frame. |
| HardMacro.ReleasePin | edu/byu/ece/rapidSmith/design/Module.java:230-233 | One pin of `removeNet`: its instance's net list loses the net, and the pin is detached exactly when it was on the net. |
| HardMacro.Module.RemoveNetByName | edu/byu/ece/rapidSmith/design/Module.java:219-222 | An unknown name changes nothing. For a filed name, the effect is that of `RemoveNet` on the filed net: its name leaves the net map, every listed pin's instance loses it from its net list, and every listed pin on it is detached. |
| HardMacro.Module.RemoveInstance | edu/byu/ece/rapidSmith/design/Module.java:259-277 | Success exactly when the instance belongs to no module instance; on failure nothing changes. On success the instance leaves the instance map and loses its design, net list and module template. Every net of its pins ends unrouted, holding the pins its removal outcome leaves. The net map loses exactly the names of the nets that outcome drops. |
| HardMacro.Module.RemoveInstanceByName | edu/byu/ece/rapidSmith/design/Module.java:247-249 | For the instance filed under the name: success exactly when it belongs to no module instance. On failure, the maps, the instance and its nets are unchanged. On success, the instance leaves the instance map and loses its design, net list and module template. Every net of its pins ends unrouted with the pins its removal outcome leaves, and the net map loses exactly the names of the dropped nets. Only those three instance fields are in the frame. |
| HardMacro.Module.ForgetInstance | edu/byu/ece/rapidSmith/design/Module.java:272-275 | The closing bookkeeping of `removeInstance`: the instance leaves the map and forgets its design, net list and module template. |
| HardMacro.DetachPins | edu/byu/ece/rapidSmith/design/Module.java:263-271 | The whole pin loop of `removeInstance`: every net of the pins ends unrouted with the pins its outcome leaves, and the net map loses exactly the dropped nets' names. |
| HardMacro.DetachEachPin | edu/byu/ece/rapidSmith/design/Module.java:263-271 | The same loop, pin by pin: the nets end in the state reached by applying the removal steps in pin order. |
| HardMacro.DetachPin | edu/byu/ece/rapidSmith/design/Module.java:264-270 | One pin of `removeInstance`: its net is unrouted. It is reported dropped exactly when it had one pin, and otherwise it loses the pin. |
| HardMacro.RemovalOutcomeOnNet | edu/byu/ece/rapidSmith/design/Module.java:263-271 | On a net that lists the removed instance's pins, the net is dropped exactly when the instance held all of its pins. Otherwise it keeps precisely the pins the instance did not hold. |
| HardMacro.StateAfterIsOutcome | edu/byu/ece/rapidSmith/design/Module.java:263-271 | Applying the removal steps in pin order ends, on every net, in that net's own outcome. |
| HardMacro.PinsAttachedMembers | edu/byu/ece/rapidSmith/design/Module.java:263-271 | A pin counts as removed from a net exactly when it sits at a position of the pin list whose net is that net. |
| Netlist.PinRemovalOutcome | edu/byu/ece/rapidSmith/design/Module.java:263-271 | For one net and pins that are its own: dropped exactly when all its pins go, and then the last removed pin stays on the net. Otherwise the net keeps the multiset difference. |
| Netlist.AfterPinRemovals | edu/byu/ece/rapidSmith/design/Module.java:263-271 | Removal never adds pins and never empties a net, and no removed pins leave the net as it was. |
| Netlist.RemoveFirst | edu/byu/ece/rapidSmith/design/Module.java:269 | Removing a pin from a list takes away exactly one occurrence of it, or nothing when it is absent. |
| Netlist.RemoveFirstCutsFirst | edu/byu/ece/rapidSmith/design/Module.java:269 | The pin removed is the first occurrence: the list is cut around it and no other pin moves. |
| Netlist.ScanAttributes | src/edu/byu/ece/rapidSmith/design/Instance.java:139-146 | The attribute scan finds the physical name exactly when some attribute carries it. |
| Netlist.Instance.constructor | src/edu/byu/ece/rapidSmith/design/Instance.java:91-105 | A new instance has no design, no attributes, no bonding, no site, an empty net list and no module. Its coordinates are left at 0. |
| Netlist.Instance.HasAttribute | src/edu/byu/ece/rapidSmith/design/Instance.java:139-146 | True exactly when some attribute of the instance has the physical name. |
| Netlist.Instance.IsPlaced | src/edu/byu/ece/rapidSmith/design/Instance.java:238-240 | True exactly when `GetTile` finds a tile. `Place` and `MoveTo` make it true and `UnPlace` makes it false. |
| Netlist.Instance.GetTile | src/edu/byu/ece/rapidSmith/design/Instance.java:254-256 | A tile is returned exactly when the instance has a site, and it is its site's tile. |
| Netlist.Instance.SetPrimitiveSite | src/edu/byu/ece/rapidSmith/design/Instance.java:342-364 | Clearing the site sets both coordinates to -1. Setting a site records it and reads the coordinates from its name. |
| Netlist.Instance.Place | src/edu/byu/ece/rapidSmith/design/Instance.java:321-328 | The instance is on the site, unbonded, and has the site name's coordinates. The design's occupancy table is updated as written in the source; see Findings. |
| Netlist.Instance.MoveTo | src/edu/byu/ece/rapidSmith/design/Instance.java:321-328 | The corrected `place`: the instance is on the site, unbonded, and has the site name's coordinates. The design releases the previous site and records the new one. |
| Netlist.Instance.UnPlace | src/edu/byu/ece/rapidSmith/design/Instance.java:333-336 | The instance is unplaced at (-1, -1), and the design releases exactly the site it occupied. |
| Netlist.Instance.AddToNetList | src/edu/byu/ece/rapidSmith/design/Instance.java:404-406 | The net list gains the net, and adding a net already present changes nothing. |
| Netlist.PlaceThenUnPlace | src/edu/byu/ece/rapidSmith/design/Instance.java:321-336 | Placing and then unplacing leaves the instance unplaced at (-1, -1) and unbonded, and the design without the site just used. Only the site, coordinates and bonded flag of the instance are in the frame, so its net list, attributes and module fields stay. |
| Netlist.OccupancyAfterPlace | src/edu/byu/ece/rapidSmith/design/Instance.java:321-328 | As written, the new site maps to the instance and every other used site keeps its user. |
| Netlist.PlaceKeepsPreviousSite | src/edu/byu/ece/rapidSmith/design/Instance.java:322-323 | Re-placing an instance that already occupies another site leaves the old site marked as used, which differs from the intended move. |
| Netlist.OccupancyAfterMove | src/edu/byu/ece/rapidSmith/design/Instance.java:321-328 | As intended, the previous site is released, the new site maps to the instance, and every other site keeps its user. |
| Netlist.MoveKeepsOneSitePerInstance | src/edu/byu/ece/rapidSmith/design/Instance.java:321-328 | Under the intended rule, an instance that used only its previous site uses only the new one afterwards. |
| SiteNames.ScanCoordinates | src/edu/byu/ece/rapidSmith/design/Instance.java:349-361 | The two backward scans give the coordinates read from the name: the number after the last `Y` and the number between the `X` before it and that `Y`, with -1 for a missing marker. |
| SiteNames.CoordinateNameRoundTrip | src/edu/byu/ece/rapidSmith/design/Instance.java:349-361 | Reading the coordinates from `<prefix>X<x>Y<y>` gives `(x, y)` back, whatever the prefix holds. |
| SiteNames.NoYMarker | src/edu/byu/ece/rapidSmith/design/Instance.java:355-361 | A name without `Y` reads as (-1, -1). |
| SiteNames.NoXMarker | src/edu/byu/ece/rapidSmith/design/Instance.java:357-361 | A name with a `Y` but no `X` before it reads as (-1, y). |
| SiteNames.SliceExample | src/edu/byu/ece/rapidSmith/design/Instance.java:349-361 | Concrete case: `SLICE_X5Y10` reads as (5, 10). |
| Text.LastIndexOf | edu/byu/ece/rapidSmith/design/Module.java:460 | The index of the last occurrence of the character, or -1 when there is none. |
| Text.ParseIntToString | edu/byu/ece/rapidSmith/design/Module.java:460 | Java's decimal rendering of an int, as concatenated into tile names, parses back to the same int. |

## Left out

- **Out of scope:** file I/O and serialization, `toString`, `equals` and `hashCode`, the
  ports, the module-instance bookkeeping beyond the `moduleInstance` test, and the plain
  getters and setters.
- **Related files not modelled:** Net.java, Pin.java, Design.java, Device.java and
  PrimitiveSite.java are not part of this model.
  - Net, Pin and Design are reduced to what the module operations read and write.
  - `Net.unroute` clears the PIP list.
  - `Net.removePin` removes the first occurrence of the pin, as `List.remove` does.
  - `Design.releasePrimitiveSite` and `Design.setPrimitiveSiteUsed` edit a site-to-instance
    map.
- **The device:** modelled as a finite table of answers to the three queries the core makes:
  tile by name, corresponding site and compatible sites. A primitive type the device does
  not list has no compatible sites, where the source may meet a null array.
- **Object identity:**
  - Nets and instances are compared by object identity.
  - The module an instance belongs to is recorded by name, as `Option<string>`.
  - `Module.removeInstance` calls `instance.getPins()`, which Instance.java does not define,
    so `Instance` carries a `pins` field.
- **Aliasing of the placement cache:** `calculateAllValidPlacements` and
  `getAllValidPlacements` return the cached list object itself. A caller that edits the
  returned list edits the cache. The model's cache is a value sequence, so it does not capture
  this aliasing.
- **The anchor passed to relocation:** `Relocation.CorrespondingTile` takes the current
  anchor tile as a parameter; the source reads it from the module's anchor field.
- **Integer width:**
  - Relocation offsets use unbounded integers. A Java `int` wrap-around in the offset sum
    is not modelled.
  - `Integer.parseInt` failure, on a non-decimal or out-of-range coordinate, becomes the
    `SiteNameFitsInt` precondition of `SetPrimitiveSite`, `Place` and `MoveTo` rather than an
    exception. The model's decimals are ASCII digits only. Java's `Integer.parseInt` also
    accepts other Unicode decimal digits, and names that use them are outside the model.
- **Null dereferences become preconditions:**
  - `Module.Placeable` requires a placed anchor and placed instances, for the validator and
    `CalculateAllValidPlacements`.
  - `CanRemoveNet` requires every pin to have a net and a net list, and a pin listed twice
    not to be on the removed net, for `RemoveNet`.
  - `RemoveInstance` requires every pin to have a net.
  - `RemoveInstanceByName` requires the name to be filed.
  - `Place` with a null site is not modelled.
  - `Instance.AddToNetList` requires the instance to have a net list. The source throws
    once `removeInstance` has cleared the list.
  - `CalculateAllValidPlacements` takes a device, never a missing one. The source throws on
    a null device when the module has an anchor.
- HardMacro.Module.IsValidPlacement: its contract states the anchor and instance checks on
  the module's objects and not the PIP check. The full answer, including the PIP tiles, is
  `Placement.IsValidPlacement` on `CurrentFootprint()`, whose contract states it.
- HardMacro.Module.RemoveInstance: the pins of nets that are not dropped are stated through
  the per-net outcome, `RemovalOutcome`. The multiset characterisation of that outcome is
  the separate lemma `RemovalOutcomeOnNet`, which needs the net to list the removed pins.
- **The constructor's coordinates:** the `Instance` constructor leaves the X and Y
  coordinates at 0, as the code does. The class's documentation suggests -1.

## Findings

| source | as written | input that shows it | evidently intended | confidence | as-written member | corrected member |
|---|---|---|---|---|---|---|
| src/edu/byu/ece/rapidSmith/design/Instance.java:322-323 | `place(site)` on an instance that is already placed in a design asks the design to release the new site, not the site the instance occupies | an instance on site A in a design, placed again on site B ≠ A: afterwards the design still marks A as used by the instance, and B as well | release the instance's previous site before recording the new one | not executed | Netlist.PlaceKeepsPreviousSite | Netlist.Instance.MoveTo, Netlist.MoveKeepsOneSitePerInstance |
