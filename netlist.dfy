/** The netlist objects a hard-macro module is made of: instances (with their placement on a
    primitive site), pins, nets, and the design that records which site each instance uses.
    Instance follows Instance.java; Pin, Net and Design are reduced to the state the module
    operations read and write. */
module Netlist {
  import opened Wrappers
  import opened SiteNames
  import opened DeviceGrid

  /** An XDL attribute: physical name, logical name and value. */
  datatype Attribute = Attribute(physicalName: string, logicalName: string, value: string)

  /** Some attribute of the list has the given physical name. */
  predicate HasPhysicalName(attributes: seq<Attribute>, physicalName: string) {
    exists i :: 0 <= i < |attributes| && attributes[i].physicalName == physicalName
  }

  /** The attribute scan shared by `Instance.hasAttribute` and `Module.hasAttribute`: walk the
      list in order and stop at the first attribute with the physical name. */
  method ScanAttributes(attributes: seq<Attribute>, physicalName: string) returns (found: bool)
    ensures found <==> HasPhysicalName(attributes, physicalName)
  {
    var i := 0;
    while i < |attributes|
      invariant 0 <= i <= |attributes|
      invariant forall j :: 0 <= j < i ==> attributes[j].physicalName != physicalName
    {
      if attributes[i].physicalName == physicalName {
        return true;
      }
      i := i + 1;
    }
    return false;
  }

  /** `List.remove(x)`: the list without the first occurrence of `x`. */
  function RemoveFirst<T(==)>(xs: seq<T>, x: T): (r: seq<T>)
    ensures x !in xs ==> r == xs
    ensures multiset(r) == multiset(xs) - multiset{x}
  {
    if xs == [] then []
    else
      assert xs == [xs[0]] + xs[1..];
      if xs[0] == x then xs[1..] else [xs[0]] + RemoveFirst(xs[1..], x)
  }

  /** What RemoveFirst removes is the first occurrence: the list is cut around it and
      nothing else moves. */
  lemma {:induction false} RemoveFirstCutsFirst<T>(xs: seq<T>, x: T, k: int)
    requires 0 <= k < |xs| && xs[k] == x && x !in xs[..k]
    ensures RemoveFirst(xs, x) == xs[..k] + xs[k + 1..]
  {
    if k > 0 {
      assert xs[0] != x by { assert xs[0] == xs[..k][0]; }
      assert xs[1..][..k - 1] == xs[1..k];
      assert x !in xs[1..][..k - 1] by { assert xs[1..k] == xs[..k][1..]; }
      RemoveFirstCutsFirst(xs[1..], x, k - 1);
      assert xs[..k] == [xs[0]] + xs[1..][..k - 1];
      assert xs[1..][k..] == xs[k + 1..];
    }
  }

  /** What happens to one net while an instance is removed: `pins` is what is left on the net
      and `dropped` says whether the net was taken out of the module's net map. */
  datatype NetRemoval<T> = NetRemoval(pins: seq<T>, dropped: bool)

  /** One pin of the removed instance, seen from its net: a net with exactly one pin left is
      dropped from the module (and keeps that pin), any other net loses the pin. */
  function RemovalStep<T(==)>(r: NetRemoval<T>, victim: T): NetRemoval<T>
  {
    if |r.pins| == 1 then NetRemoval(r.pins, true)
    else NetRemoval(RemoveFirst(r.pins, victim), r.dropped)
  }

  /** The net's side of `Module.removeInstance`: the removal steps for the instance's pins
      on the net, in order. */
  function AfterPinRemovals<T(==)>(pins: seq<T>, victims: seq<T>): (r: NetRemoval<T>)
    ensures multiset(r.pins) <= multiset(pins)
    ensures |pins| >= 1 ==> |r.pins| >= 1
    ensures victims == [] ==> r == NetRemoval(pins, false)
  {
    if victims == [] then NetRemoval(pins, false)
    else RemovalStep(AfterPinRemovals(pins, victims[..|victims| - 1]), victims[|victims| - 1])
  }

  lemma SubMultisetSize<T>(a: multiset<T>, b: multiset<T>)
    requires a <= b
    ensures |a| <= |b|
  {
    assert b == a + (b - a);
  }

  lemma LastPinIs<T>(pins: seq<T>, v: T)
    requires |pins| == 1 && v in multiset(pins)
    ensures pins == [v]
  {
    assert pins == [pins[0]];
  }

  /** When the removed pins are pins of the net: the net is dropped exactly when the
      instance held all of its pins, and then it keeps only the last of them; otherwise it
      keeps precisely the pins the instance did not hold. */
  lemma {:induction false} PinRemovalOutcome<T>(pins: seq<T>, victims: seq<T>)
    requires |pins| >= 1 && multiset(victims) <= multiset(pins)
    ensures var r := AfterPinRemovals(pins, victims);
            && (r.dropped <==> |victims| == |pins|)
            && (!r.dropped ==> multiset(r.pins) == multiset(pins) - multiset(victims))
            && (r.dropped ==> r.pins == [victims[|victims| - 1]])
  {
    if victims != [] {
      var init := victims[..|victims| - 1];
      var v := victims[|victims| - 1];
      assert victims == init + [v];
      assert multiset(victims) == multiset(init) + multiset{v};
      assert multiset(init) <= multiset(pins);
      PinRemovalOutcome(pins, init);
      var before := AfterPinRemovals(pins, init);
      assert !before.dropped by {
        SubMultisetSize(multiset(victims), multiset(pins));
      }
      assert v in multiset(before.pins) by {
        assert multiset(before.pins) == multiset(pins) - multiset(init);
      }
      if |before.pins| == 1 {
        LastPinIs(before.pins, v);
        assert |victims| == |pins| by {
          assert |multiset(before.pins)| == |multiset(pins)| - |multiset(init)|;
        }
      } else {
        assert multiset(RemoveFirst(before.pins, v)) == multiset(pins) - multiset(victims);
        assert |victims| != |pins| by {
          assert |multiset(before.pins)| == |multiset(pins)| - |multiset(init)|;
        }
      }
    }
  }

  /** The design's occupancy table after `place(s)` as written: the release is applied to the
      argument site (which is then marked used anyway), so the previous site stays occupied. */
  function OccupancyAfterPlace(used: map<Site, Instance>, previous: Option<Site>, s: Site, who: Instance): (r: map<Site, Instance>)
    ensures s in r && r[s] == who
    ensures forall t :: t in used && t != s ==> t in r && r[t] == used[t]
  {
    (if previous.Some? then used - {s} else used)[s := who]
  }

  /** The occupancy table after `place(s)` as evidently intended: the instance's previous site
      is released before the new one is marked used. */
  function OccupancyAfterMove(used: map<Site, Instance>, previous: Option<Site>, s: Site, who: Instance): (r: map<Site, Instance>)
    ensures s in r && r[s] == who
    ensures previous.Some? && previous.value != s ==> previous.value !in r
    ensures forall t :: t in used && t != s && Some(t) != previous ==> t in r && r[t] == used[t]
  {
    (if previous.Some? then used - {previous.value} else used)[s := who]
  }

  /** Re-placing an instance that was already on another site leaves that site marked as used
      by the instance: the old site is never released. */
  lemma PlaceKeepsPreviousSite(used: map<Site, Instance>, previous: Site, s: Site, who: Instance)
    requires previous in used && used[previous] == who && previous != s
    ensures previous in OccupancyAfterPlace(used, Some(previous), s, who)
    ensures OccupancyAfterPlace(used, Some(previous), s, who) != OccupancyAfterMove(used, Some(previous), s, who)
  {
    assert previous !in OccupancyAfterMove(used, Some(previous), s, who);
  }

  /** The corrected rule keeps exactly one site per re-placed instance: when the instance was
      the only user of its old site, the new table holds the instance on the new site only. */
  lemma MoveKeepsOneSitePerInstance(used: map<Site, Instance>, previous: Site, s: Site, who: Instance)
    requires previous in used && forall t :: t in used && used[t] == who ==> t == previous
    ensures var r := OccupancyAfterMove(used, Some(previous), s, who);
            forall t :: t in r && r[t] == who ==> t == s
  {
  }

  /** The design: which primitive site is used by which instance. */
  class Design {
    var used: map<Site, Instance>

    constructor()
      ensures used == map[]
    {
      used := map[];
    }

    /** `releasePrimitiveSite(site)`; a null site releases nothing. */
    method ReleasePrimitiveSite(site: Option<Site>)
      modifies this
      ensures site.None? ==> used == old(used)
      ensures site.Some? ==> used == old(used) - {site.value}
    {
      if site.Some? {
        used := used - {site.value};
      }
    }

    /** `setPrimitiveSiteUsed(site, inst)`. */
    method SetPrimitiveSiteUsed(site: Site, inst: Instance)
      modifies this
      ensures used == old(used)[site := inst]
    {
      used := used[site := inst];
    }
  }

  /** A pin of an instance, attached to at most one net. */
  class Pin {
    const name: string
    const instance: Instance
    var net: Net?

    constructor(name: string, instance: Instance)
      ensures this.name == name && this.instance == instance && net == null
    {
      this.name := name;
      this.instance := instance;
      net := null;
    }
  }

  /** A net: its pins, in order, and the PIPs that route it. */
  class Net {
    const name: string
    var pins: seq<Pin>
    var pips: seq<Pip>

    constructor(name: string)
      ensures this.name == name && pins == [] && pips == []
    {
      this.name := name;
      pins := [];
      pips := [];
    }

    /** `unroute()`: the net keeps its pins and loses its routing. */
    method Unroute()
      modifies this`pips
      ensures pips == []
    {
      pips := [];
    }

    /** `removePin(p)`: the first occurrence of the pin leaves the pin list. */
    method RemovePin(p: Pin)
      modifies this`pins
      ensures pins == RemoveFirst(old(pins), p)
    {
      pins := RemoveFirst(pins, p);
    }
  }

  /** An instance of a primitive: where it is placed, the coordinates read from its site's
      name, the nets it connects to, and the module it belongs to. */
  class Instance {
    const name: string
    const primitiveType: PrimitiveType
    var design: Design?
    var attributes: seq<Attribute>
    var bonded: Option<bool>
    var site: Option<Site>
    var netList: Option<set<Net>>
    var pins: seq<Pin>
    /** The name of the module instance this instance belongs to, if any. */
    var moduleInstance: Option<string>
    /** The name of the module template this instance is a member of, if any. */
    var moduleTemplate: Option<string>
    var instanceX: int
    var instanceY: int

    /** `Instance(name, type)`: unplaced, unbonded, no nets, no module. The coordinates keep
        their initial value 0 until the first placement or unplacement. */
    constructor(name: string, primitiveType: PrimitiveType)
      ensures this.name == name && this.primitiveType == primitiveType
      ensures design == null && attributes == [] && bonded.None? && site.None?
      ensures netList == Some({}) && pins == []
      ensures moduleInstance.None? && moduleTemplate.None?
      ensures instanceX == 0 && instanceY == 0
    {
      this.name := name;
      this.primitiveType := primitiveType;
      design := null;
      attributes := [];
      bonded := None;
      site := None;
      netList := Some({});
      pins := [];
      moduleInstance := None;
      moduleTemplate := None;
      instanceX := 0;
      instanceY := 0;
    }

    /** `isPlaced()`: the instance has a site, which is when it also has a tile. */
    function IsPlaced(): (placed: bool)
      reads this`site
      ensures placed <==> GetTile().Some?
    {
      site.Some?
    }

    /** `getTile()`: the tile of the site, or nothing for an unplaced instance. */
    function GetTile(): (t: Option<Tile>)
      reads this`site
      ensures t.Some? <==> site.Some?
      ensures t.Some? ==> t.value == site.value.tile
    {
      match site
      case None => None
      case Some(s) => Some(s.tile)
    }

    /** `setPrimitiveSite(site)`: record the site and read the coordinates out of its name;
        clearing the site sets both coordinates to -1. Java's `Integer.parseInt` throws when
        the name's numbers are not 32-bit decimals, hence the precondition. */
    method SetPrimitiveSite(s: Option<Site>)
      requires s.Some? ==> SiteNameFitsInt(s.value.name)
      modifies this`site, this`instanceX, this`instanceY
      ensures site == s
      ensures s.None? ==> instanceX == -1 && instanceY == -1
      ensures s.Some? ==> (instanceX, instanceY) == SiteCoordinates(s.value.name)
    {
      if s.None? {
        instanceX := -1;
        instanceY := -1;
        site := s;
        return;
      }
      instanceX, instanceY := ScanCoordinates(s.value.name);
      site := s;
    }

    /** `place(site)`, as written: when the instance is already placed in a design, the
        design is asked to release the argument site, not the one the instance occupied. */
    method Place(s: Site)
      requires SiteNameFitsInt(s.name)
      modifies this`site, this`instanceX, this`instanceY, this`bonded, design
      ensures site == Some(s) && IsPlaced() && bonded.None?
      ensures (instanceX, instanceY) == SiteCoordinates(s.name)
      ensures design != null ==> design.used == OccupancyAfterPlace(old(design.used), old(site), s, this)
    {
      if site.Some? && design != null {
        design.ReleasePrimitiveSite(Some(s));
      }
      SetPrimitiveSite(Some(s));
      bonded := None;
      if design != null {
        design.SetPrimitiveSiteUsed(s, this);
      }
    }

    /** `place(site)` as evidently intended: the site the instance occupied is released
        before the new one is recorded, so a re-placed instance holds one site only. */
    method MoveTo(s: Site)
      requires SiteNameFitsInt(s.name)
      modifies this`site, this`instanceX, this`instanceY, this`bonded, design
      ensures site == Some(s) && IsPlaced() && bonded.None?
      ensures (instanceX, instanceY) == SiteCoordinates(s.name)
      ensures design != null ==> design.used == OccupancyAfterMove(old(design.used), old(site), s, this)
    {
      if site.Some? && design != null {
        design.ReleasePrimitiveSite(site);
      }
      SetPrimitiveSite(Some(s));
      bonded := None;
      if design != null {
        design.SetPrimitiveSiteUsed(s, this);
      }
    }

    /** `unPlace()`: release the current site in the design and clear the placement. */
    method UnPlace()
      modifies this`site, this`instanceX, this`instanceY, design
      ensures site.None? && !IsPlaced() && instanceX == -1 && instanceY == -1
      ensures design != null && old(site).Some? ==> design.used == old(design.used) - {old(site).value}
      ensures design != null && old(site).None? ==> design.used == old(design.used)
    {
      if design != null {
        design.ReleasePrimitiveSite(site);
      }
      SetPrimitiveSite(None);
    }

    /** `addToNetList(net)`: set insertion, so adding a net already present changes nothing. */
    method AddToNetList(net: Net)
      requires netList.Some?
      modifies this`netList
      ensures netList == Some(old(netList.value) + {net})
      ensures net in old(netList.value) ==> netList == old(netList)
    {
      assert net in netList.value ==> netList.value + {net} == netList.value;
      netList := Some(netList.value + {net});
    }

    /** `hasAttribute(physicalName)`. */
    method HasAttribute(physicalName: string) returns (found: bool)
      ensures found <==> HasPhysicalName(attributes, physicalName)
    {
      found := ScanAttributes(attributes, physicalName);
    }
  }

  /** Placing an instance and then unplacing it leaves it unplaced at (-1, -1), and leaves the
      design without the site just placed on, whatever the instance occupied before. */
  method PlaceThenUnPlace(inst: Instance, s: Site)
    requires SiteNameFitsInt(s.name)
    modifies inst`site, inst`instanceX, inst`instanceY, inst`bonded, inst.design
    ensures !inst.IsPlaced() && inst.bonded.None? && inst.instanceX == -1 && inst.instanceY == -1
    ensures inst.design == old(inst.design)
    ensures inst.design != null ==> inst.design.used == old(inst.design.used) - {s}
  {
    inst.Place(s);
    inst.UnPlace();
  }
}
