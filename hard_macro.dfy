/** Module.java: a hard macro (a module template) made of instances and nets around an anchor
    instance, with the search for the anchor sites where the whole module can be placed and
    the removal operations that keep instances, nets and pins consistent. */
module HardMacro {
  import opened Wrappers
  import opened DeviceGrid
  import opened Placement
  import opened Netlist

  /** The net of each pin of `ps`, in order. */
  function NetsAlong(ps: seq<Pin>): (r: seq<Net?>)
    reads ps
    ensures |r| == |ps|
    ensures forall j :: 0 <= j < |ps| ==> r[j] == ps[j].net
  {
    if ps == [] then [] else NetsAlong(ps[..|ps| - 1]) + [ps[|ps| - 1].net]
  }

  /** The pins of `ps` whose net (given position by position in `owners`) is `net`, in order. */
  function PinsAttached(ps: seq<Pin>, owners: seq<Net?>, net: Net): (r: seq<Pin>)
    requires |owners| == |ps|
    ensures |r| <= |ps|
  {
    if ps == [] then []
    else
      var k := |ps| - 1;
      PinsAttached(ps[..k], owners[..k], net) + (if owners[k] == net then [ps[k]] else [])
  }

  /** The pins of `ps` attached to `net`, in order. */
  function PinsOn(ps: seq<Pin>, net: Net): seq<Pin>
    reads ps
  {
    PinsAttached(ps, NetsAlong(ps), net)
  }

  /** The nets the pins of `ps` are attached to. */
  function NetsOf(ps: seq<Pin>): (nets: set<Net>)
    reads ps
    ensures forall p :: p in ps && p.net != null ==> p.net in nets
    ensures forall n :: n in nets ==> exists j :: 0 <= j < |ps| && ps[j].net == n
  {
    set p | p in ps && p.net != null :: p.net as Net
  }

  /** A pin is among the pins attached to `net` exactly when it sits at a position whose
      owner is `net`. */
  lemma {:induction false} PinsAttachedMembers(ps: seq<Pin>, owners: seq<Net?>, net: Net, p: Pin)
    requires |owners| == |ps|
    ensures p in PinsAttached(ps, owners, net) <==> exists j :: 0 <= j < |ps| && ps[j] == p && owners[j] == net
  {
    if ps != [] {
      var k := |ps| - 1;
      PinsAttachedMembers(ps[..k], owners[..k], net, p);
      if p in PinsAttached(ps[..k], owners[..k], net) {
        var j :| 0 <= j < k && ps[..k][j] == p && owners[..k][j] == net;
        assert ps[j] == p && owners[j] == net;
      }
      if exists j :: 0 <= j < |ps| && ps[j] == p && owners[j] == net {
        var j :| 0 <= j < |ps| && ps[j] == p && owners[j] == net;
        if j < k {
          assert ps[..k][j] == p && owners[..k][j] == net;
        }
      }
    }
  }

  /** Every net of `pinsBefore` after the removal steps for the pins of `ps`, pin by pin, in
      order; `owners` gives each pin's net and `pinsBefore` each net's pins beforehand. */
  ghost function StateAfter(pinsBefore: map<Net, seq<Pin>>, ps: seq<Pin>, owners: seq<Net?>): (s: map<Net, NetRemoval<Pin>>)
    requires |owners| == |ps|
    ensures s.Keys == pinsBefore.Keys
  {
    if ps == [] then map n | n in pinsBefore :: NetRemoval(pinsBefore[n], false)
    else
      var k := |ps| - 1;
      var s := StateAfter(pinsBefore, ps[..k], owners[..k]);
      var m := owners[k];
      if m != null && m in s then s[m := RemovalStep(s[m], ps[k])] else s
  }

  /** One more pin is one more removal step on its net. */
  lemma StateAfterStep(pinsBefore: map<Net, seq<Pin>>, ps: seq<Pin>, owners: seq<Net?>, i: nat, m: Net)
    requires |owners| == |ps| && i < |ps| && owners[i] == m && m in pinsBefore
    ensures var s := StateAfter(pinsBefore, ps[..i], owners[..i]);
            StateAfter(pinsBefore, ps[..i + 1], owners[..i + 1]) == s[m := RemovalStep(s[m], ps[i])]
  {
    assert ps[..i + 1][..i] == ps[..i] && owners[..i + 1][..i] == owners[..i];
  }

  /** Processing the pins one after the other leaves each net where processing only its own
      pins, in order, would. */
  lemma {:induction false} StateAfterPerNet(pinsBefore: map<Net, seq<Pin>>, ps: seq<Pin>, owners: seq<Net?>, n: Net)
    requires |owners| == |ps|
    requires forall j :: 0 <= j < |ps| ==> owners[j] != null && owners[j] in pinsBefore
    requires n in pinsBefore
    ensures StateAfter(pinsBefore, ps, owners)[n] == AfterPinRemovals(pinsBefore[n], PinsAttached(ps, owners, n))
  {
    if ps != [] {
      var k := |ps| - 1;
      var prev := StateAfter(pinsBefore, ps[..k], owners[..k]);
      var m: Net := owners[k];
      assert StateAfter(pinsBefore, ps, owners) == prev[m := RemovalStep(prev[m], ps[k])];
      StateAfterPerNet(pinsBefore, ps[..k], owners[..k], n);
      PerNetStep(pinsBefore[n], PinsAttached(ps[..k], owners[..k], n), ps[k], owners[k] == n);
    }
  }

  /** One more pin on the net is one more removal step; a pin on another net changes nothing. */
  lemma PerNetStep(pins: seq<Pin>, victims: seq<Pin>, p: Pin, own: bool)
    ensures AfterPinRemovals(pins, victims + (if own then [p] else []))
            == if own then RemovalStep(AfterPinRemovals(pins, victims), p) else AfterPinRemovals(pins, victims)
  {
    if own {
      assert (victims + [p])[..|victims|] == victims;
    } else {
      assert victims + [] == victims;
    }
  }

  /** The names of the nets dropped from the module. */
  ghost function DroppedNames(state: map<Net, NetRemoval<Pin>>): set<string> {
    set n | n in state && state[n].dropped :: n.name
  }

  /** A removal step drops its net's name exactly when the net has one pin left. */
  lemma DroppedNamesStep(state: map<Net, NetRemoval<Pin>>, m: Net, victim: Pin)
    requires m in state
    ensures DroppedNames(state[m := RemovalStep(state[m], victim)])
            == if |state[m].pins| == 1 then DroppedNames(state) + {m.name} else DroppedNames(state)
  {
    var after: map<Net, NetRemoval<Pin>> := state[m := RemovalStep(state[m], victim)];
    var expected: set<string> := if |state[m].pins| == 1 then DroppedNames(state) + {m.name} else DroppedNames(state);
    forall name | name in DroppedNames(after)
      ensures name in expected
    {
      var n: Net :| n in after && after[n].dropped && n.name == name;
      assert n != m ==> state[n].dropped;
    }
    forall name | name in expected
      ensures name in DroppedNames(after)
    {
      if name in DroppedNames(state) {
        var n: Net :| n in state && state[n].dropped && n.name == name;
        assert after[n].dropped;
      } else {
        assert after[m].dropped;
      }
    }
  }

  /** The pins `removeNet(net)` visits: those the net lists. */
  function ListedPins(net: Net): set<Pin>
    reads net
  {
    set p | p in net.pins
  }

  /** The instances of the pins the net lists. */
  function ListedInstances(net: Net): set<Instance>
    reads net
  {
    set p | p in net.pins :: p.instance
  }

  /** The body of the pin loop of `removeNet` for one pin: the pin's instance drops `net` from
      its net list, and the pin leaves `net` if it is on it. */
  method ReleasePin(p: Pin, net: Net)
    requires p.net != null && p.instance.netList.Some?
    modifies p`net, p.instance`netList
    ensures p.instance.netList == Some(old(p.instance.netList.value) - {net})
    ensures p.net == if old(p.net) == net then null else old(p.net)
  {
    var inst := p.instance;
    inst.netList := Some(inst.netList.value - {net});
    if p.net == net {
      p.net := null;
    }
  }

  /** What `removeNet(net)` needs to run without a null dereference: every pin is on a net
      and its instance has a net list, and a pin listed twice is not on `net` (the second
      visit would find its net already cleared). */
  predicate CanRemoveNet(net: Net)
    reads net, net.pins, set p | p in net.pins :: p.instance
  {
    && (forall p :: p in net.pins ==> p.net != null && p.instance.netList.Some?)
    && (forall i, j :: 0 <= i < j < |net.pins| && net.pins[i] == net.pins[j] ==> net.pins[i].net != net)
  }

  /** So a removal step takes the net's name out of the module's net map exactly when the net
      has one pin left. */
  lemma NetMapStep(netMap: map<string, Net>, state: map<Net, NetRemoval<Pin>>, m: Net, victim: Pin)
    requires m in state
    ensures netMap - DroppedNames(state[m := RemovalStep(state[m], victim)])
            == if |state[m].pins| == 1 then (netMap - DroppedNames(state)) - {m.name} else netMap - DroppedNames(state)
  {
    DroppedNamesStep(state, m, victim);
  }

  /** The body of the pin loop of `removeInstance` for one pin: the pin's net is unrouted and
      then either reported as dropped (it has one pin left) or loses the pin. */
  method DetachPin(net: Net, p: Pin, ghost before: NetRemoval<Pin>) returns (dropped: bool)
    requires net.pins == before.pins
    modifies net
    ensures net.pips == []
    ensures net.pins == RemovalStep(before, p).pins
    ensures dropped <==> |before.pins| == 1
  {
    net.Unroute();
    dropped := |net.pins| == 1;
    if !dropped {
      net.RemovePin(p);
    }
  }

  /** The pin loop of `removeInstance`, on the module's net map as a value: pin by pin, the
      pin's net is unrouted and is then either dropped from the map (one pin left) or loses
      the pin. `owners` and `pinsBefore` record each pin's net and each net's pins beforehand. */
  method DetachEachPin(ps: seq<Pin>, netMap: map<string, Net>, ghost owners: seq<Net?>, ghost nets: set<Net>,
                       ghost pinsBefore: map<Net, seq<Pin>>)
      returns (result: map<string, Net>)
    requires |owners| == |ps| && pinsBefore.Keys == nets
    requires forall j :: 0 <= j < |ps| ==> ps[j].net == owners[j] && owners[j] != null && owners[j] in nets
    requires forall n :: n in nets ==> n.pins == pinsBefore[n]
    modifies nets
    ensures forall n :: n in nets ==> n.pins == StateAfter(pinsBefore, ps, owners)[n].pins
    ensures forall j :: 0 <= j < |ps| ==> owners[j].pips == []
    ensures result == netMap - DroppedNames(StateAfter(pinsBefore, ps, owners))
  {
    ghost var state := StateAfter(pinsBefore, [], []);
    result := netMap;
    var i := 0;
    while i < |ps|
      invariant 0 <= i <= |ps|
      invariant state == StateAfter(pinsBefore, ps[..i], owners[..i])
      invariant forall n :: n in nets ==> n.pins == state[n].pins
      invariant forall j :: 0 <= j < i ==> owners[j].pips == []
      invariant result == netMap - DroppedNames(state)
    {
      var p := ps[i];
      var net := p.net;
      StateAfterStep(pinsBefore, ps, owners, i, net);
      NetMapStep(netMap, state, net, p);
      label before:
      var dropped := DetachPin(net, p, state[net]);
      forall j | 0 <= j <= i
        ensures owners[j].pips == []
      {
        if j < i && owners[j] != net {
          assert owners[j].pips == old@before(owners[j].pips);
        }
      }
      if dropped {
        result := result - {net.name};
      }
      state := state[net := RemovalStep(state[net], p)];
      i := i + 1;
    }
    assert ps[..|ps|] == ps && owners[..|ps|] == owners;
  }

  /** What removing the pins of `ps` does to each of their nets, one by one in order. */
  ghost function RemovalOutcome(ps: seq<Pin>): (r: map<Net, NetRemoval<Pin>>)
    reads ps, NetsOf(ps)
    ensures r.Keys == NetsOf(ps)
  {
    map n: Net | n in NetsOf(ps) :: AfterPinRemovals(n.pins, PinsOn(ps, n))
  }

  /** On a net that lists the removed pins attached to it (as a consistent netlist does), the
      outcome drops the net exactly when the instance held all of its pins, and otherwise
      leaves precisely the pins the instance did not hold. */
  lemma RemovalOutcomeOnNet(ps: seq<Pin>, n: Net)
    requires n in NetsOf(ps)
    requires |n.pins| >= 1 && multiset(PinsOn(ps, n)) <= multiset(n.pins)
    ensures var r := RemovalOutcome(ps)[n];
            && (r.dropped <==> |PinsOn(ps, n)| == |n.pins|)
            && (!r.dropped ==> multiset(r.pins) == multiset(n.pins) - multiset(PinsOn(ps, n)))
  {
    PinRemovalOutcome(n.pins, PinsOn(ps, n));
  }

  /** The removal steps, taken pin by pin, end where the per-net outcome says. */
  lemma StateAfterIsOutcome(pinsBefore: map<Net, seq<Pin>>, ps: seq<Pin>, owners: seq<Net?>, outcome: map<Net, NetRemoval<Pin>>)
    requires |owners| == |ps|
    requires forall j :: 0 <= j < |ps| ==> owners[j] != null && owners[j] in pinsBefore
    requires outcome.Keys == pinsBefore.Keys
    requires forall n :: n in outcome ==> outcome[n] == AfterPinRemovals(pinsBefore[n], PinsAttached(ps, owners, n))
    ensures StateAfter(pinsBefore, ps, owners) == outcome
  {
    var final := StateAfter(pinsBefore, ps, owners);
    forall n | n in outcome
      ensures final[n] == outcome[n]
    {
      StateAfterPerNet(pinsBefore, ps, owners, n);
    }
  }

  /** The pin loop of `removeInstance` as a whole: every net a pin of `ps` is on ends unrouted
      with the pins its removal outcome leaves, and the net map loses exactly the names of the
      nets that outcome drops. */
  method DetachPins(ps: seq<Pin>, netMap: map<string, Net>) returns (result: map<string, Net>)
    requires forall p :: p in ps ==> p.net != null
    modifies NetsOf(ps)
    ensures forall n :: n in old(RemovalOutcome(ps)) ==> n.pins == old(RemovalOutcome(ps))[n].pins && n.pips == []
    ensures result == netMap - DroppedNames(old(RemovalOutcome(ps)))
  {
    ghost var owners := NetsAlong(ps);
    ghost var nets := NetsOf(ps);
    ghost var pinsBefore: map<Net, seq<Pin>> := map n: Net | n in nets :: n.pins;
    ghost var outcome := RemovalOutcome(ps);
    assert pinsBefore.Keys == nets;
    assert forall n :: n in nets ==> exists j :: 0 <= j < |ps| && owners[j] == n;
    forall j | 0 <= j < |ps|
      ensures owners[j] != null && owners[j] in pinsBefore
    {
      assert ps[j] in ps;
    }
    assert outcome.Keys == pinsBefore.Keys;
    forall n | n in outcome
      ensures outcome[n] == AfterPinRemovals(pinsBefore[n], PinsAttached(ps, owners, n))
    {
      assert PinsOn(ps, n) == PinsAttached(ps, owners, n);
      assert pinsBefore[n] == n.pins;
    }
    StateAfterIsOutcome(pinsBefore, ps, owners, outcome);
    result := DetachEachPin(ps, netMap, owners, nets, pinsBefore);
    forall n | n in nets
      ensures n.pips == []
    {
      var j :| 0 <= j < |ps| && owners[j] == n;
    }
  }

  class Module {
    var name: Option<string>
    var attributes: seq<Attribute>
    var anchor: Instance?
    var instanceMap: map<string, Instance>
    var netMap: map<string, Net>
    var validPlacements: seq<Site>

    /** `Module()`: no name, no anchor, nothing inside, no cached placements. */
    constructor()
      ensures name.None? && attributes == [] && anchor == null
      ensures instanceMap == map[] && netMap == map[] && validPlacements == []
    {
      name := None;
      attributes := [];
      anchor := null;
      instanceMap := map[];
      netMap := map[];
      validPlacements := [];
    }

    /** `addNet(net)`: file the net under its name, replacing any net of the same name. */
    method AddNet(net: Net)
      modifies this`netMap
      ensures netMap == old(netMap)[net.name := net]
      ensures GetNet(net.name) == Some(net)
    {
      netMap := netMap[net.name := net];
    }

    /** `addInstance(inst)`: file the instance under its name. */
    method AddInstance(inst: Instance)
      modifies this`instanceMap
      ensures instanceMap == old(instanceMap)[inst.name := inst]
      ensures GetInstance(inst.name) == Some(inst)
    {
      instanceMap := instanceMap[inst.name := inst];
    }

    /** `getNet(name)`: the net filed under the name, or nothing. */
    function GetNet(name: string): (r: Option<Net>)
      reads this`netMap
      ensures r.Some? <==> name in netMap
      ensures r.Some? ==> r.value == netMap[name]
    {
      if name in netMap then Some(netMap[name]) else None
    }

    /** `getInstance(name)`: the instance filed under the name, or nothing. */
    function GetInstance(name: string): (r: Option<Instance>)
      reads this`instanceMap
      ensures r.Some? <==> name in instanceMap
      ensures r.Some? ==> r.value == instanceMap[name]
    {
      if name in instanceMap then Some(instanceMap[name]) else None
    }

    /** `hasAttribute(physicalName)`. */
    method HasAttribute(physicalName: string) returns (found: bool)
      ensures found <==> HasPhysicalName(attributes, physicalName)
    {
      found := ScanAttributes(attributes, physicalName);
    }

    /** The anchor and every instance are placed: what the validator dereferences. */
    predicate Placeable()
      reads this`anchor, this`instanceMap, anchor, instanceMap.Values
    {
      anchor != null && anchor.site.Some? && forall i :: i in instanceMap.Values ==> i.site.Some?
    }

    /** The module as the validator sees it. */
    function CurrentFootprint(): Footprint
      requires Placeable()
      reads this`anchor, this`instanceMap, this`netMap, anchor, instanceMap.Values, netMap.Values
    {
      Footprint(
        Member(anchor.site.value, anchor.primitiveType),
        set i | i in instanceMap.Values :: Member(i.site.value, i.primitiveType),
        set n, p | n in netMap.Values && p in n.pips :: p.tile)
    }

    /** `isValidPlacement(proposedAnchorSite, dev)`; the anchor and the instances are only
        dereferenced once both arguments are present. */
    function IsValidPlacement(proposed: Option<Site>, dev: Option<Device>): (ok: bool)
      requires proposed.Some? && dev.Some? ==> Placeable()
      reads this`anchor, this`instanceMap, this`netMap, anchor, instanceMap.Values, netMap.Values
      ensures proposed.None? || dev.None? ==> !ok
      ensures ok ==> GetCorrespondingSite(dev.value, anchor.site.value, anchor.primitiveType, proposed.value.tile) == proposed
      ensures ok ==> forall i :: i in instanceMap.Values ==>
                       MemberFits(dev.value, CurrentFootprint(), Member(i.site.value, i.primitiveType), proposed.value.tile)
    {
      if proposed.None? || dev.None? then false
      else Placement.IsValidPlacement(dev, CurrentFootprint(), proposed)
    }

    /** `calculateAllValidPlacements(dev)`: without an anchor, nothing and the cache stays;
        otherwise the device's compatible sites that pass the validator, in device order,
        which also become the cached list. */
    method CalculateAllValidPlacements(dev: Device) returns (r: Option<seq<Site>>)
      requires anchor != null && GetAllCompatibleSites(dev, anchor.primitiveType) != [] ==> Placeable()
      modifies this`validPlacements
      ensures anchor == null ==> r.None? && validPlacements == old(validPlacements)
      ensures anchor != null ==> r == Some(GetAllValidPlacements())
      ensures anchor != null && GetAllCompatibleSites(dev, anchor.primitiveType) == [] ==> validPlacements == []
      ensures anchor != null && GetAllCompatibleSites(dev, anchor.primitiveType) != [] ==>
                validPlacements == ValidAmong(dev, CurrentFootprint(), GetAllCompatibleSites(dev, anchor.primitiveType))
    {
      if anchor == null {
        return None;
      }
      var sites := GetAllCompatibleSites(dev, anchor.primitiveType);
      var validSites: seq<Site> := [];
      var i := 0;
      while i < |sites|
        invariant 0 <= i <= |sites|
        invariant sites != [] ==> validSites == ValidAmong(dev, CurrentFootprint(), sites[..i])
        invariant sites == [] ==> validSites == []
      {
        assert sites[..i + 1][..i] == sites[..i];
        if IsValidPlacement(Some(sites[i]), Some(dev)) {
          validSites := validSites + [sites[i]];
        }
        i := i + 1;
      }
      assert sites[..|sites|] == sites;
      validPlacements := validSites;
      return Some(validSites);
    }

    /** `getAllValidPlacements()`: the cached list as it stands, not recomputed; after
        CalculateAllValidPlacements it is that method's result. */
    function GetAllValidPlacements(): (cached: seq<Site>)
      reads this`validPlacements
      ensures cached == validPlacements
    {
      validPlacements
    }

    /** `removeNet(net)`: every pin's instance forgets the net, every pin on the net is
        detached from it, and the net's name leaves the net map. */
    method RemoveNet(net: Net)
      requires CanRemoveNet(net)
      modifies this`netMap, ListedPins(net)`net, ListedInstances(net)`netList
      ensures netMap == old(netMap) - {net.name}
      ensures forall p :: p in net.pins ==> p.instance.netList == Some(old(p.instance.netList.value) - {net})
      ensures forall p :: p in net.pins ==> p.net == if old(p.net) == net then null else old(p.net)
    {
      var ps := net.pins;
      var i := 0;
      while i < |ps|
        invariant 0 <= i <= |ps|
        invariant netMap == old(netMap)
        invariant forall p :: p in ps ==> p.instance.netList.Some?
        invariant forall p :: p in ps ==>
                    || p.instance.netList.value == old(p.instance.netList.value) - {net}
                    || p.instance.netList == old(p.instance.netList)
        invariant forall j :: 0 <= j < i ==> ps[j].instance.netList == Some(old(ps[j].instance.netList.value) - {net})
        invariant forall j :: 0 <= j < i ==> ps[j].net == if old(ps[j].net) == net then null else old(ps[j].net)
        invariant forall j :: i <= j < |ps| ==> ps[j].net == old(ps[j].net)
      {
        var p := ps[i];
        assert p.instance.netList.value - {net} == old(p.instance.netList.value) - {net};
        ReleasePin(p, net);
        i := i + 1;
      }
      netMap := netMap - {net.name};
    }

    /** `removeNet(name)`: remove the net filed under the name, if there is one. */
    method RemoveNetByName(name: string)
      requires name in netMap ==> CanRemoveNet(netMap[name])
      modifies this`netMap
      modifies (if name in netMap then ListedPins(netMap[name]) else {})`net
      modifies (if name in netMap then ListedInstances(netMap[name]) else {})`netList
      ensures name !in old(netMap) ==> netMap == old(netMap)
      ensures name in old(netMap) ==> netMap == old(netMap) - {old(netMap)[name].name}
      ensures name in old(netMap) ==> var net := old(netMap)[name];
                forall p :: p in net.pins ==> p.instance.netList == Some(old(p.instance.netList.value) - {net})
      ensures name in old(netMap) ==> var net := old(netMap)[name];
                forall p :: p in net.pins ==> p.net == if old(p.net) == net then null else old(p.net)
    {
      var n := GetNet(name);
      if n.Some? {
        RemoveNet(n.value);
      }
    }

    /** `removeInstance(instance)`: an instance that belongs to a module instance is kept
        and false is returned. Otherwise, pin by pin, the pin's net is unrouted and is either
        dropped from the net map (when it has exactly one pin) or loses the pin; then the
        instance leaves the instance map and loses its design, net list and module template. */
    method RemoveInstance(instance: Instance) returns (ok: bool)
      requires instance.moduleInstance.None? ==> forall p :: p in instance.pins ==> p.net != null
      modifies this`netMap, this`instanceMap, instance`design, instance`netList, instance`moduleTemplate
      modifies NetsOf(instance.pins)
      ensures ok <==> old(instance.moduleInstance).None?
      ensures !ok ==> && netMap == old(netMap) && instanceMap == old(instanceMap) && unchanged(instance)
      ensures !ok ==> forall n :: n in old(NetsOf(instance.pins)) ==> unchanged(n)
      ensures ok ==> && instanceMap == old(instanceMap) - {instance.name}
                     && instance.design == null && instance.netList.None? && instance.moduleTemplate.None?
      ensures ok ==> forall n :: n in old(RemovalOutcome(instance.pins)) ==>
                       n.pins == old(RemovalOutcome(instance.pins))[n].pins && n.pips == []
      ensures ok ==> netMap == old(netMap) - DroppedNames(old(RemovalOutcome(instance.pins)))
    {
      if instance.moduleInstance.Some? {
        return false;
      }
      netMap := DetachPins(instance.pins, netMap);
      ForgetInstance(instance);
      return true;
    }

    /** `removeInstance(name)`: remove the instance filed under the name. The name must be
        filed: the instance found is dereferenced straight away. */
    method RemoveInstanceByName(name: string) returns (ok: bool)
      requires name in instanceMap
      requires instanceMap[name].moduleInstance.None? ==> forall p :: p in instanceMap[name].pins ==> p.net != null
      modifies this`netMap, this`instanceMap
      modifies {instanceMap[name]}`design, {instanceMap[name]}`netList, {instanceMap[name]}`moduleTemplate
      modifies NetsOf(instanceMap[name].pins)
      ensures ok <==> old(instanceMap[name].moduleInstance).None?
      ensures !ok ==> netMap == old(netMap) && instanceMap == old(instanceMap)
      ensures !ok ==> unchanged(old(instanceMap[name]))
      ensures !ok ==> forall n :: n in old(NetsOf(instanceMap[name].pins)) ==> unchanged(n)
      ensures ok ==> instanceMap == old(instanceMap) - {old(instanceMap[name]).name}
      ensures ok ==> var inst := old(instanceMap[name]);
                     inst.design == null && inst.netList.None? && inst.moduleTemplate.None?
      ensures ok ==> forall n :: n in old(RemovalOutcome(instanceMap[name].pins)) ==>
                       n.pins == old(RemovalOutcome(instanceMap[name].pins))[n].pins && n.pips == []
      ensures ok ==> netMap == old(netMap) - DroppedNames(old(RemovalOutcome(instanceMap[name].pins)))
    {
      var inst := GetInstance(name);
      ok := RemoveInstance(inst.value);
    }

    /** The bookkeeping that ends `removeInstance`: the module forgets the instance and the
        instance forgets its design, its net list and its module template. */
    method ForgetInstance(instance: Instance)
      modifies this`instanceMap, instance`design, instance`netList, instance`moduleTemplate
      ensures && instanceMap == old(instanceMap) - {instance.name}
              && instance.design == null && instance.netList.None? && instance.moduleTemplate.None?
    {
      instanceMap := instanceMap - {instance.name};
      instance.design := null;
      instance.netList := None;
      instance.moduleTemplate := None;
    }
  }
}
