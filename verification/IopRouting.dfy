/** The IOP subsystem: choosing a game profile, and routing RPCs to the services that own a SID. */
module IopRouting {
  import opened Instructions

  // ---- Profile selection --------------------------------------------------------------------

  /** Zero, or an empty name, means the field is not constrained. */
  datatype Matcher = Matcher(elfName: string, entryPoint: uint32, crc32: uint32)
  datatype Identity = Identity(elfName: string, entryPoint: uint32, crc32: uint32)
  datatype Profile = Profile(id: string, provider: string, matcher: Matcher)

  function Lower(c: char): char {
    if 'A' <= c <= 'Z' then (c as int + 32) as char else c
  }

  predicate EqualIgnoringCase(a: string, b: string) {
    |a| == |b| && forall i :: 0 <= i < |a| ==> Lower(a[i]) == Lower(b[i])
  }

  predicate NameMatches(m: Matcher, id: Identity) { m.elfName == "" || EqualIgnoringCase(m.elfName, id.elfName) }
  predicate EntryMatches(m: Matcher, id: Identity) { m.entryPoint == 0 || m.entryPoint == id.entryPoint }
  predicate CrcMatches(m: Matcher, id: Identity) { m.crc32 == 0 || m.crc32 == id.crc32 }

  /** The number of declared fields, when all of them match. */
  function Declared(m: Matcher): int {
    (if m.elfName != "" then 1 else 0) + (if m.entryPoint != 0 then 1 else 0) + (if m.crc32 != 0 then 1 else 0)
  }

  function Specificity(m: Matcher, id: Identity): int {
    if NameMatches(m, id) && EntryMatches(m, id) && CrcMatches(m, id) then Declared(m) else -1
  }

  /** Character by character, in ASCII lower case. */
  method EqualsIgnoreCaseAscii(lhs: string, rhs: string) returns (r: bool)
    ensures r <==> EqualIgnoringCase(lhs, rhs)
  {
    if |lhs| != |rhs| {
      return false;
    }
    for i := 0 to |lhs|
      invariant forall j :: 0 <= j < i ==> Lower(lhs[j]) == Lower(rhs[j])
    {
      var left := if 'A' <= lhs[i] <= 'Z' then (lhs[i] as int + 32) as char else lhs[i];
      var right := if 'A' <= rhs[i] <= 'Z' then (rhs[i] as int + 32) as char else rhs[i];
      if left != right {
        return false;
      }
    }
    return true;
  }

  /** b is a, but for the case of some ASCII letters. */
  ghost predicate CaseChanged(a: string, b: string) {
    |a| == |b| && forall i :: 0 <= i < |a| ==>
      || b[i] == a[i]
      || ('A' <= a[i] <= 'Z' && b[i] as int == a[i] as int + 32)
      || ('A' <= b[i] <= 'Z' && a[i] as int == b[i] as int + 32)
  }

  /** Names match exactly when one is the other but for the case of ASCII letters. */
  lemma NamesMatchIff(a: string, b: string)
    ensures EqualIgnoringCase(a, b) <==> CaseChanged(a, b)
  {
  }

  /** The field-by-field version. */
  method MatchSpecificity(m: Matcher, id: Identity) returns (specificity: int)
    ensures specificity == Specificity(m, id)
  {
    specificity := 0;
    if m.elfName != "" {
      var same := EqualsIgnoreCaseAscii(m.elfName, id.elfName);
      if !same { return -1; }
      specificity := specificity + 1;
    }
    if m.entryPoint != 0 {
      if m.entryPoint != id.entryPoint { return -1; }
      specificity := specificity + 1;
    }
    if m.crc32 != 0 {
      if m.crc32 != id.crc32 { return -1; }
      specificity := specificity + 1;
    }
  }

  /** What counts: each declared field must match, the name up to case, and each makes the match more specific by one. */
  lemma SpecificityIs(m: Matcher, id: Identity)
    ensures Specificity(m, id) >= 0
            <==> && (m.elfName != "" ==> CaseChanged(m.elfName, id.elfName))
                 && (m.entryPoint != 0 ==> m.entryPoint == id.entryPoint)
                 && (m.crc32 != 0 ==> m.crc32 == id.crc32)
    ensures Specificity(m, id) >= 0 ==>
      Specificity(m, id) == |(if m.elfName != "" then {0} else {}) + (if m.entryPoint != 0 then {1} else {})
                             + (if m.crc32 != 0 then {2} else {})|
  {
    NamesMatchIff(m.elfName, id.elfName);
  }

  /** The case of letters in either name leaves the specificity unchanged. */
  lemma CaseDoesNotMatter(m: Matcher, id: Identity, name: string, other: string)
    requires CaseChanged(m.elfName, name) && CaseChanged(id.elfName, other)
    ensures Specificity(m.(elfName := name), id.(elfName := other)) == Specificity(m, id)
  {
    NamesMatchIff(m.elfName, name);
    NamesMatchIff(id.elfName, other);
    assert m.elfName == "" <==> name == "";
  }

  /** Profile i matches, and none is more specific. */
  ghost predicate AtTop(profiles: seq<Profile>, id: Identity, i: nat) {
    && i < |profiles|
    && Specificity(profiles[i].matcher, id) >= 0
    && forall j :: 0 <= j < |profiles| ==> Specificity(profiles[j].matcher, id) <= Specificity(profiles[i].matcher, id)
  }

  datatype Selection = NoMatch | Unique(profile: nat) | Tie(first: nat, other: nat)

  /** One pass over the profiles, keeping the best so far and its latest rival. */
  method Select(profiles: seq<Profile>, id: Identity) returns (s: Selection)
    ensures s.NoMatch? ==> forall i :: !AtTop(profiles, id, i)
    ensures s.Unique? ==> forall i :: AtTop(profiles, id, i) <==> i == s.profile
    ensures s.Tie? ==> s.first != s.other && AtTop(profiles, id, s.first) && AtTop(profiles, id, s.other)
  {
    var selected, selectedTie, selectedSpecificity := -1, -1, -1;
    for i := 0 to |profiles|
      invariant -1 <= selected < i && -1 <= selectedTie < i
      invariant selected == -1 ==> selectedTie == -1 && selectedSpecificity == -1
      invariant selected >= 0 ==> selectedSpecificity == Specificity(profiles[selected].matcher, id) >= 0
      invariant forall j :: 0 <= j < i ==> Specificity(profiles[j].matcher, id) <= selectedSpecificity
      invariant selectedTie >= 0 ==>
        selectedTie != selected && Specificity(profiles[selectedTie].matcher, id) == selectedSpecificity
      invariant selectedTie == -1 ==>
        forall j :: 0 <= j < i && j != selected ==> Specificity(profiles[j].matcher, id) < selectedSpecificity || selected == -1
    {
      var specificity := MatchSpecificity(profiles[i].matcher, id);
      if specificity < 0 {
        continue;
      }
      if specificity > selectedSpecificity {
        selected, selectedTie, selectedSpecificity := i, -1, specificity;
        continue;
      }
      if specificity == selectedSpecificity && selected >= 0 {
        selectedTie := i;
      }
    }
    if selected < 0 {
      s := NoMatch;
    } else if selectedTie >= 0 {
      s := Tie(selected, selectedTie);
    } else {
      s := Unique(selected);
      assert AtTop(profiles, id, selected);
    }
  }

  // ---- Layers -------------------------------------------------------------------------------

  /** A service object; identity matters, and it is destroyed when the list that owns it lets it go. */
  class IopService {
    const sids: seq<uint32>

    constructor (sids: seq<uint32>)
      ensures this.sids == sids
    {
      this.sids := sids;
    }
  }

  type Services = seq<IopService?>
  type Routes = map<uint32, IopService>

  predicate Serves(s: IopService?, sid: uint32) {
    s != null && sid in s.sids
  }

  /** A layer names a SID at most once, across its services and within each of them. */
  ghost predicate LayerValid(services: Services) {
    && (forall i, j, sid {:trigger Serves(services[i], sid), Serves(services[j], sid)} ::
          0 <= i < j < |services| && Serves(services[i], sid) ==> !Serves(services[j], sid))
    && (forall i :: 0 <= i < |services| && services[i] != null ==> Distinct(services[i].sids))
  }

  ghost predicate Distinct(sids: seq<uint32>) {
    forall a, b :: 0 <= a < b < |sids| ==> sids[a] != sids[b]
  }

  /** The layer's map: every served SID to a service of the layer that serves it. */
  ghost predicate IsLayer(layer: Routes, services: Services) {
    && (forall sid :: sid in layer ==> Serves(layer[sid], sid) && layer[sid] in services)
    && (forall i, sid {:trigger Serves(services[i], sid)} ::
          0 <= i < |services| && Serves(services[i], sid) ==> sid in layer)
  }

  /** The SID is named twice within the layer: by two services, or twice by one. */
  ghost predicate Repeated(services: Services, sid: uint32) {
    || (exists i, j {:trigger Serves(services[i], sid), Serves(services[j], sid)} ::
          0 <= i < j < |services| && Serves(services[i], sid) && Serves(services[j], sid))
    || (exists i :: 0 <= i < |services| && services[i] != null && NamedTwice(services[i].sids, sid))
  }

  ghost predicate NamedTwice(sids: seq<uint32>, sid: uint32) {
    exists a, b :: 0 <= a < b < |sids| && sids[a] == sids[b] == sid
  }

  /** Enters one service's SIDs, stopping at the first that is taken. */
  method Emplace(layer: Routes, service: IopService) returns (ok: bool, grown: Routes, taken: uint32)
    ensures ok <==> Distinct(service.sids) && forall sid <- service.sids :: sid !in layer
    ensures ok ==> grown.Keys == layer.Keys + (set sid <- service.sids)
    ensures ok ==> forall sid <- grown :: grown[sid] == if sid in layer then layer[sid] else service
    ensures !ok ==> taken in service.sids && (taken in layer || NamedTwice(service.sids, taken))
  {
    grown := layer;
    var sids := service.sids;
    for k := 0 to |sids|
      invariant grown.Keys == layer.Keys + (set sid <- sids[..k])
      invariant forall sid <- grown :: grown[sid] == if sid in layer then layer[sid] else service
      invariant Distinct(sids[..k]) && forall sid <- sids[..k] :: sid !in layer
    {
      assert forall sid :: sid in sids[..k + 1] <==> sid in sids[..k] || sid == sids[k];
      if sids[k] in grown {
        taken := sids[k];
        ok := false;
        return;
      }
      grown := grown[sids[k] := service];
    }
    assert sids[..|sids|] == sids;
    ok, taken := true, 0;
  }

  method BuildLayer(services: Services) returns (ok: bool, layer: Routes, taken: uint32)
    ensures ok <==> LayerValid(services)
    ensures ok ==> IsLayer(layer, services)
    ensures !ok ==> Repeated(services, taken)
  {
    layer := map[];
    for i := 0 to |services|
      invariant LayerValid(services[..i]) && IsLayer(layer, services[..i])
    {
      if services[i] == null {
        continue;
      }
      var grown;
      ok, grown, taken := Emplace(layer, services[i]);
      if !ok {
        assert Serves(services[i], taken);
        assert taken in layer ==> exists j :: 0 <= j < i && Serves(services[j], taken);
        assert Repeated(services, taken);
        RepeatedIsInvalid(services, taken);
        return;
      }
      layer := grown;
    }
    assert services[..|services|] == services;
    ok, taken := true, 0;
  }

  lemma RepeatedIsInvalid(services: Services, sid: uint32)
    requires Repeated(services, sid)
    ensures !LayerValid(services)
  {
  }

  // ---- The subsystem ------------------------------------------------------------------------

  /** Profile routes over core routes; a layer that is not valid leaves what precedes it. */
  ghost predicate Layered(routes: Routes, core: Services, profile: Services) {
    if !LayerValid(core) then routes == map[]
    else if !LayerValid(profile) then IsLayer(routes, core)
    else
      && (forall sid :: sid in routes <==> Served(core, sid) || Served(profile, sid))
      && (forall sid <- routes :: Serves(routes[sid], sid) &&
            routes[sid] in if Served(profile, sid) then profile else core)
  }

  ghost predicate Served(services: Services, sid: uint32) {
    exists s <- services :: Serves(s, sid)
  }

  datatype Error =
    | NoError
    | Ambiguous(first: nat, other: nat)
    | FactoryFailed(profile: nat)
    | DuplicateSid(sid: uint32, profileSpecific: bool)

  /** What a profile's factory does when it is called. */
  datatype Outcome = Built(services: Services) | Threw

  ghost predicate Contested(profiles: seq<Profile>, id: Identity) {
    exists i: nat, j: nat :: i != j && AtTop(profiles, id, i) && AtTop(profiles, id, j)
  }

  ghost predicate SoleTop(profiles: seq<Profile>, id: Identity, i: nat) {
    AtTop(profiles, id, i) && !Contested(profiles, id)
  }

  class IopSubsystem {
    const coreServices: Services
    const profiles: seq<Profile>
    var profileServices: Services
    var routes: Routes
    var activeProfile: string
    var activeProvider: string
    var lastError: Error
    var routesValid: bool

    /** The state between calls: whatever happened, the routes are those of the layers now owned. */
    ghost predicate Valid()
      reads this
    {
      && LayerValid(profileServices)
      && (routesValid <==> LayerValid(coreServices))
      && Layered(routes, coreServices, profileServices)
    }

    ghost predicate CoreOnly()
      reads this
    {
      profileServices == [] && activeProfile == "" && activeProvider == ""
    }

    constructor (coreServices: Services, profiles: seq<Profile>)
      ensures Valid() && CoreOnly()
      ensures this.coreServices == coreServices && this.profiles == profiles
    {
      this.coreServices, this.profiles := coreServices, profiles;
      profileServices, routes, activeProfile, activeProvider := [], map[], "", "";
      lastError, routesValid := NoError, true;
      new;
      RebuildRoutes();
    }

    method RebuildRoutes()
      modifies `routes, `routesValid, `lastError
      ensures Layered(routes, coreServices, profileServices)
      ensures routesValid <==> LayerValid(coreServices) && LayerValid(profileServices)
      ensures routesValid ==> lastError == old(lastError)
      ensures !routesValid ==> lastError.DuplicateSid? && lastError.profileSpecific == LayerValid(coreServices)
      ensures !routesValid ==>
        Repeated(if lastError.profileSpecific then profileServices else coreServices, lastError.sid)
    {
      routes := map[];
      var ok, layer, taken := BuildLayer(coreServices);
      if !ok {
        lastError, routesValid := DuplicateSid(taken, false), false;
        return;
      }
      routes := routes + layer;
      var core := layer;
      ok, layer, taken := BuildLayer(profileServices);
      if !ok {
        lastError, routesValid := DuplicateSid(taken, true), false;
        return;
      }
      routes := routes + layer;
      Overlaid(core, layer, coreServices, profileServices);
      routesValid := true;
    }

    /**
     * Selects a profile for the game and installs it. outcomes[i] is what profile i's factory does
     * if it is called; tried is the one that was, or -1. error is the caller's error slot.
     */
    method Configure(id: Identity, outcomes: seq<Outcome>) returns (ok: bool, error: Error, tried: int)
      requires |outcomes| == |profiles|
      requires Valid()
      modifies `profileServices, `routes, `activeProfile, `activeProvider, `lastError, `routesValid
      ensures Valid()
      ensures -1 <= tried < |profiles|
      ensures forall i: nat :: SoleTop(profiles, id, i) <==> i == tried
      ensures error.Ambiguous? <==> Contested(profiles, id)
      ensures error.Ambiguous? ==> error.first != error.other
      ensures error.Ambiguous? ==> AtTop(profiles, id, error.first) && AtTop(profiles, id, error.other)
      ensures error.FactoryFailed? <==> tried >= 0 && outcomes[tried].Threw?
      ensures error.FactoryFailed? ==> error.profile == tried
      ensures error.DuplicateSid? ==> error.profileSpecific == LayerValid(coreServices)
      ensures error.DuplicateSid? && !error.profileSpecific ==> Repeated(coreServices, error.sid)
      ensures error.DuplicateSid? && error.profileSpecific ==>
        tried >= 0 && outcomes[tried].Built? && Repeated(outcomes[tried].services, error.sid)
      ensures ok <==> error == NoError
      ensures ok <==>
        && LayerValid(coreServices)
        && !Contested(profiles, id)
        && (tried >= 0 ==> outcomes[tried].Built? && LayerValid(outcomes[tried].services))
      ensures ok && tried >= 0 ==>
        && profileServices == outcomes[tried].services
        && activeProfile == profiles[tried].id
        && activeProvider == profiles[tried].provider
      ensures ok && tried < 0 ==> CoreOnly()
      ensures !ok ==> CoreOnly()
      ensures lastError != error <==> !LayerValid(coreServices) && (error.Ambiguous? || error.FactoryFailed?)
      ensures lastError != error ==>
        lastError.DuplicateSid? && !lastError.profileSpecific && Repeated(coreServices, lastError.sid)
    {
      Unload();
      lastError, tried, error := NoError, -1, NoError;

      var selection := Select(profiles, id);
      SelectionDecides(profiles, id, selection);
      if selection.Tie? {
        error := Ambiguous(selection.first, selection.other);
        Refuse(error);
        ok := false;
        return;
      }

      if selection.Unique? {
        tried := selection.profile;
        match outcomes[tried] {
          case Built(services) =>
            profileServices := services;
            activeProfile, activeProvider := profiles[tried].id, profiles[tried].provider;
          case Threw =>
            error := FactoryFailed(tried);
            Refuse(error);
            ok := false;
            return;
        }
      }

      RebuildRoutes();
      ok := routesValid;
      if !ok {
        var routeError := lastError;
        Unload();
        RebuildRoutes();
        lastError := routeError;
        error := lastError;
      }
    }

    /** Remembers why no profile was installed, and goes on with core alone. */
    method Refuse(error: Error)
      requires CoreOnly()
      modifies `routes, `lastError, `routesValid
      ensures Valid()
      ensures LayerValid(coreServices) ==> lastError == error
      ensures !LayerValid(coreServices) ==>
        lastError.DuplicateSid? && !lastError.profileSpecific && Repeated(coreServices, lastError.sid)
    {
      lastError := error;
      RebuildRoutes();
    }

    method Unload()
      modifies `profileServices, `activeProfile, `activeProvider
      ensures CoreOnly()
    {
      profileServices, activeProfile, activeProvider := [], "", "";
    }

    /** The service an RPC goes to: the profile's if it serves the SID, else core's, else none. */
    method HandleRpc(sid: uint32) returns (service: IopService?)
      requires Valid()
      ensures routesValid && Served(profileServices, sid) ==> service in profileServices && Serves(service, sid)
      ensures routesValid && !Served(profileServices, sid) && Served(coreServices, sid) ==>
        service in coreServices && Serves(service, sid)
      ensures service != null ==> routesValid && (Served(profileServices, sid) || Served(coreServices, sid))
    {
      service := if sid in routes then routes[sid] else null;
    }
  }

  lemma SelectionDecides(profiles: seq<Profile>, id: Identity, s: Selection)
    requires s.NoMatch? ==> forall i :: !AtTop(profiles, id, i)
    requires s.Unique? ==> forall i :: AtTop(profiles, id, i) <==> i == s.profile
    requires s.Tie? ==> s.first != s.other && AtTop(profiles, id, s.first) && AtTop(profiles, id, s.other)
    ensures s.Tie? <==> Contested(profiles, id)
    ensures forall i: nat :: SoleTop(profiles, id, i) <==> s == Unique(i)
  {
  }

  /** Writing the profile's layer over core's is what Layered asks for. */
  lemma Overlaid(core: Routes, profile: Routes, coreServices: Services, profileServices: Services)
    requires LayerValid(coreServices) && IsLayer(core, coreServices)
    requires LayerValid(profileServices) && IsLayer(profile, profileServices)
    ensures Layered(core + profile, coreServices, profileServices)
  {
    LayerServes(core, coreServices);
    LayerServes(profile, profileServices);
  }

  lemma LayerServes(layer: Routes, services: Services)
    requires IsLayer(layer, services)
    ensures forall sid :: sid in layer <==> Served(services, sid)
  {
    forall sid ensures sid in layer <==> Served(services, sid) {
      if Served(services, sid) {
        var s :| s in services && Serves(s, sid);
        var i :| 0 <= i < |services| && services[i] == s;
        assert Serves(services[i], sid);
      }
    }
  }

  /** A SID of a valid layer has one server. */
  lemma SoleServer(services: Services, s: IopService?, t: IopService?, sid: uint32)
    requires LayerValid(services) && s in services && t in services && Serves(s, sid) && Serves(t, sid)
    ensures s == t
  {
    var i :| 0 <= i < |services| && services[i] == s;
    var j :| 0 <= j < |services| && services[j] == t;
    assert Serves(services[i], sid) && Serves(services[j], sid);
  }

  /** The routes are a function of the two layers: no call leaves a trace of an earlier one. */
  lemma RoutesDetermined(a: Routes, b: Routes, core: Services, profile: Services)
    requires Layered(a, core, profile) && Layered(b, core, profile)
    ensures a == b
  {
    if LayerValid(core) {
      if !LayerValid(profile) {
        LayerServes(a, core);
        LayerServes(b, core);
      }
      forall sid | sid in a ensures sid in b && a[sid] == b[sid] {
        SoleServer(if LayerValid(profile) && Served(profile, sid) then profile else core, a[sid], b[sid], sid);
      }
    }
  }

  /** A core service that names a SID twice hides the tie of two profiles that match every game: the
      caller is told of the tie, the subsystem remembers the SID. */
  method HiddenTie(id: Identity, sid: uint32) returns (error: Error, remembered: Error)
    ensures error.Ambiguous? && remembered == DuplicateSid(sid, false)
  {
    var service := new IopService([sid, sid]);
    var any := Matcher("", 0, 0);
    var profiles := [Profile("a", "p", any), Profile("b", "p", any)];
    var subsystem := new IopSubsystem([service], profiles);
    RepeatedOnlySid(service, sid);
    assert AtTop(profiles, id, 0) && AtTop(profiles, id, 1);
    var ok, tried;
    ok, error, tried := subsystem.Configure(id, [Threw, Threw]);
    remembered := subsystem.lastError;
    assert Repeated(subsystem.coreServices, remembered.sid);
  }

  lemma RepeatedOnlySid(service: IopService, sid: uint32)
    requires service.sids == [sid, sid]
    ensures !LayerValid([service])
    ensures forall x :: Repeated([service], x) <==> x == sid
  {
    var services: Services := [service];
    assert services[0] == service;
    assert service.sids[0] == service.sids[1];
  }

  /** Every route leads to a service that one of the two lists owns. */
  lemma RoutesOwned(routes: Routes, core: Services, profile: Services, sid: uint32)
    requires Layered(routes, core, profile) && sid in routes
    ensures routes[sid] in core + profile && sid in routes[sid].sids
  {
  }
}
