/** The provisioning inventory: which device a request is, by the hardware
    identifiers it supplies. */
module DeviceConfig {
  import opened Json
  import opened Text

  datatype IdKind = Uuid | Serial | Mac

  /** The identifiers a device lists under one kind. */
  datatype MatchEntry = MatchEntry(kind: IdKind, values: seq<string>)

  /** A device of the configuration.  `valid` says whether its other fields
      pass their own checks; a missing name falls back to the default one. */
  datatype Device = Device(id: string, identifiers: seq<MatchEntry>, computerName: Option<string>, payload: int,
                           valid: bool)

  datatype Assignment = Assignment(id: string, computerName: string, payload: int)

  /** The normaliser of each kind; none for a rejected identifier. */
  type Normalizer = (IdKind, string) -> Option<string>

  datatype Indexes = Indexes(uuid: map<string, string>, serial: map<string, string>, mac: map<string, string>) {
    function Of(kind: IdKind): map<string, string> {
      match kind
      case Uuid => uuid
      case Serial => serial
      case Mac => mac
    }

    function Owner(kind: IdKind, value: string): Option<string> {
      if value in Of(kind) then Some(Of(kind)[value]) else None
    }

    function With(kind: IdKind, value: string, id: string): Indexes {
      match kind
      case Uuid => this.(uuid := uuid[value := id])
      case Serial => this.(serial := serial[value := id])
      case Mac => this.(mac := mac[value := id])
    }
  }

  datatype Config = Config(requireKnown: bool, fallback: Assignment, assignments: map<string, Assignment>,
                           indexes: Indexes)

  const ANY_NAME := "*"

  // ---------- text ----------

  predicate ValidId(id: string) {
    1 <= |id| <= 64 && IsAlnum(id[0]) && forall c | c in id :: IsAlnum(c) || c in "._-"
  }

  // ---------- what a configuration means ----------

  function NameOf(device: Device, fallback: Assignment): string {
    if device.computerName.Some? then device.computerName.value else fallback.computerName
  }

  function AssignmentOf(device: Device, fallback: Assignment): Assignment {
    Assignment(device.id, NameOf(device, fallback), device.payload)
  }

  /** The normalised identifiers a device lists. */
  function Listed(device: Device, normalize: Normalizer): set<(IdKind, string)> {
    set entry, raw | entry in device.identifiers && raw in entry.values && normalize(entry.kind, raw).Some?
      :: (entry.kind, normalize(entry.kind, raw).value)
  }

  ghost predicate ValidValues(entry: MatchEntry, normalize: Normalizer) {
    entry.values != [] && forall raw | raw in entry.values :: normalize(entry.kind, raw).Some?
  }

  ghost predicate ValidMatch(device: Device, normalize: Normalizer) {
    forall entry | entry in device.identifiers :: ValidValues(entry, normalize)
  }

  ghost predicate ValidDevice(device: Device, normalize: Normalizer) {
    ValidId(device.id) && device.identifiers != [] && device.valid && ValidMatch(device, normalize)
  }

  /** Devices are told apart by identifier, ignoring case, and no hardware
      identifier is listed by two of them. */
  ghost predicate ToldApart(devices: seq<Device>, normalize: Normalizer) {
    (forall d | d in devices :: ValidDevice(d, normalize)) &&
    forall i, j | 0 <= i < j < |devices| ::
      Fold(devices[i].id) != Fold(devices[j].id) && Listed(devices[i], normalize) !! Listed(devices[j], normalize)
  }

  ghost predicate DistinctNames(devices: seq<Device>, fallback: Assignment) {
    forall i, j | 0 <= i < j < |devices| ::
      NameOf(devices[i], fallback) == ANY_NAME || NameOf(devices[j], fallback) == ANY_NAME ||
      Fold(NameOf(devices[i], fallback)) != Fold(NameOf(devices[j], fallback))
  }

  ghost predicate Acceptable(devices: seq<Device>, fallback: Assignment, requireKnown: bool, normalize: Normalizer) {
    ToldApart(devices, normalize) && DistinctNames(devices, fallback) &&
    (requireKnown || fallback.computerName == ANY_NAME)
  }

  /** The indexes agree with the device list. */
  ghost predicate Indexed(devices: seq<Device>, indexes: Indexes, normalize: Normalizer) {
    (forall d, kind, value | d in devices && (kind, value) in Listed(d, normalize) ::
       indexes.Owner(kind, value) == Some(d.id)) &&
    (forall kind, value | indexes.Owner(kind, value).Some? ::
       exists d | d in devices :: (kind, value) in Listed(d, normalize))
  }

  function AssignmentMap(devices: seq<Device>, fallback: Assignment): map<string, Assignment> {
    if devices == [] then map[]
    else
      var last := devices[|devices| - 1];
      AssignmentMap(devices[..|devices| - 1], fallback)[last.id := AssignmentOf(last, fallback)]
  }

  // ---------- reading the configuration ----------

  /** `after` is `before` with `claimed` given to the device `id`; none of it
      was owned. */
  ghost predicate Claims(before: Indexes, after: Indexes, claimed: set<(IdKind, string)>, id: string) {
    forall kind, value ::
      after.Owner(kind, value) ==
        (if (kind, value) in claimed then Some(id) else before.Owner(kind, value)) &&
      ((kind, value) in claimed ==> before.Owner(kind, value).None?)
  }

  ghost predicate OthersOnly(indexes: Indexes, id: string) {
    forall kind, value :: indexes.Owner(kind, value) != Some(id) && indexes.Owner(kind, value) != Some("")
  }

  function ListedIn(entry: MatchEntry, n: nat, normalize: Normalizer): set<(IdKind, string)>
    requires n <= |entry.values|
  {
    set raw | raw in entry.values[..n] && normalize(entry.kind, raw).Some?
      :: (entry.kind, normalize(entry.kind, raw).value)
  }

  lemma ClaimOne(before: Indexes, middle: Indexes, claimed: set<(IdKind, string)>, kind: IdKind, value: string,
                 id: string)
    requires Claims(before, middle, claimed, id) && OthersOnly(before, id)
    requires var owner := middle.Owner(kind, value); owner.None? || owner.value == "" || owner.value == id
    ensures Claims(before, middle.With(kind, value, id), claimed + {(kind, value)}, id)
  {
    assert middle.Owner(kind, value) == if (kind, value) in claimed then Some(id) else before.Owner(kind, value);
    assert before.Owner(kind, value) != Some(id) && before.Owner(kind, value) != Some("");
    assert before.Owner(kind, value).None? by {
      if (kind, value) in claimed { assert before.Owner(kind, value).None?; }
    }
  }

  /** Claims one entry's identifiers on top of those claimed so far. */
  method IndexEntry(entry: MatchEntry, id: string, ghost before: Indexes, ghost claimed: set<(IdKind, string)>,
                    start: Indexes, normalize: Normalizer)
    returns (ok: bool, indexes: Indexes)
    requires Claims(before, start, claimed, id) && OthersOnly(before, id)
    ensures ok ==> ValidValues(entry, normalize) &&
                   Claims(before, indexes, claimed + ListedIn(entry, |entry.values|, normalize), id)
    ensures !ok ==> !ValidValues(entry, normalize) ||
                    exists pair | pair in ListedIn(entry, |entry.values|, normalize) ::
                      before.Owner(pair.0, pair.1).Some?
  {
    indexes := start;
    if entry.values == [] { return false, start; }
    for j := 0 to |entry.values|
      invariant forall raw | raw in entry.values[..j] :: normalize(entry.kind, raw).Some?
      invariant Claims(before, indexes, claimed + ListedIn(entry, j, normalize), id)
    {
      var raw := entry.values[j];
      assert raw in entry.values && entry.values[..|entry.values|] == entry.values;
      var normalized := normalize(entry.kind, raw);
      if normalized.None? { return false, start; }
      var pair := (entry.kind, normalized.value);
      assert pair in ListedIn(entry, |entry.values|, normalize);
      var owner := indexes.Owner(pair.0, pair.1);
      if owner.Some? && owner.value != "" && owner.value != id {
        assert before.Owner(pair.0, pair.1).Some?;
        return false, start;
      }
      ClaimOne(before, indexes, claimed + ListedIn(entry, j, normalize), pair.0, pair.1, id);
      indexes := indexes.With(pair.0, pair.1, id);
      assert entry.values[..j + 1] == entry.values[..j] + [raw];
      assert claimed + ListedIn(entry, j + 1, normalize) == claimed + ListedIn(entry, j, normalize) + {pair};
    }
    assert entry.values[..|entry.values|] == entry.values;
    return true, indexes;
  }

  function ListedUpTo(device: Device, n: nat, normalize: Normalizer): set<(IdKind, string)>
    requires n <= |device.identifiers|
  {
    set entry, raw | entry in device.identifiers[..n] && raw in entry.values && normalize(entry.kind, raw).Some?
      :: (entry.kind, normalize(entry.kind, raw).value)
  }

  method IndexDevice(device: Device, before: Indexes, normalize: Normalizer) returns (ok: bool, indexes: Indexes)
    requires OthersOnly(before, device.id)
    ensures ok ==> ValidMatch(device, normalize) && Claims(before, indexes, Listed(device, normalize), device.id)
    ensures !ok ==> !ValidMatch(device, normalize) ||
                    exists pair | pair in Listed(device, normalize) :: before.Owner(pair.0, pair.1).Some?
  {
    indexes := before;
    for i := 0 to |device.identifiers|
      invariant forall entry | entry in device.identifiers[..i] :: ValidValues(entry, normalize)
      invariant Claims(before, indexes, ListedUpTo(device, i, normalize), device.id)
    {
      var entry := device.identifiers[i];
      assert entry in device.identifiers && entry.values[..|entry.values|] == entry.values;
      assert device.identifiers[..i + 1] == device.identifiers[..i] + [entry];
      ghost var more := ListedIn(entry, |entry.values|, normalize);
      assert more <= Listed(device, normalize);
      ok, indexes := IndexEntry(entry, device.id, before, ListedUpTo(device, i, normalize), indexes, normalize);
      if !ok { return false, before; }
      assert ListedUpTo(device, i + 1, normalize) == ListedUpTo(device, i, normalize) + more;
    }
    assert device.identifiers[..|device.identifiers|] == device.identifiers;
    assert ListedUpTo(device, |device.identifiers|, normalize) == Listed(device, normalize);
    return true, indexes;
  }

  /** No two devices resolve to the same fixed computer name. */
  method CheckNames(devices: seq<Device>, fallback: Assignment) returns (distinct: bool)
    ensures distinct <==> DistinctNames(devices, fallback)
  {
    var fixedNames: set<string> := {};
    for i := 0 to |devices|
      invariant DistinctNames(devices[..i], fallback)
      invariant fixedNames == set d | d in devices[..i] && NameOf(d, fallback) != ANY_NAME :: Fold(NameOf(d, fallback))
    {
      var name := NameOf(devices[i], fallback);
      assert devices[..i + 1] == devices[..i] + [devices[i]];
      if name != ANY_NAME {
        if Fold(name) in fixedNames {
          var j :| 0 <= j < i && NameOf(devices[j], fallback) != ANY_NAME &&
                   Fold(NameOf(devices[j], fallback)) == Fold(name);
          return false;
        }
        fixedNames := fixedNames + {Fold(name)};
      }
    }
    assert devices[..|devices|] == devices;
    return true;
  }

  /** Accepts exactly the acceptable inventories; the indexes of an accepted
      one agree with its device list. */
  method ParseConfig(devices: seq<Device>, fallback: Assignment, requireKnown: bool, normalize: Normalizer)
    returns (config: Option<Config>)
    ensures config.Some? <==> Acceptable(devices, fallback, requireKnown, normalize)
    ensures config.Some? ==>
              Indexed(devices, config.value.indexes, normalize) &&
              config.value.assignments == AssignmentMap(devices, fallback) &&
              config.value.fallback == fallback && config.value.requireKnown == requireKnown
  {
    var assignments: map<string, Assignment> := map[];
    var assignmentIds: set<string> := {};
    var indexes := Indexes(map[], map[], map[]);
    for i := 0 to |devices|
      invariant ToldApart(devices[..i], normalize) && Indexed(devices[..i], indexes, normalize)
      invariant assignments == AssignmentMap(devices[..i], fallback)
      invariant assignmentIds == set d | d in devices[..i] :: Fold(d.id)
    {
      var device := devices[i];
      assert device in devices;
      var folded := Fold(device.id);
      if !ValidId(device.id) { return None; }
      if folded in assignmentIds {
        SameIdRefused(devices, i, normalize);
        return None;
      }
      assignmentIds := assignmentIds + {folded};
      if device.identifiers == [] { return None; }
      if !device.valid { return None; }
      assignments := assignments[device.id := AssignmentOf(device, fallback)];
      OwnersAreOthers(devices[..i], indexes, normalize, device.id);
      ghost var before := indexes;
      var ok: bool;
      ok, indexes := IndexDevice(device, indexes, normalize);
      if !ok {
        if ValidMatch(device, normalize) { SharedIdRefused(devices, i, before, normalize); }
        return None;
      }
      AddedDevice(devices[..i], device, before, indexes, normalize);
      assert devices[..i + 1] == devices[..i] + [device];
    }
    assert devices[..|devices|] == devices;
    var distinct := CheckNames(devices, fallback);
    if !distinct { return None; }
    if !requireKnown && fallback.computerName != ANY_NAME { return None; }
    return Some(Config(requireKnown, fallback, assignments, indexes));
  }

  lemma SameIdRefused(devices: seq<Device>, i: nat, normalize: Normalizer)
    requires i < |devices| && exists d | d in devices[..i] :: Fold(d.id) == Fold(devices[i].id)
    ensures !ToldApart(devices, normalize)
  {
    var d :| d in devices[..i] && Fold(d.id) == Fold(devices[i].id);
    var j :| 0 <= j < i && devices[j] == d;
  }

  lemma OwnersAreOthers(devices: seq<Device>, indexes: Indexes, normalize: Normalizer, id: string)
    requires ToldApart(devices, normalize) && Indexed(devices, indexes, normalize)
    requires forall d | d in devices :: Fold(d.id) != Fold(id)
    ensures OthersOnly(indexes, id)
  {
    forall kind, value ensures indexes.Owner(kind, value) != Some(id) && indexes.Owner(kind, value) != Some("") {
      if indexes.Owner(kind, value).Some? {
        var d :| d in devices && (kind, value) in Listed(d, normalize);
        assert ValidDevice(d, normalize);
      }
    }
  }

  lemma SharedIdRefused(devices: seq<Device>, i: nat, indexes: Indexes, normalize: Normalizer)
    requires i < |devices| && Indexed(devices[..i], indexes, normalize)
    requires exists pair | pair in Listed(devices[i], normalize) :: indexes.Owner(pair.0, pair.1).Some?
    ensures !ToldApart(devices, normalize)
  {
    var pair :| pair in Listed(devices[i], normalize) && indexes.Owner(pair.0, pair.1).Some?;
    var d :| d in devices[..i] && (pair.0, pair.1) in Listed(d, normalize);
    var j :| 0 <= j < i && devices[j] == d;
  }

  lemma AddedDevice(devices: seq<Device>, device: Device, before: Indexes, after: Indexes, normalize: Normalizer)
    requires ToldApart(devices, normalize) && Indexed(devices, before, normalize) && ValidDevice(device, normalize)
    requires forall d | d in devices :: Fold(d.id) != Fold(device.id)
    requires Claims(before, after, Listed(device, normalize), device.id)
    ensures ToldApart(devices + [device], normalize) && Indexed(devices + [device], after, normalize)
  {
    var all := devices + [device];
    forall d | d in devices ensures Listed(d, normalize) !! Listed(device, normalize) {
      forall pair | pair in Listed(d, normalize) ensures pair !in Listed(device, normalize) {
        assert before.Owner(pair.0, pair.1) == Some(d.id);
      }
    }
    forall i, j | 0 <= i < j < |all|
      ensures Fold(all[i].id) != Fold(all[j].id) && Listed(all[i], normalize) !! Listed(all[j], normalize)
    {
      if j == |devices| { assert all[i] in devices; }
    }
    forall d, kind, value | d in all && (kind, value) in Listed(d, normalize)
      ensures after.Owner(kind, value) == Some(d.id)
    {
      if d in devices { assert before.Owner(kind, value) == Some(d.id); }
    }
    forall kind, value | after.Owner(kind, value).Some?
      ensures exists d | d in all :: (kind, value) in Listed(d, normalize)
    {
      if (kind, value) in Listed(device, normalize) {
        assert device in all;
      } else {
        var d :| d in devices && (kind, value) in Listed(d, normalize);
        assert d in all;
      }
    }
  }

  // ---------- resolving a request ----------

  /** The hardware identifiers a request supplies, already normalised. */
  datatype Identity = Identity(uuid: Option<string>, serial: Option<string>, macs: seq<string>)

  datatype Outcome = Assigned(assignment: Assignment) | Ambiguous | Unknown

  function Supplied(identity: Identity): set<(IdKind, string)> {
    (if identity.uuid.Some? && identity.uuid.value != "" then {(Uuid, identity.uuid.value)} else {}) +
    (if identity.serial.Some? && identity.serial.value != "" then {(Serial, identity.serial.value)} else {}) +
    (set address | address in identity.macs :: (Mac, address))
  }

  predicate Claimed(device: Device, identity: Identity, normalize: Normalizer) {
    Supplied(identity) * Listed(device, normalize) != {}
  }

  function Claimants(devices: seq<Device>, identity: Identity, normalize: Normalizer): seq<Device> {
    if devices == [] then []
    else
      var front := Claimants(devices[..|devices| - 1], identity, normalize);
      if Claimed(devices[|devices| - 1], identity, normalize) then front + [devices[|devices| - 1]] else front
  }

  /** The device list scanned from end to end, without any index. */
  function Scan(devices: seq<Device>, fallback: Assignment, requireKnown: bool, identity: Identity,
                normalize: Normalizer): Outcome
  {
    var claimants := Claimants(devices, identity, normalize);
    if |claimants| > 1 then Ambiguous
    else if claimants == [] then if requireKnown then Unknown else Assigned(fallback)
    else Assigned(AssignmentOf(claimants[0], fallback))
  }

  function IdsOf(devices: seq<Device>): set<string> {
    set d | d in devices :: d.id
  }

  /** The device names the three indexes give for the supplied identifiers. */
  method CollectMatches(indexes: Indexes, identity: Identity) returns (matches: set<string>)
    ensures matches == OwnersOf(Supplied(identity), indexes)
  {
    matches := {};
    if identity.uuid.Some? && identity.uuid.value != "" && identity.uuid.value in indexes.uuid {
      matches := matches + {indexes.uuid[identity.uuid.value]};
    }
    if identity.serial.Some? && identity.serial.value != "" && identity.serial.value in indexes.serial {
      matches := matches + {indexes.serial[identity.serial.value]};
    }
    ghost var first := matches;
    for i := 0 to |identity.macs|
      invariant matches ==
                first + set address | address in identity.macs[..i] && address in indexes.mac :: indexes.mac[address]
    {
      var address := identity.macs[i];
      assert identity.macs[..i + 1] == identity.macs[..i] + [address];
      if address in indexes.mac { matches := matches + {indexes.mac[address]}; }
    }
    assert identity.macs[..|identity.macs|] == identity.macs;
    OwnersOfSupplied(identity, indexes, matches);
  }

  method Resolve(config: Config, identity: Identity, ghost devices: seq<Device>, ghost normalize: Normalizer)
    returns (outcome: Outcome)
    requires Acceptable(devices, config.fallback, config.requireKnown, normalize)
    requires Indexed(devices, config.indexes, normalize)
    requires config.assignments == AssignmentMap(devices, config.fallback)
    ensures outcome == Scan(devices, config.fallback, config.requireKnown, identity, normalize)
  {
    var matches := CollectMatches(config.indexes, identity);
    MatchesAreClaimants(devices, config.indexes, identity, normalize);
    ClaimantsApart(devices, identity, normalize);
    ghost var claimants := Claimants(devices, identity, normalize);
    assert matches == IdsOf(claimants) && |matches| == |claimants|;
    if |matches| > 1 { return Ambiguous; }
    if matches == {} {
      if config.requireKnown { return Unknown; }
      return Assigned(config.fallback);
    }
    OneClaimant(devices, config.fallback, identity, normalize);
    var id :| id in matches;
    return Assigned(config.assignments[id]);
  }

  lemma OneClaimant(devices: seq<Device>, fallback: Assignment, identity: Identity, normalize: Normalizer)
    requires ToldApart(devices, normalize) && |Claimants(devices, identity, normalize)| == 1
    ensures var claimant := Claimants(devices, identity, normalize)[0];
            IdsOf(Claimants(devices, identity, normalize)) == {claimant.id} &&
            claimant.id in AssignmentMap(devices, fallback) &&
            AssignmentMap(devices, fallback)[claimant.id] == AssignmentOf(claimant, fallback)
  {
    var claimants := Claimants(devices, identity, normalize);
    ClaimantsAre(devices, identity, normalize);
    assert claimants == [claimants[0]];
    assert claimants[0] in claimants;
    AssignmentFound(devices, fallback, claimants[0], normalize);
  }

  function OwnersOf(supplied: set<(IdKind, string)>, indexes: Indexes): set<string> {
    set pair | pair in supplied && indexes.Owner(pair.0, pair.1).Some? :: indexes.Owner(pair.0, pair.1).value
  }

  lemma OwnersOfSupplied(identity: Identity, indexes: Indexes, matches: set<string>)
    requires matches ==
             (if identity.uuid.Some? && identity.uuid.value != "" && identity.uuid.value in indexes.uuid
              then {indexes.uuid[identity.uuid.value]} else {}) +
             (if identity.serial.Some? && identity.serial.value != "" && identity.serial.value in indexes.serial
              then {indexes.serial[identity.serial.value]} else {}) +
             (set address | address in identity.macs && address in indexes.mac :: indexes.mac[address])
    ensures matches == OwnersOf(Supplied(identity), indexes)
  {
    forall id | id in matches ensures id in OwnersOf(Supplied(identity), indexes) {
      if identity.uuid.Some? && identity.uuid.value != "" && identity.uuid.value in indexes.uuid &&
         id == indexes.uuid[identity.uuid.value]
      {
        assert (Uuid, identity.uuid.value) in Supplied(identity);
        assert indexes.Owner(Uuid, identity.uuid.value) == Some(id);
      } else if identity.serial.Some? && identity.serial.value != "" && identity.serial.value in indexes.serial &&
                id == indexes.serial[identity.serial.value]
      {
        assert (Serial, identity.serial.value) in Supplied(identity);
        assert indexes.Owner(Serial, identity.serial.value) == Some(id);
      } else {
        var address :| address in identity.macs && address in indexes.mac && indexes.mac[address] == id;
        assert (Mac, address) in Supplied(identity);
        assert indexes.Owner(Mac, address) == Some(id);
      }
    }
  }

  lemma {:induction false} ClaimantsAre(devices: seq<Device>, identity: Identity, normalize: Normalizer)
    ensures forall d ::
              d in Claimants(devices, identity, normalize) <==> d in devices && Claimed(d, identity, normalize)
  {
    if devices != [] {
      var front := devices[..|devices| - 1];
      ClaimantsAre(front, identity, normalize);
      assert devices == front + [devices[|devices| - 1]];
    }
  }

  lemma MatchesAreClaimants(devices: seq<Device>, indexes: Indexes, identity: Identity, normalize: Normalizer)
    requires Indexed(devices, indexes, normalize)
    ensures OwnersOf(Supplied(identity), indexes) == IdsOf(Claimants(devices, identity, normalize))
  {
    ClaimantsAre(devices, identity, normalize);
    forall id | id in OwnersOf(Supplied(identity), indexes)
      ensures id in IdsOf(Claimants(devices, identity, normalize))
    {
      var pair :| pair in Supplied(identity) && indexes.Owner(pair.0, pair.1) == Some(id);
      var d :| d in devices && (pair.0, pair.1) in Listed(d, normalize);
      assert pair in Supplied(identity) * Listed(d, normalize);
    }
    forall d | d in devices && Claimed(d, identity, normalize) ensures d.id in OwnersOf(Supplied(identity), indexes) {
      var pair :| pair in Supplied(identity) * Listed(d, normalize);
      assert indexes.Owner(pair.0, pair.1) == Some(d.id);
    }
  }

  ghost predicate DistinctIds(devices: seq<Device>) {
    forall i, j | 0 <= i < j < |devices| :: devices[i].id != devices[j].id
  }

  lemma {:induction false} IdsCount(devices: seq<Device>)
    requires DistinctIds(devices)
    ensures |IdsOf(devices)| == |devices|
  {
    if devices != [] {
      var front, last := devices[..|devices| - 1], devices[|devices| - 1];
      IdsCount(front);
      assert devices == front + [last];
      assert IdsOf(devices) == IdsOf(front) + {last.id};
      assert last.id !in IdsOf(front);
    }
  }

  lemma {:induction false} ClaimantsDistinct(devices: seq<Device>, identity: Identity, normalize: Normalizer)
    requires DistinctIds(devices)
    ensures DistinctIds(Claimants(devices, identity, normalize))
  {
    if devices != [] {
      var front, last := devices[..|devices| - 1], devices[|devices| - 1];
      ClaimantsDistinct(front, identity, normalize);
      ClaimantsAre(front, identity, normalize);
      var claimants := Claimants(front, identity, normalize);
      forall k | 0 <= k < |claimants| ensures claimants[k].id != last.id {
        assert claimants[k] in claimants;
        var i :| 0 <= i < |front| && front[i] == claimants[k];
        assert devices[i].id != devices[|devices| - 1].id;
      }
    }
  }

  lemma ClaimantsApart(devices: seq<Device>, identity: Identity, normalize: Normalizer)
    requires ToldApart(devices, normalize)
    ensures var claimants := Claimants(devices, identity, normalize); |IdsOf(claimants)| == |claimants|
  {
    forall i, j | 0 <= i < j < |devices| ensures devices[i].id != devices[j].id {
      assert Fold(devices[i].id) != Fold(devices[j].id);
    }
    ClaimantsDistinct(devices, identity, normalize);
    IdsCount(Claimants(devices, identity, normalize));
  }

  lemma {:induction false} AssignmentFound(devices: seq<Device>, fallback: Assignment, device: Device,
                                           normalize: Normalizer)
    requires ToldApart(devices, normalize) && device in devices
    ensures device.id in AssignmentMap(devices, fallback)
    ensures AssignmentMap(devices, fallback)[device.id] == AssignmentOf(device, fallback)
  {
    var n := |devices| - 1;
    var front, last := devices[..n], devices[n];
    if device != last {
      var i :| 0 <= i < |devices| && devices[i] == device;
      assert front[i] == device;
      assert Fold(devices[i].id) != Fold(last.id);
      AssignmentFound(front, fallback, device, normalize);
    }
  }

  /** Two requests that are given the same fixed computer name, ignoring case,
      are the same device. */
  lemma FixedNameIsOneDevice(devices: seq<Device>, fallback: Assignment, requireKnown: bool, one: Identity,
                             two: Identity, normalize: Normalizer)
    requires Acceptable(devices, fallback, requireKnown, normalize)
    requires Scan(devices, fallback, requireKnown, one, normalize).Assigned?
    requires Scan(devices, fallback, requireKnown, two, normalize).Assigned?
    requires var first := Scan(devices, fallback, requireKnown, one, normalize).assignment;
             var second := Scan(devices, fallback, requireKnown, two, normalize).assignment;
             first.computerName != ANY_NAME && Fold(first.computerName) == Fold(second.computerName)
    ensures Scan(devices, fallback, requireKnown, one, normalize) ==
            Scan(devices, fallback, requireKnown, two, normalize)
    ensures exists d | d in devices ::
              Claimed(d, one, normalize) && Claimed(d, two, normalize) &&
              Scan(devices, fallback, requireKnown, one, normalize) == Assigned(AssignmentOf(d, fallback))
  {
    ClaimantsAre(devices, one, normalize);
    ClaimantsAre(devices, two, normalize);
    var firsts, seconds := Claimants(devices, one, normalize), Claimants(devices, two, normalize);
    FoldStar(Scan(devices, fallback, requireKnown, one, normalize).assignment.computerName);
    assert firsts != [] && seconds != [];
    var a, b := firsts[0], seconds[0];
    assert a in devices && b in devices;
    var i :| 0 <= i < |devices| && devices[i] == a;
    var j :| 0 <= j < |devices| && devices[j] == b;
    FoldStar(NameOf(b, fallback));
  }

  /** Only the star folds to the star. */
  lemma FoldStar(name: string)
    ensures Fold(name) == Fold(ANY_NAME) <==> name == ANY_NAME
  {
    if Fold(name) == Fold(ANY_NAME) {
      assert |name| == 1;
      assert Fold(name)[0] == Fold(ANY_NAME)[0] == '*';
      assert name == [name[0]];
    }
  }

  // ---------- the lookup, told from the devices ----------

  /** The device lists a raw identifier that is read as one the request supplies. */
  ghost predicate Lists(device: Device, identity: Identity, normalize: Normalizer) {
    exists entry, raw | entry in device.identifiers && raw in entry.values ::
      normalize(entry.kind, raw).Some? && Supplies(identity, entry.kind, normalize(entry.kind, raw).value)
  }

  predicate Supplies(identity: Identity, kind: IdKind, value: string) {
    match kind
    case Uuid => identity.uuid == Some(value) && value != ""
    case Serial => identity.serial == Some(value) && value != ""
    case Mac => value in identity.macs
  }

  lemma ListsExact(device: Device, identity: Identity, normalize: Normalizer)
    ensures Claimed(device, identity, normalize) <==> Lists(device, identity, normalize)
  {
    forall kind, value ensures (kind, value) in Supplied(identity) <==> Supplies(identity, kind, value) {}
    if Claimed(device, identity, normalize) {
      var pair :| pair in Supplied(identity) * Listed(device, normalize);
      var entry, raw :| entry in device.identifiers && raw in entry.values && normalize(entry.kind, raw).Some? &&
                        pair == (entry.kind, normalize(entry.kind, raw).value);
      assert Supplies(identity, pair.0, pair.1);
    }
    if Lists(device, identity, normalize) {
      var entry, raw :| entry in device.identifiers && raw in entry.values && normalize(entry.kind, raw).Some? &&
                        Supplies(identity, entry.kind, normalize(entry.kind, raw).value);
      assert (entry.kind, normalize(entry.kind, raw).value) in Supplied(identity) * Listed(device, normalize);
    }
  }

  /** What a device's assignment holds: its identifier, its own name or the
      default one, and its own payload. */
  predicate IsAssignmentOf(assignment: Assignment, device: Device, fallback: Assignment) {
    assignment.id == device.id && assignment.payload == device.payload &&
    assignment.computerName == if device.computerName == None then fallback.computerName else device.computerName.value
  }

  /** A request is ambiguous exactly when two devices list something it supplies;
      it is given a device's assignment when that alone does; and when none does
      it is unknown or given the default, as the configuration asks. */
  lemma ScanExact(devices: seq<Device>, fallback: Assignment, requireKnown: bool, identity: Identity,
                  normalize: Normalizer)
    ensures var outcome := Scan(devices, fallback, requireKnown, identity, normalize);
            (outcome == Ambiguous <==>
               exists i, j :: 0 <= i < j < |devices| && Lists(devices[i], identity, normalize) &&
                              Lists(devices[j], identity, normalize)) &&
            (outcome != Ambiguous && (exists d | d in devices :: Lists(d, identity, normalize)) ==>
               outcome.Assigned? && exists d | d in devices ::
                 Lists(d, identity, normalize) && IsAssignmentOf(outcome.assignment, d, fallback)) &&
            ((forall d | d in devices :: !Lists(d, identity, normalize)) ==>
               outcome == if requireKnown then Unknown else Assigned(fallback))
  {
    forall d { ListsExact(d, identity, normalize); }
    ClaimantsAre(devices, identity, normalize);
    CountClaimants(devices, identity, normalize);
    var claimants := Claimants(devices, identity, normalize);
    if claimants != [] { assert claimants[0] in claimants; }
    if d :| d in devices && Lists(d, identity, normalize) { assert d in claimants; }
  }

  ghost predicate TwoClaim(devices: seq<Device>, identity: Identity, normalize: Normalizer) {
    exists i, j :: 0 <= i < j < |devices| && Claimed(devices[i], identity, normalize) &&
                   Claimed(devices[j], identity, normalize)
  }

  lemma TwoClaimAppend(devices: seq<Device>, last: Device, identity: Identity, normalize: Normalizer)
    ensures TwoClaim(devices + [last], identity, normalize) <==>
            TwoClaim(devices, identity, normalize) ||
            (Claimed(last, identity, normalize) && exists d | d in devices :: Claimed(d, identity, normalize))
  {
    var all := devices + [last];
    if i, j :| 0 <= i < j < |all| && Claimed(all[i], identity, normalize) && Claimed(all[j], identity, normalize) {
      assert all[i] == devices[i] && devices[i] in devices;
      if j < |devices| { assert all[j] == devices[j]; }
    }
    if i, j :| 0 <= i < j < |devices| && Claimed(devices[i], identity, normalize) &&
               Claimed(devices[j], identity, normalize)
    {
      assert all[i] == devices[i] && all[j] == devices[j];
    }
    if Claimed(last, identity, normalize) {
      if d :| d in devices && Claimed(d, identity, normalize) {
        var i :| 0 <= i < |devices| && devices[i] == d;
        assert all[i] == d && all[|devices|] == last;
      }
    }
  }

  lemma {:induction false} CountClaimants(devices: seq<Device>, identity: Identity, normalize: Normalizer)
    ensures |Claimants(devices, identity, normalize)| > 1 <==> TwoClaim(devices, identity, normalize)
  {
    if devices != [] {
      var front, last := devices[..|devices| - 1], devices[|devices| - 1];
      assert devices == front + [last];
      CountClaimants(front, identity, normalize);
      TwoClaimAppend(front, last, identity, normalize);
      ClaimantsAre(front, identity, normalize);
      var claimants := Claimants(front, identity, normalize);
      if claimants != [] { assert claimants[0] in claimants; }
    }
  }

  /** Every device of an accepted inventory is found by any one identifier it
      lists, and there is one. */
  lemma EveryDeviceIsFound(devices: seq<Device>, fallback: Assignment, requireKnown: bool, normalize: Normalizer,
                           device: Device)
    requires Acceptable(devices, fallback, requireKnown, normalize) && device in devices
    ensures exists entry, raw :: entry in device.identifiers && raw in entry.values
    ensures forall entry, raw, identity |
              entry in device.identifiers && raw in entry.values && normalize(entry.kind, raw).Some? &&
              OnlySupplies(identity, entry.kind, normalize(entry.kind, raw).value) ::
              var outcome := Scan(devices, fallback, requireKnown, identity, normalize);
              outcome.Assigned? && IsAssignmentOf(outcome.assignment, device, fallback)
  {
    var k :| 0 <= k < |devices| && devices[k] == device;
    assert ValidDevice(device, normalize);
    var first := device.identifiers[0];
    assert first in device.identifiers && ValidValues(first, normalize) && first.values[0] in first.values;
    forall entry, raw, identity | entry in device.identifiers && raw in entry.values &&
      normalize(entry.kind, raw).Some? && OnlySupplies(identity, entry.kind, normalize(entry.kind, raw).value)
      ensures Scan(devices, fallback, requireKnown, identity, normalize).Assigned?
      ensures IsAssignmentOf(Scan(devices, fallback, requireKnown, identity, normalize).assignment, device, fallback)
    {
      OneOwner(devices, normalize, k, entry.kind, normalize(entry.kind, raw).value, identity);
      ScanExact(devices, fallback, requireKnown, identity, normalize);
    }
  }

  predicate OnlySupplies(identity: Identity, kind: IdKind, value: string) {
    identity == (match kind
                 case Uuid => Identity(Some(value), None, [])
                 case Serial => Identity(None, Some(value), [])
                 case Mac => Identity(None, None, [value])) && (kind.Mac? || value != "")
  }

  lemma OneOwner(devices: seq<Device>, normalize: Normalizer, k: nat, kind: IdKind, value: string, identity: Identity)
    requires ToldApart(devices, normalize) && k < |devices| && (kind, value) in Listed(devices[k], normalize)
    requires OnlySupplies(identity, kind, value)
    ensures forall i | 0 <= i < |devices| :: Lists(devices[i], identity, normalize) <==> i == k
  {
    assert Supplied(identity) == {(kind, value)};
    forall i | 0 <= i < |devices| ensures Lists(devices[i], identity, normalize) <==> i == k {
      ListsExact(devices[i], identity, normalize);
      if i == k {
        assert (kind, value) in Supplied(identity) * Listed(devices[i], normalize);
      }
    }
  }

  /** What an accepted inventory makes sure of in every device. */
  lemma AcceptedDevice(devices: seq<Device>, fallback: Assignment, requireKnown: bool, normalize: Normalizer, i: nat)
    requires Acceptable(devices, fallback, requireKnown, normalize) && i < |devices|
    ensures var d := devices[i];
            1 <= |d.id| <= 64 && IsAlnum(d.id[0]) &&
            (forall c | c in d.id :: IsAlnum(c) || c == '.' || c == '_' || c == '-') && d.valid &&
            d.identifiers != [] &&
            (forall entry | entry in d.identifiers ::
               entry.values != [] && forall raw | raw in entry.values :: normalize(entry.kind, raw).Some?) &&
            (forall j | 0 <= j < i :: Fold(devices[j].id) != Fold(d.id)) &&
            (requireKnown || fallback.computerName == "*")
  {
    assert ValidDevice(devices[i], normalize);
    forall entry | entry in devices[i].identifiers ensures ValidValues(entry, normalize) {}
  }
}
