/** Per-device settings written into an answer-file profile. */
module SettingPatches {
  import opened Json

  /** A text entry of a JSON object: missing, of another type, or given. */
  datatype Field = Missing | Misfit | Given(text: string)

  /** The attributes of a path segment: missing or null, not an object, or an
      object, whose values need not be text. */
  datatype Attributes = NoAttributes | Misshapen | Listed(entries: map<string, Option<string>>)

  /** One name on a setting's path. */
  datatype Segment = Segment(name: Option<string>, attributes: Attributes)

  /** An entry of the profile's settings list; `Other` is not an object.  Texts
      that must be there are empty when they are not. */
  datatype Setting =
    | Other
    | Setting(setupPass: string, component: string, architecture: Field, publicKeyToken: Field, language: Field,
              versionScope: Field, path: Option<seq<Segment>>, value: string)

  datatype Key =
    | RegisteredOwner | RegisteredOrganization | TimeZone | InputLocale | SystemLocale | UiLanguage | UserLocale
    | DynamicUpdate | HideEulaPage | HideWirelessSetupInOobe | ProtectYourPc

  datatype Spec = Spec(setupPass: string, component: string, path: seq<string>)

  const SHELL_SETUP := "Microsoft-Windows-Shell-Setup"
  const INTERNATIONAL := "Microsoft-Windows-International-Core-WinPE"
  const WINDOWS_SETUP := "Microsoft-Windows-Setup"

  function SpecOf(key: Key): Spec {
    match key
    case RegisteredOwner => Spec("specialize", SHELL_SETUP, ["RegisteredOwner"])
    case RegisteredOrganization => Spec("specialize", SHELL_SETUP, ["RegisteredOrganization"])
    case TimeZone => Spec("specialize", SHELL_SETUP, ["TimeZone"])
    case InputLocale => Spec("windowsPE", INTERNATIONAL, ["InputLocale"])
    case SystemLocale => Spec("windowsPE", INTERNATIONAL, ["SystemLocale"])
    case UiLanguage => Spec("windowsPE", INTERNATIONAL, ["UILanguage"])
    case UserLocale => Spec("windowsPE", INTERNATIONAL, ["UserLocale"])
    case DynamicUpdate => Spec("windowsPE", WINDOWS_SETUP, ["DynamicUpdate", "Enable"])
    case HideEulaPage => Spec("oobeSystem", SHELL_SETUP, ["OOBE", "HideEULAPage"])
    case HideWirelessSetupInOobe => Spec("oobeSystem", SHELL_SETUP, ["OOBE", "HideWirelessSetupInOOBE"])
    case ProtectYourPc => Spec("oobeSystem", SHELL_SETUP, ["OOBE", "ProtectYourPC"])
  }

  /** One assigned setting. */
  datatype Patch = Patch(key: Key, value: string)

  /** The keys by pass and component, and the names of their places. */
  lemma SpecTable(key: Key)
    ensures var spec := SpecOf(key);
            match (spec.setupPass, spec.component)
            case ("specialize", "Microsoft-Windows-Shell-Setup") =>
              key in {RegisteredOwner, RegisteredOrganization, TimeZone}
            case ("windowsPE", "Microsoft-Windows-International-Core-WinPE") =>
              key in {InputLocale, SystemLocale, UiLanguage, UserLocale}
            case ("windowsPE", "Microsoft-Windows-Setup") => key == DynamicUpdate
            case ("oobeSystem", "Microsoft-Windows-Shell-Setup") =>
              key in {HideEulaPage, HideWirelessSetupInOobe, ProtectYourPc}
            case _ => false
    ensures match SpecOf(key).path[|SpecOf(key).path| - 1]
            case "RegisteredOwner" => key == RegisteredOwner
            case "RegisteredOrganization" => key == RegisteredOrganization
            case "TimeZone" => key == TimeZone
            case "InputLocale" => key == InputLocale
            case "SystemLocale" => key == SystemLocale
            case "UILanguage" => key == UiLanguage
            case "UserLocale" => key == UserLocale
            case "Enable" => key == DynamicUpdate
            case "HideEULAPage" => key == HideEulaPage
            case "HideWirelessSetupInOOBE" => key == HideWirelessSetupInOobe
            case "ProtectYourPC" => key == ProtectYourPc
            case _ => false
    ensures SpecOf(key).path[..|SpecOf(key).path| - 1] ==
            if key == DynamicUpdate then ["DynamicUpdate"]
            else if key in {HideEulaPage, HideWirelessSetupInOobe, ProtectYourPc} then ["OOBE"]
            else []
  {
  }

  // ---------- matching ----------

  /** The setting is at the place the specification names. */
  predicate SameNames(setting: Setting, spec: Spec) {
    setting.Setting? && setting.setupPass == spec.setupPass && setting.component == spec.component &&
    setting.path.Some? && |setting.path.value| == |spec.path| &&
    forall i | 0 <= i < |spec.path| :: setting.path.value[i].name == Some(spec.path[i])
  }

  predicate Plain(segment: Segment) {
    segment.attributes == NoAttributes || segment.attributes == Listed(map[])
  }

  /** ...and none of its names carries attributes. */
  predicate Matches(setting: Setting, spec: Spec) {
    SameNames(setting, spec) && forall i | 0 <= i < |spec.path| :: Plain(setting.path.value[i])
  }

  predicate IsAmd64(setting: Setting) {
    setting.Setting? && (setting.architecture == Missing || setting.architecture == Given("amd64"))
  }

  function Fresh(spec: Spec, value: string): Setting {
    var path := seq(|spec.path|, i requires 0 <= i < |spec.path| => Segment(Some(spec.path[i]), Listed(map[])));
    Setting(spec.setupPass, spec.component, Given("amd64"), Given("31bf3856ad364e35"), Given("neutral"),
            Given("nonSxS"), Some(path), value)
  }

  // ---------- patching ----------

  function Assign(setting: Setting, patch: Patch): Setting {
    if Matches(setting, SpecOf(patch.key)) then setting.(value := patch.value) else setting
  }

  function AssignAll(settings: seq<Setting>, patch: Patch): seq<Setting> {
    seq(|settings|, i requires 0 <= i < |settings| => Assign(settings[i], patch))
  }

  predicate Covered(settings: seq<Setting>, key: Key) {
    exists s | s in settings :: Matches(s, SpecOf(key)) && IsAmd64(s)
  }

  function PatchOne(settings: seq<Setting>, patch: Patch): seq<Setting> {
    AssignAll(settings, patch) + if Covered(settings, patch.key) then [] else [Fresh(SpecOf(patch.key), patch.value)]
  }

  function PatchAll(settings: seq<Setting>, patches: seq<Patch>): seq<Setting> {
    if patches == [] then settings
    else PatchOne(PatchAll(settings, patches[..|patches| - 1]), patches[|patches| - 1])
  }

  class Profile {
    var settings: seq<Setting>

    constructor (settings: seq<Setting>)
      ensures this.settings == settings
    {
      this.settings := settings;
    }

    method ApplySettingPatches(patches: seq<Patch>)
      modifies this
      ensures settings == PatchAll(old(settings), patches)
    {
      for k := 0 to |patches|
        invariant settings == PatchAll(old(settings), patches[..k])
      {
        assert patches[..k + 1][..k] == patches[..k];
        ApplyOne(patches[k]);
      }
      assert patches[..|patches|] == patches;
    }

    method ApplyOne(patch: Patch)
      modifies this
      ensures settings == PatchOne(old(settings), patch)
    {
      var spec := SpecOf(patch.key);
      var existing, covered := false, false;
      ghost var before := settings;
      for i := 0 to |settings|
        invariant |settings| == |before|
        invariant forall j | 0 <= j < |before| :: settings[j] == if j < i then Assign(before[j], patch) else before[j]
        invariant existing <==> exists j | 0 <= j < i :: Matches(before[j], spec)
        invariant covered <==> exists j | 0 <= j < i :: Matches(before[j], spec) && IsAmd64(before[j])
      {
        if Matches(settings[i], spec) {
          existing := true;
          if IsAmd64(settings[i]) { covered := true; }
          settings := settings[i := settings[i].(value := patch.value)];
        }
      }
      assert settings == AssignAll(before, patch);
      if existing && covered {
        assert settings + [] == settings;
        return;
      }
      settings := settings + [Fresh(spec, patch.value)];
    }
  }

  // ---------- what patching establishes ----------

  ghost predicate DistinctKeys(patches: seq<Patch>) {
    forall i, j | 0 <= i < j < |patches| :: patches[i].key != patches[j].key
  }

  /** Every setting matching the key holds the value, and an amd64 one exists. */
  ghost predicate Holds(settings: seq<Setting>, patch: Patch) {
    Covered(settings, patch.key) &&
    forall s | s in settings && Matches(s, SpecOf(patch.key)) :: s.value == patch.value
  }

  function LastName(key: Key): string {
    SpecOf(key).path[|SpecOf(key).path| - 1]
  }

  /** No setting is at two specified places. */
  lemma SpecsApart(setting: Setting, one: Key, two: Key)
    requires SameNames(setting, SpecOf(one)) && SameNames(setting, SpecOf(two))
    ensures one == two
  {
    var n := |setting.path.value|;
    assert setting.path.value[n - 1].name == Some(LastName(one));
    assert setting.path.value[n - 1].name == Some(LastName(two));
    assert |LastName(one)| == |LastName(two)| && LastName(one)[1] == LastName(two)[1];
  }

  lemma FreshMatches(key: Key, value: string)
    ensures Matches(Fresh(SpecOf(key), value), SpecOf(key)) && IsAmd64(Fresh(SpecOf(key), value))
  {
  }

  /** A patch adds its setting exactly when none at the place, without
      attributes, is for amd64 by name or by default. */
  lemma PatchAddsExact(settings: seq<Setting>, patch: Patch)
    ensures var spec, after := SpecOf(patch.key), PatchOne(settings, patch);
            if exists s | s in settings ::
                 s.Setting? && s.setupPass == spec.setupPass && s.component == spec.component && s.path.Some? &&
                 |s.path.value| == |spec.path| &&
                 (forall i | 0 <= i < |spec.path| ::
                    s.path.value[i].name == Some(spec.path[i]) &&
                    s.path.value[i].attributes in {NoAttributes, Listed(map[])}) &&
                 s.architecture in {Missing, Given("amd64")}
            then |after| == |settings|
            else after[|settings|..] == [Fresh(spec, patch.value)]
  {
    assert forall s | s in settings && Matches(s, SpecOf(patch.key)) && IsAmd64(s) ::
        forall i | 0 <= i < |SpecOf(patch.key).path| :: Plain(s.path.value[i]);
  }

  lemma PatchOneHolds(settings: seq<Setting>, patch: Patch)
    ensures Holds(PatchOne(settings, patch), patch)
  {
    var after, spec := PatchOne(settings, patch), SpecOf(patch.key);
    FreshMatches(patch.key, patch.value);
    if Covered(settings, patch.key) {
      var i :| 0 <= i < |settings| && Matches(settings[i], spec) && IsAmd64(settings[i]);
      assert after[i] == Assign(settings[i], patch);
      assert after[i] in after;
    } else {
      assert after[|settings|] in after;
    }
  }

  lemma PatchOneKeepsOther(settings: seq<Setting>, patch: Patch, other: Patch)
    requires Holds(settings, other) && patch.key != other.key
    ensures Holds(PatchOne(settings, patch), other)
  {
    var after, spec := PatchOne(settings, patch), SpecOf(other.key);
    var k :| 0 <= k < |settings| && Matches(settings[k], spec) && IsAmd64(settings[k]);
    assert after[k] == Assign(settings[k], patch);
    assert Matches(after[k], spec) && IsAmd64(after[k]) && after[k] in after;
    forall s | s in after && Matches(s, spec) ensures s.value == other.value {
      var i :| 0 <= i < |after| && after[i] == s;
      if i < |settings| {
        assert after[i] == Assign(settings[i], patch);
        if Matches(settings[i], SpecOf(patch.key)) { SpecsApart(settings[i], patch.key, other.key); }
        assert settings[i] in settings;
      } else {
        FreshMatches(patch.key, patch.value);
        SpecsApart(s, patch.key, other.key);
      }
    }
  }

  /** After all patches every patched place holds its value and has an amd64
      setting. */
  lemma {:induction false} PatchAllHolds(settings: seq<Setting>, patches: seq<Patch>, patch: Patch)
    requires DistinctKeys(patches) && patch in patches
    ensures Holds(PatchAll(settings, patches), patch)
  {
    var n := |patches| - 1;
    var front, last := patches[..n], patches[n];
    var middle := PatchAll(settings, front);
    if patch == last {
      PatchOneHolds(middle, last);
    } else {
      var i :| 0 <= i < |patches| && patches[i] == patch;
      assert front[i] == patch;
      PatchAllHolds(settings, front, patch);
      PatchOneKeepsOther(middle, last, patch);
    }
  }

  /** The value a patch list gives a setting, if it patches it. */
  function ValueFor(setting: Setting, patches: seq<Patch>): Option<string> {
    if patches == [] then None
    else if Matches(setting, SpecOf(patches[|patches| - 1].key)) then Some(patches[|patches| - 1].value)
    else ValueFor(setting, patches[..|patches| - 1])
  }

  function Patched(setting: Setting, patches: seq<Patch>): Setting {
    var value := ValueFor(setting, patches);
    if value.Some? && setting.Setting? then setting.(value := value.value) else setting
  }

  /** The old settings stay where they were, only patched ones with a new
      value; anything added comes after them and is a patched place. */
  lemma {:induction false} PatchAllKeepsOrder(settings: seq<Setting>, patches: seq<Patch>)
    ensures var after := PatchAll(settings, patches);
            |settings| <= |after| &&
            (forall i | 0 <= i < |settings| :: after[i] == Patched(settings[i], patches)) &&
            forall i | |settings| <= i < |after| ::
              exists p | p in patches :: Matches(after[i], SpecOf(p.key)) && IsAmd64(after[i])
  {
    if patches != [] {
      var n := |patches| - 1;
      var front, last := patches[..n], patches[n];
      var middle, after := PatchAll(settings, front), PatchAll(settings, patches);
      PatchAllKeepsOrder(settings, front);
      forall i | 0 <= i < |settings| ensures after[i] == Patched(settings[i], patches) {
        assert after[i] == Assign(middle[i], last);
      }
      forall i | |settings| <= i < |after|
        ensures exists p | p in patches :: Matches(after[i], SpecOf(p.key)) && IsAmd64(after[i])
      {
        if i < |middle| {
          var p :| p in front && Matches(middle[i], SpecOf(p.key)) && IsAmd64(middle[i]);
          assert after[i] == Assign(middle[i], last) && p in patches;
        } else {
          FreshMatches(last.key, last.value);
          assert last in patches;
        }
      }
    }
  }

  lemma HoldingIsFixed(settings: seq<Setting>, patch: Patch)
    requires Holds(settings, patch)
    ensures PatchOne(settings, patch) == settings
  {
    forall i | 0 <= i < |settings| ensures Assign(settings[i], patch) == settings[i] {
      assert settings[i] in settings;
    }
  }

  /** Applying the same patches again changes nothing. */
  lemma PatchAllTwice(settings: seq<Setting>, patches: seq<Patch>)
    requires DistinctKeys(patches)
    ensures PatchAll(PatchAll(settings, patches), patches) == PatchAll(settings, patches)
  {
    var once := PatchAll(settings, patches);
    forall patch | patch in patches ensures Holds(once, patch) { PatchAllHolds(settings, patches, patch); }
    AllHoldingIsFixed(once, patches);
  }

  lemma {:induction false} AllHoldingIsFixed(settings: seq<Setting>, patches: seq<Patch>)
    requires forall patch | patch in patches :: Holds(settings, patch)
    ensures PatchAll(settings, patches) == settings
  {
    if patches != [] {
      AllHoldingIsFixed(settings, patches[..|patches| - 1]);
      HoldingIsFixed(settings, patches[|patches| - 1]);
    }
  }
}
