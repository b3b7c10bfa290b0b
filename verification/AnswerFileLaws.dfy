/** When the check passes on what a patched profile renders to. */
module AnswerFileLaws {
  import opened Json
  import opened Text
  import opened SettingPatches
  import opened AnswerFile

  // ---------- the settings a patch adds ----------

  lemma FoldsDiffer(one: string, two: string)
    requires |one| != |two| || (one != "" && Fold(one)[0] != Fold(two)[0])
    ensures Fold(one) != Fold(two)
  {
    assert |Fold(one)| == |one| && |Fold(two)| == |two|;
  }

  lemma PassesDiffer()
    ensures forall i, j | 0 <= i < j < |PASSES| :: Fold(PASSES[i]) != Fold(PASSES[j])
  {
    forall i, j | 0 <= i < j < |PASSES| ensures Fold(PASSES[i]) != Fold(PASSES[j]) {
      FoldsDiffer(PASSES[i], PASSES[j]);
    }
  }

  /** A setup pass is named in whatever case, and only these seven are. */
  lemma ParsePassExact(name: string, pass: string)
    ensures ParsePass(name) == Some(pass) <==>
            Fold(pass) == Fold(name) &&
            pass in {"windowsPE", "offlineServicing", "generalize", "specialize", "auditSystem", "auditUser",
                     "oobeSystem"}
  {
    PassesDiffer();
    FirstLikeExact(PASSES, name, pass);
  }

  lemma PassIsItself(key: Key)
    ensures ParsePass(SpecOf(key).setupPass) == Some(SpecOf(key).setupPass)
  {
    var pass := SpecOf(key).setupPass;
    ParsePassExact(pass, pass);
  }

  lemma LastNameOfPath(key: Key, names: seq<string>)
    requires names == SpecOf(key).path
    ensures 1 <= |names| <= 2 && names[|names| - 1] == LastName(key) && |LastName(key)| > 1
    ensures |names| == 2 ==> names[0] in {"DynamicUpdate", "OOBE"}
    ensures |names| == 1 ==> names[0] !in {"DynamicUpdate", "OOBE"}
  {
    assert |names| == 1 ==> |names[0]| !in {4, 13};
  }

  /** No setting leads through two specified places. */
  lemma ThroughOne(setting: Setting, one: Key, two: Key)
    requires Through(setting, SpecOf(one)) && Through(setting, SpecOf(two))
    ensures one == two
  {
    var path := Read(setting).value.path;
    var n, m := |SpecOf(one).path|, |SpecOf(two).path|;
    LastNameOfPath(one, SpecOf(one).path);
    LastNameOfPath(two, SpecOf(two).path);
    assert NamesOf(path[..n])[0] == path[0].name == NamesOf(path[..m])[0];
    assert n == m;
    assert LastName(one) == LastName(two);
    assert |LastName(one)| == |LastName(two)| && LastName(one)[1] == LastName(two)[1];
  }

  function PlainPath(spec: Spec): seq<Step> {
    seq(|spec.path|, i requires 0 <= i < |spec.path| => Step(spec.path[i], map[]))
  }

  /** Where a setting that a patch adds goes. */
  function AddedPlace(spec: Spec): Place {
    Place(spec.setupPass, spec.component, "amd64", "31bf3856ad364e35", "neutral", "nonSxS")
  }

  lemma NotBlank(text: string)
    requires text != "" && !IsSpace(text[0]) && !IsSpace(text[|text| - 1])
    ensures Trim(text) != ""
  {
  }

  /** What the renderer needs of a specification. */
  ghost predicate Proper(spec: Spec) {
    ParsePass(spec.setupPass) == Some(spec.setupPass) && Trim(spec.component) != "" && spec.path != [] &&
    forall i | 0 <= i < |spec.path| :: Trim(spec.path[i]) != ""
  }

  lemma ComponentNotBlank(key: Key)
    ensures Trim(SpecOf(key).component) != ""
  {
    NotBlank(SpecOf(key).component);
  }

  lemma NamesNotBlank(key: Key)
    ensures var path := SpecOf(key).path;
            1 <= |path| <= 2 && Trim(path[0]) != "" && (|path| == 2 ==> Trim(path[1]) != "")
  {
    var path := SpecOf(key).path;
    NotBlank(path[0]);
    if |path| == 2 { NotBlank(path[1]); }
  }

  lemma SpecsAreProper(key: Key)
    ensures Proper(SpecOf(key))
  {
    PassIsItself(key);
    ComponentNotBlank(key);
    NamesNotBlank(key);
    ProperByParts(SpecOf(key));
  }

  lemma ProperByParts(spec: Spec)
    requires ParsePass(spec.setupPass) == Some(spec.setupPass) && Trim(spec.component) != ""
    requires 1 <= |spec.path| <= 2 && Trim(spec.path[0]) != "" && (|spec.path| == 2 ==> Trim(spec.path[1]) != "")
    ensures Proper(spec)
  {
  }

  lemma AddedReads(spec: Spec, value: string)
    requires Proper(spec)
    ensures Read(Fresh(spec, value)) == Some(Entry(AddedPlace(spec), PlainPath(spec), value))
    ensures Through(Fresh(spec, value), spec)
  {
    var path := Fresh(spec, value).path.value;
    forall i | 0 <= i < |path| ensures Named(path[i]) && StepOf(path[i]) == Step(spec.path[i], map[]) {
      assert path[i].name == Some(spec.path[i]);
    }
    assert Read(Fresh(spec, value)).value.path == PlainPath(spec);
    assert NamesOf(PlainPath(spec)) == spec.path;
    assert PlainPath(spec)[..|spec.path|] == PlainPath(spec);
  }

  /** A setting that matches leads to its place. */
  lemma MatchingIsThrough(setting: Setting, spec: Spec)
    requires Proper(spec) && Matches(setting, spec) && Read(setting).Some?
    ensures Through(setting, spec) && |Read(setting).value.path| == |spec.path|
    ensures IsAmd64(setting) ==> Read(setting).value.place.architecture == "amd64"
    ensures setting.architecture == setting.publicKeyToken == setting.language == setting.versionScope == Missing ==>
              Read(setting).value.place == AddedPlace(spec)
  {
    var path := Read(setting).value.path;
    assert path[..|spec.path|] == path;
    assert NamesOf(path) == spec.path;
  }

  // ---------- how one patch moves the settings ----------

  lemma AssignReads(setting: Setting, patch: Patch)
    ensures Read(Assign(setting, patch)).Some? <==> Read(setting).Some?
    ensures Read(setting).Some? ==>
              Read(Assign(setting, patch)).value.place == Read(setting).value.place &&
              Read(Assign(setting, patch)).value.path == Read(setting).value.path
  {
  }

  lemma PatchKeepsRenderable(settings: seq<Setting>, patch: Patch)
    ensures Renderable(PatchOne(settings, patch)) <==> Renderable(settings)
  {
    var after := PatchOne(settings, patch);
    SpecsAreProper(patch.key);
    AddedReads(SpecOf(patch.key), patch.value);
    forall i | 0 <= i < |settings|
      ensures after[i] in after && settings[i] in settings && (Read(after[i]).Some? <==> Read(settings[i]).Some?)
    {
      AssignReads(settings[i], patch);
    }
  }

  lemma {:induction false} AllKeepRenderable(settings: seq<Setting>, patches: seq<Patch>)
    ensures Renderable(PatchAll(settings, patches)) <==> Renderable(settings)
  {
    if patches != [] {
      AllKeepRenderable(settings, patches[..|patches| - 1]);
      PatchKeepsRenderable(PatchAll(settings, patches[..|patches| - 1]), patches[|patches| - 1]);
    }
  }

  lemma {:induction false} LastAssigned(settings: seq<Setting>, patch: Patch, place: Place, path: seq<Step>)
    ensures LastAt(AssignAll(settings, patch), place, path) ==
            match LastAt(settings, place, path) case None => None case Some(last) => Some(Assign(last, patch))
  {
    if settings != [] {
      var n := |settings| - 1;
      AssignReads(settings[n], patch);
      assert AssignAll(settings, patch)[..n] == AssignAll(settings[..n], patch);
      LastAssigned(settings[..n], patch, place, path);
    }
  }

  lemma LastPatched(settings: seq<Setting>, patch: Patch, place: Place, path: seq<Step>)
    ensures var spec := SpecOf(patch.key);
            LastAt(PatchOne(settings, patch), place, path) ==
            if !Covered(settings, patch.key) && place == AddedPlace(spec) && path == PlainPath(spec) then
              Some(Fresh(spec, patch.value))
            else
              match LastAt(settings, place, path) case None => None case Some(last) => Some(Assign(last, patch))
  {
    LastAssigned(settings, patch, place, path);
    SpecsAreProper(patch.key);
    AddedReads(SpecOf(patch.key), patch.value);
    var kept, after := AssignAll(settings, patch), PatchOne(settings, patch);
    if Covered(settings, patch.key) {
      assert after == kept;
    } else {
      assert after[..|settings|] == kept;
    }
  }

  /** A patch for another place leaves the elements at this one alone. */
  lemma OtherKeepsLast(settings: seq<Setting>, other: Patch, key: Key, setting: Setting)
    requires Through(setting, SpecOf(key)) && other.key != key
    ensures var place, path := Read(setting).value.place, PrefixOf(setting, SpecOf(key));
            LastAt(PatchOne(settings, other), place, path) == LastAt(settings, place, path)
  {
    var place, path := Read(setting).value.place, PrefixOf(setting, SpecOf(key));
    LastPatched(settings, other, place, path);
    SpecsAreProper(other.key);
    AddedReads(SpecOf(other.key), other.value);
    if place == AddedPlace(SpecOf(other.key)) && path == PlainPath(SpecOf(other.key)) {
      AtPrefixIsThrough(Fresh(SpecOf(other.key), other.value), setting, SpecOf(key));
      ThroughOne(Fresh(SpecOf(other.key), other.value), other.key, key);
    }
    var last := LastAt(settings, place, path);
    if last.Some? && Matches(last.value, SpecOf(other.key)) {
      MatchingIsThrough(last.value, SpecOf(other.key));
      AtPrefixIsThrough(last.value, setting, SpecOf(key));
      ThroughOne(last.value, other.key, key);
    }
  }

  lemma AtPrefixIsThrough(at: Setting, setting: Setting, spec: Spec)
    requires Through(setting, spec) && ReadsAt(at, Read(setting).value.place, PrefixOf(setting, spec))
    ensures Through(at, spec)
  {
    var path := PrefixOf(setting, spec);
    assert path[..|path|] == path;
  }

  lemma AssignMatches(setting: Setting, patch: Patch, spec: Spec)
    ensures Matches(Assign(setting, patch), spec) <==> Matches(setting, spec)
    ensures IsAmd64(Assign(setting, patch)) <==> IsAmd64(setting)
  {
  }

  lemma OtherKeepsCovered(settings: seq<Setting>, other: Patch, key: Key)
    requires other.key != key
    ensures Covered(PatchOne(settings, other), key) <==> Covered(settings, key)
  {
    var after, spec := PatchOne(settings, other), SpecOf(key);
    FreshMatches(other.key, other.value);
    if |after| > |settings| && Matches(after[|settings|], spec) { SpecsApart(after[|settings|], other.key, key); }
    if Covered(after, key) {
      var i :| 0 <= i < |after| && Matches(after[i], spec) && IsAmd64(after[i]);
      AssignMatches(settings[i], other, spec);
      assert settings[i] in settings;
    }
    if Covered(settings, key) {
      var i :| 0 <= i < |settings| && Matches(settings[i], spec) && IsAmd64(settings[i]);
      AssignMatches(settings[i], other, spec);
      assert after[i] == Assign(settings[i], other) && after[i] in after;
    }
  }

  // ---------- one patch and its check ----------

  /** Once the value is set, the setting's element at the place holds it: a
      setting is added there, or the last one there is patched or held it. */
  predicate WillAgree(settings: seq<Setting>, setting: Setting, patch: Patch)
    requires Through(setting, SpecOf(patch.key))
  {
    var spec := SpecOf(patch.key);
    var place, path := Read(setting).value.place, PrefixOf(setting, spec);
    (!Covered(settings, patch.key) && place == AddedPlace(spec) && path == PlainPath(spec)) ||
    (var last := LastAt(settings, place, path);
     last.Some? && (Matches(last.value, spec) || ValueOf(last.value) == patch.value))
  }

  ghost predicate AllWillAgree(settings: seq<Setting>, patch: Patch) {
    forall s | s in settings && Through(s, SpecOf(patch.key)) :: WillAgree(settings, s, patch)
  }

  /** What the check reads off the settings. */
  ghost predicate AllAgree(settings: seq<Setting>, patch: Patch) {
    (exists s | s in settings :: Through(s, SpecOf(patch.key)) && Read(s).value.place.architecture == "amd64") &&
    forall s | s in settings && Through(s, SpecOf(patch.key)) :: Agrees(settings, s, patch)
  }

  lemma ThroughAssigned(setting: Setting, other: Patch, spec: Spec)
    ensures Through(Assign(setting, other), spec) <==> Through(setting, spec)
    ensures Through(setting, spec) ==>
              Read(Assign(setting, other)).value.place == Read(setting).value.place &&
              PrefixOf(Assign(setting, other), spec) == PrefixOf(setting, spec)
  {
    AssignReads(setting, other);
  }

  /** A setting through the place after another patch was one before. */
  lemma ThroughBefore(settings: seq<Setting>, other: Patch, key: Key, setting: Setting) returns (was: Setting)
    requires setting in PatchOne(settings, other) && Through(setting, SpecOf(key)) && other.key != key
    ensures was in settings && setting == Assign(was, other) && Through(was, SpecOf(key))
  {
    var after := PatchOne(settings, other);
    var i :| 0 <= i < |after| && after[i] == setting;
    if i == |settings| {
      SpecsAreProper(other.key);
      AddedReads(SpecOf(other.key), other.value);
      ThroughOne(setting, other.key, key);
      assert false;
    } else {
      was := settings[i];
      ThroughAssigned(was, other, SpecOf(key));
    }
  }

  lemma AssignedIn(settings: seq<Setting>, patch: Patch, setting: Setting)
    requires setting in settings
    ensures Assign(setting, patch) in PatchOne(settings, patch)
  {
    var i :| 0 <= i < |settings| && settings[i] == setting;
    assert PatchOne(settings, patch)[i] == Assign(setting, patch);
  }

  /** Another patch changes nothing about this one. */
  lemma OtherChangesNothing(settings: seq<Setting>, other: Patch, patch: Patch)
    requires other.key != patch.key
    ensures AllWillAgree(PatchOne(settings, other), patch) <==> AllWillAgree(settings, patch)
    ensures AllAgree(PatchOne(settings, other), patch) <==> AllAgree(settings, patch)
  {
    var after, spec := PatchOne(settings, other), SpecOf(patch.key);
    OtherKeepsCovered(settings, other, patch.key);
    forall s | s in settings && Through(s, spec)
      ensures Assign(s, other) in after && Through(Assign(s, other), spec)
      ensures Read(Assign(s, other)).value.place == Read(s).value.place
      ensures WillAgree(after, Assign(s, other), patch) <==> WillAgree(settings, s, patch)
      ensures Agrees(after, Assign(s, other), patch) <==> Agrees(settings, s, patch)
    {
      AssignedIn(settings, other, s);
      ThroughAssigned(s, other, spec);
      OtherKeepsLast(settings, other, patch.key, s);
    }
    forall s | s in after && Through(s, spec)
      ensures exists was | was in settings :: s == Assign(was, other) && Through(was, spec)
    {
      var was := ThroughBefore(settings, other, patch.key, s);
    }
  }

  lemma PatchedSettingAgrees(settings: seq<Setting>, patch: Patch, setting: Setting)
    requires setting in settings && Through(setting, SpecOf(patch.key))
    ensures var after, now := PatchOne(settings, patch), Assign(setting, patch);
            now in after && Through(now, SpecOf(patch.key)) &&
            (Agrees(after, now, patch) <==> WillAgree(settings, setting, patch))
  {
    var spec := SpecOf(patch.key);
    AssignedIn(settings, patch, setting);
    ThroughAssigned(setting, patch, spec);
    LastPatched(settings, patch, Read(setting).value.place, PrefixOf(setting, spec));
  }

  /** A setting that the patch adds agrees. */
  lemma AddedSettingAgrees(settings: seq<Setting>, patch: Patch)
    requires !Covered(settings, patch.key)
    ensures var after, added := PatchOne(settings, patch), Fresh(SpecOf(patch.key), patch.value);
            Through(added, SpecOf(patch.key)) && Agrees(after, added, patch)
  {
    var spec := SpecOf(patch.key);
    SpecsAreProper(patch.key);
    AddedReads(spec, patch.value);
    LastPatched(settings, patch, AddedPlace(spec), PlainPath(spec));
    assert PrefixOf(Fresh(spec, patch.value), spec) == PlainPath(spec);
  }

  lemma PatchedIsAmd64(settings: seq<Setting>, patch: Patch)
    requires Renderable(settings)
    ensures exists s | s in PatchOne(settings, patch) ::
              Through(s, SpecOf(patch.key)) && Read(s).value.place.architecture == "amd64"
  {
    PatchOneHolds(settings, patch);
    PatchKeepsRenderable(settings, patch);
    SpecsAreProper(patch.key);
    var covered :| covered in PatchOne(settings, patch) && Matches(covered, SpecOf(patch.key)) && IsAmd64(covered);
    MatchingIsThrough(covered, SpecOf(patch.key));
  }

  /** The patch itself makes the place agree exactly where it will. */
  lemma PatchMakesAgree(settings: seq<Setting>, patch: Patch)
    requires Renderable(settings)
    ensures AllAgree(PatchOne(settings, patch), patch) <==> AllWillAgree(settings, patch)
  {
    var after, spec := PatchOne(settings, patch), SpecOf(patch.key);
    PatchedIsAmd64(settings, patch);
    forall s | s in settings && Through(s, spec)
      ensures Assign(s, patch) in after && Through(Assign(s, patch), spec)
      ensures Agrees(after, Assign(s, patch), patch) <==> WillAgree(settings, s, patch)
    {
      PatchedSettingAgrees(settings, patch, s);
    }
    if AllWillAgree(settings, patch) {
      forall s | s in after && Through(s, spec) ensures Agrees(after, s, patch) {
        var i :| 0 <= i < |after| && after[i] == s;
        if i < |settings| {
          ThroughAssigned(settings[i], patch, spec);
        } else {
          AddedSettingAgrees(settings, patch);
        }
      }
    }
  }

  // ---------- all patches and their check ----------

  lemma {:induction false} OthersChangeNothing(settings: seq<Setting>, others: seq<Patch>, patch: Patch)
    requires forall other | other in others :: other.key != patch.key
    ensures AllWillAgree(PatchAll(settings, others), patch) <==> AllWillAgree(settings, patch)
  {
    if others != [] {
      var front := others[..|others| - 1];
      OthersChangeNothing(settings, front, patch);
      OtherChangesNothing(PatchAll(settings, front), others[|others| - 1], patch);
    }
  }

  lemma {:induction false} PatchedAgreeExact(settings: seq<Setting>, patches: seq<Patch>, patch: Patch)
    requires Renderable(settings) && DistinctKeys(patches) && patch in patches
    ensures AllAgree(PatchAll(settings, patches), patch) <==> AllWillAgree(settings, patch)
  {
    var n := |patches| - 1;
    var front, last := patches[..n], patches[n];
    var middle := PatchAll(settings, front);
    AllKeepRenderable(settings, front);
    if patch == last {
      PatchMakesAgree(middle, patch);
      OthersChangeNothing(settings, front, patch);
    } else {
      var i :| 0 <= i < |patches| && patches[i] == patch;
      assert front[i] == patch;
      PatchedAgreeExact(settings, front, patch);
      OtherChangesNothing(middle, last, patch);
    }
  }

  /** The profile, once patched, renders and passes the check. */
  ghost predicate Provisions(settings: seq<Setting>, patches: seq<Patch>) {
    var after := PatchAll(settings, patches);
    Renderable(after) && forall patch | patch in patches :: CheckPasses(Render(after), patch)
  }

  /** Values have no line breaks, as the settings' validation makes sure. */
  predicate CleanValues(patches: seq<Patch>) {
    forall patch | patch in patches :: '\n' !in patch.value
  }

  /** A patched profile renders and passes the check exactly when it could be
      rendered before and each setting that leads to or through a patched place
      has an element there that will hold the value. */
  lemma CheckPassesExact(settings: seq<Setting>, patches: seq<Patch>)
    requires DistinctKeys(patches) && CleanValues(patches)
    ensures Provisions(settings, patches) <==>
            Renderable(settings) && forall patch | patch in patches :: AllWillAgree(settings, patch)
  {
    AllKeepRenderable(settings, patches);
    if Renderable(settings) {
      forall patch | patch in patches
        ensures CheckPasses(Render(PatchAll(settings, patches)), patch) <==> AllWillAgree(settings, patch)
      {
        CheckReadsSettings(PatchAll(settings, patches), patch);
        PatchedAgreeExact(settings, patches, patch);
      }
    }
  }

  // ---------- failing profiles ----------

  function TimeZoneSetting(architecture: string, path: seq<Segment>, value: string): Setting {
    Setting("specialize", SHELL_SETUP, Given(architecture), Missing, Missing, Missing, Some(path), value)
  }

  lemma TimeZoneReads(architecture: string, path: seq<Segment>, value: string)
    requires path != [] && path[0].name == Some("TimeZone") && forall s | s in path :: Named(s)
    ensures var setting := TimeZoneSetting(architecture, path, value);
            Renderable([setting]) && Through(setting, SpecOf(TimeZone)) &&
            Read(setting).value.place.architecture == architecture && |Read(setting).value.path| == |path| &&
            PrefixOf(setting, SpecOf(TimeZone)) == [StepOf(path[0])]
  {
    PassIsItself(TimeZone);
    ComponentNotBlank(TimeZone);
    var setting := TimeZoneSetting(architecture, path, value);
    assert Read(setting).value.path[..1] == [StepOf(path[0])];
    assert NamesOf(Read(setting).value.path[..1]) == ["TimeZone"];
  }

  /** A setting below a patched place, for another architecture, brings an
      element of its own there that never holds the value. */
  lemma DeeperSettingFailsCheck(value: string)
    requires '\n' !in value
    ensures var path := [Segment(Some("TimeZone"), NoAttributes), Segment(Some("Other"), NoAttributes)];
            var settings := [TimeZoneSetting("x86", path, "old")];
            Renderable(settings) && !Provisions(settings, [Patch(TimeZone, value)])
  {
    var path := [Segment(Some("TimeZone"), NoAttributes), Segment(Some("Other"), NoAttributes)];
    var setting := TimeZoneSetting("x86", path, "old");
    NotBlank("TimeZone");
    NotBlank("Other");
    TimeZoneReads("x86", path, "old");
    var place, prefix := Read(setting).value.place, PrefixOf(setting, SpecOf(TimeZone));
    assert LastAt([setting], place, prefix).None? by { assert |prefix| == 1; }
    OneFails(setting, Patch(TimeZone, value));
  }

  /** So does a setting with attributes and another value at the place. */
  lemma AttributedSettingFailsCheck(value: string)
    requires '\n' !in value && value != "old"
    ensures var path := [Segment(Some("TimeZone"), Listed(map["action" := Some("add")]))];
            var settings := [TimeZoneSetting("amd64", path, "old")];
            Renderable(settings) && !Provisions(settings, [Patch(TimeZone, value)])
  {
    var segment := Segment(Some("TimeZone"), Listed(map["action" := Some("add")]));
    var setting := TimeZoneSetting("amd64", [segment], "old");
    NotBlank("TimeZone");
    TimeZoneReads("amd64", [segment], "old");
    assert "action" in StepOf(segment).attributes && !Plain(segment);
    assert PlainPath(SpecOf(TimeZone))[0].attributes == map[];
    assert LastAt([setting], Read(setting).value.place, PrefixOf(setting, SpecOf(TimeZone))) in {None, Some(setting)};
    OneFails(setting, Patch(TimeZone, value));
  }

  lemma OneFails(setting: Setting, patch: Patch)
    requires Through(setting, SpecOf(patch.key)) && !WillAgree([setting], setting, patch) && '\n' !in patch.value
    ensures !Provisions([setting], [patch])
  {
    CheckPassesExact([setting], [patch]);
    assert setting in [setting] && patch in [patch];
  }
}
