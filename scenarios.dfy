/** End-to-end facts about `validate_file` on small catalogues, for any pack
    descriptor that does not claim the project type involved. */
module Scenarios {
  import opened Validation
  import opened Dispatch
  import Fabric
  import LegacyForge
  import LiteLoader

  const Modern: seq<GameVersionRecord> := [GameVersionRecord("1.19.2", 1659000000)]
  const Old: seq<GameVersionRecord> := [GameVersionRecord("1.7.10", 1403000000)]

  lemma FabricAppliesToModern(pack: PackDescriptor)
    requires "mod" !in pack.projectTypes
    ensures FirstApplicableAt(Registry(pack), 1, "mod", ["fabric"], ["1.19.2"], Modern)
  {
    assert FirstRecordAt(Modern, 0, ["1.19.2"][0]);
    assert ["fabric"][0] in Fabric.SupportedLoaders;
  }

  /** A Fabric archive holding only its manifest is a source file. */
  lemma FabricSourceOnly(pack: PackDescriptor, packOutcome: Outcome)
    requires "mod" !in pack.projectTypes
    ensures ValidateFileSpec(Some(["fabric.mod.json"]), "jar", "mod", ["fabric"], ["1.19.2"], Modern, pack, packOutcome)
      == Ok(Warning("Fabric mod file is a source file!"))
  {
    FabricAppliesToModern(pack);
    OnlyFirstApplicableConsulted(["fabric.mod.json"], "jar", "mod", ["fabric"], ["1.19.2"], Modern, pack, packOutcome, 1);
    Fabric.ManifestOnlyIsSource();
  }

  /** Manifest, class file and refmap: the file passes. */
  lemma FabricAllClear(pack: PackDescriptor, packOutcome: Outcome)
    requires "mod" !in pack.projectTypes
    ensures ValidateFileSpec(Some(["fabric.mod.json", "Test.class", "example.refmap.json"]), "jar", "mod", ["fabric"], ["1.19.2"], Modern, pack, packOutcome)
      == Ok(Pass)
  {
    FabricAppliesToModern(pack);
    OnlyFirstApplicableConsulted(["fabric.mod.json", "Test.class", "example.refmap.json"], "jar", "mod", ["fabric"], ["1.19.2"], Modern, pack, packOutcome, 1);
    Fabric.AllClear();
  }

  /** An archive without quilt.mod.json declared for the "fabric" loader on
      a version newer than Quilt's cut-off is judged by the Fabric validator,
      never the Quilt one. */
  lemma QuiltArchiveJudgedAsFabric(pack: PackDescriptor, packOutcome: Outcome)
    requires "mod" !in pack.projectTypes
    ensures ValidateFileSpec(Some(["Test.class", "example.refmap.json"]), "jar", "mod", ["fabric"], ["1.19.2"], Modern, pack, packOutcome)
      == Err(InvalidInput("No fabric.mod.json present for Fabric file."))
  {
    FabricAppliesToModern(pack);
    OnlyFirstApplicableConsulted(["Test.class", "example.refmap.json"], "jar", "mod", ["fabric"], ["1.19.2"], Modern, pack, packOutcome, 1);
    Fabric.MissingManifestRefused();
  }

  /** A legacy Forge archive on a pre-1.13 version goes to legacy Forge and
      passes. */
  lemma LegacyForgeAllClear(pack: PackDescriptor, packOutcome: Outcome)
    requires "mod" !in pack.projectTypes
    ensures Selected(pack, "mod", ["forge"], ["1.7.10"], Old) == Some(LegacyForgeValidator)
    ensures ValidateFileSpec(Some(["mcmod.info", "Test.class"]), "jar", "mod", ["forge"], ["1.7.10"], Old, pack, packOutcome)
      == Ok(Pass)
  {
    var registry := Registry(pack);
    assert FirstRecordAt(Old, 0, ["1.7.10"][0]);
    assert ["forge"][0] in LegacyForge.SupportedLoaders;
    assert !Applicable(registry[1], "mod", ["forge"], ["1.7.10"], Old) by {
      assert "forge" !in Fabric.SupportedLoaders;
    }
    assert !Applicable(registry[2], "mod", ["forge"], ["1.7.10"], Old) by {
      PastDateUnmet(["1.7.10"], Old, 1540122067);
      assert Find(Old, "1.7.10") == Some(Old[0]);
    }
    assert FirstApplicableAt(registry, 3, "mod", ["forge"], ["1.7.10"], Old);
    FirstApplicableUnique(registry, 3, "mod", ["forge"], ["1.7.10"], Old);
    OnlyFirstApplicableConsulted(["mcmod.info", "Test.class"], "jar", "mod", ["forge"], ["1.7.10"], Old, pack, packOutcome, 3);
    LegacyForge.AllClear();
  }

  /** A project type no validator claims: nothing applies and the file
      passes. */
  lemma UnclaimedProjectTypePasses(archive: Archive, loaders: seq<string>, gameVersions: seq<string>,
                                    catalogue: seq<GameVersionRecord>, pack: PackDescriptor, packOutcome: Outcome)
    requires "resourcepack" !in pack.projectTypes
    ensures ValidateFileSpec(Some(archive), "zip", "resourcepack", loaders, gameVersions, catalogue, pack, packOutcome)
      == Ok(Pass)
  {
    assert forall j :: 0 <= j < 6 ==> !Applicable(Registry(pack)[j], "resourcepack", loaders, gameVersions, catalogue);
  }

  /** LiteLoader is dispatched for "liteloader" but accepts only "litemod":
      a "jar" upload is refused for its extension. */
  lemma LiteLoaderJarRefused(archive: Archive, gameVersions: seq<string>, catalogue: seq<GameVersionRecord>,
                             pack: PackDescriptor, packOutcome: Outcome)
    requires "mod" !in pack.projectTypes
    ensures ValidateFileSpec(Some(archive), "jar", "mod", ["liteloader"], gameVersions, catalogue, pack, packOutcome)
      == Err(InvalidInput("File extension " + "jar" + " is invalid for input file"))
  {
    var registry := Registry(pack);
    assert ["liteloader"][0] in LiteLoader.SupportedLoaders;
    assert forall j :: 1 <= j < 5 ==> "liteloader" !in SupportedLoaders(registry[j]);
    assert FirstApplicableAt(registry, 5, "mod", ["liteloader"], gameVersions, catalogue);
    LiteLoaderRefusesOtherExtensions(archive, "jar", "mod", ["liteloader"], gameVersions, catalogue, pack, packOutcome)
      by { FirstApplicableUnique(registry, 5, "mod", ["liteloader"], gameVersions, catalogue); }
  }
}
