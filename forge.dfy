/** The two Forge validators (src/validate/forge.rs): modern Forge, which
    declares mods in META-INF/mods.toml, and legacy Forge, which declares
    them in mcmod.info. Neither one ever refuses a file: a missing manifest
    or missing class files only produce a warning. */
module Forge {
  import opened Validation

  const FileExtensions: seq<string> := ["jar", "zip"]
  const ProjectTypes: seq<string> := ["mod"]
  const SupportedLoaders: seq<string> := ["forge"]
  /** Release of 1.13, the first version on the TOML mod declarations. */
  const GameVersionWindow: SupportedGameVersions := PastDate(1540122067)

  const Manifest := "META-INF/mods.toml"
  const CompiledSuffixes: seq<string> := [".class"]
  const MissingManifest := "No mods.toml present for Forge file."
  const SourceOnly := "Forge mod file is a source file!"

  /** The guard chain both Forge validators run, differing only in the
      manifest they look for and the warning they give without it. */
  function Check(archive: Archive, manifest: string, missingManifest: string): (r: Outcome)
    requires missingManifest != SourceOnly
    ensures r.Ok?
    ensures r.value == Warning(missingManifest) <==> manifest !in archive
    ensures r.value == Warning(SourceOnly) <==> manifest in archive && !AnyEntryMatches(archive, CompiledSuffixes)
    ensures IsPassed(r.value) <==> manifest in archive && AnyEntryMatches(archive, CompiledSuffixes)
    ensures IsPassed(r.value) ==> r.value == Pass
  {
    if manifest !in archive then Ok(Warning(missingManifest))
    else if !AnyEntryMatches(archive, CompiledSuffixes) then Ok(Warning(SourceOnly))
    else Ok(Pass)
  }

  /** The class test is case-insensitive `ends_with(".class")`, or a name
      that is itself a trailing part of ".class". */
  lemma CheckPassMeaning(archive: Archive, manifest: string, missingManifest: string)
    requires missingManifest != SourceOnly
    ensures Check(archive, manifest, missingManifest) == Ok(Pass) <==>
      manifest in archive &&
      exists i :: 0 <= i < |archive| &&
        (EndsWithIgnoreCase(archive[i], ".class") || EndsWithIgnoreCase(".class", archive[i]))
  {
    forall i | 0 <= i < |archive| {
      MatchMeaning(archive[i], CompiledSuffixes);
    }
  }

  function Validate(archive: Archive): (r: Outcome)
    ensures r.Ok?
    ensures r.value == Warning(MissingManifest) <==> Manifest !in archive
    ensures r.value == Warning(SourceOnly) <==> Manifest in archive && !AnyEntryMatches(archive, CompiledSuffixes)
    ensures IsPassed(r.value) <==> Manifest in archive && AnyEntryMatches(archive, CompiledSuffixes)
    ensures IsPassed(r.value) ==> r.value == Pass
  {
    Check(archive, Manifest, MissingManifest)
  }

  lemma PassMeaning(archive: Archive)
    ensures Validate(archive) == Ok(Pass) <==>
      Manifest in archive &&
      exists i :: 0 <= i < |archive| &&
        (EndsWithIgnoreCase(archive[i], ".class") || EndsWithIgnoreCase(".class", archive[i]))
  {
    CheckPassMeaning(archive, Manifest, MissingManifest);
  }

  lemma AllClear()
    ensures Validate(["META-INF/mods.toml", "Test.class"]) == Ok(Pass)
  {
    assert SuffixAgrees("Test.class", ".class");
    assert ["META-INF/mods.toml", "Test.class"][1] == "Test.class";
  }

  lemma WeirdExtensions()
    ensures Validate(["META-INF/mods.toml", "TesT.CLaSS"]) == Ok(Pass)
  {
    assert SuffixAgrees("TesT.CLaSS", ".class");
    assert ["META-INF/mods.toml", "TesT.CLaSS"][1] == "TesT.CLaSS";
  }

  /** Class files do not make up for the missing manifest. */
  lemma MissingModsToml()
    ensures Validate(["Test.class"]) == Ok(Warning(MissingManifest))
  {
    assert "META-INF/mods.toml" != "Test.class";
  }

  /** A refmap is not compiled output for Forge. */
  lemma RefmapIsNotClass()
    ensures Validate(["META-INF/mods.toml"]) == Ok(Warning(SourceOnly))
    ensures Validate(["META-INF/mods.toml", "example.refmap.json"]) == Ok(Warning(SourceOnly))
  {
    assert !SuffixAgrees("META-INF/mods.toml", ".class");
    assert !SuffixAgrees("example.refmap.json", ".class");
  }
}

/** The legacy Forge validator, for game versions 1.5.2 to 1.12.2. */
module LegacyForge {
  import opened Validation
  import Forge

  const FileExtensions: seq<string> := ["jar", "zip"]
  const ProjectTypes: seq<string> := ["mod"]
  const SupportedLoaders: seq<string> := ["forge"]
  /** Strictly between the releases of 1.5.2 and 1.12.2. */
  const GameVersionWindow: SupportedGameVersions := Range(1366818300, 1505810340)

  const Manifest := "mcmod.info"
  const CompiledSuffixes: seq<string> := Forge.CompiledSuffixes
  const MissingManifest := "Forge mod file does not contain mcmod.info!"
  const SourceOnly := Forge.SourceOnly

  /** The same guard chain as modern Forge, on mcmod.info. */
  function Validate(archive: Archive): (r: Outcome)
    ensures r.Ok?
    ensures r.value == Warning(MissingManifest) <==> Manifest !in archive
    ensures r.value == Warning(SourceOnly) <==> Manifest in archive && !AnyEntryMatches(archive, CompiledSuffixes)
    ensures IsPassed(r.value) <==> Manifest in archive && AnyEntryMatches(archive, CompiledSuffixes)
    ensures IsPassed(r.value) ==> r.value == Pass
  {
    Forge.Check(archive, Manifest, MissingManifest)
  }

  lemma PassMeaning(archive: Archive)
    ensures Validate(archive) == Ok(Pass) <==>
      Manifest in archive &&
      exists i :: 0 <= i < |archive| &&
        (EndsWithIgnoreCase(archive[i], ".class") || EndsWithIgnoreCase(".class", archive[i]))
  {
    Forge.CheckPassMeaning(archive, Manifest, MissingManifest);
  }

  lemma AllClear()
    ensures Validate(["mcmod.info", "Test.class"]) == Ok(Pass)
    ensures Validate(["mcmod.info", "TesT.CLaSS"]) == Ok(Pass)
  {
    assert SuffixAgrees("Test.class", ".class");
    assert ["mcmod.info", "Test.class"][1] == "Test.class";
    assert SuffixAgrees("TesT.CLaSS", ".class");
    assert ["mcmod.info", "TesT.CLaSS"][1] == "TesT.CLaSS";
  }

  lemma MissingPieces()
    ensures Validate(["Test.class"]) == Ok(Warning(MissingManifest))
    ensures Validate(["mcmod.info"]) == Ok(Warning(SourceOnly))
  {
    assert "mcmod.info" != "Test.class";
    assert !SuffixAgrees("mcmod.info", ".class");
  }
}
