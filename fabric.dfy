/** The Fabric validator (src/validate/fabric.rs). */
module Fabric {
  import opened Validation

  const FileExtensions: seq<string> := ["jar", "zip"]
  const ProjectTypes: seq<string> := ["mod"]
  const SupportedLoaders: seq<string> := ["fabric"]
  /** Release of 18w49a, the first game version Fabric supports. */
  const GameVersionWindow: SupportedGameVersions := PastDate(1543969469)

  const Manifest := "fabric.mod.json"
  const CompiledSuffixes: seq<string> := [".refmap.json", ".class"]
  const MissingManifest := "No fabric.mod.json present for Fabric file."
  const SourceOnly := "Fabric mod file is a source file!"

  /** The manifest is mandatory; without compiled output the file is only a
      source archive. */
  function Validate(archive: Archive): (r: Outcome)
    ensures r == Err(InvalidInput(MissingManifest)) <==> Manifest !in archive
    ensures r == Ok(Warning(SourceOnly)) <==> Manifest in archive && !AnyEntryMatches(archive, CompiledSuffixes)
    ensures r == Ok(Pass) <==> Manifest in archive && AnyEntryMatches(archive, CompiledSuffixes)
  {
    if Manifest !in archive then Err(InvalidInput(MissingManifest))
    else if !AnyEntryMatches(archive, CompiledSuffixes) then Ok(Warning(SourceOnly))
    else Ok(Pass)
  }

  /** Pass in terms of case-insensitive `ends_with`: the manifest is there and
      some entry ends with `.refmap.json` or `.class`, or is itself a trailing
      part of one of them. */
  lemma PassMeaning(archive: Archive)
    ensures Validate(archive) == Ok(Pass) <==>
      Manifest in archive &&
      exists i, e :: 0 <= i < |archive| && 0 <= e < |CompiledSuffixes| &&
        (EndsWithIgnoreCase(archive[i], CompiledSuffixes[e]) || EndsWithIgnoreCase(CompiledSuffixes[e], archive[i]))
  {
    forall i | 0 <= i < |archive| {
      MatchMeaning(archive[i], CompiledSuffixes);
    }
  }

  /** A lone refmap counts as compiled output. */
  lemma LoneRefmapPasses()
    ensures Validate(["fabric.mod.json", "example.refmap.json"]) == Ok(Pass)
  {
    assert MatchExtensionIgnoreCase("example.refmap.json", CompiledSuffixes) by {
      assert SuffixAgrees("example.refmap.json", ".refmap.json");
    }
    assert ["fabric.mod.json", "example.refmap.json"][1] == "example.refmap.json";
  }

  /** Manifest alone: a source file. */
  lemma ManifestOnlyIsSource()
    ensures Validate(["fabric.mod.json"]) == Ok(Warning(SourceOnly))
  {
    assert !MatchExtensionIgnoreCase("fabric.mod.json", CompiledSuffixes) by {
      assert !SuffixAgrees("fabric.mod.json", ".refmap.json");
      assert !SuffixAgrees("fabric.mod.json", ".class");
    }
  }

  /** Manifest with a class and a refmap: passes. */
  lemma AllClear()
    ensures Validate(["fabric.mod.json", "Test.class", "example.refmap.json"]) == Ok(Pass)
  {
    assert MatchExtensionIgnoreCase("Test.class", CompiledSuffixes) by {
      assert SuffixAgrees("Test.class", ".class");
      assert CompiledSuffixes[1] == ".class";
    }
    assert ["fabric.mod.json", "Test.class", "example.refmap.json"][1] == "Test.class";
  }

  /** Without the manifest the file is refused, whatever else it holds. */
  lemma MissingManifestRefused()
    ensures Validate(["Test.class", "example.refmap.json"]) == Err(InvalidInput(MissingManifest))
  {
    assert "fabric.mod.json" != "Test.class";
    assert "fabric.mod.json" != "example.refmap.json";
  }
}
