/** The Quilt validator (src/validate/quilt.rs). Quilt mods declare their
    loader as "fabric". */
module Quilt {
  import opened Validation

  const FileExtensions: seq<string> := ["jar", "zip"]
  const ProjectTypes: seq<string> := ["mod"]
  const SupportedLoaders: seq<string> := ["fabric"]
  const GameVersionWindow: SupportedGameVersions := PastDate(1646070100)

  const Manifest := "quilt.mod.json"
  const CompiledSuffixes: seq<string> := [".refmap.json", ".class"]
  const MissingManifest := "No quilt.mod.json present for Quilt file."
  const SourceOnly := "Quilt mod file is a source file!"

  function Validate(archive: Archive): (r: Outcome)
    ensures r == Err(InvalidInput(MissingManifest)) <==> Manifest !in archive
    ensures r == Ok(Warning(SourceOnly)) <==> Manifest in archive && !AnyEntryMatches(archive, CompiledSuffixes)
    ensures r == Ok(Pass) <==> Manifest in archive && AnyEntryMatches(archive, CompiledSuffixes)
  {
    if Manifest !in archive then Err(InvalidInput(MissingManifest))
    else if !AnyEntryMatches(archive, CompiledSuffixes) then Ok(Warning(SourceOnly))
    else Ok(Pass)
  }

  /** Pass in terms of case-insensitive `ends_with` on `.refmap.json` or
      `.class`, or an entry that is itself a trailing part of one. */
  lemma PassMeaning(archive: Archive)
    ensures Validate(archive) == Ok(Pass) <==>
      Manifest in archive &&
      exists i, e :: 0 <= i < |archive| && 0 <= e < |CompiledSuffixes| &&
        (EndsWithIgnoreCase(archive[i], CompiledSuffixes[e]) || EndsWithIgnoreCase(CompiledSuffixes[e], archive[i]))
  {
    forall i | 0 <= i < |archive| {
      MatchMeaning(archive[i], CompiledSuffixes);
    }
  }

  lemma AllClear()
    ensures Validate(["quilt.mod.json", "Test.class", "example.refmap.json"]) == Ok(Pass)
  {
    assert SuffixAgrees("Test.class", ".class");
    assert CompiledSuffixes[1] == ".class";
    assert ["quilt.mod.json", "Test.class", "example.refmap.json"][1] == "Test.class";
  }

  /** Compiled output is recognised in any letter case, with either suffix. */
  lemma WeirdExtensions()
    ensures MatchExtensionIgnoreCase("TEST.CLASS", CompiledSuffixes)
    ensures MatchExtensionIgnoreCase("EXAMPLE.ReFMaP.JSon", CompiledSuffixes)
    ensures Validate(["quilt.mod.json", "TEST.CLASS", "EXAMPLE.ReFMaP.JSon"]) == Ok(Pass)
  {
    assert SuffixAgrees("EXAMPLE.ReFMaP.JSon", ".refmap.json");
    assert CompiledSuffixes[0] == ".refmap.json";
    assert SuffixAgrees("TEST.CLASS", ".class");
    assert CompiledSuffixes[1] == ".class";
    assert ["quilt.mod.json", "TEST.CLASS", "EXAMPLE.ReFMaP.JSon"][1] == "TEST.CLASS";
  }

  lemma MissingQuiltModJson()
    ensures Validate(["Test.class", "example.refmap.json"]) == Err(InvalidInput(MissingManifest))
  {
    assert "quilt.mod.json" != "Test.class";
    assert "quilt.mod.json" != "example.refmap.json";
  }

  lemma MissingRefmapAndClassFiles()
    ensures Validate(["quilt.mod.json"]) == Ok(Warning(SourceOnly))
  {
    assert !SuffixAgrees("quilt.mod.json", ".refmap.json");
    assert !SuffixAgrees("quilt.mod.json", ".class");
  }

  /** The manifest is looked up by its exact name, while compiled output is
      recognised in any letter case. */
  lemma ManifestNameIsCaseSensitive()
    ensures MatchExtensionIgnoreCase("TEST.CLASS", CompiledSuffixes)
    ensures Validate(["QUILT.MOD.JSON", "TEST.CLASS"]) == Err(InvalidInput(MissingManifest))
  {
    assert SuffixAgrees("TEST.CLASS", ".class");
    assert CompiledSuffixes[1] == ".class";
    assert "quilt.mod.json" != "QUILT.MOD.JSON";
    assert "quilt.mod.json" != "TEST.CLASS";
  }
}
