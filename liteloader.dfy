/** The LiteLoader validator (src/validate/liteloader.rs): the manifest is
    the only check; there is no compiled-output test and no warning. */
module LiteLoader {
  import opened Validation

  const FileExtensions: seq<string> := ["litemod"]
  const ProjectTypes: seq<string> := ["mod"]
  const SupportedLoaders: seq<string> := ["liteloader"]
  const GameVersionWindow: SupportedGameVersions := All

  const Manifest := "litemod.json"
  const MissingManifest := "No litemod.json present for LiteLoader file."

  function Validate(archive: Archive): (r: Outcome)
    ensures r == Ok(Pass) <==> Manifest in archive
    ensures r != Ok(Pass) ==> r == Err(InvalidInput(MissingManifest))
  {
    if Manifest !in archive then Err(InvalidInput(MissingManifest)) else Ok(Pass)
  }

  /** Whatever else the archive holds, only the manifest decides. */
  lemma OnlyManifestMatters(archive: Archive, other: Archive)
    requires Manifest in archive <==> Manifest in other
    ensures Validate(archive) == Validate(other)
  {
  }

  lemma Examples()
    ensures Validate(["litemod.json"]) == Ok(Pass)
    ensures Validate([]) == Err(InvalidInput(MissingManifest))
  {
  }
}
