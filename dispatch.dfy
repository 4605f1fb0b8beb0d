/** The validator registry and the dispatch engine (src/validate/mod.rs):
    `VALIDATORS` in its fixed order and `validate_file`, which consults only
    the first validator whose project type, loader and game-version tests
    all hold. */
module Dispatch {
  import opened Validation
  import Fabric
  import Forge
  import LegacyForge
  import Quilt
  import LiteLoader

  /** Descriptor of the pack validator. The pack format is not part of this
      model, so its descriptor is left open and every fact below holds for
      any value of it. */
  datatype PackDescriptor = PackDescriptor(
    fileExtensions: seq<string>,
    projectTypes: seq<string>,
    supportedLoaders: seq<string>,
    supportedGameVersions: SupportedGameVersions)

  /** One constructor per entry of the registry. */
  datatype Validator =
    | PackValidator(descriptor: PackDescriptor)
    | FabricValidator
    | ForgeValidator
    | LegacyForgeValidator
    | QuiltValidator
    | LiteLoaderValidator

  function FileExtensions(v: Validator): seq<string> {
    match v
    case PackValidator(d) => d.fileExtensions
    case FabricValidator => Fabric.FileExtensions
    case ForgeValidator => Forge.FileExtensions
    case LegacyForgeValidator => LegacyForge.FileExtensions
    case QuiltValidator => Quilt.FileExtensions
    case LiteLoaderValidator => LiteLoader.FileExtensions
  }

  function ProjectTypes(v: Validator): seq<string> {
    match v
    case PackValidator(d) => d.projectTypes
    case FabricValidator => Fabric.ProjectTypes
    case ForgeValidator => Forge.ProjectTypes
    case LegacyForgeValidator => LegacyForge.ProjectTypes
    case QuiltValidator => Quilt.ProjectTypes
    case LiteLoaderValidator => LiteLoader.ProjectTypes
  }

  function SupportedLoaders(v: Validator): seq<string> {
    match v
    case PackValidator(d) => d.supportedLoaders
    case FabricValidator => Fabric.SupportedLoaders
    case ForgeValidator => Forge.SupportedLoaders
    case LegacyForgeValidator => LegacyForge.SupportedLoaders
    case QuiltValidator => Quilt.SupportedLoaders
    case LiteLoaderValidator => LiteLoader.SupportedLoaders
  }

  function GameVersionWindow(v: Validator): SupportedGameVersions {
    match v
    case PackValidator(d) => d.supportedGameVersions
    case FabricValidator => Fabric.GameVersionWindow
    case ForgeValidator => Forge.GameVersionWindow
    case LegacyForgeValidator => LegacyForge.GameVersionWindow
    case QuiltValidator => Quilt.GameVersionWindow
    case LiteLoaderValidator => LiteLoader.GameVersionWindow
  }

  /** Runs a validator on the archive's entry names. The pack validator
      reads entry contents, which are not modelled: `packOutcome` is what it
      yields on this archive. */
  function Run(v: Validator, archive: Archive, packOutcome: Outcome): (r: Outcome)
    ensures v.PackValidator? ==> r == packOutcome
    ensures !v.PackValidator? && r.Ok? ==> !r.value.PassWithPackData?
    ensures !v.PackValidator? && Manifest(v) !in archive ==> r.Err? || !IsPassed(r.value)
  {
    match v
    case PackValidator(_) => packOutcome
    case FabricValidator => Fabric.Validate(archive)
    case ForgeValidator => Forge.Validate(archive)
    case LegacyForgeValidator => LegacyForge.Validate(archive)
    case QuiltValidator => Quilt.Validate(archive)
    case LiteLoaderValidator => LiteLoader.Validate(archive)
  }

  /** The exact entry name each concrete validator looks for first. */
  function Manifest(v: Validator): string
    requires !v.PackValidator?
  {
    match v
    case FabricValidator => Fabric.Manifest
    case ForgeValidator => Forge.Manifest
    case LegacyForgeValidator => LegacyForge.Manifest
    case QuiltValidator => Quilt.Manifest
    case LiteLoaderValidator => LiteLoader.Manifest
  }

  /** `VALIDATORS`, in declaration order. */
  function Registry(pack: PackDescriptor): (r: seq<Validator>)
    ensures |r| == 6
    ensures r[0] == PackValidator(pack)
    ensures forall i :: 1 <= i < |r| ==> !r[i].PackValidator?
    ensures forall i, j :: 0 <= i < j < |r| ==> r[i] != r[j]
  {
    [PackValidator(pack), FabricValidator, ForgeValidator, LegacyForgeValidator, QuiltValidator, LiteLoaderValidator]
  }

  /** The three tests a registry entry must pass to be consulted. */
  predicate Applicable(
    v: Validator, projectType: string, loaders: seq<string>,
    gameVersions: seq<string>, allGameVersions: seq<GameVersionRecord>)
    ensures Applicable(v, projectType, loaders, gameVersions, allGameVersions) <==>
      && projectType in ProjectTypes(v)
      && (exists i :: 0 <= i < |loaders| && loaders[i] in SupportedLoaders(v))
      && GameVersionSupported(gameVersions, allGameVersions, GameVersionWindow(v))
    ensures loaders == [] ==> !Applicable(v, projectType, loaders, gameVersions, allGameVersions)
  {
    && projectType in ProjectTypes(v)
    && Any(loaders, (x: string) => x in SupportedLoaders(v))
    && GameVersionSupported(gameVersions, allGameVersions, GameVersionWindow(v))
  }

  /** `i` is the first applicable position of `registry`. */
  ghost predicate FirstApplicableAt(
    registry: seq<Validator>, i: int, projectType: string, loaders: seq<string>,
    gameVersions: seq<string>, allGameVersions: seq<GameVersionRecord>)
  {
    && 0 <= i < |registry|
    && Applicable(registry[i], projectType, loaders, gameVersions, allGameVersions)
    && forall j :: 0 <= j < i ==> !Applicable(registry[j], projectType, loaders, gameVersions, allGameVersions)
  }

  /** Specification of the scan: the first applicable position, if any. */
  function FirstApplicable(
    registry: seq<Validator>, projectType: string, loaders: seq<string>,
    gameVersions: seq<string>, allGameVersions: seq<GameVersionRecord>): (r: Option<nat>)
    ensures r.Some? ==> FirstApplicableAt(registry, r.value, projectType, loaders, gameVersions, allGameVersions)
    ensures r.None? <==> forall j :: 0 <= j < |registry| ==> !Applicable(registry[j], projectType, loaders, gameVersions, allGameVersions)
  {
    if |registry| == 0 then None
    else if Applicable(registry[0], projectType, loaders, gameVersions, allGameVersions) then Some(0)
    else
      var r := FirstApplicable(registry[1..], projectType, loaders, gameVersions, allGameVersions);
      if r.None? then None else Some(r.value + 1)
  }

  /** The validator the scan stops at, if any. */
  function Selected(
    pack: PackDescriptor, projectType: string, loaders: seq<string>,
    gameVersions: seq<string>, allGameVersions: seq<GameVersionRecord>): Option<Validator>
  {
    var k := FirstApplicable(Registry(pack), projectType, loaders, gameVersions, allGameVersions);
    if k.Some? then Some(Registry(pack)[k.value]) else None
  }

  function ExtensionMessage(fileExtension: string): string {
    "File extension " + fileExtension + " is invalid for input file"
  }

  /** What `validate_file` returns. `archive` is None when the bytes do not
      open as a ZIP archive. */
  function ValidateFileSpec(
    archive: Option<Archive>, fileExtension: string, projectType: string, loaders: seq<string>,
    gameVersions: seq<string>, allGameVersions: seq<GameVersionRecord>,
    pack: PackDescriptor, packOutcome: Outcome): (r: Outcome)
    ensures archive.None? ==> r == Err(Zip)
    ensures archive.Some? && (forall j :: 0 <= j < 6 ==> !Applicable(Registry(pack)[j], projectType, loaders, gameVersions, allGameVersions))
      ==> r == Ok(Pass)
  {
    match archive
    case None => Err(Zip)
    case Some(names) =>
      match Selected(pack, projectType, loaders, gameVersions, allGameVersions)
      case None => Ok(Pass)
      case Some(v) =>
        if fileExtension in FileExtensions(v) then Run(v, names, packOutcome)
        else Err(InvalidInput(ExtensionMessage(fileExtension)))
  }

  /** `validate_file`: the scan over the registry with its `visited` flag,
      early return and break. */
  method ValidateFile(
    archive: Option<Archive>, fileExtension: string, projectType: string, loaders: seq<string>,
    gameVersions: seq<string>, allGameVersions: seq<GameVersionRecord>,
    pack: PackDescriptor, packOutcome: Outcome) returns (r: Outcome)
    ensures r == ValidateFileSpec(archive, fileExtension, projectType, loaders, gameVersions, allGameVersions, pack, packOutcome)
  {
    if archive.None? {
      return Err(Zip);
    }
    var zip := archive.value;
    var validators := Registry(pack);
    var visited := false;
    var i := 0;
    while i < |validators|
      invariant 0 <= i <= |validators|
      invariant !visited
      invariant forall j :: 0 <= j < i ==> !Applicable(validators[j], projectType, loaders, gameVersions, allGameVersions)
    {
      var validator := validators[i];
      if projectType in ProjectTypes(validator)
        && Any(loaders, (x: string) => x in SupportedLoaders(validator))
        && GameVersionSupported(gameVersions, allGameVersions, GameVersionWindow(validator))
      {
        assert FirstApplicableAt(validators, i, projectType, loaders, gameVersions, allGameVersions);
        FirstApplicableUnique(validators, i, projectType, loaders, gameVersions, allGameVersions);
        if fileExtension in FileExtensions(validator) {
          return Run(validator, zip, packOutcome);
        }
        visited := true;
        break;
      }
      i := i + 1;
    }
    if visited {
      r := Err(InvalidInput(ExtensionMessage(fileExtension)));
    } else {
      r := Ok(Pass);
    }
  }

  /** There is only one first applicable position, and the scan finds it. */
  lemma FirstApplicableUnique(
    registry: seq<Validator>, i: int, projectType: string, loaders: seq<string>,
    gameVersions: seq<string>, allGameVersions: seq<GameVersionRecord>)
    requires FirstApplicableAt(registry, i, projectType, loaders, gameVersions, allGameVersions)
    ensures FirstApplicable(registry, projectType, loaders, gameVersions, allGameVersions) == Some(i)
  {
    var r := FirstApplicable(registry, projectType, loaders, gameVersions, allGameVersions);
    assert r.Some?;
  }

  /** Only the first applicable registry entry is consulted: its result is
      returned verbatim when it accepts the extension, and otherwise the
      extension is refused without trying any later entry. */
  lemma OnlyFirstApplicableConsulted(
    archive: Archive, fileExtension: string, projectType: string, loaders: seq<string>,
    gameVersions: seq<string>, allGameVersions: seq<GameVersionRecord>,
    pack: PackDescriptor, packOutcome: Outcome, i: int)
    requires FirstApplicableAt(Registry(pack), i, projectType, loaders, gameVersions, allGameVersions)
    ensures var v := Registry(pack)[i];
      ValidateFileSpec(Some(archive), fileExtension, projectType, loaders, gameVersions, allGameVersions, pack, packOutcome)
      == if fileExtension in FileExtensions(v) then Run(v, archive, packOutcome)
         else Err(InvalidInput("File extension " + fileExtension + " is invalid for input file"))
  {
    FirstApplicableUnique(Registry(pack), i, projectType, loaders, gameVersions, allGameVersions);
  }

  /** Without any declared loader no entry applies, so the file passes. */
  lemma NoLoadersPass(
    archive: Archive, fileExtension: string, projectType: string,
    gameVersions: seq<string>, allGameVersions: seq<GameVersionRecord>,
    pack: PackDescriptor, packOutcome: Outcome)
    ensures ValidateFileSpec(Some(archive), fileExtension, projectType, [], gameVersions, allGameVersions, pack, packOutcome)
      == Ok(Pass)
  {
  }

  /** Quilt's window implies Fabric's, and the two agree on project types and
      loaders: whenever Quilt applies, Fabric applies too. */
  lemma QuiltImpliesFabric(
    projectType: string, loaders: seq<string>,
    gameVersions: seq<string>, allGameVersions: seq<GameVersionRecord>)
    requires Applicable(QuiltValidator, projectType, loaders, gameVersions, allGameVersions)
    ensures Applicable(FabricValidator, projectType, loaders, gameVersions, allGameVersions)
  {
    PastDateMonotone(gameVersions, allGameVersions, 1543969469, 1646070100);
    var i :| 0 <= i < |loaders| && loaders[i] in Quilt.SupportedLoaders;
    assert loaders[i] in Fabric.SupportedLoaders;
  }

  /** The Quilt validator is never dispatched: Fabric comes first in the
      registry and applies whenever Quilt does. */
  lemma QuiltNeverSelected(
    pack: PackDescriptor, projectType: string, loaders: seq<string>,
    gameVersions: seq<string>, allGameVersions: seq<GameVersionRecord>)
    ensures Selected(pack, projectType, loaders, gameVersions, allGameVersions) != Some(QuiltValidator)
  {
    var registry := Registry(pack);
    var k := FirstApplicable(registry, projectType, loaders, gameVersions, allGameVersions);
    if Applicable(QuiltValidator, projectType, loaders, gameVersions, allGameVersions) {
      QuiltImpliesFabric(projectType, loaders, gameVersions, allGameVersions);
      assert registry[1] == FabricValidator;
      assert k.Some? && k.value <= 1;
    }
  }

  /** Modern and legacy Forge share project types and loaders, so where
      legacy Forge applies, modern Forge applies exactly when some declared
      version is dated after 1540122067. */
  lemma LegacyForgeShadowedByForge(
    projectType: string, loaders: seq<string>,
    gameVersions: seq<string>, allGameVersions: seq<GameVersionRecord>)
    requires Applicable(LegacyForgeValidator, projectType, loaders, gameVersions, allGameVersions)
    ensures Applicable(ForgeValidator, projectType, loaders, gameVersions, allGameVersions)
        <==> GameVersionSupported(gameVersions, allGameVersions, PastDate(1540122067))
  {
    var i :| 0 <= i < |loaders| && loaders[i] in LegacyForge.SupportedLoaders;
    assert loaders[i] in Forge.SupportedLoaders;
  }

  /** Legacy Forge is reached only when modern Forge, which comes first and
      shares its project types and loaders, does not apply: no declared
      version is dated after 1540122067 in the catalogue. */
  lemma LegacyForgeOnlyForOldVersions(
    pack: PackDescriptor, projectType: string, loaders: seq<string>,
    gameVersions: seq<string>, allGameVersions: seq<GameVersionRecord>)
    requires Selected(pack, projectType, loaders, gameVersions, allGameVersions) == Some(LegacyForgeValidator)
    ensures forall i :: 0 <= i < |gameVersions| ==>
      match Find(allGameVersions, gameVersions[i])
      case None => true
      case Some(record) => record.date <= 1540122067
  {
    LegacyForgeSelectedOverForge(pack, projectType, loaders, gameVersions, allGameVersions);
    LegacyForgeShadowedByForge(projectType, loaders, gameVersions, allGameVersions);
    PastDateUnmet(gameVersions, allGameVersions, 1540122067);
  }

  /** When the scan stops at legacy Forge, legacy Forge applies and modern
      Forge, one position earlier, does not. */
  lemma LegacyForgeSelectedOverForge(
    pack: PackDescriptor, projectType: string, loaders: seq<string>,
    gameVersions: seq<string>, allGameVersions: seq<GameVersionRecord>)
    requires Selected(pack, projectType, loaders, gameVersions, allGameVersions) == Some(LegacyForgeValidator)
    ensures Applicable(LegacyForgeValidator, projectType, loaders, gameVersions, allGameVersions)
    ensures !Applicable(ForgeValidator, projectType, loaders, gameVersions, allGameVersions)
  {
    var registry := Registry(pack);
    var k := FirstApplicable(registry, projectType, loaders, gameVersions, allGameVersions);
    assert k.value == 3;
    assert registry[2] == ForgeValidator;
  }

  /** An archive without the manifest of the validator it is dispatched to
      is never cleared for the primary mark: it is refused or warned about. */
  lemma MissingManifestNeverPasses(
    archive: Archive, fileExtension: string, projectType: string, loaders: seq<string>,
    gameVersions: seq<string>, allGameVersions: seq<GameVersionRecord>,
    pack: PackDescriptor, packOutcome: Outcome, v: Validator)
    requires Selected(pack, projectType, loaders, gameVersions, allGameVersions) == Some(v)
    requires !v.PackValidator? && Manifest(v) !in archive
    ensures var r := ValidateFileSpec(Some(archive), fileExtension, projectType, loaders, gameVersions, allGameVersions, pack, packOutcome);
      r.Err? || !IsPassed(r.value)
  {
  }

  /** LiteLoader accepts only `litemod`: when it is dispatched for any other
      extension the result is the extension error, not its own check. */
  lemma LiteLoaderRefusesOtherExtensions(
    archive: Archive, fileExtension: string, projectType: string, loaders: seq<string>,
    gameVersions: seq<string>, allGameVersions: seq<GameVersionRecord>,
    pack: PackDescriptor, packOutcome: Outcome)
    requires Selected(pack, projectType, loaders, gameVersions, allGameVersions) == Some(LiteLoaderValidator)
    requires fileExtension != "litemod"
    ensures ValidateFileSpec(Some(archive), fileExtension, projectType, loaders, gameVersions, allGameVersions, pack, packOutcome)
      == Err(InvalidInput("File extension " + fileExtension + " is invalid for input file"))
  {
    assert FileExtensions(LiteLoaderValidator) == ["litemod"];
    assert fileExtension !in FileExtensions(LiteLoaderValidator);
  }
}
