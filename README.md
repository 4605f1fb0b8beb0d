# Upload validation engine of labrinth, modelled in Dafny

Labrinth decides for each uploaded mod archive whether it is structurally
valid for the loader and game versions it claims, and whether it may become
the primary file of its release. This project models that engine
(`src/validate/`):

- `validation.dfy`, module `Validation`: the result and error types, the
  game-version windows (`All`, `PastDate`, `Range`, `Custom`) and their
  predicate over a catalogue of (version, date) records, and the
  case-insensitive suffix matcher used on entry names.
- `fabric.dfy`, `forge.dfy` (modules `Forge` and `LegacyForge`),
  `quilt.dfy`, `liteloader.dfy`: one module per concrete validator, with its
  descriptor constants and its `Validate` guard chain over the entry names.
- `dispatch.dfy`, module `Dispatch`: the registry `VALIDATORS` in its fixed
  order, a functional specification of `validate_file`
  (`ValidateFileSpec`, built on `FirstApplicable`, the first registry
  position whose three tests hold), the imperative scan `ValidateFile`
  with its `visited` flag, early return and `break`, proved equal to the
  specification, and the ordering facts the registry implies.
- `scenarios.dfy`, module `Scenarios`: end-to-end facts about the dispatch on
  small catalogues.

Modelling choices:

- An opened archive is its list of entry names; `by_name(n).is_ok()` is
  `n in archive`. An archive that does not open is `None`.
- Dates are Unix timestamps as `int`. The catalogue is a `seq` of records and
  Rust's `find` is "the first record with that version".
- `chars()` yields Unicode scalar values, as Dafny's `char` does. Case folding
  touches only `A`..`Z`, as `eq_ignore_ascii_case` does.
- The trait object list becomes the datatype `Dispatch.Validator`, one
  constructor per registry entry. Its descriptor functions map each
  constructor to its module's constants.
- The pack validator's source is not part of this model, so its descriptor
  (`PackDescriptor`) and its outcome on the archive (`packOutcome`) are
  parameters. Every ordering fact is proved for all values of them.
- The functions are deterministic, so equal inputs always give equal
  results.

Two behaviours of the code are easy to miss:

- The matcher is not a plain `ends_with`. It pairs characters with `zip`,
  which stops at the end of the shorter string, so `""`, `"CLASS"` and
  `"map.json"` all match `.class` or `.refmap.json`
  (`Validation.ShortNamesMatch`). The exact characterisation is
  `Validation.MatchMeaning`.
- One might expect an archive without `quilt.mod.json`, declared for the
  `fabric` loader, to get the Quilt error. Fabric comes before Quilt in the
  registry and applies whenever Quilt does, so the Quilt validator is never
  dispatched (`Dispatch.QuiltNeverSelected`), and such an archive gets the
  Fabric error (`Scenarios.QuiltArchiveJudgedAsFabric`).

## Model

| member | source | states |
|---|---|---|
| `Validation.IsPassed` | src/validate/mod.rs:45-54 | a result allows the primary mark exactly when it is not a warning |
| `Validation.Any` | src/validate/mod.rs:140-145 | `any` holds iff some element satisfies the predicate |
| `Validation.Find` | src/validate/mod.rs:141-144 | `find` returns nothing iff no record has the version, and otherwise a record that is the first with that version |
| `Validation.FindReturnsFirstRecord` | src/validate/mod.rs:141-144 | whenever a first record for the version exists, `find` returns exactly that record |
| `Validation.GameVersionSupported` | src/validate/mod.rs:132-159 | `All` always holds; `PastDate(d)` holds iff some declared version's first catalogue record is dated strictly after `d`; `Range(b, a)` iff one is dated strictly between; `Custom(vs)` iff some listed version is declared, without the catalogue; with no declared versions only `All` holds |
| `Validation.PastDateMonotone` | src/validate/mod.rs:139-146 | a declaration that satisfies a later `PastDate` cut-off satisfies every earlier one |
| `Validation.PastDateUnmet` | src/validate/mod.rs:139-146 | `PastDate(d)` fails iff every declared version is missing from the catalogue or first listed on or before `d` |
| `Validation.RangeExamples` | src/validate/mod.rs:147-154 | dates equal to either bound fall outside a range; a later duplicate record of a version is ignored |
| `Validation.UnknownVersionIgnored` | src/validate/mod.rs:139-154 | declaring a version absent from the catalogue does not change a `PastDate` or `Range` verdict |
| `Validation.ReversedZipAll` | src/validate/mod.rs:163-166 | from pair `k` on, the reversed zip agrees iff characters counted from the end agree ignoring ASCII case, up to the shorter length |
| `Validation.SuffixAgrees` | src/validate/mod.rs:163-166 | name and candidate agree ignoring ASCII case on their last `min(|name|, |ext|)` characters |
| `Validation.MatchExtensionIgnoreCase` | src/validate/mod.rs:161-168 | the matcher holds iff some candidate agrees with the name on their common trailing characters; an empty candidate list never matches |
| `Validation.AnyEntryMatches` | src/validate/forge.rs:42-44 | some archive entry satisfies the matcher for the given candidates |
| `Validation.SuffixAgreesMeaning` | src/validate/mod.rs:161-168 | the reversed zip agrees iff the candidate is a case-insensitive suffix of the name or the name is a case-insensitive suffix of the candidate |
| `Validation.MatchMeaning` | src/validate/mod.rs:161-168 | the matcher holds iff, for some candidate, one string case-insensitively ends with the other |
| `Validation.EndsWithMatches` | src/validate/mod.rs:161-168 | case-insensitive `ends_with` on any candidate implies a match |
| `Validation.MatchLongNameIsEndsWith` | src/validate/mod.rs:161-168 | for a name at least as long as every candidate, matching is exactly case-insensitive `ends_with` |
| `Validation.ShortNamesMatch` | src/validate/mod.rs:163-166 | `""`, `"CLASS"` and `"map.json"` match because they are trailing parts of the candidate |
| `Validation.MatchingExamples` | src/validate/mod.rs:174-185 | the single-candidate positive test cases match, and so do mixed-case names |
| `Validation.MultipleExtensionExamples` | src/validate/mod.rs:193-203 | a name matches when a later candidate of several agrees |
| `Validation.WrongExtensionExamples` | src/validate/mod.rs:186-192 | a different suffix of equal or greater length does not match, e.g. `example.refmap.json` against `.class` |
| `Validation.MultipleWrongExtensionExamples` | src/validate/mod.rs:204-214 | a name matches none of several candidates that all differ at the end |
| `Fabric.Validate` | src/validate/fabric.rs:32-51 | the `InvalidInput` error iff `fabric.mod.json` is absent; the source-file warning iff it is present with no `.refmap.json`/`.class` entry; `Pass` iff both; nothing else, so never `PassWithPackData` |
| `Fabric.PassMeaning` | src/validate/fabric.rs:42-50 | Fabric passes iff the manifest is present and some entry case-insensitively ends with `.refmap.json` or `.class`, or is a trailing part of one |
| `Fabric.LoneRefmapPasses` | src/validate/fabric.rs:42-50 | a manifest and a lone `.refmap.json` entry pass |
| `Fabric.ManifestOnlyIsSource` | src/validate/fabric.rs:42-47 | the manifest alone gives the source-file warning |
| `Fabric.AllClear` | src/validate/fabric.rs:32-51 | manifest, class file and refmap pass |
| `Fabric.MissingManifestRefused` | src/validate/fabric.rs:36-40 | without the manifest the result is the `InvalidInput` error even with class and refmap entries |
| `Forge.Check` | src/validate/forge.rs:36-53 | the guard chain shared by both Forge validators, for a missing-manifest warning distinct from the source-file one: never an error; the given missing-manifest warning iff the manifest is absent; the source-file warning iff it is present with no `.class` entry; passed (and then `Pass`) iff both |
| `Forge.CheckPassMeaning` | src/validate/forge.rs:42-53 | the shared chain passes iff the manifest is present and some entry case-insensitively ends with `.class` or is a trailing part of it |
| `Forge.Validate` | src/validate/forge.rs:32-54 | never an error; the mods.toml warning iff `META-INF/mods.toml` is absent; the source-file warning iff it is present with no `.class` entry; passed (and then `Pass`) iff both |
| `Forge.PassMeaning` | src/validate/forge.rs:42-53 | modern Forge passes iff the manifest is present and some entry case-insensitively ends with `.class` or is a trailing part of it |
| `Forge.AllClear` | src/validate/forge.rs:114-126 | mods.toml with `Test.class` passes |
| `Forge.WeirdExtensions` | src/validate/forge.rs:127-139 | mods.toml with `TesT.CLaSS` passes |
| `Forge.MissingModsToml` | src/validate/forge.rs:140-149 | a class file without mods.toml gives the mods.toml warning |
| `Forge.RefmapIsNotClass` | src/validate/forge.rs:150-159 | mods.toml alone, or with only a `.refmap.json`, gives the source-file warning |
| `LegacyForge.Validate` | src/validate/forge.rs:80-102 | never an error; the mcmod.info warning iff `mcmod.info` is absent; the source-file warning iff it is present with no `.class` entry; passed (and then `Pass`) iff both |
| `LegacyForge.PassMeaning` | src/validate/forge.rs:90-101 | legacy Forge passes iff `mcmod.info` is present and some entry case-insensitively ends with `.class` or is a trailing part of it |
| `LegacyForge.AllClear` | src/validate/forge.rs:167-192 | mcmod.info with `Test.class` or `TesT.CLaSS` passes |
| `LegacyForge.MissingPieces` | src/validate/forge.rs:193-213 | a missing mcmod.info and a missing class file each give their warning |
| `Quilt.Validate` | src/validate/quilt.rs:32-51 | the `InvalidInput` error iff `quilt.mod.json` is absent; the source-file warning iff it is present with no `.refmap.json`/`.class` entry; `Pass` iff both |
| `Quilt.PassMeaning` | src/validate/quilt.rs:42-50 | Quilt passes iff the manifest is present and some entry case-insensitively ends with `.refmap.json` or `.class`, or is a trailing part of one |
| `Quilt.AllClear` | src/validate/quilt.rs:62-75 | manifest, class file and refmap pass |
| `Quilt.WeirdExtensions` | src/validate/quilt.rs:76-89 | `TEST.CLASS` and `EXAMPLE.ReFMaP.JSon` each count as compiled output on their own, and the archive with `quilt.mod.json` and both passes |
| `Quilt.MissingQuiltModJson` | src/validate/quilt.rs:90-100 | without the manifest the result is the `InvalidInput` error even with class and refmap entries |
| `Quilt.MissingRefmapAndClassFiles` | src/validate/quilt.rs:101-110 | the manifest alone gives the source-file warning |
| `Quilt.ManifestNameIsCaseSensitive` | src/validate/quilt.rs:36-45 | `QUILT.MOD.JSON` is not the manifest, although `TEST.CLASS` is compiled output |
| `LiteLoader.Validate` | src/validate/liteloader.rs:26-37 | `Pass` iff `litemod.json` is present, otherwise the `InvalidInput` error; never a warning |
| `LiteLoader.OnlyManifestMatters` | src/validate/liteloader.rs:30-36 | two archives that agree on holding `litemod.json` get the same result, whatever else they contain |
| `LiteLoader.Examples` | src/validate/liteloader.rs:48-66 | `litemod.json` alone passes; the empty archive gives the error |
| `Dispatch.Registry` | src/validate/mod.rs:75-82 | `VALIDATORS` has six pairwise distinct entries, the pack validator first and only there, followed by Fabric, Forge, legacy Forge, Quilt and LiteLoader |
| `Dispatch.Applicable` | src/validate/mod.rs:99-107 | an entry is consulted iff the project type is listed, some declared loader is supported, and the game-version window is satisfied; with no declared loader nothing is consulted |
| `Dispatch.Run` | src/validate/mod.rs:110 | the pack entry yields `packOutcome`; a concrete entry runs its module's `Validate`, never yields pack data, and never passes an archive missing its manifest |
| `Dispatch.FirstApplicable` | src/validate/mod.rs:98-114 | the position found is applicable and no earlier one is; none is found iff no position is applicable |
| `Dispatch.FirstApplicableUnique` | src/validate/mod.rs:98-114 | any first applicable position is the one the scan finds |
| `Dispatch.ValidateFileSpec` | src/validate/mod.rs:94-127 | an archive that does not open gives the ZIP error whatever the metadata; with no applicable registry entry the result is `Pass` |
| `Dispatch.ValidateFile` | src/validate/mod.rs:94-127 | the loop with `visited`, early return and `break` computes exactly `ValidateFileSpec` |
| `Dispatch.OnlyFirstApplicableConsulted` | src/validate/mod.rs:98-124 | with the first applicable entry at `i`, its `validate` result is returned verbatim if it accepts the extension, else the extension error; later entries are never tried |
| `Dispatch.NoLoadersPass` | src/validate/mod.rs:100-102 | with no declared loader the result is `Pass` |
| `Dispatch.QuiltImpliesFabric` | src/validate/quilt.rs:17-30 | whenever Quilt's three tests hold, Fabric's hold too |
| `Dispatch.QuiltNeverSelected` | src/validate/mod.rs:75-82 | the dispatch never stops at the Quilt validator, whatever the pack descriptor |
| `Dispatch.LegacyForgeShadowedByForge` | src/validate/forge.rs:60-78 | where legacy Forge applies, modern Forge applies iff some declared version is dated after 1540122067 |
| `Dispatch.LegacyForgeSelectedOverForge` | src/validate/mod.rs:75-82 | when the scan stops at legacy Forge, legacy Forge applies and modern Forge does not |
| `Dispatch.LegacyForgeOnlyForOldVersions` | src/validate/mod.rs:75-82 | when legacy Forge is dispatched, every declared version is unknown or first listed on or before 1540122067 |
| `Dispatch.LiteLoaderRefusesOtherExtensions` | src/validate/mod.rs:109-124 | when LiteLoader is dispatched for an extension other than `litemod`, the result is the extension error |
| `Dispatch.MissingManifestNeverPasses` | src/validate/mod.rs:109-124 | when a concrete validator is dispatched and its manifest is absent, the result is an error or a warning, never a pass |
| `Scenarios.FabricAppliesToModern` | src/validate/fabric.rs:17-30 | for a "mod" declared for "fabric" on a version dated in 2022, Fabric is the first applicable entry |
| `Scenarios.FabricSourceOnly` | src/validate/mod.rs:98-111 | a `jar` holding only `fabric.mod.json` gives the Fabric source-file warning |
| `Scenarios.FabricAllClear` | src/validate/mod.rs:98-111 | `fabric.mod.json`, `Test.class` and a refmap pass end to end |
| `Scenarios.QuiltArchiveJudgedAsFabric` | src/validate/mod.rs:75-82 | an archive without any manifest, declared for "fabric" on a version newer than Quilt's cut-off, gets the Fabric error |
| `Scenarios.LegacyForgeAllClear` | src/validate/forge.rs:72-78 | `mcmod.info` and `Test.class` on version 1.7.10 select legacy Forge, and the file passes |
| `Scenarios.UnclaimedProjectTypePasses` | src/validate/mod.rs:117-127 | a project type no validator claims gives `Pass` |
| `Scenarios.LiteLoaderJarRefused` | src/validate/mod.rs:109-124 | a `jar` declared for "liteloader" gives "File extension jar is invalid for input file" |

## Left out

- The pack validator and the pack format: they are not part of this model.
  The pack's descriptor and its outcome on the archive are free parameters.
  The JSON error variant `SerDe`, which only pack parsing raises, is absent.
- ZIP parsing and decompression: the archive is its list of entry names, and
  an archive that fails to open is `None`, giving the ZIP error. The
  foreign error payloads are dropped. A listed entry counts as present, so
  the model does not capture a `by_name` lookup that fails on a listed entry
  (encryption, an unsupported compression method, a corrupt local header),
  where the code gives the missing-manifest outcome.
- Offloading to the worker pool (`web::block`) and its `Blocking` error: this
  is thread-pool concurrency, outside the decision logic.
- `OffsetDateTime`: dates are integer Unix timestamps, compared as integers.
- `src/validate/test_util.rs` only drives the ZIP writer for tests, and
  `src/routes/` and `src/file_hosting/` are HTTP, database and storage code.
  None of these are part of this model.
