/** The shared vocabulary of the validation engine (src/validate/mod.rs):
    classification results and errors, the game-version support windows,
    the catalogue lookup, and the case-insensitive suffix matcher that every
    concrete validator uses on the archive's entry names. */
module Validation {

  datatype Option<+T> = None | Some(value: T)

  datatype Result<+T, +E> = Ok(value: T) | Err(error: E)

  /** The parsed pack index that the pack validator attaches to its result.
      The pack format is not part of this model, so the value is opaque: it
      only comes in through the pack validator's outcome and is never read. */
  datatype PackFormat = PackFormat

  /** Outcome of a validation that could be carried out. */
  datatype ValidationResult =
    | PassWithPackData(pack: PackFormat)  // primary file, with pack data
    | Pass                                // primary file
    | Warning(reason: string)             // stored, but never primary

  /** Reasons a file could not be evaluated. The payloads of the ZIP and I/O
      errors come from foreign libraries and are dropped. */
  datatype ValidationError =
    | Zip
    | Io
    | InvalidInput(message: string)

  type Outcome = Result<ValidationResult, ValidationError>

  /** An opened archive, seen through its list of entry names. */
  type Archive = seq<string>

  /** Whether the file may be marked primary. */
  predicate IsPassed(v: ValidationResult)
    ensures IsPassed(v) <==> !v.Warning?
  {
    match v
    case PassWithPackData(_) => true
    case Pass => true
    case Warning(_) => false
  }

  /** Iterator::any over a sequence, scanning from the front. */
  function Any<T>(s: seq<T>, p: T -> bool): (r: bool)
    ensures r <==> exists i :: 0 <= i < |s| && p(s[i])
  {
    if |s| == 0 then false else p(s[0]) || Any(s[1..], p)
  }

  // ---------------------------------------------------------------------
  // Game versions

  /** One row of the caller's game-version catalogue; dates are Unix
      timestamps. */
  datatype GameVersionRecord = GameVersionRecord(version: string, date: int)

  /** The game-version window a validator declares. */
  datatype SupportedGameVersions =
    | All
    | PastDate(date: int)
    | Range(before: int, after: int)
    | Custom(versions: seq<string>)

  /** `j` is the position of the first catalogue record for `version`. */
  ghost predicate FirstRecordAt(catalogue: seq<GameVersionRecord>, j: int, version: string) {
    && 0 <= j < |catalogue|
    && catalogue[j].version == version
    && forall k :: 0 <= k < j ==> catalogue[k].version != version
  }

  /** Iterator::find on the catalogue: the first record with this version. */
  function Find(catalogue: seq<GameVersionRecord>, version: string): (r: Option<GameVersionRecord>)
    ensures r.None? <==> forall j :: 0 <= j < |catalogue| ==> catalogue[j].version != version
    ensures r.Some? ==> exists j :: FirstRecordAt(catalogue, j, version) && catalogue[j] == r.value
  {
    if |catalogue| == 0 then None
    else if catalogue[0].version == version then
      assert FirstRecordAt(catalogue, 0, version);
      Some(catalogue[0])
    else
      var r := Find(catalogue[1..], version);
      assert r.Some? ==> exists j :: FirstRecordAt(catalogue, j, version) && catalogue[j] == r.value by {
        if r.Some? {
          var j :| FirstRecordAt(catalogue[1..], j, version) && catalogue[1..][j] == r.value;
          assert FirstRecordAt(catalogue, j + 1, version);
        }
      }
      r
  }

  /** The first record for a version is unique, so it is the one Find returns. */
  lemma FindReturnsFirstRecord(catalogue: seq<GameVersionRecord>, j: int, version: string)
    requires FirstRecordAt(catalogue, j, version)
    ensures Find(catalogue, version) == Some(catalogue[j])
  {
    var r := Find(catalogue, version);
    var j' :| FirstRecordAt(catalogue, j', version) && catalogue[j'] == r.value;
  }

  /** Whether the declared game versions satisfy a validator's window,
      looking each declared version up in the catalogue. */
  function GameVersionSupported(
    gameVersions: seq<string>,
    allGameVersions: seq<GameVersionRecord>,
    supported: SupportedGameVersions
  ): (r: bool)
    ensures supported.All? ==> r
    ensures supported.PastDate? ==>
      (r <==> exists i, j :: 0 <= i < |gameVersions| && FirstRecordAt(allGameVersions, j, gameVersions[i])
                             && allGameVersions[j].date > supported.date)
    ensures supported.Range? ==>
      (r <==> exists i, j :: 0 <= i < |gameVersions| && FirstRecordAt(allGameVersions, j, gameVersions[i])
                             && supported.before < allGameVersions[j].date < supported.after)
    ensures supported.Custom? ==>
      (r <==> exists i :: 0 <= i < |supported.versions| && supported.versions[i] in gameVersions)
    ensures gameVersions == [] ==> (r <==> supported.All?)
  {
    match supported
    case All => true
    case PastDate(date) =>
      var p := (x: string) => var y := Find(allGameVersions, x); y.Some? && y.value.date > date;
      var r := Any(gameVersions, p);
      assert r ==> exists i, j :: 0 <= i < |gameVersions| && FirstRecordAt(allGameVersions, j, gameVersions[i])
                                  && allGameVersions[j].date > date;
      assert (exists i, j :: 0 <= i < |gameVersions| && FirstRecordAt(allGameVersions, j, gameVersions[i])
                             && allGameVersions[j].date > date) ==> r by {
        forall i, j | 0 <= i < |gameVersions| && FirstRecordAt(allGameVersions, j, gameVersions[i])
                      && allGameVersions[j].date > date
          ensures p(gameVersions[i])
        {
          FindReturnsFirstRecord(allGameVersions, j, gameVersions[i]);
        }
      }
      r
    case Range(before, after) =>
      var p := (x: string) => var y := Find(allGameVersions, x); y.Some? && y.value.date > before && y.value.date < after;
      var r := Any(gameVersions, p);
      assert r ==> exists i, j :: 0 <= i < |gameVersions| && FirstRecordAt(allGameVersions, j, gameVersions[i])
                                  && before < allGameVersions[j].date < after;
      assert (exists i, j :: 0 <= i < |gameVersions| && FirstRecordAt(allGameVersions, j, gameVersions[i])
                             && before < allGameVersions[j].date < after) ==> r by {
        forall i, j | 0 <= i < |gameVersions| && FirstRecordAt(allGameVersions, j, gameVersions[i])
                      && before < allGameVersions[j].date < after
          ensures p(gameVersions[i])
        {
          FindReturnsFirstRecord(allGameVersions, j, gameVersions[i]);
        }
      }
      r
    case Custom(versions) =>
      Any(versions, (x: string) => x in gameVersions)
  }

  /** A later cut-off date is harder to satisfy: whatever satisfies
      PastDate(later) satisfies PastDate(earlier). */
  lemma PastDateMonotone(gameVersions: seq<string>, catalogue: seq<GameVersionRecord>, earlier: int, later: int)
    requires earlier <= later
    requires GameVersionSupported(gameVersions, catalogue, PastDate(later))
    ensures GameVersionSupported(gameVersions, catalogue, PastDate(earlier))
  {
    var i, j :| 0 <= i < |gameVersions| && FirstRecordAt(catalogue, j, gameVersions[i])
                && catalogue[j].date > later;
    assert catalogue[j].date > earlier;
  }

  /** A PastDate window fails exactly when every declared version is unknown
      to the catalogue or first listed on or before the cut-off. */
  lemma PastDateUnmet(gameVersions: seq<string>, catalogue: seq<GameVersionRecord>, date: int)
    ensures !GameVersionSupported(gameVersions, catalogue, PastDate(date)) <==>
      forall i :: 0 <= i < |gameVersions| ==>
        match Find(catalogue, gameVersions[i])
        case None => true
        case Some(record) => record.date <= date
  {
    forall i | 0 <= i < |gameVersions| && Find(catalogue, gameVersions[i]).Some?
      ensures exists j :: FirstRecordAt(catalogue, j, gameVersions[i]) && catalogue[j] == Find(catalogue, gameVersions[i]).value
    {
    }
    forall i, j | 0 <= i < |gameVersions| && FirstRecordAt(catalogue, j, gameVersions[i])
      ensures Find(catalogue, gameVersions[i]) == Some(catalogue[j])
    {
      FindReturnsFirstRecord(catalogue, j, gameVersions[i]);
    }
  }

  /** Both ends of a Range window are exclusive, and only the first
      catalogue record of a version is looked at. */
  lemma RangeExamples()
    ensures !GameVersionSupported(["b"], [GameVersionRecord("b", 10)], Range(10, 20))
    ensures !GameVersionSupported(["b"], [GameVersionRecord("b", 20)], Range(10, 20))
    ensures GameVersionSupported(["b"], [GameVersionRecord("b", 15)], Range(10, 20))
    ensures !GameVersionSupported(["b"], [GameVersionRecord("b", 5), GameVersionRecord("b", 15)], Range(10, 20))
  {
    assert FirstRecordAt([GameVersionRecord("b", 15)], 0, ["b"][0]);
    FindReturnsFirstRecord([GameVersionRecord("b", 5), GameVersionRecord("b", 15)], 0, "b");
  }

  /** Declaring a version the catalogue does not know changes nothing for
      the date-based windows. */
  lemma UnknownVersionIgnored(gameVersions: seq<string>, catalogue: seq<GameVersionRecord>, v: string, supported: SupportedGameVersions)
    requires supported.PastDate? || supported.Range?
    requires forall j :: 0 <= j < |catalogue| ==> catalogue[j].version != v
    ensures GameVersionSupported(gameVersions + [v], catalogue, supported)
         == GameVersionSupported(gameVersions, catalogue, supported)
  {
    var extended := gameVersions + [v];
    assert forall i :: 0 <= i < |gameVersions| ==> extended[i] == gameVersions[i];
    forall j | 0 <= j < |catalogue|
      ensures !FirstRecordAt(catalogue, j, extended[|gameVersions|])
    {
    }
    if GameVersionSupported(extended, catalogue, supported) {
      var i, j :| 0 <= i < |extended| && FirstRecordAt(catalogue, j, extended[i])
                  && (if supported.PastDate? then catalogue[j].date > supported.date
                      else supported.before < catalogue[j].date < supported.after);
      assert i < |gameVersions|;
      assert FirstRecordAt(catalogue, j, gameVersions[i]);
    }
  }

  // ---------------------------------------------------------------------
  // Extension matching

  /** char::to_ascii_lowercase: only 'A'..'Z' are folded. */
  function ToAsciiLowercase(c: char): char {
    if 'A' <= c <= 'Z' then (c as int + 32) as char else c
  }

  predicate EqIgnoreAsciiCase(a: char, b: char) {
    ToAsciiLowercase(a) == ToAsciiLowercase(b)
  }

  function Min(a: int, b: int): int {
    if a <= b then a else b
  }

  /** The k-th character counted from the end (k = 0 is the last one). */
  function FromEnd(s: string, k: nat): char
    requires k < |s|
  {
    s[|s| - 1 - k]
  }

  /** The matcher's character comparison from the k-th pair on: it pairs
      characters from the end of both strings, compares them ignoring ASCII
      case, and stops at the end of the shorter string. */
  function ReversedZipAll(name: string, ext: string, k: nat): (r: bool)
    ensures r <==> forall k' :: k <= k' < Min(|name|, |ext|) ==> EqIgnoreAsciiCase(FromEnd(name, k'), FromEnd(ext, k'))
    decreases |name| - k
  {
    if k >= |name| || k >= |ext| then true
    else EqIgnoreAsciiCase(FromEnd(name, k), FromEnd(ext, k)) && ReversedZipAll(name, ext, k + 1)
  }

  function SuffixAgrees(name: string, ext: string): (r: bool)
    ensures r <==> forall k :: 0 <= k < Min(|name|, |ext|) ==> EqIgnoreAsciiCase(FromEnd(name, k), FromEnd(ext, k))
  {
    ReversedZipAll(name, ext, 0)
  }

  /** match_extension_ignore_case: some candidate agrees with the name on
      their common trailing characters. */
  function MatchExtensionIgnoreCase(name: string, exts: seq<string>): (r: bool)
    ensures r <==> exists i :: 0 <= i < |exts| && SuffixAgrees(name, exts[i])
    ensures exts == [] ==> !r
  {
    Any(exts, (ext: string) => SuffixAgrees(name, ext))
  }

  /** Some entry name of the archive satisfies the matcher. */
  function AnyEntryMatches(names: Archive, suffixes: seq<string>): (r: bool)
    ensures r <==> exists i :: 0 <= i < |names| && MatchExtensionIgnoreCase(names[i], suffixes)
  {
    Any(names, (name: string) => MatchExtensionIgnoreCase(name, suffixes))
  }

  // Reference definition: case-insensitive `ends_with` on lower-cased copies.

  function Lowered(s: string): (r: string)
    ensures |r| == |s|
  {
    seq(|s|, i requires 0 <= i < |s| => ToAsciiLowercase(s[i]))
  }

  predicate EndsWithIgnoreCase(name: string, suffix: string) {
    |suffix| <= |name| && Lowered(name[|name| - |suffix|..]) == Lowered(suffix)
  }

  lemma EndsWithFromEnd(name: string, suffix: string)
    requires |suffix| <= |name|
    ensures EndsWithIgnoreCase(name, suffix)
        <==> forall k :: 0 <= k < |suffix| ==> EqIgnoreAsciiCase(FromEnd(name, k), FromEnd(suffix, k))
  {
    var tail := name[|name| - |suffix|..];
    if EndsWithIgnoreCase(name, suffix) {
      forall k | 0 <= k < |suffix|
        ensures EqIgnoreAsciiCase(FromEnd(name, k), FromEnd(suffix, k))
      {
        assert Lowered(tail)[|suffix| - 1 - k] == Lowered(suffix)[|suffix| - 1 - k];
      }
    }
    if forall k :: 0 <= k < |suffix| ==> EqIgnoreAsciiCase(FromEnd(name, k), FromEnd(suffix, k)) {
      forall i | 0 <= i < |suffix|
        ensures Lowered(tail)[i] == Lowered(suffix)[i]
      {
        assert EqIgnoreAsciiCase(FromEnd(name, |suffix| - 1 - i), FromEnd(suffix, |suffix| - 1 - i));
      }
    }
  }

  /** What the reversed zip really decides: the candidate is a
      case-insensitive suffix of the name, or the name is a
      case-insensitive suffix of the candidate. */
  lemma SuffixAgreesMeaning(name: string, ext: string)
    ensures SuffixAgrees(name, ext) <==> EndsWithIgnoreCase(name, ext) || EndsWithIgnoreCase(ext, name)
  {
    if |ext| <= |name| {
      EndsWithFromEnd(name, ext);
      if |name| <= |ext| {
        EndsWithFromEnd(ext, name);
        assert forall k :: 0 <= k < |name| ==>
          (EqIgnoreAsciiCase(FromEnd(name, k), FromEnd(ext, k)) <==> EqIgnoreAsciiCase(FromEnd(ext, k), FromEnd(name, k)));
      }
    } else {
      EndsWithFromEnd(ext, name);
      assert forall k :: 0 <= k < |name| ==>
        (EqIgnoreAsciiCase(FromEnd(name, k), FromEnd(ext, k)) <==> EqIgnoreAsciiCase(FromEnd(ext, k), FromEnd(name, k)));
    }
  }

  /** The matcher holds exactly when some candidate is a case-insensitive
      suffix of the name, or the name is a case-insensitive suffix of some
      candidate. */
  lemma MatchMeaning(name: string, exts: seq<string>)
    ensures MatchExtensionIgnoreCase(name, exts)
        <==> exists i :: 0 <= i < |exts| && (EndsWithIgnoreCase(name, exts[i]) || EndsWithIgnoreCase(exts[i], name))
  {
    forall i | 0 <= i < |exts|
      ensures SuffixAgrees(name, exts[i]) <==> (EndsWithIgnoreCase(name, exts[i]) || EndsWithIgnoreCase(exts[i], name))
    {
      SuffixAgreesMeaning(name, exts[i]);
    }
  }

  /** Case-insensitive `ends_with` implies a match. */
  lemma EndsWithMatches(name: string, exts: seq<string>, i: int)
    requires 0 <= i < |exts| && EndsWithIgnoreCase(name, exts[i])
    ensures MatchExtensionIgnoreCase(name, exts)
  {
    SuffixAgreesMeaning(name, exts[i]);
  }

  /** For names at least as long as every candidate, the matcher is exactly
      case-insensitive `ends_with`. */
  lemma MatchLongNameIsEndsWith(name: string, exts: seq<string>)
    requires forall i :: 0 <= i < |exts| ==> |exts[i]| <= |name|
    ensures MatchExtensionIgnoreCase(name, exts) <==> exists i :: 0 <= i < |exts| && EndsWithIgnoreCase(name, exts[i])
  {
    MatchMeaning(name, exts);
    forall i | 0 <= i < |exts| && EndsWithIgnoreCase(exts[i], name)
      ensures EndsWithIgnoreCase(name, exts[i])
    {
      SuffixAgreesMeaning(name, exts[i]);
      SuffixAgreesMeaning(exts[i], name);
    }
  }

  /** A name that is itself a trailing part of the candidate matches: the
      comparison stops at the end of the shorter string. */
  lemma ShortNamesMatch()
    ensures MatchExtensionIgnoreCase("", [".class"])
    ensures MatchExtensionIgnoreCase("CLASS", [".class"])
    ensures MatchExtensionIgnoreCase("map.json", [".refmap.json"])
  {
    assert SuffixAgrees("", ".class");
    assert SuffixAgrees("CLASS", ".class");
    assert SuffixAgrees("map.json", ".refmap.json");
  }

  /** The matcher's unit tests with one matching candidate, and mixed case. */
  lemma MatchingExamples()
    ensures MatchExtensionIgnoreCase("quilt.mod.json", [".json"])
    ensures MatchExtensionIgnoreCase("quilt.mod.json", [".mod.json"])
    ensures MatchExtensionIgnoreCase("quilt.mod.json", ["quilt.mod.json"])
    ensures MatchExtensionIgnoreCase("Test.CLASS", [".class"])
    ensures MatchExtensionIgnoreCase("EXAMPLE.ReFMaP.JSon", [".refmap.json"])
  {
    assert SuffixAgrees("quilt.mod.json", ".json");
    assert SuffixAgrees("quilt.mod.json", ".mod.json");
    assert SuffixAgrees("quilt.mod.json", "quilt.mod.json");
    assert SuffixAgrees("Test.CLASS", ".class");
    assert SuffixAgrees("EXAMPLE.ReFMaP.JSon", ".refmap.json");
  }

  /** The matcher's unit tests where a later candidate matches. */
  lemma MultipleExtensionExamples()
    ensures MatchExtensionIgnoreCase("quilt.mod.json", [".not.gonna.match", ".json"])
    ensures MatchExtensionIgnoreCase("Test$1$2$3.class", [".refmap.json", ".class"])
  {
    assert SuffixAgrees("quilt.mod.json", ".json");
    assert [".not.gonna.match", ".json"][1] == ".json";
    assert SuffixAgrees("Test$1$2$3.class", ".class");
    assert [".refmap.json", ".class"][1] == ".class";
  }

  /** The matcher's unit tests with one wrong candidate: a different suffix
      of equal or greater length does not match. */
  lemma WrongExtensionExamples()
    ensures !MatchExtensionIgnoreCase("quilt.mod.json", [".toml"])
    ensures !MatchExtensionIgnoreCase("quilt.mod.json", [".class"])
    ensures !MatchExtensionIgnoreCase("mods.toml", [".yaml"])
    ensures !MatchExtensionIgnoreCase("example.refmap.json", [".class"])
  {
    assert !SuffixAgrees("quilt.mod.json", ".toml");
    assert !SuffixAgrees("quilt.mod.json", ".class");
    assert !SuffixAgrees("mods.toml", ".yaml");
    assert !SuffixAgrees("example.refmap.json", ".class");
  }

  /** The matcher's unit tests where no candidate of several matches. */
  lemma MultipleWrongExtensionExamples()
    ensures !MatchExtensionIgnoreCase("quilt.mod.json", [".neither.of", ".these.matches"])
    ensures !MatchExtensionIgnoreCase("Test.class", [".java", ".kt", ".scala", ".groovy"])
  {
    var first := [".neither.of", ".these.matches"];
    assert !SuffixAgrees("quilt.mod.json", first[0]);
    assert !SuffixAgrees("quilt.mod.json", first[1]);
    var second := [".java", ".kt", ".scala", ".groovy"];
    assert !SuffixAgrees("Test.class", second[0]);
    assert !SuffixAgrees("Test.class", second[1]);
    assert !SuffixAgrees("Test.class", second[2]);
    assert !SuffixAgrees("Test.class", second[3]);
  }
}
