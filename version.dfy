/** The version calculator and the package metadata it reads and writes
    (lib/version.js). The metadata file is a map from field names to values;
    only its `version` field is read or written. */
module Version {
  import opened Text

  const VersionKey := "version"
  const PatchRelease := "patch"
  const MinorRelease := "minor"
  const MajorRelease := "major"

  /** At least three dot-separated components, the first three of them
      plain decimal numerals. */
  predicate WellFormedVersion(v: string) {
    var c := Split(v, '.');
    |c| >= 3 && IsNumeral(c[0]) && IsNumeral(c[1]) && IsNumeral(c[2])
  }

  /** The numeric (major, minor, patch) triple of a well-formed version. */
  function Components(v: string): (nat, nat, nat)
    requires WellFormedVersion(v)
  {
    var c := Split(v, '.');
    (ParseNat(c[0]), ParseNat(c[1]), ParseNat(c[2]))
  }

  /** `parseInt(component, 10) + 1`, rendered back as decimal text. */
  function Increment(component: string): (r: string)
    requires IsNumeral(component)
    ensures IsNumeral(r) && ParseNat(r) == ParseNat(component) + 1
    ensures r[0] != '0'
  {
    ParseNatToString(ParseNat(component) + 1);
    NatToString(ParseNat(component) + 1)
  }

  /** The three components after a release of the given kind; a component
      that is neither incremented nor reset keeps its original text. */
  function BumpedComponents(major: string, minor: string, patch: string, kind: string): (parts: seq<string>)
    requires IsNumeral(major) && IsNumeral(minor) && IsNumeral(patch)
    ensures |parts| == 3 && forall i :: 0 <= i < 3 ==> IsNumeral(parts[i])
  {
    if kind == PatchRelease then [major, minor, Increment(patch)]
    else if kind == MinorRelease then [major, Increment(minor), "0"]
    else if kind == MajorRelease then [Increment(major), "0", "0"]
    else [major, minor, patch]
  }

  /** Numerals joined with dots split back into the same numerals. */
  lemma NumeralsSplitJoin(parts: seq<string>)
    requires |parts| >= 1 && forall i :: 0 <= i < |parts| ==> IsNumeral(parts[i])
    ensures Split(Join(parts, '.'), '.') == parts
  {
    forall i | 0 <= i < |parts|
      ensures '.' !in parts[i]
    {
      NumeralHasOnlyDigits(parts[i], '.');
    }
    SplitJoin(parts, '.');
  }

  /** The version string `bumpVersion` computes from `v`. It has exactly
      three components, the ones computed above, so it is well-formed again. */
  function Bumped(v: string, kind: string): (r: string)
    requires WellFormedVersion(v)
    ensures var c := Split(v, '.');
      Split(r, '.') == BumpedComponents(c[0], c[1], c[2], kind)
    ensures WellFormedVersion(r)
  {
    var c := Split(v, '.');
    var parts := BumpedComponents(c[0], c[1], c[2], kind);
    NumeralsSplitJoin(parts);
    Join(parts, '.')
  }

  /** A bumped version holds only digits and dots. */
  lemma BumpedDigits(v: string, kind: string)
    requires WellFormedVersion(v)
    ensures forall ch :: ch != '.' && !IsDigit(ch) ==> ch !in Bumped(v, kind)
  {
    var c := Split(v, '.');
    var parts := BumpedComponents(c[0], c[1], c[2], kind);
    forall ch | ch != '.' && !IsDigit(ch)
      ensures ch !in Bumped(v, kind)
    {
      forall i | 0 <= i < |parts|
        ensures ch !in parts[i]
      {
        NumeralHasOnlyDigits(parts[i], ch);
      }
      JoinChars(parts, '.', ch);
    }
  }

  /** Lexicographic order on (major, minor, patch). */
  predicate LexLess(a: (nat, nat, nat), b: (nat, nat, nat)) {
    a.0 < b.0 || (a.0 == b.0 && (a.1 < b.1 || (a.1 == b.1 && a.2 < b.2)))
  }

  /** A patch release adds one to the patch number and keeps the text of
      the major and minor components. */
  lemma BumpPatch(v: string)
    requires WellFormedVersion(v)
    ensures WellFormedVersion(Bumped(v, PatchRelease))
    ensures var old3 := Components(v);
      Components(Bumped(v, PatchRelease)) == (old3.0, old3.1, old3.2 + 1)
    ensures var c, r := Split(v, '.'), Split(Bumped(v, PatchRelease), '.');
      |r| == 3 && r[0] == c[0] && r[1] == c[1]
  {
  }

  /** A minor release adds one to the minor number, resets patch to 0 and
      keeps the text of the major component. */
  lemma BumpMinor(v: string)
    requires WellFormedVersion(v)
    ensures WellFormedVersion(Bumped(v, MinorRelease))
    ensures var old3 := Components(v);
      Components(Bumped(v, MinorRelease)) == (old3.0, old3.1 + 1, 0)
    ensures var c, r := Split(v, '.'), Split(Bumped(v, MinorRelease), '.');
      |r| == 3 && r[0] == c[0] && r[2] == "0"
  {
  }

  /** A major release adds one to the major number and resets minor and
      patch to 0. */
  lemma BumpMajor(v: string)
    requires WellFormedVersion(v)
    ensures WellFormedVersion(Bumped(v, MajorRelease))
    ensures var old3 := Components(v);
      Components(Bumped(v, MajorRelease)) == (old3.0 + 1, 0, 0)
    ensures var r := Split(Bumped(v, MajorRelease), '.');
      |r| == 3 && r[1] == "0" && r[2] == "0"
  {
  }

  /** Any other kind returns the first three components unchanged and drops
      the rest. */
  lemma BumpOther(v: string, kind: string)
    requires WellFormedVersion(v)
    requires kind != PatchRelease && kind != MinorRelease && kind != MajorRelease
    ensures Split(Bumped(v, kind), '.') == Split(v, '.')[..3]
  {
  }

  /** Each of the three release kinds yields a strictly greater version. */
  lemma BumpIncreases(v: string, kind: string)
    requires WellFormedVersion(v)
    requires kind == PatchRelease || kind == MinorRelease || kind == MajorRelease
    ensures WellFormedVersion(Bumped(v, kind))
    ensures LexLess(Components(v), Components(Bumped(v, kind)))
  {
    if kind == PatchRelease {
      BumpPatch(v);
    } else if kind == MinorRelease {
      BumpMinor(v);
    } else {
      BumpMajor(v);
    }
  }

  /** `package.json`, held as its fields. */
  class Package {
    var meta: map<string, string>

    constructor (meta: map<string, string>)
      ensures this.meta == meta
    {
      this.meta := meta;
    }

    /** `getVersion`: the `version` field, absent when the field is. */
    function GetVersion(): (v: Option<string>)
      reads this
      ensures v.Some? <==> VersionKey in meta
      ensures v.Some? ==> v.value == meta[VersionKey]
    {
      if VersionKey in meta then Some(meta[VersionKey]) else None
    }

    /** `setVersion`: rewrites the `version` field and no other. */
    method SetVersion(version: string)
      modifies this
      ensures meta == old(meta)[VersionKey := version]
      ensures GetVersion() == Some(version)
      ensures forall k :: k != VersionKey ==>
        (k in meta <==> k in old(meta)) && (k in meta ==> meta[k] == old(meta)[k])
    {
      meta := meta[VersionKey := version];
    }

    /** `bumpVersion`: computes the next version, stores it and returns it. */
    method BumpVersion(kind: string) returns (newVersion: string)
      requires VersionKey in meta && WellFormedVersion(meta[VersionKey])
      modifies this
      ensures newVersion == Bumped(old(meta[VersionKey]), kind)
      ensures meta == old(meta)[VersionKey := newVersion]
      ensures GetVersion() == Some(newVersion)
    {
      var version := meta[VersionKey];
      var split := Split(version, '.');
      var major, minor, patch := split[0], split[1], split[2];
      if kind == PatchRelease {
        patch := Increment(patch);
      }
      if kind == MinorRelease {
        minor := Increment(minor);
        patch := "0";
      }
      if kind == MajorRelease {
        major := Increment(major);
        minor := "0";
        patch := "0";
      }
      newVersion := Join([major, minor, patch], '.');
      SetVersion(newVersion);
    }
  }
}
