/**
 * `scripts/build_all.py`: the release driver. It bumps the semantic version
 * kept in `version.json`, runs the builder of every requested format, and
 * records a build entry only when at least one format was built. The builder
 * scripts, git, the clock and the copying of artifacts are inputs or left out.
 */
module Release {
  import opened Wrappers
  import opened Text

  datatype Version = Version(major: int, minor: int, patch: int)

  /** A build entry: its version string and the formats it contains (dates, git data and file sizes are left out). */
  datatype BuildInfo = BuildInfo(version: string, formats: seq<string>)

  /** The contents of `version.json`, updated in place. */
  class VersionData {
    var major: int
    var minor: int
    var patch: int
    var builds: seq<BuildInfo>

    /** `get_version_info` without a version file: 1.0.0 and no builds. */
    constructor Initial()
      ensures major == 1 && minor == 0 && patch == 0 && builds == []
    {
      major, minor, patch, builds := 1, 0, 0, [];
    }

    /** `get_version_info` with a version file: its contents. */
    constructor Loaded(v: Version, bs: seq<BuildInfo>)
      ensures Current() == v && builds == bs
    {
      major, minor, patch, builds := v.major, v.minor, v.patch, bs;
    }

    function Current(): Version
      reads this
    {
      Version(major, minor, patch)
    }

    /** `update_version`: the number moves to `Bumped`; the build list is untouched. */
    method UpdateVersion(kind: string)
      modifies this
      ensures Current() == Bumped(old(Current()), kind)
      ensures builds == old(builds)
    {
      if kind == "major" {
        major := major + 1;
        minor := 0;
        patch := 0;
      } else if kind == "minor" {
        minor := minor + 1;
        patch := 0;
      } else {
        patch := patch + 1;
      }
    }

    /** `version_data["builds"].append(build_info)`. */
    method AddBuild(b: BuildInfo)
      modifies this
      ensures Current() == old(Current())
      ensures builds == old(builds) + [b]
    {
      builds := builds + [b];
    }
  }

  /** The version after a bump of the given kind; any kind other than major and minor is a patch bump. */
  function Bumped(v: Version, kind: string): Version
  {
    if kind == "major" then Version(v.major + 1, 0, 0)
    else if kind == "minor" then Version(v.major, v.minor + 1, 0)
    else Version(v.major, v.minor, v.patch + 1)
  }

  /** Lexicographic order on (major, minor, patch). */
  predicate Less(a: Version, b: Version)
  {
    a.major < b.major
    || (a.major == b.major && a.minor < b.minor)
    || (a.major == b.major && a.minor == b.minor && a.patch < b.patch)
  }

  /** Every bump yields a strictly later version. */
  lemma {:induction false} BumpIncreases(v: Version, kind: string)
    ensures Less(v, Bumped(v, kind))
    ensures !Less(Bumped(v, kind), v)
  {
  }

  /** Which components a bump keeps, raises by one and resets. */
  lemma {:induction false} BumpComponents(v: Version, kind: string)
    ensures kind == "major" ==> Bumped(v, kind).major == v.major + 1 && Bumped(v, kind).minor == 0 && Bumped(v, kind).patch == 0
    ensures kind == "minor" ==> Bumped(v, kind).major == v.major && Bumped(v, kind).minor == v.minor + 1 && Bumped(v, kind).patch == 0
    ensures kind != "major" && kind != "minor" ==> Bumped(v, kind) == v.(patch := v.patch + 1)
  {
  }

  /** Repeated patch bumps count up the patch number. */
  function PatchBumps(v: Version, n: nat): Version
  {
    if n == 0 then v else Bumped(PatchBumps(v, n - 1), "patch")
  }

  lemma {:induction false} PatchBumpsAdd(v: Version, n: nat)
    ensures PatchBumps(v, n) == Version(v.major, v.minor, v.patch + n)
  {
    if n > 0 {
      PatchBumpsAdd(v, n - 1);
    }
  }

  // ----- the version string -----

  /** `str(i)` for an integer. */
  function IntText(i: int): (r: string)
    ensures r != [] && '.' !in r
  {
    var digits := if i < 0 then NatToString(-i) else NatToString(i);
    assert forall k | 0 <= k < |digits| :: digits[k] != '.';
    if i < 0 then "-" + digits else digits
  }

  /** `f"{major}.{minor}.{patch}"`. */
  function VersionString(v: Version): string
  {
    IntText(v.major) + "." + IntText(v.minor) + "." + IntText(v.patch)
  }

  /** Reads a version string back: three runs of digits separated by dots. */
  function ParseVersion(s: string): Option<Version>
  {
    var parts := Split(s, ".");
    if |parts| == 3 && AllDigits(parts[0]) && AllDigits(parts[1]) && AllDigits(parts[2])
       && parts[0] != [] && parts[1] != [] && parts[2] != []
    then Some(Version(ParseNat(parts[0]), ParseNat(parts[1]), ParseNat(parts[2])))
    else None
  }

  /** A text without the separator character splits cleanly in front of it. */
  lemma {:induction false} NoDotBreaksCleanly(x: string)
    requires '.' !in x
    ensures !Contains(x, ".") && BreaksCleanly(x, ".")
  {
    forall p | 0 <= p < |x| ensures !StartsWith((x + ".")[p..], ".") {
      assert (x + ".")[p..][..1] == [x[p]];
    }
    forall p | 0 <= p <= |x| ensures !StartsWith(x[p..], ".") {
      if p < |x| {
        assert x[p..][..1] == [x[p]];
      }
    }
  }

  /** The version string of a release (no negative component) reads back as the same version. */
  lemma {:induction false} VersionStringRoundTrip(v: Version)
    requires v.major >= 0 && v.minor >= 0 && v.patch >= 0
    ensures ParseVersion(VersionString(v)) == Some(v)
  {
    var a, b, c := IntText(v.major), IntText(v.minor), IntText(v.patch);
    NoDotBreaksCleanly(a);
    NoDotBreaksCleanly(b);
    NoDotBreaksCleanly(c);
    var parts := [a, b, c];
    assert Join(parts, ".") == VersionString(v) by {
      assert parts[1..] == [b, c];
      assert [b, c][1..] == [c];
      assert Join([b, c], ".") == b + "." + c;
      assert Join(parts, ".") == a + "." + (b + "." + c);
    }
    SplitJoin(parts, ".");
    ParseNatToString(v.major);
    ParseNatToString(v.minor);
    ParseNatToString(v.patch);
  }

  /** Distinct releases have distinct version strings. */
  lemma {:induction false} VersionStringInjective(v: Version, w: Version)
    requires v.major >= 0 && v.minor >= 0 && v.patch >= 0
    requires w.major >= 0 && w.minor >= 0 && w.patch >= 0
    requires VersionString(v) == VersionString(w)
    ensures v == w
  {
    VersionStringRoundTrip(v);
    VersionStringRoundTrip(w);
  }

  // ----- building the formats -----

  const DefaultFormats: seq<string> := ["pages", "kindle", "epub", "pdf"]

  /** The builder script of each known format. */
  function BuildScript(format: string): Option<string>
  {
    if format == "pages" then Some("build_pages.py")
    else if format == "kindle" then Some("build_kindle.py")
    else if format == "epub" then Some("build_epub.py")
    else if format == "pdf" then Some("build_pdf.py")
    else None
  }

  /** A requested format gets built when it is known and its script succeeds. */
  predicate BuildsOk(format: string, run: string -> bool)
  {
    BuildScript(format).Some? && run(BuildScript(format).value)
  }

  /** `formats_built`: the requested formats that were built, in request order. */
  function Built(formats: seq<string>, run: string -> bool): seq<string>
  {
    if formats == [] then []
    else
      var last := formats[|formats| - 1];
      Built(formats[..|formats| - 1], run) + (if BuildsOk(last, run) then [last] else [])
  }

  /** A format is in the list exactly when it was requested, is known and its script succeeded. */
  lemma {:induction false} BuiltExactly(formats: seq<string>, run: string -> bool, f: string)
    ensures f in Built(formats, run) <==> f in formats && BuildsOk(f, run)
  {
    if formats != [] {
      var init := formats[..|formats| - 1];
      BuiltExactly(init, run, f);
      assert formats == init + [formats[|formats| - 1]];
    }
  }

  /** Building a list in two halves gives the two halves' results in order. */
  lemma {:induction false} BuiltAppend(a: seq<string>, b: seq<string>, run: string -> bool)
    ensures Built(a + b, run) == Built(a, run) + Built(b, run)
    decreases |b|
  {
    if b == [] {
      assert a + b == a;
    } else {
      var init := b[..|b| - 1];
      assert (a + b)[..|a + b| - 1] == a + init;
      assert (a + b)[|a + b| - 1] == b[|b| - 1];
      BuiltAppend(a, init, run);
    }
  }

  /** One more requested format. */
  lemma {:induction false} BuiltStep(formats: seq<string>, i: nat, run: string -> bool)
    requires i < |formats|
    ensures Built(formats[..i + 1], run) == Built(formats[..i], run) + (if BuildsOk(formats[i], run) then [formats[i]] else [])
  {
    assert formats[..i + 1][..i] == formats[..i];
  }

  /**
   * `build_all_formats`: loads (or starts) the version data, bumps it, builds
   * the formats, and only when something was built appends a build entry
   * and writes the data back to `version.json` (`saved`); when nothing was
   * built the bumped version is dropped and the file is left as it was.
   */
  method BuildAllFormats(kind: string, formats: Option<seq<string>>, stored: Option<(Version, seq<BuildInfo>)>, run: string -> bool)
    returns (ok: bool, built: seq<string>, data: VersionData, saved: Option<(Version, seq<BuildInfo>)>)
    ensures fresh(data)
    ensures built == Built(formats.GetOr(DefaultFormats), run)
    ensures ok <==> built != []
    ensures var start := if stored.None? then Version(1, 0, 0) else stored.value.0;
      data.Current() == Bumped(start, kind)
    ensures var before := if stored.None? then [] else stored.value.1;
      data.builds == before + (if ok then [BuildInfo(VersionString(data.Current()), built)] else [])
    ensures saved.Some? <==> ok
    ensures saved.Some? ==> saved.value == (data.Current(), data.builds)
  {
    var fs := if formats.None? then DefaultFormats else formats.value;
    if stored.None? {
      data := new VersionData.Initial();
    } else {
      data := new VersionData.Loaded(stored.value.0, stored.value.1);
    }
    data.UpdateVersion(kind);
    var version := VersionString(data.Current());
    built := BuildFormats(fs, run);
    if built == [] {
      assert data.builds + [] == data.builds;
      return false, built, data, None;
    }
    data.AddBuild(BuildInfo(version, built));
    ok := true;
    saved := Some((data.Current(), data.builds));
  }

  /** The loop over the requested formats. */
  method BuildFormats(formats: seq<string>, run: string -> bool) returns (built: seq<string>)
    ensures built == Built(formats, run)
  {
    built := [];
    var i := 0;
    while i < |formats|
      invariant 0 <= i <= |formats|
      invariant built == Built(formats[..i], run)
    {
      BuiltStep(formats, i, run);
      var script := BuildScript(formats[i]);
      if script.Some? {
        if run(script.value) {
          built := built + [formats[i]];
        }
      }
      i := i + 1;
    }
    assert formats[..i] == formats;
  }
}
