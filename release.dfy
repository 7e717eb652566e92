/**
 The pure logic of the release script scripts/release.js: reading and
 bumping a `major.minor.patch` version, the release-type check of the
 command line, the tag name, the commit list of a changelog entry and the
 insertion of that entry into the changelog's lines. Git, npm, the file
 system, the clock and the terminal are not modelled; their results are
 parameters.
 */
module Release {
  import opened Wrappers
  import opened Text

  /** The release types the command line accepts. */
  const ReleaseTypes: seq<string> := ["patch", "minor", "major", "prepatch", "preminor", "premajor"]

  /**
   A JavaScript number as the version code meets it: a natural read from
   digits, `NaN` from any other text, or `undefined` for a missing field.
   */
  datatype Num = Int(n: nat) | NaN | Undefined

  /** `Number(s)` on one field of a version: decimal digits give their value, anything else `NaN`. */
  function JsNumber(s: string): (x: Num)
    ensures x.Int? <==> AllDigits(s)
    ensures x != Undefined
  {
    if AllDigits(s) then Int(DigitsValue(s)) else NaN
  }

  /** `${x}`: how a number is rendered inside a template string. */
  function Show(x: Num): string
  {
    match x
    case Int(n) => NatToString(n)
    case NaN => "NaN"
    case Undefined => "undefined"
  }

  /** `x + 1`: `NaN` and `undefined` both give `NaN`. */
  function Succ(x: Num): Num
  {
    match x
    case Int(n) => Int(n + 1)
    case _ => NaN
  }

  datatype Version = Version(major: Num, minor: Num, patch: Num)

  function FieldAt(parts: seq<string>, i: nat): Num
  {
    if i < |parts| then JsNumber(parts[i]) else Undefined
  }

  /** parseVersion: split on '.', convert each of the first three fields with `Number`. */
  function ParseVersion(version: string): (v: Version)
    ensures v.major != Undefined
    ensures '.' !in version ==> v.minor == Undefined && v.patch == Undefined
    ensures AllDigits(version) ==> v == Version(Int(DigitsValue(version)), Undefined, Undefined)
  {
    var parts := Split(version, '.');
    if '.' !in version then
      SplitPrefix(version, "", '.');
      assert version + "" == version;
      Version(FieldAt(parts, 0), FieldAt(parts, 1), FieldAt(parts, 2))
    else
      NoDotWithoutDigits(version);
      Version(FieldAt(parts, 0), FieldAt(parts, 1), FieldAt(parts, 2))
  }

  /** The text `major.minor.patch` of three naturals. */
  function Render(major: nat, minor: nat, patch: nat): string
  {
    NatToString(major) + "." + NatToString(minor) + "." + NatToString(patch)
  }

  /** bumpVersion: the new version text, or the error thrown for an unknown release type. */
  function BumpVersion(currentVersion: string, releaseType: string): (r: Result<string>)
    ensures r.Ok? <==> releaseType in ReleaseTypes
    ensures r.Err? ==> r.message == "Invalid release type: " + releaseType
    ensures releaseType in ["premajor", "preminor", "prepatch"] ==>
              r.Ok? && |r.value| >= 2 && r.value[|r.value| - 2..] == "-0"
  {
    var v := ParseVersion(currentVersion);
    if releaseType == "major" then Ok(Show(Succ(v.major)) + ".0.0")
    else if releaseType == "minor" then Ok(Show(v.major) + "." + Show(Succ(v.minor)) + ".0")
    else if releaseType == "patch" then Ok(Show(v.major) + "." + Show(v.minor) + "." + Show(Succ(v.patch)))
    else if releaseType == "premajor" then Ok(Show(Succ(v.major)) + ".0.0-0")
    else if releaseType == "preminor" then Ok(Show(v.major) + "." + Show(Succ(v.minor)) + ".0-0")
    else if releaseType == "prepatch" then Ok(Show(v.major) + "." + Show(v.minor) + "." + Show(Succ(v.patch)) + "-0")
    else Err("Invalid release type: " + releaseType)
  }

  /** Three separator-free fields joined by '.' split back into those fields. */
  lemma SplitThree(a: string, b: string, c: string)
    requires '.' !in a && '.' !in b && '.' !in c
    ensures Split(a + "." + b + "." + c, '.') == [a, b, c]
  {
    var parts := [a, b, c];
    assert parts[1..] == [b, c] && parts[1..][1..] == [c];
    assert Join([b, c], '.') == b + "." + c;
    assert Join(parts, '.') == a + "." + (b + "." + c) == a + "." + b + "." + c;
    SplitJoin(parts, '.');
  }

  lemma NoDotWithoutDigits(s: string)
    requires '.' in s
    ensures !AllDigits(s)
  {
    var i :| 0 <= i < |s| && s[i] == '.';
    assert !IsDigit(s[i]);
  }

  lemma NoDotInDigits(s: string)
    requires AllDigits(s)
    ensures '.' !in s
  {
    forall i | 0 <= i < |s|
      ensures s[i] != '.'
    {
      assert IsDigit(s[i]);
    }
  }

  /** Reading a rendered version gives its three numbers back. */
  lemma ParseRender(major: nat, minor: nat, patch: nat)
    ensures ParseVersion(Render(major, minor, patch)) == Version(Int(major), Int(minor), Int(patch))
  {
    var a, b, c := NatToString(major), NatToString(minor), NatToString(patch);
    NoDotInDigits(a);
    NoDotInDigits(b);
    NoDotInDigits(c);
    SplitThree(a, b, c);
    DigitsRoundTrip(major);
    DigitsRoundTrip(minor);
    DigitsRoundTrip(patch);
  }

  /** What each plain release type makes of a well-formed version. */
  lemma BumpRendered(major: nat, minor: nat, patch: nat)
    ensures BumpVersion(Render(major, minor, patch), "major") == Ok(Render(major + 1, 0, 0))
    ensures BumpVersion(Render(major, minor, patch), "minor") == Ok(Render(major, minor + 1, 0))
    ensures BumpVersion(Render(major, minor, patch), "patch") == Ok(Render(major, minor, patch + 1))
  {
    ParseRender(major, minor, patch);
    var a, b' := NatToString(major), NatToString(minor + 1);
    assert NatToString(0) == "0";
    assert NatToString(major + 1) + ".0.0" == Render(major + 1, 0, 0);
    assert a + "." + b' + ".0" == Render(major, minor + 1, 0);
  }

  /** What each pre-release type makes of a well-formed version: the plain bump followed by "-0". */
  lemma PreBumpRendered(major: nat, minor: nat, patch: nat)
    ensures BumpVersion(Render(major, minor, patch), "premajor") == Ok(Render(major + 1, 0, 0) + "-0")
    ensures BumpVersion(Render(major, minor, patch), "preminor") == Ok(Render(major, minor + 1, 0) + "-0")
    ensures BumpVersion(Render(major, minor, patch), "prepatch") == Ok(Render(major, minor, patch + 1) + "-0")
  {
    var current := Render(major, minor, patch);
    BumpRendered(major, minor, patch);
    PreReleaseAppendsSuffix(current);
  }

  /** Each pre-release type is its plain counterpart with "-0" appended, whatever the version text. */
  lemma PreReleaseAppendsSuffix(currentVersion: string)
    ensures BumpVersion(currentVersion, "premajor") == Ok(BumpVersion(currentVersion, "major").value + "-0")
    ensures BumpVersion(currentVersion, "preminor") == Ok(BumpVersion(currentVersion, "minor").value + "-0")
    ensures BumpVersion(currentVersion, "prepatch") == Ok(BumpVersion(currentVersion, "patch").value + "-0")
  {
    var v := ParseVersion(currentVersion);
    assert Show(Succ(v.major)) + ".0.0-0" == Show(Succ(v.major)) + ".0.0" + "-0";
    assert Show(v.major) + "." + Show(Succ(v.minor)) + ".0-0"
        == Show(v.major) + "." + Show(Succ(v.minor)) + ".0" + "-0";
  }

  /** `a` comes strictly after `b` in (major, minor, patch) order. */
  predicate Newer(a: Version, b: Version)
    requires a.major.Int? && a.minor.Int? && a.patch.Int?
    requires b.major.Int? && b.minor.Int? && b.patch.Int?
  {
    || a.major.n > b.major.n
    || (a.major.n == b.major.n && a.minor.n > b.minor.n)
    || (a.major.n == b.major.n && a.minor.n == b.minor.n && a.patch.n > b.patch.n)
  }

  /** A plain bump of a well-formed version gives a well-formed, strictly newer version. */
  lemma BumpIsNewer(major: nat, minor: nat, patch: nat, releaseType: string)
    requires releaseType in ["major", "minor", "patch"]
    ensures var before := Version(Int(major), Int(minor), Int(patch));
      var result := BumpVersion(Render(major, minor, patch), releaseType);
      && result.Ok?
      && var next := ParseVersion(result.value);
      && next.major.Int? && next.minor.Int? && next.patch.Int?
      && Newer(next, before)
  {
    BumpRendered(major, minor, patch);
    if releaseType == "major" {
      ParseRender(major + 1, 0, 0);
    } else if releaseType == "minor" {
      ParseRender(major, minor + 1, 0);
    } else {
      ParseRender(major, minor, patch + 1);
    }
  }

  /**
   The command-line check of `main`: a present, non-empty argument that is
   one of the release types. It admits exactly the arguments bumpVersion
   can handle, whatever the current version.
   */
  function AcceptsReleaseType(argument: Option<string>): (accepted: bool)
    ensures accepted <==> argument.Some? && forall v :: BumpVersion(v, argument.value).Ok?
  {
    if argument.Some? then
      assert BumpVersion("", argument.value).Ok? <==> argument.value in ReleaseTypes;
      argument.value != "" && argument.value in ReleaseTypes
    else false
  }

  /**
   A pre-release version cannot be patched: its last field "p-0" reads as
   `NaN`, so a patch (or prepatch) bump after a prepatch bump writes "NaN"
   into the version.
   */
  lemma PrereleaseThenPatch(major: nat, minor: nat, patch: nat)
    ensures BumpVersion(Render(major, minor, patch), "prepatch") == Ok(Render(major, minor, patch + 1) + "-0")
    ensures BumpVersion(Render(major, minor, patch + 1) + "-0", "patch")
         == Ok(NatToString(major) + "." + NatToString(minor) + ".NaN")
  {
    PreBumpRendered(major, minor, patch);
    PatchOfPrerelease(major, minor, patch + 1);
  }

  lemma PatchOfPrerelease(major: nat, minor: nat, patch: nat)
    ensures BumpVersion(Render(major, minor, patch) + "-0", "patch")
         == Ok(NatToString(major) + "." + NatToString(minor) + ".NaN")
  {
    var pre := Render(major, minor, patch) + "-0";
    ParsePrerelease(major, minor, patch);
    var v := ParseVersion(pre);
    assert BumpVersion(pre, "patch") == Ok(Show(v.major) + "." + Show(v.minor) + "." + Show(Succ(v.patch)));
    assert Show(v.major) == NatToString(major) && Show(v.minor) == NatToString(minor);
    assert Show(Succ(v.patch)) == "NaN";
    assert Show(v.major) + "." + Show(v.minor) + "." + Show(Succ(v.patch))
        == NatToString(major) + "." + NatToString(minor) + ".NaN";
  }

  /** A pre-release version reads with a `NaN` patch field: `Number("p-0")` is `NaN`. */
  lemma ParsePrerelease(major: nat, minor: nat, patch: nat)
    ensures ParseVersion(Render(major, minor, patch) + "-0") == Version(Int(major), Int(minor), NaN)
  {
    var a, b, p := NatToString(major), NatToString(minor), NatToString(patch);
    var c := p + "-0";
    NoDotInDigits(a);
    NoDotInDigits(b);
    NoDotInDigits(p);
    assert '.' !in c by {
      assert forall i :: 0 <= i < |c| ==> c[i] == if i < |p| then p[i] else "-0"[i - |p|];
    }
    assert Render(major, minor, patch) + "-0" == a + "." + b + "." + c;
    SplitThree(a, b, c);
    DigitsRoundTrip(major);
    DigitsRoundTrip(minor);
    assert c[|p|] == '-' && !AllDigits(c);
  }

  /** createTag's tag name: "v" followed by the version. */
  function TagName(version: string): (tag: string)
    ensures |tag| == |version| + 1 && StartsWith(tag, "v") && tag[1..] == version
  {
    "v" + version
  }

  // ---------------------------------------------------------------------------
  // The changelog.

  /** Each commit line prefixed with "- ". */
  function Bulleted(lines: seq<string>): (bullets: seq<string>)
    ensures |bullets| == |lines|
    ensures forall i :: 0 <= i < |lines| ==> bullets[i] == "- " + lines[i]
  {
    seq(|lines|, i requires 0 <= i < |lines| => "- " + lines[i])
  }

  /** The commits block: `commits.split('\n').map(commit => `- ${commit}`).join('\n')`. */
  function CommitList(commits: string): (block: string)
    ensures var lines := Split(commits, '\n');
      var out := Split(block, '\n');
      |out| == |lines| && forall i :: 0 <= i < |lines| ==> out[i] == "- " + lines[i]
  {
    var bullets := Bulleted(Split(commits, '\n'));
    forall i | 0 <= i < |bullets|
      ensures '\n' !in bullets[i]
    {
      assert bullets[i] == "- " + Split(commits, '\n')[i];
    }
    SplitJoin(bullets, '\n');
    Join(bullets, '\n')
  }

  /** The entry generateChangelog writes for a release; `date` is the ISO date of the day. */
  function ChangelogEntry(version: string, date: string, commits: string): (entry: string)
    ensures StartsWith(entry, "## [" + version + "] - " + date)
    ensures StartsWith(entry, Heading)
  {
    var head := "## [" + version + "] - " + date;
    var entry := head
      + "\n\n### Added\n- New features and enhancements\n"
      + "\n### Changed\n- Changes in existing functionality\n"
      + "\n### Fixed\n- Bug fixes\n"
      + "\n### Breaking Changes\n- Breaking changes (if any)\n"
      + "\n### Commits\n" + CommitList(commits) + "\n\n---\n\n";
    assert entry[..|head|] == head;
    assert entry[..|Heading|] == head[..|Heading|] == Heading;
    entry
  }

  /** The marker of a release heading. */
  const Heading: string := "## "

  /** `lines.findIndex(line => line.startsWith('## '))`: the first heading, or -1. */
  function FirstHeading(lines: seq<string>): (i: int)
    ensures -1 <= i < |lines|
    ensures i >= 0 ==> StartsWith(lines[i], Heading)
    ensures forall j :: 0 <= j < |lines| && (i == -1 || j < i) ==> !StartsWith(lines[j], Heading)
  {
    if |lines| == 0 then -1
    else if StartsWith(lines[0], Heading) then 0
    else
      var rest := FirstHeading(lines[1..]);
      assert forall j :: 1 <= j < |lines| ==> lines[j] == lines[1..][j - 1];
      if rest == -1 then -1 else rest + 1
  }

  /**
   Where the new entry goes: before the first heading when that is not the
   first line, otherwise at index 2, which `splice` clamps to the length.
   */
  function InsertionIndex(lines: seq<string>): (i: nat)
    ensures i <= |lines|
  {
    var heading := FirstHeading(lines);
    if heading > 0 then heading else if |lines| < 2 then |lines| else 2
  }

  /** `lines` with `item` inserted before position `i`. */
  function InsertAt(lines: seq<string>, i: nat, item: string): (result: seq<string>)
    requires i <= |lines|
    ensures |result| == |lines| + 1 && result[i] == item
    ensures result[..i] + result[i + 1..] == lines
  {
    var result := lines[..i] + [item] + lines[i..];
    assert result[..i] == lines[..i] && result[i + 1..] == lines[i..];
    result
  }

  /**
   Entries stack newest first: after a block of lines that opens with a
   heading is inserted at the insertion index, the first heading is the
   block's, except when the changelog already began with a heading.
   */
  lemma NewestEntryFirst(lines: seq<string>, block: seq<string>)
    requires |block| >= 1 && StartsWith(block[0], Heading)
    ensures var i := InsertionIndex(lines);
      FirstHeading(lines[..i] + block + lines[i..]) == if FirstHeading(lines) == 0 then 0 else i
  {
    var i := InsertionIndex(lines);
    var after := lines[..i] + block + lines[i..];
    assert after[i] == block[0];
    if FirstHeading(lines) == 0 {
      assert after[0] == lines[0] by { assert i == (if |lines| < 2 then |lines| else 2); }
    } else {
      forall j | 0 <= j < i
        ensures !StartsWith(after[j], Heading)
      {
        assert after[j] == lines[j];
      }
    }
  }

  /** The first line of a text that opens with a heading is a heading line. */
  lemma FirstLineKeepsHeading(text: string)
    requires StartsWith(text, Heading)
    ensures StartsWith(Split(text, '\n')[0], Heading)
  {
    var rest := text[|Heading|..];
    assert text == Heading + rest;
    SplitPrefix(Heading, rest, '\n');
  }

  /**
   Written back with '\n' between lines, a changelog with an inserted
   multi-line entry reads as the old lines with the entry's own lines in
   between.
   */
  lemma SplitAfterInsert(lines: seq<string>, i: nat, entry: string)
    requires i <= |lines|
    requires forall j :: 0 <= j < |lines| ==> '\n' !in lines[j]
    ensures Split(Join(InsertAt(lines, i, entry), '\n'), '\n') == lines[..i] + Split(entry, '\n') + lines[i..]
  {
    if i == 0 {
      SplitJoinCons(entry, lines, '\n');
      assert InsertAt(lines, i, entry) == [entry] + lines;
    } else {
      SplitJoinAround(lines[..i], entry, lines[i..], '\n');
    }
  }

  /** The changelog being edited: its text split into lines, changed in place as generateChangelog does. */
  class ChangelogLines {
    var lines: seq<string>

    constructor (text: string)
      ensures lines == Split(text, '\n')
    {
      lines := Split(text, '\n');
    }

    /** findIndex over the lines. */
    method FindHeading() returns (index: int)
      ensures -1 <= index < |lines|
      ensures index >= 0 ==> StartsWith(lines[index], Heading)
      ensures forall j :: 0 <= j < |lines| && (index == -1 || j < index) ==> !StartsWith(lines[j], Heading)
    {
      var k := 0;
      while k < |lines|
        invariant 0 <= k <= |lines|
        invariant forall j :: 0 <= j < k ==> !StartsWith(lines[j], Heading)
      {
        if |Heading| <= |lines[k]| && lines[k][..|Heading|] == Heading {
          return k;
        }
        k := k + 1;
      }
      return -1;
    }

    /** `lines.splice(start, 0, item)`, with a start past the end clamped to the end. */
    method Splice(start: nat, item: string)
      modifies this
      ensures var at := if start <= |old(lines)| then start else |old(lines)|;
        lines == InsertAt(old(lines), at, item)
    {
      var at := if start <= |lines| then start else |lines|;
      lines := lines[..at] + [item] + lines[at..];
    }

    /** Insert a release entry after the changelog's header. */
    method InsertEntry(entry: string)
      modifies this
      ensures lines == InsertAt(old(lines), InsertionIndex(old(lines)), entry)
    {
      var headerEndIndex := FindHeading();
      assert headerEndIndex == FirstHeading(lines);
      var insertIndex := if headerEndIndex > 0 then headerEndIndex else 2;
      Splice(insertIndex, entry);
    }
  }

  /** The changelog text generateChangelog writes back, given the text it read. */
  method GenerateChangelog(changelog: string, version: string, date: string, commits: string)
    returns (text: string)
    ensures var lines := Split(changelog, '\n');
      Split(text, '\n') == Split(changelog, '\n')[..InsertionIndex(lines)]
        + Split(ChangelogEntry(version, date, commits), '\n')
        + Split(changelog, '\n')[InsertionIndex(lines)..]
    ensures var lines := Split(changelog, '\n');
      FirstHeading(Split(text, '\n')) == if FirstHeading(lines) == 0 then 0 else InsertionIndex(lines)
  {
    var doc := new ChangelogLines(changelog);
    var entry := ChangelogEntry(version, date, commits);
    doc.InsertEntry(entry);
    text := Join(doc.lines, '\n');
    SplitAfterInsert(Split(changelog, '\n'), InsertionIndex(Split(changelog, '\n')), entry);
    FirstLineKeepsHeading(entry);
    NewestEntryFirst(Split(changelog, '\n'), Split(entry, '\n'));
  }

  /** package.json as the release edits it: only its version matters here. */
  class PackageManifest {
    var version: string

    constructor (version: string)
      ensures this.version == version
    {
      this.version := version;
    }

    /** Steps 3 and 4 of performRelease: compute the new version and store it; a thrown error changes nothing. */
    method ApplyRelease(releaseType: string) returns (result: Result<string>)
      modifies this
      ensures result == BumpVersion(old(version), releaseType)
      ensures version == if result.Ok? then result.value else old(version)
    {
      result := BumpVersion(version, releaseType);
      if result.Ok? {
        version := result.value;
      }
    }
  }
}
