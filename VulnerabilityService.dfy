/**
 * The serial path of `NPMVulnerabitlityService`: coordinates are read out of
 * a Maven dependency tree (or built for one npm package), cut into batches of
 * at most 128, each batch is posted to the OSS Index component report and
 * the per-batch answers are merged into one list.
 */
module VulnerabilityService {
  import opened Wrappers
  import opened JavaText
  import TreeGenerator

  /** The OSS Index limit on coordinates per request. */
  const BatchSize: nat := 128

  datatype PackageType = Maven | Npm

  // ---------------------------------------------------------------------
  // Reading coordinates out of a dependency tree line
  // ---------------------------------------------------------------------

  /** The class `[\w.-]` of the coordinate pattern. */
  predicate IsFieldChar(c: char) {
    ('a' <= c <= 'z') || ('A' <= c <= 'Z') || ('0' <= c <= '9') || c == '_' || c == '.' || c == '-'
  }

  /** The class `[\d.]` the version group is restricted to. */
  predicate IsVersionChar(c: char) {
    ('0' <= c <= '9') || c == '.'
  }

  /** The class `[-+\\| ]` of tree-drawing glyphs before the coordinate. */
  predicate IsGlyph(c: char) {
    c == '-' || c == '+' || c == '\\' || c == '|' || c == ' '
  }

  predicate IsField(s: string) {
    |s| > 0 && forall i :: 0 <= i < |s| ==> IsFieldChar(s[i])
  }

  predicate IsVersion(s: string) {
    |s| > 0 && forall i :: 0 <= i < |s| ==> IsVersionChar(s[i])
  }

  /** Characters a run of colon-separated fields is made of. */
  predicate IsRunChar(c: char) {
    IsFieldChar(c) || c == ':'
  }

  function SkipGlyphs(s: string): string {
    if s != [] && IsGlyph(s[0]) then SkipGlyphs(s[1..]) else s
  }

  /** The longest prefix made of field characters and colons. */
  function FieldRun(s: string): string {
    if s != [] && IsRunChar(s[0]) then [s[0]] + FieldRun(s[1..]) else []
  }

  /** The five fields `group:artifact:packaging:version:scope` of a tree line. */
  datatype MavenToken = MavenToken(groupId: string, artifactId: string, packaging: string,
                                   version: string, scope: string)

  predicate ValidToken(t: MavenToken) {
    IsField(t.groupId) && IsField(t.artifactId) && IsField(t.packaging)
    && IsVersion(t.version) && IsField(t.scope)
  }

  /**
   * The match of the coordinate pattern on one line: optional white space,
   * optional glyphs, then exactly five colon-separated fields whose fourth
   * is made of digits and dots; anything after the fifth field is ignored.
   */
  function ParseLine(line: string): Option<MavenToken> {
    var fields := Split(FieldRun(SkipGlyphs(SkipSpaces(line))), ':');
    if |fields| == 5 && IsField(fields[0]) && IsField(fields[1]) && IsField(fields[2])
       && IsVersion(fields[3]) && IsField(fields[4])
    then Some(MavenToken(fields[0], fields[1], fields[2], fields[3], fields[4]))
    else None
  }

  lemma ParsedTokenIsValid(line: string)
    requires ParseLine(line).Some?
    ensures ValidToken(ParseLine(line).value)
  {
  }

  lemma {:induction false} SkipGlyphsPrefix(gl: string, y: string)
    requires forall i :: 0 <= i < |gl| ==> IsGlyph(gl[i])
    requires y != [] && !IsGlyph(y[0])
    ensures SkipGlyphs(gl + y) == y
  {
    if gl == [] {
      assert gl + y == y;
    } else {
      assert (gl + y)[0] == gl[0] && (gl + y)[1..] == gl[1..] + y;
      SkipGlyphsPrefix(gl[1..], y);
    }
  }

  /** White space then glyphs (which may themselves hold spaces) are both skipped. */
  lemma {:induction false} SkipLeadIn(ws: string, gl: string, y: string)
    requires forall i :: 0 <= i < |ws| ==> IsSpace(ws[i])
    requires forall i :: 0 <= i < |gl| ==> IsGlyph(gl[i])
    requires y != [] && !IsGlyph(y[0]) && !IsSpace(y[0])
    ensures SkipGlyphs(SkipSpaces(ws + gl + y)) == y
    decreases |ws| + |gl|
  {
    assert ws + gl + y == ws + (gl + y);
    SkipSpacesPrefix(ws, gl + y);
    if gl == [] {
      assert gl + y == y;
    } else if IsSpace(gl[0]) {
      assert (gl + y)[0] == gl[0] && (gl + y)[1..] == gl[1..] + y;
      assert [] + gl[1..] + y == gl[1..] + y;
      SkipLeadIn([], gl[1..], y);
    } else {
      assert (gl + y)[0] == gl[0];
      SkipGlyphsPrefix(gl, y);
    }
  }

  lemma {:induction false} FieldRunPrefix(body: string, rest: string)
    requires forall i :: 0 <= i < |body| ==> IsRunChar(body[i])
    requires rest == [] || !IsRunChar(rest[0])
    ensures FieldRun(body + rest) == body
  {
    if body == [] {
      assert body + rest == rest;
    } else {
      assert (body + rest)[0] == body[0] && (body + rest)[1..] == body[1..] + rest;
      FieldRunPrefix(body[1..], rest);
    }
  }

  /** The five fields joined by colons, as they appear in a tree line. */
  function TokenText(t: MavenToken): string {
    Join([t.groupId, t.artifactId, t.packaging, t.version, t.scope], ":")
  }

  lemma TokenTextChars(t: MavenToken)
    requires IsField(t.groupId) && IsField(t.artifactId) && IsField(t.packaging)
    requires IsField(t.version) && IsField(t.scope)
    ensures TokenText(t) == t.groupId + ":" + t.artifactId + ":" + t.packaging + ":" + t.version + ":" + t.scope
    ensures forall i :: 0 <= i < |TokenText(t)| ==> IsRunChar(TokenText(t)[i])
  {
    var s := TokenText(t);
    var parts := [t.groupId, t.artifactId, t.packaging, t.version, t.scope];
    assert [t.version, t.scope][1..] == [t.scope];
    assert Join([t.version, t.scope], ":") == t.version + ":" + t.scope;
    assert [t.packaging, t.version, t.scope][1..] == [t.version, t.scope];
    assert Join([t.packaging, t.version, t.scope], ":") == t.packaging + ":" + (t.version + ":" + t.scope);
    assert [t.artifactId, t.packaging, t.version, t.scope][1..] == [t.packaging, t.version, t.scope];
    assert Join([t.artifactId, t.packaging, t.version, t.scope], ":")
        == t.artifactId + ":" + (t.packaging + ":" + (t.version + ":" + t.scope));
    assert parts[1..] == [t.artifactId, t.packaging, t.version, t.scope];
    assert s == t.groupId + ":" + (t.artifactId + ":" + (t.packaging + ":" + (t.version + ":" + t.scope)));
    forall i | 0 <= i < |s| ensures IsRunChar(s[i]) {
      var a, b, c, d := |t.groupId|, |t.artifactId|, |t.packaging|, |t.version|;
      if i < a {
        assert s[i] == t.groupId[i];
      } else if i == a || i == a + b + 1 || i == a + b + c + 2 || i == a + b + c + d + 3 {
      } else if i < a + b + 1 {
        assert s[i] == t.artifactId[i - a - 1];
      } else if i < a + b + c + 2 {
        assert s[i] == t.packaging[i - a - b - 2];
      } else if i < a + b + c + d + 3 {
        assert s[i] == t.version[i - a - b - c - 3];
      } else {
        assert s[i] == t.scope[i - a - b - c - d - 4];
      }
    }
  }

  lemma TokenFieldsSplit(t: MavenToken)
    requires IsField(t.groupId) && IsField(t.artifactId) && IsField(t.packaging)
    requires IsField(t.version) && IsField(t.scope)
    ensures Split(TokenText(t), ':') == [t.groupId, t.artifactId, t.packaging, t.version, t.scope]
  {
    var parts := [t.groupId, t.artifactId, t.packaging, t.version, t.scope];
    forall i | 0 <= i < |parts| ensures ':' !in parts[i] {
      assert IsField(parts[i]);
    }
    SplitJoin(parts, ':');
  }

  /**
   * A tree line `ws glyphs g:a:p:v:s rest` gives its token exactly when the
   * version holds only digits and dots (so `1.0-SNAPSHOT` is skipped).
   */
  lemma ParseLineShape(ws: string, gl: string, t: MavenToken, rest: string)
    requires forall i :: 0 <= i < |ws| ==> IsSpace(ws[i])
    requires forall i :: 0 <= i < |gl| ==> IsGlyph(gl[i])
    requires IsField(t.groupId) && IsField(t.artifactId) && IsField(t.packaging)
    requires IsField(t.version) && IsField(t.scope)
    requires t.groupId[0] != '-'
    requires rest == [] || !IsRunChar(rest[0])
    ensures ParseLine(ws + gl + TokenText(t) + rest) == if IsVersion(t.version) then Some(t) else None
  {
    var body := TokenText(t);
    TokenTextChars(t);
    assert body[0] == t.groupId[0];
    assert IsFieldChar(t.groupId[0]);
    assert ws + gl + body + rest == ws + gl + (body + rest);
    assert (body + rest)[0] == body[0];
    SkipLeadIn(ws, gl, body + rest);
    FieldRunPrefix(body, rest);
    TokenFieldsSplit(t);
  }

  /** `line` is white space, glyphs, `body` and a tail that cannot extend the last field. */
  predicate LeadShape(line: string, ws: string, gl: string, body: string, rest: string) {
    line == ws + gl + body + rest && AllSpaces(ws) && AllGlyphs(gl) && (rest == [] || !IsRunChar(rest[0]))
  }

  predicate AllSpaces(s: string) {
    forall i :: 0 <= i < |s| ==> IsSpace(s[i])
  }

  predicate AllGlyphs(s: string) {
    forall i :: 0 <= i < |s| ==> IsGlyph(s[i])
  }

  /** `[-+\\| ]*` removes a run of glyphs from the front, and no more than that run. */
  lemma {:induction false} SkipGlyphsShape(s: string)
    ensures var r := SkipGlyphs(s);
      |r| <= |s| && r == s[|s| - |r|..]
      && (forall i :: 0 <= i < |s| - |r| ==> IsGlyph(s[i]))
      && (r == [] || !IsGlyph(r[0]))
  {
    if s != [] && IsGlyph(s[0]) {
      SkipGlyphsShape(s[1..]);
    }
  }

  /** The field run is a prefix of run characters, and the character after it is not one. */
  lemma {:induction false} FieldRunShape(s: string)
    ensures var z := FieldRun(s);
      |z| <= |s| && z == s[..|z|]
      && (forall i :: 0 <= i < |z| ==> IsRunChar(z[i]))
      && (|z| == |s| || !IsRunChar(s[|z|]))
  {
    if s != [] && IsRunChar(s[0]) {
      FieldRunShape(s[1..]);
      assert s == [s[0]] + s[1..];
    }
  }

  /** A text that splits into the five fields of a token is that token's text. */
  lemma FieldsText(z: string, t: MavenToken)
    requires Split(z, ':') == [t.groupId, t.artifactId, t.packaging, t.version, t.scope]
    ensures z == TokenText(t)
  {
    JoinSplit(z, ':');
  }

  /** The first character of a token's text is the first of its group. */
  lemma TokenTextStart(t: MavenToken)
    requires t.groupId != []
    ensures TokenText(t) != [] && TokenText(t)[0] == t.groupId[0]
  {
    var parts := [t.groupId, t.artifactId, t.packaging, t.version, t.scope];
    assert TokenText(t) == t.groupId + ":" + Join(parts[1..], ":");
  }

  lemma SpacesPart(line: string)
    ensures var x := SkipSpaces(line);
      |x| <= |line| && line == line[..|line| - |x|] + x && AllSpaces(line[..|line| - |x|])
  {
    SkipSpacesShape(line);
  }

  lemma GlyphsPart(x: string)
    ensures var y := SkipGlyphs(x);
      |y| <= |x| && x == x[..|x| - |y|] + y && AllGlyphs(x[..|x| - |y|]) && (y == [] || !IsGlyph(y[0]))
  {
    SkipGlyphsShape(x);
  }

  lemma RunPart(y: string)
    ensures var z := FieldRun(y);
      |z| <= |y| && y == z + y[|z|..] && (y[|z|..] == [] || !IsRunChar(y[|z|..][0])) && (z != [] ==> z[0] == y[0])
  {
    FieldRunShape(y);
  }

  lemma {:induction false} Concat3(line: string, ws: string, x: string, gl: string, y: string, z: string, rest: string)
    requires line == ws + x && x == gl + y && y == z + rest
    ensures line == ws + gl + z + rest
  {
  }

  /** Any line is its white space, its glyphs, its field run and a tail the run stops at. */
  lemma LineParts(line: string)
    ensures var z := FieldRun(SkipGlyphs(SkipSpaces(line)));
      (exists ws, gl, rest :: LeadShape(line, ws, gl, z, rest))
      && (z != [] ==> !IsGlyph(z[0]))
  {
    var x := SkipSpaces(line);
    var y := SkipGlyphs(x);
    var z := FieldRun(y);
    SpacesPart(line);
    GlyphsPart(x);
    RunPart(y);
    var ws, gl, rest := line[..|line| - |x|], x[..|x| - |y|], y[|z|..];
    Concat3(line, ws, x, gl, y, z, rest);
    assert LeadShape(line, ws, gl, z, rest);
  }

  /** The token of a parsed line is what its field run splits into. */
  lemma ParsedFields(line: string)
    requires ParseLine(line).Some?
    ensures var t := ParseLine(line).value;
      ValidToken(t)
      && Split(FieldRun(SkipGlyphs(SkipSpaces(line))), ':')
         == [t.groupId, t.artifactId, t.packaging, t.version, t.scope]
  {
  }

  /**
   * The converse of `ParseLineShape`: every line that gives a token has the
   * shape that lemma describes, with the same conditions on its parts.
   */
  lemma ParsedLineShape(line: string)
    requires ParseLine(line).Some?
    ensures var t := ParseLine(line).value;
      ValidToken(t) && t.groupId[0] != '-'
      && exists ws, gl, rest :: LeadShape(line, ws, gl, TokenText(t), rest)
  {
    var t := ParseLine(line).value;
    var z := FieldRun(SkipGlyphs(SkipSpaces(line)));
    ParsedFields(line);
    FieldsText(z, t);
    TokenTextStart(t);
    LineParts(line);
  }

  // ---------------------------------------------------------------------
  // Package coordinates
  // ---------------------------------------------------------------------

  /** `pkg:maven/<group>/<artifact>@<version>`: packaging and scope are dropped. */
  function MavenCoordinate(t: MavenToken): string {
    "pkg:maven/" + t.groupId + "/" + t.artifactId + "@" + t.version
  }

  /** Reads group, artifact and version back out of a Maven coordinate. */
  function ParseMavenCoordinate(c: string): Option<(string, string, string)> {
    if |c| >= 10 && c[..10] == "pkg:maven/" then
      var parts := Split(c[10..], '/');
      if |parts| == 2 then
        var av := Split(parts[1], '@');
        if |av| == 2 then Some((parts[0], av[0], av[1])) else None
      else None
    else None
  }

  lemma MavenCoordinateRoundTrip(t: MavenToken)
    requires ValidToken(t)
    ensures ParseMavenCoordinate(MavenCoordinate(t)) == Some((t.groupId, t.artifactId, t.version))
  {
    var c := MavenCoordinate(t);
    var tail := t.artifactId + "@" + t.version;
    assert c == "pkg:maven/" + (t.groupId + "/" + tail);
    assert c[..10] == "pkg:maven/" && c[10..] == t.groupId + "/" + tail;
    assert '/' !in t.groupId && '/' !in t.artifactId && '/' !in t.version;
    assert '@' !in t.artifactId && '@' !in t.version;
    assert Join([t.groupId, tail], "/") == t.groupId + "/" + tail;
    assert '/' !in tail by {
      forall i | 0 <= i < |tail| ensures tail[i] != '/' {
        if i < |t.artifactId| {
          assert tail[i] == t.artifactId[i];
        } else if i > |t.artifactId| {
          assert tail[i] == t.version[i - |t.artifactId| - 1];
        }
      }
    }
    SplitJoin([t.groupId, tail], '/');
    assert Join([t.artifactId, t.version], "@") == tail;
    SplitJoin([t.artifactId, t.version], '@');
  }

  /** Two tree lines name the same package version exactly when group, artifact and version agree. */
  lemma MavenCoordinateInjective(t: MavenToken, u: MavenToken)
    requires ValidToken(t) && ValidToken(u)
    ensures MavenCoordinate(t) == MavenCoordinate(u)
        <==> (t.groupId, t.artifactId, t.version) == (u.groupId, u.artifactId, u.version)
  {
    MavenCoordinateRoundTrip(t);
    MavenCoordinateRoundTrip(u);
  }

  /** `"pkg:npm/" + name + "@" + version`, where a Java null prints as `null`. */
  function NpmCoordinate(name: Option<string>, version: Option<string>): string {
    "pkg:npm/" + JavaString(name) + "@" + JavaString(version)
  }

  const FlowableEngine := MavenToken("org.flowable", "flowable-engine", "jar", "7.1.0", "compile")
  const SnapshotTools := MavenToken("com.acme", "tools", "jar", "2.0-SNAPSHOT", "test")

  lemma FlowableFields()
    ensures IsField(FlowableEngine.groupId) && IsField(FlowableEngine.artifactId)
  {
  }

  lemma FlowableTail()
    ensures IsField(FlowableEngine.packaging) && IsVersion(FlowableEngine.version) && IsField(FlowableEngine.scope)
  {
  }

  /** A transitive dependency line as Maven prints it gives its token. */
  lemma FlowableLine()
    ensures ParseLine("|  +- " + ("org.flowable" + ":" + "flowable-engine" + ":" + "jar" + ":" + "7.1.0" + ":" + "compile"))
         == Some(FlowableEngine)
  {
    var t := FlowableEngine;
    FlowableFields();
    FlowableTail();
    TokenTextChars(t);
    assert "" + "|  +- " + TokenText(t) + "" == "|  +- " + TokenText(t);
    ParseLineShape("", "|  +- ", t, "");
  }

  /** The package URL the Flowable line contributes. */
  lemma FlowableCoordinate()
    ensures MavenCoordinate(FlowableEngine) == "pkg:maven/org.flowable/flowable-engine@7.1.0"
  {
  }

  lemma SnapshotFields()
    ensures IsField(SnapshotTools.groupId) && IsField(SnapshotTools.artifactId) && IsField(SnapshotTools.packaging)
  {
  }

  lemma SnapshotTail()
    ensures IsField(SnapshotTools.version) && !IsVersion(SnapshotTools.version) && IsField(SnapshotTools.scope)
  {
    assert SnapshotTools.version[3] == '-';
  }

  /** A snapshot version does not match the `[\d.]+` group, so the line adds nothing. */
  lemma SnapshotLine()
    ensures ParseLine("\\- " + ("com.acme" + ":" + "tools" + ":" + "jar" + ":" + "2.0-SNAPSHOT" + ":" + "test")) == None
  {
    var t := SnapshotTools;
    SnapshotFields();
    SnapshotTail();
    TokenTextChars(t);
    assert "" + "\\- " + TokenText(t) + "" == "\\- " + TokenText(t);
    ParseLineShape("", "\\- ", t, "");
  }

  // ---------------------------------------------------------------------
  // Extracting all coordinates of a tree
  // ---------------------------------------------------------------------

  function LineCoordinates(line: string): seq<string> {
    match ParseLine(line)
    case Some(t) => [MavenCoordinate(t)]
    case None => []
  }

  /** The sequences `f` gives the elements of `xs`, concatenated in order. */
  function FlatMap<T, U>(f: T -> seq<U>, xs: seq<T>): seq<U> {
    if xs == [] then [] else f(xs[0]) + FlatMap(f, xs[1..])
  }

  lemma {:induction false} FlatMapAppend<T, U>(f: T -> seq<U>, a: seq<T>, b: seq<T>)
    ensures FlatMap(f, a + b) == FlatMap(f, a) + FlatMap(f, b)
  {
    if a == [] {
      assert a + b == b;
    } else {
      assert (a + b)[0] == a[0] && (a + b)[1..] == a[1..] + b;
      FlatMapAppend(f, a[1..], b);
    }
  }

  /** The coordinates of the lines that match, in line order and with repeats. */
  function MavenCoordinates(lines: seq<string>): seq<string> {
    FlatMap(LineCoordinates, lines)
  }

  lemma MavenCoordinatesAppend(a: seq<string>, b: seq<string>)
    ensures MavenCoordinates(a + b) == MavenCoordinates(a) + MavenCoordinates(b)
  {
    FlatMapAppend(LineCoordinates, a, b);
  }

  lemma MavenCoordinatesStep(lines: seq<string>, i: nat)
    requires i < |lines|
    ensures MavenCoordinates(lines[..i + 1]) == MavenCoordinates(lines[..i]) + LineCoordinates(lines[i])
  {
    assert lines[..i + 1] == lines[..i] + [lines[i]];
    MavenCoordinatesAppend(lines[..i], [lines[i]]);
    assert [lines[i]][1..] == [];
    assert FlatMap(LineCoordinates, [lines[i]]) == LineCoordinates(lines[i]) + FlatMap(LineCoordinates, []);
  }

  /** A coordinate is extracted exactly when some line parses to it. */
  lemma {:induction false} MavenCoordinatesMembers(lines: seq<string>, c: string)
    ensures c in MavenCoordinates(lines)
        <==> exists j :: 0 <= j < |lines| && ParseLine(lines[j]).Some?
                         && c == MavenCoordinate(ParseLine(lines[j]).value)
  {
    if lines != [] {
      MavenCoordinatesMembers(lines[1..], c);
      if c in MavenCoordinates(lines) && c !in LineCoordinates(lines[0]) {
        var j :| 0 <= j < |lines[1..]| && ParseLine(lines[1..][j]).Some?
                 && c == MavenCoordinate(ParseLine(lines[1..][j]).value);
        assert lines[1..][j] == lines[j + 1];
      }
      if exists j :: 0 <= j < |lines| && ParseLine(lines[j]).Some?
                     && c == MavenCoordinate(ParseLine(lines[j]).value) {
        var j :| 0 <= j < |lines| && ParseLine(lines[j]).Some?
                 && c == MavenCoordinate(ParseLine(lines[j]).value);
        if j > 0 {
          assert lines[1..][j - 1] == lines[j];
        }
      }
    }
  }

  /** Every extracted coordinate carries a valid group, artifact and version. */
  lemma MavenCoordinatesAreValid(lines: seq<string>, c: string)
    requires c in MavenCoordinates(lines)
    ensures exists t :: ValidToken(t) && c == MavenCoordinate(t)
  {
    MavenCoordinatesMembers(lines, c);
    var j :| 0 <= j < |lines| && ParseLine(lines[j]).Some?
             && c == MavenCoordinate(ParseLine(lines[j]).value);
    ParsedTokenIsValid(lines[j]);
  }

  /** The `while (matcher.find())` loop, line by line. */
  method ExtractMavenCoordinates(mavenDependencyTree: string) returns (coordinates: seq<string>)
    ensures coordinates == MavenCoordinates(Split(mavenDependencyTree, '\n'))
  {
    var lines := Split(mavenDependencyTree, '\n');
    coordinates := [];
    var i := 0;
    while i < |lines|
      invariant 0 <= i <= |lines|
      invariant coordinates == MavenCoordinates(lines[..i])
    {
      MavenCoordinatesStep(lines, i);
      var token := ParseLine(lines[i]);
      if token.Some? {
        coordinates := coordinates + [MavenCoordinate(token.value)];
      }
      i := i + 1;
    }
    assert lines[..i] == lines;
  }

  lemma EmptyLineHasNoCoordinate()
    ensures ParseLine("") == None
  {
    assert SkipSpaces("") == "" && SkipGlyphs("") == "" && FieldRun("") == "";
  }

  /** On a report of the generator, only the kept tree lines contribute. */
  lemma GeneratedTreeCoordinates(lines: seq<string>)
    requires forall j :: 0 <= j < |lines| ==> '\n' !in lines[j]
    ensures MavenCoordinates(Split(TreeGenerator.TreeOutput(lines), '\n'))
         == MavenCoordinates(TreeGenerator.KeptLines(lines))
  {
    TreeGenerator.TreeOutputLines(lines);
    MavenCoordinatesAppend(TreeGenerator.KeptLines(lines), [""]);
    EmptyLineHasNoCoordinate();
    assert MavenCoordinates([""]) == [] by {
      assert [""][1..] == [];
    }
  }

  lemma {:induction false} SkipGlyphsSuffix(s: string)
    ensures |SkipGlyphs(s)| <= |s| && SkipGlyphs(s) == s[|s| - |SkipGlyphs(s)|..]
  {
    if s != [] && IsGlyph(s[0]) {
      SkipGlyphsSuffix(s[1..]);
    }
  }

  lemma {:induction false} FieldRunIsPrefix(s: string)
    ensures FieldRun(s) <= s
  {
    if s != [] && IsRunChar(s[0]) {
      FieldRunIsPrefix(s[1..]);
      assert s == [s[0]] + s[1..];
    }
  }

  /** A line without a colon never matches. */
  lemma NoColonLine(line: string)
    requires ':' !in line
    ensures ParseLine(line) == None
  {
    var x := SkipSpaces(line);
    SkipSpacesShape(line);
    assert ':' !in x;
    var y := SkipGlyphs(x);
    SkipGlyphsSuffix(x);
    assert ':' !in y;
    var z := FieldRun(y);
    FieldRunIsPrefix(y);
    assert z == y[..|z|];
    assert ':' !in z;
    SplitNoSeparator(z, ':');
  }

  lemma {:induction false} NoColonLines(lines: seq<string>)
    requires forall j :: 0 <= j < |lines| ==> ':' !in lines[j]
    ensures MavenCoordinates(lines) == []
  {
    if lines != [] {
      NoColonLine(lines[0]);
      NoColonLines(lines[1..]);
    }
  }

  /** A text without a colon, such as the generator's refusal message, yields no coordinate. */
  lemma NoColonNoCoordinates(text: string)
    requires ':' !in text
    ensures MavenCoordinates(Split(text, '\n')) == []
  {
    SplitKeepsAbsent(text, '\n', ':');
    NoColonLines(Split(text, '\n'));
  }

  lemma InvalidInputStartHasNoColon()
    ensures ':' !in TreeGenerator.InvalidInputStart && ':' !in TreeGenerator.InvalidInputFields
  {
  }

  lemma InvalidInputEndHasNoColon()
    ensures ':' !in TreeGenerator.InvalidInputEnd
  {
  }

  lemma InvalidInputHasNoColon()
    ensures ':' !in TreeGenerator.InvalidInput
  {
    InvalidInputStartHasNoColon();
    InvalidInputEndHasNoColon();
  }

  // ---------------------------------------------------------------------
  // Batches of at most 128 coordinates
  // ---------------------------------------------------------------------

  function Min(a: int, b: int): int {
    if a <= b then a else b
  }

  /** `subList(i, min(i + 128, size))` for i = 0, 128, 256, ... */
  function Batches<T>(s: seq<T>): seq<seq<T>>
    decreases |s|
  {
    if s == [] then []
    else if |s| <= BatchSize then [s]
    else [s[..BatchSize]] + Batches(s[BatchSize..])
  }

  function Flatten<T>(bs: seq<seq<T>>): seq<T> {
    if bs == [] then [] else bs[0] + Flatten(bs[1..])
  }

  /** Batching loses, repeats and reorders nothing. */
  lemma {:induction false} BatchesFlatten<T>(s: seq<T>)
    ensures Flatten(Batches(s)) == s
    decreases |s|
  {
    if |s| > BatchSize {
      BatchesFlatten(s[BatchSize..]);
      assert ([s[..BatchSize]] + Batches(s[BatchSize..]))[1..] == Batches(s[BatchSize..]);
      assert s[..BatchSize] + s[BatchSize..] == s;
    } else if s != [] {
      assert [s][1..] == [];
    }
  }

  /** The number of requests is the number of coordinates divided by 128, rounded up. */
  lemma {:induction false} BatchesCount<T>(s: seq<T>)
    ensures |Batches(s)| == (|s| + BatchSize - 1) / BatchSize
    decreases |s|
  {
    if |s| > BatchSize {
      BatchesCount(s[BatchSize..]);
    }
  }

  /** Batch i is the slice the source's `subList` takes. */
  lemma {:induction false} BatchesAt<T>(s: seq<T>, i: nat)
    requires i < |Batches(s)|
    ensures i * BatchSize < |s|
    ensures Batches(s)[i] == s[i * BatchSize..Min((i + 1) * BatchSize, |s|)]
    decreases |s|
  {
    if i > 0 {
      var rest := s[BatchSize..];
      assert |s| > BatchSize;
      assert Batches(s)[i] == Batches(rest)[i - 1];
      BatchesAt(rest, i - 1);
      assert rest[(i - 1) * BatchSize..Min(i * BatchSize, |rest|)]
          == s[i * BatchSize..Min((i + 1) * BatchSize, |s|)];
    }
  }

  /** Every batch is non-empty and at most 128 long; all but the last are full. */
  lemma BatchSizes<T>(s: seq<T>, i: nat)
    requires i < |Batches(s)|
    ensures 0 < |Batches(s)[i]| <= BatchSize
    ensures i < |Batches(s)| - 1 ==> |Batches(s)[i]| == BatchSize
  {
    BatchesAt(s, i);
    BatchesCount(s);
  }

  /** 300 coordinates go out as 128 + 128 + 44. */
  lemma ThreeHundredCoordinates<T>(s: seq<T>)
    requires |s| == 300
    ensures |Batches(s)| == 3
    ensures |Batches(s)[0]| == 128 && |Batches(s)[1]| == 128 && |Batches(s)[2]| == 44
  {
    BatchesCount(s);
    BatchesAt(s, 0);
    BatchesAt(s, 1);
    BatchesAt(s, 2);
  }

  // ---------------------------------------------------------------------
  // The request payload
  // ---------------------------------------------------------------------

  const PayloadOpen := "{\"coordinates\": ["
  const PayloadClose := "]}"

  function Quote(c: string): string {
    "\"" + c + "\""
  }

  function Quoted(batch: seq<string>): seq<string> {
    seq(|batch|, i requires 0 <= i < |batch| => Quote(batch[i]))
  }

  /** `{"coordinates": ["c1","c2",...]}`, written without any escaping. */
  function Payload(batch: seq<string>): string {
    PayloadOpen + Join(Quoted(batch), ",") + PayloadClose
  }

  function Unquote(q: string): Option<string> {
    if |q| >= 2 && q[0] == '"' && q[|q| - 1] == '"' then Some(q[1..|q| - 1]) else None
  }

  function UnquoteAll(qs: seq<string>): Option<seq<string>> {
    if qs == [] then Some([])
    else match (Unquote(qs[0]), UnquoteAll(qs[1..]))
      case (Some(c), Some(cs)) => Some([c] + cs)
      case _ => None
  }

  /** Reads the coordinate list back out of a payload. */
  function ParsePayload(p: string): Option<seq<string>> {
    if |p| >= |PayloadOpen| + |PayloadClose| && p[..|PayloadOpen|] == PayloadOpen
       && p[|p| - |PayloadClose|..] == PayloadClose
    then
      var inner := p[|PayloadOpen|..|p| - |PayloadClose|];
      if inner == [] then Some([]) else UnquoteAll(Split(inner, ','))
    else None
  }

  lemma {:induction false} UnquoteQuoted(batch: seq<string>)
    ensures UnquoteAll(Quoted(batch)) == Some(batch)
  {
    if batch != [] {
      assert Quoted(batch)[1..] == Quoted(batch[1..]);
      UnquoteQuoted(batch[1..]);
      var q := Quote(batch[0]);
      assert Quoted(batch)[0] == q;
      assert q[1..|q| - 1] == batch[0];
      assert [batch[0]] + batch[1..] == batch;
    }
  }

  /** The payload names exactly its batch, in order, as long as no coordinate holds a comma. */
  lemma PayloadRoundTrip(batch: seq<string>)
    requires forall i :: 0 <= i < |batch| ==> ',' !in batch[i]
    ensures ParsePayload(Payload(batch)) == Some(batch)
  {
    var qs := Quoted(batch);
    var inner := Join(qs, ",");
    var p := Payload(batch);
    assert p == PayloadOpen + inner + PayloadClose;
    assert p[..|PayloadOpen|] == PayloadOpen;
    assert p[|p| - |PayloadClose|..] == PayloadClose;
    assert p[|PayloadOpen|..|p| - |PayloadClose|] == inner;
    if batch != [] {
      forall i | 0 <= i < |qs| ensures ',' !in qs[i] {
        assert qs[i] == "\"" + batch[i] + "\"";
      }
      SplitJoin(qs, ',');
      assert |inner| >= |qs[0]| >= 2;
      UnquoteQuoted(batch);
    }
  }

  lemma MavenCoordinateHasNoComma(t: MavenToken)
    requires ValidToken(t)
    ensures ',' !in MavenCoordinate(t)
  {
    assert ',' !in t.groupId && ',' !in t.artifactId && ',' !in t.version;
  }

  /** Every Maven request this service sends can be read back as its batch. */
  lemma MavenPayloadsAreFaithful(lines: seq<string>, i: nat)
    requires i < |Batches(MavenCoordinates(lines))|
    ensures ParsePayload(Payload(Batches(MavenCoordinates(lines))[i]))
         == Some(Batches(MavenCoordinates(lines))[i])
  {
    var s := MavenCoordinates(lines);
    var b := Batches(s)[i];
    BatchesAt(s, i);
    forall k | 0 <= k < |b| ensures ',' !in b[k] {
      assert b[k] == s[i * BatchSize + k];
      MavenCoordinatesAreValid(lines, b[k]);
      var t :| ValidToken(t) && b[k] == MavenCoordinate(t);
      MavenCoordinateHasNoComma(t);
    }
    PayloadRoundTrip(b);
  }

  // ---------------------------------------------------------------------
  // One batch request and the envelope it yields
  // ---------------------------------------------------------------------

  /** One component report object of the OSS Index answer. */
  datatype Finding = Finding(fields: map<string, string>)

  /** A 200 body either decodes as a list of reports or fails to decode (message may be null). */
  datatype Body = Reports(findings: seq<Finding>) | Undecodable(reason: Option<string>)

  /** What the HTTP exchange produced: an exception before a status, or a status and body. */
  datatype HttpOutcome = Unreachable(reason: Option<string>) | Answered(status: int, body: Body)

  /** The keys `result`, `responseCode` and `error` of the per-batch map. */
  datatype Envelope = Envelope(result: Option<seq<Finding>>, responseCode: Option<string>,
                               error: Option<string>)

  const ExceptionPrefix := "Error checking vulnerabilities: "
  const StatusPrefix := "Received response code "

  function EnvelopeOf(o: HttpOutcome): (e: Envelope)
    ensures e.result.Some? <==> o.Answered? && o.status == 200 && o.body.Reports?
    ensures e.result.Some? ==> e.result.value == o.body.findings && e.responseCode.None? && e.error.None?
    ensures e.result.None? ==> e.error.Some?
    ensures e.responseCode.Some? <==> o.Answered? && e.result.None?
  {
    match o
    case Unreachable(reason) => Envelope(None, None, Some(ExceptionPrefix + JavaString(reason)))
    case Answered(status, body) =>
      if status == 200 then
        match body
        case Reports(findings) => Envelope(Some(findings), None, None)
        case Undecodable(reason) =>
          Envelope(None, Some(IntToString(status)), Some(ExceptionPrefix + JavaString(reason)))
      else
        Envelope(None, Some(IntToString(status)), Some(StatusPrefix + IntToString(status)))
  }

  /** A recorded response code reads back as the status received. */
  lemma ResponseCodeReadsBack(o: HttpOutcome)
    requires EnvelopeOf(o).responseCode.Some?
    ensures o.Answered? && DecimalValue(EnvelopeOf(o).responseCode.value) == o.status
  {
    IntToStringValue(o.status);
  }

  /** A non-200 status is reported with the same code in both keys. */
  lemma StatusErrorNamesCode(o: HttpOutcome)
    requires o.Answered? && o.status != 200
    ensures EnvelopeOf(o).error == Some(StatusPrefix + EnvelopeOf(o).responseCode.value)
  {
  }

  function CheckBatch(batch: seq<string>, query: string -> HttpOutcome): Envelope {
    EnvelopeOf(query(Payload(batch)))
  }

  // ---------------------------------------------------------------------
  // Merging the batch answers
  // ---------------------------------------------------------------------

  /** An element of the final list: a report object, or a whole error map. */
  datatype Entry = Reported(finding: Finding) | Errored(envelope: Envelope)

  function FindingEntries(findings: seq<Finding>): seq<Entry> {
    if findings == [] then [] else [Reported(findings[0])] + FindingEntries(findings[1..])
  }

  lemma {:induction false} FindingEntriesShape(findings: seq<Finding>)
    ensures |FindingEntries(findings)| == |findings|
    ensures forall i :: 0 <= i < |findings| ==> FindingEntries(findings)[i] == Reported(findings[i])
  {
    if findings != [] {
      FindingEntriesShape(findings[1..]);
    }
  }

  /** `addAll(result)` when the map has a result, `add(map)` otherwise. */
  function Contribution(e: Envelope): seq<Entry> {
    if e.result.Some? then FindingEntries(e.result.value) else [Errored(e)]
  }

  function Merge(envelopes: seq<Envelope>): seq<Entry> {
    if envelopes == [] then [] else Contribution(envelopes[0]) + Merge(envelopes[1..])
  }

  lemma {:induction false} MergeAppend(a: seq<Envelope>, b: seq<Envelope>)
    ensures Merge(a + b) == Merge(a) + Merge(b)
  {
    if a == [] {
      assert a + b == b;
    } else {
      calc {
        Merge(a + b);
        { assert (a + b)[0] == a[0] && (a + b)[1..] == a[1..] + b; }
        Contribution(a[0]) + Merge(a[1..] + b);
        { MergeAppend(a[1..], b); }
        Contribution(a[0]) + (Merge(a[1..]) + Merge(b));
        Merge(a) + Merge(b);
      }
    }
  }

  /**
   * An entry is in the merged list exactly when it is a report of a successful
   * batch or the error map of a failed one.
   */
  lemma {:induction false} MergeMembers(envelopes: seq<Envelope>, x: Entry)
    ensures x in Merge(envelopes)
        <==> exists j :: 0 <= j < |envelopes| && x in Contribution(envelopes[j])
  {
    if envelopes != [] {
      MergeMembers(envelopes[1..], x);
      if x in Merge(envelopes) && x !in Contribution(envelopes[0]) {
        var j :| 0 <= j < |envelopes[1..]| && x in Contribution(envelopes[1..][j]);
        assert envelopes[1..][j] == envelopes[j + 1];
      }
      if exists j :: 0 <= j < |envelopes| && x in Contribution(envelopes[j]) {
        var j :| 0 <= j < |envelopes| && x in Contribution(envelopes[j]);
        if j > 0 {
          assert envelopes[1..][j - 1] == envelopes[j];
        }
      }
    }
  }

  /** A failed batch contributes exactly its own error map; a successful one exactly its reports. */
  lemma ContributionShape(e: Envelope)
    ensures e.result.None? ==> Contribution(e) == [Errored(e)]
    ensures e.result.Some? ==> |Contribution(e)| == |e.result.value|
                               && forall i :: 0 <= i < |e.result.value| ==> Contribution(e)[i] == Reported(e.result.value[i])
  {
    if e.result.Some? {
      FindingEntriesShape(e.result.value);
    }
  }

  /** The answer to each batch, one request per batch, in batch order. */
  function Envelopes(batches: seq<seq<string>>, query: string -> HttpOutcome): seq<Envelope> {
    if batches == [] then [] else [CheckBatch(batches[0], query)] + Envelopes(batches[1..], query)
  }

  lemma {:induction false} EnvelopesAppend(a: seq<seq<string>>, b: seq<seq<string>>, query: string -> HttpOutcome)
    ensures Envelopes(a + b, query) == Envelopes(a, query) + Envelopes(b, query)
  {
    if a == [] {
      assert a + b == b;
    } else {
      calc {
        Envelopes(a + b, query);
        { assert (a + b)[0] == a[0] && (a + b)[1..] == a[1..] + b; }
        [CheckBatch(a[0], query)] + Envelopes(a[1..] + b, query);
        { EnvelopesAppend(a[1..], b, query); }
        [CheckBatch(a[0], query)] + (Envelopes(a[1..], query) + Envelopes(b, query));
        Envelopes(a, query) + Envelopes(b, query);
      }
    }
  }

  /** The entries still to come once the cursor stands at `i`. */
  ghost function Pending(coordinates: seq<string>, i: nat, query: string -> HttpOutcome): seq<Entry> {
    if i < |coordinates| then Merge(Envelopes(Batches(coordinates[i..]), query)) else []
  }

  /** One turn of the batching loop: the slice at the cursor is requested and its answer comes first. */
  lemma PendingStep(coordinates: seq<string>, i: nat, query: string -> HttpOutcome)
    requires i < |coordinates|
    ensures Pending(coordinates, i, query)
         == Contribution(CheckBatch(coordinates[i..Min(i + BatchSize, |coordinates|)], query))
            + Pending(coordinates, i + BatchSize, query)
  {
    var rest := coordinates[i..];
    if |rest| <= BatchSize {
      assert Batches(rest) == [rest];
      assert coordinates[i..Min(i + BatchSize, |coordinates|)] == rest;
      var e := CheckBatch(rest, query);
      var none: seq<seq<string>> := [];
      assert Envelopes([rest], query) == [e] + Envelopes(none, query) by {
        assert [rest][1..] == none;
      }
      assert Merge([e]) == Contribution(e) + Merge([]) by {
        assert [e][1..] == [];
      }
    } else {
      var head, tail := rest[..BatchSize], Batches(rest[BatchSize..]);
      assert Batches(rest) == [head] + tail;
      assert head == coordinates[i..i + BatchSize];
      assert rest[BatchSize..] == coordinates[i + BatchSize..];
      var e := CheckBatch(head, query);
      assert Envelopes([head] + tail, query) == [e] + Envelopes(tail, query) by {
        assert ([head] + tail)[1..] == tail;
      }
      assert Merge([e] + Envelopes(tail, query)) == Contribution(e) + Merge(Envelopes(tail, query)) by {
        assert ([e] + Envelopes(tail, query))[1..] == Envelopes(tail, query);
      }
    }
  }

  lemma EntriesAssociative(a: seq<Entry>, b: seq<Entry>, c: seq<Entry>)
    ensures (a + b) + c == a + (b + c)
  {
  }

  /** From the start, everything is still to come. */
  lemma PendingAll(coordinates: seq<string>, query: string -> HttpOutcome)
    ensures Pending(coordinates, 0, query) == Merge(Envelopes(Batches(coordinates), query))
  {
    assert coordinates[0..] == coordinates;
  }

  /** The serial batching loop: one request per batch, answers merged in batch order. */
  method FetchBatches(coordinates: seq<string>, query: string -> HttpOutcome) returns (results: seq<Entry>)
    ensures results == Merge(Envelopes(Batches(coordinates), query))
  {
    results := [];
    var i := 0;
    while i < |coordinates|
      invariant 0 <= i
      invariant results + Pending(coordinates, i, query) == Pending(coordinates, 0, query)
    {
      PendingStep(coordinates, i, query);
      ghost var before, later := results, Pending(coordinates, i + BatchSize, query);
      var batch := coordinates[i..Min(i + BatchSize, |coordinates|)];
      var batchResult := CheckBatch(batch, query);
      if batchResult.result.Some? {
        results := results + FindingEntries(batchResult.result.value);
      } else {
        results := results + [Errored(batchResult)];
      }
      EntriesAssociative(before, Contribution(batchResult), later);
      i := i + BatchSize;
    }
    PendingAll(coordinates, query);
    assert results + [] == results;
  }

  // ---------------------------------------------------------------------
  // fetchVulnerabilities
  // ---------------------------------------------------------------------

  /** The coordinates the request covers, or what the tree generator threw. */
  function CoordinatesOf(packageType: PackageType, groupId: Option<string>, artifactIdOrName: Option<string>,
                         version: Option<string>, exclusionsBlock: Option<string>,
                         dependencyTree: Option<string>, mvn: string -> Result<seq<string>>): Result<seq<string>>
  {
    match packageType
    case Maven =>
      var tree := if dependencyTree.Some? then Success(dependencyTree.value)
                  else TreeGenerator.TreeReport(groupId, artifactIdOrName, version, exclusionsBlock, mvn);
      (match tree
       case Failure(m) => Failure(m)
       case Success(text) => Success(MavenCoordinates(Split(text, '\n'))))
    case Npm => Success([NpmCoordinate(artifactIdOrName, version)])
  }

  function Vulnerabilities(packageType: PackageType, groupId: Option<string>, artifactIdOrName: Option<string>,
                           version: Option<string>, exclusionsBlock: Option<string>,
                           dependencyTree: Option<string>, mvn: string -> Result<seq<string>>,
                           query: string -> HttpOutcome): Result<seq<Entry>>
  {
    match CoordinatesOf(packageType, groupId, artifactIdOrName, version, exclusionsBlock, dependencyTree, mvn)
    case Failure(m) => Failure(m)
    case Success(coordinates) => Success(Merge(Envelopes(Batches(coordinates), query)))
  }

  /** The first half of `fetchVulnerabilities`: the coordinate list. */
  method CollectCoordinates(packageType: PackageType, groupId: Option<string>, artifactIdOrName: Option<string>,
                            version: Option<string>, exclusionsBlock: Option<string>,
                            dependencyTree: Option<string>, mvn: string -> Result<seq<string>>)
    returns (r: Result<seq<string>>)
    ensures r == CoordinatesOf(packageType, groupId, artifactIdOrName, version, exclusionsBlock, dependencyTree, mvn)
  {
    if packageType == Npm {
      return Success([NpmCoordinate(artifactIdOrName, version)]);
    }
    var mavenDependencyTree: string;
    if dependencyTree.Some? {
      mavenDependencyTree := dependencyTree.value;
    } else {
      var generated := TreeGenerator.GenerateTree(groupId, artifactIdOrName, version, exclusionsBlock, mvn);
      if generated.Failure? {
        return Failure(generated.message);
      }
      mavenDependencyTree := generated.value;
    }
    var coordinates := ExtractMavenCoordinates(mavenDependencyTree);
    return Success(coordinates);
  }

  method FetchVulnerabilities(packageType: PackageType, groupId: Option<string>, artifactIdOrName: Option<string>,
                              version: Option<string>, exclusionsBlock: Option<string>,
                              dependencyTree: Option<string>, mvn: string -> Result<seq<string>>,
                              query: string -> HttpOutcome)
    returns (r: Result<seq<Entry>>)
    ensures r == Vulnerabilities(packageType, groupId, artifactIdOrName, version, exclusionsBlock,
                                 dependencyTree, mvn, query)
  {
    var coordinates := CollectCoordinates(packageType, groupId, artifactIdOrName, version, exclusionsBlock,
                                          dependencyTree, mvn);
    if coordinates.Failure? {
      return Failure(coordinates.message);
    }
    var results := FetchBatches(coordinates.value, query);
    return Success(results);
  }

  method FetchMavenVulnerabilities(groupId: Option<string>, artifactId: Option<string>, version: Option<string>,
                                   exclusionsBlock: Option<string>, mvn: string -> Result<seq<string>>,
                                   query: string -> HttpOutcome)
    returns (r: Result<seq<Entry>>)
    ensures r == Vulnerabilities(Maven, groupId, artifactId, version, exclusionsBlock, None, mvn, query)
  {
    r := FetchVulnerabilities(Maven, groupId, artifactId, version, exclusionsBlock, None, mvn, query);
  }

  method FetchNpmVulnerabilities(packageName: Option<string>, version: Option<string>,
                                 mvn: string -> Result<seq<string>>, query: string -> HttpOutcome)
    returns (r: Result<seq<Entry>>)
    ensures r == Vulnerabilities(Npm, None, packageName, version, None, None, mvn, query)
  {
    r := FetchVulnerabilities(Npm, None, packageName, version, None, None, mvn, query);
  }

  /** An npm lookup is one request for the single coordinate, and Maven is never run. */
  lemma NpmSingleRequest(packageName: Option<string>, version: Option<string>,
                         mvn: string -> Result<seq<string>>, query: string -> HttpOutcome)
    ensures Vulnerabilities(Npm, None, packageName, version, None, None, mvn, query)
         == Success(Contribution(EnvelopeOf(query(Payload([NpmCoordinate(packageName, version)])))))
  {
    var c := NpmCoordinate(packageName, version);
    var e := CheckBatch([c], query);
    assert CoordinatesOf(Npm, None, packageName, version, None, None, mvn) == Success([c]);
    assert Batches([c]) == [[c]];
    assert [[c]][1..] == [] && [e][1..] == [];
    assert Envelopes([[c]], query) == [e] + Envelopes([], query) == [e];
    assert Merge([e]) == Contribution(e) + Merge([]) == Contribution(e);
  }

  /** A Maven lookup missing a field makes no request and returns an empty list. */
  lemma InvalidMavenLookupIsEmpty(groupId: Option<string>, artifactId: Option<string>, version: Option<string>,
                                  exclusionsBlock: Option<string>, mvn: string -> Result<seq<string>>,
                                  query: string -> HttpOutcome)
    requires groupId.None? || artifactId.None? || version.None?
    ensures Vulnerabilities(Maven, groupId, artifactId, version, exclusionsBlock, None, mvn, query) == Success([])
  {
    InvalidInputHasNoColon();
    NoColonNoCoordinates(TreeGenerator.InvalidInput);
  }

  /** A batch answered with 503 adds one error map with both the code and the message. */
  lemma UnavailableBatch(batch: seq<string>, query: string -> HttpOutcome, body: Body)
    requires query(Payload(batch)) == Answered(503, body)
    ensures Contribution(CheckBatch(batch, query))
         == [Errored(Envelope(None, Some("503"), Some("Received response code " + "503")))]
  {
    assert NatToString(5) == "5";
    assert NatToString(50) == NatToString(5) + [Digit(0)] == "50";
    assert NatToString(503) == NatToString(50) + [Digit(3)] == "503";
  }
}
