/**
 * DependencyTreeGenerator.generateTree: validates the coordinate, renders a one-dependency POM,
 * hands it to `mvn dependency:tree` and keeps the tree lines of the tool's output.
 *
 * Writing the temporary POM, running Maven and reading its output are one abstract step here:
 * `mvn` maps the POM text to the tool's output lines, or to the message of the exception thrown.
 */
module TreeGenerator {
  import opened Wrappers
  import opened JavaText

  /** The message returned when a coordinate field is null, in three pieces of its text. */
  const InvalidInputStart := "Invalid input. "
  const InvalidInputFields := "groupId, artifactId "
  const InvalidInputEnd := "and version must be provided."
  const InvalidInput := InvalidInputStart + InvalidInputFields + InvalidInputEnd

  // The lines of the POM text block, after Java removes the incidental indentation.
  const PomProject := "<project>\n"
  const PomModelVersion := "    <modelVersion>4.0.0</modelVersion>\n"
  const PomOwnGroup := "    <groupId>com.example</groupId>\n"
  const PomOwnArtifact := "    <artifactId>temp-project</artifactId>\n"
  const PomOwnVersion := "    <version>1.0-SNAPSHOT</version>\n"
  const PomDependencies := "    <dependencies>\n"
  const PomDependency := "        <dependency>\n"
  const PomGroupOpen := "            <groupId>"
  const PomGroupClose := "</groupId>\n"
  const PomArtifactOpen := "            <artifactId>"
  const PomArtifactClose := "</artifactId>\n"
  const PomVersionOpen := "            <version>"
  const PomVersionClose := "</version>\n"
  const PomExclusionsIndent := "            "
  const PomDependencyClose := "\n        </dependency>\n"
  const PomDependenciesClose := "    </dependencies>\n"
  const PomProjectClose := "</project>\n"

  /** The literal parts of the POM text block, in order; `%s` stands between consecutive parts. */
  const PomChunks: seq<string> := [
    PomProject + PomModelVersion + PomOwnGroup + PomOwnArtifact + PomOwnVersion + PomDependencies
      + PomDependency + PomGroupOpen,
    PomGroupClose + PomArtifactOpen,
    PomArtifactClose + PomVersionOpen,
    PomVersionClose + PomExclusionsIndent,
    PomDependencyClose + PomDependenciesClose + PomProjectClose
  ]

  /** The POM text block as written, with its four `%s` specifiers. */
  function PomTemplate(): string {
    Join(PomChunks, "%s")
  }

  // No fixed part of the POM holds a `%`. Each group of lines is checked by a
  // lemma of its own, so that every character-by-character check stays small.

  /** The project header up to the dependency's `<groupId>` is literal text. */
  lemma ProjectHeaderIsLiteral()
    ensures '%' !in PomChunks[0]
  {
    ProjectIdentityIsLiteral();
    DependencyOpeningIsLiteral();
  }

  /** The project element, the model version and the project's own group and artifact. */
  lemma ProjectIdentityIsLiteral()
    ensures '%' !in PomProject && '%' !in PomModelVersion && '%' !in PomOwnGroup && '%' !in PomOwnArtifact
  {
    OwnCoordinatesAreLiteral();
  }

  /** The project's own `com.example:temp-project` coordinates. */
  lemma OwnCoordinatesAreLiteral()
    ensures '%' !in PomOwnGroup && '%' !in PomOwnArtifact
  {
  }

  /** The project's own version and the opening of the dependency. */
  lemma DependencyOpeningIsLiteral()
    ensures '%' !in PomOwnVersion && '%' !in PomDependencies && '%' !in PomDependency && '%' !in PomGroupOpen
  {
  }

  /** The tags around the dependency's group, artifact and version. */
  lemma CoordinateTagsAreLiteral()
    ensures '%' !in PomChunks[1] && '%' !in PomChunks[2] && '%' !in PomChunks[3]
  {
    assert '%' !in PomGroupClose && '%' !in PomArtifactOpen && '%' !in PomArtifactClose;
    assert '%' !in PomVersionOpen && '%' !in PomVersionClose && '%' !in PomExclusionsIndent;
  }

  /** The closing tags after the exclusions. */
  lemma ClosingTagsAreLiteral()
    ensures '%' !in PomChunks[4]
  {
    assert '%' !in PomDependencyClose && '%' !in PomDependenciesClose && '%' !in PomProjectClose;
  }

  lemma PomChunksLiteral()
    ensures forall i :: 0 <= i < |PomChunks| ==> '%' !in PomChunks[i]
  {
    ProjectHeaderIsLiteral();
    CoordinateTagsAreLiteral();
    ClosingTagsAreLiteral();
  }

  /** The POM text: the template formatted with groupId, artifactId, version and exclusions. */
  function PomContent(groupId: string, artifactId: string, version: string, exclusions: string): string {
    PomChunksLiteral();
    FormattedFill(PomChunks, [groupId, artifactId, version, exclusions]);
    Formatted(PomTemplate(), [groupId, artifactId, version, exclusions])
  }

  /** The four values land in the POM in the order groupId, artifactId, version, exclusions. */
  lemma PomLayout(groupId: string, artifactId: string, version: string, exclusions: string)
    ensures PomContent(groupId, artifactId, version, exclusions)
         == PomChunks[0] + groupId + PomChunks[1] + artifactId + PomChunks[2] + version
            + PomChunks[3] + exclusions + PomChunks[4]
  {
    var args := [groupId, artifactId, version, exclusions];
    PomChunksLiteral();
    FormattedFill(PomChunks, args);
    FillFour(PomChunks, args);
  }

  /** A line of Maven's output is kept when it holds a tree marker `+-` or `\-`. */
  predicate IsTreeLine(line: string) {
    Contains(line, "+-") || Contains(line, "\\-")
  }

  /** `replaceFirst("^\\[INFO\\]\\s*", "")`: one leading `[INFO]` and the whitespace after it are removed. */
  function StripInfo(line: string): string {
    if "[INFO]" <= line then SkipSpaces(line[6..]) else line
  }

  /**
   * Stripping leaves a suffix of the line: the whole line when it does not start with `[INFO]`, otherwise
   * what follows `[INFO]` and the whitespace run after it.
   */
  lemma StripInfoShape(line: string)
    ensures var r := StripInfo(line);
      |r| <= |line| && r == line[|line| - |r|..]
      && (!("[INFO]" <= line) ==> r == line)
      && ("[INFO]" <= line ==>
            |r| <= |line| - 6 && (r == [] || !IsSpace(r[0]))
            && forall i :: 6 <= i < |line| - |r| ==> IsSpace(line[i]))
  {
    if "[INFO]" <= line {
      var t := line[6..];
      SkipSpacesShape(t);
      var r := SkipSpaces(t);
      assert t[|t| - |r|..] == line[|line| - |r|..];
      assert forall i :: 6 <= i < |line| - |r| ==> line[i] == t[i - 6];
    }
  }

  /** What one raw output line contributes to the report. */
  function Piece(line: string): string {
    if IsTreeLine(line) then StripInfo(line) + "\n" else ""
  }

  /** The report: the kept lines, stripped, in input order, each ended by a newline. */
  function TreeOutput(lines: seq<string>): string {
    if lines == [] then "" else Piece(lines[0]) + TreeOutput(lines[1..])
  }

  /** The kept lines, stripped, in input order. */
  function KeptLines(lines: seq<string>): seq<string> {
    if lines == [] then []
    else (if IsTreeLine(lines[0]) then [StripInfo(lines[0])] else []) + KeptLines(lines[1..])
  }

  lemma {:induction false} TreeOutputAppend(a: seq<string>, b: seq<string>)
    ensures TreeOutput(a + b) == TreeOutput(a) + TreeOutput(b)
  {
    if a == [] {
      assert a + b == b;
    } else {
      var ab := a + b;
      assert ab[0] == a[0];
      assert ab[1..] == a[1..] + b;
      calc {
        TreeOutput(ab);
        Piece(ab[0]) + TreeOutput(ab[1..]);
        Piece(a[0]) + TreeOutput(a[1..] + b);
        { TreeOutputAppend(a[1..], b); }
        Piece(a[0]) + (TreeOutput(a[1..]) + TreeOutput(b));
        (Piece(a[0]) + TreeOutput(a[1..])) + TreeOutput(b);
      }
    }
  }

  lemma DropsUntilFirst(s: string, m: string, k: nat)
    requires m != [] && Contains(s, m) && k <= |s|
    requires forall i :: 0 <= i < k ==> s[i] != m[0]
    ensures Contains(s[k..], m)
  {
    var j :| 0 <= j <= |s| && m <= s[j..];
    assert s[j..][0] == m[0];
    assert k <= j;
    assert s[k..][j - k..] == s[j..];
  }

  /** Stripping `[INFO]` never removes a tree marker: every kept line still holds one. */
  lemma StripInfoKeepsMarker(line: string)
    requires IsTreeLine(line)
    ensures IsTreeLine(StripInfo(line))
  {
    var r := StripInfo(line);
    var k := |line| - |r|;
    StripInfoShape(line);
    if "[INFO]" <= line {
      assert forall i :: 0 <= i < 6 ==> line[i] == "[INFO]"[i];
      if Contains(line, "+-") {
        DropsUntilFirst(line, "+-", k);
      } else {
        DropsUntilFirst(line, "\\-", k);
      }
    }
  }

  /** A line is in the report exactly when it is the stripped form of a kept input line. */
  lemma {:induction false} KeptLinesMembers(lines: seq<string>, x: string)
    ensures x in KeptLines(lines) <==>
      exists j :: 0 <= j < |lines| && IsTreeLine(lines[j]) && StripInfo(lines[j]) == x
  {
    if lines != [] {
      KeptLinesMembers(lines[1..], x);
      if x in KeptLines(lines[1..]) {
        var j :| 0 <= j < |lines[1..]| && IsTreeLine(lines[1..][j]) && StripInfo(lines[1..][j]) == x;
        assert lines[j + 1] == lines[1..][j];
      }
      if exists j :: 0 <= j < |lines| && IsTreeLine(lines[j]) && StripInfo(lines[j]) == x {
        var j :| 0 <= j < |lines| && IsTreeLine(lines[j]) && StripInfo(lines[j]) == x;
        if j > 0 {
          assert lines[1..][j - 1] == lines[j];
        }
      }
    }
  }

  /** Every line of the report still carries a tree marker. */
  lemma KeptLinesAreTreeLines(lines: seq<string>)
    ensures forall i :: 0 <= i < |KeptLines(lines)| ==> IsTreeLine(KeptLines(lines)[i])
  {
    forall i | 0 <= i < |KeptLines(lines)|
      ensures IsTreeLine(KeptLines(lines)[i])
    {
      var x := KeptLines(lines)[i];
      KeptLinesMembers(lines, x);
      var j :| 0 <= j < |lines| && IsTreeLine(lines[j]) && StripInfo(lines[j]) == x;
      StripInfoKeepsMarker(lines[j]);
    }
  }

  /** The report is the kept lines joined by newlines, with a final newline. */
  lemma {:induction false} TreeOutputJoin(lines: seq<string>)
    ensures TreeOutput(lines) == Join(KeptLines(lines) + [""], "\n")
  {
    if lines != [] {
      TreeOutputJoin(lines[1..]);
      if IsTreeLine(lines[0]) {
        var rest := KeptLines(lines[1..]) + [""];
        assert KeptLines(lines) + [""] == [StripInfo(lines[0])] + rest;
        assert ([StripInfo(lines[0])] + rest)[1..] == rest;
      } else {
        assert KeptLines(lines) == KeptLines(lines[1..]);
      }
    }
  }

  /** Read back line by line, the report gives the kept lines and one empty line after the last newline. */
  lemma TreeOutputLines(lines: seq<string>)
    requires forall j :: 0 <= j < |lines| ==> '\n' !in lines[j]
    ensures Split(TreeOutput(lines), '\n') == KeptLines(lines) + [""]
  {
    var kept := KeptLines(lines) + [""];
    forall i | 0 <= i < |kept|
      ensures '\n' !in kept[i]
    {
      if i < |kept| - 1 {
        KeptLinesMembers(lines, kept[i]);
        var j :| 0 <= j < |lines| && IsTreeLine(lines[j]) && StripInfo(lines[j]) == kept[i];
        StripInfoShape(lines[j]);
        assert forall c :: c in kept[i] ==> c in lines[j];
      }
    }
    TreeOutputJoin(lines);
    SplitJoin(kept, '\n');
  }

  /** The report is empty exactly when no output line holds a tree marker. */
  lemma {:induction false} TreeOutputEmpty(lines: seq<string>)
    ensures TreeOutput(lines) == "" <==> forall j :: 0 <= j < |lines| ==> !IsTreeLine(lines[j])
  {
    if lines != [] {
      TreeOutputEmpty(lines[1..]);
      assert forall j :: 1 <= j < |lines| ==> lines[j] == lines[1..][j - 1];
    }
  }

  lemma TreeOutputStep(lines: seq<string>, i: nat)
    requires i < |lines|
    ensures TreeOutput(lines[..i + 1]) == TreeOutput(lines[..i]) + Piece(lines[i])
  {
    assert lines[..i + 1] == lines[..i] + [lines[i]];
    TreeOutputAppend(lines[..i], [lines[i]]);
    assert TreeOutput([lines[i]]) == Piece(lines[i]) + TreeOutput([]);
  }

  /** The `while (readLine)` loop: keep the tree lines, strip `[INFO]`, end each with a newline. */
  method FilterTreeOutput(lines: seq<string>) returns (treeOutput: string)
    ensures treeOutput == TreeOutput(lines)
  {
    treeOutput := "";
    var i := 0;
    while i < |lines|
      invariant 0 <= i <= |lines|
      invariant treeOutput == TreeOutput(lines[..i])
    {
      TreeOutputStep(lines, i);
      var line := lines[i];
      if IsTreeLine(line) {
        line := StripInfo(line);
        treeOutput := treeOutput + line + "\n";
      }
      i := i + 1;
    }
    assert lines[..i] == lines;
  }

  /** What `generateTree` returns, or the message of what it throws. */
  function TreeReport(groupId: Option<string>, artifactId: Option<string>, version: Option<string>,
                      exclusionsBlock: Option<string>, mvn: string -> Result<seq<string>>): Result<string>
  {
    if groupId.None? || artifactId.None? || version.None? then Success(InvalidInput)
    else
      match mvn(PomContent(groupId.value, artifactId.value, version.value, exclusionsBlock.GetOr("")))
      case Failure(m) => Failure(m)
      case Success(lines) => Success(TreeOutput(lines))
  }

  /** A missing coordinate field gives the fixed message, whatever Maven would do. */
  lemma InvalidInputShortCircuits(groupId: Option<string>, artifactId: Option<string>, version: Option<string>,
                                  exclusionsBlock: Option<string>, mvn: string -> Result<seq<string>>,
                                  other: string -> Result<seq<string>>)
    requires groupId.None? || artifactId.None? || version.None?
    ensures TreeReport(groupId, artifactId, version, exclusionsBlock, mvn) == Success(InvalidInput)
    ensures TreeReport(groupId, artifactId, version, exclusionsBlock, mvn)
         == TreeReport(groupId, artifactId, version, exclusionsBlock, other)
  {
  }

  /** A null exclusions block behaves as the empty block. */
  lemma NullExclusionsAreEmpty(groupId: Option<string>, artifactId: Option<string>, version: Option<string>,
                               mvn: string -> Result<seq<string>>)
    ensures TreeReport(groupId, artifactId, version, None, mvn) == TreeReport(groupId, artifactId, version, Some(""), mvn)
  {
  }

  /** `generateTree`: validation, the exclusions default, the POM, Maven, then the output filter. */
  method GenerateTree(groupId: Option<string>, artifactId: Option<string>, version: Option<string>,
                      exclusionsBlock: Option<string>, mvn: string -> Result<seq<string>>)
    returns (r: Result<string>)
    ensures r == TreeReport(groupId, artifactId, version, exclusionsBlock, mvn)
  {
    if groupId.None? || artifactId.None? || version.None? {
      return Success(InvalidInput);
    }
    var exclusions := exclusionsBlock;
    if exclusions.None? {
      exclusions := Some("");
    }
    var pomContent := PomContent(groupId.value, artifactId.value, version.value, exclusions.value);
    var output := mvn(pomContent);
    match output
    case Failure(m) => r := Failure(m);
    case Success(lines) =>
      var treeOutput := FilterTreeOutput(lines);
      r := Success(treeOutput);
  }
}
