/**
 * DependencyTreeController.generateDependencyTree: reads a `<dependency>`
 * snippet, checks that it names a group, an artifact and a version, turns its
 * `<exclusions>` into a POM exclusions block and hands all four to the tree
 * generator.
 *
 * Parsing is not modelled: the controller receives the document element as a
 * tree of elements and text, or the message of the parser's exception.
 */
module DependencyXml {
  import opened Wrappers
  import opened JavaText
  import TreeGenerator

  const InvalidXml := "Invalid dependency XML. Ensure groupId, artifactId, and version are provided."
  const ErrorPrefix := "Error processing dependency: "
  const ExclusionsOpen := "<exclusions>"
  const ExclusionsClose := "</exclusions>"

  /** A DOM node: character data, or an element with its children in document order. */
  datatype Node = Text(content: string) | Element(tag: string, children: seq<Node>)

  // ---------------------------------------------------------------------
  // getElementsByTagName, getTextContent, getElementValue
  // ---------------------------------------------------------------------

  /** The elements of a forest, and all their descendants, that carry the tag, in document order. */
  function Tagged(forest: seq<Node>, tag: string): seq<Node>
    decreases forest
  {
    if forest == [] then []
    else
      var here := match forest[0]
        case Text(_) => []
        case Element(t, kids) => (if t == tag then [forest[0]] else []) + Tagged(kids, tag);
      here + Tagged(forest[1..], tag)
  }

  /** `Element.getElementsByTagName`: the descendants (not the element itself) with the tag. */
  function ElementsByTagName(parent: Node, tag: string): seq<Node> {
    if parent.Element? then Tagged(parent.children, tag) else []
  }

  /** `Node.getTextContent`: the text of every descendant, concatenated in document order. */
  function TextContent(n: Node): string
    decreases n, 1
  {
    match n
    case Text(s) => s
    case Element(_, kids) => ForestText(kids)
  }

  function ForestText(forest: seq<Node>): string
    decreases forest, 0
  {
    if forest == [] then "" else TextContent(forest[0]) + ForestText(forest[1..])
  }

  /** The trimmed text of the first descendant with the tag, or null when there is none. */
  function GetElementValue(parent: Node, tag: string): Option<string> {
    var list := ElementsByTagName(parent, tag);
    if |list| > 0 then Some(Trim(TextContent(list[0]))) else None
  }

  lemma {:induction false} TaggedAppend(a: seq<Node>, b: seq<Node>, tag: string)
    ensures Tagged(a + b, tag) == Tagged(a, tag) + Tagged(b, tag)
  {
    if a == [] {
      assert a + b == b;
    } else {
      assert (a + b)[0] == a[0] && (a + b)[1..] == a[1..] + b;
      TaggedAppend(a[1..], b, tag);
    }
  }

  /** Everything `getElementsByTagName` returns is an element with that tag. */
  lemma {:induction false} TaggedAreElements(forest: seq<Node>, tag: string)
    ensures forall x :: x in Tagged(forest, tag) ==> x.Element? && x.tag == tag
    decreases forest
  {
    if forest != [] {
      TaggedAreElements(forest[1..], tag);
      if forest[0].Element? {
        TaggedAreElements(forest[0].children, tag);
      }
    }
  }

  /** A child with the tag, after children holding no such element, is the one whose text is read. */
  lemma FirstMatchingChild(parent: Node, tag: string, k: nat, kids: seq<Node>)
    requires parent.Element? && k < |parent.children|
    requires parent.children[k] == Element(tag, kids)
    requires forall j :: 0 <= j < k ==> Tagged([parent.children[j]], tag) == []
    ensures GetElementValue(parent, tag) == Some(Trim(ForestText(kids)))
  {
    var cs := parent.children;
    NoneBefore(cs[..k], tag);
    assert cs == cs[..k] + ([cs[k]] + cs[k + 1..]);
    TaggedAppend(cs[..k], [cs[k]] + cs[k + 1..], tag);
    assert ([cs[k]] + cs[k + 1..])[0] == cs[k] && ([cs[k]] + cs[k + 1..])[1..] == cs[k + 1..];
  }

  lemma {:induction false} NoneBefore(prefix: seq<Node>, tag: string)
    requires forall j :: 0 <= j < |prefix| ==> Tagged([prefix[j]], tag) == []
    ensures Tagged(prefix, tag) == []
  {
    if prefix != [] {
      NoneBefore(prefix[1..], tag);
      assert prefix == [prefix[0]] + prefix[1..];
      TaggedAppend([prefix[0]], prefix[1..], tag);
    }
  }

  /** Without any element carrying the tag below it, the value is null. */
  lemma AbsentTagIsNull(parent: Node, tag: string)
    requires parent.Element?
    requires forall j :: 0 <= j < |parent.children| ==> Tagged([parent.children[j]], tag) == []
    ensures GetElementValue(parent, tag) == None
  {
    NoneBefore(parent.children, tag);
  }

  // ---------------------------------------------------------------------
  // The exclusions block
  // ---------------------------------------------------------------------

  /** The literal parts of the exclusion text block; `%s` stands between consecutive parts. */
  const ExclusionChunks: seq<string> := [
    "<exclusion>\n    <groupId>",
    "</groupId>\n    <artifactId>",
    "</artifactId>\n</exclusion>\n"
  ]

  function ExclusionTemplate(): string {
    Join(ExclusionChunks, "%s")
  }

  lemma ExclusionChunksLiteral()
    ensures forall i :: 0 <= i < |ExclusionChunks| ==> '%' !in ExclusionChunks[i]
  {
    assert '%' !in ExclusionChunks[0] && '%' !in ExclusionChunks[1] && '%' !in ExclusionChunks[2];
  }

  /** The exclusion text block formatted with a group and an artifact. */
  function FormattedExclusion(groupId: string, artifactId: string): string {
    ExclusionChunksLiteral();
    FormattedFill(ExclusionChunks, [groupId, artifactId]);
    Formatted(ExclusionTemplate(), [groupId, artifactId])
  }

  /** One exclusion fragment: the group, then the artifact, between the fixed parts. */
  function ExclusionFragment(groupId: string, artifactId: string): string {
    ExclusionChunks[0] + groupId + ExclusionChunks[1] + artifactId + ExclusionChunks[2]
  }

  /** The formatted text block puts the group, then the artifact, between its fixed parts. */
  lemma ExclusionLayout(groupId: string, artifactId: string)
    ensures FormattedExclusion(groupId, artifactId) == ExclusionFragment(groupId, artifactId)
  {
    ExclusionChunksLiteral();
    FormattedFill(ExclusionChunks, [groupId, artifactId]);
    FillTwo(ExclusionChunks, [groupId, artifactId]);
  }

  /** What one `<exclusion>` adds: its fragment when both fields are present, nothing otherwise. */
  function FragmentOf(exclusion: Node): string {
    match (GetElementValue(exclusion, "groupId"), GetElementValue(exclusion, "artifactId"))
    case (Some(g), Some(a)) => ExclusionFragment(g, a)
    case _ => ""
  }

  /** The texts `f` gives the elements of `xs`, concatenated in order. */
  function ConcatMap<T>(f: T -> string, xs: seq<T>): string {
    if xs == [] then "" else f(xs[0]) + ConcatMap(f, xs[1..])
  }

  lemma {:induction false} ConcatMapAppend<T>(f: T -> string, a: seq<T>, b: seq<T>)
    ensures ConcatMap(f, a + b) == ConcatMap(f, a) + ConcatMap(f, b)
  {
    if a == [] {
      assert a + b == b;
    } else {
      assert (a + b)[0] == a[0] && (a + b)[1..] == a[1..] + b;
      ConcatMapAppend(f, a[1..], b);
    }
  }

  lemma ConcatMapStep<T>(f: T -> string, xs: seq<T>, i: nat)
    requires i < |xs|
    ensures ConcatMap(f, xs[..i + 1]) == ConcatMap(f, xs[..i]) + f(xs[i])
  {
    ConcatMapAppend(f, xs[..i], [xs[i]]);
    assert xs[..i + 1] == xs[..i] + [xs[i]];
    assert [xs[i]][1..] == [];
  }

  /** The fragments of a sequence of `<exclusion>` elements, in document order. */
  function Fragments(exclusions: seq<Node>): string {
    ConcatMap(FragmentOf, exclusions)
  }

  /** The `<exclusion>` elements of the first `<exclusions>`, if there is one. */
  function ExclusionNodes(dependency: Node): seq<Node> {
    var lists := ElementsByTagName(dependency, "exclusions");
    if |lists| > 0 then ElementsByTagName(lists[0], "exclusion") else []
  }

  function ExclusionsBlock(dependency: Node): string {
    var nodes := ExclusionNodes(dependency);
    if |nodes| > 0 then ExclusionsOpen + Fragments(nodes) + ExclusionsClose else ""
  }

  /** A complete exclusion contributes its formatted text block. */
  lemma CompleteFragment(exclusion: Node, groupId: string, artifactId: string)
    requires GetElementValue(exclusion, "groupId") == Some(groupId)
    requires GetElementValue(exclusion, "artifactId") == Some(artifactId)
    ensures FragmentOf(exclusion) == FormattedExclusion(groupId, artifactId)
  {
    ExclusionLayout(groupId, artifactId);
  }

  /** An exclusion missing either field contributes nothing. */
  lemma IncompleteFragment(exclusion: Node)
    requires GetElementValue(exclusion, "groupId").None? || GetElementValue(exclusion, "artifactId").None?
    ensures FragmentOf(exclusion) == ""
  {
  }

  /** The (group, artifact) pair of one exclusion, when it carries both fields. */
  function PairOf(exclusion: Node): seq<(string, string)> {
    match (GetElementValue(exclusion, "groupId"), GetElementValue(exclusion, "artifactId"))
    case (Some(g), Some(a)) => [(g, a)]
    case _ => []
  }

  /** The (group, artifact) pairs of the complete exclusions, in document order. */
  function ExclusionPairs(exclusions: seq<Node>): seq<(string, string)> {
    if exclusions == [] then [] else PairOf(exclusions[0]) + ExclusionPairs(exclusions[1..])
  }

  function RenderPairs(pairs: seq<(string, string)>): string {
    if pairs == [] then "" else ExclusionFragment(pairs[0].0, pairs[0].1) + RenderPairs(pairs[1..])
  }

  lemma {:induction false} RenderPairsAppend(a: seq<(string, string)>, b: seq<(string, string)>)
    ensures RenderPairs(a + b) == RenderPairs(a) + RenderPairs(b)
  {
    if a == [] {
      assert a + b == b;
    } else {
      calc {
        RenderPairs(a + b);
        { assert (a + b)[0] == a[0] && (a + b)[1..] == a[1..] + b; }
        ExclusionFragment(a[0].0, a[0].1) + RenderPairs(a[1..] + b);
        { RenderPairsAppend(a[1..], b); }
        ExclusionFragment(a[0].0, a[0].1) + (RenderPairs(a[1..]) + RenderPairs(b));
        RenderPairs(a) + RenderPairs(b);
      }
    }
  }

  lemma FragmentOfPair(exclusion: Node)
    ensures FragmentOf(exclusion) == RenderPairs(PairOf(exclusion))
  {
    var g := GetElementValue(exclusion, "groupId");
    var a := GetElementValue(exclusion, "artifactId");
    if g.Some? && a.Some? {
      assert PairOf(exclusion) == [(g.value, a.value)];
      assert [(g.value, a.value)][1..] == [];
    }
  }

  /** The builder renders exactly the complete exclusions, in order: incomplete ones add nothing. */
  lemma {:induction false} FragmentsRenderPairs(exclusions: seq<Node>)
    ensures Fragments(exclusions) == RenderPairs(ExclusionPairs(exclusions))
  {
    if exclusions != [] {
      FragmentsRenderPairs(exclusions[1..]);
      FragmentOfPair(exclusions[0]);
      RenderPairsAppend(PairOf(exclusions[0]), ExclusionPairs(exclusions[1..]));
      assert Fragments(exclusions) == FragmentOf(exclusions[0]) + Fragments(exclusions[1..]);
    }
  }

  lemma PairOfMembers(exclusion: Node, g: string, a: string)
    ensures (g, a) in PairOf(exclusion)
        <==> GetElementValue(exclusion, "groupId") == Some(g) && GetElementValue(exclusion, "artifactId") == Some(a)
  {
  }

  /** A pair is rendered exactly when some exclusion carries both of its fields. */
  lemma {:induction false} ExclusionPairsMembers(exclusions: seq<Node>, g: string, a: string)
    ensures (g, a) in ExclusionPairs(exclusions)
        <==> exists j :: 0 <= j < |exclusions| && GetElementValue(exclusions[j], "groupId") == Some(g)
                         && GetElementValue(exclusions[j], "artifactId") == Some(a)
  {
    if exclusions != [] {
      ExclusionPairsMembers(exclusions[1..], g, a);
      PairOfMembers(exclusions[0], g, a);
      var here := GetElementValue(exclusions[0], "groupId") == Some(g)
                  && GetElementValue(exclusions[0], "artifactId") == Some(a);
      if (g, a) in ExclusionPairs(exclusions) && !here {
        var j :| 0 <= j < |exclusions[1..]| && GetElementValue(exclusions[1..][j], "groupId") == Some(g)
                 && GetElementValue(exclusions[1..][j], "artifactId") == Some(a);
        assert exclusions[1..][j] == exclusions[j + 1];
      }
      if exists j :: 0 <= j < |exclusions| && GetElementValue(exclusions[j], "groupId") == Some(g)
                     && GetElementValue(exclusions[j], "artifactId") == Some(a) {
        var j :| 0 <= j < |exclusions| && GetElementValue(exclusions[j], "groupId") == Some(g)
                 && GetElementValue(exclusions[j], "artifactId") == Some(a);
        if j > 0 {
          assert exclusions[1..][j - 1] == exclusions[j];
        }
      }
    }
  }

  /** The block is empty exactly when the first `<exclusions>` is absent or has no `<exclusion>`. */
  lemma ExclusionsBlockEmpty(dependency: Node)
    ensures ExclusionsBlock(dependency) == "" <==> |ExclusionNodes(dependency)| == 0
  {
    if |ExclusionNodes(dependency)| > 0 {
      assert |ExclusionsBlock(dependency)| >= |ExclusionsOpen| > 0;
    }
  }

  /** Only the first `<exclusions>` element is consulted. */
  lemma FirstExclusionsOnly(d1: Node, d2: Node)
    requires |ElementsByTagName(d1, "exclusions")| > 0 && |ElementsByTagName(d2, "exclusions")| > 0
    requires ElementsByTagName(d1, "exclusions")[0] == ElementsByTagName(d2, "exclusions")[0]
    ensures ExclusionsBlock(d1) == ExclusionsBlock(d2)
  {
  }

  lemma AppendAssociative(a: string, b: string, c: string)
    ensures a + b + c == a + (b + c)
  {
  }

  /** The `StringBuilder` loop over the `<exclusion>` elements. */
  method BuildExclusionsBlock(dependencyElement: Node) returns (exclusionsBlock: string)
    ensures exclusionsBlock == ExclusionsBlock(dependencyElement)
  {
    exclusionsBlock := "";
    var exclusionsList := ElementsByTagName(dependencyElement, "exclusions");
    if |exclusionsList| > 0 {
      var exclusionsElement := exclusionsList[0];
      var exclusionNodes := ElementsByTagName(exclusionsElement, "exclusion");
      if |exclusionNodes| > 0 {
        var exclusionsBuilder := ExclusionsOpen;
        for i := 0 to |exclusionNodes|
          invariant exclusionsBuilder == ExclusionsOpen + Fragments(exclusionNodes[..i])
        {
          ConcatMapStep(FragmentOf, exclusionNodes, i);
          ghost var done := Fragments(exclusionNodes[..i]);
          var exclusion := exclusionNodes[i];
          var exGroupId := GetElementValue(exclusion, "groupId");
          var exArtifactId := GetElementValue(exclusion, "artifactId");
          if exGroupId.Some? && exArtifactId.Some? {
            var fragment := FormattedExclusion(exGroupId.value, exArtifactId.value);
            CompleteFragment(exclusion, exGroupId.value, exArtifactId.value);
            AppendAssociative(ExclusionsOpen, done, fragment);
            exclusionsBuilder := exclusionsBuilder + fragment;
          } else {
            IncompleteFragment(exclusion);
            assert done + "" == done;
          }
        }
        assert exclusionNodes[..|exclusionNodes|] == exclusionNodes;
        exclusionsBuilder := exclusionsBuilder + ExclusionsClose;
        exclusionsBlock := exclusionsBuilder;
      }
    }
  }

  // ---------------------------------------------------------------------
  // generateDependencyTree
  // ---------------------------------------------------------------------

  /** The text the endpoint answers for a parsed document (or a parser failure). */
  function DependencyTreeResponse(document: Result<Node>, mvn: string -> Result<seq<string>>): string {
    match document
    case Failure(m) => ErrorPrefix + m
    case Success(root) =>
      var groupId := GetElementValue(root, "groupId");
      var artifactId := GetElementValue(root, "artifactId");
      var version := GetElementValue(root, "version");
      if groupId.None? || artifactId.None? || version.None? then InvalidXml
      else
        match TreeGenerator.TreeReport(groupId, artifactId, version, Some(ExclusionsBlock(root)), mvn)
        case Success(tree) => tree
        case Failure(m) => ErrorPrefix + m
  }

  /** A missing field is refused before Maven is run, whatever Maven would answer. */
  lemma MissingFieldSkipsGenerator(root: Node, mvn: string -> Result<seq<string>>,
                                   other: string -> Result<seq<string>>)
    requires GetElementValue(root, "groupId").None? || GetElementValue(root, "artifactId").None?
          || GetElementValue(root, "version").None?
    ensures DependencyTreeResponse(Success(root), mvn) == InvalidXml
    ensures DependencyTreeResponse(Success(root), mvn) == DependencyTreeResponse(Success(root), other)
  {
  }

  /** With all three fields, the answer is the generator's tree for them and the block. */
  lemma CompleteDependencyTree(root: Node, mvn: string -> Result<seq<string>>, lines: seq<string>)
    requires GetElementValue(root, "groupId").Some? && GetElementValue(root, "artifactId").Some?
    requires GetElementValue(root, "version").Some?
    requires mvn(TreeGenerator.PomContent(GetElementValue(root, "groupId").value,
                                          GetElementValue(root, "artifactId").value,
                                          GetElementValue(root, "version").value,
                                          ExclusionsBlock(root))) == Success(lines)
    ensures DependencyTreeResponse(Success(root), mvn) == TreeGenerator.TreeOutput(lines)
  {
  }

  method GenerateDependencyTree(document: Result<Node>, mvn: string -> Result<seq<string>>)
    returns (response: string)
    ensures response == DependencyTreeResponse(document, mvn)
  {
    if document.Failure? {
      return ErrorPrefix + document.message;
    }
    var dependencyElement := document.value;
    var groupId := GetElementValue(dependencyElement, "groupId");
    var artifactId := GetElementValue(dependencyElement, "artifactId");
    var version := GetElementValue(dependencyElement, "version");
    if groupId.None? || artifactId.None? || version.None? {
      return InvalidXml;
    }
    var exclusionsBlock := BuildExclusionsBlock(dependencyElement);
    var tree := TreeGenerator.GenerateTree(groupId, artifactId, version, Some(exclusionsBlock), mvn);
    match tree
    case Success(t) => response := t;
    case Failure(m) => response := ErrorPrefix + m;
  }
}
