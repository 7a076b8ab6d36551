/** The pure core of the commit dependency visualizer
    (dependency_visualizer/visualizer.py): the configuration dictionary, the
    header scan of a commit object for its parents and its author, and the
    DOT text of a commit graph. The commit graph is a Python dict, kept here
    as its items in insertion order. The files of a commit come from
    GitPython and arrive as a parameter. */
module Visualizer {
  import ConfigComments

  // ---------------------------------------------------------------------------
  // parse_config

  /** parse_config: the four command-line values under their keys. */
  function ParseConfig(configPath: string, repoPath: string, outputPath: string, fileName: string)
    : (config: map<string, string>)
    ensures config.Keys == {"graphviz_path", "repo_path", "output_path", "file_name"}
    ensures config["graphviz_path"] == configPath && config["repo_path"] == repoPath
    ensures config["output_path"] == outputPath && config["file_name"] == fileName
  {
    map["graphviz_path" := configPath, "repo_path" := repoPath,
        "output_path" := outputPath, "file_name" := fileName]
  }

  // ---------------------------------------------------------------------------
  // Commits

  datatype CommitNode = CommitNode(sha1: string, author: string, parents: seq<string>, files: seq<string>)

  /** `content.split('\n')`: the pieces between newlines, always at least one. */
  function SplitLines(s: string): (lines: seq<string>)
    ensures |lines| >= 1
    ensures forall i :: 0 <= i < |lines| ==> '\n' !in lines[i]
  {
    if s == [] then [""]
    else
      var rest := SplitLines(s[1..]);
      if s[0] == '\n' then [""] + rest
      else [[s[0]] + rest[0]] + rest[1..]
  }

  /** `'\n'.join(lines)`. */
  function JoinLines(lines: seq<string>): string
    requires |lines| >= 1
  {
    if |lines| == 1 then lines[0] else lines[0] + "\n" + JoinLines(lines[1..])
  }

  /** Splitting at the newlines and joining with them gives the text back. */
  lemma {:induction false} SplitJoin(s: string)
    ensures JoinLines(SplitLines(s)) == s
  {
    if s != [] {
      var rest := SplitLines(s[1..]);
      SplitJoin(s[1..]);
      if s[0] == '\n' {
        assert SplitLines(s)[1..] == rest;
      } else {
        var lines := SplitLines(s);
        if |rest| == 1 {
          assert lines == [[s[0]] + rest[0]];
        } else {
          assert lines[1..] == rest[1..];
          assert JoinLines(rest) == rest[0] + "\n" + JoinLines(rest[1..]);
        }
      }
    }
  }

  /** Joining newline-free lines and splitting again gives the lines back. */
  lemma {:induction false} JoinSplit(lines: seq<string>)
    requires |lines| >= 1 && forall i :: 0 <= i < |lines| ==> '\n' !in lines[i]
    ensures SplitLines(JoinLines(lines)) == lines
  {
    if |lines| == 1 {
      SplitNoNewline(lines[0]);
    } else {
      JoinSplit(lines[1..]);
      SplitAfterLine(lines[0], JoinLines(lines[1..]));
    }
  }

  lemma {:induction false} SplitNoNewline(s: string)
    requires '\n' !in s
    ensures SplitLines(s) == [s]
  {
    if s != [] {
      SplitNoNewline(s[1..]);
      assert s[0] != '\n' && [s[0]] + s[1..] == s;
    }
  }

  /** A newline-free line followed by a newline is split off first. */
  lemma {:induction false} SplitAfterLine(line: string, rest: string)
    requires '\n' !in line
    ensures SplitLines(line + "\n" + rest) == [line] + SplitLines(rest)
  {
    if line == [] {
      assert line + "\n" + rest == "\n" + rest;
      assert ("\n" + rest)[1..] == rest;
    } else {
      var s := line + "\n" + rest;
      SplitAfterLine(line[1..], rest);
      assert s[0] == line[0] && s[1..] == line[1..] + "\n" + rest;
      assert SplitLines(s[1..])[0] == line[1..];
      assert SplitLines(s[1..])[1..] == SplitLines(rest);
      assert [line[0]] + line[1..] == line;
    }
  }

  /** The text after the last `c` in `s`, found from the right: the index of
      that `c`, or |s| when there is none. */
  function LastIndexOf(s: string, c: char): (r: nat)
    ensures r <= |s|
    ensures r < |s| ==> s[r] == c && c !in s[r + 1..]
    ensures r == |s| ==> c !in s
  {
    if s == [] then 0
    else if s[|s| - 1] == c then |s| - 1
    else
      var r := LastIndexOf(s[..|s| - 1], c);
      if r == |s| - 1 then |s| else r
  }

  /** `s.rsplit(' ', n)[0]`: what is left after cutting off, from the right,
      up to n fields separated by single spaces. */
  function RSplitHead(s: string, n: nat): (r: string)
    ensures |r| <= |s| && r == s[..|r|]
  {
    if n == 0 || LastIndexOf(s, ' ') == |s| then s
    else RSplitHead(s[..LastIndexOf(s, ' ')], n - 1)
  }

  /** Spaces in a string. */
  function Spaces(s: string): nat
  {
    if s == [] then 0 else (if s[|s| - 1] == ' ' then 1 else 0) + Spaces(s[..|s| - 1])
  }

  lemma {:induction false} SpacesAppend(a: string, b: string)
    ensures Spaces(a + b) == Spaces(a) + Spaces(b)
  {
    if b != [] {
      assert (a + b)[..|a + b| - 1] == a + b[..|b| - 1];
      SpacesAppend(a, b[..|b| - 1]);
    } else {
      assert a + b == a;
    }
  }

  lemma {:induction false} NoSpaces(s: string)
    requires ' ' !in s
    ensures Spaces(s) == 0
  {
    if s != [] {
      NoSpaces(s[..|s| - 1]);
    }
  }

  /** rsplit cuts exactly min(n, spaces) spaces: the part cut off holds that
      many spaces and, when not empty, starts at a space. */
  lemma {:induction false} RSplitHeadCuts(s: string, n: nat)
    ensures var r := RSplitHead(s, n);
            Spaces(s[|r|..]) == (if n < Spaces(s) then n else Spaces(s)) &&
            (|r| < |s| ==> s[|r|] == ' ')
  {
    var i := LastIndexOf(s, ' ');
    var r := RSplitHead(s, n);
    if n == 0 || i == |s| {
      assert r == s;
      if i == |s| {
        NoSpaces(s);
      }
      assert s[|s|..] == [];
      assert Spaces(s[|r|..]) == 0;
    } else {
      var t := s[..i];
      assert r == RSplitHead(t, n - 1);
      RSplitHeadCuts(t, n - 1);
      LastSpace(s, i);
      CutOneMore(s, i, r, n);
    }
  }

  /** What one more cut at the last space i adds to the cuts made in front
      of it. */
  lemma CutOneMore(s: string, i: nat, r: string, n: nat)
    requires i < |s| && s[i] == ' ' && |r| <= i && n > 0
    requires Spaces(s[i..]) == 1 && Spaces(s) == Spaces(s[..i]) + 1
    requires Spaces(s[..i][|r|..]) == (if n - 1 < Spaces(s[..i]) then n - 1 else Spaces(s[..i]))
    requires |r| < i ==> s[..i][|r|] == ' '
    ensures Spaces(s[|r|..]) == (if n < Spaces(s) then n else Spaces(s))
    ensures |r| < |s| ==> s[|r|] == ' '
  {
    var t := s[..i];
    SplitAt(s, i, |r|);
    SpacesAppend(t[|r|..], s[i..]);
    MinSucc(Spaces(t[|r|..]), Spaces(t), n - 1);
  }

  /** The tail of s from k, cut at i. */
  lemma SplitAt(s: string, i: nat, k: nat)
    requires k <= i <= |s|
    ensures s[k..] == s[..i][k..] + s[i..]
    ensures k < i ==> s[k] == s[..i][k]
  {
  }

  /** One more cut out of one more space. */
  lemma MinSucc(a: nat, b: nat, m: nat)
    requires a == if m < b then m else b
    ensures a + 1 == if m + 1 < b + 1 then m + 1 else b + 1
  {
  }

  /** Cutting at the last space: the tail from it holds one space. */
  lemma LastSpace(s: string, i: nat)
    requires i < |s| && s[i] == ' ' && ' ' !in s[i + 1..]
    ensures Spaces(s[i..]) == 1 && Spaces(s) == Spaces(s[..i]) + 1
  {
    SplitAround(s, i);
    OneSpace(s[i + 1..]);
    SpacesAppend([' '], s[i + 1..]);
    SpacesAppend(s[..i], s[i..]);
  }

  /** s around its element i. */
  lemma SplitAround(s: string, i: nat)
    requires i < |s|
    ensures s[i..] == [s[i]] + s[i + 1..] && s == s[..i] + s[i..]
  {
  }

  lemma OneSpace(t: string)
    requires ' ' !in t
    ensures Spaces([' '] + t) == 1
  {
    NoSpaces(t);
    SpacesAppend([' '], t);
    assert [' '][..0] == [];
  }

  /** The last space of `s + " " + t`, when `t` has none, is the one
      between them. */
  lemma {:induction false} LastSpaceBetween(s: string, t: string)
    requires ' ' !in t
    ensures LastIndexOf(s + " " + t, ' ') == |s|
  {
    var u := s + " " + t;
    if t == [] {
      assert u[|u| - 1] == ' ';
    } else {
      var t' := t[..|t| - 1];
      assert u[..|u| - 1] == s + " " + t';
      assert u[|u| - 1] == t[|t| - 1];
      LastSpaceBetween(s, t');
    }
  }

  /** rsplit cuts off a last field that has no space. */
  lemma RSplitLastField(s: string, t: string, n: nat)
    requires ' ' !in t
    ensures RSplitHead(s + " " + t, n + 1) == RSplitHead(s, n)
  {
    LastSpaceBetween(s, t);
    assert (s + " " + t)[..|s|] == s;
  }

  /** The author of `author <name> <timestamp> <zone>` is the name, spaces
      in it included. */
  lemma AuthorFields(name: string, stamp: string, zone: string)
    requires ' ' !in stamp && ' ' !in zone
    ensures AuthorName("author " + name + " " + stamp + " " + zone) == name
  {
    var line := "author " + name + " " + stamp + " " + zone;
    assert line[7..] == name + " " + stamp + " " + zone;
    RSplitLastField(name + " " + stamp, zone, 1);
    RSplitLastField(name, stamp, 0);
  }

  predicate IsParentLine(line: string)
  {
    ConfigComments.StartsWith(line, "parent ")
  }

  predicate IsAuthorLine(line: string)
  {
    ConfigComments.StartsWith(line, "author ")
  }

  /** The author of an `author` line: its text with the timestamp and the
      time zone cut off. */
  function AuthorName(line: string): string
    requires IsAuthorLine(line)
  {
    RSplitHead(line[7..], 2)
  }

  /** The parents named by the lines, in order: the text after `parent ` of
      every line that starts with it. */
  function ParentsOf(lines: seq<string>): seq<string>
  {
    if lines == [] then []
    else
      var last := lines[|lines| - 1];
      ParentsOf(lines[..|lines| - 1]) + (if IsParentLine(last) then [last[7..]] else [])
  }

  /** The author named by the last `author` line, or `''` without one. */
  function AuthorOf(lines: seq<string>): string
  {
    if lines == [] then ""
    else
      var last := lines[|lines| - 1];
      if !IsParentLine(last) && IsAuthorLine(last) then AuthorName(last)
      else AuthorOf(lines[..|lines| - 1])
  }

  /** The parent scan distributes over the lines: the lines after a point
      add their parents after those of the lines before it. */
  lemma {:induction false} ParentsAppend(a: seq<string>, b: seq<string>)
    ensures ParentsOf(a + b) == ParentsOf(a) + ParentsOf(b)
  {
    if b == [] {
      assert a + b == a;
    } else {
      assert (a + b)[..|a + b| - 1] == a + b[..|b| - 1];
      ParentsAppend(a, b[..|b| - 1]);
    }
  }

  /** With a single `parent` line, that parent is the only one. */
  lemma {:induction false} ParentsOnly(lines: seq<string>, k: nat)
    requires k < |lines| && IsParentLine(lines[k])
    requires forall j :: 0 <= j < |lines| && j != k ==> !IsParentLine(lines[j])
    ensures ParentsOf(lines) == [lines[k][7..]]
  {
    assert lines == lines[..k] + [lines[k]] + lines[k + 1..];
    ParentsAppend(lines[..k] + [lines[k]], lines[k + 1..]);
    NoParents(lines[..k]);
    NoParents(lines[k + 1..]);
    assert (lines[..k] + [lines[k]])[..k] == lines[..k];
  }

  lemma {:induction false} NoParents(lines: seq<string>)
    requires forall j :: 0 <= j < |lines| ==> !IsParentLine(lines[j])
    ensures ParentsOf(lines) == []
  {
    if lines != [] {
      NoParents(lines[..|lines| - 1]);
    }
  }

  /** The last `author` line decides the author. */
  lemma {:induction false} LastAuthorWins(lines: seq<string>, k: nat)
    requires k < |lines| && IsAuthorLine(lines[k])
    requires forall j :: k < j < |lines| ==> !IsAuthorLine(lines[j])
    ensures AuthorOf(lines) == AuthorName(lines[k])
  {
    var last := lines[|lines| - 1];
    if k < |lines| - 1 {
      assert !IsAuthorLine(last);
      LastAuthorWins(lines[..|lines| - 1], k);
    } else {
      assert !IsParentLine(last) by {
        assert last[0] == 'a';
      }
    }
  }

  /** Without an `author` line the author is empty. */
  lemma {:induction false} NoAuthor(lines: seq<string>)
    requires forall j :: 0 <= j < |lines| ==> !IsAuthorLine(lines[j])
    ensures AuthorOf(lines) == ""
  {
    if lines != [] {
      NoAuthor(lines[..|lines| - 1]);
    }
  }

  /** The scan of parse_commit over the lines of a commit object, in the
      source's loop form; `files` stands for what GitPython reports. */
  method ParseCommit(sha1: string, content: string, files: seq<string>) returns (node: CommitNode)
    ensures node.sha1 == sha1 && node.files == files
    ensures node.parents == ParentsOf(SplitLines(content))
    ensures node.author == AuthorOf(SplitLines(content))
  {
    var lines := SplitLines(content);
    var parents: seq<string> := [];
    var author := "";
    var i := 0;
    while i < |lines|
      invariant 0 <= i <= |lines|
      invariant parents == ParentsOf(lines[..i])
      invariant author == AuthorOf(lines[..i])
    {
      var line := lines[i];
      assert lines[..i + 1][..i] == lines[..i];
      if ConfigComments.StartsWith(line, "parent ") {
        parents := parents + [line[7..]];
      } else if ConfigComments.StartsWith(line, "author ") {
        author := RSplitHead(line[7..], 2);
      }
      i := i + 1;
    }
    assert lines[..i] == lines;
    node := CommitNode(sha1, author, parents, files);
  }

  // ---------------------------------------------------------------------------
  // generate_dot

  /** The commit graph: (sha1, node) items in insertion order. A Python dict
      holds each sha1 once; no definition here relies on that, and a graph with
      a repeated key would simply draw that node once per item. */
  type Graph = seq<(string, CommitNode)>

  /** `key in graph`. */
  predicate HasKey(graph: Graph, key: string)
  {
    graph != [] && (graph[0].0 == key || HasKey(graph[1..], key))
  }

  /** The four header lines: graph, layout direction, node style, edge style. */
  const GraphOpen: string := "digraph G {" + "\n"
  const RankDir: string := "  rankdir=LR;" + "\n"
  const NodeStyle: string := "  node [shape=box, style=filled," + " color=\"lightblue\"];" + "\n"
  const EdgeStyle: string := "  edge [color=\"gray\"];" + "\n"
  const Header: string := GraphOpen + RankDir + NodeStyle + EdgeStyle

  const Footer: string := "}\n"

  /** `s[:7]`. */
  function Prefix7(s: string): string
  {
    if |s| <= 7 then s else s[..7]
  }

  /** `sep.join(xs)`. */
  function Join(xs: seq<string>, sep: string): string
  {
    if xs == [] then ""
    else if |xs| == 1 then xs[0]
    else xs[0] + sep + Join(xs[1..], sep)
  }

  /** Short sha1, author and file list, separated by a backslash and `n`
      (an escape for Graphviz, not a newline). */
  function Label(node: CommitNode): string
  {
    Prefix7(node.sha1) + "\\n" + node.author + "\\n Files: " + Join(node.files, ", ")
  }

  function NodeLine(key: string, node: CommitNode): string
  {
    "  \"" + key + "\" [label=\"" + Label(node) + "\"];\n"
  }

  function EdgeLine(key: string, parent: string): string
  {
    "  \"" + key + "\" -> \"" + parent + "\";\n"
  }

  /** The edge lines of one node: one per parent that is a key of the graph,
      in parent order. */
  function Edges(graph: Graph, key: string, parents: seq<string>): string
  {
    if parents == [] then ""
    else
      var p := parents[|parents| - 1];
      Edges(graph, key, parents[..|parents| - 1]) + (if HasKey(graph, p) then EdgeLine(key, p) else "")
  }

  /** Node line and edge lines of each item, in insertion order. */
  function Nodes(graph: Graph, items: Graph): string
  {
    if items == [] then ""
    else
      var (key, node) := items[|items| - 1];
      Nodes(graph, items[..|items| - 1]) + NodeLine(key, node) + Edges(graph, key, node.parents)
  }

  function Dot(graph: Graph): string
  {
    Header + Nodes(graph, graph) + Footer
  }

  // ---------------------------------------------------------------------------
  // The shape of the DOT text

  function Newlines(s: string): nat
  {
    if s == [] then 0 else (if s[|s| - 1] == '\n' then 1 else 0) + Newlines(s[..|s| - 1])
  }

  lemma {:induction false} NewlinesAppend(a: string, b: string)
    ensures Newlines(a + b) == Newlines(a) + Newlines(b)
  {
    if b == [] {
      assert a + b == a;
    } else {
      assert (a + b)[..|a + b| - 1] == a + b[..|b| - 1];
      NewlinesAppend(a, b[..|b| - 1]);
    }
  }

  lemma {:induction false} NoNewlines(s: string)
    requires '\n' !in s
    ensures Newlines(s) == 0
  {
    if s != [] {
      NoNewlines(s[..|s| - 1]);
    }
  }

  /** A text without newlines, then one newline: a single line. */
  lemma SingleLine(s: string)
    requires '\n' !in s
    ensures Newlines(s + "\n") == 1
  {
    NewlinesAppend(s, "\n");
    NoNewlines(s);
    assert "\n"[..0] == [];
  }

  lemma {:induction false} JoinNoNewline(xs: seq<string>, sep: string)
    requires '\n' !in sep && forall i :: 0 <= i < |xs| ==> '\n' !in xs[i]
    ensures '\n' !in Join(xs, sep)
  {
    if |xs| > 1 {
      JoinNoNewline(xs[1..], sep);
    }
  }

  /** No key, sha1, author, file or parent of the graph holds a newline. */
  predicate NewlineFree(graph: Graph, items: Graph)
  {
    forall i :: 0 <= i < |items| ==>
      var (key, node) := items[i];
      '\n' !in key && '\n' !in node.sha1 && '\n' !in node.author &&
      (forall f :: 0 <= f < |node.files| ==> '\n' !in node.files[f]) &&
      (forall p :: 0 <= p < |node.parents| ==> '\n' !in node.parents[p])
  }

  /** The parents that are keys of the graph. */
  function KeyParents(graph: Graph, parents: seq<string>): nat
  {
    if parents == [] then 0
    else KeyParents(graph, parents[..|parents| - 1]) + (if HasKey(graph, parents[|parents| - 1]) then 1 else 0)
  }

  /** Edges drawn for the items: one per parent that is a key. */
  function EdgeCount(graph: Graph, items: Graph): nat
  {
    if items == [] then 0
    else EdgeCount(graph, items[..|items| - 1]) + KeyParents(graph, items[|items| - 1].1.parents)
  }

  lemma {:induction false} EdgeLines(graph: Graph, key: string, parents: seq<string>)
    requires '\n' !in key && forall p :: 0 <= p < |parents| ==> '\n' !in parents[p]
    ensures Newlines(Edges(graph, key, parents)) == KeyParents(graph, parents)
  {
    if parents != [] {
      var p := parents[|parents| - 1];
      EdgeLines(graph, key, parents[..|parents| - 1]);
      var line := if HasKey(graph, p) then EdgeLine(key, p) else "";
      NewlinesAppend(Edges(graph, key, parents[..|parents| - 1]), line);
      if HasKey(graph, p) {
        EdgeLineIsOneLine(key, p);
      } else {
        assert Newlines(line) == 0;
      }
    }
  }

  lemma EdgeLineIsOneLine(key: string, parent: string)
    requires '\n' !in key && '\n' !in parent
    ensures Newlines(EdgeLine(key, parent)) == 1
  {
    var text := "  \"" + key + "\" -> \"" + parent + "\";";
    assert EdgeLine(key, parent) == text + "\n";
    SingleLine(text);
  }

  lemma NodeLineIsOneLine(key: string, node: CommitNode)
    requires '\n' !in key && '\n' !in node.sha1 && '\n' !in node.author
    requires forall f :: 0 <= f < |node.files| ==> '\n' !in node.files[f]
    ensures Newlines(NodeLine(key, node)) == 1
  {
    JoinNoNewline(node.files, ", ");
    var text := "  \"" + key + "\" [label=\"" + Label(node) + "\"];";
    assert NodeLine(key, node) == text + "\n";
    SingleLine(text);
  }

  /** Each item adds one node line and one line per parent that is a key. */
  lemma {:induction false} NodesLines(graph: Graph, items: Graph)
    requires NewlineFree(graph, items)
    ensures Newlines(Nodes(graph, items)) == |items| + EdgeCount(graph, items)
  {
    if items != [] {
      var (key, node) := items[|items| - 1];
      var before := items[..|items| - 1];
      assert NewlineFree(graph, before) by {
        forall i | 0 <= i < |before| ensures before[i] == items[i] { }
      }
      NodesLines(graph, before);
      NodeLineIsOneLine(key, node);
      EdgeLines(graph, key, node.parents);
      NewlinesAppend(Nodes(graph, before), NodeLine(key, node));
      NewlinesAppend(Nodes(graph, before) + NodeLine(key, node), Edges(graph, key, node.parents));
    }
  }

  /** The DOT text of a graph whose names hold no newline: the four header
      lines, a line per node, a line per edge to a key, and the closing
      line. With no nodes it is the header and the closing line. */
  lemma DotLines(graph: Graph)
    requires NewlineFree(graph, graph)
    ensures Dot(graph)[..|Header|] == Header
    ensures Dot(graph)[|Dot(graph)| - |Footer|..] == Footer
    ensures Newlines(Dot(graph)) == 5 + |graph| + EdgeCount(graph, graph)
    ensures graph == [] ==> Dot(graph) == Header + Footer
  {
    var nodes := Nodes(graph, graph);
    var d := Dot(graph);
    assert d == Header + nodes + Footer;
    assert d[..|Header|] == Header;
    assert d[|d| - |Footer|..] == Footer;
    assert Newlines(d) == 5 + |graph| + EdgeCount(graph, graph) by {
      NodesLines(graph, graph);
      NewlinesAppend(Header, nodes);
      NewlinesAppend(Header + nodes, Footer);
      HeaderLines();
      SingleLine("}");
    }
  }

  lemma NodeStyleLine()
    ensures Newlines(NodeStyle) == 1
  {
    var c1, c2 := "  node [shape=box, style=filled,", " color=\"lightblue\"];";
    assert '\n' !in c1 && '\n' !in c2;
    SingleLine(c1 + c2);
  }

  lemma HeaderLines()
    ensures Newlines(Header) == 4
  {
    SingleLine("digraph G {");
    SingleLine("  rankdir=LR;");
    NodeStyleLine();
    SingleLine("  edge [color=\"gray\"];");
    NewlinesAppend(GraphOpen, RankDir);
    NewlinesAppend(GraphOpen + RankDir, NodeStyle);
    NewlinesAppend(GraphOpen + RankDir + NodeStyle, EdgeStyle);
  }

  /** generate_dot, with its loops. */
  method GenerateDot(graph: Graph) returns (dot: string)
    ensures dot == Dot(graph)
  {
    dot := GraphOpen;
    dot := dot + RankDir;
    dot := dot + NodeStyle;
    dot := dot + EdgeStyle;
    var i := 0;
    while i < |graph|
      invariant 0 <= i <= |graph|
      invariant dot == Header + Nodes(graph, graph[..i])
    {
      var (sha1, node) := graph[i];
      NodesStep(graph, i);
      ghost var nodes := Nodes(graph, graph[..i]);
      dot := dot + NodeLine(sha1, node);
      dot := AppendEdges(dot, graph, sha1, node.parents);
      AppendTwice(Header, nodes, NodeLine(sha1, node));
      AppendTwice(Header, nodes + NodeLine(sha1, node), Edges(graph, sha1, node.parents));
      i := i + 1;
    }
    assert graph[..i] == graph;
    dot := dot + "}\n";
  }

  /** The inner loop of generate_dot: an edge line for each parent that is
      a key of the graph, in the order of the parents. */
  method AppendEdges(text: string, graph: Graph, key: string, parents: seq<string>) returns (dot: string)
    ensures dot == text + Edges(graph, key, parents)
  {
    dot := text;
    var j := 0;
    while j < |parents|
      invariant 0 <= j <= |parents|
      invariant dot == text + Edges(graph, key, parents[..j])
    {
      var parent := parents[j];
      EdgesStep(text, graph, key, parents, j);
      if HasKey(graph, parent) {
        dot := dot + EdgeLine(key, parent);
      }
      j := j + 1;
    }
    assert parents[..j] == parents;
  }

  /** One more item of the outer loop adds its node line and then its edge lines. */
  lemma NodesStep(graph: Graph, i: nat)
    requires i < |graph|
    ensures Nodes(graph, graph[..i + 1]) ==
            Nodes(graph, graph[..i]) + NodeLine(graph[i].0, graph[i].1) + Edges(graph, graph[i].0, graph[i].1.parents)
  {
    assert graph[..i + 1][..i] == graph[..i];
  }

  /** Text grown by two appends is the text followed by both pieces. Stated
      apart, over plain strings, so that GenerateDot's proof does not unfold
      the node and edge lines. */
  lemma AppendTwice(text: string, a: string, b: string)
    ensures text + a + b == text + (a + b)
  {
  }

  /** One more parent of the inner loop adds its edge line when it is a key of the graph, and nothing otherwise. */
  lemma EdgesStep(text: string, graph: Graph, key: string, parents: seq<string>, j: nat)
    requires j < |parents|
    ensures HasKey(graph, parents[j]) ==>
            text + Edges(graph, key, parents[..j + 1]) == text + Edges(graph, key, parents[..j]) + EdgeLine(key, parents[j])
    ensures !HasKey(graph, parents[j]) ==>
            text + Edges(graph, key, parents[..j + 1]) == text + Edges(graph, key, parents[..j])
  {
    assert parents[..j + 1][..j] == parents[..j];
  }

  // ---------------------------------------------------------------------------
  // The visualizer's own tests (dependency_visualizer/tests.py)

  /** The commit object of test_parse_commit: one parent, and the author
      without timestamp and time zone. */
  lemma ParseCommitTest(lines: seq<string>, name: string)
    requires name == "John Doe <john@example.com>"
    requires lines == ["tree 123456", "parent abcdef", "author " + name + " " + "1610000000" + " " + "+0000",
                       "", "Initial commit", ""]
    ensures ParentsOf(SplitLines(JoinLines(lines))) == ["abcdef"]
    ensures AuthorOf(SplitLines(JoinLines(lines))) == name
  {
    assert '\n' !in name;
    assert forall i :: 0 <= i < |lines| ==> '\n' !in lines[i];
    JoinSplit(lines);
    TestCommitLines(lines, name);
  }

  lemma TestCommitLines(lines: seq<string>, name: string)
    requires |lines| == 6
    requires lines[0] == "tree 123456" && lines[1] == "parent abcdef"
    requires lines[2] == "author " + name + " " + "1610000000" + " " + "+0000"
    requires lines[3] == "" && lines[4] == "Initial commit" && lines[5] == ""
    ensures ParentsOf(lines) == ["abcdef"] && AuthorOf(lines) == name
  {
    assert lines[0][..7][0] == 't';
    assert lines[1][..7] == "parent " && lines[1][7..] == "abcdef";
    assert lines[2][..7] == "author ";
    assert lines[4][..7][0] == 'I';
    ParentsOnly(lines, 1);
    AuthorFields(name, "1610000000", "+0000");
    LastAuthorWins(lines, 2);
  }

  /** The graph of test_generate_dot: one node whose parent is not in the
      graph, so no edge line; the label holds the short sha1 and the files
      joined by ", ". */
  lemma GenerateDotTest(graph: Graph, node: CommitNode)
    requires node == CommitNode("abc123", "John Doe <john@example.com>", ["abcdef"], ["file1.txt", "file2.txt"])
    requires graph == [("abc123", node)]
    ensures Dot(graph) == Header + NodeLine("abc123", node) + Footer
    ensures Prefix7(node.sha1) == "abc123" && Join(node.files, ", ") == "file1.txt, file2.txt"
  {
    assert !HasKey(graph, "abcdef");
    assert node.parents[..0] == [];
    assert Edges(graph, "abc123", node.parents) == [];
    assert graph[..0] == [];
    assert Nodes(graph, graph) == NodeLine("abc123", node);
  }
}
