/**
 * The file tree: a tree of files and directories drawn as rows, each row
 * indented by box-drawing connectors built up from its ancestors, with an
 * icon (expanded/collapsed arrow for directories, a glyph chosen by file
 * extension otherwise) and a badge for the node's change status. Every node
 * starts expanded; a directory's expansion is toggled by clicking it. Nodes
 * are identified by their path of child positions from the root, and the
 * expansion state is the set of collapsed paths.
 */
module FileTree {
  import opened Wrappers
  import opened Text

  datatype NodeKind = File | Directory

  datatype Status = Added | Modified | Deleted

  datatype FileNode = FileNode(name: string, kind: NodeKind, children: Children, status: Option<Status>)

  /** The optional `children` field; an empty list is still a field. */
  datatype Children = NoChildren | ChildList(nodes: seq<FileNode>)

  type Path = seq<nat>

  /** One rendered tree item. `expanded` is the `aria-expanded` value, `None` for files. */
  datatype Row = Row(depth: nat, prefix: string, icon: string, name: string, badge: Option<string>,
                     expanded: Option<bool>)

  const LastConnector: string := "└── "
  const MidConnector: string := "├── "
  const LastGuide: string := "    "
  const MidGuide: string := "│   "

  // ---- icons ----

  /** `getStatusIcon`. */
  function StatusIcon(s: Option<Status>): string {
    match s
    case Some(Added) => "+"
    case Some(Modified) => "~"
    case Some(Deleted) => "-"
    case None => ""
  }

  /** The three statuses show three different one-character badges, the ones the legend lists. */
  lemma StatusIconsDistinct(a: Status, b: Status)
    ensures |StatusIcon(Some(a))| == 1
    ensures StatusIcon(Some(a)) == StatusIcon(Some(b)) <==> a == b
    ensures StatusIcon(Some(Added)) == "+" && StatusIcon(Some(Modified)) == "~" && StatusIcon(Some(Deleted)) == "-"
  {
  }

  /** `name.split('.').pop().toLowerCase()`: the text after the last dot, or the whole name without one. */
  function Extension(name: string): (ext: string)
    ensures '.' !in ext
  {
    var parts := Split(name, '.');
    var last := parts[|parts| - 1];
    assert forall k :: 0 <= k < |last| ==> last[k] != '.';
    ToLower(last)
  }

  /** The extension is the lower-cased last dot-separated part; a name without a dot is its own extension. */
  lemma ExtensionSpec(stem: string, ext: string)
    requires '.' !in ext
    ensures Extension(stem + "." + ext) == ToLower(ext)
    ensures '.' !in stem ==> Extension(stem) == ToLower(stem)
  {
    SplitLastPart(stem, ext);
    if '.' !in stem {
      SplitNoSep(stem, '.');
    }
  }

  lemma {:induction false} SplitLastPart(stem: string, ext: string)
    requires '.' !in ext
    ensures var parts := Split(stem + "." + ext, '.'); |parts| >= 2 && parts[|parts| - 1] == ext
    decreases |stem|
  {
    if |stem| == 0 {
      assert stem + "." + ext == "" + ['.'] + ext;
      SplitAtFirstSep("", '.', ext);
      SplitNoSep(ext, '.');
    } else if stem[0] == '.' {
      assert stem + "." + ext == "" + ['.'] + (stem[1..] + "." + ext);
      SplitAtFirstSep("", '.', stem[1..] + "." + ext);
      SplitLastPart(stem[1..], ext);
    } else {
      SplitLastPart(stem[1..], ext);
      assert (stem + "." + ext)[1..] == stem[1..] + "." + ext;
    }
  }

  predicate IsScriptExtension(ext: string) {
    ext == "js" || ext == "jsx" || ext == "ts" || ext == "tsx"
  }

  const ScriptGlyph: string := "◆"
  const FileGlyph: string := "◦"
  const ExpandedGlyph: string := "▼"
  const CollapsedGlyph: string := "▶"

  /** `getFileIcon`: a directory shows its expansion; a file the script glyph for JavaScript/TypeScript, else the plain one. */
  function FileIcon(name: string, kind: NodeKind, isExpanded: bool): (icon: string)
  {
    if kind == Directory then (if isExpanded then ExpandedGlyph else CollapsedGlyph)
    else if IsScriptExtension(Extension(name)) then ScriptGlyph
    else FileGlyph
  }

  /**
   * A file's glyph depends on its last extension only, case-insensitively:
   * the script glyph for js, jsx, ts and tsx, the plain glyph for anything
   * else, including names without a dot.
   */
  lemma FileIconByExtension(stem: string, ext: string, isExpanded: bool)
    requires '.' !in ext
    ensures FileIcon(stem + "." + ext, File, isExpanded) == ScriptGlyph <==> IsScriptExtension(ToLower(ext))
    ensures '.' !in stem ==> FileIcon(stem, File, isExpanded) == (if IsScriptExtension(ToLower(stem)) then ScriptGlyph else FileGlyph)
  {
    ExtensionSpec(stem, ext);
  }

  lemma FileIconExample()
    ensures FileIcon("App.TSX", File, true) == ScriptGlyph
  {
    FileIconByExtension("App", "TSX", true);
    assert "App" + "." + "TSX" == "App.TSX";
    assert ToLower("TSX") == "tsx";
  }

  // ---- rows ----

  /** The rows of `node` and, when it is expanded, of its descendants. */
  function Rows(node: FileNode, depth: nat, isLast: bool, prefix: string, path: Path, collapsed: set<Path>): (r: seq<Row>)
    ensures |r| >= 1
    decreases node, 1
  {
    var isExpanded := path !in collapsed;
    var currentPrefix := if depth == 0 then "" else prefix + (if isLast then LastConnector else MidConnector);
    var nextPrefix := if depth == 0 then "" else prefix + (if isLast then LastGuide else MidGuide);
    var row := Row(depth, currentPrefix, FileIcon(node.name, node.kind, isExpanded), node.name,
      if node.status.Some? then Some(StatusIcon(node.status)) else None,
      if node.kind == Directory then Some(isExpanded) else None);
    if node.children.ChildList? && isExpanded then
      [row] + ChildRows(node, 0, depth + 1, nextPrefix, path, collapsed)
    else [row]
  }

  /** The rows of the children of `parent` from the `i`th on, each child marked last exactly when it is the final one. */
  function ChildRows(parent: FileNode, i: nat, depth: nat, prefix: string, parentPath: Path,
                     collapsed: set<Path>): seq<Row>
    requires parent.children.ChildList?
    decreases parent, 0, |parent.children.nodes| - i
  {
    var children := parent.children.nodes;
    if i >= |children| then []
    else
      Rows(children[i], depth, i == |children| - 1, prefix, parentPath + [i], collapsed)
        + ChildRows(parent, i + 1, depth, prefix, parentPath, collapsed)
  }

  /** The tree as `FileTree` draws it. */
  function TreeRows(root: FileNode, collapsed: set<Path>): seq<Row> {
    Rows(root, 0, false, "", [], collapsed)
  }

  /** The prefix a caller passes at `depth`: empty at the root and its children, four characters a level below. */
  predicate PrefixFits(depth: nat, prefix: string) {
    if depth <= 1 then prefix == "" else |prefix| == 4 * (depth - 1)
  }

  /**
   * Every row is indented by four characters per level below the root, and
   * a node's first row is itself: the connector after the inherited prefix
   * is the corner for the last child and the tee otherwise.
   */
  lemma {:induction false} RowsIndent(node: FileNode, depth: nat, isLast: bool, prefix: string, path: Path,
                                      collapsed: set<Path>)
    requires PrefixFits(depth, prefix)
    ensures forall k :: 0 <= k < |Rows(node, depth, isLast, prefix, path, collapsed)| ==>
      |Rows(node, depth, isLast, prefix, path, collapsed)[k].prefix| == 4 * Rows(node, depth, isLast, prefix, path, collapsed)[k].depth
    ensures Rows(node, depth, isLast, prefix, path, collapsed)[0].depth == depth
    ensures depth > 0 ==>
      Rows(node, depth, isLast, prefix, path, collapsed)[0].prefix == prefix + (if isLast then LastConnector else MidConnector)
    decreases node, 1
  {
    var r := Rows(node, depth, isLast, prefix, path, collapsed);
    if node.children.ChildList? && path !in collapsed {
      var nextPrefix := if depth == 0 then "" else prefix + (if isLast then LastGuide else MidGuide);
      ChildRowsIndent(node, 0, depth + 1, nextPrefix, path, collapsed);
    }
  }

  lemma {:induction false} ChildRowsIndent(parent: FileNode, i: nat, depth: nat, prefix: string, parentPath: Path,
                                           collapsed: set<Path>)
    requires parent.children.ChildList?
    requires depth >= 1 && PrefixFits(depth, prefix)
    ensures forall k :: 0 <= k < |ChildRows(parent, i, depth, prefix, parentPath, collapsed)| ==>
      |ChildRows(parent, i, depth, prefix, parentPath, collapsed)[k].prefix| == 4 * ChildRows(parent, i, depth, prefix, parentPath, collapsed)[k].depth
    decreases parent, 0, |parent.children.nodes| - i
  {
    var children := parent.children.nodes;
    if i < |children| {
      RowsIndent(children[i], depth, i == |children| - 1, prefix, parentPath + [i], collapsed);
      ChildRowsIndent(parent, i + 1, depth, prefix, parentPath, collapsed);
    }
  }

  /**
   * Below a node, every descendant row continues the node's prefix with a
   * blank guide when the node is the last child and a vertical bar otherwise.
   */
  lemma {:induction false} DescendantsContinueGuide(node: FileNode, depth: nat, isLast: bool, prefix: string, path: Path,
                                                    collapsed: set<Path>)
    requires depth > 0
    ensures forall k :: 1 <= k < |Rows(node, depth, isLast, prefix, path, collapsed)| ==>
      StartsWith(Rows(node, depth, isLast, prefix, path, collapsed)[k].prefix, prefix + (if isLast then LastGuide else MidGuide))
  {
    if node.children.ChildList? && path !in collapsed {
      var nextPrefix := prefix + (if isLast then LastGuide else MidGuide);
      ChildRowsExtend(node, 0, depth + 1, nextPrefix, path, collapsed);
    }
  }

  /** Rows drawn under an inherited prefix all start with it. */
  lemma {:induction false} RowsExtend(node: FileNode, depth: nat, isLast: bool, prefix: string, path: Path,
                                      collapsed: set<Path>)
    requires depth > 0
    ensures forall k :: 0 <= k < |Rows(node, depth, isLast, prefix, path, collapsed)| ==>
      StartsWith(Rows(node, depth, isLast, prefix, path, collapsed)[k].prefix, prefix)
    decreases node, 1
  {
    var r := Rows(node, depth, isLast, prefix, path, collapsed);
    var nextPrefix := prefix + (if isLast then LastGuide else MidGuide);
    assert StartsWith(r[0].prefix, prefix) by {
      assert r[0].prefix[..|prefix|] == prefix;
    }
    if node.children.ChildList? && path !in collapsed {
      ChildRowsExtend(node, 0, depth + 1, nextPrefix, path, collapsed);
      forall k | 1 <= k < |r|
        ensures StartsWith(r[k].prefix, prefix)
      {
        assert StartsWith(r[k].prefix, nextPrefix);
        assert r[k].prefix[..|nextPrefix|][..|prefix|] == prefix;
      }
    }
  }

  lemma {:induction false} ChildRowsExtend(parent: FileNode, i: nat, depth: nat, prefix: string, parentPath: Path,
                                           collapsed: set<Path>)
    requires parent.children.ChildList?
    requires depth > 0
    ensures forall k :: 0 <= k < |ChildRows(parent, i, depth, prefix, parentPath, collapsed)| ==>
      StartsWith(ChildRows(parent, i, depth, prefix, parentPath, collapsed)[k].prefix, prefix)
    decreases parent, 0, |parent.children.nodes| - i
  {
    var children := parent.children.nodes;
    if i < |children| {
      RowsExtend(children[i], depth, i == |children| - 1, prefix, parentPath + [i], collapsed);
      ChildRowsExtend(parent, i + 1, depth, prefix, parentPath, collapsed);
    }
  }

  /**
   * The rows of the children from the `i`th on open with the `i`th child's
   * own row, drawn with the corner exactly when it is the final child.
   */
  lemma ChildRowsHead(parent: FileNode, i: nat, depth: nat, prefix: string, parentPath: Path, collapsed: set<Path>)
    requires parent.children.ChildList? && i < |parent.children.nodes| && depth > 0
    ensures |ChildRows(parent, i, depth, prefix, parentPath, collapsed)| > 0
    ensures ChildRows(parent, i, depth, prefix, parentPath, collapsed)[0].name == parent.children.nodes[i].name
    ensures ChildRows(parent, i, depth, prefix, parentPath, collapsed)[0].prefix ==
      prefix + (if i == |parent.children.nodes| - 1 then LastConnector else MidConnector)
  {
  }

  // ---- sizes ----

  /** The number of nodes in a tree. */
  function Size(node: FileNode): nat
    decreases node, 1
  {
    1 + (if node.children.ChildList? then ChildrenSize(node, 0) else 0)
  }

  /** The number of nodes under the children of `parent` from the `i`th on. */
  function ChildrenSize(parent: FileNode, i: nat): nat
    requires parent.children.ChildList?
    decreases parent, 0, |parent.children.nodes| - i
  {
    var children := parent.children.nodes;
    if i >= |children| then 0 else Size(children[i]) + ChildrenSize(parent, i + 1)
  }

  /** With nothing collapsed, every node gets exactly one row. */
  lemma {:induction false} FullyExpandedRowCount(node: FileNode, depth: nat, isLast: bool, prefix: string, path: Path)
    ensures |Rows(node, depth, isLast, prefix, path, {})| == Size(node)
    decreases node, 1
  {
    if node.children.ChildList? {
      ChildrenRowCount(node, 0, depth + 1, if depth == 0 then "" else prefix + (if isLast then LastGuide else MidGuide), path);
    }
  }

  lemma {:induction false} ChildrenRowCount(parent: FileNode, i: nat, depth: nat, prefix: string, parentPath: Path)
    requires parent.children.ChildList?
    ensures |ChildRows(parent, i, depth, prefix, parentPath, {})| == ChildrenSize(parent, i)
    decreases parent, 0, |parent.children.nodes| - i
  {
    var children := parent.children.nodes;
    if i < |children| {
      FullyExpandedRowCount(children[i], depth, i == |children| - 1, prefix, parentPath + [i]);
      ChildrenRowCount(parent, i + 1, depth, prefix, parentPath);
    }
  }

  /** A collapsed node shows its own row only, with the collapsed arrow if it is a directory. */
  lemma CollapsedShowsOneRow(node: FileNode, depth: nat, isLast: bool, prefix: string, path: Path, collapsed: set<Path>)
    requires path in collapsed
    ensures |Rows(node, depth, isLast, prefix, path, collapsed)| == 1
    ensures node.kind == Directory ==> Rows(node, depth, isLast, prefix, path, collapsed)[0].icon == CollapsedGlyph
    ensures node.kind == Directory ==> Rows(node, depth, isLast, prefix, path, collapsed)[0].expanded == Some(false)
  {
  }

  // ---- toggling ----

  /** `q` lies strictly below `p` in the tree. */
  predicate Below(q: Path, p: Path) {
    |p| < |q| && q[..|p|] == p
  }

  /**
   * `handleToggle`: only a directory with a children field changes its
   * expansion. Collapsing a directory unmounts its subtree, so every node
   * below it forgets its own state and comes back expanded when the
   * directory is opened again.
   */
  function HandleToggle(node: FileNode, path: Path, collapsed: set<Path>): (c: set<Path>)
  {
    if node.kind == Directory && node.children.ChildList? then
      (if path in collapsed then collapsed - {path}
       else (set q | q in collapsed && !Below(q, path)) + {path})
    else collapsed
  }

  /**
   * A toggle flips the clicked directory's own state; a collapse also resets
   * every node below it to expanded; no other node changes.
   */
  lemma HandleToggleSpec(node: FileNode, path: Path, collapsed: set<Path>, other: Path)
    ensures node.kind == Directory && node.children.ChildList? ==> (path in HandleToggle(node, path, collapsed) <==> path !in collapsed)
    ensures !(node.kind == Directory && node.children.ChildList?) ==> HandleToggle(node, path, collapsed) == collapsed
    ensures other != path && !Below(other, path) ==> (other in HandleToggle(node, path, collapsed) <==> other in collapsed)
    ensures Below(other, path) && path !in collapsed && node.kind == Directory && node.children.ChildList? ==>
      other !in HandleToggle(node, path, collapsed)
    ensures Below(other, path) && path in collapsed ==> (other in HandleToggle(node, path, collapsed) <==> other in collapsed)
  {
  }

  /**
   * Toggling twice restores the state when nothing below the directory was
   * collapsed; otherwise the second toggle leaves those nodes expanded.
   */
  lemma ToggleTwice(node: FileNode, path: Path, collapsed: set<Path>)
    ensures (forall q :: q in collapsed ==> !Below(q, path)) ==>
      HandleToggle(node, path, HandleToggle(node, path, collapsed)) == collapsed
    ensures node.kind == Directory && node.children.ChildList? && path !in collapsed ==>
      HandleToggle(node, path, HandleToggle(node, path, collapsed)) == set q | q in collapsed && !Below(q, path)
  {
  }

  /** Every collapsed node is on screen: none lies below another collapsed node. */
  predicate AllMounted(collapsed: set<Path>) {
    forall p, q :: p in collapsed && q in collapsed ==> !Below(q, p)
  }

  /** A node is clickable when no collapsed directory hides it. */
  predicate Visible(path: Path, collapsed: set<Path>) {
    forall p :: p in collapsed ==> !Below(path, p)
  }

  /** Clicking a visible node keeps every collapsed node on screen. */
  lemma ToggleKeepsAllMounted(node: FileNode, path: Path, collapsed: set<Path>)
    requires AllMounted(collapsed) && Visible(path, collapsed)
    ensures AllMounted(HandleToggle(node, path, collapsed))
  {
  }

  /** `src/a.ts` under a root directory. */
  function SampleTree(): FileNode {
    var file := FileNode("a.ts", File, NoChildren, None);
    var src := FileNode("src", Directory, ChildList([file]), None);
    FileNode("root", Directory, ChildList([src]), None)
  }

  /**
   * Collapse `src`, collapse the root, open the root again: `src` comes back
   * expanded, so all three rows show.
   */
  lemma ReopenedSubtreeIsExpanded()
    ensures HandleToggle(SampleTree(), [], HandleToggle(SampleTree(), [],
              HandleToggle(SampleTree().children.nodes[0], [0], {}))) == {}
    ensures |TreeRows(SampleTree(), {})| == 3
  {
    var root := SampleTree();
    var src := root.children.nodes[0];
    assert HandleToggle(src, [0], {}) == {[0]};
    assert Below([0], []);
    assert HandleToggle(root, [], {[0]}) == {[]};
    FullyExpandedRowCount(root, 0, false, "", []);
  }
}
