/** The content tree the window builds from the repository's path list. Nodes live in an
    arena keyed by their segment sequence: the root is [], a node's parent is its key
    without the last segment, and a node lists its children's segments in insertion
    order (the enumeration order of the Dictionary that holds them). A child removed from
    that list stays in the arena, unreachable, like the object the source drops. */
module ContentTree {
  import opened Text
  import opened Numbers
  import opened Naming

  type Key = seq<string>

  datatype ButtonEntry = ButtonEntry(displayName: string, url: string, order: int)

  datatype PostEntry = PostEntry(number: int, title: string, imagePaths: seq<string>, buttons: seq<ButtonEntry>)

  datatype Node = Node(
    name: string,
    path: string,
    children: seq<string>,
    imagePaths: seq<string>,
    hidden: bool,
    hasColor: bool,
    bgColor: Color32,
    posts: seq<PostEntry>,
    buttons: seq<ButtonEntry>)

  type Arena = map<Key, Node>

  /** Listed paths under this prefix (any case) belong to the window itself and are skipped. */
  const SkippedPrefix: string := "WindowFiles/"

  /** A folder holding a file of exactly this name is hidden. */
  const HideFileName: string := "Hide.txt"

  /** The name of the folder that holds a page's header. */
  const HeaderName: string := "Header"

  /** A node as `new Node { name, path }` creates it; bgColor is default(Color32). */
  function Fresh(name: string, path: string): Node {
    Node(name, path, [], [], false, false, Color32(0, 0, 0, 0), [], [])
  }

  const Root: Node := Fresh("root", "")

  /** The tree right after Refresh: just the root. */
  const EmptyTree: Arena := map[[] := Root]

  /** The node at a key, or a blank node where there is none (which a well-formed tree
      never asks for). */
  function Get(t: Arena, k: Key): Node {
    if k in t then t[k] else Blank
  }

  const Blank: Node := Fresh("", "")

  /** What a node holds besides its name, path and children. */
  function Payload(n: Node): Node {
    n.(name := "", path := "", children := [])
  }

  /** A child's path: the segment alone under a node whose path is "", otherwise the
      parent's path, '/', and the segment. */
  function ChildPath(parentPath: string, part: string): string {
    if parentPath == "" then part else parentPath + "/" + part
  }

  function PathOf(k: Key): string
    decreases |k|
  {
    if k == [] then "" else ChildPath(PathOf(k[..|k| - 1]), k[|k| - 1])
  }

  predicate DistinctNames(cs: seq<string>) {
    forall i, j :: 0 <= i < j < |cs| ==> cs[i] != cs[j]
  }

  /** A well-formed tree: the root is there; every other node's parent is there and the
      node is named by its last segment; paths are the joined segments; children are
      distinct and all present. */
  ghost predicate Valid(t: Arena) {
    [] in t && t[[]].name == "root" && ParentsPresent(t) && PathsJoined(t) && ChildrenPresent(t)
  }

  ghost predicate ParentsPresent(t: Arena) {
    forall k, c :: k + [c] in t ==> k in t && t[k + [c]].name == c
  }

  ghost predicate PathsJoined(t: Arena) {
    forall k :: k in t ==> t[k].path == PathOf(k) && DistinctNames(t[k].children)
  }

  ghost predicate ChildrenPresent(t: Arena) {
    forall k, c :: k in t && c in t[k].children ==> k + [c] in t
  }

  /** A node's parent is present, and the node is named by its last segment. */
  lemma ParentOf(t: Arena, k: Key)
    requires ParentsPresent(t) && k in t && k != []
    ensures k[..|k| - 1] in t && t[k].name == k[|k| - 1]
  {
    assert k == k[..|k| - 1] + [k[|k| - 1]];
  }

  /** No node has buttons or posts yet. */
  ghost predicate Unadorned(t: Arena) {
    forall k :: k in t ==> t[k].buttons == [] && t[k].posts == []
  }

  // ---------------------------------------------------------------------------------
  // First pass: folders and leaves

  /** `children.TryGetValue(part)`, creating and linking the child when it is missing. */
  function EnsureChild(t: Arena, k: Key, part: string): Arena {
    var n := Get(t, k);
    if part in n.children then t
    else t[k := n.(children := n.children + [part])][k + [part] := Fresh(part, ChildPath(n.path, part))]
  }

  /** Descending through the folder segments from k, creating missing folders; gives the
      tree and the key reached. */
  function Walk(t: Arena, k: Key, segs: seq<string>): (Arena, Key)
    decreases |segs|
  {
    if segs == [] then (t, k) else Walk(EnsureChild(t, k, segs[0]), k + [segs[0]], segs[1..])
  }

  /** What the last segment of a path is, in the order the source tests it. */
  datatype Leaf = Descriptor | HideMarker | ColorMarker(color: Color32) | Image | Ignored

  function ClassifyLeaf(part: string): Leaf {
    if IsButtonFile(part) then Descriptor
    else if part == HideFileName then HideMarker
    else
      var c := TryParseColorFromName(WithoutExtension(part));
      if c.ok then ColorMarker(c.color)
      else if IsImageFile(part) then Image
      else Ignored
  }

  /** The effect of a leaf on the folder k that holds it. */
  function ApplyLeaf(t: Arena, k: Key, leaf: Leaf, path: string): Arena {
    var n := Get(t, k);
    match leaf
    case HideMarker => t[k := n.(hidden := true)]
    case ColorMarker(c) => t[k := n.(hasColor := true, bgColor := c)]
    case Image => t[k := n.(imagePaths := n.imagePaths + [path])]
    case _ => t
  }

  /** What each kind of last segment that is not a descriptor does to its folder. */
  lemma HideEffect(t: Arena, k: Key, part: string, path: string)
    requires !IsButtonFile(part) && part == HideFileName
    ensures ApplyLeaf(t, k, ClassifyLeaf(part), path) == t[k := Get(t, k).(hidden := true)]
  {
    assert ClassifyLeaf(part) == HideMarker;
  }

  lemma ColorEffect(t: Arena, k: Key, part: string, path: string)
    requires !IsButtonFile(part) && part != HideFileName
    requires TryParseColorFromName(WithoutExtension(part)).ok
    ensures var c := TryParseColorFromName(WithoutExtension(part)).color;
      ApplyLeaf(t, k, ClassifyLeaf(part), path) == t[k := Get(t, k).(hasColor := true, bgColor := c)]
  {
    assert ClassifyLeaf(part) == ColorMarker(TryParseColorFromName(WithoutExtension(part)).color);
  }

  lemma ImageEffect(t: Arena, k: Key, part: string, path: string)
    requires !IsButtonFile(part) && part != HideFileName
    requires !TryParseColorFromName(WithoutExtension(part)).ok && IsImageFile(part)
    ensures ApplyLeaf(t, k, ClassifyLeaf(part), path) == t[k := Get(t, k).(imagePaths := Get(t, k).imagePaths + [path])]
  {
    assert ClassifyLeaf(part) == Image;
  }

  lemma IgnoredEffect(t: Arena, k: Key, part: string, path: string)
    requires !IsButtonFile(part) && part != HideFileName
    requires !TryParseColorFromName(WithoutExtension(part)).ok && !IsImageFile(part)
    ensures ApplyLeaf(t, k, ClassifyLeaf(part), path) == t
  {
    assert ClassifyLeaf(part) == Ignored;
  }

  /** The state of the first pass: the tree and the button descriptors seen so far. */
  datatype Pass = Pass(tree: Arena, buttonFiles: seq<string>)

  /** One path of the listing. */
  function AddPath(p: Pass, path: string): Pass {
    if StartsWithIgnoreCase(path, SkippedPrefix) then p
    else AddFile(p, FolderOf(path), ClassifyLeaf(LeafOf(path)), path)
  }

  /** The folder a path's leaf sits in: every segment but the last. */
  function FolderOf(path: string): Key {
    var parts := Split(path, '/');
    parts[..|parts| - 1]
  }

  function LeafOf(path: string): string {
    var parts := Split(path, '/');
    parts[|parts| - 1]
  }

  /** A file of kind leaf at the given path, in the folder with key f. */
  function AddFile(p: Pass, f: Key, leaf: Leaf, path: string): Pass {
    var w := Walk(p.tree, [], f);
    if leaf == Descriptor then Pass(w.0, p.buttonFiles + [path])
    else Pass(ApplyLeaf(w.0, w.1, leaf, path), p.buttonFiles)
  }

  /** The first pass of ParseTree over the whole listing. */
  function FirstPass(p: Pass, paths: seq<string>): Pass
    decreases |paths|
  {
    if paths == [] then p else FirstPass(AddPath(p, paths[0]), paths[1..])
  }

  /** Every node but the root is linked from its parent: true of the first pass, which
      never unlinks anything. */
  ghost predicate Tidy(t: Arena) {
    forall k, c :: k + [c] in t ==> c in Get(t, k).children
  }

  /** Creating a missing child keeps every node linked, adds exactly that child, links it,
      and changes nothing else (the child was not in the arena, since every node is linked). */
  lemma EnsureChildGrown(t: Arena, k: Key, part: string)
    requires Tidy(t) && ChildrenPresent(t) && k in t
    ensures var r := EnsureChild(t, k, part);
      Tidy(r) && ChildrenPresent(r) && Grown(t, r) && r.Keys == t.Keys + {k + [part]}
      && part in r[k].children
  {
    var r := EnsureChild(t, k, part);
    if part !in t[k].children {
      assert part !in Get(t, k).children;
      assert k + [part] !in t;
      EnsureChildTidy(t, k, part);
      EnsureChildChildren(t, k, part);
      assert Payload(r[k + [part]]) == Payload(Blank);
      forall j | j in t
        ensures j in r && Payload(r[j]) == Payload(t[j]) && t[j].children <= r[j].children
      {
        if j != k {
          assert r[j] == t[j];
        }
      }
    }
  }

  lemma EnsureChildValid(t: Arena, k: Key, part: string)
    requires Valid(t) && Tidy(t) && k in t
    ensures Valid(EnsureChild(t, k, part))
  {
    if part !in t[k].children {
      EnsureChildParents(t, k, part);
      EnsureChildPaths(t, k, part);
      EnsureChildChildren(t, k, part);
    }
  }

  lemma EnsureChildParents(t: Arena, k: Key, part: string)
    requires ParentsPresent(t) && k in t && part !in t[k].children
    ensures ParentsPresent(EnsureChild(t, k, part))
  {
    var r := EnsureChild(t, k, part);
    forall j, c | j + [c] in r
      ensures j in r && r[j + [c]].name == c
    {
      if j + [c] == k + [part] {
        assert j == (j + [c])[..|j|] == k;
        assert c == (j + [c])[|j|] == part;
      } else {
        assert j + [c] in t;
      }
    }
  }

  lemma EnsureChildPaths(t: Arena, k: Key, part: string)
    requires PathsJoined(t) && k in t && part !in t[k].children
    ensures PathsJoined(EnsureChild(t, k, part))
  {
    var r := EnsureChild(t, k, part);
    var kp := k + [part];
    forall j | j in r
      ensures r[j].path == PathOf(j) && DistinctNames(r[j].children)
    {
      if j == kp {
        assert kp[..|kp| - 1] == k;
      } else if j == k {
        assert r[j] == t[k].(children := t[k].children + [part]);
      } else {
        assert r[j] == t[j];
      }
    }
  }

  lemma EnsureChildChildren(t: Arena, k: Key, part: string)
    requires ChildrenPresent(t) && k in t && part !in t[k].children
    ensures ChildrenPresent(EnsureChild(t, k, part))
  {
    var r := EnsureChild(t, k, part);
    var kp := k + [part];
    forall j, c | j in r && c in r[j].children
      ensures j + [c] in r
    {
      if j == k {
        assert c in t[k].children || c == part;
      } else if j != kp {
        assert r[j] == t[j];
      }
    }
  }

  lemma EnsureChildTidy(t: Arena, k: Key, part: string)
    requires Tidy(t) && k in t && part !in t[k].children
    ensures Tidy(EnsureChild(t, k, part))
  {
    var r := EnsureChild(t, k, part);
    forall j, c | j + [c] in r
      ensures c in Get(r, j).children
    {
      if j + [c] == k + [part] {
        assert j == (j + [c])[..|j|] == k;
        assert c == (j + [c])[|j|] == part;
      } else {
        assert j + [c] in t;
        assert c in Get(t, j).children;
        if j == k {
          assert Get(r, j).children == t[k].children + [part];
        } else {
          assert j != k + [part];
          assert Get(r, j) == Get(t, j);
        }
      }
    }
  }

  /** u keeps every node of t, changing at most its children, which it only extends;
      the nodes u adds hold nothing yet. */
  ghost predicate Grown(t: Arena, u: Arena) {
    (forall j :: j in t ==> j in u && Payload(u[j]) == Payload(t[j]) && t[j].children <= u[j].children)
    && (forall j :: j in u && j !in t ==> Payload(u[j]) == Payload(Blank))
  }

  /** The keys of the folders a walk from k through segs passes into. */
  function Prefixes(k: Key, segs: seq<string>): set<Key>
    decreases |segs|
  {
    if segs == [] then {} else {k + [segs[0]]} + Prefixes(k + [segs[0]], segs[1..])
  }

  lemma {:induction false} PrefixesAre(k: Key, segs: seq<string>, j: Key)
    ensures j in Prefixes(k, segs) <==> exists i :: 1 <= i <= |segs| && j == k + segs[..i]
    decreases |segs|
  {
    if segs != [] {
      PrefixesAre(k + [segs[0]], segs[1..], j);
      if j == k + [segs[0]] {
        assert j == k + segs[..1];
      }
      if j in Prefixes(k + [segs[0]], segs[1..]) {
        var i :| 1 <= i <= |segs| - 1 && j == k + [segs[0]] + segs[1..][..i];
        assert j == k + segs[..i + 1];
      }
      if exists i :: 1 <= i <= |segs| && j == k + segs[..i] {
        var i :| 1 <= i <= |segs| && j == k + segs[..i];
        if i > 1 {
          assert segs[..i] == [segs[0]] + segs[1..][..i - 1];
          assert j == k + [segs[0]] + segs[1..][..i - 1];
          assert j in Prefixes(k + [segs[0]], segs[1..]);
        } else {
          assert segs[..i] == [segs[0]];
        }
      }
    }
  }

  lemma GrownTrans(t: Arena, u: Arena, v: Arena)
    requires Grown(t, u) && Grown(u, v)
    ensures Grown(t, v)
  {
    forall j | j in v && j !in t
      ensures Payload(v[j]) == Payload(Blank)
    {
      if j in u {
        assert Payload(v[j]) == Payload(u[j]);
      }
    }
  }

  lemma AppendHead(k: Key, segs: seq<string>)
    requires segs != []
    ensures k + [segs[0]] + segs[1..] == k + segs
  {
  }

  /** A walk keeps every node linked, extends children lists and changes nothing else,
      adds exactly the folders along its way that were missing, and ends at k + segs. */
  lemma WalkGrown(t: Arena, k: Key, segs: seq<string>)
    requires Tidy(t) && ChildrenPresent(t) && k in t
    ensures var w := Walk(t, k, segs);
      Tidy(w.0) && ChildrenPresent(w.0) && Grown(t, w.0) && w.1 == k + segs && w.1 in w.0
      && w.0.Keys == t.Keys + Prefixes(k, segs)
  {
    WalkLinks(t, k, segs);
    WalkKeys(t, k, segs);
  }

  lemma {:induction false} WalkLinks(t: Arena, k: Key, segs: seq<string>)
    requires Tidy(t) && ChildrenPresent(t) && k in t
    ensures var w := Walk(t, k, segs);
      Tidy(w.0) && ChildrenPresent(w.0) && Grown(t, w.0) && w.1 == k + segs && w.1 in w.0
    decreases |segs|
  {
    if segs != [] {
      var t1 := EnsureChild(t, k, segs[0]);
      EnsureChildGrown(t, k, segs[0]);
      WalkLinks(t1, k + [segs[0]], segs[1..]);
      GrownTrans(t, t1, Walk(t1, k + [segs[0]], segs[1..]).0);
      AppendHead(k, segs);
    }
  }

  lemma {:induction false} WalkKeys(t: Arena, k: Key, segs: seq<string>)
    requires Tidy(t) && ChildrenPresent(t) && k in t
    ensures Walk(t, k, segs).0.Keys == t.Keys + Prefixes(k, segs)
    decreases |segs|
  {
    if segs != [] {
      var t1 := EnsureChild(t, k, segs[0]);
      EnsureChildGrown(t, k, segs[0]);
      WalkKeys(t1, k + [segs[0]], segs[1..]);
    }
  }

  /** A walk keeps the tree well formed. */
  lemma {:induction false} WalkValid(t: Arena, k: Key, segs: seq<string>)
    requires Valid(t) && Tidy(t) && k in t
    ensures Valid(Walk(t, k, segs).0)
    decreases |segs|
  {
    if segs != [] {
      EnsureChildValid(t, k, segs[0]);
      EnsureChildGrown(t, k, segs[0]);
      WalkValid(EnsureChild(t, k, segs[0]), k + [segs[0]], segs[1..]);
    }
  }

  /** What the first pass leaves: well formed, every node linked, no buttons or posts. */
  ghost predicate Built(t: Arena) {
    Valid(t) && Tidy(t) && Unadorned(t)
  }

  /** Replacing a node's contents, keeping its name, path and children, keeps the tree
      well formed. */
  lemma RetouchValid(t: Arena, k: Key, n: Node)
    requires Valid(t) && Tidy(t) && k in t
    requires n.name == t[k].name && n.path == t[k].path && n.children == t[k].children
    ensures Valid(t[k := n]) && Tidy(t[k := n])
  {
    var r := t[k := n];
    assert ParentsPresent(r) by {
      forall j, c | j + [c] in r
        ensures j in r && r[j + [c]].name == c
      {
        assert j + [c] in t;
      }
    }
    assert PathsJoined(r) by {
      forall j | j in r
        ensures r[j].path == PathOf(j) && DistinctNames(r[j].children)
      {
        assert j in t;
      }
    }
    assert ChildrenPresent(r) by {
      forall j, c | j in r && c in r[j].children
        ensures j + [c] in r
      {
        assert j in t && c in t[j].children;
      }
    }
    assert Tidy(r) by {
      forall j, c | j + [c] in r
        ensures c in Get(r, j).children
      {
        assert j + [c] in t;
        assert c in Get(t, j).children;
      }
    }
  }

  lemma ApplyLeafValid(t: Arena, k: Key, leaf: Leaf, path: string)
    requires Built(t) && k in t
    ensures var r := ApplyLeaf(t, k, leaf, path);
      Built(r) && r.Keys == t.Keys && (forall j :: j in t ==> r[j].children == t[j].children)
  {
    var r := ApplyLeaf(t, k, leaf, path);
    if r != t {
      var n := r[k];
      assert r == t[k := n] && n.name == t[k].name && n.path == t[k].path
        && n.children == t[k].children && n.buttons == [] && n.posts == [];
      RetouchBuilt(t, k, n);
    }
  }

  /** Replacing a node's contents, keeping it unadorned, keeps the arena built. */
  lemma RetouchBuilt(t: Arena, k: Key, n: Node)
    requires Built(t) && k in t
    requires n.name == t[k].name && n.path == t[k].path && n.children == t[k].children
    requires n.buttons == [] && n.posts == []
    ensures var r := t[k := n];
      Built(r) && r.Keys == t.Keys && (forall j :: j in t ==> r[j].children == t[j].children)
  {
    RetouchValid(t, k, n);
  }

  lemma WalkBuilt(t: Arena, k: Key, segs: seq<string>)
    requires Built(t) && k in t
    ensures Built(Walk(t, k, segs).0)
  {
    WalkValid(t, k, segs);
    WalkGrown(t, k, segs);
    var u := Walk(t, k, segs).0;
    forall j | j in u
      ensures u[j].buttons == [] && u[j].posts == []
    {
      if j in t {
        assert Payload(u[j]) == Payload(t[j]);
      } else {
        assert Payload(u[j]) == Payload(Blank);
      }
    }
  }

  lemma AddPathBuilt(p: Pass, path: string)
    requires Built(p.tree)
    ensures Built(AddPath(p, path).tree)
  {
    if !StartsWithIgnoreCase(path, SkippedPrefix) {
      AddFileBuilt(p, FolderOf(path), ClassifyLeaf(LeafOf(path)), path);
    }
  }

  lemma AddFileBuilt(p: Pass, f: Key, leaf: Leaf, path: string)
    requires Built(p.tree)
    ensures Built(AddFile(p, f, leaf, path).tree)
  {
    WalkBuilt(p.tree, [], f);
    WalkGrown(p.tree, [], f);
    var w := Walk(p.tree, [], f);
    ApplyLeafValid(w.0, w.1, leaf, path);
  }

  /** A file in folder f: every folder segment becomes a node (the file itself never
      does), and button descriptors are recorded for later. */
  lemma AddFileShape(p: Pass, f: Key, leaf: Leaf, path: string)
    requires Tidy(p.tree) && ChildrenPresent(p.tree) && [] in p.tree
    ensures var r := AddFile(p, f, leaf, path);
      f in r.tree && r.tree.Keys == p.tree.Keys + Prefixes([], f)
      && r.buttonFiles == p.buttonFiles + (if leaf == Descriptor then [path] else [])
  {
    WalkGrown(p.tree, [], f);
    assert [] + f == f;
  }

  /** A file in folder f: a hide marker hides the folder, a colour marker colours it, an
      image is appended to its image list, and no other node's contents change. */
  lemma AddFileLeaf(p: Pass, f: Key, leaf: Leaf, path: string)
    requires Tidy(p.tree) && ChildrenPresent(p.tree) && [] in p.tree
    ensures var r := AddFile(p, f, leaf, path);
      var before := Get(p.tree, f);
      f in r.tree
      && r.tree[f].hidden == (before.hidden || leaf == HideMarker)
      && r.tree[f].hasColor == (before.hasColor || leaf.ColorMarker?)
      && r.tree[f].bgColor == (if leaf.ColorMarker? then leaf.color else before.bgColor)
      && r.tree[f].imagePaths == before.imagePaths + (if leaf == Image then [path] else [])
      && (forall j :: j in p.tree && j != f ==> j in r.tree && Payload(r.tree[j]) == Payload(p.tree[j]))
  {
    WalkGrown(p.tree, [], f);
    var w := Walk(p.tree, [], f);
    assert [] + f == f;
    assert Payload(w.0[f]) == Payload(Get(p.tree, f));
    forall j | j in p.tree && j != f
      ensures j in AddFile(p, f, leaf, path).tree
      ensures Payload(AddFile(p, f, leaf, path).tree[j]) == Payload(p.tree[j])
    {
      assert Payload(w.0[j]) == Payload(p.tree[j]);
    }
  }

  /** Paths under WindowFiles/ are skipped; any other path is a file in the folder its
      segments but the last name, of the kind its last segment gives. */
  lemma AddPathIsFile(p: Pass, path: string)
    ensures StartsWithIgnoreCase(path, SkippedPrefix) ==> AddPath(p, path) == p
    ensures !StartsWithIgnoreCase(path, SkippedPrefix) ==>
      AddPath(p, path) == AddFile(p, FolderOf(path), ClassifyLeaf(LeafOf(path)), path)
  {
  }

  /** A leaf is a descriptor exactly when its name is that of a button file. */
  lemma DescriptorLeaf(leafName: string)
    ensures ClassifyLeaf(leafName) == Descriptor <==> IsButtonFile(leafName)
  {
  }

  /** A descriptor leaves the folders walked to and is remembered for the third pass;
      any other leaf acts on the folder walked to. */
  lemma AddFileSplit(p: Pass, f: Key, leaf: Leaf, path: string)
    ensures leaf == Descriptor ==> AddFile(p, f, leaf, path) == Pass(Walk(p.tree, [], f).0, p.buttonFiles + [path])
    ensures leaf != Descriptor ==> var w := Walk(p.tree, [], f);
      AddFile(p, f, leaf, path) == Pass(ApplyLeaf(w.0, w.1, leaf, path), p.buttonFiles)
  {
  }

  lemma {:induction false} FirstPassBuilt(p: Pass, paths: seq<string>)
    requires Built(p.tree)
    ensures Built(FirstPass(p, paths).tree)
    decreases |paths|
  {
    if paths != [] {
      AddPathBuilt(p, paths[0]);
      FirstPassBuilt(AddPath(p, paths[0]), paths[1..]);
    }
  }

  lemma EmptyTreeBuilt()
    ensures Built(EmptyTree)
  {
  }

  // ---------------------------------------------------------------------------------
  // Post folders

  /** What CollectPostFolders does with one child folder c of k. */
  datatype Verdict = Stays | Dropped | Posted(post: PostEntry) | Overflows
  {
    predicate Unlinks() { Dropped? || Posted? }
  }

  function Judge(t: Arena, k: Key, c: string): Verdict {
    if !IsPostFolder(c) then Stays
    else
      var child := Get(t, k + [c]);
      if child.hidden then Dropped
      else match PostFolderMatch(c)
        case None => Stays
        case Some(pm) =>
          match ReadPostName(pm)
          case None => Overflows
          case Some(h) => Posted(PostEntry(h.number, h.title, child.imagePaths, child.buttons))
  }

  /** The scan of k's children: posts in child order, the children to unlink, and whether
      int.Parse threw, which ends the scan with the posts already added. */
  datatype Scan = Scan(posts: seq<PostEntry>, removed: seq<string>, overflow: bool)

  function ScanPosts(t: Arena, k: Key, cs: seq<string>): Scan
    decreases |cs|
  {
    if cs == [] then Scan([], [], false)
    else
      var r := ScanPosts(t, k, cs[1..]);
      match Judge(t, k, cs[0])
      case Stays => r
      case Dropped => r.(removed := [cs[0]] + r.removed)
      case Posted(p) => Scan([p] + r.posts, [cs[0]] + r.removed, r.overflow)
      case Overflows => Scan([], [], true)
  }

  /** The scan reports an exception exactly when some child overflows; otherwise it marks
      exactly the children to unlink and finds the post of every full match; every post it
      finds is that of some child. */
  lemma ScanPostsSound(t: Arena, k: Key, cs: seq<string>)
    ensures var r := ScanPosts(t, k, cs);
      (r.overflow <==> exists c :: c in cs && Judge(t, k, c) == Overflows)
      && (!r.overflow ==> forall c :: c in r.removed <==> c in cs && Judge(t, k, c).Unlinks())
      && (forall p :: p in r.posts ==> exists c :: c in cs && Judge(t, k, c) == Posted(p))
      && (!r.overflow ==> forall c :: c in cs && Judge(t, k, c).Posted? ==> Judge(t, k, c).post in r.posts)
  {
    ScanOverflow(t, k, cs);
    ScanRemoved(t, k, cs);
    ScanPostsFrom(t, k, cs);
    ScanFindsAll(t, k, cs);
  }

  /** The posts of the full-match children among cs: one per such child, in child order. */
  function PostsOf(t: Arena, k: Key, cs: seq<string>): (r: seq<PostEntry>)
    ensures |r| <= |cs|
    decreases |cs|
  {
    if cs == [] then []
    else
      var v := Judge(t, k, cs[0]);
      (if v.Posted? then [v.post] else []) + PostsOf(t, k, cs[1..])
  }

  /** The children among cs to unlink, in child order. */
  function UnlinkedOf(t: Arena, k: Key, cs: seq<string>): (r: seq<string>)
    ensures forall c :: c in r <==> c in cs && Judge(t, k, c).Unlinks()
    decreases |cs|
  {
    if cs == [] then []
    else (if Judge(t, k, cs[0]).Unlinks() then [cs[0]] else []) + UnlinkedOf(t, k, cs[1..])
  }

  /** The position of the first child whose number int.Parse cannot hold, |cs| if none. */
  function OverflowAt(t: Arena, k: Key, cs: seq<string>): (n: nat)
    ensures n <= |cs| && (n < |cs| ==> Judge(t, k, cs[n]) == Overflows)
    decreases |cs|
  {
    if cs == [] || Judge(t, k, cs[0]) == Overflows then 0
    else
      var m := OverflowAt(t, k, cs[1..]);
      assert m < |cs| - 1 ==> cs[1..][m] == cs[1 + m];
      1 + m
  }

  /** The scan walks the children in order (Dictionary enumeration order): its posts are
      those of the full matches before the first overflow, one per child and in child
      order; it reports the exception exactly when some child overflows. */
  lemma {:induction false} ScanPostsInOrder(t: Arena, k: Key, cs: seq<string>)
    ensures var r := ScanPosts(t, k, cs);
      var n := OverflowAt(t, k, cs);
      r.posts == PostsOf(t, k, cs[..n]) && (r.overflow <==> n < |cs|)
    decreases |cs|
  {
    if cs != [] {
      ScanPostsInOrder(t, k, cs[1..]);
      if Judge(t, k, cs[0]) != Overflows {
        ScanCons(t, k, cs);
        var m := OverflowAt(t, k, cs[1..]);
        assert OverflowAt(t, k, cs) == 1 + m;
        TakeCons(cs, m);
        FilterCons(t, k, cs[0], cs[1..][..m]);
      }
    }
  }

  /** The children the scan marks for unlinking are those to unlink before the first
      overflow, in child order. */
  lemma {:induction false} ScanRemovedInOrder(t: Arena, k: Key, cs: seq<string>)
    ensures ScanPosts(t, k, cs).removed == UnlinkedOf(t, k, cs[..OverflowAt(t, k, cs)])
    decreases |cs|
  {
    if cs != [] {
      ScanRemovedInOrder(t, k, cs[1..]);
      if Judge(t, k, cs[0]) != Overflows {
        ScanCons(t, k, cs);
        var m := OverflowAt(t, k, cs[1..]);
        assert OverflowAt(t, k, cs) == 1 + m;
        TakeCons(cs, m);
        FilterCons(t, k, cs[0], cs[1..][..m]);
      }
    }
  }

  /** The scan of a child that does not overflow, in front of the others. */
  lemma ScanCons(t: Arena, k: Key, cs: seq<string>)
    requires cs != [] && Judge(t, k, cs[0]) != Overflows
    ensures var v := Judge(t, k, cs[0]);
      var r := ScanPosts(t, k, cs[1..]);
      var s := ScanPosts(t, k, cs);
      s.posts == (if v.Posted? then [v.post] else []) + r.posts
      && s.removed == (if v.Unlinks() then [cs[0]] else []) + r.removed
      && s.overflow == r.overflow
  {
    ScanHead(t, k, cs);
  }

  lemma TakeCons(cs: seq<string>, m: nat)
    requires m < |cs|
    ensures cs[..1 + m] == [cs[0]] + cs[1..][..m]
  {
  }

  lemma FilterCons(t: Arena, k: Key, c: string, rest: seq<string>)
    ensures var v := Judge(t, k, c);
      PostsOf(t, k, [c] + rest) == (if v.Posted? then [v.post] else []) + PostsOf(t, k, rest)
      && UnlinkedOf(t, k, [c] + rest) == (if v.Unlinks() then [c] else []) + UnlinkedOf(t, k, rest)
  {
    assert ([c] + rest)[1..] == rest;
  }

  /** The scan of a non-empty list, unfolded once. */
  lemma ScanHead(t: Arena, k: Key, cs: seq<string>)
    requires cs != []
    ensures var r := ScanPosts(t, k, cs[1..]);
      ScanPosts(t, k, cs) ==
        match Judge(t, k, cs[0])
        case Stays => r
        case Dropped => r.(removed := [cs[0]] + r.removed)
        case Posted(p) => Scan([p] + r.posts, [cs[0]] + r.removed, r.overflow)
        case Overflows => Scan([], [], true)
  {
  }

  lemma MemberOfTail(cs: seq<string>, c: string)
    requires cs != []
    ensures c in cs <==> c == cs[0] || c in cs[1..]
  {
    assert cs == [cs[0]] + cs[1..];
  }

  lemma {:induction false} ScanOverflow(t: Arena, k: Key, cs: seq<string>)
    ensures ScanPosts(t, k, cs).overflow <==> exists c :: c in cs && Judge(t, k, c) == Overflows
    decreases |cs|
  {
    if cs != [] {
      ScanOverflow(t, k, cs[1..]);
      ScanHead(t, k, cs);
      if Judge(t, k, cs[0]) != Overflows {
        assert ScanPosts(t, k, cs).overflow == ScanPosts(t, k, cs[1..]).overflow;
        forall c | c in cs && Judge(t, k, c) == Overflows
          ensures c in cs[1..]
        {
          MemberOfTail(cs, c);
        }
      }
    }
  }

  lemma {:induction false} ScanRemoved(t: Arena, k: Key, cs: seq<string>)
    ensures var r := ScanPosts(t, k, cs);
      !r.overflow ==> forall c :: c in r.removed <==> c in cs && Judge(t, k, c).Unlinks()
    decreases |cs|
  {
    if cs != [] {
      ScanRemoved(t, k, cs[1..]);
      ScanHead(t, k, cs);
      var r := ScanPosts(t, k, cs[1..]);
      var v := Judge(t, k, cs[0]);
      if v != Overflows && !r.overflow {
        forall c
          ensures c in ScanPosts(t, k, cs).removed <==> c in cs && Judge(t, k, c).Unlinks()
        {
          MemberOfTail(cs, c);
        }
      }
    }
  }

  lemma {:induction false} ScanPostsFrom(t: Arena, k: Key, cs: seq<string>)
    ensures forall p :: p in ScanPosts(t, k, cs).posts ==> exists c :: c in cs && Judge(t, k, c) == Posted(p)
    decreases |cs|
  {
    if cs != [] {
      ScanPostsFrom(t, k, cs[1..]);
      ScanHead(t, k, cs);
      var r := ScanPosts(t, k, cs[1..]);
      forall p | p in ScanPosts(t, k, cs).posts
        ensures exists c :: c in cs && Judge(t, k, c) == Posted(p)
      {
        if p in r.posts {
          var c :| c in cs[1..] && Judge(t, k, c) == Posted(p);
          MemberOfTail(cs, c);
        } else {
          assert Judge(t, k, cs[0]) == Posted(p);
        }
      }
    }
  }

  lemma {:induction false} ScanFindsAll(t: Arena, k: Key, cs: seq<string>)
    ensures var r := ScanPosts(t, k, cs);
      !r.overflow ==> forall c :: c in cs && Judge(t, k, c).Posted? ==> Judge(t, k, c).post in r.posts
    decreases |cs|
  {
    if cs != [] {
      ScanFindsAll(t, k, cs[1..]);
      ScanHead(t, k, cs);
      var r := ScanPosts(t, k, cs[1..]);
      if !ScanPosts(t, k, cs).overflow {
        assert !r.overflow;
        forall c | c in cs && Judge(t, k, c).Posted?
          ensures Judge(t, k, c).post in ScanPosts(t, k, cs).posts
        {
          MemberOfTail(cs, c);
        }
      }
    }
  }

  /** The verdict on a child depends on the child's node only. */
  lemma JudgeReadsChild(t: Arena, u: Arena, k: Key, c: string)
    requires Get(t, k + [c]) == Get(u, k + [c])
    ensures Judge(t, k, c) == Judge(u, k, c)
  {
  }

  /** The scan from position j: the verdict on cs[j], then the scan of the rest. */
  lemma ScanStep(t: Arena, k: Key, cs: seq<string>, j: nat)
    requires j < |cs|
    ensures var r := ScanPosts(t, k, cs[j + 1..]);
      ScanPosts(t, k, cs[j..]) ==
        match Judge(t, k, cs[j])
        case Stays => r
        case Dropped => r.(removed := [cs[j]] + r.removed)
        case Posted(p) => Scan([p] + r.posts, [cs[j]] + r.removed, r.overflow)
        case Overflows => Scan([], [], true)
  {
    assert cs[j..][1..] == cs[j + 1..];
  }

  /** A left-to-right scan that has judged cs[..j], adding the posts in added and marking
      the names in removed, agrees with ScanPosts once the rest is scanned. */
  ghost predicate ScanSoFar(t: Arena, k: Key, cs: seq<string>, j: nat, added: seq<PostEntry>, removed: seq<string>)
    requires j <= |cs|
  {
    var rest := ScanPosts(t, k, cs[j..]);
    ScanPosts(t, k, cs) == Scan(added + rest.posts, removed + rest.removed, rest.overflow)
  }

  lemma ScanStart(t: Arena, k: Key, cs: seq<string>)
    ensures ScanSoFar(t, k, cs, 0, [], [])
  {
    assert cs[0..] == cs;
  }

  /** One step of the scan: the verdict on cs[j] extends added and removed as ScanPosts does. */
  lemma ScanAdvance(t: Arena, k: Key, cs: seq<string>, j: nat, added: seq<PostEntry>, removed: seq<string>)
    requires j < |cs| && ScanSoFar(t, k, cs, j, added, removed)
    ensures Judge(t, k, cs[j]) == Stays ==> ScanSoFar(t, k, cs, j + 1, added, removed)
    ensures Judge(t, k, cs[j]) == Dropped ==> ScanSoFar(t, k, cs, j + 1, added, removed + [cs[j]])
    ensures Judge(t, k, cs[j]).Posted? ==>
      ScanSoFar(t, k, cs, j + 1, added + [Judge(t, k, cs[j]).post], removed + [cs[j]])
    ensures Judge(t, k, cs[j]) == Overflows ==> ScanPosts(t, k, cs) == Scan(added, removed, true)
  {
    ScanStep(t, k, cs, j);
    var r := ScanPosts(t, k, cs[j + 1..]);
    match Judge(t, k, cs[j]) {
      case Stays =>
      case Dropped =>
        ConcatAssoc(removed, [cs[j]], r.removed);
      case Posted(p) =>
        ConcatAssoc(added, [p], r.posts);
        ConcatAssoc(removed, [cs[j]], r.removed);
      case Overflows =>
        assert added + [] == added;
        assert removed + [] == removed;
    }
  }

  /** Appending no posts to k leaves the tree as it is. */
  lemma NoPostsAppended(t: Arena, k: Key)
    requires k in t
    ensures t[k := t[k].(posts := t[k].posts + [])] == t
  {
    assert t[k].posts + [] == t[k].posts;
  }

  /** Appending the posts a to k and then p is appending a + [p]. */
  lemma PostsAppended(t: Arena, k: Key, a: seq<PostEntry>, p: PostEntry)
    requires k in t
    ensures var u := t[k := t[k].(posts := t[k].posts + a)];
      u[k := u[k].(posts := u[k].posts + [p])] == t[k := t[k].(posts := t[k].posts + (a + [p]))]
  {
    ConcatAssoc(t[k].posts, a, [p]);
  }

  /** A scan that has judged every child has the result of ScanPosts. */
  lemma ScanDone(t: Arena, k: Key, cs: seq<string>, added: seq<PostEntry>, removed: seq<string>)
    requires ScanSoFar(t, k, cs, |cs|, added, removed)
    ensures ScanPosts(t, k, cs) == Scan(added, removed, false)
  {
    assert cs[|cs|..] == [];
    assert added + [] == added;
    assert removed + [] == removed;
  }

  /** cs with the removed names taken out, order kept. */
  function Without(cs: seq<string>, removed: seq<string>): (r: seq<string>)
    ensures forall c :: c in r <==> c in cs && c !in removed
    ensures DistinctNames(cs) ==> DistinctNames(r)
    decreases |cs|
  {
    if cs == [] then []
    else if cs[0] in removed then Without(cs[1..], removed)
    else
      var r := Without(cs[1..], removed);
      [cs[0]] + r
  }

  /** The result of CollectPostFolders: the tree, and whether int.Parse threw. */
  datatype Collected = Collected(tree: Arena, overflow: bool)

  /** CollectPostFolders(node k): scan k's children, add the posts, unlink the children
      that became posts or were hidden posts, then recurse into the children that are
      left. D bounds the key length in a well-formed tree. */
  function CollectAt(t: Arena, k: Key, D: nat): Collected
    requires k in t && |k| <= D
    decreases D - |k|, 1
  {
    var n := t[k];
    var sc := ScanPosts(t, k, n.children);
    var t1 := t[k := n.(posts := n.posts + sc.posts)];
    if sc.overflow then Collected(t1, true)
    else
      var kept := Without(n.children, sc.removed);
      CollectEach(t1[k := t1[k].(children := kept)], k, kept, D)
  }

  /** The recursion into the children cs of k, in order, stopping at an exception. */
  function CollectEach(t: Arena, k: Key, cs: seq<string>, D: nat): Collected
    requires |k| <= D
    decreases D - |k|, 0, |cs|
  {
    if cs == [] then Collected(t, false)
    else if |k| < D && k + [cs[0]] in t then
      var r := CollectAt(t, k + [cs[0]], D);
      if r.overflow then r else CollectEach(r.tree, k, cs[1..], D)
    else CollectEach(t, k, cs[1..], D)
  }

  /** u keeps every node of t with its name, path and contents, except that children
      may be unlinked and posts appended. */
  ghost predicate Pruned(t: Arena, u: Arena) {
    u.Keys == t.Keys
    && forall j :: j in t ==>
      u[j] == t[j].(children := u[j].children, posts := u[j].posts)
      && t[j].posts <= u[j].posts
      && (forall c :: c in u[j].children ==> c in t[j].children)
      && (DistinctNames(t[j].children) ==> DistinctNames(u[j].children))
  }

  /** Appending posts to k and then unlinking some of its children prunes the tree and
      keeps it well formed. */
  lemma ScanPrunes(t: Arena, k: Key, posts: seq<PostEntry>, removed: seq<string>)
    requires k in t
    ensures var t1 := t[k := t[k].(posts := t[k].posts + posts)];
      var t2 := t1[k := t1[k].(children := Without(t1[k].children, removed))];
      Pruned(t, t2) && (Valid(t) ==> Valid(t2))
  {
    var t1 := t[k := t[k].(posts := t[k].posts + posts)];
    var t2 := t1[k := t1[k].(children := Without(t1[k].children, removed))];
    assert Pruned(t, t2);
    if Valid(t) {
      PrunedValid(t, t2);
    }
  }

  /** One step of the recursion into the children of k: the result r of CollectAt on
      child cs[i] either ends CollectEach there (an exception) or CollectEach goes on from
      r's tree with the next child. */
  lemma CollectEachAdvance(t: Arena, k: Key, cs: seq<string>, i: nat, D: nat, r: Collected)
    requires i < |cs| && |k| < D && k + [cs[i]] in t && r == CollectAt(t, k + [cs[i]], D)
    ensures r.overflow ==> CollectEach(t, k, cs[i..], D) == r
    ensures !r.overflow ==> CollectEach(t, k, cs[i..], D) == CollectEach(r.tree, k, cs[i + 1..], D)
  {
    assert cs[i..][1..] == cs[i + 1..];
  }

  lemma PrunedTrans(t: Arena, u: Arena, v: Arena)
    requires Pruned(t, u) && Pruned(u, v)
    ensures Pruned(t, v)
  {
    forall j | j in t
      ensures t[j].posts <= v[j].posts
    {
      assert t[j].posts <= u[j].posts <= v[j].posts;
    }
  }

  lemma PrefixStep(k: Key, c: string, j: Key)
    requires k + [c] <= j
    ensures k < j
  {
    assert j[..|k|] == (k + [c])[..|k|] == k;
  }

  /** CollectPostFolders at k touches only k and the nodes below it, keeps every key,
      and only unlinks children and appends posts. */
  lemma {:induction false} CollectAtFrame(t: Arena, k: Key, D: nat)
    requires k in t && |k| <= D
    ensures var r := CollectAt(t, k, D).tree;
      Pruned(t, r) && forall j :: j in t && !(k <= j) ==> r[j] == t[j]
    decreases D - |k|, 1
  {
    var n := t[k];
    var sc := ScanPosts(t, k, n.children);
    var t1 := t[k := n.(posts := n.posts + sc.posts)];
    if sc.overflow {
      AppendPrunes(t, k, sc.posts);
    } else {
      var kept := Without(n.children, sc.removed);
      var t2 := t1[k := t1[k].(children := kept)];
      ScanPrunes(t, k, sc.posts, sc.removed);
      CollectEachFrame(t2, k, kept, D);
      assert t2 == t[k := t2[k]];
      PrunedBelow(t, k, t2[k], CollectEach(t2, k, kept, D).tree);
    }
  }

  /** Appending posts to k alone prunes the tree and changes nothing beside k. */
  lemma AppendPrunes(t: Arena, k: Key, posts: seq<PostEntry>)
    requires k in t
    ensures var t1 := t[k := t[k].(posts := t[k].posts + posts)];
      Pruned(t, t1) && forall j :: j in t && !(k <= j) ==> t1[j] == t[j]
  {
    var t1 := t[k := t[k].(posts := t[k].posts + posts)];
    assert t[k].posts <= t1[k].posts;
  }

  /** Replacing node k and then pruning only k and what lies below it changes nothing
      beside k and below it. */
  lemma PrunedBelow(t: Arena, k: Key, m: Node, r: Arena)
    requires k in t && Pruned(t, t[k := m]) && Pruned(t[k := m], r)
    requires forall j :: j in t[k := m] && !(k < j) ==> r[j] == t[k := m][j]
    ensures Pruned(t, r) && forall j :: j in t && !(k <= j) ==> r[j] == t[j]
  {
    var t2 := t[k := m];
    PrunedTrans(t, t2, r);
    forall j | j in t && !(k <= j)
      ensures r[j] == t[j]
    {
      assert j != k && !(k < j);
      assert j in t2 && t2[j] == t[j];
    }
  }

  lemma {:induction false} CollectEachFrame(t: Arena, k: Key, cs: seq<string>, D: nat)
    requires |k| <= D
    ensures var r := CollectEach(t, k, cs, D).tree;
      Pruned(t, r) && forall j :: j in t && !(k < j) ==> r[j] == t[j]
    decreases D - |k|, 0, |cs|
  {
    if cs != [] {
      if |k| < D && k + [cs[0]] in t {
        var r := CollectAt(t, k + [cs[0]], D);
        CollectAtFrame(t, k + [cs[0]], D);
        forall j | j in t && !(k < j)
          ensures r.tree[j] == t[j]
        {
          if k + [cs[0]] <= j {
            PrefixStep(k, cs[0], j);
          }
        }
        if !r.overflow {
          CollectEachFrame(r.tree, k, cs[1..], D);
          PrunedTrans(t, r.tree, CollectEach(r.tree, k, cs[1..], D).tree);
        }
      } else {
        CollectEachFrame(t, k, cs[1..], D);
      }
    }
  }

  /** CollectPostFolders at k, its effect on k itself: the posts found among k's children
      are appended in child order; unless int.Parse threw somewhere, exactly the children
      that were hidden post folders or full post matches are unlinked, the rest stay in
      order. */
  lemma CollectAtNode(t: Arena, k: Key, D: nat)
    requires k in t && |k| <= D
    ensures var r := CollectAt(t, k, D);
      var sc := ScanPosts(t, k, t[k].children);
      k in r.tree && r.tree[k].posts == t[k].posts + sc.posts
      && (!r.overflow ==> r.tree[k].children == Without(t[k].children, sc.removed))
      && (!r.overflow ==> forall c :: c in r.tree[k].children <==> c in t[k].children && !Judge(t, k, c).Unlinks())
  {
    var n := t[k];
    var sc := ScanPosts(t, k, n.children);
    ScanPostsSound(t, k, n.children);
    var t1 := t[k := n.(posts := n.posts + sc.posts)];
    if !sc.overflow {
      var kept := Without(n.children, sc.removed);
      var t2 := t1[k := t1[k].(children := kept)];
      CollectEachFrame(t2, k, kept, D);
    }
  }

  /** Every node's buttons are empty, and so are those of every post. */
  ghost predicate Bare(t: Arena) {
    forall j :: j in t ==> t[j].buttons == [] && forall p :: p in t[j].posts ==> p.buttons == []
  }

  /** Posts are made before any button is attached, so they all start without buttons. */
  lemma {:induction false} CollectAtBare(t: Arena, k: Key, D: nat)
    requires k in t && |k| <= D && Bare(t)
    ensures Bare(CollectAt(t, k, D).tree)
    decreases D - |k|, 1
  {
    var n := t[k];
    var sc := ScanPosts(t, k, n.children);
    ScanPostsSound(t, k, n.children);
    forall p | p in sc.posts
      ensures p.buttons == []
    {
      var c :| c in n.children && Judge(t, k, c) == Posted(p);
    }
    var t1 := t[k := n.(posts := n.posts + sc.posts)];
    if !sc.overflow {
      var kept := Without(n.children, sc.removed);
      CollectEachBare(t1[k := t1[k].(children := kept)], k, kept, D);
    }
  }

  lemma {:induction false} CollectEachBare(t: Arena, k: Key, cs: seq<string>, D: nat)
    requires |k| <= D && Bare(t)
    ensures Bare(CollectEach(t, k, cs, D).tree)
    decreases D - |k|, 0, |cs|
  {
    if cs != [] {
      if |k| < D && k + [cs[0]] in t {
        var r := CollectAt(t, k + [cs[0]], D);
        CollectAtBare(t, k + [cs[0]], D);
        if !r.overflow {
          CollectEachBare(r.tree, k, cs[1..], D);
        }
      } else {
        CollectEachBare(t, k, cs[1..], D);
      }
    }
  }

  // ---------------------------------------------------------------------------------
  // CollectPostFolders over a whole subtree

  /** j lies at or below k, and each step from k down to j goes to a linked child. */
  ghost predicate Reaches(t: Arena, k: Key, j: Key) {
    k <= j && forall i :: |k| <= i < |j| ==> j[i] in Get(t, j[..i]).children
  }

  /** Node j of r is node j of t once CollectPostFolders has scanned it without an
      exception: the posts found among its children appended, and the children it
      marked unlinked. */
  ghost predicate Collects(t: Arena, r: Arena, j: Key) {
    j in t && j in r &&
    var sc := ScanPosts(t, j, t[j].children);
    !sc.overflow && r[j].posts == t[j].posts + sc.posts
    && r[j].children == Without(t[j].children, sc.removed)
  }

  /** Every key of t is at most D long. */
  ghost predicate DepthAtMost(t: Arena, D: nat) {
    forall x :: x in t ==> |x| <= D
  }

  /** Judging a child looks only at what pruning keeps. */
  lemma {:induction false} ScanPruned(t: Arena, u: Arena, k: Key, cs: seq<string>)
    requires Pruned(t, u)
    ensures ScanPosts(u, k, cs) == ScanPosts(t, k, cs)
    decreases |cs|
  {
    if cs != [] {
      var x := k + [cs[0]];
      assert Get(u, x) == Get(t, x).(children := Get(u, x).children, posts := Get(u, x).posts);
      assert Judge(u, k, cs[0]) == Judge(t, k, cs[0]);
      ScanPruned(t, u, k, cs[1..]);
    }
  }

  /** Collects carries over to an earlier tree that pruning led to u, when node j was
      not touched on the way. */
  lemma CollectsBack(t: Arena, u: Arena, r: Arena, j: Key)
    requires Pruned(t, u) && j in t && u[j] == t[j] && Collects(u, r, j)
    ensures Collects(t, r, j)
  {
    ScanPruned(t, u, j, t[j].children);
  }

  /** CollectEach into the children cs of k leaves alone every node that is not below one
      of them. */
  lemma {:induction false} CollectEachOutside(t: Arena, k: Key, cs: seq<string>, D: nat, j: Key)
    requires |k| <= D && j in t
    requires forall c :: c in cs ==> !(k + [c] <= j)
    ensures var r := CollectEach(t, k, cs, D).tree;
      j in r && r[j] == t[j]
    decreases |cs|
  {
    if cs != [] {
      if |k| < D && k + [cs[0]] in t {
        var r := CollectAt(t, k + [cs[0]], D);
        CollectAtFrame(t, k + [cs[0]], D);
        if !r.overflow {
          CollectEachOutside(r.tree, k, cs[1..], D, j);
        }
      } else {
        CollectEachOutside(t, k, cs[1..], D, j);
      }
    }
  }

  /** Node k of t with the posts its scan finds appended and the children it marks
      unlinked. */
  function Scanned(t: Arena, k: Key): (u: Arena)
    requires k in t
    ensures u.Keys == t.Keys
  {
    var n := t[k];
    var sc := ScanPosts(t, k, n.children);
    t[k := n.(posts := n.posts + sc.posts, children := Without(n.children, sc.removed))]
  }

  /** CollectAt at k, when the scan of k throws nothing, is the recursion into the
      children of Scanned(t, k). */
  lemma CollectAtSplit(t: Arena, k: Key, D: nat)
    requires k in t && |k| <= D && !CollectAt(t, k, D).overflow
    ensures var u := Scanned(t, k);
      !ScanPosts(t, k, t[k].children).overflow
      && CollectAt(t, k, D) == CollectEach(u, k, u[k].children, D)
  {
    var n := t[k];
    var sc := ScanPosts(t, k, n.children);
    var kept := Without(n.children, sc.removed);
    SetTwice(t, k, n.(posts := n.posts + sc.posts), n.(posts := n.posts + sc.posts, children := kept));
  }

  lemma SetTwice(t: Arena, k: Key, a: Node, b: Node)
    ensures t[k := a][k := b] == t[k := b]
  {
  }

  /** Scanned(t, k) prunes t, changes nothing but k, and keeps the tree well formed. */
  lemma ScannedPrunes(t: Arena, k: Key)
    requires Valid(t) && k in t
    ensures var u := Scanned(t, k);
      Pruned(t, u) && Valid(u) && (forall x :: x in t && x != k ==> u[x] == t[x])
      && (forall c :: c in u[k].children ==> k + [c] in u)
      && DistinctNames(u[k].children)
  {
    var n := t[k];
    var sc := ScanPosts(t, k, n.children);
    var kept := Without(n.children, sc.removed);
    SetTwice(t, k, n.(posts := n.posts + sc.posts), n.(posts := n.posts + sc.posts, children := kept));
    ScanPrunes(t, k, sc.posts, sc.removed);
  }

  /** The first step from k towards j, when j lies strictly below k. */
  lemma ReachesStep(t: Arena, k: Key, j: Key) returns (c: string)
    requires Reaches(t, k, j) && j != k
    ensures c in Get(t, k).children && k + [c] <= j && Reaches(t, k + [c], j)
  {
    c := j[|k|];
    assert j[..|k|] == k;
    assert j[..|k| + 1] == k + [c];
  }

  /** A node CollectPostFolders(k) still reaches from k, in a tree where it threw nothing,
      was scanned as Collects says. */
  lemma {:induction false} CollectAtDone(t: Arena, k: Key, D: nat, j: Key)
    requires Valid(t) && DepthAtMost(t, D) && k in t && |k| <= D
    requires !CollectAt(t, k, D).overflow && Reaches(CollectAt(t, k, D).tree, k, j)
    ensures Collects(t, CollectAt(t, k, D).tree, j)
    decreases D - |k|, 1
  {
    var r := CollectAt(t, k, D).tree;
    CollectAtNode(t, k, D);
    if j != k {
      var u := Scanned(t, k);
      CollectAtSplit(t, k, D);
      ScannedPrunes(t, k);
      var c := ReachesStep(r, k, j);
      CollectEachDone(u, k, u[k].children, D, c, j);
      assert j in t;
      CollectsBack(t, u, r, j);
    }
  }

  lemma {:induction false} CollectEachDone(t: Arena, k: Key, cs: seq<string>, D: nat, c: string, j: Key)
    requires Valid(t) && DepthAtMost(t, D) && |k| <= D
    requires DistinctNames(cs) && c in cs && forall c' :: c' in cs ==> k + [c'] in t
    requires !CollectEach(t, k, cs, D).overflow && Reaches(CollectEach(t, k, cs, D).tree, k + [c], j)
    ensures Collects(t, CollectEach(t, k, cs, D).tree, j)
    decreases D - |k|, 0, |cs|
  {
    var c0 := cs[0];
    assert k + [c0] in t;
    var r0 := CollectAt(t, k + [c0], D);
    CollectAtFrame(t, k + [c0], D);
    CollectEachAdvance(t, k, cs, 0, D, r0);
    assert cs[0..] == cs && cs[0 + 1..] == cs[1..];
    var r := CollectEach(r0.tree, k, cs[1..], D);
    DistinctTail(cs);
    if c == c0 {
      LaterChildrenKeep(r0.tree, k, cs, D, j);
      CollectAtDone(t, k + [c], D, j);
    } else {
      PrunedValid(t, r0.tree);
      CollectEachDone(r0.tree, k, cs[1..], D, c, j);
      SiblingApart(k, c, c0, j);
      assert j in t;
      CollectsBack(t, r0.tree, r.tree, j);
    }
  }

  lemma DistinctTail(cs: seq<string>)
    requires DistinctNames(cs) && cs != []
    ensures DistinctNames(cs[1..]) && cs[0] !in cs[1..] && forall c :: c in cs[1..] ==> c in cs
  {
    forall a, b | 0 <= a < b < |cs[1..]| ensures cs[1..][a] != cs[1..][b] {
      assert cs[1..][a] == cs[a + 1] && cs[1..][b] == cs[b + 1];
    }
    forall i | 0 <= i < |cs[1..]| ensures cs[1..][i] != cs[0] {
      assert cs[1..][i] == cs[i + 1];
    }
  }

  /** Nodes below one child are not below a different one. */
  lemma SiblingApart(k: Key, c: string, c0: string, j: Key)
    requires k + [c] <= j && c != c0
    ensures !(k + [c0] <= j)
  {
    assert j[|k|] == c;
  }

  /** Once CollectAt has worked on the first child cs[0], the recursion into the other
      children leaves cs[0]'s subtree alone. */
  lemma LaterChildrenKeep(t: Arena, k: Key, cs: seq<string>, D: nat, j: Key)
    requires |k| <= D && cs != [] && cs[0] !in cs[1..]
    requires Reaches(CollectEach(t, k, cs[1..], D).tree, k + [cs[0]], j)
    ensures var r := CollectEach(t, k, cs[1..], D).tree;
      Reaches(t, k + [cs[0]], j) && (j in t ==> j in r && r[j] == t[j])
  {
    CollectEachFrame(t, k, cs[1..], D);
    var r := CollectEach(t, k, cs[1..], D).tree;
    var c := cs[0];
    forall i | |k| + 1 <= i <= |j|
      ensures Get(t, j[..i]) == Get(r, j[..i])
    {
      var x := j[..i];
      if x in t {
        forall c' | c' in cs[1..] ensures !(k + [c'] <= x) {
          SiblingApart(k, c, c', x);
        }
        CollectEachOutside(t, k, cs[1..], D, x);
      }
    }
    ReachesUnchanged(t, r, k + [c], j);
    if j in t {
      assert j[..|j|] == j;
    }
  }

  /** Reaching j from k looks only at the nodes on the way. */
  lemma ReachesUnchanged(u: Arena, r: Arena, k: Key, j: Key)
    requires Reaches(r, k, j)
    requires forall i :: |k| <= i < |j| ==> Get(u, j[..i]) == Get(r, j[..i])
    ensures Reaches(u, k, j)
  {
  }

  /** CollectPostFolders over the subtree of k: unless int.Parse threw, every node still
      reachable from k, k included, had its post folders taken out. None of its remaining
      children is a hidden post folder or a full "Post.N title" match, every other child
      is still there in its order, and each full match became exactly one PostEntry of
      that node, appended in child order. */
  lemma CollectAtSubtree(t: Arena, k: Key, D: nat, j: Key)
    requires Valid(t) && DepthAtMost(t, D) && k in t && |k| <= D
    requires !CollectAt(t, k, D).overflow && Reaches(CollectAt(t, k, D).tree, k, j)
    ensures var r := CollectAt(t, k, D).tree;
      j in t && j in r
      && r[j].posts == t[j].posts + PostsOf(t, j, t[j].children)
      && r[j].children == Without(t[j].children, UnlinkedOf(t, j, t[j].children))
      && forall c :: c in r[j].children <==> c in t[j].children && !Judge(t, j, c).Unlinks()
  {
    CollectAtDone(t, k, D, j);
    CollectsInOrder(t, CollectAt(t, k, D).tree, j);
  }

  /** What Collects says about node j, with the scan written as the filter-maps over all of
      j's children. */
  lemma CollectsInOrder(t: Arena, r: Arena, j: Key)
    requires Collects(t, r, j)
    ensures r[j].posts == t[j].posts + PostsOf(t, j, t[j].children)
    ensures r[j].children == Without(t[j].children, UnlinkedOf(t, j, t[j].children))
    ensures forall c :: c in r[j].children <==> c in t[j].children && !Judge(t, j, c).Unlinks()
  {
    var cs := t[j].children;
    ScanPostsInOrder(t, j, cs);
    ScanRemovedInOrder(t, j, cs);
    assert cs[..OverflowAt(t, j, cs)] == cs;
  }

  lemma UnadornedBare(t: Arena)
    requires Unadorned(t)
    ensures Bare(t)
  {
  }

  /** Unlinking children and appending posts keeps the tree well formed. */
  lemma PrunedValid(t: Arena, u: Arena)
    requires Valid(t) && Pruned(t, u)
    ensures Valid(u)
  {
    assert ParentsPresent(u) by {
      forall j, c | j + [c] in u
        ensures j in u && u[j + [c]].name == c
      {
        assert j + [c] in t;
      }
    }
    assert ChildrenPresent(u) by {
      forall j, c | j in u && c in u[j].children
        ensures j + [c] in u
      {
        assert c in t[j].children;
      }
    }
  }

  /** An upper bound on the length of the keys of t. */
  ghost function Bound(t: Arena): (d: nat)
    ensures forall k :: k in t ==> |k| <= d
    decreases |t.Keys|
  {
    if t == map[] then 0
    else
      var k :| k in t;
      var rest := t - {k};
      assert |rest.Keys| < |t.Keys| by {
        assert rest.Keys == t.Keys - {k};
      }
      var d := Bound(rest);
      if |k| > d then |k| else d
  }

  // ---------------------------------------------------------------------------------
  // Button descriptors

  /** Where a descriptor's button goes: a node's buttons, a post's buttons, or nowhere. */
  datatype Target = AtNode(key: Key) | AtPost(key: Key, index: nat) | Nowhere

  /** From k, follow the segments while each one is a linked child; the node reached. */
  function Deepest(t: Arena, k: Key, segs: seq<string>): Key
    decreases |segs|
  {
    if segs != [] && segs[0] in Get(t, k).children then Deepest(t, k + [segs[0]], segs[1..]) else k
  }

  /** The index of the first post with the given number (FirstOrDefault). */
  function FirstPostWith(posts: seq<PostEntry>, n: int): (r: Option<nat>)
    ensures r.Some? ==> r.value < |posts| && posts[r.value].number == n
    ensures r.Some? ==> forall i :: 0 <= i < r.value ==> posts[i].number != n
    ensures r.None? ==> forall i :: 0 <= i < |posts| ==> posts[i].number != n
    decreases |posts|
  {
    if posts == [] then None
    else if posts[0].number == n then Some(0)
    else match FirstPostWith(posts[1..], n)
      case None => None
      case Some(i) => Some(i + 1)
  }

  /** The target of the descriptor at path. The folder holding it decides: a post folder
      sends the button to the first post with its number on the folder above (nowhere if
      there is none, or if the number overflows); a folder named Header in any case sends
      it to the exact "Header" child of the folder above; any other folder sends it to the
      deepest linked node along the path. The folder above is itself the deepest linked
      node along the way. */
  function ButtonTarget(t: Arena, path: string): Target {
    var parts := Split(path, '/');
    var m := |parts|;
    var folder := if m >= 2 then parts[m - 2] else "";
    if m >= 2 && IsPostFolder(folder) then PostTarget(t, Deepest(t, [], parts[..m - 2]), folder)
    else if m >= 2 && EqualsIgnoreCase(folder, HeaderName) then HeaderTarget(t, Deepest(t, [], parts[..m - 2]))
    else AtNode(Deepest(t, [], parts[..m - 1]))
  }

  /** A descriptor under post folder `folder` of node g: the first post of g with the
      folder's number; nowhere when the number overflows or no post has it. */
  function PostTarget(t: Arena, g: Key, folder: string): Target
    requires IsPostFolder(folder)
  {
    match TryParseInt32(PostNumberDigits(folder))
    case None => Nowhere
    case Some(num) =>
      match FirstPostWith(Get(t, g).posts, num)
      case None => Nowhere
      case Some(i) => AtPost(g, i)
  }

  /** A descriptor under a Header folder of node g: g's Header child, if it has one. */
  function HeaderTarget(t: Arena, g: Key): Target {
    if HeaderName in Get(t, g).children then AtNode(g + [HeaderName]) else Nowhere
  }

  /** The button a descriptor makes: its name and order from the file name, its url the
      trimmed body. */
  function ButtonOf(path: string, body: string): ButtonEntry {
    var bn := ParseButtonName(LeafOf(path));
    ButtonEntry(bn.displayName, Trim(body), bn.order)
  }

  /** The buttons at a target. */
  function ButtonsAt(t: Arena, target: Target): seq<ButtonEntry> {
    match target
    case AtNode(key) => Get(t, key).buttons
    case AtPost(key, i) => if i < |Get(t, key).posts| then Get(t, key).posts[i].buttons else []
    case Nowhere => []
  }

  /** The target names something in t. */
  predicate Resolves(t: Arena, target: Target) {
    match target
    case AtNode(key) => key in t
    case AtPost(key, i) => key in t && i < |t[key].posts|
    case Nowhere => false
  }

  function Attach(t: Arena, target: Target, b: ButtonEntry): Arena {
    match target
    case AtNode(key) =>
      if key in t then t[key := t[key].(buttons := t[key].buttons + [b])] else t
    case AtPost(key, i) =>
      if key in t && i < |t[key].posts| then
        var ps := t[key].posts;
        t[key := t[key].(posts := ps[i := ps[i].(buttons := ps[i].buttons + [b])])]
      else t
    case Nowhere => t
  }

  /** Attaching to a node or a post that exists appends the button there. */
  lemma AttachAtNode(t: Arena, key: Key, b: ButtonEntry)
    requires key in t
    ensures Attach(t, AtNode(key), b) == t[key := t[key].(buttons := t[key].buttons + [b])]
  {
  }

  lemma AttachAtPost(t: Arena, key: Key, i: nat, b: ButtonEntry)
    requires key in t && i < |t[key].posts|
    ensures var ps := t[key].posts;
      Attach(t, AtPost(key, i), b) == t[key := t[key].(posts := ps[i := ps[i].(buttons := ps[i].buttons + [b])])]
  {
  }

  /** ProcessButtonFiles: the descriptors in order; bodies holds the text of each one
      whose fetch succeeded, and a descriptor without one adds nothing. */
  function ProcessButtons(t: Arena, files: seq<string>, bodies: map<string, string>): Arena
    decreases |files|
  {
    if files == [] then t
    else
      var f := files[0];
      var t1 := if f in bodies then Attach(t, ButtonTarget(t, f), ButtonOf(f, bodies[f])) else t;
      ProcessButtons(t1, files[1..], bodies)
  }

  /** The walk reaches a node below k along segs, every step of it a linked child, and
      stops only at the end of segs or at a segment that is not a child. */
  lemma {:induction false} DeepestIsDeepest(t: Arena, k: Key, segs: seq<string>)
    ensures var d := Deepest(t, k, segs);
      k <= d && |d| <= |k| + |segs| && d == k + segs[..|d| - |k|]
      && (forall i :: |k| <= i < |d| ==> d[i] in Get(t, d[..i]).children)
      && (|d| < |k| + |segs| ==> segs[|d| - |k|] !in Get(t, d).children)
    decreases |segs|
  {
    if segs != [] && segs[0] in Get(t, k).children {
      var k1 := k + [segs[0]];
      DeepestIsDeepest(t, k1, segs[1..]);
      var d := Deepest(t, k1, segs[1..]);
      assert d == k + segs[..|d| - |k|] by {
        assert segs[..|d| - |k|] == [segs[0]] + segs[1..][..|d| - |k1|];
      }
      forall i | |k| <= i < |d|
        ensures d[i] in Get(t, d[..i]).children
      {
        if i == |k| {
          assert d[..i] == k;
        }
      }
    }
  }

  lemma {:induction false} DeepestPresent(t: Arena, k: Key, segs: seq<string>)
    requires ChildrenPresent(t) && k in t
    ensures Deepest(t, k, segs) in t
    decreases |segs|
  {
    if segs != [] && segs[0] in Get(t, k).children {
      DeepestPresent(t, k + [segs[0]], segs[1..]);
    }
  }

  /** In a tree whose children are all present, a descriptor's target is either nowhere
      or something that exists. */
  lemma TargetResolves(t: Arena, path: string)
    requires [] in t && ChildrenPresent(t)
    ensures ButtonTarget(t, path) == Nowhere || Resolves(t, ButtonTarget(t, path))
  {
    var parts := Split(path, '/');
    var m := |parts|;
    if m >= 2 {
      DeepestPresent(t, [], parts[..m - 2]);
    }
    DeepestPresent(t, [], parts[..m - 1]);
  }

  /** A node with every button taken away, its posts' included. */
  function Strip(n: Node): Node {
    n.(buttons := [], posts := seq(|n.posts|, i requires 0 <= i < |n.posts| => n.posts[i].(buttons := [])))
  }

  /** t and u have the same nodes and differ at most in buttons. */
  ghost predicate SameShape(t: Arena, u: Arena) {
    u.Keys == t.Keys && forall j :: j in t ==> Strip(u[j]) == Strip(t[j])
  }

  /** Attaching a button to a target that exists appends it there and nowhere else, and
      changes nothing but buttons; a target that does not exist changes nothing. */
  lemma AttachEffect(t: Arena, target: Target, b: ButtonEntry)
    ensures var r := Attach(t, target, b);
      (Resolves(t, target) ==> ButtonsAt(r, target) == ButtonsAt(t, target) + [b])
      && (forall o :: Resolves(t, o) && o != target ==> ButtonsAt(r, o) == ButtonsAt(t, o))
      && (!Resolves(t, target) ==> r == t)
      && SameShape(t, r)
  {
    var r := Attach(t, target, b);
    if target.AtPost? && Resolves(t, target) {
      var key := target.key;
      var ps := t[key].posts;
      var ps2 := r[key].posts;
      assert |ps2| == |ps|;
      assert Strip(r[key]).posts == Strip(t[key]).posts;
    }
  }

  /** The button pass changes nothing but buttons. */
  lemma {:induction false} ProcessButtonsShape(t: Arena, files: seq<string>, bodies: map<string, string>)
    ensures SameShape(t, ProcessButtons(t, files, bodies))
    decreases |files|
  {
    if files != [] {
      var f := files[0];
      var t1 := if f in bodies then Attach(t, ButtonTarget(t, f), ButtonOf(f, bodies[f])) else t;
      if f in bodies {
        AttachEffect(t, ButtonTarget(t, f), ButtonOf(f, bodies[f]));
      }
      ProcessButtonsShape(t1, files[1..], bodies);
    }
  }

  lemma SameShapeValid(t: Arena, u: Arena)
    requires Valid(t) && SameShape(t, u)
    ensures Valid(u)
  {
    forall j | j in t
      ensures u[j].name == t[j].name && u[j].path == t[j].path && u[j].children == t[j].children
    {
      assert Strip(u[j]) == Strip(t[j]);
    }
  }

  /** Trees of the same shape agree on every node's children and on the numbers of its
      posts. */
  lemma SameShapeAt(t: Arena, u: Arena, k: Key)
    requires SameShape(t, u)
    ensures Get(u, k).children == Get(t, k).children
    ensures |Get(u, k).posts| == |Get(t, k).posts|
    ensures forall i :: 0 <= i < |Get(t, k).posts| ==> Get(u, k).posts[i].number == Get(t, k).posts[i].number
  {
    if k in t {
      var ps, qs := Strip(t[k]).posts, Strip(u[k]).posts;
      assert ps == qs;
      forall i | 0 <= i < |t[k].posts|
        ensures u[k].posts[i].number == t[k].posts[i].number
      {
        assert qs[i] == ps[i];
      }
    }
  }

  lemma {:induction false} DeepestSameShape(t: Arena, u: Arena, k: Key, segs: seq<string>)
    requires SameShape(t, u)
    ensures Deepest(u, k, segs) == Deepest(t, k, segs)
    decreases |segs|
  {
    SameShapeAt(t, u, k);
    if segs != [] && segs[0] in Get(t, k).children {
      DeepestSameShape(t, u, k + [segs[0]], segs[1..]);
    }
  }

  /** FirstPostWith looks only at the numbers of the posts. */
  lemma {:induction false} FirstPostSameNumbers(ps: seq<PostEntry>, qs: seq<PostEntry>, n: int)
    requires |ps| == |qs| && forall i :: 0 <= i < |ps| ==> ps[i].number == qs[i].number
    ensures FirstPostWith(ps, n) == FirstPostWith(qs, n)
    decreases |ps|
  {
    if ps != [] && ps[0].number != n {
      FirstPostSameNumbers(ps[1..], qs[1..], n);
    }
  }

  /** Buttons do not move targets: a descriptor's target, and whether it exists, are the
      same in trees of the same shape. */
  lemma TargetSameShape(t: Arena, u: Arena, path: string)
    requires SameShape(t, u)
    ensures ButtonTarget(u, path) == ButtonTarget(t, path)
  {
    var parts := Split(path, '/');
    var m := |parts|;
    DeepestSameShape(t, u, [], parts[..m - 1]);
    if m >= 2 {
      var g := Deepest(t, [], parts[..m - 2]);
      DeepestSameShape(t, u, [], parts[..m - 2]);
      SameShapeAt(t, u, g);
      var folder := parts[m - 2];
      if IsPostFolder(folder) {
        match TryParseInt32(PostNumberDigits(folder))
        case None =>
        case Some(num) =>
          FirstPostSameNumbers(Get(t, g).posts, Get(u, g).posts, num);
      }
    }
  }

  /** A target exists in one tree exactly when it exists in another of the same shape. */
  lemma ResolvesSameShape(t: Arena, u: Arena, o: Target)
    requires SameShape(t, u)
    ensures Resolves(u, o) == Resolves(t, o)
  {
    if o.AtPost? {
      SameShapeAt(t, u, o.key);
    }
  }

  /** The button descriptor f sends to target o of t: one when its fetch succeeded and
      its target is o, none otherwise. */
  function SentTo(t: Arena, f: string, bodies: map<string, string>, o: Target): (r: seq<ButtonEntry>)
    ensures |r| <= 1
    ensures r != [] <==> f in bodies && ButtonTarget(t, f) == o
    ensures r != [] ==> r == [ButtonOf(f, bodies[f])]
  {
    if f in bodies && ButtonTarget(t, f) == o then [ButtonOf(f, bodies[f])] else []
  }

  /** The buttons the descriptors in files send to target o of t, in their order. */
  function AddedAt(t: Arena, files: seq<string>, bodies: map<string, string>, o: Target): (r: seq<ButtonEntry>)
    ensures |r| <= |files|
    decreases |files|
  {
    if files == [] then [] else SentTo(t, files[0], bodies, o) + AddedAt(t, files[1..], bodies, o)
  }

  lemma {:induction false} AddedAtSameShape(t: Arena, u: Arena, files: seq<string>, bodies: map<string, string>, o: Target)
    requires SameShape(t, u)
    ensures AddedAt(u, files, bodies, o) == AddedAt(t, files, bodies, o)
    decreases |files|
  {
    if files != [] {
      TargetSameShape(t, u, files[0]);
      AddedAtSameShape(t, u, files[1..], bodies, o);
    }
  }

  /** The tree one descriptor of the button pass leaves. */
  function ButtonStepTree(t: Arena, f: string, bodies: map<string, string>): Arena {
    if f in bodies then Attach(t, ButtonTarget(t, f), ButtonOf(f, bodies[f])) else t
  }

  lemma ProcessButtonsUnfold(t: Arena, files: seq<string>, bodies: map<string, string>)
    requires files != []
    ensures ProcessButtons(t, files, bodies) == ProcessButtons(ButtonStepTree(t, files[0], bodies), files[1..], bodies)
  {
  }

  /** One descriptor of the button pass: the tree it leaves has the same shape, and the
      existing target o gains exactly what the descriptor sends to it. */
  lemma ButtonStep(t: Arena, f: string, bodies: map<string, string>, o: Target)
    requires Resolves(t, o)
    ensures SameShape(t, ButtonStepTree(t, f, bodies))
    ensures ButtonsAt(ButtonStepTree(t, f, bodies), o) == ButtonsAt(t, o) + SentTo(t, f, bodies, o)
  {
    if f in bodies {
      var target := ButtonTarget(t, f);
      AttachEffect(t, target, ButtonOf(f, bodies[f]));
    } else {
      assert ButtonsAt(t, o) + [] == ButtonsAt(t, o);
    }
  }

  /** The whole button pass: at every target that exists, the buttons after the pass are
      the ones before it followed by one button for each descriptor whose fetch succeeded
      and whose target it is, in descriptor order. A descriptor whose target is nowhere,
      or whose fetch failed, adds nothing anywhere. */
  lemma {:induction false} ProcessButtonsAdds(t: Arena, files: seq<string>, bodies: map<string, string>, o: Target)
    requires Resolves(t, o)
    ensures ButtonsAt(ProcessButtons(t, files, bodies), o) == ButtonsAt(t, o) + AddedAt(t, files, bodies, o)
    decreases |files|
  {
    if files != [] {
      var f, rest := files[0], files[1..];
      var t1 := ButtonStepTree(t, f, bodies);
      ProcessButtonsUnfold(t, files, bodies);
      ButtonStep(t, f, bodies, o);
      ResolvesSameShape(t, t1, o);
      ProcessButtonsAdds(t1, rest, bodies, o);
      AddedAtSameShape(t, t1, rest, bodies, o);
      AppendTwice(ButtonsAt(t, o), ButtonsAt(t1, o), ButtonsAt(ProcessButtons(t1, rest, bodies), o),
        SentTo(t, f, bodies, o), AddedAt(t, rest, bodies, o));
    }
  }

  lemma AppendTwice(x0: seq<ButtonEntry>, x1: seq<ButtonEntry>, x2: seq<ButtonEntry>, b: seq<ButtonEntry>, c: seq<ButtonEntry>)
    requires x1 == x0 + b && x2 == x1 + c
    ensures x2 == x0 + (b + c)
  {
  }

  // ---------------------------------------------------------------------------------
  // The three passes together

  /** What ParseTree leaves: the tree, and whether int.Parse threw in the post pass (which
      then ends ParseTree, so no button is attached). */
  datatype Parsed = Parsed(tree: Arena, overflow: bool)

  /** ParseTree over the listing, from tree t (the fresh root Refresh installs); bodies
      holds the fetched text of each descriptor whose fetch succeeded. */
  ghost function BuildTree(t: Arena, paths: seq<string>, bodies: map<string, string>): Parsed
    requires [] in t
  {
    var p := FirstPass(Pass(t, []), paths);
    FirstPassKeeps(Pass(t, []), paths, []);
    var c := CollectAt(p.tree, [], Bound(p.tree));
    if c.overflow then Parsed(c.tree, true)
    else Parsed(ProcessButtons(c.tree, p.buttonFiles, bodies), false)
  }

  lemma {:induction false} WalkKeeps(t: Arena, k: Key, segs: seq<string>, j: Key)
    requires j in t
    ensures j in Walk(t, k, segs).0
    decreases |segs|
  {
    if segs != [] {
      WalkKeeps(EnsureChild(t, k, segs[0]), k + [segs[0]], segs[1..], j);
    }
  }

  /** The first pass never drops a node. */
  lemma {:induction false} FirstPassKeeps(p: Pass, paths: seq<string>, j: Key)
    requires j in p.tree
    ensures j in FirstPass(p, paths).tree
    decreases |paths|
  {
    if paths != [] {
      var path := paths[0];
      if !StartsWithIgnoreCase(path, SkippedPrefix) {
        WalkKeeps(p.tree, [], FolderOf(path), j);
      }
      FirstPassKeeps(AddPath(p, path), paths[1..], j);
    }
  }

  /** Whatever the listing, the tree ParseTree builds from a fresh root is well formed. */
  lemma BuildTreeValid(t: Arena, paths: seq<string>, bodies: map<string, string>)
    requires Built(t)
    ensures Valid(BuildTree(t, paths, bodies).tree)
  {
    var p := FirstPass(Pass(t, []), paths);
    FirstPassBuilt(Pass(t, []), paths);
    var c := CollectAt(p.tree, [], Bound(p.tree));
    CollectAtFrame(p.tree, [], Bound(p.tree));
    PrunedValid(p.tree, c.tree);
    if !c.overflow {
      ProcessButtonsShape(c.tree, p.buttonFiles, bodies);
      SameShapeValid(c.tree, ProcessButtons(c.tree, p.buttonFiles, bodies));
    }
  }

  // ---------------------------------------------------------------------------------
  // Folder names in a built tree

  /** A key whose every segment could be a folder name read back from a path. */
  predicate NamedKey(k: Key) {
    forall i :: 0 <= i < |k| ==> k[i] != "" && '/' !in k[i]
  }

  ghost predicate NamedKeys(t: Arena) {
    forall k :: k in t ==> NamedKey(k)
  }

  /** A listed path whose folder segments are all non-empty (no "//" and no leading '/'
      before its last segment). */
  predicate NamedFolders(path: string) {
    "" !in FolderOf(path)
  }

  /** Split keeps empty pieces, so a path with two '/' in a row, such as "a//b.png", puts
      its file in a folder named "" below the first folder. */
  lemma EmptySegmentNamesFolder(x: string, y: string)
    requires '/' !in x && '/' !in y
    ensures var path := x + ['/'] + (['/'] + y);
      FolderOf(path) == [x, ""] && LeafOf(path) == y && !NamedFolders(path)
  {
    SplitKeepsEmptyPiece(x, y, '/');
  }

  /** The folder segments of a path never hold '/', and are non-empty when the path says so. */
  lemma FolderOfNamed(path: string)
    requires NamedFolders(path)
    ensures NamedKey(FolderOf(path))
  {
    var parts := Split(path, '/');
    var f := FolderOf(path);
    forall i | 0 <= i < |f|
      ensures f[i] != "" && '/' !in f[i]
    {
      assert f[i] == parts[i];
      assert f[i] in f;
    }
  }

  lemma NamedKeySnoc(k: Key, part: string)
    requires NamedKey(k) && part != "" && '/' !in part
    ensures NamedKey(k + [part])
  {
    forall i | 0 <= i < |k| + 1
      ensures (k + [part])[i] != "" && '/' !in (k + [part])[i]
    {
      if i < |k| {
        assert (k + [part])[i] == k[i];
      }
    }
  }

  /** Creating a child with a proper name under a properly named key adds only properly
      named keys. */
  lemma EnsureChildNamed(t: Arena, k: Key, part: string)
    requires NamedKeys(t) && NamedKey(k) && part != "" && '/' !in part
    ensures NamedKeys(EnsureChild(t, k, part))
  {
    NamedKeySnoc(k, part);
  }

  /** A walk through properly named segments adds only properly named keys, and ends at
      one. */
  lemma {:induction false} WalkNamed(t: Arena, k: Key, segs: seq<string>)
    requires NamedKeys(t) && NamedKey(k) && NamedKey(segs)
    ensures NamedKeys(Walk(t, k, segs).0) && NamedKey(Walk(t, k, segs).1)
    decreases |segs|
  {
    if segs != [] {
      assert segs[0] == segs[0 + 0];
      EnsureChildNamed(t, k, segs[0]);
      NamedKeySnoc(k, segs[0]);
      assert NamedKey(segs[1..]) by {
        forall i | 0 <= i < |segs[1..]|
          ensures segs[1..][i] != "" && '/' !in segs[1..][i]
        {
          assert segs[1..][i] == segs[i + 1];
        }
      }
      WalkNamed(EnsureChild(t, k, segs[0]), k + [segs[0]], segs[1..]);
    }
  }

  /** The first pass over a listing whose folder segments are all named adds only properly
      named keys. */
  lemma {:induction false} FirstPassNamed(p: Pass, paths: seq<string>)
    requires NamedKeys(p.tree) && forall i :: 0 <= i < |paths| ==> NamedFolders(paths[i])
    ensures NamedKeys(FirstPass(p, paths).tree)
    decreases |paths|
  {
    if paths != [] {
      var path := paths[0];
      if !StartsWithIgnoreCase(path, SkippedPrefix) {
        FolderOfNamed(path);
        WalkNamed(p.tree, [], FolderOf(path));
      }
      assert forall i :: 0 <= i < |paths[1..]| ==> paths[1..][i] == paths[i + 1];
      FirstPassNamed(AddPath(p, path), paths[1..]);
    }
  }

  /** From a tree whose keys are properly named (the fresh root, say), a listing none of
      whose paths has an empty folder segment builds a tree whose every key is made of
      non-empty names free of '/'. */
  lemma BuildTreeNamed(t: Arena, paths: seq<string>, bodies: map<string, string>)
    requires [] in t && NamedKeys(t)
    requires forall i :: 0 <= i < |paths| ==> NamedFolders(paths[i])
    ensures NamedKeys(BuildTree(t, paths, bodies).tree)
  {
    var p := FirstPass(Pass(t, []), paths);
    FirstPassNamed(Pass(t, []), paths);
    FirstPassKeeps(Pass(t, []), paths, []);
    var c := CollectAt(p.tree, [], Bound(p.tree));
    CollectAtFrame(p.tree, [], Bound(p.tree));
    SameKeysNamed(p.tree, c.tree);
    if !c.overflow {
      var r := ProcessButtons(c.tree, p.buttonFiles, bodies);
      ProcessButtonsShape(c.tree, p.buttonFiles, bodies);
      SameKeysNamed(c.tree, r);
    }
  }

  lemma SameKeysNamed(t: Arena, u: Arena)
    requires NamedKeys(t) && u.Keys == t.Keys
    ensures NamedKeys(u)
  {
    forall k | k in u
      ensures NamedKey(k)
    {
      assert k in t.Keys;
    }
  }
}
