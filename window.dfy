/** The editor window: the content tree it builds after each refresh, the breadcrumb of
    the folder shown, and the download queue. Its methods do step by step what the
    functions of ContentTree and Navigation describe, and each is proved to end in the
    state that function gives. */
module Window {
  import opened Text
  import opened Numbers
  import opened Naming
  import opened ContentTree
  import opened Navigation
  import Downloads

  /** What the tree request gives Refresh: the listing (its paths, and the text of each
      button descriptor whose fetch succeeded), an error status, or an exception. */
  datatype TreeResponse =
    | Listing(paths: seq<string>, bodies: map<string, string>)
    | HttpFailure(message: string)
    | Thrown(message: string)

  /** The message of the OverflowException int.Parse throws. */
  const OverflowMessage: string := "Value was either too large or too small for an Int32."

  /** The outcome of the default selection over tree t: when DefaultPick chooses a
      top-level folder, the view is where navigating to that folder's path leads and the
      download queue was cleared; otherwise view and queue are as they were. */
  ghost predicate DefaultSelected(le: NameOrder, t: Arena, before: View, queueBefore: Downloads.State,
                                  after: View, queueAfter: Downloads.State) {
    match DefaultPick(le, t, before.breadcrumb)
    case Some(c) => after == Navigate(le, t, Get(t, [c]).path) && queueAfter == Downloads.Cleared(queueBefore)
    case None => after == before && queueAfter == queueBefore
  }

  /** The outcome of a listing: the tree is the one BuildTree gives from a fresh root; an
      int.Parse overflow becomes the error and leaves view and queue alone, otherwise the
      error is cleared and the default selection runs from `before`. */
  ghost predicate ListingLoaded(le: NameOrder, paths: seq<string>, bodies: map<string, string>,
                                before: View, queueBefore: Downloads.State,
                                t: Arena, error: Option<string>, after: View, queueAfter: Downloads.State) {
    var p := BuildTree(EmptyTree, paths, bodies);
    t == p.tree
    && error == (if p.overflow then Some(OverflowMessage) else None)
    && (if p.overflow then after == before && queueAfter == queueBefore
        else DefaultSelected(le, t, before, queueBefore, after, queueAfter))
  }

  lemma ListingLoadedFrom(le: NameOrder, paths: seq<string>, bodies: map<string, string>,
                          before: View, queueBefore: Downloads.State, t: Arena, overflow: bool,
                          error: Option<string>, after: View, queueAfter: Downloads.State)
    requires Parsed(t, overflow) == BuildTree(EmptyTree, paths, bodies)
    requires error == (if overflow then Some(OverflowMessage) else None)
    requires overflow ==> after == before && queueAfter == queueBefore
    requires !overflow ==> DefaultSelected(le, t, before, queueBefore, after, queueAfter)
    ensures ListingLoaded(le, paths, bodies, before, queueBefore, t, error, after, queueAfter)
  {
  }

  class NewsWindow {
    var nodes: Arena
    var breadcrumb: seq<string>
    var current: Key
    var lastApiError: Option<string>
    const downloads: Downloads.DownloadQueue
    /** The culture's comparison of folder names, used to pick the first sub-folder. */
    const nameOrder: NameOrder

    ghost predicate Valid()
      reads this, downloads
    {
      ContentTree.Valid(nodes) && downloads.Valid()
    }

    constructor (nameOrder: NameOrder)
      ensures Valid() && fresh(downloads) && this.nameOrder == nameOrder
      ensures nodes == EmptyTree && breadcrumb == [] && current == [] && lastApiError == None
      ensures downloads.Model() == Downloads.Initial
    {
      nodes := EmptyTree;
      breadcrumb := [];
      current := [];
      lastApiError := None;
      downloads := new Downloads.DownloadQueue();
      this.nameOrder := nameOrder;
    }

    // -------------------------------------------------------------------------------
    // Refresh and ParseTree

    /** Refresh: a fresh root and an empty breadcrumb, then the response. A listing is
        parsed; when that throws, the message is kept as the error, otherwise the error
        is cleared and the default selection runs. The shown node is left as it was. */
    method Refresh(response: TreeResponse)
      requires Valid()
      modifies this, downloads
      ensures Valid()
      ensures response.Listing? ==>
        ListingLoaded(nameOrder, response.paths, response.bodies, View([], old(current)), old(downloads.Model()),
                      nodes, lastApiError, View(breadcrumb, current), downloads.Model())
      ensures !response.Listing? ==>
        nodes == EmptyTree && breadcrumb == [] && current == old(current)
        && lastApiError == Some(response.message)
        && downloads.Model() == old(downloads.Model())
    {
      ghost var queue0 := downloads.Model();
      lastApiError := None;
      nodes := EmptyTree;
      breadcrumb := [];
      EmptyTreeBuilt();
      assert downloads.Model() == queue0 && downloads.Valid();
      match response
      case HttpFailure(message) =>
        lastApiError := Some(message);
      case Thrown(message) =>
        lastApiError := Some(message);
      case Listing(paths, bodies) =>
        LoadListing(paths, bodies);
    }

    /** The guarded part of Refresh once the listing arrived: parse it into the fresh
        tree; an overflow becomes the error, otherwise the error is cleared and the
        default selection runs. */
    method LoadListing(paths: seq<string>, bodies: map<string, string>)
      requires nodes == EmptyTree && breadcrumb == [] && downloads.Valid()
      modifies this, downloads
      ensures Valid()
      ensures ListingLoaded(nameOrder, paths, bodies, View([], old(current)), old(downloads.Model()),
                            nodes, lastApiError, View(breadcrumb, current), downloads.Model())
    {
      ghost var queue0 := downloads.Model();
      ghost var before := View([], current);
      EmptyTreeBuilt();
      var overflow := ParseTree(paths, bodies);
      assert downloads.Model() == queue0 && downloads.Valid();
      ReportListing(overflow);
      ListingLoadedFrom(nameOrder, paths, bodies, before, queue0, nodes, overflow, lastApiError,
                        View(breadcrumb, current), downloads.Model());
    }

    /** The end of ParseTree's caller: an overflow becomes the error; otherwise the error
        is cleared and the default selection runs. */
    method ReportListing(overflow: bool)
      requires Valid()
      modifies this, downloads
      ensures Valid() && nodes == old(nodes)
      ensures lastApiError == (if overflow then Some(OverflowMessage) else None)
      ensures overflow ==> View(breadcrumb, current) == View(old(breadcrumb), old(current))
                           && downloads.Model() == old(downloads.Model())
      ensures !overflow ==> DefaultSelected(nameOrder, nodes, View(old(breadcrumb), old(current)), old(downloads.Model()),
                                            View(breadcrumb, current), downloads.Model())
    {
      if overflow {
        lastApiError := Some(OverflowMessage);
      } else {
        lastApiError := None;
        SelectDefault();
      }
    }

    /** ParseTree: the first pass over the listing, the post folders, then the button
        descriptors. An int.Parse overflow among the post folders ends it early. */
    method ParseTree(paths: seq<string>, bodies: map<string, string>) returns (overflow: bool)
      requires Built(nodes)
      modifies this`nodes
      ensures Parsed(nodes, overflow) == BuildTree(old(nodes), paths, bodies)
      ensures ContentTree.Valid(nodes)
    {
      ghost var t0 := nodes;
      var files: seq<string> := [];
      var i := 0;
      while i < |paths|
        invariant 0 <= i <= |paths|
        invariant FirstPass(Pass(nodes, files), paths[i..]) == FirstPass(Pass(t0, []), paths)
      {
        assert paths[i..][1..] == paths[i + 1..];
        files := InsertPath(paths[i], files);
        i := i + 1;
      }
      assert paths[i..] == [];
      FirstPassBuilt(Pass(t0, []), paths);
      ghost var t1 := nodes;
      overflow := CollectPostFolders([], Bound(nodes));
      CollectAtFrame(t1, [], Bound(t1));
      PrunedValid(t1, nodes);
      if !overflow {
        ProcessButtonFiles(files, bodies);
      }
      BuildTreeValid(t0, paths, bodies);
    }

    /** One path of the first pass: walk the folders, creating the missing ones, then
        act on the last segment (a descriptor is remembered for the third pass). */
    method InsertPath(path: string, buttonFiles: seq<string>) returns (files: seq<string>)
      modifies this`nodes
      ensures Pass(nodes, files) == AddPath(Pass(old(nodes), buttonFiles), path)
    {
      AddPathIsFile(Pass(nodes, buttonFiles), path);
      files := buttonFiles;
      if StartsWithIgnoreCase(path, SkippedPrefix) {
        return;
      }
      files := InsertFile(path, buttonFiles);
    }

    /** A path that is not skipped: its folders, then its last segment. */
    method InsertFile(path: string, buttonFiles: seq<string>) returns (files: seq<string>)
      modifies this`nodes
      ensures Pass(nodes, files) == AddFile(Pass(old(nodes), buttonFiles), FolderOf(path), ClassifyLeaf(LeafOf(path)), path)
    {
      ghost var p0 := Pass(nodes, buttonFiles);
      files := buttonFiles;
      var parts := Split(path, '/');
      var cur := EnsureFolders(parts[..|parts| - 1]);
      var leaf := parts[|parts| - 1];
      if IsButtonFile(leaf) {
        files := files + [path];
        assert Pass(nodes, files) == AddFile(p0, FolderOf(path), ClassifyLeaf(LeafOf(path)), path) by {
          DescriptorLeaf(leaf);
          AddFileSplit(p0, FolderOf(path), ClassifyLeaf(leaf), path);
        }
      } else {
        MarkFolder(cur, leaf, path);
        assert Pass(nodes, files) == AddFile(p0, FolderOf(path), ClassifyLeaf(LeafOf(path)), path) by {
          DescriptorLeaf(leaf);
          AddFileSplit(p0, FolderOf(path), ClassifyLeaf(leaf), path);
        }
      }
    }

    /** The folder segments of a path, from the root: each missing child is created and
        linked; the folder reached. */
    method EnsureFolders(folders: seq<string>) returns (cur: Key)
      modifies this`nodes
      ensures (nodes, cur) == Walk(old(nodes), [], folders)
    {
      ghost var w := Walk(nodes, [], folders);
      cur := [];
      var i := 0;
      while i < |folders|
        invariant 0 <= i <= |folders|
        invariant Walk(nodes, cur, folders[i..]) == w
      {
        var part := folders[i];
        assert folders[i..][1..] == folders[i + 1..];
        var n := Get(nodes, cur);
        if part !in n.children {
          nodes := nodes[cur := n.(children := n.children + [part])][cur + [part] := Fresh(part, ChildPath(n.path, part))];
        }
        cur := cur + [part];
        i := i + 1;
      }
      assert folders[i..] == [];
    }

    /** A last segment that is not a descriptor: Hide.txt hides the folder, a colour name
        colours it, an image file is added to its images. */
    method MarkFolder(cur: Key, leaf: string, path: string)
      requires !IsButtonFile(leaf)
      modifies this`nodes
      ensures nodes == ApplyLeaf(old(nodes), cur, ClassifyLeaf(leaf), path)
    {
      var n := Get(nodes, cur);
      if leaf == HideFileName {
        HideEffect(nodes, cur, leaf, path);
        nodes := nodes[cur := n.(hidden := true)];
      } else {
        var col := TryParseColorFromName(WithoutExtension(leaf));
        if col.ok {
          ColorEffect(nodes, cur, leaf, path);
          nodes := nodes[cur := n.(hasColor := true, bgColor := col.color)];
        } else if IsImageFile(leaf) {
          ImageEffect(nodes, cur, leaf, path);
          nodes := nodes[cur := n.(imagePaths := n.imagePaths + [path])];
        } else {
          IgnoredEffect(nodes, cur, leaf, path);
        }
      }
    }

    /** CollectPostFolders(node k): the scan of k's children, the unlinking of the post
        folders it found, then the recursion into the children that are left. D is a
        ghost bound on key length. */
    method CollectPostFolders(k: Key, ghost D: nat) returns (overflow: bool)
      requires ContentTree.Valid(nodes) && k in nodes
      requires forall j :: j in nodes ==> |j| <= D
      modifies this`nodes
      ensures Collected(nodes, overflow) == CollectAt(old(nodes), k, D)
      decreases D - |k|, 1
    {
      ghost var t0 := nodes;
      var removed, stop := ScanChildren(k);
      if stop {
        return true;
      }
      ScanPrunes(t0, k, ScanPosts(t0, k, t0[k].children).posts, removed);
      nodes := nodes[k := nodes[k].(children := Without(nodes[k].children, removed))];
      overflow := CollectChildren(k, D);
    }

    /** The loop of CollectPostFolders over the children of k that are left, each visited
        in turn until one reports an exception. */
    method CollectChildren(k: Key, ghost D: nat) returns (overflow: bool)
      requires ContentTree.Valid(nodes) && k in nodes
      requires forall j :: j in nodes ==> |j| <= D
      modifies this`nodes
      ensures Collected(nodes, overflow) == CollectEach(old(nodes), k, old(nodes)[k].children, D)
      decreases D - |k|, 0
    {
      ghost var t0 := nodes;
      var kept := nodes[k].children;
      var i := 0;
      assert kept[i..] == kept;
      while i < |kept|
        invariant 0 <= i <= |kept|
        invariant ContentTree.Valid(nodes) && nodes.Keys == t0.Keys && k in nodes && nodes[k].children == kept
        invariant CollectEach(nodes, k, kept[i..], D) == CollectEach(t0, k, kept, D)
      {
        ghost var before := nodes;
        var stopped := CollectPostFolders(k + [kept[i]], D);
        CollectEachAdvance(before, k, kept, i, D, Collected(nodes, stopped));
        CollectAtFrame(before, k + [kept[i]], D);
        PrunedValid(before, nodes);
        if stopped {
          return true;
        }
        i := i + 1;
      }
      assert kept[i..] == [];
      return false;
    }

    /** The scan loop of CollectPostFolders over a copy of k's children: a hidden post
        folder is marked for removal, a full post match becomes a post of k (with the
        folder's images and buttons) and is marked too, and an int.Parse overflow ends
        the scan. */
    method ScanChildren(k: Key) returns (removed: seq<string>, overflow: bool)
      requires k in nodes
      modifies this`nodes
      ensures var sc := ScanPosts(old(nodes), k, old(nodes)[k].children);
        nodes == old(nodes)[k := old(nodes)[k].(posts := old(nodes)[k].posts + sc.posts)]
        && removed == sc.removed && overflow == sc.overflow
    {
      ghost var t0 := nodes;
      var cs := nodes[k].children;
      removed := [];
      ghost var added: seq<PostEntry> := [];
      var j := 0;
      ScanStart(t0, k, cs);
      NoPostsAppended(t0, k);
      while j < |cs|
        invariant 0 <= j <= |cs|
        invariant nodes == t0[k := t0[k].(posts := t0[k].posts + added)]
        invariant ScanSoFar(t0, k, cs, j, added, removed)
      {
        var c := cs[j];
        var verdict := JudgeChild(k, c);
        JudgeReadsChild(nodes, t0, k, c);
        ScanAdvance(t0, k, cs, j, added, removed);
        match verdict {
          case Stays =>
          case Dropped =>
            removed := removed + [c];
          case Posted(post) =>
            PostsAppended(t0, k, added, post);
            nodes := nodes[k := nodes[k].(posts := nodes[k].posts + [post])];
            added := added + [post];
            removed := removed + [c];
          case Overflows =>
            return removed, true;
        }
        j := j + 1;
      }
      ScanDone(t0, k, cs, added, removed);
      overflow := false;
    }

    /** What the scan makes of child c of k: a hidden post folder is dropped, a full post
        match becomes a post with the folder's images and buttons, an int.Parse overflow
        is reported, and anything else stays. */
    method JudgeChild(k: Key, c: string) returns (verdict: Verdict)
      ensures verdict == Judge(nodes, k, c)
    {
      if !IsPostFolder(c) {
        return Stays;
      }
      var child := Get(nodes, k + [c]);
      if child.hidden {
        return Dropped;
      }
      match PostFolderMatch(c)
      case None =>
        return Stays;
      case Some(pm) =>
        match ReadPostName(pm)
        case None =>
          return Overflows;
        case Some(h) =>
          return Posted(PostEntry(h.number, h.title, child.imagePaths, child.buttons));
    }

    /** ProcessButtonFiles: each descriptor whose body was fetched adds its button. */
    method ProcessButtonFiles(files: seq<string>, bodies: map<string, string>)
      requires ContentTree.Valid(nodes)
      modifies this`nodes
      ensures nodes == ProcessButtons(old(nodes), files, bodies)
    {
      ghost var t0 := nodes;
      var i := 0;
      while i < |files|
        invariant 0 <= i <= |files|
        invariant ContentTree.Valid(nodes)
        invariant ProcessButtons(nodes, files[i..], bodies) == ProcessButtons(t0, files, bodies)
      {
        var f := files[i];
        assert files[i..][1..] == files[i + 1..];
        if f in bodies {
          ghost var before := nodes;
          AttachButton(f, bodies[f]);
          AttachEffect(before, ButtonTarget(before, f), ButtonOf(f, bodies[f]));
          SameShapeValid(before, nodes);
        }
        i := i + 1;
      }
      assert files[i..] == [];
    }

    /** From the root, follow segs while each one is a child; the node reached. */
    method WalkDown(segs: seq<string>) returns (d: Key)
      ensures d == Deepest(nodes, [], segs)
    {
      d := [];
      var i := 0;
      while i < |segs|
        invariant 0 <= i <= |segs|
        invariant Deepest(nodes, d, segs[i..]) == Deepest(nodes, [], segs)
      {
        if segs[i] !in Get(nodes, d).children {
          return;
        }
        assert segs[i..][1..] == segs[i + 1..];
        d := d + [segs[i]];
        i := i + 1;
      }
    }

    /** The body of the loop of ProcessButtonFiles for one fetched descriptor: the
        button goes where FindTarget says. */
    method AttachButton(path: string, body: string)
      requires ContentTree.Valid(nodes)
      modifies this`nodes
      ensures nodes == Attach(old(nodes), ButtonTarget(old(nodes), path), ButtonOf(path, body))
    {
      var button := ButtonOf(path, body);
      var target := FindTarget(path);
      TargetResolves(nodes, path);
      AppendButton(target, button);
    }

    /** Appends the button at the node or post the target names; a target that names
        nothing changes nothing. */
    method AppendButton(target: Target, button: ButtonEntry)
      requires target == Nowhere || Resolves(nodes, target)
      modifies this`nodes
      ensures nodes == Attach(old(nodes), target, button)
    {
      match target
      case AtNode(key) =>
        AttachAtNode(nodes, key, button);
        nodes := nodes[key := nodes[key].(buttons := nodes[key].buttons + [button])];
      case AtPost(key, i) =>
        AttachAtPost(nodes, key, i, button);
        var posts := nodes[key].posts;
        nodes := nodes[key := nodes[key].(posts := posts[i := posts[i].(buttons := posts[i].buttons + [button])])];
      case Nowhere =>
    }

    /** Where a descriptor's button goes: under a post folder, the first post with its
        number on the folder above; under a Header folder, the Header child of the folder
        above; otherwise the deepest linked folder along the path. */
    method FindTarget(path: string) returns (target: Target)
      ensures target == ButtonTarget(nodes, path)
    {
      var parts := Split(path, '/');
      var m := |parts|;
      var folderName := if m >= 2 then parts[m - 2] else "";
      if m >= 2 && IsPostFolder(folderName) {
        var actualParent := WalkDown(parts[..m - 2]);
        target := FindPost(actualParent, folderName);
      } else if m >= 2 && EqualsIgnoreCase(folderName, HeaderName) {
        var actualParent := WalkDown(parts[..m - 2]);
        target := if HeaderName in Get(nodes, actualParent).children then AtNode(actualParent + [HeaderName]) else Nowhere;
      } else {
        var parentNode := WalkDown(parts[..m - 1]);
        target := AtNode(parentNode);
      }
    }

    /** The post-folder case of FindTarget: the first post of g whose number is the one
        in the folder name. */
    method FindPost(g: Key, folderName: string) returns (target: Target)
      requires IsPostFolder(folderName)
      ensures target == PostTarget(nodes, g, folderName)
    {
      match TryParseInt32(PostNumberDigits(folderName))
      case None =>
        target := Nowhere;
      case Some(postNum) =>
        var posts := Get(nodes, g).posts;
        var idx := 0;
        while idx < |posts| && posts[idx].number != postNum
          invariant 0 <= idx <= |posts|
          invariant forall q :: 0 <= q < idx ==> posts[q].number != postNum
        {
          idx := idx + 1;
        }
        target := if idx < |posts| then AtPost(g, idx) else Nowhere;
    }

    // -------------------------------------------------------------------------------
    // Navigation

    /** GetNodeByBreadcrumb: the node the breadcrumb names, or the root. */
    method GetNodeByBreadcrumb() returns (r: Key)
      ensures r == NodeByBreadcrumb(nodes, breadcrumb)
    {
      var cur: Key := [];
      var i := 0;
      while i < |breadcrumb|
        invariant 0 <= i <= |breadcrumb|
        invariant Lookup(nodes, cur, breadcrumb[i..]) == Lookup(nodes, [], breadcrumb)
      {
        var b := breadcrumb[i];
        assert breadcrumb[i..][1..] == breadcrumb[i + 1..];
        if b !in Get(nodes, cur).children {
          return [];
        }
        cur := cur + [b];
        i := i + 1;
      }
      assert breadcrumb[i..] == [];
      return cur;
    }

    /** SetCurrentByPath: stop the downloads, show the folder the path names and, when it
        has no images but has children, go down through first eligible children. */
    method SetCurrentByPath(path: string)
      requires Valid()
      modifies this, downloads
      ensures Valid() && nodes == old(nodes) && lastApiError == old(lastApiError)
      ensures View(breadcrumb, current) == Navigate(nameOrder, nodes, path)
      ensures downloads.Model() == Downloads.Cleared(old(downloads.Model()))
    {
      downloads.Clear();
      if path == "" {
        breadcrumb := [];
        current := [];
        return;
      }
      breadcrumb := SplitNonEmpty(path, '/');
      current := GetNodeByBreadcrumb();
      ReachedPresent(nodes, breadcrumb);
      if nodes[current].imagePaths == [] && nodes[current].children != [] {
        var cur := current;
        ghost var target := Descend(nameOrder, nodes, current);
        while nodes[cur].imagePaths == []
          invariant cur in nodes && Descend(nameOrder, nodes, cur) == target
          decreases Bound(nodes) - |cur|
        {
          var next := FirstEligible(nameOrder, nodes, cur);
          if next.None? {
            break;
          }
          cur := cur + [next.value];
          if nodes[cur].children == [] && nodes[cur].imagePaths == [] {
            break;
          }
        }
        assert cur == target;
        if cur != current {
          breadcrumb := SplitNonEmpty(nodes[cur].path, '/');
          current := cur;
        }
      }
    }

    /** The default selection: with an empty breadcrumb and a root that has children,
        open the first eligible top-level folder. */
    method SelectDefault()
      requires Valid()
      modifies this, downloads
      ensures Valid() && nodes == old(nodes) && lastApiError == old(lastApiError)
      ensures DefaultSelected(nameOrder, nodes, View(old(breadcrumb), old(current)), old(downloads.Model()),
                              View(breadcrumb, current), downloads.Model())
    {
      if breadcrumb == [] && nodes[[]].children != [] {
        var pick := FirstEligible(nameOrder, nodes, []);
        if pick.Some? {
          assert [] + [pick.value] == [pick.value];
          SetCurrentByPath(nodes[[pick.value]].path);
        }
      }
    }

    /** The start of OnGUI: the node the breadcrumb names becomes current, then the
        default selection. */
    method SyncSelection()
      requires Valid()
      modifies this, downloads
      ensures Valid() && nodes == old(nodes) && lastApiError == old(lastApiError)
      ensures DefaultSelected(nameOrder, nodes, View(old(breadcrumb), NodeByBreadcrumb(nodes, old(breadcrumb))),
                              old(downloads.Model()), View(breadcrumb, current), downloads.Model())
    {
      current := GetNodeByBreadcrumb();
      SelectDefault();
    }

    /** GetSortedChildren: the shown children of k in child order, then sorted. */
    method GetSortedChildren(k: Key) returns (r: seq<SortedEntry>)
      ensures r == SortedChildren(nodes, k)
    {
      var list := ShownChildren(k);
      SortedChildrenSorts(nodes, k);
      r := SortEntries(list);
    }

    /** The loop of GetSortedChildren: the entries of the children that are not Header,
        not hidden and not post folders, in child order. */
    method ShownChildren(k: Key) returns (list: seq<SortedEntry>)
      ensures list == Entries(nodes, k, Get(nodes, k).children)
    {
      var cs := Get(nodes, k).children;
      list := [];
      var i := 0;
      assert cs[i..] == cs;
      while i < |cs|
        invariant 0 <= i <= |cs|
        invariant Entries(nodes, k, cs) == list + Entries(nodes, k, cs[i..])
      {
        var c := cs[i];
        EntriesAdvance(nodes, k, cs, i, list);
        if Shown(nodes, k, c) {
          list := list + [EntryOf(k, c)];
        }
        i := i + 1;
      }
      assert cs[i..] == [];
    }

    /** GetTopLevelName: none for the root, otherwise the name of the top-level folder
        above the node (the node's first segment). */
    method GetTopLevelName(node: Key) returns (r: Option<string>)
      requires ContentTree.Valid(nodes) && node in nodes
      ensures node == [] ==> r == None
      ensures node != [] ==> r == Some(node[0])
    {
      if node == [] {
        return None;
      }
      var cur := node;
      while |cur| > 1
        invariant 1 <= |cur| <= |node| && cur == node[..|cur|] && cur in nodes
      {
        ParentOf(nodes, cur);
        cur := cur[..|cur| - 1];
      }
      ParentOf(nodes, cur);
      r := Some(nodes[cur].name);
    }

    /** GetNodeAtDepth: the root for a level of 0 or less; otherwise the node the first
        level segments of the breadcrumb name (all of it when it is shorter). */
    method GetNodeAtDepth(level: int) returns (r: Key)
      ensures level <= 0 ==> r == []
      ensures level > 0 ==> r == NodeByBreadcrumb(nodes, breadcrumb[..if level < |breadcrumb| then level else |breadcrumb|])
    {
      if level <= 0 {
        return [];
      }
      ghost var n := if level < |breadcrumb| then level else |breadcrumb|;
      var cur: Key := [];
      var i := 0;
      while i < level
        invariant 0 <= i <= n
        invariant Lookup(nodes, cur, breadcrumb[i..n]) == Lookup(nodes, [], breadcrumb[..n])
      {
        if i >= |breadcrumb| {
          break;
        }
        var b := breadcrumb[i];
        assert breadcrumb[i..n][1..] == breadcrumb[i + 1..n];
        if b !in Get(nodes, cur).children {
          return [];
        }
        cur := cur + [b];
        i := i + 1;
      }
      assert breadcrumb[i..n] == [];
      return cur;
    }

    /** FindNearestHeaderNode: from start up to the root, the first folder with a child
        named exactly Header; that child. */
    method FindNearestHeaderNode(start: Key) returns (r: Option<Key>)
      ensures r.Some? ==>
        |r.value| >= 1 && |r.value| - 1 <= |start|
        && r.value == start[..|r.value| - 1] + [HeaderName]
        && HeaderName in Get(nodes, start[..|r.value| - 1]).children
        && forall i :: |r.value| - 1 < i <= |start| ==> HeaderName !in Get(nodes, start[..i]).children
      ensures r.None? ==> forall i :: 0 <= i <= |start| ==> HeaderName !in Get(nodes, start[..i]).children
      ensures Valid() && r.Some? ==> r.value in nodes
    {
      var i := |start|;
      while true
        invariant 0 <= i <= |start|
        invariant forall q :: i < q <= |start| ==> HeaderName !in Get(nodes, start[..q]).children
        decreases i
      {
        if HeaderName in Get(nodes, start[..i]).children {
          assert start[..i] in nodes by {
            assert Blank.children == [];
          }
          return Some(start[..i] + [HeaderName]);
        }
        if i == 0 {
          return None;
        }
        i := i - 1;
      }
    }

    /** FindNearestColorNode: from start up to the root, the first folder with a
        background colour. */
    method FindNearestColorNode(start: Key) returns (r: Option<Key>)
      ensures r.Some? ==>
        r.value <= start && Get(nodes, r.value).hasColor
        && forall i :: |r.value| < i <= |start| ==> !Get(nodes, start[..i]).hasColor
      ensures r.None? ==> forall i :: 0 <= i <= |start| ==> !Get(nodes, start[..i]).hasColor
    {
      var i := |start|;
      while true
        invariant 0 <= i <= |start|
        invariant forall q :: i < q <= |start| ==> !Get(nodes, start[..q]).hasColor
        decreases i
      {
        if Get(nodes, start[..i]).hasColor {
          return Some(start[..i]);
        }
        if i == 0 {
          return None;
        }
        i := i - 1;
      }
    }
  }
}
