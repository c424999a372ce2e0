# The News window, modelled in Dafny

The News is a Unity editor window. It shows a GitHub repository of news posts as a
folder browser. On every refresh it fetches the repository's file listing and builds a
content tree from the paths:

- folders become nodes;
- `Hide.txt` hides a folder;
- a `Color #RRGGBB` file gives a folder its background colour;
- image files become a folder's pictures;
- `Post.N title` folders are folded into numbered posts of their parent;
- `Button … .txt` descriptors become link buttons on a folder, a post or a header.

The window then opens the first top-level folder, by raw name, that is neither Header
nor hidden. This need not be the folder the sub-folder list shows first: "10.News"
sorts before "2.About" by raw name. From there it descends through image-less folders
until one has images or the descent cannot continue. A breadcrumb names the folder
shown, and sub-folders are listed by their `N.` ordering prefix and then by name. Images are
fetched through a download queue with a texture cache. A cancellation scope is renewed
whenever the page changes. At project load a start-up check decides, from the latest
commit and the stored one, whether the window opens by itself.

The model is organised by the window's own concerns:

- `text.dfy` (module `Text`): the .NET string operations the window relies on, with
  their .NET meaning. These are `Trim`, `TrimStart`, `IndexOf`, `Split`, `Replace`,
  ordinal and ignore-case comparison, and the `\s`/`\w` classes.
- `numbers.dfy` (`Numbers`): `Int32.TryParse`, decimal rendering, and two-digit
  hexadecimal bytes.
- `naming.dfy` (`Naming`): the naming conventions. These are the `N.` ordering prefix,
  colour markers, post folders, image and descriptor files, and the button descriptor
  names.
- `codeupdate.dfy` (`CodeUpdate`): `NormalizeCode`, `CheckForCodeUpdates` and the
  start-up decision.
- `tree.dfy` (`ContentTree`): the content tree and the three passes of `ParseTree`.
  - The tree is an arena: a map from the key of a node (its path segments) to the node.
  - Each node keeps its children's names in the order the source's `Dictionary`
    enumerates them.
  - The passes are specification functions: `FirstPass`, `CollectAt`/`CollectEach`
    (`CollectPostFolders`) and `ProcessButtons`. `BuildTree` puts them together.
- `navigation.dfy` (`Navigation`): `GetSortedChildren`, `GetNodeByBreadcrumb`, the
  automatic descent and `SetCurrentByPath`, and the default selection.
- `downloads.dfy` (`Downloads`): the download queue.
  - Each step is a function on an explicit state: `Cleared`, `Queued`, `Drained`,
    `Advanced`, `Settled` and `Completed`.
  - A drain loop waiting on a fetch is a pending fetch that remembers its cancellation
    scope.
  - The class `DownloadQueue` holds the window's fields. Its methods are proved to
    reach the state those functions give.
- `window.dfy` (`Window`): the class `NewsWindow`. It holds the tree, the breadcrumb,
  the current node, the last error and the download queue. Its methods do step by step
  what the source's methods do: `Refresh`, `ParseTree`, `CollectPostFolders`,
  `ProcessButtonFiles`, `SetCurrentByPath`, the default selection, and the lookups the
  window draws with. Each is proved to end in the state the specification functions
  give.

HTTP requests, JSON, the clock, `EditorPrefs` and the GUI are not modelled. What they
deliver becomes an input:

- the listing's paths;
- the bodies of the button descriptors whose fetch succeeded;
- the outcome of each image fetch;
- the latest commit and the downloaded script.

A C# `null` is `None`.

## Model

| member | source | states |
|---|---|---|
| Numbers.TryParseInt32 | WindowFiles/The_News/Editor/The_News.cs:973 | `int.TryParse` accepts only values in the Int32 range |
| Numbers.ParseIntToString | WindowFiles/The_News/Editor/The_News.cs:973 | `int.TryParse` reads back every Int32 as `ToString` writes it |
| Numbers.ParseRejectsFirst | WindowFiles/The_News/Editor/The_News.cs:973 | text that starts with neither white space, a sign nor a digit is not a number |
| Numbers.DecimalValue | WindowFiles/The_News/Editor/The_News.cs:1157 | the digits of a decimal rendering read back as the number (`int.Parse` of a `Post.N` number) |
| Numbers.Hex2 | WindowFiles/The_News/Editor/The_News.cs:1013-1015 | two hex digits written for a byte read back as that byte with `Convert.ToByte(…, 16)` |
| Text.OrdinalIsNameOrder | WindowFiles/The_News/Editor/The_News.cs:407 | ordinal string comparison is a total preorder, so it is one of the name orders the first-folder choice accepts |
| Text.JoinSplit | WindowFiles/The_News/Editor/The_News.cs:685 | `path.Split('/')` loses nothing: joining the pieces with '/' gives the path back |
| Text.SplitJoin | WindowFiles/The_News/Editor/The_News.cs:685 | pieces without '/' joined and split again give the pieces back |
| Text.SplitKeepsEmptyPiece | WindowFiles/The_News/Editor/The_News.cs:685 | `path.Split('/')` keeps empty pieces: two '/' in a row leave "" between them |
| Text.TrimIdempotent | WindowFiles/The_News/Editor/The_News.cs:1127 | trimming a trimmed button body changes nothing |
| Text.IndexOfFirst | WindowFiles/The_News/Editor/The_News.cs:969 | `IndexOf('.')` finds the first '.' |
| Naming.GetOrderAndName | WindowFiles/The_News/Editor/The_News.cs:965-980 | the display name is always a suffix of the raw name |
| Naming.OrderAndNameSound | WindowFiles/The_News/Editor/The_News.cs:965-980 | the result is either (int.MaxValue, raw name) or an `N.` prefix that the left-trimmed name really has, with N read by TryParse and the rest left-trimmed |
| Naming.OrderPrefixIsRead | WindowFiles/The_News/Editor/The_News.cs:965-980 | whenever the name has an ordering prefix, GetOrderAndName returns exactly that order and rest |
| Naming.OrderPrefixRoundTrip | WindowFiles/The_News/Editor/The_News.cs:965-980 | `N.` written in front of a name is read back as N and the left-trimmed name |
| Naming.NoDotNoOrder | WindowFiles/The_News/Editor/The_News.cs:969-979 | a name without '.' has no explicit order and keeps its raw name |
| Naming.GetDisplayName | WindowFiles/The_News/Editor/The_News.cs:982 | the display name is a suffix of the raw name |
| Naming.TryParseColorFromName | WindowFiles/The_News/Editor/The_News.cs:1002-1018 | a failed parse yields the default colour; a success needs the "Color" prefix in any case and is opaque |
| Naming.ColorFromFirstHash | WindowFiles/The_News/Editor/The_News.cs:1007-1016 | acceptance depends on the first '#' alone, if and only if six hex digits follow it; the colour is read from those digits |
| Naming.ColorNeedsHash | WindowFiles/The_News/Editor/The_News.cs:1008-1009 | without '#' the parse fails with the default colour |
| Naming.ColorMarkerRoundTrip | WindowFiles/The_News/Editor/The_News.cs:1002-1018 | a marker name written for an opaque colour is read back as that colour |
| Naming.PostFolderPrefix | WindowFiles/The_News/Editor/The_News.cs:1020-1024 | "Post." and a number form a post folder exactly when no word character follows the number |
| Naming.PostFolderMatch | WindowFiles/The_News/Editor/The_News.cs:1223 | a full `^Post\.([0-9]+)(?:\s+(.*))?$` match is a post folder, with a non-empty run of digits |
| Naming.ReadPostName | WindowFiles/The_News/Editor/The_News.cs:1226-1228 | a post read from a match always has a non-empty title |
| Naming.PostFolderRoundTrip | WindowFiles/The_News/Editor/The_News.cs:1223-1228 | a post folder built from a number and a one-line title is matched and read back as that number and the trimmed title, or "Post N" when the title is blank |
| Naming.Extension | WindowFiles/The_News/Editor/The_News.cs:1029 | `Path.GetExtension` is a suffix of the name that starts with its last '.' and has at least one more character; it is "" exactly when the name has no '.' or ends with one |
| Naming.WithoutExtension | WindowFiles/The_News/Editor/The_News.cs:1032 | `Path.GetFileNameWithoutExtension` is the prefix before the last '.', or the whole name when it has no '.' |
| Naming.ExtensionSplitsName | WindowFiles/The_News/Editor/The_News.cs:1029-1032 | the name without its extension, followed by the extension, is the name again (or the name minus its final '.') |
| Naming.FindColorTag | WindowFiles/The_News/Editor/The_News.cs:1063 | finds the leftmost `#([0-9A-Fa-f]{6})\b` match, and None exactly when there is none |
| Naming.StripColorTag | WindowFiles/The_News/Editor/The_News.cs:1063-1067 | a label without '#' is left as it is |
| Naming.ParseButtonName | WindowFiles/The_News/Editor/The_News.cs:1045-1095 | the display name is never empty ("Link" replaces an empty one) |
| Naming.FormatButtonRoundTrip | WindowFiles/The_News/Editor/The_News.cs:1026-1095 | every well-formed (order, caption, colour tag) written as a descriptor name is a button file, and ParseButtonName reads back that caption and order |
| Naming.ParseButtonNameForgetsSpelling | WindowFiles/The_News/Editor/The_News.cs:1029-1047 | the parse forgets the spelling: the same name with ".TXT" is a different button file that parses alike |
| Naming.NumberedButtonRoundTrip | WindowFiles/The_News/Editor/The_News.cs:1050-1070 | "N.Button caption #RRGGBB.txt" parses as the caption with order N |
| Naming.ButtonNumberRoundTrip | WindowFiles/The_News/Editor/The_News.cs:1075-1093 | "Button N.caption.txt" parses as the caption with order N |
| Naming.UnnamedButtonIsLink | WindowFiles/The_News/Editor/The_News.cs:1075-1078 | a name with neither an order nor a leading "Button" parses as ("Link", int.MaxValue) |
| Naming.NumberedButtonIsButtonFile | WindowFiles/The_News/Editor/The_News.cs:1026-1043 | "N.Button … .txt" passes the descriptor check (digits, '.', "Button") |
| Naming.ButtonNumberedIsButtonFile | WindowFiles/The_News/Editor/The_News.cs:1026-1038 | "Button … .txt" passes the descriptor check |
| Naming.SameStem | WindowFiles/The_News/Editor/The_News.cs:1047 | ParseButtonName reads only the name without its extension |
| CodeUpdate.NormalizedIsClean | WindowFiles/The_News/Editor/The_News.cs:206-217 | normalised code has no '\r' and no tab, and does not start or end with white space |
| CodeUpdate.NormalizeIdempotent | WindowFiles/The_News/Editor/The_News.cs:206-217 | normalising twice is normalising once |
| CodeUpdate.LineEndingsIgnored | WindowFiles/The_News/Editor/The_News.cs:212-214 | CRLF and LF versions of a text normalise alike |
| CodeUpdate.CheckForCodeUpdates | WindowFiles/The_News/Editor/The_News.cs:141-170 | an update is reported only for a non-empty commit that differs from the stored one and a non-empty downloaded script |
| CodeUpdate.CodeCheckIgnoresLineEndings | WindowFiles/The_News/Editor/The_News.cs:160-164 | a script that differs from the local copy only in its line endings is not an update |
| CodeUpdate.AutoOpen | WindowFiles/The_News/Editor/The_News.cs:71-98 | the commit is stored exactly when it is non-empty, and the window opens only then |
| CodeUpdate.CodeCheckNeverDecides | WindowFiles/The_News/Editor/The_News.cs:78-87 | the window opens if and only if the latest commit is non-empty and either nothing was stored or it differs from the stored one; the script comparison never changes that |
| CodeUpdate.StoredCommitQuiets | WindowFiles/The_News/Editor/The_News.cs:84-90 | after the commit is stored, a second check with the same commit does not open the window |
| ContentTree.HideEffect | WindowFiles/The_News/Editor/The_News.cs:700-703 | a "Hide.txt" leaf hides its folder and changes nothing else |
| ContentTree.ColorEffect | WindowFiles/The_News/Editor/The_News.cs:708-713 | a colour marker sets hasColor and the parsed colour on its folder |
| ContentTree.ImageEffect | WindowFiles/The_News/Editor/The_News.cs:716-720 | an image leaf appends its path to the folder's images |
| ContentTree.IgnoredEffect | WindowFiles/The_News/Editor/The_News.cs:691-722 | any other leaf changes nothing |
| ContentTree.DescriptorLeaf | WindowFiles/The_News/Editor/The_News.cs:694-698 | a leaf is kept for the button pass exactly when it is a button file |
| ContentTree.AddPathIsFile | WindowFiles/The_News/Editor/The_News.cs:682-684 | paths under "WindowFiles/" in any case are skipped; every other path is a file in the folder its segments name |
| ContentTree.AddFileShape | WindowFiles/The_News/Editor/The_News.cs:685-733 | a file's folders all become nodes, exactly the missing ones are added, and a descriptor is remembered for the button pass |
| ContentTree.AddFileLeaf | WindowFiles/The_News/Editor/The_News.cs:691-722 | the folder's hidden flag, colour and images change as its leaf says, and no other node's contents change |
| ContentTree.EnsureChildGrown | WindowFiles/The_News/Editor/The_News.cs:726-730 | a missing child is created with the joined path and linked once; existing nodes keep their contents |
| ContentTree.FirstPassBuilt | WindowFiles/The_News/Editor/The_News.cs:677-734 | the first pass keeps the tree well formed: parents present, names and paths joined, children distinct and present |
| ContentTree.ScanPostsSound | WindowFiles/The_News/Editor/The_News.cs:1212-1241 | the scan reports an exception exactly when a child's number overflows int.Parse; otherwise it unlinks exactly the hidden post folders and the full matches, and makes one post per full match |
| ContentTree.PostsOf | WindowFiles/The_News/Editor/The_News.cs:1212-1241 | at most one post per child |
| ContentTree.UnlinkedOf | WindowFiles/The_News/Editor/The_News.cs:1214-1238 | a child is unlinked exactly when it is a hidden post folder or a full post match |
| ContentTree.OverflowAt | WindowFiles/The_News/Editor/The_News.cs:1226 | the first child whose number int.Parse cannot hold, if any |
| ContentTree.ScanPostsInOrder | WindowFiles/The_News/Editor/The_News.cs:1212-1241 | the posts added are the filter-map of the children before the first overflow, in enumeration order, one per child |
| ContentTree.ScanRemovedInOrder | WindowFiles/The_News/Editor/The_News.cs:1214-1238 | the folders to unlink are those before the first overflow, in enumeration order |
| ContentTree.CollectAtFrame | WindowFiles/The_News/Editor/The_News.cs:1209-1253 | CollectPostFolders at k keeps every node, changes only k and what lies below it, only appends posts and only unlinks children |
| ContentTree.CollectAtNode | WindowFiles/The_News/Editor/The_News.cs:1211-1246 | at k itself: the posts found are appended and, without an exception, exactly the unlinked children are gone |
| ContentTree.CollectAtSubtree | WindowFiles/The_News/Editor/The_News.cs:1209-1253 | without an exception, every node still reachable below k got its children's posts appended in order and lost exactly the hidden post folders and the full matches |
| ContentTree.CollectAtBare | WindowFiles/The_News/Editor/The_News.cs:1230-1236 | posts are made before any button is attached, so all their button lists start empty |
| ContentTree.PrunedValid | WindowFiles/The_News/Editor/The_News.cs:1243-1246 | unlinking children and appending posts keeps the tree well formed |
| ContentTree.FirstPostWith | WindowFiles/The_News/Editor/The_News.cs:1158 | the index of the first post with the number, and None only when no post has it |
| ContentTree.DeepestIsDeepest | WindowFiles/The_News/Editor/The_News.cs:1107-1115 | the walk follows linked children and stops at the first segment that is not a child |
| ContentTree.TargetResolves | WindowFiles/The_News/Editor/The_News.cs:1139-1197 | a descriptor's target is either nowhere or a node or post that exists |
| ContentTree.AttachEffect | WindowFiles/The_News/Editor/The_News.cs:1159-1196 | a button is appended at an existing target and nowhere else; a missing target changes nothing; only buttons change |
| ContentTree.AttachAtPost | WindowFiles/The_News/Editor/The_News.cs:1158-1173 | attaching to a post appends the button to that post's list and writes it back |
| ContentTree.ProcessButtonsShape | WindowFiles/The_News/Editor/The_News.cs:1097-1207 | the button pass changes nothing but buttons |
| ContentTree.TargetSameShape | WindowFiles/The_News/Editor/The_News.cs:1107-1196 | attaching buttons never moves a descriptor's target: it depends only on folders and post numbers |
| ContentTree.ProcessButtonsAdds | WindowFiles/The_News/Editor/The_News.cs:1097-1207 | after the whole pass, every existing node or post has its old buttons followed by one button per descriptor whose fetch succeeded and whose target it is, in descriptor order; nothing else gains a button |
| ContentTree.BuildTreeValid | WindowFiles/The_News/Editor/The_News.cs:671-739 | whatever the listing, the tree ParseTree builds is well formed |
| ContentTree.EmptySegmentNamesFolder | WindowFiles/The_News/Editor/The_News.cs:685-689 | a path with two '/' in a row puts its file in a folder named "" |
| ContentTree.BuildTreeNamed | WindowFiles/The_News/Editor/The_News.cs:671-739 | when no listed path has an empty folder segment, every folder in the built tree has a non-empty name without '/' |
| Navigation.SortedChildren | WindowFiles/The_News/Editor/The_News.cs:986-1001 | the list is sorted by order, then by name ignoring case; it holds exactly the shown children; equal-ranked entries keep their child order |
| Navigation.SortStable | WindowFiles/The_News/Editor/The_News.cs:997-1000 | the sort keeps entries that tie in their order |
| Navigation.EntriesHas | WindowFiles/The_News/Editor/The_News.cs:989-996 | every child that is not Header, hidden or a post folder has an entry |
| Navigation.EntriesOnly | WindowFiles/The_News/Editor/The_News.cs:989-996 | every entry is that of a shown child |
| Navigation.MinEligible | WindowFiles/The_News/Editor/The_News.cs:405-409 | the pick is a child that is neither Header nor hidden |
| Navigation.MinEligibleIsLeast | WindowFiles/The_News/Editor/The_News.cs:405-409 | the pick sorts no later than every eligible child in the name order, and there is none exactly when no child is eligible |
| Navigation.MinEligibleEarliest | WindowFiles/The_News/Editor/The_News.cs:407 | OrderBy is stable: among equal-ranked eligible children the first in child order is picked |
| Navigation.LookupExact | WindowFiles/The_News/Editor/The_News.cs:762-771 | the walk gives the node the breadcrumb names when every step is a child, otherwise the root |
| Navigation.NodeByBreadcrumb | WindowFiles/The_News/Editor/The_News.cs:762-771 | the breadcrumb's node when every segment is a linked child, otherwise the root |
| Navigation.DescendStops | WindowFiles/The_News/Editor/The_News.cs:788-799 | the descent ends where the loop stops: images, no eligible child, or an empty folder it stepped into |
| Navigation.DescendFollows | WindowFiles/The_News/Editor/The_News.cs:788-799 | each step of the descent takes the first eligible child of an image-less folder, and the folders passed have children |
| Navigation.DescentLinked | WindowFiles/The_News/Editor/The_News.cs:785-800 | the descent from a reachable node ends at a reachable node |
| Navigation.NavigateConsistent | WindowFiles/The_News/Editor/The_News.cs:773-809 | after SetCurrentByPath the breadcrumb names the node shown, and that node is in the tree |
| Navigation.ListingNavigable | WindowFiles/The_News/Editor/The_News.cs:773-809 | for the tree a listing without empty folder segments builds from the fresh root, the folder names are clean and the breadcrumb SetCurrentByPath leaves names the node it shows |
| Navigation.NavigateFromTop | WindowFiles/The_News/Editor/The_News.cs:773-809 | navigating to a top-level folder's name opens that folder or one below it |
| Navigation.DefaultOpensFirst | WindowFiles/The_News/Editor/The_News.cs:403-412 | the default selection opens the least eligible top-level folder or a folder below it |
| Navigation.NavigateIgnoresButtons | WindowFiles/The_News/Editor/The_News.cs:737-757 | where SetCurrentByPath lands does not depend on buttons, so buttons attached later do not change the selection |
| Downloads.AdvancedEffect | WindowFiles/The_News/Editor/The_News.cs:1300-1316 | a resumed drain loop keeps cache, errors and scope and dequeues a prefix; it starts at most one fetch, never for a url in flight or cached, or else ends (clearing the flag when it is the current loop) |
| Downloads.ClearedInv | WindowFiles/The_News/Editor/The_News.cs:1273-1283 | ClearDownloads keeps the queue invariant: no duplicate in the queue, and one loop in the current scope exactly when the flag is set |
| Downloads.DrainedInv | WindowFiles/The_News/Editor/The_News.cs:1292-1296 | ProcessDownloadQueue keeps the invariant |
| Downloads.QueuedInv | WindowFiles/The_News/Editor/The_News.cs:1285-1290 | QueueDownloadByPriority keeps the invariant |
| Downloads.CompletedInv | WindowFiles/The_News/Editor/The_News.cs:1300-1317 | a finished fetch and the resumed loop keep the invariant, with the flag cleared only by the current loop |
| Downloads.QueuedIdempotent | WindowFiles/The_News/Editor/The_News.cs:1285-1290 | after queueing, the url is queued, in flight or cached, so queueing it again changes nothing |
| Downloads.DrainedWhenBusy | WindowFiles/The_News/Editor/The_News.cs:1294 | draining starts nothing while a loop runs or when the queue is empty |
| Downloads.ClearedThenQueued | WindowFiles/The_News/Editor/The_News.cs:1273-1305 | after ClearDownloads a url that is not cached is fetched at once in the new scope |
| Downloads.SettledLocal | WindowFiles/The_News/Editor/The_News.cs:1319-1382 | every outcome takes the url out of the in-flight set and leaves every other url's cache and error alone |
| Downloads.SettledCaches | WindowFiles/The_News/Editor/The_News.cs:1337-1350 | only decodable, non-empty bytes read in the current scope are cached |
| Downloads.SettledErrors | WindowFiles/The_News/Editor/The_News.cs:1331-1376 | the url has an error afterwards exactly when it did not end with decodable bytes or a cancellation |
| Downloads.SettledMessages | WindowFiles/The_News/Editor/The_News.cs:1333-1375 | the error texts: "HTTP code reason", "Request timeout", the exception's message, "Empty response", "Unsupported format or corrupted data" |
| Downloads.AsWrittenAgreesInScope | WindowFiles/The_News/Editor/The_News.cs:1313-1316 | within the current scope the drain loop as written and the corrected one agree |
| Downloads.StaleLoopClearsFlag | WindowFiles/The_News/Editor/The_News.cs:1313-1316 | as written: queue u1, clear, queue u2, u1 finishes, queue u3 leaves two loops in one scope, breaking the invariant |
| Downloads.CurrentLoopKeepsFlag | WindowFiles/The_News/Editor/The_News.cs:1292-1317 | corrected: the same steps keep one loop, and u3 waits in the queue |
| Downloads.DownloadQueue.constructor | WindowFiles/The_News/Editor/The_News.cs:1257-1263 | the fields start empty, not processing, in scope 0 |
| Downloads.DownloadQueue.Clear | WindowFiles/The_News/Editor/The_News.cs:1273-1283 | the new state is Cleared of the old, and the invariant holds |
| Downloads.DownloadQueue.Queue | WindowFiles/The_News/Editor/The_News.cs:1285-1290 | the new state is Queued of the old, and the invariant holds |
| Downloads.DownloadQueue.Drain | WindowFiles/The_News/Editor/The_News.cs:1292-1296 | the new state is Drained of the old, and the invariant holds |
| Downloads.DownloadQueue.Advance | WindowFiles/The_News/Editor/The_News.cs:1300-1316 | the loop body runs until it starts a fetch or leaves; the new state is Advanced of the old |
| Downloads.DownloadQueue.Complete | WindowFiles/The_News/Editor/The_News.cs:1305-1316 | the new state is Completed of the old (corrected finally), and the invariant holds |
| Downloads.DownloadQueue.Settle | WindowFiles/The_News/Editor/The_News.cs:1331-1381 | the new state is Settled of the old |
| Downloads.DownloadQueue.CachedTexture | WindowFiles/The_News/Editor/The_News.cs:1265-1269 | the cached texture for the url, None exactly when there is none |
| Window.NewsWindow.constructor | WindowFiles/The_News/Editor/The_News.cs:52-58 | an empty tree with just the root, an empty breadcrumb, no error, an empty download queue |
| Window.NewsWindow.Refresh | WindowFiles/The_News/Editor/The_News.cs:584-621 | a fresh root; a listing gives the tree BuildTree builds, the error cleared (or the overflow message) and the default selection; a failure keeps the fresh root and records its message |
| Window.NewsWindow.LoadListing | WindowFiles/The_News/Editor/The_News.cs:605-609 | the listing is parsed into the fresh tree and the default selection runs |
| Window.NewsWindow.ReportListing | WindowFiles/The_News/Editor/The_News.cs:608-616 | an overflow becomes the error and leaves view and queue alone; otherwise the error is cleared and the default selection runs |
| Window.NewsWindow.ParseTree | WindowFiles/The_News/Editor/The_News.cs:671-739 | the tree and overflow are what BuildTree gives, and the tree is well formed |
| Window.NewsWindow.InsertPath | WindowFiles/The_News/Editor/The_News.cs:679-733 | one path changes the tree and the descriptor list as AddPath does |
| Window.NewsWindow.InsertFile | WindowFiles/The_News/Editor/The_News.cs:685-733 | a path that is not skipped changes the tree as AddFile does |
| Window.NewsWindow.EnsureFolders | WindowFiles/The_News/Editor/The_News.cs:724-732 | the walk through the folder segments creates the missing ones as Walk does |
| Window.NewsWindow.MarkFolder | WindowFiles/The_News/Editor/The_News.cs:699-722 | a leaf that is not a descriptor changes its folder as ApplyLeaf does |
| Window.NewsWindow.CollectPostFolders | WindowFiles/The_News/Editor/The_News.cs:1209-1253 | the new tree and overflow are CollectAt of the old tree |
| Window.NewsWindow.CollectChildren | WindowFiles/The_News/Editor/The_News.cs:1249-1252 | the recursion into the remaining children is CollectEach |
| Window.NewsWindow.ScanChildren | WindowFiles/The_News/Editor/The_News.cs:1211-1241 | the posts of ScanPosts are appended to k, and its unlinked names and overflow are returned |
| Window.NewsWindow.JudgeChild | WindowFiles/The_News/Editor/The_News.cs:1214-1239 | what the scan makes of one child is Judge |
| Window.NewsWindow.ProcessButtonFiles | WindowFiles/The_News/Editor/The_News.cs:1097-1207 | the new tree is ProcessButtons of the old |
| Window.NewsWindow.WalkDown | WindowFiles/The_News/Editor/The_News.cs:1107-1115 | the node reached is Deepest |
| Window.NewsWindow.AttachButton | WindowFiles/The_News/Editor/The_News.cs:1129-1197 | the button ParseButtonName and the trimmed body make is attached at the descriptor's target |
| Window.NewsWindow.AppendButton | WindowFiles/The_News/Editor/The_News.cs:1159-1196 | the button is appended at the target as Attach does |
| Window.NewsWindow.FindTarget | WindowFiles/The_News/Editor/The_News.cs:1139-1193 | the target is ButtonTarget: a post folder's post, a Header node, or the parent folder |
| Window.NewsWindow.FindPost | WindowFiles/The_News/Editor/The_News.cs:1143-1173 | the first post whose number is the folder's, as PostTarget says |
| Window.NewsWindow.GetNodeByBreadcrumb | WindowFiles/The_News/Editor/The_News.cs:762-771 | the node the breadcrumb names, or the root |
| Window.NewsWindow.SetCurrentByPath | WindowFiles/The_News/Editor/The_News.cs:773-809 | the downloads are cleared, and breadcrumb and current node are where Navigate leads |
| Window.NewsWindow.SelectDefault | WindowFiles/The_News/Editor/The_News.cs:741-757 | with an empty breadcrumb, the least eligible top-level folder is opened; otherwise nothing changes |
| Window.NewsWindow.SyncSelection | WindowFiles/The_News/Editor/The_News.cs:400-412 | the breadcrumb's node becomes current, then the default selection runs |
| Window.NewsWindow.GetSortedChildren | WindowFiles/The_News/Editor/The_News.cs:986-1001 | the list is SortedChildren |
| Window.NewsWindow.ShownChildren | WindowFiles/The_News/Editor/The_News.cs:988-996 | the loop gathers the entries of the shown children in child order |
| Window.NewsWindow.GetTopLevelName | WindowFiles/The_News/Editor/The_News.cs:811-820 | None for the root, otherwise the first segment of the node's key |
| Window.NewsWindow.GetNodeAtDepth | WindowFiles/The_News/Editor/The_News.cs:822-834 | the root for a level of 0 or less, otherwise the node the first min(level, count) breadcrumb segments name |
| Window.NewsWindow.FindNearestHeaderNode | WindowFiles/The_News/Editor/The_News.cs:836-846 | the Header child of the nearest folder from start up to the root that has one, or None when no such folder exists |
| Window.NewsWindow.FindNearestColorNode | WindowFiles/The_News/Editor/The_News.cs:848-857 | the nearest folder from start up to the root with a colour, or None when no such folder exists |

## Left out

- The HTTP requests, the GitHub JSON, `EditorPrefs`, the environment, the clock and the
  whole GUI are not modelled. Their results are inputs: the listing's paths, the
  descriptor bodies, the image fetch outcomes, the latest commit and the downloaded
  script.
- Regular expressions are not modelled in general. Each pattern the window uses is
  written out as a predicate.
- MinEligible: `OrderBy(k => k.Key)` sorts with the current culture's comparer, which is
  not part of this model. The comparer is a parameter (`NameOrder`) that may be any
  total preorder. Everything about the first-folder choice, the descent and the default
  selection is proved for every such comparer; ordinal order is one of them
  (`Text.OrdinalIsNameOrder`).
- IsWordChar: every non-ASCII character that is not white space is taken to be a word
  character. .NET's `\w` covers only Unicode letters, marks, digits and connector
  punctuation. So a name like "Post.1—x" is a post folder in .NET but not in the model.
- IsImageFile: `ToLower()` is culture-sensitive. The model lower-cases ASCII letters
  only, so under a Turkish culture ".GIF" is an image in the model but not in the
  source.
- UpperAll: `StringComparison.OrdinalIgnoreCase` is modelled by upper-casing ASCII
  letters only; non-ASCII case pairs compare as different.
- LexLe: a Dafny `char` is a Unicode scalar value, while .NET compares UTF-16 code
  units. The sub-folder list's `OrdinalIgnoreCase` tie-break (GetSortedChildren, at
  :999) therefore puts a character
  above U+FFFF (sent as surrogates D800-DFFF) before U+E000-U+FFFF, where the model
  puts it after. Only names that mix such characters are ordered differently.
- Window.NewsWindow.Refresh: `isLoading` is not modelled, and neither is the progress bar
  it drives. `Task.Run` and the `delayCall` continuations are applied at once, as one
  step, so a second Refresh cannot interleave with the first.
- ContentTree.ProcessButtons: `ProcessButtonFiles` is `async void`. Its continuations
  can run after a later Refresh has replaced the root; the model attaches all buttons in
  one step, to the tree just built. The same holds for
  Window.NewsWindow.ProcessButtonFiles.
- Window.NewsWindow.AttachButton: a fetch that fails or throws adds no button, and that
  is all of it the model keeps. The warning it logs is left out.
- ParseButtonName: its exact converse (every button file is the builder applied to its
  parsed fields) cannot hold, because the parse is many-to-one. It ignores the case of
  ".txt", the spelling of "Button", white space around the caption and the colour tag,
  and it maps an empty caption to "Link".
  `Naming.ParseButtonNameForgetsSpelling` exhibits two different names that parse
  alike. What is proved is the round trip from well-formed fields
  (`Naming.FormatButtonRoundTrip`).
- FormatButtonName: negative orders are not covered by the builder. A "-N." prefix
  parses, but a descriptor written with one is not part of the round trip.
- CodeUpdate.CheckForCodeUpdates: the downloaded script and the local file are inputs
  (None for a failed download or a missing file). The function's own contract states
  only when it can report an update. `CodeCheckNeverDecides`, `StoredCommitQuiets` and
  `CodeCheckIgnoresLineEndings` state what its result does.
- Window.NewsWindow.GetTopLevelName: the source walks parent pointers. The model reads
  the first segment of the key, for a node that is in the tree.
- ContentTree.CollectAt: the recursion is bounded by a depth D that is at least the
  length of every key. This is a ghost bound with no counterpart in the source.
- Navigation.NavigateConsistent: it assumes that no folder name is empty or contains
  '/'. `path.Split('/')` keeps empty pieces, so a listed path with "//" or a leading '/'
  gives a folder named "" (`EmptySegmentNamesFolder`). That folder's path then splits
  back into a breadcrumb without its empty segment, and the window loses track of it.
  `ListingNavigable` shows the assumption holds for every listing whose paths have no
  empty folder segment. GitHub tree listings have no such paths, but the model does not
  prove that of its input.
- Naming.Extension / Naming.WithoutExtension: they follow .NET's Unix path rules, where
  only '/' ends a directory part. Under Windows rules `\` also ends one, and Mono / .NET
  Framework also treat ':' that way. There the file name without extension of the leaf
  `Color #112233\x.txt` is "x", which is not a colour marker. In the model the whole name
  is read, and it is one. On those platforms, names with '<', '>', '|' or control
  characters also make these calls throw ArgumentException. That would end ParseTree
  and become Refresh's error. The model has no such exception.
- Downloads.Advanced: cancellation that happens while a fetch is in flight is seen only
  at the next step of the drain loop. The task scheduler and `CancellationToken`
  timing are reduced to the scope number each loop remembers.
- Downloads.Settled: the decoded texture is represented by its bytes. `LoadImage` is an
  input flag (`decodes`).
- UpdateCodeFromGitHub, ShowWindow, the settings panel, the token, the rate-limit error
  text and the drawing code are not part of this model.
- OnGUI and DrawHeaderContent: two drawing orders are left out with the rest of the
  drawing code. Buttons are drawn sorted by (order, display name), with the culture
  comparer on the name (:509, :564, :895, :947). Posts are drawn by descending number
  (:529).

## Findings

| source | as written | input that shows it | evidently intended | confidence | as-written member | corrected member |
|---|---|---|---|---|---|---|
| WindowFiles/The_News/Editor/The_News.cs:1313-1316 | the `finally` of ProcessDownloadQueue clears `isProcessingQueue` whatever the loop's cancellation scope | queue u1; ClearDownloads (page change); queue u2, which starts a new loop; u1's stale fetch completes, its old loop ends and clears the flag; queue u3 starts a second loop in the same scope, so u2 and u3 download concurrently | only the loop of the current scope clears the flag, so at most one loop drains the queue | not executed | Downloads.StaleLoopClearsFlag | Downloads.CurrentLoopKeepsFlag |
