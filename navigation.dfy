/** How the window moves through the content tree: the ordered list of sub-folders it
    shows, the breadcrumb lookup, and the automatic descent into the first sub-folder of a
    folder that has no images of its own. */
module Navigation {
  import opened Text
  import opened Naming
  import opened ContentTree

  // ---------------------------------------------------------------------------------
  // GetSortedChildren

  datatype SortedEntry = SortedEntry(displayName: string, key: Key, order: int)

  /** a sorts no later than b: by order, then by display name ignoring case. */
  predicate Before(a: SortedEntry, b: SortedEntry) {
    a.order < b.order || (a.order == b.order && LexLe(UpperAll(a.displayName), UpperAll(b.displayName)))
  }

  /** a and b tie under the sort. */
  predicate SameRank(a: SortedEntry, b: SortedEntry) {
    a.order == b.order && UpperAll(a.displayName) == UpperAll(b.displayName)
  }

  predicate Sorted(s: seq<SortedEntry>) {
    forall i, j :: 0 <= i < j < |s| ==> Before(s[i], s[j])
  }

  lemma {:induction false} LexLeReflexive(a: string)
    ensures LexLe(a, a)
  {
    if a != [] {
      LexLeReflexive(a[1..]);
    }
  }

  lemma BeforeTotal(a: SortedEntry, b: SortedEntry)
    ensures Before(a, b) || Before(b, a)
  {
    LexLeTotal(UpperAll(a.displayName), UpperAll(b.displayName));
  }

  lemma BeforeTransitive(a: SortedEntry, b: SortedEntry, c: SortedEntry)
    requires Before(a, b) && Before(b, c)
    ensures Before(a, c)
  {
    if a.order == b.order && b.order == c.order {
      LexLeTransitive(UpperAll(a.displayName), UpperAll(b.displayName), UpperAll(c.displayName));
    }
  }

  /** Entries that tie sort either way round, so an entry that is not before another
      does not tie with it. */
  lemma NotBeforeNoTie(a: SortedEntry, b: SortedEntry)
    requires !Before(a, b)
    ensures !SameRank(a, b)
  {
    LexLeReflexive(UpperAll(a.displayName));
  }

  /** x placed before the first element it sorts no later than. */
  function Insert(x: SortedEntry, s: seq<SortedEntry>): (r: seq<SortedEntry>)
    ensures multiset(r) == multiset(s) + multiset{x}
    decreases |s|
  {
    if s == [] || Before(x, s[0]) then [x] + s
    else
      assert s == [s[0]] + s[1..];
      [s[0]] + Insert(x, s[1..])
  }

  lemma InsertMembers(x: SortedEntry, s: seq<SortedEntry>, e: SortedEntry)
    requires e in Insert(x, s)
    ensures e == x || e in s
  {
    assert e in multiset(Insert(x, s));
  }

  lemma SortedHead(x: SortedEntry, s: seq<SortedEntry>)
    requires Sorted(s) && forall e :: e in s ==> Before(x, e)
    ensures Sorted([x] + s)
  {
    forall i, j | 0 <= i < j < |[x] + s| ensures Before(([x] + s)[i], ([x] + s)[j]) {
      if i > 0 {
        assert ([x] + s)[i] == s[i - 1] && ([x] + s)[j] == s[j - 1];
      } else {
        assert ([x] + s)[j] == s[j - 1];
      }
    }
  }

  lemma {:induction false} InsertSorted(x: SortedEntry, s: seq<SortedEntry>)
    requires Sorted(s)
    ensures Sorted(Insert(x, s))
    decreases |s|
  {
    if s == [] || Before(x, s[0]) {
      forall e | e in s ensures Before(x, e) {
        if e != s[0] {
          BeforeTransitive(x, s[0], e);
        }
      }
      SortedHead(x, s);
    } else {
      var r := Insert(x, s[1..]);
      InsertSorted(x, s[1..]);
      BeforeTotal(x, s[0]);
      forall e | e in r ensures Before(s[0], e) {
        InsertMembers(x, s[1..], e);
      }
      SortedHead(s[0], r);
    }
  }

  /** A stable insertion sort. */
  function SortEntries(s: seq<SortedEntry>): (r: seq<SortedEntry>)
    ensures multiset(r) == multiset(s) && Sorted(r)
    decreases |s|
  {
    if s == [] then []
    else
      assert s == [s[0]] + s[1..];
      InsertSorted(s[0], SortEntries(s[1..]));
      Insert(s[0], SortEntries(s[1..]))
  }

  /** The entries of s that rank like e, in their order. */
  function RankedLike(s: seq<SortedEntry>, e: SortedEntry): seq<SortedEntry>
    decreases |s|
  {
    if s == [] then []
    else (if SameRank(s[0], e) then [s[0]] else []) + RankedLike(s[1..], e)
  }

  lemma {:induction false} InsertRankedLike(x: SortedEntry, s: seq<SortedEntry>, e: SortedEntry)
    ensures RankedLike(Insert(x, s), e) == (if SameRank(x, e) then [x] else []) + RankedLike(s, e)
    decreases |s|
  {
    var xs := if SameRank(x, e) then [x] else [];
    if s == [] || Before(x, s[0]) {
      assert ([x] + s)[1..] == s;
    } else {
      NotBeforeNoTie(x, s[0]);
      var hs := if SameRank(s[0], e) then [s[0]] else [];
      assert xs == [] || hs == [];
      InsertRankedLike(x, s[1..], e);
      var r := Insert(x, s[1..]);
      assert ([s[0]] + r)[1..] == r;
      calc {
        RankedLike(Insert(x, s), e);
        RankedLike([s[0]] + r, e);
        hs + RankedLike(r, e);
        hs + (xs + RankedLike(s[1..], e));
        { assert hs + xs == xs + hs; }
        xs + (hs + RankedLike(s[1..], e));
        xs + RankedLike(s, e);
      }
    }
  }

  /** The sort is stable: entries that tie keep their order. */
  lemma {:induction false} SortStable(s: seq<SortedEntry>, e: SortedEntry)
    ensures RankedLike(SortEntries(s), e) == RankedLike(s, e)
    decreases |s|
  {
    if s != [] {
      SortStable(s[1..], e);
      InsertRankedLike(s[0], SortEntries(s[1..]), e);
    }
  }

  /** A child the sub-folder list shows: not Header in any case, not hidden, not a post
      folder. */
  predicate Shown(t: Arena, k: Key, c: string) {
    !EqualsIgnoreCase(c, HeaderName) && !Get(t, k + [c]).hidden && !IsPostFolder(c)
  }

  function EntryOf(k: Key, c: string): SortedEntry {
    var on := GetOrderAndName(c);
    SortedEntry(on.displayName, k + [c], on.order)
  }

  /** The entries of the shown children among cs, in child order. */
  function Entries(t: Arena, k: Key, cs: seq<string>): seq<SortedEntry>
    decreases |cs|
  {
    if cs == [] then []
    else (if Shown(t, k, cs[0]) then [EntryOf(k, cs[0])] else []) + Entries(t, k, cs[1..])
  }

  /** The entries from position i: that of cs[i] if it is shown, then the rest. */
  lemma EntriesStep(t: Arena, k: Key, cs: seq<string>, i: nat)
    requires i < |cs|
    ensures Entries(t, k, cs[i..]) == (if Shown(t, k, cs[i]) then [EntryOf(k, cs[i])] else []) + Entries(t, k, cs[i + 1..])
  {
    assert cs[i..][1..] == cs[i + 1..];
  }

  /** One step of a left-to-right scan that keeps the entries found so far in list. */
  lemma EntriesAdvance(t: Arena, k: Key, cs: seq<string>, i: nat, list: seq<SortedEntry>)
    requires i < |cs| && Entries(t, k, cs) == list + Entries(t, k, cs[i..])
    ensures Shown(t, k, cs[i]) ==> Entries(t, k, cs) == (list + [EntryOf(k, cs[i])]) + Entries(t, k, cs[i + 1..])
    ensures !Shown(t, k, cs[i]) ==> Entries(t, k, cs) == list + Entries(t, k, cs[i + 1..])
  {
    EntriesStep(t, k, cs, i);
    var rest := Entries(t, k, cs[i + 1..]);
    if Shown(t, k, cs[i]) {
      ConcatAssoc(list, [EntryOf(k, cs[i])], rest);
    } else {
      assert Entries(t, k, cs[i..]) == [] + rest;
      assert [] + rest == rest;
    }
  }

  /** Every shown child has its entry. */
  lemma {:induction false} EntriesHas(t: Arena, k: Key, cs: seq<string>, c: string)
    requires c in cs && Shown(t, k, c)
    ensures EntryOf(k, c) in Entries(t, k, cs)
    decreases |cs|
  {
    if cs[0] != c {
      EntriesHas(t, k, cs[1..], c);
    }
  }

  /** Every entry is that of a shown child. */
  lemma {:induction false} EntriesOnly(t: Arena, k: Key, cs: seq<string>, e: SortedEntry)
    requires e in Entries(t, k, cs)
    ensures exists c :: c in cs && Shown(t, k, c) && e == EntryOf(k, c)
    decreases |cs|
  {
    var head := if Shown(t, k, cs[0]) then [EntryOf(k, cs[0])] else [];
    if e in head {
      assert cs[0] in cs;
    } else {
      EntriesOnly(t, k, cs[1..], e);
      var c :| c in cs[1..] && Shown(t, k, c) && e == EntryOf(k, c);
      assert c in cs;
    }
  }

  /** The shown children of k, ordered by (order, display name ignoring
      case), ties left in child order. */
  function SortedChildren(t: Arena, k: Key): (r: seq<SortedEntry>)
    ensures Sorted(r)
    ensures forall c :: c in Get(t, k).children && Shown(t, k, c) ==> EntryOf(k, c) in r
    ensures forall e :: e in r ==> exists c :: c in Get(t, k).children && Shown(t, k, c) && e == EntryOf(k, c)
    ensures forall e :: RankedLike(r, e) == RankedLike(Entries(t, k, Get(t, k).children), e)
  {
    var cs := Get(t, k).children;
    var s := Entries(t, k, cs);
    var r := SortEntries(s);
    assert forall e :: e in r <==> e in s by {
      forall e ensures e in r <==> e in s {
        assert e in r <==> e in multiset(r);
        assert e in s <==> e in multiset(s);
      }
    }
    forall c | c in cs && Shown(t, k, c) ensures EntryOf(k, c) in r {
      EntriesHas(t, k, cs, c);
    }
    forall e | e in r ensures exists c :: c in cs && Shown(t, k, c) && e == EntryOf(k, c) {
      EntriesOnly(t, k, cs, e);
    }
    forall e ensures RankedLike(r, e) == RankedLike(s, e) {
      SortStable(s, e);
    }
    r
  }

  /** The sorted children are the shown entries, sorted. */
  lemma SortedChildrenSorts(t: Arena, k: Key)
    ensures SortedChildren(t, k) == SortEntries(Entries(t, k, Get(t, k).children))
  {
  }

  // ---------------------------------------------------------------------------------
  // The first sub-folder: children minus Header and hidden ones, ordered by name

  /** A child the default selection and the automatic descent may pick. */
  predicate Eligible(t: Arena, k: Key, c: string) {
    !EqualsIgnoreCase(c, HeaderName) && !Get(t, k + [c]).hidden
  }

  /** The least eligible name among cs in the order le, the earliest of equal ones (OrderBy
      is stable);
      None when no name is eligible (FirstOrDefault). */
  function MinEligible(le: NameOrder, t: Arena, k: Key, cs: seq<string>): (r: Option<string>)
    ensures r.Some? ==> r.value in cs && Eligible(t, k, r.value)
    decreases |cs|
  {
    if cs == [] then None
    else
      var rest := MinEligible(le, t, k, cs[1..]);
      if !Eligible(t, k, cs[0]) then rest
      else if rest.Some? && !le(cs[0], rest.value) then rest
      else Some(cs[0])
  }

  /** MinEligible picks an eligible name no other eligible name sorts before, and picks
      none exactly when no name is eligible. */
  lemma {:induction false} MinEligibleIsLeast(le: NameOrder, t: Arena, k: Key, cs: seq<string>)
    ensures var r := MinEligible(le, t, k, cs);
      (r.Some? ==> forall c :: c in cs && Eligible(t, k, c) ==> le(r.value, c))
      && (r.None? <==> forall c :: c in cs ==> !Eligible(t, k, c))
    decreases |cs|
  {
    if cs != [] {
      var rest := MinEligible(le, t, k, cs[1..]);
      MinEligibleIsLeast(le, t, k, cs[1..]);
      if Eligible(t, k, cs[0]) {
        if rest.Some? && !le(cs[0], rest.value) {
          assert le(rest.value, cs[0]);
        } else {
          forall c | c in cs[1..] && Eligible(t, k, c) ensures le(cs[0], c) {
            assert le(rest.value, c);
          }
          assert le(cs[0], cs[0]);
        }
      }
    }
  }

  /** cs[j] sorts strictly before every eligible name that comes before it in cs. */
  ghost predicate EarliestAt(le: NameOrder, t: Arena, k: Key, cs: seq<string>, j: int) {
    0 <= j < |cs| && forall i :: 0 <= i < j && Eligible(t, k, cs[i]) ==> !le(cs[i], cs[j])
  }

  lemma EarliestShift(le: NameOrder, t: Arena, k: Key, cs: seq<string>, j: int)
    requires cs != [] && EarliestAt(le, t, k, cs[1..], j)
    requires Eligible(t, k, cs[0]) ==> !le(cs[0], cs[j + 1])
    ensures EarliestAt(le, t, k, cs, j + 1)
  {
    forall i | 0 < i < j + 1 && Eligible(t, k, cs[i]) ensures !le(cs[i], cs[j + 1]) {
      assert cs[i] == cs[1..][i - 1];
    }
  }

  /** OrderBy is stable: of the eligible names ranking least, MinEligible picks the first,
      so every eligible name before the one picked sorts strictly after it. */
  lemma {:induction false} MinEligibleEarliest(le: NameOrder, t: Arena, k: Key, cs: seq<string>)
    ensures var r := MinEligible(le, t, k, cs);
      r.Some? ==> (exists j :: EarliestAt(le, t, k, cs, j) && cs[j] == r.value)
    decreases |cs|
  {
    var r := MinEligible(le, t, k, cs);
    if cs != [] && r.Some? {
      if r == Some(cs[0]) {
        assert EarliestAt(le, t, k, cs, 0);
      } else {
        MinEligibleEarliest(le, t, k, cs[1..]);
        var j :| EarliestAt(le, t, k, cs[1..], j) && cs[1..][j] == r.value;
        EarliestShift(le, t, k, cs, j);
      }
    }
  }

  function FirstEligible(le: NameOrder, t: Arena, k: Key): Option<string> {
    MinEligible(le, t, k, Get(t, k).children)
  }

  // ---------------------------------------------------------------------------------
  // GetNodeByBreadcrumb

  /** Every segment of bc, from k, names a linked child. */
  ghost predicate Linked(t: Arena, k: Key, bc: seq<string>)
    decreases |bc|
  {
    bc == [] || (bc[0] in Get(t, k).children && Linked(t, k + [bc[0]], bc[1..]))
  }

  function Lookup(t: Arena, k: Key, bc: seq<string>): Key
    decreases |bc|
  {
    if bc == [] then k
    else if bc[0] in Get(t, k).children then Lookup(t, k + [bc[0]], bc[1..])
    else []
  }

  lemma {:induction false} LookupExact(t: Arena, k: Key, bc: seq<string>)
    ensures Lookup(t, k, bc) == if Linked(t, k, bc) then k + bc else []
    decreases |bc|
  {
    if bc != [] {
      LookupExact(t, k + [bc[0]], bc[1..]);
      AppendHead(k, bc);
    }
  }

  /** The node the breadcrumb names, or the root when a segment is not a child. */
  function NodeByBreadcrumb(t: Arena, bc: seq<string>): (r: Key)
    ensures r == if Linked(t, [], bc) then bc else []
  {
    LookupExact(t, [], bc);
    assert [] + bc == bc;
    Lookup(t, [], bc)
  }

  lemma {:induction false} LinkedPresent(t: Arena, k: Key, bc: seq<string>)
    requires ChildrenPresent(t) && k in t && Linked(t, k, bc)
    ensures k + bc in t
    decreases |bc|
  {
    if bc != [] {
      LinkedPresent(t, k + [bc[0]], bc[1..]);
      AppendHead(k, bc);
    } else {
      assert k + bc == k;
    }
  }

  lemma {:induction false} LinkedAppend(t: Arena, k: Key, a: seq<string>, b: seq<string>)
    requires Linked(t, k, a) && Linked(t, k + a, b)
    ensures Linked(t, k, a + b)
    decreases |a|
  {
    if a != [] {
      AppendHead(k, a);
      LinkedAppend(t, k + [a[0]], a[1..], b);
      assert (a + b)[1..] == a[1..] + b;
    } else {
      assert a + b == b && k + a == k;
    }
  }

  // ---------------------------------------------------------------------------------
  // The automatic descent of SetCurrentByPath

  /** From k, keep taking the first eligible child while the node has no images; stop at a
      node with no eligible child, or after stepping into a node with neither children nor
      images. Each step goes one level deeper into the tree, which is finite. */
  function Descend(le: NameOrder, t: Arena, k: Key): Key
    decreases Bound(t) - |k|
  {
    if Get(t, k).imagePaths != [] then k
    else match FirstEligible(le, t, k)
      case None => k
      case Some(c) =>
        var n := k + [c];
        if Get(t, n).children == [] && Get(t, n).imagePaths == [] then n
        else Descend(le, t, n)
  }

  /** The loop stops here: images, no eligible child, or an empty node it stepped into. */
  predicate Stops(le: NameOrder, t: Arena, start: Key, k: Key) {
    Get(t, k).imagePaths != [] || FirstEligible(le, t, k).None?
      || (k != start && Get(t, k).children == [])
  }

  /** From k, segs takes the first eligible child at each step, out of nodes without
      images, and every node it passes through on the way has children. */
  ghost predicate Follows(le: NameOrder, t: Arena, k: Key, segs: seq<string>)
    decreases |segs|
  {
    segs == [] ||
      (Get(t, k).imagePaths == [] && FirstEligible(le, t, k) == Some(segs[0])
       && (|segs| > 1 ==> Get(t, k + [segs[0]]).children != [])
       && Follows(le, t, k + [segs[0]], segs[1..]))
  }

  /** The descent stays in the tree. */
  lemma {:induction false} DescendPresent(le: NameOrder, t: Arena, k: Key)
    requires ChildrenPresent(t) && k in t
    ensures Descend(le, t, k) in t
    decreases Bound(t) - |k|
  {
    if Get(t, k).imagePaths == [] && FirstEligible(le, t, k).Some? {
      var n := k + [FirstEligible(le, t, k).value];
      if !(Get(t, n).children == [] && Get(t, n).imagePaths == []) {
        DescendPresent(le, t, n);
      }
    }
  }

  /** The descent ends where the loop stops. */
  lemma {:induction false} DescendStops(le: NameOrder, t: Arena, start: Key, k: Key)
    requires ChildrenPresent(t) && k in t
    requires k != start ==> Get(t, k).children != [] || Get(t, k).imagePaths != []
    ensures Stops(le, t, start, Descend(le, t, k))
    decreases Bound(t) - |k|
  {
    if Get(t, k).imagePaths == [] && FirstEligible(le, t, k).Some? {
      var n := k + [FirstEligible(le, t, k).value];
      assert n in t;
      if !(Get(t, n).children == [] && Get(t, n).imagePaths == []) {
        DescendStops(le, t, start, n);
        DescendExtends(le, t, n);
        assert Descend(le, t, n)[..|k|] == k;
      }
    }
  }

  lemma FollowsCons(le: NameOrder, t: Arena, k: Key, c: string, rest: seq<string>)
    requires Get(t, k).imagePaths == [] && FirstEligible(le, t, k) == Some(c)
    requires rest != [] ==> Get(t, k + [c]).children != []
    requires Follows(le, t, k + [c], rest)
    ensures Follows(le, t, k, [c] + rest)
  {
    assert ([c] + rest)[1..] == rest;
  }

  lemma SliceStep(k: Key, c: string, r: Key)
    requires k + [c] <= r
    ensures r[|k|..] == [c] + r[|k| + 1..]
  {
  }

  /** The descent follows first eligible children through image-less nodes that are not
      empty. */
  lemma {:induction false} DescendFollows(le: NameOrder, t: Arena, k: Key)
    ensures var r := Descend(le, t, k);
      |k| <= |r| && Follows(le, t, k, r[|k|..])
    decreases Bound(t) - |k|
  {
    var r := Descend(le, t, k);
    if Get(t, k).imagePaths == [] && FirstEligible(le, t, k).Some? {
      var c := FirstEligible(le, t, k).value;
      var n := k + [c];
      if Get(t, n).children == [] && Get(t, n).imagePaths == [] {
        assert r[|k|..] == [c] + [];
        FollowsCons(le, t, k, c, []);
      } else {
        assert r == Descend(le, t, n);
        DescendFollows(le, t, n);
        DescendExtends(le, t, n);
        SliceStep(k, c, r);
        if r != n {
          assert Get(t, n).imagePaths == [];
        }
        FollowsCons(le, t, k, c, r[|n|..]);
      }
    } else {
      assert r[|k|..] == [];
    }
  }

  lemma {:induction false} DescendExtends(le: NameOrder, t: Arena, k: Key)
    ensures k <= Descend(le, t, k)
    decreases Bound(t) - |k|
  {
    if Get(t, k).imagePaths == [] && FirstEligible(le, t, k).Some? {
      var n := k + [FirstEligible(le, t, k).value];
      if !(Get(t, n).children == [] && Get(t, n).imagePaths == []) {
        DescendExtends(le, t, n);
      }
    }
  }

  /** Following first eligible children is following linked children. */
  lemma {:induction false} FollowsLinked(le: NameOrder, t: Arena, k: Key, segs: seq<string>)
    requires Follows(le, t, k, segs)
    ensures Linked(t, k, segs)
    decreases |segs|
  {
    if segs != [] {
      FollowsLinked(le, t, k + [segs[0]], segs[1..]);
    }
  }

  // ---------------------------------------------------------------------------------
  // SetCurrentByPath

  /** The window's position: the breadcrumb segments and the node shown. */
  datatype View = View(breadcrumb: seq<string>, current: Key)

  /** Where SetCurrentByPath(path) leaves the window in tree t. */
  function Navigate(le: NameOrder, t: Arena, path: string): View {
    if path == "" then View([], [])
    else
      var bc := SplitNonEmpty(path, '/');
      var cur := NodeByBreadcrumb(t, bc);
      if Get(t, cur).imagePaths == [] && Get(t, cur).children != [] then
        var d := Descend(le, t, cur);
        if d != cur then View(SplitNonEmpty(Get(t, d).path, '/'), d) else View(bc, cur)
      else View(bc, cur)
  }

  /** Segments a path can be split back into. */
  ghost predicate CleanSegments(t: Arena) {
    forall k, c :: k + [c] in t ==> c != "" && '/' !in c
  }

  lemma {:induction false} PathOfIsJoin(k: Key)
    requires forall i :: 0 <= i < |k| ==> k[i] != ""
    ensures PathOf(k) == Join(k, '/')
    ensures k != [] ==> PathOf(k) != ""
    decreases |k|
  {
    if k != [] {
      var init := k[..|k| - 1];
      PathOfIsJoin(init);
      assert init + [k[|k| - 1]] == k;
      if init != [] {
        JoinSnoc(init, k[|k| - 1], '/');
      }
    }
  }

  /** A key whose segments are non-empty and free of '/' is what its path splits into. */
  lemma BreadcrumbOfPath(k: Key)
    requires forall i :: 0 <= i < |k| ==> k[i] != "" && '/' !in k[i]
    ensures SplitNonEmpty(PathOf(k), '/') == k
  {
    PathOfIsJoin(k);
    if k != [] {
      SplitJoin(k, '/');
      NonEmptyOfNonEmpty(k);
    } else {
      assert Split("", '/') == [""];
      assert NonEmpty([""]) == [];
    }
  }

  /** The segments of a key in the tree are clean when the tree's are. */
  lemma {:induction false} KeySegments(t: Arena, k: Key)
    requires ParentsPresent(t) && CleanSegments(t) && k in t
    ensures forall i :: 0 <= i < |k| ==> k[i] != "" && '/' !in k[i]
    decreases |k|
  {
    if k != [] {
      var init := k[..|k| - 1];
      assert init + [k[|k| - 1]] == k;
      KeySegments(t, init);
    }
  }

  /** A node the breadcrumb reaches is in the tree. */
  lemma ReachedPresent(t: Arena, bc: seq<string>)
    requires ChildrenPresent(t) && [] in t
    ensures NodeByBreadcrumb(t, bc) in t && Linked(t, [], NodeByBreadcrumb(t, bc))
  {
    if Linked(t, [], bc) {
      LinkedPresent(t, [], bc);
      assert [] + bc == bc;
    }
  }

  /** The descent from a node the breadcrumb reaches ends at one it reaches too. */
  lemma DescentLinked(le: NameOrder, t: Arena, cur: Key)
    requires Linked(t, [], cur)
    ensures Linked(t, [], Descend(le, t, cur))
  {
    DescendFollows(le, t, cur);
    DescendExtends(le, t, cur);
    var d := Descend(le, t, cur);
    FollowsLinked(le, t, cur, d[|cur|..]);
    assert [] + cur == cur;
    LinkedAppend(t, [], cur, d[|cur|..]);
    assert cur + d[|cur|..] == d;
    assert [] + d == d;
  }

  /** The path of a node the breadcrumb reaches splits into a breadcrumb that reaches it. */
  lemma PathReaches(t: Arena, d: Key)
    requires ParentsPresent(t) && PathsJoined(t) && CleanSegments(t)
    requires d in t && Linked(t, [], d)
    ensures NodeByBreadcrumb(t, SplitNonEmpty(Get(t, d).path, '/')) == d
  {
    KeySegments(t, d);
    BreadcrumbOfPath(d);
  }

  /** Keys whose segments are all proper names give clean segments. */
  lemma NamedKeysClean(t: Arena)
    requires NamedKeys(t)
    ensures CleanSegments(t)
  {
    forall k, c | k + [c] in t
      ensures c != "" && '/' !in c
    {
      assert NamedKey(k + [c]);
      assert (k + [c])[|k|] == c;
    }
  }

  /** For the tree a listing builds from the fresh root, when no listed path has an empty
      folder segment: every folder name is clean, and the breadcrumb SetCurrentByPath
      leaves names the node it shows. */
  lemma ListingNavigable(le: NameOrder, paths: seq<string>, bodies: map<string, string>, path: string)
    requires forall i :: 0 <= i < |paths| ==> NamedFolders(paths[i])
    ensures var b := BuildTree(EmptyTree, paths, bodies).tree;
      CleanSegments(b)
      && var v := Navigate(le, b, path);
         NodeByBreadcrumb(b, v.breadcrumb) == v.current && v.current in b
  {
    EmptyTreeBuilt();
    BuildTreeValid(EmptyTree, paths, bodies);
    assert NamedKeys(EmptyTree) by {
      forall k | k in EmptyTree
        ensures NamedKey(k)
      {
        assert k == [];
      }
    }
    BuildTreeNamed(EmptyTree, paths, bodies);
    var b := BuildTree(EmptyTree, paths, bodies).tree;
    NamedKeysClean(b);
    NavigateConsistent(le, b, path);
  }

  /** After SetCurrentByPath the breadcrumb names the node shown, so the next repaint's
      `current = GetNodeByBreadcrumb() ?? root` finds the same node; and that node is in the
      tree. */
  lemma NavigateConsistent(le: NameOrder, t: Arena, path: string)
    requires Valid(t) && CleanSegments(t)
    ensures var v := Navigate(le, t, path);
      NodeByBreadcrumb(t, v.breadcrumb) == v.current && v.current in t
  {
    if path != "" {
      var bc := SplitNonEmpty(path, '/');
      ReachedPresent(t, bc);
      var cur := NodeByBreadcrumb(t, bc);
      if Get(t, cur).imagePaths == [] && Get(t, cur).children != [] {
        DescendPresent(le, t, cur);
        DescentLinked(le, t, cur);
        PathReaches(t, Descend(le, t, cur));
      }
    }
  }

  // ---------------------------------------------------------------------------------
  // The default selection

  /** The top-level folder selected when nothing is: with an empty breadcrumb and a root
      that has children, the first eligible child of the root. */
  function DefaultPick(le: NameOrder, t: Arena, bc: seq<string>): Option<string> {
    if bc == [] && Get(t, []).children != [] then FirstEligible(le, t, []) else None
  }

  /** A top-level folder's path is its name, and splits back into it. */
  lemma TopLevelPath(t: Arena, c: string)
    requires PathsJoined(t) && CleanSegments(t) && [c] in t
    ensures Get(t, [c]).path == c && SplitNonEmpty(c, '/') == [c]
  {
    assert [] + [c] == [c];
    assert PathOf([c]) == c by {
      assert [c][..0] == [];
    }
    BreadcrumbOfPath([c]);
  }

  lemma TopLevelLookup(t: Arena, c: string)
    requires c in Get(t, []).children
    ensures NodeByBreadcrumb(t, [c]) == [c]
  {
    assert Linked(t, [], [c]) by {
      assert [] + [c] == [c] && [c][1..] == [];
    }
  }

  /** Navigating to the name of a top-level folder opens that folder or one below it. */
  lemma NavigateFromTop(le: NameOrder, t: Arena, c: string)
    requires c != "" && SplitNonEmpty(c, '/') == [c] && c in Get(t, []).children
    ensures |Navigate(le, t, c).current| >= 1 && Navigate(le, t, c).current[0] == c
  {
    TopLevelLookup(t, c);
    if Get(t, [c]).imagePaths == [] && Get(t, [c]).children != [] {
      DescendExtends(le, t, [c]);
      assert Descend(le, t, [c])[..1] == [c];
    }
  }

  /** The default selection opens the least eligible top-level folder, or a folder below
      it by the automatic descent (NavigateConsistent: the breadcrumb names it). */
  lemma DefaultOpensFirst(le: NameOrder, t: Arena, c: string)
    requires ChildrenPresent(t) && PathsJoined(t) && CleanSegments(t)
    requires DefaultPick(le, t, []) == Some(c)
    ensures var v := Navigate(le, t, Get(t, [c]).path);
      |v.current| >= 1 && v.current[0] == c
  {
    assert c in Get(t, []).children && [] in t;
    assert [] + [c] == [c];
    assert [c] in t;
    TopLevelPath(t, c);
    NavigateFromTop(le, t, c);
  }

  // ---------------------------------------------------------------------------------
  // Navigation does not look at buttons

  lemma ShapeAgrees(t: Arena, u: Arena, k: Key)
    requires SameShape(t, u)
    ensures Get(u, k).children == Get(t, k).children && Get(u, k).imagePaths == Get(t, k).imagePaths
    ensures Get(u, k).hidden == Get(t, k).hidden && Get(u, k).path == Get(t, k).path
  {
    if k in t {
      assert Strip(u[k]) == Strip(t[k]);
    }
  }

  lemma {:induction false} MinEligibleShape(le: NameOrder, t: Arena, u: Arena, k: Key, cs: seq<string>)
    requires SameShape(t, u)
    ensures MinEligible(le, u, k, cs) == MinEligible(le, t, k, cs)
    decreases |cs|
  {
    if cs != [] {
      ShapeAgrees(t, u, k + [cs[0]]);
      MinEligibleShape(le, t, u, k, cs[1..]);
    }
  }

  lemma {:induction false} LookupShape(t: Arena, u: Arena, k: Key, bc: seq<string>)
    requires SameShape(t, u)
    ensures Lookup(u, k, bc) == Lookup(t, k, bc)
    decreases |bc|
  {
    if bc != [] {
      ShapeAgrees(t, u, k);
      LookupShape(t, u, k + [bc[0]], bc[1..]);
    }
  }

  lemma {:induction false} DescendShape(le: NameOrder, t: Arena, u: Arena, k: Key)
    requires SameShape(t, u)
    ensures Descend(le, u, k) == Descend(le, t, k)
    decreases Bound(t) - |k|
  {
    ShapeAgrees(t, u, k);
    MinEligibleShape(le, t, u, k, Get(t, k).children);
    if Get(t, k).imagePaths == [] && FirstEligible(le, t, k).Some? {
      var n := k + [FirstEligible(le, t, k).value];
      ShapeAgrees(t, u, n);
      DescendShape(le, t, u, n);
    }
  }

  /** Where SetCurrentByPath lands does not depend on buttons, so attaching buttons before
      or after it (ProcessButtonFiles is async and may still be running) changes nothing. */
  lemma NavigateIgnoresButtons(le: NameOrder, t: Arena, u: Arena, path: string)
    requires SameShape(t, u)
    ensures Navigate(le, u, path) == Navigate(le, t, path)
  {
    if path != "" {
      var bc := SplitNonEmpty(path, '/');
      LookupShape(t, u, [], bc);
      var cur := NodeByBreadcrumb(t, bc);
      ShapeAgrees(t, u, cur);
      DescendShape(le, t, u, cur);
      ShapeAgrees(t, u, Descend(le, t, cur));
    }
  }
}
