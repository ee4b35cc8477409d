/** Properties of the search model: which entries are reported, in what
    order, how errors shape the walk, and what a printed line looks like. */
module SearchProperties {
  import opened Text
  import opened Search

  // ---------------------------------------------------------------------
  // The match test

  /** An entry is reported exactly when its file name contains the query. */
  lemma {:induction false} MatchesIff(query: string, visits: seq<Visit>, v: Visit)
    ensures v in Matches(query, visits) <==> v in visits && Contains(v.name, query)
  {
    if visits != [] {
      MatchesIff(query, visits[1..], v);
      assert visits == [visits[0]] + visits[1..];
    }
  }

  /** With the empty query every tested entry is reported, in visit order. */
  lemma {:induction false} EmptyQueryMatchesAll(visits: seq<Visit>)
    ensures Matches("", visits) == visits
  {
    if visits != [] {
      EmptyPatternFirstAtZero(visits[0].name, "");
      EmptyQueryMatchesAll(visits[1..]);
    }
  }

  /** The `k`-th printed line is the highlighted path of the `k`-th match. */
  lemma {:induction false} LinesAt(query: string, ms: seq<Visit>)
    ensures |Lines(query, ms)| == |ms|
    ensures forall k | 0 <= k < |ms| :: Lines(query, ms)[k] == Highlight(ms[k].path, query)
  {
    if ms != [] {
      LinesAt(query, ms[1..]);
    }
  }

  /** A line is printed by the search exactly when it is the highlighted path
      of a tested entry whose file name contains the query. */
  lemma PrintedIff(query: string, dir: string, listing: Listing, line: string)
    ensures line in Report(query, Walk(dir, listing))
        <==> exists v :: v in Walk(dir, listing) && Contains(v.name, query) && line == Highlight(v.path, query)
  {
    var ms := Matches(query, Walk(dir, listing));
    LinesAt(query, ms);
    if line in Report(query, Walk(dir, listing)) {
      var k :| 0 <= k < |ms| && Lines(query, ms)[k] == line;
      MatchesIff(query, Walk(dir, listing), ms[k]);
    }
    forall v | v in Walk(dir, listing) && Contains(v.name, query) && line == Highlight(v.path, query)
      ensures line in Report(query, Walk(dir, listing))
    {
      MatchesIff(query, Walk(dir, listing), v);
      var k :| 0 <= k < |ms| && ms[k] == v;
      assert Lines(query, ms)[k] == line;
    }
  }

  // ---------------------------------------------------------------------
  // Which entries are visited

  /** Entry `j` of a readable listing is `v`, or `v` lies in the tree below it. */
  ghost predicate InEntry(dir: string, listing: Listing, j: nat, v: Visit)
    requires listing.Readable? && j < |listing.items|
    decreases listing, 0
  {
    var item := listing.items[j];
    item.Entry? &&
    (v == Visit(Join(dir, item.name), item.name) ||
     (item.node.Dir? && InTree(Join(dir, item.name), item.node.listing, v)))
  }

  /** `v` is an entry of the tree rooted at `dir`, at any depth, regardless
      of iteration order and of errors around it. */
  ghost predicate InTree(dir: string, listing: Listing, v: Visit)
    decreases listing, 1
  {
    listing.Readable? && exists j | 0 <= j < |listing.items| :: InEntry(dir, listing, j, v)
  }

  /** No listing in the tree fails part-way through. */
  ghost predicate NoFailures(listing: Listing)
    decreases listing
  {
    listing.Readable? ==>
      forall j | 0 <= j < |listing.items| ::
        listing.items[j].Entry? &&
        (listing.items[j].node.Dir? ==> NoFailures(listing.items[j].node.listing))
  }

  lemma {:induction false} WalkFromSound(dir: string, listing: Listing, i: nat, v: Visit)
    requires listing.Readable? && i <= |listing.items|
    requires v in WalkFrom(dir, listing, i)
    ensures exists j | i <= j < |listing.items| :: InEntry(dir, listing, j, v)
    decreases listing, |listing.items| - i
  {
    var item := listing.items[i];
    WalkFromEntry(dir, listing, i);
    var path := Join(dir, item.name);
    if v == Visit(path, item.name) {
      assert InEntry(dir, listing, i, v);
    } else if v in WalkFrom(dir, listing, i + 1) {
      WalkFromSound(dir, listing, i + 1, v);
    } else {
      WalkFromSound(path, item.node.listing, 0, v);
      assert InEntry(dir, listing, i, v);
    }
  }

  /** Everything the search tests is an entry of the tree below the root. */
  lemma WalkSound(dir: string, listing: Listing, v: Visit)
    requires v in Walk(dir, listing)
    ensures InTree(dir, listing, v)
  {
    WalkFromSound(dir, listing, 0, v);
  }

  /** In a tree where no listing fails part-way, every entry of every
      readable directory is tested. */
  lemma {:induction false} WalkComplete(dir: string, listing: Listing, v: Visit)
    requires NoFailures(listing) && InTree(dir, listing, v)
    ensures v in Walk(dir, listing)
    decreases listing
  {
    var j :| 0 <= j < |listing.items| && InEntry(dir, listing, j, v);
    var item := listing.items[j];
    var path := Join(dir, item.name);
    WalkSplitsAt(dir, listing, j);
    WalkFromEntry(dir, listing, j);
    if v != Visit(path, item.name) {
      WalkComplete(path, item.node.listing, v);
    }
    assert v in EntryWalk(dir, item);
  }

  // ---------------------------------------------------------------------
  // The paths the search builds

  /** A file name as `read_dir` yields it: non-empty and without a separator. */
  predicate ValidName(n: string) {
    n != [] && '/' !in n
  }

  /** Every name in the tree is a valid file name, and the names within one
      directory are distinct, as in a real filesystem. */
  ghost predicate WellNamed(listing: Listing)
    decreases listing
  {
    listing.Readable? ==>
      (forall j | 0 <= j < |listing.items| :: listing.items[j].Entry? ==>
         ValidName(listing.items[j].name) &&
         (listing.items[j].node.Dir? ==> WellNamed(listing.items[j].node.listing))) &&
      (forall j, k | 0 <= j < k < |listing.items| ::
         listing.items[j].Entry? && listing.items[k].Entry? ==> listing.items[j].name != listing.items[k].name)
  }

  /** `p` lies strictly below directory `dir`. */
  predicate Inside(dir: string, p: string) {
    var d := WithSeparator(dir);
    |d| < |p| && p[..|d|] == d
  }

  /** `p` is the entry `name` of directory `dir`, or lies below it. */
  predicate Under(dir: string, name: string, p: string) {
    var d := Join(dir, name);
    |d| <= |p| && p[..|d|] == d && (|p| == |d| || p[|d|] == '/')
  }

  /** A path ends with the given file name. */
  predicate EndsWith(p: string, name: string) {
    |name| <= |p| && p[|p| - |name|..] == name
  }

  lemma UnderInside(dir: string, name: string, p: string)
    requires ValidName(name) && Under(dir, name, p)
    ensures Inside(dir, p)
  {
  }

  /** Below `dir/name` means under entry `name` of `dir`. */
  lemma InsideJoinUnder(dir: string, name: string, p: string)
    requires ValidName(name) && Inside(Join(dir, name), p)
    ensures Under(dir, name, p)
  {
  }

  /** Distinct valid names of one directory have disjoint subtrees. */
  lemma UnderUnique(dir: string, n1: string, n2: string, p: string)
    requires ValidName(n1) && ValidName(n2)
    requires Under(dir, n1, p) && Under(dir, n2, p)
    ensures n1 == n2
  {
    var w := |WithSeparator(dir)|;
    var d1 := Join(dir, n1);
    var d2 := Join(dir, n2);
    assert forall k | 0 <= k < |n1| :: p[w + k] == n1[k] by {
      forall k | 0 <= k < |n1| ensures p[w + k] == n1[k] {
        assert p[w + k] == p[..|d1|][w + k];
      }
    }
    assert forall k | 0 <= k < |n2| :: p[w + k] == n2[k] by {
      forall k | 0 <= k < |n2| ensures p[w + k] == n2[k] {
        assert p[w + k] == p[..|d2|][w + k];
      }
    }
    if |n1| < |n2| {
      assert false;
    } else if |n2| < |n1| {
      assert false;
    }
    assert n1 == n2;
  }

  /** An entry of the tree below `dir` is `dir/name` or below it, for the
      name of the top-level entry it belongs to, and its path ends with its
      own file name. */
  lemma {:induction false} InEntryShape(dir: string, listing: Listing, j: nat, v: Visit)
    requires listing.Readable? && j < |listing.items| && InEntry(dir, listing, j, v)
    ensures EndsWith(v.path, v.name)
    ensures WellNamed(listing) ==> Under(dir, listing.items[j].name, v.path)
    decreases listing
  {
    var item := listing.items[j];
    var path := Join(dir, item.name);
    if v == Visit(path, item.name) {
      JoinShape(dir, item.name);
      assert v.path[..|path|] == path;
    } else {
      var sub := item.node.listing;
      assert InTree(path, sub, v);
      var k :| 0 <= k < |sub.items| && InEntry(path, sub, k, v);
      InEntryShape(path, sub, k, v);
      if WellNamed(listing) {
        assert WellNamed(sub) && sub.items[k].Entry?;
        UnderInside(path, sub.items[k].name, v.path);
        InsideJoinUnder(dir, item.name, v.path);
      }
    }
  }

  /** Every tested path ends with the file name tested, and lies strictly
      inside the root: the root directory itself is never tested. */
  lemma WalkPaths(dir: string, listing: Listing, v: Visit)
    requires v in Walk(dir, listing)
    ensures EndsWith(v.path, v.name)
    ensures WellNamed(listing) ==> Inside(dir, v.path) && v.path != dir
  {
    WalkSound(dir, listing, v);
    var j :| 0 <= j < |listing.items| && InEntry(dir, listing, j, v);
    InEntryShape(dir, listing, j, v);
    if WellNamed(listing) {
      UnderInside(dir, listing.items[j].name, v.path);
      JoinShape(dir, "");
    }
  }

  /** No two visits share a path. */
  ghost predicate DistinctPaths(vs: seq<Visit>) {
    forall a, b | 0 <= a < b < |vs| :: vs[a].path != vs[b].path
  }

  lemma DistinctAppend(xs: seq<Visit>, ys: seq<Visit>)
    requires DistinctPaths(xs) && DistinctPaths(ys)
    requires forall x, y | x in xs && y in ys :: x.path != y.path
    ensures DistinctPaths(xs + ys)
  {
  }

  /** An entry's own path differs from every path below it. */
  lemma EntryNotBelow(dir: string, item: Item)
    requires item.Entry? && (item.node.Dir? ==> WellNamed(item.node.listing))
    ensures var path := Join(dir, item.name);
      forall y | y in EntryWalk(dir, item)[1..] :: y.path != path
  {
    var path := Join(dir, item.name);
    forall y | y in EntryWalk(dir, item)[1..] ensures y.path != path {
      WalkPaths(path, item.node.listing, y);
      JoinShape(path, "");
    }
  }

  /** Everything entry `i` contributes to the walk belongs to entry `i`. */
  lemma EntryWalkInEntry(dir: string, listing: Listing, i: nat, x: Visit)
    requires listing.Readable? && i < |listing.items| && listing.items[i].Entry?
    requires x in EntryWalk(dir, listing.items[i])
    ensures InEntry(dir, listing, i, x)
  {
    var item := listing.items[i];
    var path := Join(dir, item.name);
    if x != Visit(path, item.name) {
      WalkSound(path, item.node.listing, x);
    }
  }

  /** A path that belongs to entry `i` belongs to no later sibling. */
  lemma SiblingDisjoint(dir: string, listing: Listing, i: nat, x: Visit, y: Visit)
    requires listing.Readable? && i < |listing.items| && WellNamed(listing)
    requires InEntry(dir, listing, i, x) && y in WalkFrom(dir, listing, i + 1)
    ensures x.path != y.path
  {
    InEntryShape(dir, listing, i, x);
    WalkFromSound(dir, listing, i + 1, y);
    var k :| i + 1 <= k < |listing.items| && InEntry(dir, listing, k, y);
    InEntryShape(dir, listing, k, y);
    if x.path == y.path {
      UnderUnique(dir, listing.items[i].name, listing.items[k].name, y.path);
    }
  }

  /** What entry `i` contributes shares no path with what its later
      siblings contribute. */
  lemma SiblingsDisjoint(dir: string, listing: Listing, i: nat)
    requires listing.Readable? && i < |listing.items| && listing.items[i].Entry? && WellNamed(listing)
    ensures forall x, y | x in EntryWalk(dir, listing.items[i]) && y in WalkFrom(dir, listing, i + 1) ::
      x.path != y.path
  {
    forall x, y | x in EntryWalk(dir, listing.items[i]) && y in WalkFrom(dir, listing, i + 1)
      ensures x.path != y.path
    {
      EntryWalkInEntry(dir, listing, i, x);
      SiblingDisjoint(dir, listing, i, x, y);
    }
  }

  lemma {:induction false} WalkFromDistinct(dir: string, listing: Listing, i: nat)
    requires listing.Readable? && i <= |listing.items| && WellNamed(listing)
    ensures DistinctPaths(WalkFrom(dir, listing, i))
    decreases listing, |listing.items| - i
  {
    if i < |listing.items| && listing.items[i].Entry? {
      var item := listing.items[i];
      var path := Join(dir, item.name);
      var below := if item.node.Dir? then Walk(path, item.node.listing) else [];
      var entry := EntryWalk(dir, item);
      WalkFromEntry(dir, listing, i);
      if item.node.Dir? && item.node.listing.Readable? {
        WalkFromDistinct(path, item.node.listing, 0);
      }
      assert entry == [Visit(path, item.name)] + below && entry[1..] == below;
      EntryNotBelow(dir, item);
      DistinctAppend([Visit(path, item.name)], below);
      WalkFromDistinct(dir, listing, i + 1);
      SiblingsDisjoint(dir, listing, i);
      DistinctAppend(entry, WalkFrom(dir, listing, i + 1));
    }
  }

  /** In a well-named tree the search tests no path twice; with
      `WalkSound` and `WalkComplete`, every entry of a failure-free tree is
      tested exactly once. */
  lemma WalkDistinct(dir: string, listing: Listing)
    requires WellNamed(listing)
    ensures DistinctPaths(Walk(dir, listing))
  {
    if listing.Readable? {
      WalkFromDistinct(dir, listing, 0);
    }
  }

  /** Filtering keeps paths distinct. */
  lemma {:induction false} MatchesDistinct(query: string, visits: seq<Visit>)
    requires DistinctPaths(visits)
    ensures DistinctPaths(Matches(query, visits))
  {
    if visits != [] {
      var rest := visits[1..];
      assert DistinctPaths(rest) by {
        forall a, b | 0 <= a < b < |rest| ensures rest[a].path != rest[b].path {
          assert rest[a] == visits[a + 1] && rest[b] == visits[b + 1];
        }
      }
      MatchesDistinct(query, rest);
      var head := if Contains(visits[0].name, query) then [visits[0]] else [];
      forall x, y | x in head && y in Matches(query, rest) ensures x.path != y.path {
        MatchesIff(query, rest, y);
        var b :| 0 <= b < |rest| && rest[b] == y;
        assert visits[b + 1] == y;
      }
      DistinctAppend(head, Matches(query, rest));
    }
  }

  /** In a well-named tree without failures the search reports every entry
      whose file name contains the query, nothing else, and no path twice;
      one line is printed per reported entry, in order. */
  lemma SearchReportsExactlyTheMatches(query: string, dir: string, listing: Listing, v: Visit)
    requires NoFailures(listing) && WellNamed(listing)
    ensures v in Matches(query, Walk(dir, listing)) <==> InTree(dir, listing, v) && Contains(v.name, query)
    ensures DistinctPaths(Matches(query, Walk(dir, listing)))
    ensures |Report(query, Walk(dir, listing))| == |Matches(query, Walk(dir, listing))|
  {
    var ms := Matches(query, Walk(dir, listing));
    MatchesIff(query, Walk(dir, listing), v);
    if v in Walk(dir, listing) {
      WalkSound(dir, listing, v);
    }
    if InTree(dir, listing, v) {
      WalkComplete(dir, listing, v);
    }
    WalkDistinct(dir, listing);
    MatchesDistinct(query, Walk(dir, listing));
    LinesAt(query, ms);
  }

  // ---------------------------------------------------------------------
  // Errors and the order of the walk

  /** The walk from item `k + i` of a listing is the walk from item `i` of
      the listing with its first `k` items dropped. */
  lemma {:induction false} WalkFromShift(dir: string, items: seq<Item>, k: nat, i: nat)
    requires k + i <= |items|
    ensures WalkFrom(dir, Readable(items), k + i) == WalkFrom(dir, Readable(items[k..]), i)
    decreases |items| - k - i
  {
    var l := Readable(items);
    var m := Readable(items[k..]);
    if k + i == |items| {
      assert WalkFrom(dir, m, i) == [];
    } else if items[k + i].Failed? {
      assert m.items[i].Failed?;
    } else {
      assert m.items[i] == items[k + i];
      WalkFromEntry(dir, l, k + i);
      WalkFromEntry(dir, m, i);
      WalkFromShift(dir, items, k, i + 1);
    }
  }

  /** What the first `i` entries contribute depends on those entries only. */
  lemma {:induction false} WalkPrefixAgrees(dir: string, l1: Listing, l2: Listing, i: nat)
    requires l1.Readable? && l2.Readable? && i <= |l1.items| && i <= |l2.items|
    requires forall j | 0 <= j < i :: l1.items[j].Entry? && l2.items[j] == l1.items[j]
    ensures WalkPrefix(dir, l1, i) == WalkPrefix(dir, l2, i)
  {
    if i > 0 {
      WalkPrefixAgrees(dir, l1, l2, i - 1);
    }
  }

  /** The walk of a listing whose first `n` items are entries and which
      ends there. */
  lemma WalkOfEntries(dir: string, items: seq<Item>, n: nat, l: Listing)
    requires n <= |items| && l == Readable(items[..n])
    requires forall j | 0 <= j < n :: items[j].Entry?
    ensures Walk(dir, l) == WalkPrefix(dir, Readable(items), n)
  {
    WalkSplitsAt(dir, l, n);
    WalkPrefixAgrees(dir, Readable(items), l, n);
  }

  /** An iteration error ends a listing: nothing after the failed item is
      tested, what came before is tested as usual, and the search of that
      directory reports `Err`. */
  lemma FailureEndsListing(dir: string, items: seq<Item>, k: nat)
    requires k < |items| && items[k].Failed?
    requires forall j | 0 <= j < k :: items[j].Entry?
    ensures Walk(dir, Readable(items)) == Walk(dir, Readable(items[..k]))
    ensures !Succeeds(Readable(items))
  {
    WalkSplitsAt(dir, Readable(items), k);
    WalkOfEntries(dir, items, k, Readable(items[..k]));
  }

  /** The walk is a pre-order traversal: the entries before a directory,
      then the directory, then everything below it, then its later
      siblings. Whatever goes wrong below an entry (an unreadable or
      failing subdirectory) changes only that entry's own part. */
  lemma PreOrder(dir: string, before: seq<Item>, name: string, node: Node, after: seq<Item>)
    requires forall j | 0 <= j < |before| :: before[j].Entry?
    ensures Walk(dir, Readable(before + [Entry(name, node)] + after))
         == Walk(dir, Readable(before)) + EntryWalk(dir, Entry(name, node)) + Walk(dir, Readable(after))
  {
    var items := before + [Entry(name, node)] + after;
    var l := Readable(items);
    var n := |before|;
    assert forall j | 0 <= j < n :: items[j] == before[j];
    var entry := EntryWalk(dir, Entry(name, node));
    WalkSplitsAt(dir, l, n);
    WalkFromEntry(dir, l, n);
    WalkFromShift(dir, items, n + 1, 0);
    assert items[n + 1..] == after;
    assert WalkFrom(dir, l, n + 1) == Walk(dir, Readable(after));
    assert items[..n] == before;
    WalkOfEntries(dir, items, n, Readable(before));
    Regroup(Walk(dir, l), WalkPrefix(dir, l, n), WalkFrom(dir, l, n), entry, WalkFrom(dir, l, n + 1),
            Walk(dir, Readable(before)) + entry);
  }

  /** An unreadable subdirectory is itself tested, and nothing below it. */
  lemma UnreadableSubdirectory(dir: string, name: string)
    ensures EntryWalk(dir, Entry(name, Dir(Unreadable))) == [Visit(Join(dir, name), name)]
  {
  }

  // ---------------------------------------------------------------------
  // The printed line

  /** A printed line marks the leftmost occurrence of the query in the
      entry's whole path; that occurrence is at or before the one in the
      file name, so it may fall in a directory component instead. */
  lemma ReportedHighlight(v: Visit, query: string)
    requires EndsWith(v.path, v.name) && Contains(v.name, query)
    ensures Contains(v.path, query)
    ensures FirstOccurrence(v.path, query).value
         <= |v.path| - |v.name| + FirstOccurrence(v.name, query).value
  {
    var k := FirstOccurrence(v.name, query).value;
    FirstOccurrenceSpec(v.name, query);
    var pre := v.path[..|v.path| - |v.name|];
    assert v.path == pre + v.name;
    FirstOccurrenceInSuffix(pre, v.name, query, k);
  }

  /** With the empty query the markers are printed in front of the path. */
  lemma EmptyQueryHighlight(path: string)
    ensures Highlight(path, "") == Red + Reset + path
  {
  }

  /** A directory component that contains the query is highlighted in
      preference to the matching file name. */
  lemma AncestorComponentHighlighted()
    ensures Highlight("report/report.pdf", "report") == Red + "report" + Reset + "/report.pdf"
  {
  }

  // ---------------------------------------------------------------------
  // A worked example

  /** The tree `root/{a.txt, sub/{report.pdf, sub2/{report_final.pdf}}}`. */
  function ExampleTree(): Listing {
    Readable([
      Entry("a.txt", File),
      Entry("sub", Dir(Readable([
        Entry("report.pdf", File),
        Entry("sub2", Dir(Readable([Entry("report_final.pdf", File)])))])))])
  }

  /** The walk of a listing that starts with an entry. */
  lemma WalkCons(dir: string, items: seq<Item>)
    requires |items| > 0 && items[0].Entry?
    ensures Walk(dir, Readable(items)) == EntryWalk(dir, items[0]) + Walk(dir, Readable(items[1..]))
  {
    WalkFromEntry(dir, Readable(items), 0);
    WalkFromShift(dir, items, 1, 0);
  }

  /** The lines printed for a sequence of visits that starts with `v`. */
  lemma ReportCons(query: string, v: Visit, rest: seq<Visit>)
    ensures Report(query, [v] + rest)
         == (if Contains(v.name, query) then [Highlight(v.path, query)] else []) + Report(query, rest)
  {
    ReportAppend(query, [v], rest);
    ReportOne(query, v);
  }

  /** A name shorter than the query never contains it. */
  lemma ShortNameNoMatch(name: string, query: string)
    requires |name| < |query|
    ensures !Contains(name, query)
  {
  }

  /** The directory `root/sub` of the example. */
  function ExampleSub(): Listing {
    ExampleTree().items[1].node.listing
  }

  lemma ExampleSub2Walk()
    ensures Walk("root/sub/sub2", ExampleSub().items[1].node.listing)
         == [Visit("root/sub/sub2/report_final.pdf", "report_final.pdf")]
  {
    var sub2 := ExampleSub().items[1].node.listing.items;
    assert Join("root/sub/sub2", "report_final.pdf") == "root/sub/sub2/report_final.pdf";
    assert sub2[1..] == [];
    assert Walk("root/sub/sub2", Readable([])) == [];
    WalkCons("root/sub/sub2", sub2);
  }

  lemma ExampleSubWalk()
    ensures Walk("root/sub", ExampleSub()) == [
      Visit("root/sub/report.pdf", "report.pdf"),
      Visit("root/sub/sub2", "sub2"),
      Visit("root/sub/sub2/report_final.pdf", "report_final.pdf")]
  {
    var sub := ExampleSub().items;
    var f4 := sub[1];
    assert Join("root/sub", "report.pdf") == "root/sub/report.pdf";
    assert Join("root/sub", "sub2") == "root/sub/sub2";
    assert sub[1..] == [f4] && [f4][1..] == [];
    assert Walk("root/sub", Readable([])) == [];
    ExampleSub2Walk();
    WalkCons("root/sub", [f4]);
    WalkCons("root/sub", sub);
  }

  lemma ExampleSubEntryWalk()
    ensures Walk("root", Readable([ExampleTree().items[1]])) == [
      Visit("root/sub", "sub"),
      Visit("root/sub/report.pdf", "report.pdf"),
      Visit("root/sub/sub2", "sub2"),
      Visit("root/sub/sub2/report_final.pdf", "report_final.pdf")]
  {
    var f2 := ExampleTree().items[1];
    assert Join("root", "sub") == "root/sub";
    assert [f2][1..] == [];
    assert Walk("root", Readable([])) == [];
    ExampleSubWalk();
    WalkCons("root", [f2]);
  }

  /** Searching it for "report" tests all five entries in pre-order. */
  lemma ExampleWalk()
    ensures Walk("root", ExampleTree()) == [
      Visit("root/a.txt", "a.txt"), Visit("root/sub", "sub"),
      Visit("root/sub/report.pdf", "report.pdf"),
      Visit("root/sub/sub2", "sub2"),
      Visit("root/sub/sub2/report_final.pdf", "report_final.pdf")]
  {
    var root := ExampleTree().items;
    assert Join("root", "a.txt") == "root/a.txt";
    assert root[1..] == [root[1]];
    ExampleSubEntryWalk();
    WalkCons("root", root);
  }

  /** ... and prints the paths of the two files. */
  lemma ExampleSearch()
    ensures Report("report", Walk("root", ExampleTree())) == [
      Highlight("root/sub/report.pdf", "report"),
      Highlight("root/sub/sub2/report_final.pdf", "report")]
  {
    ExampleWalk();
    var v3 := Visit("root/sub/report.pdf", "report.pdf");
    var v4 := Visit("root/sub/sub2", "sub2");
    var v5 := Visit("root/sub/sub2/report_final.pdf", "report_final.pdf");
    ExampleReportTail();
    ShortNameNoMatch("a.txt", "report");
    ShortNameNoMatch("sub", "report");
    ReportCons("report", Visit("root/sub", "sub"), [v3, v4, v5]);
    ReportCons("report", Visit("root/a.txt", "a.txt"), [Visit("root/sub", "sub"), v3, v4, v5]);
  }

  lemma ExampleReportTail()
    ensures Report("report", [
      Visit("root/sub/report.pdf", "report.pdf"),
      Visit("root/sub/sub2", "sub2"),
      Visit("root/sub/sub2/report_final.pdf", "report_final.pdf")]) == [
      Highlight("root/sub/report.pdf", "report"),
      Highlight("root/sub/sub2/report_final.pdf", "report")]
  {
    var v3 := Visit("root/sub/report.pdf", "report.pdf");
    var v4 := Visit("root/sub/sub2", "sub2");
    var v5 := Visit("root/sub/sub2/report_final.pdf", "report_final.pdf");
    ShortNameNoMatch("sub2", "report");
    assert OccursAt("report.pdf", "report", 0);
    assert OccursAt("report_final.pdf", "report", 0);
    ReportCons("report", v5, []);
    ReportCons("report", v4, [v5]);
    ReportCons("report", v3, [v4, v5]);
  }
}
