/** A model of src/search.rs: argument validation (`Config::build`), the
    recursive directory search (`search_dir`) and the highlighted printing
    of a match (`print_match`).

    The filesystem is a finite tree of listings. `fs::read_dir(dir)` is
    the `Listing` handed to the search: it either fails outright
    (`Unreadable`) or yields a sequence of items, each of which is an entry
    or an iteration error (`Failed`). The console is the sequence of lines
    a search returns, in the order they are printed. */
module Search {
  import opened Text

  /** The message `Config::build` reports for a wrong argument count. */
  const InvalidArguments := "Invalid arguments!"
  /** ANSI "red foreground" and "reset" escape sequences around a match. */
  const Red := "\U{1B}[31m"
  const Reset := "\U{1B}[0m"

  datatype Config = Config(query: string, rootPath: string)

  datatype Result<T> = Ok(value: T) | Err(error: string)

  /** `Config::build`: the argument vector (program name first, as
      `env::args` yields it) must hold exactly three strings; the query is
      the second and the root path the third. */
  method Build(args: seq<string>) returns (r: Result<Config>)
    ensures r.Err? <==> |args| != 3
    ensures r.Err? ==> r.error == InvalidArguments
    ensures r.Ok? ==> r.value.query == args[1] && r.value.rootPath == args[2]
  {
    var config := Config("", "");
    if |args| != 3 {
      return Err(InvalidArguments);
    }
    config := config.(query := args[1]);
    config := config.(rootPath := args[2]);
    return Ok(config);
  }

  // ---------------------------------------------------------------------
  // Paths

  /** `dir` ready to have a file name appended: a separator is added
      unless `dir` is empty or already ends in one (`PathBuf::push`). */
  function WithSeparator(dir: string): string
  {
    if dir == [] || dir[|dir| - 1] == '/' then dir else dir + "/"
  }

  /** `DirEntry::path()`: the entry's name appended to its directory. */
  function Join(dir: string, name: string): string
  {
    WithSeparator(dir) + name
  }

  /** The joined path starts with the directory, then at most one added
      separator, and ends with the name. */
  lemma JoinShape(dir: string, name: string)
    ensures var p := Join(dir, name);
      |WithSeparator(dir)| <= |dir| + 1 && p[..|dir|] == dir && p[|p| - |name|..] == name
    ensures WithSeparator(dir) != [] ==> WithSeparator(dir)[|WithSeparator(dir)| - 1] == '/'
  {
  }

  // ---------------------------------------------------------------------
  // Highlighting (`print_match`)

  /** The printed form of a matched path: the leftmost occurrence of the
      query in the WHOLE path is wrapped in red/reset markers
      (`replacen(query, red + query + reset, 1)`). */
  function Highlight(path: string, query: string): string
  {
    ReplaceFirst(path, query, Red + query + Reset)
  }

  /** Highlighting leaves a path without the query unchanged, and otherwise
      wraps exactly the leftmost occurrence, keeping everything around it. */
  lemma HighlightShape(path: string, query: string)
    ensures (forall i: nat :: !OccursAt(path, query, i)) ==> Highlight(path, query) == path
    ensures forall i: nat :: IsFirstOccurrence(path, query, i) ==>
      Highlight(path, query) == path[..i] + Red + query + Reset + path[i + |query|..]
  {
    ReplaceFirstSpec(path, query, Red + query + Reset);
  }

  /** `print_match`: the line written for a matched path. */
  method PrintMatch(path: string, query: string) returns (line: string)
    ensures line == Highlight(path, query)
  {
    var pathHighlight := "";
    pathHighlight := pathHighlight + path;
    assert pathHighlight == path;
    pathHighlight := ReplaceFirst(pathHighlight, query, Red + query + Reset);
    line := pathHighlight;
  }

  // ---------------------------------------------------------------------
  // The filesystem tree and the traversal it determines

  /** What `is_dir` sees: a directory has a listing, anything else is a file. */
  datatype Node = File | Dir(listing: Listing)

  /** The outcome of `fs::read_dir` and of iterating over it. */
  datatype Listing = Unreadable | Readable(items: seq<Item>)

  /** One item of the directory iterator: an entry, or an I/O error. */
  datatype Item = Failed | Entry(name: string, node: Node)

  /** An entry as the search meets it: its full path and its file name. */
  datatype Visit = Visit(path: string, name: string)

  /** The entries `search_dir(dir)` tests, in the order it tests them:
      each entry of the listing, then (if a directory) the entries below it,
      then its later siblings; an iteration error ends the listing. */
  function Walk(dir: string, listing: Listing): seq<Visit>
  {
    if listing.Readable? then WalkFrom(dir, listing, 0) else []
  }

  /** The entries tested from item `i` of a readable listing onwards. */
  function WalkFrom(dir: string, listing: Listing, i: nat): seq<Visit>
    requires listing.Readable? && i <= |listing.items|
    decreases listing, |listing.items| - i
  {
    if i == |listing.items| then []
    else
      match listing.items[i]
      case Failed => []
      case Entry(name, node) =>
        var path := Join(dir, name);
        [Visit(path, name)]
        + (if node.Dir? && node.listing.Readable? then WalkFrom(path, node.listing, 0) else [])
        + WalkFrom(dir, listing, i + 1)
  }

  /** `search_dir` returns `Ok` exactly when its own listing could be read
      and iterated to the end; errors below it do not count. */
  predicate Succeeds(listing: Listing) {
    listing.Readable? && forall j | 0 <= j < |listing.items| :: listing.items[j].Entry?
  }

  /** The entries whose file names contain the query, in visit order. */
  function Matches(query: string, visits: seq<Visit>): seq<Visit>
  {
    if visits == [] then []
    else
      (if Contains(visits[0].name, query) then [visits[0]] else [])
      + Matches(query, visits[1..])
  }

  /** The printed lines for a sequence of matched entries. */
  function Lines(query: string, ms: seq<Visit>): seq<string>
  {
    if ms == [] then [] else [Highlight(ms[0].path, query)] + Lines(query, ms[1..])
  }

  lemma {:induction false} MatchesAppend(query: string, a: seq<Visit>, b: seq<Visit>)
    ensures Matches(query, a + b) == Matches(query, a) + Matches(query, b)
  {
    if a == [] {
      assert a + b == b;
    } else {
      assert (a + b)[0] == a[0];
      assert (a + b)[1..] == a[1..] + b;
      MatchesAppend(query, a[1..], b);
    }
  }

  lemma {:induction false} LinesAppend(query: string, a: seq<Visit>, b: seq<Visit>)
    ensures Lines(query, a + b) == Lines(query, a) + Lines(query, b)
  {
    if a == [] {
      assert a + b == b;
    } else {
      assert (a + b)[0] == a[0];
      assert (a + b)[1..] == a[1..] + b;
      LinesAppend(query, a[1..], b);
    }
  }

  /** The lines printed for a sequence of tested entries. */
  function Report(query: string, visits: seq<Visit>): seq<string> {
    Lines(query, Matches(query, visits))
  }

  /** The lines printed for `a + b` are those for `a` followed by those for `b`. */
  lemma ReportAppend(query: string, a: seq<Visit>, b: seq<Visit>)
    ensures Report(query, a + b) == Report(query, a) + Report(query, b)
  {
    MatchesAppend(query, a, b);
    LinesAppend(query, Matches(query, a), Matches(query, b));
  }

  /** A single tested entry prints its highlighted path exactly when its
      file name contains the query. */
  lemma ReportOne(query: string, v: Visit)
    ensures Report(query, [v]) == if Contains(v.name, query) then [Highlight(v.path, query)] else []
  {
    assert [v][1..] == [];
    assert Matches(query, []) == [];
    assert Lines(query, []) == [];
  }

  /** What a listing's entries before index `i` and their subtrees add to
      the walk, as the loop of `search_dir` accumulates it. */
  function WalkPrefix(dir: string, listing: Listing, i: nat): seq<Visit>
    requires listing.Readable? && i <= |listing.items|
    requires forall j | 0 <= j < i :: listing.items[j].Entry?
  {
    if i == 0 then []
    else
      WalkPrefix(dir, listing, i - 1) + EntryWalk(dir, listing.items[i - 1])
  }

  /** What entry `i` of a listing adds to the walk: the entry itself, then
      everything below it when it is a directory. */
  function EntryWalk(dir: string, item: Item): seq<Visit>
    requires item.Entry?
  {
    var path := Join(dir, item.name);
    [Visit(path, item.name)] + (if item.node.Dir? then Walk(path, item.node.listing) else [])
  }

  /** Unfolding the walk at an entry. */
  lemma WalkFromEntry(dir: string, listing: Listing, i: nat)
    requires listing.Readable? && i < |listing.items| && listing.items[i].Entry?
    ensures WalkFrom(dir, listing, i) == EntryWalk(dir, listing.items[i]) + WalkFrom(dir, listing, i + 1)
  {
  }

  /** The walk of a listing is what its first `i` entries contribute
      followed by the walk from entry `i` on. */
  lemma {:induction false} WalkSplitsAt(dir: string, listing: Listing, i: nat)
    requires listing.Readable? && i <= |listing.items|
    requires forall j | 0 <= j < i :: listing.items[j].Entry?
    ensures Walk(dir, listing) == WalkPrefix(dir, listing, i) + WalkFrom(dir, listing, i)
  {
    if i == 0 {
      assert WalkPrefix(dir, listing, 0) == [];
      assert [] + WalkFrom(dir, listing, 0) == WalkFrom(dir, listing, 0);
      assert Walk(dir, listing) == WalkFrom(dir, listing, 0);
    } else {
      WalkSplitsAt(dir, listing, i - 1);
      WalkFromEntry(dir, listing, i - 1);
      Regroup(Walk(dir, listing), WalkPrefix(dir, listing, i - 1), WalkFrom(dir, listing, i - 1),
              EntryWalk(dir, listing.items[i - 1]), WalkFrom(dir, listing, i), WalkPrefix(dir, listing, i));
    }
  }

  /** Regrouping `before + (step + after)` as `(before + step) + after`. */
  lemma Regroup<T>(whole: seq<T>, before: seq<T>, rest: seq<T>, step: seq<T>, after: seq<T>, done: seq<T>)
    requires whole == before + rest && rest == step + after && done == before + step
    ensures whole == done + after
  {
  }

  /** The body of `search_dir`'s loop for one entry of directory `dir`:
      test its name, print it if it matches, and search below it if it is a
      directory (ignoring how that search ends). */
  method SearchEntry(query: string, dir: string, name: string, node: Node) returns (out: seq<string>)
    ensures out == Report(query, EntryWalk(dir, Entry(name, node)))
    decreases node
  {
    var path := Join(dir, name);
    ghost var v := Visit(path, name);
    ghost var below := if node.Dir? then Walk(path, node.listing) else [];
    out := [];
    if Contains(name, query) {
      var line := PrintMatch(path, query);
      out := [line];
    }
    ReportOne(query, v);
    if node.Dir? {
      var _, lines := SearchDir(query, path, node.listing);
      ReportAppend(query, [v], below);
      out := out + lines;
    } else {
      assert [v] + below == [v];
    }
  }

  /** `search_dir(query, dir)` with `listing` the result of `fs::read_dir(dir)`.
      Returns whether the call ends in `Ok` and the lines it prints. */
  method SearchDir(query: string, dir: string, listing: Listing) returns (ok: bool, out: seq<string>)
    ensures ok <==> Succeeds(listing)
    ensures out == Report(query, Walk(dir, listing))
    ensures listing.Unreadable? ==> out == []
    decreases listing
  {
    if listing.Unreadable? {
      assert Report(query, []) == [];
      return false, [];
    }
    var items := listing.items;
    out := [];
    var i := 0;
    while i < |items|
      invariant 0 <= i <= |items|
      invariant forall j | 0 <= j < i :: items[j].Entry?
      invariant out == Report(query, WalkPrefix(dir, listing, i))
    {
      var item := items[i];
      if item.Failed? {
        WalkSplitsAt(dir, listing, i);
        assert WalkPrefix(dir, listing, i) + [] == WalkPrefix(dir, listing, i);
        return false, out;
      }
      var lines := SearchEntry(query, dir, item.name, item.node);
      ReportAppend(query, WalkPrefix(dir, listing, i), EntryWalk(dir, item));
      out := out + lines;
      assert forall j | 0 <= j < i + 1 :: items[j].Entry? by {
        assert items[i].Entry?;
      }
      i := i + 1;
    }
    WalkSplitsAt(dir, listing, i);
    assert WalkPrefix(dir, listing, i) + [] == WalkPrefix(dir, listing, i);
    ok := true;
  }
}
