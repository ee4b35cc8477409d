# FsHunt search core in Dafny

FsHunt searches a directory tree for entries whose file name contains a
query string. It prints the full path of every match, with the first
occurrence of the query in that path coloured red. This project models the
search core in `src/search.rs` and proves what it reports and in what order:

- `Config::build` validates the argument vector.
- `search_dir` walks the tree recursively and tests each entry's file name
  with `str::contains`.
- `print_match` highlights the match with `str::replacen(query, …, 1)`.

## Files

- `text.dfy` (module `Text`) defines the two string operations the search
  uses: `contains` and `replacen(pat, to, 1)`. The reference definition is
  the leftmost occurrence of a pattern.
- `search.dfy` (module `Search`) holds the operations themselves:
  - `Build` models `Config::build`.
  - `PrintMatch` models `print_match`.
  - `SearchDir` and `SearchEntry` model `search_dir` and its loop body.
  - The rest defines the filesystem tree, the `Walk` specification of the
    visit order, and `Report`, the lines printed for a walk.
- `search_properties.dfy` (module `SearchProperties`) proves properties of
  that specification:
  - which entries are tested and which are reported;
  - that no path is tested twice;
  - the shape of the paths the search builds;
  - how I/O errors cut a walk short;
  - what a printed line looks like;
  - a worked example.

## How the system is represented

- **Filesystem.** The filesystem is a finite tree.
  - `fs::read_dir(dir)` is a `Listing`: either `Unreadable`, or
    `Readable(items)`.
  - Each item the directory iterator yields is either an `Entry(name, node)`
    or `Failed`, which is an I/O error from the iterator.
  - A `node` is a `Dir` carrying its own listing, or a `File` (anything
    `is_dir` rejects).
- **Paths.** `DirEntry::path()` is `Join(dir, name)`, which behaves like
  `PathBuf::push` on a Unix path: a `/` is added unless `dir` is empty or
  already ends in one.
- **Console output.** The console is the sequence of lines returned by
  `SearchDir`, in printing order.
- **Return value.** `search_dir`'s `Result<(), Box<dyn Error>>` becomes
  `ok: bool`, which is true exactly when the result is `Ok`.
- **Specification.** `SearchDir` is proved against the functional
  specification `Report(query, Walk(dir, listing))`:
  - `Walk` lists, in visit order, every entry the loop reaches.
  - `Report` keeps the entries whose name contains the query and
    highlights their paths.

The code is sequential, and the model follows the code:

- `search_dir` recurses depth-first in listing order. It keeps no counters,
  and it returns `Err` as soon as its own listing fails.
- It discards the result of the recursive call at line 46. So a failing
  subdirectory affects only its own subtree (`PreOrder`).
- The tool's design description calls for a concurrent scan with a work
  queue and match and error counters. The code implements none of these,
  so they are not modelled.
- The lines the search prints are full paths that include the root
  argument (`root/sub/report.pdf`), not paths relative to the root.
- `print_match` highlights the first occurrence of the query anywhere in
  the path, not necessarily the one inside the file name. For example,
  `report/report.pdf` with the query `report` highlights the directory
  component (`AncestorComponentHighlighted`, `ReportedHighlight`).
- The empty query matches every entry. The escape codes are then printed
  in front of the path (`EmptyQueryMatchesAll`, `EmptyQueryHighlight`).

## Model

| member | source | states |
|---|---|---|
| Search.Build | src/search.rs:14-28 | exactly three arguments give `Ok` with the query taken from argument 1 and the root path from argument 2; any other count gives `Err("Invalid arguments!")` |
| Text.FirstOccurrenceSpec | src/search.rs:40 | the search for a pattern returns the leftmost index at which it occurs, and returns nothing only when it occurs nowhere |
| Text.ContainsIff | src/search.rs:40 | `contains` holds exactly when the query occurs as a contiguous substring at some position |
| Text.ReplaceFirstSpec | src/search.rs:57 | `replacen(pat, to, 1)` leaves a string without `pat` unchanged, and otherwise replaces exactly the leftmost occurrence, keeping the text before and after it |
| Text.EmptyPatternFirstAtZero | src/search.rs:40 | the empty pattern is contained in every string, occurs first at 0, and `replacen("", to, 1)` prepends `to` |
| Text.FirstOccurrenceInSuffix | src/search.rs:57 | an occurrence inside a suffix of a string bounds the leftmost occurrence in the whole string |
| Search.JoinShape | src/search.rs:35 | an entry's path starts with its directory, adds at most one separator, and ends with the entry's name |
| Search.HighlightShape | src/search.rs:56-57 | the highlighted path equals the path when the query does not occur; otherwise it is the text before the first occurrence, then red, the query, reset, then the unchanged rest |
| Search.PrintMatch | src/search.rs:53-59 | the line printed for a match is the path with its first query occurrence highlighted |
| Search.SearchEntry | src/search.rs:34-47 | one loop iteration prints the entry's highlighted path when its name contains the query, then everything the recursive search below it prints, whatever that call returns |
| Search.SearchDir | src/search.rs:31-51 | `search_dir` returns `Ok` exactly when its listing is readable and yields no iteration error; it prints exactly the report of the pre-order walk, which is nothing when the root cannot be read |
| Search.ReportAppend | src/search.rs:33-47 | the lines printed for two consecutive parts of a walk are the lines for the first part followed by those for the second |
| Search.ReportOne | src/search.rs:40-42 | a single tested entry prints its highlighted path exactly when its file name contains the query |
| Search.WalkSplitsAt | src/search.rs:33-48 | the walk of a directory is what its first `i` entries contribute, followed by the walk from entry `i` on; this is the loop invariant of `search_dir` |
| SearchProperties.MatchesIff | src/search.rs:38-42 | an entry is reported exactly when it is tested and its file name contains the query |
| SearchProperties.EmptyQueryMatchesAll | src/search.rs:40 | with the empty query every tested entry is reported, in visit order |
| SearchProperties.LinesAt | src/search.rs:41 | one line is printed per reported entry, in order, and the k-th line is the highlighted path of the k-th reported entry |
| SearchProperties.PrintedIff | src/search.rs:31-59 | a line is printed exactly when it is the highlighted path of a tested entry whose name contains the query |
| SearchProperties.WalkSound | src/search.rs:33-47 | everything the search tests is an entry of the tree below the root, at some depth |
| SearchProperties.WalkComplete | src/search.rs:33-47 | when no directory iteration fails, every entry of every readable directory is tested |
| SearchProperties.WalkPaths | src/search.rs:32-35 | every tested path ends with the tested file name and lies strictly inside the root, so the root itself is never tested |
| SearchProperties.InEntryShape | src/search.rs:35 | an entry found under top-level entry `name` of `dir` has a path that is `dir/name` or lies below it |
| SearchProperties.UnderUnique | src/search.rs:35 | two different file names of one directory have disjoint sets of paths below them |
| SearchProperties.WalkDistinct | src/search.rs:33-47 | in a tree with valid, distinct sibling names, no path is tested twice |
| SearchProperties.MatchesDistinct | src/search.rs:38-42 | reporting keeps tested paths distinct |
| SearchProperties.SearchReportsExactlyTheMatches | src/search.rs:31-51 | in a well-named tree without iteration errors, the reported entries are exactly the tree's entries whose names contain the query, each once, with one printed line per entry |
| SearchProperties.FailureEndsListing | src/search.rs:33-34 | an iteration error ends the directory's walk at the failed item, and that directory's search returns `Err` |
| SearchProperties.PreOrder | src/search.rs:33-47 | a directory's walk is its earlier entries, then the entry, then everything below it, then its later siblings; a failure below an entry changes only that entry's part |
| SearchProperties.UnreadableSubdirectory | src/search.rs:45-46 | an unreadable subdirectory is itself tested, and nothing below it |
| SearchProperties.WalkFromShift | src/search.rs:33 | the walk from item `k + i` of a listing is the walk from item `i` of the listing with its first `k` items dropped |
| SearchProperties.ReportedHighlight | src/search.rs:40-57 | for a reported entry the query occurs in the full path, and its first occurrence is at or before the occurrence inside the file name |
| SearchProperties.EmptyQueryHighlight | src/search.rs:57 | with the empty query the red and reset codes are printed in front of the path |
| SearchProperties.AncestorComponentHighlighted | src/search.rs:57 | `report/report.pdf` searched for `report` highlights the directory component, not the file name |
| SearchProperties.ExampleWalk | src/search.rs:31-51 | for `root/{a.txt, sub/{report.pdf, sub2/{report_final.pdf}}}` the five entries are tested in pre-order |
| SearchProperties.ExampleSearch | src/search.rs:31-59 | searching that tree for `report` prints the highlighted paths of exactly `root/sub/report.pdf` and `root/sub/sub2/report_final.pdf`, in that order |

## Left out

- `src/main.rs`, the process entry point, is not part of this model. It
  calls `Hunter::build` and `start_search`, which `src/search.rs` does not
  define.
- Process I/O is not modelled. `env::args`, `fs::read_dir`, `is_dir` and
  `println!` become the `args` parameter, the `Listing` tree and the
  returned sequence of lines.
- The filesystem is a finite tree. Symbolic links that `is_dir` follows
  into a cycle, and changes to the tree during the search, are not
  modelled.
- Non-UTF-8 file names are not modelled. Such a name makes the `unwrap` at
  line 39 panic, and makes `to_str` at line 55 fail so that nothing is
  printed. Names are modelled as strings of Unicode scalar values, on which
  `contains` and `replacen` agree with the byte-level operations.
- `path.file_name()` returning `None` (line 38) is not modelled. That
  cannot happen for an entry yielded by `read_dir`.
- Windows path separators are not modelled. `Join` follows the Unix rule
  of `PathBuf::push`.
- Search.SearchDir: the error carried by `Err` (which I/O error occurred)
  is not modelled. Only whether the result is `Ok` is.
- Search.SearchDir: the order in which `read_dir` yields entries is
  whatever order the `Listing` holds. The operating system's order is not
  modelled.
- SearchProperties.WalkDistinct: it assumes the filesystem's own rules:
  names are non-empty, contain no `/`, and differ between siblings.
  Without those rules two entries can share a path, and the property does
  not hold.
