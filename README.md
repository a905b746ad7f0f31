# Search_up: upward file search, modelled in Dafny

Search_up looks for a file name by starting at a directory and walking up
through its ancestors. It reports every directory that directly holds an entry
with that exact name, deepest first, or only the nearest one when `-f` is
given. The core is two functions in `main.go`:

- `searchDirForFile` lists one directory and scans its entries for an exact
  name match. It passes a listing failure through as an error.
- `searchUp` probes the start directory, appends it to the result on a match,
  and stops there when `onlyFirst` is set. Otherwise it moves to
  `filepath.Dir` of the path and stops as soon as that parent is `/`. The
  root is therefore never probed unless the walk starts at `/`. A failed probe
  aborts the whole walk with an error and no partial list.

Files:

- `results.dfy`: `Result`, the `(value, error)` pair of Go.
- `paths.dfy`: a clean absolute path is a sequence of segments (`/` is `[]`).
  `Parent` is `filepath.Dir` on such paths. `Chain(p)` is the list of
  directories the walk visits when nothing stops it early.
- `search.dfy`: the abstract file system, the two Go functions as methods
  with loops, and `Walk`, the outcome of probing a list of directories in
  order. `SearchUp` is proved to return `Walk` over `Chain(start)`.
- `facts.dfy`: what that outcome is, stated without the loop: soundness, the
  error cases, the exact result set and order, the nearest match,
  truncation, the suffix property and the root cut-off.
- `scenarios.dfy`: the situations of `main_test.go` on its test tree
  `SubA/SubB/SubC`. The tests create that tree in a fresh temporary directory
  with a random name. The scenarios fix one instance of it,
  `/tmp/Search-up_temp/SubA/SubB/SubC`.

The file system is a map from path to the entry names of that directory. A
path that is not a key is one that `os.ReadDir` cannot list. The listing
error carries the failing path. The error that `searchUp` returns names the
path it failed on and quotes the text of the listing error (main.go:64).

The code never probes `/` unless the walk starts there (main.go:7,
main.go:57, main.go:76). The model follows this
(`Paths.RootProbedOnlyFromRoot`, `SearchFacts.SearchUpIgnoresRoot`).

## Model

| member | source | states |
|---|---|---|
| Search.SearchDirForFile | main.go:84-97 | An unlistable directory gives the listing error for that directory. Otherwise the result is true exactly when some entry name equals the target, so an empty listing gives false with no error. |
| Search.Walk | main.go:61-79 | Defines what the loop of `searchUp` returns when it probes a list of directories in order. The first unlistable directory ends the walk with an error naming it, and no list is returned. Each listed directory that holds `fname` is appended. With `onlyFirst`, the first match ends the walk. A successful result is never longer than the list of directories. |
| Search.SearchUp | main.go:58-82 | The loop returns the outcome of `Walk` over `Chain(start)`. The loop invariant says the accumulated list, put in front of the outcome of the rest of the walk, is the whole outcome. The loop ends because the path gets shorter on every step it continues. |
| Paths.Parent | main.go:74 | The parent of a non-root path is a proper ancestor exactly one segment shorter. The root is its own parent and is the only path that is. |
| Paths.Chain | main.go:61-79 | The walk starts at `p` and takes one step per level of `p` (one step for the root), so it ends after at most max(depth(p), 1) probes. |
| Paths.ChainShape | main.go:74-78 | The i-th probe is `p` with its last i segments removed. |
| Paths.ChainMembers | main.go:74-78 | A directory is probed exactly when it is the start or an ancestor of it, and the root only when the walk starts at the root. |
| Paths.RootProbedOnlyFromRoot | main.go:74-78 | The root is probed if and only if the walk starts at the root. |
| Paths.ChainAscending | main.go:61-79 | The walk moves strictly upward: each probed directory is a proper ancestor of every earlier one. |
| Paths.ChainSuffix | main.go:61-79 | The walk from an ancestor `a` (not the root) of `p` is exactly the tail of the walk from `p` that starts at `a`. |
| SearchFacts.WalkSound | main.go:62-68 | Every reported directory was probed and holds an entry named `fname`. |
| SearchFacts.WalkFailure | main.go:62-65 | The walk fails exactly when it reaches a directory it cannot list before it stops. The error names that first unlistable directory, and no list is returned. |
| SearchFacts.FullWalkFailsIffUnlistable | main.go:62-65 | Without `onlyFirst`, the walk succeeds exactly when every directory in it can be listed. |
| SearchFacts.FullWalk | main.go:61-79 | Without `onlyFirst`, if every directory can be listed, the result holds exactly the directories of the walk that contain `fname`. It keeps their deepest-first order. |
| SearchFacts.AscendingDetermined | main.go:67-68 | Two deepest-first lists with the same members are equal, so membership and order together determine the result. |
| SearchFacts.FirstWalkAtMostOne | main.go:69-71 | With `onlyFirst`, a successful walk reports at most one directory. |
| SearchFacts.FirstWalkNearest | main.go:67-71 | With `onlyFirst`, the nearest match (all directories before it listed, none matching) is reported alone. The result is empty exactly when every directory was listed and none matched. |
| SearchFacts.FirstWalkReportsNearest | main.go:67-71 | With `onlyFirst`, a reported directory is the nearest match of the walk. |
| SearchFacts.FirstIsFullTruncated | main.go:69-71 | With `onlyFirst`, the outcome is the full outcome cut to its first element, whenever the full walk succeeds. |
| SearchFacts.WalkConcat | main.go:61-79 | Without `onlyFirst`, walking `a` then `b` reports the matches of `a` followed by those of `b`. A failure in `a` ends the walk. |
| SearchFacts.WalkFrame | main.go:62 | The outcome depends only on the listings of the directories walked. |
| SearchFacts.SearchUpAll | main.go:58-82 | Without `onlyFirst`, `searchUp` fails exactly when a directory on its walk cannot be listed. Otherwise it returns exactly the matching directories on the walk, deepest first, and an empty list when none match. |
| SearchFacts.SearchUpAllExactly | main.go:58-82 | Without `onlyFirst`, and with every directory on the walk listable, `searchUp` returns any deepest-first list whose members are the matching directories on the walk. |
| SearchFacts.SearchUpFirstAtMostOne | main.go:69-71 | With `onlyFirst`, a successful `searchUp` reports at most one directory. |
| SearchFacts.SearchUpFirstNearest | main.go:67-71 | With `onlyFirst`, a reported directory is on the walk and holds `fname`. Every directory the walk visits below it was listed and does not hold `fname`. |
| SearchFacts.SearchUpFromAncestor | main_test.go:59-81 | Without `onlyFirst`, starting at an ancestor (not the root) of a successful start gives a suffix of the start's result. Starting lower only adds directories in front. |
| SearchFacts.SearchUpIgnoresRoot | main.go:74-78 | For a start other than the root, the outcome is the same whatever the root's listing is, and whether or not the root can be listed. |
| SearchFacts.SearchUpFirstIsTruncated | main.go:69-71 | With `onlyFirst`, `searchUp` returns the full result cut to its first element, whenever the full search succeeds. |
| Scenarios.ChainFromSubC | main_test.go:94-122 | On the test tree, the walk from SubC visits SubC, SubB, SubA, the temp directory and /tmp, in that order. |
| Scenarios.FindMultipleDirs | main_test.go:55-82 | From SubC, SubB and SubA the full search returns [SubC, SubB, SubA], [SubB, SubA] and [SubA]. |
| Scenarios.FindSingleDir | main_test.go:29-53 | With `onlyFirst`, each of SubC, SubB and SubA finds only itself. |
| Scenarios.NonExistingFile | main_test.go:13-27 | A name held nowhere gives the empty list and no error. |
| Scenarios.BadPath | main_test.go:84-89 | A start directory that cannot be listed gives an error naming it. |
| Scenarios.RootOnlyFromRoot | main.go:74-78 | A name held only by the root is not found from /tmp but is found from the root itself. |

## Left out

- `initCmd` and `main` (main.go:18-55) are not modelled. They parse the `-f` flag, require exactly one positional argument, read the working directory, print the results and set the exit status.
- `os.ReadDir` is replaced by a map from directory to entry names. Entry types, permissions and symbolic links are not observable by the code, and the cause of a listing failure is reduced to the failing path.
- `filepath.Dir` is modelled only on clean absolute paths. Trailing slashes, `..` cleaning and volume names are not modelled.
- Relative start paths are not modelled, because every path in the model is absolute. The command always starts from the absolute working directory. Called directly with a relative path, `searchUp` would reach `.`, whose parent is `.` again. It would never meet `/` and would loop forever unless a probe fails or `onlyFirst` stops it. `Scenarios.BadPath` uses an absolute unlistable path in place of the test's relative `a/bad/path`.
- The text of the error message (main.go:64) is not modelled. The error carries the failing path and the listing error whose text it quotes.
- Directories that change during the walk are not modelled. One file-system snapshot stands for all the listings, although `os.ReadDir` (main.go:85, reached through main.go:62) lists each directory at a different moment.
