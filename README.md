# Sherlock Files: the file search, in Dafny

Sherlock Files is a small desktop tool that finds files by name. The logic at its
centre is `find_files(search_folder, keyword)`. It walks the folder tree
recursively. For every file whose name contains the keyword, ignoring case, it
joins the file name onto the directory the walk found it in. It appends that path
to a list. It returns the list in walk order.

This project models that function and proves what it promises:

- `strings.dfy` (module `Strings`): ASCII lower- and upper-casing, which stand in
  for `str.lower` and `str.upper`. It also holds the substring test `needle in hay`
  (`Contains`) and a reference definition of "occurs as a substring" (`Occurs`).
- `paths.dfy` (module `Paths`): `Join`, the POSIX rules of `os.path.join` with `/`
  as the separator.
- `search.dfy` (module `Search`): the walk's output as a value. It holds one
  `WalkEntry(root, dirs, files)` per directory, in the order the walk yields them.
  `FindFilesSpec` is the specification: a filter over the flattened walk.
  `FindFiles` is the imperative nested loop of the source. Its invariants tie the
  growing `matches` list to the specification of the part walked so far.

The search matches the bare file name only. Directory names never make a file
match, whether they are the directory the file sits in or a sub-directory listed
in `dirs`. Later descriptions of the tool speak of matching on the full path. The
code modelled here tests only `file.lower()`, so the model follows the code.

## Model

| member | source | states |
|---|---|---|
| `Search.FindFiles` | test_search.py:3-11 | The nested loop returns exactly the specification's result, so each property below holds of what it returns. Its loop invariants say that after every file, `matches` holds the specification applied to the entries and files handled so far. |
| `Search.FindFilesMembership` | test_search.py:6-10 | Soundness and completeness. A path is returned exactly when some walk entry lists a file whose lower-cased name contains the lower-cased keyword as a substring and whose join with that entry's root is the path. |
| `Search.FindFilesInWalkOrder` | test_search.py:6-10 | Order preservation. The result is a subsequence of all joined file paths in walk order: entries in the order the walk yields them, files in the order of `files`. |
| `Search.FindFilesBound` | test_search.py:7-10 | The result has at most as many paths as the walk lists files. |
| `Search.FindFilesCaseInsensitive` | test_search.py:8 | Two keywords that agree after lower-casing give the same result. An upper-cased keyword (`"RESUME"`) gives the same result as the original (`"resume"`). |
| `Search.FindFilesIgnoresDirs` | test_search.py:6-8 | Sub-directory names listed in `dirs` never change the result. |
| `Search.FindFilesIgnoresRoots` | test_search.py:7-9 | Two walks that list the same file names, under any directories, return the same number of paths. The directory a file sits in plays no part in the match. |
| `Search.RootNameDoesNotMatch` | test_search.py:6-10 | A directory named `resume` whose only file is `notes.txt` gives no result for the keyword `resume`. |
| `Search.FindFilesEmptyKeyword` | test_search.py:8-10 | The empty keyword is a substring of every name, so it returns every joined file path of the walk, in walk order. |
| `Search.FindFilesAppend` | test_search.py:4-10 | Monotone accumulation. The result for a walk continued by more entries is the result so far followed by the result for the rest. |
| `Search.CandidatesMembership` | test_search.py:6-7 | The files the loops visit are exactly the `(root, file)` pairs listed by some walk entry. |
| `Search.CandidatesCount` | test_search.py:6-7 | The loops visit one file per name listed in the walk. |
| `Strings.ContainsIffOccurs` | test_search.py:8 | The `in` test on strings holds exactly when the needle starts at some position of the haystack, in both directions. |
| `Strings.ContainsNeedsRoom` | test_search.py:8 | A keyword longer than a file name is never found in it. |
| `Strings.LowerOfUpper` | test_search.py:8 | Upper-casing a string and then lower-casing it gives the same result as lower-casing it directly. |
| `Strings.LowerNormalises` | test_search.py:8 | Lower-casing keeps the length and leaves no ASCII upper-case letter. It changes nothing in a string that has none. |
| `Strings.LowerIdempotent` | test_search.py:8 | Lower-casing twice gives the same result as lower-casing once. |
| `Paths.Join` | test_search.py:9 | The joined path ends with the file name. A relative name keeps the root as a prefix, adds at most one separator, and is preceded by a separator when the root is non-empty. An absolute name replaces the root. |

## Left out

- The directory traversal of `os.walk` (test_search.py:6) is a filesystem call. Its output is an input here: a sequence of `WalkEntry` values in walk order. Errors during the walk, symbolic links and the real tree are not modelled.
- `os.path.join` (test_search.py:9) is modelled with the POSIX rules and `/` as the separator. Windows drive letters and `\` separators are not modelled.
- `str.lower` and `str.upper` are modelled on ASCII letters only. Full Unicode case mapping is not modelled.
- The example call on a fixed folder and the loop that prints the results (test_search.py:14-18) are I/O.
- sherlock_files.py is window and widget construction and the GUI event loop. It holds no search logic.
- Search on a background thread, cancellation, search sessions and matching on the full path appear in later descriptions of the tool. None of them is in the code modelled here.
- `Search.FindFilesIgnoresRoots`: states only that the number of results is the same. The paths themselves differ, because each path starts with its own directory.
