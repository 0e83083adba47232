# bvzfilesystemlib, modelled in Dafny

A model of the filesystem helpers in `src/bvzfilesystemlib.py`, with proofs about it:

- `convert_unix_path_to_os_path`: strips leading slashes, splits on "/" and joins the pieces back with `os.path.join`.
- `invert_dir_list`: the sub-directories of a parent that are not in a given list, optionally filtered by a regular expression.
- `dir_files_keyed_by_size`: a dictionary from entry size to the paths of that size, built in place.
- `ancestor_contains_file`: a bounded walk up the `os.path.dirname` chain, looking for marker files.
- `symlinks_to_real_paths` and `symlink_source_is_in_dir`: link resolution, and a test of where a link points.
- `count_files_recursively` and `recursively_list_files_in_dirs`: a sum and a listing over `os.walk`.

The operating system is a value: `FsModel.FileSystem` holds a map from path to entry, the set of symbolic links, and the `realpath` function. Each OS call is a function of that value (`Exists`, `IsDir`, `IsLink`, `Listing`, `SizeOf`, `Walk`). Path strings follow POSIX `posixpath`. `PosixPath` defines `join`, `split`, `dirname`, `str.split("/")`, `lstrip("/")`, `rstrip("/")` and `startswith`.

The functions that work by loops are methods with loop invariants:
- `invert_dir_list`, `symlinks_to_real_paths`, `recursively_list_files_in_dirs`, `dir_files_keyed_by_size`, `ancestor_contains_file`.
- Each method is proved equal to a specification function of the inputs.
- Lemmas state what the source promises about those functions.

The expression-only functions are Dafny functions: `convert_unix_path_to_os_path`, `count_files_recursively`, `symlink_source_is_in_dir`.

The `assert`s at the head of each library function become `requires`. OS errors raised later become `Err` results: `os.listdir` on a non-directory, and `os.path.getsize` on a dangling entry.

The documentation of `convert_unix_path_to_os_path` says nothing about an empty path. The code returns `""` for it, because `os.path.join("")` is `""`, and the model does the same.

Where the library's documentation and its code disagree, the model follows the code:
- `dir_files_keyed_by_size` buckets every entry `os.listdir` returns. Sub-directories are included, under their own size.
- `ancestor_contains_file` with no depth is documented to search "all the way up to the root level". From a relative path, the dirname chain ends at "" (the working directory), so "/" is never inspected: "a/b" looks in "a", then in "".
- `ancestor_contains_file` on "/" with no depth strips the path to "". "" is not a directory, and its dirname is "", so the walk looks for the markers in "" (the working directory), twice, unless "" holds one.

## Model

| member | source | states |
|---|---|---|
| FsModel.SlashedFileMissing | src/bvzfilesystemlib.py:214 | a path naming a file neither exists nor is a link once a slash is appended, as `stat` and `lstat` fail with ENOTDIR |
| FsModel.SubdirNames | src/bvzfilesystemlib.py:130 | the `dirnames` of a walk step are valid names, each a directory inside `top` |
| FsModel.FileNames | src/bvzfilesystemlib.py:130 | the `filenames` of a walk step are valid names, none a directory inside `top` |
| PosixPath.Dirname | src/bvzfilesystemlib.py:218-227 | `dirname(p)` is a prefix of `p`. It equals `p` exactly when `p` is all slashes; otherwise it is strictly shorter, which makes the upward walk terminate |
| PosixPath.DirnameIsSplitHead | src/bvzfilesystemlib.py:204 | `dirname(p)` is the head that `os.path.split(p)` returns |
| PosixPath.Split | src/bvzfilesystemlib.py:272 | `os.path.split(p)` gives a prefix of `p` as head, and a slash-free suffix of `p` as tail |
| PosixPath.SplitOnSlash | src/bvzfilesystemlib.py:79 | `s.split("/")` is non-empty, no piece holds a slash, and joining the pieces with "/" gives `s` back |
| PosixPath.RStripSlashes | src/bvzfilesystemlib.py:201 | `rstrip("/")` keeps a prefix that does not end in a slash and drops only slashes |
| PosixPath.LStripSlashes | src/bvzfilesystemlib.py:79 | `lstrip("/")` keeps a suffix that does not start with a slash and drops only slashes |
| PosixPath.LStripLeading | src/bvzfilesystemlib.py:79 | `lstrip("/")` removes exactly the leading slashes from slashes followed by a non-slash start |
| PathConversion.CollapseSlashes | src/bvzfilesystemlib.py:79 | the reference behaviour: every run of slashes shortened to one, with the first and last character kept |
| PathConversion.JoinAllSplitCollapses | src/bvzfilesystemlib.py:79 | `os.path.join(*s.split("/"))` collapses runs of slashes when `s` does not start with a slash |
| PathConversion.ConvertIsCollapse | src/bvzfilesystemlib.py:77-79 | the conversion is the slash-collapsed path with leading slashes removed |
| PathConversion.ConvertShape | src/bvzfilesystemlib.py:79 | the result never starts with "/" and never holds "//" |
| PathConversion.ConvertIdempotent | src/bvzfilesystemlib.py:79 | converting twice is converting once |
| PathConversion.ConvertEmpty | src/bvzfilesystemlib.py:77-79 | "" converts to "" |
| PathConversion.ConvertAbsoluteClean | src/bvzfilesystemlib.py:79 | leading slashes followed by a clean relative path convert to that relative path |
| PathConversion.ConvertAbsoluteExample | src/bvzfilesystemlib.py:79 | "/a/b/c" converts to "a/b/c" |
| PathConversion.ConvertCollapseExample | src/bvzfilesystemlib.py:79 | "a//b/" converts to "a/b/": the doubled slash collapses, the trailing slash stays |
| InvertDirs.InvertDirList | src/bvzfilesystemlib.py:44-61 | the loop returns the listing of `parent_d` filtered by `Kept`, in order |
| InvertDirs.InvertedMembers | src/bvzfilesystemlib.py:52-59 | a name is returned iff it is listed, is a directory, is not in `subdirs_n`, and matches a truthy pattern |
| InvertDirs.InvertedInListingOrder | src/bvzfilesystemlib.py:49-61 | the result is a subsequence of `os.listdir(parent_d)` |
| InvertDirs.FalsyPatternIgnored | src/bvzfilesystemlib.py:56-57 | with `None` or `""` as the pattern the result is the same as with no pattern, whatever the matcher |
| SizeBuckets.DirFilesKeyedBySize | src/bvzfilesystemlib.py:148-162 | error when the path is not a directory, or an entry does not exist; otherwise the dictionary equals `Buckets` of the joined child paths |
| SizeBuckets.AddToBucket | src/bvzfilesystemlib.py:156-161 | one update opens or extends only the bucket of `size`, which ends with the new path |
| SizeBuckets.BucketsSnoc | src/bvzfilesystemlib.py:153-161 | grouping one more path is one `AddToBucket` on the grouping so far |
| SizeBuckets.BucketsCover | src/bvzfilesystemlib.py:153-161 | every entry sits in the bucket of its own size |
| SizeBuckets.BucketsSound | src/bvzfilesystemlib.py:153-161 | a bucket holds only entries of its key's size |
| SizeBuckets.BucketsNonEmptyOrdered | src/bvzfilesystemlib.py:152-161 | no bucket is empty, and each follows the listing order |
| SizeBuckets.BucketsTotal | src/bvzfilesystemlib.py:152-161 | the bucket lengths add up to the number of entries: nothing lost, nothing duplicated |
| AncestorSearch.AncestorContainsFile | src/bvzfilesystemlib.py:193-230 | the result is the first directory of `Inspected(path, depth)` that holds a marker, or `None` |
| AncestorSearch.ClimbFrom | src/bvzfilesystemlib.py:206-230 | the `while True` loop terminates, and returns the first inspected ancestor of the start that holds a marker |
| AncestorSearch.DirHoldsMarker | src/bvzfilesystemlib.py:213-215 | the inner loop finds a marker iff `HoldsMarker` |
| AncestorSearch.HoldsMarkerMeaning | src/bvzfilesystemlib.py:213-215 | a directory holds a marker iff one of the names joined onto it exists |
| AncestorSearch.SingleNameMarker | src/bvzfilesystemlib.py:198-199 | a single name is searched for as `[files_n]` |
| AncestorSearch.FirstMatchMeaning | src/bvzfilesystemlib.py:210-215 | `None` iff no inspected directory holds a marker; otherwise the result holds one, and every directory inspected before it holds none |
| AncestorSearch.Chain | src/bvzfilesystemlib.py:218 | the dirname chain starts at its argument and ends at a string of slashes |
| AncestorSearch.AncestryStep | src/bvzfilesystemlib.py:218-227 | each step takes the dirname of the directory just tested, which is a dirname fixed point exactly at the last step |
| AncestorSearch.FoundAt | src/bvzfilesystemlib.py:213-215 | the walk returns the directory at `count` only when that directory is the first match within the depth |
| AncestorSearch.NotFoundWithin | src/bvzfilesystemlib.py:220-229 | when the walk gives up, at the depth bound or at the root, no inspected directory matches |
| AncestorSearch.ChainPrefixes | src/bvzfilesystemlib.py:218 | every directory on the chain is a prefix of where it starts |
| AncestorSearch.SearchStartOfDirectory | src/bvzfilesystemlib.py:201-204 | for a directory other than "/", the walk starts from the path with trailing slashes removed |
| AncestorSearch.InspectedFromAncestors | src/bvzfilesystemlib.py:209-218 | every inspected directory is a strict prefix of the start |
| AncestorSearch.InspectedAreAncestors | src/bvzfilesystemlib.py:201-218 | every inspected directory is a proper ancestor (strict prefix) of the given path |
| AncestorSearch.InspectedDepth | src/bvzfilesystemlib.py:220-223 | a truthy depth `d` inspects at most `max(d, 1)` directories; without one, the walk ends at a string of slashes (that it is a non-empty one from an absolute start, and "" from a relative one, is stated by the two lemmas below); the parent comes first |
| AncestorSearch.AbsoluteStartEndsAtRoot | src/bvzfilesystemlib.py:218-230 | from an absolute start with no depth, the last directory inspected is a non-empty string of slashes, the root: never "" |
| AncestorSearch.ChainEndsAbsolute | src/bvzfilesystemlib.py:218 | the dirname chain from an absolute path ends at a non-empty string of slashes |
| PosixPath.DirnameAbsolute | src/bvzfilesystemlib.py:218 | the dirname of an absolute path is absolute, never "" |
| AncestorSearch.ShallowDepthOnlyParent | src/bvzfilesystemlib.py:221-223 | a depth of 1, or any negative depth, inspects only the parent |
| AncestorSearch.RelativeStartNeverAtRoot | src/bvzfilesystemlib.py:218-230 | from a relative start no inspected directory is "/" or absolute; with no depth the last one is "", not the root level the documentation names |
| AncestorSearch.RootTwiceOnlyAtTop | src/bvzfilesystemlib.py:227-230 | with no depth, the top of the chain ("/", or "" from a relative start) is inspected twice exactly when the first ancestor already is that top |
| AncestorSearch.RootPathLooksInEmpty | src/bvzfilesystemlib.py:201-209 | given "/" and no depth, the walk inspects "" twice |
| Symlinks.PathsAsList | src/bvzfilesystemlib.py:98-99 | `list(s)` of a string is its characters, each a one-character path; a list is kept |
| Symlinks.SymlinksToRealPaths | src/bvzfilesystemlib.py:98-105 | the loop returns `realpath` of each listed path, in order |
| Symlinks.RealPathsPointwise | src/bvzfilesystemlib.py:103-104 | one resolved path per input, each the resolution of the input at its position |
| Symlinks.RealPathsAppend | src/bvzfilesystemlib.py:103-104 | resolving a concatenation resolves the parts in order |
| Symlinks.StringResolvedByCharacters | src/bvzfilesystemlib.py:98-99 | a bare string is resolved character by character |
| Symlinks.AnswerFromFirstCharacter | src/bvzfilesystemlib.py:272-276 | as written, the answer depends only on `realpath(link_p[0])` |
| Symlinks.AbsoluteLinkJudgedByRoot | src/bvzfilesystemlib.py:272-276 | for an absolute link, the as-written answer is `"/".startswith(path_d)` or `path_d == "/"`, wherever the link points |
| Symlinks.InDirImpliesInTree | src/bvzfilesystemlib.py:274-276 | a true equality result implies a true prefix result |
| Symlinks.SplitChild | src/bvzfilesystemlib.py:272 | `os.path.split(d + "/" + n)` is `(d, n)` for `d` not ending in "/" and a slash-free `n` |
| Symlinks.IntendedDirectChild | src/bvzfilesystemlib.py:272-276 | with the whole link resolved, a link to `dir/name` is in `dir`, with or without sub-directories |
| Symlinks.IntendedNestedChild | src/bvzfilesystemlib.py:274-276 | with the whole link resolved, a link to `dir/sub/name` is in `dir` exactly when sub-directories are included |
| Symlinks.FirstCharacterCounterexample | src/bvzfilesystemlib.py:272 | a link resolving to "/data/x/y" is not in "/data" as written, but is as intended |
| Symlinks.RawPrefixSibling | src/bvzfilesystemlib.py:274-275 | the raw `startswith` counts a head of "/a/bcd" as inside "/a/b" |
| Symlinks.RawPrefixSiblingAsWritten | src/bvzfilesystemlib.py:272-275 | as written too, a first character resolving to "/a/bcd/f" is judged inside "/a/b" |
| RecursiveFiles.StepPaths | src/bvzfilesystemlib.py:131-132 | one path per file name of a walk step |
| RecursiveFiles.PathsOfWalk | src/bvzfilesystemlib.py:130-132 | the nested loops emit `StepsPaths` of the walk, step by step, name by name |
| RecursiveFiles.RecursivelyListFilesInDirs | src/bvzfilesystemlib.py:119-133 | the output is `ListedFiles` of the sources, one walk after another; a single string source is wrapped as `[source_dirs_d]` and listed as its own walk's paths |
| RecursiveFiles.SingleSource | src/bvzfilesystemlib.py:129-132 | one source directory is listed as its walk's paths, as written and as intended |
| RecursiveFiles.StepsPathsCount | src/bvzfilesystemlib.py:130-132 | a walk yields as many paths as it reports file names |
| RecursiveFiles.ListingMatchesCount | src/bvzfilesystemlib.py:18-21 | the listing of one directory has exactly `count_files_recursively` paths |
| RecursiveFiles.FileCountAppend | src/bvzfilesystemlib.py:21 | the `sum` over two runs of walk steps is the sum of their sums |
| RecursiveFiles.WalkIntoCount | src/bvzfilesystemlib.py:21 | the walks below the sub-directories report, together, the sum of their own counts, links not entered |
| RecursiveFiles.CountRecursion | src/bvzfilesystemlib.py:6-21 | the count of a directory is its own files plus the count of each sub-directory that is not a link |
| RecursiveFiles.CountCoversDirectFiles | src/bvzfilesystemlib.py:21 | the count includes every non-directory entry of the directory itself |
| RecursiveFiles.WalkUnder | src/bvzfilesystemlib.py:130 | every step of `os.walk(top)` lies under `top`, and reports only valid names |
| RecursiveFiles.WalkIntoUnder | src/bvzfilesystemlib.py:130 | the walks of the sub-directories of `top` lie under `top` |
| RecursiveFiles.AbsoluteStepUnaffected | src/bvzfilesystemlib.py:132 | for an absolute directory, `join(d, d, f)` equals `join(d, f)` |
| RecursiveFiles.AbsoluteSourcesUnaffected | src/bvzfilesystemlib.py:129-132 | for absolute sources, the as-written listing equals the intended one |
| RecursiveFiles.IntendedListingUnderSource | src/bvzfilesystemlib.py:116-132 | every intended path starts with its source directory |
| RecursiveFiles.IntendedPathsReported | src/bvzfilesystemlib.py:130-132 | a path is among the intended paths of a walk exactly when it is a file name the walk reported, joined onto that step's directory |
| RecursiveFiles.WalkFound | src/bvzfilesystemlib.py:130 | every step of `os.walk(top)` is a directory, and none of its file names names a directory in it |
| RecursiveFiles.WalkIntoFound | src/bvzfilesystemlib.py:130 | the same holds for the walks of the sub-directories of `top` |
| RecursiveFiles.IntendedPathsAreFiles | src/bvzfilesystemlib.py:116-132 | for such steps, the intended paths are exactly the reported files, and none is a directory |
| RecursiveFiles.IntendedListingIsReportedFiles | src/bvzfilesystemlib.py:114-132 | as intended, one directory is listed as exactly the full paths of the files its walk reports, none of them a directory |
| RecursiveFiles.RelativeSourceDoubled | src/bvzfilesystemlib.py:132 | for relative source "a" holding file "f", the code lists "a/a/f", which is not a file the walk reported, where "a/f" is meant |

## Left out

- Real OS calls. `os.path.exists`, `isdir`, `islink`, `listdir`, `getsize`, `realpath` and `os.walk` are functions of a `FileSystem` value. How `realpath` follows link chains is an uninterpreted function.
- Path lookup normalisation. `Canon` only strips trailing slashes (which still make a path demand a directory and follow a link); "." and ".." and doubled slashes inside a lookup path are not normalised.
- The working directory. Entries are keyed by the path string as given. Relative keys stand for paths under one fixed, unnamed working directory, and joining names onto "" gives exactly those keys, so "" plays the working directory's part. The model does not relate relative keys to absolute ones: "a" and "/cwd/a" are unrelated entries, and nothing ties the two views of one file together.
- `re.match`. It is an uninterpreted `matches(pattern, name)` parameter.
- `lock_dir`. Its body is two assertions and changes nothing, so there is no behaviour to model.
- Windows path rules (drive letters, "\\" separators, root detection). Only POSIX `posixpath` is modelled.
- Races between checks and uses on a live filesystem, and concurrency.
- OS errors other than the two modelled: a non-directory given to `os.listdir`, and a dangling entry given to `os.path.getsize`. Permission errors are not modelled.
- `os.walk` error handling. A walk that starts at a non-directory yields nothing, as `os.walk` does; `onerror` and `followlinks` keep their defaults (a link to a directory is listed but not entered).
- Arguments of other types. Arguments are strings or lists of strings, through `Names`, `Sources` and `PathsArg`. `list(symlinks_p)` is modelled for a string only, not for other iterables.
- DirFilesKeyedBySize: an error result carries no partial dictionary. The Python code raises, so no partial result is observable there either.
- SizeBuckets.Buckets: insertion order of dictionary keys is not modelled; only the contents of each bucket and its order.

## Findings

| source | as written | input that shows it | evidently intended | confidence | as-written member | corrected member |
|---|---|---|---|---|---|---|
| src/bvzfilesystemlib.py:272 | `symlinks_to_real_paths(link_p)` receives a bare string, which `list(...)` splits into characters, so only `realpath(link_p[0])` is used | an absolute link resolving to "/data/x/y", with `path_d = "/data"`, `include_subdirs = True` and `realpath("/") = "/"`: as written, the head is "/", and the result is False | resolve the whole link: `realpath(link_p)` | not executed | Symlinks.FirstCharacterCounterexample | Symlinks.SymlinkSourceIsInDirIntended |
| src/bvzfilesystemlib.py:132 | `os.path.join(dir_d, dir_d, file_n)` repeats the directory | a relative source "a" whose only entry is the file "f": the code lists "a/a/f" | `os.path.join(dir_d, file_n)` | not executed | RecursiveFiles.RelativeSourceDoubled | RecursiveFiles.ListedFilesIntended |

The corrected members are proved to do what was meant:
- `Symlinks.IntendedDirectChild` and `Symlinks.IntendedNestedChild` show that the whole-link version places a link by the directory it resolves into.
- `RecursiveFiles.IntendedListingIsReportedFiles` shows that the intended listing of a directory is exactly the full paths of the files its walk reports, none of them a directory; `RecursiveFiles.RelativeSourceDoubled` shows that the code as written lists a path that is not one of them.
- `RecursiveFiles.AbsoluteSourcesUnaffected` shows that, for absolute sources, the code as written already agrees with the intended listing.

The methods model the code as written.
