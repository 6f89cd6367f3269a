# pyls in Dafny

This project models the core of `pyls`, a small `ls` emulator that lists an
in-memory directory snapshot loaded from JSON. Each node of the snapshot has a
`name`, `size`, `time_modified`, `permissions` and, for directories, a
`contents` list. The model covers its three functions:

- `get_permissions` rebuilds the mode column. The stored first character is
  replaced by `d` when the node has a non-empty `contents` list, and by `-`
  otherwise. This is `Permissions.Mode`.
- `format_size` picks B, KB, MB, GB or TB by dividing by 1024 while the value
  is at least 1024 and a larger unit is left. It prints an integer for bytes
  and one decimal otherwise. This is `Size.FormatSize`, a loop proved equal to
  the function `Size.SizeText`. The float the source divides is kept exactly,
  as the pair (size, 1024^k), and `:.1f` is round-half-to-even of
  10·size/1024^k.
- `ls` does the following, in order:
  - walks a `/`-separated path, taking the first child of each node whose name
    matches the segment;
  - selects the target's `contents` list, or the target alone when it is a
    file;
  - filters, stable-sorts by time, and reverses;
  - prints one line per entry that is not hidden.

  This is `Lister.Ls`, a method with the segment loop (`Lister.WalkPath`), the
  inner search (`Lister.FindChild`) and the printing loop (`Lister.Emit`). Its
  result is proved equal to the pure specification `Lister.Listing`.

The source also changes the caller's tree:
- when the walk lands on a file, that node's `name` becomes `"./" + path`;
- `-t` without `--filter` sorts the target directory's own `contents` list in
  place.

The model states both changes. A node in the tree is addressed by its
position: the list of child indices from the root. Every call yields an
`Outcome`: the printed lines and the tree as the call leaves it.

The modules follow the source:
- `Text`: `str(int)`, `str.split` and `str.startswith`.
- `Tree`: the snapshot, positions, and in-place writes as `Update`.
- `Permissions`: `get_permissions`.
- `Size`: `format_size`.
- `Stages`: the filter, the time sort and the reverse.
- `Lister`: `ls`, with its walk, selection and rendering.
- `ListingFacts`: properties of `ls` as a whole.
- `SampleListings`: the listings the repository's tests expect of their sample
  tree.

Where the behaviour of the code differs from its written description, the
model follows the code:
- `-t` sorts oldest first, ascending by `time_modified`. The help text says
  "newest first".
- The `dir` filter and the mode character test that `contents` is non-empty.
  An empty directory is listed as a file by `--filter file`, and its mode
  starts with `-`. Selection, in contrast, tests only that the `contents` key
  is present.
- A segment after a file does not collapse onto the file. Files have no
  children, so the segment matches nothing and the call prints the not-found
  line. The file has been renamed all the same.
- The mode is the new flag followed by `permissions[1:]`, whatever the length
  of the stored string.
- The time sort reorders the caller's tree when no filter copied the list.

## Model

| member | source | states |
|---|---|---|
| Permissions.Mode | pyls/__main__.py:14-31 | The first character is `d` exactly when `contents` is present and non-empty, and `-` otherwise. The rest is the stored string from index 1 on, so the length is preserved (one character for an empty string). |
| Permissions.ModeIgnoresStoredFlag | pyls/__main__.py:27-30 | Two nodes with the same non-emptiness whose permission strings differ only in the first character get the same mode. |
| Size.Unit | pyls/__main__.py:35-39 | The index of the suffix the loop stops at: the loop steps while the quotient is at least 1024 and a larger unit remains, so the index is at most 4 (TB). |
| Size.UnitChoice | pyls/__main__.py:35-39 | The unit is B exactly when size < 1024. Otherwise it is the largest k ≤ 4 with 1024^k ≤ size: either size < 1024^(k+1), or the unit is TB. |
| Size.SizeText | pyls/__main__.py:34-44 | The closed form of the result: `str(size) + " B"` in unit 0, and otherwise the one-decimal rounding of size/1024^k followed by the unit. |
| Size.FormatSize | pyls/__main__.py:34-44 | The loop dividing by 1024 returns SizeText(size), whose unit and digits the lemmas below characterise. |
| Size.SizeTextSuffix | pyls/__main__.py:35-44 | Every result ends in a space and one of B, KB, MB, GB, TB. |
| Size.SizeTextBytes | pyls/__main__.py:41-42 | Below 1024 the result is the integer followed by " B". |
| Size.SizeTextScaled | pyls/__main__.py:37-44 | From 1024 on, the result is one-decimal tenths in the chosen unit. The tenths lie within half a unit of 10·size/1024^k. |
| Size.OneDecimal | pyls/__main__.py:44 | `:.1f` of tenths/10: the integer digits, a point and one digit, so the result is at least three characters with `.` second to last. |
| Size.RoundHalfEven | pyls/__main__.py:44 | The result is within d/2 of q/d, and a tie goes to the even neighbour. |
| Size.OneDecimalRoundTrip | pyls/__main__.py:44 | The digits before the point and the single digit after it read back as the tenths that were written. |
| Size.SizeTextExactPowers | pyls/test_main.py:126-129 | format_size(1024^k) is "1.0 KB", "1.0 MB", "1.0 GB" or "1.0 TB" for k = 1..4. |
| Size.SizeTextNoEscalationAfterRounding | pyls/__main__.py:37-44 | The unit is fixed before rounding: 1048535 renders as "1024.0 KB", not "1.0 MB". |
| Size.SizeTextExampleBytes | pyls/test_main.py:121-125 | 1023 and 83 render as "1023 B" and "83 B". |
| Size.SizeTextExampleKilobytes | pyls/test_main.py:120-122 | 1071 and 4096 render as "1.0 KB" and "4.0 KB". |
| Text.IntToString | pyls/__main__.py:92 | `str(i)`: at least one character, starting with `-` exactly when i is negative. |
| Text.NatToStringRoundTrip | pyls/__main__.py:42 | The decimal digits printed for a non-negative size read back as that size. |
| Text.IntToStringRoundTrip | pyls/__main__.py:92 | The size column of the long form, `str(size)`, reads back as the size, sign included. |
| Text.Split | pyls/__main__.py:50 | `path.split('/')`: every `/` ends a part and empty parts are kept, so there is at least one part. |
| Text.SplitParts | pyls/__main__.py:50 | `path.split('/')` has one part more than there are slashes, and no part contains a slash. |
| Text.SplitNoSep | pyls/__main__.py:50 | A path without a slash is a single segment. |
| Text.SplitJoin | pyls/__main__.py:50 | Joining the segments with `/` gives back the path. |
| Tree.Update | pyls/__main__.py:58 | After a write to the node at a position, that position holds the new node. |
| Tree.UpdateElsewhere | pyls/__main__.py:58 | A write to one node leaves every node off its branch unchanged. |
| Tree.UpdateUpdate | pyls/__main__.py:58 | A second write to the same node overwrites the first. |
| Tree.UpdateSame | pyls/__main__.py:58 | Writing back the node already there changes nothing. |
| Tree.UpdateAbove | pyls/__main__.py:58 | Each node above the written one keeps its name, size, time, permissions, `contents` key, number of children and every child except the one on the branch. |
| Tree.UpdateFrame | pyls/__main__.py:58 | A write changes the tree only inside the written node's subtree: the nodes above keep everything but the branch child, and every node off the branch is unchanged. |
| Tree.Children | pyls/__main__.py:52 | `get('contents', [])` is non-empty exactly when `contents` is present and non-empty, and is the list itself when present. |
| Stages.Keeps | pyls/__main__.py:76-78 | The filter test: `file` keeps entries whose `contents` is absent or empty, `dir` keeps those whose `contents` is non-empty, and no filter keeps everything. |
| Stages.ApplyFilter | pyls/__main__.py:74-78 | An entry is kept exactly when it passes the filter. `file` keeps absent or empty `contents`; `dir` keeps non-empty `contents`. |
| Stages.ApplyFilterConcat | pyls/__main__.py:76-78 | Filtering keeps relative order: filtering a concatenation filters each part. |
| Stages.ApplyNoFilter | pyls/__main__.py:74 | Without a filter the list is unchanged. |
| Stages.FilterPartition | pyls/__main__.py:76-78 | `file` and `dir` partition the entries: together they hold each entry exactly as often as the input does. |
| Stages.Insert | pyls/__main__.py:81 | One step of the stable sort: the entry goes before the first entry whose time is not smaller, and the result holds the input plus that entry. |
| Stages.SortByTime | pyls/__main__.py:80-81 | The result is in non-decreasing time_modified order and is a permutation of the input. |
| Stages.SortByTimeStable | pyls/__main__.py:81 | For every time, the entries with that time keep their input order (a stable sort). |
| Stages.SortByTimeSorted | pyls/__main__.py:81 | Sorting an already time-ordered list leaves it unchanged. |
| Stages.Reverse | pyls/__main__.py:82-83 | Entry i of the result is entry n-1-i of the input. |
| Stages.ReverseReverse | pyls/__main__.py:83 | Reversing twice gives the list back. |
| Stages.ReverseOfSorted | pyls/__main__.py:80-83 | Under `-t -r` the times are non-increasing, newest first. |
| Lister.FirstMatch | pyls/__main__.py:52-56 | The index returned names a child with that name, and no earlier child has it. None means no child has it. |
| Lister.FindChild | pyls/__main__.py:52-56 | The search loop with `break` finds the first child with the name, or reports that there is none. |
| Lister.RenameIfFile | pyls/__main__.py:57-59 | A node without a `contents` key gets the name `"./" + path`. A directory leaves the tree unchanged. |
| Lister.Walk | pyls/__main__.py:48-63 | The segment loop one segment per step: take the first matching child, rename it if it is a file, stop with the not-found exit when nothing matched. The position it reaches is valid in the tree it returns. |
| Lister.WalkPath | pyls/__main__.py:48-63 | The segment loop ends as the step-by-step Walk does. On success it gives the position reached and the node there. Otherwise it gives the tree as it is at the not-found exit. |
| Lister.WalkDescends | pyls/__main__.py:48-63 | The walk equals its closed form. It is the first-match descent on the tree as given, with the node it stops at renamed if that node is a file. |
| Lister.WalkIntoFile | pyls/__main__.py:57-63 | A file part-way along the path is renamed, and the next segment then fails. |
| Lister.WalkThroughDir | pyls/__main__.py:52-59 | A directory part-way along the path is not renamed. The walk continues from it. |
| Lister.Entries | pyls/__main__.py:68-71 | A node with a `contents` key lists that list, possibly empty. A file lists itself alone. |
| Lister.IsShown | pyls/__main__.py:85 | The hidden-name test: `-A`, a name not starting with `.`, or a walk that landed on a file. |
| Lister.Visible | pyls/__main__.py:85 | The printed entries are exactly those that are not hidden: `-A`, a name not starting with `.`, or a walk that landed on a file. |
| Lister.Line | pyls/__main__.py:86-94 | One printed line: mode, size column (format_size under `-h`, else `str`), time and name joined by spaces under `-l`, else the bare name. |
| Lister.Lines | pyls/__main__.py:84-94 | There is one line per printed entry, and line i renders entry i. |
| Lister.RenderLine | pyls/__main__.py:86-94 | The long form is mode, size (format_size under `-h`), time and name, separated by spaces. The short form is the name. |
| Lister.Emit | pyls/__main__.py:84-94 | The printing loop produces the lines of the visible entries, in order. |
| Lister.Arrange | pyls/__main__.py:74-83 | The stages in the source's order: the filter only when an option is given, then `-t`, then `-r`. |
| Lister.Show | pyls/__main__.py:66-94 | Everything after the walk: the lines for the target's entries, and the tree with the target's own list sorted when `-t` runs without a filter. |
| Lister.Listing | pyls/__main__.py:46-94 | The whole of `ls`: the root for an empty path, otherwise the walk, then the not-found line or the listing of the node reached, with the tree as the call leaves it. |
| Lister.Ls | pyls/__main__.py:46-94 | The lines printed and the caller's tree afterwards are those of Listing, including the rename and the in-place sort. |
| ListingFacts.ListingClosedForm | pyls/__main__.py:48-65 | For a non-empty path, the first-match descent decides the call. If it matches every segment, the node it reaches is listed. Otherwise the single not-found line is printed. In both cases a file there is renamed. |
| ListingFacts.NotFoundPrintsOneLine | pyls/__main__.py:61-63 | A segment without a match prints exactly the one error line, with the path quoted, and no entry. |
| ListingFacts.LeadingSlashNotFound | pyls/__main__.py:50-63 | A leading `/` gives an empty first segment, which fails unless some root child has the empty name. |
| ListingFacts.EmptySegmentNotFound | pyls/__main__.py:50-63 | A trailing or doubled `/` gives an empty segment, which fails unless the node reached has a child with the empty name. |
| ListingFacts.SplitConcat | pyls/__main__.py:50 | Splitting `a + "/" + b` gives the segments of `a` followed by those of `b`. |
| ListingFacts.DescendStopsAtMissing | pyls/__main__.py:50-63 | Once a segment matches nothing, the descent ends there, unfinished, whatever segments follow. |
| ListingFacts.SegmentAfterFileNotFound | pyls/__main__.py:52-63 | Any segment after a file, even an empty one, prints the not-found line. The file is renamed to `"./" + path` all the same. |
| ListingFacts.ListingLandsOnFile | pyls/__main__.py:57-85 | A path ending at a file renames it in the caller's tree. The output is that one entry under the new dotted name, unless `--filter dir` drops it. |
| ListingFacts.ArrangeSingleFile | pyls/__main__.py:71-83 | A file target goes through the stages unchanged unless `--filter dir` drops it. |
| ListingFacts.ListingOfDirectory | pyls/__main__.py:68-83 | A directory target lists its own `contents`. The tree changes only when `-t` without a filter sorts that list in place. |
| ListingFacts.ListingRootDefaults | pyls/__main__.py:64-69 | An empty path lists the root's entries in declared order, hidden names left out, with the tree untouched. |
| ListingFacts.VisibleLength | pyls/__main__.py:84-85 | The hidden-name test only drops entries. |
| ListingFacts.ArrangeLength | pyls/__main__.py:74-83 | The stages leave at most the selected entries, and all of them when no filter is given. |
| ListingFacts.ShowEffect | pyls/__main__.py:66-94 | After the walk there is at most one line per selected entry. The only write to the tree is the `-t` sort of the target's own list, which keeps the target's name, size, time, permissions and the same entries; without it the tree is unchanged. |
| ListingFacts.ShowFrame | pyls/__main__.py:80-81 | The `-t` sort writes only the target's own list: every node above the target keeps its fields and its other children, and every node off that branch is unchanged. |
| ListingFacts.LineShape | pyls/__main__.py:92 | A long line starts with the mode and a space and ends with the name. |
| ListingFacts.ShortListingHidesDotNames | pyls/__main__.py:85 | Without `-A`, a short listing prints no line starting with `.`, unless the walk landed on a file. |
| ListingFacts.ShowAllListsEverything | pyls/__main__.py:85 | Under `-A` every entry left by the stages is printed, in their order. |
| ListingFacts.VisibleUnhidden | pyls/__main__.py:85 | Entries none of which is hidden are all printed, in place. |
| ListingFacts.VisibleCons | pyls/__main__.py:84-85 | A hidden first entry is dropped; the rest is printed as before. |
| ListingFacts.VisibleSorted | pyls/__main__.py:80-85 | Leaving out hidden names keeps a time-sorted list sorted. |
| ListingFacts.VisibleNewestFirst | pyls/__main__.py:82-85 | Leaving out hidden names keeps a newest-first list newest first. |
| ListingFacts.ReverseMultiset | pyls/__main__.py:83 | Reversing is a permutation. |
| ListingFacts.ArrangeKeeps | pyls/__main__.py:74-83 | After the stages the entries are the filtered ones, as a multiset, and each passes the filter. |
| ListingFacts.ArrangeOrder | pyls/__main__.py:74-83 | `-t` gives oldest first and `-t -r` newest first. Without `-t`, the order is the filtered order, or its exact reverse under `-r`. |
| ListingFacts.ShownOrder | pyls/__main__.py:74-85 | The printed entries pass the filter. Under `-t` they are oldest first, or newest first with `-r`. |
| SampleListings.SampleDefault | pyls/test_main.py:60-64 | The sample root lists LICENSE, README.md, ast, and the tree is unchanged. |
| SampleListings.SampleShowAll | pyls/test_main.py:66-70 | `-A` adds .gitignore in its place. |
| SampleListings.SampleLong | pyls/test_main.py:72-78 | The long lines have the modes re-derived from `contents` and the raw sizes. |
| SampleListings.SampleReverse | pyls/test_main.py:80-84 | `-r` gives ast, README.md, LICENSE. |
| SampleListings.SampleSortByTime | pyls/test_main.py:86-90 | `-t` keeps the order, since the root is already in time order, and the tree is unchanged. |
| SampleListings.SampleFileFilter | pyls/test_main.py:92-96 | `--filter file` gives LICENSE, README.md. |
| SampleListings.SampleDirFilter | pyls/test_main.py:98-102 | `--filter dir` gives ast. |
| SampleListings.SamplePath | pyls/test_main.py:104-108 | The path `ast` lists go.mod, ast.go. |
| SampleListings.SamplePathSortedInPlace | pyls/__main__.py:80-81 | `ast` under `-t` prints ast.go, go.mod. The caller's tree now holds ast's list in that order. |
| SampleListings.SampleMissingPath | pyls/test_main.py:110-114 | A missing path prints the one error line, and the tree is unchanged. |
| SampleListings.SamplePathToFile | pyls/__main__.py:57-59 | The path `ast/go.mod` prints `./ast/go.mod` and renames that node in the caller's tree. |
| SampleListings.SampleLongHuman | pyls/test_main.py:116-122 | `-l -h` shows 1.0 KB, 83 B and 4.0 KB. |

## Left out

- `load_directory_structure` and `main` (pyls/__main__.py:10-12, 105-125) are file reading, JSON parsing and argument parsing. The model starts from a parsed tree and a record of options.
- `custom_help_message` (pyls/__main__.py:96-103) only prints fixed text.
- A node missing a required key raises `KeyError` in the source. The model's node always has every key except `contents`, so that error path is not modelled.
- `--filter` values other than `file` and `dir` are refused by the argument parser before `ls` runs. The model has only no filter, `file` and `dir`.
- The timestamp column (`datetime.fromtimestamp(...).strftime('%b %d %H:%M')`) depends on the local time zone. It is the parameter `fmtTime: int -> string`, and the sample lemmas state the long lines in terms of it. `fmtTime` is total, so the model does not capture `fromtimestamp` raising (OverflowError, OSError or ValueError) for a timestamp out of the platform's range.
- `print` is modelled as the returned sequence of lines, one per call. A name containing a newline prints as two physical lines in the source but is one element of that sequence here.
- Size.FormatSize: uses exact arithmetic, which matches the float the source divides only for sizes below 2^53. Larger sizes, float rounding on conversion, and sizes stored as floats in the JSON are not modelled.
- Lister.Ls: the caller's dictionaries are values here. The method returns the updated tree instead of writing through shared references, so it does not capture aliasing beyond the two writes the source makes.
- The `reversed` iterator is modelled as the reversed list, because it is consumed once, immediately.
