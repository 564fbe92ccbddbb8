# Workspace layering of the cog Dockerfile generator

When file grouping is on, cog's Dockerfile generator does not copy the
project directory into the image with a single `COPY . /src`. Instead it
splits the top-level entries of the directory by size. Its comments intend
large files and folders to land in image layers of their own; as written,
the folder groups fall short of that (see "## Findings"):

- **Walk** (`dirSize`): a directory's size is the sum of the sizes of every
  non-directory below it. The walk stops at the first path it cannot read.
- **Classify** (`divFilesBySize`): every top-level entry is a small file, a
  large file, a small folder or a large folder. "Small" means a size at most
  the threshold. The first directory whose walk fails aborts the split.
- **Group** (`groupFiles`):
  - All large files form one group.
  - Small files are each a group of their own when there are at most
    `numGroups` of them. Otherwise they are cut into `numGroups` even slices,
    and the leftover is added to one group.
  - As written, the folder groups are the large-file group (if any)
    followed by the small folders, or by the large folders when there is no
    small folder; see "## Findings".
- **Render** (`copyWorkspace`): every file group becomes one
  `COPY a b c /src` line. Every folder-group entry becomes
  `COPY name /src/name`. Every line ends with a newline.
- **Filter** (`filterEmpty`): drops the empty strings from a list of
  Dockerfile parts before they are joined.

The shipped constants are `MaxNumFileGroups = 1` and
`FileSizeThreshold = 200 * 1000 * 1000` bytes.

Where comments and code disagree, the model follows the code:
- The constant's comment says 100 megabytes. The value is 200,000,000 bytes.
- The comment above `divFilesBySize` says small means `< threshold` and
  large means `> threshold`. The code puts a size equal to the threshold
  among the small ones (`Classify.AtThresholdIsSmall`).
- The comments beside the folder steps of `groupFiles` promise an
  independent group for the large folders and one for the small folders.
  The code builds both from the file-group list, so the folder groups start
  with the large-file group and the small folders replace the large ones
  (first row of "## Findings").
- The comment before the leftover step of `groupFiles` puts the leftover
  small files into the last group. The code indexes a list that also holds
  the large-file group, so with large files present the leftover joins an
  earlier small group (second row of "## Findings").

Modules:
- `Workspace` (`workspace.dfy`): entries, trees and the walk.
- `Classify` (`classify.dfy`): the four buckets.
- `Grouping` (`grouping.dfy`): the group plan, both as written and as
  evidently intended.
- `Generator` (`generator.dfy`): the constants, the COPY text and the filter.

Each step of the source that changes variables in a loop is a method with
loop invariants. Each method is proved equal to a pure specification
function. The lemmas then state the properties of those functions.

## Model

| member | source | states |
|---|---|---|
| Workspace.DirSize | pkg/dockerfile/generator.go:118-134 | The walk's result is the first unreadable path's error in walk order, otherwise the sum of the sizes of all non-directories below the root. |
| Workspace.ForestSizeIsSumOfFiles | pkg/dockerfile/generator.go:120-133 | The walk outcome, stated without the walk: it fails exactly when some path is unreadable, with the first such reason; otherwise it is the sum of all file sizes. |
| Workspace.ForestSizeAppend | pkg/dockerfile/generator.go:120-130 | Walking two sequences of paths in a row: an error in the first ends the walk; otherwise its size is added to the outcome of the second. |
| Classify.DivFilesBySize | pkg/dockerfile/generator.go:138-169 | Succeeds exactly when every directory walk succeeds, and then returns the four buckets of the listing. A failure returns the error of the first entry whose walk fails. |
| Classify.Partition | pkg/dockerfile/generator.go:145-168 | The four buckets together hold every listed name exactly as often as the listing does, and their sizes add up to the number of entries. |
| Classify.InBucket | pkg/dockerfile/generator.go:145-168 | A name is in bucket k if and only if some entry with that name has kind k. |
| Classify.ExactlyOneBucket | pkg/dockerfile/generator.go:145-168 | With distinct names, an entry is in a bucket if and only if that bucket is its kind's. |
| Classify.BucketAppend | pkg/dockerfile/generator.go:145-168 | Buckets keep listing order: splitting the listing in two splits every bucket at the same point. |
| Classify.AtThresholdIsSmall | pkg/dockerfile/generator.go:152-166 | A file or folder whose size equals the threshold lands in a small bucket. |
| Classify.LargeFolderOfSmallFiles | pkg/dockerfile/generator.go:147-160 | A folder is classified by its walked size: two files of 50 and 60 bytes make a large folder against a threshold of 100. |
| Grouping.GroupFiles | pkg/dockerfile/generator.go:172-222 | Succeeds exactly when the classification succeeds, and then returns the plan the program builds. Otherwise it returns the first walk error. |
| Grouping.SpreadSmalls | pkg/dockerfile/generator.go:208-219 | The nested loops with a shared cursor append numGroups slices of len/numGroups files each. The leftover then goes to position numGroups-1 of the whole list. |
| Grouping.EvenSlicesCover | pkg/dockerfile/generator.go:208-215 | There are numGroups slices of len/numGroups files each and a leftover of len%numGroups files; slices then leftover give back the small files in order. |
| Grouping.LargeFilesFirst | pkg/dockerfile/generator.go:180-183 | The file groups start with the group of all large files if and only if there is a large file. |
| Grouping.FewSmallFiles | pkg/dockerfile/generator.go:193-200 | With at most numGroups small files, each is a group of its own, no empty group is added, and the groups list the large files and then the small ones in order. |
| Grouping.FileGroupsPermutation | pkg/dockerfile/generator.go:172-222 | For any counts, the file groups hold exactly the large and the small files, each once. |
| Grouping.SpreadPermutation | pkg/dockerfile/generator.go:208-219 | Spreading adds every small file exactly once to the groups already present, wherever the leftover lands. |
| Grouping.AsWrittenMatchesIntended | pkg/dockerfile/generator.go:216-219 | When there is no large file or the small files divide evenly, the file groups as written equal the intended ones. |
| Grouping.RemainderMisplacedWithLargeFiles | pkg/dockerfile/generator.go:216-219 | Ten small files, three groups and one large file: the leftover joins the middle small group, so the small groups no longer read in listing order. |
| Grouping.FolderOutputAsWritten | pkg/dockerfile/generator.go:184-191 | As written, the folder groups hold the large files followed by the small folders, or by the large folders when there is no small folder, or nothing. |
| Grouping.MixedListingBuckets | pkg/dockerfile/generator.go:138-169 | A 300-byte file, a 500-byte folder and a 10-byte folder against a threshold of 100: one large file, one large folder, one small folder. |
| Grouping.LargeFolderLost | pkg/dockerfile/generator.go:184-191 | On that listing the large file is copied in both file and folder groups, and the large folder in neither. |
| Grouping.IntendedEvenSplit | pkg/dockerfile/generator.go:208-219 | Intended plan: above numGroups small files there are numGroups small groups of len/numGroups files, the last also taking the leftover, and together they are the small files in order. |
| Grouping.IntendedFileGroupsInOrder | pkg/dockerfile/generator.go:172-222 | The intended file groups list the large files and then the small files, in listing order. |
| Grouping.IntendedPlanCoversEveryEntry | pkg/dockerfile/generator.go:172-222 | In the intended plan every listed entry is in exactly one group, file or folder. |
| Generator.RenderGroups | pkg/dockerfile/generator.go:241-256 | The text is one line per file group (COPY, each name and a space, /src) and then one line per folder-group entry (COPY name /src/name), each ended by a newline. |
| Generator.CopyWorkspace | pkg/dockerfile/generator.go:226-259 | With grouping off: COPY . /src. A failed listing or walk yields its error. Otherwise the result is the rendering of the plan for the shipped group count and threshold. |
| Generator.SplitTerminatedInverts | pkg/dockerfile/generator.go:241-256 | Text built from newline-ended lines splits back into exactly those lines, provided no line contains a newline. |
| Generator.RenderedLines | pkg/dockerfile/generator.go:241-256 | If no name contains a newline, the rendered text has exactly one line per file group plus one per folder-group entry, each being that group's or entry's COPY. |
| Generator.ShippedFileGroupsInOrder | pkg/dockerfile/generator.go:23-25 | With the shipped group count of 1, the file groups as written list the large files and then the small files in order. |
| Generator.FilterEmpty | pkg/dockerfile/generator.go:423-431 | The result is the list without its empty strings: none remains, and every other string is kept as often as it occurs, in order. |
| Generator.NonEmptyContents | pkg/dockerfile/generator.go:423-431 | The filter leaves no empty string and keeps every non-empty string with its multiplicity. |
| Generator.NonEmptyAppend | pkg/dockerfile/generator.go:423-431 | The filter keeps order: filtering a concatenation is concatenating the filtered parts. |

## Left out

- Reading the project directory (`ioutil.ReadDir`) and walking it (`filepath.Walk`) are file-system I/O:
  - The listing is a parameter, `Result<seq<Entry>>`.
  - Each directory's walk is an abstract `Tree` whose unreadable paths carry the error the walk would report.
  - Symbolic links count as non-directories with their own size, as the walk sees them.
- Workspace.DirSize: the size is an unbounded natural, so int64 overflow of the sum is not modelled. It would need more than 9 exabytes of files.
- Grouping.GroupFiles: requires numGroups >= 1. The program is only ever called with the constant 1. With 0 or fewer it returns when there are no small files, and otherwise panics on a division by zero or an index out of range.
- Go slice aliasing through `append` is not modelled; groups are values. The value model is exact because the file-group list has no spare capacity when it serves as the base of the two folder appends: it starts as an empty literal of capacity 0, and one append gives it capacity 1, so each folder append copies the file-group list into a fresh array. Later writes into the file-group list's own array (appends into spare capacity, and the in-place update of the leftover step) never reach the folder list. The one inner slice both lists share, the large-file group, is never written: the leftover step reaches position 0 only when `numGroups` is 1, and then nothing is left over.
- Error messages are carried as plain reason strings. Their wording comes from the file system and is not modelled.
- The rest of the generator is not part of this model: base-image and package templating, `Generate`'s join of the filtered parts, temporary files, cog installation, and clean-up. It is string assembly around this core.
- Generator.CopyWorkspace: renders the plan as written, because that is the text the program emits.
  - The corrected plan (`Grouping.PlanIntended`) is a specification function.
  - `Generator.RenderGroups` renders any plan, so `Generator.RenderedLines` covers the corrected plan too.

## Findings

| source | as written | input that shows it | evidently intended | confidence | as-written member | corrected member |
|---|---|---|---|---|---|---|
| pkg/dockerfile/generator.go:184-191 | Both folder buckets are appended to the file-group list `ret` instead of `ret_folder`. The folder groups therefore start with the large-file group, and a small-folder group replaces the large-folder group. | Listing: model.bin (300 bytes), data/ (500), src/ (10); threshold 100; one group. Folder groups are [[model.bin],[src]]: model.bin is copied twice and data/ is never copied. | Folder groups: the large folders as one group, then the small folders as one group. Every entry is copied once. | not executed | Grouping.LargeFolderLost | Grouping.IntendedPlanCoversEveryEntry |
| pkg/dockerfile/generator.go:216-219 | The leftover small files are appended to `ret[numGroups-1]`, an index into the list that also holds the large-file group at position 0. | Ten small files a..j, one large file, three groups: [[model.bin],[a,b,c],[d,e,f,j],[g,h,i]]. | The leftover joins the last small group. | not executed; cannot occur with the shipped group count of 1 | Grouping.RemainderMisplacedWithLargeFiles | Grouping.IntendedEvenSplit |
