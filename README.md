# Video splitter and Discord uploader — verified model of the core logic

The system is two small Python programs. `video_splitter.py` picks the
videos in a directory. It estimates how many equal-duration segments each
video must be cut into so that every segment stays under about 9.9 MiB. It
then has ffmpeg write the segments as `<stem>_part_NNN<suffix>`. `bot.py`
reads the upload folder and groups its files by the video they came from,
which is the file's stem up to the last `_part_`. It sorts each group by
file name and posts each group to a Discord channel in messages of at most
ten attachments.

This project models the pure part of both programs in Dafny and proves what
it promises:

- `VideoSplitter`: the segment count and duration, the part-file name
  pattern, and the video-extension filter.
- `Bot`: the grouping key and the grouping. This is a dictionary built by
  one loop and then a second loop that sorts every group. It also covers
  the sending loop, which goes over the groups in dictionary order and
  sends slices of ten.
- `Strings`, `Paths`, `Lists`, `Sorting` and `Grouping` hold what those rely on:
  - `str.rfind` and `str.lower` (ASCII only);
  - Python's ordering on `str`;
  - C's `%03d`;
  - pathlib's `suffix` and `stem`;
  - filtering a list, as a comprehension with an `if` does;
  - `list.sort` by name;
  - grouping by a key with the keys in insertion order;
  - cutting a list into `range(0, n, 10)` slices.
- `SplitThenUpload` connects the two programs. The parts of one video come
  back as one group in part order, as long as there are at most 1000 parts
  (indices 000 to 999). From part 1000 on, name order and part order disagree.

A path is modelled by its name, a `string`. `Paths.Stem` and `Paths.Suffix`
split it, and `Paths.Stem` guarantees `stem + suffix == name`. The folder
listing and the two existence checks are inputs of `Bot.SendFiles`. The
method returns the sequence of messages it would send.

Where the code and its own comments differ, the model follows the code:

- Groups are sorted by file name as text, although the comment at bot.py:28
  speaks of sorting by part number. The two orders agree up to 1000 parts
  (indices 000 to 999) and disagree from part 1000 on (`SplitThenUpload.PartNamesSorted`,
  `SplitThenUpload.MoreThanAThousandPartsOutOfOrder`,
  `Bot.PartTenBeforePartNine`).
- The docstring at bot.py:19 speaks of `_part_xxx` for videos, but the bot
  groups every file, whatever its type (`Bot.SuffixDoesNotMatter`).

Two further behaviours of the code are modelled as written:

- `calculate_segments` does not enforce a minimum of one segment. A zero size
  gives zero segments and Python's `ZeroDivisionError`, which the model
  returns as `VideoSplitter.ZeroDivisionError`.
- The text after `_part_` is never checked to be a number
  (`Bot.NonNumericPartIndex`).

## Model

| member | source | states |
|---|---|---|
| VideoSplitter.Ceil | video_splitter.py:45 | the result is the least integer not below its argument: `n - 1 < x <= n` |
| VideoSplitter.CeilOfQuotient | video_splitter.py:45-46 | the rounded-up quotient is 0 exactly when the size lies in the half-open interval of one target width ending at 0, for either sign of the target, and with a positive target the count of targets just covers the size |
| VideoSplitter.FileSizeBytes | video_splitter.py:43 | the size estimate in bytes: bitrate (bit/s) times duration (s) divided by 8 |
| VideoSplitter.TargetBytes | video_splitter.py:44 | the target in bytes: the target in MiB times 1024 × 1024 |
| VideoSplitter.CalculateSegments | video_splitter.py:42-47 | `ZeroDivisionError` exactly when the target is 0 or the estimated size rounds up to 0 targets; otherwise the segment count is non-zero and count × segment duration equals the duration; with a positive target, count − 1 targets fall short of the size and count targets cover it |
| VideoSplitter.PositiveSizeIsPlanned | video_splitter.py:42-46 | a positive size estimate and a positive target always give a plan with at least one segment |
| VideoSplitter.SmallVideoIsOneSegment | video_splitter.py:42-47 | a video whose estimate is within the target is one segment covering the whole duration |
| VideoSplitter.NothingToSplitFails | video_splitter.py:43-46 | a zero bitrate or zero duration gives 0 segments and then a division by zero |
| VideoSplitter.TenMinuteExample | video_splitter.py:42-47 | 600 s at 8 Mbit/s with the default 9.9 MiB target gives 58 segments of 600/58 s |
| VideoSplitter.PartName | video_splitter.py:53 | the name of part `i`: the video's stem, `_part_`, the `%03d` field of `i`, and the video's suffix (properties in the lemmas below) |
| VideoSplitter.PartIndexIsThreeDigits | video_splitter.py:53 | below 1000 the index field of a part name is exactly three decimal digits |
| VideoSplitter.PartNamesSortByIndex | video_splitter.py:53 | below 1000, part names compare as Python strings exactly as their indices compare, and distinct indices give distinct names |
| VideoSplitter.PartThousandSortsBeforeNineHundredNinetyNine | video_splitter.py:53 | the name of part 1000 sorts strictly before the name of part 999 |
| VideoSplitter.PartNameSplits | video_splitter.py:53 | a part keeps the video's suffix, and its stem is the video's stem, `_part_` and the index field |
| VideoSplitter.IsVideo | video_splitter.py:26-27 | an entry is a video when its lower-cased suffix is one of `.mp4 .mkv .avi .mov .flv .wmv` |
| Lists.Filter | video_splitter.py:27 | the list comprehension with an `if`: the elements passing the test, in list order |
| Lists.FilterSelects | video_splitter.py:27 | the filter keeps exactly the elements that pass, each as often as listed, and nothing else |
| Lists.FilterAppend | video_splitter.py:27 | filtering a concatenation gives the concatenation of the filtered pieces, so the filter never reorders |
| VideoSplitter.VideoFiles | video_splitter.py:25-27 | exactly the entries whose lower-cased suffix is a video extension are kept, each as often as listed |
| VideoSplitter.VideoFilesKeepsOrder | video_splitter.py:27 | the filter distributes over concatenation, so it keeps listing order |
| VideoSplitter.VideoHasSuffix | video_splitter.py:26-27 | a name without a suffix is never selected |
| VideoSplitter.VideoSuffixIgnoresCase | video_splitter.py:26-27 | a name is selected exactly when its lower-cased extension is one of the six, and exactly when the same name with its extension lower-cased is selected: letter case never matters |
| VideoSplitter.LowerMp4 | video_splitter.py:27 | `.MP4` lower-cases to `.mp4` |
| VideoSplitter.UpperCaseExtensionIsVideo | video_splitter.py:26-27 | a name ending in the upper-case `.MP4` is selected |
| Paths.SuffixStart | video_splitter.py:27 | the suffix starts at a dot that is neither the first nor the last character, or there is none |
| Paths.Suffix | video_splitter.py:27 | the suffix is empty exactly when no dot lies strictly inside the name or the name ends in a dot; otherwise it is the name's tail from its last dot |
| Paths.Stem | bot.py:22-26 | stem followed by suffix is the name |
| Paths.JoinSplits | video_splitter.py:53 | a non-empty stem joined to a well-formed suffix splits back into that stem and suffix |
| Strings.Contains | bot.py:22 | Python's `pat in s`: the pattern occurs at some index of the string |
| Strings.RFind | bot.py:23 | the index of the last occurrence of the pattern, non-negative exactly when the pattern occurs |
| Strings.RFindAtOrBelow | bot.py:23 | the last occurrence at or below a bound, or -1 when there is none |
| Strings.LessEq | bot.py:30 | Python's `<=` on `str`: the first differing code point decides, and a prefix sorts first |
| Strings.LessEqReflexive | bot.py:30 | Python's string order is reflexive |
| Strings.LessEqAntisymmetric | bot.py:30 | Python's string order is antisymmetric |
| Strings.LessEqTransitive | bot.py:30 | Python's string order is transitive |
| Strings.LessEqTotal | bot.py:30 | Python's string order is total |
| Strings.LessEqCommonPrefix | bot.py:30 | a shared prefix does not change how two strings compare |
| Strings.LessEqCons | bot.py:30 | strings compare on their first characters, then on the rest |
| Strings.LowerChar | video_splitter.py:27 | upper-case ASCII letters map to their lower-case letters; every other character is unchanged |
| Strings.ToLower | video_splitter.py:27 | lower-casing keeps the length and lower-cases each character |
| Strings.ToLowerIdempotent | video_splitter.py:27 | lower-casing an already lower-cased text changes nothing |
| Strings.Decimal | video_splitter.py:53 | the decimal numeral of a number, without leading zeros |
| Strings.ZeroPad | video_splitter.py:53 | a numeral preceded by enough `0` to reach the field width, unchanged when already that wide |
| Strings.Pad3 | video_splitter.py:53 | C's `%03d`: the numeral padded with zeros to three characters (properties in `Pad3Small`, `Pad3Large`, `Pad3Digits`) |
| Strings.DigitChar | video_splitter.py:53 | the character is a digit whose value is the given number |
| Strings.DecimalDigits | video_splitter.py:53 | a numeral is non-empty, all digits, and has at least 2, 3 or 4 digits from 10, 100 or 1000 on |
| Strings.Pad3Digits | video_splitter.py:53 | the `%03d` field is all digits for any index |
| Strings.Pad3Small | video_splitter.py:53 | below 1000 the `%03d` field is the hundreds, tens and units digits |
| Strings.Pad3Large | video_splitter.py:53 | from 1000 on the `%03d` field is the plain numeral of four or more digits |
| Strings.Pad3Order | video_splitter.py:53 | below 1000, padded fields followed by the same text compare as the numbers do |
| Strings.DigitsOrder | video_splitter.py:53 | below 1000, numbers compare as their digit triples do lexicographically |
| Strings.FieldOrder | video_splitter.py:53 | below 1000, texts differing only in the `%03d` field compare as the numbers do, and are equal only when the numbers are |
| Strings.Pad3ThousandBeforeNineHundredNinetyNine | video_splitter.py:53 | the field of 1000 sorts strictly before the field of 999 |
| Sorting.Insert | bot.py:30 | inserting into a sorted list keeps it sorted and adds exactly the one name |
| Sorting.SortByName | bot.py:29-30 | the result is sorted by name and is a permutation of the input |
| Sorting.SortedPermutationUnique | bot.py:30 | two sorted permutations of the same names are equal, so the sorted group is determined by its names |
| Sorting.SortSorted | bot.py:30 | sorting an already sorted list changes nothing |
| Sorting.SortIgnoresArrivalOrder | bot.py:30 | the sorted group does not depend on the order the folder listed the files in |
| Sorting.SliceSorted | bot.py:64 | every slice of a sorted group is sorted |
| Sorting.SortedHeadIsLeast | bot.py:30 | the head of a sorted list is no greater than any of its names |
| Grouping.KeyOrder | bot.py:20-26 | every element's key appears, only keys of elements appear, and each appears once |
| Grouping.KeyOrderSnoc | bot.py:21-26 | one more element adds its key at the end exactly when the key is new |
| Grouping.Members | bot.py:24-26 | every element of a group has that group's key |
| Grouping.MembersIsFilter | bot.py:20-26 | a key's group, built by appending as the loop does, is the input filtered by that key |
| Grouping.MembersSnoc | bot.py:24-26 | one more element is appended to its own key's group and to no other |
| Grouping.MembersCount | bot.py:20-26 | a group holds every element with its key, with multiplicity, and nothing else |
| Grouping.MembersOfAbsentKey | bot.py:20-26 | a key no element has gets an empty group |
| Grouping.GroupByKey | bot.py:20-26 | the dictionary loop returns the keys in first-seen order and maps each key, and only those keys, to its elements in input order |
| Grouping.GroupTableStepKnown | bot.py:24 | appending to an existing key's list keeps the dictionary in step with one more element |
| Grouping.GroupTableStepNew | bot.py:24-26 | creating the list of a new key keeps the dictionary in step with one more element |
| Grouping.NewKeyHasNoMembers | bot.py:20 | a key not yet in the dictionary has met no element so far |
| Grouping.GroupsPartition | bot.py:20-32 | the groups together hold exactly the input files, each once |
| Grouping.KeysInFirstSeenOrder | bot.py:20-26 | of two keys, the earlier one's first element comes before any element of the later one |
| Grouping.FirstOfNewKey | bot.py:24-26 | the first element with a new key is the only member of its group |
| Grouping.FirstSeenBefore | bot.py:20-26 | a key not among the keys of a prefix belongs to none of its elements |
| Grouping.OnlyKey | bot.py:20-26 | when all elements share a key, that key is the only one |
| Grouping.MembersOfOnlyKey | bot.py:20-26 | when all elements share a key, its group is the whole input in order |
| Grouping.SliceOfGroupHasKey | bot.py:63-64 | every slice of a group holds only files of that group's key |
| Grouping.GroupedElementsSnoc | bot.py:61 | the union over one more key adds that key's group |
| Grouping.GroupedElementsStep | bot.py:21-26 | one more input element adds it to the union of the groups exactly when its key is among them |
| Grouping.AddOneToGroup | bot.py:24 | one element added to one of two disjoint places adds it once to their union |
| Grouping.Chunks | bot.py:63-64 | the slices `xs[i:i+size]` for `i` in `range(0, len(xs), size)`, in order |
| Grouping.ChunksCover | bot.py:63-64 | the slices laid end to end give back the group in order |
| Grouping.ChunksSizes | bot.py:63-64 | there are `ceil(n / size)` slices; all but the last hold exactly `size`, and every slice holds 1 to `size` |
| Grouping.ChunksFrom | bot.py:63-64 | one loop step takes the slice `i:i+size` and continues from `i + size` |
| Grouping.ChunksAreSlices | bot.py:64 | each slice is a contiguous stretch of the group |
| Grouping.FlattenAppend | bot.py:61-64 | flattening distributes over concatenation |
| Grouping.ChunksOfGroups | bot.py:61-64 | the slices of every group, group after group in the order of the keys |
| Grouping.ChunksOfGroupsBounded | bot.py:61-64 | every message of every group holds 1 to `size` files |
| Grouping.ChunksOfGroupsAreSlices | bot.py:61-64 | every message is a contiguous stretch of one group |
| Grouping.ChunksOfGroupsCover | bot.py:61-64 | the messages together hold exactly the files of the groups |
| Bot.BaseName | bot.py:22-26 | the group key of a file: its stem up to the last `_part_` when the stem contains one, else the whole stem |
| Bot.BaseNameCutsAtLastMarker | bot.py:22-26 | the key is the stem when it has no `_part_`, and otherwise the stem's prefix ending at its last `_part_` |
| Bot.MarkerBeforeTailIsLast | bot.py:23 | a `_part_` followed only by text without `_` is the last one |
| Bot.BaseNameBeforeLastMarker | bot.py:22-23 | a stem `head_part_tail` with no `_` in the tail is grouped under `head`, whatever `head` contains |
| Bot.NonNumericPartIndex | bot.py:22-23 | a non-numeric tail after `_part_` is still cut off |
| Bot.SuffixDoesNotMatter | bot.py:22-26 | files differing only in their suffix share a group |
| Bot.GroupFilesByBase | bot.py:18-32 | the groups' keys come in first-seen order, the dictionary holds exactly those keys, and each maps to the sorted files of its key |
| Bot.SortEachGroup | bot.py:29-30 | every list of the dictionary is replaced by its sorted permutation and the keys are unchanged |
| Bot.FileInOwnGroupOnly | bot.py:20-30 | a file is in the group of its own key and in no other |
| Bot.PartTenBeforePartNine | bot.py:30 | names sort as text, so `a_part_10.mp4` sorts strictly before `a_part_9.mp4` |
| Bot.SliceIntoBatches | bot.py:63-64 | the inner loop produces exactly the `range(0, n, 10)` slices |
| Bot.Groups | bot.py:18-32 | the dictionary's keys are exactly the keys of the folder's files |
| Bot.Batches | bot.py:61-64 | every message `send_files` sends for a folder, in order: the groups in first-seen order, each cut into slices of ten |
| Bot.SendGroups | bot.py:61-64 | the outer loop sends the slices of every group, group after group in dictionary order |
| Bot.SendFiles | bot.py:45-64 | nothing is sent when the channel or the folder is missing; otherwise the grouped folder's messages are sent in order |
| Bot.EveryBatchFits | bot.py:61-64 | every message carries between one and ten files |
| Bot.EveryBatchIsOneGroupInOrder | bot.py:61-64 | every message holds files of one group only, in name order |
| Bot.SumOfGroupsIsGrouped | bot.py:58-61 | the files of the sent groups are the folder's files with those keys |
| Bot.EveryFileSentOnce | bot.py:57-64 | every file of the folder is sent exactly once and nothing else is |
| Bot.TwentyThreeFiles | bot.py:63-64 | a group of 23 files goes out as messages of 10, 10 and 3 |
| SplitThenUpload.PartNames | video_splitter.py:53 | there are `n` part names, the `i`-th being the name of part `i` |
| SplitThenUpload.GroupKeyOfPart | bot.py:22-23 | every part the splitter names is grouped under the video's stem |
| SplitThenUpload.PartNamesSorted | bot.py:29-30 | up to 1000 parts, part order is name order |
| SplitThenUpload.SplitPartsRegroup | bot.py:18-64 | in whatever order the folder lists a video's 1 to 1000 parts, they form the only group, in part order, sent in slices of ten |
| SplitThenUpload.MoreThanAThousandPartsOutOfOrder | bot.py:29-30 | from 1001 parts on, the parts in index order are not sorted by name, so the bot reorders them |

## Left out

- The Discord client, its event loop started by `asyncio.run(client.start(...))`, the `on_ready` handler that closes it, the token and the channel lookup are left out. These are network and async effects. Whether the channel was found is a boolean input of `Bot.SendFiles`.
- `send_file_group` is modelled as the slice it is given. The upload, the `unlink` of each sent file and the swallowed exception are I/O and are left out. So a failed upload leaves files behind, and the model does not capture that.
- Directory listing (`iterdir`, `glob('*')`) and `exists` are left out because they are file-system I/O. The listing is a sequence of names given as input. Directories among the entries are treated like files.
- Paths are modelled by their final component. Parent directories never affect `stem`, `suffix` or `name` in the code modelled.
- `get_video_metadata` and `split_video`'s ffmpeg run are external processes and are left out. Where ffmpeg really cuts (at keyframes) and the text parsing of ffprobe output are not modelled. Part `i` is taken to be named with the number `i`, counting from 0.
- IEEE double arithmetic in `calculate_segments` is left out. The model uses exact reals. Rounding near an exact multiple of the target, overflow, infinities and NaN are not modelled.
- `str.lower()` is modelled for ASCII only. Non-ASCII case mappings cannot turn a suffix into one of the six ASCII extensions except through the Kelvin sign and similar letters, which are not modelled.
- The pathlib suffix rule modelled is the one before Python 3.14. That release also treats some names ending in a dot differently.
- A `%` in the video's stem would be read by ffmpeg as part of the output pattern. This is ffmpeg's behaviour and is not modelled.
- `check_ffmpeg`, `run_bot`, `main`, argument parsing, logging and `print` are glue around the core and are left out.
- The bot reads `split_video` while the splitter writes to `split_videos` by default. `SplitThenUpload` assumes the bot reads the folder the splitter wrote.
- `Bot.SendFiles` returns the messages it would send rather than sending them. Their order is the order of the `await` calls.
