/** The uploader's pure logic: files of the upload folder are grouped by the
    name of the video they came from, each group is put in name order, and
    each group is sent in messages of at most ten attachments.

    What the result is, is said by `BaseName` and the functions of `Grouping`
    (`KeyOrder`, `Members`, `Chunks`) and by `Batches`; the methods
    `GroupFilesByBase`, `SliceIntoBatches` and `SendFiles` compute it step by
    step as the loops of bot.py do, and are proved to agree with them. */
module Bot {
  import opened Strings
  import opened Paths
  import opened Sorting
  import opened Grouping

  /** The marker the splitter puts before a part index. */
  const PartMarker: string := "_part_"

  /** The most attachments one message carries. */
  const BatchSize: nat := 10

  // ---------------------------------------------------------------------------
  // Group keys

  /** The group a file belongs to: its stem up to the last `_part_` when the
      stem contains one, and the whole stem otherwise. What follows the
      marker is not checked. */
  function BaseName(name: string): string {
    var stem := Stem(name);
    if Contains(stem, PartMarker) then stem[..RFind(stem, PartMarker)] else stem
  }

  /** The key is the stem when the stem has no marker, and otherwise the part
      of the stem before the last marker (Python's `rsplit(marker, 1)[0]`). */
  lemma BaseNameCutsAtLastMarker(name: string)
    ensures !Contains(Stem(name), PartMarker) ==> BaseName(name) == Stem(name)
    ensures Contains(Stem(name), PartMarker) ==>
      var key := BaseName(name);
      && |key| < |Stem(name)|
      && Stem(name)[..|key|] == key
      && OccursAt(Stem(name), PartMarker, |key|)
      && forall k :: |key| < k ==> !OccursAt(Stem(name), PartMarker, k)
  {
  }

  /** In `head + "_part_" + tail` with no `_` in `tail`, the marker before
      the tail is the last one. */
  lemma MarkerBeforeTailIsLast(head: string, tail: string)
    requires forall k :: 0 <= k < |tail| ==> tail[k] != '_'
    ensures RFind(head + PartMarker + tail, PartMarker) == |head|
  {
    var s := head + PartMarker + tail;
    var d := |head|;
    assert s[d..d + |PartMarker|] == PartMarker;
    assert OccursAt(s, PartMarker, d);
    forall k | d < k && k + |PartMarker| <= |s| ensures !OccursAt(s, PartMarker, k) {
      var j := if k < d + |PartMarker| then k + 5 else k;
      assert s[j] == tail[j - d - |PartMarker|];
      assert s[k..k + |PartMarker|][j - k] == s[j];
    }
  }

  /** When the stem is some text, the marker, and a tail without `_`, the
      key is that text, whatever it holds. */
  lemma BaseNameBeforeLastMarker(name: string, head: string, tail: string)
    requires Stem(name) == head + PartMarker + tail
    requires forall k :: 0 <= k < |tail| ==> tail[k] != '_'
    ensures BaseName(name) == head
  {
    MarkerBeforeTailIsLast(head, tail);
    assert (head + PartMarker + tail)[..|head|] == head;
  }

  // ---------------------------------------------------------------------------
  // Grouping

  /** The groups built from the folder: keys in first-seen order, each mapped to its files. */
  datatype FileGroups = FileGroups(order: seq<string>, members: map<string, seq<string>>)

  /** `group_files_by_base`: a dictionary that appends each file to the list
      of its key, creating the list the first time the key is met, after
      which every list is sorted by file name. */
  method GroupFilesByBase(files: seq<string>) returns (groups: FileGroups)
    ensures groups.order == KeyOrder(files, BaseName)
    ensures forall k :: k in groups.members <==> k in groups.order
    ensures forall k :: k in groups.members ==>
      groups.members[k] == SortByName(Members(files, BaseName, k))
  {
    var order, table := GroupByKey(files, BaseName);
    table := SortEachGroup(order, table);
    groups := FileGroups(order, table);
  }

  /** The second loop of `group_files_by_base`: every list of the dictionary
      sorted by file name, visiting the keys in the dictionary's order. */
  method SortEachGroup(order: seq<string>, table: map<string, seq<string>>)
    returns (sorted: map<string, seq<string>>)
    requires forall k :: k in table <==> k in order
    requires forall p, q :: 0 <= p < q < |order| ==> order[p] != order[q]
    ensures forall k :: k in sorted <==> k in table
    ensures forall k :: k in sorted ==> sorted[k] == SortByName(table[k])
  {
    sorted := table;
    for j := 0 to |order|
      invariant forall k :: k in sorted <==> k in table
      invariant forall k :: k in sorted ==>
        sorted[k] == if k in order[..j] then SortByName(table[k]) else table[k]
    {
      var k := order[j];
      TakeOneMore(order, j);
      NotBefore(order, j);
      sorted := sorted[k := SortByName(sorted[k])];
    }
    assert order[..|order|] == order;
  }

  /** A file lies in the group of its own key and in no other. */
  lemma FileInOwnGroupOnly(files: seq<string>, f: string, key: string)
    requires f in files
    ensures f in SortByName(Members(files, BaseName, key)) <==> BaseName(f) == key
  {
    MembersCount(files, BaseName, key);
    assert multiset(files)[f] > 0;
    assert f in SortByName(Members(files, BaseName, key)) <==>
      multiset(Members(files, BaseName, key))[f] > 0;
  }

  // ---------------------------------------------------------------------------
  // Batching

  /** The inner loop of `send_files`: `files[i:i+10]` for `i` in
      `range(0, len(files), 10)`, one message per slice. */
  method SliceIntoBatches(files: seq<string>) returns (batches: seq<seq<string>>)
    ensures batches == Chunks(files, BatchSize)
  {
    batches := [];
    var i := 0;
    while i < |files|
      invariant 0 <= i
      invariant batches + Chunks(files[Min(i, |files|)..], BatchSize) == Chunks(files, BatchSize)
    {
      var end := Min(i + BatchSize, |files|);
      ChunksFrom(files, BatchSize, i);
      batches := batches + [files[i..end]];
      i := i + BatchSize;
    }
    assert files[|files|..] == [];
  }

  /** What `group_files_by_base` returns, as a dictionary: each key of the
      folder mapped to its files in name order. */
  function Groups(files: seq<string>): (groups: map<string, seq<string>>)
    ensures forall k :: k in groups <==> k in KeyOrder(files, BaseName)
  {
    map k | k in KeyOrder(files, BaseName) :: SortByName(Members(files, BaseName, k))
  }

  /** All messages sent for the upload folder's files, in sending order: the
      groups in first-seen order, each cut into slices of ten. */
  function Batches(files: seq<string>): seq<seq<string>> {
    ChunksOfGroups(KeyOrder(files, BaseName), Groups(files), BatchSize)
  }

  /** The outer loop of `send_files`: the groups in the dictionary's order,
      each sent slice by slice. */
  method SendGroups(order: seq<string>, groups: map<string, seq<string>>) returns (sent: seq<seq<string>>)
    requires forall k :: k in order ==> k in groups
    ensures sent == ChunksOfGroups(order, groups, BatchSize)
  {
    sent := [];
    for j := 0 to |order|
      invariant sent == ChunksOfGroups(order[..j], groups, BatchSize)
    {
      assert order[..j + 1][..j] == order[..j];
      var batches := SliceIntoBatches(groups[order[j]]);
      sent := sent + batches;
    }
    assert order[..|order|] == order;
  }

  /** `send_files`: when the channel and the upload folder both exist, the
      files are grouped and every group is sent slice by slice, groups in
      first-seen order; otherwise nothing is sent. The result is the sequence
      of messages sent. */
  method SendFiles(channelFound: bool, folderExists: bool, folder: seq<string>)
    returns (sent: seq<seq<string>>)
    ensures sent == if channelFound && folderExists then Batches(folder) else []
  {
    sent := [];
    if !channelFound {
      return;
    }
    if !folderExists {
      return;
    }
    var groups := GroupFilesByBase(folder);
    assert groups.members == Groups(folder);
    sent := SendGroups(groups.order, groups.members);
  }

  // ---------------------------------------------------------------------------
  // What the messages are

  /** Every message carries between one and ten files. */
  lemma EveryBatchFits(files: seq<string>)
    ensures forall b :: b in Batches(files) ==> 1 <= |b| <= BatchSize
  {
    ChunksOfGroupsBounded(KeyOrder(files, BaseName), Groups(files), BatchSize);
  }

  /** Each message holds files of one group only, in name order. */
  lemma EveryBatchIsOneGroupInOrder(files: seq<string>)
    ensures forall b :: b in Batches(files) ==>
      SortedByName(b) && forall x, y :: x in b && y in b ==> BaseName(x) == BaseName(y)
  {
    var keys, groups := KeyOrder(files, BaseName), Groups(files);
    ChunksOfGroupsAreSlices(keys, groups, BatchSize);
    forall b | b in Batches(files)
      ensures SortedByName(b) && forall x, y :: x in b && y in b ==> BaseName(x) == BaseName(y)
    {
      var k, i, j :| k in keys && 0 <= i <= j <= |groups[k]| && b == groups[k][i..j];
      SliceSorted(groups[k], i, j);
      SliceOfGroupHasKey(groups[k], files, BaseName, k, i, j);
    }
  }

  /** The files of the groups named by `keys`, taken together, are exactly
      the folder's files whose key is one of `keys`. */
  lemma {:induction false} SumOfGroupsIsGrouped(keys: seq<string>, files: seq<string>)
    requires forall k :: k in keys ==> k in KeyOrder(files, BaseName)
    ensures SumOfGroups(keys, Groups(files)) == GroupedElements(keys, files, BaseName)
  {
    if keys != [] {
      SumOfGroupsIsGrouped(keys[..|keys| - 1], files);
    }
  }

  /** Every file of the folder is sent exactly once, and nothing else is. */
  lemma EveryFileSentOnce(files: seq<string>)
    ensures multiset(Flatten(Batches(files))) == multiset(files)
  {
    var keys := KeyOrder(files, BaseName);
    ChunksOfGroupsCover(keys, Groups(files), BatchSize);
    SumOfGroupsIsGrouped(keys, files);
    GroupsPartition(files, BaseName);
  }

  /** Twenty-three files of one video go out as messages of 10, 10 and 3. */
  lemma TwentyThreeFiles(group: seq<string>)
    requires |group| == 23
    ensures |Chunks(group, BatchSize)| == 3
    ensures |Chunks(group, BatchSize)[0]| == 10 && |Chunks(group, BatchSize)[1]| == 10
    ensures |Chunks(group, BatchSize)[2]| == 3
  {
    var rest := group[BatchSize..];
    assert Chunks(group, BatchSize) == [group[..BatchSize]] + Chunks(rest, BatchSize);
    assert Chunks(rest, BatchSize) == [rest[..BatchSize]] + Chunks(rest[BatchSize..], BatchSize);
    assert Chunks(rest[BatchSize..], BatchSize) == [rest[BatchSize..]];
  }

  // ---------------------------------------------------------------------------
  // Examples

  /** What follows the marker is not checked: a file whose stem is
      `weird_part_abc` is grouped under `weird`. */
  lemma NonNumericPartIndex(name: string)
    requires Stem(name) == "weird" + PartMarker + "abc"
    ensures BaseName(name) == "weird"
  {
    BaseNameBeforeLastMarker(name, "weird", "abc");
  }

  /** Files are not filtered by type: names that differ only in their
      suffix (`movie.png`, `movie.mp4`) fall into the same group. */
  lemma SuffixDoesNotMatter(stem: string, suffix1: string, suffix2: string)
    requires stem != []
    requires |suffix1| >= 2 && suffix1[0] == '.' && forall k :: 1 <= k < |suffix1| ==> suffix1[k] != '.'
    requires |suffix2| >= 2 && suffix2[0] == '.' && forall k :: 1 <= k < |suffix2| ==> suffix2[k] != '.'
    ensures BaseName(stem + suffix1) == BaseName(stem + suffix2)
  {
    JoinSplits(stem, suffix1);
    JoinSplits(stem, suffix2);
  }

  /** Names are compared as text, not by part number: part 10 sorts before part 9. */
  lemma PartTenBeforePartNine()
    ensures LessEq("a_part_10.mp4", "a_part_9.mp4")
    ensures !LessEq("a_part_9.mp4", "a_part_10.mp4")
  {
    assert "a_part_10.mp4" == "a_part_" + "10.mp4";
    assert "a_part_9.mp4" == "a_part_" + "9.mp4";
    LessEqCommonPrefix("a_part_", "10.mp4", "9.mp4");
    LessEqCommonPrefix("a_part_", "9.mp4", "10.mp4");
  }
}
