/** The two programs together: the splitter writes `<stem>_part_NNN<suffix>`
    files into the upload folder, and the bot groups that folder by the text
    before the last `_part_`. These lemmas show that the parts of one video
    come back as one group, in part order, as long as there are at most a
    thousand of them. */
module SplitThenUpload {
  import opened Strings
  import opened Paths
  import opened Sorting
  import opened Grouping
  import VideoSplitter
  import Bot

  /** The names of the first `n` parts written for the video `name`. */
  function PartNames(name: string, n: nat): (r: seq<string>)
    ensures |r| == n
    ensures forall i :: 0 <= i < n ==> r[i] == VideoSplitter.PartName(name, i)
  {
    seq(n, i requires 0 <= i < n => VideoSplitter.PartName(name, i))
  }

  /** Every part of a video that has a suffix is grouped under the video's stem. */
  lemma GroupKeyOfPart(name: string, i: nat)
    requires Suffix(name) != ""
    ensures Bot.BaseName(VideoSplitter.PartName(name, i)) == Stem(name)
  {
    VideoSplitter.PartNameSplits(name, i);
    Pad3Digits(i);
    Bot.BaseNameBeforeLastMarker(VideoSplitter.PartName(name, i), Stem(name), Pad3(i));
  }

  /** Up to a thousand parts, the part names are already in name order. */
  lemma PartNamesSorted(name: string, n: nat)
    requires n <= 1000
    ensures SortedByName(PartNames(name, n))
  {
    var parts := PartNames(name, n);
    forall i, j | 0 <= i < j < n ensures LessEq(parts[i], parts[j]) {
      VideoSplitter.PartNamesSortByIndex(name, i, j);
    }
  }

  /** Whatever order the folder lists them in, the parts of one video form a
      single group, that group is the parts in index order, and they are sent
      in that order ten at a time. */
  lemma SplitPartsRegroup(name: string, n: nat, folder: seq<string>)
    requires Suffix(name) != ""
    requires 0 < n <= 1000
    requires multiset(folder) == multiset(PartNames(name, n))
    ensures KeyOrder(folder, Bot.BaseName) == [Stem(name)]
    ensures Bot.Groups(folder)[Stem(name)] == PartNames(name, n)
    ensures Bot.Batches(folder) == Chunks(PartNames(name, n), Bot.BatchSize)
  {
    var parts := PartNames(name, n);
    var key := Stem(name);
    forall k | 0 <= k < |folder| ensures Bot.BaseName(folder[k]) == key {
      assert folder[k] in multiset(parts);
      var i :| 0 <= i < n && parts[i] == folder[k];
      GroupKeyOfPart(name, i);
    }
    assert |folder| == n by { assert |multiset(folder)| == |multiset(parts)|; }
    OnlyKey(folder, Bot.BaseName, key);
    MembersOfOnlyKey(folder, Bot.BaseName, key);
    PartNamesSorted(name, n);
    SortedPermutationUnique(SortByName(folder), parts);
    var groups := Bot.Groups(folder);
    assert [key][..0] == [];
    assert Bot.Batches(folder) == ChunksOfGroups([], groups, Bot.BatchSize) + Chunks(groups[key], Bot.BatchSize);
  }

  /** From 1001 parts on, name order and part order part ways: the group the
      bot builds, being in name order, sends part 1000 before part 999. */
  lemma MoreThanAThousandPartsOutOfOrder(name: string, n: nat)
    requires n > 1000
    ensures !SortedByName(PartNames(name, n))
  {
    var parts := PartNames(name, n);
    VideoSplitter.PartThousandSortsBeforeNineHundredNinetyNine(name);
  }
}
