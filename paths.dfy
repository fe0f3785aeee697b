/** The two parts of a file name that both programs use: pathlib's `suffix`
    (the text from the last dot, when that dot is neither the first nor the
    last character of the name) and `stem` (the name without its suffix).
    A path is modelled by its final component, its name. */
module Paths {
  import opened Strings

  /** Where the suffix starts, or -1 when the name has none. */
  function SuffixStart(name: string): (i: int)
    ensures i == -1 || (0 < i < |name| - 1 && name[i] == '.')
  {
    var i := RFind(name, ".");
    if 0 < i < |name| - 1 then i else -1
  }

  /** pathlib's `PurePath.suffix`. */
  function Suffix(name: string): (r: string)
    ensures r != "" ==>
      && |r| >= 2 && |r| < |name|
      && name[|name| - |r|..] == r
      && r[0] == '.'
      && (forall k :: 1 <= k < |r| ==> r[k] != '.')
    ensures r == "" <==>
      (forall k :: 0 < k < |name| - 1 ==> name[k] != '.') || (name != [] && name[|name| - 1] == '.')
  {
    var i := SuffixStart(name);
    var r := if i == -1 then "" else name[i..];
    assert r != "" ==> forall k :: 1 <= k < |r| ==> r[k] != '.' by {
      if r != "" {
        forall k | 1 <= k < |r| ensures r[k] != '.' {
          assert !OccursAt(name, ".", i + k);
          assert name[i + k..i + k + 1] == [name[i + k]];
        }
      }
    }
    assert r == "" ==>
      (forall k :: 0 < k < |name| - 1 ==> name[k] != '.') || (name != [] && name[|name| - 1] == '.') by {
      if r == "" && !(name != [] && name[|name| - 1] == '.') {
        forall k | 0 < k < |name| - 1 ensures name[k] != '.' {
          if name[k] == '.' {
            assert OccursAt(name, ".", k);
          }
        }
      }
    }
    r
  }

  /** pathlib's `PurePath.stem`. */
  function Stem(name: string): (r: string)
    ensures r + Suffix(name) == name
  {
    var i := SuffixStart(name);
    if i == -1 then name else name[..i]
  }

  /** Joining a non-empty stem and a well-formed suffix gives a name that
      splits back into the same two parts. */
  lemma {:induction false} JoinSplits(stem: string, suffix: string)
    requires stem != []
    requires |suffix| >= 2 && suffix[0] == '.'
    requires forall k :: 1 <= k < |suffix| ==> suffix[k] != '.'
    ensures Suffix(stem + suffix) == suffix
    ensures Stem(stem + suffix) == stem
  {
    var name := stem + suffix;
    var d := |stem|;
    assert OccursAt(name, ".", d) by { assert name[d..d + 1] == [suffix[0]]; }
    assert RFind(name, ".") == d by {
      forall k | d < k < |name| ensures !OccursAt(name, ".", k) {
        assert name[k..k + 1] == [suffix[k - d]];
      }
    }
    assert name[d..] == suffix && name[..d] == stem;
  }
}
