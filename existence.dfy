/**
 The existence check (`do_video_exist`): the directory listing is a sequence of
 file names, and an item counts as present when some name contains its
 sanitised title and ends in `.mp4`.
 */
module Existence {
  import opened Strings
  import opened Naming

  /** One listed file name counts as a match for a sanitised title. */
  predicate Matches(filename: string, safeTitle: string) {
    Contains(filename, safeTitle) && EndsWith(filename, ".mp4")
  }

  /** Some name in the listing matches the sanitised title. */
  predicate VideoExists(names: seq<string>, title: string, unicode: NonAsciiAlnum) {
    exists i | 0 <= i < |names| :: Matches(names[i], SafeTitle(title, unicode))
  }

  /**
   `do_video_exist`: scans the listing in order and returns on the first match.
   True exactly when some name contains the sanitised title and ends in `.mp4`.
   */
  method DoVideoExist(names: seq<string>, title: string, unicode: NonAsciiAlnum) returns (found: bool)
    ensures found == VideoExists(names, title, unicode)
  {
    var safeTitle := SafeTitle(title, unicode);
    var k := 0;
    while k < |names|
      invariant 0 <= k <= |names|
      invariant forall i :: 0 <= i < k ==> !Matches(names[i], safeTitle)
    {
      if Contains(names[k], safeTitle) && EndsWith(names[k], ".mp4") {
        return true;
      }
      k := k + 1;
    }
    return false;
  }

  /** The name `output_path_f` writes is itself a match for the title it was made from. */
  lemma OutputNameMatches(title: string, res: string, date: string, unicode: NonAsciiAlnum)
    ensures Matches(OutputName(title, res, date, unicode), SafeTitle(title, unicode))
  {
    var name := OutputName(title, res, date, unicode);
    assert OccursAt(name, SafeTitle(title, unicode), |date| + 1);
  }

  /**
   Naming and matching agree: once the file named by `output_path_f` is in the
   listing, `do_video_exist` reports the title as present.
   */
  lemma NamedOutputIsRecognised(names: seq<string>, dir: string, title: string, res: string, date: string,
                                unicode: NonAsciiAlnum)
    requires '/' !in date && '/' !in res
    requires Basename(OutputPath(dir, title, res, date, unicode)) in names
    ensures VideoExists(names, title, unicode)
  {
    OutputPathBasename(dir, title, res, date, unicode);
    ListedNameIsRecognised(names, title, res, date, unicode);
  }

  /** A listed `{date}_{safe}_{res}.mp4` makes its title present. */
  lemma ListedNameIsRecognised(names: seq<string>, title: string, res: string, date: string, unicode: NonAsciiAlnum)
    requires OutputName(title, res, date, unicode) in names
    ensures VideoExists(names, title, unicode)
  {
    var i :| 0 <= i < |names| && names[i] == OutputName(title, res, date, unicode);
    OutputNameMatches(title, res, date, unicode);
    assert Matches(names[i], SafeTitle(title, unicode));
  }

  /**
   The heuristic's false positive: a title whose sanitised form occurs inside
   another's is reported present as soon as the other's file is there.
   */
  lemma ContainedTitleCountsAsPresent(names: seq<string>, title: string, other: string, res: string,
                                      date: string, unicode: NonAsciiAlnum)
    requires OutputName(other, res, date, unicode) in names
    requires Contains(SafeTitle(other, unicode), SafeTitle(title, unicode))
    ensures VideoExists(names, title, unicode)
  {
    var i :| 0 <= i < |names| && names[i] == OutputName(other, res, date, unicode);
    OutputNameMatches(other, res, date, unicode);
    ContainsTransitive(names[i], SafeTitle(other, unicode), SafeTitle(title, unicode));
    assert Matches(names[i], SafeTitle(title, unicode));
  }

  /**
   A longer listing keeps every title present: in particular an item a first
   run skipped on a substring match stays skipped once more files appear.
   */
  lemma PresenceSurvivesMoreFiles(names: seq<string>, more: seq<string>, title: string, unicode: NonAsciiAlnum)
    requires VideoExists(names, title, unicode)
    requires forall i :: 0 <= i < |names| ==> names[i] in more
    ensures VideoExists(more, title, unicode)
  {
    var i :| 0 <= i < |names| && Matches(names[i], SafeTitle(title, unicode));
    var j :| 0 <= j < |more| && more[j] == names[i];
    assert Matches(more[j], SafeTitle(title, unicode));
  }

  /** An empty sanitised title (an empty item title) matches every `.mp4` in the listing. */
  lemma EmptyTitleMatchesAnyVideo(names: seq<string>, unicode: NonAsciiAlnum)
    requires exists i :: 0 <= i < |names| && EndsWith(names[i], ".mp4")
    ensures VideoExists(names, "", unicode)
  {
    var i :| 0 <= i < |names| && EndsWith(names[i], ".mp4");
    assert OccursAt(names[i], SafeTitle("", unicode), 0);
  }
}
