/**
 The decisions `download_video` takes before it hands over to the external
 download tool: skip an item already on disk, pick the best tier, and name the
 destination file. The listing of the output directory and the tool's tier
 listing are given as values.
 */
module Download {
  import opened Strings
  import opened Naming
  import opened Existence
  import opened Resolution
  import opened Discovery

  /** What one worker does with one item. */
  datatype Plan =
    | Skip
      /** `[-1]` on an empty tier list raised `IndexError`; the main loop logs it. */
    | NoTier
      /** Run the tool with format `tier` and output `-o path`. */
    | Fetch(tier: string, path: string)

  /**
   `download_video` up to the download command: an item whose title the
   directory listing already matches is skipped; otherwise the highest tier of
   the listing is chosen and the file is named from the title, that tier and
   the sanitised date.
   */
  method PlanDownload(video: Video, dir: string, names: seq<string>, probe: string, unicode: NonAsciiAlnum)
    returns (plan: Plan)
    ensures plan == Skip <==> VideoExists(names, video.title, unicode)
    ensures plan == NoTier <==> !VideoExists(names, video.title, unicode) && !Contains(probe, Label(0))
    ensures plan.Fetch? ==> var k := TierCount(probe);
      k >= 1 && plan.tier == Label(k - 1) &&
      plan.path == OutputPath(dir, video.title, Label(k - 1), SafeTitle(video.time, unicode), unicode)
    ensures plan.Fetch? ==> VideoExists(names + [Basename(plan.path)], video.title, unicode)
  {
    var present := DoVideoExist(names, video.title, unicode);
    if present {
      return Skip;
    }
    var tiers := CheckResolution(probe);
    BestOfListing(probe);
    var best := BestTier(tiers);
    if best.Failed? {
      return NoTier;
    }
    var path := OutputPath(dir, video.title, best.tier, SafeTitle(video.time, unicode), unicode);
    plan := Fetch(best.tier, path);
    DownloadedItemIsSkipped(video, dir, names + [Basename(path)], TierCount(probe) - 1, unicode);
  }

  /**
   Idempotence for one item: whatever tier was chosen, once the file that
   `download_video` names is in the directory, a later run skips the item.
   */
  lemma DownloadedItemIsSkipped(video: Video, dir: string, names: seq<string>, k: nat, unicode: NonAsciiAlnum)
    requires Basename(OutputPath(dir, video.title, Label(k), SafeTitle(video.time, unicode), unicode)) in names
    ensures VideoExists(names, video.title, unicode)
  {
    SafeTitleAlphabet(video.time, unicode);
    NamedOutputIsRecognised(names, dir, video.title, Label(k), SafeTitle(video.time, unicode), unicode);
  }

  /**
   Idempotence for a run: when the directory holds the file of every item of the
   list (at whatever tier each was fetched), every item of a second run is
   recognised, so nothing is downloaded again.
   */
  lemma SecondRunSkipsAll(videos: seq<Video>, dir: string, names: seq<string>, tiers: seq<nat>,
                          unicode: NonAsciiAlnum)
    requires |tiers| == |videos|
    requires forall j :: 0 <= j < |videos| ==>
      Basename(OutputPath(dir, videos[j].title, Label(tiers[j]), SafeTitle(videos[j].time, unicode), unicode)) in names
    ensures forall j :: 0 <= j < |videos| ==> VideoExists(names, videos[j].title, unicode)
  {
    forall j | 0 <= j < |videos|
      ensures VideoExists(names, videos[j].title, unicode)
    {
      DownloadedItemIsSkipped(videos[j], dir, names, tiers[j], unicode);
    }
  }
}
