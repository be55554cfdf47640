/**
 Tier parsing (`check_resolution`), best-tier selection and the start-up
 self-check (`check_program`). The external tool's `-F` listing is given as
 the string it printed.
 */
module Resolution {
  import opened Strings

  /** The most labels probed for. */
  const MaxTiers: nat := 100

  /** The number of tiers the self-check expects for its known-good reference. */
  const ExpectedTiers: nat := 4

  /** The format label `hls-{i}`. */
  function Label(i: nat): (r: string)
    ensures |r| > 4 && r[..4] == "hls-" && '/' !in r
  {
    var digits := NatToString(i);
    assert forall k :: 0 <= k < |digits| ==> IsDigit(digits[k]);
    "hls-" + digits
  }

  /** The labels the tool prints are the ones probed for, e.g. `hls-4` and `hls-10`. */
  lemma LabelExamples()
    ensures Label(0) == "hls-0" && Label(4) == "hls-4" && Label(10) == "hls-10"
  {
    assert NatToString(10) == NatToString(1) + [DigitChar(0)];
  }

  /**
   The least `i` at or after `from` (and below the cap) whose label is missing
   from the listing, or the cap when every label from `from` on is there.
   */
  function FirstMissing(stdout: string, from: nat): (k: nat)
    requires from <= MaxTiers
    ensures from <= k <= MaxTiers
    ensures forall j :: from <= j < k ==> Contains(stdout, Label(j))
    ensures k < MaxTiers ==> !Contains(stdout, Label(k))
    decreases MaxTiers - from
  {
    if from == MaxTiers then MaxTiers
    else if !Contains(stdout, Label(from)) then from
    else FirstMissing(stdout, from + 1)
  }

  /** How many tiers `check_resolution` reports. */
  function TierCount(stdout: string): (k: nat)
    ensures k <= MaxTiers
  {
    FirstMissing(stdout, 0)
  }

  /** The least-index property determines the tier count: it is the first missing label, or the cap. */
  lemma TierCountIsLeast(stdout: string, k: nat)
    requires k <= MaxTiers
    requires forall j :: 0 <= j < k ==> Contains(stdout, Label(j))
    requires k < MaxTiers ==> !Contains(stdout, Label(k))
    ensures TierCount(stdout) == k
  {
  }

  /** The tier list `check_resolution` returns: `["hls-0", ..., "hls-(k-1)"]`. */
  function TierList(stdout: string): (tiers: seq<string>)
    ensures |tiers| == TierCount(stdout) <= MaxTiers
    ensures forall j :: 0 <= j < |tiers| ==> tiers[j] == Label(j) && Contains(stdout, tiers[j])
    ensures |tiers| < MaxTiers ==> !Contains(stdout, Label(|tiers|))
  {
    seq(TierCount(stdout), j requires 0 <= j => Label(j))
  }

  /**
   `check_resolution`: probes `hls-0`, `hls-1`, ... and stops at the first label
   absent from the listing, after at most 100 probes.
   */
  method CheckResolution(stdout: string) returns (tiers: seq<string>)
    ensures tiers == TierList(stdout)
    ensures |tiers| <= MaxTiers
    ensures forall j :: 0 <= j < |tiers| ==> tiers[j] == Label(j) && Contains(stdout, tiers[j])
    ensures |tiers| < MaxTiers ==> !Contains(stdout, Label(|tiers|))
  {
    tiers := [];
    for i := 0 to MaxTiers
      invariant |tiers| == i
      invariant forall j :: 0 <= j < i ==> tiers[j] == Label(j)
      invariant FirstMissing(stdout, i) == TierCount(stdout)
    {
      if !Contains(stdout, Label(i)) {
        break;
      }
      tiers := tiers + [Label(i)];
    }
    assert |tiers| == |TierList(stdout)|;
  }

  datatype SelectError = NoTiers

  datatype Selection = Selected(tier: string) | Failed(error: SelectError)

  /**
   `res_tiers[-1]`: the last (highest-index) tier; on an empty list Python raises
   `IndexError`, which is `Failed(NoTiers)` here.
   */
  function BestTier(tiers: seq<string>): (r: Selection)
    ensures r.Failed? <==> tiers == []
    ensures r.Selected? ==> r.tier == tiers[|tiers| - 1]
  {
    if tiers == [] then Failed(NoTiers) else Selected(tiers[|tiers| - 1])
  }

  /**
   Selecting from a parsed listing gives `hls-(k-1)` for k tiers, a label the
   listing has; it fails exactly when `hls-0` is missing.
   */
  lemma BestOfListing(stdout: string)
    ensures BestTier(TierList(stdout)).Failed? <==> !Contains(stdout, Label(0))
    ensures var k := TierCount(stdout);
      k >= 1 ==> BestTier(TierList(stdout)) == Selected(Label(k - 1)) && Contains(stdout, Label(k - 1))
  {
    var k := TierCount(stdout);
    if k == 0 {
      assert !Contains(stdout, Label(0));
    } else {
      assert Contains(stdout, TierList(stdout)[0]);
    }
  }

  /**
   `check_program`: the run goes on only if the listing for the fixed test
   reference yields exactly four tiers, that is `hls-0` to `hls-3` are shown and
   `hls-4` is not; otherwise the process exits with status -1.
   */
  method CheckProgram(stdout: string) returns (passed: bool)
    ensures passed <==> (forall j :: 0 <= j < ExpectedTiers ==> Contains(stdout, Label(j)))
                        && !Contains(stdout, Label(ExpectedTiers))
  {
    var res := CheckResolution(stdout);
    passed := |res| == ExpectedTiers;
    if (forall j :: 0 <= j < ExpectedTiers ==> Contains(stdout, Label(j))) && !Contains(stdout, Label(ExpectedTiers)) {
      TierCountIsLeast(stdout, ExpectedTiers);
    }
  }
}
