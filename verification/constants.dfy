/**
 The constant tables of forecasttools/constants.py: forecast horizons,
 disease and target names, the submission column order, and the location
 code lists derived from the jurisdiction table.
 */
module Constants {
  import opened Locations
  import opened Strings

  /** Weekly horizons: -1 is the nowcast, 0 the current week, 1 to 3 future weeks. */
  const StandardHorizons: seq<int> := [-1, 0, 1, 2, 3]

  const ValidDiseases: seq<string> := ["flu", "covid", "rsv"]

  const ValidTargetTypes: seq<string> := ["hosp", "ed"]

  /** NHSN hospital-admission column for each disease. */
  const DiseaseNhsnColumns: map<string, string> := map[
    "flu" := "totalconfflunewadm",
    "covid" := "totalconfc19newadm",
    "rsv" := "totalconfrsvnewadm"
  ]

  /** Hubverse target name by disease, then by target type. */
  const DiseaseTargets: map<string, map<string, string>> := map[
    "flu" := map["hosp" := "wk inc flu hosp", "ed" := "wk inc flu prop ed visits"],
    "covid" := map["hosp" := "wk inc covid hosp", "ed" := "wk inc covid prop ed visits"],
    "rsv" := map["hosp" := "wk inc rsv hosp", "ed" := "wk inc rsv prop ed visits"]
  ]

  const HubverseSubmissionColumns: seq<string> := [
    "reference_date", "target", "horizon", "target_end_date",
    "location", "output_type", "output_type_id", "value"
  ]

  const NationalCode: string := "US"
  const DcFips: string := "11"
  const PrFips: string := "72"

  /** The hub names, in the order the hub table lists them. */
  const HubNames: seq<string> := ["flusight", "covid", "rsv"]

  /** The horizons run from -1 to 3 in steps of one. */
  lemma StandardHorizonsConsecutive()
    ensures |StandardHorizons| == 5
    ensures StandardHorizons[0] == -1 && StandardHorizons[|StandardHorizons| - 1] == 3
    ensures forall i :: 0 <= i < |StandardHorizons| - 1 ==> StandardHorizons[i + 1] == StandardHorizons[i] + 1
    ensures forall i, j :: 0 <= i < j < |StandardHorizons| ==> StandardHorizons[i] < StandardHorizons[j]
  {
  }

  /** The target table is keyed by exactly the valid diseases. */
  lemma DiseaseTargetsKeys()
    ensures forall d :: d in DiseaseTargets <==> d in ValidDiseases
  {
  }

  /** Each disease's targets are keyed by exactly the valid target types. */
  lemma DiseaseTargetTypes()
    ensures forall d, k :: d in DiseaseTargets ==> (k in DiseaseTargets[d] <==> k in ValidTargetTypes)
  {
    forall d | d in DiseaseTargets
      ensures DiseaseTargets[d].Keys == {"hosp", "ed"}
    {
    }
  }

  /** The hospital-admission target name pattern. */
  function HospTarget(d: string): string {
    "wk inc " + d + " hosp"
  }

  /** The ED-visit-proportion target name pattern. */
  function EdTarget(d: string): string {
    "wk inc " + d + " prop ed visits"
  }

  lemma FluTargets()
    ensures DiseaseTargets["flu"] == map["hosp" := HospTarget("flu"), "ed" := EdTarget("flu")]
  {
    assert HospTarget("flu") == "wk inc flu hosp";
    assert EdTarget("flu") == "wk inc flu prop ed visits";
  }

  lemma CovidTargets()
    ensures DiseaseTargets["covid"] == map["hosp" := HospTarget("covid"), "ed" := EdTarget("covid")]
  {
    assert HospTarget("covid") == "wk inc covid hosp";
    assert EdTarget("covid") == "wk inc covid prop ed visits";
  }

  lemma RsvTargets()
    ensures DiseaseTargets["rsv"] == map["hosp" := HospTarget("rsv"), "ed" := EdTarget("rsv")]
  {
    assert HospTarget("rsv") == "wk inc rsv hosp";
    assert EdTarget("rsv") == "wk inc rsv prop ed visits";
  }

  /** Every disease's target names are the disease name set in the two patterns. */
  lemma DiseaseTargetNames()
    ensures forall d :: d in DiseaseTargets ==>
      DiseaseTargets[d] == map["hosp" := HospTarget(d), "ed" := EdTarget(d)]
  {
    FluTargets();
    CovidTargets();
    RsvTargets();
  }

  /** The NHSN column table covers exactly the valid diseases, one distinct column each. */
  lemma DiseaseNhsnColumnsShape()
    ensures forall d :: d in DiseaseNhsnColumns <==> d in ValidDiseases
    ensures forall d, e :: d in DiseaseNhsnColumns && e in DiseaseNhsnColumns && d != e ==>
      DiseaseNhsnColumns[d] != DiseaseNhsnColumns[e]
  {
  }

  /** The submission columns are eight distinct names, the location among them. */
  lemma SubmissionColumnsShape()
    ensures |HubverseSubmissionColumns| == 8
    ensures NoDuplicates(HubverseSubmissionColumns)
    ensures "location" in HubverseSubmissionColumns
  {
  }

  /** The indices, from `lo` on, of the records `keep` selects, in increasing order. */
  function SelectedIndices(t: Table, keep: Jurisdiction -> bool, lo: nat): (idx: seq<nat>)
    requires lo <= |t|
    ensures forall j :: 0 <= j < |idx| ==> lo <= idx[j] < |t|
    ensures forall j, m :: 0 <= j < m < |idx| ==> idx[j] < idx[m]
    ensures forall k :: k in idx <==> lo <= k < |t| && keep(t[k])
    decreases |t| - lo
  {
    if lo == |t| then []
    else (if keep(t[lo]) then [lo] else []) + SelectedIndices(t, keep, lo + 1)
  }

  /** `codes` are the location codes of the records at the indices `idx`, in that order. */
  predicate CodesAt(codes: seq<string>, t: Table, idx: seq<nat>) {
    |codes| == |idx| && forall j :: 0 <= j < |idx| ==> idx[j] < |t| && codes[j] == t[idx[j]].locationCode
  }

  /**
   `filter(keep).get_column("location_code")`: the codes of the records
   `keep` selects, in table order.
   */
  function SelectCodes(t: Table, keep: Jurisdiction -> bool): (r: seq<string>)
    ensures |r| <= |t|
    ensures forall x :: x in r <==> exists k :: 0 <= k < |t| && keep(t[k]) && t[k].locationCode == x
    decreases |t|
  {
    if |t| == 0 then []
    else
      var rest := SelectCodes(t[1..], keep);
      assert forall x :: x in rest <==> exists k :: 1 <= k < |t| && keep(t[k]) && t[k].locationCode == x by {
        forall x | x in rest
          ensures exists k :: 1 <= k < |t| && keep(t[k]) && t[k].locationCode == x
        {
          var k :| 0 <= k < |t[1..]| && keep(t[1..][k]) && t[1..][k].locationCode == x;
          assert t[k + 1] == t[1..][k];
        }
        forall x | exists k :: 1 <= k < |t| && keep(t[k]) && t[k].locationCode == x
          ensures x in rest
        {
          var k :| 1 <= k < |t| && keep(t[k]) && t[k].locationCode == x;
          assert t[1..][k - 1] == t[k];
        }
      }
      (if keep(t[0]) then [t[0].locationCode] else []) + rest
  }

  /** Selecting from the record at `lo` on decides that record, then selects from the rest. */
  lemma SelectCodesStep(t: Table, keep: Jurisdiction -> bool, lo: nat)
    requires lo < |t|
    ensures SelectCodes(t[lo..], keep) ==
      (if keep(t[lo]) then [t[lo].locationCode] else []) + SelectCodes(t[lo + 1..], keep)
  {
    assert t[lo..][1..] == t[lo + 1..];
  }

  /** Codes at two index lists, concatenated, are the codes at the concatenated list. */
  lemma CodesAtAppend(a: seq<string>, b: seq<string>, t: Table, ia: seq<nat>, ib: seq<nat>)
    requires CodesAt(a, t, ia) && CodesAt(b, t, ib)
    ensures CodesAt(a + b, t, ia + ib)
  {
  }

  /**
   One entry per selected record, in table order: entry j of the selection
   from `lo` on is the code of the j-th selected record, so repeated codes
   are kept.
   */
  lemma {:induction false} SelectCodesInOrder(t: Table, keep: Jurisdiction -> bool, lo: nat)
    requires lo <= |t|
    ensures CodesAt(SelectCodes(t[lo..], keep), t, SelectedIndices(t, keep, lo))
    decreases |t| - lo
  {
    if lo < |t| {
      SelectCodesInOrder(t, keep, lo + 1);
      SelectCodesStep(t, keep, lo);
      var head := if keep(t[lo]) then [t[lo].locationCode] else [];
      var headIdx: seq<nat> := if keep(t[lo]) then [lo] else [];
      assert CodesAt(head, t, headIdx);
      CodesAtAppend(head, SelectCodes(t[lo + 1..], keep), t, headIdx, SelectedIndices(t, keep, lo + 1));
    }
  }

  /** Selected codes repeat nothing when the table's codes are unique. */
  lemma SelectCodesDistinct(t: Table, keep: Jurisdiction -> bool)
    requires UniqueField(t, LocationCode)
    ensures NoDuplicates(SelectCodes(t, keep))
  {
    SelectCodesInOrder(t, keep, 0);
    assert t[0..] == t;
    var r := SelectCodes(t, keep);
    var idx := SelectedIndices(t, keep, 0);
    forall i, j | 0 <= i < j < |r|
      ensures r[i] != r[j]
    {
      assert idx[i] < idx[j];
      assert Field(t[idx[i]], LocationCode) == r[i] && Field(t[idx[j]], LocationCode) == r[j];
    }
  }

  /** The fifty states. */
  predicate IsStateRecord(rec: Jurisdiction) {
    rec.isState
  }

  /** DC and the territories: every non-state record but the national one. */
  predicate IsTerritoryRecord(rec: Jurisdiction) {
    !rec.isState && rec.locationCode != NationalCode
  }

  /** The jurisdictions every hub accepts below the national level: the states, DC and Puerto Rico. */
  predicate IsHubRecord(rec: Jurisdiction) {
    rec.isState || rec.locationCode == DcFips || rec.locationCode == PrFips
  }

  /** Every code of the table, in table order. */
  function AllLocationCodes(t: Table): (r: seq<string>)
    ensures |r| == |t|
    ensures forall k :: 0 <= k < |t| ==> r[k] == Field(t[k], LocationCode)
    ensures forall x :: x in r <==> x in KeySet(t, LocationCode)
  {
    var r := seq(|t|, k requires 0 <= k < |t| => t[k].locationCode);
    assert forall k :: 0 <= k < |t| ==> Field(t[k], LocationCode) == r[k];
    r
  }

  /** The state codes, sorted. */
  function StateLocationCodes(t: Table): (r: seq<string>)
    ensures Sorted(r)
    ensures multiset(r) == multiset(SelectCodes(t, IsStateRecord))
    ensures forall x :: x in r <==> exists k :: 0 <= k < |t| && t[k].isState && t[k].locationCode == x
  {
    var codes := SelectCodes(t, IsStateRecord);
    var r := Sort(codes);
    PermutationSameValues(r, codes);
    r
  }

  /** The codes of DC and the territories, sorted. */
  function TerritoryLocationCodes(t: Table): (r: seq<string>)
    ensures Sorted(r)
    ensures multiset(r) == multiset(SelectCodes(t, IsTerritoryRecord))
    ensures forall x :: x in r <==> exists k :: 0 <= k < |t| && !t[k].isState && t[k].locationCode != NationalCode && t[k].locationCode == x
  {
    var codes := SelectCodes(t, IsTerritoryRecord);
    var r := Sort(codes);
    PermutationSameValues(r, codes);
    r
  }

  /** With unique table codes, the state list repeats nothing. */
  lemma StateLocationCodesDistinct(t: Table)
    requires UniqueField(t, LocationCode)
    ensures NoDuplicates(StateLocationCodes(t))
  {
    SelectCodesDistinct(t, IsStateRecord);
    NoDuplicatesPermutation(SelectCodes(t, IsStateRecord), StateLocationCodes(t));
  }

  /** With unique table codes, the territory list repeats nothing. */
  lemma TerritoryLocationCodesDistinct(t: Table)
    requires UniqueField(t, LocationCode)
    ensures NoDuplicates(TerritoryLocationCodes(t))
  {
    SelectCodesDistinct(t, IsTerritoryRecord);
    NoDuplicatesPermutation(SelectCodes(t, IsTerritoryRecord), TerritoryLocationCodes(t));
  }

  /** With unique table codes, no code is both a state's and a territory's. */
  lemma StatesAndTerritoriesDisjoint(t: Table)
    requires UniqueField(t, LocationCode)
    ensures forall x :: x in StateLocationCodes(t) ==> x !in TerritoryLocationCodes(t)
  {
  }

  /** The hub list: "US", then the codes of the states, DC and Puerto Rico, sorted. */
  function BuildHubLocations(t: Table): (r: seq<string>)
    ensures |r| >= 1 && r[0] == NationalCode
    ensures Sorted(r[1..])
    ensures multiset(r[1..]) == multiset(SelectCodes(t, IsHubRecord))
    ensures forall x :: x in r[1..] <==> exists k :: 0 <= k < |t| && IsHubRecord(t[k]) && t[k].locationCode == x
  {
    var codes := SelectCodes(t, IsHubRecord);
    var tail := Sort(codes);
    PermutationSameValues(tail, codes);
    assert ([NationalCode] + tail)[1..] == tail;
    [NationalCode] + tail
  }

  /** The hub list is the state list joined with DC and Puerto Rico from the territory list. */
  lemma HubLocationsFromStatesAndTerritories(t: Table)
    ensures forall x :: x in BuildHubLocations(t)[1..] <==>
      x in StateLocationCodes(t) || (x in TerritoryLocationCodes(t) && (x == DcFips || x == PrFips))
  {
  }

  /**
   With unique table codes the hub list repeats nothing after "US"; it repeats
   nothing at all when, as in the shipped table, the national record is not a state.
   */
  lemma BuildHubLocationsDistinct(t: Table)
    requires UniqueField(t, LocationCode)
    ensures NoDuplicates(BuildHubLocations(t)[1..])
    ensures (forall k :: 0 <= k < |t| && t[k].locationCode == NationalCode ==> !t[k].isState) ==>
      NoDuplicates(BuildHubLocations(t))
  {
    var codes := SelectCodes(t, IsHubRecord);
    SelectCodesDistinct(t, IsHubRecord);
    NoDuplicatesPermutation(codes, Sort(codes));
    var r := BuildHubLocations(t);
    assert r[1..] == Sort(codes);
    if forall k :: 0 <= k < |t| && t[k].locationCode == NationalCode ==> !t[k].isState {
      assert NationalCode !in r[1..];
      forall i, j | 0 <= i < j < |r|
        ensures r[i] != r[j]
      {
        if i == 0 {
          assert r[j] == r[1..][j - 1];
        } else {
          assert r[i] == r[1..][i - 1] && r[j] == r[1..][j - 1];
        }
      }
    }
  }

  /** Whichever sort the table library uses, a sorted permutation of the codes is the list built here. */
  lemma HubTailIsTheSortedCodes(t: Table, tail: seq<string>)
    requires Sorted(tail)
    requires multiset(tail) == multiset(SelectCodes(t, IsHubRecord))
    ensures BuildHubLocations(t) == [NationalCode] + tail
  {
    SortedUnique(tail, Sort(SelectCodes(t, IsHubRecord)));
  }

  /** Hub name to location list; every hub's list is the one `BuildHubLocations` builds. */
  function HubLocations(t: Table): (m: map<string, seq<string>>)
    ensures forall h :: h in m <==> h in HubNames
    ensures forall h :: h in m ==> m[h] == BuildHubLocations(t)
    ensures forall h, g :: h in m && g in m ==> m[h] == m[g]
  {
    var locations := BuildHubLocations(t);
    map["flusight" := locations, "covid" := locations, "rsv" := locations]
  }
}
