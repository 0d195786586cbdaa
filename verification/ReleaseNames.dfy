/** The migrations the release fence knows by name, and their order. */
module ReleaseNames {
  import opened Segments
  import opened StringOrder

  const YEAR := "2026"
  const AUGUST := YEAR + "08"

  const BASELINE := AUGUST + "12010000_deterministic_responsive_images"
  const CANONICAL_EXPAND := AUGUST + "21000000_canonical_asset_expand"
  const PROJECT_DRAFT := AUGUST + "21400000_project_submission_draft_status"
  const PROJECT_SUBMISSION := AUGUST + "21500000_project_submission_expand"
  const PROJECT_FINALIZING := AUGUST + "21550000_project_submission_finalizing_status"
  const PROJECT_PUBLICATION := AUGUST + "21600000_project_publication_expand"
  const PHASE1_TARGET := AUGUST + "21700000_canonical_object_relocation_expand"
  const PROJECT_VIDEO_ORDER := AUGUST + "21800000_project_video_order_expand"
  const PROJECT_MATERIAL_KIND := AUGUST + "21900000_project_material_kind_expand"
  const PROJECT_MATERIAL_CONSTRAINTS := AUGUST + "21910000_project_material_constraints_expand"
  const PHASE1_CEILING := PROJECT_MATERIAL_CONSTRAINTS
  const EXCEPTION_PREP := AUGUST + "21990000_release_exception_receipts"
  const BRIDGE_PREP := AUGUST + "21991000_release_image_bridge_exception"
  const TRAFFIC_PREP := AUGUST + "21992000_release_image_bridge_traffic"
  const CONTRACT := AUGUST + "22000000_canonical_asset_contract"
  const AGE_CONTRACT := AUGUST + "22000001_canonical_asset_contract_age_exception"
  const BRIDGE_CONTRACT := AUGUST + "22000002_canonical_asset_contract_image_bridge36"
  const TRAFFIC_CONTRACT := AUGUST + "22000003_canonical_asset_contract_image_bridge_traffic"
  const PROJECT_CHANGE := YEAR + ("0909" + "100000_project_change_requests")

  /** The names one fence is built around. */
  datatype Catalogue = Catalogue(
    baseline: string, required: seq<string>, ceiling: string,
    exceptionPrep: string, bridgePrep: string, trafficPrep: string,
    contract: string, age: string, bridge: string, traffic: string, projectChange: string)
  {
    predicate IsAlternate(name: string) {
      name == age || name == bridge || name == traffic
    }

    predicate IsContract(name: string) {
      name == contract || IsAlternate(name)
    }

    /** Rows of these names must never be unfinished or rolled back. */
    predicate IsRelease(name: string) {
      || name in required || name == exceptionPrep || name == bridgePrep || name == trafficPrep
      || IsContract(name) || name == projectChange || Less(projectChange, name)
    }

    /** What the fence relies on: expand and preparation sort below the contract, which sorts below the changes. */
    ghost predicate Ordered() {
      && (forall r | r in required :: AtMost(r, ceiling))
      && AtMost(ceiling, trafficPrep) && AtMost(exceptionPrep, bridgePrep) && AtMost(bridgePrep, trafficPrep)
      && Less(trafficPrep, contract) && Less(contract, projectChange)
      && !IsAlternate(contract) && age != bridge && bridge != traffic && age != traffic
    }
  }

  const RELEASE := Catalogue(
    BASELINE,
    [CANONICAL_EXPAND, PROJECT_DRAFT, PROJECT_SUBMISSION, PROJECT_FINALIZING, PROJECT_PUBLICATION,
     PHASE1_TARGET, PROJECT_VIDEO_ORDER, PROJECT_MATERIAL_KIND, PROJECT_MATERIAL_CONSTRAINTS],
    PHASE1_CEILING, EXCEPTION_PREP, BRIDGE_PREP, TRAFFIC_PREP,
    CONTRACT, AGE_CONTRACT, BRIDGE_CONTRACT, TRAFFIC_CONTRACT, PROJECT_CHANGE)

  lemma {:induction false} CommonPrefix(p: string, a: string, b: string)
    requires Less(a, b)
    ensures Less(p + a, p + b)
  {
    if p == "" {
      assert p + a == a && p + b == b;
    } else {
      assert (p + a)[1..] == p[1..] + a && (p + b)[1..] == p[1..] + b;
      CommonPrefix(p[1..], a, b);
    }
  }

  lemma WithinAugust(a: string, b: string, k: nat)
    requires k < 5 < |a| && 5 < |b| && a[k] < b[k]
    requires (k > 0 ==> a[0] == b[0]) && (k > 1 ==> a[1] == b[1]) && (k > 2 ==> a[2] == b[2])
             && (k > 3 ==> a[3] == b[3])
    ensures Less(AUGUST + a, AUGUST + b)
  {
    assert a[..k] == b[..k];
    FirstDifference(a, b, k);
    CommonPrefix(AUGUST, a, b);
  }

  lemma PreparationsOrdered()
    ensures Less(PHASE1_CEILING, EXCEPTION_PREP)
    ensures Less(EXCEPTION_PREP, BRIDGE_PREP)
    ensures Less(BRIDGE_PREP, TRAFFIC_PREP)
  {
    var prep, bridge := "21990000_release_exception_receipts", "21991000_release_image_bridge_exception";
    WithinAugust("21910000_project_material_constraints_expand", prep, 3);
    WithinAugust(prep, bridge, 4);
    WithinAugust(bridge, "21992000_release_image_bridge_traffic", 4);
  }

  lemma ContractAbovePreparations()
    ensures Less(TRAFFIC_PREP, CONTRACT)
  {
    WithinAugust("21992000_release_image_bridge_traffic", "22000000_canonical_asset_contract", 1);
  }

  lemma ContractBelowChanges()
    ensures Less(CONTRACT, PROJECT_CHANGE)
  {
    LaterMonth("22000000_canonical_asset_contract", "100000_project_change_requests");
  }

  /** Whatever follows, August comes before the ninth of September. */
  lemma LaterMonth(august: string, september: string)
    ensures Less(AUGUST + august, YEAR + ("0909" + september))
  {
    var a, b := "08" + august, "0909" + september;
    assert a[0] == b[0] == '0' && a[1] == '8' && b[1] == '9';
    assert a[..1] == b[..1];
    FirstDifference(a, b, 1);
    CommonPrefix(YEAR, a, b);
    Regroup(YEAR, "08", august);
  }

  lemma EarlyExpandBelowCeiling()
    ensures Less(CANONICAL_EXPAND, PHASE1_CEILING) && Less(PROJECT_DRAFT, PHASE1_CEILING)
  {
    var ceiling := "21910000_project_material_constraints_expand";
    WithinAugust("21000000_canonical_asset_expand", ceiling, 2);
    WithinAugust("21400000_project_submission_draft_status", ceiling, 2);
  }

  lemma SubmissionBelowCeiling()
    ensures Less(PROJECT_SUBMISSION, PHASE1_CEILING) && Less(PROJECT_FINALIZING, PHASE1_CEILING)
  {
    var ceiling := "21910000_project_material_constraints_expand";
    WithinAugust("21500000_project_submission_expand", ceiling, 2);
    WithinAugust("21550000_project_submission_finalizing_status", ceiling, 2);
  }

  lemma PublicationBelowCeiling()
    ensures Less(PROJECT_PUBLICATION, PHASE1_CEILING) && Less(PHASE1_TARGET, PHASE1_CEILING)
  {
    var ceiling := "21910000_project_material_constraints_expand";
    WithinAugust("21600000_project_publication_expand", ceiling, 2);
    WithinAugust("21700000_canonical_object_relocation_expand", ceiling, 2);
  }

  lemma MaterialBelowCeiling()
    ensures Less(PROJECT_VIDEO_ORDER, PHASE1_CEILING) && Less(PROJECT_MATERIAL_KIND, PHASE1_CEILING)
  {
    var ceiling := "21910000_project_material_constraints_expand";
    WithinAugust("21800000_project_video_order_expand", ceiling, 2);
    WithinAugust("21900000_project_material_kind_expand", ceiling, 3);
  }

  lemma AlternatesDistinct()
    ensures !RELEASE.IsAlternate(CONTRACT)
    ensures AGE_CONTRACT != BRIDGE_CONTRACT && BRIDGE_CONTRACT != TRAFFIC_CONTRACT && AGE_CONTRACT != TRAFFIC_CONTRACT
  {
    var contract, age := "22000000_canonical_asset_contract", "22000001_canonical_asset_contract_age_exception";
    var bridge := "22000002_canonical_asset_contract_image_bridge36";
    var traffic := "22000003_canonical_asset_contract_image_bridge_traffic";
    assert |contract| == 33 && |age| == 47;
    assert |bridge| == 48;
    assert |traffic| == 54;
  }

  /** The names of this release are in the order the fence relies on. */
  lemma ReleaseOrdered()
    ensures RELEASE.Ordered()
  {
    EarlyExpandBelowCeiling();
    SubmissionBelowCeiling();
    PublicationBelowCeiling();
    MaterialBelowCeiling();
    PreparationsOrdered();
    ContractAbovePreparations();
    ContractBelowChanges();
    AlternatesDistinct();
    Transitive(PHASE1_CEILING, EXCEPTION_PREP, BRIDGE_PREP);
    Transitive(PHASE1_CEILING, BRIDGE_PREP, TRAFFIC_PREP);
  }
}
