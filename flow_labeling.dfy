/** Activity name <-> integer class label, as used by the evaluation side
    (common_modules/flow_labeling.py). */
module FlowLabeling {
  import opened Wrappers
  import opened Text
  import opened Lookup

  /** The activity patterns in listed order; 'call' comes last, so any
      earlier pattern wins over it. */
  const LabelTable: Table<int> := [
    ("speaker-startup", 0),
    ("camera-startup", 1),
    ("play-music", 2),
    ("volume-adjust", 3),
    ("video-stream", 4),
    ("call", 5)
  ]

  /** The reverse dictionary, label -> canonical activity name. */
  const LabelNames: map<int, string> := map[
    0 := "speaker-startup",
    1 := "camera-startup",
    2 := "play-music",
    3 := "volume-adjust",
    4 := "video-stream",
    5 := "call"
  ]

  /** get_flow_label: the value of the first pattern occurring in the
      lower-cased activity, or -1. */
  function GetFlowLabel(activity: string): (result: int)
    ensures -1 <= result <= 5
    ensures result == -1 <==> forall i :: 0 <= i < |LabelTable| ==> !Contains(Lower(activity), LabelTable[i].0)
  {
    match FirstMatch(LabelTable, Lower(activity))
    case Some(v) =>
      FirstMatchSome(LabelTable, Lower(activity));
      v
    case None => -1
  }

  /** get_activity_name_from_label: dict.get(label, -1); None stands for
      the integer sentinel -1. */
  function GetActivityNameFromLabel(lbl: int): (name: Option<string>)
    ensures name.Some? <==> 0 <= lbl <= 5
  {
    if lbl in LabelNames then Some(LabelNames[lbl]) else None
  }

  /** A pattern decides the label when it occurs and no earlier one does. */
  lemma LabelOfFirstPattern(activity: string, k: nat)
    requires k < |LabelTable| && Contains(Lower(activity), LabelTable[k].0)
    requires forall i :: 0 <= i < k ==> !Contains(Lower(activity), LabelTable[i].0)
    ensures GetFlowLabel(activity) == k
  {
    FirstMatchAt(LabelTable, Lower(activity), k);
  }

  /** The case of the activity name does not matter. */
  lemma CaseIgnored(activity: string)
    ensures GetFlowLabel(activity) == GetFlowLabel(Lower(activity))
  {
    LowerIdempotent(activity);
  }

  lemma PlayMusicMixedCase()
    ensures GetFlowLabel("Play-Music") == 2
  {
    assert Lower("Play-Music") == "play-music";
    LabelOfFirstPattern("Play-Music", 2);
  }

  /** An activity naming a speaker startup is labelled 0 even when it also
      mentions 'call', because that pattern is listed first. */
  lemma EarlierPatternWins(activity: string)
    requires Contains(Lower(activity), "speaker-startup")
    ensures GetFlowLabel(activity) == 0
  {
    LabelOfFirstPattern(activity, 0);
  }

  /** The canonical names are already lower case. */
  lemma CanonicalLowercase(k: nat)
    requires k < |LabelTable|
    ensures Lower(LabelTable[k].0) == LabelTable[k].0
  {
    if k == 0 { assert Lower("speaker-startup") == "speaker-startup"; }
    else if k == 1 { assert Lower("camera-startup") == "camera-startup"; }
    else if k == 2 { assert Lower("play-music") == "play-music"; }
    else if k == 3 { assert Lower("volume-adjust") == "volume-adjust"; }
    else if k == 4 { assert Lower("video-stream") == "video-stream"; }
    else { assert Lower("call") == "call"; }
  }

  /** No canonical name contains a pattern listed before its own. */
  lemma NoEarlierPattern(k: nat)
    requires k < |LabelTable|
    ensures forall i :: 0 <= i < k ==> !Contains(LabelTable[k].0, LabelTable[i].0)
  {
    forall i | 0 <= i < k ensures !Contains(LabelTable[k].0, LabelTable[i].0) {
      if |LabelTable[i].0| <= |LabelTable[k].0| {
        assert i == 2 && (k == 3 || k == 4);
        if k == 3 { assert !Contains("volume-adjust", "play-music"); }
        else { assert !Contains("video-stream", "play-music"); }
      }
    }
  }

  /** Label -> name -> label is the identity on the six labels, and every
      other label has no name. */
  lemma LabelRoundTrip(k: int)
    ensures 0 <= k <= 5 ==> GetActivityNameFromLabel(k).Some? && GetFlowLabel(GetActivityNameFromLabel(k).value) == k
    ensures !(0 <= k <= 5) ==> GetActivityNameFromLabel(k) == None
  {
    if 0 <= k <= 5 {
      var name := LabelNames[k];
      assert name == LabelTable[k].0;
      CanonicalLowercase(k);
      NoEarlierPattern(k);
      ContainsSlice(name, name, 0);
      LabelOfFirstPattern(name, k);
    }
  }

  /** Name -> label -> name is the identity on the six canonical names. */
  lemma NameRoundTrip(k: nat)
    requires k < |LabelTable|
    ensures GetActivityNameFromLabel(GetFlowLabel(LabelTable[k].0)) == Some(LabelTable[k].0)
  {
    LabelRoundTrip(k);
    assert LabelNames[k] == LabelTable[k].0;
  }
}

/** The training side's copy of the activity table (flow_labeling.py). */
module RootFlowLabeling {
  import opened Text
  import opened Lookup
  import FlowLabeling

  const LabelTable: Table<int> := [
    ("speaker-startup", 0),
    ("camera-startup", 1),
    ("play-music", 2),
    ("volume-adjust", 3),
    ("video-stream", 4),
    ("call", 5)
  ]

  /** get_flow_label of flow_labeling.py. */
  function GetFlowLabel(activity: string): (result: int)
    ensures -1 <= result <= 5
    ensures result == -1 <==> forall i :: 0 <= i < |LabelTable| ==> !Contains(Lower(activity), LabelTable[i].0)
  {
    match FirstMatch(LabelTable, Lower(activity))
    case Some(v) =>
      FirstMatchSome(LabelTable, Lower(activity));
      v
    case None => -1
  }

  /** The two label tables, and so the two functions, agree on every input:
      training and evaluation share one vocabulary. */
  lemma SameAsCommon(activity: string)
    ensures GetFlowLabel(activity) == FlowLabeling.GetFlowLabel(activity)
  {
    assert LabelTable == FlowLabeling.LabelTable;
  }

  /** Each canonical name gets its listed label. */
  lemma CanonicalNames(k: nat)
    requires k < |LabelTable|
    ensures GetFlowLabel(LabelTable[k].0) == LabelTable[k].1
  {
    SameAsCommon(LabelTable[k].0);
    FlowLabeling.LabelRoundTrip(k);
    assert FlowLabeling.LabelNames[k] == LabelTable[k].0;
    assert FlowLabeling.GetActivityNameFromLabel(k).value == LabelTable[k].0;
  }

  lemma VideoStreamCallIsLowercase()
    ensures Lower("video-stream-call") == "video-stream-call"
  {
    LowerOfLowercase("video-stream-call");
  }

  /** 'video-stream' is listed before 'call', so a video call is labelled 4. */
  lemma VideoStreamCall()
    ensures GetFlowLabel("video-stream-call") == 4
  {
    var s := "video-stream-call";
    VideoStreamCallIsLowercase();
    assert !Contains(s, "play-music");
    assert !Contains(s, "volume-adjust");
    ContainsSlice(s, "video-stream", 0);
    FirstMatchAt(LabelTable, s, 4);
  }
}
