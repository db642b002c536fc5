/**
 * The built-in catalogue of target bone names: one ordered list per avatar
 * profile, registered once by the class's static initializer and handed out
 * as fresh copies.
 */
module BoneNamesTemplates {
  import opened Wrappers

  /** The profile whose list is used when nothing has been saved yet. */
  const DefaultTargetBoneNamesAvatar := "NecoMaid-RICH"

  const NecoMaidRichBoneNames: seq<string> := [
    "Hips", "Spine", "Chest", "Neck", "Head", "Shoulder_L", "UpperArm_L", "LowerArm_L",
    "Hand_L", "Shoulder_R", "UpperArm_R", "LowerArm_R", "Hand_R", "UpperLeg_L", "LowerLeg_L",
    "Foot_L", "Bese_L", "UpperLeg_R", "LowerLeg_R", "Foot_R", "Bese_R"
  ]

  const UBoneNames: seq<string> := [
    "Hips", "L_UpperLeg", "L_LowerLeg", "L_Foot", "L_Toe", "LL_Sphere.L", "UL_Sphere.L",
    "oshiri", "oshiri_L", "oshiri_R", "R_UpperLeg", "R_LowerLeg", "R_Foot", "R_Toe",
    "LL_Sphere.R", "UL_Sphere.R", "Spine", "Chest", "mune_L", "oppai_L", "mune_R", "oppai_R",
    "L_Shoulder", "L_UpperArm", "L_LowerArm", "L_hand", "Neck", "Head", "R_Shoulder",
    "R_UpperArm", "R_LowerArm", "R_hand", "HIP_Capsule.A", "HIP_Capsule.A2", "HIP_Sphere.B1",
    "HIP_Sphere.B2", "HIP_Sphere.C1", "HIP_Sphere.C2"
  ]

  const MisheBoneNames: seq<string> := [
    "Hips", "Spine", "Chest", "Chest.002", "Neck", "Head", "Shoulder.L", "Shoulder.R",
    "Hand.L", "Index Proximal.L", "Little Proximal.L", "Middle Proximal.L", "Ring Proximal.L",
    "Thumb Proximal.L", "Lower_arm.L", "Lower_arm.R", "Upper_arm.L", "Upper_arm.R",
    "Upper_leg.L", "Upper_leg.R", "lower_leg.L", "lower_leg.R", "foot.L", "foot.R",
    "foot.L.001", "foot.R.001"
  ]

  /** What the static initializer registers, profile by profile. */
  function Presets(): map<string, seq<string>> {
    map[DefaultTargetBoneNamesAvatar := NecoMaidRichBoneNames, "U" := UBoneNames, "Mishe" := MisheBoneNames]
  }

  /** The catalogue holds exactly the three shipped profiles, with their list sizes and heads. */
  lemma PresetsShape()
    ensures Presets().Keys == {"NecoMaid-RICH", "U", "Mishe"}
    ensures |Presets()["NecoMaid-RICH"]| == 21
    ensures Presets()["NecoMaid-RICH"][..3] == ["Hips", "Spine", "Chest"]
    ensures |Presets()["U"]| == 38 && Presets()["U"][0] == "Hips"
    ensures |Presets()["Mishe"]| == 26 && Presets()["Mishe"][0] == "Hips"
  {
  }

  /**
   * BoneNamesPresets: the dictionary from avatar name to bone-name list. Its
   * only writer is the initializer; Get and GetDefault read it.
   */
  class BoneNamesPresets {
    var defaultTargetBoneNames: map<string, seq<string>>

    /** The static initializer: an empty dictionary, then one Add per profile. */
    constructor ()
      ensures defaultTargetBoneNames == Presets()
    {
      defaultTargetBoneNames := map[];
      new;
      Add(DefaultTargetBoneNamesAvatar, NecoMaidRichBoneNames);
      Add("U", UBoneNames);
      Add("Mishe", MisheBoneNames);
    }

    /** Dictionary.Add: registers a key that is not there yet. */
    method Add(key: string, value: seq<string>)
      requires key !in defaultTargetBoneNames
      modifies this
      ensures defaultTargetBoneNames == old(defaultTargetBoneNames)[key := value]
    {
      defaultTargetBoneNames := defaultTargetBoneNames[key := value];
    }

    /**
     * Get: a fresh copy of the list registered under `avatarName`; `None` when
     * the name is not registered (the dictionary indexer throws).
     */
    method Get(avatarName: string) returns (r: Option<array<string>>)
      ensures r.None? <==> avatarName !in defaultTargetBoneNames
      ensures r.Some? ==> fresh(r.value) && r.value[..] == defaultTargetBoneNames[avatarName]
    {
      if avatarName !in defaultTargetBoneNames {
        return None;
      }
      var x := defaultTargetBoneNames[avatarName];
      var copy := new string[|x|](i requires 0 <= i < |x| => x[i]);
      r := Some(copy);
    }

    /** GetDefault: Get on the default profile. */
    method GetDefault() returns (r: Option<array<string>>)
      ensures r.None? <==> DefaultTargetBoneNamesAvatar !in defaultTargetBoneNames
      ensures r.Some? ==> fresh(r.value) && r.value[..] == defaultTargetBoneNames[DefaultTargetBoneNamesAvatar]
    {
      r := Get(DefaultTargetBoneNamesAvatar);
    }
  }

  /**
   * A caller that overwrites the first entry of what Get returned still gets
   * the registered list from the next Get: the catalogue hands out copies.
   */
  method GetReturnsIndependentCopy(presets: BoneNamesPresets, avatarName: string) returns (later: Option<seq<string>>)
    requires presets.defaultTargetBoneNames == Presets()
    ensures later == if avatarName in Presets() then Some(Presets()[avatarName]) else None
  {
    var first := presets.Get(avatarName);
    if first.Some? && first.value.Length > 0 {
      first.value[0] := first.value[0] + "_changed";
    }
    var second := presets.Get(avatarName);
    later := if second.Some? then Some(second.value[..]) else None;
  }
}
