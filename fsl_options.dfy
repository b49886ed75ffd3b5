/** The option settings `fslBET` and `fslFLIRT` make before running the FSL
    tools: the BET mode letter chooses one flag, the atlas name chooses the
    registration reference. Running the tools is not modelled. */
module FslOptions {
  import opened Wrappers

  /** The two BET inputs lines 57-60 may set; `false` means left unset. */
  datatype BetFlags = BetFlags(reduceBias: bool, robust: bool)

  /** Lines 57-60: `B` sets `reduce_bias`, `R` sets `robust`, any other
      mode sets neither. */
  function BetMode(mode: string): (f: BetFlags)
    ensures f.reduceBias <==> mode == "B"
    ensures f.robust <==> mode == "R"
    ensures !(f.reduceBias && f.robust)
  {
    if mode == "B" then BetFlags(true, false)
    else if mode == "R" then BetFlags(false, true)
    else BetFlags(false, false)
  }

  const AtlasDir := "utils/atlas/"

  /** Lines 74-77: the reference volume for an atlas name; for any other
      name the reference is left unset. */
  function AtlasReference(atlas: string): (r: Option<string>)
    ensures r.Some? <==> atlas == "MNI152_2mm" || atlas == "MNI152_1mm"
    ensures r.Some? ==> r.value == AtlasDir + atlas + "_brain.nii.gz"
  {
    if atlas == "MNI152_2mm" then Some("utils/atlas/MNI152_2mm_brain.nii.gz")
    else if atlas == "MNI152_1mm" then Some("utils/atlas/MNI152_1mm_brain.nii.gz")
    else None
  }
}
