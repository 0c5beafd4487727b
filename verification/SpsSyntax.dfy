/** The sequence parameter set: its syntax by section 7.3.2.1.1 of ITU-T H.264, what it means by
    section 7.4.2.1.1, and the reading functions of the repository's parser. */
module SpsSyntax {
  import opened BitReader
  import opened Common

  // ---------------------------------------------------------------- the syntax of the standard

  datatype High = High(
    chromaFormat: nat, separatePlanes: bool, bitDepthLuma: nat, bitDepthChroma: nat, bypass: bool,
    matrix: Option<seq<Option<seq<int>>>>)

  datatype Poc =
    | Lsb(log2MaxLsb: nat)
    | Cycle(alwaysZero: bool, nonRefPic: int, topToBottom: int, refFrames: seq<int>)
    | Order(ty: nat)

  datatype Crop = Crop(left: nat, right: nat, top: nat, bottom: nat)

  datatype Sps = Sps(
    profile: nat, constraints: nat, level: nat, id: nat,
    high: Option<High>,
    log2MaxFrameNum: nat, poc: Poc, numRefFrames: nat, gapsAllowed: bool,
    widthInMbs: nat, heightInMapUnits: nat, frameMbsOnly: bool, mbAdaptive: bool, direct8x8: bool,
    crop: Option<Crop>)

  /** The profiles whose parameter sets carry the extended fields. */
  predicate StandardExtended(profile: nat) {
    profile in {100, 110, 122, 244, 44, 83, 86, 118, 128, 138, 139, 134, 135}
  }

  function Flag(b: bool): seq<bool> { [b] }

  /** scaling_list: a delta is present until a next scale of zero is reached. */
  function WriteScalingList(deltas: seq<int>, left: nat, last: int, next: int): seq<bool> {
    if left == 0 then []
    else if next != 0 then
      if deltas == [] then []
      else
        var next' := (last + deltas[0] + 256) % 256;
        WriteSE(deltas[0]) + WriteScalingList(deltas[1..], left - 1, if next' == 0 then last else next', next')
    else WriteScalingList(deltas, left - 1, last, next)
  }

  /** There is exactly one delta for every position that has one, each in the range of the standard. */
  predicate GoodScalingList(deltas: seq<int>, left: nat, last: int, next: int) {
    if left == 0 then deltas == []
    else if next != 0 then
      deltas != [] && -128 <= deltas[0] <= 127
      && var next' := (last + deltas[0] + 256) % 256;
         GoodScalingList(deltas[1..], left - 1, if next' == 0 then last else next', next')
    else GoodScalingList(deltas, left - 1, last, next)
  }

  function ListSize(i: nat): nat { if i < 6 then 16 else 64 }

  function WriteLists(lists: seq<Option<seq<int>>>, i: nat): seq<bool> {
    if lists == [] then []
    else match lists[0]
         case None => Flag(false) + WriteLists(lists[1..], i + 1)
         case Some(deltas) => Flag(true) + (WriteScalingList(deltas, ListSize(i), 8, 8) + WriteLists(lists[1..], i + 1))
  }

  function WriteMatrix(matrix: Option<seq<Option<seq<int>>>>): seq<bool> {
    match matrix
    case None => Flag(false)
    case Some(lists) => Flag(true) + WriteLists(lists, 0)
  }

  function WriteHigh(h: High): seq<bool> {
    WriteUE(h.chromaFormat) + ((if h.chromaFormat == 3 then Flag(h.separatePlanes) else []) +
    (WriteUE(h.bitDepthLuma) + (WriteUE(h.bitDepthChroma) + (Flag(h.bypass) + WriteMatrix(h.matrix)))))
  }

  function WriteOffsets(offsets: seq<int>): seq<bool> {
    if offsets == [] then [] else WriteSE(offsets[0]) + WriteOffsets(offsets[1..])
  }

  function WritePoc(poc: Poc): seq<bool> {
    match poc
    case Lsb(n) => WriteUE(0) + WriteUE(n)
    case Cycle(zero, nonRef, top, frames) =>
      WriteUE(1) + (Flag(zero) + (WriteSE(nonRef) + (WriteSE(top) + (WriteUE(|frames|) + WriteOffsets(frames)))))
    case Order(ty) => WriteUE(ty)
  }

  function WriteCrop(crop: Option<Crop>): seq<bool> {
    match crop
    case None => Flag(false)
    case Some(c) => Flag(true) + (WriteUE(c.left) + (WriteUE(c.right) + (WriteUE(c.top) + WriteUE(c.bottom))))
  }

  function WriteSize(s: Sps): seq<bool> {
    WriteUE(s.widthInMbs) + (WriteUE(s.heightInMapUnits) + (Flag(s.frameMbsOnly) +
    ((if s.frameMbsOnly then [] else Flag(s.mbAdaptive)) + Flag(s.direct8x8))))
  }

  function WriteIds(s: Sps): seq<bool> {
    ToBits(s.profile, 8) + (ToBits(s.constraints, 8) + (ToBits(s.level, 8) + WriteUE(s.id)))
  }

  /** seq_parameter_set_data up to the cropping rectangle. */
  function WriteSps(s: Sps): seq<bool> {
    WriteIds(s) + ((if s.high.Some? then WriteHigh(s.high.value) else []) +
    (WriteUE(s.log2MaxFrameNum) + (WritePoc(s.poc) + (WriteUE(s.numRefFrames) + (Flag(s.gapsAllowed) +
    (WriteSize(s) + WriteCrop(s.crop)))))))
  }

  predicate GoodLists(lists: seq<Option<seq<int>>>, i: nat) {
    lists == [] || ((lists[0].Some? ==> GoodScalingList(lists[0].value, ListSize(i), 8, 8)) && GoodLists(lists[1..], i + 1))
  }

  predicate GoodHigh(h: High) {
    && h.chromaFormat <= 3 && h.bitDepthLuma < UE_LIMIT && h.bitDepthChroma < UE_LIMIT
    && (h.matrix.Some? ==> |h.matrix.value| == (if h.chromaFormat != 3 then 8 else 12) && GoodLists(h.matrix.value, 0))
  }

  predicate GoodPoc(poc: Poc) {
    match poc
    case Lsb(n) => n < UE_LIMIT
    case Cycle(_, nonRef, top, frames) =>
      && CodeOf(nonRef) < UE_LIMIT && CodeOf(top) < UE_LIMIT && |frames| < UE_LIMIT
      && forall i :: 0 <= i < |frames| ==> CodeOf(frames[i]) < UE_LIMIT
    case Order(ty) => 2 <= ty < UE_LIMIT
  }

  /** A parameter set the standard allows to be written; codes fit in 32 bits. */
  predicate GoodSps(s: Sps) {
    && s.profile < 256 && s.constraints < 256 && s.level < 256 && s.id < UE_LIMIT
    && (s.high.Some? <==> StandardExtended(s.profile)) && (s.high.Some? ==> GoodHigh(s.high.value))
    && s.log2MaxFrameNum < UE_LIMIT && GoodPoc(s.poc) && s.numRefFrames < UE_LIMIT
    && s.widthInMbs < UE_LIMIT && s.heightInMapUnits < UE_LIMIT
    && (s.crop.Some? ==> s.crop.value.left < UE_LIMIT && s.crop.value.right < UE_LIMIT
                         && s.crop.value.top < UE_LIMIT && s.crop.value.bottom < UE_LIMIT)
  }

  // ---------------------------------------------------------------- the semantics of the standard

  function ChromaFormat(s: Sps): nat {
    if s.high.Some? then s.high.value.chromaFormat else 1
  }

  /** ChromaArrayType. */
  function ChromaArrayType(s: Sps): nat {
    if ChromaFormat(s) == 3 && s.high.value.separatePlanes then 0 else ChromaFormat(s)
  }

  /** Table 6-1. */
  function SubWidthC(chromaFormat: nat): nat { if chromaFormat == 3 then 1 else 2 }
  function SubHeightC(chromaFormat: nat): nat { if chromaFormat == 1 then 2 else 1 }

  function FieldFactor(s: Sps): nat { if s.frameMbsOnly then 1 else 2 }

  function CropUnitX(s: Sps): nat {
    if ChromaArrayType(s) == 0 then 1 else SubWidthC(ChromaFormat(s))
  }

  function CropUnitY(s: Sps): nat {
    if ChromaArrayType(s) == 0 then FieldFactor(s) else SubHeightC(ChromaFormat(s)) * FieldFactor(s)
  }

  /** Width and height of the decoded picture, and what cropping leaves of them. */
  function PicWidth(s: Sps): nat { (s.widthInMbs + 1) * 16 }
  function FrameHeight(s: Sps): nat { FieldFactor(s) * (s.heightInMapUnits + 1) * 16 }

  function CroppedWidth(s: Sps): int {
    match s.crop
    case None => PicWidth(s)
    case Some(c) => PicWidth(s) - CropUnitX(s) * (c.left + c.right)
  }

  function CroppedHeight(s: Sps): int {
    match s.crop
    case None => FrameHeight(s)
    case Some(c) => FrameHeight(s) - CropUnitY(s) * (c.top + c.bottom)
  }
}
