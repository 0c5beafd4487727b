/** The repository's parser of sequence parameter sets: reading functions, the parser over a bit
    reader, and why it stays in step with the standard. */
module SpsParser {
  import opened BitReader
  import opened BitMask
  import opened Common
  import opened SpsSyntax

  datatype Info = Info(profile: nat, level: nat, width: int, height: int)

  /** The remainder of C: the sign of the dividend. */
  function CRem(x: int, n: nat): int
    requires n > 0
  {
    if x < 0 then -((-x) % n) else x % n
  }

  /** The remainder has the sign of the dividend. */
  lemma CRemOf256(x: int)
    ensures var r := CRem(x, 256); (x - r) % 256 == 0 && -256 < r < 256 && (x >= 0 ==> r >= 0) && (x <= 0 ==> r <= 0)
  {
  }

  /** The profiles for which the code reads the extended fields. */
  predicate CodeExtended(profile: nat) {
    profile == 100 || profile == 110 || profile == 122 || profile == 244 || profile == 44 || profile == 83 || profile == 86
  }

  /** The code reads six small lists and two large ones. */
  function CodeListSize(i: nat): nat {
    if i < 6 then 16 else 64
  }

  // ---------------------------------------------------------------- what each part of the code reads

  function ReadScalingList(bits: seq<bool>, left: nat, last: int, next: int): Parse<()>
    decreases left
  {
    if left == 0 then Ok((), bits)
    else if next != 0 then
      var (delta, rest) :- ReadSE(bits);
      var next' := CRem(last + delta + 256, 256);
      ReadScalingList(rest, left - 1, if next' == 0 then last else next', next')
    else ReadScalingList(bits, left - 1, last, next)
  }

  function ReadLists(bits: seq<bool>, i: nat): Parse<()>
    decreases 8 - i
  {
    if i >= 8 then Ok((), bits)
    else
      var (present, rest) :- ReadBits(bits, 1);
      if present != 0 then
        var (_, rest') :- ReadScalingList(rest, CodeListSize(i), 8, 8);
        ReadLists(rest', i + 1)
      else ReadLists(rest, i + 1)
  }

  /** The extended fields; the value is chroma_format_idc. */
  function ReadHigh(bits: seq<bool>): Parse<nat> {
    var (chroma, b1) :- ReadUE(bits);
    var (_, b2) :- ReadBits(b1, if chroma == 3 then 1 else 0);
    var (_, b3) :- ReadUE(b2);
    var (_, b4) :- ReadUE(b3);
    var (_, b5) :- ReadBits(b4, 1);
    var (matrix, b6) :- ReadBits(b5, 1);
    if matrix != 0 then
      var (_, b7) :- ReadLists(b6, 0);
      Ok(chroma, b7)
    else Ok(chroma, b6)
  }

  function ReadCodes(bits: seq<bool>, n: nat): Parse<()> {
    if n == 0 then Ok((), bits)
    else
      var (_, rest) :- ReadUE(bits);
      ReadCodes(rest, n - 1)
  }

  function ReadPoc(bits: seq<bool>): Parse<()> {
    var (ty, b1) :- ReadUE(bits);
    if ty == 0 then
      var (_, b2) :- ReadUE(b1);
      Ok((), b2)
    else if ty == 1 then ReadCycle(b1)
    else Ok((), b1)
  }

  /** The offsets of the cycle are signed codes; the code skips them as unsigned ones. */
  function ReadCycle(bits: seq<bool>): Parse<()> {
    var (_, b1) :- ReadBits(bits, 1);
    var (_, b2) :- ReadUE(b1);
    var (_, b3) :- ReadUE(b2);
    var (n, b4) :- ReadUE(b3);
    ReadCodes(b4, n)
  }

  datatype Size = Size(widthMinus1: nat, heightMinus1: nat, mbsOnly: nat)

  function ReadSize(bits: seq<bool>): Parse<Size> {
    var (w, b1) :- ReadUE(bits);
    var (h, b2) :- ReadUE(b1);
    var (only, b3) :- ReadBits(b2, 1);
    var (_, b4) :- ReadBits(b3, if only == 0 then 1 else 0);
    var (_, b5) :- ReadBits(b4, 1);
    Ok(Size(w, h, only), b5)
  }

  function ReadCrop(bits: seq<bool>): Parse<Option<Crop>> {
    var (present, b1) :- ReadBits(bits, 1);
    if present == 0 then Ok(None, b1)
    else
      var (l, b2) :- ReadUE(b1);
      var (r, b3) :- ReadUE(b2);
      var (t, b4) :- ReadUE(b3);
      var (b, b5) :- ReadUE(b4);
      Ok(Some(Crop(l, r, t, b)), b5)
  }

  datatype Ids = Ids(profile: nat, level: nat)

  function ReadIds(bits: seq<bool>): Parse<Ids> {
    var (profile, b1) :- ReadBits(bits, 8);
    var (_, b2) :- ReadBits(b1, 8);
    var (level, b3) :- ReadBits(b2, 8);
    var (_, b4) :- ReadUE(b3);
    Ok(Ids(profile, level), b4)
  }

  /** The crop units of the code, from chroma_format_idc alone. */
  function UnitX(chroma: nat): nat {
    if chroma == 0 then 1 else if chroma == 3 then 1 else 2
  }

  function UnitY(chroma: nat, factor: int): int {
    if chroma == 0 then factor else (if chroma == 1 then 2 else 1) * factor
  }

  /** The dimensions, in the code's unsigned arithmetic. */
  function InfoOf(ids: Ids, chroma: nat, size: Size, crop: Option<Crop>): Info {
    var factor := 2 - size.mbsOnly;
    var width := size.widthMinus1 * 16 + 16;
    var height := factor * (size.heightMinus1 * 16 + 16);
    match crop
    case None => Info(ids.profile, ids.level, ToInt(width), ToInt(height))
    case Some(c) =>
      Info(ids.profile, ids.level,
           ToInt(width - (c.left + c.right) * UnitX(chroma)), ToInt(height - (c.top + c.bottom) * UnitY(chroma, factor)))
  }

  function ReadChroma(bits: seq<bool>, profile: nat): Parse<nat> {
    if CodeExtended(profile) then ReadHigh(bits) else Ok(1, bits)
  }

  /** The whole parse: the info and the bits behind the cropping rectangle. */
  function ReadSps(bits: seq<bool>): Parse<Info> {
    var (ids, b1) :- ReadIds(bits);
    var (chroma, b2) :- ReadChroma(b1, ids.profile);
    var (_, b3) :- ReadUE(b2);
    var (_, b4) :- ReadPoc(b3);
    var (_, b5) :- ReadUE(b4);
    var (_, b6) :- ReadBits(b5, 1);
    var (size, b7) :- ReadSize(b6);
    var (crop, b8) :- ReadCrop(b7);
    Ok(InfoOf(ids, chroma, size, crop), b8)
  }

  // ---------------------------------------------------------------- the parser

  method ScalingList(sizeOfScalingList: nat, br: Reader) returns (r: Option<()>)
    requires br.Valid()
    modifies br
    ensures br.Did(ReadScalingList(old(br.Remaining()), sizeOfScalingList, 8, 8), r)
  {
    hide ReadSE, CRem;
    var lastScale, nextScale := 8, 8;
    for j := 0 to sizeOfScalingList
      invariant br.Valid()
      invariant ReadScalingList(old(br.Remaining()), sizeOfScalingList, 8, 8)
             == ReadScalingList(br.Remaining(), sizeOfScalingList - j, lastScale, nextScale)
    {
      if nextScale != 0 {
        var deltaScale :- br.ParseSE();
        nextScale := CRem(lastScale + deltaScale + 256, 256);
      }
      lastScale := if nextScale == 0 then lastScale else nextScale;
    }
    r := Some(());
  }

  method SeqScalingMatrix(br: Reader) returns (r: Option<()>)
    requires br.Valid()
    modifies br
    ensures br.Did(ReadLists(old(br.Remaining()), 0), r)
  {
    hide ReadUE, ReadBits;
    for i := 0 to 8
      invariant br.Valid()
      invariant ReadLists(old(br.Remaining()), 0) == ReadLists(br.Remaining(), i)
    {
      var present :- br.GetBits(1);
      if present != 0 {
        if i < 6 {
          var _ :- ScalingList(16, br);
        } else {
          var _ :- ScalingList(64, br);
        }
      }
    }
    r := Some(());
  }

  method ParseHigh(br: Reader) returns (r: Option<nat>)
    requires br.Valid()
    modifies br
    ensures br.Did(ReadHigh(old(br.Remaining())), r)
  {
    hide ReadUE, ReadBits;
    var chromaFormatIdc :- br.ParseUE();
    var _ :- br.GetBits(if chromaFormatIdc == 3 then 1 else 0);
    var _ :- br.ParseUE();
    var _ :- br.ParseUE();
    var _ :- br.GetBits(1);
    var matrixPresent :- br.GetBits(1);
    if matrixPresent != 0 {
      var _ :- SeqScalingMatrix(br);
    }
    r := Some(chromaFormatIdc);
  }

  method ParsePoc(br: Reader) returns (r: Option<()>)
    requires br.Valid()
    modifies br
    ensures br.Did(ReadPoc(old(br.Remaining())), r)
  {
    hide ReadUE, ReadBits;
    var picOrderCntType :- br.ParseUE();
    if picOrderCntType == 0 {
      var _ :- br.ParseUE();
    } else if picOrderCntType == 1 {
      var _ :- ParseCycle(br);
    }
    r := Some(());
  }

  method ParseCycle(br: Reader) returns (r: Option<()>)
    requires br.Valid()
    modifies br
    ensures br.Did(ReadCycle(old(br.Remaining())), r)
  {
    hide ReadUE, ReadBits;
    var _ :- br.GetBits(1);
    var _ :- br.ParseUE();
    var _ :- br.ParseUE();
    var n :- br.ParseUE();
    var _ :- ParseCodes(n, br);
    r := Some(());
  }

  method ParseCodes(n: nat, br: Reader) returns (r: Option<()>)
    requires br.Valid()
    modifies br
    ensures br.Did(ReadCodes(old(br.Remaining()), n), r)
  {
    hide ReadUE, ReadBits;
    for i := 0 to n
      invariant br.Valid()
      invariant ReadCodes(old(br.Remaining()), n) == ReadCodes(br.Remaining(), n - i)
    {
      var _ :- br.ParseUE();
    }
    r := Some(());
  }

  method ParseSize(br: Reader) returns (r: Option<Size>)
    requires br.Valid()
    modifies br
    ensures br.Did(ReadSize(old(br.Remaining())), r)
  {
    hide ReadUE, ReadBits;
    var w :- br.ParseUE();
    var h :- br.ParseUE();
    var only :- br.GetBits(1);
    var _ :- br.GetBits(if only == 0 then 1 else 0);
    var _ :- br.GetBits(1);
    r := Some(Size(w, h, only));
  }

  method ParseCrop(br: Reader) returns (r: Option<Option<Crop>>)
    requires br.Valid()
    modifies br
    ensures br.Did(ReadCrop(old(br.Remaining())), r)
  {
    hide ReadUE, ReadBits;
    var present :- br.GetBits(1);
    if present == 0 {
      return Some(None);
    }
    var left :- br.ParseUE();
    var right :- br.ParseUE();
    var top :- br.ParseUE();
    var bottom :- br.ParseUE();
    r := Some(Some(Crop(left, right, top, bottom)));
  }

  method ParseIds(br: Reader) returns (r: Option<Ids>)
    requires br.Valid()
    modifies br
    ensures br.Did(ReadIds(old(br.Remaining())), r)
  {
    hide ReadUE, ReadBits;
    var profile :- br.GetBits(8);
    var _ :- br.GetBits(8);
    var level :- br.GetBits(8);
    var _ :- br.ParseUE();
    r := Some(Ids(profile, level));
  }

  /** The parser; running out of bits ends it with None. */
  method FindAvcSpsInfo(br: Reader) returns (r: Option<Info>)
    requires br.Valid()
    modifies br
    ensures br.Did(ReadSps(old(br.Remaining())), r)
  {
    hide ReadUE, ReadBits, ReadIds, ReadHigh, ReadPoc, ReadSize, ReadCrop, InfoOf;
    var ids :- ParseIds(br);
    var chroma := 1;
    if CodeExtended(ids.profile) {
      chroma :- ParseHigh(br);
    }
    var _ :- br.ParseUE();
    var _ :- ParsePoc(br);
    var _ :- br.ParseUE();
    var _ :- br.GetBits(1);
    var size :- ParseSize(br);
    var crop :- ParseCrop(br);
    r := Some(InfoOf(ids, chroma, size, crop));
  }

  /** The whole call: the bits behind the unit header. */
  method FindInfo(seqParamSet: seq<byte>) returns (r: Option<Info>)
    requires seqParamSet != []
    ensures match ReadSps(BitsOf(seqParamSet[1..]))
            case Ok(info, _) => r == Some(info)
            case Fail => r.None?
  {
    hide ReadSps;
    var br := new Reader(seqParamSet[1..]);
    r := FindAvcSpsInfo(br);
  }

  // ---------------------------------------------------------------- in step with the standard

  lemma {:induction false} ScalingListInStep(deltas: seq<int>, left: nat, last: int, next: int, rest: seq<bool>)
    requires GoodScalingList(deltas, left, last, next) && 0 < last < 256 && 0 <= next < 256
    ensures ReadScalingList(WriteScalingList(deltas, left, last, next) + rest, left, last, next) == Ok((), rest)
    decreases left
  {
    hide ReadUE, WriteUE, ReadSE, WriteSE, ReadBits, ToBits;
    if left == 0 {
      assert [] + rest == rest;
    } else if next != 0 {
      var next' := (last + deltas[0] + 256) % 256;
      var last' := if next' == 0 then last else next';
      var tail := WriteScalingList(deltas[1..], left - 1, last', next');
      ScalingListInStep(deltas[1..], left - 1, last', next', rest);
      assert WriteScalingList(deltas, left, last, next) + rest == WriteSE(deltas[0]) + (tail + rest);
      ReadSEBack(deltas[0], tail + rest);
    } else {
      ScalingListInStep(deltas, left - 1, last, next, rest);
    }
  }

  lemma {:induction false} ListsInStep(lists: seq<Option<seq<int>>>, i: nat, rest: seq<bool>)
    requires i + |lists| == 8 && GoodLists(lists, i)
    ensures ReadLists(WriteLists(lists, i) + rest, i) == Ok((), rest)
    decreases |lists|
  {
    hide ReadBits, ReadScalingList, WriteScalingList, GoodScalingList;
    if lists == [] {
      assert [] + rest == rest;
    } else {
      ListsInStep(lists[1..], i + 1, rest);
      assert lists == [lists[0]] + lists[1..];
      var tail := WriteLists(lists[1..], i + 1) + rest;
      match lists[0]
      case None =>
        assert WriteLists(lists, i) + rest == Flag(false) + tail;
        ReadFlagBack(false, tail);
      case Some(deltas) => ListInStep(deltas, lists[1..], i, rest);
    }
  }

  lemma ListInStep(deltas: seq<int>, lists: seq<Option<seq<int>>>, i: nat, rest: seq<bool>)
    requires i < 8 && GoodScalingList(deltas, ListSize(i), 8, 8)
    requires ReadLists(WriteLists(lists, i + 1) + rest, i + 1) == Ok((), rest)
    ensures ReadLists(WriteLists([Some(deltas)] + lists, i) + rest, i) == Ok((), rest)
  {
    hide ReadBits, ReadScalingList, WriteScalingList, GoodScalingList;
    var tail := WriteLists(lists, i + 1) + rest;
    var list := WriteScalingList(deltas, ListSize(i), 8, 8);
    assert ([Some(deltas)] + lists)[1..] == lists;
    assert WriteLists([Some(deltas)] + lists, i) + rest == Flag(true) + (list + tail);
    ReadFlagBack(true, list + tail);
    ScalingListInStep(deltas, ListSize(i), 8, 8, tail);
  }

  /** The bits behind a possibly absent flag. */
  lemma OptionalFlag(present: bool, b: bool, rest: seq<bool>)
    ensures var bits := (if present then Flag(b) else []) + rest;
            var p := ReadBits(bits, if present then 1 else 0);
            p.Ok? && p.rest == rest
  {
    if present {
      ReadFlagBack(b, rest);
    } else {
      assert [] + rest == rest;
    }
  }

  lemma HighInStep(h: High, rest: seq<bool>)
    requires GoodHigh(h) && (h.chromaFormat == 3 ==> h.matrix.None?)
    ensures ReadHigh(WriteHigh(h) + rest) == Ok(h.chromaFormat, rest)
  {
    hide ReadUE, WriteUE, ReadSE, WriteSE, ReadBits, ToBits;
    var t5 := WriteMatrix(h.matrix) + rest;
    var t4 := Flag(h.bypass) + t5;
    var t3 := WriteUE(h.bitDepthChroma) + t4;
    var t2 := WriteUE(h.bitDepthLuma) + t3;
    var t1 := (if h.chromaFormat == 3 then Flag(h.separatePlanes) else []) + t2;
    assert WriteHigh(h) + rest == WriteUE(h.chromaFormat) + t1;
    ReadUEBack(h.chromaFormat, t1);
    OptionalFlag(h.chromaFormat == 3, h.separatePlanes, t2);
    ReadUEBack(h.bitDepthLuma, t3);
    ReadUEBack(h.bitDepthChroma, t4);
    ReadFlagBack(h.bypass, t5);
    match h.matrix
    case None => ReadFlagBack(false, rest);
    case Some(lists) =>
      assert t5 == Flag(true) + (WriteLists(lists, 0) + rest);
      ReadFlagBack(true, WriteLists(lists, 0) + rest);
      ListsInStep(lists, 0, rest);
  }

  lemma {:induction false} CodesInStep(offsets: seq<int>, rest: seq<bool>)
    requires forall i :: 0 <= i < |offsets| ==> CodeOf(offsets[i]) < UE_LIMIT
    ensures ReadCodes(WriteOffsets(offsets) + rest, |offsets|) == Ok((), rest)
  {
    hide ReadUE, WriteUE, ReadSE, WriteSE, ReadBits, ToBits;
    if offsets == [] {
      assert [] + rest == rest;
    } else {
      CodesInStep(offsets[1..], rest);
      var tail := WriteOffsets(offsets[1..]) + rest;
      assert WriteOffsets(offsets) + rest == WriteSE(offsets[0]) + tail;
      ReadSEBack(offsets[0], tail);
    }
  }

  lemma PocInStep(poc: Poc, rest: seq<bool>)
    requires GoodPoc(poc)
    ensures ReadPoc(WritePoc(poc) + rest) == Ok((), rest)
  {
    hide ReadUE, WriteUE, ReadSE, WriteSE, ReadBits, ToBits;
    match poc
    case Lsb(n) =>
      assert WritePoc(poc) + rest == WriteUE(0) + (WriteUE(n) + rest);
      ReadUEBack(0, WriteUE(n) + rest);
      ReadUEBack(n, rest);
    case Cycle(zero, nonRef, top, frames) =>
      var t4 := WriteOffsets(frames) + rest;
      var t3 := WriteUE(|frames|) + t4;
      var t2 := WriteSE(top) + t3;
      var t1 := WriteSE(nonRef) + t2;
      assert WritePoc(poc) + rest == WriteUE(1) + (Flag(zero) + t1);
      ReadUEBack(1, Flag(zero) + t1);
      ReadFlagBack(zero, t1);
      ReadSEBack(nonRef, t2);
      ReadSEBack(top, t3);
      ReadUEBack(|frames|, t4);
      CodesInStep(frames, rest);
    case Order(ty) => ReadUEBack(ty, rest);
  }

  lemma SizeInStep(s: Sps, rest: seq<bool>)
    requires s.widthInMbs < UE_LIMIT && s.heightInMapUnits < UE_LIMIT
    ensures ReadSize(WriteSize(s) + rest) == Ok(Size(s.widthInMbs, s.heightInMapUnits, if s.frameMbsOnly then 1 else 0), rest)
  {
    hide ReadUE, WriteUE, ReadSE, WriteSE, ReadBits, ToBits;
    var t4 := Flag(s.direct8x8) + rest;
    var t3 := (if s.frameMbsOnly then [] else Flag(s.mbAdaptive)) + t4;
    var t2 := Flag(s.frameMbsOnly) + t3;
    var t1 := WriteUE(s.heightInMapUnits) + t2;
    assert WriteSize(s) + rest == WriteUE(s.widthInMbs) + t1;
    ReadUEBack(s.widthInMbs, t1);
    ReadUEBack(s.heightInMapUnits, t2);
    ReadFlagBack(s.frameMbsOnly, t3);
    OptionalFlag(!s.frameMbsOnly, s.mbAdaptive, t4);
    ReadFlagBack(s.direct8x8, rest);
  }

  lemma CropInStep(crop: Option<Crop>, rest: seq<bool>)
    requires crop.Some? ==> crop.value.left < UE_LIMIT && crop.value.right < UE_LIMIT
                            && crop.value.top < UE_LIMIT && crop.value.bottom < UE_LIMIT
    ensures ReadCrop(WriteCrop(crop) + rest) == Ok(crop, rest)
  {
    hide ReadUE, WriteUE, ReadSE, WriteSE, ReadBits, ToBits;
    match crop
    case None => ReadFlagBack(false, rest);
    case Some(c) =>
      var t3 := WriteUE(c.bottom) + rest;
      var t2 := WriteUE(c.top) + t3;
      var t1 := WriteUE(c.right) + t2;
      assert WriteCrop(crop) + rest == Flag(true) + (WriteUE(c.left) + t1);
      ReadFlagBack(true, WriteUE(c.left) + t1);
      ReadUEBack(c.left, t1);
      ReadUEBack(c.right, t2);
      ReadUEBack(c.top, t3);
      ReadUEBack(c.bottom, rest);
  }

  lemma IdsInStep(s: Sps, rest: seq<bool>)
    requires s.profile < 256 && s.constraints < 256 && s.level < 256 && s.id < UE_LIMIT
    ensures ReadIds(WriteIds(s) + rest) == Ok(Ids(s.profile, s.level), rest)
  {
    hide ReadUE, WriteUE, ReadSE, WriteSE, ReadBits, ToBits;
    var t3 := WriteUE(s.id) + rest;
    var t2 := ToBits(s.level, 8) + t3;
    var t1 := ToBits(s.constraints, 8) + t2;
    assert WriteIds(s) + rest == ToBits(s.profile, 8) + t1;
    assert Pow2(8) == 256;
    ReadBitsBack(s.profile, 8, t1);
    ReadBitsBack(s.constraints, 8, t2);
    ReadBitsBack(s.level, 8, t3);
    ReadUEBack(s.id, rest);
  }

  /** The code and the standard agree on the extended fields of this parameter set. */
  predicate InCodeScope(s: Sps) {
    && (CodeExtended(s.profile) <==> StandardExtended(s.profile))
    && !TwelveLists(s)
  }

  /** Scaling lists of a 4:4:4 parameter set, of which the code reads only eight of twelve. */
  predicate TwelveLists(s: Sps) {
    s.high.Some? && s.high.value.chromaFormat == 3 && s.high.value.matrix.Some?
  }

  /** The cropped picture has dimensions a 32-bit int can hold. */
  predicate DimensionsFit(s: Sps) {
    0 <= CroppedWidth(s) < INT_LIMIT && 0 <= CroppedHeight(s) < INT_LIMIT
  }

  lemma ChromaInStep(s: Sps, rest: seq<bool>)
    requires GoodSps(s) && InCodeScope(s)
    ensures ReadChroma((if s.high.Some? then WriteHigh(s.high.value) else []) + rest, s.profile) == Ok(ChromaFormat(s), rest)
  {
    hide ReadHigh, WriteHigh;
    if s.high.Some? {
      HighInStep(s.high.value, rest);
    } else {
      assert [] + rest == rest;
    }
  }

  /** For every parameter set of the standard in the scope of the code, with scaling lists and
      picture order cycles of any length, the parser reads exactly the bits written and returns
      profile, level and the cropped width and height of section 7.4.2.1.1. */
  lemma ParserInStep(s: Sps, rest: seq<bool>)
    requires GoodSps(s) && InCodeScope(s)
    requires DimensionsFit(s)
    ensures ReadSps(WriteSps(s) + rest) == Ok(Info(s.profile, s.level, CroppedWidth(s), CroppedHeight(s)), rest)
  {
    hide ReadUE, WriteUE, ReadBits, ToBits, ReadIds, WriteIds, ReadChroma, WriteHigh, ReadPoc, WritePoc, ReadSize, WriteSize, ReadCrop, WriteCrop;
    var t7 := WriteCrop(s.crop) + rest;
    var t6 := WriteSize(s) + t7;
    var t5 := Flag(s.gapsAllowed) + t6;
    var t4 := WriteUE(s.numRefFrames) + t5;
    var t3 := WritePoc(s.poc) + t4;
    var t2 := WriteUE(s.log2MaxFrameNum) + t3;
    var t1 := (if s.high.Some? then WriteHigh(s.high.value) else []) + t2;
    assert WriteSps(s) + rest == WriteIds(s) + t1;
    IdsInStep(s, t1);
    ChromaInStep(s, t2);
    ReadUEBack(s.log2MaxFrameNum, t3);
    PocInStep(s.poc, t4);
    ReadUEBack(s.numRefFrames, t5);
    ReadFlagBack(s.gapsAllowed, t6);
    SizeInStep(s, t7);
    CropInStep(s.crop, rest);
    DimensionsAgree(s);
  }

  /** The unsigned arithmetic of the code yields the dimensions of the standard. */
  lemma DimensionsAgree(s: Sps)
    requires GoodSps(s)
    requires DimensionsFit(s)
    ensures InfoOf(Ids(s.profile, s.level), ChromaFormat(s), Size(s.widthInMbs, s.heightInMapUnits, if s.frameMbsOnly then 1 else 0), s.crop)
            == Info(s.profile, s.level, CroppedWidth(s), CroppedHeight(s))
  {
    hide CropUnitX, CropUnitY, UnitX, UnitY, PicWidth, FrameHeight, ToInt, GoodSps;
    WidthAgrees(s);
    HeightAgrees(s);
    assert 2 - (if s.frameMbsOnly then 1 else 0) == FieldFactor(s);
  }

  lemma WidthAgrees(s: Sps)
    requires GoodSps(s)
    ensures PicWidth(s) == s.widthInMbs * 16 + 16
    ensures s.crop.Some? ==>
              var n := s.crop.value.left + s.crop.value.right;
              CropUnitX(s) * n == n * UnitX(ChromaFormat(s))
  {
    assert CropUnitX(s) == UnitX(ChromaFormat(s));
  }

  lemma HeightAgrees(s: Sps)
    requires GoodSps(s)
    ensures FrameHeight(s) == FieldFactor(s) * (s.heightInMapUnits * 16 + 16)
    ensures s.crop.Some? ==>
              var n := s.crop.value.top + s.crop.value.bottom;
              CropUnitY(s) * n == n * UnitY(ChromaFormat(s), FieldFactor(s))
  {
    assert CropUnitY(s) == UnitY(ChromaFormat(s), FieldFactor(s));
    if s.frameMbsOnly {
      assert FieldFactor(s) == 1;
    } else {
      assert FieldFactor(s) == 2;
    }
  }

  // ---------------------------------------------------------------- out of scope

  /** The parser reads a written parameter set as the standard means it. */
  ghost predicate InStep(s: Sps) {
    forall rest: seq<bool> ::
      ReadSps(WriteSps(s) + rest) == Ok(Info(s.profile, s.level, CroppedWidth(s), CroppedHeight(s)), rest)
  }

  /** A small parameter set with extended fields: 176 x 144, no cropping. */
  function Sample(profile: nat, high: High): Sps {
    Sps(profile, 0, 30, 0, Some(high), 0, Lsb(0), 0, false, 10, 8, true, false, true, None)
  }

  function PlainHigh(): High { High(1, false, 0, 0, true, None) }

  lemma WriteZero()
    ensures WriteUE(0) == [true]
  {
    assert Log2(1) == 0;
  }

  /** A profile whose extended fields the code does not expect: the code takes them for what follows
      and reads 16 x 16. */
  lemma ProfileOutOfStep(profile: nat)
    requires StandardExtended(profile) && !CodeExtended(profile)
    ensures GoodSps(Sample(profile, PlainHigh())) && !InStep(Sample(profile, PlainHigh()))
  {
    hide ReadUE, WriteUE, ReadBits, ToBits, ReadIds, WriteIds, ReadCrop;
    var s := Sample(profile, PlainHigh());
    WriteZero();
    var tail := WriteSize(s) + (Flag(false) + []);
    var t8 := Flag(false) + tail;
    var t7 := [true] + t8;
    var t6 := [true] + t7;
    var t5 := [true] + t6;
    var t4 := [true] + t5;
    var t3 := Flag(false) + t4;
    var t2 := [true] + t3;
    var t1 := [true] + t2;
    var t0 := [true] + t1;
    assert WriteSps(s) + [] == WriteIds(s) + (WriteUE(1) + t0);
    IdsInStep(s, WriteUE(1) + t0);
    ReadUEBack(1, t0);
    ReadUEBack(0, t1);
    ReadUEBack(0, t2);
    ReadUEBack(0, t3);
    ReadFlagBack(false, t4);
    ReadUEBack(0, t5);
    ReadUEBack(0, t6);
    ReadFlagBack(true, t7);
    ReadFlagBack(true, t8);
    CropInStep(None, tail);
    assert ReadSize(t4) == Ok(Size(0, 0, 1), t8) by {
      assert ReadBits(t7, 0).Ok? && ReadBits(t7, 0).rest == t7 by { OptionalFlag(false, false, t7); assert [] + t7 == t7; }
    }
    assert ReadSps(WriteSps(s) + []) == Ok(Info(profile, 30, 16, 16), tail);
    assert CroppedWidth(s) == 176;
  }

  /** Twelve scaling lists, none present. */
  function TwelveHigh(): High {
    High(3, false, 0, 0, false, Some([None, None, None, None, None, None, None, None, None, None, None, None]))
  }

  lemma {:induction false} AbsentLists(lists: seq<Option<seq<int>>>, i: nat)
    requires forall k :: 0 <= k < |lists| ==> lists[k].None?
    ensures WriteLists(lists, i) == Zeros(|lists|) && GoodLists(lists, i)
  {
    if lists != [] {
      AbsentLists(lists[1..], i + 1);
    }
  }

  /** The code's loop over eight absent lists. */
  lemma {:induction false} EightAbsent(i: nat, rest: seq<bool>)
    requires i <= 8
    ensures ReadLists(Zeros(8 - i) + rest, i) == Ok((), rest)
    decreases 8 - i
  {
    if i == 8 {
      assert Zeros(0) + rest == rest;
    } else {
      EightAbsent(i + 1, rest);
      assert Zeros(8 - i) + rest == Flag(false) + (Zeros(8 - (i + 1)) + rest);
      ReadFlagBack(false, Zeros(8 - (i + 1)) + rest);
    }
  }

  lemma CodeOf29()
    ensures WriteUE(29) == Zeros(4) + [true, true, true, true, false]
  {
    assert ToBits(3, 2) == [true, true];
    assert ToBits(14, 4) == ToBits(3, 2) + [true] + [false];
    assert Pow2(2) == 4 && Pow2(4) == 16;
    assert Log2(7) == 2 && Log2(30) == 4;
  }

  /** What stands behind the ids: the extended fields, then the rest of the sample. */
  function BehindFlags(): seq<bool> {
    WriteUE(10) + (WriteUE(8) + (Flag(true) + (Flag(true) + Flag(false))))
  }

  lemma TwelveSample(profile: nat)
    ensures WriteSps(Sample(profile, TwelveHigh())) + []
            == WriteIds(Sample(profile, TwelveHigh())) + (WriteHigh(TwelveHigh()) + ([true] + ([true, true, true, false] + BehindFlags())))
  {
    hide WriteIds, WriteHigh, ToBits, WriteUE;
    WriteZero();
    var s := Sample(profile, TwelveHigh());
    var tail := WriteUE(0) + (WritePoc(s.poc) + (WriteUE(0) + (Flag(false) + (WriteSize(s) + WriteCrop(None)))));
    assert WritePoc(s.poc) == [true, true];
    assert WriteSize(s) + WriteCrop(None) == BehindFlags();
    assert tail == [true] + ([true, true, true, false] + BehindFlags());
    assert WriteSps(s) == WriteIds(s) + (WriteHigh(TwelveHigh()) + tail);
  }

  /** The code stops behind eight of the twelve flags. */
  lemma HighOfTwelve(rest: seq<bool>)
    ensures ReadHigh(WriteHigh(TwelveHigh()) + rest) == Ok(3, Zeros(4) + rest)
  {
    hide ReadUE, WriteUE, ReadBits, ReadLists, WriteLists;
    var t5 := Zeros(8) + (Zeros(4) + rest);
    var t4 := Flag(true) + t5;
    var t3 := Flag(false) + t4;
    var t2 := WriteUE(0) + t3;
    var t1 := WriteUE(0) + t2;
    assert WriteLists(TwelveHigh().matrix.value, 0) == Zeros(12) by { AbsentLists(TwelveHigh().matrix.value, 0); }
    assert Zeros(12) + rest == t5;
    assert WriteHigh(TwelveHigh()) + rest == WriteUE(3) + (Flag(false) + t1);
    ReadUEBack(3, Flag(false) + t1);
    ReadFlagBack(false, t1);
    ReadUEBack(0, t2);
    ReadUEBack(0, t3);
    ReadFlagBack(false, t4);
    ReadFlagBack(true, t5);
    EightAbsent(0, Zeros(4) + rest);
  }

  /** With twelve scaling lists the code loses step: here the four flags it does not read run into
      the next code, and it runs out of bits. */
  lemma TwelveListsOutOfStep(profile: nat)
    requires CodeExtended(profile)
    ensures GoodSps(Sample(profile, TwelveHigh())) && !InStep(Sample(profile, TwelveHigh()))
  {
    hide ReadUE, WriteUE, ReadBits, ToBits, ReadIds, WriteIds, ReadHigh, WriteHigh, WriteLists, Zeros, WriteSps;
    var s := Sample(profile, TwelveHigh());
    AbsentLists(TwelveHigh().matrix.value, 0);
    var z := Flag(true) + (Flag(true) + Flag(false));
    var rest := [true] + ([true, true, true, false] + BehindFlags());
    TwelveSample(profile);
    IdsInStep(s, WriteHigh(TwelveHigh()) + rest);
    HighOfTwelve(rest);
    CodeOf29();
    assert Zeros(4) + rest == WriteUE(29) + BehindFlags();
    ReadUEBack(29, BehindFlags());
    ReadUEBack(10, WriteUE(8) + z);
    ReadUEBack(8, z);
    ReadFlagBack(true, Flag(true) + Flag(false));
    NoSize();
    assert ReadSps(WriteSps(s) + []).Fail?;
  }

  lemma NoSize()
    ensures ReadSize(Flag(true) + Flag(false)).Fail?
  {
    WriteZero();
    ReadUEBack(0, Flag(false));
    NoCode();
  }

  lemma NoCode()
    ensures ReadUE(Flag(false)).Fail?
  {
    assert LeadingZeros([false]) == 1;
  }

  /** Among the parameter sets without twelve scaling lists, the parser stays in step with all those
      of a profile exactly when it knows whether that profile has the extended fields, which it does not for
      six of the multiview and 3D profiles; among those with twelve it does not, whatever the profile. */
  lemma ProfileScopeIsExact(profile: nat)
    ensures profile !in {118, 128, 134, 135, 138, 139} <==>
            (forall s: Sps :: GoodSps(s) && s.profile == profile && !TwelveLists(s) && DimensionsFit(s) ==> InStep(s))
    ensures CodeExtended(profile) ==>
            exists s: Sps :: GoodSps(s) && s.profile == profile && TwelveLists(s) && DimensionsFit(s) && !InStep(s)
  {
    if CodeExtended(profile) <==> StandardExtended(profile) {
      forall s: Sps | GoodSps(s) && s.profile == profile && !TwelveLists(s) && DimensionsFit(s)
        ensures InStep(s)
      {
        AllInStep(s);
      }
    } else {
      ProfileOutOfStep(profile);
      assert DimensionsFit(Sample(profile, PlainHigh()));
    }
    if CodeExtended(profile) {
      TwelveListsOutOfStep(profile);
      assert DimensionsFit(Sample(profile, TwelveHigh()));
    }
  }

  lemma AllInStep(s: Sps)
    requires GoodSps(s) && InCodeScope(s) && DimensionsFit(s)
    ensures InStep(s)
  {
    forall rest: seq<bool>
      ensures ReadSps(WriteSps(s) + rest) == Ok(Info(s.profile, s.level, CroppedWidth(s), CroppedHeight(s)), rest)
    {
      ParserInStep(s, rest);
    }
  }
}
