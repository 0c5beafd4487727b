/** The AVC decoder configuration record (section 5.2.4.1 of ISO/IEC 14496-15): building it from
    parameter sets and reading it back as a byte stream. */
module AvcConfig {
  import opened Common
  import BitReader
  import EmulationPrevention
  import SpsParser
  import SpsSyntax

  const CSD_CAPACITY := 1024

  /** A record is built, or refused, or a check of the code aborts the process. */
  datatype Result<+T> = Ok(value: T) | Refused | Aborted

  // ---------------------------------------------------------------- the format

  function U16(n: nat): seq<byte>
    requires n < 0x1_0000
  {
    [n / 256, n % 256]
  }

  function U16At(b: seq<byte>): nat
    requires |b| >= 2
  {
    b[0] as int * 256 + b[1] as int
  }

  ghost predicate Sized(nals: seq<seq<byte>>) {
    forall i :: 0 <= i < |nals| ==> |nals[i]| < 0x1_0000
  }

  /** Each unit behind its 16-bit length. */
  function Sets(nals: seq<seq<byte>>): seq<byte>
    requires forall i :: 0 <= i < |nals| ==> |nals[i]| < 0x1_0000
  {
    if nals == [] then [] else U16(|nals[0]|) + nals[0] + Sets(nals[1..])
  }

  function SetsSize(nals: seq<seq<byte>>): nat {
    if nals == [] then 0 else 2 + |nals[0]| + SetsSize(nals[1..])
  }

  /** AVCDecoderConfigurationRecord: version, the three bytes of profile and level, two-byte lengths, the
      parameter sets. */
  function Record(head: seq<byte>, sps: seq<seq<byte>>, pps: seq<seq<byte>>): seq<byte>
    requires |head| == 3 && 0 < |sps| < 32 && |pps| < 256
    requires forall i :: 0 <= i < |sps| ==> |sps[i]| < 0x1_0000
    requires forall i :: 0 <= i < |pps| ==> |pps[i]| < 0x1_0000
  {
    [1] + head + [0xFD] + [0xE0 + |sps|] + Sets(sps) + [|pps|] + Sets(pps)
  }

  /** The units of a byte stream, each behind its start code. */
  function Stream(nals: seq<seq<byte>>): seq<byte> {
    if nals == [] then [] else [0, 0, 0, 1] + nals[0] + Stream(nals[1..])
  }

  lemma {:induction false} StreamAppend(a: seq<seq<byte>>, b: seq<seq<byte>>)
    ensures Stream(a + b) == Stream(a) + Stream(b)
  {
    if a == [] {
      assert a + b == b;
    } else {
      StreamAppend(a[1..], b);
      assert (a + b)[1..] == a[1..] + b;
    }
  }

  // ---------------------------------------------------------------- reading

  /** A whole unit stands at the front. */
  predicate HasUnit(b: seq<byte>) {
    |b| >= 2 && U16At(b) <= |b| - 2
  }

  function Unit(b: seq<byte>): seq<byte>
    requires HasUnit(b)
  {
    b[2..2 + U16At(b)]
  }

  function Behind(b: seq<byte>): seq<byte>
    requires HasUnit(b)
  {
    b[2 + U16At(b)..]
  }

  /** Reads n units; the value is the units and the bytes behind them. */
  datatype Units = Short | Units(nals: seq<seq<byte>>, rest: seq<byte>)

  function ReadSets(b: seq<byte>, n: nat): Units {
    if n == 0 then Units([], b)
    else if !HasUnit(b) then Short
    else Prepend([Unit(b)], ReadSets(Behind(b), n - 1))
  }

  /** Units read before the rest of a reading. */
  function Prepend(done: seq<seq<byte>>, r: Units): Units {
    match r
    case Short => Short
    case Units(nals, rest) => Units(done + nals, rest)
  }


  /** All units of a record, in order. */
  function ReadRecord(data: seq<byte>): Result<seq<seq<byte>>> {
    if |data| < 7 || data[0] != 1 then Aborted
    else
      match ReadSets(data[6..], data[5] as int % 32)
      case Short => Aborted
      case Units(sps, rest) =>
        if rest == [] then Aborted
        else
          match ReadSets(rest[1..], rest[0] as int)
          case Short => Aborted
          case Units(pps, _) => Ok(sps + pps)
  }

  lemma {:induction false} ReadSetsCount(b: seq<byte>, n: nat)
    ensures ReadSets(b, n).Units? ==> |ReadSets(b, n).nals| == n
  {
    if n > 0 && HasUnit(b) {
      ReadSetsCount(Behind(b), n - 1);
    }
  }

  lemma UnitInFront(nal: seq<byte>, tail: seq<byte>)
    requires |nal| < 0x1_0000
    ensures var b := U16(|nal|) + (nal + tail); HasUnit(b) && Unit(b) == nal && Behind(b) == tail
  {
    var b := U16(|nal|) + (nal + tail);
    assert U16At(b) == |nal|;
  }

  lemma {:induction false} ReadSetsBack(nals: seq<seq<byte>>, rest: seq<byte>)
    requires Sized(nals)
    ensures ReadSets(Sets(nals) + rest, |nals|) == Units(nals, rest)
  {
    if nals == [] {
      assert Sets(nals) + rest == rest;
    } else {
      hide Sets, ReadSets, HasUnit, Unit, Behind, U16, U16At;
      var tail := Sets(nals[1..]) + rest;
      assert ReadSets(tail, |nals| - 1) == Units(nals[1..], rest) by { ReadSetsBack(nals[1..], rest); }
      SetsInFront(nals, rest);
      ReadOne(nals[0], tail, |nals|);
      assert nals == [nals[0]] + nals[1..];
    }
  }

  lemma SetsInFront(nals: seq<seq<byte>>, rest: seq<byte>)
    requires Sized(nals) && nals != []
    ensures Sets(nals) + rest == U16(|nals[0]|) + (nals[0] + (Sets(nals[1..]) + rest))
  {
    hide U16;
    var a, b, c := U16(|nals[0]|), nals[0], Sets(nals[1..]);
    assert Sets(nals) == a + b + c;
    assert (a + b + c) + rest == a + (b + (c + rest));
  }

  lemma ReadOne(nal: seq<byte>, tail: seq<byte>, n: nat)
    requires |nal| < 0x1_0000 && n > 0
    ensures ReadSets(U16(|nal|) + (nal + tail), n) == Prepend([nal], ReadSets(tail, n - 1))
  {
    hide HasUnit, Unit, Behind, U16, U16At;
    UnitInFront(nal, tail);
  }

  /** Reading a record gives back exactly the parameter sets it was built from, in order. */
  lemma ReadRecordBack(head: seq<byte>, sps: seq<seq<byte>>, pps: seq<seq<byte>>)
    requires |head| == 3 && 0 < |sps| < 32 && |pps| < 256 && Sized(sps) && Sized(pps)
    ensures ReadRecord(Record(head, sps, pps)) == Ok(sps + pps)
  {
    hide ReadSets, Sets;
    var data := Record(head, sps, pps);
    var behind := [|pps| as byte] + Sets(pps);
    assert data[6..] == Sets(sps) + behind;
    assert data[5] == 0xE0 + |sps|;
    ReadSetsBack(sps, behind);
    assert behind[1..] == Sets(pps) + [];
    ReadSetsBack(pps, []);
  }

  /** A record of less than 7 bytes or of another version is not read; one of 7 bytes may hold no units. */
  lemma SmallestRecord(data: seq<byte>)
    ensures |data| < 7 || data[0] != 1 ==> ReadRecord(data) == Aborted
    ensures |data| == 7 && data[0] == 1 && data[5] == 0xE0 && data[6] == 0 ==> ReadRecord(data) == Ok([])
  {
    hide HasUnit;
    if |data| == 7 && data[5] == 0xE0 && data[6] == 0 {
      var rest := data[6..];
      assert ReadSets(rest, 0) == Units([], rest) && rest[0] == 0;
      assert ReadSets(rest[1..], 0) == Units([], rest[1..]);
      assert data[5] as int % 32 == 0 && [] + rest[1..] == [];
    }
  }

  lemma {:induction false} SetsLength(nals: seq<seq<byte>>)
    requires Sized(nals)
    ensures |Sets(nals)| == SetsSize(nals)
  {
    if nals != [] {
      SetsLength(nals[1..]);
    }
  }

  /** Whenever the code is about to copy a unit, the output buffer has room for it. */
  predicate Room(b: seq<byte>, n: nat, room: int) {
    n == 0 || !HasUnit(b)
    || (|Unit(b)| + 4 <= room && Room(Behind(b), n - 1, room - |Unit(b)| - 4))
  }

  predicate RecordHasRoom(data: seq<byte>) {
    |data| < 7 || data[0] != 1
    || (Room(data[6..], data[5] as int % 32, CSD_CAPACITY)
        && match ReadSets(data[6..], data[5] as int % 32)
           case Short => true
           case Units(sps, rest) => rest == [] || Room(rest[1..], rest[0] as int, CSD_CAPACITY - |Stream(sps)|))
  }

  /** Copies bytes into the output buffer. */
  method Append(csd: array<byte>, total: nat, bytes: seq<byte>) returns (total': nat)
    requires total + |bytes| <= csd.Length
    modifies csd
    ensures total' == total + |bytes|
    ensures csd[..total'] == old(csd[..total]) + bytes
  {
    forall i | 0 <= i < |bytes| {
      csd[total + i] := bytes[i];
    }
    total' := total + |bytes|;
  }

  method CopyUnit(csd: array<byte>, total: nat, unit: seq<byte>) returns (total': nat)
    requires total + 4 + |unit| <= csd.Length
    modifies csd
    ensures total' == total + 4 + |unit|
    ensures csd[..total'] == old(csd[..total]) + ([0, 0, 0, 1] + unit)
  {
    total' := Append(csd, total, [0, 0, 0, 1]);
    total' := Append(csd, total', unit);
  }

  lemma NoUnits()
    ensures Stream([]) == []
  {
  }

  /** One of the two loops of the reader: copies up to n units behind start codes. */
  method CopyUnits(data: seq<byte>, start: nat, n: nat, csd: array<byte>, filled: nat)
    returns (ok: bool, ptr: nat, total: nat)
    requires start <= |data| && filled <= csd.Length && Room(data[start..], n, csd.Length - filled)
    modifies csd
    ensures ok <==> ReadSets(data[start..], n).Units?
    ensures ok ==> var r := ReadSets(data[start..], n);
                   && ptr <= |data| && data[ptr..] == r.rest
                   && total == filled + |Stream(r.nals)| <= csd.Length
                   && csd[..total] == old(csd[..filled]) + Stream(r.nals)
  {
    hide Stream;
    ptr, total := start, filled;
    ghost var done: seq<seq<byte>> := [];
    NoUnits();
    for i := 0 to n
      invariant start <= ptr <= |data| && total <= csd.Length
      invariant Room(data[ptr..], n - i, csd.Length - total)
      invariant total == filled + |Stream(done)| && csd[..total] == old(csd[..filled]) + Stream(done)
      invariant ReadSets(data[start..], n) == Prepend(done, ReadSets(data[ptr..], n - i))
    {
      ghost var b := data[ptr..];
      if |data| - ptr < 2 {
        return false, ptr, total;
      }
      var length := U16At(data[ptr..ptr + 2]);
      if |data| - ptr - 2 < length {
        return false, ptr, total;
      }
      assert HasUnit(b) && Unit(b) == data[ptr + 2..ptr + 2 + length] && Behind(b) == data[ptr + 2 + length..];
      OneMoreUnit(done, Unit(b), ReadSets(Behind(b), n - i - 1));
      total := CopyUnit(csd, total, data[ptr + 2..ptr + 2 + length]);
      done := done + [Unit(b)];
      ptr := ptr + 2 + length;
    }
    ok := true;
    assert done + [] == done;
  }

  lemma OneMoreUnit(done: seq<seq<byte>>, unit: seq<byte>, r: Units)
    ensures Stream(done + [unit]) == Stream(done) + ([0, 0, 0, 1] + unit)
    ensures Prepend(done + [unit], r) == Prepend(done, Prepend([unit], r))
  {
    StreamAppend(done, [unit]);
    assert [unit][1..] == [];
    if r.Units? {
      assert (done + [unit]) + r.nals == done + ([unit] + r.nals);
    }
  }

  /** The reader: the units of the record as a byte stream; a record of no units leaves the output
      buffer at its full capacity. */
  method ParseAvcCodecSpecificData(data: seq<byte>) returns (r: Result<seq<byte>>)
    requires RecordHasRoom(data)
    ensures match ReadRecord(data)
            case Ok(nals) => r.Ok? && (if nals != [] then r.value == Stream(nals) else |r.value| == CSD_CAPACITY)
            case _ => r.Aborted?
  {
    hide Stream, ReadSets, Room;
    var csd := new byte[CSD_CAPACITY];
    if |data| < 7 || data[0] != 1 {
      return Aborted;
    }
    var numSeqParameterSets := data[5] as int % 32;
    var ok, ptr, total := CopyUnits(data, 6, numSeqParameterSets, csd, 0);
    if !ok {
      return Aborted;
    }
    if |data| - ptr < 1 {
      return Aborted;
    }
    ghost var sps, rest := ReadSets(data[6..], numSeqParameterSets).nals, data[ptr..];
    var numPictureParameterSets := data[ptr] as int;
    assert rest[1..] == data[ptr + 1..];
    ok, ptr, total := CopyUnits(data, ptr + 1, numPictureParameterSets, csd, total);
    if !ok {
      return Aborted;
    }
    ghost var pps := ReadSets(rest[1..], numPictureParameterSets).nals;
    StreamAppend(sps, pps);
    ReadSetsCount(data[6..], numSeqParameterSets);
    ReadSetsCount(rest[1..], numPictureParameterSets);
    if numSeqParameterSets + numPictureParameterSets == 0 {
      r := Ok(csd[..]);
    } else {
      r := Ok(csd[..total]);
    }
  }

  // ---------------------------------------------------------------- building

  /** The parameter sets collected so far, and the three bytes behind the first byte of the first one. */
  datatype ParameterSets = ParameterSets(sps: seq<seq<byte>>, pps: seq<seq<byte>>, head: seq<byte>)

  const NOTHING := ParameterSets([], [], [])
  const MIN_FIRST_SIZE := 10

  function UnitType(nal: seq<byte>): nat
    requires nal != []
  {
    nal[0] as int % 32
  }

  /** What the removal of prevention bytes leaves of a unit: its 8-bit size sees only so much of it. */
  function Left(nal: seq<byte>): seq<byte> {
    EmulationPrevention.Unescape(nal[..|nal| % 256])
  }

  /** The bytes behind the first one in the buffer of a unit after the removal. */
  function HeadOf(nal: seq<byte>): (r: seq<byte>)
    requires |nal| >= MIN_FIRST_SIZE
    ensures |r| == 3
  {
    EmulationPrevention.Removed(nal, |nal| % 256)[1..4]
  }

  /** What happens to the next unit: None is a unit whose base64 text could not be decoded. */
  function Collect(nals: seq<Option<seq<byte>>>, first: bool, got: ParameterSets): Result<ParameterSets> {
    if nals == [] then Limits(got)
    else if nals[0].None? || (first && |nals[0].value| < MIN_FIRST_SIZE) then Refused
    else
      var nal := Left(nals[0].value);
      var head := if first then HeadOf(nals[0].value) else got.head;
      if nal == [] then if got.sps == [] then Refused else Limits(got)
      else if got.sps == [] && UnitType(nal) != 7 then Aborted
      else if got.pps != [] && UnitType(nal) != 8 then Aborted
      else if UnitType(nal) == 7 then Collect(nals[1..], false, got.(sps := got.sps + [nal], head := head))
      else if UnitType(nal) == 8 then Collect(nals[1..], false, got.(pps := got.pps + [nal], head := head))
      else Aborted
  }

  function Limits(got: ParameterSets): Result<ParameterSets> {
    if |got.sps| < 32 && |got.pps| <= 255 then Ok(got) else Aborted
  }

  method CollectParameterSets(nals: seq<Option<seq<byte>>>) returns (r: Result<ParameterSets>)
    ensures r == Collect(nals, true, NOTHING)
  {
    var got := NOTHING;
    for i := 0 to |nals|
      invariant Collect(nals, true, NOTHING) == Collect(nals[i..], i == 0, got)
    {
      assert nals[i..][1..] == nals[i + 1..];
      if nals[i].None? {
        return Refused;
      }
      var nal := nals[i].value;
      if i == 0 && |nal| < MIN_FIRST_SIZE {
        return Refused;
      }
      var unit, buffer := RemovePrevention(nal);
      if unit == [] {
        if got.sps == [] {
          return Refused;
        }
        break;
      }
      if got.sps == [] && UnitType(unit) != 7 {
        return Aborted;
      }
      if got.pps != [] && UnitType(unit) != 8 {
        return Aborted;
      }
      if i == 0 {
        got := got.(head := buffer[1..4]);
      }
      if UnitType(unit) == 7 {
        got := got.(sps := got.sps + [unit]);
      } else if UnitType(unit) == 8 {
        got := got.(pps := got.pps + [unit]);
      } else {
        return Aborted;
      }
    }
    r := if |got.sps| < 32 && |got.pps| <= 255 then Ok(got) else Aborted;
  }

  /** The unit that is left in its buffer, and the whole buffer. */
  method RemovePrevention(nal: seq<byte>) returns (unit: seq<byte>, buffer: seq<byte>)
    ensures unit == Left(nal) && buffer == EmulationPrevention.Removed(nal, |nal| % 256)
  {
    var a := new byte[|nal|](k requires 0 <= k < |nal| => nal[k]);
    assert a[..] == nal;
    var leftSize := EmulationPrevention.RemoveFromUnit(a);
    unit, buffer := a[..leftSize], a[..];
  }

  /** What collection yields can be written: at least one SPS, none of them empty. */
  ghost predicate Writable(got: ParameterSets) {
    && 0 < |got.sps| && |got.head| == 3 && Sized(got.sps) && Sized(got.pps)
    && forall i :: 0 <= i < |got.sps| ==> got.sps[i] != []
  }

  lemma LeftIsSmall(nal: seq<byte>)
    ensures |Left(nal)| < 256
  {
    hide EmulationPrevention.Unescape;
  }

  lemma {:induction false} CollectedIsWritable(nals: seq<Option<seq<byte>>>, first: bool, got: ParameterSets)
    requires (first ==> nals != [] && got == NOTHING) && (!first ==> Writable(got))
    ensures var r := Collect(nals, first, got);
            r.Ok? ==> Writable(r.value) && |r.value.sps| < 32 && |r.value.pps| < 256
    decreases |nals|
  {
    hide Left, HeadOf;
    if nals != [] && nals[0].Some? {
      var nal := Left(nals[0].value);
      LeftIsSmall(nals[0].value);
      if nal != [] && !(first && |nals[0].value| < MIN_FIRST_SIZE) && !(got.sps == [] && UnitType(nal) != 7) {
        var head := if first then HeadOf(nals[0].value) else got.head;
        if UnitType(nal) == 7 {
          CollectedIsWritable(nals[1..], false, got.(sps := got.sps + [nal], head := head));
        } else if UnitType(nal) == 8 {
          CollectedIsWritable(nals[1..], false, got.(pps := got.pps + [nal], head := head));
        }
      }
    }
  }

  /** Writes one loop's length-prefixed units. */
  method WriteSets(nals: seq<seq<byte>>, csd: array<byte>, start: nat) returns (out: nat)
    requires Sized(nals) && start + SetsSize(nals) <= csd.Length
    modifies csd
    ensures out == start + SetsSize(nals)
    ensures csd[..out] == old(csd[..start]) + Sets(nals)
  {
    out := start;
    for i := 0 to |nals|
      invariant start <= out && out + SetsSize(nals[i..]) == start + SetsSize(nals) <= csd.Length
      invariant csd[..out] + Sets(nals[i..]) == old(csd[..start]) + Sets(nals)
    {
      assert nals[i..][1..] == nals[i + 1..];
      out := Append(csd, out, [|nals[i]| / 256, |nals[i]| % 256]);
      out := Append(csd, out, nals[i]);
    }
    assert nals[|nals|..] == [];
  }

  /** The size the code allocates for a record. */
  function CsdSize(got: ParameterSets): nat {
    1 + 3 + 1 + 1 + SetsSize(got.sps) + 1 + SetsSize(got.pps)
  }

  /** The writer: it fills exactly the bytes allocated, with the record of the parameter sets. */
  method WriteRecord(got: ParameterSets) returns (csd: array<byte>)
    requires Writable(got) && |got.sps| < 32 && |got.pps| < 256
    ensures csd.Length == CsdSize(got) && csd[..] == Record(got.head, got.sps, got.pps)
  {
    hide Sets, SetsSize;
    csd := new byte[CsdSize(got)];
    var out := WriteHead(got, csd);
    out := WriteSets(got.sps, csd, out);
    out := Append(csd, out, [|got.pps|]);
    out := WriteSets(got.pps, csd, out);
    assert csd[..] == csd[..out];
  }

  /** Version, profile and level from the first SPS, length size and number of SPS. */
  method WriteHead(got: ParameterSets, csd: array<byte>) returns (out: nat)
    requires Writable(got) && |got.sps| < 32 && 6 <= csd.Length
    modifies csd
    ensures out == 6 && csd[..6] == [1] + got.head + [0xFD] + [0xE0 + |got.sps|]
  {
    out := Append(csd, 0, [0x01]);
    out := Append(csd, out, got.head);
    out := Append(csd, out, [0xFD]);
    out := Append(csd, out, [0xE0 + |got.sps|]);
  }

  /** A record with the profile and level that its first SPS gives. */
  datatype Made = Made(csd: seq<byte>, profile: nat, level: nat)

  /** What the call returns for collected sets: a first SPS that ends too early fails a check of the bit
      reader. */
  function MadeOf(got: ParameterSets): Result<Made>
    requires |got.head| == 3 && 0 < |got.sps| < 32 && |got.pps| < 256 && got.sps[0] != []
    requires forall i :: 0 <= i < |got.sps| ==> |got.sps[i]| < 0x1_0000
    requires forall i :: 0 <= i < |got.pps| ==> |got.pps[i]| < 0x1_0000
  {
    match SpsParser.ReadSps(BitReader.BitsOf(got.sps[0][1..]))
    case Ok(info, _) => Ok(Made(Record(got.head, got.sps, got.pps), info.profile, info.level))
    case Fail => Aborted
  }

  /** The first unit collected is what removal leaves of the first one, and the head its bytes 1 to 3, if it has
      so many. */
  lemma {:induction false} FirstCollected(nals: seq<Option<seq<byte>>>, first: bool, got: ParameterSets)
    requires nals != [] && (first ==> got == NOTHING) && (!first ==> got.sps != [])
    ensures var r := Collect(nals, first, got);
            r.Ok? ==>
              && r.value.sps != []
              && if first then nals[0].Some? && |nals[0].value| >= MIN_FIRST_SIZE
                               && r.value.sps[0] == Left(nals[0].value) && r.value.head == HeadOf(nals[0].value)
                 else r.value.sps[0] == got.sps[0] && r.value.head == got.head
    decreases |nals|
  {
    hide Left, HeadOf;
    if nals[0].Some? && !(first && |nals[0].value| < MIN_FIRST_SIZE) && |nals| > 1 {
      var nal := Left(nals[0].value);
      var head := if first then HeadOf(nals[0].value) else got.head;
      if nal != [] && UnitType(nal) == 7 {
        FirstCollected(nals[1..], false, got.(sps := got.sps + [nal], head := head));
      } else if nal != [] && got.sps != [] && UnitType(nal) == 8 {
        FirstCollected(nals[1..], false, got.(pps := got.pps + [nal], head := head));
      }
    }
  }

  lemma HeadIsInUnit(nal: seq<byte>)
    requires |nal| >= MIN_FIRST_SIZE && |Left(nal)| >= 4
    ensures HeadOf(nal) == Left(nal)[1..4]
  {
    hide EmulationPrevention.Unescape;
  }

  lemma CollectedHead(nals: seq<Option<seq<byte>>>)
    requires nals != []
    ensures var r := Collect(nals, true, NOTHING);
            r.Ok? ==> r.value.sps != [] && (|r.value.sps[0]| >= 4 ==> r.value.head == r.value.sps[0][1..4])
  {
    FirstCollected(nals, true, NOTHING);
    hide Collect, Left, HeadOf;
    var r := Collect(nals, true, NOTHING);
    if r.Ok? && |r.value.sps[0]| >= 4 {
      HeadIsInUnit(nals[0].value);
    }
  }

  /** The bytes of a record in front of its sets. */
  lemma RecordBegins(head: seq<byte>, sps: seq<seq<byte>>, pps: seq<seq<byte>>)
    requires |head| == 3 && 0 < |sps| < 32 && |pps| < 256 && Sized(sps) && Sized(pps)
    ensures var csd := Record(head, sps, pps);
            |csd| >= 7 && csd[0] == 0x01 && csd[1..4] == head && csd[4] == 0x3F * 4 + 1 && csd[5] == 0xE0 + |sps|
  {
    hide Sets;
  }

  /** Builds the record.  It begins with version 1, the profile and level bytes of the first SPS, two-byte lengths
      and the number of SPS. */
  method MakeAvcCodecSpecificData(nals: seq<Option<seq<byte>>>) returns (r: Result<Made>)
    requires nals != []
    ensures match Collect(nals, true, NOTHING)
            case Ok(got) => Writable(got) && |got.sps| < 32 && |got.pps| < 256 && r == MadeOf(got)
            case Refused => r == Refused
            case Aborted => r == Aborted
    ensures r.Ok? ==>
              var csd, got := r.value.csd, Collect(nals, true, NOTHING).value;
              && |csd| >= 7 && csd[0] == 0x01 && csd[4] == 0x3F * 4 + 1 && csd[5] == 0xE0 + |got.sps|
              && (|got.sps[0]| >= 4 ==> csd[1..4] == got.sps[0][1..4])
              && var sps := SpsParser.ReadSps(BitReader.BitsOf(got.sps[0][1..]));
                 sps.Ok? && r.value.profile == sps.value.profile && r.value.level == sps.value.level
  {
    CollectedIsWritable(nals, true, NOTHING);
    CollectedHead(nals);
    hide Collect, Record, SpsParser.ReadSps;
    var got := CollectParameterSets(nals);
    match got
    case Ok(sets) =>
      var csd := WriteRecord(sets);
      RecordBegins(sets.head, sets.sps, sets.pps);
      var info := SpsParser.FindInfo(sets.sps[0]);
      r := if info.Some? then Ok(Made(csd[..], info.value.profile, info.value.level)) else Aborted;
    case Refused => r := Refused;
    case Aborted => r := Aborted;
  }

  // ---------------------------------------------------------------- there and back

  /** The units as they are transmitted. */
  function Escaped(units: seq<seq<byte>>): (r: seq<Option<seq<byte>>>)
    ensures |r| == |units| && forall i :: 0 <= i < |r| ==> r[i].Some?
  {
    if units == [] then [] else [Some(EmulationPrevention.Escape(units[0], 0))] + Escaped(units[1..])
  }

  ghost predicate AllOfType(units: seq<seq<byte>>, ty: nat) {
    forall i :: 0 <= i < |units| ==> units[i] != [] && units[i][0] as int % 32 == ty
  }

  /** Units of at most 255 bytes, which the removal of prevention bytes sees as a whole. */
  ghost predicate SmallUnits(nals: seq<Option<seq<byte>>>) {
    forall i :: 0 <= i < |nals| ==> nals[i].Some? ==> |nals[i].value| <= 255
  }

  lemma LeftOfEscaped(unit: seq<byte>)
    ensures var e := EmulationPrevention.Escape(unit, 0);
            && (Left(e) == unit <==> |e| <= 255)
            && 3 * |unit| >= 2 * |e|
            && (MIN_FIRST_SIZE <= |e| <= 255 ==> |unit| >= 4 && HeadOf(e) == unit[1..4])
  {
    hide EmulationPrevention.Escape, EmulationPrevention.Unescape;
    var e := EmulationPrevention.Escape(unit, 0);
    EmulationPrevention.UnescapeUndoesEscape(unit);
    EmulationPrevention.UnescapeKeepsTwoThirds(e);
    EmulationPrevention.WholeUnitExactlyWhenSmall(e);
    if MIN_FIRST_SIZE <= |e| <= 255 {
      assert e[..|e| % 256] == e;
    }
  }

  lemma {:induction false} CollectPps(pps: seq<seq<byte>>, got: ParameterSets)
    requires AllOfType(pps, 8) && got.sps != [] && SmallUnits(Escaped(pps))
    ensures Collect(Escaped(pps), false, got) == Limits(got.(pps := got.pps + pps))
    decreases |pps|
  {
    hide EmulationPrevention.Escape, Left, HeadOf, Limits;
    if pps == [] {
      assert got.pps + pps == got.pps;
    } else {
      var nals := Escaped(pps);
      assert nals[1..] == Escaped(pps[1..]) && |nals[0].value| <= 255;
      LeftOfEscaped(pps[0]);
      CollectPps(pps[1..], got.(pps := got.pps + [pps[0]]));
      assert (got.pps + [pps[0]]) + pps[1..] == got.pps + pps;
    }
  }

  lemma {:induction false} CollectSps(sps: seq<seq<byte>>, pps: seq<seq<byte>>, got: ParameterSets)
    requires AllOfType(sps, 7) && AllOfType(pps, 8) && got.pps == [] && got.sps != []
    requires SmallUnits(Escaped(sps)) && SmallUnits(Escaped(pps))
    ensures Collect(Escaped(sps) + Escaped(pps), false, got) == Limits(got.(sps := got.sps + sps, pps := pps))
    decreases |sps|
  {
    hide EmulationPrevention.Escape, Left, HeadOf, Limits;
    if sps == [] {
      assert Escaped(sps) + Escaped(pps) == Escaped(pps) && got.sps + sps == got.sps && [] + pps == pps;
      CollectPps(pps, got);
    } else {
      var nals := Escaped(sps);
      assert nals[1..] == Escaped(sps[1..]) && |nals[0].value| <= 255;
      LeftOfEscaped(sps[0]);
      CollectSps(sps[1..], pps, got.(sps := got.sps + [sps[0]]));
      assert (got.sps + [sps[0]]) + sps[1..] == got.sps + sps;
      assert (nals + Escaped(pps))[1..] == nals[1..] + Escaped(pps);
    }
  }

  /** What is collected from transmitted sets that are small. */
  lemma CollectSmall(sps: seq<seq<byte>>, pps: seq<seq<byte>>)
    requires 0 < |sps| < 32 && |pps| <= 255 && AllOfType(sps, 7) && AllOfType(pps, 8)
    requires |EmulationPrevention.Escape(sps[0], 0)| >= MIN_FIRST_SIZE
    requires SmallUnits(Escaped(sps)) && SmallUnits(Escaped(pps))
    ensures |sps[0]| >= 4
    ensures Collect(Escaped(sps) + Escaped(pps), true, NOTHING) == Ok(ParameterSets(sps, pps, sps[0][1..4]))
  {
    hide EmulationPrevention.Escape, Left, HeadOf, Collect;
    var nals := Escaped(sps);
    assert nals[0] == Some(EmulationPrevention.Escape(sps[0], 0)) && nals[1..] == Escaped(sps[1..]);
    assert |nals[0].value| <= 255;
    hide Escaped;
    LeftOfEscaped(sps[0]);
    CollectFirst(nals + Escaped(pps));
    CollectSps(sps[1..], pps, ParameterSets([sps[0]], [], sps[0][1..4]));
    assert [sps[0]] + sps[1..] == sps;
    assert (nals + Escaped(pps))[1..] == nals[1..] + Escaped(pps);
  }

  lemma CollectFirst(nals: seq<Option<seq<byte>>>)
    requires nals != [] && nals[0].Some? && |nals[0].value| >= MIN_FIRST_SIZE
    requires Left(nals[0].value) != [] && UnitType(Left(nals[0].value)) == 7
    ensures var nal := nals[0].value;
            Collect(nals, true, NOTHING) == Collect(nals[1..], false, ParameterSets([Left(nal)], [], HeadOf(nal)))
  {
    hide Left, HeadOf;
    assert [] + [Left(nals[0].value)] == [Left(nals[0].value)];
  }

  /** Units as collected: what is left of each, in order. */
  function AllLeft(nals: seq<Option<seq<byte>>>): seq<seq<byte>> {
    if nals == [] then []
    else (if nals[0].Some? then [Left(nals[0].value)] else [[]]) + AllLeft(nals[1..])
  }

  /** Whatever is collected is what is left of the first k units. */
  lemma {:induction false} CollectedUnits(nals: seq<Option<seq<byte>>>, first: bool, got: ParameterSets) returns (k: nat)
    requires Collect(nals, first, got).Ok?
    ensures k <= |nals|
    ensures var r := Collect(nals, first, got).value; r.sps + r.pps == got.sps + got.pps + AllLeft(nals[..k])
    decreases |nals|
  {
    hide Left, HeadOf;
    if nals == [] || Left(nals[0].value) == [] {
      k := 0;
      assert got.sps + got.pps + [] == got.sps + got.pps;
    } else {
      var nal := Left(nals[0].value);
      var head := if first then HeadOf(nals[0].value) else got.head;
      if UnitType(nal) == 7 {
        k := CollectedUnits(nals[1..], false, got.(sps := got.sps + [nal], head := head));
        assert got.pps == [] && got.sps + [nal] + [] == got.sps + [] + [nal];
      } else {
        k := CollectedUnits(nals[1..], false, got.(pps := got.pps + [nal], head := head));
      }
      assert nals[..k + 1][0] == nals[0] && nals[..k + 1][1..] == nals[1..][..k];
      assert AllLeft(nals[..k + 1]) == [nal] + AllLeft(nals[1..][..k]);
      k := k + 1;
    }
  }

  // ---------------------------------------------------------------- where collection stops

  /** Unit k can be decoded, is long enough if it is the first, and something of it is left. */
  predicate Present(nals: seq<Option<seq<byte>>>, k: nat)
    requires k < |nals|
  {
    nals[k].Some? && (k == 0 ==> |nals[0].value| >= 10) && Left(nals[k].value) != []
  }

  /** The low five bits of its first byte. */
  function Kind(nals: seq<Option<seq<byte>>>, k: nat): Option<int>
    requires k < |nals|
  {
    if Present(nals, k) then Some(Left(nals[k].value)[0] as int % 32) else None
  }

  /** Unit k goes on with the list: an SPS first, then any number of SPS, then PPS. */
  predicate GoesOn(nals: seq<Option<seq<byte>>>, k: nat)
    requires k < |nals|
  {
    if k == 0 then Kind(nals, 0) == Some(7)
    else Kind(nals, k) == Some(8) || (Kind(nals, k) == Some(7) && Kind(nals, k - 1) == Some(7))
  }

  /** The SPS among the first k units. */
  function SpsAmong(nals: seq<Option<seq<byte>>>, k: nat): (n: nat)
    requires k <= |nals| && forall i :: 0 <= i < k ==> GoesOn(nals, i)
    ensures n <= k
  {
    if k == 0 then 0 else SpsAmong(nals, k - 1) + if Kind(nals, k - 1) == Some(7) then 1 else 0
  }

  /** What has been collected when the first k units have gone on with the list. */
  ghost predicate CollectedSoFar(nals: seq<Option<seq<byte>>>, k: nat, got: ParameterSets)
    requires k <= |nals| && forall i :: 0 <= i < k ==> GoesOn(nals, i)
  {
    && |got.sps| == SpsAmong(nals, k) && |got.pps| == k - SpsAmong(nals, k)
    && got.sps + got.pps == AllLeft(nals[..k])
    && (k == 0 ==> got == NOTHING)
    && (k > 0 ==> got.sps != [] && (got.pps == [] <==> Kind(nals, k - 1) == Some(7)))
  }

  lemma {:induction false} AllLeftOneMore(nals: seq<Option<seq<byte>>>, k: nat)
    requires k < |nals| && nals[k].Some?
    ensures AllLeft(nals[..k + 1]) == AllLeft(nals[..k]) + [Left(nals[k].value)]
  {
    hide Left;
    if k > 0 {
      AllLeftOneMore(nals[1..], k - 1);
      assert nals[..k + 1][1..] == nals[1..][..k] && nals[..k][1..] == nals[1..][..k - 1];
    } else {
      assert nals[..1][1..] == [] && nals[..0] == [];
    }
  }

  lemma CollectOne(nals: seq<Option<seq<byte>>>, k: nat, got: ParameterSets) returns (next: ParameterSets)
    requires k < |nals| && forall i :: 0 <= i <= k ==> GoesOn(nals, i)
    requires CollectedSoFar(nals, k, got)
    ensures CollectedSoFar(nals, k + 1, next)
    ensures Collect(nals[k..], k == 0, got) == Collect(nals[k + 1..], false, next)
  {
    hide Left, HeadOf;
    assert GoesOn(nals, k);
    var nal := Left(nals[k].value);
    var head := if k == 0 then HeadOf(nals[k].value) else got.head;
    AllLeftOneMore(nals, k);
    assert nals[k..][0] == nals[k] && nals[k..][1..] == nals[k + 1..];
    if Kind(nals, k) == Some(7) {
      next := got.(sps := got.sps + [nal], head := head);
      assert got.pps == [] && next.sps + next.pps == got.sps + got.pps + [nal];
    } else {
      next := got.(pps := got.pps + [nal], head := head);
      assert next.sps + next.pps == got.sps + got.pps + [nal];
    }
  }

  lemma {:induction false} CollectMany(nals: seq<Option<seq<byte>>>, k: nat) returns (got: ParameterSets)
    requires k <= |nals| && forall i :: 0 <= i < k ==> GoesOn(nals, i)
    ensures CollectedSoFar(nals, k, got)
    ensures Collect(nals, true, NOTHING) == Collect(nals[k..], k == 0, got)
  {
    if k == 0 {
      got := NOTHING;
      assert nals[..0] == [] && nals[0..] == nals;
    } else {
      hide *;
      got := CollectMany(nals, k - 1);
      got := CollectOne(nals, k - 1, got);
    }
  }

  /** Collection stops at the first unit that does not go on with the list, or at the end.  It is refused at a unit
      that cannot be decoded, and at a first unit that is too short or of which nothing is left; it ends well at the
      end or at a later unit of which nothing is left, with the units so far, unless there are too many; any other
      unit fails a check. */
  lemma CollectionStops(nals: seq<Option<seq<byte>>>, k: nat)
    requires k <= |nals| && (forall i :: 0 <= i < k ==> GoesOn(nals, i)) && (k < |nals| ==> !GoesOn(nals, k))
    requires nals != []
    ensures var r := Collect(nals, true, NOTHING);
            if k == |nals| || (k > 0 && nals[k].Some? && Left(nals[k].value) == []) then
              if SpsAmong(nals, k) < 32 && k - SpsAmong(nals, k) <= 255
              then r.Ok? && |r.value.sps| == SpsAmong(nals, k) && r.value.sps + r.value.pps == AllLeft(nals[..k])
              else r == Aborted
            else if Present(nals, k) then r == Aborted
            else r == Refused
  {
    var got := CollectMany(nals, k);
    hide Left, HeadOf, AllLeft, SpsAmong;
    if k < |nals| {
      assert nals[k..][0] == nals[k];
    }
  }

  lemma {:induction false} AllLeftWhole(units: seq<seq<byte>>, k: nat)
    requires k <= |units| && AllLeft(Escaped(units)[..k]) == units
    ensures SmallUnits(Escaped(units))
    decreases |units|
  {
    hide EmulationPrevention.Escape, Left;
    if units != [] {
      var nals := Escaped(units);
      assert k > 0;
      assert nals[..k][0] == nals[0] && nals[..k][1..] == nals[1..][..k - 1];
      LeftOfEscaped(units[0]);
      AllLeftWhole(units[1..], k - 1);
      forall i | 0 <= i < |nals|
        ensures |nals[i].value| <= 255
      {
        assert i > 0 ==> nals[i] == Escaped(units[1..])[i - 1];
      }
    }
  }

  lemma {:induction false} EscapedAppend(a: seq<seq<byte>>, b: seq<seq<byte>>)
    ensures Escaped(a + b) == Escaped(a) + Escaped(b)
  {
    hide EmulationPrevention.Escape;
    if a == [] {
      assert a + b == b;
    } else {
      EscapedAppend(a[1..], b);
      assert (a + b)[1..] == a[1..] + b;
    }
  }

  /** Every list of sequence parameter sets followed by picture parameter sets, transmitted with
      emulation prevention, is collected as it was sent if and only if no transmitted unit has more than
      255 bytes; and reading its record gives it back. */
  lemma TransmittedSetsComeBack(sps: seq<seq<byte>>, pps: seq<seq<byte>>)
    requires 0 < |sps| < 32 && |pps| <= 255 && AllOfType(sps, 7) && AllOfType(pps, 8)
    requires Sized(sps) && Sized(pps) && |EmulationPrevention.Escape(sps[0], 0)| >= MIN_FIRST_SIZE
    ensures |sps[0]| >= 4
    ensures Collect(Escaped(sps + pps), true, NOTHING) == Ok(ParameterSets(sps, pps, sps[0][1..4]))
            <==> SmallUnits(Escaped(sps + pps))
    ensures ReadRecord(Record(sps[0][1..4], sps, pps)) == Ok(sps + pps)
  {
    hide EmulationPrevention.Escape, Record, ReadRecord, Collect;
    LeftOfEscaped(sps[0]);
    EscapedAppend(sps, pps);
    ReadRecordBack(sps[0][1..4], sps, pps);
    if SmallUnits(Escaped(sps + pps)) {
      SmallParts(Escaped(sps), Escaped(pps));
      CollectSmall(sps, pps);
    } else if Collect(Escaped(sps + pps), true, NOTHING) == Ok(ParameterSets(sps, pps, sps[0][1..4])) {
      var k := CollectedUnits(Escaped(sps + pps), true, NOTHING);
      assert [] + [] + AllLeft(Escaped(sps + pps)[..k]) == AllLeft(Escaped(sps + pps)[..k]);
      AllLeftWhole(sps + pps, k);
    }
  }

  lemma SmallParts(a: seq<Option<seq<byte>>>, b: seq<Option<seq<byte>>>)
    requires SmallUnits(a + b)
    ensures SmallUnits(a) && SmallUnits(b)
  {
    assert forall i :: 0 <= i < |a| ==> a[i] == (a + b)[i];
    assert forall i :: 0 <= i < |b| ==> b[i] == (a + b)[|a| + i];
  }

  /** The reader has room for a record exactly if the byte stream of its parameter sets fits the reader's
      buffer. */
  lemma RecordRoom(head: seq<byte>, sps: seq<seq<byte>>, pps: seq<seq<byte>>)
    requires |head| == 3 && 0 < |sps| < 32 && |pps| < 256 && Sized(sps) && Sized(pps)
    ensures RecordHasRoom(Record(head, sps, pps)) <==> |Stream(sps + pps)| <= CSD_CAPACITY
  {
    hide ReadSets, Sets, Room, Stream;
    var data := Record(head, sps, pps);
    var behind := [|pps| as byte] + Sets(pps);
    assert data[6..] == Sets(sps) + behind && data[5] == 0xE0 + |sps|;
    StreamAppend(sps, pps);
    ReadSetsBack(sps, behind);
    assert behind[1..] == Sets(pps) + [];
    RoomForSets(sps, behind, CSD_CAPACITY);
    if |Stream(sps)| <= CSD_CAPACITY {
      RoomForSets(pps, [], CSD_CAPACITY - |Stream(sps)|);
    }
  }

  lemma {:induction false} RoomForSets(nals: seq<seq<byte>>, rest: seq<byte>, room: nat)
    requires Sized(nals)
    ensures Room(Sets(nals) + rest, |nals|, room) <==> |Stream(nals)| <= room
  {
    if nals != [] {
      hide *;
      StreamSize(nals);
      SetsInFront(nals, rest);
      RoomForOne(nals[0], Sets(nals[1..]) + rest, |nals|, room);
      if |nals[0]| + 4 <= room {
        RoomForRest(nals);
        RoomForSets(nals[1..], rest, room - |nals[0]| - 4);
      }
    }
  }

  lemma RoomForRest(nals: seq<seq<byte>>)
    requires Sized(nals) && nals != []
    ensures Sized(nals[1..]) && |nals[0]| < 0x1_0000
  {
  }

  lemma StreamSize(nals: seq<seq<byte>>)
    requires nals != []
    ensures |Stream(nals)| == |nals[0]| + 4 + |Stream(nals[1..])|
  {
  }

  lemma RoomForOne(nal: seq<byte>, tail: seq<byte>, n: nat, room: nat)
    requires |nal| < 0x1_0000 && n > 0
    ensures Room(U16(|nal|) + (nal + tail), n, room) <==> |nal| + 4 <= room && Room(tail, n - 1, room - |nal| - 4)
  {
    hide U16, U16At, HasUnit, Unit, Behind;
    UnitInFront(nal, tail);
  }

  /** Both calls in a row: the start-code-prefixed sets in order, unless the first SPS ends too early. */
  method MakeThenParse(sps: seq<seq<byte>>, pps: seq<seq<byte>>) returns (stream: Result<seq<byte>>)
    requires 0 < |sps| < 32 && |pps| <= 255 && AllOfType(sps, 7) && AllOfType(pps, 8)
    requires SmallUnits(Escaped(sps + pps)) && |EmulationPrevention.Escape(sps[0], 0)| >= MIN_FIRST_SIZE
    requires Sized(sps) && Sized(pps) && |Stream(sps + pps)| <= CSD_CAPACITY
    ensures stream == if SpsParser.ReadSps(BitReader.BitsOf(sps[0][1..])).Ok? then Ok(Stream(sps + pps)) else Aborted
  {
    TransmittedSetsComeBack(sps, pps);
    hide *;
    RecordRoom(sps[0][1..4], sps, pps);
    var made := MakeAvcCodecSpecificData(Escaped(sps + pps));
    MadeFrom(ParameterSets(sps, pps, sps[0][1..4]));
    match made
    case Ok(m) => stream := ParseAvcCodecSpecificData(m.csd);
    case _ => stream := Aborted;
  }

  lemma MadeFrom(got: ParameterSets)
    requires Writable(got) && |got.sps| < 32 && |got.pps| < 256
    ensures MadeOf(got) == match SpsParser.ReadSps(BitReader.BitsOf(got.sps[0][1..]))
                           case Ok(info, _) => Ok(Made(Record(got.head, got.sps, got.pps), info.profile, info.level))
                           case Fail => Aborted
  {
  }

  lemma ReadPacked(body: seq<byte>, s: SpsSyntax.Sps, behind: seq<bool>)
    requires SpsSyntax.GoodSps(s) && SpsParser.InCodeScope(s) && SpsParser.DimensionsFit(s)
    requires (|SpsSyntax.WriteSps(s)| + |behind|) % 8 == 0 && body == BitReader.BytesOf(SpsSyntax.WriteSps(s) + behind)
    ensures SpsParser.ReadSps(BitReader.BitsOf(body))
         == BitReader.Ok(SpsParser.Info(s.profile, s.level, SpsSyntax.CroppedWidth(s), SpsSyntax.CroppedHeight(s)), behind)
  {
    hide *;
    SpsParser.ParserInStep(s, behind);
    BitReader.BitsOfBytes(SpsSyntax.WriteSps(s) + behind);
  }

  /** From the transmitted unit to the picture: for every parameter set in the scope of the parser, behind
      a unit header and with prevention bytes in a unit of at most 255 bytes, removal and parser return
      profile, level and the cropped width and height. */
  method InfoOfTransmitted(header: byte, body: seq<byte>, ghost s: SpsSyntax.Sps, ghost behind: seq<bool>)
    returns (r: Option<SpsParser.Info>)
    requires SpsSyntax.GoodSps(s) && SpsParser.InCodeScope(s) && SpsParser.DimensionsFit(s)
    requires (|SpsSyntax.WriteSps(s)| + |behind|) % 8 == 0 && body == BitReader.BytesOf(SpsSyntax.WriteSps(s) + behind)
    requires |EmulationPrevention.Escape([header] + body, 0)| <= 255
    ensures r == Some(SpsParser.Info(s.profile, s.level, SpsSyntax.CroppedWidth(s), SpsSyntax.CroppedHeight(s)))
  {
    LeftOfEscaped([header] + body);
    ReadPacked(body, s, behind);
    hide *;
    var unit, _ := RemovePrevention(EmulationPrevention.Escape([header] + body, 0));
    assert unit[1..] == body;
    r := SpsParser.FindInfo(unit);
  }

  /** The unit that carries a parameter set: its header, the bits of the set, the trailing bits, and the
      prevention bytes. */
  function SpsUnit(header: byte, s: SpsSyntax.Sps): seq<byte> {
    var bits := SpsSyntax.WriteSps(s);
    EmulationPrevention.Escape([header] + BitReader.BytesOf(bits + BitReader.TrailingBits(|bits|)), 0)
  }

  method InfoOfUnit(header: byte, s: SpsSyntax.Sps) returns (r: Option<SpsParser.Info>)
    requires SpsSyntax.GoodSps(s) && SpsParser.InCodeScope(s) && SpsParser.DimensionsFit(s)
    requires |SpsUnit(header, s)| <= 255
    ensures r == Some(SpsParser.Info(s.profile, s.level, SpsSyntax.CroppedWidth(s), SpsSyntax.CroppedHeight(s)))
  {
    hide SpsSyntax.WriteSps, BitReader.BytesOf;
    var bits := SpsSyntax.WriteSps(s);
    var trailing := BitReader.TrailingBits(|bits|);
    r := InfoOfTransmitted(header, BitReader.BytesOf(bits + trailing), s, trailing);
  }
}
