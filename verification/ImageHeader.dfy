/** The 512-byte header in front of every image of a modem partition. */
module ImageHeader {
  import Arithmetic
  import opened Common

  const IMG_MAGIC := 0x58881688
  const IMG_NAME_SIZE := 32
  const IMG_HDR_SIZE := 512

  /** The members of the header in their order, and the bytes behind them. */
  datatype Header = Header(
    magic: nat, dsize: nat, name: seq<byte>, maddr: nat, mode: nat,
    extMagic: nat, hdrSize: nat, hdrVersion: nat, imgType: nat, imgListEnd: nat, alignSize: nat,
    dsizeExtend: nat, maddrExtend: nat, behind: seq<byte>)

  ghost predicate WellFormed(h: Header) {
    && h.magic < TWO_32 && h.dsize < TWO_32 && |h.name| == IMG_NAME_SIZE && h.maddr < TWO_32 && h.mode < TWO_32
    && h.extMagic < TWO_32 && h.hdrSize < TWO_32 && h.hdrVersion < TWO_32 && h.imgType < TWO_32
    && h.imgListEnd < TWO_32 && h.alignSize < TWO_32 && h.dsizeExtend < TWO_32 && h.maddrExtend < TWO_32
    && |h.behind| == IMG_HDR_SIZE - 80
  }

  // ---------------------------------------------------------------- bytes

  /** A 32-bit word in memory, its low byte first. */
  function Word(v: nat): (r: seq<byte>)
    ensures |r| == 4
  {
    [v % 0x100, v / 0x100 % 0x100, v / 0x100 / 0x100 % 0x100, v / 0x100 / 0x100 / 0x100 % 0x100]
  }

  /** The header as it lies in memory. */
  function HeaderBytes(h: Header): (r: seq<byte>)
    ensures WellFormed(h) ==> |r| == IMG_HDR_SIZE
  {
    Word(h.magic) + Word(h.dsize) + h.name + Word(h.maddr) + Word(h.mode) + Word(h.extMagic) + Word(h.hdrSize)
    + Word(h.hdrVersion) + Word(h.imgType) + Word(h.imgListEnd) + Word(h.alignSize) + Word(h.dsizeExtend)
    + Word(h.maddrExtend) + h.behind
  }

  /** The bytes begin with the C string `name`; one without a zero byte ends with the bytes. */
  predicate BeginsWithString(s: seq<byte>, name: seq<byte>) {
    0 !in name && name <= s && (|name| < |s| ==> s[|name|] == 0)
  }

  // ---------------------------------------------------------------- reading it

  function U32At(b: seq<byte>, at: nat): (r: nat)
    requires at + 4 <= |b|
    ensures r < TWO_32
  {
    b[at] as int + 0x100 * (b[at + 1] as int) + 0x1_0000 * (b[at + 2] as int) + 0x100_0000 * (b[at + 3] as int)
  }

  /** The C string that starts a byte sequence. */
  function CString(s: seq<byte>): seq<byte> {
    if s == [] || s[0] == 0 then [] else [s[0]] + CString(s[1..])
  }

  /** What the walk looks at. */
  datatype Fields = Fields(magic: nat, dsize: nat, name: seq<byte>, hdrSize: nat, listEnd: bool, alignSize: nat)

  function FieldsOf(b: seq<byte>): Fields
    requires |b| == IMG_HDR_SIZE
  {
    Fields(U32At(b, 0), U32At(b, 4), CString(b[8..]), U32At(b, 52), U32At(b, 64) != 0, U32At(b, 68))
  }

  // ---------------------------------------------------------------- reading undoes writing

  lemma LowByte(v: nat, b: byte, high: nat)
    ensures v == b + 0x100 * high <==> v % 0x100 == b && v / 0x100 == high
  {
    if v == b + 0x100 * high {
      Arithmetic.DivModUnique(v, high, b, 0x100);
    }
  }

  /** A word is read back, and only from its own bytes. */
  lemma WordBack(b: seq<byte>, at: nat, v: nat)
    requires at + 4 <= |b| && v < TWO_32
    ensures U32At(b, at) == v <==> b[at..at + 4] == Word(v)
  {
    var b1, b2, b3 := b[at + 1] as int, b[at + 2] as int, b[at + 3] as int;
    var v1 := v / 0x100;
    var v2 := v1 / 0x100;
    var v3 := v2 / 0x100;
    LowByte(v, b[at], b1 + 0x100 * (b2 + 0x100 * b3));
    LowByte(v1, b[at + 1], b2 + 0x100 * b3);
    LowByte(v2, b[at + 2], b3);
    LowByte(v3, b[at + 3], 0);
    var w := b[at..at + 4];
    assert w == [b[at], b[at + 1], b[at + 2], b[at + 3]];
    assert U32At(b, at) == b[at] + 0x100 * (b1 + 0x100 * (b2 + 0x100 * b3));
    assert v3 < 0x100;
  }

  lemma {:induction false} StringBack(s: seq<byte>, name: seq<byte>)
    ensures CString(s) == name <==> BeginsWithString(s, name)
  {
    if s == [] || s[0] == 0 {
    } else if name != [] {
      StringBack(s[1..], name[1..]);
      assert CString(s) == [s[0]] + CString(s[1..]);
      assert name == [name[0]] + name[1..];
    }
  }

  /** Where the members that are read lie. */
  lemma MembersAt(h: Header)
    requires WellFormed(h)
    ensures var b := HeaderBytes(h);
            && |b| == IMG_HDR_SIZE && b[0..4] == Word(h.magic) && b[4..8] == Word(h.dsize) && b[8..40] == h.name
            && b[52..56] == Word(h.hdrSize) && b[64..68] == Word(h.imgListEnd) && b[68..72] == Word(h.alignSize)
  {
    hide Word;
  }

  /** Reading a header yields what was written into it. */
  lemma FieldsBack(h: Header, name: seq<byte>)
    requires WellFormed(h) && BeginsWithString(HeaderBytes(h)[8..], name)
    ensures FieldsOf(HeaderBytes(h)) == Fields(h.magic, h.dsize, name, h.hdrSize, h.imgListEnd != 0, h.alignSize)
  {
    var b := HeaderBytes(h);
    MembersAt(h);
    assert h.magic < TWO_32 && h.dsize < TWO_32 && h.hdrSize < TWO_32 && h.imgListEnd < TWO_32 && h.alignSize < TWO_32;
    hide HeaderBytes, WellFormed, Word, U32At, CString, BeginsWithString;
    WordBack(b, 0, h.magic);
    WordBack(b, 4, h.dsize);
    WordBack(b, 52, h.hdrSize);
    WordBack(b, 64, h.imgListEnd);
    WordBack(b, 68, h.alignSize);
    StringBack(b[8..], name);
  }

  /** Every 512 bytes are a header. */
  function HeaderOf(b: seq<byte>): (h: Header)
    requires |b| == IMG_HDR_SIZE
    ensures WellFormed(h)
  {
    Header(U32At(b, 0), U32At(b, 4), b[8..40], U32At(b, 40), U32At(b, 44), U32At(b, 48), U32At(b, 52), U32At(b, 56),
           U32At(b, 60), U32At(b, 64), U32At(b, 68), U32At(b, 72), U32At(b, 76), b[80..])
  }

  lemma EveryHeader(b: seq<byte>)
    requires |b| == IMG_HDR_SIZE
    ensures HeaderBytes(HeaderOf(b)) == b
  {
    hide Word, U32At;
    forall at | 0 <= at && at + 4 <= |b|
      ensures Word(U32At(b, at)) == b[at..at + 4]
    {
      WordBack(b, at, U32At(b, at));
    }
    assert b == b[0..4] + b[4..8] + b[8..40] + b[40..44] + b[44..48] + b[48..52] + b[52..56] + b[56..60] + b[60..64]
                + b[64..68] + b[68..72] + b[72..76] + b[76..80] + b[80..];
  }
}
