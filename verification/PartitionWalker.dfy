/** The walk over the image headers of a modem partition. */
module PartitionWalker {
  import Arithmetic
  import opened BitMask
  import opened Common
  import opened ImageHeader

  const SEC_IMG_AUTH_SIZE := 0x100
  const SEC_IMG_AUTH_ALIGN := 0x1000

  // ---------------------------------------------------------------- headers on the disk

  /** A full header can be read at an offset. */
  predicate Full(disk: seq<byte>, at: int) {
    0 <= at && at + IMG_HDR_SIZE <= |disk|
  }

  function FieldsAt(disk: seq<byte>, at: int): Fields
    requires Full(disk, at)
  {
    FieldsOf(disk[at..at + IMG_HDR_SIZE])
  }

  // ---------------------------------------------------------------- layout

  /** An image of the list: its header fields and whether signature padding precedes its header. */
  datatype Image = Image(name: seq<byte>, dsize: nat, alignSize: nat, hdrSize: nat, padded: bool)

  /** How the list ends: with an image marked last, in a short read, or at a bad magic. */
  datatype Tail = Last | Truncated | BadMagic

  /** Header and data, the data rounded up to the image's alignment. */
  function Span(img: Image): nat {
    (if img.hdrSize != 0 then img.hdrSize else IMG_HDR_SIZE) + Rounded(img.dsize, img.alignSize)
  }

  function Padding(span: nat): nat {
    RoundUp(span, SEC_IMG_AUTH_ALIGN) - span + SEC_IMG_AUTH_SIZE
  }

  /** Zero or a power of two. */
  ghost predicate GoodAlignment(a: nat) {
    a == 0 || exists k: nat :: k < 32 && a == Pow2(k)
  }

  /** Offset of the header of an image when the previous image ended at `end` with padding `pad`. */
  function HeaderPos(img: Image, end: nat, pad: nat): nat {
    end + if img.padded then pad else 0
  }

  /** The bytes at an offset are a header of this image. */
  ghost predicate HeaderIs(disk: seq<byte>, at: nat, img: Image, last: bool) {
    Full(disk, at) && exists h: Header :: HeaderFor(h, img, last) && disk[at..at + 512] == HeaderBytes(h)
  }

  ghost predicate HeaderFor(h: Header, img: Image, last: bool) {
    && WellFormed(h) && h.magic == IMG_MAGIC && h.dsize == img.dsize && h.hdrSize == img.hdrSize
    && h.alignSize == img.alignSize && (h.imgListEnd != 0 <==> last) && BeginsWithString(HeaderBytes(h)[8..], img.name)
  }

  /** A header can be read at an offset, but does not begin with the image magic. */
  predicate NoMagic(disk: seq<byte>, at: nat) {
    Full(disk, at) && disk[at..at + 4] != Word(IMG_MAGIC)
  }

  lemma HeaderRead(disk: seq<byte>, at: nat, img: Image, last: bool)
    requires HeaderIs(disk, at, img, last)
    ensures Full(disk, at)
    ensures FieldsAt(disk, at) == Fields(IMG_MAGIC, img.dsize, img.name, img.hdrSize, last, img.alignSize)
    ensures img.dsize < TWO_32 && !NoMagic(disk, at)
  {
    var h: Header :| HeaderFor(h, img, last) && disk[at..at + 512] == HeaderBytes(h);
    FieldsBack(h, img.name);
    MagicRead(disk, at);
  }

  lemma MagicRead(disk: seq<byte>, at: nat)
    requires Full(disk, at)
    ensures NoMagic(disk, at) <==> FieldsAt(disk, at).magic != IMG_MAGIC
  {
    hide Word, U32At;
    var b := disk[at..at + IMG_HDR_SIZE];
    WordBack(b, 0, IMG_MAGIC);
    assert b[0..4] == disk[at..at + 4];
  }

  /** The list of images from offset `end` on.  A padded image has no image magic at the unpadded
      position; offsets stay within a C int; alignments are powers of two. */
  ghost predicate LaidOut(disk: seq<byte>, imgs: seq<Image>, tail: Tail, end: nat, pad: nat) {
    && end + pad < INT_LIMIT
    && if imgs == [] then
         match tail
         case Last => false
         case Truncated => !Full(disk, end) || (NoMagic(disk, end) && !Full(disk, end + pad))
         case BadMagic => NoMagic(disk, end) && NoMagic(disk, end + pad)
       else
         var img := imgs[0];
         var at := HeaderPos(img, end, pad);
         var last := |imgs| == 1 && tail.Last?;
         && (img.padded ==> NoMagic(disk, end))
         && at + IMG_HDR_SIZE < INT_LIMIT
         && HeaderIs(disk, at, img, last)
         && GoodAlignment(img.alignSize)
         && (last || (at + Span(img) + SEC_IMG_AUTH_ALIGN < INT_LIMIT
                      && LaidOut(disk, imgs[1..], tail, at + Span(img), Padding(Span(img)))))
  }

  /** The first image with the given name: its offset in the partition and its entry. */
  datatype Found = Absent | At(header: nat, img: Image)

  function FirstNamed(imgs: seq<Image>, name: seq<byte>, end: nat, pad: nat): (r: Found)
    ensures r.Absent? <==> forall i :: 0 <= i < |imgs| ==> imgs[i].name != name
    ensures r.At? ==> r.img in imgs && r.img.name == name
  {
    if imgs == [] then Absent
    else
      var at := HeaderPos(imgs[0], end, pad);
      if imgs[0].name == name then At(at, imgs[0])
      else FirstNamed(imgs[1..], name, at + Span(imgs[0]), Padding(Span(imgs[0])))
  }

  lemma {:induction false} FirstNamedIsFirst(imgs: seq<Image>, name: seq<byte>, end: nat, pad: nat, i: nat)
    requires i < |imgs| && imgs[i].name == name && forall j :: 0 <= j < i ==> imgs[j].name != name
    ensures FirstNamed(imgs, name, end, pad).At? && FirstNamed(imgs, name, end, pad).img == imgs[i]
  {
    if i > 0 {
      FirstNamedIsFirst(imgs[1..], name, HeaderPos(imgs[0], end, pad) + Span(imgs[0]), Padding(Span(imgs[0])), i - 1);
    }
  }

  // ---------------------------------------------------------------- the walk

  /** The data size rounded up to the alignment, as the code computes it. */
  function BodySize(f: Fields): int {
    if 0 < f.alignSize < TWO_32 then ToInt(MaskedRound(f.dsize, f.alignSize)) else ToInt(f.dsize)
  }

  /** The distance to the next header, as the code computes it. */
  function NextDistance(f: Fields): (r: int)
    ensures -INT_LIMIT <= r < INT_LIMIT
  {
    ToInt((if f.hdrSize != 0 then f.hdrSize else IMG_HDR_SIZE) + BodySize(f))
  }

  /** The padding behind a distance, as the code computes it on 32-bit words. */
  function SecPadding(distance: int): int {
    ToInt(MaskedRound(distance % TWO_32, SEC_IMG_AUTH_ALIGN)) - distance + SEC_IMG_AUTH_SIZE
  }

  lemma RoundedBounds(img: Image)
    ensures img.dsize <= Span(img) && img.hdrSize <= Span(img) && Span(img) > 0
    ensures img.dsize <= Rounded(img.dsize, img.alignSize) <= Span(img)
  {
    if img.alignSize > 0 {
      RoundUpIsLeast(img.dsize, img.alignSize);
    }
  }

  /** The mask expressions are least multiples, so the distance is the span of the image. */
  lemma DistanceIsSpan(img: Image, f: Fields)
    requires f.dsize == img.dsize < TWO_32 && f.hdrSize == img.hdrSize && f.alignSize == img.alignSize
    requires GoodAlignment(img.alignSize) && Span(img) < INT_LIMIT
    ensures NextDistance(f) == Span(img)
  {
    RoundedBounds(img);
    BodyIsRounded(f);
  }

  function Rounded(dsize: nat, align: nat): nat {
    if align != 0 then RoundUp(dsize, align) else dsize
  }

  lemma BodyIsRounded(f: Fields)
    requires GoodAlignment(f.alignSize) && f.dsize < INT_LIMIT && Rounded(f.dsize, f.alignSize) < INT_LIMIT
    ensures BodySize(f) == Rounded(f.dsize, f.alignSize)
  {
    if f.alignSize != 0 {
      MaskedIsRounded(f.dsize, f.alignSize);
    }
  }

  lemma MaskedIsRounded(dsize: nat, align: nat)
    requires GoodAlignment(align) && align > 0 && dsize < INT_LIMIT
    ensures align < TWO_32 && MaskedRound(dsize, align) == RoundUp(dsize, align)
  {
    var k: nat :| k < 32 && align == Pow2(k);
    HalfWord(k);
    MaskIsRoundUp(dsize, align, k);
  }

  lemma HalfWord(k: nat)
    requires k < 32
    ensures Pow2(k) <= INT_LIMIT
  {
    Pow2At32();
    Pow2Splits(k, 31);
    assert Pow2(32) == 2 * Pow2(31);
    Arithmetic.ProductMonotone(Pow2(k), 1, Pow2(31 - k));
  }

  lemma PaddingComputed(span: nat)
    requires span + SEC_IMG_AUTH_ALIGN <= INT_LIMIT
    ensures SecPadding(span) == Padding(span) && SEC_IMG_AUTH_SIZE <= Padding(span) < SEC_IMG_AUTH_ALIGN + SEC_IMG_AUTH_SIZE
  {
    assert span % TWO_32 == span by { Arithmetic.DivModUnique(span, 0, span, TWO_32); }
    hide MaskedRound, RoundUp;
    Pow2Is4096();
    MaskIsRoundUp(span, SEC_IMG_AUTH_ALIGN, 12);
    RoundUpIsLeast(span, SEC_IMG_AUTH_ALIGN);
  }

  lemma Pow2Is4096()
    ensures Pow2(12) == SEC_IMG_AUTH_ALIGN
  {
    assert Pow2(6) == 64;
    Pow2Splits(6, 12);
  }

  /** Negative distances are rounded up as words too, so a padding is always between the two sizes. */
  lemma PaddingInRange(distance: int)
    requires -INT_LIMIT <= distance && distance + SEC_IMG_AUTH_ALIGN <= INT_LIMIT
    ensures SEC_IMG_AUTH_SIZE <= SecPadding(distance) < SEC_IMG_AUTH_ALIGN + SEC_IMG_AUTH_SIZE
  {
    if distance >= 0 {
      PaddingComputed(distance);
    } else {
      Arithmetic.DivModUnique(distance, -1, distance + TWO_32, TWO_32);
      hide MaskedRound;
      WordRoundedUp(distance);
    }
  }

  lemma WordRoundedUp(distance: int)
    requires -INT_LIMIT <= distance < 0
    ensures distance <= ToInt(MaskedRound(distance + TWO_32, SEC_IMG_AUTH_ALIGN)) < distance + SEC_IMG_AUTH_ALIGN
  {
    var w := distance + TWO_32;
    Pow2Is4096();
    if w + SEC_IMG_AUTH_ALIGN - 1 < TWO_32 {
      hide MaskedRound, RoundUp;
      MaskIsRoundUp(w, SEC_IMG_AUTH_ALIGN, 12);
      RoundUpIsLeast(w, SEC_IMG_AUTH_ALIGN);
    } else {
      var sum := distance + SEC_IMG_AUTH_ALIGN - 1;
      Arithmetic.DivModUnique(w + SEC_IMG_AUTH_ALIGN - 1, 1, sum, TWO_32);
      hide And;
      ClearLow32(sum, 12);
      Arithmetic.DivModUnique(sum, 0, sum, SEC_IMG_AUTH_ALIGN);
    }
  }

  // ---------------------------------------------------------------- the walk over any partition

  /** Where the walk stands: it goes on at an offset with a padding, or has ended with a code, or a signed sum
      has overflowed, to which C gives no meaning. */
  datatype Walk = Go(offset: nat, pad: nat) | Stop(code: int, found: int, size: int) | Overflow

  /** What a readable header with the magic leads to. */
  function AtHeader(disk: seq<byte>, name: seq<byte>, at: nat): Walk
    requires Full(disk, at)
  {
    var f := FieldsAt(disk, at);
    if f.name == name then
      if at + IMG_HDR_SIZE < INT_LIMIT then Stop(0, at + IMG_HDR_SIZE, ToInt(f.dsize)) else Overflow
    else if f.listEnd then Stop(-7, at, 0)
    else
      var distance := NextDistance(f);
      if distance + SEC_IMG_AUTH_ALIGN > INT_LIMIT || at + distance >= INT_LIMIT then Overflow
      else if at + distance < 0 then Stop(-1, at + distance, 0)
      else
        PaddingInRange(distance);
        Go(at + distance, SecPadding(distance))
  }

  /** One turn of the loop, over any partition. */
  function Turn(disk: seq<byte>, name: seq<byte>, offset: nat, pad: nat): Walk {
    if !Full(disk, offset) then Stop(-5, offset, 0)
    else if !NoMagic(disk, offset) then AtHeader(disk, name, offset)
    else if offset + pad >= INT_LIMIT then Overflow
    else if !Full(disk, offset + pad) then Stop(-5, offset + pad, 0)
    else if NoMagic(disk, offset + pad) then Stop(-6, offset + pad, 0)
    else AtHeader(disk, name, offset + pad)
  }

  function OneTurn(disk: seq<byte>, name: seq<byte>, w: Walk): Walk {
    match w
    case Go(offset, pad) => Turn(disk, name, offset, pad)
    case _ => w
  }

  /** n turns of the loop. */
  function Turns(disk: seq<byte>, name: seq<byte>, w: Walk, n: nat): Walk
    decreases n
  {
    if n == 0 then w else Turns(disk, name, OneTurn(disk, name, w), n - 1)
  }

  const BEGIN := Go(0, 0)

  /** Reads one header; a short read gives nothing. */
  method ReadHeader(disk: seq<byte>, at: int) returns (h: seq<byte>)
    ensures |h| == IMG_HDR_SIZE <==> Full(disk, at)
    ensures Full(disk, at) ==> h == disk[at..at + IMG_HDR_SIZE] && (FieldsOf(h).magic != IMG_MAGIC <==> NoMagic(disk, at))
  {
    if Full(disk, at) {
      MagicRead(disk, at);
      h := disk[at..at + IMG_HDR_SIZE];
    } else {
      h := [];
    }
  }

  /** The header at an offset or, when no image magic is found there, behind the padding. */
  method LocateHeader(disk: seq<byte>, offset: nat, pad: nat) returns (code: int, at: nat, f: Fields)
    ensures code == -5 <==> !Full(disk, offset) || (NoMagic(disk, offset) && !Full(disk, offset + pad))
    ensures code == -6 <==> NoMagic(disk, offset) && NoMagic(disk, offset + pad)
    ensures code == 0 || code == -5 || code == -6
    ensures code != 0 ==> at == if Full(disk, offset) then offset + pad else offset
    ensures code == 0 ==> at == offset + (if NoMagic(disk, offset) then pad else 0) && Full(disk, at) && f == FieldsAt(disk, at)
  {
    at, f := offset, Fields(0, 0, [], 0, false, 0);
    var h := ReadHeader(disk, at);
    if |h| != IMG_HDR_SIZE {
      return -5, at, f;
    }
    if FieldsOf(h).magic != IMG_MAGIC {
      at := at + pad;
      h := ReadHeader(disk, at);
      if |h| != IMG_HDR_SIZE {
        return -5, at, f;
      }
      if FieldsOf(h).magic != IMG_MAGIC {
        return -6, at, f;
      }
    }
    return 0, at, FieldsOf(h);
  }

  /** The walk over any partition, on which it ends after the given number of turns: the code, offset and
      size are those of its last turn. */
  method FindImage(disk: seq<byte>, name: seq<byte>, ghost turns: nat) returns (ret: int, offset: int, size: int)
    requires Turns(disk, name, BEGIN, turns).Stop?
    ensures Turns(disk, name, BEGIN, turns) == Stop(ret, offset, size)
    ensures ret == 0 || ret == -1 || ret == -5 || ret == -6 || ret == -7
    ensures ret == -1 <==> offset < 0
  {
    hide FieldsOf, NextDistance, SecPadding, Turns;
    offset, size := 0, 0;
    var secPaddingSize: int := 0;
    ghost var left := turns;
    while true
      invariant offset >= 0 && secPaddingSize >= 0
      invariant Turns(disk, name, Go(offset, secPaddingSize), left) == Turns(disk, name, BEGIN, turns)
      decreases left
    {
      FirstTurn(disk, name, Go(offset, secPaddingSize), left);
      var code, at, f := LocateHeader(disk, offset, secPaddingSize);
      if code != 0 {
        return code, at, size;
      }
      if name == f.name {
        return 0, at + IMG_HDR_SIZE, ToInt(f.dsize);
      }
      if f.listEnd {
        return -7, at, size;
      }
      var currImgSize := NextDistance(f);
      offset := at + currImgSize;
      if offset < 0 {
        return -1, offset, size;
      }
      secPaddingSize := SecPadding(currImgSize);
      left := left - 1;
    }
  }

  /** A walk that still ends has a first turn, and an ended one stays as it is. */
  lemma FirstTurn(disk: seq<byte>, name: seq<byte>, w: Walk, n: nat)
    requires w.Go? && Turns(disk, name, w, n).Stop?
    ensures n > 0 && Turns(disk, name, w, n) == Turns(disk, name, OneTurn(disk, name, w), n - 1)
    ensures !OneTurn(disk, name, w).Go? ==> Turns(disk, name, w, n) == OneTurn(disk, name, w)
  {
    if !OneTurn(disk, name, w).Go? {
      EndStays(disk, name, OneTurn(disk, name, w), n - 1);
    }
  }

  lemma {:induction false} EndStays(disk: seq<byte>, name: seq<byte>, w: Walk, n: nat)
    requires !w.Go?
    ensures Turns(disk, name, w, n) == w
  {
    if n > 0 {
      EndStays(disk, name, w, n - 1);
    }
  }

  // ---------------------------------------------------------------- when it ends

  lemma {:induction false} LastTurn(disk: seq<byte>, name: seq<byte>, w: Walk, n: nat)
    ensures Turns(disk, name, w, n + 1) == OneTurn(disk, name, Turns(disk, name, w, n))
    decreases n
  {
    hide OneTurn;
    if n > 0 {
      LastTurn(disk, name, OneTurn(disk, name, w), n - 1);
    }
  }

  /** Every header the walk may pass leads forward. */
  ghost predicate Forward(disk: seq<byte>, name: seq<byte>) {
    forall at: nat :: Full(disk, at) && !NoMagic(disk, at) ==> LeadsOn(FieldsAt(disk, at), name)
  }

  predicate LeadsOn(f: Fields, name: seq<byte>) {
    f.name == name || f.listEnd || NextDistance(f) > 0
  }

  /** The walk ends on every partition whose headers all lead forward: the offset strictly grows until
      nothing can be read. */
  lemma {:induction false} ForwardEnds(disk: seq<byte>, name: seq<byte>, offset: nat, pad: nat) returns (n: nat)
    requires Forward(disk, name)
    ensures !Turns(disk, name, Go(offset, pad), n).Go?
    decreases if offset < |disk| then |disk| - offset else 0
  {
    hide FieldsOf, NextDistance, SecPadding;
    var next := Turn(disk, name, offset, pad);
    if next.Go? {
      n := ForwardEnds(disk, name, next.offset, next.pad);
    } else {
      n := 0;
    }
    n := n + 1;
  }

  /** A first header that leads nowhere is read again and again. */
  lemma {:induction false} StandsStill(disk: seq<byte>, name: seq<byte>, n: nat)
    requires Full(disk, 0) && !NoMagic(disk, 0)
    requires FieldsAt(disk, 0).name != name && !FieldsAt(disk, 0).listEnd && NextDistance(FieldsAt(disk, 0)) == 0
    ensures Turns(disk, name, BEGIN, n).Go? && Turns(disk, name, BEGIN, n).offset == 0
  {
    hide FieldsOf, NextDistance, SecPadding;
    if n > 0 {
      StandsStill(disk, name, n - 1);
      LastTurn(disk, name, BEGIN, n - 1);
    }
  }

  /** Such a header: the data size that wraps the sum with the header size to zero. */
  lemma WrappedDistance(name: seq<byte>)
    ensures NextDistance(Fields(IMG_MAGIC, 0xFFFF_FE00, name, 512, false, 0)) == 0
  {
  }

  /** The walk comes back to where it has been. */
  ghost predicate Repeats(disk: seq<byte>, name: seq<byte>, i: nat, j: nat) {
    i < j && Turns(disk, name, BEGIN, i).Go? && Turns(disk, name, BEGIN, i) == Turns(disk, name, BEGIN, j)
  }

  /** After some number of turns the walk does not go on. */
  ghost predicate Ends(disk: seq<byte>, name: seq<byte>) {
    exists n: nat :: !Turns(disk, name, BEGIN, n).Go?
  }

  /** Over every partition, the walk ends exactly if it never comes back to an offset with the same padding. */
  lemma EndsUnlessItRepeats(disk: seq<byte>, name: seq<byte>)
    ensures Ends(disk, name) <==> forall i: nat, j: nat :: !Repeats(disk, name, i, j)
  {
    if i: nat, j: nat :| Repeats(disk, name, i, j) {
      forall n: nat
        ensures Turns(disk, name, BEGIN, n).Go?
      {
        RepeatsForever(disk, name, i, j, n);
      }
    } else if !Ends(disk, name) {
      var n := |Places()| + 1;
      SeenAreDistinct(disk, name, n);
      SetFits(Seen(disk, name, n), Places());
      assert false;
    }
  }

  lemma {:induction false} SameAfter(disk: seq<byte>, name: seq<byte>, i: nat, j: nat, m: nat)
    requires Turns(disk, name, BEGIN, i) == Turns(disk, name, BEGIN, j)
    ensures Turns(disk, name, BEGIN, i + m) == Turns(disk, name, BEGIN, j + m)
  {
    hide OneTurn, Turns;
    if m > 0 {
      SameAfter(disk, name, i, j, m - 1);
      LastTurn(disk, name, BEGIN, i + m - 1);
      LastTurn(disk, name, BEGIN, j + m - 1);
    }
  }

  lemma {:induction false} GoBefore(disk: seq<byte>, name: seq<byte>, m: nat, n: nat)
    requires m <= n && Turns(disk, name, BEGIN, n).Go?
    ensures Turns(disk, name, BEGIN, m).Go?
    decreases n - m
  {
    hide Turn, Turns;
    if m < n {
      LastTurn(disk, name, BEGIN, n - 1);
      GoBefore(disk, name, m, n - 1);
    }
  }

  lemma {:induction false} RepeatsForever(disk: seq<byte>, name: seq<byte>, i: nat, j: nat, n: nat)
    requires Repeats(disk, name, i, j)
    ensures Turns(disk, name, BEGIN, n).Go?
  {
    if n <= j {
      GoBefore(disk, name, n, j);
    } else {
      RepeatsForever(disk, name, i, j, n - (j - i));
      SameAfter(disk, name, i, j, n - j);
      assert i + (n - j) == n - (j - i);
    }
  }

  /** All places a walk may be at. */
  ghost function Places(): set<(int, int)> {
    set o: int, p: int | 0 <= o < INT_LIMIT && 0 <= p < SEC_IMG_AUTH_ALIGN + SEC_IMG_AUTH_SIZE :: (o, p)
  }

  ghost function PlaceAt(disk: seq<byte>, name: seq<byte>, n: nat): (int, int) {
    match Turns(disk, name, BEGIN, n)
    case Go(offset, pad) => (offset as int, pad as int)
    case _ => (-1, -1)
  }

  ghost function Seen(disk: seq<byte>, name: seq<byte>, n: nat): set<(int, int)> {
    set i: nat | i < n :: PlaceAt(disk, name, i)
  }

  lemma {:induction false} PlaceIsKnown(disk: seq<byte>, name: seq<byte>, n: nat)
    requires Turns(disk, name, BEGIN, n).Go?
    ensures PlaceAt(disk, name, n) in Places()
  {
    hide FieldsOf, NextDistance, SecPadding;
    if n > 0 {
      LastTurn(disk, name, BEGIN, n - 1);
      var before := Turns(disk, name, BEGIN, n - 1);
      PlaceAfter(disk, name, before.offset, before.pad);
    }
  }

  lemma PlaceAfter(disk: seq<byte>, name: seq<byte>, offset: nat, pad: nat)
    ensures var w := Turn(disk, name, offset, pad);
            w.Go? ==> w.offset < INT_LIMIT && w.pad < SEC_IMG_AUTH_ALIGN + SEC_IMG_AUTH_SIZE
  {
    hide FieldsOf, NextDistance, SecPadding;
    if Full(disk, offset) {
      var at := if NoMagic(disk, offset) then offset + pad else offset;
      if Full(disk, at) && NextDistance(FieldsAt(disk, at)) + SEC_IMG_AUTH_ALIGN <= INT_LIMIT {
        PaddingInRange(NextDistance(FieldsAt(disk, at)));
      }
    }
  }

  lemma SamePlaceRepeats(disk: seq<byte>, name: seq<byte>, i: nat, j: nat)
    requires i < j && Turns(disk, name, BEGIN, i).Go? && Turns(disk, name, BEGIN, j).Go?
    requires PlaceAt(disk, name, i) == PlaceAt(disk, name, j)
    ensures Repeats(disk, name, i, j)
  {
    hide Turns;
  }

  lemma {:induction false} SeenAreDistinct(disk: seq<byte>, name: seq<byte>, n: nat)
    requires forall k: nat :: k < n ==> Turns(disk, name, BEGIN, k).Go?
    requires forall i, j :: !Repeats(disk, name, i, j)
    ensures |Seen(disk, name, n)| == n && Seen(disk, name, n) <= Places()
  {
    hide Turns, Places;
    if n == 0 {
      assert Seen(disk, name, 0) == {};
    } else {
      SeenAreDistinct(disk, name, n - 1);
      PlaceIsKnown(disk, name, n - 1);
      assert Seen(disk, name, n) == Seen(disk, name, n - 1) + {PlaceAt(disk, name, n - 1)};
      if PlaceAt(disk, name, n - 1) in Seen(disk, name, n - 1) {
        var i: nat :| i < n - 1 && PlaceAt(disk, name, i) == PlaceAt(disk, name, n - 1);
        SamePlaceRepeats(disk, name, i, n - 1);
        assert false;
      }
    }
  }

  lemma {:induction false} SetFits(a: set<(int, int)>, b: set<(int, int)>)
    requires a <= b
    ensures |a| <= |b|
  {
    if a != {} {
      var x :| x in a;
      SetFits(a - {x}, b - {x});
    }
  }

  // ---------------------------------------------------------------- laid-out lists

  /** What LocateHeader finds in a list of images. */
  lemma HeaderFound(disk: seq<byte>, imgs: seq<Image>, tail: Tail, end: nat, pad: nat)
    requires LaidOut(disk, imgs, tail, end, pad)
    ensures end + pad < INT_LIMIT
    ensures imgs != [] ==>
              && HeaderIs(disk, HeaderPos(imgs[0], end, pad), imgs[0], |imgs| == 1 && tail.Last?)
              && HeaderPos(imgs[0], end, pad) == end + (if NoMagic(disk, end) then pad else 0)
              && Full(disk, end) && Full(disk, HeaderPos(imgs[0], end, pad)) && imgs[0].dsize < TWO_32
              && FieldsAt(disk, HeaderPos(imgs[0], end, pad))
                 == Fields(IMG_MAGIC, imgs[0].dsize, imgs[0].name, imgs[0].hdrSize, |imgs| == 1 && tail.Last?, imgs[0].alignSize)
              && !NoMagic(disk, HeaderPos(imgs[0], end, pad))
              && HeaderPos(imgs[0], end, pad) + IMG_HDR_SIZE < INT_LIMIT
    ensures imgs == [] ==>
              match tail
              case Last => false
              case Truncated => !Full(disk, end) || (NoMagic(disk, end) && !Full(disk, end + pad))
              case BadMagic => NoMagic(disk, end) && NoMagic(disk, end + pad)
  {
    hide FieldsOf, HeaderIs;
    if imgs != [] {
      HeaderRead(disk, HeaderPos(imgs[0], end, pad), imgs[0], |imgs| == 1 && tail.Last?);
    }
  }

  lemma DistancesOf(img: Image, f: Fields)
    requires f.dsize == img.dsize && f.hdrSize == img.hdrSize && f.alignSize == img.alignSize
    requires GoodAlignment(img.alignSize) && Span(img) + SEC_IMG_AUTH_ALIGN < INT_LIMIT
    ensures NextDistance(f) == Span(img) > 0 && SecPadding(Span(img)) == Padding(Span(img)) >= 0
  {
    hide Span, NextDistance, SecPadding, Padding, GoodAlignment, Rounded, RoundUp;
    RoundedBounds(img);
    DistanceIsSpan(img, f);
    PaddingComputed(Span(img));
  }

  /** Behind an image that is not the last, the list goes on where the code looks next. */
  lemma NextImage(disk: seq<byte>, imgs: seq<Image>, tail: Tail, end: nat, pad: nat)
    requires LaidOut(disk, imgs, tail, end, pad) && imgs != [] && !(|imgs| == 1 && tail.Last?)
    ensures var at := HeaderPos(imgs[0], end, pad);
            && Full(disk, at)
            && var distance := NextDistance(FieldsAt(disk, at));
               && distance == Span(imgs[0]) > 0 && at + distance + SEC_IMG_AUTH_ALIGN < INT_LIMIT
               && SecPadding(distance) == Padding(distance) >= 0
               && LaidOut(disk, imgs[1..], tail, at + distance, Padding(distance))
  {
    NextInList(disk, imgs, tail, end, pad);
    var img, at := imgs[0], HeaderPos(imgs[0], end, pad);
    var f := FieldsAt(disk, at);
    assert f.dsize == img.dsize && f.hdrSize == img.hdrSize && f.alignSize == img.alignSize;
    hide LaidOut, HeaderPos, Full, FieldsAt, Span, NextDistance, SecPadding, Padding, GoodAlignment;
    DistancesOf(img, f);
  }

  /** What the layout says about an image that is not the last. */
  lemma NextInList(disk: seq<byte>, imgs: seq<Image>, tail: Tail, end: nat, pad: nat)
    requires LaidOut(disk, imgs, tail, end, pad) && imgs != [] && !(|imgs| == 1 && tail.Last?)
    ensures var img, at := imgs[0], HeaderPos(imgs[0], end, pad);
            && Full(disk, at) && GoodAlignment(img.alignSize)
            && FieldsAt(disk, at) == Fields(IMG_MAGIC, img.dsize, img.name, img.hdrSize, false, img.alignSize)
            && at + Span(img) + SEC_IMG_AUTH_ALIGN < INT_LIMIT
            && LaidOut(disk, imgs[1..], tail, at + Span(img), Padding(Span(img)))
  {
    hide Span, Padding, FieldsOf;
    HeaderRead(disk, HeaderPos(imgs[0], end, pad), imgs[0], false);
  }

  lemma TurnAtEnd(disk: seq<byte>, imgs: seq<Image>, tail: Tail, end: nat, pad: nat, name: seq<byte>)
    requires LaidOut(disk, imgs, tail, end, pad) && imgs == []
    ensures var w := Turn(disk, name, end, pad);
            w.Stop? && w.code == match tail case Last => -7 case Truncated => -5 case BadMagic => -6
  {
    hide AtHeader, Word;
  }

  lemma AtListedHeader(disk: seq<byte>, imgs: seq<Image>, tail: Tail, end: nat, pad: nat, name: seq<byte>)
    requires LaidOut(disk, imgs, tail, end, pad) && imgs != []
    ensures var at := HeaderPos(imgs[0], end, pad);
            && Full(disk, at)
            && AtHeader(disk, name, at) == if imgs[0].name == name then Stop(0, at + IMG_HDR_SIZE, ToInt(imgs[0].dsize))
                                           else if |imgs| == 1 && tail.Last? then Stop(-7, at, 0)
                                           else Go(at + Span(imgs[0]), Padding(Span(imgs[0])))
  {
    hide LaidOut, HeaderIs, FieldsAt, Full, NoMagic, Span, Padding, NextDistance, SecPadding;
    HeaderFound(disk, imgs, tail, end, pad);
    if imgs[0].name != name && !(|imgs| == 1 && tail.Last?) {
      NextImage(disk, imgs, tail, end, pad);
    }
  }

  /** One turn of the walk over a laid-out list. */
  lemma TurnInList(disk: seq<byte>, imgs: seq<Image>, tail: Tail, end: nat, pad: nat, name: seq<byte>)
    requires LaidOut(disk, imgs, tail, end, pad)
    ensures var w := Turn(disk, name, end, pad);
            if imgs == [] then w.Stop? && w.code == match tail case Last => -7 case Truncated => -5 case BadMagic => -6
            else var at := HeaderPos(imgs[0], end, pad);
                 if imgs[0].name == name then w == Stop(0, at + IMG_HDR_SIZE, ToInt(imgs[0].dsize))
                 else if |imgs| == 1 && tail.Last? then w == Stop(-7, at, 0)
                 else w == Go(at + Span(imgs[0]), Padding(Span(imgs[0])))
  {
    hide LaidOut, AtHeader, Full, NoMagic, Span, Padding, FieldsAt, HeaderIs;
    if imgs == [] {
      TurnAtEnd(disk, imgs, tail, end, pad, name);
    } else {
      HeaderFound(disk, imgs, tail, end, pad);
      AtListedHeader(disk, imgs, tail, end, pad, name);
    }
  }

  /** On a laid-out list the walk ends: 0 with offset and size of the first image of that name, or -7 when
      the list ends without it, -5 at a short read, -6 at a bad magic. */
  lemma {:induction false} ListedEnds(disk: seq<byte>, imgs: seq<Image>, tail: Tail, end: nat, pad: nat, name: seq<byte>)
    returns (n: nat)
    requires LaidOut(disk, imgs, tail, end, pad)
    ensures var w, found := Turns(disk, name, Go(end, pad), n), FirstNamed(imgs, name, end, pad);
            if found.At? then w == Stop(0, found.header + IMG_HDR_SIZE, ToInt(found.img.dsize))
            else w.Stop? && w.code == match tail case Last => -7 case Truncated => -5 case BadMagic => -6
    decreases |imgs|
  {
    hide LaidOut, Turn, Span, Padding, HeaderPos, HeaderIs, Full, NoMagic, FieldsAt, NextDistance, SecPadding, Word;
    TurnInList(disk, imgs, tail, end, pad, name);
    n := 0;
    if imgs != [] && imgs[0].name != name && !(|imgs| == 1 && tail.Last?) {
      NextImage(disk, imgs, tail, end, pad);
      n := ListedEnds(disk, imgs[1..], tail, HeaderPos(imgs[0], end, pad) + Span(imgs[0]), Padding(Span(imgs[0])), name);
    }
    n := n + 1;
  }

  /** The call on a laid-out list. */
  method FindListed(disk: seq<byte>, name: seq<byte>, ghost imgs: seq<Image>, ghost tail: Tail)
    returns (ret: int, offset: int, size: int)
    requires LaidOut(disk, imgs, tail, 0, 0)
    ensures var found := FirstNamed(imgs, name, 0, 0);
            if found.At? then ret == 0 && offset == found.header + IMG_HDR_SIZE && size == ToInt(found.img.dsize)
            else ret == match tail case Last => -7 case Truncated => -5 case BadMagic => -6
  {
    ghost var n := ListedEnds(disk, imgs, tail, 0, 0, name);
    ret, offset, size := FindImage(disk, name, n);
  }

  /** The image reported is on the disk where reported, with that name and size. */
  lemma {:induction false} FirstNamedOnDisk(disk: seq<byte>, imgs: seq<Image>, tail: Tail, end: nat, pad: nat, name: seq<byte>)
    requires LaidOut(disk, imgs, tail, end, pad)
    ensures var r := FirstNamed(imgs, name, end, pad);
            r.At? ==> end <= r.header && (HeaderIs(disk, r.header, r.img, true) || HeaderIs(disk, r.header, r.img, false))
  {
    hide LaidOut, HeaderIs, FieldsAt, Full, NoMagic, Span, Padding, NextDistance, SecPadding;
    if imgs != [] {
      HeaderFound(disk, imgs, tail, end, pad);
      if imgs[0].name != name && !(|imgs| == 1 && tail.Last?) {
        NextImage(disk, imgs, tail, end, pad);
        FirstNamedOnDisk(disk, imgs[1..], tail, HeaderPos(imgs[0], end, pad) + Span(imgs[0]), Padding(Span(imgs[0])), name);
      }
    }
  }
}
