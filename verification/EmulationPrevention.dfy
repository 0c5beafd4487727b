/** Emulation prevention of H.264 byte streams (section 7.4.1 of ITU-T H.264) and its removal in place. */
module EmulationPrevention {
  import Arithmetic
  import opened Common

  predicate Triple(s: seq<byte>) {
    |s| >= 3 && s[0] == 0 && s[1] == 0 && s[2] == 3
  }

  /** Every 03 behind two zeros dropped, scanning goes on behind it. */
  function Unescape(s: seq<byte>): (r: seq<byte>)
    ensures |r| <= |s|
  {
    if s == [] then []
    else if Triple(s) then [0, 0] + Unescape(s[3..])
    else [s[0]] + Unescape(s[1..])
  }

  /** An 03 inserted between two zeros and a byte that is at most 3; `zeros` zeros have just passed. */
  function Escape(s: seq<byte>, zeros: nat): seq<byte>
    requires zeros <= 2
  {
    if s == [] then []
    else if zeros == 2 && s[0] <= 3 then [3, s[0]] + Escape(s[1..], ZerosAfter(s[0], 0))
    else [s[0]] + Escape(s[1..], ZerosAfter(s[0], zeros))
  }

  function ZerosAfter(b: byte, zeros: nat): (r: nat)
    requires zeros <= 2 && (b == 0 ==> zeros < 2)
    ensures r <= 2
  {
    if b == 0 then zeros + 1 else 0
  }

  // ---------------------------------------------------------------- round trip

  /** How many zeros stand at the end, counted as the escaper counts them. */
  function EndZeros(s: seq<byte>, zeros: nat): (r: nat)
    requires zeros <= 2
    ensures r <= 2
  {
    if s == [] then zeros
    else if zeros == 2 && s[0] <= 3 then EndZeros(s[1..], ZerosAfter(s[0], 0))
    else EndZeros(s[1..], ZerosAfter(s[0], zeros))
  }

  /** Removal byte by byte, with the number of zeros that have just passed. */
  function Drop(s: seq<byte>, zeros: nat): seq<byte>
    requires zeros <= 2
  {
    if s == [] then []
    else if zeros == 2 && s[0] == 3 then Drop(s[1..], 0)
    else [s[0]] + Drop(s[1..], CountZero(s[0], zeros))
  }

  function CountZero(b: byte, zeros: nat): (r: nat)
    requires zeros <= 2
    ensures r <= 2
  {
    if b != 0 then 0 else if zeros < 2 then zeros + 1 else 2
  }

  lemma UnescapeCons(b: byte, s: seq<byte>)
    requires !Triple([b] + s)
    ensures Unescape([b] + s) == [b] + Unescape(s)
  {
    assert ([b] + s)[1..] == s;
  }

  lemma UnescapeTriple(s: seq<byte>)
    ensures Unescape([0, 0, 3] + s) == [0, 0] + Unescape(s)
  {
    assert ([0, 0, 3] + s)[3..] == s;
  }

  /** Looking ahead for triples and counting zeros remove the same bytes. */
  ghost predicate SameRemoval(s: seq<byte>) {
    && Unescape(s) == Drop(s, 0)
    && Unescape([0] + s) == [0] + Drop(s, 1)
    && Unescape([0, 0] + s) == [0, 0] + Drop(s, 2)
  }

  lemma {:induction false} UnescapeIsDrop(s: seq<byte>)
    ensures SameRemoval(s)
  {
    if s == [] {
      UnescapeCons(0, []);
      UnescapeCons(0, [0]);
      assert [0] + s == [0] && [0, 0] + s == [0] + [0];
    } else {
      UnescapeIsDrop(s[1..]);
      assert s == [s[0]] + s[1..];
      if s[0] == 0 {
        ZeroKeepsSame(s[1..]);
      } else {
        OtherKeepsSame(s[0], s[1..]);
      }
    }
  }

  lemma ZeroKeepsSame(t: seq<byte>)
    requires SameRemoval(t)
    ensures SameRemoval([0] + t)
  {
    assert ([0] + t)[1..] == t;
    assert [0] + ([0] + t) == [0, 0] + t;
    assert [0, 0] + ([0] + t) == [0] + ([0, 0] + t);
    UnescapeCons(0, [0, 0] + t);
  }

  lemma OtherKeepsSame(b: byte, t: seq<byte>)
    requires SameRemoval(t) && b != 0
    ensures SameRemoval([b] + t)
  {
    hide Unescape, Drop;
    DropOther(b, t);
    UnescapeOther(b, t);
    assert [0] + ([b] + Unescape(t)) == [0] + [b] + Unescape(t);
  }

  lemma DropOther(b: byte, t: seq<byte>)
    requires b != 0
    ensures Drop([b] + t, 0) == Drop([b] + t, 1) == [b] + Drop(t, 0)
    ensures Drop([b] + t, 2) == if b == 3 then Drop(t, 0) else [b] + Drop(t, 0)
  {
    assert ([b] + t)[1..] == t;
  }

  lemma UnescapeOther(b: byte, t: seq<byte>)
    requires b != 0
    ensures Unescape([b] + t) == [b] + Unescape(t)
    ensures Unescape([0] + ([b] + t)) == [0] + ([b] + Unescape(t))
    ensures Unescape([0, 0] + ([b] + t)) == [0, 0] + if b == 3 then Unescape(t) else [b] + Unescape(t)
  {
    var s := [b] + t;
    UnescapeCons(b, t);
    UnescapeCons(0, s);
    if b == 3 {
      assert [0, 0] + s == [0, 0, 3] + t;
      UnescapeTriple(t);
    } else {
      assert [0, 0] + s == [0] + ([0] + s);
      UnescapeCons(0, [0] + s);
      assert [0] + ([0] + ([b] + Unescape(t))) == [0, 0] + ([b] + Unescape(t));
    }
  }

  lemma {:induction false} DropEscaped(s: seq<byte>, zeros: nat, tail: seq<byte>)
    requires zeros <= 2 && (tail == [] || tail == [3])
    ensures Drop(Escape(s, zeros) + tail, zeros) == s + if EndZeros(s, zeros) == 2 then [] else tail
    decreases |s|
  {
    if s == [] {
      assert [] + tail == tail;
    } else {
      var b, t := s[0], s[1..];
      var inserted := zeros == 2 && b <= 3;
      var z := ZerosAfter(b, if inserted then 0 else zeros);
      DropEscaped(t, z, tail);
      var e := Escape(t, z) + tail;
      assert ([b] + e)[1..] == e;
      if inserted {
        assert Escape(s, zeros) + tail == [3] + ([b] + e);
        assert ([3] + ([b] + e))[1..] == [b] + e;
      } else {
        assert Escape(s, zeros) + tail == [b] + e;
      }
      assert s == [b] + t;
    }
  }

  /** Removal undoes insertion for every byte string. */
  lemma UnescapeUndoesEscape(s: seq<byte>)
    ensures Unescape(Escape(s, 0)) == s
  {
    UnescapeIsDrop(Escape(s, 0));
    DropEscaped(s, 0, []);
    assert Escape(s, 0) + [] == Escape(s, 0) && s + [] == s;
  }

  /** The 03 that section 7.4.1 appends to data ending in a zero byte is removed again exactly when
      the data ends in two zeros as the escaper counts them, as cabac_zero_words do. */
  lemma FinalThreeRemoved(s: seq<byte>)
    ensures Unescape(Escape(s, 0) + [3]) == s <==> EndZeros(s, 0) == 2
  {
    UnescapeIsDrop(Escape(s, 0) + [3]);
    DropEscaped(s, 0, [3]);
    assert s + [] == s && |s + [3]| == |s| + 1;
  }

  /** No start code prefix, and no other triple forbidden inside a NAL unit. */
  ghost predicate NoForbiddenTriple(s: seq<byte>) {
    forall i :: 0 <= i && i + 2 < |s| ==> !(s[i] == 0 && s[i + 1] == 0 && s[i + 2] < 3)
  }

  /** No byte below 3 follows two zeros. */
  predicate Clean(s: seq<byte>, zeros: nat)
    requires zeros <= 2
  {
    s == [] || (!(zeros == 2 && s[0] < 3) && Clean(s[1..], CountZero(s[0], zeros)))
  }

  lemma {:induction false} EscapedIsClean(s: seq<byte>, zeros: nat)
    requires zeros <= 2
    ensures Clean(Escape(s, zeros), zeros)
    decreases |s|
  {
    if s != [] {
      hide Clean;
      var inserted := zeros == 2 && s[0] <= 3;
      var before := if inserted then 0 else zeros;
      var z := ZerosAfter(s[0], before);
      assert Clean(Escape(s[1..], z), z) by { EscapedIsClean(s[1..], z); }
      CleanCons(s[0], Escape(s[1..], z), before);
      if inserted {
        CleanCons(3, [s[0]] + Escape(s[1..], z), 2);
        assert Escape(s, zeros) == [3] + ([s[0]] + Escape(s[1..], z));
      }
    } else {
      assert Escape(s, zeros) == [];
    }
  }

  lemma CleanCons(b: byte, s: seq<byte>, zeros: nat)
    requires zeros <= 2 && !(zeros == 2 && b < 3) && Clean(s, CountZero(b, zeros))
    ensures Clean([b] + s, zeros)
  {
    assert ([b] + s)[1..] == s;
  }

  lemma {:induction false} CleanHasNoTriple(s: seq<byte>, zeros: nat, i: nat)
    requires zeros <= 2 && Clean(s, zeros) && i + 2 < |s|
    ensures !(s[i] == 0 && s[i + 1] == 0 && s[i + 2] < 3)
    decreases i
  {
    if i > 0 {
      CleanHasNoTriple(s[1..], CountZero(s[0], zeros), i - 1);
    } else {
      var t := s[1..];
      assert t[1..] == s[2..];
      if s[0] == 0 && s[1] == 0 {
        assert Clean(t[1..], CountZero(t[0], CountZero(s[0], zeros)));
        assert t[1..][0] == s[2];
      }
    }
  }

  lemma EscapedHasNoForbiddenTriple(s: seq<byte>)
    ensures NoForbiddenTriple(Escape(s, 0))
  {
    EscapedIsClean(s, 0);
    forall i | 0 <= i && i + 2 < |Escape(s, 0)|
      ensures !(Escape(s, 0)[i] == 0 && Escape(s, 0)[i + 1] == 0 && Escape(s, 0)[i + 2] < 3)
    {
      CleanHasNoTriple(Escape(s, 0), 0, i);
    }
  }

  // ---------------------------------------------------------------- removal in place

  /** The bytes behind the gap moved down by one; the last byte stays where it was. */
  ghost predicate Closed(before: seq<byte>, after: seq<byte>, at: nat) {
    && at < |before| == |after|
    && (forall i :: 0 <= i < at ==> after[i] == before[i])
    && (forall i :: at <= i < |before| - 1 ==> after[i] == before[i + 1])
    && after[|after| - 1] == before[|before| - 1]
  }

  /** The memmove that closes the gap at `at` in a[..size]. */
  method CloseGap(a: array<byte>, at: nat, size: nat)
    requires at < size <= a.Length
    modifies a
    ensures Closed(old(a[..size]), a[..size], at)
    ensures a[size..] == old(a[size..])
  {
    forall i | at <= i < size - 1 {
      a[i] := a[i + 1];
    }
  }

  /** The result when the bytes up to `pos` are done and the rest is still escaped. */
  ghost function Scanned(data: seq<byte>, pos: nat): seq<byte> {
    if pos >= |data| then data else data[..pos] + Unescape(data[pos..])
  }

  /** Behind the data stand copies of the original last byte; the data still ends in that byte
      unless it has been scanned to its end. */
  ghost predicate StaleTail(buffer: seq<byte>, left: nat, pos: nat, last: byte) {
    && left <= |buffer|
    && (forall i :: left <= i < |buffer| ==> buffer[i] == last)
    && (pos < left ==> buffer[left - 1] == last)
  }

  /** What the loop keeps: the bytes scanned and the rest unescaped make up the result; behind the
      data stand copies of the original last byte. */
  ghost predicate Removing(s: seq<byte>, buffer: seq<byte>, left: nat, pos: nat) {
    && |buffer| == |s| && left <= |s|
    && Unescape(s) == Scanned(buffer[..left], pos)
    && (s != [] ==> StaleTail(buffer, left, pos, s[|s| - 1]))
  }

  /** The whole buffer after a removal from its first n bytes: the unescaped bytes, copies of the last of
      the n bytes, and the bytes behind them. */
  function Removed(s: seq<byte>, n: nat): (r: seq<byte>)
    requires n <= |s|
    ensures |r| == |s|
  {
    RemovedPart(s[..n]) + s[n..]
  }

  function RemovedPart(s: seq<byte>): (r: seq<byte>)
    ensures |r| == |s|
  {
    Unescape(s) + seq(|s| - |Unescape(s)|, _ => if s == [] then 0 else s[|s| - 1])
  }

  lemma RemovedParts(s: seq<byte>, behind: seq<byte>)
    ensures Removed(s + behind, |s|) == RemovedPart(s) + behind
  {
    hide Unescape, RemovedPart;
    assert (s + behind)[..|s|] == s && (s + behind)[|s|..] == behind;
  }

  lemma UnescapeNothing()
    ensures Unescape([]) == []
  {
  }

  /** A prevention triple is never found in the stale copies. */
  lemma TripleIsData(buffer: seq<byte>, left: nat, pos: nat, last: byte)
    requires StaleTail(buffer, left, pos, last) && pos + 2 < |buffer|
    requires buffer[pos] == 0 && buffer[pos + 1] == 0 && buffer[pos + 2] == 3
    ensures pos + 2 < left
  {
  }

  lemma StaleAfterRemoval(before: seq<byte>, after: seq<byte>, left: nat, pos: nat, last: byte)
    requires StaleTail(before, left, pos, last) && pos + 2 < left && Closed(before, after, pos + 2)
    ensures StaleTail(after, left - 1, pos + 2, last)
  {
  }

  lemma ScanTriple(data: seq<byte>, rest: seq<byte>, pos: nat)
    requires pos + 2 < |data| && |rest| == |data| - 1
    requires data[pos] == 0 && data[pos + 1] == 0 && data[pos + 2] == 3
    requires forall i :: 0 <= i < pos + 2 ==> rest[i] == data[i]
    requires forall i :: pos + 2 <= i < |rest| ==> rest[i] == data[i + 1]
    ensures Scanned(rest, pos + 2) == Scanned(data, pos)
  {
    var behind := rest[pos + 2..];
    assert data[pos..] == [0, 0, 3] + behind;
    assert rest[..pos + 2] == data[..pos] + [0, 0];
    UnescapeTriple(behind);
    hide Unescape;
    assert Scanned(data, pos) == data[..pos] + ([0, 0] + Unescape(behind));
    if pos + 2 == |rest| {
      assert behind == [] && rest == rest[..pos + 2];
      UnescapeNothing();
    }
  }

  /** One removal: everything behind the 03 has moved down by one. */
  lemma RemoveTriple(s: seq<byte>, before: seq<byte>, after: seq<byte>, left: nat, pos: nat)
    requires Removing(s, before, left, pos) && Closed(before, after, pos + 2)
    requires before[pos] == 0 && before[pos + 1] == 0 && before[pos + 2] == 3
    ensures 0 < left <= |s| && Removing(s, after, left - 1, pos + 2)
  {
    TripleIsData(before, left, pos, s[|s| - 1]);
    ScanTriple(before[..left], after[..left - 1], pos);
    StaleAfterRemoval(before, after, left, pos, s[|s| - 1]);
  }

  lemma SkipByte(s: seq<byte>, buffer: seq<byte>, left: nat, pos: nat)
    requires Removing(s, buffer, left, pos) && pos + 2 < |buffer|
    requires !(buffer[pos] == 0 && buffer[pos + 1] == 0 && buffer[pos + 2] == 3)
    ensures Removing(s, buffer, left, pos + 1)
  {
    var data := buffer[..left];
    if pos < left {
      assert data[pos..][1..] == data[pos + 1..];
      assert data[..pos + 1] == data[..pos] + [data[pos]];
      assert data[pos + 1..] == [] ==> Unescape(data[pos + 1..]) == [];
    }
  }

  lemma ScannedAll(data: seq<byte>, pos: nat)
    requires pos + 2 >= |data|
    ensures Scanned(data, pos) == data
  {
    if pos < |data| {
      var rest := data[pos..];
      assert Unescape(rest) == rest by {
        if |rest| == 2 {
          assert rest == [rest[0]] + [rest[1]];
          UnescapeCons(rest[1], []);
          UnescapeCons(rest[0], [rest[1]]);
        } else {
          UnescapeCons(rest[0], []);
        }
      }
    }
  }

  lemma RemovalBegins(s: seq<byte>)
    ensures Removing(s, s, |s|, 0)
  {
    hide Unescape;
    assert s[..|s|] == s && s[0..] == s;
    UnescapeNothing();
  }

  lemma RemovalDone(s: seq<byte>, buffer: seq<byte>, left: nat, pos: nat)
    requires Removing(s, buffer, left, pos) && pos + 2 >= |buffer|
    ensures left <= |buffer| && buffer[..left] == Unescape(s) && buffer == RemovedPart(s)
  {
    hide Unescape;
    ScannedAll(buffer[..left], pos);
    assert buffer == buffer[..left] + buffer[left..];
    assert buffer[left..] == seq(|s| - left, _ => if s == [] then 0 else s[|s| - 1]);
  }

  /** One iteration of the scan. */
  method ScanByte(a: array<byte>, size: nat, left: nat, pos: nat, ghost s: seq<byte>) returns (left': nat, pos': nat)
    requires pos + 2 < size <= a.Length && Removing(s, a[..size], left, pos)
    modifies a
    ensures left' <= left && pos < pos' && Removing(s, a[..size], left', pos')
    ensures a[size..] == old(a[size..])
  {
    hide Removing, Unescape, Closed;
    left', pos' := left, pos;
    ghost var before := a[..size];
    if a[pos] == 0x00 && a[pos + 1] == 0x00 && a[pos + 2] == 0x03 {
      assert before[pos] == 0 && before[pos + 1] == 0 && before[pos + 2] == 3;
      CloseGap(a, pos + 2, size);
      RemoveTriple(s, before, a[..size], left, pos);
      pos' := pos' + 2;
      left' := left' - 1;
    } else {
      SkipByte(s, before, left, pos);
      pos' := pos' + 1;
    }
  }

  /** Removes every prevention byte of a[..size] in place.  The scan always runs over the full size,
      past the data that is left and over the copies of the last byte that moving leaves behind;
      these never look like a prevention byte. */
  method RemovePreventionByte(a: array<byte>, size: nat) returns (leftSize: nat)
    requires size <= 255 && size <= a.Length
    modifies a
    ensures leftSize <= size && a[..] == Removed(old(a[..]), size)
    ensures a[..leftSize] == Unescape(old(a[..size]))
  {
    hide *;
    var pos := 0;
    leftSize := size;
    ghost var s, behind := a[..size], a[size..];
    RemovalBegins(s);
    while pos < size - 2
      invariant leftSize <= size && Removing(s, a[..size], leftSize, pos)
      invariant a[size..] == behind
      decreases size - pos
    {
      leftSize, pos := ScanByte(a, size, leftSize, pos, s);
    }
    RemovalDone(s, a[..size], leftSize, pos);
    assert a[..] == a[..size] + a[size..];
    assert old(a[..]) == s + behind;
    RemovedParts(s, behind);
    assert a[..leftSize] == a[..size][..leftSize];
  }

  // ---------------------------------------------------------------- the 8-bit size

  /** Removal takes at most every third byte. */
  lemma {:induction false} UnescapeKeepsTwoThirds(s: seq<byte>)
    ensures 3 * |Unescape(s)| >= 2 * |s|
  {
    if s != [] {
      UnescapeKeepsTwoThirds(if Triple(s) then s[3..] else s[1..]);
    }
  }

  /** A call with the size of a whole unit, which the 8-bit parameter reduces modulo 256. */
  method RemoveFromUnit(nal: array<byte>) returns (leftSize: nat)
    modifies nal
    ensures leftSize <= nal.Length && nal[..] == Removed(old(nal[..]), nal.Length % 256)
    ensures nal[..leftSize] == Unescape(old(nal[..nal.Length % 256]))
    ensures nal.Length <= 255 ==> nal[..leftSize] == Unescape(old(nal[..]))
  {
    ghost var s := nal[..];
    leftSize := RemovePreventionByte(nal, nal.Length % 256);
    assert nal.Length <= 255 ==> s[..nal.Length % 256] == s;
  }

  lemma NarrowSize(n: nat)
    ensures n % 256 <= n
    ensures if n <= 255 then n % 256 == n else 3 * (n % 256) < 2 * n
  {
    if n <= 255 {
      Arithmetic.DivModUnique(n, 0, n, 256);
    } else if n < 384 {
      Arithmetic.DivModUnique(n, 1, n - 256, 256);
    }
  }

  lemma PrefixIsWhole(s: seq<byte>, m: nat)
    requires m == |s| || 3 * m < 2 * |s|
    ensures m <= |s|
    ensures Unescape(s[..m]) == Unescape(s) <==> m == |s|
  {
    hide Unescape;
    if m == |s| {
      assert s[..m] == s;
    } else {
      UnescapeKeepsTwoThirds(s);
      UnescapeKeepsTwoThirds(s[..m]);
    }
  }

  /** What such a call leaves is the unescaped unit exactly for units of at most 255 bytes. */
  lemma WholeUnitExactlyWhenSmall(s: seq<byte>)
    ensures Unescape(s[..|s| % 256]) == Unescape(s) <==> |s| <= 255
  {
    hide Unescape;
    NarrowSize(|s|);
    PrefixIsWhole(s, |s| % 256);
  }
}
