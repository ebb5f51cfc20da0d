/**
 A Rust `&str` seen as its characters and cut at byte offsets: a slice that would start inside a
 character panics.
 */
module TextSlices {
  import opened Sequences
  import opened Utf8
  import opened Wrappers

  /** `str::len`: the bytes of a text. */
  function ByteLen(s: string): nat {
    if s == "" then 0 else |Encode(s[0])| + ByteLen(s[1..])
  }

  /** `&s[offset..]`, or nothing where it panics. */
  function SliceFrom(s: string, offset: nat): Option<string> {
    if offset == 0 then Some(s)
    else if s == "" || offset < |Encode(s[0])| then None
    else SliceFrom(s[1..], offset - |Encode(s[0])|)
  }

  lemma {:induction false} ByteLenConcat(a: string, b: string)
    ensures ByteLen(a + b) == ByteLen(a) + ByteLen(b)
  {
    hide Encode;
    if a == "" {
      assert a + b == b;
    } else {
      ByteLenConcat(a[1..], b);
      assert (a + b)[1..] == a[1..] + b;
    }
  }

  lemma AsciiByteLen(c: char)
    requires c as int < 0x80
    ensures ByteLen([c]) == 1
  {
    assert [c][1..] == "";
  }

  predicate SingleByte(s: string) { forall k :: 0 <= k < |s| ==> s[k] as int < 0x80 }

  lemma EncodedLength(c: char)
    ensures |Encode(c)| == 1 <==> c as int < 0x80
  {
  }

  /** A text has as many bytes as characters exactly when it is ASCII, and otherwise more. */
  lemma {:induction false} ByteLenOfAscii(s: string)
    ensures ByteLen(s) >= |s|
    ensures ByteLen(s) == |s| <==> SingleByte(s)
  {
    hide Encode;
    if s != "" {
      EncodedLength(s[0]);
      ByteLenOfAscii(s[1..]);
      assert forall k :: 1 <= k < |s| ==> s[1..][k - 1] == s[k];
    }
  }

  /** Cutting behind a first part is cutting the second. */
  lemma {:induction false} SliceFromConcat(a: string, b: string, offset: nat)
    ensures SliceFrom(a + b, ByteLen(a) + offset) == SliceFrom(b, offset)
  {
    hide Encode;
    if a == "" {
      assert a + b == b;
    } else {
      SliceFromConcat(a[1..], b, offset);
      assert (a + b)[1..] == a[1..] + b;
    }
  }

  /** What is cut off is as long as the offset, and the rest stands at the end. */
  lemma {:induction false} SliceFromIsSuffix(s: string, offset: nat)
    requires SliceFrom(s, offset).Some?
    ensures var t := SliceFrom(s, offset).value;
            |t| <= |s| && t == s[|s| - |t|..] && offset + ByteLen(t) == ByteLen(s)
  {
    hide Encode;
    if offset == 0 {
      assert s[0..] == s;
    } else {
      var t := SliceFrom(s, offset).value;
      SliceFromIsSuffix(s[1..], offset - |Encode(s[0])|);
      DropDrop(s, 1, |s| - 1 - |t|);
    }
  }

  lemma EncodeAllStep(s: string)
    requires s != ""
    ensures EncodeAll(s) == Encode(s[0]) + EncodeAll(s[1..])
  {
  }

  lemma BoundaryInTail(c: Bytes, rest: Bytes, offset: nat)
    requires WellFormed(rest) && SeqLen(c) == |c| >= 1 && offset > 0
    ensures Boundary(c + rest, offset) <==> offset >= |c| && Boundary(rest, offset - |c|)
  {
    hide SeqLen, IsTail;
    var s := c + rest;
    if offset < |c| {
      assert s[offset] == c[offset];
    } else if |c| <= offset < |s| {
      assert s[offset] == rest[offset - |c|];
    }
  }

  /** A text can be cut exactly at the boundaries of its bytes. */
  lemma {:induction false} SliceFromExactlyAtBoundaries(s: string, offset: nat)
    ensures SliceFrom(s, offset).Some? <==> Boundary(EncodeAll(s), offset)
  {
    hide Encode, Boundary, SeqLen;
    if offset == 0 {
      StartIsBoundary(EncodeAll(s));
    } else if s == "" {
      BeyondIsNoBoundary(offset);
    } else {
      EncodeAllStep(s);
      BoundaryInTail(Encode(s[0]), EncodeAll(s[1..]), offset);
      if offset >= |Encode(s[0])| {
        SliceFromExactlyAtBoundaries(s[1..], offset - |Encode(s[0])|);
      }
    }
  }

  lemma StartIsBoundary(t: Bytes)
    ensures Boundary(t, 0)
  {
  }

  lemma BeyondIsNoBoundary(offset: nat)
    requires offset > 0
    ensures !Boundary([], offset)
  {
  }
}
