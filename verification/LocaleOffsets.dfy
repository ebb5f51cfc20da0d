/**
 The multibyte character walk behind `${#v}` and `${v:off:len}` (src/locale.rs): bulk
 validation of the longest well-formed run, then one byte at a time past an invalid one.
 */
module LocaleOffsets {
  import opened Utf8
  import opened Sequences

  /** Width of the character at the start of `s`: a well-formed sequence, else one byte. */
  function CharWidth(s: Bytes): (w: nat)
    requires s != []
    ensures 1 <= w <= |s|
  {
    if SeqLen(s) > 0 then SeqLen(s) else 1
  }

  /** The simple walk: the boundary after each character from `i` on. */
  function WalkFrom(bytes: Bytes, i: nat): (offsets: seq<nat>)
    requires i <= |bytes|
    decreases |bytes| - i
  {
    if i == |bytes| then []
    else
      var next := i + CharWidth(bytes[i..]);
      [next] + WalkFrom(bytes, next)
  }

  /** Walking the characters of a well-formed stretch in one go agrees with the walk over
      the whole text. */
  lemma StretchWidth(bytes: Bytes, cursor: nat, end: nat)
    requires cursor < end <= |bytes| && WellFormed(bytes[cursor..end])
    ensures 0 < SeqLen(bytes[cursor..end]) == CharWidth(bytes[cursor..])
    ensures WellFormed(bytes[cursor + CharWidth(bytes[cursor..])..end])
  {
    var head := bytes[cursor..end];
    SeqLenOfConcat(head, bytes[end..]);
    assert head + bytes[end..] == bytes[cursor..];
    assert head[SeqLen(head)..] == bytes[cursor + SeqLen(head)..end];
  }

  lemma WalkStep(bytes: Bytes, done: seq<nat>, i: nat, next: nat)
    requires i < |bytes| && next == i + CharWidth(bytes[i..])
    ensures done + WalkFrom(bytes, i) == (done + [next]) + WalkFrom(bytes, next)
  {
    assert done + ([next] + WalkFrom(bytes, next)) == (done + [next]) + WalkFrom(bytes, next);
  }

  /** `for ch in text.chars() { cursor += ch.len_utf8(); offsets.push(cursor) }` over the
      well-formed stretch `bytes[start..end]`. */
  method PushCharacters(bytes: Bytes, start: nat, end: nat, offsets: seq<nat>) returns (pushed: seq<nat>)
    requires start <= end <= |bytes| && WellFormed(bytes[start..end])
    ensures offsets + WalkFrom(bytes, start) == pushed + WalkFrom(bytes, end)
  {
    hide SeqLen;
    pushed := offsets;
    var cursor := start;
    while cursor < end
      invariant start <= cursor <= end
      invariant WellFormed(bytes[cursor..end])
      invariant offsets + WalkFrom(bytes, start) == pushed + WalkFrom(bytes, cursor)
    {
      StretchWidth(bytes, cursor, end);
      var next := cursor + SeqLen(bytes[cursor..end]);
      WalkStep(bytes, pushed, cursor, next);
      cursor := next;
      pushed := pushed + [cursor];
    }
  }

  /** What bulk validation from `index` tells: a well-formed stretch, and an invalid byte
      after it unless the text is exhausted. */
  lemma ValidChunk(bytes: Bytes, index: nat, valid: nat)
    requires index <= |bytes| && valid == ValidUpTo(bytes[index..])
    ensures WellFormed(bytes[index..index + valid])
    ensures index + valid < |bytes| ==> CharWidth(bytes[index + valid..]) == 1
  {
    hide WellFormed, SeqLen, ValidUpTo;
    ValidPrefix(bytes[index..]);
    Reslice(bytes, index, valid);
  }

  /** `multibyte_char_offsets`: the chunked loop computes the simple walk. */
  method MultibyteCharOffsets(bytes: Bytes) returns (offsets: seq<nat>)
    ensures offsets == [0] + WalkFrom(bytes, 0)
  {
    offsets := [0];
    var index := 0;
    while index < |bytes|
      invariant 0 <= index <= |bytes|
      invariant [0] + WalkFrom(bytes, 0) == offsets + WalkFrom(bytes, index)
    {
      hide WellFormed, SeqLen, ValidUpTo, WalkFrom, CharWidth;
      var valid := ValidUpTo(bytes[index..]);
      ValidChunk(bytes, index, valid);
      offsets := PushCharacters(bytes, index, index + valid, offsets);
      index := index + valid;
      if index < |bytes| {
        WalkStep(bytes, offsets, index, index + 1);
        index := index + 1;
        offsets := offsets + [index];
      }
    }
  }

  /** The boundary list read on its own terms: from 0 to the length, and each step is
      exactly one well-formed character or one byte that starts none. */
  ghost predicate IsCharPartition(bytes: Bytes, start: nat, offsets: seq<nat>) {
    && |offsets| > 0 && offsets[0] == start && offsets[|offsets| - 1] == |bytes|
    && (forall k :: 0 <= k < |offsets| ==> offsets[k] <= |bytes|)
    && (forall k :: 0 <= k < |offsets| - 1 ==> IsCharSpan(bytes, offsets[k], offsets[k + 1]))
  }

  ghost predicate IsCharSpan(bytes: Bytes, i: nat, j: nat) {
    && i < j <= |bytes|
    && if SeqLen(bytes[i..]) > 0
       then j == i + SeqLen(bytes[i..]) && WellFormed(bytes[i..j])
       else j == i + 1 && forall k :: i < k <= |bytes| ==> !WellFormed(bytes[i..k])
  }

  lemma CharSpanAt(bytes: Bytes, i: nat)
    requires i < |bytes|
    ensures IsCharSpan(bytes, i, i + CharWidth(bytes[i..]))
  {
    var s := bytes[i..];
    if SeqLen(s) > 0 {
      OneCharacter(s);
      assert s[..SeqLen(s)] == bytes[i..i + SeqLen(s)];
    } else {
      forall k | i < k <= |bytes| ensures !WellFormed(bytes[i..k]) {
        assert s[..k - i] == bytes[i..k];
        NoPrefix(s, k - i);
      }
    }
  }

  /** The walk partitions any bytes into characters, and it is the only partition. */
  lemma {:induction false} WalkIsCharPartition(bytes: Bytes, i: nat)
    requires i <= |bytes|
    ensures IsCharPartition(bytes, i, [i] + WalkFrom(bytes, i))
    decreases |bytes| - i
  {
    if i < |bytes| {
      var next := i + CharWidth(bytes[i..]);
      WalkIsCharPartition(bytes, next);
      CharSpanAt(bytes, i);
      var rest := [next] + WalkFrom(bytes, next);
      var all := [i] + WalkFrom(bytes, i);
      assert all == [i] + rest;
      forall k | 0 <= k < |all| - 1 ensures IsCharSpan(bytes, all[k], all[k + 1]) {
        if k > 0 {
          assert all[k] == rest[k - 1] && all[k + 1] == rest[k];
        }
      }
    }
  }

  lemma {:induction false} CharPartitionIsWalk(bytes: Bytes, i: nat, offsets: seq<nat>)
    requires i <= |bytes| && IsCharPartition(bytes, i, offsets)
    ensures offsets == [i] + WalkFrom(bytes, i)
    decreases |offsets|
  {
    if |offsets| > 1 {
      assert IsCharSpan(bytes, offsets[0], offsets[1]);
      var rest := offsets[1..];
      forall k | 0 <= k < |rest| - 1 ensures IsCharSpan(bytes, rest[k], rest[k + 1]) {
        assert IsCharSpan(bytes, offsets[k + 1], offsets[k + 1 + 1]);
      }
      CharPartitionIsWalk(bytes, offsets[1], rest);
      assert offsets == [i] + rest;
    }
  }

  /** Well-formed text has exactly one boundary per `is_char_boundary` position. */
  lemma {:induction false} WalkOfTextIsItsBoundaries(bytes: Bytes, i: nat, j: nat)
    requires i < j <= |bytes| && WellFormed(bytes[i..])
    ensures j in WalkFrom(bytes, i) <==> Boundary(bytes, j)
    decreases |bytes| - i
  {
    var s := bytes[i..];
    var next := i + SeqLen(s);
    assert s[SeqLen(s)..] == bytes[next..];
    if next < |bytes| {
      assert SeqLen(bytes[next..]) > 0 && bytes[next] == bytes[next..][0];
    }
    if j < next {
      assert bytes[j] == s[j - i];
      WalkAbove(bytes, next, j);
    } else if j == next {
    } else {
      WalkOfTextIsItsBoundaries(bytes, next, j);
    }
  }

  lemma {:induction false} WalkAbove(bytes: Bytes, i: nat, j: nat)
    requires j <= i <= |bytes|
    ensures j !in WalkFrom(bytes, i)
    decreases |bytes| - i
  {
    if i < |bytes| {
      WalkAbove(bytes, i + CharWidth(bytes[i..]), j);
    }
  }
}
