/**
 The respawn state file (src/invocation.rs): environment entries in length-prefixed frames,
 little-endian 32-bit counts, decoded all or nothing.
 */
module RespawnCodec {
  import opened Utf8
  import opened Wrappers
  import opened Sequences

  type Entry = (Text, Text)

  const U32_LIMIT := 0x1_0000_0000

  /** `to_le_bytes` of a 32-bit value. */
  function LeBytes(n: nat): (b: Bytes)
    requires n < U32_LIMIT
    ensures |b| == 4
  {
    [n % 256, n / 256 % 256, n / 65536 % 256, n / 16777216]
  }

  /** `n as u32`, then its bytes. */
  function U32Bytes(n: nat): (b: Bytes)
    ensures |b| == 4
  {
    LeBytes(n % U32_LIMIT)
  }

  function LeValue(b0: Byte, b1: Byte, b2: Byte, b3: Byte): (n: nat)
    ensures n < U32_LIMIT
  {
    var n: int := (b0 as int) + 256 * (b1 as int) + 65536 * (b2 as int) + 16777216 * (b3 as int);
    n
  }

  lemma LeRoundTrip(n: nat)
    requires n < U32_LIMIT
    ensures var b := LeBytes(n); LeValue(b[0], b[1], b[2], b[3]) == n
  {
    assert n / 256 / 256 == n / 65536 && n / 65536 / 256 == n / 16777216;
  }

  lemma LeBytesOfValue(b0: Byte, b1: Byte, b2: Byte, b3: Byte)
    ensures LeBytes(LeValue(b0, b1, b2, b3)) == [b0, b1, b2, b3]
  {
    var n := LeValue(b0, b1, b2, b3);
    assert n / 256 == (b1 as int) + 256 * (b2 as int) + 65536 * (b3 as int);
    assert n / 65536 == (b2 as int) + 256 * (b3 as int);
    assert n / 16777216 == b3;
  }

  // --------------------------------------------------------------------- encoding

  function EntryBytes(e: Entry): Bytes {
    U32Bytes(|e.0|) + U32Bytes(|e.1|) + e.0 + e.1
  }

  function BodyBytes(entries: seq<Entry>): Bytes {
    if entries == [] then [] else EntryBytes(entries[0]) + BodyBytes(entries[1..])
  }

  function Encode(entries: seq<Entry>): Bytes { U32Bytes(|entries|) + BodyBytes(entries) }

  // --------------------------------------------------------------------- decoding

  function TakeU32(s: Bytes): (r: Option<(nat, Bytes)>)
    ensures r.Some? ==> r.value.0 < U32_LIMIT && |s| >= 4 && r.value.1 == s[4..]
  {
    if |s| < 4 then None else Some((LeValue(s[0], s[1], s[2], s[3]), s[4..]))
  }

  /** The next `n` bytes as text. */
  function TakeText(s: Bytes, n: nat): (r: Option<(Text, Bytes)>)
    ensures r.Some? ==> n <= |s| && r.value == (s[..n], s[n..])
  {
    if n > |s| || !WellFormed(s[..n]) then None else Some((s[..n], s[n..]))
  }

  function TakeEntry(s: Bytes): (r: Option<(Entry, Bytes)>)
    ensures r.Some? ==> |r.value.1| < |s|
  {
    match TakeU32(s)
    case None => None
    case Some((keyLen, s1)) =>
      match TakeU32(s1)
      case None => None
      case Some((valueLen, s2)) =>
        match TakeText(s2, keyLen)
        case None => None
        case Some((key, s3)) =>
          match TakeText(s3, valueLen)
          case None => None
          case Some((value, s4)) => Some(((key, value), s4))
  }

  function Prepended(entries: seq<Entry>, r: Option<(seq<Entry>, Bytes)>): Option<(seq<Entry>, Bytes)> {
    match r
    case None => None
    case Some((more, rest)) => Some((entries + more, rest))
  }

  function TakeEntries(s: Bytes, count: nat): Option<(seq<Entry>, Bytes)>
    decreases count
  {
    if count == 0 then Some(([], s))
    else
      match TakeEntry(s)
      case None => None
      case Some((entry, rest)) =>
        Prepended([entry], TakeEntries(rest, count - 1))
  }

  function Decode(bytes: Bytes): Option<seq<Entry>> {
    match TakeU32(bytes)
    case None => None
    case Some((count, body)) =>
      match TakeEntries(body, count)
      case None => None
      case Some((entries, rest)) => if rest == [] then Some(entries) else None
  }

  // ------------------------------------------------------------------- round trips

  predicate EntryFits(e: Entry) { |e.0| < U32_LIMIT && |e.1| < U32_LIMIT }

  predicate AllFit(entries: seq<Entry>) {
    forall i :: 0 <= i < |entries| ==> EntryFits(entries[i])
  }

  predicate Fits(entries: seq<Entry>) {
    |entries| < U32_LIMIT && AllFit(entries)
  }

  lemma HeadFour(b: Bytes, rest: Bytes)
    requires |b| == 4
    ensures var s := b + rest;
            s[0] == b[0] && s[1] == b[1] && s[2] == b[2] && s[3] == b[3] && s[4..] == rest
  {
  }

  lemma U32BytesFit(n: nat)
    requires n < U32_LIMIT
    ensures U32Bytes(n) == LeBytes(n)
  {
    hide LeBytes;
    assert n % U32_LIMIT == n;
  }

  lemma TakeU32OfBytes(n: nat, rest: Bytes)
    requires n < U32_LIMIT
    ensures TakeU32(U32Bytes(n) + rest) == Some((n, rest))
  {
    hide LeBytes, LeValue, U32Bytes;
    U32BytesFit(n);
    LeRoundTrip(n);
    HeadFour(LeBytes(n), rest);
  }

  lemma TakeTextOfText(t: Text, rest: Bytes)
    ensures TakeText(t + rest, |t|) == Some((t, rest))
  {
    assert (t + rest)[..|t|] == t && (t + rest)[|t|..] == rest;
  }

  lemma Assoc4(a: Bytes, b: Bytes, c: Bytes, d: Bytes, e: Bytes)
    ensures a + b + c + d + e == a + (b + (c + (d + e)))
  {
  }

  lemma TakeEntryOfBytes(e: Entry, rest: Bytes)
    requires EntryFits(e)
    ensures TakeEntry(EntryBytes(e) + rest) == Some((e, rest))
  {
    hide TakeU32, TakeText, U32Bytes, WellFormed;
    var k, v := U32Bytes(|e.0|), U32Bytes(|e.1|);
    Assoc4(k, v, e.0, e.1, rest);
    TakeU32OfBytes(|e.0|, v + (e.0 + (e.1 + rest)));
    TakeU32OfBytes(|e.1|, e.0 + (e.1 + rest));
    TakeTextOfText(e.0, e.1 + rest);
    TakeTextOfText(e.1, rest);
  }

  lemma BodyOfNone(rest: Bytes)
    ensures BodyBytes([]) + rest == rest
  {
  }

  lemma BodyOfCons(entry: Entry, entries: seq<Entry>)
    ensures BodyBytes([entry] + entries) == EntryBytes(entry) + BodyBytes(entries)
  {
    hide EntryBytes;
    assert ([entry] + entries)[1..] == entries;
  }

  lemma HeadAndTail(entries: seq<Entry>)
    requires entries != []
    ensures entries == [entries[0]] + entries[1..]
  {
  }

  /** One entry off the front, as the decoder's loop takes it. */
  lemma TakeEntriesStep(s: Bytes, count: nat)
    requires count > 0 && TakeEntry(s).Some?
    ensures TakeEntries(s, count)
         == Prepended([TakeEntry(s).value.0], TakeEntries(TakeEntry(s).value.1, count - 1))
  {
    hide TakeEntry, WellFormed;
  }

  lemma {:induction false} TakeEntriesOfBody(entries: seq<Entry>, rest: Bytes)
    requires AllFit(entries)
    ensures TakeEntries(BodyBytes(entries) + rest, |entries|) == Some((entries, rest))
    decreases |entries|
  {
    hide EntryBytes, TakeEntry, BodyBytes, TakeEntries, WellFormed, EntryFits;
    if entries == [] {
      BodyOfNone(rest);
      TakeNone(rest);
    } else {
      var entry, more := entries[0], entries[1..];
      HeadAndTail(entries);
      BodyOfCons(entry, more);
      Assoc(EntryBytes(entry), BodyBytes(more), rest);
      TakeEntryOfBytes(entry, BodyBytes(more) + rest);
      TakeEntriesStep(BodyBytes(entries) + rest, |entries|);
      TakeEntriesOfBody(more, rest);
    }
  }

  lemma TakeNone(s: Bytes)
    ensures TakeEntries(s, 0) == Some(([], s))
  {
  }

  lemma U32BytesOfTaken(s: Bytes)
    requires TakeU32(s).Some?
    ensures s == U32Bytes(TakeU32(s).value.0) + TakeU32(s).value.1
  {
    hide LeBytes, LeValue, U32Bytes;
    LeBytesOfValue(s[0], s[1], s[2], s[3]);
    U32BytesFit(LeValue(s[0], s[1], s[2], s[3]));
    SplitFour(s);
  }

  lemma SplitFour(s: Bytes)
    requires |s| >= 4
    ensures s == [s[0], s[1], s[2], s[3]] + s[4..]
  {
  }

  lemma TextOfTaken(s: Bytes, n: nat)
    requires TakeText(s, n).Some?
    ensures s == TakeText(s, n).value.0 + TakeText(s, n).value.1 && |TakeText(s, n).value.0| == n
  {
  }

  lemma BytesOfTakenEntry(s: Bytes)
    requires TakeEntry(s).Some?
    ensures var (e, rest) := TakeEntry(s).value; EntryFits(e) && s == EntryBytes(e) + rest
  {
    var s1 := TakeU32(s).value.1;
    var s2 := TakeU32(s1).value.1;
    var s3 := TakeText(s2, TakeU32(s).value.0).value.1;
    U32BytesOfTaken(s);
    U32BytesOfTaken(s1);
    TextOfTaken(s2, TakeU32(s).value.0);
    TextOfTaken(s3, TakeU32(s1).value.0);
    hide TakeU32, TakeText, U32Bytes, WellFormed;
    var (e, rest) := TakeEntry(s).value;
    Assoc4(U32Bytes(|e.0|), U32Bytes(|e.1|), e.0, e.1, rest);
  }

  lemma AllFitCons(entry: Entry, entries: seq<Entry>)
    requires EntryFits(entry) && AllFit(entries)
    ensures AllFit([entry] + entries)
  {
    hide EntryFits;
  }

  lemma {:induction false} BytesOfTakenEntries(s: Bytes, count: nat)
    requires TakeEntries(s, count).Some?
    ensures var (entries, rest) := TakeEntries(s, count).value;
            |entries| == count && s == BodyBytes(entries) + rest && AllFit(entries)
    decreases count
  {
    hide EntryBytes, TakeEntry, EntryFits, BodyBytes, WellFormed, AllFit;
    if count == 0 {
      BodyOfNone(s);
      NoneFit();
    } else {
      BytesOfTakenEntry(s);
      var (entry, rest) := TakeEntry(s).value;
      BytesOfTakenEntries(rest, count - 1);
      var (entries, end) := TakeEntries(rest, count - 1).value;
      TakeEntriesStep(s, count);
      BodyOfCons(entry, entries);
      AllFitCons(entry, entries);
      Assoc(EntryBytes(entry), BodyBytes(entries), end);
    }
  }

  lemma NoneFit()
    ensures AllFit([])
  {
  }

  /** Decoding gives entries exactly for their encoding, when counts and lengths fit 32 bits. */
  lemma DecodesExactlyTheEncoding(bytes: Bytes, entries: seq<Entry>)
    ensures Decode(bytes) == Some(entries) <==> Fits(entries) && bytes == Encode(entries)
  {
    hide U32Bytes, TakeU32, TakeEntries, BodyBytes;
    if Fits(entries) && bytes == Encode(entries) {
      TakeU32OfBytes(|entries|, BodyBytes(entries));
      TakeEntriesOfBody(entries, []);
      assert BodyBytes(entries) + [] == BodyBytes(entries);
    }
    if Decode(bytes) == Some(entries) {
      U32BytesOfTaken(bytes);
      var (count, body) := TakeU32(bytes).value;
      BytesOfTakenEntries(body, count);
      assert BodyBytes(entries) + [] == BodyBytes(entries);
    }
  }

  /** A count or length that does not fit makes a file nothing decodes to its entries. */
  lemma OversizedNeverComesBack(entries: seq<Entry>)
    requires !Fits(entries)
    ensures Decode(Encode(entries)) != Some(entries)
  {
    DecodesExactlyTheEncoding(Encode(entries), entries);
  }

  /** The encodings form a prefix code: no file is another one with bytes appended. */
  lemma PrefixCode(entries: seq<Entry>, others: seq<Entry>, extra: Bytes)
    requires Fits(entries) && Fits(others) && Encode(entries) == Encode(others) + extra
    ensures extra == [] && entries == others
  {
    hide U32Bytes, TakeU32, TakeEntries, BodyBytes;
    TakeU32OfBytes(|entries|, BodyBytes(entries));
    Assoc(U32Bytes(|others|), BodyBytes(others), extra);
    TakeU32OfBytes(|others|, BodyBytes(others) + extra);
    TakeEntriesOfBody(entries, []);
    TakeEntriesOfBody(others, extra);
    assert BodyBytes(entries) + [] == BodyBytes(entries);
  }

  /** Every strict prefix of a file and every file with bytes appended is rejected. */
  lemma CutOrPaddedIsRejected(entries: seq<Entry>, k: nat, padding: Bytes)
    requires Fits(entries) && k < |Encode(entries)| && padding != []
    ensures Decode(Encode(entries)[..k]).None?
    ensures Decode(Encode(entries) + padding).None?
  {
    hide U32Bytes, TakeU32, TakeEntries, BodyBytes, Encode, Decode;
    var file := Encode(entries);
    var cut := Decode(file[..k]);
    if cut.Some? {
      DecodesExactlyTheEncoding(file[..k], cut.value);
      assert file == file[..k] + file[k..];
      PrefixCode(entries, cut.value, file[k..]);
    }
    var padded := Decode(file + padding);
    if padded.Some? {
      DecodesExactlyTheEncoding(file + padding, padded.value);
      PrefixCode(padded.value, entries, padding);
    }
  }

  // ------------------------------------------------------------------- the program

  method EncodeRespawnStateEntries(entries: seq<Entry>) returns (out: Bytes)
    ensures out == Encode(entries)
  {
    hide U32Bytes;
    out := U32Bytes(|entries|);
    var i := 0;
    assert entries[0..] == entries;
    while i < |entries|
      invariant i <= |entries|
      invariant Encode(entries) == out + BodyBytes(entries[i..])
    {
      hide Encode;
      var (key, value) := entries[i];
      assert entries[i..][1..] == entries[i + 1..];
      Assoc(out, EntryBytes(entries[i]), BodyBytes(entries[i + 1..]));
      Assoc4(out, U32Bytes(|key|), U32Bytes(|value|), key, value);
      Assoc4([], U32Bytes(|key|), U32Bytes(|value|), key, value);
      out := out + U32Bytes(|key|);
      out := out + U32Bytes(|value|);
      out := out + key;
      out := out + value;
      i := i + 1;
    }
    assert out + [] == out;
  }

  /** `take_u32` at a position. */
  method ReadU32(bytes: Bytes, pos: nat) returns (r: Option<nat>, next: nat)
    requires pos <= |bytes|
    ensures pos <= next <= |bytes|
    ensures TakeU32(bytes[pos..]) == if r.None? then None else Some((r.value, bytes[next..]))
  {
    var end := pos + 4;
    if end > |bytes| {
      return None, pos;
    }
    assert bytes[pos..][4..] == bytes[end..];
    return Some(LeValue(bytes[pos], bytes[pos + 1], bytes[pos + 2], bytes[pos + 3])), end;
  }

  method ReadText(bytes: Bytes, pos: nat, len: nat) returns (r: Option<Text>, next: nat)
    requires pos <= |bytes|
    ensures pos <= next <= |bytes|
    ensures TakeText(bytes[pos..], len) == if r.None? then None else Some((r.value, bytes[next..]))
  {
    hide WellFormed;
    var end := pos + len;
    if end > |bytes| {
      return None, pos;
    }
    assert bytes[pos..][..len] == bytes[pos..end] && bytes[pos..][len..] == bytes[end..];
    if !WellFormed(bytes[pos..end]) {
      return None, pos;
    }
    return Some(bytes[pos..end]), end;
  }

  method ReadEntry(bytes: Bytes, pos: nat) returns (r: Option<Entry>, next: nat)
    requires pos <= |bytes|
    ensures pos <= next <= |bytes|
    ensures TakeEntry(bytes[pos..]) == if r.None? then None else Some((r.value, bytes[next..]))
  {
    hide TakeU32, TakeText, WellFormed;
    r := None;
    var keyLen, valueLen, key, value;
    keyLen, next := ReadU32(bytes, pos);
    if keyLen.None? {
      return;
    }
    valueLen, next := ReadU32(bytes, next);
    if valueLen.None? {
      return;
    }
    key, next := ReadText(bytes, next, keyLen.value);
    if key.None? {
      return;
    }
    value, next := ReadText(bytes, next, valueLen.value);
    if value.None? {
      return;
    }
    r := Some((key.value, value.value));
  }

  method DecodeRespawnStateEntries(bytes: Bytes) returns (r: Option<seq<Entry>>)
    ensures r == Decode(bytes)
  {
    hide TakeU32, TakeEntry;
    assert bytes[0..] == bytes;
    var count, pos := ReadU32(bytes, 0);
    if count.None? {
      return None;
    }
    ghost var body := bytes[pos..];
    var entries: seq<Entry> := [];
    PrependNothing(TakeEntries(body, count.value));
    var i := 0;
    while i < count.value
      invariant i <= count.value && pos <= |bytes|
      invariant TakeEntries(body, count.value) == Prepended(entries, TakeEntries(bytes[pos..], count.value - i))
    {
      ghost var tail := TakeEntries(bytes[pos..], count.value - i);
      ghost var was := pos;
      var entry;
      entry, pos := ReadEntry(bytes, pos);
      if entry.None? {
        return None;
      }
      PrependNext(entries, entry.value, TakeEntries(bytes[pos..], count.value - i - 1));
      entries := entries + [entry.value];
      i := i + 1;
    }
    assert entries + [] == entries;
    if pos != |bytes| {
      return None;
    }
    return Some(entries);
  }

  lemma PrependNothing(r: Option<(seq<Entry>, Bytes)>)
    ensures Prepended([], r) == r
  {
    if r.Some? {
      assert [] + r.value.0 == r.value.0;
    }
  }

  lemma PrependNext(entries: seq<Entry>, entry: Entry, r: Option<(seq<Entry>, Bytes)>)
    ensures Prepended(entries, Prepended([entry], r)) == Prepended(entries + [entry], r)
  {
    if r.Some? {
      assert entries + ([entry] + r.value.0) == entries + [entry] + r.value.0;
    }
  }
}
