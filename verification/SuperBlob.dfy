/**
 The embedded signature: an index of typed blobs.  A parser that accepts only
 signatures whose blobs are in range, disjoint and of distinct types, and a packer
 whose output that parser reads back exactly.
 */
module SuperBlob {
  import opened Wrappers
  import opened BigEndian

  const MAGIC: nat := 0xfade0cc0
  const MAX_BLOBS: nat := 64
  const HEADER: nat := 12
  const ENTRY: nat := 8

  datatype Blob = Blob(kind: nat, bytes: Bytes)

  // ----- Parsing ----------------------------------------------------------------------

  predicate Framed(s: Bytes) {
    && |s| >= HEADER && Word(s, 0) == MAGIC
    && HEADER <= Word(s, 4) <= |s|
    && 1 <= Word(s, 8) <= MAX_BLOBS && HEADER + ENTRY * Word(s, 8) <= Word(s, 4)
  }

  function Kind(s: Bytes, i: nat): nat
    requires Framed(s) && i < Word(s, 8)
  {
    Word(s, HEADER + ENTRY * i)
  }

  function Offset(s: Bytes, i: nat): nat
    requires Framed(s) && i < Word(s, 8)
  {
    Word(s, HEADER + ENTRY * i + 4)
  }

  predicate EntryOk(s: Bytes, i: nat)
    requires Framed(s) && i < Word(s, 8)
  {
    && HEADER + ENTRY * Word(s, 8) <= Offset(s, i) && Offset(s, i) + 8 <= Word(s, 4)
    && 8 <= Word(s, Offset(s, i) + 4) && Offset(s, i) + Word(s, Offset(s, i) + 4) <= Word(s, 4)
  }

  function Size(s: Bytes, i: nat): nat
    requires Framed(s) && i < Word(s, 8) && EntryOk(s, i)
  {
    Word(s, Offset(s, i) + 4)
  }

  /** Two entries of one type, or overlapping. */
  predicate Clash(s: Bytes, j: nat, i: nat)
    requires Framed(s) && i < Word(s, 8) && j < Word(s, 8) && EntryOk(s, i) && EntryOk(s, j)
  {
    || Kind(s, i) == Kind(s, j)
    || (Offset(s, i) < Offset(s, j) + Size(s, j) && Offset(s, j) < Offset(s, i) + Size(s, i))
  }

  ghost predicate Parses(s: Bytes) {
    && Framed(s)
    && (forall i :: 0 <= i < Word(s, 8) ==> EntryOk(s, i))
    && (forall j, i :: 0 <= j < i < Word(s, 8) ==> !Clash(s, j, i))
  }

  function BlobAt(s: Bytes, i: nat): Blob
    requires Framed(s) && i < Word(s, 8) && EntryOk(s, i)
  {
    Blob(Kind(s, i), s[Offset(s, i)..Offset(s, i) + Size(s, i)])
  }

  ghost function View(s: Bytes): (v: seq<Blob>)
    requires Parses(s)
    ensures |v| == Word(s, 8)
  {
    seq(Word(s, 8), i requires 0 <= i < Word(s, 8) => BlobAt(s, i))
  }

  method Parse(s: Bytes) returns (r: Option<seq<Blob>>)
    ensures r.Some? <==> Parses(s)
    ensures r.Some? ==> r.value == View(s)
  {
    hide Word;
    if !Framed(s) { return None; }
    var count := Word(s, 8);
    var blobs := [];
    var i := 0;
    while i < count
      invariant 0 <= i <= count && |blobs| == i
      invariant forall k :: 0 <= k < i ==> EntryOk(s, k) && blobs[k] == BlobAt(s, k)
      invariant forall j, k :: 0 <= j < k < i ==> !Clash(s, j, k)
    {
      if !EntryOk(s, i) { return None; }
      var clash := ClashesBefore(s, i);
      if clash { return None; }
      blobs := blobs + [BlobAt(s, i)];
      i := i + 1;
    }
    return Some(blobs);
  }

  method ClashesBefore(s: Bytes, i: nat) returns (clash: bool)
    requires Framed(s) && i < Word(s, 8) && forall k :: 0 <= k <= i ==> EntryOk(s, k)
    ensures clash <==> exists j :: 0 <= j < i && Clash(s, j, i)
  {
    hide Word;
    var previous := 0;
    while previous < i
      invariant 0 <= previous <= i
      invariant forall j :: 0 <= j < previous ==> !Clash(s, j, i)
    {
      if Clash(s, previous, i) { return true; }
      previous := previous + 1;
    }
    return false;
  }

  /** The parsed blobs have distinct types and carry their own lengths. */
  lemma ViewIsWellFormed(s: Bytes)
    requires Parses(s)
    ensures forall j, i :: 0 <= j < i < |View(s)| ==> View(s)[j].kind != View(s)[i].kind
    ensures forall i :: 0 <= i < |View(s)| ==> WellFormed(View(s)[i])
  {
    hide Word;
    forall j, i | 0 <= j < i < |View(s)| ensures View(s)[j].kind != View(s)[i].kind { assert !Clash(s, j, i); }
    forall i | 0 <= i < |View(s)| ensures WellFormed(View(s)[i]) {
      assert EntryOk(s, i);
      var at, b := Offset(s, i), View(s)[i].bytes;
      SameWord(s, b, at, at + |b|, 0, at + 4);
    }
  }

  // ----- Packing -------------------------------------------------------------------------

  predicate WellFormed(blob: Blob) {
    8 <= |blob.bytes| < WORD && Word(blob.bytes, 4) == |blob.bytes| && blob.kind < WORD
  }

  /** Where blob `k` starts once packed; for `k == |blobs|`, the packed length. */
  function OffsetOf(blobs: seq<Blob>, k: nat): nat
    requires k <= |blobs|
  {
    if k == 0 then HEADER + ENTRY * |blobs| else OffsetOf(blobs, k - 1) + |blobs[k - 1].bytes|
  }

  lemma {:induction false} OffsetsGrow(blobs: seq<Blob>, j: nat, k: nat)
    requires j <= k <= |blobs|
    ensures OffsetOf(blobs, j) <= OffsetOf(blobs, k)
    ensures j < k ==> OffsetOf(blobs, j) + |blobs[j].bytes| <= OffsetOf(blobs, k)
    ensures HEADER + ENTRY * |blobs| <= OffsetOf(blobs, j)
    decreases k
  {
    if j < k { OffsetsGrow(blobs, j, k - 1); }
    if j == k && k > 0 { OffsetsGrow(blobs, j - 1, k - 1); }
  }

  ghost predicate CanPack(blobs: seq<Blob>, capacity: nat) {
    && 1 <= |blobs| <= MAX_BLOBS
    && (forall i :: 0 <= i < |blobs| ==> WellFormed(blobs[i]))
    && OffsetOf(blobs, |blobs|) <= capacity && OffsetOf(blobs, |blobs|) < WORD
  }

  ghost predicate EntryIn(blobs: seq<Blob>, a: Bytes, j: nat)
    requires j < |blobs| && OffsetOf(blobs, |blobs|) <= |a|
  {
    OffsetsGrow(blobs, j, |blobs|);
    OffsetsGrow(blobs, 0, j);
    && Word(a, HEADER + ENTRY * j) == blobs[j].kind
    && Word(a, HEADER + ENTRY * j + 4) == OffsetOf(blobs, j)
    && a[OffsetOf(blobs, j)..OffsetOf(blobs, j) + |blobs[j].bytes|] == blobs[j].bytes
  }

  ghost predicate HeaderIn(blobs: seq<Blob>, a: Bytes) {
    && |a| >= HEADER && Word(a, 0) == MAGIC && Word(a, 4) == OffsetOf(blobs, |blobs|) && Word(a, 8) == |blobs|
  }

  /** The first `k` blobs are in place and nothing follows them. */
  ghost predicate PackedUpTo(blobs: seq<Blob>, a: Bytes, k: nat)
    requires k <= |blobs|
  {
    && OffsetOf(blobs, |blobs|) <= |a| && HeaderIn(blobs, a)
    && (forall j :: 0 <= j < k ==> EntryIn(blobs, a, j))
    && (forall i :: OffsetOf(blobs, k) <= i < |a| ==> a[i] == 0)
  }

  ghost predicate DistinctKinds(blobs: seq<Blob>) {
    forall j, i :: 0 <= j < i < |blobs| ==> blobs[j].kind != blobs[i].kind
  }

  /** What is packed is what is parsed. */
  lemma PackedParses(blobs: seq<Blob>, a: Bytes)
    requires CanPack(blobs, |a|) && DistinctKinds(blobs) && PackedUpTo(blobs, a, |blobs|)
    ensures Parses(a) && View(a) == blobs
  {
    hide Word, OffsetOf, WellFormed;
    OffsetsGrow(blobs, 0, |blobs|);
    forall i | 0 <= i < |blobs|
      ensures EntryOk(a, i) && BlobAt(a, i) == blobs[i]
    {
      PackedEntry(blobs, a, i);
    }
    forall j, i | 0 <= j < i < |blobs|
      ensures !Clash(a, j, i)
    {
      PackedEntry(blobs, a, i);
      PackedEntry(blobs, a, j);
      OffsetsGrow(blobs, j, i);
    }
    assert View(a) == blobs;
  }

  lemma PackedEntry(blobs: seq<Blob>, a: Bytes, i: nat)
    requires CanPack(blobs, |a|) && PackedUpTo(blobs, a, |blobs|) && i < |blobs|
    ensures Framed(a) && EntryOk(a, i) && BlobAt(a, i) == blobs[i]
    ensures Offset(a, i) == OffsetOf(blobs, i) && Size(a, i) == |blobs[i].bytes|
  {
    hide Word, OffsetOf;
    OffsetsGrow(blobs, 0, |blobs|);
    OffsetsGrow(blobs, i, |blobs|);
    assert EntryIn(blobs, a, i) && WellFormed(blobs[i]);
    var at := OffsetOf(blobs, i);
    SameWord(a, blobs[i].bytes, at, at + |blobs[i].bytes|, 0, at + 4);
  }

  /** `a` with the index entry and the bytes of blob `k` written. */
  ghost function WithBlob(blobs: seq<Blob>, a: Bytes, k: nat): (r: Bytes)
    requires CanPack(blobs, |a|) && k < |blobs|
    ensures |r| == |a|
  {
    OffsetsGrow(blobs, 0, k);
    OffsetsGrow(blobs, k, |blobs|);
    assert WellFormed(blobs[k]);
    var at := HEADER + ENTRY * k;
    Put(Put(Put(a, at, Encode(blobs[k].kind)), at + 4, Encode(OffsetOf(blobs, k))), OffsetOf(blobs, k), blobs[k].bytes)
  }

  /** Writing blob `k` touches its index entry and its own bytes only. */
  lemma WithBlobWords(blobs: seq<Blob>, a: Bytes, k: nat)
    requires CanPack(blobs, |a|) && k < |blobs|
    ensures HEADER + ENTRY * |blobs| <= OffsetOf(blobs, k) <= |a|
    ensures var r, at := WithBlob(blobs, a, k), HEADER + ENTRY * k;
      && Word(r, at) == blobs[k].kind && Word(r, at + 4) == OffsetOf(blobs, k)
      && (forall i :: 0 <= i <= OffsetOf(blobs, k) - 4 && (i + 4 <= at || at + 8 <= i) ==> Word(r, i) == Word(a, i))
  {
    hide Word, Encode, Put, OffsetOf;
    OffsetsGrow(blobs, 0, k);
    OffsetsGrow(blobs, k, |blobs|);
    assert WellFormed(blobs[k]);
    var at, from := HEADER + ENTRY * k, OffsetOf(blobs, k);
    var a1 := Put(a, at, Encode(blobs[k].kind));
    var a2 := Put(a1, at + 4, Encode(from));
    PutWord(a, at, blobs[k].kind);
    PutWord(a1, at + 4, from);
    PutKeepsWords(a2, from, blobs[k].bytes);
  }

  lemma WithBlobBytes(blobs: seq<Blob>, a: Bytes, k: nat)
    requires CanPack(blobs, |a|) && k < |blobs|
    ensures HEADER + ENTRY * |blobs| <= OffsetOf(blobs, k) && OffsetOf(blobs, k) + |blobs[k].bytes| <= |a|
    ensures var r, from := WithBlob(blobs, a, k), OffsetOf(blobs, k);
      && r[from..from + |blobs[k].bytes|] == blobs[k].bytes
      && (forall i :: HEADER + ENTRY * |blobs| <= i < |a| && !(from <= i < from + |blobs[k].bytes|) ==> r[i] == a[i])
  {
    hide Word, Encode, OffsetOf;
    OffsetsGrow(blobs, 0, k);
    OffsetsGrow(blobs, k, |blobs|);
    assert WellFormed(blobs[k]);
  }

  lemma PackStep(blobs: seq<Blob>, a: Bytes, k: nat)
    requires CanPack(blobs, |a|) && k < |blobs| && PackedUpTo(blobs, a, k)
    ensures PackedUpTo(blobs, WithBlob(blobs, a, k), k + 1)
  {
    hide Word, Encode, WithBlob, WellFormed;
    OffsetsGrow(blobs, 0, k);
    OffsetsGrow(blobs, k, |blobs|);
    WithBlobWords(blobs, a, k);
    WithBlobBytes(blobs, a, k);
    var r := WithBlob(blobs, a, k);
    forall j | 0 <= j < k + 1 ensures EntryIn(blobs, r, j) {
      OffsetsGrow(blobs, 0, j);
      OffsetsGrow(blobs, j, k);
      if j < k {
        assert EntryIn(blobs, a, j);
        var from := OffsetOf(blobs, j);
        assert r[from..from + |blobs[j].bytes|] == a[from..from + |blobs[j].bytes|];
      }
    }
  }

  /** Packs sorted blobs into a zeroed allocation of `capacity` bytes. */
  method Pack(blobs: seq<Blob>, capacity: nat) returns (a: array<byte>)
    requires CanPack(blobs, capacity) && DistinctKinds(blobs)
    ensures fresh(a) && a.Length == capacity
    ensures Parses(a[..]) && View(a[..]) == blobs
    ensures forall i :: OffsetOf(blobs, |blobs|) <= i < capacity ==> a[i] == 0
  {
    hide Word, Encode, Put, WithBlob, HeaderIn, EntryIn;
    OffsetsGrow(blobs, 0, |blobs|);
    var length := PackedLength(blobs);
    a := new byte[capacity](_ => 0);
    assert a[..] == Zeros(capacity);
    var fields := [Field(0, MAGIC), Field(4, length), Field(8, |blobs|)];
    WriteWords(a, fields);
    assert PackedUpTo(blobs, a[..], 0) by { HeaderWritten(blobs, capacity, fields); }
    var k, offset := 0, HEADER + ENTRY * |blobs|;
    while k < |blobs|
      invariant 0 <= k <= |blobs| && offset == OffsetOf(blobs, k)
      invariant PackedUpTo(blobs, a[..], k)
    {
      PackStep(blobs, a[..], k);
      WriteBlob(blobs, a, k, offset);
      offset := offset + |blobs[k].bytes|;
      k := k + 1;
    }
    PackedParses(blobs, a[..]);
  }

  method PackedLength(blobs: seq<Blob>) returns (length: nat)
    ensures length == OffsetOf(blobs, |blobs|)
  {
    length := HEADER + ENTRY * |blobs|;
    for i := 0 to |blobs|
      invariant length == OffsetOf(blobs, i)
    {
      length := length + |blobs[i].bytes|;
    }
  }

  method WriteBlob(blobs: seq<Blob>, a: array<byte>, k: nat, offset: nat)
    requires CanPack(blobs, a.Length) && k < |blobs| && offset == OffsetOf(blobs, k)
    modifies a
    ensures a[..] == WithBlob(blobs, old(a[..]), k)
  {
    hide Word, Encode, Put;
    OffsetsGrow(blobs, 0, k);
    OffsetsGrow(blobs, k, |blobs|);
    assert WellFormed(blobs[k]);
    var at := HEADER + ENTRY * k;
    CopyInto(a, at, Encode(blobs[k].kind));
    CopyInto(a, at + 4, Encode(offset));
    CopyInto(a, offset, blobs[k].bytes);
  }

  lemma {:induction false} HeaderWritten(blobs: seq<Blob>, capacity: nat, fields: seq<Field>)
    requires CanPack(blobs, capacity) && HEADER + ENTRY * |blobs| <= capacity
    requires fields == [Field(0, MAGIC), Field(4, OffsetOf(blobs, |blobs|)), Field(8, |blobs|)]
    ensures PackedUpTo(blobs, PutWords(Zeros(capacity), fields), 0)
  {
    hide Word, Encode, Put, PutWords;
    WordsRead(Zeros(capacity), fields, 0);
    WordsRead(Zeros(capacity), fields, 1);
    WordsRead(Zeros(capacity), fields, 2);
    WordsKeep(Zeros(capacity), fields, HEADER, capacity);
    var r := PutWords(Zeros(capacity), fields);
    forall i | HEADER <= i < capacity ensures r[i] == 0 {
      assert r[HEADER..capacity][i - HEADER] == Zeros(capacity)[HEADER..capacity][i - HEADER];
    }
  }
}
