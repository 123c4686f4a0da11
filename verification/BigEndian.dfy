/**
 Byte buffers with big-endian words, as the code-signature and FAT formats use them.
 */
module BigEndian {
  import opened Wrappers

  type Bytes = seq<byte>

  const WORD: nat := 0x1_0000_0000

  function Word(s: Bytes, at: nat): (w: nat)
    requires at + 4 <= |s|
    ensures w < WORD
  {
    ((s[at] as nat * 256 + s[at + 1] as nat) * 256 + s[at + 2] as nat) * 256 + s[at + 3] as nat
  }

  function Encode(v: nat): (b: Bytes)
    requires v < WORD
    ensures |b| == 4 && Word(b, 0) == v
  {
    var high := v / 256;
    var higher := high / 256;
    [(higher / 256) as byte, (higher % 256) as byte, (high % 256) as byte, (v % 256) as byte]
  }

  function Zeros(n: nat): (z: Bytes)
    ensures |z| == n
    ensures forall i :: 0 <= i < n ==> z[i] == 0
  {
    seq(n, _ => 0)
  }

  /** `s` with `b` copied over it at `at`. */
  function Put(s: Bytes, at: nat, b: Bytes): (r: Bytes)
    requires at + |b| <= |s|
    ensures |r| == |s|
    ensures forall i :: 0 <= i < |s| ==> r[i] == if at <= i < at + |b| then b[i - at] else s[i]
  {
    s[..at] + b + s[at + |b|..]
  }

  lemma PutReads(s: Bytes, at: nat, b: Bytes)
    requires at + |b| <= |s|
    ensures Put(s, at, b)[at..at + |b|] == b
  {
  }

  lemma PutKeeps(s: Bytes, at: nat, b: Bytes, lo: nat, hi: nat)
    requires at + |b| <= |s| && lo <= hi <= |s|
    requires hi <= at || at + |b| <= lo
    ensures Put(s, at, b)[lo..hi] == s[lo..hi]
  {
  }

  /** Copying a piece either fills a stretch of its size or misses it. */
  lemma PutSlice(s: Bytes, at: nat, b: Bytes, lo: nat)
    requires at + |b| <= |s| && lo + |b| <= |s|
    requires at == lo || at + |b| <= lo || lo + |b| <= at
    ensures Put(s, at, b)[lo..lo + |b|] == if at == lo then b else s[lo..lo + |b|]
  {
  }

  /** A piece of a tail that moved is the piece it was. */
  lemma PieceMoves(s: Bytes, t: Bytes, from: nat, to: nat, at: nat, start: nat, n: nat)
    requires from <= at && at + n <= |s| && to <= start && start + n <= |t|
    requires at - from == start - to && s[from..] == t[to..]
    ensures s[at..at + n] == t[start..][..n]
  {
    var a, b := s[at..at + n], t[start..][..n];
    forall i | 0 <= i < n ensures a[i] == b[i] {
      assert s[from..][at - from + i] == t[to..][start - to + i];
    }
  }

  lemma PieceIsZero(s: Bytes, lo: nat, hi: nat, at: nat, n: nat)
    requires lo <= at && at + n <= hi <= |s| && s[lo..hi] == Zeros(hi - lo)
    ensures s[at..at + n] == Zeros(n)
  {
    var a := s[at..at + n];
    forall i | 0 <= i < n ensures a[i] == 0 {
      assert s[lo..hi][at - lo + i] == Zeros(hi - lo)[at - lo + i];
    }
  }

  lemma SameSlice(s: Bytes, t: Bytes, from: nat, to: nat, lo: nat, hi: nat)
    requires from <= lo <= hi <= to <= |s| && to <= |t| && s[from..to] == t[from..to]
    ensures s[lo..hi] == t[lo..hi]
  {
    forall i | lo <= i < hi ensures s[i] == t[i] {
      assert s[from..to][i - from] == t[from..to][i - from];
    }
  }

  lemma SameWords(s: Bytes, t: Bytes, n: nat)
    requires n <= |s| && n <= |t| && s[..n] == t[..n]
    ensures forall at :: 0 <= at <= n - 4 ==> Word(s, at) == Word(t, at)
  {
    forall at | 0 <= at <= n - 4 ensures Word(s, at) == Word(t, at) {
      assert s[..n] == s[0..n] && t[..n] == t[0..n];
      SameWord(s, t, 0, n, 0, at);
    }
  }

  /** A zeroed buffer of `n` bytes with four pieces copied to increasing places. */
  function Assemble(n: nat, p0: Bytes, at1: nat, p1: Bytes, at2: nat, p2: Bytes, at3: nat, p3: Bytes): (r: Bytes)
    requires |p0| <= at1 && at1 + |p1| == at2 && at2 + |p2| <= at3 && at3 + |p3| == n
    ensures |r| == n
    ensures r[..|p0|] == p0 && r[|p0|..at1] == Zeros(at1 - |p0|)
    ensures r[at1..at2] == p1 && r[at2..at2 + |p2|] == p2
    ensures r[at2 + |p2|..at3] == Zeros(at3 - (at2 + |p2|)) && r[at3..] == p3
  {
    Put(Put(Put(Put(Zeros(n), 0, p0), at1, p1), at2, p2), at3, p3)
  }

  /** Equal stretches read the same words. */
  lemma SameWord(s: Bytes, t: Bytes, lo: nat, hi: nat, to: nat, at: nat)
    requires lo <= at && at + 4 <= hi <= |s| && to + (hi - lo) <= |t|
    requires s[lo..hi] == t[to..to + (hi - lo)]
    ensures Word(s, at) == Word(t, to + (at - lo))
  {
    var a, b := s[lo..hi], t[to..to + (hi - lo)];
    assert a[at - lo] == b[at - lo] && a[at - lo + 1] == b[at - lo + 1];
    assert a[at - lo + 2] == b[at - lo + 2] && a[at - lo + 3] == b[at - lo + 3];
  }

  // ----- Several words at once ------------------------------------------------------

  datatype Field = Field(at: nat, value: nat)

  ghost predicate FieldsFit(fields: seq<Field>, n: nat) {
    && (forall k :: 0 <= k < |fields| ==> fields[k].at + 4 <= n && fields[k].value < WORD)
    && (forall j, k :: 0 <= j < k < |fields| ==> fields[j].at + 4 <= fields[k].at || fields[k].at + 4 <= fields[j].at)
  }

  /** Fields in order, none reaching into the next. */
  ghost predicate Ascending(fields: seq<Field>, from: nat, n: nat) {
    && (forall k :: 0 <= k < |fields| ==> from <= fields[k].at && fields[k].at + 4 <= n && fields[k].value < WORD)
    && (forall k :: 0 < k < |fields| ==> fields[k - 1].at + 4 <= fields[k].at)
  }

  lemma {:induction false} AscendingOrder(fields: seq<Field>, from: nat, n: nat, j: nat, k: nat)
    requires Ascending(fields, from, n) && j < k < |fields|
    ensures fields[j].at + 4 <= fields[k].at
    decreases k
  {
    if j < k - 1 { AscendingOrder(fields, from, n, j, k - 1); }
  }

  lemma AscendingFit(fields: seq<Field>, from: nat, n: nat)
    requires Ascending(fields, from, n)
    ensures FieldsFit(fields, n)
  {
    forall j, k | 0 <= j < k < |fields| ensures fields[j].at + 4 <= fields[k].at {
      AscendingOrder(fields, from, n, j, k);
    }
  }

  lemma AscendingOn(fields: seq<Field>, from: nat, at: nat, more: seq<Field>, n: nat)
    requires Ascending(fields, from, at) && Ascending(more, at, n) && from <= at <= n
    ensures Ascending(fields + more, from, n)
  {
  }

  /** No field reaches into [lo, hi). */
  ghost predicate Untouched(fields: seq<Field>, lo: nat, hi: nat) {
    forall k :: 0 <= k < |fields| ==> fields[k].at + 4 <= lo || hi <= fields[k].at
  }

  ghost function PutWords(s: Bytes, fields: seq<Field>): (r: Bytes)
    requires FieldsFit(fields, |s|)
    ensures |r| == |s|
    decreases |fields|
  {
    if fields == [] then s
    else PutWords(Put(s, fields[0].at, Encode(fields[0].value)), fields[1..])
  }

  lemma {:induction false} WordsKeep(s: Bytes, fields: seq<Field>, lo: nat, hi: nat)
    requires FieldsFit(fields, |s|) && lo <= hi <= |s|
    requires Untouched(fields, lo, hi)
    ensures PutWords(s, fields)[lo..hi] == s[lo..hi]
    decreases |fields|
  {
    if fields != [] {
      var next := Put(s, fields[0].at, Encode(fields[0].value));
      WordsKeep(next, fields[1..], lo, hi);
      PutKeeps(s, fields[0].at, Encode(fields[0].value), lo, hi);
    }
  }

  lemma {:induction false} WordsRead(s: Bytes, fields: seq<Field>, k: nat)
    requires FieldsFit(fields, |s|) && k < |fields|
    ensures Word(PutWords(s, fields), fields[k].at) == fields[k].value
    decreases |fields|
  {
    hide Encode, Word, Put;
    var next := Put(s, fields[0].at, Encode(fields[0].value));
    if k > 0 {
      WordsRead(next, fields[1..], k - 1);
    } else {
      var at := fields[0].at;
      WordsKeep(next, fields[1..], at, at + 4);
      PutReads(s, at, Encode(fields[0].value));
      SameWord(PutWords(s, fields), Encode(fields[0].value), at, at + 4, 0, at);
    }
  }

  lemma WordsReadAt(s: Bytes, fields: seq<Field>, field: Field)
    requires FieldsFit(fields, |s|) && field in fields
    ensures field.at + 4 <= |s| && Word(PutWords(s, fields), field.at) == field.value
  {
    var k :| 0 <= k < |fields| && fields[k] == field;
    WordsRead(s, fields, k);
  }

  lemma PutWord(s: Bytes, at: nat, v: nat)
    requires at + 4 <= |s| && v < WORD
    ensures Word(Put(s, at, Encode(v)), at) == v
    ensures forall i :: 0 <= i <= |s| - 4 && (i + 4 <= at || at + 4 <= i) ==>
              Word(Put(s, at, Encode(v)), i) == Word(s, i)
  {
    PutReads(s, at, Encode(v));
    SameWord(Put(s, at, Encode(v)), Encode(v), at, at + 4, 0, at);
  }

  lemma PutKeepsWords(s: Bytes, at: nat, b: Bytes)
    requires at + |b| <= |s|
    ensures forall i :: 0 <= i <= |s| - 4 && (i + 4 <= at || at + |b| <= i) ==> Word(Put(s, at, b), i) == Word(s, i)
  {
  }

  lemma {:induction false} WordsAppend(s: Bytes, fields: seq<Field>, last: Field)
    requires FieldsFit(fields, |s|) && FieldsFit(fields + [last], |s|)
    requires last.at + 4 <= |s| && last.value < WORD
    ensures PutWords(s, fields + [last]) == Put(PutWords(s, fields), last.at, Encode(last.value))
    decreases |fields|
  {
    if fields == [] {
      assert fields + [last] == [last];
    } else {
      assert (fields + [last])[0] == fields[0] && (fields + [last])[1..] == fields[1..] + [last];
      assert FieldsFit(fields[1..] + [last], |s|) by {
        forall j, k | 0 <= j < k < |fields[1..] + [last]|
          ensures (fields[1..] + [last])[j].at + 4 <= (fields[1..] + [last])[k].at ||
              (fields[1..] + [last])[k].at + 4 <= (fields[1..] + [last])[j].at
        {
          assert (fields + [last])[j + 1] == (fields[1..] + [last])[j];
          assert (fields + [last])[k + 1] == (fields[1..] + [last])[k];
        }
      }
      WordsAppend(Put(s, fields[0].at, Encode(fields[0].value)), fields[1..], last);
    }
  }

  // ----- Buffers ---------------------------------------------------------------------

  method CopyInto(a: array<byte>, at: nat, b: Bytes)
    requires at + |b| <= a.Length
    modifies a
    ensures a[..] == Put(old(a[..]), at, b)
  {
    var i := 0;
    while i < |b|
      invariant 0 <= i <= |b|
      invariant forall k :: 0 <= k < a.Length ==> a[k] == if at <= k < at + i then b[k - at] else old(a[k])
    {
      a[at + i] := b[i];
      i := i + 1;
    }
  }

  method WriteWords(a: array<byte>, fields: seq<Field>)
    requires FieldsFit(fields, a.Length)
    modifies a
    ensures a[..] == PutWords(old(a[..]), fields)
  {
    hide Encode, Word, Put;
    var i := 0;
    while i < |fields|
      invariant 0 <= i <= |fields|
      invariant a[..] == PutWords(old(a[..]), fields[..i])
    {
      assert fields[..i + 1] == fields[..i] + [fields[i]];
      WordsAppend(old(a[..]), fields[..i], fields[i]);
      CopyInto(a, fields[i].at, Encode(fields[i].value));
      i := i + 1;
    }
    assert fields[..i] == fields;
  }

  method AssembleBuffer(n: nat, p0: Bytes, at1: nat, p1: Bytes, at2: nat, p2: Bytes, at3: nat,
      p3: Bytes) returns (a: array<byte>)
    requires |p0| <= at1 && at1 + |p1| == at2 && at2 + |p2| <= at3 && at3 + |p3| == n
    ensures fresh(a) && a[..] == Assemble(n, p0, at1, p1, at2, p2, at3, p3)
  {
    hide Put;
    a := new byte[n](_ => 0);
    assert a[..] == Zeros(n);
    CopyInto(a, 0, p0);
    CopyInto(a, at1, p1);
    CopyInto(a, at2, p2);
    CopyInto(a, at3, p3);
  }
}
