/**
 The FAT image the injector writes: aligned slices behind a table that names the
 arm64 shim first, copied and checked in chunks, and read back by the parser.
 */
module FatImage {
  import opened Wrappers
  import opened BigEndian
  import Bits
  import M = MachOSlice

  const FAT_MAGIC: nat := 0xcafebabe
  const FAT_MAGIC_64: nat := 0xcafebabf
  const HEADER: nat := 8
  const ENTRY: nat := 20
  const MAX_SLICES: nat := 5
  const MIN_ALIGN: nat := 14
  const MAX_ALIGN: nat := 30

  datatype Replacement = Replacement(at: nat, bytes: Bytes)

  /** A slice to write: source bytes, part of which may be replaced. */
  datatype Output = Output(
    source: Bytes,
    replacement: Option<Replacement>,
    cpuType: nat,
    cpuSubtype: nat,
    fileType: nat,
    sourceAlign: nat,
    is64Bit: bool,
    encrypted: bool)

  predicate ReplacementFits(o: Output) {
    o.replacement.Some? ==> o.replacement.value.at + |o.replacement.value.bytes| <= |o.source|
  }

  function Contents(o: Output): (r: Bytes)
    requires ReplacementFits(o)
    ensures |r| == |o.source|
  {
    match o.replacement
    case None => o.source
    case Some(part) => Put(o.source, part.at, part.bytes)
  }

  // ----- Layout ------------------------------------------------------------------------

  function Align(o: Output): nat {
    if o.sourceAlign < MIN_ALIGN then MIN_ALIGN else o.sourceAlign
  }

  /** Where one slice goes behind `end`; nothing if FAT32 cannot say so. */
  function PlaceOne(o: Output, end: nat): (r: Option<nat>) {
    if Align(o) > MAX_ALIGN then None
    else
      var offset := Bits.AlignUp(end, Bits.Pow2(Align(o)));
      if offset >= WORD || |o.source| >= WORD || offset + |o.source| >= WORD then None else Some(offset)
  }

  /** Slices one after another from `end` on. */
  function Place(outs: seq<Output>, end: nat): (r: Option<seq<nat>>)
    ensures r.Some? ==> |r.value| == |outs|
    decreases |outs|
  {
    if outs == [] then Some([])
    else
      match PlaceOne(outs[0], end)
      case None => None
      case Some(offset) =>
        match Place(outs[1..], offset + |outs[0].source|)
        case None => None
        case Some(rest) => Some([offset] + rest)
  }

  ghost predicate Disjoint(outs: seq<Output>, offsets: seq<nat>)
    requires |outs| == |offsets|
  {
    forall i, j :: 0 <= i < j < |outs| ==> offsets[i] + |outs[i].source| <= offsets[j]
  }

  ghost predicate Aligned(outs: seq<Output>, offsets: seq<nat>, from: nat)
    requires |outs| == |offsets|
  {
    forall i :: 0 <= i < |outs| ==>
      && from <= offsets[i] && offsets[i] % Bits.Pow2(Align(outs[i])) == 0 && Align(outs[i]) <= MAX_ALIGN
      && offsets[i] + |outs[i].source| < WORD
  }

  /** Each slice follows the one before it with less padding than its alignment. */
  ghost predicate Tight(outs: seq<Output>, offsets: seq<nat>, from: nat)
    requires |outs| == |offsets|
  {
    forall i :: 0 <= i < |outs| ==> offsets[i] < EndBefore(outs, offsets, from, i) + Bits.Pow2(Align(outs[i]))
  }

  /** Where the slice before the i-th ends. */
  function EndBefore(outs: seq<Output>, offsets: seq<nat>, from: nat, i: nat): nat
    requires i < |outs| == |offsets|
  {
    if i == 0 then from else offsets[i - 1] + |outs[i - 1].source|
  }

  lemma {:induction false} PlaceIsSound(outs: seq<Output>, end: nat)
    requires Place(outs, end).Some?
    ensures Disjoint(outs, Place(outs, end).value) && Aligned(outs, Place(outs, end).value, end)
    ensures Tight(outs, Place(outs, end).value, end)
    decreases |outs|
  {
    hide Bits.AlignUp, Bits.Pow2, Tight;
    if outs != [] {
      var offsets := Place(outs, end).value;
      var next := offsets[0] + |outs[0].source|;
      PlaceIsSound(outs[1..], next);
      var rest := Place(outs[1..], next).value;
      assert offsets == [offsets[0]] + rest;
      forall i | 0 <= i < |outs| - 1 ensures outs[i + 1] == outs[1..][i] && offsets[i + 1] == rest[i] {}
      TightNext(outs, offsets, end);
    } else {
      TightEmpty(end);
    }
  }

  lemma TightEmpty(end: nat)
    ensures Tight([], [], end)
  {
  }

  lemma TightNext(outs: seq<Output>, offsets: seq<nat>, end: nat)
    requires 0 < |outs| == |offsets| && offsets[0] < end + Bits.Pow2(Align(outs[0]))
    requires Tight(outs[1..], offsets[1..], offsets[0] + |outs[0].source|)
    ensures Tight(outs, offsets, end)
  {
    hide Bits.Pow2, Align;
    var next := offsets[0] + |outs[0].source|;
    forall i | 0 <= i < |outs| ensures offsets[i] < EndBefore(outs, offsets, end, i) + Bits.Pow2(Align(outs[i])) {
      if i > 0 {
        assert outs[1..][i - 1] == outs[i] && offsets[1..][i - 1] == offsets[i];
        assert EndBefore(outs[1..], offsets[1..], next, i - 1) == EndBefore(outs, offsets, end, i);
      }
    }
  }

  /** The i-th slice begins at the first multiple of its alignment, at least 2^14, behind the one
      before it, and ends below 2^32. */
  ghost predicate PlacedAt(outs: seq<Output>, offsets: seq<nat>, from: nat, i: nat)
    requires i < |outs| == |offsets|
  {
    var align := if outs[i].sourceAlign < 14 then 14 else outs[i].sourceAlign;
    var unit, end := Bits.Pow2(align), EndBefore(outs, offsets, from, i);
    && align <= 30 && offsets[i] % unit == 0 && end <= offsets[i] < end + unit
    && offsets[i] + |outs[i].source| < 0x1_0000_0000
  }

  ghost predicate AllPlaced(outs: seq<Output>, offsets: seq<nat>, from: nat) {
    |offsets| == |outs| && forall i :: 0 <= i < |outs| ==> PlacedAt(outs, offsets, from, i)
  }

  /** Behind a header of eight bytes and twenty for each slice. */
  ghost predicate LaidOutAs(outs: seq<Output>, offsets: seq<nat>) {
    AllPlaced(outs, offsets, 8 + 20 * |outs|)
  }

  lemma LaidOutIff(outs: seq<Output>)
    ensures Place(outs, HEADER + ENTRY * |outs|).Some? <==> exists offsets :: LaidOutAs(outs, offsets)
    ensures forall offsets :: Place(outs, HEADER + ENTRY * |outs|) == Some(offsets) <==> LaidOutAs(outs, offsets)
  {
    hide Place, AllPlaced;
    var from := HEADER + ENTRY * |outs|;
    forall offsets ensures Place(outs, from) == Some(offsets) <==> LaidOutAs(outs, offsets) {
      PlaceIff(outs, offsets, from);
    }
    if Place(outs, from).Some? { assert LaidOutAs(outs, Place(outs, from).value); }
  }

  lemma PlaceOneIff(o: Output, end: nat, offset: nat)
    ensures PlaceOne(o, end) == Some(offset) <==> PlacedAt([o], [offset], end, 0)
  {
    hide Bits.AlignUp, Bits.Pow2;
    var unit := Bits.Pow2(Align(o));
    var up := Bits.AlignUp(end, unit);
    if end <= offset && offset % unit == 0 { Bits.AlignUpIsLeast(end, unit, offset); }
    if up < offset < end + unit && offset % unit == 0 { Bits.NoMultipleBetween(up, offset, unit); }
  }

  lemma PlacedLater(outs: seq<Output>, offsets: seq<nat>, from: nat, i: nat)
    requires i + 1 < |outs| == |offsets|
    ensures PlacedAt(outs, offsets, from, i + 1)
            <==> PlacedAt(outs[1..], offsets[1..], offsets[0] + |outs[0].source|, i)
  {
  }

  /** Slices are placed in exactly one way, if at all. */
  lemma {:induction false} PlaceIff(outs: seq<Output>, offsets: seq<nat>, from: nat)
    ensures Place(outs, from) == Some(offsets) <==> AllPlaced(outs, offsets, from)
    decreases |outs|
  {
    hide PlaceOne, PlacedAt;
    if |outs| == |offsets| && outs != [] {
      var next := offsets[0] + |outs[0].source|;
      PlaceOneIff(outs[0], from, offsets[0]);
      FirstPlaced(outs, offsets, from);
      PlaceIff(outs[1..], offsets[1..], next);
      forall i | 0 <= i < |outs| - 1
        ensures PlacedAt(outs, offsets, from, i + 1) <==> PlacedAt(outs[1..], offsets[1..], next, i)
      {
        PlacedLater(outs, offsets, from, i);
      }
      if AllPlaced(outs[1..], offsets[1..], next) {
        forall i | 0 < i < |outs| ensures PlacedAt(outs, offsets, from, i) {
          assert PlacedAt(outs[1..], offsets[1..], next, i - 1);
        }
      }
      assert [offsets[0]] + offsets[1..] == offsets;
    }
  }

  lemma FirstPlaced(outs: seq<Output>, offsets: seq<nat>, from: nat)
    requires 0 < |outs| == |offsets|
    ensures PlacedAt(outs, offsets, from, 0) <==> PlacedAt([outs[0]], [offsets[0]], from, 0)
  {
  }

  function Behind(offsets: seq<nat>, rest: Option<seq<nat>>): Option<seq<nat>> {
    match rest case None => None case Some(more) => Some(offsets + more)
  }

  lemma PlaceNothing(end: nat)
    ensures Place([], end) == Some([])
  {
  }

  lemma PlaceNext(outs: seq<Output>, i: nat, end: nat, offsets: seq<nat>)
    requires i < |outs|
    ensures Behind(offsets, Place(outs[i..], end)) ==
            match PlaceOne(outs[i], end)
            case None => None
            case Some(offset) => Behind(offsets + [offset], Place(outs[i + 1..], offset + |outs[i].source|))
  {
    hide PlaceOne;
    assert outs[i..][1..] == outs[i + 1..];
    match PlaceOne(outs[i], end)
    case None =>
    case Some(offset) =>
      var rest := Place(outs[i + 1..], offset + |outs[i].source|);
      assert rest.Some? ==> offsets + ([offset] + rest.value) == offsets + [offset] + rest.value;
  }

  method Layout(outs: seq<Output>) returns (r: Option<(seq<nat>, nat)>)
    ensures r.Some? <==> Place(outs, HEADER + ENTRY * |outs|).Some?
    ensures r.Some? ==> r.value.0 == Place(outs, HEADER + ENTRY * |outs|).value
    ensures r.Some? ==> LaidOutAs(outs, r.value.0)
    ensures r.None? ==> forall offsets :: !LaidOutAs(outs, offsets)
    ensures r.Some? ==> r.value.1 == if outs == [] then HEADER else r.value.0[|outs| - 1] + |outs[|outs| - 1].source|
  {
    hide Bits.AlignUp, Bits.Pow2, Place, LaidOutAs;
    LaidOutIff(outs);
    var offsets: seq<nat> := [];
    var end: nat := HEADER + ENTRY * |outs|;
    ghost var whole := Place(outs, HEADER + ENTRY * |outs|);
    assert outs[0..] == outs && (whole.Some? ==> offsets + whole.value == whole.value);
    for i := 0 to |outs|
      invariant |offsets| == i
      invariant whole == Behind(offsets, Place(outs[i..], end))
      invariant end == if i == 0 then HEADER + ENTRY * |outs| else offsets[i - 1] + |outs[i - 1].source|
    {
      PlaceNext(outs, i, end, offsets);
      var align := if outs[i].sourceAlign < MIN_ALIGN then MIN_ALIGN else outs[i].sourceAlign;
      if align > MAX_ALIGN { return None; }
      end := Bits.AlignUp(end, Bits.Pow2(align));
      if end >= WORD || |outs[i].source| >= WORD { return None; }
      offsets := offsets + [end];
      end := end + |outs[i].source|;
      if end >= WORD { return None; }
    }
    assert outs[|outs|..] == [] && offsets + [] == offsets;
    PlaceNothing(end);
    return Some((offsets, end));
  }

  // ----- Words in a row ------------------------------------------------------------------

  ghost predicate AreWords(ws: seq<nat>) {
    forall i :: 0 <= i < |ws| ==> ws[i] < WORD
  }

  function EncodeWords(ws: seq<nat>): (b: Bytes)
    requires forall i :: 0 <= i < |ws| ==> ws[i] < WORD
    ensures |b| == 4 * |ws|
  {
    if ws == [] then [] else EncodeWords(ws[..|ws| - 1]) + Encode(ws[|ws| - 1])
  }

  lemma {:induction false} WordInRow(ws: seq<nat>, i: nat)
    requires AreWords(ws) && i < |ws|
    ensures Word(EncodeWords(ws), 4 * i) == ws[i]
    decreases |ws|
  {
    hide Word, Encode;
    var last := |ws| - 1;
    var front, b := EncodeWords(ws[..last]), EncodeWords(ws);
    if i < last {
      WordInRow(ws[..last], i);
      SameWord(b, front, 0, |front|, 0, 4 * i);
    } else {
      SameWord(b, Encode(ws[last]), |front|, |front| + 4, 0, |front|);
    }
  }

  // ----- The table -------------------------------------------------------------------------

  /** The shim, written last, is described first. */
  function Index(descriptor: nat, targets: nat): nat {
    if descriptor == 0 then targets else descriptor - 1
  }

  /** Every output is described exactly once. */
  lemma IndexIsPermutation(targets: nat, output: nat)
    requires output <= targets
    ensures exists d :: 0 <= d <= targets && Index(d, targets) == output
    ensures forall c, d :: 0 <= c <= targets && 0 <= d <= targets && Index(c, targets) == Index(d, targets) ==> c == d
  {
    var d := if output == targets then 0 else output + 1;
    assert Index(d, targets) == output;
  }

  function DescriptorWords(o: Output, offset: nat): seq<nat> {
    [o.cpuType, o.cpuSubtype, offset, |o.source|, Align(o)]
  }

  /** The first `n` descriptors. */
  function TableWords(outs: seq<Output>, offsets: seq<nat>, n: nat): (ws: seq<nat>)
    requires n <= |outs| == |offsets|
    ensures |ws| == 5 * n
  {
    if n == 0 then []
    else
      var i := Index(n - 1, |outs| - 1);
      TableWords(outs, offsets, n - 1) + DescriptorWords(outs[i], offsets[i])
  }

  lemma {:induction false} TableWordAt(outs: seq<Output>, offsets: seq<nat>, n: nat, d: nat, k: nat)
    requires d < n <= |outs| == |offsets| && k < 5
    ensures Index(d, |outs| - 1) < |outs|
    ensures TableWords(outs, offsets, n)[5 * d + k]
            == DescriptorWords(outs[Index(d, |outs| - 1)], offsets[Index(d, |outs| - 1)])[k]
  {
    if d < n - 1 { TableWordAt(outs, offsets, n - 1, d, k); }
  }

  function HeaderWords(outs: seq<Output>, offsets: seq<nat>): (ws: seq<nat>)
    requires |outs| == |offsets|
    ensures |ws| == 2 + 5 * |outs|
  {
    [FAT_MAGIC, |outs|] + TableWords(outs, offsets, |outs|)
  }

  // ----- Copying in chunks ---------------------------------------------------------------------

  /** Copies a slice to `at`, chunk by chunk, then lays the replacement over it. */
  method CopySlice(o: Output, file: array<byte>, at: nat, chunk: nat) returns (ok: bool)
    requires chunk > 0 && at + |o.source| <= file.Length
    modifies file
    ensures ok <==> ReplacementFits(o)
    ensures file[..] == if ok then Put(old(file[..]), at, Contents(o)) else old(file[..])
  {
    hide Put;
    if !ReplacementFits(o) { return false; }
    var completed := 0;
    PutNothing(file[..], at, o.source);
    while completed < |o.source|
      invariant 0 <= completed <= |o.source|
      invariant file[..] == Put(old(file[..]), at, o.source[..completed])
    {
      var remaining := |o.source| - completed;
      var amount := if remaining < chunk then remaining else chunk;
      CopyInto(file, at + completed, o.source[completed..completed + amount]);
      PutInTwo(old(file[..]), at, o.source, completed, completed + amount);
      completed := completed + amount;
    }
    assert o.source[..completed] == o.source;
    if o.replacement.Some? {
      var part := o.replacement.value;
      CopyInto(file, at + part.at, part.bytes);
      PutOver(old(file[..]), at, o.source, part.at, part.bytes);
    }
    return true;
  }

  lemma PutNothing(s: Bytes, at: nat, b: Bytes)
    requires at <= |s|
    ensures Put(s, at, b[..0]) == s
  {
  }

  lemma PutInTwo(s: Bytes, at: nat, b: Bytes, k: nat, n: nat)
    requires k <= n <= |b| && at + |b| <= |s|
    ensures Put(Put(s, at, b[..k]), at + k, b[k..n]) == Put(s, at, b[..n])
  {
  }

  lemma PutOver(s: Bytes, at: nat, b: Bytes, k: nat, c: Bytes)
    requires k + |c| <= |b| && at + |b| <= |s|
    ensures Put(Put(s, at, b), at + k, c) == Put(s, at, Put(b, k, c))
  {
  }

  /** One chunk of the source with the replacement laid over it, as the check makes it. */
  method ExpectedChunk(o: Output, from: nat, amount: nat) returns (buffer: Bytes)
    requires ReplacementFits(o) && from + amount <= |o.source|
    ensures buffer == Contents(o)[from..from + amount]
  {
    buffer := o.source[from..from + amount];
    if o.replacement.Some? {
      var part := o.replacement.value;
      var chunkEnd, partEnd := from + amount, part.at + |part.bytes|;
      var lo := if from > part.at then from else part.at;
      var hi := if chunkEnd < partEnd then chunkEnd else partEnd;
      if lo < hi {
        buffer := Put(buffer, lo - from, part.bytes[lo - part.at..hi - part.at]);
      }
    }
  }

  /** Accepts exactly the spliced source, whatever the chunk size. */
  method SliceMatches(o: Output, file: Bytes, at: nat, chunk: nat) returns (ok: bool)
    requires chunk > 0 && at + |o.source| <= |file|
    ensures ok <==> ReplacementFits(o) && file[at..at + |o.source|] == Contents(o)
  {
    hide Put;
    if !ReplacementFits(o) { return false; }
    var completed := 0;
    while completed < |o.source|
      invariant 0 <= completed <= |o.source|
      invariant file[at..at + completed] == Contents(o)[..completed]
    {
      var remaining := |o.source| - completed;
      var amount := if remaining < chunk then remaining else chunk;
      var expected := ExpectedChunk(o, completed, amount);
      if file[at + completed..at + completed + amount] != expected {
        if file[at..at + |o.source|] == Contents(o) { SliceAt(file, at, Contents(o), completed, amount); assert false; }
        return false;
      }
      NextChunk(file, at, Contents(o), completed, amount);
      completed := completed + amount;
    }
    assert Contents(o)[..completed] == Contents(o);
    return true;
  }

  lemma SliceAt(file: Bytes, at: nat, c: Bytes, from: nat, amount: nat)
    requires from + amount <= |c| && at + |c| <= |file| && file[at..at + |c|] == c
    ensures file[at + from..at + from + amount] == c[from..from + amount]
  {
    var a, b := file[at + from..at + from + amount], c[from..from + amount];
    forall i | 0 <= i < amount ensures a[i] == b[i] {
      assert file[at..at + |c|][from + i] == c[from + i];
    }
  }

  lemma NextChunk(file: Bytes, at: nat, c: Bytes, from: nat, amount: nat)
    requires from + amount <= |c| && at + |c| <= |file|
    requires file[at..at + from] == c[..from] && file[at + from..at + from + amount] == c[from..from + amount]
    ensures file[at..at + from + amount] == c[..from + amount]
  {
    assert file[at..at + from + amount] == file[at..at + from] + file[at + from..at + from + amount];
    assert c[..from + amount] == c[..from] + c[from..from + amount];
  }

  // ----- Writing --------------------------------------------------------------------------------

  ghost predicate Writable(outs: seq<Output>, offsets: seq<nat>, total: nat) {
    && 1 <= |outs| == |offsets| <= MAX_SLICES
    && Disjoint(outs, offsets) && Aligned(outs, offsets, HEADER + ENTRY * |outs|)
    && (forall i :: 0 <= i < |outs| ==>
            && ReplacementFits(outs[i]) && outs[i].cpuType < WORD && outs[i].cpuSubtype < WORD
            && offsets[i] + |outs[i].source| <= total)
    && HEADER + ENTRY * |outs| <= total < WORD
    && AreWords(HeaderWords(outs, offsets))
  }

  ghost predicate SliceIn(outs: seq<Output>, offsets: seq<nat>, file: Bytes, i: nat)
    requires i < |outs| == |offsets|
  {
    && ReplacementFits(outs[i]) && offsets[i] + |outs[i].source| <= |file|
    && file[offsets[i]..offsets[i] + |outs[i].source|] == Contents(outs[i])
  }

  ghost predicate HeaderIn(outs: seq<Output>, offsets: seq<nat>, file: Bytes)
    requires |outs| == |offsets| && AreWords(HeaderWords(outs, offsets))
  {
    HEADER + ENTRY * |outs| <= |file| && file[..HEADER + ENTRY * |outs|] == EncodeWords(HeaderWords(outs, offsets))
  }

  /** Writes the table and every slice into a zeroed file of `total` bytes. */
  method WriteImage(outs: seq<Output>, offsets: seq<nat>, total: nat, chunk: nat) returns (file: array<byte>)
    requires Writable(outs, offsets, total) && chunk > 0
    ensures fresh(file) && file.Length == total
    ensures HeaderIn(outs, offsets, file[..])
    ensures forall i :: 0 <= i < |outs| ==> SliceIn(outs, offsets, file[..], i)
  {
    hide Put, EncodeWords, HeaderWords, Contents, Aligned, Disjoint, SliceIn, HeaderIn;
    file := new byte[total](_ => 0);
    assert file[..] == Zeros(total);
    CopyInto(file, 0, EncodeWords(HeaderWords(outs, offsets)));
    HeaderPut(outs, offsets, total);
    var i := 0;
    while i < |outs|
      invariant 0 <= i <= |outs| && file.Length == total && HeaderIn(outs, offsets, file[..])
      invariant forall j :: 0 <= j < i ==> SliceIn(outs, offsets, file[..], j)
    {
      SlicePut(outs, offsets, total, file[..], i);
      var ok := CopySlice(outs[i], file, offsets[i], chunk);
      i := i + 1;
    }
  }

  lemma HeaderPut(outs: seq<Output>, offsets: seq<nat>, total: nat)
    requires Writable(outs, offsets, total)
    ensures HeaderIn(outs, offsets, Put(Zeros(total), 0, EncodeWords(HeaderWords(outs, offsets))))
  {
    hide Put, EncodeWords, HeaderWords, Aligned, Disjoint;
    var header := EncodeWords(HeaderWords(outs, offsets));
    PutReads(Zeros(total), 0, header);
    var file := Put(Zeros(total), 0, header);
    assert file[0..0 + |header|] == file[..|header|];
  }

  /** Writing one slice disturbs neither the table nor the slices before it. */
  lemma SlicePut(outs: seq<Output>, offsets: seq<nat>, total: nat, file: Bytes, i: nat)
    requires Writable(outs, offsets, total) && |file| == total && i < |outs|
    requires HeaderIn(outs, offsets, file) && forall j :: 0 <= j < i ==> SliceIn(outs, offsets, file, j)
    ensures var after := Put(file, offsets[i], Contents(outs[i]));
      HeaderIn(outs, offsets, after) && forall j :: 0 <= j < i + 1 ==> SliceIn(outs, offsets, after, j)
  {
    hide Put, EncodeWords, HeaderWords, Contents, Align, Bits.Pow2;
    var after, table := Put(file, offsets[i], Contents(outs[i])), HEADER + ENTRY * |outs|;
    PutReads(file, offsets[i], Contents(outs[i]));
    forall j | 0 <= j < i ensures SliceIn(outs, offsets, after, j) {
      assert SliceIn(outs, offsets, file, j);
      PutKeeps(file, offsets[i], Contents(outs[i]), offsets[j], offsets[j] + |outs[j].source|);
    }
    PutKeeps(file, offsets[i], Contents(outs[i]), 0, table);
    assert file[..table] == file[0..table] && after[..table] == after[0..table];
  }

  // ----- Parsing ------------------------------------------------------------------------------

  datatype Arch = Arch(cpuType: nat, cpuSubtype: nat, offset: nat, size: nat, align: nat)

  /** A slice as the parser reports it. */
  datatype Parsed = Parsed(arch: Arch, reading: M.Reading)

  /** How a table is written: with 64-bit ranges or not, in this byte order or the other. */
  datatype Form = Form(fat64: bool, swap: bool)

  function FormOf(file: Bytes): Option<Form> {
    if |file| < 4 then None
    else
      var big, little := M.Native(file, 0, true), M.Native(file, 0, false);
      if big == FAT_MAGIC || big == FAT_MAGIC_64 then Some(Form(big == FAT_MAGIC_64, true))
      else if little == FAT_MAGIC || little == FAT_MAGIC_64 then Some(Form(little == FAT_MAGIC_64, false))
      else None
  }

  function Count(file: Bytes): nat
    requires FormOf(file).Some? && |file| >= HEADER
  {
    M.Native(file, 4, FormOf(file).value.swap)
  }

  predicate Framed(file: Bytes) {
    && FormOf(file).Some? && |file| >= HEADER
    && 1 <= Count(file) <= MAX_SLICES && TableEnd(FormOf(file).value, Count(file)) <= |file|
  }

  function TableEnd(f: Form, count: nat): nat {
    HEADER + (if f.fat64 then 32 * count else ENTRY * count)
  }

  function EntryAt(f: Form, i: nat): nat {
    HEADER + (if f.fat64 then 32 * i else ENTRY * i)
  }

  function ArchAt(file: Bytes, i: nat): Arch
    requires Framed(file) && i < Count(file)
  {
    var f := FormOf(file).value;
    var at := EntryAt(f, i);
    if f.fat64 then
      Arch(M.Native(file, at, f.swap), M.Native(file, at + 4, f.swap),
           M.Native64(file, at + 8, f.swap), M.Native64(file, at + 16, f.swap), M.Native(file, at + 24, f.swap))
    else
      Arch(M.Native(file, at, f.swap), M.Native(file, at + 4, f.swap),
           M.Native(file, at + 8, f.swap), M.Native(file, at + 12, f.swap), M.Native(file, at + 16, f.swap))
  }

  predicate ReservedIsZero(file: Bytes, i: nat)
    requires Framed(file) && i < Count(file)
  {
    var f := FormOf(file).value;
    f.fat64 ==> M.Native(file, EntryAt(f, i) + 28, f.swap) == 0
  }

  function SliceOf(file: Bytes, a: Arch): Bytes {
    if a.offset + a.size <= |file| then file[a.offset..a.offset + a.size] else []
  }

  predicate ArchOk(file: Bytes, a: Arch)
    requires Framed(file)
  {
    && a.size != 0 && a.align <= MAX_ALIGN
    && TableEnd(FormOf(file).value, Count(file)) <= a.offset && a.offset + a.size <= |file|
    && a.offset % Bits.Pow2(a.align) == 0
    && M.Read(SliceOf(file, a)).Some?
    && M.Read(SliceOf(file, a)).value.header.cpuType == a.cpuType
    && M.Read(SliceOf(file, a)).value.header.cpuSubtype == a.cpuSubtype
  }

  predicate Clash(a: Arch, b: Arch) {
    || (a.cpuType == b.cpuType && a.cpuSubtype == b.cpuSubtype)
    || (a.offset < b.offset + b.size && b.offset < a.offset + a.size)
  }

  ghost predicate Parses(file: Bytes) {
    && Framed(file)
    && (forall i :: 0 <= i < Count(file) ==> ReservedIsZero(file, i) && ArchOk(file, ArchAt(file, i)))
    && (forall j, i :: 0 <= j < i < Count(file) ==> !Clash(ArchAt(file, j), ArchAt(file, i)))
  }

  function ParsedAt(file: Bytes, i: nat): Parsed
    requires Framed(file) && i < Count(file) && ArchOk(file, ArchAt(file, i))
  {
    Parsed(ArchAt(file, i), M.Read(SliceOf(file, ArchAt(file, i))).value)
  }

  method Parse(file: Bytes) returns (r: Option<seq<Parsed>>)
    ensures r.Some? <==> Parses(file)
    ensures r.Some? ==> |r.value| == Count(file) && forall i :: 0 <= i < |r.value| ==> r.value[i] == ParsedAt(file, i)
  {
    hide M.Native, ArchAt, FormOf, M.Read, TableEnd, Bits.Pow2, ReservedIsZero;
    if !Framed(file) { return None; }
    var parsed: seq<Parsed> := [];
    var i := 0;
    while i < Count(file)
      invariant 0 <= i <= Count(file) && |parsed| == i
      invariant forall k :: 0 <= k < i ==>
                  ReservedIsZero(file, k) && ArchOk(file, ArchAt(file, k)) && parsed[k] == ParsedAt(file, k)
      invariant forall j, k :: 0 <= j < k < i ==> !Clash(ArchAt(file, j), ArchAt(file, k))
    {
      var a := ArchAt(file, i);
      if !ReservedIsZero(file, i) { return None; }
      var reading := M.ParseSlice(SliceOf(file, a));
      if !ArchOk(file, a) { return None; }
      var previous := 0;
      while previous < i
        invariant 0 <= previous <= i
        invariant forall j :: 0 <= j < previous ==> !Clash(ArchAt(file, j), a)
      {
        if Clash(parsed[previous].arch, a) { return None; }
        previous := previous + 1;
      }
      parsed := parsed + [Parsed(a, reading.value)];
      i := i + 1;
    }
    return Some(parsed);
  }

  // ----- What is written is read back -------------------------------------------------------

  /** The slice is what the output says. */
  predicate Declared(o: Output, r: M.Reading) {
    && r.header.cpuType == o.cpuType && r.header.cpuSubtype == o.cpuSubtype && r.header.fileType == o.fileType
    && r.header.is32Bit != o.is64Bit && M.Encrypted(r.commands) == o.encrypted
  }

  /** What is written can be read as what was declared, and no two are alike. */
  ghost predicate Sensible(outs: seq<Output>) {
    && (forall i :: 0 <= i < |outs| ==> ReadsAsDeclared(outs[i]))
    && (forall i, j :: 0 <= i < j < |outs| ==>
            outs[i].cpuType != outs[j].cpuType || outs[i].cpuSubtype != outs[j].cpuSubtype)
  }

  predicate ReadsAsDeclared(o: Output) {
    ReplacementFits(o) && M.Read(Contents(o)).Some? && Declared(o, M.Read(Contents(o)).value)
  }

  lemma DeclaredFits(o: Output)
    requires ReadsAsDeclared(o)
    ensures |o.source| > 0 && o.cpuType < WORD && o.cpuSubtype < WORD
  {
    hide M.Read;
    M.ReadingIsSound(Contents(o));
  }

  function ArchOf(o: Output, offset: nat): Arch {
    Arch(o.cpuType, o.cpuSubtype, offset, |o.source|, Align(o))
  }

  lemma HeaderReads(outs: seq<Output>, offsets: seq<nat>, file: Bytes)
    requires 1 <= |outs| == |offsets| <= MAX_SLICES && AreWords(HeaderWords(outs, offsets))
    requires HeaderIn(outs, offsets, file)
    ensures Framed(file) && FormOf(file) == Some(Form(false, true)) && Count(file) == |outs|
    ensures forall d :: 0 <= d < |outs| ==>
      ArchAt(file, d) == ArchOf(outs[Index(d, |outs| - 1)], offsets[Index(d, |outs| - 1)])
  {
    hide Word, EncodeWords, TableWords;
    var ws, n := HeaderWords(outs, offsets), HEADER + ENTRY * |outs|;
    var header := EncodeWords(ws);
    SameWords(file, header, n);
    WordInRow(ws, 0);
    WordInRow(ws, 1);
    forall d | 0 <= d < |outs|
      ensures ArchAt(file, d) == ArchOf(outs[Index(d, |outs| - 1)], offsets[Index(d, |outs| - 1)])
    {
      DescriptorReads(outs, offsets, d);
    }
  }

  lemma DescriptorReads(outs: seq<Output>, offsets: seq<nat>, d: nat)
    requires d < |outs| == |offsets| && AreWords(HeaderWords(outs, offsets))
    ensures var header, at := EncodeWords(HeaderWords(outs, offsets)), HEADER + ENTRY * d;
      var i := Index(d, |outs| - 1);
      && Word(header, at) == outs[i].cpuType && Word(header, at + 4) == outs[i].cpuSubtype
      && Word(header, at + 8) == offsets[i] && Word(header, at + 12) == |outs[i].source|
      && Word(header, at + 16) == Align(outs[i])
  {
    hide Word, EncodeWords, TableWords;
    DescriptorWord(outs, offsets, d, 0);
    DescriptorWord(outs, offsets, d, 1);
    DescriptorWord(outs, offsets, d, 2);
    DescriptorWord(outs, offsets, d, 3);
    DescriptorWord(outs, offsets, d, 4);
  }

  lemma DescriptorWord(outs: seq<Output>, offsets: seq<nat>, d: nat, k: nat)
    requires d < |outs| == |offsets| && k < 5 && AreWords(HeaderWords(outs, offsets))
    ensures Word(EncodeWords(HeaderWords(outs, offsets)), HEADER + ENTRY * d + 4 * k) ==
            DescriptorWords(outs[Index(d, |outs| - 1)], offsets[Index(d, |outs| - 1)])[k]
  {
    hide Word, EncodeWords, TableWords;
    TableWordAt(outs, offsets, |outs|, d, k);
    WordInRow(HeaderWords(outs, offsets), 2 + 5 * d + k);
  }

  /** The written image parses into the outputs, shim first. */
  lemma ImageParses(outs: seq<Output>, offsets: seq<nat>, total: nat, file: Bytes)
    requires Writable(outs, offsets, total) && Sensible(outs) && |file| == total
    requires HeaderIn(outs, offsets, file) && forall i :: 0 <= i < |outs| ==> SliceIn(outs, offsets, file, i)
    ensures Parses(file) && Count(file) == |outs|
    ensures forall d :: 0 <= d < |outs| ==>
      var i := Index(d, |outs| - 1);
      && ArchOk(file, ArchAt(file, d)) && ArchAt(file, d) == ArchOf(outs[i], offsets[i])
      && ParsedAt(file, d).reading == M.Read(Contents(outs[i])).value
  {
    hide Word, EncodeWords, HeaderWords, HeaderIn, Contents, Align, Bits.Pow2, ArchAt, M.Read, M.Native, FormOf,
         Declared;
    HeaderReads(outs, offsets, file);
    forall d | 0 <= d < |outs|
      ensures ReservedIsZero(file, d) && ArchOk(file, ArchAt(file, d))
      ensures ParsedAt(file, d).reading == M.Read(Contents(outs[Index(d, |outs| - 1)])).value
    {
      var i := Index(d, |outs| - 1);
      assert SliceIn(outs, offsets, file, i) && ReadsAsDeclared(outs[i]);
      DeclaredFits(outs[i]);
      DeclaredArch(outs[i]);
    }
    forall c, d | 0 <= c < d < |outs| ensures !Clash(ArchAt(file, c), ArchAt(file, d)) {
      var i, j := Index(c, |outs| - 1), Index(d, |outs| - 1);
      assert i < j || j < i;
    }
  }

  lemma DeclaredArch(o: Output)
    requires ReadsAsDeclared(o)
    ensures var h := M.Read(Contents(o)).value.header; h.cpuType == o.cpuType && h.cpuSubtype == o.cpuSubtype
  {
  }

  lemma {:induction false} TableWordsAreWords(outs: seq<Output>, offsets: seq<nat>, n: nat)
    requires n <= |outs| == |offsets| && Aligned(outs, offsets, 0)
    requires forall i :: 0 <= i < |outs| ==> outs[i].cpuType < WORD && outs[i].cpuSubtype < WORD
    ensures AreWords(TableWords(outs, offsets, n))
  {
    hide Bits.Pow2;
    if n > 0 {
      TableWordsAreWords(outs, offsets, n - 1);
      var i := Index(n - 1, |outs| - 1);
      assert AreWords(DescriptorWords(outs[i], offsets[i]));
    }
  }

  lemma LaidOutIsWritable(outs: seq<Output>, total: nat)
    requires 1 <= |outs| <= MAX_SLICES && Sensible(outs) && Place(outs, HEADER + ENTRY * |outs|).Some?
    requires var offsets := Place(outs, HEADER + ENTRY * |outs|).value;
             total == offsets[|outs| - 1] + |outs[|outs| - 1].source|
    ensures Writable(outs, Place(outs, HEADER + ENTRY * |outs|).value, total)
  {
    hide Place, Align, Bits.Pow2, TableWords, Contents, M.Read, Declared;
    var offsets := Place(outs, HEADER + ENTRY * |outs|).value;
    PlaceIsSound(outs, HEADER + ENTRY * |outs|);
    forall i | 0 <= i < |outs| ensures outs[i].cpuType < WORD && outs[i].cpuSubtype < WORD && ReplacementFits(outs[i]) {
      DeclaredFits(outs[i]);
    }
    TableWordsAreWords(outs, offsets, |outs|);
    forall i | 0 <= i < |outs| ensures offsets[i] + |outs[i].source| <= total {
      assert i < |outs| - 1 ==> offsets[i] + |outs[i].source| <= offsets[|outs| - 1];
    }
  }

  /** Whether the parsed table describes the outputs, shim first. */
  predicate Describes(parsed: seq<Parsed>, outs: seq<Output>, offsets: seq<nat>)
    requires |outs| == |offsets|
  {
    |parsed| == |outs| && forall d :: 0 <= d < |outs| ==>
      var i := Index(d, |outs| - 1);
      parsed[d].arch == ArchOf(outs[i], offsets[i]) && Declared(outs[i], parsed[d].reading)
  }

  /** Lays out, writes and checks the image.  It is refused exactly when the slices do
      not fit a FAT32 table; the checks on what was written never refuse it. */
  method BuildImage(targets: seq<Output>, shim: Output, chunk: nat) returns (r: Option<(Bytes, seq<nat>)>)
    requires |targets| < MAX_SLICES && Sensible(targets + [shim]) && chunk > 0
    ensures r.Some? <==> exists offsets :: LaidOutAs(targets + [shim], offsets)
    ensures r.Some? ==> IsImage(targets + [shim], r.value.1, r.value.0) && LaidOutAs(targets + [shim], r.value.1)
  {
    hide Place, Sensible, Parses, SliceIn, HeaderIn, Writable, ArchAt, Framed, ArchOk, M.Read, Declared, Contents,
         LaidOutAs;
    var outs := targets + [shim];
    var layout := Layout(outs);
    if layout.None? { return None; }
    var (offsets, total) := layout.value;
    LaidOutIsWritable(outs, total);
    var file := WriteImage(outs, offsets, total, chunk);
    ImageParses(outs, offsets, total, file[..]);
    var parsed := Parse(file[..]);
    if parsed.None? { return None; }
    DescribesImage(outs, offsets, file[..], parsed.value);
    if !Describes(parsed.value, outs, offsets) { return None; }
    var matches := AllMatch(outs, offsets, file[..], chunk);
    if !matches { return None; }
    return Some((file[..], offsets));
  }

  /** The file parses into the outputs, shim first, and holds every one of them. */
  ghost predicate IsImage(outs: seq<Output>, offsets: seq<nat>, file: Bytes) {
    && |offsets| == |outs| && Parses(file) && Count(file) == |outs|
    && (forall d :: 0 <= d < |outs| ==>
            ArchAt(file, d) == ArchOf(outs[Index(d, |outs| - 1)], offsets[Index(d, |outs| - 1)]))
    && (forall i :: 0 <= i < |outs| ==> SliceIn(outs, offsets, file, i))
  }

  lemma DescribesImage(outs: seq<Output>, offsets: seq<nat>, file: Bytes, parsed: seq<Parsed>)
    requires |offsets| == |outs| == |parsed| && Sensible(outs) && Parses(file) && Count(file) == |outs|
    requires forall d :: 0 <= d < |outs| ==>
      var i := Index(d, |outs| - 1);
      && ArchOk(file, ArchAt(file, d)) && ArchAt(file, d) == ArchOf(outs[i], offsets[i])
      && ParsedAt(file, d).reading == M.Read(Contents(outs[i])).value
    requires forall d :: 0 <= d < |outs| ==> parsed[d] == ParsedAt(file, d)
    ensures Describes(parsed, outs, offsets)
  {
    hide M.Read, ArchAt, ArchOk, Framed, Contents, Declared;
    forall d | 0 <= d < |outs|
      ensures var i := Index(d, |outs| - 1);
              parsed[d].arch == ArchOf(outs[i], offsets[i]) && Declared(outs[i], parsed[d].reading)
    {
      assert ReadsAsDeclared(outs[Index(d, |outs| - 1)]);
    }
  }

  /** The byte comparison of every slice, in the order of the table. */
  method AllMatch(outs: seq<Output>, offsets: seq<nat>, file: Bytes, chunk: nat) returns (ok: bool)
    requires |outs| == |offsets| && chunk > 0 && forall i :: 0 <= i < |outs| ==> SliceIn(outs, offsets, file, i)
    ensures ok
  {
    var d := 0;
    while d < |outs|
      invariant 0 <= d <= |outs|
    {
      var i := Index(d, |outs| - 1);
      assert SliceIn(outs, offsets, file, i);
      ok := SliceMatches(outs[i], file, offsets[i], chunk);
      if !ok { return; }
      d := d + 1;
    }
    return true;
  }
}
