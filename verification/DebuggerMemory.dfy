/**
 The debugger's view of guest memory.

 A software breakpoint is a trap instruction written over guest code, with the
 displaced bytes kept in a record.  What the debugger means to read and write is the
 memory as it would be without any breakpoint: `Clean`, the storage with every saved
 byte put back.

 Records go by guest address, bytes live in host cells, and two guest addresses may
 lead to one cell.  `Sole` says that a guest address is the only one that leads to its
 cell; what holds only for such addresses is said so.
 */
module DebuggerMemory {
  import opened Wrappers
  import opened GuestPages
  import opened GuestBytes

  datatype Breakpoint = Breakpoint(address: nat, kind: nat, original: seq<byte>, trap: seq<byte>)
  datatype Tracepoint = Tracepoint(address: nat, kind: nat)

  const THUMB_TRAP: seq<byte> := [0x00, 0xBE]
  const ARM_TRAP: seq<byte> := [0x70, 0x00, 0x20, 0xE1]

  function Trap(kind: nat): seq<byte> {
    if kind == 2 then THUMB_TRAP else ARM_TRAP
  }

  // ----- The host -----------------------------------------------------------------------

  /** What the host says of the memory at a cell: how far the region reaches from there,
      whether it is writable, and how the two protection changes around a copy into a
      region that is not would turn out. */
  datatype HostRegion = Unknown | Known(available: nat, writable: bool, protectable: bool, restorable: bool)
  type Host = HostPtr -> HostRegion

  function Least(a: nat, b: nat): nat {
    if a < b then a else b
  }

  /** Copying n bytes into a region: make it writable, copy, and restore its protection.
      Says whether to go on, and how many bytes were copied. */
  function Copy(region: HostRegion, n: nat): (r: (bool, nat))
    ensures r.1 <= n && (r.0 && n > 0 ==> r.1 > 0)
  {
    match region
    case Unknown => (false, 0)
    case Known(available, writable, protectable, restorable) =>
      if available == 0 || (!writable && !protectable) then (false, 0)
      else (writable || restorable, Least(n, available))
  }

  function Plus(done: nat, r: (bool, nat)): (bool, nat) {
    (r.0, done + r.1)
  }

  /** Whether n bytes can be written from `a` on, page by page and region by region, and
      how many are before the end or the error. */
  function Reach(memory: PageMap, host: Host, a: nat, n: nat): (r: (bool, nat))
    ensures r.1 <= n && (r.0 ==> r.1 == n)
    decreases n
  {
    if n == 0 then (true, 0)
    else if Cell(memory, a).Null? then (false, 0)
    else
      var (goOn, k) := Copy(host(Cell(memory, a)), Least(n, PAGE - a % PAGE));
      if goOn then Plus(k, Reach(memory, host, a + k, n - k)) else (false, k)
  }

  // ----- Records ----------------------------------------------------------------------------

  predicate RangesOverlap(a: nat, aSize: nat, b: nat, bSize: nat) {
    aSize != 0 && bSize != 0 && a < b + bSize && b < a + aSize
  }

  predicate Covers(b: Breakpoint, x: int) {
    b.address <= x < b.address + b.kind
  }

  predicate WellFormed(b: Breakpoint) {
    && ((b.kind == 2 && b.address % 2 == 0) || (b.kind == 4 && b.address % 4 == 0))
    && |b.original| == b.kind && |b.trap| == b.kind
    && b.address + b.kind <= SPACE
  }

  predicate AllWellFormed(bs: seq<Breakpoint>) {
    forall i :: 0 <= i < |bs| ==> WellFormed(bs[i])
  }

  ghost predicate Disjoint(bs: seq<Breakpoint>) {
    forall i, j :: 0 <= i < j < |bs| ==> !RangesOverlap(bs[i].address, bs[i].kind, bs[j].address, bs[j].kind)
  }

  ghost predicate RecordsOk(memory: PageMap, bs: seq<Breakpoint>) {
    && Disjoint(bs) && AllWellFormed(bs)
    && forall i :: 0 <= i < |bs| ==> MappedRun(memory, bs[i].address, bs[i].kind)
  }

  /** Whether x lies under a breakpoint. */
  ghost predicate Patched(bs: seq<Breakpoint>, x: int) {
    exists i :: 0 <= i < |bs| && Covers(bs[i], x)
  }

  /** No other guest address leads to the cell of x. */
  ghost predicate Sole(memory: PageMap, x: int) {
    forall y :: y != x && Cell(memory, y).At? ==> Cell(memory, y) != Cell(memory, x)
  }

  ghost predicate Unaliased(memory: PageMap, a: nat, n: nat) {
    forall x :: a <= x < a + n ==> Sole(memory, x)
  }

  ghost predicate RecordsUnaliased(memory: PageMap, bs: seq<Breakpoint>) {
    forall i :: 0 <= i < |bs| ==> Unaliased(memory, bs[i].address, bs[i].kind)
  }

  // ----- Memory without breakpoints ------------------------------------------------------------

  /** The storage with every saved byte put back, in the order of the records. */
  function Clean(memory: PageMap, ram: Ram, bs: seq<Breakpoint>): Ram {
    if bs == [] then ram
    else
      var last := bs[|bs| - 1];
      WriteBytes(memory, Clean(memory, ram, bs[..|bs| - 1]), last.address, last.original)
  }

  /** What the records put back into cell `c`. */
  function SavedCell(memory: PageMap, bs: seq<Breakpoint>, c: HostPtr): Option<byte> {
    if bs == [] then None
    else
      var last := bs[|bs| - 1];
      match LastAt(memory, last.address, last.original, c)
      case Some(v) => Some(v)
      case None => SavedCell(memory, bs[..|bs| - 1], c)
  }

  function OrElse(v: Option<byte>, w: byte): byte {
    match v case Some(x) => x case None => w
  }

  predicate NoneOr(v: Option<byte>, w: Option<byte>) {
    v == None || v == w
  }

  lemma {:induction false} CleanKeepsShape(memory: PageMap, ram: Ram, bs: seq<Breakpoint>)
    ensures SameShape(Clean(memory, ram, bs), ram)
  {
    if bs != [] {
      var n := |bs| - 1;
      CleanKeepsShape(memory, ram, bs[..n]);
      WriteKeepsShape(memory, Clean(memory, ram, bs[..n]), bs[n].address, bs[n].original);
    }
  }

  lemma {:induction false} CleanAt(memory: PageMap, ram: Ram, bs: seq<Breakpoint>, c: HostPtr)
    requires CellInRam(c, ram)
    ensures CellInRam(c, Clean(memory, ram, bs))
    ensures CellByte(Clean(memory, ram, bs), c) == OrElse(SavedCell(memory, bs, c), CellByte(ram, c))
  {
    hide WriteBytes, LastAt, CellByte, CellInRam;
    if bs != [] {
      var n := |bs| - 1;
      CleanAt(memory, ram, bs[..n], c);
      WriteAt(memory, Clean(memory, ram, bs[..n]), bs[n].address, bs[n].original, c);
    }
  }

  lemma {:induction false} SavedCellNone(memory: PageMap, bs: seq<Breakpoint>, c: HostPtr)
    requires AllWellFormed(bs)
    ensures SavedCell(memory, bs, c).None? <==> forall i, x :: 0 <= i < |bs| && Covers(bs[i], x) ==>
              Cell(memory, x) != c
  {
    hide LastAt, Cell;
    if bs != [] {
      var n := |bs| - 1;
      assert WellFormed(bs[n]);
      SavedCellNone(memory, bs[..n], c);
      LastAtNone(memory, bs[n].address, bs[n].original, c);
      assert forall x :: bs[n].address <= x < bs[n].address + |bs[n].original| <==> Covers(bs[n], x);
    }
  }

  /** Under an unaliased breakpoint the cell gets the byte saved for its address. */
  lemma {:induction false} SavedCellIs(memory: PageMap, bs: seq<Breakpoint>, k: nat, x: int)
    requires RecordsOk(memory, bs) && RecordsUnaliased(memory, bs) && k < |bs| && Covers(bs[k], x)
    ensures WellFormed(bs[k]) && SavedCell(memory, bs, Cell(memory, x)) == Some(bs[k].original[x - bs[k].address])
  {
    hide LastAt, Cell;
    var n := |bs| - 1;
    var c, last := Cell(memory, x), bs[n];
    assert WellFormed(last) && WellFormed(bs[k]) && Unaliased(memory, bs[k].address, bs[k].kind) && Sole(memory, x);
    if k == n {
      forall y | x < y < last.address + |last.original| ensures Cell(memory, y) != c {
        assert Cell(memory, y).At?;
      }
      LastAtSole(memory, last.address, last.original, c, x - last.address);
    } else {
      assert !RangesOverlap(bs[k].address, bs[k].kind, last.address, last.kind);
      forall y | last.address <= y < last.address + |last.original| ensures Cell(memory, y) != c {
        assert MappedRun(memory, last.address, last.kind) && Cell(memory, y).At?;
      }
      LastAtNone(memory, last.address, last.original, c);
      SavedCellIs(memory, bs[..n], k, x);
    }
  }

  /** Either the cell belongs to one byte of one breakpoint and to no other guest
      address, or the records have nothing for it. */
  lemma CellOwner(memory: PageMap, bs: seq<Breakpoint>, c: HostPtr) returns (k: int, x: int)
    requires RecordsOk(memory, bs) && RecordsUnaliased(memory, bs)
    ensures k < |bs| && (k < 0 <==> SavedCell(memory, bs, c).None?)
    ensures 0 <= k ==> Covers(bs[k], x) && Cell(memory, x) == c && Sole(memory, x) && WellFormed(bs[k])
    ensures 0 <= k ==> SavedCell(memory, bs, c) == Some(bs[k].original[x - bs[k].address])
    ensures k < 0 ==> forall i, y :: 0 <= i < |bs| && Covers(bs[i], y) ==> Cell(memory, y) != c
  {
    hide Cell, SavedCell;
    k, x := -1, 0;
    SavedCellNone(memory, bs, c);
    if SavedCell(memory, bs, c).Some? {
      k, x :| 0 <= k < |bs| && Covers(bs[k], x) && Cell(memory, x) == c;
      SavedCellIs(memory, bs, k, x);
      assert Unaliased(memory, bs[k].address, bs[k].kind);
    }
  }

  /** One cell agrees with `other` once saved bytes are put back. */
  ghost predicate CellAgrees(memory: PageMap, ram: Ram, bs: seq<Breakpoint>, other: Ram, c: HostPtr) {
    CellInRam(c, other) ==>
      CellInRam(c, ram) && OrElse(SavedCell(memory, bs, c), CellByte(ram, c)) == CellByte(other, c)
  }

  /** Clean storage is told by its cells. */
  lemma CleanIsIff(memory: PageMap, ram: Ram, bs: seq<Breakpoint>, other: Ram)
    requires SameShape(ram, other)
    ensures Clean(memory, ram, bs) == other <==> forall c :: CellAgrees(memory, ram, bs, other, c)
  {
    hide Clean, SavedCell, CellInRam, CellByte, OrElse;
    var clean := Clean(memory, ram, bs);
    CleanKeepsShape(memory, ram, bs);
    forall c | CellInRam(c, other)
      ensures CellInRam(c, ram) && CellInRam(c, clean)
      ensures CellByte(clean, c) == OrElse(SavedCell(memory, bs, c), CellByte(ram, c))
    {
      SameCells(ram, other, c);
      CleanAt(memory, ram, bs, c);
    }
    if forall c :: CellAgrees(memory, ram, bs, other, c) {
      forall c | CellInRam(c, other) ensures CellInRam(c, clean) && CellByte(clean, c) == CellByte(other, c) {
        assert CellAgrees(memory, ram, bs, other, c);
      }
      RamsAgree(clean, other);
    }
  }

  function Either(v: Option<byte>, w: Option<byte>): Option<byte> {
    if v.Some? then v else w
  }

  /** Later records go over earlier ones. */
  lemma {:induction false} SavedCellSplits(memory: PageMap, front: seq<Breakpoint>, back: seq<Breakpoint>, c: HostPtr)
    ensures SavedCell(memory, front + back, c) == Either(SavedCell(memory, back, c), SavedCell(memory, front, c))
    decreases |back|
  {
    hide LastAt;
    if back == [] {
      assert front + back == front;
    } else {
      var n := |back| - 1;
      assert (front + back)[..|front| + n] == front + back[..n] && (front + back)[|front| + n] == back[n];
      SavedCellSplits(memory, front, back[..n], c);
    }
  }

  lemma SavedByOne(memory: PageMap, b: Breakpoint, c: HostPtr)
    ensures SavedCell(memory, [b], c) == LastAt(memory, b.address, b.original, c)
  {
    hide LastAt;
    assert [b][..0] == [];
  }

  /** What a record saved for an address it covers is saved for the cell, by it or a later one. */
  lemma CoveredIsSaved(memory: PageMap, bs: seq<Breakpoint>, k: nat, x: int)
    requires AllWellFormed(bs) && k < |bs| && Covers(bs[k], x)
    ensures SavedCell(memory, bs, Cell(memory, x)).Some?
  {
    hide Cell, SavedCell;
    SavedCellNone(memory, bs, Cell(memory, x));
  }

  // ----- Copies that overlap ------------------------------------------------------------------

  /** `target` with `piece` copied over it from `lo` on. */
  function Replace(target: seq<byte>, lo: nat, piece: seq<byte>): (r: seq<byte>)
    requires lo + |piece| <= |target|
    ensures |r| == |target|
  {
    target[..lo] + piece + target[lo + |piece|..]
  }

  lemma ReplaceAt(target: seq<byte>, lo: nat, piece: seq<byte>, i: nat)
    requires lo + |piece| <= |target| && i < |target|
    ensures Replace(target, lo, piece)[i] == if lo <= i < lo + |piece| then piece[i - lo] else target[i]
  {
  }

  /** Copy the part of `source` (at `from`) that overlaps `target` (at `at`) into it. */
  function CopyOverlap(target: seq<byte>, at: nat, source: seq<byte>, from: nat): (r: seq<byte>)
    ensures |r| == |target|
  {
    if !RangesOverlap(at, |target|, from, |source|) then target
    else
      var start := if at > from then at else from;
      var end := if at + |target| < from + |source| then at + |target| else from + |source|;
      Replace(target, start - at, source[start - from..end - from])
  }

  /** A byte of the copy is the source's where the two overlap, the target's elsewhere. */
  lemma CopyOverlapAt(target: seq<byte>, at: nat, source: seq<byte>, from: nat, x: int)
    requires at <= x < at + |target|
    ensures CopyOverlap(target, at, source, from)[x - at]
            == if from <= x < from + |source| then source[x - from] else target[x - at]
  {
    hide Replace;
    if RangesOverlap(at, |target|, from, |source|) {
      var start := if at > from then at else from;
      var end := if at + |target| < from + |source| then at + |target| else from + |source|;
      var piece := source[start - from..end - from];
      ReplaceAt(target, start - at, piece, x - at);
      assert start <= x < end ==> piece[x - start] == source[x - from];
    }
  }

  datatype Side = Original | Planted

  function Bytes(b: Breakpoint, side: Side): seq<byte> {
    match side case Original => b.original case Planted => b.trap
  }

  /** The saved bytes, or the traps, of all records laid over a run of bytes. */
  function LaidOver(bs: seq<Breakpoint>, a: nat, data: seq<byte>, side: Side): (r: seq<byte>)
    ensures |r| == |data|
  {
    if bs == [] then data
    else
      var n := |bs| - 1;
      CopyOverlap(LaidOver(bs[..n], a, data, side), a, Bytes(bs[n], side), bs[n].address)
  }

  lemma {:induction false} LaidElsewhere(bs: seq<Breakpoint>, a: nat, data: seq<byte>, side: Side, x: int)
    requires AllWellFormed(bs) && a <= x < a + |data|
    requires forall i :: 0 <= i < |bs| ==> !Covers(bs[i], x)
    ensures LaidOver(bs, a, data, side)[x - a] == data[x - a]
  {
    hide CopyOverlap;
    if bs != [] {
      var n := |bs| - 1;
      assert WellFormed(bs[n]) && !Covers(bs[n], x);
      LaidElsewhere(bs[..n], a, data, side, x);
      CopyOverlapAt(LaidOver(bs[..n], a, data, side), a, Bytes(bs[n], side), bs[n].address, x);
    }
  }

  lemma {:induction false} LaidUnder(bs: seq<Breakpoint>, a: nat, data: seq<byte>, side: Side, k: nat, x: int)
    requires AllWellFormed(bs) && Disjoint(bs) && a <= x < a + |data| && k < |bs| && Covers(bs[k], x)
    ensures |Bytes(bs[k], side)| == bs[k].kind
    ensures LaidOver(bs, a, data, side)[x - a] == Bytes(bs[k], side)[x - bs[k].address]
  {
    hide CopyOverlap;
    var n := |bs| - 1;
    assert WellFormed(bs[n]) && WellFormed(bs[k]);
    CopyOverlapAt(LaidOver(bs[..n], a, data, side), a, Bytes(bs[n], side), bs[n].address, x);
    if k < n {
      assert !RangesOverlap(bs[k].address, bs[k].kind, bs[n].address, bs[n].kind);
      LaidUnder(bs[..n], a, data, side, k, x);
    }
  }

  // ----- Reading -----------------------------------------------------------------------------------

  /** The physical bytes of a run. */
  function Fetch(memory: PageMap, ram: Ram, a: nat, n: nat): (r: seq<byte>)
    ensures |r| == n
  {
    seq(n, i requires 0 <= i < n => OrElse(GuestByte(memory, ram, a + i), 0))
  }

  lemma FetchIs(memory: PageMap, ram: Ram, a: nat, n: nat, i: nat)
    requires i < n
    ensures Fetch(memory, ram, a, n)[i] == OrElse(GuestByte(memory, ram, a + i), 0)
  {
  }

  lemma FetchAt(memory: PageMap, ram: Ram, a: nat, n: nat, x: int)
    requires PagesInRam(memory, ram) && a <= x < a + n && Cell(memory, x).At?
    ensures CellInRam(Cell(memory, x), ram) && Fetch(memory, ram, a, n)[x - a] == CellByte(ram, Cell(memory, x))
  {
    ByteIsThere(memory, ram, x);
    assert Fetch(memory, ram, a, n)[x - a] == OrElse(GuestByte(memory, ram, a + (x - a)), 0);
  }

  /** At x the debugger is shown clean memory: under a breakpoint, what it saved is what
      the records put back; elsewhere, what they put back, if anything, is there. */
  ghost predicate ShowsClean(memory: PageMap, ram: Ram, bs: seq<Breakpoint>, x: int) {
    var saved := SavedCell(memory, bs, Cell(memory, x));
    && (forall k :: 0 <= k < |bs| && Covers(bs[k], x) && WellFormed(bs[k]) ==>
            saved == Some(bs[k].original[x - bs[k].address]))
    && (!Patched(bs, x) ==> saved == None || saved == GuestByte(memory, ram, x))
  }

  ghost predicate AllShowClean(memory: PageMap, ram: Ram, bs: seq<Breakpoint>, a: nat, n: nat) {
    forall x :: a <= x < a + n ==> ShowsClean(memory, ram, bs, x)
  }

  lemma ReadByteIsCleanIff(memory: PageMap, ram: Ram, bs: seq<Breakpoint>, a: nat, n: nat, x: int)
    requires PagesInRam(memory, ram) && RecordsOk(memory, bs) && a <= x < a + n && Cell(memory, x).At?
    ensures LaidOver(bs, a, Fetch(memory, ram, a, n), Original)[x - a]
            == Fetch(memory, Clean(memory, ram, bs), a, n)[x - a]
            <==> ShowsClean(memory, ram, bs, x)
  {
    hide Clean, LaidOver, Fetch, SavedCell, CellByte, Cell, GuestByte;
    var clean, physical, c := Clean(memory, ram, bs), Fetch(memory, ram, a, n), Cell(memory, x);
    CleanKeepsShape(memory, ram, bs);
    FetchAt(memory, ram, a, n, x);
    FetchAt(memory, clean, a, n, x);
    CleanAt(memory, ram, bs, c);
    GuestByteIsCell(memory, ram, x);
    if Patched(bs, x) {
      var k :| 0 <= k < |bs| && Covers(bs[k], x);
      assert WellFormed(bs[k]);
      LaidUnder(bs, a, physical, Original, k, x);
      OnlyOneCovers(bs, k, x);
      CoveredIsSaved(memory, bs, k, x);
    } else {
      LaidElsewhere(bs, a, physical, Original, x);
    }
  }

  /** The saved bytes laid over the physical ones are the clean memory if and only if they
      show it at every address. */
  lemma ReadIsCleanIff(memory: PageMap, ram: Ram, bs: seq<Breakpoint>, a: nat, n: nat)
    requires PagesInRam(memory, ram) && RecordsOk(memory, bs) && MappedRun(memory, a, n)
    ensures LaidOver(bs, a, Fetch(memory, ram, a, n), Original) == Fetch(memory, Clean(memory, ram, bs), a, n)
            <==> AllShowClean(memory, ram, bs, a, n)
  {
    hide Clean, LaidOver, Fetch, Cell, ShowsClean;
    var shown := LaidOver(bs, a, Fetch(memory, ram, a, n), Original);
    var clean := Fetch(memory, Clean(memory, ram, bs), a, n);
    forall i | 0 <= i < n ensures shown[i] == clean[i] <==> ShowsClean(memory, ram, bs, a + i) {
      assert Cell(memory, a + i).At?;
      ReadByteIsCleanIff(memory, ram, bs, a, n, a + i);
    }
    if shown == clean {
      forall x | a <= x < a + n ensures ShowsClean(memory, ram, bs, x) { assert shown[x - a] == clean[x - a]; }
    }
    if AllShowClean(memory, ram, bs, a, n) {
      forall i | 0 <= i < n ensures shown[i] == clean[i] { assert ShowsClean(memory, ram, bs, a + i); }
    }
  }

  /** Where no patched cell is reached from another address that is always so. */
  lemma UnaliasedShowsClean(memory: PageMap, ram: Ram, bs: seq<Breakpoint>, a: nat, n: nat)
    requires RecordsOk(memory, bs) && RecordsUnaliased(memory, bs) && MappedRun(memory, a, n)
    ensures AllShowClean(memory, ram, bs, a, n)
  {
    hide SavedCell, Cell, GuestByte, RecordsOk, RecordsUnaliased;
    forall x | a <= x < a + n ensures ShowsClean(memory, ram, bs, x) {
      forall k | 0 <= k < |bs| && Covers(bs[k], x) && WellFormed(bs[k])
        ensures SavedCell(memory, bs, Cell(memory, x)) == Some(bs[k].original[x - bs[k].address])
      {
        SavedCellIs(memory, bs, k, x);
      }
      if !Patched(bs, x) { NotSaved(memory, bs, x); }
    }
  }

  // ----- What each command does to clean memory ---------------------------------------------------

  /** The records after a successful write. */
  function Rewritten(bs: seq<Breakpoint>, a: nat, data: seq<byte>): (r: seq<Breakpoint>)
    ensures |r| == |bs|
    ensures forall i :: 0 <= i < |bs| ==>
              r[i] == bs[i].(original := CopyOverlap(bs[i].original, bs[i].address, data, a))
  {
    seq(|bs|, i requires 0 <= i < |bs| => bs[i].(original := CopyOverlap(bs[i].original, bs[i].address, data, a)))
  }

  lemma RewrittenOk(memory: PageMap, bs: seq<Breakpoint>, a: nat, data: seq<byte>)
    requires RecordsOk(memory, bs)
    ensures RecordsOk(memory, Rewritten(bs, a, data))
    ensures RecordsUnaliased(memory, bs) ==> RecordsUnaliased(memory, Rewritten(bs, a, data))
  {
    hide CopyOverlap, Cell;
    var r := Rewritten(bs, a, data);
    forall i | 0 <= i < |bs| ensures WellFormed(r[i]) && MappedRun(memory, r[i].address, r[i].kind) {
      assert WellFormed(bs[i]) && MappedRun(memory, bs[i].address, bs[i].kind);
    }
  }

  /** The last byte of a run in a cell no other address leads to. */
  lemma LastAtMine(memory: PageMap, a: nat, data: seq<byte>, c: HostPtr, x: int)
    requires MappedRun(memory, a, |data|) && Cell(memory, x) == c && Sole(memory, x)
    ensures LastAt(memory, a, data, c) == if a <= x < a + |data| then Some(data[x - a]) else None
  {
    hide Cell, LastAt;
    if a <= x < a + |data| {
      forall y | x < y < a + |data| ensures Cell(memory, y) != c { assert Cell(memory, y).At?; }
      LastAtSole(memory, a, data, c, x - a);
    } else {
      forall y | a <= y < a + |data| ensures Cell(memory, y) != c { assert Cell(memory, y).At?; }
      LastAtNone(memory, a, data, c);
    }
  }

  /** Whatever the records put back under a run is what the run leaves there. */
  ghost predicate LandsAsSaved(memory: PageMap, bs: seq<Breakpoint>, a: nat, data: seq<byte>) {
    forall x :: a <= x < a + |data| ==>
      NoneOr(SavedCell(memory, bs, Cell(memory, x)), LastAt(memory, a, data, Cell(memory, x)))
  }

  /** What `bs'` puts back where the run is not, `bs` puts back as well. */
  ghost predicate SameElsewhere(memory: PageMap, bs: seq<Breakpoint>, bs': seq<Breakpoint>, a: nat, data: seq<byte>) {
    forall c :: LastAt(memory, a, data, c).None? ==> SavedCell(memory, bs', c) == SavedCell(memory, bs, c)
  }

  /** The two runs agree wherever nothing is put back. */
  ghost predicate SameUnsaved(memory: PageMap, bs: seq<Breakpoint>, a: nat, physical: seq<byte>, plain: seq<byte>)
    requires |physical| == |plain|
  {
    forall x :: a <= x < a + |plain| && SavedCell(memory, bs, Cell(memory, x)).None? ==> physical[x - a] == plain[x - a]
  }

  lemma CopyCellIff(memory: PageMap, bs: seq<Breakpoint>, bs': seq<Breakpoint>, a: nat, physical: seq<byte>,
      plain: seq<byte>,
                    c: HostPtr, was: byte)
    requires |physical| == |plain| && SameElsewhere(memory, bs, bs', a, plain)
    requires SameUnsaved(memory, bs', a, physical, plain)
    ensures OrElse(SavedCell(memory, bs', c), OrElse(LastAt(memory, a, physical, c), was))
            == OrElse(LastAt(memory, a, plain, c), OrElse(SavedCell(memory, bs, c), was))
            <==> (LastAt(memory, a, plain, c).Some? ==>
                    SavedCell(memory, bs', c) == None || SavedCell(memory, bs', c) == LastAt(memory, a, plain, c))
  {
    hide Cell, LastAt, SavedCell;
    LastAtNone(memory, a, plain, c);
    LastAtNone(memory, a, physical, c);
    if SavedCell(memory, bs', c) == None { LastAtSame(memory, a, physical, plain, c); }
  }

  /** Physical bytes are written and the records become `bs'`: in clean memory that is a
      plain write of `plain` if and only if the new records put back what it leaves. */
  lemma CopyIsPlainIff(memory: PageMap, ram: Ram, bs: seq<Breakpoint>, bs': seq<Breakpoint>, a: nat,
      physical: seq<byte>, plain: seq<byte>)
    requires PagesInRam(memory, ram) && MappedRun(memory, a, |plain|) && |physical| == |plain|
    requires SameElsewhere(memory, bs, bs', a, plain) && SameUnsaved(memory, bs', a, physical, plain)
    ensures Clean(memory, WriteBytes(memory, ram, a, physical), bs')
            == WriteBytes(memory, Clean(memory, ram, bs), a, plain)
            <==> LandsAsSaved(memory, bs', a, plain)
  {
    hide Clean, WriteBytes, LastAt, SavedCell, CellByte, CellInRam, SameElsewhere, SameUnsaved, PagesInRam, Cell;
    var clean, ram' := Clean(memory, ram, bs), WriteBytes(memory, ram, a, physical);
    var other := WriteBytes(memory, clean, a, plain);
    WriteKeepsShape(memory, ram, a, physical);
    CleanKeepsShape(memory, ram, bs);
    WriteKeepsShape(memory, clean, a, plain);
    CleanIsIff(memory, ram', bs', other);
    forall c | CellInRam(c, other)
      ensures CellAgrees(memory, ram', bs', other, c) <==> (LastAt(memory, a, plain, c).Some? ==>
                SavedCell(memory, bs', c) == None || SavedCell(memory, bs', c) == LastAt(memory, a, plain, c))
    {
      SameCells(other, ram, c);
      CleanAt(memory, ram, bs, c);
      WriteAt(memory, ram, a, physical, c);
      WriteAt(memory, clean, a, plain, c);
      CopyCellIff(memory, bs, bs', a, physical, plain, c, CellByte(ram, c));
    }
    if LandsAsSaved(memory, bs', a, plain) {
      forall c ensures CellAgrees(memory, ram', bs', other, c) {
        if CellInRam(c, other) && LastAt(memory, a, plain, c).Some? { var x := LastAtComesFrom(memory, a, plain, c); }
      }
    }
    if forall c :: CellAgrees(memory, ram', bs', other, c) {
      forall x | a <= x < a + |plain|
        ensures NoneOr(SavedCell(memory, bs', Cell(memory, x)), LastAt(memory, a, plain, Cell(memory, x)))
      {
        var c := Cell(memory, x);
        ByteIsThere(memory, ram, x);
        SameCells(other, ram, c);
        assert CellAgrees(memory, ram', bs', other, c);
        LastAtNone(memory, a, plain, c);
      }
    }
  }

  /** A write past the records, by the guest say, is a plain write to clean memory if and
      only if the records put back what it leaves. */
  lemma PlainWriteIff(memory: PageMap, ram: Ram, bs: seq<Breakpoint>, a: nat, data: seq<byte>)
    requires PagesInRam(memory, ram) && MappedRun(memory, a, |data|)
    ensures Clean(memory, WriteBytes(memory, ram, a, data), bs) == WriteBytes(memory, Clean(memory, ram, bs), a, data)
            <==> LandsAsSaved(memory, bs, a, data)
  {
    hide Clean, WriteBytes, LastAt, SavedCell, PagesInRam, MappedRun, LandsAsSaved;
    CopyIsPlainIff(memory, ram, bs, bs, a, data, data);
  }

  lemma {:induction false} RewrittenElsewhere(memory: PageMap, bs: seq<Breakpoint>, a: nat, data: seq<byte>, c: HostPtr)
    requires AllWellFormed(bs) && LastAt(memory, a, data, c).None?
    ensures SavedCell(memory, Rewritten(bs, a, data), c) == SavedCell(memory, bs, c)
  {
    hide LastAt, CopyOverlap, Cell;
    if bs != [] {
      var n := |bs| - 1;
      var b, other := bs[n], CopyOverlap(bs[n].original, bs[n].address, data, a);
      assert WellFormed(b);
      assert Rewritten(bs, a, data)[..n] == Rewritten(bs[..n], a, data);
      RewrittenElsewhere(memory, bs[..n], a, data, c);
      LastAtNone(memory, a, data, c);
      forall x | b.address <= x < b.address + |other| && Cell(memory, x) == c
        ensures other[x - b.address] == b.original[x - b.address]
      {
        CopyOverlapAt(b.original, b.address, data, a, x);
      }
      LastAtSame(memory, b.address, other, b.original, c);
    }
  }

  lemma UnsavedIsUnpatched(memory: PageMap, bs: seq<Breakpoint>, x: int)
    requires AllWellFormed(bs) && SavedCell(memory, bs, Cell(memory, x)).None?
    ensures forall i :: 0 <= i < |bs| ==> !Covers(bs[i], x)
  {
    hide Cell, SavedCell;
    SavedCellNone(memory, bs, Cell(memory, x));
  }

  /** A write that keeps the traps and updates the saved bytes is a plain write to clean
      memory if and only if the updated records put back what it leaves. */
  lemma WriteIsPlainIff(memory: PageMap, ram: Ram, bs: seq<Breakpoint>, a: nat, data: seq<byte>)
    requires PagesInRam(memory, ram) && RecordsOk(memory, bs) && MappedRun(memory, a, |data|)
    ensures Clean(memory, WriteBytes(memory, ram, a, LaidOver(bs, a, data, Planted)), Rewritten(bs, a, data))
            == WriteBytes(memory, Clean(memory, ram, bs), a, data)
            <==> LandsAsSaved(memory, Rewritten(bs, a, data), a, data)
  {
    hide Clean, WriteBytes, LastAt, SavedCell, LaidOver, PagesInRam, MappedRun, LandsAsSaved, CopyOverlap, Cell;
    var bs', physical := Rewritten(bs, a, data), LaidOver(bs, a, data, Planted);
    RewrittenOk(memory, bs, a, data);
    forall c | LastAt(memory, a, data, c).None? ensures SavedCell(memory, bs', c) == SavedCell(memory, bs, c) {
      RewrittenElsewhere(memory, bs, a, data, c);
    }
    forall x | a <= x < a + |data| && SavedCell(memory, bs', Cell(memory, x)).None?
      ensures physical[x - a] == data[x - a]
    {
      UnsavedIsUnpatched(memory, bs', x);
      assert forall i :: 0 <= i < |bs| ==> !Covers(bs'[i], x) && !Covers(bs[i], x);
      LaidElsewhere(bs, a, data, Planted, x);
    }
    CopyIsPlainIff(memory, ram, bs, bs', a, physical, data);
  }

  /** A write the host stops after n bytes changes no record.  It is a plain write of what
      the debugger would be shown there, if and only if the records put that back. */
  lemma StoppedWriteIff(memory: PageMap, ram: Ram, bs: seq<Breakpoint>, a: nat, data: seq<byte>, n: nat)
    requires PagesInRam(memory, ram) && RecordsOk(memory, bs) && n <= |data| && MappedRun(memory, a, n)
    ensures Clean(memory, WriteBytes(memory, ram, a, LaidOver(bs, a, data, Planted)[..n]), bs)
            == WriteBytes(memory, Clean(memory, ram, bs), a, LaidOver(bs, a, data, Original)[..n])
            <==> LandsAsSaved(memory, bs, a, LaidOver(bs, a, data, Original)[..n])
  {
    hide Clean, WriteBytes, LastAt, SavedCell, LaidOver, PagesInRam, MappedRun, LandsAsSaved, Cell;
    var physical, plain := LaidOver(bs, a, data, Planted)[..n], LaidOver(bs, a, data, Original)[..n];
    forall x | a <= x < a + n && SavedCell(memory, bs, Cell(memory, x)).None? ensures physical[x - a] == plain[x - a] {
      UnsavedIsUnpatched(memory, bs, x);
      LaidElsewhere(bs, a, data, Planted, x);
      LaidElsewhere(bs, a, data, Original, x);
    }
    CopyIsPlainIff(memory, ram, bs, bs, a, physical, plain);
  }

  /** Where no patched cell is reached from another address, both are always plain. */
  lemma UnaliasedLands(memory: PageMap, bs: seq<Breakpoint>, a: nat, data: seq<byte>)
    requires RecordsOk(memory, bs) && RecordsUnaliased(memory, bs) && MappedRun(memory, a, |data|)
    requires forall k, x :: 0 <= k < |bs| && a <= x < a + |data| && Covers(bs[k], x) && WellFormed(bs[k]) ==>
               data[x - a] == bs[k].original[x - bs[k].address]
    ensures LandsAsSaved(memory, bs, a, data)
  {
    hide SavedCell, Cell, RecordsOk, LastAt;
    forall x | a <= x < a + |data|
      ensures NoneOr(SavedCell(memory, bs, Cell(memory, x)), LastAt(memory, a, data, Cell(memory, x)))
    {
      if Patched(bs, x) {
        var k :| 0 <= k < |bs| && Covers(bs[k], x);
        SavedCellIs(memory, bs, k, x);
        assert Unaliased(memory, bs[k].address, bs[k].kind);
        LastAtMine(memory, a, data, Cell(memory, x), x);
      } else {
        NotSaved(memory, bs, x);
      }
    }
  }

  lemma UnaliasedWriteLands(memory: PageMap, bs: seq<Breakpoint>, a: nat, data: seq<byte>)
    requires RecordsOk(memory, bs) && RecordsUnaliased(memory, bs) && MappedRun(memory, a, |data|)
    ensures LandsAsSaved(memory, Rewritten(bs, a, data), a, data)
  {
    hide LandsAsSaved, RecordsUnaliased, MappedRun, CopyOverlap, Cell;
    var bs' := Rewritten(bs, a, data);
    RewrittenOk(memory, bs, a, data);
    forall k, x | 0 <= k < |bs'| && a <= x < a + |data| && Covers(bs'[k], x) && WellFormed(bs'[k])
      ensures data[x - a] == bs'[k].original[x - bs'[k].address]
    {
      assert WellFormed(bs[k]);
      CopyOverlapAt(bs[k].original, bs[k].address, data, a, x);
    }
    UnaliasedLands(memory, bs', a, data);
  }

  lemma UnaliasedStopLands(memory: PageMap, bs: seq<Breakpoint>, a: nat, data: seq<byte>, n: nat)
    requires RecordsOk(memory, bs) && RecordsUnaliased(memory, bs) && n <= |data| && MappedRun(memory, a, n)
    ensures LandsAsSaved(memory, bs, a, LaidOver(bs, a, data, Original)[..n])
  {
    hide LandsAsSaved, RecordsUnaliased, MappedRun, LaidOver, Cell;
    var plain := LaidOver(bs, a, data, Original)[..n];
    forall k, x | 0 <= k < |bs| && a <= x < a + |plain| && Covers(bs[k], x) && WellFormed(bs[k])
      ensures plain[x - a] == bs[k].original[x - bs[k].address]
    {
      LaidUnder(bs, a, data, Original, k, x);
    }
    UnaliasedLands(memory, bs, a, plain);
  }

  /** Putting back part of what one record saved, and keeping the record, is invisible. */
  lemma FailedRestore(memory: PageMap, ram: Ram, bs: seq<Breakpoint>, k: nat, n: nat)
    requires AllWellFormed(bs) && k < |bs| && n <= |bs[k].original|
    ensures Clean(memory, WriteBytes(memory, ram, bs[k].address, bs[k].original[..n]), bs) == Clean(memory, ram, bs)
  {
    hide Clean, WriteBytes, LastAt, SavedCell, CellByte, CellInRam, Cell;
    var a, data, clean := bs[k].address, bs[k].original[..n], Clean(memory, ram, bs);
    var ram' := WriteBytes(memory, ram, a, data);
    assert WellFormed(bs[k]);
    WriteKeepsShape(memory, ram, a, data);
    CleanKeepsShape(memory, ram, bs);
    forall c ensures CellAgrees(memory, ram', bs, clean, c) {
      if CellInRam(c, clean) {
        SameCells(clean, ram, c);
        CleanAt(memory, ram, bs, c);
        WriteAt(memory, ram, a, data, c);
        if LastAt(memory, a, data, c).Some? {
          var x := LastAtComesFrom(memory, a, data, c);
          CoveredIsSaved(memory, bs, k, x);
        }
      }
    }
    CleanIsIff(memory, ram', bs, clean);
  }

  // ----- Restoring ------------------------------------------------------------------------------

  function Forget<T>(bs: seq<T>, k: nat): seq<T>
    requires k < |bs|
  {
    bs[..k] + bs[k + 1..]
  }

  lemma ForgetOk(memory: PageMap, bs: seq<Breakpoint>, k: nat)
    requires RecordsOk(memory, bs) && k < |bs|
    ensures RecordsOk(memory, Forget(bs, k))
    ensures RecordsUnaliased(memory, bs) ==> RecordsUnaliased(memory, Forget(bs, k))
  {
    hide MappedRun, Unaliased;
    var bs' := Forget(bs, k);
    assert forall i :: 0 <= i < |bs'| ==> bs'[i] == if i < k then bs[i] else bs[i + 1];
  }

  lemma ForgetFrom<T>(bs: seq<T>, k: nat)
    requires k < |bs|
    ensures |Forget(bs, k)| == |bs| - 1
    ensures forall i :: 0 <= i < |bs| - 1 ==> Forget(bs, k)[i] == bs[if i < k then i else i + 1]
  {
  }

  /** Under `b` the records kept put back nothing, or what all of them do. */
  ghost predicate AlikeUnder(memory: PageMap, kept: seq<Breakpoint>, bs: seq<Breakpoint>, b: Breakpoint) {
    forall x :: Covers(b, x) ==>
      NoneOr(SavedCell(memory, kept, Cell(memory, x)), SavedCell(memory, bs, Cell(memory, x)))
  }

  lemma RestoreCellIff(memory: PageMap, bs: seq<Breakpoint>, k: nat, c: HostPtr, was: byte)
    requires k < |bs|
    ensures var mine, kept := LastAt(memory, bs[k].address, bs[k].original, c), SavedCell(memory, Forget(bs, k), c);
            OrElse(kept, OrElse(mine, was)) == OrElse(SavedCell(memory, bs, c), was) <==>
            (mine.Some? ==> kept == None || kept == SavedCell(memory, bs, c))
  {
    hide LastAt, SavedCell;
    var front, back := bs[..k], bs[k + 1..];
    assert bs == front + ([bs[k]] + back);
    SavedCellSplits(memory, front, [bs[k]] + back, c);
    SavedCellSplits(memory, [bs[k]], back, c);
    SavedByOne(memory, bs[k], c);
    SavedCellSplits(memory, front, back, c);
  }

  /** Putting back what one record saved and dropping the record is invisible if and only
      if, under it, the other records put back nothing or what all of them did. */
  lemma RestoreKeepsCleanIff(memory: PageMap, ram: Ram, bs: seq<Breakpoint>, k: nat)
    requires PagesInRam(memory, ram) && RecordsOk(memory, bs) && k < |bs|
    ensures Clean(memory, WriteBytes(memory, ram, bs[k].address, bs[k].original), Forget(bs, k))
            == Clean(memory, ram, bs)
            <==> AlikeUnder(memory, Forget(bs, k), bs, bs[k])
  {
    hide Clean, WriteBytes, LastAt, SavedCell, CellByte, CellInRam, PagesInRam, Forget, Cell;
    var a, data, clean, kept := bs[k].address, bs[k].original, Clean(memory, ram, bs), Forget(bs, k);
    var ram' := WriteBytes(memory, ram, a, data);
    assert WellFormed(bs[k]) && MappedRun(memory, a, |data|);
    WriteKeepsShape(memory, ram, a, data);
    CleanKeepsShape(memory, ram, bs);
    CleanIsIff(memory, ram', kept, clean);
    forall c | CellInRam(c, clean)
      ensures CellAgrees(memory, ram', kept, clean, c) <==> (LastAt(memory, a, data, c).Some? ==>
                SavedCell(memory, kept, c) == None || SavedCell(memory, kept, c) == SavedCell(memory, bs, c))
    {
      SameCells(clean, ram, c);
      CleanAt(memory, ram, bs, c);
      WriteAt(memory, ram, a, data, c);
      RestoreCellIff(memory, bs, k, c, CellByte(ram, c));
    }
    if AlikeUnder(memory, kept, bs, bs[k]) {
      forall c ensures CellAgrees(memory, ram', kept, clean, c) {
        if CellInRam(c, clean) && LastAt(memory, a, data, c).Some? {
          var x := LastAtComesFrom(memory, a, data, c);
          assert Covers(bs[k], x);
        }
      }
    }
    if forall c :: CellAgrees(memory, ram', kept, clean, c) {
      forall x | Covers(bs[k], x)
        ensures NoneOr(SavedCell(memory, kept, Cell(memory, x)), SavedCell(memory, bs, Cell(memory, x)))
      {
        var c := Cell(memory, x);
        ByteIsThere(memory, ram, x);
        SameCells(clean, ram, c);
        assert CellAgrees(memory, ram', kept, clean, c);
        LastAtNone(memory, a, data, c);
      }
    }
  }

  /** Where no patched cell is reached from another address, nothing else is put back. */
  lemma UnaliasedIsAlike(memory: PageMap, bs: seq<Breakpoint>, k: nat)
    requires RecordsOk(memory, bs) && RecordsUnaliased(memory, bs) && k < |bs|
    ensures AlikeUnder(memory, Forget(bs, k), bs, bs[k])
  {
    hide SavedCell, Cell, Forget, RecordsOk;
    forall x | Covers(bs[k], x) ensures SavedCell(memory, Forget(bs, k), Cell(memory, x)) == None {
      assert Unaliased(memory, bs[k].address, bs[k].kind);
      ForgottenIsNotSaved(memory, bs, k, x);
    }
  }

  lemma ForgottenIsNotSaved(memory: PageMap, bs: seq<Breakpoint>, k: nat, x: int)
    requires RecordsOk(memory, bs) && k < |bs| && Covers(bs[k], x) && Sole(memory, x)
    ensures SavedCell(memory, Forget(bs, k), Cell(memory, x)) == None
  {
    hide Cell, SavedCell, Forget;
    var bs', c := Forget(bs, k), Cell(memory, x);
    ForgetOk(memory, bs, k);
    ForgetFrom(bs, k);
    OnlyOneCovers(bs, k, x);
    forall i, y | 0 <= i < |bs'| && Covers(bs'[i], y) ensures Cell(memory, y) != c {
      assert MappedRun(memory, bs'[i].address, bs'[i].kind) && Cell(memory, y).At?;
      assert bs'[i] == bs[if i < k then i else i + 1];
    }
    SavedCellNone(memory, bs', c);
  }

  lemma OnlyOneCovers(bs: seq<Breakpoint>, k: nat, x: int)
    requires Disjoint(bs) && AllWellFormed(bs) && k < |bs| && Covers(bs[k], x)
    ensures forall i :: 0 <= i < |bs| && i != k ==> !Covers(bs[i], x)
  {
    forall i | 0 <= i < |bs| && i != k ensures !Covers(bs[i], x) {
      assert WellFormed(bs[i]) && WellFormed(bs[k]);
      if i < k { assert !RangesOverlap(bs[i].address, bs[i].kind, bs[k].address, bs[k].kind); }
      else { assert !RangesOverlap(bs[k].address, bs[k].kind, bs[i].address, bs[i].kind); }
    }
  }

  // ----- Planting -----------------------------------------------------------------------------------

  /** Whatever the records put back under the run is there already. */
  ghost predicate SavedIsThere(memory: PageMap, ram: Ram, bs: seq<Breakpoint>, a: nat, n: nat) {
    forall x :: a <= x < a + n ==>
      NoneOr(SavedCell(memory, bs, Cell(memory, x)), GuestByte(memory, ram, x))
  }

  lemma FetchedLast(memory: PageMap, ram: Ram, a: nat, n: nat, c: HostPtr)
    requires PagesInRam(memory, ram) && MappedRun(memory, a, n) && CellInRam(c, ram)
    ensures LastAt(memory, a, Fetch(memory, ram, a, n), c).Some? ==>
              LastAt(memory, a, Fetch(memory, ram, a, n), c) == Some(CellByte(ram, c))
  {
    hide Cell, LastAt, CellByte, Fetch, CellInRam, PagesInRam;
    if LastAt(memory, a, Fetch(memory, ram, a, n), c).Some? {
      var x := LastAtComesFrom(memory, a, Fetch(memory, ram, a, n), c);
      assert Cell(memory, x).At?;
      FetchAt(memory, ram, a, n, x);
    }
  }

  lemma PlantCellIff(memory: PageMap, ram: Ram, bs: seq<Breakpoint>, b: Breakpoint, c: HostPtr)
    requires PagesInRam(memory, ram) && MappedRun(memory, b.address, b.kind)
    requires b.original == Fetch(memory, ram, b.address, b.kind) && |b.trap| == b.kind && CellInRam(c, ram)
    ensures OrElse(SavedCell(memory, bs + [b], c), OrElse(LastAt(memory, b.address, b.trap, c), CellByte(ram, c)))
            == OrElse(SavedCell(memory, bs, c), CellByte(ram, c)) <==>
            (LastAt(memory, b.address, b.original, c).Some? ==>
               SavedCell(memory, bs, c) == None || SavedCell(memory, bs, c) == Some(CellByte(ram, c)))
  {
    hide Cell, LastAt, CellByte, Fetch, CellInRam, PagesInRam, SavedCell;
    SavedCellSplits(memory, bs, [b], c);
    SavedByOne(memory, b, c);
    LastAtNone(memory, b.address, b.original, c);
    LastAtNone(memory, b.address, b.trap, c);
    FetchedLast(memory, ram, b.address, b.kind, c);
  }

  /** Planting a trap over saved bytes leaves clean memory alone if and only if whatever
      earlier records put back under it is there already. */
  lemma PlantKeepsCleanIff(memory: PageMap, ram: Ram, bs: seq<Breakpoint>, b: Breakpoint)
    requires PagesInRam(memory, ram) && MappedRun(memory, b.address, b.kind)
    requires b.original == Fetch(memory, ram, b.address, b.kind) && |b.trap| == b.kind
    ensures Clean(memory, WriteBytes(memory, ram, b.address, b.trap), bs + [b]) == Clean(memory, ram, bs)
            <==> SavedIsThere(memory, ram, bs, b.address, b.kind)
  {
    hide Clean, WriteBytes, LastAt, CellByte, CellInRam, Cell, Fetch, PagesInRam, SavedCell, GuestByte;
    var clean, ram' := Clean(memory, ram, bs), WriteBytes(memory, ram, b.address, b.trap);
    WriteKeepsShape(memory, ram, b.address, b.trap);
    CleanKeepsShape(memory, ram, bs);
    CleanIsIff(memory, ram', bs + [b], clean);
    forall c | CellInRam(c, clean)
      ensures CellInRam(c, ram)
      ensures CellAgrees(memory, ram', bs + [b], clean, c) <==> (LastAt(memory, b.address, b.original, c).Some? ==>
                SavedCell(memory, bs, c) == None || SavedCell(memory, bs, c) == Some(CellByte(ram, c)))
    {
      SameCells(clean, ram, c);
      CleanAt(memory, ram, bs, c);
      WriteAt(memory, ram, b.address, b.trap, c);
      PlantCellIff(memory, ram, bs, b, c);
    }
    if SavedIsThere(memory, ram, bs, b.address, b.kind) {
      forall c ensures CellAgrees(memory, ram', bs + [b], clean, c) {
        if CellInRam(c, clean) && LastAt(memory, b.address, b.original, c).Some? {
          var x := LastAtComesFrom(memory, b.address, b.original, c);
          GuestByteIsCell(memory, ram, x);
        }
      }
    }
    if forall c :: CellAgrees(memory, ram', bs + [b], clean, c) {
      forall x | b.address <= x < b.address + b.kind
        ensures NoneOr(SavedCell(memory, bs, Cell(memory, x)), GuestByte(memory, ram, x))
      {
        var c := Cell(memory, x);
        ByteIsThere(memory, ram, x);
        SameCells(clean, ram, c);
        GuestByteIsCell(memory, ram, x);
        assert CellAgrees(memory, ram', bs + [b], clean, c);
        LastAtNone(memory, b.address, b.original, c);
      }
    }
  }

  // ----- Addresses without aliases -----------------------------------------------------------------

  /** An address outside all breakpoints whose cell has no record under another address. */
  lemma NotSaved(memory: PageMap, bs: seq<Breakpoint>, x: int)
    requires RecordsOk(memory, bs) && (RecordsUnaliased(memory, bs) || Sole(memory, x))
    requires Cell(memory, x).At? && !Patched(bs, x)
    ensures SavedCell(memory, bs, Cell(memory, x)) == None
  {
    hide Cell, SavedCell;
    var c := Cell(memory, x);
    forall i, y | 0 <= i < |bs| && Covers(bs[i], y) ensures Cell(memory, y) != c {
      assert MappedRun(memory, bs[i].address, bs[i].kind) && Cell(memory, y).At?;
      assert RecordsUnaliased(memory, bs) ==> Unaliased(memory, bs[i].address, bs[i].kind) && Sole(memory, y);
      assert x != y;
    }
    SavedCellNone(memory, bs, c);
  }

  /** Nothing is put back under the run. */
  ghost predicate NothingUnder(memory: PageMap, bs: seq<Breakpoint>, a: nat, n: nat) {
    forall x :: a <= x < a + n ==> SavedCell(memory, bs, Cell(memory, x)) == None
  }

  lemma ClearRun(memory: PageMap, bs: seq<Breakpoint>, a: nat, n: nat)
    requires RecordsOk(memory, bs) && (RecordsUnaliased(memory, bs) || Unaliased(memory, a, n))
    requires MappedRun(memory, a, n) && forall x :: a <= x < a + n ==> !Patched(bs, x)
    ensures NothingUnder(memory, bs, a, n)
  {
    hide Cell, SavedCell, Patched, RecordsOk, RecordsUnaliased;
    forall x | a <= x < a + n ensures SavedCell(memory, bs, Cell(memory, x)) == None {
      NotSaved(memory, bs, x);
    }
  }

  ghost predicate TrapInPlace(memory: PageMap, ram: Ram, b: Breakpoint) {
    forall x :: Covers(b, x) && |b.trap| == b.kind ==> GuestByte(memory, ram, x) == Some(b.trap[x - b.address])
  }

  lemma GuestByteIsCell(memory: PageMap, ram: Ram, x: int)
    requires CellInRam(Cell(memory, x), ram)
    ensures GuestByte(memory, ram, x) == Some(CellByte(ram, Cell(memory, x)))
  {
  }

  lemma TrapByteStays(memory: PageMap, ram: Ram, bs: seq<Breakpoint>, a: nat, data: seq<byte>, k: nat, x: int)
    requires PagesInRam(memory, ram) && RecordsOk(memory, bs) && RecordsUnaliased(memory, bs)
    requires MappedRun(memory, a, |data|)
    requires k < |bs| && |bs[k].trap| == bs[k].kind && Covers(bs[k], x)
    requires GuestByte(memory, ram, x) == Some(bs[k].trap[x - bs[k].address])
    ensures GuestByte(memory, WriteBytes(memory, ram, a, LaidOver(bs, a, data, Planted)), x)
            == Some(bs[k].trap[x - bs[k].address])
  {
    hide Cell, LastAt, LaidOver, WriteBytes, CellByte, CellInRam, GuestByte, PagesInRam;
    var physical, c := LaidOver(bs, a, data, Planted), Cell(memory, x);
    var ram' := WriteBytes(memory, ram, a, physical);
    assert MappedRun(memory, bs[k].address, bs[k].kind) && Cell(memory, x).At?;
    assert Unaliased(memory, bs[k].address, bs[k].kind) && Sole(memory, x);
    ByteIsThere(memory, ram, x);
    GuestByteIsCell(memory, ram, x);
    WriteAt(memory, ram, a, physical, c);
    LastAtMine(memory, a, physical, c, x);
    GuestByteIsCell(memory, ram', x);
    if a <= x < a + |data| { LaidUnder(bs, a, data, Planted, k, x); }
  }

  lemma SameTrapInPlace(memory: PageMap, ram: Ram, b: Breakpoint, c: Breakpoint)
    requires TrapInPlace(memory, ram, b) && c == b.(original := c.original)
    ensures TrapInPlace(memory, ram, c)
  {
    hide GuestByte;
    forall x | Covers(c, x) && |c.trap| == c.kind ensures GuestByte(memory, ram, x) == Some(c.trap[x - c.address]) {
      assert Covers(b, x);
    }
  }

  lemma TrapStays(memory: PageMap, ram: Ram, bs: seq<Breakpoint>, a: nat, data: seq<byte>, k: nat)
    requires PagesInRam(memory, ram) && RecordsOk(memory, bs) && RecordsUnaliased(memory, bs)
    requires MappedRun(memory, a, |data|)
    requires k < |bs| && TrapInPlace(memory, ram, bs[k])
    ensures TrapInPlace(memory, WriteBytes(memory, ram, a, LaidOver(bs, a, data, Planted)), bs[k])
  {
    hide LaidOver, WriteBytes, GuestByte, PagesInRam, MappedRun, RecordsUnaliased, RecordsOk;
    var b, ram' := bs[k], WriteBytes(memory, ram, a, LaidOver(bs, a, data, Planted));
    forall x | Covers(b, x) && |b.trap| == b.kind ensures GuestByte(memory, ram', x) == Some(b.trap[x - b.address]) {
      TrapByteStays(memory, ram, bs, a, data, k, x);
    }
  }

  /** A debugger write leaves planted traps planted. */
  lemma TrapsStay(memory: PageMap, ram: Ram, bs: seq<Breakpoint>, a: nat, data: seq<byte>, k: nat)
    requires PagesInRam(memory, ram) && RecordsOk(memory, bs) && RecordsUnaliased(memory, bs)
    requires MappedRun(memory, a, |data|)
    requires k < |bs| && TrapInPlace(memory, ram, bs[k])
    ensures TrapInPlace(memory, WriteBytes(memory, ram, a, LaidOver(bs, a, data, Planted)), Rewritten(bs, a, data)[k])
  {
    hide LaidOver, WriteBytes, PagesInRam, CopyOverlap, MappedRun, RecordsUnaliased, RecordsOk, TrapInPlace;
    TrapStays(memory, ram, bs, a, data, k);
    var ram' := WriteBytes(memory, ram, a, LaidOver(bs, a, data, Planted));
    SameTrapInPlace(memory, ram', bs[k], Rewritten(bs, a, data)[k]);
  }
}
