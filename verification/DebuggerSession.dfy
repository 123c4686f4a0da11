/**
 The debugger's commands: what each does to storage and records, and what whole
 sessions of them amount to in memory without breakpoints.

 `memory`, the page map, stays as it is during a session.  What the host answers is an
 argument of every command that writes.
 */
module DebuggerSession {
  import opened Wrappers
  import opened GuestPages
  import opened GuestBytes
  import opened DebuggerMemory

  /** Host storage and breakpoint records. */
  datatype Debug = Debug(ram: Ram, records: seq<Breakpoint>)

  ghost predicate Sound(memory: PageMap, s: Debug) {
    PagesInRam(memory, s.ram) && RecordsOk(memory, s.records)
  }

  // ----- Setting ---------------------------------------------------------------------------

  /** Where a breakpoint request lands: past the end for an address that is not a
      32-bit one, on the halfword for a Thumb site. */
  function Canonical(address: nat, kind: nat): nat {
    if address >= SPACE then SPACE - 1 else if kind == 2 then address - address % 2 else address
  }

  predicate HasRecord(bs: seq<Breakpoint>, at: nat, kind: nat) {
    exists i :: 0 <= i < |bs| && bs[i].address == at && bs[i].kind == kind
  }

  predicate Meets(bs: seq<Breakpoint>, at: nat, kind: nat) {
    exists i :: 0 <= i < |bs| && RangesOverlap(at, kind, bs[i].address, bs[i].kind)
  }

  predicate Traced(tracepoints: seq<Tracepoint>, at: nat, kind: nat) {
    exists i :: 0 <= i < |tracepoints| && RangesOverlap(at, kind, tracepoints[i].address, tracepoints[i].kind)
  }

  predicate GoodSite(tracepoints: seq<Tracepoint>, at: nat, kind: nat) {
    && (kind == 2 || kind == 4) && at != SPACE - 1 && (kind == 4 ==> at % 4 == 0)
    && !Traced(tracepoints, at, kind)
  }

  /** The request leads to a trap being written. */
  ghost predicate Plants(memory: PageMap, tracepoints: seq<Tracepoint>, bs: seq<Breakpoint>, address: nat, kind: nat) {
    var at := Canonical(address, kind);
    GoodSite(tracepoints, at, kind) && !Meets(bs, at, kind) && MappedRun(memory, at, kind)
  }

  /** The request finds its breakpoint already set. */
  predicate AlreadySet(tracepoints: seq<Tracepoint>, bs: seq<Breakpoint>, address: nat, kind: nat) {
    var at := Canonical(address, kind);
    GoodSite(tracepoints, at, kind) && HasRecord(bs, at, kind)
  }

  ghost function SetStep(memory: PageMap, tracepoints: seq<Tracepoint>, s: Debug, address: nat, kind: nat,
      host: Host): (Debug, bool) {
    if AlreadySet(tracepoints, s.records, address, kind) then (s, true)
    else if !Plants(memory, tracepoints, s.records, address, kind) then (s, false)
    else
      var at := Canonical(address, kind);
      var (ok, n) := Reach(memory, host, at, |Trap(kind)|);
      var b := Breakpoint(at, kind, Fetch(memory, s.ram, at, kind), Trap(kind));
      (Debug(WriteBytes(memory, s.ram, at, Trap(kind)[..n]), if ok then s.records + [b] else s.records), ok)
  }

  // ----- Deleting --------------------------------------------------------------------------------

  function RecordAt(bs: seq<Breakpoint>, at: nat): (r: Option<nat>)
    ensures r.Some? ==> r.value < |bs| && bs[r.value].address == at
    ensures r.None? ==> forall i :: 0 <= i < |bs| ==> bs[i].address != at
  {
    if bs == [] then None
    else
      match RecordAt(bs[..|bs| - 1], at)
      case Some(i) => Some(i)
      case None => if bs[|bs| - 1].address == at then Some(|bs| - 1) else None
  }

  /** Put back what record k saved, as far as the host lets us; drop it on success. */
  function RestoreStep(memory: PageMap, s: Debug, k: nat, host: Host): (Debug, bool)
    requires k < |s.records|
  {
    var b := s.records[k];
    var (ok, n) := Reach(memory, host, b.address, |b.original|);
    (Debug(WriteBytes(memory, s.ram, b.address, b.original[..n]), if ok then Forget(s.records, k) else s.records), ok)
  }

  /** The record at the canonical address decides how much is restored. */
  function DeleteStep(memory: PageMap, s: Debug, address: nat, host: Host): (Debug, bool) {
    if address >= SPACE then (s, false)
    else
      match RecordAt(s.records, address - address % 2)
      case None => (s, true)
      case Some(k) => RestoreStep(memory, s, k, host)
  }

  /** Restore every record from the i-th on; those that fail stay.  The host answers
      each attempt anew. */
  function RemoveFrom(memory: PageMap, s: Debug, i: nat, hosts: nat -> Host, attempt: nat): (r: Debug)
    decreases |s.records| - i
  {
    if i >= |s.records| then s
    else
      var (next, ok) := RestoreStep(memory, s, i, hosts(attempt));
      RemoveFrom(memory, next, if ok then i else i + 1, hosts, attempt + 1)
  }

  // ----- Reading and writing ------------------------------------------------------------------------

  ghost predicate Readable(memory: PageMap, a: nat, n: nat) {
    RangeIsValid(a, n) && MappedRun(memory, a, n)
  }

  /** As `Readable`, except that an empty range inside a page needs that page. */
  ghost predicate Writable(memory: PageMap, a: nat, n: nat) {
    Readable(memory, a, n) && (n == 0 && a % PAGE != 0 ==> Cell(memory, a).At?)
  }

  ghost function ReadStep(memory: PageMap, s: Debug, a: nat, n: nat): Option<seq<byte>> {
    if Readable(memory, a, n) then Some(LaidOver(s.records, a, Fetch(memory, s.ram, a, n), Original)) else None
  }

  ghost function WriteStep(memory: PageMap, s: Debug, a: nat, data: seq<byte>, host: Host): (Debug, bool) {
    if !Writable(memory, a, |data|) then (s, false)
    else
      var (ok, n) := Reach(memory, host, a, |data|);
      var ram := WriteBytes(memory, s.ram, a, LaidOver(s.records, a, data, Planted)[..n]);
      (Debug(ram, if ok then Rewritten(s.records, a, data) else s.records), ok)
  }

  /** Memory the host lets everyone write. */
  const OPEN: Host := c => Known(PAGE, true, true, true)

  /** The guest, or a system call for it, writes as far as pages are mapped. */
  function StoreStep(memory: PageMap, s: Debug, a: nat, data: seq<byte>): Debug {
    if !RangeIsValid(a, |data|) then s
    else s.(ram := WriteBytes(memory, s.ram, a, data[..Reach(memory, OPEN, a, |data|).1]))
  }

  // ----- What is written ------------------------------------------------------------------------------

  lemma {:induction false} ReachIsMapped(memory: PageMap, host: Host, a: nat, n: nat)
    ensures MappedRun(memory, a, Reach(memory, host, a, n).1)
    decreases n
  {
    if n > 0 && Cell(memory, a).At? {
      var chunk := Copy(host(Cell(memory, a)), Least(n, PAGE - a % PAGE)).1;
      forall x | a <= x < a + chunk ensures Cell(memory, x).At? { CellInPage(memory, a, x - a); }
      hide Cell, Copy;
      if chunk > 0 { ReachIsMapped(memory, host, a + chunk, n - chunk); }
    }
  }

  lemma WriteKeepsPages(memory: PageMap, ram: Ram, a: nat, data: seq<byte>)
    requires PagesInRam(memory, ram)
    ensures PagesInRam(memory, WriteBytes(memory, ram, a, data))
  {
    WriteKeepsShape(memory, ram, a, data);
  }

  // ----- Sites in plain terms ---------------------------------------------------------------

  /** Two stretches of addresses have none in common. */
  predicate Apart(a: nat, n: nat, b: nat, m: nat) {
    n == 0 || m == 0 || a + n <= b || b + m <= a
  }

  /** A Thumb or an ARM instruction. */
  predicate IsSite(at: nat, kind: nat) {
    (kind == 2 || kind == 4) && at % kind == 0 && at + kind <= 0x1_0000_0000
  }

  ghost predicate ClearOfTracepoints(tracepoints: seq<Tracepoint>, at: nat, kind: nat) {
    forall i :: 0 <= i < |tracepoints| ==> Apart(at, kind, tracepoints[i].address, tracepoints[i].kind)
  }

  ghost predicate ClearOfRecords(bs: seq<Breakpoint>, at: nat, kind: nat) {
    forall i :: 0 <= i < |bs| ==> Apart(at, kind, bs[i].address, bs[i].kind)
  }

  /** A mapped instruction that nothing is set on. */
  ghost predicate ClearSite(memory: PageMap, tracepoints: seq<Tracepoint>, bs: seq<Breakpoint>, at: nat, kind: nat) {
    && IsSite(at, kind) && ClearOfTracepoints(tracepoints, at, kind) && ClearOfRecords(bs, at, kind)
    && forall x :: at <= x < at + kind ==> Cell(memory, x).At?
  }

  /** BKPT in either instruction set, as bytes. */
  predicate IsTrap(kind: nat, trap: seq<byte>) {
    trap == if kind == 2 then [0x00, 0xBE] else [0x70, 0x00, 0x20, 0xE1]
  }

  /** Records are sites with a trap, apart from each other and from every tracepoint. */
  ghost predicate Registered(tracepoints: seq<Tracepoint>, bs: seq<Breakpoint>) {
    && (forall i :: 0 <= i < |bs| ==>
          && IsSite(bs[i].address, bs[i].kind) && IsTrap(bs[i].kind, bs[i].trap)
          && ClearOfTracepoints(tracepoints, bs[i].address, bs[i].kind))
    && (forall i, j :: 0 <= i < j < |bs| ==> Apart(bs[i].address, bs[i].kind, bs[j].address, bs[j].kind))
  }

  lemma CanonicalSite(address: nat, kind: nat)
    requires kind == 2 || kind == 4
    ensures var at := Canonical(address, kind);
            at != SPACE - 1 && (kind == 4 ==> at % 4 == 0) <==> address < 0x1_0000_0000 && IsSite(at, kind)
    ensures address < 0x1_0000_0000 ==> Canonical(address, kind) == if kind == 2 then address - address % 2 else address
  {
  }

  /** A trap is planted exactly on a mapped instruction clear of tracepoints and records. */
  lemma PlantsIff(memory: PageMap, tracepoints: seq<Tracepoint>, bs: seq<Breakpoint>, address: nat, kind: nat)
    ensures var at := if kind == 2 then address - address % 2 else address;
            Plants(memory, tracepoints, bs, address, kind) <==>
            address < 0x1_0000_0000 && ClearSite(memory, tracepoints, bs, at, kind)
  {
    hide Cell, IsSite;
    if kind == 2 || kind == 4 { CanonicalSite(address, kind); } else { NoSite(address, kind); }
    var at := Canonical(address, kind);
    assert ClearOfTracepoints(tracepoints, at, kind) <==> !Traced(tracepoints, at, kind);
    assert ClearOfRecords(bs, at, kind) <==> !Meets(bs, at, kind);
  }

  lemma NoSite(at: nat, kind: nat)
    requires kind != 2 && kind != 4
    ensures !IsSite(at, kind)
  {
  }

  /** A request for a breakpoint that is there finds it. */
  lemma AlreadySetIff(tracepoints: seq<Tracepoint>, bs: seq<Breakpoint>, address: nat, kind: nat)
    requires Registered(tracepoints, bs)
    ensures var at := if kind == 2 then address - address % 2 else address;
            AlreadySet(tracepoints, bs, address, kind) <==>
            address < 0x1_0000_0000 && exists i :: 0 <= i < |bs| && bs[i].address == at && bs[i].kind == kind
  {
    var at := Canonical(address, kind);
    if kind == 2 || kind == 4 { CanonicalSite(address, kind); }
    if i :| 0 <= i < |bs| && bs[i].address == at && bs[i].kind == kind {
      assert ClearOfTracepoints(tracepoints, at, kind) && IsSite(at, kind);
      assert !Traced(tracepoints, at, kind);
    }
  }

  lemma RegisteredMore(tracepoints: seq<Tracepoint>, bs: seq<Breakpoint>, b: Breakpoint)
    requires Registered(tracepoints, bs) && IsSite(b.address, b.kind) && IsTrap(b.kind, b.trap)
    requires ClearOfTracepoints(tracepoints, b.address, b.kind) && ClearOfRecords(bs, b.address, b.kind)
    ensures Registered(tracepoints, bs + [b])
  {
    hide IsSite, IsTrap, ClearOfTracepoints;
    assert forall i :: 0 <= i < |bs + [b]| ==> (bs + [b])[i] == if i < |bs| then bs[i] else b;
  }

  lemma RegisteredLess(tracepoints: seq<Tracepoint>, bs: seq<Breakpoint>, k: nat)
    requires Registered(tracepoints, bs) && k < |bs|
    ensures Registered(tracepoints, Forget(bs, k))
  {
    hide IsSite, IsTrap, ClearOfTracepoints, Apart;
    var r := Forget(bs, k);
    assert forall i :: 0 <= i < |r| ==> r[i] == bs[if i < k then i else i + 1];
  }

  lemma RegisteredAlike(tracepoints: seq<Tracepoint>, bs: seq<Breakpoint>, other: seq<Breakpoint>)
    requires Registered(tracepoints, bs) && |other| == |bs|
    requires forall i :: 0 <= i < |bs| ==> other[i] == bs[i].(original := other[i].original)
    ensures Registered(tracepoints, other)
  {
    hide IsSite, IsTrap, ClearOfTracepoints, Apart;
  }

  lemma SetKeepsRegistered(memory: PageMap, tracepoints: seq<Tracepoint>, s: Debug, address: nat, kind: nat, host: Host)
    requires Registered(tracepoints, s.records)
    ensures Registered(tracepoints, SetStep(memory, tracepoints, s, address, kind, host).0.records)
  {
    hide WriteBytes, Reach, Fetch, Cell, AlreadySet, Plants, Apart, Registered, ClearOfTracepoints, ClearOfRecords;
    PlantsIff(memory, tracepoints, s.records, address, kind);
    if Plants(memory, tracepoints, s.records, address, kind) {
      CanonicalSite(address, kind);
      var at := Canonical(address, kind);
      RegisteredMore(tracepoints, s.records, Breakpoint(at, kind, Fetch(memory, s.ram, at, kind), Trap(kind)));
    }
  }

  lemma RestoreKeepsRegistered(memory: PageMap, tracepoints: seq<Tracepoint>, s: Debug, k: nat, host: Host)
    requires Registered(tracepoints, s.records) && k < |s.records|
    ensures Registered(tracepoints, RestoreStep(memory, s, k, host).0.records)
  {
    hide Registered, WriteBytes, Reach;
    RegisteredLess(tracepoints, s.records, k);
  }

  lemma {:induction false} RemoveKeepsRegistered(memory: PageMap, tracepoints: seq<Tracepoint>, s: Debug, i: nat,
      hosts: nat -> Host, attempt: nat)
    requires Registered(tracepoints, s.records)
    ensures Registered(tracepoints, RemoveFrom(memory, s, i, hosts, attempt).records)
    decreases |s.records| - i
  {
    hide Registered, WriteBytes, Reach;
    if i < |s.records| {
      RestoreKeepsRegistered(memory, tracepoints, s, i, hosts(attempt));
      var (next, ok) := RestoreStep(memory, s, i, hosts(attempt));
      RemoveKeepsRegistered(memory, tracepoints, next, if ok then i else i + 1, hosts, attempt + 1);
    }
  }

  // ----- Setting and clean memory -----------------------------------------------------------------------

  lemma PlantsOnClearGround(memory: PageMap, tracepoints: seq<Tracepoint>, bs: seq<Breakpoint>, address: nat, kind: nat)
    requires RecordsOk(memory, bs) && Plants(memory, tracepoints, bs, address, kind)
    ensures forall x :: Canonical(address, kind) <= x < Canonical(address, kind) + kind ==> !Patched(bs, x)
    ensures MappedRun(memory, Canonical(address, kind), kind) && |Trap(kind)| == kind
  {
    var at := Canonical(address, kind);
    forall x | at <= x < at + kind ensures !Patched(bs, x) {
      if Patched(bs, x) {
        var i :| 0 <= i < |bs| && Covers(bs[i], x);
        assert RangesOverlap(at, kind, bs[i].address, bs[i].kind);
        assert false;
      }
    }
  }

  lemma RecordAdded(memory: PageMap, tracepoints: seq<Tracepoint>, bs: seq<Breakpoint>, address: nat, kind: nat,
      b: Breakpoint)
    requires RecordsOk(memory, bs) && Plants(memory, tracepoints, bs, address, kind)
    requires b.address == Canonical(address, kind) && b.kind == kind == |b.original| && b.trap == Trap(kind)
    ensures RecordsOk(memory, bs + [b])
    ensures RecordsUnaliased(memory, bs) && Unaliased(memory, b.address, kind) ==> RecordsUnaliased(memory, bs + [b])
  {
    hide MappedRun, Unaliased;
    var bs' := bs + [b];
    assert WellFormed(b);
    forall i | 0 <= i < |bs| ensures !RangesOverlap(bs[i].address, bs[i].kind, b.address, b.kind) {
      assert !RangesOverlap(b.address, kind, bs[i].address, bs[i].kind);
    }
    assert forall i :: 0 <= i < |bs'| ==> bs'[i] == if i < |bs| then bs[i] else b;
  }

  /** If the request leads to a trap being written, no other address shows it. */
  ghost predicate SiteUnaliased(memory: PageMap, tracepoints: seq<Tracepoint>, s: Debug, address: nat, kind: nat) {
    Plants(memory, tracepoints, s.records, address, kind) ==> Unaliased(memory, Canonical(address, kind), kind)
  }

  /** A trap was written, the host then reported an error, and the record was dropped. */
  ghost predicate Strands(memory: PageMap, tracepoints: seq<Tracepoint>, s: Debug, address: nat, kind: nat,
      host: Host) {
    && Plants(memory, tracepoints, s.records, address, kind) && !AlreadySet(tracepoints, s.records, address, kind)
    && !Reach(memory, host, Canonical(address, kind), |Trap(kind)|).0
  }

  /** The part of the trap that such a request leaves behind. */
  function Stranded(memory: PageMap, address: nat, kind: nat, host: Host): seq<byte> {
    Trap(kind)[..Reach(memory, host, Canonical(address, kind), |Trap(kind)|).1]
  }

  lemma SetIsSound(memory: PageMap, tracepoints: seq<Tracepoint>, s: Debug, address: nat, kind: nat, host: Host)
    requires Sound(memory, s)
    ensures var next := SetStep(memory, tracepoints, s, address, kind, host).0;
            && Sound(memory, next)
            && (SiteUnaliased(memory, tracepoints, s, address, kind) && RecordsUnaliased(memory, s.records) ==>
                  RecordsUnaliased(memory, next.records))
  {
    hide PagesInRam, RecordsOk, RecordsUnaliased, WriteBytes, Reach, Plants, AlreadySet, Fetch, Unaliased;
    var at := Canonical(address, kind);
    if Plants(memory, tracepoints, s.records, address, kind) && !AlreadySet(tracepoints, s.records, address, kind) {
      WriteKeepsPages(memory, s.ram, at, Stranded(memory, address, kind, host));
      var b := Breakpoint(at, kind, Fetch(memory, s.ram, at, kind), Trap(kind));
      RecordAdded(memory, tracepoints, s.records, address, kind, b);
    }
  }

  /** Setting is a plain write of the stranded part of the trap, if there is any, and else
      nothing: whatever the records put back under the site is there already, or is what
      was stranded. */
  ghost predicate SetsPlainly(memory: PageMap, tracepoints: seq<Tracepoint>, s: Debug, address: nat, kind: nat,
      host: Host) {
    Plants(memory, tracepoints, s.records, address, kind) && !AlreadySet(tracepoints, s.records, address, kind) ==>
      var at := Canonical(address, kind);
      if Reach(memory, host, at, |Trap(kind)|).0 then SavedIsThere(memory, s.ram, s.records, at, kind)
      else LandsAsSaved(memory, s.records, at, Stranded(memory, address, kind, host))
  }

  /** What clean memory becomes by it. */
  ghost function AfterSet(memory: PageMap, tracepoints: seq<Tracepoint>, s: Debug, address: nat, kind: nat,
      host: Host): Ram {
    var clean := Clean(memory, s.ram, s.records);
    if Strands(memory, tracepoints, s, address, kind, host)
    then WriteBytes(memory, clean, Canonical(address, kind), Stranded(memory, address, kind, host)) else clean
  }

  lemma SetAndCleanIff(memory: PageMap, tracepoints: seq<Tracepoint>, s: Debug, address: nat, kind: nat, host: Host)
    requires Sound(memory, s)
    ensures var next := SetStep(memory, tracepoints, s, address, kind, host).0;
            Clean(memory, next.ram, next.records) == AfterSet(memory, tracepoints, s, address, kind, host)
            <==> SetsPlainly(memory, tracepoints, s, address, kind, host)
  {
    hide PagesInRam, WriteBytes, Reach, Plants, AlreadySet, Fetch, Clean, Patched, RecordsOk, LandsAsSaved,
         SavedIsThere, MappedRun;
    var at, bs := Canonical(address, kind), s.records;
    if Plants(memory, tracepoints, bs, address, kind) && !AlreadySet(tracepoints, bs, address, kind) {
      PlantsOnClearGround(memory, tracepoints, bs, address, kind);
      if Strands(memory, tracepoints, s, address, kind, host) {
        ReachIsMapped(memory, host, at, |Trap(kind)|);
        PlainWriteIff(memory, s.ram, bs, at, Stranded(memory, address, kind, host));
      } else {
        var b := Breakpoint(at, kind, Fetch(memory, s.ram, at, kind), Trap(kind));
        assert Stranded(memory, address, kind, host) == Trap(kind);
        PlantKeepsCleanIff(memory, s.ram, bs, b);
      }
    }
  }

  /** On an unaliased site it always is. */
  lemma UnaliasedSetsPlainly(memory: PageMap, tracepoints: seq<Tracepoint>, s: Debug, address: nat, kind: nat,
      host: Host)
    requires Sound(memory, s) && SiteUnaliased(memory, tracepoints, s, address, kind)
    ensures SetsPlainly(memory, tracepoints, s, address, kind, host)
  {
    hide PagesInRam, Reach, Plants, AlreadySet, Unaliased, Patched, RecordsOk, MappedRun, SavedCell, Cell, GuestByte,
         LastAt;
    if Plants(memory, tracepoints, s.records, address, kind) {
      PlantsOnClearGround(memory, tracepoints, s.records, address, kind);
      ClearRun(memory, s.records, Canonical(address, kind), kind);
    }
  }

  // ----- The other commands and clean memory ------------------------------------------------------------

  /** The host lets this record be restored. */
  predicate Restorable(memory: PageMap, host: Host, b: Breakpoint) {
    Reach(memory, host, b.address, |b.original|).0
  }

  lemma RestoreIsSound(memory: PageMap, s: Debug, k: nat, host: Host)
    requires Sound(memory, s) && k < |s.records|
    ensures var next := RestoreStep(memory, s, k, host).0;
            Sound(memory, next) && (RecordsUnaliased(memory, s.records) ==> RecordsUnaliased(memory, next.records))
  {
    hide PagesInRam, WriteBytes, Reach, Forget, RecordsUnaliased, RecordsOk;
    var b := s.records[k];
    WriteKeepsPages(memory, s.ram, b.address, b.original[..Reach(memory, host, b.address, |b.original|).1]);
    ForgetOk(memory, s.records, k);
  }

  /** Restoring one record is invisible if and only if the host stops it or, under it, the
      other records put back nothing or what all of them did. */
  lemma RestoreAndCleanIff(memory: PageMap, s: Debug, k: nat, host: Host)
    requires Sound(memory, s) && k < |s.records|
    ensures var next, b := RestoreStep(memory, s, k, host).0, s.records[k];
            Clean(memory, next.ram, next.records) == Clean(memory, s.ram, s.records) <==>
            !Restorable(memory, host, b) || AlikeUnder(memory, Forget(s.records, k), s.records, b)
  {
    hide PagesInRam, WriteBytes, Reach, Clean, Forget, AlikeUnder;
    var b := s.records[k];
    var r := Reach(memory, host, b.address, |b.original|);
    if r.0 {
      assert b.original[..r.1] == b.original;
      RestoreKeepsCleanIff(memory, s.ram, s.records, k);
    } else {
      FailedRestore(memory, s.ram, s.records, k, r.1);
    }
  }

  /** Deleting is invisible: there is no such record, or the host stops it, or the other
      records put back nothing under it or what all of them did. */
  ghost predicate DeletesPlainly(memory: PageMap, bs: seq<Breakpoint>, address: nat, host: Host) {
    address < SPACE ==>
      match RecordAt(bs, address - address % 2)
      case None => true
      case Some(k) => !Restorable(memory, host, bs[k]) || AlikeUnder(memory, Forget(bs, k), bs, bs[k])
  }

  lemma RewrittenNothing(bs: seq<Breakpoint>, a: nat)
    ensures Rewritten(bs, a, []) == bs
  {
    forall i | 0 <= i < |bs| ensures Rewritten(bs, a, [])[i] == bs[i] {
      assert CopyOverlap(bs[i].original, bs[i].address, [], a) == bs[i].original;
    }
  }

  /** The bytes of a write that get past the host before an error. */
  function Reached(memory: PageMap, a: nat, data: seq<byte>, host: Host): seq<byte> {
    data[..Reach(memory, host, a, |data|).1]
  }

  /** What a debugger write amounts to: all of it, or, if the host stops it, what got past
      the host, with the saved bytes where breakpoints are. */
  function Changed(memory: PageMap, bs: seq<Breakpoint>, a: nat, data: seq<byte>, host: Host): seq<byte> {
    var (ok, n) := Reach(memory, host, a, |data|);
    if ok then data else LaidOver(bs, a, data, Original)[..n]
  }

  ghost predicate ChangesPlainly(memory: PageMap, bs: seq<Breakpoint>, a: nat, data: seq<byte>, host: Host) {
    Writable(memory, a, |data|) ==>
      var left := if Reach(memory, host, a, |data|).0 then Rewritten(bs, a, data) else bs;
      LandsAsSaved(memory, left, a, Changed(memory, bs, a, data, host))
  }

  ghost function AfterWrite(memory: PageMap, s: Debug, a: nat, data: seq<byte>, host: Host): Ram {
    var clean := Clean(memory, s.ram, s.records);
    if Writable(memory, a, |data|)
    then WriteBytes(memory, clean, a, Changed(memory, s.records, a, data, host)) else clean
  }

  lemma WriteIsSound(memory: PageMap, s: Debug, a: nat, data: seq<byte>, host: Host)
    requires Sound(memory, s)
    ensures var next := WriteStep(memory, s, a, data, host).0;
            Sound(memory, next) && (RecordsUnaliased(memory, s.records) ==> RecordsUnaliased(memory, next.records))
  {
    hide PagesInRam, WriteBytes, Reach, RecordsUnaliased, RecordsOk, LaidOver, Rewritten, MappedRun, Cell;
    WriteKeepsPages(memory, s.ram, a, LaidOver(s.records, a, data, Planted)[..Reach(memory, host, a, |data|).1]);
    RewrittenOk(memory, s.records, a, data);
  }

  /** A debugger write is a plain write of what it amounts to if and only if the records it
      leaves put that back. */
  lemma WriteAndCleanIff(memory: PageMap, s: Debug, a: nat, data: seq<byte>, host: Host)
    requires Sound(memory, s)
    ensures var next := WriteStep(memory, s, a, data, host).0;
            Clean(memory, next.ram, next.records) == AfterWrite(memory, s, a, data, host)
            <==> ChangesPlainly(memory, s.records, a, data, host)
  {
    hide PagesInRam, WriteBytes, Reach, Clean, LaidOver, Rewritten, LandsAsSaved, Cell, RecordsOk, MappedRun;
    var r, physical := Reach(memory, host, a, |data|), LaidOver(s.records, a, data, Planted);
    if Writable(memory, a, |data|) {
      if r.0 {
        assert physical[..r.1] == physical;
        WriteIsPlainIff(memory, s.ram, s.records, a, data);
      } else {
        ReachIsMapped(memory, host, a, |data|);
        StoppedWriteIff(memory, s.ram, s.records, a, data, r.1);
      }
    }
  }

  lemma UnaliasedChangesPlainly(memory: PageMap, bs: seq<Breakpoint>, a: nat, data: seq<byte>, host: Host)
    requires RecordsOk(memory, bs) && RecordsUnaliased(memory, bs)
    ensures ChangesPlainly(memory, bs, a, data, host)
  {
    hide Reach, LaidOver, Rewritten, LandsAsSaved, Cell, RecordsOk, MappedRun, RecordsUnaliased;
    if Writable(memory, a, |data|) {
      ReachIsMapped(memory, host, a, |data|);
      UnaliasedWriteLands(memory, bs, a, data);
      UnaliasedStopLands(memory, bs, a, data, Reach(memory, host, a, |data|).1);
    }
  }

  /** A store changes nothing a breakpoint has saved. */
  ghost predicate StoresPlainly(memory: PageMap, bs: seq<Breakpoint>, a: nat, data: seq<byte>) {
    RangeIsValid(a, |data|) ==> LandsAsSaved(memory, bs, a, Reached(memory, a, data, OPEN))
  }

  ghost function AfterStore(memory: PageMap, s: Debug, a: nat, data: seq<byte>): Ram {
    var clean := Clean(memory, s.ram, s.records);
    if RangeIsValid(a, |data|) then WriteBytes(memory, clean, a, Reached(memory, a, data, OPEN)) else clean
  }

  lemma StoreAndCleanIff(memory: PageMap, s: Debug, a: nat, data: seq<byte>)
    requires Sound(memory, s)
    ensures var next := StoreStep(memory, s, a, data);
            && Sound(memory, next) && next.records == s.records
            && (Clean(memory, next.ram, next.records) == AfterStore(memory, s, a, data)
                <==> StoresPlainly(memory, s.records, a, data))
  {
    hide PagesInRam, WriteBytes, Reach, Clean, LandsAsSaved, Cell, RecordsOk, MappedRun;
    WriteKeepsPages(memory, s.ram, a, Reached(memory, a, data, OPEN));
    ReachIsMapped(memory, OPEN, a, |data|);
    PlainWriteIff(memory, s.ram, s.records, a, Reached(memory, a, data, OPEN));
  }

  // ----- Removing everything ------------------------------------------------------------------------------

  lemma {:induction false} CleanFromFront(memory: PageMap, ram: Ram, bs: seq<Breakpoint>)
    requires bs != []
    ensures Clean(memory, WriteBytes(memory, ram, bs[0].address, bs[0].original), bs[1..]) == Clean(memory, ram, bs)
  {
    hide WriteBytes;
    var n := |bs| - 1;
    if n == 0 {
      assert bs[..n] == [] && bs[1..] == [];
    } else {
      CleanFromFront(memory, ram, bs[..n]);
      assert bs[1..][..n - 1] == bs[..n][1..] && bs[1..][n - 1] == bs[n];
    }
  }

  /** The records the host does not let be restored, one attempt each. */
  function Unrestored(memory: PageMap, bs: seq<Breakpoint>, hosts: nat -> Host, attempt: nat): seq<Breakpoint> {
    if bs == [] then []
    else
      (if Restorable(memory, hosts(attempt), bs[0]) then [] else [bs[0]])
      + Unrestored(memory, bs[1..], hosts, attempt + 1)
  }

  lemma UnrestoredNext(memory: PageMap, bs: seq<Breakpoint>, i: nat, hosts: nat -> Host, attempt: nat)
    requires i < |bs|
    ensures var rest := Unrestored(memory, bs[i + 1..], hosts, attempt + 1);
            Unrestored(memory, bs[i..], hosts, attempt)
            == if Restorable(memory, hosts(attempt), bs[i]) then rest else [bs[i]] + rest
  {
    hide Restorable;
    assert bs[i..][1..] == bs[i + 1..];
    var rest := Unrestored(memory, bs[i + 1..], hosts, attempt + 1);
    assert [] + rest == rest;
  }

  lemma OneBetween<T>(front: seq<T>, b: T, rest: seq<T>)
    ensures (front + [b]) + rest == front + ([b] + rest)
  {
  }

  lemma NothingLeft(memory: PageMap, s: Debug, hosts: nat -> Host, attempt: nat)
    ensures var n := |s.records|;
            RemoveFrom(memory, s, n, hosts, attempt).records
            == s.records[..n] + Unrestored(memory, s.records[n..], hosts, attempt)
  {
    var n := |s.records|;
    assert s.records[n..] == [] && s.records[..n] + [] == s.records;
  }

  lemma ForgetSplits<T>(bs: seq<T>, i: nat)
    requires i < |bs|
    ensures Forget(bs, i)[..i] == bs[..i] && Forget(bs, i)[i..] == bs[i + 1..]
    ensures bs[..i + 1] == bs[..i] + [bs[i]] && bs[i..] == [bs[i]] + bs[i + 1..]
  {
  }

  /** One attempt, and then the rest. */
  lemma RemoveNext(memory: PageMap, s: Debug, i: nat, hosts: nat -> Host, attempt: nat) returns (next: Debug)
    requires i < |s.records|
    ensures var b, host := s.records[i], hosts(attempt);
      var n := Reach(memory, host, b.address, |b.original|).1;
      if Restorable(memory, host, b) then
        && next == Debug(WriteBytes(memory, s.ram, b.address, b.original), Forget(s.records, i))
        && |next.records| == |s.records| - 1
        && RemoveFrom(memory, s, i, hosts, attempt) == RemoveFrom(memory, next, i, hosts, attempt + 1)
      else
        && next == Debug(WriteBytes(memory, s.ram, b.address, b.original[..n]), s.records)
        && RemoveFrom(memory, s, i, hosts, attempt) == RemoveFrom(memory, next, i + 1, hosts, attempt + 1)
  {
    hide Reach, WriteBytes;
    var b := s.records[i];
    assert b.original[..|b.original|] == b.original;
    next := RestoreStep(memory, s, i, hosts(attempt)).0;
  }

  /** Those are the records that stay. */
  lemma {:induction false} FailedRecordsStay(memory: PageMap, s: Debug, i: nat, hosts: nat -> Host, attempt: nat)
    requires i <= |s.records|
    ensures RemoveFrom(memory, s, i, hosts, attempt).records
            == s.records[..i] + Unrestored(memory, s.records[i..], hosts, attempt)
    decreases |s.records| - i
  {
    hide RemoveFrom, Unrestored, Restorable, WriteBytes, Forget, Reach;
    if i == |s.records| {
      NothingLeft(memory, s, hosts, attempt);
    } else {
      var front, b, rest := s.records[..i], s.records[i], Unrestored(memory, s.records[i + 1..], hosts, attempt + 1);
      UnrestoredNext(memory, s.records, i, hosts, attempt);
      ForgetSplits(s.records, i);
      var next := RemoveNext(memory, s, i, hosts, attempt);
      if Restorable(memory, hosts(attempt), b) {
        FailedRecordsStay(memory, next, i, hosts, attempt + 1);
      } else {
        FailedRecordsStay(memory, next, i + 1, hosts, attempt + 1);
        OneBetween(front, b, rest);
      }
    }
  }

  lemma {:induction false} UnrestoredAreRecords(memory: PageMap, bs: seq<Breakpoint>, hosts: nat -> Host, attempt: nat)
    ensures forall b :: b in Unrestored(memory, bs, hosts, attempt) ==> b in bs
  {
    hide Restorable;
    if bs != [] { UnrestoredAreRecords(memory, bs[1..], hosts, attempt + 1); }
  }

  lemma {:induction false} RemoveIsSound(memory: PageMap, s: Debug, i: nat, hosts: nat -> Host, attempt: nat)
    requires Sound(memory, s)
    ensures var next := RemoveFrom(memory, s, i, hosts, attempt);
            && Sound(memory, next) && SameShape(next.ram, s.ram)
            && (RecordsUnaliased(memory, s.records) ==> RecordsUnaliased(memory, next.records))
    decreases |s.records| - i
  {
    hide Sound, RecordsUnaliased;
    if i < |s.records| {
      RestoreIsSound(memory, s, i, hosts(attempt));
      RestoreKeepsShape(memory, s, i, hosts(attempt));
      var (next, ok) := RestoreStep(memory, s, i, hosts(attempt));
      RemoveIsSound(memory, next, if ok then i else i + 1, hosts, attempt + 1);
    }
  }

  lemma RestoreKeepsShape(memory: PageMap, s: Debug, k: nat, host: Host)
    requires k < |s.records|
    ensures SameShape(RestoreStep(memory, s, k, host).0.ram, s.ram)
  {
    var b := s.records[k];
    WriteKeepsShape(memory, s.ram, b.address, b.original[..Reach(memory, host, b.address, |b.original|).1]);
  }

  /** A cell under no record that stays holds what all of them put back, or what it held. */
  lemma {:induction false} RemovedCell(memory: PageMap, s: Debug, i: nat, hosts: nat -> Host, attempt: nat, c: HostPtr)
    requires i <= |s.records| && CellInRam(c, s.ram)
    ensures var r := RemoveFrom(memory, s, i, hosts, attempt);
            && CellInRam(c, r.ram)
            && (SavedCell(memory, r.records, c).None? ==>
                  CellByte(r.ram, c) == OrElse(SavedCell(memory, s.records[i..], c), CellByte(s.ram, c)))
    decreases |s.records| - i
  {
    if i == |s.records| {
      hide SavedCell, CellByte, CellInRam;
      assert s.records[i..] == [];
      SavedByNone(memory, c);
    } else {
      hide RemoveFrom, Restorable, Forget, SavedCell, LastAt, WriteBytes, CellByte, CellInRam, Reach;
      var b, host := s.records[i], hosts(attempt);
      ForgetSplits(s.records, i);
      SavedCellSplits(memory, [b], s.records[i + 1..], c);
      SavedByOne(memory, b, c);
      var next := RemoveNext(memory, s, i, hosts, attempt);
      if Restorable(memory, host, b) {
        WriteAt(memory, s.ram, b.address, b.original, c);
        RemovedCell(memory, next, i, hosts, attempt + 1, c);
      } else {
        var n := Reach(memory, host, b.address, |b.original|).1;
        WriteAt(memory, s.ram, b.address, b.original[..n], c);
        RemovedCell(memory, next, i + 1, hosts, attempt + 1, c);
        StaysSaved(memory, next, i, hosts, attempt + 1, c);
        LastAtPrefix(memory, b.address, b.original, n, c);
      }
    }
  }

  lemma SavedByNone(memory: PageMap, c: HostPtr)
    ensures SavedCell(memory, [], c) == None
  {
  }

  lemma LastAtPrefix(memory: PageMap, a: nat, data: seq<byte>, n: nat, c: HostPtr)
    requires n <= |data|
    ensures LastAt(memory, a, data, c).None? ==> LastAt(memory, a, data[..n], c).None?
  {
    LastAtNone(memory, a, data, c);
    LastAtNone(memory, a, data[..n], c);
  }

  /** What a record passed over has saved is saved by those that stay. */
  lemma StaysSaved(memory: PageMap, s: Debug, i: nat, hosts: nat -> Host, attempt: nat, c: HostPtr)
    requires i < |s.records|
    ensures SavedCell(memory, RemoveFrom(memory, s, i + 1, hosts, attempt).records, c).None? ==>
              LastAt(memory, s.records[i].address, s.records[i].original, c).None?
  {
    hide SavedCell, LastAt, Unrestored, RemoveFrom;
    FailedRecordsStay(memory, s, i + 1, hosts, attempt);
    SavedCellSplits(memory, s.records[..i + 1], Unrestored(memory, s.records[i + 1..], hosts, attempt), c);
    assert s.records[..i + 1] == s.records[..i] + [s.records[i]];
    SavedCellSplits(memory, s.records[..i], [s.records[i]], c);
    SavedByOne(memory, s.records[i], c);
  }

  /** What some of the records put back, all of them put back something for. */
  lemma FewerSaveLess(memory: PageMap, kept: seq<Breakpoint>, bs: seq<Breakpoint>, c: HostPtr) returns (k: nat, x: int)
    requires AllWellFormed(bs) && (forall b :: b in kept ==> b in bs) && SavedCell(memory, kept, c).Some?
    ensures k < |bs| && bs[k] in kept && Covers(bs[k], x) && Cell(memory, x) == c && SavedCell(memory, bs, c).Some?
  {
    hide SavedCell, Cell;
    assert AllWellFormed(kept) by {
      forall i | 0 <= i < |kept| ensures WellFormed(kept[i]) { assert kept[i] in bs; }
    }
    SavedCellNone(memory, kept, c);
    var i;
    i, x :| 0 <= i < |kept| && Covers(kept[i], x) && Cell(memory, x) == c;
    assert kept[i] in bs;
    k :| k < |bs| && bs[k] == kept[i];
    CoveredIsSaved(memory, bs, k, x);
  }

  /** Removing is invisible: under each record those that stay put back nothing, or what all
      of them did. */
  ghost predicate RemovesPlainly(memory: PageMap, bs: seq<Breakpoint>, hosts: nat -> Host) {
    forall i :: 0 <= i < |bs| ==> AlikeUnder(memory, Unrestored(memory, bs, hosts, 0), bs, bs[i])
  }

  lemma RemoveKeepsCleanIff(memory: PageMap, s: Debug, hosts: nat -> Host)
    requires Sound(memory, s)
    ensures var r := RemoveFrom(memory, s, 0, hosts, 0);
            && r.records == Unrestored(memory, s.records, hosts, 0)
            && (Clean(memory, r.ram, r.records) == Clean(memory, s.ram, s.records)
                <==> RemovesPlainly(memory, s.records, hosts))
  {
    hide SavedCell, CellByte, CellInRam, Clean, RemoveFrom, Unrestored, Cell, PagesInRam;
    var r, bs, clean := RemoveFrom(memory, s, 0, hosts, 0), s.records, Clean(memory, s.ram, s.records);
    var kept := Unrestored(memory, bs, hosts, 0);
    FailedRecordsStay(memory, s, 0, hosts, 0);
    assert bs[0..] == bs && bs[..0] + kept == kept;
    UnrestoredAreRecords(memory, bs, hosts, 0);
    RemoveIsSound(memory, s, 0, hosts, 0);
    CleanKeepsShape(memory, s.ram, bs);
    CleanIsIff(memory, r.ram, kept, clean);
    forall c | CellInRam(c, clean)
      ensures CellAgrees(memory, r.ram, kept, clean, c) <==>
              SavedCell(memory, kept, c) == None || SavedCell(memory, kept, c) == SavedCell(memory, bs, c)
    {
      SameCells(clean, s.ram, c);
      CleanAt(memory, s.ram, bs, c);
      RemovedCell(memory, s, 0, hosts, 0, c);
      if SavedCell(memory, kept, c).Some? { var k, x := FewerSaveLess(memory, kept, bs, c); }
    }
    if RemovesPlainly(memory, bs, hosts) {
      forall c ensures CellAgrees(memory, r.ram, kept, clean, c) {
        if CellInRam(c, clean) && SavedCell(memory, kept, c).Some? {
          var k, x := FewerSaveLess(memory, kept, bs, c);
          assert AlikeUnder(memory, kept, bs, bs[k]);
        }
      }
    }
    if forall c :: CellAgrees(memory, r.ram, kept, clean, c) {
      forall i | 0 <= i < |bs| ensures AlikeUnder(memory, kept, bs, bs[i]) {
        forall x | Covers(bs[i], x)
          ensures NoneOr(SavedCell(memory, kept, Cell(memory, x)), SavedCell(memory, bs, Cell(memory, x)))
        {
          var c := Cell(memory, x);
          assert MappedRun(memory, bs[i].address, bs[i].kind) && c.At?;
          ByteIsThere(memory, s.ram, x);
          SameCells(clean, s.ram, c);
          assert CellAgrees(memory, r.ram, kept, clean, c);
        }
      }
    }
  }

  /** Where no patched cell is reached from another address it always is. */
  lemma UnaliasedRemovesPlainly(memory: PageMap, s: Debug, hosts: nat -> Host)
    requires Sound(memory, s) && RecordsUnaliased(memory, s.records)
    ensures RemovesPlainly(memory, s.records, hosts)
  {
    hide SavedCell, RemoveFrom, Unrestored, Cell, PagesInRam, RecordsOk, RecordsUnaliased;
    var bs, kept := s.records, Unrestored(memory, s.records, hosts, 0);
    RemoveIsSound(memory, s, 0, hosts, 0);
    RemoveKeepsCleanIff(memory, s, hosts);
    UnrestoredAreRecords(memory, bs, hosts, 0);
    forall i | 0 <= i < |bs| ensures AlikeUnder(memory, kept, bs, bs[i]) {
      forall x | Covers(bs[i], x)
        ensures NoneOr(SavedCell(memory, kept, Cell(memory, x)), SavedCell(memory, bs, Cell(memory, x)))
      {
        KeptSavesAlike(memory, kept, bs, i, x);
      }
    }
  }

  lemma KeptSavesAlike(memory: PageMap, kept: seq<Breakpoint>, bs: seq<Breakpoint>, i: nat, x: int)
    requires RecordsOk(memory, bs) && RecordsUnaliased(memory, bs) && RecordsOk(memory, kept)
    requires RecordsUnaliased(memory, kept)
    requires (forall b :: b in kept ==> b in bs) && i < |bs| && Covers(bs[i], x)
    ensures NoneOr(SavedCell(memory, kept, Cell(memory, x)), SavedCell(memory, bs, Cell(memory, x)))
  {
    hide SavedCell, Cell;
    var k, y := CellOwner(memory, kept, Cell(memory, x));
    if 0 <= k {
      assert MappedRun(memory, bs[i].address, bs[i].kind) && Cell(memory, x).At? && x == y;
      assert kept[k] in bs;
      var j :| 0 <= j < |bs| && bs[j] == kept[k];
      SavedCellIs(memory, bs, j, x);
    }
  }

  ghost predicate AllRestorable(memory: PageMap, bs: seq<Breakpoint>, hosts: nat -> Host, attempt: nat) {
    forall t :: 0 <= t < |bs| ==> Restorable(memory, hosts(attempt + t), bs[t])
  }

  /** No record is left if and only if the host lets every one be restored, and then the
      storage is the clean memory; whatever aliases there are. */
  lemma {:induction false} RemoveAllIff(memory: PageMap, s: Debug, hosts: nat -> Host, attempt: nat)
    ensures RemoveFrom(memory, s, 0, hosts, attempt).records == [] <==> AllRestorable(memory, s.records, hosts, attempt)
    ensures AllRestorable(memory, s.records, hosts, attempt) ==>
              RemoveFrom(memory, s, 0, hosts, attempt) == Debug(Clean(memory, s.ram, s.records), [])
    decreases |s.records|
  {
    hide Reach, WriteBytes, Clean;
    if s.records == [] {
      CleanNothing(memory, s.ram);
    } else {
      var b := s.records[0];
      var (next, ok) := RestoreStep(memory, s, 0, hosts(attempt));
      if ok {
        assert b.original[..|b.original|] == b.original;
        assert next == Debug(WriteBytes(memory, s.ram, b.address, b.original), s.records[1..]);
        RemoveAllIff(memory, next, hosts, attempt + 1);
        CleanFromFront(memory, s.ram, s.records);
        RestorableTail(memory, s.records, hosts, attempt);
      } else {
        FailedRecordsStay(memory, next, 1, hosts, attempt + 1);
        assert !Restorable(memory, hosts(attempt + 0), s.records[0]);
      }
    }
  }

  lemma CleanNothing(memory: PageMap, ram: Ram)
    ensures Clean(memory, ram, []) == ram
  {
  }

  lemma RestorableTail(memory: PageMap, bs: seq<Breakpoint>, hosts: nat -> Host, attempt: nat)
    requires bs != [] && Restorable(memory, hosts(attempt), bs[0])
    ensures AllRestorable(memory, bs, hosts, attempt) <==> AllRestorable(memory, bs[1..], hosts, attempt + 1)
  {
    hide Restorable;
    if AllRestorable(memory, bs, hosts, attempt) {
      forall t | 0 <= t < |bs[1..]| ensures Restorable(memory, hosts(attempt + 1 + t), bs[1..][t]) {
        assert Restorable(memory, hosts(attempt + (t + 1)), bs[t + 1]);
      }
    }
    if AllRestorable(memory, bs[1..], hosts, attempt + 1) {
      forall t | 0 <= t < |bs| ensures Restorable(memory, hosts(attempt + t), bs[t]) {
        if t > 0 { assert Restorable(memory, hosts(attempt + 1 + (t - 1)), bs[1..][t - 1]); }
      }
    }
  }

  /** Setting one more breakpoint and then removing all leaves what removing all would
      have left without it, if and only if what the earlier records put back under the new
      site is there when it is set; in particular when there was no record. */
  lemma SetThenRemoveAll(
      memory: PageMap, tracepoints: seq<Tracepoint>, s: Debug, address: nat, kind: nat, host: Host, hosts: nat -> Host)
    requires Sound(memory, s)
    requires Plants(memory, tracepoints, s.records, address, kind)
    requires Reach(memory, host, Canonical(address, kind), kind).0
    requires AllRestorable(memory, SetStep(memory, tracepoints, s, address, kind, host).0.records, hosts, 0)
    ensures var after := RemoveFrom(memory, SetStep(memory, tracepoints, s, address, kind, host).0, 0, hosts, 0);
            && after.records == []
            && (after.ram == Clean(memory, s.ram, s.records) <==>
                SavedIsThere(memory, s.ram, s.records, Canonical(address, kind), kind))
            && (s.records == [] ==> after.ram == s.ram)
  {
    hide WriteBytes, Reach, Clean, Fetch, PagesInRam, RecordsOk, MappedRun, SavedIsThere, RemoveFrom, AllRestorable;
    var at, next := Canonical(address, kind), SetStep(memory, tracepoints, s, address, kind, host).0;
    var b := Breakpoint(at, kind, Fetch(memory, s.ram, at, kind), Trap(kind));
    SetPlants(memory, tracepoints, s, address, kind, host);
    RemoveAllIff(memory, next, hosts, 0);
    PlantKeepsCleanIff(memory, s.ram, s.records, b);
    if s.records == [] {
      CleanNothing(memory, s.ram);
      NothingSaved(memory, s.ram, at, kind);
    }
  }

  lemma NotAlreadySet(tracepoints: seq<Tracepoint>, bs: seq<Breakpoint>, address: nat, kind: nat)
    requires !Meets(bs, Canonical(address, kind), kind)
    ensures !AlreadySet(tracepoints, bs, address, kind)
  {
  }

  lemma SetPlants(memory: PageMap, tracepoints: seq<Tracepoint>, s: Debug, address: nat, kind: nat, host: Host)
    requires Plants(memory, tracepoints, s.records, address, kind)
    requires Reach(memory, host, Canonical(address, kind), kind).0
    ensures |Trap(kind)| == kind
    ensures var at := Canonical(address, kind);
            var b := Breakpoint(at, kind, Fetch(memory, s.ram, at, kind), Trap(kind));
            SetStep(memory, tracepoints, s, address, kind, host)
            == (Debug(WriteBytes(memory, s.ram, at, Trap(kind)), s.records + [b]), true)
  {
    hide WriteBytes, Fetch, MappedRun;
    NotAlreadySet(tracepoints, s.records, address, kind);
    assert Trap(kind)[..|Trap(kind)|] == Trap(kind);
  }

  lemma NothingSaved(memory: PageMap, ram: Ram, a: nat, n: nat)
    ensures SavedIsThere(memory, ram, [], a, n)
  {
  }

  // ----- Two addresses for one cell -----------------------------------------------------------------------

  /** Two stretches that show the same cells. */
  ghost predicate Twins(memory: PageMap, a: nat, b: nat, n: nat) {
    && MappedRun(memory, a, n) && (a + n <= b || b + n <= a)
    && forall x :: a <= x < a + n ==> Cell(memory, x) == Cell(memory, b + (x - a))
  }

  /** The addresses of a run inside one page lead to different cells. */
  lemma CellsDiffer(memory: PageMap, a: nat, n: nat)
    requires a % PAGE + n <= PAGE && MappedRun(memory, a, n)
    ensures forall x, y :: a <= x < y < a + n ==> Cell(memory, x) != Cell(memory, y)
  {
    forall x, y | a <= x < y < a + n ensures Cell(memory, x) != Cell(memory, y) {
      CellInPage(memory, a, x - a);
      CellInPage(memory, a, y - a);
    }
  }

  lemma SiteInPage(tracepoints: seq<Tracepoint>, address: nat, kind: nat)
    requires GoodSite(tracepoints, Canonical(address, kind), kind)
    ensures Canonical(address, kind) % PAGE + kind <= PAGE && Canonical(address, kind) + kind <= SPACE
    ensures |Trap(kind)| == kind > 0
  {
    var at := Canonical(address, kind);
    assert kind == 2 ==> at % 2 == 0;
  }

  /** What was written inside one page is fetched again, and through a twin as well. */
  lemma FetchWritten(memory: PageMap, ram: Ram, a: nat, data: seq<byte>)
    requires PagesInRam(memory, ram) && MappedRun(memory, a, |data|) && a % PAGE + |data| <= PAGE
    ensures Fetch(memory, WriteBytes(memory, ram, a, data), a, |data|) == data
  {
    hide Cell, WriteBytes, PagesInRam, Fetch, GuestByte;
    CellsDiffer(memory, a, |data|);
    var ram' := WriteBytes(memory, ram, a, data);
    var fetched := Fetch(memory, ram', a, |data|);
    forall i | 0 <= i < |data| ensures fetched[i] == data[i] {
      ReadBack(memory, ram, a, data, i);
      FetchIs(memory, ram', a, |data|, i);
    }
  }

  lemma TwinsFetchAlike(memory: PageMap, ram: Ram, a: nat, b: nat, n: nat)
    requires Twins(memory, a, b, n)
    ensures Fetch(memory, ram, a, n) == Fetch(memory, ram, b, n)
  {
    hide Cell, Fetch, CellInRam;
    var one, other := Fetch(memory, ram, a, n), Fetch(memory, ram, b, n);
    forall i | 0 <= i < n ensures one[i] == other[i] {
      assert Cell(memory, a + i) == Cell(memory, b + (a + i - a));
      FetchIs(memory, ram, a, n, i);
      FetchIs(memory, ram, b, n, i);
    }
  }

  lemma LaidUnpatched(bs: seq<Breakpoint>, a: nat, data: seq<byte>, side: Side, x: int)
    requires AllWellFormed(bs) && a <= x < a + |data| && !Patched(bs, x)
    ensures LaidOver(bs, a, data, side)[x - a] == data[x - a]
  {
    hide LaidOver;
    LaidElsewhere(bs, a, data, side, x);
  }

  lemma {:induction false} LaidNowhere(bs: seq<Breakpoint>, a: nat, data: seq<byte>, side: Side)
    requires AllWellFormed(bs) && forall x :: a <= x < a + |data| ==> !Patched(bs, x)
    ensures LaidOver(bs, a, data, side) == data
  {
    hide LaidOver, Patched, AllWellFormed;
    var laid := LaidOver(bs, a, data, side);
    forall i | 0 <= i < |data| ensures laid[i] == data[i] {
      LaidUnpatched(bs, a, data, side, a + i);
    }
  }

  /** The first breakpoint, set where a twin exists: the debugger is shown the trap when
      it reads the twin. */
  lemma TwinShowsTrap(memory: PageMap, tracepoints: seq<Tracepoint>, ram: Ram, address: nat, kind: nat, twin: nat,
      host: Host)
    requires Sound(memory, Debug(ram, [])) && Plants(memory, tracepoints, [], address, kind)
    requires Reach(memory, host, Canonical(address, kind), kind).0
    requires Twins(memory, Canonical(address, kind), twin, kind) && Readable(memory, twin, kind)
    ensures ReadStep(memory, SetStep(memory, tracepoints, Debug(ram, []), address, kind, host).0, twin, kind)
            == Some(Trap(kind))
  {
    hide WriteBytes, Reach, Fetch, PagesInRam, MappedRun, Cell, LaidOver;
    var at, s := Canonical(address, kind), Debug(ram, []);
    var next := SetStep(memory, tracepoints, s, address, kind, host).0;
    SiteInPage(tracepoints, address, kind);
    SetPlants(memory, tracepoints, s, address, kind, host);
    var b := Breakpoint(at, kind, Fetch(memory, ram, at, kind), Trap(kind));
    assert [] + [b] == [b];
    FetchWritten(memory, ram, at, Trap(kind));
    TwinsFetchAlike(memory, next.ram, at, twin, kind);
    LaidNowhere([b], twin, Trap(kind), Original);
  }

  /** Both of two twins can be given a breakpoint. */
  ghost predicate TwinSites(memory: PageMap, tracepoints: seq<Tracepoint>, ram: Ram, kind: nat, first: nat, second: nat,
      host: Host) {
    && Sound(memory, Debug(ram, []))
    && Canonical(first, kind) == first && Canonical(second, kind) == second && Twins(memory, first, second, kind)
    && Plants(memory, tracepoints, [], first, kind) && Plants(memory, tracepoints, [], second, kind)
    && Reach(memory, host, first, kind).0 && Reach(memory, host, second, kind).0
  }

  /** The state once both are set. */
  ghost function BothSet(memory: PageMap, tracepoints: seq<Tracepoint>, ram: Ram, kind: nat, first: nat, second: nat,
      host: Host): (Debug, bool) {
    SetStep(memory, tracepoints, SetStep(memory, tracepoints, Debug(ram, []), first, kind, host).0, second, kind, host)
  }

  /** The second has saved the trap of the first. */
  lemma SecondSavesTrap(memory: PageMap, tracepoints: seq<Tracepoint>, ram: Ram, kind: nat, first: nat, second: nat,
      host: Host)
    requires TwinSites(memory, tracepoints, ram, kind, first, second, host)
    ensures |Trap(kind)| == kind
    ensures var trap := Trap(kind);
            var ram2 := WriteBytes(memory, WriteBytes(memory, ram, first, trap), second, trap);
            && PagesInRam(memory, ram2)
            && BothSet(memory, tracepoints, ram, kind, first, second, host)
               == (Debug(ram2, [Breakpoint(first, kind, Fetch(memory, ram, first, kind), trap),
                                Breakpoint(second, kind, trap, trap)]), true)
  {
    hide WriteBytes, Reach, Fetch, PagesInRam, MappedRun, Cell;
    var trap := Trap(kind);
    SiteInPage(tracepoints, first, kind);
    SiteInPage(tracepoints, second, kind);
    var b, c := Breakpoint(first, kind, Fetch(memory, ram, first, kind), trap), Breakpoint(second, kind, trap, trap);
    var ram1 := WriteBytes(memory, ram, first, trap);
    SetPlants(memory, tracepoints, Debug(ram, []), first, kind, host);
    assert [] + [b] == [b] && [b] + [c] == [b, c];
    FetchWritten(memory, ram, first, trap);
    TwinsFetchAlike(memory, ram1, first, second, kind);
    SetPlants(memory, tracepoints, Debug(ram1, [b]), second, kind, host);
    WriteKeepsPages(memory, ram, first, trap);
    WriteKeepsPages(memory, ram1, second, trap);
  }

  /** So putting both back leaves the trap. */
  lemma BothBackLeavesTrap(memory: PageMap, tracepoints: seq<Tracepoint>, ram: Ram, kind: nat, first: nat, second: nat,
      host: Host)
    requires TwinSites(memory, tracepoints, ram, kind, first, second, host)
    ensures var two := BothSet(memory, tracepoints, ram, kind, first, second, host).0;
            Fetch(memory, Clean(memory, two.ram, two.records), first, kind) == Trap(kind)
  {
    hide WriteBytes, Reach, Fetch, PagesInRam, MappedRun, Cell, Clean, BothSet;
    SiteInPage(tracepoints, second, kind);
    SecondSavesTrap(memory, tracepoints, ram, kind, first, second, host);
    var two := BothSet(memory, tracepoints, ram, kind, first, second, host).0;
    var b, c := two.records[0], two.records[1];
    LastRestoreWins(memory, two.ram, b, c);
    WriteKeepsPages(memory, two.ram, first, b.original);
    var ram3 := WriteBytes(memory, two.ram, first, b.original);
    FetchWritten(memory, ram3, second, c.original);
    TwinsFetchAlike(memory, WriteBytes(memory, ram3, second, c.original), first, second, kind);
  }

  /** Breakpoints set on both of two twins, then all removed: the request reports success,
      no record is left, and the trap is still there. */
  lemma TwinTrapStays(
      memory: PageMap, tracepoints: seq<Tracepoint>, ram: Ram, kind: nat, first: nat, second: nat, host: Host,
      hosts: nat -> Host)
    requires TwinSites(memory, tracepoints, ram, kind, first, second, host)
    requires forall t :: Reach(memory, hosts(t), first, kind).0 && Reach(memory, hosts(t), second, kind).0
    ensures var two := BothSet(memory, tracepoints, ram, kind, first, second, host);
            var after := RemoveFrom(memory, two.0, 0, hosts, 0);
            two.1 && after.records == [] && Fetch(memory, after.ram, first, kind) == Trap(kind)
  {
    hide WriteBytes, Reach, Fetch, PagesInRam, MappedRun, Cell, Clean, RemoveFrom, BothSet, TwinSites;
    SecondSavesTrap(memory, tracepoints, ram, kind, first, second, host);
    BothBackLeavesTrap(memory, tracepoints, ram, kind, first, second, host);
    RemoveAllIff(memory, BothSet(memory, tracepoints, ram, kind, first, second, host).0, hosts, 0);
  }

  /** Deleting the second of them changes what removing all would leave, from the trap to
      the bytes that were there. */
  lemma TwinDeleteShows(memory: PageMap, tracepoints: seq<Tracepoint>, ram: Ram, kind: nat, first: nat, second: nat,
      host: Host)
    requires TwinSites(memory, tracepoints, ram, kind, first, second, host)
    ensures var two := BothSet(memory, tracepoints, ram, kind, first, second, host).0;
            var one := DeleteStep(memory, two, second, host);
            && one.1 && Fetch(memory, Clean(memory, two.ram, two.records), first, kind) == Trap(kind)
            && Fetch(memory, Clean(memory, one.0.ram, one.0.records), first, kind) == Fetch(memory, ram, first, kind)
  {
    hide WriteBytes, Reach, Fetch, PagesInRam, MappedRun, Cell, Clean, BothSet, DeleteStep, TwinSites, Trap;
    TwinSiteFacts(memory, tracepoints, ram, kind, first, second, host);
    SecondSavesTrap(memory, tracepoints, ram, kind, first, second, host);
    BothBackLeavesTrap(memory, tracepoints, ram, kind, first, second, host);
    var two, trap := BothSet(memory, tracepoints, ram, kind, first, second, host).0, Trap(kind);
    var b, c, ram3 := two.records[0], two.records[1], WriteBytes(memory, two.ram, second, trap);
    DeleteSecond(memory, two, b, c, host);
    WriteKeepsPages(memory, two.ram, second, trap);
    CleanOne(memory, ram3, b);
    FetchWritten(memory, ram3, first, b.original);
  }

  lemma TwinSiteFacts(memory: PageMap, tracepoints: seq<Tracepoint>, ram: Ram, kind: nat, first: nat, second: nat,
      host: Host)
    requires TwinSites(memory, tracepoints, ram, kind, first, second, host)
    ensures first != second && second < SPACE && second % 2 == 0
    ensures first % PAGE + kind <= PAGE && MappedRun(memory, first, kind)
    ensures Reach(memory, host, second, kind).0
  {
    hide Reach, PagesInRam, MappedRun, Cell;
    SiteInPage(tracepoints, first, kind);
    SiteInPage(tracepoints, second, kind);
  }

  lemma DeleteSecond(memory: PageMap, s: Debug, b: Breakpoint, c: Breakpoint, host: Host)
    requires s.records == [b, c] && b.address != c.address && c.address < SPACE && c.address % 2 == 0
    requires Restorable(memory, host, c)
    ensures DeleteStep(memory, s, c.address, host)
            == (Debug(WriteBytes(memory, s.ram, c.address, c.original), [b]), true)
  {
    hide WriteBytes, Reach;
    RecordAtPrefix(s.records, c.address, 1);
    assert Forget(s.records, 1) == [b] && c.original[..|c.original|] == c.original;
  }

  lemma CleanOne(memory: PageMap, ram: Ram, b: Breakpoint)
    ensures Clean(memory, ram, [b]) == WriteBytes(memory, ram, b.address, b.original)
  {
    hide WriteBytes;
    assert [b][..0] == [];
  }

  lemma LastRestoreWins(memory: PageMap, ram: Ram, b: Breakpoint, c: Breakpoint)
    ensures Clean(memory, ram, [b, c])
            == WriteBytes(memory, WriteBytes(memory, ram, b.address, b.original), c.address, c.original)
  {
    hide WriteBytes;
    assert [b, c][..1] == [b] && [b][..0] == [];
    assert Clean(memory, ram, [b]) == WriteBytes(memory, Clean(memory, ram, []), b.address, b.original);
  }

  /** One page of storage under two pages of guest memory. */
  const TWIN_MAP: PageMap :=
    map[0x10 := Page(At(Owned(0), 0), {Read, Exec}, false, Some(0)),
        0x20 := Page(At(Owned(0), 0), {Read, Exec}, true, Some(0))]

  function TwinRam(): Ram {
    map[Owned(0) := seq(PAGE, i => 0x46)]
  }

  lemma TwinCells()
    ensures TwinSites(TWIN_MAP, [], TwinRam(), 2, 0x10000, 0x20000, OPEN)
    ensures Fetch(TWIN_MAP, TwinRam(), 0x10000, 2) == [0x46, 0x46]
  {
    assert forall a :: 0x10000 <= a < 0x10002 ==> Cell(TWIN_MAP, a) == At(Owned(0), a - 0x10000);
    assert forall a :: 0x20000 <= a < 0x20002 ==> Cell(TWIN_MAP, a) == At(Owned(0), a - 0x20000);
    ReachInOneRegion(TWIN_MAP, OPEN, 0x10000, 2);
    ReachInOneRegion(TWIN_MAP, OPEN, 0x20000, 2);
  }

  /** Such a case: two Thumb breakpoints on one instruction. */
  lemma TwinExample()
    ensures var two := BothSet(TWIN_MAP, [], TwinRam(), 2, 0x10000, 0x20000, OPEN);
            var after := RemoveFrom(TWIN_MAP, two.0, 0, t => OPEN, 0);
            var one := DeleteStep(TWIN_MAP, two.0, 0x20000, OPEN).0;
            && Fetch(TWIN_MAP, TwinRam(), 0x10000, 2) == [0x46, 0x46]
            && two.1 && after.records == [] && Fetch(TWIN_MAP, after.ram, 0x10000, 2) == [0x00, 0xBE]
            && Fetch(TWIN_MAP, Clean(TWIN_MAP, two.0.ram, two.0.records), 0x10000, 2) == [0x00, 0xBE]
            && Fetch(TWIN_MAP, Clean(TWIN_MAP, one.ram, one.records), 0x10000, 2) == [0x46, 0x46]
  {
    hide WriteBytes, RemoveFrom, DeleteStep, BothSet, Fetch, Clean, Reach;
    TwinCells();
    TwinTrapStays(TWIN_MAP, [], TwinRam(), 2, 0x10000, 0x20000, OPEN, t => OPEN);
    TwinDeleteShows(TWIN_MAP, [], TwinRam(), 2, 0x10000, 0x20000, OPEN);
  }

  // ----- Protecting, copying and restoring ------------------------------------------------------------------

  /** The host region that holds the site, when one region holds all of it. */
  predicate OneRegion(memory: PageMap, host: Host, at: nat, n: nat) {
    var c := Cell(memory, at);
    c.At? && host(c).Known? ==> n <= host(c).available
  }

  predicate CanWrite(region: HostRegion) {
    region.Known? && (region.writable || (region.protectable && region.restorable))
  }

  /** The protection could be lifted but not put back. */
  predicate LeavesOpen(region: HostRegion) {
    region.Known? && !region.writable && region.protectable && !region.restorable
  }

  lemma ReachInOneRegion(memory: PageMap, host: Host, at: nat, n: nat)
    requires 0 < n && at % PAGE + n <= PAGE && Cell(memory, at).At? && OneRegion(memory, host, at, n)
    ensures var region := host(Cell(memory, at));
            Reach(memory, host, at, n) == (CanWrite(region), if CanWrite(region) || LeavesOpen(region) then n else 0)
  {
    hide Cell;
    assert Reach(memory, host, at + n, 0) == (true, 0);
  }

  /** A request succeeds if and only if the breakpoint is there already, or it may be
      planted and the host region is writable, or can be made so and put back. */
  lemma SetSucceedsIff(memory: PageMap, tracepoints: seq<Tracepoint>, s: Debug, address: nat, kind: nat, host: Host)
    requires OneRegion(memory, host, Canonical(address, kind), kind)
    ensures SetStep(memory, tracepoints, s, address, kind, host).1 <==>
            || AlreadySet(tracepoints, s.records, address, kind)
            || (Plants(memory, tracepoints, s.records, address, kind)
                && CanWrite(host(Cell(memory, Canonical(address, kind)))))
  {
    hide Reach, Cell, Meets, HasRecord, WriteBytes, Fetch;
    if Plants(memory, tracepoints, s.records, address, kind) {
      SiteInPage(tracepoints, address, kind);
      ReachInOneRegion(memory, host, Canonical(address, kind), kind);
    }
  }

  /** A request succeeds exactly where the breakpoint is there already, or on a mapped
      instruction clear of tracepoints and records that the host lets be written. */
  lemma SetSucceedsWhere(memory: PageMap, tracepoints: seq<Tracepoint>, s: Debug, address: nat, kind: nat, host: Host)
    requires Registered(tracepoints, s.records)
    requires OneRegion(memory, host, if kind == 2 then address - address % 2 else address, kind)
    ensures var at := if kind == 2 then address - address % 2 else address;
            SetStep(memory, tracepoints, s, address, kind, host).1 <==>
            && address < 0x1_0000_0000
            && (|| (exists i :: 0 <= i < |s.records| && s.records[i].address == at && s.records[i].kind == kind)
                || (ClearSite(memory, tracepoints, s.records, at, kind) && CanWrite(host(Cell(memory, at)))))
  {
    hide Reach, Cell, Registered, ClearSite, OneRegion, SetStep, AlreadySet, Plants;
    PlantsIff(memory, tracepoints, s.records, address, kind);
    AlreadySetIff(tracepoints, s.records, address, kind);
    if address < SPACE { SetSucceedsIff(memory, tracepoints, s, address, kind, host); }
    else { FarSetFails(memory, tracepoints, s, address, kind, host); }
  }

  lemma FarSetFails(memory: PageMap, tracepoints: seq<Tracepoint>, s: Debug, address: nat, kind: nat, host: Host)
    requires !AlreadySet(tracepoints, s.records, address, kind)
    requires !Plants(memory, tracepoints, s.records, address, kind)
    ensures !SetStep(memory, tracepoints, s, address, kind, host).1
  {
  }

  /** After a trap was planted the guest sees BKPT, byte for byte, and the record holds what was there. */
  lemma SetShowsTrap(memory: PageMap, tracepoints: seq<Tracepoint>, s: Debug, address: nat, kind: nat, host: Host)
    requires Sound(memory, s) && Plants(memory, tracepoints, s.records, address, kind)
    requires SetStep(memory, tracepoints, s, address, kind, host).1
    ensures var next := SetStep(memory, tracepoints, s, address, kind, host).0;
            var at := if kind == 2 then address - address % 2 else address;
            && IsTrap(kind, Fetch(memory, next.ram, at, kind))
            && next.records == s.records + [Breakpoint(at, kind, Fetch(memory, s.ram, at, kind), Trap(kind))]
  {
    hide Cell, Fetch, WriteBytes, Reach, PagesInRam, MappedRun;
    NotAlreadySet(tracepoints, s.records, address, kind);
    SiteInPage(tracepoints, address, kind);
    SetPlants(memory, tracepoints, s, address, kind, host);
    FetchWritten(memory, s.ram, Canonical(address, kind), Trap(kind));
  }

  /** What the run leaves is hidden by a record or was there already. */
  ghost predicate HiddenUnder(memory: PageMap, ram: Ram, bs: seq<Breakpoint>, a: nat, data: seq<byte>) {
    forall x :: a <= x < a + |data| ==>
      || SavedCell(memory, bs, Cell(memory, x)).Some?
      || LastAt(memory, a, data, Cell(memory, x)) == GuestByte(memory, ram, x)
  }

  lemma WriteIsHiddenIff(memory: PageMap, ram: Ram, bs: seq<Breakpoint>, a: nat, data: seq<byte>)
    requires PagesInRam(memory, ram) && MappedRun(memory, a, |data|)
    ensures Clean(memory, WriteBytes(memory, ram, a, data), bs) == Clean(memory, ram, bs)
            <==> HiddenUnder(memory, ram, bs, a, data)
  {
    hide Clean, WriteBytes, LastAt, SavedCell, CellByte, CellInRam, PagesInRam, Cell, GuestByte;
    var clean, ram' := Clean(memory, ram, bs), WriteBytes(memory, ram, a, data);
    WriteKeepsShape(memory, ram, a, data);
    CleanKeepsShape(memory, ram, bs);
    CleanIsIff(memory, ram', bs, clean);
    forall c | CellInRam(c, clean)
      ensures CellInRam(c, ram)
      ensures CellAgrees(memory, ram', bs, clean, c) <==> (LastAt(memory, a, data, c).Some? ==>
                SavedCell(memory, bs, c).Some? || LastAt(memory, a, data, c) == Some(CellByte(ram, c)))
    {
      SameCells(clean, ram, c);
      CleanAt(memory, ram, bs, c);
      WriteAt(memory, ram, a, data, c);
    }
    if HiddenUnder(memory, ram, bs, a, data) {
      forall c ensures CellAgrees(memory, ram', bs, clean, c) {
        if CellInRam(c, clean) && LastAt(memory, a, data, c).Some? {
          var x := LastAtComesFrom(memory, a, data, c);
          GuestByteIsCell(memory, ram, x);
        }
      }
    }
    if forall c :: CellAgrees(memory, ram', bs, clean, c) {
      forall x | a <= x < a + |data|
        ensures || SavedCell(memory, bs, Cell(memory, x)).Some?
                || LastAt(memory, a, data, Cell(memory, x)) == GuestByte(memory, ram, x)
      {
        var c := Cell(memory, x);
        ByteIsThere(memory, ram, x);
        SameCells(clean, ram, c);
        GuestByteIsCell(memory, ram, x);
        assert CellAgrees(memory, ram', bs, clean, c);
        LastAtNone(memory, a, data, c);
      }
    }
  }

  /** A request leaves clean memory alone if and only if it does not get to write the trap;
      or the trap and its record stay, and what the records put back under it was there; or
      the protection it lifts cannot be put back, and the trap left behind is hidden by a
      record or was there already. */
  lemma SetIsInvisibleIff(memory: PageMap, tracepoints: seq<Tracepoint>, s: Debug, address: nat, kind: nat, host: Host)
    requires Sound(memory, s) && OneRegion(memory, host, Canonical(address, kind), kind)
    ensures var next, at := SetStep(memory, tracepoints, s, address, kind, host).0, Canonical(address, kind);
            var region := host(Cell(memory, at));
            Clean(memory, next.ram, next.records) == Clean(memory, s.ram, s.records) <==>
            || !Plants(memory, tracepoints, s.records, address, kind)
            || (!CanWrite(region) && !LeavesOpen(region))
            || (CanWrite(region) && SavedIsThere(memory, s.ram, s.records, at, kind))
            || (LeavesOpen(region) && HiddenUnder(memory, s.ram, s.records, at, Trap(kind)))
  {
    hide Reach, Cell, Meets, HasRecord, WriteBytes, Fetch, Clean, MappedRun, PagesInRam, RecordsOk, Patched,
         SavedIsThere, HiddenUnder;
    if Plants(memory, tracepoints, s.records, address, kind) {
      var at := Canonical(address, kind);
      SiteInPage(tracepoints, address, kind);
      SiteIsMapped(memory, at, kind);
      NotAlreadySet(tracepoints, s.records, address, kind);
      ReachInOneRegion(memory, host, at, kind);
      assert Trap(kind)[..kind] == Trap(kind) && Trap(kind)[..0] == [];
      WriteNothing(memory, s.ram, at);
      WriteIsHiddenIff(memory, s.ram, s.records, at, Trap(kind));
      PlantKeepsCleanIff(memory, s.ram, s.records, Breakpoint(at, kind, Fetch(memory, s.ram, at, kind), Trap(kind)));
    }
  }

  /** A host that lifts the protection of every page and puts none back. */
  const LEAKY: Host := c => Known(PAGE, false, true, false)

  /** There a request fails, leaves no record, and leaves the trap. */
  lemma StrandedExample()
    ensures var r := SetStep(TWIN_MAP, [], Debug(TwinRam(), []), 0x10000, 2, LEAKY);
            && !r.1 && r.0.records == []
            && Fetch(TWIN_MAP, TwinRam(), 0x10000, 2) == [0x46, 0x46]
            && Fetch(TWIN_MAP, r.0.ram, 0x10000, 2) == [0x00, 0xBE]
  {
    hide WriteBytes, Fetch, Reach, PagesInRam, MappedRun, Cell, Twins;
    TwinCells();
    SiteIsMapped(TWIN_MAP, 0x10000, 2);
    ReachInOneRegion(TWIN_MAP, LEAKY, 0x10000, 2);
    assert Trap(2)[..2] == Trap(2);
    FetchWritten(TWIN_MAP, TwinRam(), 0x10000, Trap(2));
  }

  lemma SiteIsMapped(memory: PageMap, at: nat, kind: nat)
    requires MappedRun(memory, at, kind) && kind > 0
    ensures Cell(memory, at).At?
  {
  }

  // ----- Sessions ---------------------------------------------------------------------------------------

  datatype Command =
    | Set(address: nat, kind: nat, host: Host)
    | Delete(address: nat, host: Host)
    | RemoveAll(hosts: nat -> Host)
    | Show(address: nat, size: nat)
    | Change(address: nat, data: seq<byte>, host: Host)
    | Store(address: nat, data: seq<byte>)

  /** What a command is in a memory without breakpoints. */
  datatype Plain = Skip | Peek(address: nat, size: nat) | Poke(address: nat, data: seq<byte>)

  ghost function Step(memory: PageMap, tracepoints: seq<Tracepoint>, s: Debug, c: Command): Debug {
    match c
    case Set(a, kind, host) => SetStep(memory, tracepoints, s, a, kind, host).0
    case Delete(a, host) => DeleteStep(memory, s, a, host).0
    case RemoveAll(hosts) => RemoveFrom(memory, s, 0, hosts, 0)
    case Show(_, _) => s
    case Change(a, data, host) => WriteStep(memory, s, a, data, host).0
    case Store(a, data) => StoreStep(memory, s, a, data)
  }

  ghost function Reply(memory: PageMap, s: Debug, c: Command): Option<seq<byte>> {
    match c
    case Show(a, n) => ReadStep(memory, s, a, n)
    case _ => None
  }

  /** The command does to clean memory, and shows of it, exactly what its meaning does.  For
      each command the condition is on records, storage and host before the call. */
  ghost predicate ActsPlainly(memory: PageMap, tracepoints: seq<Tracepoint>, s: Debug, c: Command) {
    match c
    case Set(a, kind, host) => SetsPlainly(memory, tracepoints, s, a, kind, host)
    case Delete(a, host) => DeletesPlainly(memory, s.records, a, host)
    case RemoveAll(hosts) => RemovesPlainly(memory, s.records, hosts)
    case Show(a, n) => Readable(memory, a, n) ==> AllShowClean(memory, s.ram, s.records, a, n)
    case Change(a, data, host) => ChangesPlainly(memory, s.records, a, data, host)
    case Store(a, data) => StoresPlainly(memory, s.records, a, data)
  }

  ghost function Meaning(memory: PageMap, tracepoints: seq<Tracepoint>, s: Debug, c: Command): Plain {
    match c
    case Set(a, kind, host) =>
      if Strands(memory, tracepoints, s, a, kind, host)
      then Poke(Canonical(a, kind), Stranded(memory, a, kind, host)) else Skip
    case Show(a, n) => Peek(a, n)
    case Change(a, data, host) =>
      if Writable(memory, a, |data|) then Poke(a, Changed(memory, s.records, a, data, host)) else Skip
    case Store(a, data) => if RangeIsValid(a, |data|) then Poke(a, Reached(memory, a, data, OPEN)) else Skip
    case _ => Skip
  }

  function PlainStep(memory: PageMap, ram: Ram, p: Plain): Ram {
    match p case Poke(a, data) => WriteBytes(memory, ram, a, data) case _ => ram
  }

  ghost function PlainReply(memory: PageMap, ram: Ram, p: Plain): Option<seq<byte>> {
    match p case Peek(a, n) => if Readable(memory, a, n) then Some(Fetch(memory, ram, a, n)) else None case _ => None
  }

  lemma StepIsSound(memory: PageMap, tracepoints: seq<Tracepoint>, s: Debug, c: Command)
    requires Sound(memory, s)
    ensures Sound(memory, Step(memory, tracepoints, s, c))
  {
    hide Sound, SetStep, WriteStep, RestoreStep, RemoveFrom, StoreStep;
    match c {
      case Set(a, kind, host) => SetIsSound(memory, tracepoints, s, a, kind, host);
      case Delete(a, host) =>
        var k := RecordAt(s.records, a - a % 2);
        if k.Some? { RestoreIsSound(memory, s, k.value, host); }
      case RemoveAll(hosts) => RemoveIsSound(memory, s, 0, hosts, 0);
      case Show(a, n) =>
      case Change(a, data, host) => WriteIsSound(memory, s, a, data, host);
      case Store(a, data) => StoreAndCleanIff(memory, s, a, data);
    }
  }

  /** A command is its meaning if and only if its condition holds. */
  lemma StepIsPlainIff(memory: PageMap, tracepoints: seq<Tracepoint>, s: Debug, c: Command)
    requires Sound(memory, s)
    ensures var next, clean := Step(memory, tracepoints, s, c), Clean(memory, s.ram, s.records);
            var p := Meaning(memory, tracepoints, s, c);
            && Clean(memory, next.ram, next.records) == PlainStep(memory, clean, p)
            && Reply(memory, s, c) == PlainReply(memory, clean, p)
            <==> ActsPlainly(memory, tracepoints, s, c)
  {
    hide PagesInRam, WriteBytes, Reach, Clean, LaidOver, Rewritten, LandsAsSaved, Fetch, SetStep, WriteStep,
         RestoreStep, RemoveFrom,
         StoreStep, RecordsOk, Strands, MappedRun, SetsPlainly, ChangesPlainly, RemovesPlainly, AllShowClean,
         AlikeUnder, Restorable;
    match c {
      case Set(a, kind, host) => SetAndCleanIff(memory, tracepoints, s, a, kind, host);
      case Delete(a, host) =>
        var k := RecordAt(s.records, a - a % 2);
        if k.Some? { RestoreAndCleanIff(memory, s, k.value, host); }
      case RemoveAll(hosts) => RemoveKeepsCleanIff(memory, s, hosts);
      case Show(a, n) =>
        if Readable(memory, a, n) { ReadIsCleanIff(memory, s.ram, s.records, a, n); }
      case Change(a, data, host) => WriteAndCleanIff(memory, s, a, data, host);
      case Store(a, data) => StoreAndCleanIff(memory, s, a, data);
    }
  }

  /** All a caller has to see to when no patched cell is reached from another address: that
      stays so, and a store changes nothing a breakpoint has saved. */
  ghost predicate Admissible(memory: PageMap, tracepoints: seq<Tracepoint>, s: Debug, c: Command) {
    match c
    case Set(a, kind, _) => SiteUnaliased(memory, tracepoints, s, a, kind)
    case Store(a, data) => StoresPlainly(memory, s.records, a, data)
    case _ => true
  }

  lemma AdmissibleActsPlainly(memory: PageMap, tracepoints: seq<Tracepoint>, s: Debug, c: Command)
    requires Sound(memory, s) && RecordsUnaliased(memory, s.records) && Admissible(memory, tracepoints, s, c)
    ensures ActsPlainly(memory, tracepoints, s, c) && RecordsUnaliased(memory, Step(memory, tracepoints, s, c).records)
  {
    hide PagesInRam, Reach, RecordsUnaliased, SetStep, WriteStep, RestoreStep, RemoveFrom, StoreStep, RecordsOk,
         SiteUnaliased,
         MappedRun, SetsPlainly, ChangesPlainly, RemovesPlainly, AllShowClean, AlikeUnder, Restorable;
    match c {
      case Set(a, kind, host) =>
        SetIsSound(memory, tracepoints, s, a, kind, host);
        UnaliasedSetsPlainly(memory, tracepoints, s, a, kind, host);
      case Delete(a, host) =>
        var k := RecordAt(s.records, a - a % 2);
        if k.Some? {
          RestoreIsSound(memory, s, k.value, host);
          UnaliasedIsAlike(memory, s.records, k.value);
        }
      case RemoveAll(hosts) =>
        RemoveIsSound(memory, s, 0, hosts, 0);
        UnaliasedRemovesPlainly(memory, s, hosts);
      case Show(a, n) =>
        if Readable(memory, a, n) { UnaliasedShowsClean(memory, s.ram, s.records, a, n); }
      case Change(a, data, host) =>
        WriteIsSound(memory, s, a, data, host);
        UnaliasedChangesPlainly(memory, s.records, a, data, host);
      case Store(a, data) =>
        StoreAndCleanIff(memory, s, a, data);
    }
  }

  ghost function Run(memory: PageMap, tracepoints: seq<Tracepoint>, s: Debug, script: seq<Command>): Debug {
    if script == [] then s
    else var n := |script| - 1; Step(memory, tracepoints, Run(memory, tracepoints, s, script[..n]), script[n])
  }

  ghost function Replies(memory: PageMap, tracepoints: seq<Tracepoint>, s: Debug,
      script: seq<Command>): seq<Option<seq<byte>>> {
    if script == [] then []
    else
      var n := |script| - 1;
      Replies(memory, tracepoints, s, script[..n])
      + [Reply(memory, Run(memory, tracepoints, s, script[..n]), script[n])]
  }

  /** The script as a memory without breakpoints would get it. */
  ghost function Meanings(memory: PageMap, tracepoints: seq<Tracepoint>, s: Debug, script: seq<Command>): seq<Plain> {
    if script == [] then []
    else
      var n := |script| - 1;
      Meanings(memory, tracepoints, s, script[..n])
      + [Meaning(memory, tracepoints, Run(memory, tracepoints, s, script[..n]), script[n])]
  }

  function PlainRun(memory: PageMap, ram: Ram, script: seq<Plain>): Ram {
    if script == [] then ram
    else var n := |script| - 1; PlainStep(memory, PlainRun(memory, ram, script[..n]), script[n])
  }

  ghost function PlainReplies(memory: PageMap, ram: Ram, script: seq<Plain>): seq<Option<seq<byte>>> {
    if script == [] then []
    else
      var n := |script| - 1;
      PlainReplies(memory, ram, script[..n]) + [PlainReply(memory, PlainRun(memory, ram, script[..n]), script[n])]
  }

  /** Each command of the script acts plainly when its turn comes. */
  ghost predicate AllActPlainly(memory: PageMap, tracepoints: seq<Tracepoint>, s: Debug, script: seq<Command>) {
    forall i :: 0 <= i < |script| ==>
      ActsPlainly(memory, tracepoints, Run(memory, tracepoints, s, script[..i]), script[i])
  }

  /** What the debugger has been shown, and what removing all breakpoints would leave, are
      those of a memory in which breakpoints do not exist. */
  ghost predicate PlainSoFar(memory: PageMap, tracepoints: seq<Tracepoint>, s: Debug, script: seq<Command>) {
    var end, clean := Run(memory, tracepoints, s, script), Clean(memory, s.ram, s.records);
    var plain := Meanings(memory, tracepoints, s, script);
    && Clean(memory, end.ram, end.records) == PlainRun(memory, clean, plain)
    && Replies(memory, tracepoints, s, script) == PlainReplies(memory, clean, plain)
  }

  lemma StepKeepsRegistered(memory: PageMap, tracepoints: seq<Tracepoint>, s: Debug, c: Command)
    requires Registered(tracepoints, s.records)
    ensures Registered(tracepoints, Step(memory, tracepoints, s, c).records)
  {
    hide Registered, SetStep, RestoreStep, RemoveFrom, WriteBytes, Reach, LaidOver, Rewritten, Cell, MappedRun;
    match c {
      case Set(a, kind, host) => SetKeepsRegistered(memory, tracepoints, s, a, kind, host);
      case Delete(a, host) =>
        var k := RecordAt(s.records, a - a % 2);
        if a < SPACE && k.Some? { RestoreKeepsRegistered(memory, tracepoints, s, k.value, host); }
      case RemoveAll(hosts) => RemoveKeepsRegistered(memory, tracepoints, s, 0, hosts, 0);
      case Change(a, data, _) => RegisteredAlike(tracepoints, s.records, Rewritten(s.records, a, data));
      case _ =>
    }
  }

  /** In every session the records stay apart from each other and from every tracepoint. */
  lemma {:induction false} SessionKeepsApart(memory: PageMap, tracepoints: seq<Tracepoint>, s: Debug,
      script: seq<Command>)
    requires Registered(tracepoints, s.records)
    ensures Registered(tracepoints, Run(memory, tracepoints, s, script).records)
  {
    hide Registered, Step;
    if script != [] {
      var n := |script| - 1;
      SessionKeepsApart(memory, tracepoints, s, script[..n]);
      StepKeepsRegistered(memory, tracepoints, Run(memory, tracepoints, s, script[..n]), script[n]);
    }
  }

  lemma {:induction false} RunIsSound(memory: PageMap, tracepoints: seq<Tracepoint>, s: Debug, script: seq<Command>)
    requires Sound(memory, s)
    ensures Sound(memory, Run(memory, tracepoints, s, script))
  {
    hide Sound, Step;
    if script != [] {
      var n := |script| - 1;
      RunIsSound(memory, tracepoints, s, script[..n]);
      StepIsSound(memory, tracepoints, Run(memory, tracepoints, s, script[..n]), script[n]);
    }
  }

  lemma PlainNext(memory: PageMap, tracepoints: seq<Tracepoint>, s: Debug, script: seq<Command>)
    requires Sound(memory, s) && script != [] && PlainSoFar(memory, tracepoints, s, script[..|script| - 1])
    ensures PlainSoFar(memory, tracepoints, s, script) <==>
            ActsPlainly(memory, tracepoints, Run(memory, tracepoints, s, script[..|script| - 1]), script[|script| - 1])
  {
    hide Sound, Clean, ActsPlainly, Step, Meaning, Reply, PlainStep, PlainReply;
    var n := |script| - 1;
    var front, plain := script[..n], Meanings(memory, tracepoints, s, script);
    MeaningsLength(memory, tracepoints, s, front);
    assert plain[..n] == Meanings(memory, tracepoints, s, front);
    RunIsSound(memory, tracepoints, s, front);
    StepIsPlainIff(memory, tracepoints, Run(memory, tracepoints, s, front), script[n]);
    var shown, told := Reply(memory, Run(memory, tracepoints, s, front), script[n]),
                       PlainReply(memory, PlainRun(memory, Clean(memory, s.ram, s.records), plain[..n]), plain[n]);
    SameEnd(Replies(memory, tracepoints, s, front), shown, told);
  }

  lemma SameEnd<T>(front: seq<T>, a: T, b: T)
    ensures front + [a] == front + [b] <==> a == b
  {
    assert (front + [a])[|front|] == a && (front + [b])[|front|] == b;
  }

  /** Over any script: breakpoints are invisible all along if and only if each command acts
      plainly when its turn comes. */
  lemma SessionIsPlainIff(memory: PageMap, tracepoints: seq<Tracepoint>, s: Debug, script: seq<Command>)
    requires Sound(memory, s)
    ensures (forall i :: 0 <= i <= |script| ==> PlainSoFar(memory, tracepoints, s, script[..i]))
            <==> AllActPlainly(memory, tracepoints, s, script)
  {
    hide Sound, PlainSoFar, ActsPlainly, Run;
    if forall i :: 0 <= i <= |script| ==> PlainSoFar(memory, tracepoints, s, script[..i]) {
      forall i | 0 <= i < |script|
        ensures ActsPlainly(memory, tracepoints, Run(memory, tracepoints, s, script[..i]), script[i])
      {
        assert script[..i + 1][..i] == script[..i];
        assert PlainSoFar(memory, tracepoints, s, script[..i]) && PlainSoFar(memory, tracepoints, s, script[..i + 1]);
        PlainNext(memory, tracepoints, s, script[..i + 1]);
      }
    }
    if AllActPlainly(memory, tracepoints, s, script) {
      forall i | 0 <= i <= |script| ensures PlainSoFar(memory, tracepoints, s, script[..i]) {
        PlainUpTo(memory, tracepoints, s, script, i);
      }
    }
  }

  lemma {:induction false} PlainUpTo(memory: PageMap, tracepoints: seq<Tracepoint>, s: Debug, script: seq<Command>,
      i: nat)
    requires Sound(memory, s) && AllActPlainly(memory, tracepoints, s, script) && i <= |script|
    ensures PlainSoFar(memory, tracepoints, s, script[..i])
    decreases i
  {
    hide Sound, PlainSoFar, ActsPlainly, Run;
    if i == 0 {
      PlainAtFirst(memory, tracepoints, s);
    } else {
      PlainUpTo(memory, tracepoints, s, script, i - 1);
      assert script[..i][..i - 1] == script[..i - 1];
      PlainNext(memory, tracepoints, s, script[..i]);
    }
  }

  lemma PlainAtFirst(memory: PageMap, tracepoints: seq<Tracepoint>, s: Debug)
    ensures PlainSoFar(memory, tracepoints, s, [])
  {
  }

  ghost predicate AllAdmissible(memory: PageMap, tracepoints: seq<Tracepoint>, s: Debug, script: seq<Command>) {
    forall i :: 0 <= i < |script| ==>
      Admissible(memory, tracepoints, Run(memory, tracepoints, s, script[..i]), script[i])
  }

  /** Where no patched cell is ever reached from another address, and stores leave what is
      saved alone, breakpoints are invisible. */
  lemma SessionIsPlain(memory: PageMap, tracepoints: seq<Tracepoint>, s: Debug, script: seq<Command>)
    requires Sound(memory, s) && RecordsUnaliased(memory, s.records) && AllAdmissible(memory, tracepoints, s, script)
    ensures AllActPlainly(memory, tracepoints, s, script) && PlainSoFar(memory, tracepoints, s, script)
    ensures RecordsUnaliased(memory, Run(memory, tracepoints, s, script).records)
  {
    hide Sound, RecordsUnaliased, Admissible, Run, ActsPlainly, PlainSoFar;
    forall i | 0 <= i < |script|
      ensures ActsPlainly(memory, tracepoints, Run(memory, tracepoints, s, script[..i]), script[i])
    {
      StaysUnaliased(memory, tracepoints, s, script, i);
      RunIsSound(memory, tracepoints, s, script[..i]);
      AdmissibleActsPlainly(memory, tracepoints, Run(memory, tracepoints, s, script[..i]), script[i]);
    }
    StaysUnaliased(memory, tracepoints, s, script, |script|);
    PlainUpTo(memory, tracepoints, s, script, |script|);
    assert script[..|script|] == script;
  }

  lemma {:induction false} StaysUnaliased(memory: PageMap, tracepoints: seq<Tracepoint>, s: Debug, script: seq<Command>,
      i: nat)
    requires Sound(memory, s) && RecordsUnaliased(memory, s.records) && AllAdmissible(memory, tracepoints, s, script)
    requires i <= |script|
    ensures RecordsUnaliased(memory, Run(memory, tracepoints, s, script[..i]).records)
    decreases i
  {
    hide Sound, RecordsUnaliased, Admissible, Step, ActsPlainly;
    if i > 0 {
      StaysUnaliased(memory, tracepoints, s, script, i - 1);
      RunIsSound(memory, tracepoints, s, script[..i - 1]);
      AdmissibleActsPlainly(memory, tracepoints, Run(memory, tracepoints, s, script[..i - 1]), script[i - 1]);
      assert script[..i][..i - 1] == script[..i - 1];
    }
  }

  lemma {:induction false} MeaningsLength(memory: PageMap, tracepoints: seq<Tracepoint>, s: Debug, script: seq<Command>)
    ensures |Meanings(memory, tracepoints, s, script)| == |script|
  {
    hide Meaning, Run;
    if script != [] { MeaningsLength(memory, tracepoints, s, script[..|script| - 1]); }
  }

  // ----- Writing in pieces ------------------------------------------------------------------------------

  lemma {:induction false} WriteAppend(memory: PageMap, ram: Ram, a: nat, data: seq<byte>, more: seq<byte>)
    ensures WriteBytes(memory, WriteBytes(memory, ram, a, data), a + |data|, more)
            == WriteBytes(memory, ram, a, data + more)
  {
    hide PutByte;
    if more == [] {
      assert data + more == data;
    } else {
      var n := |more| - 1;
      WriteAppend(memory, ram, a, data, more[..n]);
      assert data + more == data + more[..n] + [more[n]];
      WriteLast(memory, ram, a, data + more[..n], more[n]);
    }
  }

  lemma ReachFirst(memory: PageMap, host: Host, a: nat, n: nat)
    ensures n == 0 ==> Reach(memory, host, a, n) == (true, 0)
    ensures n > 0 && Cell(memory, a).Null? ==> Reach(memory, host, a, n) == (false, 0)
    ensures n > 0 && Cell(memory, a).At? ==>
              var r := Copy(host(Cell(memory, a)), Least(n, PAGE - a % PAGE));
              Reach(memory, host, a, n) == if r.0 then Plus(r.1, Reach(memory, host, a + r.1, n - r.1)) else r
  {
    hide Cell, Copy;
  }

  /** The host's answers for a run are those for its first page, then for the rest. */
  lemma {:induction false} ReachByPages(memory: PageMap, host: Host, a: nat, n: nat, len: nat)
    requires len == Least(n, PAGE - a % PAGE)
    ensures Reach(memory, host, a, n) ==
            if Reach(memory, host, a, len).0 then Plus(len, Reach(memory, host, a + len, n - len))
            else Reach(memory, host, a, len)
    decreases n
  {
    hide Cell, Copy, Reach;
    ReachFirst(memory, host, a, n);
    ReachFirst(memory, host, a, len);
    assert Least(len, PAGE - a % PAGE) == len;
    if n > 0 && Cell(memory, a).At? {
      var k := Copy(host(Cell(memory, a)), len).1;
      if 0 < k < len {
        assert (a + k) % PAGE == a % PAGE + k;
        ReachByPages(memory, host, a + k, n - k, len - k);
      } else if k == len {
        ReachFirst(memory, host, a + k, 0);
      }
    }
  }

  /** And inside one page they go region by region. */
  lemma ReachByRegions(memory: PageMap, host: Host, a: nat, n: nat)
    requires 0 < n && a % PAGE + n <= PAGE && Cell(memory, a).At?
    ensures var r := Copy(host(Cell(memory, a)), n);
            Reach(memory, host, a, n) == if r.0 then Plus(r.1, Reach(memory, host, a + r.1, n - r.1)) else r
  {
    hide Cell, Copy, Reach;
    ReachFirst(memory, host, a, n);
  }

  /** Writing on behind what has been written. */
  lemma NextPiece(memory: PageMap, ram: Ram, a: nat, source: seq<byte>, done: nat, length: nat, n: nat)
    requires done + length <= |source| && n <= length
    ensures WriteBytes(memory, WriteBytes(memory, ram, a, source[..done]), a + done, source[done..done + length][..n])
            == WriteBytes(memory, ram, a, source[..done + n])
  {
    hide WriteBytes;
    WriteAppend(memory, ram, a, source[..done], source[done..done + length][..n]);
    assert source[..done] + source[done..done + length][..n] == source[..done + n];
  }

  lemma NextChunk(memory: PageMap, ram: Ram, a: nat, source: seq<byte>, done: nat, length: nat)
    requires done + length <= |source| && PagesInRam(memory, ram) && Cell(memory, a + done).At?
    requires (a + done) % PAGE + length <= PAGE
    ensures var c, before := Cell(memory, a + done), WriteBytes(memory, ram, a, source[..done]);
      var after := WriteBytes(memory, ram, a, source[..done + length]);
      && SameShape(before, ram) && SameShape(after, ram)
      && c.region in before && c.offset + length <= |before[c.region]|
      && after == Splice(before, c, source[done..done + length])
  {
    hide WriteBytes, Cell, Splice, PagesInRam;
    ChunkIsBytes(memory, ram, a, source[..done], source[done..done + length]);
    assert source[..done] + source[done..done + length] == source[..done + length];
    WriteKeepsShape(memory, ram, a, source[..done + length]);
  }

  lemma ChunkIsFetched(memory: PageMap, ram: Ram, a: nat, n: nat)
    requires PagesInRam(memory, ram) && Cell(memory, a).At? && a % PAGE + n <= PAGE
    ensures var c := Cell(memory, a);
            && c.region in ram && c.offset + n <= |ram[c.region]|
            && Fetch(memory, ram, a, n) == ram[c.region][c.offset..c.offset + n]
  {
    hide Cell;
    var c := Cell(memory, a);
    ChunkFits(memory, ram, a, n);
    var fetched, piece := Fetch(memory, ram, a, n), ram[c.region][c.offset..c.offset + n];
    forall i | 0 <= i < n ensures fetched[i] == piece[i] {
      CellInPage(memory, a, i);
      FetchAt(memory, ram, a, n, a + i);
    }
  }

  lemma FetchMore(memory: PageMap, ram: Ram, a: nat, n: nat, more: nat)
    ensures Fetch(memory, ram, a, n) + Fetch(memory, ram, a + n, more) == Fetch(memory, ram, a, n + more)
  {
    hide GuestByte;
    var both, all := Fetch(memory, ram, a, n) + Fetch(memory, ram, a + n, more), Fetch(memory, ram, a, n + more);
    forall i | 0 <= i < n + more ensures both[i] == all[i] {
      assert i >= n ==> a + n + (i - n) == a + i;
    }
  }

  lemma RecordAtPrefix(bs: seq<Breakpoint>, at: nat, k: nat)
    requires k < |bs| && bs[k].address == at && forall j :: 0 <= j < k ==> bs[j].address != at
    ensures RecordAt(bs, at) == Some(k)
    decreases |bs|
  {
    var n := |bs| - 1;
    if k < n { RecordAtPrefix(bs[..n], at, k); }
  }

  // ----- The debugger -----------------------------------------------------------------------------------

  class Debugger {
    const memory: PageMap
    const tracepoints: seq<Tracepoint>
    var ram: Ram
    var breakpoints: seq<Breakpoint>

    ghost function Now(): Debug
      reads this
    {
      Debug(ram, breakpoints)
    }

    ghost predicate Valid()
      reads this
    {
      Sound(memory, Now()) && Registered(tracepoints, breakpoints)
    }

    constructor (memory: PageMap, tracepoints: seq<Tracepoint>, ram: Ram)
      requires PagesInRam(memory, ram)
      ensures Valid() && this.memory == memory && this.tracepoints == tracepoints && Now() == Debug(ram, [])
      ensures RecordsUnaliased(memory, breakpoints) && Clean(memory, ram, breakpoints) == ram
    {
      this.memory, this.tracepoints, this.ram, this.breakpoints := memory, tracepoints, ram, [];
    }

    /** Every page the range touches is mapped. */
    method RangeIsMapped(address: nat, size: nat) returns (r: bool)
      ensures r
              <==> MappedRun(memory, address, size) && (size == 0 && address % PAGE != 0 ==> Cell(memory, address).At?)
    {
      var page, end := address - address % PAGE, address + size;
      while page < end
        invariant page % PAGE == 0 && address - address % PAGE <= page
        invariant forall x :: address <= x < page && x < end ==> Cell(memory, x).At?
        invariant page > address ==> Cell(memory, address).At?
        decreases end - page
      {
        if Cell(memory, page).Null? {
          ghost var x := if page < address then address else page;
          assert x / PAGE == page / PAGE && Cell(memory, x).Null?;
          return false;
        }
        forall x | page <= x < page + PAGE ensures Cell(memory, x).At? { CellInPage(memory, page, x - page); }
        page := page + PAGE;
      }
      r := true;
    }

    /** Copy into host memory inside one guest page, one host region after another. */
    method WriteHost(address: nat, source: seq<byte>, host: Host) returns (ok: bool)
      requires PagesInRam(memory, ram) && address % PAGE + |source| <= PAGE && Cell(memory, address).At?
      modifies this`ram
      ensures SameShape(ram, old(ram))
      ensures var r := Reach(memory, host, address, |source|);
              ok == r.0 && ram == WriteBytes(memory, old(ram), address, source[..r.1])
    {
      hide WriteBytes, Reach, Splice;
      var c, done := Cell(memory, address), 0;
      WriteNothing(memory, ram, address);
      assert source[..0] == [];
      while done < |source|
        invariant 0 <= done <= |source|
        invariant SameShape(ram, old(ram)) && PagesInRam(memory, ram)
        invariant ram == WriteBytes(memory, old(ram), address, source[..done])
        invariant Reach(memory, host, address, |source|)
                == Plus(done, Reach(memory, host, address + done, |source| - done))
      {
        CellInPage(memory, address, done);
        ReachByRegions(memory, host, address + done, |source| - done);
        var at := At(c.region, c.offset + done);
        var region := host(at);
        if region.Unknown? || region.available == 0 { return false; }
        var length := Least(|source| - done, region.available);
        if !region.writable && !region.protectable { return false; }
        var chunk := source[done..done + length];
        NextChunk(memory, old(ram), address, source, done, length);
        ram := Splice(ram, at, chunk);
        if !region.writable && !region.restorable { return false; }
        done := done + length;
      }
      ReachFirst(memory, host, address + done, 0);
      ok := true;
    }

    /** Write guest memory page by page; an error stops it. */
    method WritePhysical(address: nat, source: seq<byte>, host: Host) returns (ok: bool)
      requires PagesInRam(memory, ram) && source != []
      modifies this`ram
      ensures SameShape(ram, old(ram)) && PagesInRam(memory, ram)
      ensures var r := Reach(memory, host, address, |source|);
              ok == r.0 && ram == WriteBytes(memory, old(ram), address, source[..r.1])
    {
      hide WriteBytes, Reach, Cell;
      var done := 0;
      WriteNothing(memory, ram, address);
      assert source[..0] == [];
      while done < |source|
        invariant 0 <= done <= |source|
        invariant SameShape(ram, old(ram)) && PagesInRam(memory, ram)
        invariant ram == WriteBytes(memory, old(ram), address, source[..done])
        invariant Reach(memory, host, address, |source|)
                == Plus(done, Reach(memory, host, address + done, |source| - done))
      {
        var at := address + done;
        var length := Least(|source| - done, PAGE - at % PAGE);
        ReachByPages(memory, host, at, |source| - done, length);
        if Cell(memory, at).Null? {
          ReachFirst(memory, host, at, length);
          return false;
        }
        var chunk := source[done..done + length];
        ok := WriteHost(at, chunk, host);
        ghost var n := Reach(memory, host, at, length).1;
        NextPiece(memory, old(ram), address, source, done, length, n);
        if !ok { return; }
        done := done + length;
      }
      ReachFirst(memory, host, address + done, 0);
      ok := true;
    }

    method ReadPhysical(address: nat, size: nat) returns (r: Option<seq<byte>>)
      requires PagesInRam(memory, ram)
      ensures r == if MappedRun(memory, address, size) then Some(Fetch(memory, ram, address, size)) else None
    {
      hide Cell, Fetch;
      var data: seq<byte> := [];
      while |data| < size
        invariant |data| <= size && MappedRun(memory, address, |data|) && data == Fetch(memory, ram, address, |data|)
        decreases size - |data|
      {
        var at := address + |data|;
        var length := Least(size - |data|, PAGE - at % PAGE);
        var c := Cell(memory, at);
        if c.Null? { return None; }
        ChunkIsFetched(memory, ram, at, length);
        FetchMore(memory, ram, address, |data|, length);
        forall x | at <= x < at + length ensures Cell(memory, x).At? { CellInPage(memory, at, x - at); }
        data := data + ram[c.region][c.offset..c.offset + length];
      }
      r := Some(data);
    }

    /** The saved bytes or the traps laid over a run. */
    method LayOver(address: nat, data: seq<byte>, side: Side) returns (r: seq<byte>)
      ensures r == LaidOver(breakpoints, address, data, side)
    {
      hide CopyOverlap;
      r := data;
      var k := 0;
      while k < |breakpoints|
        invariant 0 <= k <= |breakpoints| && r == LaidOver(breakpoints[..k], address, data, side)
      {
        assert breakpoints[..k + 1][..k] == breakpoints[..k];
        r := CopyOverlap(r, address, Bytes(breakpoints[k], side), breakpoints[k].address);
        k := k + 1;
      }
      assert breakpoints[..k] == breakpoints;
    }

    method ReadMemory(address: nat, size: nat) returns (r: Option<seq<byte>>)
      requires Valid()
      ensures r == ReadStep(memory, Now(), address, size)
      ensures r.Some? <==>
              && address < 0x1_0000_0000 && address + size <= 0x1_0000_0000
              && forall x :: address <= x < address + size ==> Cell(memory, x).At?
      ensures r.Some? ==> (r.value == Fetch(memory, Clean(memory, ram, breakpoints), address, size)
                           <==> AllShowClean(memory, ram, breakpoints, address, size))
      ensures r.Some? && RecordsUnaliased(memory, breakpoints) ==>
                r.value == Fetch(memory, Clean(memory, ram, breakpoints), address, size)
    {
      hide Cell, Fetch, LaidOver, Clean, RecordsUnaliased, PagesInRam, AllShowClean;
      if !RangeIsValid(address, size) { return None; }
      r := ReadPhysical(address, size);
      if r.None? { return None; }
      var shown := LayOver(address, r.value, Original);
      r := Some(shown);
      ReadIsCleanIff(memory, ram, breakpoints, address, size);
      if RecordsUnaliased(memory, breakpoints) { UnaliasedShowsClean(memory, ram, breakpoints, address, size); }
    }

    /** Carry a successful write into the saved bytes. */
    method UpdateOriginals(address: nat, source: seq<byte>)
      modifies this`breakpoints
      ensures breakpoints == Rewritten(old(breakpoints), address, source)
    {
      hide CopyOverlap;
      var k := 0;
      while k < |breakpoints|
        invariant 0 <= k <= |breakpoints| == |old(breakpoints)|
        invariant forall j :: k <= j < |breakpoints| ==> breakpoints[j] == old(breakpoints)[j]
        invariant forall j :: 0 <= j < k ==> breakpoints[j] == Rewritten(old(breakpoints), address, source)[j]
      {
        var b := breakpoints[k];
        breakpoints := breakpoints[k := b.(original := CopyOverlap(b.original, b.address, source, address))];
        k := k + 1;
      }
    }

    method WriteMemory(address: nat, source: seq<byte>, host: Host) returns (ok: bool)
      requires Valid()
      modifies this
      ensures Valid() && (Now(), ok) == WriteStep(memory, old(Now()), address, source, host)
      ensures ok <==>
              && address < 0x1_0000_0000 && address + |source| <= 0x1_0000_0000
              && (forall x :: address <= x < address + |source| ==> Cell(memory, x).At?)
              && (source == [] && address % 0x1000 != 0 ==> Cell(memory, address).At?)
              && Reach(memory, host, address, |source|).0
      ensures Clean(memory, ram, breakpoints) == old(AfterWrite(memory, Now(), address, source, host))
              <==> ChangesPlainly(memory, old(breakpoints), address, source, host)
      ensures RecordsUnaliased(memory, old(breakpoints)) ==>
                && RecordsUnaliased(memory, breakpoints)
                && Clean(memory, ram, breakpoints) == old(AfterWrite(memory, Now(), address, source, host))
    {
      hide Cell, LaidOver, Clean, RecordsUnaliased, PagesInRam, WriteBytes, Reach, Rewritten, RecordsOk,
           AfterWrite, ChangesPlainly, Registered;
      RegisteredAlike(tracepoints, breakpoints, Rewritten(breakpoints, address, source));
      WriteAndCleanIff(memory, Now(), address, source, host);
      WriteIsSound(memory, Now(), address, source, host);
      if RecordsUnaliased(memory, breakpoints) { UnaliasedChangesPlainly(memory, breakpoints, address, source, host); }
      if !RangeIsValid(address, |source|) { return false; }
      var mapped := RangeIsMapped(address, |source|);
      if !mapped { return false; }
      if source == [] {
        ReachFirst(memory, host, address, 0);
        RewrittenNothing(breakpoints, address);
        WriteNothing(memory, ram, address);
        assert LaidOver(breakpoints, address, source, Planted)[..0] == [];
        return true;
      }
      var physical := LayOver(address, source, Planted);
      ok := WritePhysical(address, physical, host);
      if ok { UpdateOriginals(address, source); }
    }

    method HitsTracepoint(at: nat, kind: nat) returns (r: bool)
      ensures r <==> Traced(tracepoints, at, kind)
    {
      var i := 0;
      while i < |tracepoints|
        invariant 0 <= i <= |tracepoints|
        invariant forall j :: 0 <= j < i ==> !RangesOverlap(at, kind, tracepoints[j].address, tracepoints[j].kind)
      {
        if RangesOverlap(at, kind, tracepoints[i].address, tracepoints[i].kind) { return true; }
        i := i + 1;
      }
      return false;
    }

    /** Look for a record in the way: the same one, or one that overlaps. */
    method FindConflict(at: nat, kind: nat) returns (same: bool, conflict: bool)
      requires Disjoint(breakpoints) && AllWellFormed(breakpoints) && kind > 0
      ensures same <==> HasRecord(breakpoints, at, kind)
      ensures conflict <==> !same && Meets(breakpoints, at, kind)
    {
      var i := 0;
      while i < |breakpoints|
        invariant 0 <= i <= |breakpoints|
        invariant forall j :: 0 <= j < i ==> !RangesOverlap(at, kind, breakpoints[j].address, breakpoints[j].kind)
      {
        if breakpoints[i].address == at && breakpoints[i].kind == kind { return true, false; }
        if RangesOverlap(at, kind, breakpoints[i].address, breakpoints[i].kind) {
          OnlyOverlap(breakpoints, i, at, kind);
          return false, true;
        }
        i := i + 1;
      }
      return false, false;
    }

    method SetBreakpoint(address: nat, kind: nat, host: Host) returns (ok: bool)
      requires Valid()
      modifies this
      ensures Valid() && (Now(), ok) == SetStep(memory, tracepoints, old(Now()), address, kind, host)
      ensures var at := if kind == 2 then address - address % 2 else address;
              OneRegion(memory, host, at, kind) ==>
                (ok <==>
                  && address < 0x1_0000_0000
                  && (|| (exists i :: 0 <= i < |old(breakpoints)| && old(breakpoints)[i].address == at
                                      && old(breakpoints)[i].kind == kind)
                      || (ClearSite(memory, tracepoints, old(breakpoints), at, kind)
                          && CanWrite(host(Cell(memory, at))))))
      ensures !ok ==> breakpoints == old(breakpoints)
      ensures ok ==> HasRecord(breakpoints, Canonical(address, kind), kind)
      ensures Clean(memory, ram, breakpoints) == old(AfterSet(memory, tracepoints, Now(), address, kind, host))
              <==> SetsPlainly(memory, tracepoints, old(Now()), address, kind, host)
    {
      hide Cell, Sound, Clean, AfterSet, SetsPlainly, Registered, ClearSite, CanWrite, OneRegion, SetStep;
      SetAndCleanIff(memory, tracepoints, Now(), address, kind, host);
      SetIsSound(memory, tracepoints, Now(), address, kind, host);
      SetKeepsRegistered(memory, tracepoints, Now(), address, kind, host);
      if OneRegion(memory, host, if kind == 2 then address - address % 2 else address, kind) {
        SetSucceedsWhere(memory, tracepoints, Now(), address, kind, host);
      }
      SetKeepsOrAdds(memory, tracepoints, Now(), address, kind, host);
      ok := TrySet(address, kind, host);
    }

    method TrySet(address: nat, kind: nat, host: Host) returns (ok: bool)
      requires Sound(memory, Now())
      modifies this
      ensures (Now(), ok) == SetStep(memory, tracepoints, old(Now()), address, kind, host)
    {
      hide Cell, Fetch, PagesInRam, WriteBytes, Reach, MappedRun;
      if kind != 2 && kind != 4 { return false; }
      var at := Canonical(address, kind);
      if at == SPACE - 1 || (kind == 4 && at % 4 != 0) { return false; }
      var traced := HitsTracepoint(at, kind);
      if traced { return false; }
      var same, conflict := FindConflict(at, kind);
      if same { return true; }
      if conflict { return false; }
      ok := Plant(at, kind, host);
    }

    /** Save what is there, register the record, write the trap; unregister it on an error. */
    method Plant(at: nat, kind: nat, host: Host) returns (ok: bool)
      requires PagesInRam(memory, ram) && (kind == 2 || kind == 4)
      modifies this
      ensures !MappedRun(memory, at, kind) ==> !ok && Now() == old(Now())
      ensures MappedRun(memory, at, kind) ==>
                var b := Breakpoint(at, kind, old(Fetch(memory, ram, at, kind)), Trap(kind));
                var r := Reach(memory, host, at, |Trap(kind)|);
                && ok == r.0 && ram == WriteBytes(memory, old(ram), at, Trap(kind)[..r.1])
                && breakpoints == if ok then old(breakpoints) + [b] else old(breakpoints)
    {
      hide Cell, Fetch, PagesInRam, WriteBytes, Reach, MappedRun;
      var original := ReadPhysical(at, kind);
      if original.None? { return false; }
      var b := Breakpoint(at, kind, original.value, Trap(kind));
      breakpoints := breakpoints + [b];
      ok := WritePhysical(at, b.trap, host);
      if !ok {
        breakpoints := breakpoints[..|breakpoints| - 1];
        assert breakpoints == old(breakpoints);
      }
    }

    /** The record at the canonical address decides how much is restored; the
        caller's kind is ignored. */
    method DeleteBreakpoint(address: nat, kind: nat, host: Host) returns (ok: bool)
      requires Valid()
      modifies this
      ensures Valid() && (Now(), ok) == DeleteStep(memory, old(Now()), address, host)
      ensures ok ==> forall i :: 0 <= i < |breakpoints| ==> breakpoints[i].address != address - address % 2
      ensures !ok ==> breakpoints == old(breakpoints)
      ensures Clean(memory, ram, breakpoints) == old(Clean(memory, ram, breakpoints))
              <==> DeletesPlainly(memory, old(breakpoints), address, host)
      ensures RecordsUnaliased(memory, old(breakpoints)) ==>
                && RecordsUnaliased(memory, breakpoints)
                && Clean(memory, ram, breakpoints) == old(Clean(memory, ram, breakpoints))
    {
      hide Cell, Clean, RecordsUnaliased, PagesInRam, WriteBytes, Reach, MappedRun, AlikeUnder, Restorable, Registered;
      if address >= SPACE { return false; }
      var at := address - address % 2;
      var i := 0;
      while i < |breakpoints|
        invariant 0 <= i <= |breakpoints| && Now() == old(Now())
        invariant forall j :: 0 <= j < i ==> breakpoints[j].address != at
      {
        if breakpoints[i].address == at {
          if RecordsUnaliased(memory, breakpoints) { UnaliasedIsAlike(memory, breakpoints, i); }
          ok := Restore(i, host);
          RecordAtPrefix(old(breakpoints), at, i);
          OnlyRecordAt(old(breakpoints), i);
          return;
        }
        i := i + 1;
      }
      ok := true;
    }

    /** Put back what one record saved; drop the record on success. */
    method Restore(i: nat, host: Host) returns (ok: bool)
      requires Valid() && i < |breakpoints|
      modifies this
      ensures Valid() && (Now(), ok) == RestoreStep(memory, old(Now()), i, host)
      ensures Clean(memory, ram, breakpoints) == old(Clean(memory, ram, breakpoints)) <==>
              var bs := old(breakpoints);
              !Restorable(memory, host, bs[i]) || AlikeUnder(memory, Forget(bs, i), bs, bs[i])
      ensures RecordsUnaliased(memory, old(breakpoints)) ==> RecordsUnaliased(memory, breakpoints)
    {
      hide Cell, Clean, RecordsUnaliased, PagesInRam, WriteBytes, Reach, MappedRun, AlikeUnder, RecordsOk, Registered;
      RestoreAndCleanIff(memory, Now(), i, host);
      RestoreKeepsRegistered(memory, tracepoints, Now(), i, host);
      RestoreIsSound(memory, Now(), i, host);
      var b := breakpoints[i];
      assert b.original != [] by { RecordHasBytes(memory, breakpoints, i); }
      ok := WritePhysical(b.address, b.original, host);
      if ok { breakpoints := breakpoints[..i] + breakpoints[i + 1..]; }
    }

    /** Restore every site that can be restored and keep the records of the others. */
    method RemoveAllBreakpoints(hosts: nat -> Host) returns (ok: bool)
      requires Valid()
      modifies this
      ensures Valid() && Now() == RemoveFrom(memory, old(Now()), 0, hosts, 0)
      ensures ok <==> breakpoints == []
      ensures ok <==> AllRestorable(memory, old(breakpoints), hosts, 0)
      ensures ok ==> ram == Clean(memory, old(ram), old(breakpoints))
      ensures breakpoints == Unrestored(memory, old(breakpoints), hosts, 0)
      ensures Clean(memory, ram, breakpoints) == old(Clean(memory, ram, breakpoints))
              <==> RemovesPlainly(memory, old(breakpoints), hosts)
      ensures RecordsUnaliased(memory, old(breakpoints)) ==>
                && RecordsUnaliased(memory, breakpoints)
                && Clean(memory, ram, breakpoints) == old(Clean(memory, ram, breakpoints))
    {
      hide Cell, Clean, RecordsUnaliased, PagesInRam, WriteBytes, Reach, MappedRun, RestoreStep, RecordsOk,
           AllRestorable, RemovesPlainly, Unrestored, AlikeUnder, Restorable, Sound, Registered;
      RemoveAllIff(memory, Now(), hosts, 0);
      RemoveKeepsCleanIff(memory, Now(), hosts);
      RemoveIsSound(memory, Now(), 0, hosts, 0);
      if RecordsUnaliased(memory, breakpoints) { UnaliasedRemovesPlainly(memory, Now(), hosts); }
      var restoredAll := true;
      var i, attempt := 0, 0;
      while i < |breakpoints|
        invariant 0 <= i <= |breakpoints| && Valid() && (restoredAll <==> i == 0)
        invariant RemoveFrom(memory, Now(), i, hosts, attempt) == old(RemoveFrom(memory, Now(), 0, hosts, 0))
        decreases |breakpoints| - i
      {
        ghost var before := Now();
        var done := Restore(i, hosts(attempt));
        RestoreCounts(memory, before, i, hosts(attempt));
        attempt := attempt + 1;
        if !done {
          restoredAll := false;
          i := i + 1;
        }
      }
      ok := restoredAll && breakpoints == [];
    }

    /** The guest writes, as far as pages are mapped. */
    method GuestWrite(address: nat, data: seq<byte>)
      requires Valid()
      modifies this`ram
      ensures Valid() && Now() == StoreStep(memory, old(Now()), address, data)
      ensures Clean(memory, ram, breakpoints) == old(AfterStore(memory, Now(), address, data))
              <==> StoresPlainly(memory, breakpoints, address, data)
    {
      hide Cell, PagesInRam, WriteBytes, Reach, MappedRun, Clean, AfterStore, StoresPlainly, Registered;
      StoreAndCleanIff(memory, Now(), address, data);
      if !RangeIsValid(address, |data|) { return; }
      if data == [] {
        ReachFirst(memory, OPEN, address, 0);
        WriteNothing(memory, ram, address);
        return;
      }
      var ok := WritePhysical(address, data, OPEN);
    }

    method Execute(c: Command) returns (reply: Option<seq<byte>>)
      requires Valid()
      modifies this
      ensures Valid() && Now() == Step(memory, tracepoints, old(Now()), c) && reply == Reply(memory, old(Now()), c)
    {
      hide Sound, SetStep, DeleteStep, RemoveFrom, ReadStep, WriteStep, StoreStep, Clean, RecordsUnaliased,
           AllRestorable, Cell, Registered;
      reply := None;
      match c {
        case Set(a, kind, host) => var ok := SetBreakpoint(a, kind, host);
        case Delete(a, host) => var ok := DeleteBreakpoint(a, 0, host);
        case RemoveAll(hosts) => var ok := RemoveAllBreakpoints(hosts);
        case Show(a, size) => reply := ReadMemory(a, size);
        case Change(a, data, host) => var ok := WriteMemory(a, data, host);
        case Store(a, data) => GuestWrite(a, data);
      }
    }

    /** Over any script of commands the replies, and what removing all breakpoints would
        leave, are those of a memory in which breakpoints do not exist, if each command
        acts plainly; and each does where no patched cell is reached from another address. */
    method Session(script: seq<Command>) returns (replies: seq<Option<seq<byte>>>)
      requires Valid()
      modifies this
      ensures Valid() && Now() == Run(memory, tracepoints, old(Now()), script)
      ensures replies == Replies(memory, tracepoints, old(Now()), script)
      ensures old(RecordsUnaliased(memory, breakpoints)) && old(AllAdmissible(memory, tracepoints, Now(), script)) ==>
                old(AllActPlainly(memory, tracepoints, Now(), script))
      ensures old(AllActPlainly(memory, tracepoints, Now(), script)) ==>
                var plain := old(Meanings(memory, tracepoints, Now(), script));
                && replies == PlainReplies(memory, old(Clean(memory, ram, breakpoints)), plain)
                && Clean(memory, ram, breakpoints) == PlainRun(memory, old(Clean(memory, ram, breakpoints)), plain)
    {
      hide Sound, Step, Reply, Clean, RecordsUnaliased, AllAdmissible, Meanings, PlainRun, PlainReplies, AllActPlainly;
      if RecordsUnaliased(memory, breakpoints) && AllAdmissible(memory, tracepoints, Now(), script) {
        SessionIsPlain(memory, tracepoints, Now(), script);
      }
      if AllActPlainly(memory, tracepoints, Now(), script) {
        PlainUpTo(memory, tracepoints, Now(), script, |script|);
        assert script[..|script|] == script;
      }
      replies := [];
      var i := 0;
      while i < |script|
        invariant 0 <= i <= |script| && Valid()
        invariant Now() == Run(memory, tracepoints, old(Now()), script[..i])
        invariant replies == Replies(memory, tracepoints, old(Now()), script[..i])
      {
        assert script[..i + 1][..i] == script[..i];
        var reply := Execute(script[i]);
        replies := replies + [reply];
        i := i + 1;
      }
      assert script[..i] == script;
    }
  }

  lemma SetKeepsOrAdds(memory: PageMap, tracepoints: seq<Tracepoint>, s: Debug, address: nat, kind: nat, host: Host)
    ensures var r := SetStep(memory, tracepoints, s, address, kind, host);
            if r.1 then HasRecord(r.0.records, Canonical(address, kind), kind) else r.0.records == s.records
  {
    hide Cell, Fetch, WriteBytes, Reach, MappedRun;
    var r := SetStep(memory, tracepoints, s, address, kind, host);
    if r.1 && !AlreadySet(tracepoints, s.records, address, kind) {
      var last := r.0.records[|s.records|];
      assert last.address == Canonical(address, kind) && last.kind == kind;
    }
  }

  lemma RecordHasBytes(memory: PageMap, bs: seq<Breakpoint>, i: nat)
    requires RecordsOk(memory, bs) && i < |bs|
    ensures bs[i].original != []
  {
    assert WellFormed(bs[i]);
  }

  lemma RestoreCounts(memory: PageMap, s: Debug, i: nat, host: Host)
    requires i < |s.records|
    ensures var (next, ok) := RestoreStep(memory, s, i, host);
            |next.records| == if ok then |s.records| - 1 else |s.records|
  {
  }

  lemma OnlyOverlap(bs: seq<Breakpoint>, k: nat, at: nat, kind: nat)
    requires Disjoint(bs) && AllWellFormed(bs) && k < |bs| && kind > 0
    requires RangesOverlap(at, kind, bs[k].address, bs[k].kind) && (bs[k].address != at || bs[k].kind != kind)
    ensures !HasRecord(bs, at, kind) && Meets(bs, at, kind)
  {
    forall i | 0 <= i < |bs| ensures bs[i].address != at || bs[i].kind != kind {
      if i < k { assert !RangesOverlap(bs[i].address, bs[i].kind, bs[k].address, bs[k].kind); }
      if k < i { assert !RangesOverlap(bs[k].address, bs[k].kind, bs[i].address, bs[i].kind); }
    }
  }

  lemma OnlyRecordAt(bs: seq<Breakpoint>, k: nat)
    requires Disjoint(bs) && AllWellFormed(bs) && k < |bs|
    ensures forall i :: 0 <= i < |bs| && i != k ==> bs[i].address != bs[k].address
  {
    forall i | 0 <= i < |bs| && i != k ensures bs[i].address != bs[k].address {
      assert WellFormed(bs[i]) && WellFormed(bs[k]);
      if i < k { assert !RangesOverlap(bs[i].address, bs[i].kind, bs[k].address, bs[k].kind); }
      else { assert !RangesOverlap(bs[k].address, bs[k].kind, bs[i].address, bs[i].kind); }
    }
  }
}
