/**
 Guest memory seen byte by byte: the host cell behind a guest address, writing a
 run of bytes through the page map, and what aliasing makes of both.
 */
module GuestBytes {
  import opened Wrappers
  import opened EpochReclamation
  import opened GuestPages

  /** Every mapped page lies inside the host storage it names. */
  ghost predicate PagesInRam(memory: PageMap, ram: Ram) {
    forall k :: k in memory ==>
      && memory[k].addr.At? && memory[k].addr.region in ram
      && memory[k].addr.offset + PAGE <= |ram[memory[k].addr.region]|
  }

  /** The same storage with possibly different contents. */
  ghost predicate SameShape(now: Ram, before: Ram) {
    now.Keys == before.Keys && forall r :: r in now ==> |now[r]| == |before[r]|
  }

  /** The host cell behind a guest address. */
  function Cell(memory: PageMap, a: int): HostPtr {
    if 0 <= a && a / PAGE in memory && memory[a / PAGE].addr.At?
    then At(memory[a / PAGE].addr.region, memory[a / PAGE].addr.offset + a % PAGE) else Null
  }

  predicate CellInRam(c: HostPtr, ram: Ram) {
    c.At? && c.region in ram && c.offset < |ram[c.region]|
  }

  function GuestByte(memory: PageMap, ram: Ram, a: int): Option<byte> {
    var c := Cell(memory, a);
    if CellInRam(c, ram) then Some(ram[c.region][c.offset]) else None
  }

  function PutByte(memory: PageMap, ram: Ram, a: int, v: byte): Ram {
    var c := Cell(memory, a);
    if CellInRam(c, ram) then ram[c.region := ram[c.region][c.offset := v]] else ram
  }

  /** The bytes written one after another at consecutive guest addresses. */
  function WriteBytes(memory: PageMap, ram: Ram, a: int, data: seq<byte>): Ram {
    if data == [] then ram
    else var n := |data| - 1; PutByte(memory, WriteBytes(memory, ram, a, data[..n]), a + n, data[n])
  }

  lemma WriteNothing(memory: PageMap, ram: Ram, a: int)
    ensures WriteBytes(memory, ram, a, []) == ram
  {
  }

  ghost predicate MappedRun(memory: PageMap, a: int, n: nat) {
    forall x :: a <= x < a + n ==> Cell(memory, x).At?
  }

  /** How many bytes of a run come before its first unmapped address. */
  function MappedPart(memory: PageMap, a: nat, n: nat): (r: nat)
    ensures r <= n && MappedRun(memory, a, r) && (r < n ==> Cell(memory, a + r).Null?)
    decreases n
  {
    if n == 0 || Cell(memory, a).Null? then 0 else 1 + MappedPart(memory, a + 1, n - 1)
  }

  lemma MappedPartIs(memory: PageMap, a: nat, n: nat, r: nat)
    requires r <= n && MappedRun(memory, a, r) && (r < n ==> Cell(memory, a + r).Null?)
    ensures MappedPart(memory, a, n) == r
  {
    var k := MappedPart(memory, a, n);
    assert k < r ==> Cell(memory, a + k).At?;
    assert r < k ==> Cell(memory, a + r).At?;
  }

  lemma {:induction false} WriteKeepsShape(memory: PageMap, ram: Ram, a: int, data: seq<byte>)
    ensures SameShape(WriteBytes(memory, ram, a, data), ram)
  {
    if data != [] { WriteKeepsShape(memory, ram, a, data[..|data| - 1]); }
  }

  lemma ReshapeKeepsStore(memory: PageMap, backings: BackingMap, ram: Ram, ram': Ram, nextId: nat, hand: multiset<nat>)
    requires StoreOk(memory, backings, ram, nextId, hand) && SameShape(ram', ram)
    ensures StoreOk(memory, backings, ram', nextId, hand)
  {
    forall k | k in memory ensures memory[k] == RESERVED || PageOk(memory[k], backings, ram') {
      assert memory[k] == RESERVED || PageOk(memory[k], backings, ram);
    }
  }

  lemma ByteIsThere(memory: PageMap, ram: Ram, a: int)
    requires PagesInRam(memory, ram) && Cell(memory, a).At?
    ensures CellInRam(Cell(memory, a), ram)
  {
  }

  lemma CellInPage(memory: PageMap, a: int, i: nat)
    requires 0 <= a && a % PAGE + i < PAGE && Cell(memory, a).At?
    ensures Cell(memory, a + i) == At(Cell(memory, a).region, Cell(memory, a).offset + i)
  {
    assert (a + i) / PAGE == a / PAGE && (a + i) % PAGE == a % PAGE + i;
  }

  /** A chunk copied in one piece to consecutive host cells. */
  function Splice(ram: Ram, c: HostPtr, chunk: seq<byte>): Ram
    requires c.At? && c.region in ram && c.offset + |chunk| <= |ram[c.region]|
  {
    var was := ram[c.region];
    ram[c.region := was[..c.offset] + chunk + was[c.offset + |chunk|..]]
  }

  lemma SpliceNext(ram: Ram, c: HostPtr, chunk: seq<byte>, v: byte)
    requires c.At? && c.region in ram && c.offset + |chunk| + 1 <= |ram[c.region]|
    ensures var r := Splice(ram, c, chunk);
            c.region in r && |r[c.region]| == |ram[c.region]| &&
            Splice(ram, c, chunk + [v]) == r[c.region := r[c.region][c.offset + |chunk| := v]]
  {
    var was, r := ram[c.region], Splice(ram, c, chunk);
    assert r[c.region][c.offset + |chunk| := v] == was[..c.offset] + (chunk + [v]) + was[c.offset + |chunk| + 1..];
  }

  lemma ChunkFits(memory: PageMap, ram: Ram, a: int, n: nat)
    requires 0 <= a && PagesInRam(memory, ram) && Cell(memory, a).At? && a % PAGE + n <= PAGE
    ensures Cell(memory, a).region in ram && Cell(memory, a).offset + n <= |ram[Cell(memory, a).region]|
  {
  }

  /** Copying a chunk into a page is writing its bytes in order. */
  lemma {:induction false} ChunkIsBytes(memory: PageMap, ram: Ram, a: int, data: seq<byte>, chunk: seq<byte>)
    requires 0 <= a && PagesInRam(memory, ram) && Cell(memory, a + |data|).At?
    requires (a + |data|) % PAGE + |chunk| <= PAGE
    ensures var c := Cell(memory, a + |data|);
            && c.region in ram && c.offset + |chunk| <= |ram[c.region]|
            && SameShape(WriteBytes(memory, ram, a, data), ram)
            && WriteBytes(memory, ram, a, data + chunk) == Splice(WriteBytes(memory, ram, a, data), c, chunk)
  {
    hide PagesInRam, Cell, PutByte, Splice;
    ChunkFits(memory, ram, a + |data|, |chunk|);
    var c, before := Cell(memory, a + |data|), WriteBytes(memory, ram, a, data);
    WriteKeepsShape(memory, ram, a, data);
    if chunk == [] {
      assert data + chunk == data;
      SpliceNothing(before, c);
    } else {
      hide WriteBytes;
      var n := |chunk| - 1;
      ChunkIsBytes(memory, ram, a, data, chunk[..n]);
      assert chunk == chunk[..n] + [chunk[n]];
      assert data + chunk == data + chunk[..n] + [chunk[n]];
      WriteLast(memory, ram, a, data + chunk[..n], chunk[n]);
      CellInPage(memory, a + |data|, n);
      SpliceNext(before, c, chunk[..n], chunk[n]);
      PutByteIs(memory, Splice(before, c, chunk[..n]), a + |data| + n, chunk[n]);
    }
  }

  lemma SpliceNothing(ram: Ram, c: HostPtr)
    requires c.At? && c.region in ram && c.offset <= |ram[c.region]|
    ensures Splice(ram, c, []) == ram
  {
    assert ram[c.region][..c.offset] + [] + ram[c.region][c.offset..] == ram[c.region];
  }

  lemma WriteLast(memory: PageMap, ram: Ram, a: int, data: seq<byte>, v: byte)
    ensures WriteBytes(memory, ram, a, data + [v]) == PutByte(memory, WriteBytes(memory, ram, a, data), a + |data|, v)
  {
    assert (data + [v])[..|data|] == data;
  }

  lemma PutByteIs(memory: PageMap, ram: Ram, a: int, v: byte)
    requires CellInRam(Cell(memory, a), ram)
    ensures var c := Cell(memory, a); PutByte(memory, ram, a, v) == ram[c.region := ram[c.region][c.offset := v]]
  {
  }

  // ----- Cell by cell -----------------------------------------------------------------------

  function CellByte(ram: Ram, c: HostPtr): byte
    requires CellInRam(c, ram)
  {
    ram[c.region][c.offset]
  }

  /** Storage of one shape that holds the same byte in every cell is the same storage. */
  lemma RamsAgree(a: Ram, b: Ram)
    requires SameShape(a, b)
    requires forall c :: CellInRam(c, b) ==> CellInRam(c, a) && CellByte(a, c) == CellByte(b, c)
    ensures a == b
  {
    forall r | r in b ensures a[r] == b[r] {
      forall i | 0 <= i < |b[r]| ensures a[r][i] == b[r][i] {
        assert CellInRam(At(r, i), b);
        assert CellByte(a, At(r, i)) == CellByte(b, At(r, i));
      }
    }
  }

  lemma SameCells(a: Ram, b: Ram, c: HostPtr)
    requires SameShape(a, b)
    ensures CellInRam(c, a) <==> CellInRam(c, b)
  {
  }

  /** The last of the bytes of a run that lands in cell `c`. */
  function LastAt(memory: PageMap, a: int, data: seq<byte>, c: HostPtr): Option<byte> {
    if data == [] then None
    else
      var n := |data| - 1;
      if Cell(memory, a + n) == c then Some(data[n]) else LastAt(memory, a, data[..n], c)
  }

  /** A cell holds the last byte written to it, or what it held. */
  lemma {:induction false} WriteAt(memory: PageMap, ram: Ram, a: int, data: seq<byte>, c: HostPtr)
    requires CellInRam(c, ram)
    ensures CellInRam(c, WriteBytes(memory, ram, a, data))
    ensures CellByte(WriteBytes(memory, ram, a, data), c)
            == match LastAt(memory, a, data, c) case Some(v) => v case None => CellByte(ram, c)
  {
    hide Cell;
    if data != [] { WriteAt(memory, ram, a, data[..|data| - 1], c); }
  }

  lemma {:induction false} LastAtNone(memory: PageMap, a: int, data: seq<byte>, c: HostPtr)
    ensures LastAt(memory, a, data, c).None? <==> forall x :: a <= x < a + |data| ==> Cell(memory, x) != c
  {
    hide Cell;
    if data != [] { LastAtNone(memory, a, data[..|data| - 1], c); }
  }

  lemma {:induction false} LastAtComesFrom(memory: PageMap, a: int, data: seq<byte>, c: HostPtr) returns (x: int)
    requires LastAt(memory, a, data, c).Some?
    ensures a <= x < a + |data| && Cell(memory, x) == c && LastAt(memory, a, data, c) == Some(data[x - a])
  {
    hide Cell;
    var n := |data| - 1;
    x := a + n;
    if Cell(memory, x) != c { x := LastAtComesFrom(memory, a, data[..n], c); }
  }

  lemma {:induction false} LastAtSole(memory: PageMap, a: int, data: seq<byte>, c: HostPtr, j: nat)
    requires j < |data| && Cell(memory, a + j) == c && forall x :: a + j < x < a + |data| ==> Cell(memory, x) != c
    ensures LastAt(memory, a, data, c) == Some(data[j])
  {
    hide Cell;
    var n := |data| - 1;
    if j < n { LastAtSole(memory, a, data[..n], c, j); }
  }

  lemma {:induction false} LastAtSame(memory: PageMap, a: int, data: seq<byte>, other: seq<byte>, c: HostPtr)
    requires |data| == |other| && forall x :: a <= x < a + |data| && Cell(memory, x) == c ==>
              data[x - a] == other[x - a]
    ensures LastAt(memory, a, data, c) == LastAt(memory, a, other, c)
  {
    hide Cell;
    if data != [] {
      var n := |data| - 1;
      LastAtSame(memory, a, data[..n], other[..n], c);
    }
  }

  // ----- Reading back -------------------------------------------------------------------------

  /** A byte is read back as written unless a later byte of the same write lands
      in the same host cell. */
  lemma {:induction false} ReadBack(memory: PageMap, ram: Ram, a: int, data: seq<byte>, j: nat)
    requires PagesInRam(memory, ram) && MappedRun(memory, a, |data|) && j < |data|
    requires forall x :: a + j < x < a + |data| ==> Cell(memory, x) != Cell(memory, a + j)
    ensures GuestByte(memory, WriteBytes(memory, ram, a, data), a + j) == Some(data[j])
  {
    var n := |data| - 1;
    var before := WriteBytes(memory, ram, a, data[..n]);
    WriteKeepsShape(memory, ram, a, data[..n]);
    assert Cell(memory, a + n).At? && Cell(memory, a + j).At?;
    ByteIsThere(memory, before, a + n);
    if j < n {
      ReadBack(memory, ram, a, data[..n], j);
    }
  }

  /** And if one does, it is the last such byte that is read. */
  lemma LaterAliasWins(memory: PageMap, ram: Ram, a: int, data: seq<byte>, j: nat, last: nat)
    requires PagesInRam(memory, ram) && MappedRun(memory, a, |data|) && j <= last < |data|
    requires Cell(memory, a + last) == Cell(memory, a + j)
    requires forall x :: a + last < x < a + |data| ==> Cell(memory, x) != Cell(memory, a + last)
    ensures GuestByte(memory, WriteBytes(memory, ram, a, data), a + j) == Some(data[last])
  {
    ReadBack(memory, ram, a, data, last);
  }

  // ----- Mappings --------------------------------------------------------------------------------

  /** The guest sees `data` from `a` on. */
  ghost predicate Shows(memory: PageMap, ram: Ram, a: int, data: seq<byte>) {
    forall i :: 0 <= i < |data| ==> GuestByte(memory, ram, a + i) == Some(data[i])
  }

  /** Outside n bytes from `a` on, every address leads where it led. */
  ghost predicate SameOutside(now: PageMap, before: PageMap, a: int, n: nat) {
    forall x :: x < a || a + n <= x ==> Cell(now, x) == Cell(before, x)
  }

  /** Consecutive pages show the stretch of storage they lie in, and nothing else changes. */
  lemma RunIsShown(memory: PageMap, ram: Ram, first: nat, pages: seq<Page>, region: Region, start: nat)
    requires Consecutive(pages, region, start)
    requires region in ram && start + |pages| * PAGE <= |ram[region]|
    ensures var now := WithPages(memory, first, pages);
            && Shows(now, ram, first * PAGE, ram[region][start..start + |pages| * PAGE])
            && SameOutside(now, memory, first * PAGE, |pages| * PAGE)
  {
    hide WithPages, GuestByte;
    var now, data := WithPages(memory, first, pages), ram[region][start..start + |pages| * PAGE];
    WithPagesAt(memory, first, pages);
    forall i | 0 <= i < |data| ensures GuestByte(now, ram, first * PAGE + i) == Some(data[i]) {
      ByteOfRun(memory, ram, first, pages, region, start, i);
    }
  }

  /** What a new mapping of `size` bytes looks like: its bytes, its permissions, and the rest as it was. */
  ghost predicate IsMapping(now: PageMap, before: PageMap, ram: Ram, at: nat, data: seq<byte>, protection: int,
      backing: Option<BackingId>) {
    && Shows(now, ram, at, data) && SameOutside(now, before, at, |data|)
    && RangeGranted(now, at / 0x1000, |data| / 0x1000, protection, backing)
  }

  lemma MappedIsMapping(before: PageMap, ram: Ram, at: nat, id: BackingId, shift: nat, n: nat, protection: int)
    requires at % PAGE == 0 && ProtectionIsValid(protection)
    requires Owned(id) in ram && shift + n * PAGE == |ram[Owned(id)]|
    ensures IsMapping(WithPages(before, at / PAGE, MappedPages(id, shift, n, DecodeProtection(protection))), before,
              ram, at, ram[Owned(id)][shift..], protection, Some(id))
  {
    hide WithPages, MappedPages, DecodeProtection, Shows, SameOutside, Consecutive, Granted, RangeGranted;
    var pages := MappedPages(id, shift, n, DecodeProtection(protection));
    MappedPagesAre(id, shift, n, protection);
    RunIsShown(before, ram, at / PAGE, pages, Owned(id), shift);
    PagesGrant(before, at / PAGE, pages, protection, Some(id));
    assert ram[Owned(id)][shift..shift + n * PAGE] == ram[Owned(id)][shift..];
  }

  lemma BorrowedIsMapping(before: PageMap, ram: Ram, at: nat, storage: nat, start: nat, n: nat, protection: int)
    requires at % PAGE == 0 && ProtectionIsValid(protection)
    requires Foreign(storage) in ram && start + n * PAGE <= |ram[Foreign(storage)]|
    ensures IsMapping(WithPages(before, at / PAGE, BorrowedPages(storage, start, n, DecodeProtection(protection))),
              before, ram, at, ram[Foreign(storage)][start..start + n * PAGE], protection, None)
  {
    hide WithPages, BorrowedPages, DecodeProtection, Shows, SameOutside, Consecutive, Granted, RangeGranted;
    var pages := BorrowedPages(storage, start, n, DecodeProtection(protection));
    BorrowedPagesAre(storage, start, n, protection);
    RunIsShown(before, ram, at / PAGE, pages, Foreign(storage), start);
    PagesGrant(before, at / PAGE, pages, protection, None);
  }

  /** Private storage that holds `source` and goes on as the old storage did: the guest sees
      `source` and, everywhere else, what it saw. */
  ghost predicate IsReplacement(now: PageMap, ram: Ram, before: PageMap, was: Ram, at: nat, source: seq<byte>) {
    && Shows(now, ram, at, source)
    && (forall x :: x < at || at + |source| <= x ==> GuestByte(now, ram, x) == GuestByte(before, was, x))
    && now.Keys == before.Keys
    && forall v :: v in now ==>
         now[v].perms == before[v].perms && now[v].enforceDataPermissions == before[v].enforceDataPermissions
  }

  lemma ByteOfRun(memory: PageMap, ram: Ram, first: nat, pages: seq<Page>, region: Region, start: nat, i: nat)
    requires Consecutive(pages, region, start) && i < |pages| * PAGE
    requires region in ram && start + |pages| * PAGE <= |ram[region]|
    ensures GuestByte(WithPages(memory, first, pages), ram, first * PAGE + i) == Some(ram[region][start + i])
  {
    hide WithPages;
    WithPagesAt(memory, first, pages);
    PageArithmetic(first, i, |pages|);
    var q := i / PAGE;
    assert pages[q].addr == At(region, start + q * PAGE) && q * PAGE + i % PAGE == i;
    assert Cell(WithPages(memory, first, pages), first * PAGE + i) == At(region, start + i);
  }

  /** The old tail of the last page is what the guest saw there. */
  lemma TailIsOld(before: PageMap, was: Ram, first: nat, n: nat, size: nat, x: int)
    requires PagesInRam(before, was) && 0 < n && first + n - 1 in before && (n - 1) * PAGE < size <= n * PAGE
    requires first * PAGE + size <= x < (first + n) * PAGE
    ensures GuestByte(before, was, x)
            == Some(PageBytes(before[first + n - 1], was)[size - (n - 1) * PAGE..][x - first * PAGE - size])
  {
    var last := first + n - 1;
    assert x == last * PAGE + (x - last * PAGE) && 0 <= x - last * PAGE < PAGE;
    assert x / PAGE == last && x % PAGE == x - last * PAGE;
  }

  lemma PrivateIsReplacement(before: PageMap, was: Ram, ram: Ram, first: nat, n: nat, id: BackingId, source: seq<byte>)
    requires PagesInRam(before, was) && Owned(id) !in was && 0 < n && (n - 1) * PAGE < |source| <= n * PAGE
    requires forall v :: first <= v < first + n ==> v in before
    requires ram == was[Owned(id) := source + PageBytes(before[first + n - 1], was)[|source| - (n - 1) * PAGE..]]
    ensures IsReplacement(WithPages(before, first, PrivatePages(before, first, n, id)), ram, before, was, first * PAGE,
              source)
  {
    hide WithPages, PrivatePages, Shows, SameOutside, Consecutive, GuestByte;
    var pages := PrivatePages(before, first, n, id);
    var tail := PageBytes(before[first + n - 1], was)[|source| - (n - 1) * PAGE..];
    var now, data := WithPages(before, first, pages), source + tail;
    PrivatePagesAre(before, first, n, id);
    RunIsShown(before, ram, first, pages, Owned(id), 0);
    assert ram[Owned(id)][0..0 + n * PAGE] == data;
    ShowsPart(now, ram, first * PAGE, source, tail);
    WithPagesAt(before, first, pages);
    forall x | x < first * PAGE || first * PAGE + |source| <= x
      ensures GuestByte(now, ram, x) == GuestByte(before, was, x)
    {
      if first * PAGE + |source| <= x < (first + n) * PAGE {
        TailIsOld(before, was, first, n, |source|, x);
        ShownAt(now, ram, first * PAGE, data, x);
      } else {
        CellAt(now, before, first * PAGE, n * PAGE, x);
        StorageStays(before, was, ram, Owned(id), x);
        SameCellShows(now, before, ram, x);
      }
    }
  }

  lemma ShowsPart(memory: PageMap, ram: Ram, a: int, data: seq<byte>, more: seq<byte>)
    requires Shows(memory, ram, a, data + more)
    ensures Shows(memory, ram, a, data)
  {
    forall i | 0 <= i < |data| ensures GuestByte(memory, ram, a + i) == Some(data[i]) {
      assert (data + more)[i] == data[i];
    }
  }

  lemma ShownAt(memory: PageMap, ram: Ram, a: int, data: seq<byte>, x: int)
    requires Shows(memory, ram, a, data) && a <= x < a + |data|
    ensures GuestByte(memory, ram, x) == Some(data[x - a])
  {
    assert a + (x - a) == x;
  }

  lemma CellAt(now: PageMap, before: PageMap, a: int, n: nat, x: int)
    requires SameOutside(now, before, a, n) && (x < a || a + n <= x)
    ensures Cell(now, x) == Cell(before, x)
  {
  }

  lemma SameCellShows(now: PageMap, before: PageMap, ram: Ram, x: int)
    requires Cell(now, x) == Cell(before, x)
    ensures GuestByte(now, ram, x) == GuestByte(before, ram, x)
  {
  }

  /** New storage changes nothing for pages that lie in the old. */
  lemma StorageStays(memory: PageMap, was: Ram, ram: Ram, region: Region, x: int)
    requires PagesInRam(memory, was) && region !in was && region in ram && ram == was[region := ram[region]]
    ensures GuestByte(memory, ram, x) == GuestByte(memory, was, x)
  {
  }

  lemma PageArithmetic(page: nat, i: nat, n: nat)
    requires i < n * PAGE
    ensures (page * PAGE + i) / PAGE == page + i / PAGE < page + n && (page * PAGE + i) % PAGE == i % PAGE
  {
  }

  // ----- Aliases ---------------------------------------------------------------------------------

  /** The map after a successful `vm_remap` of n pages from `source` to `target`. */
  function Remapped(memory: PageMap, source: nat, target: nat, n: nat): PageMap
    requires forall v :: source <= v < source + n ==> v in memory
  {
    WithPages(memory, target, AliasPages(memory, source, n))
  }

  /** The destination shows the pre-call source cells, whatever overlaps. */
  lemma DestinationShowsSource(memory: PageMap, source: nat, target: nat, n: nat, i: nat)
    requires forall v :: source <= v < source + n ==> v in memory
    requires i < n * PAGE
    ensures Cell(Remapped(memory, source, target, n), target * PAGE + i) == Cell(memory, source * PAGE + i)
  {
    hide Remapped;
    PageArithmetic(source, i, n);
    PageArithmetic(target, i, n);
    AliasAt(memory, source, target, n, i / PAGE);
  }

  lemma AliasAt(memory: PageMap, source: nat, target: nat, n: nat, q: nat)
    requires forall v :: source <= v < source + n ==> v in memory
    requires q < n
    ensures target + q in Remapped(memory, source, target, n)
    ensures Remapped(memory, source, target, n)[target + q] == memory[source + q].(enforceDataPermissions := true)
  {
    hide WithPages;
    var pages := AliasPages(memory, source, n);
    WithPagesAt(memory, target, pages);
    assert pages[q] == memory[source + q].(enforceDataPermissions := true);
  }

  /** With disjoint ranges the two are true aliases: whatever the contents come to
      be, both show the same bytes at every offset. */
  lemma AliasesAgree(memory: PageMap, source: nat, target: nat, n: nat, i: nat, ram: Ram)
    requires forall v :: source <= v < source + n ==> v in memory
    requires source + n <= target || target + n <= source
    requires i < n * PAGE
    ensures var after := Remapped(memory, source, target, n);
            && Cell(after, target * PAGE + i) == Cell(after, source * PAGE + i)
            && GuestByte(after, ram, target * PAGE + i) == GuestByte(after, ram, source * PAGE + i)
  {
    hide WithPages;
    DestinationShowsSource(memory, source, target, n, i);
    WithPagesAt(memory, target, AliasPages(memory, source, n));
    PageArithmetic(source, i, n);
  }

  lemma TargetIsMapped(memory: PageMap, source: nat, target: nat, n: nat, ram: Ram, offset: nat, len: nat)
    requires forall v :: source <= v < source + n ==> v in memory
    requires PagesInRam(Remapped(memory, source, target, n), ram)
    requires offset + len <= n * PAGE
    ensures MappedRun(Remapped(memory, source, target, n), target * PAGE + offset, len)
  {
    hide WithPages;
    WithPagesAt(memory, target, AliasPages(memory, source, n));
    var a := target * PAGE + offset;
    forall x | a <= x < a + len ensures Cell(Remapped(memory, source, target, n), x).At? {
      PageArithmetic(target, x - target * PAGE, n);
    }
  }

  lemma SourceIsMapped(memory: PageMap, source: nat, target: nat, n: nat, ram: Ram, offset: nat, len: nat)
    requires forall v :: source <= v < source + n ==> v in memory
    requires PagesInRam(Remapped(memory, source, target, n), ram)
    requires offset + len <= n * PAGE
    ensures MappedRun(Remapped(memory, source, target, n), source * PAGE + offset, len)
  {
    hide WithPages;
    WithPagesAt(memory, target, AliasPages(memory, source, n));
    var a := source * PAGE + offset;
    forall x | a <= x < a + len ensures Cell(Remapped(memory, source, target, n), x).At? {
      PageArithmetic(source, x - source * PAGE, n);
    }
  }

  /** Bytes written through one range are read through the other, in either direction, at
      any offset, for any length and across page boundaries. */
  lemma WrittenThroughOneReadThroughOther(
      memory: PageMap, after: PageMap, source: nat, target: nat, n: nat, ram: Ram, offset: nat, data: seq<byte>, j: nat)
    requires forall v :: source <= v < source + n ==> v in memory
    requires after == Remapped(memory, source, target, n) && PagesInRam(after, ram)
    requires source + n <= target || target + n <= source
    requires offset + |data| <= n * PAGE && j < |data|
    ensures var a, b := source * PAGE + offset, target * PAGE + offset;
      && ((forall x :: a + j < x < a + |data| ==> Cell(after, x) != Cell(after, a + j)) ==>
            GuestByte(after, WriteBytes(after, ram, a, data), b + j) == Some(data[j]))
      && ((forall x :: b + j < x < b + |data| ==> Cell(after, x) != Cell(after, b + j)) ==>
            GuestByte(after, WriteBytes(after, ram, b, data), a + j) == Some(data[j]))
  {
    hide WithPages, WriteBytes, Cell, GuestByte;
    var a, b := source * PAGE + offset, target * PAGE + offset;
    SourceIsMapped(memory, source, target, n, ram, offset, |data|);
    TargetIsMapped(memory, source, target, n, ram, offset, |data|);
    AliasesAgree(memory, source, target, n, offset + j, WriteBytes(after, ram, a, data));
    AliasesAgree(memory, source, target, n, offset + j, WriteBytes(after, ram, b, data));
    if forall x :: a + j < x < a + |data| ==> Cell(after, x) != Cell(after, a + j) { ReadBack(after, ram, a, data, j); }
    if forall x :: b + j < x < b + |data| ==> Cell(after, x) != Cell(after, b + j) { ReadBack(after, ram, b, data, j); }
  }
}
