/**
 The values guest virtual memory is made of: 4 KiB guest pages, the host backings
 they point into, reference accounting, and the aligned first-fit search.

 Host addresses are symbolic: a region and an offset, so a pointer into an
 unmapped backing can never be mistaken for a pointer elsewhere.
 */
module GuestPages {
  import opened Wrappers
  import opened Bits
  import opened EpochReclamation

  const PAGE: nat := 0x1000
  const HOST_PAGE: nat := 0x4000
  const SPACE: nat := 0x1_0000_0000
  const PAGES: nat := 0x10_0000
  const LOW_LIMIT: nat := 0x1000_0000

  datatype Access = Read | Write | Exec
  type Prot = set<Access>

  datatype Region = Owned(id: BackingId) | Foreign(id: nat)
  datatype HostPtr = Null | At(region: Region, offset: nat)
  datatype Page = Page(addr: HostPtr, perms: Prot, enforceDataPermissions: bool, backing: Option<BackingId>)
  datatype Backing = Backing(size: nat, references: nat, hostProtection: Prot)

  /** The authoritative map, keyed by guest page number (address >> 12). */
  type PageMap = map<nat, Page>
  type BackingMap = map<BackingId, Backing>
  type Ram = map<Region, seq<byte>>

  /** A page structure that has been reserved but not filled in yet. */
  const RESERVED := Page(Null, {}, false, None)

  // ----- Helpers the operations share --------------------------------------------

  predicate ProtectionIsValid(protection: int) {
    0 <= protection < 8
  }

  function DecodeProtection(protection: int): Prot {
    (if protection % 2 == 1 then {Read} else {}) +
    (if (protection / 2) % 2 == 1 then {Write} else {}) +
    (if (protection / 4) % 2 == 1 then {Exec} else {})
  }

  function HostProtection(perms: Prot): Prot {
    perms * {Read, Write} + (if Exec in perms then {Read} else {})
  }

  /** The permissions a protection word stands for: read 1, write 2, execute 4. */
  predicate Means(perms: Prot, protection: int) {
    && (Read in perms <==> protection in {1, 3, 5, 7})
    && (Write in perms <==> protection in {2, 3, 6, 7})
    && (Exec in perms <==> protection in {4, 5, 6, 7})
  }

  lemma ProtectionMeans(protection: int)
    requires ProtectionIsValid(protection)
    ensures Means(DecodeProtection(protection), protection)
    ensures var host := HostProtection(DecodeProtection(protection));
            && (Read in host <==> protection !in {0, 2}) && (Write in host <==> protection in {2, 3, 6, 7})
            && Exec !in host
  {
    assert protection in {0, 1, 2, 3, 4, 5, 6, 7};
  }

  predicate RangeIsValid(address: nat, size: nat) {
    address < SPACE && size <= SPACE - address
  }

  /** What the fast table may hold for a page: its host address, unless strict
      data permissions send every access through the slow path. */
  function TablePointer(page: Page): HostPtr {
    if page.enforceDataPermissions && !({Read, Write} <= page.perms) then Null else page.addr
  }

  function Entry(memory: PageMap, index: nat): HostPtr {
    if index in memory then TablePointer(memory[index]) else Null
  }

  // ----- Reference accounting --------------------------------------------------------

  ghost function PagesOn(memory: PageMap, b: BackingId): set<nat> {
    set k | k in memory && memory[k].backing == Some(b)
  }

  ghost function Refs(memory: PageMap, b: BackingId): nat {
    |PagesOn(memory, b)|
  }

  function Holds(p: Page, b: BackingId): nat {
    if p.backing == Some(b) then 1 else 0
  }

  function HoldsAt(memory: PageMap, k: nat, b: BackingId): nat {
    if k in memory then Holds(memory[k], b) else 0
  }

  lemma RefsAfterPut(memory: PageMap, k: nat, p: Page, b: BackingId)
    ensures Refs(memory[k := p], b) == Refs(memory, b) - HoldsAt(memory, k, b) + Holds(p, b)
  {
    var before, after := PagesOn(memory, b), PagesOn(memory[k := p], b);
    assert before - {k} == after - {k};
    if k in before { assert |before - {k}| == |before| - 1; } else { assert before - {k} == before; }
    if k in after { assert |after - {k}| == |after| - 1; } else { assert after - {k} == after; }
  }

  lemma RefsAfterDelete(memory: PageMap, k: nat, b: BackingId)
    ensures Refs(memory - {k}, b) == Refs(memory, b) - HoldsAt(memory, k, b)
  {
    var before, after := PagesOn(memory, b), PagesOn(memory - {k}, b);
    assert after == before - {k};
    if k in before { assert |before - {k}| == |before| - 1; } else { assert before - {k} == before; }
  }

  /** Every reference of a live backing is held by a mapped page or is in the hand
      of the running operation. */
  ghost predicate Balanced(memory: PageMap, backings: BackingMap, hand: multiset<BackingId>) {
    && (forall b :: b in backings ==> 0 < backings[b].references == Refs(memory, b) + hand[b])
    && (forall b :: b in hand ==> b in backings)
  }

  function InHand(b: Option<BackingId>): multiset<BackingId> {
    match b case Some(id) => multiset{id} case None => multiset{}
  }

  function BackingAt(memory: PageMap, k: nat): Option<BackingId> {
    if k in memory then memory[k].backing else None
  }

  /** Overwriting a page puts its new reference down and takes the old one up. */
  lemma PutBalances(memory: PageMap, backings: BackingMap, rest: multiset<BackingId>, k: nat, p: Page)
    requires Balanced(memory, backings, rest + InHand(p.backing))
    requires BackingAt(memory, k).Some? ==> BackingAt(memory, k).value in backings
    ensures Balanced(memory[k := p], backings, rest + InHand(BackingAt(memory, k)))
  {
    forall b | b in backings
      ensures 0 < backings[b].references == Refs(memory[k := p], b) + (rest + InHand(BackingAt(memory, k)))[b]
    {
      RefsAfterPut(memory, k, p, b);
    }
  }

  lemma DeleteBalances(memory: PageMap, backings: BackingMap, rest: multiset<BackingId>, k: nat)
    requires Balanced(memory, backings, rest)
    requires BackingAt(memory, k).Some? ==> BackingAt(memory, k).value in backings
    ensures Balanced(memory - {k}, backings, rest + InHand(BackingAt(memory, k)))
  {
    forall b | b in backings
      ensures 0 < backings[b].references == Refs(memory - {k}, b) + (rest + InHand(BackingAt(memory, k)))[b]
    {
      RefsAfterDelete(memory, k, b);
    }
  }

  lemma NoKeys<T>(m: map<nat, T>)
    requires forall k :: k !in m
    ensures m == map[]
  {
  }

  lemma UnreferencedHasNoPage(memory: PageMap, b: BackingId, k: nat)
    requires Refs(memory, b) == 0 && k in memory
    ensures memory[k].backing != Some(b)
  {
    assert k !in PagesOn(memory, b);
  }

  /** Dropping a reference from the hand. */
  function Dropped(backings: BackingMap, b: BackingId): BackingMap
    requires b in backings && backings[b].references > 0
  {
    if backings[b].references == 1 then backings - {b}
    else backings[b := backings[b].(references := backings[b].references - 1)]
  }

  lemma DropBalances(memory: PageMap, backings: BackingMap, rest: multiset<BackingId>, b: BackingId)
    requires Balanced(memory, backings, rest + multiset{b})
    ensures Balanced(memory, Dropped(backings, b), rest)
    ensures backings[b].references == 1 ==> forall k :: k in memory ==> memory[k].backing != Some(b)
  {
    assert b in rest + multiset{b};
    if backings[b].references == 1 {
      forall k | k in memory ensures memory[k].backing != Some(b) { UnreferencedHasNoPage(memory, b, k); }
    }
    forall c | c in rest ensures c in Dropped(backings, b) { assert c in rest + multiset{b}; }
  }

  // ----- Well-formed state ---------------------------------------------------------------

  ghost predicate KeysOk(memory: PageMap) {
    forall k :: k in memory ==> 0 < k < PAGES
  }

  /** The page lies inside mapped host storage; if that storage is owned, its
      backing is live and the host protection covers the page's permissions. */
  ghost predicate PageOk(p: Page, backings: BackingMap, ram: Ram) {
    && p.addr.At? && p.addr.region in ram && p.addr.offset + PAGE <= |ram[p.addr.region]|
    && match p.backing
       case Some(b) =>
         p.addr.region == Owned(b) && b in backings && HostProtection(p.perms) <= backings[b].hostProtection
       case None => p.addr.region.Foreign?
  }

  ghost predicate BackingsOk(backings: BackingMap, ram: Ram) {
    forall b :: b in backings ==> Owned(b) in ram && |ram[Owned(b)]| == backings[b].size
  }

  ghost predicate PointsToLive(p: HostPtr, backings: BackingMap) {
    p.At? && p.region.Owned? ==> p.region.id in backings
  }

  ghost predicate StoreOk(memory: PageMap, backings: BackingMap, ram: Ram, nextId: BackingId, hand: multiset<BackingId>)
  {
    && KeysOk(memory)
    && (forall k :: k in memory ==> memory[k] == RESERVED || PageOk(memory[k], backings, ram))
    && BackingsOk(backings, ram)
    && (forall r :: r in ram && r.Owned? ==> r.id < nextId)
    && Balanced(memory, backings, hand)
  }

  /** The same backings or fewer, differing only in how often they are referenced. */
  ghost predicate OnlyCountsDiffer(now: BackingMap, before: BackingMap) {
    forall b :: b in now ==> b in before && now[b] == before[b].(references := now[b].references)
  }

  lemma DropKeepsStore(memory: PageMap, backings: BackingMap, ram: Ram, nextId: BackingId, rest: multiset<BackingId>,
                       b: BackingId)
    requires StoreOk(memory, backings, ram, nextId, rest + multiset{b})
    ensures StoreOk(memory, Dropped(backings, b), ram, nextId, rest)
    ensures OnlyCountsDiffer(Dropped(backings, b), backings)
  {
    DropBalances(memory, backings, rest, b);
    var backings' := Dropped(backings, b);
    forall k | k in memory ensures memory[k] == RESERVED || PageOk(memory[k], backings', ram) {
      assert memory[k] == RESERVED || PageOk(memory[k], backings, ram);
    }
  }

  lemma PutKeepsStore(memory: PageMap, backings: BackingMap, ram: Ram, nextId: BackingId, rest: multiset<BackingId>,
                      k: nat, p: Page)
    requires StoreOk(memory, backings, ram, nextId, rest + InHand(p.backing))
    requires 0 < k < PAGES && PageOk(p, backings, ram)
    ensures StoreOk(memory[k := p], backings, ram, nextId, rest + InHand(BackingAt(memory, k)))
  {
    PutBalances(memory, backings, rest, k, p);
  }

  lemma DeleteKeepsStore(memory: PageMap, backings: BackingMap, ram: Ram, nextId: BackingId, rest: multiset<BackingId>,
                         k: nat)
    requires StoreOk(memory, backings, ram, nextId, rest)
    ensures StoreOk(memory - {k}, backings, ram, nextId, rest + InHand(BackingAt(memory, k)))
  {
    DeleteBalances(memory, backings, rest, k);
  }

  /** Every page of [first, end) is mapped. */
  ghost predicate Covered(memory: PageMap, first: nat, end: nat) {
    forall v :: first <= v < end ==> v in memory
  }

  function Without(memory: PageMap, first: nat, end: nat): PageMap {
    map k | k in memory && !(first <= k < end) :: memory[k]
  }

  lemma WithoutNext(memory: PageMap, first: nat, v: nat)
    requires first <= v
    ensures Without(memory, first, v) - {v} == Without(memory, first, v + 1)
  {
    var left, right := Without(memory, first, v) - {v}, Without(memory, first, v + 1);
    assert left.Keys == right.Keys;
  }

  // ----- Aligned first fit ---------------------------------------------------------------------

  /** No mapped page starts inside [address, address + size). */
  ghost predicate Free(memory: PageMap, address: nat, size: nat) {
    forall k :: k in memory ==> !(address <= k * PAGE < address + size)
  }

  ghost predicate Fits(memory: PageMap, address: nat, size: nat, alignment: nat)
    requires alignment > 0
  {
    address % alignment == 0 && RangeIsValid(address, size) && Free(memory, address, size)
  }

  /** `found` is the lowest fitting address at or above `hint`. */
  ghost predicate LowestFit(memory: PageMap, hint: nat, size: nat, alignment: nat, found: nat)
    requires alignment > 0
  {
    && hint <= found && Fits(memory, found, size, alignment)
    && forall c :: hint <= c < found ==> !Fits(memory, c, size, alignment)
  }

  ghost predicate NothingFits(memory: PageMap, hint: nat, size: nat, alignment: nat)
    requires alignment > 0
  {
    forall c :: hint <= c ==> !Fits(memory, c, size, alignment)
  }

  /** A request the allocator accepts: whole pages and a mask of low bits that
      covers at least a page. */
  predicate RequestOk(size: nat, mask: nat) {
    size != 0 && size % PAGE == 0 && PAGE - 1 <= mask < SPACE && And(mask, mask + 1) == 0
  }

  /** Whole pages, aligned to a power of two of at least a page. */
  ghost predicate PlainRequest(size: nat, mask: nat) {
    0 < size && size % 0x1000 == 0 && 0xFFF <= mask <= 0xFFFF_FFFF && IsPowerOfTwo(mask + 1)
  }

  lemma RequestIff(size: nat, mask: nat)
    ensures RequestOk(size, mask) <==> PlainRequest(size, mask)
  {
    hide And, IsPowerOfTwo;
    MaskTest(mask);
  }

  function AlignGuestAddress(address: nat, mask: nat): (r: Option<nat>)
    requires IsPowerOfTwo(mask + 1)
    ensures r == if address < SPACE && AlignUp(address, mask + 1) < SPACE then Some(AlignUp(address, mask + 1))
                 else None
  {
    AlignmentAdjustment(address, mask);
    var adjustment := And(mask + 1 - And(address, mask), mask);
    if address >= SPACE || adjustment > SPACE - address then None
    else if address + adjustment < SPACE then Some(address + adjustment) else None
  }

  lemma AlignmentAdjustment(address: nat, mask: nat)
    requires IsPowerOfTwo(mask + 1)
    ensures And(address, mask) <= mask
    ensures address + And(mask + 1 - And(address, mask), mask) == AlignUp(address, mask + 1)
  {
    AndBelow(address, mask + 1);
    AndBelow(mask + 1 - address % (mask + 1), mask + 1);
    AddComplement(address, mask + 1);
  }

  /** Every candidate up to and including an occupied page runs into it, and the
      next candidate after it is the next aligned address. */
  lemma SkipCollision(memory: PageMap, address: nat, size: nat, alignment: nat, k: nat, c: nat)
    requires IsPowerOfTwo(alignment) && PAGE <= alignment
    requires k in memory && 0 <= k && address <= k * PAGE < address + size
    requires address <= c && Fits(memory, c, size, alignment)
    ensures AlignUp(k * PAGE + PAGE, alignment) <= c
  {
    if c <= k * PAGE {
      assert false;
    }
    PageAligned(c, alignment);
    NoMultipleBetween(k * PAGE, c, PAGE);
    AlignUpIsLeast(k * PAGE + PAGE, alignment, c);
  }

  /** The first mapped page of the range, if any. */
  method FindCollision(memory: PageMap, address: nat, size: nat) returns (k: Option<nat>)
    requires address % PAGE == 0 && size % PAGE == 0
    ensures k.Some? ==> k.value in memory && 0 <= k.value && address <= k.value * PAGE < address + size
    ensures k.None? ==> Free(memory, address, size)
  {
    var vaddr, candidateEnd := address / PAGE, (address + size) / PAGE;
    while vaddr < candidateEnd
      invariant address / PAGE <= vaddr <= candidateEnd
      invariant forall j :: address / PAGE <= j < vaddr ==> j !in memory
    {
      if vaddr in memory { return Some(vaddr); }
      vaddr := vaddr + 1;
    }
    return None;
  }

  /** No fitting address lies between `hint` and `floor`. */
  ghost predicate NothingBelow(memory: PageMap, hint: nat, size: nat, alignment: nat, floor: nat)
    requires alignment > 0
  {
    forall c :: hint <= c && Fits(memory, c, size, alignment) ==> floor <= c
  }

  lemma FirstCandidate(memory: PageMap, hint: nat, size: nat, alignment: nat)
    requires alignment > 0
    ensures NothingBelow(memory, hint, size, alignment, AlignUp(hint, alignment))
  {
    forall c | hint <= c && Fits(memory, c, size, alignment) ensures AlignUp(hint, alignment) <= c {
      AlignUpIsLeast(hint, alignment, c);
    }
  }

  lemma NextCandidate(memory: PageMap, hint: nat, size: nat, alignment: nat, address: nat, k: nat)
    requires IsPowerOfTwo(alignment) && PAGE <= alignment && k in memory && address <= k * PAGE < address + size
    requires NothingBelow(memory, hint, size, alignment, address)
    ensures NothingBelow(memory, hint, size, alignment, AlignUp(k * PAGE + PAGE, alignment))
  {
    forall c | hint <= c && Fits(memory, c, size, alignment) ensures AlignUp(k * PAGE + PAGE, alignment) <= c {
      SkipCollision(memory, address, size, alignment, k, c);
    }
  }

  lemma OutOfCandidates(memory: PageMap, hint: nat, size: nat, alignment: nat, floor: nat)
    requires alignment > 0 && NothingBelow(memory, hint, size, alignment, floor) && !RangeIsValid(floor, size)
    ensures NothingFits(memory, hint, size, alignment)
  {
    hide Free;
  }

  lemma LowestCandidate(memory: PageMap, hint: nat, size: nat, alignment: nat, address: nat)
    requires alignment > 0 && NothingBelow(memory, hint, size, alignment, address) && hint <= address
    requires address % alignment == 0 && RangeIsValid(address, size) && Free(memory, address, size)
    ensures LowestFit(memory, hint, size, alignment, address)
  {
    hide Free;
  }

  /** The collision-skipping search: sound, complete and lowest. */
  method FindFreeRange(memory: PageMap, hint: nat, size: nat, mask: nat) returns (r: Option<nat>)
    requires RequestOk(size, mask)
    ensures r.Some? ==> LowestFit(memory, hint, size, mask + 1, r.value)
    ensures r.None? ==> NothingFits(memory, hint, size, mask + 1)
  {
    hide And, AlignUp, IsPowerOfTwo, NothingBelow, LowestFit, NothingFits, Free, AlignGuestAddress;
    MaskTest(mask);
    var alignment := mask + 1;
    var candidate := AlignGuestAddress(hint, mask);
    ghost var floor := AlignUp(hint, alignment);
    FirstCandidate(memory, hint, size, alignment);
    while candidate.Some? && RangeIsValid(candidate.value, size)
      invariant hint <= floor && floor % alignment == 0 && NothingBelow(memory, hint, size, alignment, floor)
      invariant if candidate.Some? then candidate.value == floor else !RangeIsValid(floor, size)
      decreases if candidate.Some? then SPACE + 1 - candidate.value else 0
    {
      var address := candidate.value;
      PageAligned(address, alignment);
      var collision := FindCollision(memory, address, size);
      if collision.None? {
        LowestCandidate(memory, hint, size, alignment, address);
        return Some(address);
      }
      NextCandidate(memory, hint, size, alignment, address, collision.value);
      candidate := AlignGuestAddress(collision.value * PAGE + PAGE, mask);
      floor := AlignUp(collision.value * PAGE + PAGE, alignment);
    }
    OutOfCandidates(memory, hint, size, alignment, floor);
    return None;
  }

  lemma PageAligned(address: nat, alignment: nat)
    requires IsPowerOfTwo(alignment) && PAGE <= alignment && address % alignment == 0
    ensures address % PAGE == 0
  {
    PageIsPowerOfTwo();
    PowerOfTwoDivides(PAGE, alignment);
    MultipleOfMultiple(address, alignment, PAGE);
  }

  lemma PageIsPowerOfTwo()
    ensures IsPowerOfTwo(PAGE)
  {
    assert IsPowerOfTwo(2) && IsPowerOfTwo(8) && IsPowerOfTwo(32) && IsPowerOfTwo(128);
    assert IsPowerOfTwo(512) && IsPowerOfTwo(2048);
  }

  datatype Status = OK | EINVAL | ENOMEM | EACCES | EFAULT | EHOST

  /** Where a request should go: the null page is refused, free placement stays
      clear of low addresses, and the result is aligned to mask + 1. */
  function Hint(address: nat, fixed: bool): nat {
    if !fixed && address < LOW_LIMIT then address + LOW_LIMIT else address
  }

  /** The reservation's place, when it has one. */
  ghost predicate Placed(before: PageMap, address: nat, size: nat, fixed: bool, mask: nat, at: nat) {
    && PlainRequest(size, mask) && RangeIsValid(at, size) && PAGE <= at && at % (mask + 1) == 0
    && (fixed ==> at == AlignUp(address, mask + 1))
    && (!fixed ==>
          LowestFit(before, if address < 0x1000_0000 then address + 0x1000_0000 else address, size, mask + 1, at))
  }

  /** Why it has none: a bad request, the null page, or no room. */
  ghost predicate Unplaceable(before: PageMap, address: nat, size: nat, fixed: bool, mask: nat) {
    || !PlainRequest(size, mask)
    || (fixed && (address < PAGE || !RangeIsValid(AlignUp(address, mask + 1), size)))
    || (!fixed &&
          NothingFits(before, if address < 0x1000_0000 then address + 0x1000_0000 else address, size, mask + 1))
  }

  lemma PlacedPages(before: PageMap, address: nat, size: nat, fixed: bool, mask: nat, at: nat)
    requires Placed(before, address, size, fixed, mask, at)
    ensures at % PAGE == 0 && 0 < at / PAGE
    ensures (at + size) / PAGE == at / PAGE + size / PAGE <= PAGES
  {
    MaskTest(mask);
    PageAligned(at, mask + 1);
  }

  method Place(memory: PageMap, address: nat, size: nat, fixed: bool, mask: nat) returns (status: Status, at: nat)
    ensures status == OK ==> Placed(memory, address, size, fixed, mask, at)
    ensures status != OK ==> Unplaceable(memory, address, size, fixed, mask)
  {
    at := 0;
    RequestIff(size, mask);
    if !RequestOk(size, mask) { return EINVAL, at; }
    MaskTest(mask);
    if fixed {
      if address < PAGE { return ENOMEM, at; }
      var aligned := AlignGuestAddress(address, mask);
      if aligned.None? || !RangeIsValid(aligned.value, size) { return EINVAL, at; }
      return OK, aligned.value;
    }
    var found := FindFreeRange(memory, Hint(address, fixed), size, mask);
    if found.None? { return ENOMEM, at; }
    return OK, found.value;
  }

  // ----- Filling in runs of pages ------------------------------------------------------------

  /** The map with `pages` laid over the page numbers from `first` on. */
  function WithPages(memory: PageMap, first: nat, pages: seq<Page>): PageMap {
    if pages == [] then memory
    else var i := |pages| - 1; WithPages(memory, first, pages[..i])[first + i := pages[i]]
  }

  lemma WithNoPages(memory: PageMap, first: nat)
    ensures WithPages(memory, first, []) == memory && HandOf([]) == multiset{}
  {
  }

  lemma WithPagesNext(memory: PageMap, first: nat, pages: seq<Page>, i: nat)
    requires 0 <= i < |pages|
    ensures WithPages(memory, first, pages[..i])[first + i := pages[i]] == WithPages(memory, first, pages[..i + 1])
  {
    assert pages[..i + 1][..i] == pages[..i];
  }

  /** Inside the run the new pages show, outside it the old ones. */
  lemma {:induction false} WithPagesAt(memory: PageMap, first: nat, pages: seq<Page>)
    ensures var m := WithPages(memory, first, pages);
            && (forall k :: k in m <==> k in memory || first <= k < first + |pages|)
            && (forall k :: k in m ==> m[k] == if first <= k < first + |pages| then pages[k - first] else memory[k])
  {
    if pages != [] { WithPagesAt(memory, first, pages[..|pages| - 1]); }
  }

  /** The references a run of pages needs. */
  ghost function HandOf(pages: seq<Page>): multiset<BackingId> {
    if pages == [] then multiset{} else InHand(pages[0].backing) + HandOf(pages[1..])
  }

  lemma {:induction false} HandOfMember(pages: seq<Page>, i: nat)
    requires 0 <= i < |pages| && pages[i].backing.Some?
    ensures pages[i].backing.value in HandOf(pages)
  {
    if i > 0 { HandOfMember(pages[1..], i - 1); }
  }

  ghost function Copies(b: BackingId, n: nat): multiset<BackingId> {
    multiset{}[b := n]
  }

  lemma {:induction false} HandOfUniform(pages: seq<Page>, b: BackingId)
    requires forall i :: 0 <= i < |pages| ==> pages[i].backing == Some(b)
    ensures HandOf(pages) == Copies(b, |pages|)
  {
    if pages != [] { HandOfUniform(pages[1..], b); }
  }

  lemma {:induction false} HandOfForeign(pages: seq<Page>)
    requires forall i :: 0 <= i < |pages| ==> pages[i].backing == None
    ensures HandOf(pages) == multiset{}
  {
    if pages != [] { HandOfForeign(pages[1..]); }
  }

  lemma {:induction false} RemainingPagesOk(pages: seq<Page>, now: BackingMap, before: BackingMap, ram: Ram)
    requires forall p :: p in pages ==> PageOk(p, before, ram)
    requires OnlyCountsDiffer(now, before)
    requires forall b :: b in HandOf(pages) ==> b in now
    ensures forall p :: p in pages ==> PageOk(p, now, ram)
  {
    forall p | p in pages ensures PageOk(p, now, ram) {
      var i :| 0 <= i < |pages| && pages[i] == p;
      if p.backing.Some? { HandOfMember(pages, i); }
    }
  }

  lemma CreateBalances(memory: PageMap, backings: BackingMap, ram: Ram, id: BackingId, b: Backing)
    requires Balanced(memory, backings, multiset{}) && id !in backings && b.references > 0
    requires forall k :: k in memory ==> memory[k] == RESERVED || PageOk(memory[k], backings, ram)
    ensures Balanced(memory, backings[id := b], Copies(id, b.references))
  {
    forall k | k in memory ensures memory[k].backing != Some(id) {
      assert memory[k] == RESERVED || PageOk(memory[k], backings, ram);
    }
    assert PagesOn(memory, id) == {};
  }

  /** A fresh backing, referenced only from the hand. */
  lemma CreateKeepsStore(memory: PageMap, backings: BackingMap, ram: Ram, nextId: BackingId,
                         bytes: seq<byte>, n: nat, protection: Prot)
    requires StoreOk(memory, backings, ram, nextId, multiset{}) && n > 0
    requires forall b :: b in backings ==> b < nextId
    ensures Owned(nextId) !in ram
    ensures StoreOk(memory, backings[nextId := Backing(|bytes|, n, protection)], ram[Owned(nextId) := bytes],
                    nextId + 1, Copies(nextId, n))
  {
    hide Balanced;
    var b := Backing(|bytes|, n, protection);
    CreateBalances(memory, backings, ram, nextId, b);
    var backings', ram' := backings[nextId := b], ram[Owned(nextId) := bytes];
    forall k | k in memory ensures memory[k] == RESERVED || PageOk(memory[k], backings', ram') {
      assert memory[k] == RESERVED || PageOk(memory[k], backings, ram);
    }
  }

  /** The map with fresh page structures at `reserved`. */
  function Overlay(memory: PageMap, reserved: seq<nat>): PageMap {
    map k | k in memory.Keys + (set r | r in reserved) :: if k in memory then memory[k] else RESERVED
  }

  lemma OverlayNext(memory: PageMap, reserved: seq<nat>, r: nat)
    requires r !in memory && r !in reserved
    ensures Overlay(memory, reserved + [r]) == Overlay(memory, reserved)[r := RESERVED]
    ensures Overlay(memory, reserved + [r]) - {r} == Overlay(memory, reserved)
  {
    var whole := Overlay(memory, reserved + [r]);
    assert whole.Keys == Overlay(memory, reserved)[r := RESERVED].Keys;
    assert (whole - {r}).Keys == Overlay(memory, reserved).Keys;
  }

  lemma OverlayIsCovered(memory: PageMap, reserved: seq<nat>, first: nat, pages: seq<Page>)
    requires forall r :: r in reserved ==> first <= r < first + |pages|
    ensures WithPages(Overlay(memory, reserved), first, pages) == WithPages(memory, first, pages)
  {
    WithPagesAt(Overlay(memory, reserved), first, pages);
    WithPagesAt(memory, first, pages);
    assert WithPages(Overlay(memory, reserved), first, pages).Keys == WithPages(memory, first, pages).Keys;
  }

  /** Exactly the page numbers of [first, end) that are not mapped. */
  ghost predicate IsMissing(memory: PageMap, first: nat, end: nat, reserved: seq<nat>) {
    forall r :: r in reserved <==> first <= r < end && r !in memory
  }

  ghost predicate FreshAndDistinct(memory: PageMap, reserved: seq<nat>) {
    forall i :: 0 <= i < |reserved| ==> reserved[i] !in memory && reserved[i] !in reserved[..i]
  }

  lemma FreshAndDistinctNext(memory: PageMap, reserved: seq<nat>, r: nat)
    requires FreshAndDistinct(memory, reserved) && r !in memory && r !in reserved
    ensures FreshAndDistinct(memory, reserved + [r])
  {
    forall i | 0 <= i < |reserved| + 1
      ensures (reserved + [r])[i] !in memory && (reserved + [r])[i] !in (reserved + [r])[..i]
    {
      assert (reserved + [r])[..i] == reserved[..i];
    }
  }

  lemma OverlayNothing(memory: PageMap)
    ensures Overlay(memory, []) == memory
  {
    assert Overlay(memory, []).Keys == memory.Keys;
  }

  /** Reserved structures are invisible: they hold no reference and publish nothing. */
  lemma OverlayKeepsStore(memory: PageMap, backings: BackingMap, ram: Ram, nextId: BackingId, hand: multiset<BackingId>,
                          reserved: seq<nat>)
    requires StoreOk(memory, backings, ram, nextId, hand)
    requires forall r :: r in reserved ==> 0 < r < PAGES
    ensures StoreOk(Overlay(memory, reserved), backings, ram, nextId, hand)
    ensures forall i :: Entry(Overlay(memory, reserved), i) == Entry(memory, i)
  {
    forall b ensures PagesOn(Overlay(memory, reserved), b) == PagesOn(memory, b) {
    }
  }

  // ----- The pages each kind of mapping installs -----------------------------------------------

  /** Consecutive pages of one fresh backing, starting `shift` bytes into it. */
  function MappedPages(id: BackingId, shift: nat, n: nat, perms: Prot): seq<Page> {
    seq(n, i requires 0 <= i < n => Page(At(Owned(id), shift + i * PAGE), perms, Read !in perms, Some(id)))
  }

  /** Pages that lie one behind the other in a region. */
  ghost predicate Consecutive(pages: seq<Page>, region: Region, start: nat) {
    forall i :: 0 <= i < |pages| ==> pages[i].addr == At(region, start + i * 0x1000)
  }

  /** Pages as a protection word describes them; only readable ones take the fast path at first. */
  ghost predicate Granted(pages: seq<Page>, protection: int, backing: Option<BackingId>) {
    forall i :: 0 <= i < |pages| ==>
      && Means(pages[i].perms, protection) && pages[i].backing == backing
      && (pages[i].enforceDataPermissions <==> protection !in {1, 3, 5, 7})
  }

  /** The same of a stretch of the map. */
  ghost predicate RangeGranted(memory: PageMap, first: nat, n: nat, protection: int, backing: Option<BackingId>) {
    forall v :: first <= v < first + n ==>
      && v in memory && Means(memory[v].perms, protection) && memory[v].backing == backing
      && (memory[v].enforceDataPermissions <==> protection !in {1, 3, 5, 7})
  }

  lemma {:induction false} PageAt(memory: PageMap, first: nat, pages: seq<Page>, i: nat)
    requires i < |pages|
    ensures first + i in WithPages(memory, first, pages) && WithPages(memory, first, pages)[first + i] == pages[i]
    decreases |pages|
  {
    if i < |pages| - 1 { PageAt(memory, first, pages[..|pages| - 1], i); }
  }

  lemma PagesGrant(memory: PageMap, first: nat, pages: seq<Page>, protection: int, backing: Option<BackingId>)
    requires Granted(pages, protection, backing)
    ensures RangeGranted(WithPages(memory, first, pages), first, |pages|, protection, backing)
  {
    hide Means, WithPages;
    var now := WithPages(memory, first, pages);
    forall v | first <= v < first + |pages|
      ensures v in now && Means(now[v].perms, protection) && now[v].backing == backing
      ensures now[v].enforceDataPermissions <==> protection !in {1, 3, 5, 7}
    {
      PageAt(memory, first, pages, v - first);
    }
  }

  lemma MappedPagesAre(id: BackingId, shift: nat, n: nat, protection: int)
    requires ProtectionIsValid(protection)
    ensures var pages := MappedPages(id, shift, n, DecodeProtection(protection));
            && |pages| == n && Consecutive(pages, Owned(id), shift) && Granted(pages, protection, Some(id))
  {
    hide DecodeProtection;
    ProtectionMeans(protection);
  }

  lemma BorrowedPagesAre(storage: nat, start: nat, n: nat, protection: int)
    requires ProtectionIsValid(protection)
    ensures var pages := BorrowedPages(storage, start, n, DecodeProtection(protection));
            && |pages| == n && Consecutive(pages, Foreign(storage), start) && Granted(pages, protection, None)
  {
    hide DecodeProtection;
    ProtectionMeans(protection);
  }

  lemma MappedPagesOk(id: BackingId, shift: nat, n: nat, perms: Prot, backings: BackingMap, ram: Ram)
    requires Owned(id) in ram && shift + n * PAGE <= |ram[Owned(id)]|
    requires id in backings && HostProtection(perms) <= backings[id].hostProtection
    ensures HandOf(MappedPages(id, shift, n, perms)) == Copies(id, n)
    ensures forall p :: p in MappedPages(id, shift, n, perms) ==> PageOk(p, backings, ram)
  {
    HandOfUniform(MappedPages(id, shift, n, perms), id);
  }

  /** Pages of host storage the guest does not own. */
  function BorrowedPages(storage: nat, start: nat, n: nat, perms: Prot): seq<Page> {
    seq(n, i requires 0 <= i < n => Page(At(Foreign(storage), start + i * PAGE), perms, Read !in perms, None))
  }

  lemma BorrowedPagesOk(storage: nat, start: nat, n: nat, perms: Prot, backings: BackingMap, ram: Ram)
    requires Foreign(storage) in ram && start + n * PAGE <= |ram[Foreign(storage)]|
    ensures HandOf(BorrowedPages(storage, start, n, perms)) == multiset{}
    ensures forall p :: p in BorrowedPages(storage, start, n, perms) ==> PageOk(p, backings, ram)
  {
    HandOfForeign(BorrowedPages(storage, start, n, perms));
  }

  /** A run of filled-in pages leaves no reserved structure behind. */
  lemma InstalledRun(memory: PageMap, reserved: seq<nat>, first: nat, pages: seq<Page>)
    requires forall k :: k in memory ==> memory[k] != RESERVED
    requires forall p :: p in pages ==> p.addr.At?
    requires IsMissing(memory, first, first + |pages|, reserved)
    ensures WithPages(Overlay(memory, reserved), first, pages) == WithPages(memory, first, pages)
    ensures forall k :: k in WithPages(memory, first, pages) ==> WithPages(memory, first, pages)[k] != RESERVED
  {
    OverlayIsCovered(memory, reserved, first, pages);
    WithPagesAt(memory, first, pages);
  }

  // ----- Aliases -----------------------------------------------------------------------------------

  /** The source pages as `vm_remap` installs them a second time. */
  function AliasPages(memory: PageMap, source: nat, n: nat): seq<Page>
    requires forall v :: source <= v < source + n ==> v in memory
  {
    seq(n, i requires 0 <= i < n => memory[source + i].(enforceDataPermissions := true))
  }

  function Retained(backings: BackingMap, b: BackingId): BackingMap
    requires b in backings
  {
    backings[b := backings[b].(references := backings[b].references + 1)]
  }

  lemma RetainKeepsStore(memory: PageMap, backings: BackingMap, ram: Ram, nextId: BackingId, hand: multiset<BackingId>,
                         b: BackingId)
    requires StoreOk(memory, backings, ram, nextId, hand) && b in backings
    ensures StoreOk(memory, Retained(backings, b), ram, nextId, hand + multiset{b})
    ensures OnlyCountsDiffer(Retained(backings, b), backings)
  {
    var backings' := Retained(backings, b);
    forall k | k in memory ensures memory[k] == RESERVED || PageOk(memory[k], backings', ram) {
      assert memory[k] == RESERVED || PageOk(memory[k], backings, ram);
    }
  }

  lemma {:induction false} HandOfAppend(pages: seq<Page>, p: Page)
    ensures HandOf(pages + [p]) == HandOf(pages) + InHand(p.backing)
  {
    if pages != [] {
      HandOfAppend(pages[1..], p);
      assert (pages + [p])[1..] == pages[1..] + [p];
    } else {
      assert ([p])[1..] == [];
    }
  }

  /** What `vm_remap` demands of a source page. */
  predicate CanAlias(p: Page) {
    p.addr.At? && p.backing.Some? && Exec !in p.perms
  }

  function CommonProtection(pages: seq<Page>): Prot {
    if pages == [] then {Read, Write, Exec} else CommonProtection(pages[..|pages| - 1]) * pages[|pages| - 1].perms
  }

  /** What all pages allow. */
  lemma {:induction false} CommonProtectionIff(pages: seq<Page>, access: Access)
    ensures access in CommonProtection(pages) <==> forall i :: 0 <= i < |pages| ==> access in pages[i].perms
  {
    if pages != [] { CommonProtectionIff(pages[..|pages| - 1], access); }
  }

  lemma NoAliasPages(memory: PageMap, source: nat)
    ensures AliasPages(memory, source, 0) == [] && CommonProtection([]) == {Read, Write, Exec}
  {
  }

  lemma AliasPagesNext(memory: PageMap, source: nat, n: nat)
    requires forall v :: source <= v < source + n + 1 ==> v in memory
    ensures var p := memory[source + n].(enforceDataPermissions := true);
      && AliasPages(memory, source, n + 1) == AliasPages(memory, source, n) + [p]
      && CommonProtection(AliasPages(memory, source, n + 1))
         == CommonProtection(AliasPages(memory, source, n)) * p.perms
  {
    var all, front := AliasPages(memory, source, n + 1), AliasPages(memory, source, n);
    assert all[..n] == front;
  }

  lemma AliasPagesOk(memory: PageMap, backings: BackingMap, ram: Ram, nextId: BackingId, source: nat, n: nat)
    requires StoreOk(memory, backings, ram, nextId, multiset{})
    requires forall v :: source <= v < source + n ==> v in memory && CanAlias(memory[v])
    ensures forall p :: p in AliasPages(memory, source, n) ==> PageOk(p, backings, ram) && p.backing.Some?
  {
  }

  lemma UnmappedIsFree(memory: PageMap, address: nat, n: nat)
    requires address % PAGE == 0
    requires forall v :: address / PAGE <= v < address / PAGE + n ==> v !in memory
    ensures Free(memory, address, n * PAGE)
  {
    forall k | k in memory ensures !(address <= k * PAGE < address + n * PAGE) {
      assert !(address / PAGE <= k < address / PAGE + n);
    }
  }

  datatype Kern = SUCCESS | NOT_SUPPORTED | INVALID_ARGUMENT | INVALID_ADDRESS | NO_SPACE

  /** A `vm_remap` request. */
  datatype Remap = Remap(address: nat, size: nat, mask: nat, anywhere: bool, overwrite: bool, otherFlags: bool,
                         source: nat, copy: bool)
  {
    /** The alignment mask: at least a page's low bits. */
    function Alignment(): nat { mask - mask % PAGE + (PAGE - 1) }

    function Length(): nat { AlignUp(size, PAGE) }

    function Destination(): nat { if anywhere then 0 else address - address % PAGE }

    /** The checks made before the map is looked at. */
    function Check(): Kern {
      if copy || source % PAGE != 0 then NOT_SUPPORTED
      else if otherFlags || (anywhere && overwrite) || And(Alignment(), Alignment() + 1) != 0 then INVALID_ARGUMENT
      else if Length() == 0 then INVALID_ARGUMENT
      else if !RangeIsValid(source, Length()) then INVALID_ADDRESS
      else if !RangeIsValid(Destination(), Length()) ||
              (!anywhere && (Destination() < PAGE || And(Destination(), Alignment()) != 0)) then NO_SPACE
      else SUCCESS
    }

    lemma Checked()
      requires Check() == SUCCESS && mask < SPACE
      ensures source % PAGE == 0 && Length() > 0 && Length() % PAGE == 0 && RangeIsValid(source, Length())
      ensures RequestOk(Length(), Alignment())
      ensures !anywhere ==> AlignUp(Destination(), Alignment() + 1) == Destination()
      ensures Destination() % PAGE == 0
    {
      hide And, IsPowerOfTwo;
      MaskTest(Alignment());
      AndBelow(Destination(), Alignment() + 1);
      if !anywhere { AlignUpIsLeast(Destination(), Alignment() + 1, Destination()); }
      FloorIsMultiple(address, PAGE);
    }

    /** A request is well formed exactly if it asks for a shared, page-aligned, nonempty source inside
        the address space and for a place that is aligned, above the null page and inside it too. */
    lemma CheckIff()
      requires mask < SPACE
      ensures var length, to := (size + 0xFFF) / 0x1000 * 0x1000, address - address % 0x1000;
              var unit := mask - mask % 0x1000 + 0x1000;
              Check() == SUCCESS <==>
              && !copy && !otherFlags && !(anywhere && overwrite) && IsPowerOfTwo(unit)
              && size > 0 && source % 0x1000 == 0 && source < SPACE && source + length <= SPACE
              && (if anywhere then length <= SPACE
                  else 0x1000 <= to < SPACE && to + length <= SPACE && to % unit == 0)
    {
      hide And, IsPowerOfTwo;
      MaskTest(Alignment());
      if IsPowerOfTwo(Alignment() + 1) { AndBelow(Destination(), Alignment() + 1); }
    }

    lemma WhereItLands(before: PageMap, mapped: nat)
      requires Check() == SUCCESS && mask < SPACE
      requires Placed(before, Destination(), Length(), !anywhere, Alignment(), mapped)
      ensures !anywhere ==> mapped == Destination()
      ensures anywhere ==> Free(before, mapped, Length())
    {
      Checked();
    }
  }

  // ----- Host protection ---------------------------------------------------------------------------

  function Widened(backings: BackingMap, b: BackingId, extra: Prot): BackingMap
    requires b in backings
  {
    backings[b := backings[b].(hostProtection := backings[b].hostProtection + extra)]
  }

  /** The same backings with at least the host protection they had, and no more than `extra` on top. */
  ghost predicate OnlyWidened(now: BackingMap, before: BackingMap, extra: Prot) {
    && now.Keys == before.Keys
    && forall b :: b in now ==> && before[b].hostProtection <= now[b].hostProtection
                                && now[b].hostProtection <= before[b].hostProtection + extra
                                && now[b] == before[b].(hostProtection := now[b].hostProtection)
  }

  lemma WidenKeepsStore(memory: PageMap, backings: BackingMap, ram: Ram, nextId: BackingId, hand: multiset<BackingId>,
                        b: BackingId, extra: Prot)
    requires StoreOk(memory, backings, ram, nextId, hand) && b in backings
    ensures StoreOk(memory, Widened(backings, b, extra), ram, nextId, hand)
  {
    var backings' := Widened(backings, b, extra);
    forall k | k in memory ensures memory[k] == RESERVED || PageOk(memory[k], backings', ram) {
      assert memory[k] == RESERVED || PageOk(memory[k], backings, ram);
    }
  }

  /** Changing a page without moving it to another backing. */
  lemma RewriteKeepsStore(memory: PageMap, backings: BackingMap, ram: Ram, nextId: BackingId, hand: multiset<BackingId>,
                          k: nat, p: Page)
    requires StoreOk(memory, backings, ram, nextId, hand)
    requires k in memory && p.backing == memory[k].backing && PageOk(p, backings, ram)
    ensures StoreOk(memory[k := p], backings, ram, nextId, hand)
  {
    forall b { RefsAfterPut(memory, k, p, b); }
  }

  function WithProtection(memory: PageMap, first: nat, end: nat, perms: Prot): PageMap {
    map k | k in memory ::
      if first <= k < end then memory[k].(perms := perms, enforceDataPermissions := true) else memory[k]
  }

  /** In the range the pages have the new permissions, strictly enforced; nothing else changes. */
  ghost predicate Reprotected(now: PageMap, before: PageMap, first: nat, end: nat, protection: int) {
    && now.Keys == before.Keys
    && forall v :: v in now ==>
         if first <= v < end then
           && Means(now[v].perms, protection) && now[v].enforceDataPermissions
           && now[v].addr == before[v].addr && now[v].backing == before[v].backing
         else now[v] == before[v]
  }

  lemma WithProtectionIs(memory: PageMap, first: nat, end: nat, protection: int)
    requires ProtectionIsValid(protection)
    ensures var now := WithProtection(memory, first, end, DecodeProtection(protection));
            Reprotected(now, memory, first, end, protection)
  {
    hide DecodeProtection;
    ProtectionMeans(protection);
  }

  lemma WithProtectionNext(memory: PageMap, first: nat, v: nat, perms: Prot)
    requires first <= v && v in memory
    ensures WithProtection(memory, first, v, perms)[v := memory[v].(perms := perms, enforceDataPermissions := true)]
            == WithProtection(memory, first, v + 1, perms)
    ensures WithProtection(memory, first, first, perms) == memory
  {
    var page := memory[v].(perms := perms, enforceDataPermissions := true);
    var left := WithProtection(memory, first, v, perms)[v := page];
    assert left.Keys == WithProtection(memory, first, v + 1, perms).Keys;
    assert WithProtection(memory, first, first, perms).Keys == memory.Keys;
  }

  // ----- Private replacement --------------------------------------------------------------------------

  function PageBytes(p: Page, ram: Ram): seq<byte>
    requires p.addr.At? && p.addr.region in ram && p.addr.offset + PAGE <= |ram[p.addr.region]|
  {
    ram[p.addr.region][p.addr.offset..p.addr.offset + PAGE]
  }

  /** The pages a range of bytes from a page boundary touches. */
  lemma PagesTouched(address: nat, size: nat)
    requires address % PAGE == 0 && RangeIsValid(address, size) && size > 0
    ensures var n := AlignUp(size, PAGE) / PAGE;
      0 < n && (n - 1) * PAGE < size <= n * PAGE && address / PAGE + n <= PAGES
  {
  }

  /** The old pages moved, with their permissions, to a private backing. */
  function PrivatePages(memory: PageMap, first: nat, n: nat, id: BackingId): seq<Page>
    requires forall v :: first <= v < first + n ==> v in memory
  {
    seq(n, i requires 0 <= i < n => memory[first + i].(addr := At(Owned(id), i * PAGE), backing := Some(id)))
  }

  lemma PrivatePagesOk(memory: PageMap, first: nat, n: nat, id: BackingId, backings: BackingMap, ram: Ram)
    requires forall v :: first <= v < first + n ==> v in memory
    requires Owned(id) in ram && n * PAGE == |ram[Owned(id)]|
    requires id in backings && backings[id].hostProtection == {Read, Write}
    ensures HandOf(PrivatePages(memory, first, n, id)) == Copies(id, n)
    ensures forall p :: p in PrivatePages(memory, first, n, id) ==> PageOk(p, backings, ram)
  {
    HandOfUniform(PrivatePages(memory, first, n, id), id);
  }

  lemma PrivatePagesAre(memory: PageMap, first: nat, n: nat, id: BackingId)
    requires forall v :: first <= v < first + n ==> v in memory
    ensures var pages := PrivatePages(memory, first, n, id);
            && |pages| == n && Consecutive(pages, Owned(id), 0)
            && forall i :: 0 <= i < n ==>
                 && pages[i].perms == memory[first + i].perms && pages[i].backing == Some(id)
                 && pages[i].enforceDataPermissions == memory[first + i].enforceDataPermissions
  {
  }
}
