/**
 Guest virtual memory: the authoritative page map, the fast page table that
 mirrors it, and the reference-counted host backings both point into.

 Every operation runs under one lock, but the page table is read without it.
 Each store to the table and each release of a reference is therefore an atomic
 step of its own, and `Interleave` lets guest threads run any number of guard
 steps before it.
 */
module GuestVm {
  import opened Wrappers
  import opened Bits
  import opened EpochReclamation
  import opened GuestPages
  import opened GuestBytes

  class Vm {
    var memory: PageMap
    var backings: BackingMap
    var ram: Ram
    var nextId: nat
    const table: array<HostPtr>
    const epochs: EpochDomain

    /** The map, the backings and the epochs fit together, with `hand` the
        references the running operation holds itself. */
    ghost predicate Core(hand: multiset<BackingId>)
      reads this, epochs
    {
      && epochs.Valid() && epochs.published == backings.Keys
      && (forall b: BackingId :: b < nextId <==> b in backings || Dead(epochs.State(), b))
      && StoreOk(memory, backings, ram, nextId, hand)
    }

    /** Core, and every fast pointer leads to a live backing. */
    ghost predicate Mid(hand: multiset<BackingId>)
      reads this, table, epochs
    {
      Core(hand) && forall i :: 0 <= i < table.Length ==> PointsToLive(table[i], backings)
    }

    /** The fast table mirrors the authoritative map. */
    ghost predicate AllAgree()
      reads this`memory, table
    {
      forall i :: 0 <= i < table.Length ==> table[i] == Entry(memory, i)
    }

    /** Every fast pointer is withdrawn or right. */
    ghost predicate AllSafe()
      reads this`memory, table
    {
      forall i :: 0 <= i < table.Length ==> table[i] == Null || table[i] == Entry(memory, i)
    }

    /** The state whenever the lock is free. */
    ghost predicate Valid()
      reads this, table, epochs
    {
      && Mid(multiset{})
      && (forall k :: k in memory ==> memory[k] != RESERVED)
      && AllAgree()
    }

    constructor (entries: nat)
      ensures Valid() && fresh(table) && fresh(epochs) && table.Length == entries
      ensures memory == map[] && backings == map[] && epochs.State() == INITIAL
    {
      memory, backings, ram, nextId := map[], map[], map[], 0;
      table := new HostPtr[entries](_ => Null);
      epochs := new EpochDomain();
    }

    // ----- Atomic steps -----------------------------------------------------------------

    /** Guest threads register, unregister, enter and leave guards in any order. */
    method Interleave()
      requires epochs.Valid()
      modifies epochs
      ensures epochs.Valid() && epochs.published == old(epochs.published)
      ensures forall b :: Dead(epochs.State(), b) <==> old(Dead(epochs.State(), b))
    {
      var steps: nat := *;
      while steps > 0
        invariant epochs.Valid() && epochs.published == old(epochs.published)
        invariant forall b :: Dead(epochs.State(), b) <==> old(Dead(epochs.State(), b))
      {
        var t: ThreadId := *;
        var kind: nat := *;
        if kind == 0 {
          StepDeaths(epochs.State(), Register(t));
          epochs.RegisterParticipant(t);
        } else if t in epochs.participants {
          var depth := epochs.participants[t].activeDepth;
          if kind == 1 {
            StepDeaths(epochs.State(), Enter(t));
            epochs.EnterGuard(t);
          } else if kind == 2 && depth != 0 {
            StepDeaths(epochs.State(), Exit(t));
            epochs.ExitGuard(t);
          } else if kind == 3 && depth == 0 {
            StepDeaths(epochs.State(), Unregister(t));
            epochs.UnregisterParticipant(t);
          }
        }
        steps := steps - 1;
      }
    }

    /** Publish or withdraw one entry of the fast table. */
    method StoreEntry(index: nat, p: HostPtr, ghost hand: multiset<BackingId>)
      requires Mid(hand)
      requires PointsToLive(p, backings)
      modifies table, epochs
      ensures Mid(hand)
      ensures forall i :: 0 <= i < table.Length ==> table[i] == if i == index then p else old(table[i])
    {
      Interleave();
      if 0 <= index < table.Length {
        table[index] := p;
      }
    }

    /** Drop one reference; the last one retires the backing. */
    method DropReference(id: BackingId, ghost rest: multiset<BackingId>)
      requires Core(rest + multiset{id}) && id in backings
      modifies this`backings, epochs
      ensures Core(rest) && epochs.participants == old(epochs.participants)
      ensures backings == Dropped(old(backings), id)
    {
      hide Inv;
      DropKeepsStore(memory, backings, ram, nextId, rest, id);
      var backing := backings[id];
      if backing.references - 1 != 0 {
        backings := backings[id := backing.(references := backing.references - 1)];
        assert epochs.published == backings.Keys;
      } else {
        backings := backings - {id};
        epochs.RetireUnreachable(id);
      }
    }

    /** Release a reference after the table has stopped leading to it. */
    method ReleaseReference(b: Option<BackingId>, ghost rest: multiset<BackingId>)
      requires Mid(rest + InHand(b)) && AllSafe()
      modifies this`backings, epochs
      ensures Mid(rest)
      ensures OnlyCountsDiffer(backings, old(backings))
    {
      hide Inv;
      Interleave();
      if b.Some? {
        assert b.value in rest + InHand(b);
        DropBalances(memory, backings, rest, b.value);
        DropKeepsStore(memory, backings, ram, nextId, rest, b.value);
        forall i | 0 <= i < table.Length ensures PointsToLive(table[i], Dropped(backings, b.value)) {
          if table[i] != Null { assert PageOk(memory[i], backings, ram); }
        }
        DropReference(b.value, rest);
      }
    }

    /** Fill in one page structure and publish it; its old reference is now in hand. */
    method PublishPage(k: nat, page: Page, ghost rest: multiset<BackingId>)
      requires Mid(rest + InHand(page.backing)) && AllAgree()
      requires 0 < k < PAGES && PageOk(page, backings, ram)
      modifies this`memory, table, epochs
      ensures Mid(rest + InHand(BackingAt(old(memory), k))) && AllAgree()
      ensures memory == old(memory)[k := page]
    {
      hide Inv;
      PutKeepsStore(memory, backings, ram, nextId, rest, k, page);
      ghost var hand := rest + InHand(BackingAt(memory, k));
      memory := memory[k := page];
      StoreEntry(k, TablePointer(page), hand);
    }

    /** Fill in one page, publish it, and only then release what it displaced. */
    method InstallPage(k: nat, page: Page, ghost rest: multiset<BackingId>)
      requires Mid(rest + InHand(page.backing)) && AllAgree()
      requires 0 < k < PAGES && PageOk(page, backings, ram)
      modifies this`memory, this`backings, table, epochs
      ensures Mid(rest) && AllAgree()
      ensures memory == old(memory)[k := page]
      ensures OnlyCountsDiffer(backings, old(backings))
    {
      var previous := BackingAt(memory, k);
      PublishPage(k, page, rest);
      ReleaseReference(previous, rest);
    }

    /** Withdraw one page's fast pointer, unmap it, and release its backing. */
    method WithdrawPage(k: nat)
      requires Mid(multiset{}) && AllAgree() && k in memory
      modifies this`memory, this`backings, table, epochs
      ensures Mid(multiset{}) && AllAgree()
      ensures memory == old(memory) - {k}
      ensures OnlyCountsDiffer(backings, old(backings))
    {
      hide Inv;
      var previous := memory[k].backing;
      StoreEntry(k, Null, multiset{});
      DeleteKeepsStore(memory, backings, ram, nextId, multiset{}, k);
      memory := memory - {k};
      ReleaseReference(previous, multiset{});
    }

    /** At any moment, even in the middle of an operation, a pointer that a guarded
        thread can load from the fast table leads to storage that is still mapped,
        and that it protects until it leaves its outermost guard. */
    lemma LoadedPointerIsSafe(t: ThreadId, i: nat, hand: multiset<BackingId>)
      requires Mid(hand) && Active(epochs.State(), t)
      requires i < table.Length && table[i].At? && table[i].region.Owned?
      ensures table[i].region.id in epochs.exposed[t]
      ensures table[i].region.id !in epochs.unmapped
      ensures table[i].region.id in epochs.states[|epochs.states| - 1].published
    {
      assert PointsToLive(table[i], backings);
      assert Protected(epochs.State(), t, table[i].region.id);
    }

    /** And it stays so: whatever the table led to at some moment of the Vm's history is
        not unmapped as long as a thread that was guarded then has been guarded since. */
    lemma HeldPointerIsSafe(t: ThreadId, b: BackingId, m: nat, hand: multiset<BackingId>)
      requires Mid(hand) && m < |epochs.states| && b in epochs.states[m].published
      requires forall i :: m <= i < |epochs.states| ==> Active(epochs.states[i], t)
      ensures b !in epochs.unmapped
    {
      HeldIsNotUnmapped(epochs.states, epochs.actions, m, |epochs.states| - 1, t, b);
    }

    // ----- munmap ----------------------------------------------------------------------

    /** A nonempty page-aligned range inside the guest address space. */
    static predicate WholePages(address: nat, size: nat) {
      address % PAGE == 0 && size != 0 && size % PAGE == 0 && RangeIsValid(address, size)
    }

    method ValidateMunmapRange(address: nat, size: nat) returns (status: Status)
      ensures status == OK <==> PlainRange(address, size) && Covered(memory, address / PAGE, (address + size) / PAGE)
      ensures status in {OK, EINVAL, ENOMEM}
    {
      if address % PAGE != 0 { return EINVAL; }
      if size == 0 || size % PAGE != 0 { return EINVAL; }
      if !RangeIsValid(address, size) { return EINVAL; }
      var vaddr, end := address / PAGE, (address + size) / PAGE;
      while vaddr < end
        invariant address / PAGE <= vaddr <= end
        invariant Covered(memory, address / PAGE, vaddr)
      {
        if vaddr !in memory { return ENOMEM; }
        vaddr := vaddr + 1;
      }
      return OK;
    }

    method Munmap(address: nat, size: nat) returns (status: Status)
      requires Valid()
      modifies this`memory, this`backings, table, epochs
      ensures Valid()
      ensures status == OK
              <==> PlainRange(address, size) && Covered(old(memory), address / PAGE, (address + size) / PAGE)
      ensures status == OK ==> memory == Without(old(memory), address / PAGE, (address + size) / PAGE)
      ensures status == OK ==>
                && (forall k :: k in memory <==>
                      k in old(memory) && (k < address / 0x1000 || (address + size) / 0x1000 <= k))
                && (forall k :: k in memory ==> memory[k] == old(memory)[k])
      ensures status != OK ==> memory == old(memory) && backings == old(backings)
      ensures OnlyCountsDiffer(backings, old(backings))
    {
      hide Inv, IsRun, AllAgree;
      status := ValidateMunmapRange(address, size);
      if status != OK { return; }
      var first, end := address / PAGE, (address + size) / PAGE;
      var vaddr := first;
      while vaddr < end
        invariant first <= vaddr <= end
        invariant Mid(multiset{}) && AllAgree()
        invariant memory == Without(old(memory), first, vaddr)
        invariant OnlyCountsDiffer(backings, old(backings))
      {
        WithoutNext(old(memory), first, vaddr);
        WithdrawPage(vaddr);
        vaddr := vaddr + 1;
      }
    }

    // ----- Reserving page structures ---------------------------------------------------------

    /** Undo a reservation, newest first. */
    method RollbackReservations(reserved: seq<nat>, ghost before: PageMap)
      requires memory == Overlay(before, reserved)
      requires FreshAndDistinct(before, reserved)
      modifies this`memory
      ensures memory == before
    {
      var i := |reserved|;
      assert reserved[..i] == reserved;
      while i > 0
        invariant 0 <= i <= |reserved|
        invariant memory == Overlay(before, reserved[..i])
      {
        i := i - 1;
        assert reserved[..i + 1] == reserved[..i] + [reserved[i]];
        OverlayNext(before, reserved[..i], reserved[i]);
        memory := memory - {reserved[i]};
      }
      OverlayNothing(before);
    }

    /** Give every unmapped page of [first, end) a fresh structure, or none of them. */
    method ReservePages(first: nat, end: nat, budget: nat) returns (ok: bool, reserved: seq<nat>)
      requires first <= end
      modifies this`memory
      ensures !ok ==> memory == old(memory) && budget < end - first
      ensures ok ==> IsMissing(old(memory), first, end, reserved) && FreshAndDistinct(old(memory), reserved)
      ensures ok ==> memory == Overlay(old(memory), reserved)
    {
      reserved := [];
      OverlayNothing(memory);
      var vaddr := first;
      while vaddr < end
        invariant first <= vaddr <= end
        invariant IsMissing(old(memory), first, vaddr, reserved)
        invariant |reserved| <= budget && |reserved| <= vaddr - first
        invariant memory == Overlay(old(memory), reserved)
        invariant FreshAndDistinct(old(memory), reserved)
      {
        if vaddr !in memory {
          if |reserved| == budget {
            RollbackReservations(reserved, old(memory));
            return false, [];
          }
          OverlayNext(old(memory), reserved, vaddr);
          FreshAndDistinctNext(old(memory), reserved, vaddr);
          memory := memory[vaddr := RESERVED];
          reserved := reserved + [vaddr];
        }
        vaddr := vaddr + 1;
      }
      ok := true;
    }

    method Reserve(address: nat, size: nat, fixed: bool, mask: nat, budget: nat)
      returns (status: Status, at: nat, reserved: seq<nat>)
      requires Valid()
      modifies this`memory
      ensures Mid(multiset{}) && AllAgree()
      ensures status == OK ==>
                && Placed(old(memory), address, size, fixed, mask, at)
                && IsMissing(old(memory), at / PAGE, (at + size) / PAGE, reserved)
                && FreshAndDistinct(old(memory), reserved) && memory == Overlay(old(memory), reserved)
      ensures status != OK ==> memory == old(memory)
      ensures status != OK && size / PAGE <= budget ==> Unplaceable(old(memory), address, size, fixed, mask)
    {
      reserved := [];
      status, at := Place(memory, address, size, fixed, mask);
      if status != OK { return; }
      MaskTest(mask);
      PageAligned(at, mask + 1);
      var first, end := at / PAGE, (at + size) / PAGE;
      var ok;
      ok, reserved := ReservePages(first, end, budget);
      if ok { OverlayKeepsStore(old(memory), backings, ram, nextId, multiset{}, reserved); }
      status := if ok then OK else ENOMEM;
    }

    /** Install a run of pages whose references are in hand. */
    method InstallPages(first: nat, pages: seq<Page>)
      requires Mid(HandOf(pages)) && AllAgree()
      requires 0 < first && first + |pages| <= PAGES
      requires forall p :: p in pages ==> PageOk(p, backings, ram)
      modifies this`memory, this`backings, table, epochs
      ensures Mid(multiset{}) && AllAgree()
      ensures memory == WithPages(old(memory), first, pages)
      ensures OnlyCountsDiffer(backings, old(backings))
    {
      hide Mid, AllAgree, PageOk, HandOf, WithPages;
      WithNoPages(memory, first);
      assert pages[..0] == [];
      var i := 0;
      ghost var hand, rest := HandOf(pages), pages;
      while i < |pages|
        invariant 0 <= i <= |pages| && rest == pages[i..] && hand == HandOf(rest)
        invariant Mid(hand) && AllAgree()
        invariant forall p :: p in rest ==> PageOk(p, backings, ram)
        invariant memory == WithPages(old(memory), first, pages[..i])
        invariant OnlyCountsDiffer(backings, old(backings))
      {
        WithPagesNext(old(memory), first, pages, i);
        assert rest[0] == pages[i] && rest[1..] == pages[i + 1..];
        InstallNext(first + i, pages[i], rest);
        hand, rest := HandOf(rest[1..]), rest[1..];
        i := i + 1;
      }
      assert pages[..i] == pages && rest == [];
    }

    /** Install the first of the pages still to be filled in. */
    method InstallNext(k: nat, page: Page, ghost rest: seq<Page>)
      requires rest != [] && rest[0] == page
      requires Mid(HandOf(rest)) && AllAgree()
      requires 0 < k < PAGES
      requires forall p :: p in rest ==> PageOk(p, backings, ram)
      modifies this`memory, this`backings, table, epochs
      ensures Mid(HandOf(rest[1..])) && AllAgree()
      ensures forall p :: p in rest[1..] ==> PageOk(p, backings, ram)
      ensures memory == old(memory)[k := page]
      ensures OnlyCountsDiffer(backings, old(backings))
    {
      hide Inv, AllAgree, PageOk;
      ghost var hand := HandOf(rest[1..]);
      assert HandOf(rest) == hand + InHand(page.backing);
      InstallPage(k, page, hand);
      RemainingPagesOk(rest[1..], backings, old(backings), ram);
    }

    /** A new host mapping owned by `n` pages still to be filled in. */
    method CreateBacking(bytes: seq<byte>, n: nat, protection: Prot) returns (id: BackingId)
      requires Mid(multiset{}) && n > 0
      modifies this`backings, this`ram, this`nextId, epochs
      ensures id == old(nextId) && nextId == id + 1 && id !in old(backings)
      ensures backings == old(backings)[id := Backing(|bytes|, n, protection)]
      ensures ram == old(ram)[Owned(id) := bytes] && Owned(id) !in old(ram)
      ensures Mid(Copies(id, n))
    {
      hide Inv, StoreOk;
      id := nextId;
      CreateKeepsStore(memory, backings, ram, id, bytes, n, protection);
      epochs.NoteCreated(id);
      backings := backings[id := Backing(|bytes|, n, protection)];
      ram := ram[Owned(id) := bytes];
      nextId := id + 1;
    }

    // ----- mmap ------------------------------------------------------------------------------

    /** Whole pages of the 32-bit address space. */
    static ghost predicate PlainRange(address: nat, size: nat) {
      address % 0x1000 == 0 && 0 < size && size % 0x1000 == 0 && address + size <= 0x1_0000_0000
    }

    static predicate MapArgumentsOk(address: nat, size: nat, protection: int) {
      WholePages(address, size) && ProtectionIsValid(protection)
    }

    /** Owned anonymous storage, and executable files the debugger may have to
        patch, are readable and writable to the host whatever the guest asked. */
    static function InitialHostProtection(perms: Prot, size: nat, anonymous: bool, fildes: int, off: nat): Prot {
      HostProtection(perms) +
      (if anonymous || (Exec in perms && fildes != -1 && size > PAGE && off == 0) then {Read, Write} else {})
    }

    /** What the host is asked for: what the guest may do, reading instead of executing, and both
        reading and writing where the debugger or a system call may have to. */
    static ghost predicate OpenedFor(host: Prot, protection: int, always: bool) {
      && (Read in host <==> always || protection !in {0, 2})
      && (Write in host <==> always || protection in {2, 3, 6, 7})
      && Exec !in host
    }

    static lemma InitialIsOpened(protection: int, size: nat, anonymous: bool, fildes: int, off: nat)
      requires ProtectionIsValid(protection)
      ensures OpenedFor(InitialHostProtection(DecodeProtection(protection), size, anonymous, fildes, off), protection,
                anonymous || (protection >= 4 && fildes != -1 && size > 0x1000 && off == 0))
      ensures HostProtection(DecodeProtection(protection))
              <= InitialHostProtection(DecodeProtection(protection), size, anonymous, fildes, off)
    {
      hide DecodeProtection, HostProtection;
      ProtectionMeans(protection);
    }

    lemma NewBackingStays(k: nat, id: BackingId, before: BackingMap)
      requires Mid(multiset{}) && OnlyCountsDiffer(backings, before) && k in memory
      requires memory[k].addr.At? && memory[k].backing == Some(id)
      ensures id in backings && id in before
      ensures backings[id].size == before[id].size && backings[id].hostProtection == before[id].hostProtection
    {
      hide Inv;
      assert PageOk(memory[k], backings, ram);
    }

    /** Put fresh storage behind reserved pages. */
    method MapBacking(ghost before: PageMap, reserved: seq<nat>, at: nat, bytes: seq<byte>, shift: nat, n: nat,
        protection: int, hostProtection: Prot)
      requires Mid(multiset{}) && AllAgree() && memory == Overlay(before, reserved)
      requires forall k :: k in before ==> before[k] != RESERVED
      requires at % PAGE == 0 && 0 < at / PAGE && at / PAGE + n <= PAGES && n > 0
      requires IsMissing(before, at / PAGE, at / PAGE + n, reserved) && |bytes| == shift + n * PAGE
      requires ProtectionIsValid(protection) && HostProtection(DecodeProtection(protection)) <= hostProtection
      modifies this, table, epochs
      ensures Valid() && old(nextId) in backings && Owned(old(nextId)) !in old(ram)
      ensures memory == WithPages(before, at / PAGE, MappedPages(old(nextId), shift, n, DecodeProtection(protection)))
      ensures ram == old(ram)[Owned(old(nextId)) := bytes]
      ensures OnlyCountsDiffer(backings - {old(nextId)}, old(backings))
      ensures IsMapping(memory, before, ram, at, bytes[shift..], protection, Some(old(nextId)))
      ensures backings[old(nextId)].size == |bytes| && backings[old(nextId)].hostProtection == hostProtection
    {
      hide Inv, AllAgree, StoreOk, HandOf, WithPages, Overlay, IsMapping, DecodeProtection, HostProtection;
      var perms := DecodeProtection(protection);
      var id := CreateBacking(bytes, n, hostProtection);
      ghost var created := backings;
      var pages := MappedPages(id, shift, n, perms);
      MappedPagesOk(id, shift, n, perms, backings, ram);
      InstallPages(at / PAGE, pages);
      InstalledRun(before, reserved, at / PAGE, pages);
      MappedIsMapping(before, ram, at, id, shift, n, protection);
      WithPagesAt(before, at / PAGE, pages);
      assert memory[at / PAGE] == pages[0];
      NewBackingStays(at / PAGE, id, created);
    }

    /** `host` is what the host mapping call delivers (nothing when it fails),
        `budget` how many page structures and `structOk` whether the backing
        structure can be allocated. */
    method Mmap(address: nat, size: nat, protection: int, fixed: bool, anonymous: bool, fildes: int, off: nat,
                mask: nat, purgable: bool, host: Option<seq<byte>>, budget: nat, structOk: bool)
      returns (status: Status, mapped: nat)
      requires Valid()
      requires host.Some? ==> |host.value| == size + off % HOST_PAGE
      modifies this, table, epochs
      ensures Valid()
      ensures status == OK ==>
                && PlainRange(address, size) && 0 <= protection <= 7 && host.Some? && structOk
                && (purgable ==> anonymous && fildes == -1 && off < 0x4000)
                && Placed(old(memory), address, size, fixed, mask, mapped)
                && memory == WithPages(old(memory), mapped / PAGE,
                     MappedPages(old(nextId), off % HOST_PAGE, size / PAGE, DecodeProtection(protection)))
                && ram == old(ram)[Owned(old(nextId)) := host.value] && Owned(old(nextId)) !in old(ram)
                && OnlyCountsDiffer(backings - {old(nextId)}, old(backings))
      ensures status == OK ==>
                && IsMapping(memory, old(memory), ram, mapped, host.value[off % 0x4000..], protection,
                     Some(old(nextId)))
                && old(nextId) in backings && backings[old(nextId)].size == size + off % 0x4000
                && OpenedFor(backings[old(nextId)].hostProtection, protection,
                     anonymous || (protection >= 4 && fildes != -1 && size > 0x1000 && off == 0))
      ensures status != OK ==> memory == old(memory) && backings == old(backings) && ram == old(ram)
      ensures status != OK && host.Some? && structOk && size / PAGE <= budget
              && (purgable ==> anonymous && fildes == -1 && off < HOST_PAGE) ==>
                || !(PlainRange(address, size) && 0 <= protection <= 7)
                || Unplaceable(old(memory), address, size, fixed, mask)
    {
      hide Inv, AllAgree, StoreOk, And, Placed, Unplaceable, HandOf, WithPages, Overlay, IsMapping, DecodeProtection,
           OpenedFor, InitialHostProtection, HostProtection;
      mapped := 0;
      if !MapArgumentsOk(address, size, protection) { return EINVAL, mapped; }
      var reserved;
      status, mapped, reserved := Reserve(address, size, fixed, mask, budget);
      if status != OK { return; }
      PlacedPages(old(memory), address, size, fixed, mask, mapped);
      var hostProtection := InitialHostProtection(DecodeProtection(protection), size, anonymous, fildes, off);
      InitialIsOpened(protection, size, anonymous, fildes, off);
      if host.None? || (purgable && (!anonymous || fildes != -1 || off >= HOST_PAGE)) || !structOk {
        RollbackReservations(reserved, old(memory));
        return EHOST, mapped;
      }
      MapBacking(old(memory), reserved, mapped, host.value, off % HOST_PAGE, size / PAGE, protection, hostProtection);
    }

    /** Map host storage that stays the caller's. */
    method DirectMmap(address: nat, size: nat, protection: int, fixed: bool, storage: nat, start: nat, budget: nat)
      returns (status: Status, mapped: nat)
      requires Valid()
      requires Foreign(storage) in ram && start + size <= |ram[Foreign(storage)]|
      modifies this`memory, this`backings, table, epochs
      ensures Valid()
      ensures status == OK ==>
                && PlainRange(address, size) && 0 <= protection <= 7
                && Placed(old(memory), address, size, fixed, PAGE - 1, mapped)
                && memory == WithPages(old(memory), mapped / PAGE,
                     BorrowedPages(storage, start, size / PAGE, DecodeProtection(protection)))
      ensures status == OK ==>
                IsMapping(memory, old(memory), ram, mapped, ram[Foreign(storage)][start..start + size], protection,
                  None)
      ensures status != OK ==> memory == old(memory) && backings == old(backings)
      ensures status != OK && size / PAGE <= budget ==>
                || !(PlainRange(address, size) && 0 <= protection <= 7)
                || Unplaceable(old(memory), address, size, fixed, PAGE - 1)
      ensures OnlyCountsDiffer(backings, old(backings))
    {
      hide Inv, AllAgree, StoreOk, And, Placed, Unplaceable, HandOf, WithPages, Overlay, IsMapping, DecodeProtection,
           OpenedFor, InitialHostProtection, HostProtection;
      mapped := 0;
      if !MapArgumentsOk(address, size, protection) { return EINVAL, mapped; }
      var reserved;
      status, mapped, reserved := Reserve(address, size, fixed, PAGE - 1, budget);
      if status != OK { return; }
      PlacedPages(old(memory), address, size, fixed, PAGE - 1, mapped);
      var pages := BorrowedPages(storage, start, size / PAGE, DecodeProtection(protection));
      BorrowedPagesOk(storage, start, size / PAGE, DecodeProtection(protection), backings, ram);
      InstallPages(mapped / PAGE, pages);
      InstalledRun(old(memory), reserved, mapped / PAGE, pages);
      BorrowedIsMapping(old(memory), ram, mapped, storage, start, size / PAGE, protection);
    }

    // ----- vm_remap ----------------------------------------------------------------------------

    method RetainReference(b: BackingId, ghost hand: multiset<BackingId>)
      requires Mid(hand) && AllAgree() && b in backings
      modifies this`backings
      ensures Mid(hand + multiset{b}) && AllAgree()
      ensures OnlyCountsDiffer(backings, old(backings)) && backings.Keys == old(backings).Keys
    {
      hide Inv;
      RetainKeepsStore(memory, backings, ram, nextId, hand, b);
      backings := Retained(backings, b);
    }

    /** Take a reference for every page before anything can be released. */
    method RetainPages(pages: seq<Page>)
      requires Mid(multiset{}) && AllAgree()
      requires forall p :: p in pages ==> PageOk(p, backings, ram) && p.backing.Some?
      modifies this`backings
      ensures Mid(HandOf(pages)) && AllAgree()
      ensures forall p :: p in pages ==> PageOk(p, backings, ram)
      ensures OnlyCountsDiffer(backings, old(backings)) && backings.Keys == old(backings).Keys
    {
      hide Mid, AllAgree, HandOf;
      var i := 0;
      ghost var hand := multiset{};
      HandOfForeign(pages[..0]);
      while i < |pages|
        invariant 0 <= i <= |pages|
        invariant hand == HandOf(pages[..i])
        invariant Mid(hand) && AllAgree()
        invariant OnlyCountsDiffer(backings, old(backings)) && backings.Keys == old(backings).Keys
      {
        var b := pages[i].backing.value;
        assert pages[i] in pages;
        HandOfAppend(pages[..i], pages[i]);
        assert pages[..i + 1] == pages[..i] + [pages[i]];
        RetainReference(b, hand);
        hand := hand + multiset{b};
        i := i + 1;
      }
      assert pages[..i] == pages;
    }

    /** Copy out the source pages, or say which demand the first bad one misses. */
    method CollectAliases(source: nat, n: nat) returns (kern: Kern, pages: seq<Page>, protection: Prot)
      ensures kern == SUCCESS <==> forall v :: source <= v < source + n ==> v in memory && CanAlias(memory[v])
      ensures kern == SUCCESS ==>
                pages == AliasPages(memory, source, n) && protection == CommonProtection(pages)
      ensures kern in {SUCCESS, INVALID_ADDRESS, NOT_SUPPORTED}
    {
      hide AliasPages, CommonProtection;
      NoAliasPages(memory, source);
      pages, protection := [], {Read, Write, Exec};
      var index := 0;
      while index < n
        invariant 0 <= index <= n
        invariant forall v :: source <= v < source + index ==> v in memory && CanAlias(memory[v])
        invariant pages == AliasPages(memory, source, index) && protection == CommonProtection(pages)
      {
        if source + index !in memory || memory[source + index].addr == Null {
          return INVALID_ADDRESS, pages, protection;
        }
        var page := memory[source + index];
        if page.backing.None? || Exec in page.perms { return NOT_SUPPORTED, pages, protection; }
        AliasPagesNext(memory, source, index);
        pages := pages + [page.(enforceDataPermissions := true)];
        protection := protection * page.perms;
        index := index + 1;
      }
      return SUCCESS, pages, protection;
    }

    method AnyMapped(first: nat, end: nat) returns (r: bool)
      ensures r <==> exists v :: first <= v < end && v in memory
    {
      var v := first;
      while v < end
        invariant forall u :: first <= u < v ==> u !in memory
      {
        if v in memory { return true; }
        v := v + 1;
      }
      return false;
    }

    /** Reserve the destination, retain every source page, then install the aliases. */
    method InstallAliases(request: Remap, pages: seq<Page>, budget: nat) returns (kern: Kern, mapped: nat)
      requires Valid() && request.mask < SPACE && request.Check() == SUCCESS
      requires |pages| == request.Length() / PAGE
      requires forall p :: p in pages ==> PageOk(p, backings, ram) && p.backing.Some?
      modifies this`memory, this`backings, table, epochs
      ensures Valid() && kern in {SUCCESS, NO_SPACE}
      ensures kern == SUCCESS ==>
                && Placed(old(memory), request.Destination(), request.Length(), !request.anywhere, request.Alignment(),
                          mapped)
                && memory == WithPages(old(memory), mapped / PAGE, pages)
      ensures kern != SUCCESS ==> memory == old(memory) && backings == old(backings)
      ensures kern != SUCCESS && |pages| <= budget ==>
                Unplaceable(old(memory), request.Destination(), request.Length(), !request.anywhere,
                            request.Alignment())
      ensures OnlyCountsDiffer(backings, old(backings))
    {
      hide Inv, AllAgree, StoreOk, And, AlignUp, Placed, Unplaceable, HandOf, WithPages, Overlay, Remap.Check,
           Remap.Alignment;
      var size, alignment := request.Length(), request.Alignment();
      var status, reserved;
      status, mapped, reserved := Reserve(request.Destination(), size, !request.anywhere, alignment, budget);
      if status != OK { return NO_SPACE, mapped; }
      PlacedPages(old(memory), request.Destination(), size, !request.anywhere, alignment, mapped);
      RetainPages(pages);
      InstallPages(mapped / PAGE, pages);
      InstalledRun(old(memory), reserved, mapped / PAGE, pages);
      kern := SUCCESS;
    }

    /** The reasons to refuse a remap that has the memory it needs: a bad request, a
        source page that is missing or cannot be aliased, an occupied destination that
        may not be overwritten, or no room. */
    static ghost predicate Refused(before: PageMap, request: Remap) {
      var source, destination, n := request.source / PAGE, request.Destination() / PAGE, request.Length() / PAGE;
      || request.Check() != SUCCESS
      || (exists v :: source <= v < source + n && (v !in before || !CanAlias(before[v])))
      || (!request.anywhere && !request.overwrite && exists v :: destination <= v < destination + n && v in before)
      || Unplaceable(before, request.Destination(), request.Length(), !request.anywhere, request.Alignment())
    }

    method VmRemap(request: Remap, budget: nat) returns (kern: Kern, mapped: nat, protection: Prot)
      requires Valid()
      requires request.address < SPACE && request.size < SPACE && request.mask < SPACE && request.source < SPACE
      modifies this`memory, this`backings, table, epochs
      ensures Valid()
      ensures kern == SUCCESS ==>
                var source, n := request.source / PAGE, request.Length() / PAGE;
                && request.Check() == SUCCESS
                && (forall v :: source <= v < source + n ==> v in old(memory) && CanAlias(old(memory)[v]))
                && Placed(old(memory), request.Destination(), request.Length(), !request.anywhere, request.Alignment(),
                          mapped)
                && (!request.anywhere ==> mapped == request.Destination())
                && (!request.overwrite ==> Free(old(memory), mapped, request.Length()))
                && memory == WithPages(old(memory), mapped / PAGE, AliasPages(old(memory), source, n))
                && protection == CommonProtection(AliasPages(old(memory), source, n))
      ensures kern != SUCCESS ==> memory == old(memory) && backings == old(backings)
      ensures kern != SUCCESS && request.Length() / PAGE <= budget ==> Refused(old(memory), request)
      ensures OnlyCountsDiffer(backings, old(backings))
    {
      hide Inv, IsRun, AllAgree, Entry, And, AlignUp, HandOf, WithPages, Placed, Unplaceable, Means, CommonProtection;
      mapped, protection := 0, {};
      kern := request.Check();
      if kern != SUCCESS { return; }
      request.Checked();
      var source, n := request.source / PAGE, request.Length() / PAGE;
      var pages;
      kern, pages, protection := CollectAliases(source, n);
      if kern != SUCCESS { return; }
      AliasPagesOk(memory, backings, ram, nextId, source, n);
      var destination := request.Destination() / PAGE;
      if !request.anywhere && !request.overwrite {
        var occupied := AnyMapped(destination, destination + n);
        if occupied { return NO_SPACE, mapped, protection; }
        UnmappedIsFree(memory, request.Destination(), n);
      }
      kern, mapped := InstallAliases(request, pages, budget);
      if kern == SUCCESS { request.WhereItLands(old(memory), mapped); }
    }

    // ----- mprotect ------------------------------------------------------------------------------

    /** Fast pointers of [first, end) are withdrawn; the others mirror the map. */
    ghost predicate Withdrawn(first: nat, end: nat)
      reads this`memory, table
    {
      forall i :: 0 <= i < table.Length ==> table[i] == if first <= i < end then Null else Entry(memory, i)
    }

    method WithdrawRange(first: nat, end: nat)
      requires Mid(multiset{}) && AllAgree() && first <= end
      modifies table, epochs
      ensures Mid(multiset{}) && Withdrawn(first, end)
    {
      hide Core;
      var v := first;
      while v < end
        invariant first <= v <= end
        invariant Mid(multiset{}) && Withdrawn(first, v)
      {
        StoreEntry(v, Null, multiset{});
        v := v + 1;
      }
    }

    method RepublishRange(first: nat, end: nat)
      requires Mid(multiset{}) && Withdrawn(first, end) && Covered(memory, first, end) && first <= end
      modifies table, epochs
      ensures Mid(multiset{}) && AllAgree()
    {
      hide Inv;
      var v := first;
      while v < end
        invariant first <= v <= end
        invariant Mid(multiset{}) && Withdrawn(v, end)
      {
        StoreEntry(v, TablePointer(memory[v]), multiset{});
        v := v + 1;
      }
    }

    /** The distinct backings of a range, in the order they are met. */
    method CollectBackings(first: nat, end: nat) returns (ok: bool, ids: seq<BackingId>)
      requires first <= end
      ensures ok <==> Covered(memory, first, end)
      ensures ok ==> forall b ::
                       b in ids <==> exists v :: first <= v < end && v in memory && memory[v].backing == Some(b)
      ensures |ids| <= end - first
    {
      ids := [];
      var v := first;
      while v < end
        invariant first <= v <= end && Covered(memory, first, v) && |ids| <= v - first
        invariant forall b :: b in ids <==> exists u :: first <= u < v && u in memory && memory[u].backing == Some(b)
      {
        if v !in memory { return false, ids; }
        var b := memory[v].backing;
        if b.Some? && b.value !in ids { ids := ids + [b.value]; }
        v := v + 1;
      }
      ok := true;
    }

    method WidenBacking(b: BackingId, extra: Prot)
      requires Mid(multiset{}) && b in backings
      modifies this`backings
      ensures Mid(multiset{}) && backings == Widened(old(backings), b, extra)
    {
      hide Inv;
      WidenKeepsStore(memory, backings, ram, nextId, multiset{}, b, extra);
      backings := Widened(backings, b, extra);
    }

    /** Widen the host protection of each backing until the host refuses. */
    method WidenBackings(ids: seq<BackingId>, extra: Prot, refusedAt: nat) returns (ok: bool)
      requires Mid(multiset{}) && forall b :: b in ids ==> b in backings
      modifies this`backings
      ensures Mid(multiset{}) && OnlyWidened(backings, old(backings), extra)
      ensures ok ==> forall b :: b in ids ==> extra <= backings[b].hostProtection
      ensures !ok ==> refusedAt < |ids|
    {
      hide Mid;
      var i := 0;
      while i < |ids|
        invariant 0 <= i <= |ids|
        invariant Mid(multiset{}) && OnlyWidened(backings, old(backings), extra)
        invariant forall j :: 0 <= j < i ==> extra <= backings[ids[j]].hostProtection
      {
        var b := ids[i];
        if backings[b].hostProtection + extra != backings[b].hostProtection {
          if i == refusedAt { return false; }
          WidenBacking(b, extra);
        }
        i := i + 1;
      }
      ok := true;
    }

    /** Rewrite one withdrawn page in place and publish it again. */
    method RewritePage(k: nat, page: Page, ghost end: nat)
      requires Mid(multiset{}) && Withdrawn(k, end) && k < end
      requires k in memory && page.backing == memory[k].backing && PageOk(page, backings, ram)
      modifies this`memory, table, epochs
      ensures Mid(multiset{}) && Withdrawn(k + 1, end)
      ensures memory == old(memory)[k := page]
    {
      hide Inv;
      RewriteKeepsStore(memory, backings, ram, nextId, multiset{}, k, page);
      memory := memory[k := page];
      StoreEntry(k, TablePointer(page), multiset{});
    }

    method SetProtection(first: nat, end: nat, perms: Prot)
      requires Mid(multiset{}) && Withdrawn(first, end) && Covered(memory, first, end) && first < end
      requires forall v :: first <= v < end ==>
                PageOk(memory[v].(perms := perms, enforceDataPermissions := true), backings, ram)
      modifies this`memory, table, epochs
      ensures Mid(multiset{}) && AllAgree()
      ensures memory == WithProtection(old(memory), first, end, perms)
    {
      hide Core, PageOk;
      WithProtectionNext(memory, first, first, perms);
      var v := first;
      while v < end
        invariant first <= v <= end
        invariant Mid(multiset{}) && Withdrawn(v, end)
        invariant memory == WithProtection(old(memory), first, v, perms)
      {
        WithProtectionNext(old(memory), first, v, perms);
        RewritePage(v, memory[v].(perms := perms, enforceDataPermissions := true), end);
        v := v + 1;
      }
    }

    method Mprotect(address: nat, size: nat, protection: int, refusedAt: nat) returns (status: Status)
      requires Valid()
      modifies this`memory, this`backings, table, epochs
      ensures Valid()
      ensures status == OK ==>
                memory == WithProtection(old(memory), address / PAGE, (address + size) / PAGE,
                                         DecodeProtection(protection))
      ensures status == OK ==>
                Reprotected(memory, old(memory), address / 0x1000, (address + size) / 0x1000, protection)
      ensures status != OK ==> memory == old(memory)
      ensures status in {EINVAL, ENOMEM} <==>
                !(&& PlainRange(address, size) && 0 <= protection <= 7
                  && Covered(old(memory), address / PAGE, (address + size) / PAGE))
      ensures status in {OK, EINVAL, ENOMEM} || (status == EHOST && refusedAt < size / PAGE)
      ensures OnlyWidened(backings, old(backings), HostProtection(DecodeProtection(protection)))
    {
      hide Inv, AllAgree, Withdrawn;
      if !MapArgumentsOk(address, size, protection) { return EINVAL; }
      var first, end := address / PAGE, (address + size) / PAGE;
      var perms := DecodeProtection(protection);
      var covered, ids := CollectBackings(first, end);
      if !covered { return ENOMEM; }
      WithdrawRange(first, end);
      var widened := WidenBackings(ids, HostProtection(perms), refusedAt);
      if !widened {
        RepublishRange(first, end);
        return EHOST;
      }
      SetProtection(first, end, perms);
      WithProtectionIs(old(memory), first, end, protection);
      status := OK;
    }

    // ----- Private replacement -----------------------------------------------------------------------

    /** Move one withdrawn page to its new storage and release the old one. */
    method SwapPage(k: nat, page: Page, ghost rest: multiset<BackingId>, ghost first: nat, ghost end: nat)
      requires Mid(rest + InHand(page.backing)) && Withdrawn(first, end)
      requires 0 < k < PAGES && first <= k < end && PageOk(page, backings, ram)
      modifies this`memory, this`backings, epochs
      ensures Mid(rest) && Withdrawn(first, end)
      ensures memory == old(memory)[k := page]
      ensures OnlyCountsDiffer(backings, old(backings))
    {
      hide Inv, IsRun, StoreOk;
      var previous := BackingAt(memory, k);
      PutKeepsStore(memory, backings, ram, nextId, rest, k, page);
      memory := memory[k := page];
      ReleaseReference(previous, rest);
    }

    method SwapNext(k: nat, page: Page, ghost rest: seq<Page>, ghost first: nat, ghost end: nat)
      requires rest != [] && rest[0] == page
      requires Mid(HandOf(rest)) && Withdrawn(first, end)
      requires 0 < k < PAGES && first <= k < end
      requires forall p :: p in rest ==> PageOk(p, backings, ram)
      modifies this`memory, this`backings, epochs
      ensures Mid(HandOf(rest[1..])) && Withdrawn(first, end)
      ensures forall p :: p in rest[1..] ==> PageOk(p, backings, ram)
      ensures memory == old(memory)[k := page]
      ensures OnlyCountsDiffer(backings, old(backings))
    {
      hide Mid, Withdrawn, PageOk, OnlyCountsDiffer;
      ghost var hand := HandOf(rest[1..]);
      assert HandOf(rest) == hand + InHand(page.backing);
      SwapPage(k, page, hand, first, end);
      HandIsLive(hand);
      RemainingPagesOk(rest[1..], backings, old(backings), ram);
    }

    lemma HandIsLive(hand: multiset<BackingId>)
      requires Mid(hand)
      ensures forall b :: b in hand ==> b in backings
    {
      hide Inv;
    }

    method SwapPages(first: nat, pages: seq<Page>)
      requires Mid(HandOf(pages)) && Withdrawn(first, first + |pages|)
      requires 0 < first && first + |pages| <= PAGES
      requires forall p :: p in pages ==> PageOk(p, backings, ram)
      modifies this`memory, this`backings, epochs
      ensures Mid(multiset{}) && Withdrawn(first, first + |pages|)
      ensures memory == WithPages(old(memory), first, pages)
      ensures OnlyCountsDiffer(backings, old(backings))
    {
      hide Mid, Withdrawn, PageOk, HandOf, WithPages;
      WithNoPages(memory, first);
      assert pages[..0] == [];
      var i := 0;
      ghost var hand, rest := HandOf(pages), pages;
      while i < |pages|
        invariant 0 <= i <= |pages| && rest == pages[i..] && hand == HandOf(rest)
        invariant Mid(hand) && Withdrawn(first, first + |pages|)
        invariant forall p :: p in rest ==> PageOk(p, backings, ram)
        invariant memory == WithPages(old(memory), first, pages[..i])
        invariant OnlyCountsDiffer(backings, old(backings))
      {
        WithPagesNext(old(memory), first, pages, i);
        assert rest[0] == pages[i] && rest[1..] == pages[i + 1..];
        SwapNext(first + i, pages[i], rest, first, first + |pages|);
        hand, rest := HandOf(rest[1..]), rest[1..];
        i := i + 1;
      }
      assert pages[..i] == pages && rest == [];
    }

    /** Bytes of page `k` are to be kept but the host may not read them. */
    static ghost predicate TailUnreadable(memory: PageMap, backings: BackingMap, k: nat, kept: int) {
      && kept > 0 && k in memory && memory[k].backing.Some? && memory[k].backing.value in backings
      && Read !in backings[memory[k].backing.value].hostProtection
    }

    /** Every page is there, and the tail of a partly replaced one can be read. */
    method ValidateReplacement(first: nat, n: nat, size: nat) returns (status: Status)
      requires Valid() && 0 < size <= n * PAGE && (n - 1) * PAGE < size
      ensures status in {OK, EFAULT, EACCES}
      ensures status == EFAULT ==> !Covered(memory, first, first + n)
      ensures status == OK ==>
                Covered(memory, first, first + n) && !TailUnreadable(memory, backings, first + n - 1, n * PAGE - size)
      ensures status == EACCES ==> TailUnreadable(memory, backings, first + n - 1, n * PAGE - size)
    {
      var i := 0;
      while i < n
        invariant 0 <= i <= n && Covered(memory, first, first + i)
        invariant i == n ==> !TailUnreadable(memory, backings, first + n - 1, n * PAGE - size)
      {
        if first + i !in memory || memory[first + i].addr == Null {
          return EFAULT;
        }
        var page := memory[first + i];
        if size - i * PAGE < PAGE && page.backing.Some? && page.backing.value in backings
           && Read !in backings[page.backing.value].hostProtection {
          return EACCES;
        }
        i := i + 1;
      }
      return OK;
    }

    lemma MappedPageIsOk(k: nat)
      requires Valid() && k in memory
      ensures 0 < k < PAGES && PageOk(memory[k], backings, ram)
    {
    }

    method ReplaceWithPrivateCopy(address: nat, source: seq<byte>, hostOk: bool,
        structOk: bool) returns (status: Status)
      requires Valid() && address < SPACE
      modifies this, table, epochs
      ensures Valid()
      ensures status == OK && source != [] ==>
                var first, n := address / PAGE, AlignUp(|source|, PAGE) / PAGE;
                && address % PAGE == 0 && n > 0 && RangeIsValid(address, |source|)
                && Covered(old(memory), first, first + n)
                && memory == WithPages(old(memory), first, PrivatePages(old(memory), first, n, old(nextId)))
                && Owned(old(nextId)) !in old(ram)
                && PageOk(old(memory)[first + n - 1], old(backings), old(ram))
                && ram == old(ram)[Owned(old(nextId)) :=
                     source + PageBytes(old(memory)[first + n - 1], old(ram))[|source| - (n - 1) * PAGE..]]
      ensures status == OK && source != [] ==>
                IsReplacement(memory, ram, old(memory), old(ram), address, source)
      ensures status != OK || source == [] ==> memory == old(memory) && backings == old(backings) && ram == old(ram)
      ensures source == [] ==> status == OK
      ensures hostOk && structOk && source != [] ==>
                var first, n := address / PAGE, AlignUp(|source|, PAGE) / PAGE;
                (status == OK <==>
                  && address % PAGE == 0 && RangeIsValid(address, |source|) && Covered(old(memory), first, first + n)
                  && !TailUnreadable(old(memory), old(backings), first + n - 1, n * PAGE - |source|))
    {
      hide Valid, HandOf, WithPages, TailUnreadable, PrivatePages, AlignUp, RangeIsValid, IsReplacement, PagesInRam;
      if source == [] { return OK; }
      var size := |source|;
      if address % PAGE != 0 || !RangeIsValid(address, size) { return EINVAL; }
      var first, n := address / PAGE, AlignUp(size, PAGE) / PAGE;
      PagesTouched(address, size);
      status := ValidateReplacement(first, n, size);
      if status != OK { return; }
      if !hostOk || !structOk { return EHOST; }
      MappedPageIsOk(first);
      MappedPageIsOk(first + n - 1);
      var tail := PageBytes(memory[first + n - 1], ram)[size - (n - 1) * PAGE..];
      PagesAreInRam();
      MoveToPrivate(first, n, source + tail);
      PrivateIsReplacement(old(memory), old(ram), ram, first, n, old(nextId), source);
      status := OK;
    }

    /** Build the private backing, withdraw, swap, republish. */
    method MoveToPrivate(first: nat, n: nat, bytes: seq<byte>)
      requires Valid() && 0 < first && 0 < n && first + n <= PAGES
      requires Covered(memory, first, first + n) && |bytes| == n * PAGE
      modifies this, table, epochs
      ensures Valid()
      ensures memory == WithPages(old(memory), first, PrivatePages(old(memory), first, n, old(nextId)))
      ensures ram == old(ram)[Owned(old(nextId)) := bytes] && Owned(old(nextId)) !in old(ram)
    {
      hide Inv, AllAgree, Withdrawn, HandOf, WithPages, Core, PageOk;
      WithdrawRange(first, first + n);
      var id := CreateBacking(bytes, n, {Read, Write});
      var pages := PrivatePages(memory, first, n, id);
      PrivatePagesOk(memory, first, n, id, backings, ram);
      SwapPages(first, pages);
      WithPagesAt(old(memory), first, pages);
      RepublishRange(first, first + n);
    }

    // ----- Shutdown --------------------------------------------------------------------------------------

    /** Release every page once no guest thread is left.  The page table is not
        cleared, but nobody can read it any more. */
    method Destroy()
      requires Valid() && epochs.participants == map[]
      modifies this, epochs
      ensures memory == map[] && backings == map[] && epochs.retired == []
      ensures nextId == old(nextId) && forall b: BackingId :: b < nextId <==> b in epochs.unmapped
      ensures NoRepeats(epochs.unmapped)
    {
      hide Inv;
      var k := 0;
      while k < PAGES
        invariant 0 <= k <= PAGES
        invariant Core(multiset{}) && epochs.participants == map[] && nextId == old(nextId)
        invariant forall j :: j in memory ==> k <= j < PAGES
      {
        if k in memory { ReleaseAtShutdown(k); }
        k := k + 1;
      }
      NoKeys(memory);
      NothingLeft();
    }

    method ReleaseAtShutdown(k: nat)
      requires Core(multiset{}) && k in memory
      modifies this`memory, this`backings, epochs
      ensures Core(multiset{}) && epochs.participants == old(epochs.participants)
      ensures memory == old(memory) - {k}
    {
      hide Inv;
      var previous := memory[k].backing;
      DeleteKeepsStore(memory, backings, ram, nextId, multiset{}, k);
      memory := memory - {k};
      if previous.Some? {
        DropReference(previous.value, multiset{});
      }
    }

    lemma NothingLeft()
      requires Core(multiset{}) && memory == map[] && epochs.participants == map[]
      ensures backings == map[] && epochs.retired == []
      ensures forall b: BackingId :: b < nextId <==> b in epochs.unmapped
      ensures NoRepeats(epochs.unmapped)
    {
      assert forall b :: PagesOn(memory, b) == {};
      NoKeys(backings);
      if epochs.retired != [] { RetiredNeedsParticipant(epochs.State()); }
      forall b: BackingId ensures b < nextId <==> b in epochs.unmapped {
        assert b < nextId <==> b in backings || Dead(epochs.State(), b);
      }
    }

    // ----- Bytes -------------------------------------------------------------------------------------------

    /** The fast table first, then the map. */
    method GetMemoryPage(k: nat) returns (p: HostPtr)
      requires AllAgree()
      ensures p == if k in memory then memory[k].addr else Null
    {
      if 0 <= k < table.Length && table[k] != Null { return table[k]; }
      if k !in memory { return Null; }
      return memory[k].addr;
    }

    /** The fast table leads to a page exactly if it is mapped and, where its data permissions
        are enforced, may be both read and written. */
    lemma FastPathIff(k: nat)
      requires Valid() && k < table.Length
      ensures table[k].At? <==>
              && k in memory
              && (memory[k].enforceDataPermissions ==> Read in memory[k].perms && Write in memory[k].perms)
      ensures table[k].At? ==> table[k] == memory[k].addr
    {
      hide Inv;
      if k in memory { MappedPageIsOk(k); }
    }

    lemma PagesAreInRam()
      requires Valid()
      ensures PagesInRam(memory, ram)
    {
    }

    /** The page-chunked read. */
    method MemRead(address: nat, size: nat) returns (ok: bool, data: seq<byte>)
      requires Valid()
      ensures ok <==> size == 0 || (RangeIsValid(address, size) && MappedRun(memory, address, size))
      ensures ok ==> |data| == size && forall i :: 0 <= i < size ==>
                GuestByte(memory, ram, address + i) == Some(data[i])
    {
      hide GuestByte, Core, Inv;
      data := [];
      if size == 0 { return true, data; }
      if !RangeIsValid(address, size) { return false, data; }
      var end := address + size;
      var at := address;
      while at < end
        invariant address <= at <= end && |data| == at - address
        invariant MappedRun(memory, address, at - address)
        invariant forall i :: 0 <= i < |data| ==> GuestByte(memory, ram, address + i) == Some(data[i])
        decreases end - at
      {
        var p := GetMemoryPage(at / PAGE);
        if p == Null {
          assert !Cell(memory, at).At?;
          return false, data;
        }
        var stop := if at / PAGE * PAGE + PAGE <= end then at / PAGE * PAGE + PAGE else end;
        ChunkIsThere(at, stop);
        var start := p.offset + at % PAGE;
        data := data + ram[p.region][start..start + (stop - at)];
        at := stop;
      }
      ok := true;
    }

    /** The guest bytes up to the end of a mapped page lie in one piece of storage. */
    lemma ChunkIsThere(at: nat, stop: nat)
      requires Valid() && at / PAGE in memory && at <= stop <= at / PAGE * PAGE + PAGE
      ensures var p := memory[at / PAGE].addr;
        && p.At? && p.region in ram && p.offset + at % PAGE + (stop - at) <= |ram[p.region]|
        && (forall x :: at <= x < stop ==>
                && Cell(memory, x).At?
                && GuestByte(memory, ram, x) == Some(ram[p.region][p.offset + at % PAGE + (x - at)]))
    {
      MappedPageIsOk(at / PAGE);
      forall x | at <= x < stop
        ensures var p := memory[at / PAGE].addr; Cell(memory, x) == At(p.region, p.offset + at % PAGE + (x - at))
      {
        CellInPage(memory, at, x - at);
      }
    }

    /** The page-chunked copy loop of a write. */
    method WriteRun(address: nat, source: seq<byte>) returns (ok: bool)
      requires AllAgree() && PagesInRam(memory, ram)
      modifies this`ram
      ensures ok <==> MappedRun(memory, address, |source|)
      ensures ram == WriteBytes(memory, old(ram), address, source[..MappedPart(memory, address, |source|)])
    {
      hide AllAgree, WriteBytes;
      var end := address + |source|;
      var at := address;
      WriteNothing(memory, ram, address);
      assert source[..0] == [];
      while at < end
        invariant address <= at <= end
        invariant MappedRun(memory, address, at - address)
        invariant ram == WriteBytes(memory, old(ram), address, source[..at - address])
        decreases end - at
      {
        var p := GetMemoryPage(at / PAGE);
        if p == Null {
          assert !Cell(memory, at).At?;
          MappedPartIs(memory, address, |source|, at - address);
          return false;
        }
        var stop := if at / PAGE * PAGE + PAGE <= end then at / PAGE * PAGE + PAGE else end;
        var done := at - address;
        var chunk := source[done..stop - address];
        ChunkIsBytes(memory, old(ram), address, source[..done], chunk);
        assert source[..done] + chunk == source[..stop - address];
        ram := Splice(ram, At(p.region, p.offset + at % PAGE), chunk);
        forall x | at <= x < stop ensures Cell(memory, x).At? { CellInPage(memory, at, x - at); }
        at := stop;
      }
      MappedPartIs(memory, address, |source|, |source|);
      ok := true;
    }

    /** The page-chunked write; a hole stops it after the bytes before the hole. */
    method MemWrite(address: nat, source: seq<byte>) returns (ok: bool)
      requires Valid()
      modifies this`ram
      ensures Valid()
      ensures ok <==> source == [] || (RangeIsValid(address, |source|) && MappedRun(memory, address, |source|))
      ensures ram == if source == [] || !RangeIsValid(address, |source|) then old(ram)
                     else WriteBytes(memory, old(ram), address, source[..MappedPart(memory, address, |source|)])
    {
      hide Inv, AllAgree, WriteBytes, MappedPart;
      PagesAreInRam();
      if source == [] { return true; }
      if !RangeIsValid(address, |source|) { return false; }
      ok := WriteRun(address, source);
      WriteKeepsShape(memory, old(ram), address, source[..MappedPart(memory, address, |source|)]);
      ReshapeKeepsStore(memory, backings, old(ram), ram, nextId, multiset{});
    }
  }
}
