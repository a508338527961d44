/** Physical pages and user address spaces: kalloc.c and the page table code of vm.c. Virtual and
    physical memory is counted in pages; sizes are in bytes, as in the source. */
module Vm {
  import opened Common
  import opened Counting
  import opened PageTables

  const PGSIZE := 4096
  const KERNBASE := 0x8000_0000

  type Page = s: seq<bv8> | |s| == PGSIZE witness seq(PGSIZE, i => 0)

  function ZeroPage(): Page {
    seq(PGSIZE, i => 0)
  }

  /** PGROUNDUP, as a number of pages. */
  function Pages(sz: nat): nat {
    (sz + PGSIZE - 1) / PGSIZE
  }

  ghost function Elements(s: seq<nat>): set<nat> {
    set p | p in s
  }

  class Machine {
    const first: nat           // the physical pages that may be allocated: first <= p < last
    const last: nat
    var freelist: seq<nat>     // kmem.freelist, the head first
    var mem: Frames            // the pages that are page directories and page tables
    var data: seq<Page>        // the contents of the pages that processes see

    constructor (first: nat, last: nat, data: seq<Page>)
      requires 0 < first <= last == |data|
      ensures this.first == first && this.last == last && freelist == [] && mem == map[] && this.data == data
      ensures Free()
    {
      this.first, this.last, this.data, freelist, mem := first, last, data, [], map[];
    }

    ghost predicate Free()
      reads this
    {
      0 < first && |data| == last && NoRepeat(freelist) && Listed()
    }

    ghost predicate Listed()
      reads this
    {
      forall p | p in freelist :: first <= p < last
    }

    /** Directory d is sound, and none of its pages is free. */
    ghost predicate Space(d: nat, owner: Owner)
      reads this
    {
      Free() && Owns(mem, d, owner) && forall p | p in owner :: p !in freelist && first <= p < last
    }

    /** Pages only move between the free list, the address space and the caller's hands, and no page
        in use elsewhere is written. */
    twostate predicate Conserves(owner: Owner, held: set<nat>, owner': Owner, held': set<nat>)
      reads this
    {
      Moves(Pool(old(freelist), owner, held), Pool(freelist, owner', held'), old(mem), mem)
    }

    /** kfree: false is the panic for a page that is not one of the allocatable ones. A page that is
        free already is not noticed, and then it is on the list twice. */
    method Kfree(p: nat) returns (ok: bool)
      requires Listed()
      modifies `freelist, `mem
      ensures ok <==> first <= p < last
      ensures Listed() && (old(Free()) ==> (Free() <==> !ok || p !in old(freelist)))
      ensures ok ==> freelist == [p] + old(freelist) && mem == old(mem) - {p}
      ensures !ok ==> freelist == old(freelist) && mem == old(mem)
    {
      if p < first || p >= last {
        return false;
      }
      mem := mem - {p};
      freelist := [p] + freelist;
      if p in old(freelist) {
        ghost var k :| 0 <= k < |old(freelist)| && old(freelist)[k] == p;
        assert freelist[k + 1] == p == freelist[0];
      }
      return true;
    }

    /** kalloc: the head of the free list, if there is one. */
    method Kalloc() returns (r: Option<nat>)
      requires Listed()
      modifies `freelist
      ensures Listed() && (old(Free()) ==> Free())
      ensures r.None? <==> old(freelist) == []
      ensures r.None? ==> freelist == []
      ensures r.Some? ==> r.value == old(freelist)[0] && freelist == old(freelist)[1..]
      ensures r.Some? ==> r.value in old(freelist) && first <= r.value < last && (old(Free()) ==> r.value !in freelist)
      ensures r.Some? ==> Elements(old(freelist)) == Elements(freelist) + {r.value}
    {
      if freelist == [] {
        return None;
      }
      r := Some(freelist[0]);
      assert freelist == [freelist[0]] + freelist[1..];
      assert forall p | p in freelist[1..] :: p in freelist;
      freelist := freelist[1..];
    }

    /** freerange: every whole page between the two addresses becomes free. */
    method FreeRange(vstart: nat, vend: nat)
      requires Free() && first <= Pages(vstart) && vend <= last * PGSIZE
      requires forall p: nat | Pages(vstart) <= p < vend / PGSIZE :: p !in freelist
      modifies `freelist, `mem
      ensures Free()
      ensures forall p: nat :: p in freelist <==> p in old(freelist) || Pages(vstart) <= p < vend / PGSIZE
    {
      var p := Pages(vstart);
      while (p + 1) * PGSIZE <= vend
        invariant Free() && Pages(vstart) <= p && (p <= vend / PGSIZE || p == Pages(vstart))
        invariant forall q: nat :: q in freelist <==> q in old(freelist) || Pages(vstart) <= q < p
        decreases vend / PGSIZE - p
      {
        var ok := Kfree(p);
        p := p + 1;
      }
    }

    /** walkpgdir: the page table for virtual page a, made if it is missing and alloc says so.
        Nothing that is mapped changes. */
    method Walk(d: nat, a: nat, alloc: bool, ghost owner: Owner) returns (r: Option<nat>, ghost owner': Owner)
      requires Space(d, owner) && a < NPAGES
      modifies `freelist, `mem
      ensures Space(d, owner') && Conserves(owner, {}, owner', {})
      ensures r.None? <==> !old(mem)[d][Pdx(a)].present && (!alloc || old(freelist) == [])
      ensures r.None? ==> mem == old(mem) && freelist == old(freelist) && owner' == owner
      ensures !alloc || old(mem)[d][Pdx(a)].present ==> mem == old(mem) && owner' == owner && freelist == old(freelist)
      ensures r.Some? ==> mem[d][Pdx(a)].present && mem[d][Pdx(a)].page == r.value && IsTable(mem, r.value)
      ensures forall b: nat :: Lookup(mem, d, b) == Lookup(old(mem), d, b)
      ensures owner.Keys <= owner'.Keys && forall p | p in owner :: owner'[p] == owner[p]
      ensures forall p | p in owner' && p !in owner :: owner'[p].Table? && p in old(freelist)
      ensures Elements(freelist) <= Elements(old(freelist))
      ensures Counted(|old(freelist)|, |freelist|, old(mem), mem, d, if r.Some? then {Pdx(a)} else {}, 0)
    {
      hide Lookup, Owns, Counted, Moves, Pool, Elements;
      OwnsTable(mem, d, owner, a);
      CountedNone(mem, d, Pdx(a), |freelist|);
      MovesNone(Pool(freelist, owner, {}), mem);
      owner' := owner;
      if mem[d][Pdx(a)].present {
        return Some(mem[d][Pdx(a)].page), owner;
      }
      if !alloc {
        return None, owner;
      }
      var t := Kalloc();
      if t.None? {
        return None, owner;
      }
      AddTable(mem, d, owner, Pdx(a), t.value);
      CountedTable(mem, d, Pdx(a), t.value, Pte(t.value, true, true, true), |freelist|);
      TableTaken(old(freelist), freelist, owner, mem, d, Pdx(a), t.value,
                 mem[d][Pdx(a) := Pte(t.value, true, true, true)]);
      mem := mem[t.value := Cleared()];
      mem := mem[d := mem[d][Pdx(a) := Pte(t.value, true, true, true)]];
      owner' := owner[t.value := Table(Pdx(a))];
      r := t;
    }

    /** *pte = e, for the entry of virtual page a in page table t. */
    method SetEntry(d: nat, t: nat, a: nat, e: Pte)
      requires IsTable(mem, d) && a < NPAGES && mem[d][Pdx(a)].page == t && IsTable(mem, t)
      modifies `mem
      ensures mem == WithEntry(old(mem), d, a, e)
    {
      mem := mem[t := mem[t][Ptx(a) := e]];
    }

    /** mappages of one page in the user part, which nothing is mapped at yet, to a page the caller
        holds. False means there was no memory for a page table; nothing is mapped then. */
    method MapUserPage(d: nat, a: nat, e: Pte, ghost owner: Owner) returns (ok: bool, ghost owner': Owner)
      requires Space(d, owner) && a < KERNPAGE && !Lookup(mem, d, a).present
      requires e.present && e.page !in owner && e.page !in freelist && first <= e.page < last
      modifies `freelist, `mem
      ensures Space(d, owner')
      ensures ok ==> owner'.Keys > owner.Keys && e.page in owner' && owner'[e.page] == User(a)
      ensures Conserves(owner, {e.page}, owner', if ok then {} else {e.page})
      ensures !ok ==> e.page !in owner' && e.page !in freelist
      ensures forall b: nat :: Lookup(mem, d, b) == if ok && b == a then e else Lookup(old(mem), d, b)
      ensures owner.Keys <= owner'.Keys && forall p | p in owner :: owner'[p] == owner[p]
      ensures forall p | p in owner' && p !in owner && p != e.page :: owner'[p].Table?
      ensures Elements(freelist) <= Elements(old(freelist))
      ensures Counted(|old(freelist)|, |freelist|, old(mem), mem, d, if ok then {Pdx(a)} else {}, 0)
      ensures !ok ==> freelist == old(freelist) == [] && mem == old(mem) && Pdx(a) !in TablesIn(mem, d)
    {
      hide Lookup, Owns, WithEntry, TablesIn, Counted, Moves, Pool, Elements;
      OwnsTable(mem, d, owner, a);
      TablesInAt(mem, d, Pdx(a));
      var t;
      t, owner' := Walk(d, a, true, owner);
      HoldsOn(old(freelist), owner, freelist, owner', e.page, old(mem), mem);
      StillOut(old(freelist), freelist, e.page);
      if t.None? {
        return false, owner';
      }
      MapUser(mem, d, owner', a, e);
      WriteEntry(mem, d, owner', a, e);
      OwnsTable(mem, d, owner', a);
      SetEntryFrame(mem, d, a, e);
      CountedSame(|old(freelist)|, |freelist|, old(mem), mem, WithEntry(mem, d, a, e), d, {Pdx(a)}, 0);
      MappedMoves(old(freelist), owner, freelist, owner', e.page, User(a), old(mem), mem, WithEntry(mem, d, a, e),
                  t.value);
      SetEntry(d, t.value, a, e);
      owner' := owner'[e.page := User(a)];
      ok := true;
    }

    /** mappages of one page in the kernel part. */
    method MapKernelPage(d: nat, a: nat, e: Pte, ghost owner: Owner) returns (ok: bool, ghost owner': Owner)
      requires Space(d, owner) && KERNPAGE <= a < NPAGES && !Lookup(mem, d, a).present
      modifies `freelist, `mem
      ensures Space(d, owner') && Conserves(owner, {}, owner', {})
      ensures forall b: nat :: Lookup(mem, d, b) == if ok && b == a then e else Lookup(old(mem), d, b)
      ensures Counted(|old(freelist)|, |freelist|, old(mem), mem, d, if ok then {Pdx(a)} else {}, 0)
      ensures !ok ==> freelist == old(freelist) == [] && mem == old(mem) && Pdx(a) !in TablesIn(mem, d)
    {
      hide Lookup, Owns, WithEntry, TablesIn, Counted, Moves, Pool, Elements;
      OwnsTable(mem, d, owner, a);
      TablesInAt(mem, d, Pdx(a));
      var t;
      t, owner' := Walk(d, a, true, owner);
      if t.None? {
        return false, owner';
      }
      MapKernel(mem, d, owner', a, e);
      WriteEntry(mem, d, owner', a, e);
      OwnsTable(mem, d, owner', a);
      SetEntryFrame(mem, d, a, e);
      CountedSame(|old(freelist)|, |freelist|, old(mem), mem, WithEntry(mem, d, a, e), d, {Pdx(a)}, 0);
      WrittenMoves(Pool(old(freelist), owner, {}), freelist, owner', old(mem), mem, WithEntry(mem, d, a, e), t.value);
      SetEntry(d, t.value, a, e);
      ok := true;
    }

    /** mappages of n pages in the kernel part, which nothing is mapped at yet, to the physical pages
        from pa on. */
    method MapKernelRange(d: nat, va: nat, n: nat, pa: nat, writable: bool, ghost owner: Owner)
      returns (ok: bool, ghost owner': Owner)
      requires Space(d, owner) && KERNPAGE <= va && va + n <= NPAGES
      requires forall b: nat | va <= b < va + n :: !Lookup(mem, d, b).present
      modifies `freelist, `mem
      ensures Space(d, owner') && Conserves(owner, {}, owner', {})
      ensures forall b: nat | !(va <= b < va + n) :: Lookup(mem, d, b) == Lookup(old(mem), d, b)
      ensures ok ==> forall b: nat | va <= b < va + n :: Lookup(mem, d, b) == Pte(pa + (b - va), true, writable, false)
      ensures ok <==> |TablesFor(va, va + n) - TablesIn(old(mem), d)| <= |old(freelist)|
      ensures ok ==> Counted(|old(freelist)|, |freelist|, old(mem), mem, d, TablesFor(va, va + n), 0)
    {
      hide Lookup, Owns, WithEntry, Space, Pool, Moves, TablesIn, TablesFor, Counted;
      owner' := owner;
      MovesNone(Pool(freelist, owner, {}), mem);
      NoTables(va);
      CountedStart(mem, d, |freelist|);
      for i := 0 to n
        invariant Space(d, owner') && Conserves(owner, {}, owner', {})
        invariant Counted(|old(freelist)|, |freelist|, old(mem), mem, d, TablesFor(va, va + i), 0)
        invariant forall b: nat | !(va <= b < va + i) :: Lookup(mem, d, b) == Lookup(old(mem), d, b)
        invariant forall b: nat | va <= b < va + i :: Lookup(mem, d, b) == Pte(pa + (b - va), true, writable, false)
      {
        ghost var pool1, mem1, f1 := Pool(freelist, owner', {}), mem, |freelist|;
        ok, owner' := MapKernelPage(d, va + i, Pte(pa + i, true, writable, false), owner');
        MovesTrans(Pool(old(freelist), owner, {}), pool1, Pool(freelist, owner', {}), old(mem), mem1, mem);
        OneMoreTable(va, va + i);
        if !ok {
          TablesShort(|old(freelist)|, f1, old(mem), mem1, d, va, va + i, va + n, 0, 0);
          return;
        }
        CountedTrans(|old(freelist)|, f1, |freelist|, old(mem), mem1, mem, d, TablesFor(va, va + i), {Pdx(va + i)}, 0,
                     0);
      }
      TablesEnough(|old(freelist)|, |freelist|, old(mem), mem, d, va, va + n, 0);
      ok := true;
    }

    /** Unmap user page a, which is mapped, and free its page. */
    method FreeUserPage(d: nat, t: nat, a: nat, ghost owner: Owner) returns (ok: bool, ghost owner': Owner)
      requires Space(d, owner) && a < KERNPAGE && Lookup(mem, d, a).present
      requires mem[d][Pdx(a)].present && mem[d][Pdx(a)].page == t
      modifies `freelist, `mem
      ensures ok && Space(d, owner') && Conserves(owner, {}, owner', {})
      ensures Lookup(old(mem), d, a).page in owner && owner' == owner - {Lookup(old(mem), d, a).page}
      ensures owner[Lookup(old(mem), d, a).page] == User(a)
      ensures forall b: nat :: Lookup(mem, d, b) == if b == a then NOPTE else Lookup(old(mem), d, b)
      ensures IsTable(mem, d) && mem[d] == old(mem)[d]
    {
      hide Owns, WithEntry;
      UnmapUser(mem, d, owner, a);
      WriteEntry(mem, d, owner, a, NOPTE);
      OwnsTable(mem, d, owner, a);
      SetEntryFrame(mem, d, a, NOPTE);
      ghost var before := mem;
      var p := mem[t][Ptx(a)].page;
      NotATable(mem, d, owner, a);
      ok := Kfree(p);
      owner' := owner - {p};
      SetEntry(d, t, a, NOPTE);
      FreedEntry(before, d, owner, a, p);
      FreeThenClear(before, d, a, p);
    }

    /** deallocuvm: every user page from the one at the new size up to the old size is unmapped and
        freed, and nothing else changes. Where a page table is missing the loop goes on with the
        next one: there is nothing to free in between. */
    method Deallocuvm(d: nat, oldsz: nat, newsz: nat, ghost owner: Owner) returns (r: nat, ghost owner': Owner)
      requires Space(d, owner) && oldsz <= KERNBASE
      modifies `freelist, `mem
      ensures Space(d, owner') && Conserves(owner, {}, owner', {})
      ensures r == if newsz >= oldsz then oldsz else newsz
      ensures newsz >= oldsz ==> owner' == owner && mem == old(mem)
      ensures newsz < oldsz ==>
                && owner' == Dropped(owner, Pages(newsz), Pages(oldsz))
                && Unmapped(old(mem), mem, d, Pages(newsz), Pages(oldsz)) && mem[d] == old(mem)[d]
    {
      hide Owns, WithEntry, Lookup, Dropped, Moves, Pool;
      owner' := owner;
      MovesNone(Pool(freelist, owner, {}), mem);
      if newsz >= oldsz {
        return oldsz, owner;
      }
      ghost var lo, hi := Pages(newsz), Pages(oldsz);
      DroppedNone(owner, lo);
      OwnsTable(mem, d, owner, 0);
      var a := Pages(newsz);
      while a * PGSIZE < oldsz
        invariant lo <= a && Space(d, owner') && Conserves(owner, {}, owner', {})
        invariant IsTable(mem, d) && mem[d] == old(mem)[d]
        invariant owner' == Dropped(owner, lo, a) && Unmapped(old(mem), mem, d, lo, a)
        invariant forall b: nat | hi <= b < a :: !Lookup(old(mem), d, b).present
        decreases NPAGES + NENTRIES - a
      {
        ghost var m, pool1 := mem, Pool(freelist, owner', {});
        DroppedTwice(owner, lo, a);
        var next;
        next, owner' := DeallocStep(d, a, owner');
        UnmappedTwice(old(mem), m, mem, d, lo, a, next);
        MovesTrans(Pool(old(freelist), owner, {}), pool1, Pool(freelist, owner', {}), old(mem), m, mem);
        a := next;
      }
      DroppedGap(old(mem), d, owner, lo, hi, a);
      r := newsz;
    }

    /** One trip round deallocuvm's loop, and the page it goes on with. */
    method DeallocStep(d: nat, a: nat, ghost owner: Owner) returns (next: nat, ghost owner': Owner)
      requires Space(d, owner) && a < KERNPAGE
      modifies `freelist, `mem
      ensures Space(d, owner') && Conserves(owner, {}, owner', {})
      ensures IsTable(old(mem), d) && IsTable(mem, d) && mem[d] == old(mem)[d]
      ensures a < next <= NPAGES && (forall b: nat | a < b < next :: !Lookup(old(mem), d, b).present)
      ensures owner' == Dropped(owner, a, next) && Unmapped(old(mem), mem, d, a, next)
    {
      hide Owns, WithEntry, Lookup, Dropped, Moves, Pool, Elements, Counted, TablesIn;
      OwnsTable(mem, d, owner, a);
      MovesNone(Pool(freelist, owner, {}), mem);
      DroppedNone(owner, a);
      var t;
      t, owner' := Walk(d, a, false, owner);
      if t.None? {
        NothingMapped(mem, d, a);
        next := (Pdx(a) + 1) * NENTRIES;
        DroppedGap(mem, d, owner, a, a, next);
      } else {
        LookupIs(mem, d, a);
        next := a + 1;
        if mem[t.value][Ptx(a)].present {
          DroppedOne(mem, d, owner, a, a);
          var ok;
          ok, owner' := FreeUserPage(d, t.value, a, owner);
        } else {
          DroppedGap(mem, d, owner, a, a, next);
        }
      }
    }

    /** One trip round the loops of allocuvm and copyuvm: a fresh page with the given contents, mapped
        at user page a. */
    method AllocPage(d: nat, a: nat, contents: Page, writable: bool, user: bool, ghost owner: Owner)
      returns (r: PageResult, ghost owner': Owner)
      requires Space(d, owner) && a < KERNPAGE && !Lookup(mem, d, a).present
      modifies this
      ensures Space(d, owner')
      ensures Conserves(owner, {}, owner', Held(r))
      ensures r.NoTable? ==> r.held !in owner' && r.held !in freelist && first <= r.held < last
      ensures Elements(freelist) <= Elements(old(freelist))
      ensures forall b: nat | b != a || !r.NewPage? :: Lookup(mem, d, b) == Lookup(old(mem), d, b)
      ensures r.NewPage? ==>
                && Lookup(mem, d, a) == Pte(r.page, true, writable, user) && r.page in Elements(old(freelist))
                && r.page in owner' && owner'[r.page] == User(a) && Contents(mem, data, d, a) == contents
      ensures owner.Keys <= owner'.Keys && forall p | p in owner :: owner'[p] == owner[p]
      ensures forall p | p in owner' && p !in owner :: owner'[p].Table? || (r.NewPage? && p == r.page)
      ensures SameData(old(data), data, Elements(old(freelist)))
      ensures r.NewPage? <==> |old(freelist)| > if Pdx(a) in TablesIn(old(mem), d) then 0 else 1
      ensures r.NewPage? ==> Counted(|old(freelist)|, |freelist|, old(mem), mem, d, {Pdx(a)}, 1)
    {
      hide Owns, Lookup, Moves, Pool, Elements, TablesIn;
      MovesNone(Pool(freelist, owner, {}), mem);
      SameDataNone(data, Elements(freelist));
      var m := Kalloc();
      if m.None? {
        return NoPage, owner;
      }
      PoolTaken(old(freelist), freelist, owner, m.value);
      data := data[m.value := contents];
      var ok;
      ok, owner' := MapUserPage(d, a, Pte(m.value, true, writable, user), owner);
      Added(TablesIn(old(mem), d), {Pdx(a)});
      r := if ok then NewPage(m.value) else NoTable(m.value);
    }

    /** allocuvm: fresh pages for every user page from the old size up to the new one, or none: if
        memory runs out, the mapping is what it was and every data page is free again. */
    method Allocuvm(d: nat, oldsz: nat, newsz: nat, ghost owner: Owner) returns (ok: bool, r: nat, ghost owner': Owner)
      requires Space(d, owner)
      requires newsz < KERNBASE ==> forall b: nat | Pages(oldsz) <= b < Pages(newsz) :: !Lookup(mem, d, b).present
      modifies this
      ensures Space(d, owner') && Conserves(owner, {}, owner', {})
      ensures ok <==>
                newsz < KERNBASE && (newsz < oldsz || Needs(old(mem), d, Pages(oldsz), Pages(newsz)) <= |old(freelist)|)
      ensures ok ==> r == if newsz < oldsz then oldsz else newsz
      ensures !ok ==> r == 0 && SameMapping(old(mem), mem, d) && SameUserPages(owner, owner')
      ensures ok && newsz < oldsz ==> mem == old(mem) && owner' == owner
      ensures ok && newsz >= oldsz ==>
                NewlyMapped(old(mem), mem, d, Pages(oldsz), Pages(newsz), Elements(old(freelist)))
      ensures ok ==> forall b: nat | Pages(oldsz) <= b < Pages(newsz) :: Contents(mem, data, d, b) == ZeroPage()
      ensures SameData(old(data), data, Elements(old(freelist)))
    {
      hide Owns, Lookup, Dropped, Moves, Pool, Elements, Contents, SameData, Needs, Extends;
      owner' := owner;
      MovesNone(Pool(freelist, owner, {}), mem);
      SameDataNone(data, Elements(freelist));
      if newsz >= KERNBASE {
        return false, 0, owner;
      }
      if newsz < oldsz {
        return true, oldsz, owner;
      }
      var step;
      ghost var a;
      step, owner', a := AllocRange(d, oldsz, newsz, owner);
      if !step.NewPage? {
        ghost var m1, o1 := mem, owner';
        ghost var pool0, pool1 := Pool(old(freelist), owner, {}), Pool(freelist, owner', Held(step));
        owner' := UndoAlloc(d, oldsz, newsz, if step.NoTable? then Some(step.held) else None, owner');
        UndoneMapping(old(mem), m1, m1, mem, d, Pages(oldsz), a, Pages(newsz), Elements(old(freelist)));
        UndonePages(old(mem), d, owner, o1, Pages(oldsz), Pages(newsz));
        MovesTrans(pool0, pool1, Pool(freelist, owner', {}), old(mem), m1, mem);
        return false, 0, owner';
      }
      return true, newsz, owner';
    }

    /** allocuvm's loop, up to its end or to the page a for which there was no memory. */
    method AllocRange(d: nat, oldsz: nat, newsz: nat, ghost owner: Owner)
      returns (step: PageResult, ghost owner': Owner, ghost a: nat)
      requires Space(d, owner) && oldsz <= newsz < KERNBASE
      requires forall b: nat | Pages(oldsz) <= b < Pages(newsz) :: !Lookup(mem, d, b).present
      modifies this
      ensures Space(d, owner') && Conserves(owner, {}, owner', Held(step)) && Pages(oldsz) <= a <= Pages(newsz)
      ensures step.NewPage? <==> Needs(old(mem), d, Pages(oldsz), Pages(newsz)) <= |old(freelist)|
      ensures step.NewPage? <==> a == Pages(newsz)
      ensures step.NoTable? ==> step.held !in owner' && step.held !in freelist && first <= step.held < last
      ensures NewlyMapped(old(mem), mem, d, Pages(oldsz), a, Elements(old(freelist)))
      ensures Extends(owner, owner', Pages(oldsz), Pages(newsz))
      ensures SameData(old(data), data, Elements(old(freelist)))
      ensures forall b: nat | Pages(oldsz) <= b < a :: Contents(mem, data, d, b) == ZeroPage()
    {
      hide Owns, Lookup, Moves, Pool, Elements, Contents, SameData, TablesIn, TablesFor, Counted, Pages;
      PagesOrder(oldsz, newsz);
      ghost var lo, hi, pool0 := Pages(oldsz), Pages(newsz), Pool(freelist, owner, {});
      owner', step := owner, NewPage(0);
      MovesNone(pool0, mem);
      SameDataNone(data, Elements(freelist));
      NoTables(lo);
      CountedStart(mem, d, |freelist|);
      var va := Pages(oldsz);
      PagesBelow(va, newsz);
      while va * PGSIZE < newsz
        invariant step.NewPage? && lo <= va <= hi && Space(d, owner') && Conserves(owner, {}, owner', {})
        invariant va * PGSIZE < newsz <==> va < hi
        invariant NewlyMapped(old(mem), mem, d, lo, va, Elements(old(freelist)))
        invariant Extends(owner, owner', lo, va) && Elements(freelist) <= Elements(old(freelist))
        invariant SameData(old(data), data, Elements(old(freelist)))
        invariant Counted(|old(freelist)|, |freelist|, old(mem), mem, d, TablesFor(lo, va), va - lo)
        invariant forall b: nat | lo <= b < va :: Contents(mem, data, d, b) == ZeroPage()
        decreases hi - va
      {
        ghost var m, dt, fl, o, pool1 := mem, data, freelist, owner', Pool(freelist, owner', {});
        step, owner' := AllocPage(d, va, ZeroPage(), true, true, owner');
        MovesTrans(pool0, pool1, Pool(freelist, owner', Held(step)), old(mem), m, mem);
        ContentsStay(m, mem, dt, data, d, o, fl, lo, va);
        SameDataTrans(old(data), dt, data, Elements(fl), Elements(old(freelist)));
        if !step.NewPage? {
          TablesShort(|old(freelist)|, |fl|, old(mem), m, d, lo, va, hi, va - lo, 1);
          return step, owner', va;
        }
        OneMoreTable(lo, va);
        CountedTrans(|old(freelist)|, |fl|, |freelist|, old(mem), m, mem, d, TablesFor(lo, va), {Pdx(va)}, va - lo, 1);
        va := va + 1;
        PagesBelow(va, newsz);
      }
      TablesEnough(|old(freelist)|, |freelist|, old(mem), mem, d, lo, hi, hi - lo);
      a := va;
    }

    /** allocuvm's way out when memory runs out: unmap what was mapped, then give back the page that
        could not be mapped, if any. */
    method UndoAlloc(d: nat, oldsz: nat, newsz: nat, held: Option<nat>, ghost owner: Owner)
      returns (ghost owner': Owner)
      requires Space(d, owner) && oldsz < newsz <= KERNBASE
      requires held.Some? ==> held.value !in owner && held.value !in freelist && first <= held.value < last
      modifies `freelist, `mem
      ensures Space(d, owner') && owner' == Dropped(owner, Pages(oldsz), Pages(newsz))
      ensures Unmapped(old(mem), mem, d, Pages(oldsz), Pages(newsz))
      ensures Conserves(owner, if held.Some? then {held.value} else {}, owner', {})
    {
      hide Owns, Lookup, Dropped;
      var sz;
      sz, owner' := Deallocuvm(d, newsz, oldsz, owner);
      if held.Some? {
        GiveBack(d, held.value, owner');
      }
    }

    /** kfree of a page the address space does not use. */
    method GiveBack(d: nat, p: nat, ghost owner: Owner)
      requires Space(d, owner) && p !in owner && p !in freelist && first <= p < last
      modifies `freelist, `mem
      ensures Space(d, owner) && freelist == [p] + old(freelist) && mem == old(mem) - {p}
      ensures forall b: nat :: Lookup(mem, d, b) == Lookup(old(mem), d, b)
    {
      hide Lookup, Owns;
      Forget(mem, d, owner, p);
      var ok := Kfree(p);
    }

    /** freevm: every page of the address space (data pages, page tables, directory) goes back to the
        free list, each once; pages that only the kernel part maps do not. */
    method Freevm(d: nat, ghost owner: Owner) returns (ok: bool)
      requires Space(d, owner)
      modifies `freelist, `mem
      ensures ok && Free() && Conserves(owner, {}, map[], {})
    {
      hide Owns, Lookup, Dropped, Moves, Pool, Elements, Tables;
      var sz;
      ghost var o;
      sz, o := Deallocuvm(d, KERNBASE, 0, owner);
      NoUserLeft(mem, d, o, owner);
      ghost var pool0, pool1, m1 := Pool(old(freelist), owner, {}), Pool(freelist, o, {}), mem;
      TablesAll(mem, d, o);
      ok := true;
      for i := 0 to NENTRIES
        invariant ok && Free() && d in mem && mem[d] == m1[d]
        invariant Moves(pool0, Pool(freelist, Tables(o, i), {}), old(mem), mem)
        invariant forall p | p in Tables(o, i) :: p !in freelist && first <= p < last
      {
        ghost var rest, m2, pool2 := Tables(o, i), mem, Pool(freelist, Tables(o, i), {});
        TablesNext(m1, d, o, i);
        if mem[d][i].present {
          ghost var p, fl := mem[d][i].page, freelist;
          ok := Kfree(mem[d][i].page);
          PoolFreed(fl, rest, p);
          MovesFreed(pool2, m2, p);
          MovesTrans(pool0, pool2, Pool(freelist, Tables(o, i + 1), {}), old(mem), m2, mem);
        }
      }
      TablesEnd(m1, d, o);
      ghost var m3, fl := mem, freelist;
      ok := Kfree(d);
      PoolFreed(fl, map[d := Directory], d);
      assert map[d := Directory] - {d} == map[];
      MovesFreed(Pool(fl, map[d := Directory], {}), m3, d);
      MovesTrans(pool0, Pool(fl, map[d := Directory], {}), Pool(freelist, map[], {}), old(mem), m3, mem);
    }

    /** walkpgdir without alloc, then *pte; NOPTE where there is no page table. */
    method ParentEntry(d: nat, a: nat, ghost owner: Owner) returns (e: Pte)
      requires Space(d, owner) && a < NPAGES
      modifies `freelist, `mem
      ensures e == Lookup(mem, d, a) && mem == old(mem) && freelist == old(freelist)
    {
      hide Owns;
      var t;
      ghost var o;
      t, o := Walk(d, a, false, owner);
      OwnsTable(mem, d, owner, a);
      e := if t.None? then NOPTE else mem[t.value][Ptx(a)];
    }

    /** copyuvm's way out when memory runs out. */
    method CopyFails(c: nat, step: PageResult, ghost owner: Owner, ghost pool: set<nat>, ghost m0: Frames)
      returns (ghost owner': Owner)
      requires Space(c, owner) && !step.NewPage?
      requires step.NoTable? ==> step.held !in owner && step.held !in freelist && first <= step.held < last
      requires Moves(pool, Pool(freelist, owner, Held(step)), m0, mem)
      modifies `freelist, `mem
      ensures Free() && owner' == map[] && Moves(pool, Pool(freelist, map[], {}), m0, mem)
    {
      hide Owns, Lookup, Moves;
      owner' := map[];
      if step.NoTable? {
        ghost var fl, m := freelist, mem;
        GiveBack(c, step.held, owner);
        MovesFreed(Pool(fl, owner, {step.held}), m, step.held);
        assert Pool(freelist, owner, {}) == Pool(fl, owner, {step.held});
        MovesTrans(pool, Pool(fl, owner, {step.held}), Pool(freelist, owner, {}), m0, m, mem);
      }
      ghost var fl, m := freelist, mem;
      var ok := Freevm(c, owner);
      MovesTrans(pool, Pool(fl, owner, {}), Pool(freelist, map[], {}), m0, m, mem);
    }

    /** setupkvm: a directory that maps the kernel part and nothing else; None if memory runs out, and
        then every page is free again. dataPage is the first page of the kernel's writable data,
        counted from KERNBASE. */
    method Setupkvm(dataPage: nat) returns (r: Option<nat>, ghost owner: Owner)
      requires Free() && EXTPAGE < dataPage < PHYSPAGE
      modifies `freelist, `mem
      ensures Free() && Conserves(map[], {}, owner, {})
      ensures r.None? ==> owner == map[]
      ensures r.Some? <==> |old(freelist)| >= KERNELPAGES
      ensures r.Some? ==> Space(r.value, owner) && KernelMapped(mem, r.value, dataPage) && NoUserPages(mem, r.value, 0)
      ensures r.Some? ==> |freelist| == |old(freelist)| - KERNELPAGES && TablesIn(mem, r.value) == KernelTables()
    {
      hide Lookup, Owns, Moves, KernelEntry, TablesIn, KernelTables;
      owner := map[];
      MovesNone(Pool(freelist, map[], {}), mem);
      var d := Kalloc();
      if d.None? {
        return None, map[];
      }
      mem := mem[d.value := Cleared()];
      owner := map[d.value := Directory];
      EmptyOwns(mem, d.value);
      NewDirectory(old(freelist), freelist, old(mem), d.value);
      NoTablesIn(mem, d.value);
      ghost var pool, m1 := Pool(freelist, owner, {}), mem;
      var ok;
      ok, owner := MapAllRanges(d.value, dataPage, owner);
      ghost var pool1, m2 := Pool(freelist, owner, {}), mem;
      MovesTrans(Pool(old(freelist), map[], {}), pool, pool1, old(mem), m1, mem);
      if !ok {
        ok := Freevm(d.value, owner);
        owner := map[];
        MovesTrans(Pool(old(freelist), map[], {}), pool1, Pool(freelist, owner, {}), old(mem), m2, mem);
        return None, owner;
      }
      r := d;
    }

    /** setupkvm's loop over kmap. */
    method MapAllRanges(d: nat, dataPage: nat, ghost owner: Owner) returns (ok: bool, ghost owner': Owner)
      requires Space(d, owner) && EXTPAGE < dataPage < PHYSPAGE && forall b: nat :: Lookup(mem, d, b) == NOPTE
      requires TablesIn(mem, d) == {}
      modifies `freelist, `mem
      ensures Space(d, owner') && Conserves(owner, {}, owner', {})
      ensures ok ==> KernelMapped(mem, d, dataPage) && NoUserPages(mem, d, 0)
      ensures ok <==> |old(freelist)| >= KERNELPAGES - 1
      ensures ok ==> |freelist| == |old(freelist)| - (KERNELPAGES - 1) && TablesIn(mem, d) == KernelTables()
    {
      hide Lookup, Owns, Moves, Pool, Space, TablesIn, Counted, KernelTables, MappedUpTo, KernelMapped, NoUserPages,
           KernelMap, TablesUpTo;
      owner' := owner;
      MovesNone(Pool(freelist, owner, {}), mem);
      CountedStart(mem, d, |freelist|);
      KernelMapLength(dataPage);
      TablesUpToNext(dataPage, 0);
      NothingYet(mem, d, dataPage);
      for k := 0 to |KernelMap(dataPage)|
        invariant Space(d, owner') && Conserves(owner, {}, owner', {})
        invariant Counted(|old(freelist)|, |freelist|, old(mem), mem, d, TablesUpTo(dataPage, k), 0)
        invariant MappedUpTo(mem, d, dataPage, k)
      {
        ghost var pool1, m1, f1 := Pool(freelist, owner', {}), mem, |freelist|;
        ok, owner' := MapRange(d, dataPage, k, owner');
        MovesTrans(Pool(old(freelist), owner, {}), pool1, Pool(freelist, owner', {}), old(mem), m1, mem);
        if !ok {
          KernelShort(|old(freelist)|, f1, old(mem), m1, d, k, dataPage);
          return;
        }
        TablesUpToNext(dataPage, k);
        CountedTrans(|old(freelist)|, f1, |freelist|, old(mem), m1, mem, d, TablesUpTo(dataPage, k),
                     RangeTables(dataPage, k), 0, 0);
      }
      AllMapped(mem, d, dataPage);
      KernelEnough(|old(freelist)|, |freelist|, old(mem), mem, d, dataPage);
      ok := true;
    }

    /** One line of kmap. */
    method MapRange(d: nat, dataPage: nat, k: nat, ghost owner: Owner) returns (ok: bool, ghost owner': Owner)
      requires Space(d, owner) && EXTPAGE < dataPage < PHYSPAGE && k < |KernelMap(dataPage)|
      requires MappedUpTo(mem, d, dataPage, k)
      modifies `freelist, `mem
      ensures Space(d, owner') && Conserves(owner, {}, owner', {})
      ensures ok ==> MappedUpTo(mem, d, dataPage, k + 1)
      ensures ok <==> |RangeTables(dataPage, k) - TablesIn(old(mem), d)| <= |old(freelist)|
      ensures ok ==> Counted(|old(freelist)|, |freelist|, old(mem), mem, d, RangeTables(dataPage, k), 0)
    {
      hide Lookup, Owns, Moves, Pool, Space, TablesIn, TablesFor, Counted, MappedUpTo, KernelMap;
      KernelMapLength(dataPage);
      var r := KernelMap(dataPage)[k];
      NextRange(mem, d, dataPage, k);
      ok, owner' := MapKernelRange(d, r.virt, r.count, r.phys, r.writable, owner);
      if ok {
        RangeMapped(old(mem), mem, d, dataPage, k);
      }
    }

    /** copyuvm: a new address space whose user pages hold what the parent's do, with the same flags,
        in pages of its own; the parent is as it was. If memory runs out every page taken is free
        again. The copy panics only over a page of the parent that is not there. */
    method Copyuvm(d: nat, sz: nat, dataPage: nat, ghost owner: Owner) returns (r: CopyResult, ghost owner': Owner)
      requires Space(d, owner) && sz <= KERNBASE && EXTPAGE < dataPage < PHYSPAGE
      modifies this
      ensures Space(d, owner) && SameSpace(old(mem), old(data), mem, data, d) && owner.Keys !! owner'.Keys
      ensures var m := FirstMissing(old(mem), d, 0, Pages(sz));
              && (r.Copied? <==> m == Pages(sz) && CopyPages(m) <= |old(freelist)|)
              && (r.Missing? <==> m < Pages(sz) && CopyPages(m) <= |old(freelist)|)
      ensures r.NoMemory? ==> owner' == map[]
      ensures Conserves(map[], {}, owner', {})
      ensures r.Copied? ==>
                && Space(r.d, owner') && KernelMapped(mem, r.d, dataPage) && NoUserPages(mem, r.d, Pages(sz))
                && CopyOf(old(mem), old(data), d, mem, data, r.d, Pages(sz))
    {
      hide Lookup, Owns, Moves, Pool, Elements, Contents, SameData, CopyOf, KernelMapped, NoUserPages, SameSpace,
           TablesIn, TablesFor, Counted, KernelTables, Pages;
      PagesAtMost(sz);
      ghost var pool := Pool(freelist, map[], {});
      SameDataNone(data, Elements(freelist));
      var k;
      k, owner' := Setupkvm(dataPage);
      ParentKept(old(freelist), freelist, old(mem), mem, old(data), data, d, owner, owner');
      if k.None? {
        return NoMemory, owner';
      }
      var c := k.value;
      CopyNone(old(mem), old(data), d, mem, data, c);
      NoTables(0);
      for a := 0 to Pages(sz)
        invariant Space(c, owner') && Space(d, owner) && Conserves(map[], {}, owner', {})
        invariant SameSpace(old(mem), old(data), mem, data, d) && owner.Keys !! owner'.Keys
        invariant SameData(old(data), data, Elements(old(freelist)))
        invariant KernelMapped(mem, c, dataPage) && NoUserPages(mem, c, a)
        invariant CopyOf(old(mem), old(data), d, mem, data, c, a)
        invariant FirstMissing(old(mem), d, 0, Pages(sz)) == FirstMissing(old(mem), d, a, Pages(sz))
        invariant |freelist| + CopyPages(a) == |old(freelist)| && TablesIn(mem, c) == KernelTables() + TablesFor(0, a)
      {
        var e := ParentEntry(d, a, owner);
        SameEntry(old(mem), old(data), mem, data, d, owner, a);
        if !e.present {
          return Missing, owner';
        }
        ghost var m, dt, fl, o := mem, data, freelist, owner';
        var step;
        UserPage(mem, c, a);
        step, owner' := AllocPage(c, a, data[e.page], e.writable, e.user, owner');
        CopyMoves(pool, fl, o, freelist, owner', Held(step), old(mem), m, mem);
        CopyData(old(data), dt, data, old(freelist), fl, o, old(mem), m);
        CopyStep(fl, freelist, m, mem, c, a, step.NewPage?);
        if !step.NewPage? {
          CopyMonotone(a + 1, FirstMissing(old(mem), d, a, Pages(sz)));
          owner' := CopyFails(c, step, owner', pool, old(mem));
          ParentKept(old(freelist), freelist, old(mem), mem, old(data), data, d, owner, owner');
          return NoMemory, owner';
        }
        ParentKept(old(freelist), freelist, old(mem), mem, old(data), data, d, owner, owner');
        CopyMore(old(mem), old(data), d, m, dt, mem, data, c, o, fl, a, dataPage);
      }
      r := Copied(c);
    }

    /** copyout: the bytes go to the process's memory from va on, page by page, as far as there are
        pages the process may use; n is how far. Nothing else the process or anybody else sees
        changes. Only uva2ka's null dereference keeps a missing page table from being refused. The copy
        stops in the kernel part at the latest, so the address does not wrap around. */
    method Copyout(d: nat, va: nat, buf: seq<bv8>, ghost owner: Owner) returns (r: CopyoutResult, ghost n: nat)
      requires Space(d, owner) && va < NPAGES * PGSIZE && KernelPrivate(mem, d)
      modifies this
      ensures Space(d, owner) && mem == old(mem) && freelist == old(freelist)
      ensures n <= |buf| && Overwritten(mem, old(data), data, d, owner, va, buf[..n])
      ensures (r.CopyDone? <==> UserRange(mem, d, va, |buf|)) && UserRange(mem, d, va, n)
      ensures r.CopyDone? ==> n == |buf|
      ensures !r.CopyDone? ==> && n < |buf| && (n == 0 || (va + n) % PGSIZE == 0) && !ForUser(mem, d, (va + n) / PGSIZE)
                               && (r.NullEntry? <==> !HasTable(mem, d, (va + n) / PGSIZE))
    {
      hide Owns, Lookup, Overwritten, HasTable, UserRange;
      n := 0;
      NoRange(mem, d, va);
      OverwrittenNone(mem, data, d, owner, va, buf);
      var i := 0;
      while i < |buf|
        invariant n == i <= |buf| && mem == old(mem) && freelist == old(freelist) && Space(d, owner)
        invariant i == 0 || i == |buf| || (va + i) % PGSIZE == 0
        invariant Overwritten(mem, old(data), data, d, owner, va, buf[..i])
        invariant UserRange(mem, d, va, i)
      {
        var a := (va + i) / PGSIZE;
        PageBefore(mem, d, va, i);
        var r0 := Uva2ka(d, a, owner);
        if r0.None? || !r0.value.present || !r0.value.user {
          RangeEnds(mem, d, va, i, |buf|);
          return if r0.None? then NullEntry else CopyRefused, i;
        }
        UserPageOwned(mem, d, owner, a);
        var o := (va + i) % PGSIZE;
        var m := if PGSIZE - o > |buf| - i then |buf| - i else PGSIZE - o;
        ghost var dt := data;
        var p := r0.value.page;
        data := data[p := data[p][..o] + buf[i..i + m] + data[p][o + m..]];
        OverwritePage(mem, dt, data, d, owner, va + i, buf[i..i + m]);
        OverwriteMore(mem, old(data), dt, data, d, owner, va, buf, i, m);
        RangeMore(mem, d, va, i, m);
        i, n := i + m, i + m;
      }
      return CopyDone, i;
    }

    /** copyout into an address space fresh from setupkvm reads through the null pointer. */
    method CopyoutNull(dataPage: nat, buf: seq<bv8>) returns (r: CopyoutResult)
      requires Free() && |freelist| >= KERNELPAGES && EXTPAGE < dataPage < PHYSPAGE && 0 < |buf| <= PGSIZE
      modifies this
      ensures r.NullEntry?
    {
      hide Lookup, Owns, TablesIn, KernelTables, Overwritten, KernelMapped, NoUserPages, Moves;
      var d;
      ghost var owner, n;
      d, owner := Setupkvm(dataPage);
      KernelMappedPrivate(mem, d.value, dataPage);
      FirstTableMissing(mem, d.value, owner);
      r, n := Copyout(d.value, 0, buf, owner);
    }

    /** A page freed twice is handed out twice. */
    method FreedTwice() returns (x: Option<nat>, y: Option<nat>)
      requires Free() && freelist != []
      modifies `freelist, `mem
      ensures x.Some? && x == y
    {
      var p := Kalloc();
      var ok := Kfree(p.value);
      ok := Kfree(p.value);
      x := Kalloc();
      y := Kalloc();
    }

    /** uva2ka's page table entry; None is the null pointer it goes on to read through. */
    method Uva2ka(d: nat, a: nat, ghost owner: Owner) returns (e: Option<Pte>)
      requires Space(d, owner) && a < NPAGES
      modifies `freelist, `mem
      ensures mem == old(mem) && freelist == old(freelist)
      ensures e == if HasTable(mem, d, a) then Some(Lookup(mem, d, a)) else None
      ensures e.None? ==> !Lookup(mem, d, a).present
    {
      hide Owns;
      var t;
      ghost var o;
      t, o := Walk(d, a, false, owner);
      OwnsTable(mem, d, owner, a);
      e := if t.None? then None else Some(mem[t.value][Ptx(a)]);
    }
  }

  const EXTPAGE := 0x100        // EXTMEM / PGSIZE
  const PHYSPAGE := 0xE000      // PHYSTOP / PGSIZE
  const DEVPAGE := 0xF_E000     // DEVSPACE / PGSIZE

  datatype CopyoutResult = CopyDone | CopyRefused | NullEntry

  ghost predicate HasTable(mem: Frames, d: nat, a: nat) {
    IsTable(mem, d) && Pdx(a) < NENTRIES && mem[d][Pdx(a)].present
  }

  /** A page the process may use. */
  predicate ForUser(mem: Frames, d: nat, a: nat) {
    Lookup(mem, d, a).present && Lookup(mem, d, a).user
  }

  /** The kernel part is closed to the process. */
  ghost predicate KernelPrivate(mem: Frames, d: nat) {
    forall b: nat | KERNPAGE <= b < NPAGES :: !Lookup(mem, d, b).user
  }

  /** Byte v of the process's memory. */
  ghost function ByteAt(mem: Frames, data: seq<Page>, d: nat, v: nat): bv8 {
    Contents(mem, data, d, v / PGSIZE)[v % PGSIZE]
  }

  /** The process's bytes from va on are the given ones, and no other byte it can see has changed, nor
      any page that is not its own. */
  ghost predicate Overwritten(mem: Frames, data: seq<Page>, data': seq<Page>, d: nat, owner: Owner, va: nat,
                              bytes: seq<bv8>) {
    && |data'| == |data|
    && (forall v: nat | v / PGSIZE < KERNPAGE && Lookup(mem, d, v / PGSIZE).present ::
          ByteAt(mem, data', d, v) == if va <= v < va + |bytes| then bytes[v - va] else ByteAt(mem, data, d, v))
    && (forall p: nat | p < |data| && p !in owner :: data'[p] == data[p])
  }

  /** The process may use every page that n bytes from va on touch. */
  ghost predicate UserRange(mem: Frames, d: nat, va: nat, n: nat) {
    n > 0 ==> forall a: nat | va / PGSIZE <= a && a * PGSIZE < va + n :: ForUser(mem, d, a)
  }

  lemma NoRange(mem: Frames, d: nat, va: nat)
    ensures UserRange(mem, d, va, 0)
  {
  }

  lemma RangeMore(mem: Frames, d: nat, va: nat, i: nat, m: nat)
    requires UserRange(mem, d, va, i) && ForUser(mem, d, (va + i) / PGSIZE) && (va + i) % PGSIZE + m <= PGSIZE
    ensures UserRange(mem, d, va, i + m)
  {
  }

  lemma RangeEnds(mem: Frames, d: nat, va: nat, i: nat, n: nat)
    requires i < n && !ForUser(mem, d, (va + i) / PGSIZE)
    ensures !UserRange(mem, d, va, n)
  {
    var a := (va + i) / PGSIZE;
    assert va / PGSIZE <= a && a * PGSIZE < va + n;
  }

  lemma PageBefore(mem: Frames, d: nat, va: nat, i: nat)
    requires KernelPrivate(mem, d) && UserRange(mem, d, va, i) && va < NPAGES * PGSIZE
    requires i == 0 || (va + i) % PGSIZE == 0
    ensures (va + i) / PGSIZE < NPAGES
  {
    if i > 0 {
      var a := (va + i) / PGSIZE - 1;
      assert va / PGSIZE <= a && a * PGSIZE < va + i;
      UserPagesLow(mem, d, a);
    }
  }

  lemma UserPagesLow(mem: Frames, d: nat, a: nat)
    requires KernelPrivate(mem, d) && ForUser(mem, d, a)
    ensures a < KERNPAGE
  {
  }

  lemma FirstTableMissing(mem: Frames, d: nat, owner: Owner)
    requires Owns(mem, d, owner) && TablesIn(mem, d) == KernelTables()
    ensures !HasTable(mem, d, 0) && !ForUser(mem, d, 0)
  {
    hide KernelTables;
    KernelTablesCount();
    TablesInAt(mem, d, 0);
  }

  lemma KernelMappedPrivate(mem: Frames, d: nat, dataPage: nat)
    requires KernelMapped(mem, d, dataPage)
    ensures KernelPrivate(mem, d)
  {
    hide Lookup;
  }

  lemma OverwrittenNone(mem: Frames, data: seq<Page>, d: nat, owner: Owner, va: nat, buf: seq<bv8>)
    ensures Overwritten(mem, data, data, d, owner, va, buf[..0])
  {
  }

  lemma UserPageOwned(mem: Frames, d: nat, owner: Owner, a: nat)
    requires Owns(mem, d, owner) && KernelPrivate(mem, d) && a < NPAGES && ForUser(mem, d, a)
    ensures a < KERNPAGE && Lookup(mem, d, a).page in owner && owner[Lookup(mem, d, a).page] == User(a)
  {
    hide Lookup;
  }

  /** Storing part of a page changes that part of that page, and of no other: each page of the process
      has a physical page of its own. */
  lemma OverwritePage(mem: Frames, data: seq<Page>, data': seq<Page>, d: nat, owner: Owner, va: nat, bytes: seq<bv8>)
    requires Owns(mem, d, owner) && va / PGSIZE < KERNPAGE && Lookup(mem, d, va / PGSIZE).present
    requires var o := va % PGSIZE; var p := Lookup(mem, d, va / PGSIZE).page;
             && o + |bytes| <= PGSIZE && p < |data|
             && data' == data[p := data[p][..o] + bytes + data[p][o + |bytes|..]]
    ensures Overwritten(mem, data, data', d, owner, va, bytes)
  {
    hide Lookup;
    var a, o := va / PGSIZE, va % PGSIZE;
    forall v: nat | v / PGSIZE < KERNPAGE && Lookup(mem, d, v / PGSIZE).present
      ensures ByteAt(mem, data', d, v) == if va <= v < va + |bytes| then bytes[v - va] else ByteAt(mem, data, d, v)
    {
      if v / PGSIZE == a {
        assert v - va == v % PGSIZE - o;
      } else {
        assert Lookup(mem, d, v / PGSIZE).page != Lookup(mem, d, a).page;
        assert !(va <= v < va + |bytes|);
      }
    }
  }

  lemma OverwriteMore(mem: Frames, data0: seq<Page>, data: seq<Page>, data': seq<Page>, d: nat, owner: Owner, va: nat,
                      buf: seq<bv8>, i: nat, m: nat)
    requires i + m <= |buf| && Overwritten(mem, data0, data, d, owner, va, buf[..i])
    requires Overwritten(mem, data, data', d, owner, va + i, buf[i..i + m])
    ensures Overwritten(mem, data0, data', d, owner, va, buf[..i + m])
  {
    hide Lookup, ByteAt;
  }

  datatype CopyResult = Copied(d: nat) | NoMemory | Missing

  /** One line of kmap, in pages. */
  datatype KernelRange = KernelRange(virt: nat, phys: nat, count: nat, writable: bool)

  function KernelMap(dataPage: nat): seq<KernelRange>
    requires EXTPAGE < dataPage < PHYSPAGE
  {
    [ KernelRange(KERNPAGE, 0, EXTPAGE, true),
      KernelRange(KERNPAGE + EXTPAGE, EXTPAGE, dataPage - EXTPAGE, false),
      KernelRange(KERNPAGE + dataPage, dataPage, PHYSPAGE - dataPage, true),
      KernelRange(DEVPAGE, DEVPAGE, NPAGES - DEVPAGE, true)]
  }

  /** The directory, 56 page tables for physical memory and 8 for the devices. */
  const KERNELPAGES := 65

  ghost function KernelTables(): set<nat> {
    TablesFor(KERNPAGE, KERNPAGE + PHYSPAGE) + TablesFor(DEVPAGE, NPAGES)
  }

  /** The page tables line k of kmap goes through. */
  ghost function RangeTables(dataPage: nat, k: nat): set<nat>
    requires EXTPAGE < dataPage < PHYSPAGE && k < |KernelMap(dataPage)|
  {
    var r := KernelMap(dataPage)[k];
    TablesFor(r.virt, r.virt + r.count)
  }

  /** The page tables the first k lines go through. */
  ghost function TablesUpTo(dataPage: nat, k: nat): set<nat>
    requires EXTPAGE < dataPage < PHYSPAGE && k <= 4
  {
    if k == 0 then {} else TablesUpTo(dataPage, k - 1) + RangeTables(dataPage, k - 1)
  }

  lemma TablesUpToNext(dataPage: nat, k: nat)
    requires EXTPAGE < dataPage < PHYSPAGE && k < 4
    ensures TablesUpTo(dataPage, k + 1) == TablesUpTo(dataPage, k) + RangeTables(dataPage, k)
    ensures TablesUpTo(dataPage, 0) == {}
  {
  }

  /** Neighbouring ranges may share a page table, so the ranges of kmap take no more than the two
      stretches they make up. */
  lemma KernelTablesOf(dataPage: nat)
    requires EXTPAGE < dataPage < PHYSPAGE
    ensures TablesUpTo(dataPage, 4) == KernelTables()
  {
    hide TablesFor;
    TablesUpToNext(dataPage, 0);
    TablesUpToNext(dataPage, 1);
    TablesUpToNext(dataPage, 2);
    TablesUpToNext(dataPage, 3);
    TablesJoin(KERNPAGE, KERNPAGE + EXTPAGE, KERNPAGE + dataPage);
    TablesJoin(KERNPAGE, KERNPAGE + dataPage, KERNPAGE + PHYSPAGE);
  }

  lemma {:induction false} TablesOfPart(dataPage: nat, k: nat)
    requires EXTPAGE < dataPage < PHYSPAGE && k <= 4
    ensures TablesUpTo(dataPage, k) <= TablesUpTo(dataPage, 4)
    decreases 4 - k
  {
    hide TablesUpTo, RangeTables;
    if k < 4 {
      TablesUpToNext(dataPage, k);
      TablesOfPart(dataPage, k + 1);
    }
  }

  lemma TablesJoin(lo: nat, mid: nat, hi: nat)
    requires lo < mid < hi
    ensures TablesFor(lo, mid) + TablesFor(mid, hi) == TablesFor(lo, hi)
  {
    PdxNext(mid);
    PdxMonotone(lo, mid - 1);
    PdxMonotone(mid, hi - 1);
    PdxMonotone(hi - 1, hi);
    assert forall i: nat :: GoesThrough(i, lo, hi) <==> GoesThrough(i, lo, mid) || GoesThrough(i, mid, hi);
  }

  lemma TablesForCount(lo: nat, hi: nat)
    requires lo < hi
    ensures |TablesFor(lo, hi)| == Pdx(hi - 1) - Pdx(lo) + 1
  {
    PdxMonotone(lo, hi - 1);
    PdxMonotone(hi - 1, hi);
    var a, b := UpTo(Pdx(hi - 1) + 1), UpTo(Pdx(lo));
    assert forall i: nat | i in TablesFor(lo, hi) :: GoesThrough(i, lo, hi);
    assert forall i: nat | i in a && i !in b :: GoesThrough(i, lo, hi);
    assert a == b + TablesFor(lo, hi);
  }

  lemma KernelTablesCount()
    ensures |KernelTables()| == KERNELPAGES - 1
    ensures forall i | i in KernelTables() :: i >= 512
  {
    TablesForCount(KERNPAGE, KERNPAGE + PHYSPAGE);
    TablesForCount(DEVPAGE, NPAGES);
    var a, b := TablesFor(KERNPAGE, KERNPAGE + PHYSPAGE), TablesFor(DEVPAGE, NPAGES);
    assert forall i | i in a :: GoesThrough(i, KERNPAGE, KERNPAGE + PHYSPAGE);
    assert forall i | i in b :: GoesThrough(i, DEVPAGE, NPAGES);
    assert a !! b;
  }

  lemma KernelShort(f0: nat, f1: nat, m0: Frames, m1: Frames, d: nat, k: nat, dataPage: nat)
    requires EXTPAGE < dataPage < PHYSPAGE && k < |KernelMap(dataPage)| && TablesIn(m0, d) == {}
    requires Counted(f0, f1, m0, m1, d, TablesUpTo(dataPage, k), 0)
    requires |RangeTables(dataPage, k) - TablesIn(m1, d)| > f1
    ensures f0 < KERNELPAGES - 1
  {
    hide TablesFor, TablesIn, KernelTables, TablesUpTo, RangeTables;
    TablesUpToNext(dataPage, k);
    TablesOfPart(dataPage, k + 1);
    KernelTablesOf(dataPage);
    KernelTablesCount();
    Added(TablesIn(m1, d), RangeTables(dataPage, k));
    SubsetCount(TablesIn(m1, d) + RangeTables(dataPage, k), KernelTables());
  }

  lemma KernelEnough(f0: nat, f1: nat, m0: Frames, m1: Frames, d: nat, dataPage: nat)
    requires EXTPAGE < dataPage < PHYSPAGE && TablesIn(m0, d) == {}
    requires Counted(f0, f1, m0, m1, d, TablesUpTo(dataPage, 4), 0)
    ensures f0 == f1 + KERNELPAGES - 1 && TablesIn(m1, d) == KernelTables()
  {
    hide TablesFor, TablesIn, KernelTables, TablesUpTo;
    KernelTablesOf(dataPage);
    KernelTablesCount();
  }

  predicate InKernel(dataPage: nat, k: nat, b: nat)
    requires EXTPAGE < dataPage < PHYSPAGE && k <= 4
  {
    KERNPAGE <= b && (k == 4 || b < KernelMap(dataPage)[k].virt)
  }

  /** The first k ranges of kmap are mapped, and nothing else. */
  ghost predicate MappedUpTo(mem: Frames, d: nat, dataPage: nat, k: nat)
    requires EXTPAGE < dataPage < PHYSPAGE
  {
    && k <= 4
    && (forall b: nat | b < NPAGES && InKernel(dataPage, k, b) :: Lookup(mem, d, b) == KernelEntry(dataPage, b))
    && (forall b: nat | b < NPAGES && !InKernel(dataPage, k, b) :: Lookup(mem, d, b) == NOPTE)
  }

  lemma KernelMapLength(dataPage: nat)
    requires EXTPAGE < dataPage < PHYSPAGE
    ensures |KernelMap(dataPage)| == 4
  {
  }

  lemma NothingYet(mem: Frames, d: nat, dataPage: nat)
    requires EXTPAGE < dataPage < PHYSPAGE && forall b: nat :: Lookup(mem, d, b) == NOPTE
    ensures MappedUpTo(mem, d, dataPage, 0)
  {
    hide Lookup;
  }

  lemma NextRange(mem: Frames, d: nat, dataPage: nat, k: nat)
    requires EXTPAGE < dataPage < PHYSPAGE && k < 4 && MappedUpTo(mem, d, dataPage, k)
    ensures var r := KernelMap(dataPage)[k];
            && KERNPAGE <= r.virt && r.virt + r.count <= NPAGES
            && forall b: nat | r.virt <= b < r.virt + r.count :: !Lookup(mem, d, b).present
  {
    hide Lookup;
  }

  lemma RangeMapped(mem: Frames, mem': Frames, d: nat, dataPage: nat, k: nat)
    requires EXTPAGE < dataPage < PHYSPAGE && k < 4 && MappedUpTo(mem, d, dataPage, k)
    requires var r := KernelMap(dataPage)[k];
             && (forall b: nat | !(r.virt <= b < r.virt + r.count) :: Lookup(mem', d, b) == Lookup(mem, d, b))
             && (forall b: nat | r.virt <= b < r.virt + r.count ::
                  Lookup(mem', d, b) == Pte(r.phys + (b - r.virt), true, r.writable, false))
    ensures MappedUpTo(mem', d, dataPage, k + 1)
  {
    hide Lookup;
  }

  lemma AllMapped(mem: Frames, d: nat, dataPage: nat)
    requires EXTPAGE < dataPage < PHYSPAGE && MappedUpTo(mem, d, dataPage, 4)
    ensures KernelMapped(mem, d, dataPage) && NoUserPages(mem, d, 0)
  {
    hide Lookup;
  }

  lemma NoTablesIn(mem: Frames, d: nat)
    requires d in mem && mem[d] == Cleared()
    ensures TablesIn(mem, d) == {}
  {
  }

  /** What a process sees in the kernel part: physical memory from KERNBASE on, the kernel's text and
      read-only data write-protected, the devices at their own addresses, and nothing for the user. */
  function KernelEntry(dataPage: nat, b: nat): Pte
    requires KERNPAGE <= b < NPAGES
  {
    if b < KERNPAGE + PHYSPAGE then
      Pte(b - KERNPAGE, true, b - KERNPAGE < EXTPAGE || dataPage <= b - KERNPAGE, false)
    else if DEVPAGE <= b then Pte(b, true, true, false)
    else NOPTE
  }

  ghost predicate KernelMapped(mem: Frames, d: nat, dataPage: nat) {
    forall b: nat | KERNPAGE <= b < NPAGES :: Lookup(mem, d, b) == KernelEntry(dataPage, b)
  }

  /** No user page is mapped from page n on. */
  ghost predicate NoUserPages(mem: Frames, d: nat, n: nat) {
    forall b: nat | n <= b < KERNPAGE :: !Lookup(mem, d, b).present
  }

  /** What a process reads in its virtual page b. */
  ghost function Contents(mem: Frames, data: seq<Page>, d: nat, b: nat): Page {
    var p := Lookup(mem, d, b).page;
    if p < |data| then data[p] else ZeroPage()
  }

  /** The first n user pages of c are those of d, with the same flags and contents. */
  ghost predicate CopyOf(m0: Frames, data0: seq<Page>, d: nat, mem: Frames, data: seq<Page>, c: nat, n: nat) {
    forall b: nat | b < n ::
      && Lookup(m0, d, b).present
      && Lookup(mem, c, b) == Lookup(m0, d, b).(page := Lookup(mem, c, b).page)
      && Contents(mem, data, c, b) == Contents(m0, data0, d, b)
  }

  /** Directory d maps the same pages, and its user pages hold the same. */
  ghost predicate SameSpace(m0: Frames, data0: seq<Page>, mem: Frames, data: seq<Page>, d: nat) {
    && (forall b: nat :: Lookup(mem, d, b) == Lookup(m0, d, b))
    && (forall b: nat | b < KERNPAGE && Lookup(m0, d, b).present ::
         Contents(mem, data, d, b) == Contents(m0, data0, d, b))
  }

  /** Only pages that were free have new contents. */
  ghost predicate SameData(data: seq<Page>, data': seq<Page>, free: set<nat>) {
    |data'| == |data| && forall p: nat | p < |data| && p !in free :: data'[p] == data[p]
  }

  /** What is left of an address space without user pages once the first i page tables are gone. */
  ghost function Tables(owner: Owner, i: nat): Owner {
    map p | p in owner && !(owner[p].Table? && owner[p].i < i) :: owner[p]
  }

  lemma NoUserLeft(mem: Frames, d: nat, o: Owner, owner: Owner)
    requires o == Dropped(owner, Pages(0), Pages(KERNBASE)) && Owns(mem, d, o)
    ensures forall p | p in o :: !o[p].User?
  {
    assert Pages(0) == 0 && Pages(KERNBASE) == KERNPAGE;
  }

  lemma TablesAll(mem: Frames, d: nat, o: Owner)
    requires Owns(mem, d, o)
    ensures Tables(o, 0) == o && IsTable(mem, d)
  {
  }

  lemma TablesNext(mem: Frames, d: nat, o: Owner, i: nat)
    requires Owns(mem, d, o) && i < NENTRIES
    ensures |mem[d]| == NENTRIES
    ensures var p := mem[d][i].page;
            if mem[d][i].present then p in Tables(o, i) && p != d && Tables(o, i + 1) == Tables(o, i) - {p}
            else Tables(o, i + 1) == Tables(o, i)
  {
  }

  lemma TablesEnd(mem: Frames, d: nat, o: Owner)
    requires Owns(mem, d, o) && forall p | p in o :: !o[p].User?
    ensures Tables(o, NENTRIES) == map[d := Directory]
  {
  }

  lemma PoolFreed(freelist: seq<nat>, owner: Owner, p: nat)
    requires p in owner
    ensures Pool([p] + freelist, owner - {p}, {}) == Pool(freelist, owner, {}) && p in Pool(freelist, owner, {})
  {
    assert forall q | q in freelist :: q in [p] + freelist;
    assert ([p] + freelist)[0] == p;
  }

  lemma PoolTaken(fl0: seq<nat>, freelist: seq<nat>, owner: Owner, p: nat)
    requires Elements(fl0) == Elements(freelist) + {p}
    ensures Pool(fl0, owner, {}) == Pool(freelist, owner, {p})
    ensures p in Elements(fl0) && Elements(freelist) <= Elements(fl0)
  {
  }

  lemma MovesFreed(pool: set<nat>, mem: Frames, p: nat)
    requires p in pool
    ensures Moves(pool, pool, mem, mem - {p})
  {
  }

  /** All the pages an operation has to do with. */
  ghost function Pool(freelist: seq<nat>, owner: Owner, held: set<nat>): set<nat> {
    Elements(freelist) + owner.Keys + held
  }

  ghost predicate Moves(pool: set<nat>, pool': set<nat>, mem: Frames, mem': Frames) {
    pool' == pool && forall p | p in mem && p !in pool :: p in mem' && mem'[p] == mem[p]
  }

  lemma MovesNone(pool: set<nat>, mem: Frames)
    ensures Moves(pool, pool, mem, mem)
  {
  }

  lemma MovesTrans(pool: set<nat>, pool1: set<nat>, pool2: set<nat>, mem: Frames, mem1: Frames, mem2: Frames)
    requires Moves(pool, pool1, mem, mem1) && Moves(pool1, pool2, mem1, mem2)
    ensures Moves(pool, pool2, mem, mem2)
  {
  }

  /** What AllocPage leaves in its caller's hands. */
  ghost function Held(r: PageResult): set<nat> {
    if r.NoTable? then {r.held} else {}
  }

  datatype PageResult = NewPage(page: nat) | NoPage | NoTable(held: nat)

  /** The range is mapped, writable and for the user, to pages that were free; the rest is as it was. */
  ghost predicate NewlyMapped(mem: Frames, mem': Frames, d: nat, lo: nat, hi: nat, free: set<nat>) {
    && (forall b: nat | !(lo <= b < hi) :: Lookup(mem', d, b) == Lookup(mem, d, b))
    && (forall b: nat | lo <= b < hi ::
          var e := Lookup(mem', d, b); e == Pte(e.page, true, true, true) && e.page in free)
  }

  /** The same pages are mapped, to the same physical pages and with the same flags. */
  ghost predicate SameMapping(mem: Frames, mem': Frames, d: nat) {
    forall b: nat ::
      Lookup(mem', d, b) == Lookup(mem, d, b) || (!Lookup(mem, d, b).present && !Lookup(mem', d, b).present)
  }

  /** The address space has the same data pages; it may have more page tables. */
  ghost predicate SameUserPages(owner: Owner, owner': Owner) {
    && owner.Keys <= owner'.Keys && (forall p | p in owner :: owner'[p] == owner[p])
    && (forall p | p in owner' && p !in owner :: owner'[p].Table?)
  }

  /** owner' is owner with more page tables and with user pages of the range. */
  ghost predicate Extends(owner: Owner, owner': Owner, lo: nat, hi: nat) {
    && owner.Keys <= owner'.Keys && (forall p | p in owner :: owner'[p] == owner[p])
    && (forall p | p in owner' && p !in owner :: owner'[p].Table? || (owner'[p].User? && lo <= owner'[p].a < hi))
  }

  lemma Forget(mem: Frames, d: nat, owner: Owner, p: nat)
    requires Owns(mem, d, owner) && p !in owner
    ensures Owns(mem - {p}, d, owner) && forall b: nat :: Lookup(mem - {p}, d, b) == Lookup(mem, d, b)
  {
    forall b: nat ensures Lookup(mem - {p}, d, b) == Lookup(mem, d, b) {}
  }

  lemma UndonePages(mem: Frames, d: nat, owner: Owner, owner': Owner, lo: nat, hi: nat)
    requires Owns(mem, d, owner) && Extends(owner, owner', lo, hi)
    requires forall b: nat | lo <= b < hi :: !Lookup(mem, d, b).present
    ensures SameUserPages(owner, Dropped(owner', lo, hi))
  {
  }

  lemma UndoneMapping(m0: Frames, m: Frames, m1: Frames, m2: Frames, d: nat, lo: nat, a: nat, hi: nat, free: set<nat>)
    requires NewlyMapped(m0, m, d, lo, a, free) && a <= hi && (forall b: nat :: Lookup(m1, d, b) == Lookup(m, d, b))
    requires Unmapped(m1, m2, d, lo, hi) && forall b: nat | lo <= b < hi :: !Lookup(m0, d, b).present
    ensures SameMapping(m0, m2, d)
  {
    hide Lookup;
  }

  lemma DroppedTwice(owner: Owner, lo: nat, a: nat)
    requires lo <= a
    ensures forall a': nat | a <= a' :: Dropped(Dropped(owner, lo, a), a, a') == Dropped(owner, lo, a')
  {
  }

  lemma UnmappedTwice(m0: Frames, m1: Frames, m2: Frames, d: nat, lo: nat, a: nat, a': nat)
    requires Unmapped(m0, m1, d, lo, a) && Unmapped(m1, m2, d, a, a') && lo <= a <= a'
    ensures Unmapped(m0, m2, d, lo, a')
  {
    hide Lookup;
  }

  /** What was mapped in the range is unmapped; nothing else changes. */
  ghost predicate Unmapped(mem: Frames, mem': Frames, d: nat, lo: nat, hi: nat) {
    forall b: nat ::
      Lookup(mem', d, b) == if lo <= b < hi && Lookup(mem, d, b).present then NOPTE else Lookup(mem, d, b)
  }

  /** The owner map without the user pages of a range. */
  ghost function Dropped(owner: Owner, lo: nat, hi: nat): Owner {
    map p | p in owner && !(owner[p].User? && lo <= owner[p].a < hi) :: owner[p]
  }

  lemma DroppedNone(owner: Owner, lo: nat)
    ensures Dropped(owner, lo, lo) == owner
  {
  }

  lemma DroppedGap(mem: Frames, d: nat, owner: Owner, lo: nat, a: nat, a': nat)
    requires Owns(mem, d, owner) && lo <= a <= a' && forall b: nat | a <= b < a' :: !Lookup(mem, d, b).present
    ensures Dropped(owner, lo, a') == Dropped(owner, lo, a)
  {
  }

  lemma DroppedOne(mem: Frames, d: nat, owner: Owner, lo: nat, a: nat)
    requires Owns(mem, d, owner) && lo <= a < KERNPAGE && Lookup(mem, d, a).present
    ensures Dropped(owner, lo, a + 1) == Dropped(owner, lo, a) - {Lookup(mem, d, a).page}
  {
  }

  lemma NothingMapped(mem: Frames, d: nat, a: nat)
    requires IsTable(mem, d) && a < NPAGES && !mem[d][Pdx(a)].present
    ensures a < (Pdx(a) + 1) * NENTRIES
    ensures forall b: nat | a <= b < (Pdx(a) + 1) * NENTRIES :: !Lookup(mem, d, b).present
  {
    forall b: nat | a <= b < (Pdx(a) + 1) * NENTRIES ensures !Lookup(mem, d, b).present {
      assert Pdx(b) == Pdx(a);
    }
  }

  lemma LookupIs(mem: Frames, d: nat, a: nat)
    requires IsTable(mem, d) && a < NPAGES && mem[d][Pdx(a)].present && IsTable(mem, mem[d][Pdx(a)].page)
    ensures Lookup(mem, d, a) == mem[mem[d][Pdx(a)].page][Ptx(a)]
  {
  }

  /** A user page is neither the directory nor a page table. */
  lemma NotATable(mem: Frames, d: nat, owner: Owner, a: nat)
    requires Owns(mem, d, owner) && a < KERNPAGE && Lookup(mem, d, a).present
    ensures Lookup(mem, d, a).page != d
    ensures forall i: nat | i < NENTRIES && mem[d][i].present :: mem[d][i].page != Lookup(mem, d, a).page
  {
  }

  lemma FreeThenClear(mem: Frames, d: nat, a: nat, p: nat)
    requires IsTable(mem, d) && a < NPAGES && IsTable(mem, mem[d][Pdx(a)].page) && p != d && p != mem[d][Pdx(a)].page
    ensures WithEntry(mem - {p}, d, a, NOPTE) == WithEntry(mem, d, a, NOPTE) - {p}
  {
  }

  /** Forgetting the contents of a page that is no table. */
  lemma FreedEntry(mem: Frames, d: nat, owner: Owner, a: nat, p: nat)
    requires Owns(mem, d, owner) && a < KERNPAGE && mem[d][Pdx(a)].present && Lookup(mem, d, a).present
    requires p == Lookup(mem, d, a).page
    ensures IsTable(mem, mem[d][Pdx(a)].page)
    ensures var mem' := WithEntry(mem, d, a, NOPTE);
            && (forall b: nat :: Lookup(mem' - {p}, d, b) == Lookup(mem', d, b))
            && Owns(mem' - {p}, d, owner - {p})
  {
    hide WithEntry;
    UnmapUser(mem, d, owner, a);
    WriteEntry(mem, d, owner, a, NOPTE);
    NotATable(mem, d, owner, a);
    TablesStay(mem, d, owner, a, NOPTE);
    SetEntryFrame(mem, d, a, NOPTE);
    var mem' := WithEntry(mem, d, a, NOPTE);
    forall b: nat ensures Lookup(mem' - {p}, d, b) == Lookup(mem', d, b) {}
  }

  lemma SetEntryFrame(mem: Frames, d: nat, a: nat, e: Pte)
    requires IsTable(mem, d) && a < NPAGES && IsTable(mem, mem[d][Pdx(a)].page)
    ensures WithEntry(mem, d, a, e).Keys == mem.Keys
    ensures forall p | p in mem && p != mem[d][Pdx(a)].page :: WithEntry(mem, d, a, e)[p] == mem[p]
  {
  }

  lemma PagesBelow(a: nat, sz: nat)
    ensures a * PGSIZE < sz <==> a < Pages(sz)
  {
  }

  lemma PagesOrder(sz: nat, sz': nat)
    requires sz <= sz' < KERNBASE
    ensures Pages(sz) <= Pages(sz') <= KERNPAGE
  {
  }

  /** The free pages that mapping pages lo to hi takes: one each, and one for every page table missing. */
  ghost function Needs(mem: Frames, d: nat, lo: nat, hi: nat): nat
    requires lo <= hi
  {
    hi - lo + |TablesFor(lo, hi) - TablesIn(mem, d)|
  }

  /** The directory entries in use. */
  ghost function TablesIn(mem: Frames, d: nat): set<nat> {
    if d in mem then set i: nat | i < |mem[d]| && mem[d][i].present else {}
  }

  /** Directory entry i is one that pages lo to hi go through. */
  predicate GoesThrough(i: nat, lo: nat, hi: nat) {
    lo < hi && Pdx(lo) <= i <= Pdx(hi - 1)
  }

  ghost function TablesFor(lo: nat, hi: nat): set<nat> {
    set i: nat | i <= Pdx(hi) && GoesThrough(i, lo, hi)
  }

  lemma TablesInAt(mem: Frames, d: nat, i: nat)
    requires d in mem && i < |mem[d]|
    ensures i in TablesIn(mem, d) <==> mem[d][i].present
    ensures mem[d][i].present ==> TablesIn(mem, d) == TablesIn(mem, d) + {i}
    ensures TablesIn(mem, d) == TablesIn(mem, d) + {}
  {
  }

  /** Free pages have only become page tables for the given entries, or pages handed out. */
  ghost predicate Counted(free: nat, free': nat, mem: Frames, mem': Frames, d: nat, tables: set<nat>, pages: nat) {
    && free' + |TablesIn(mem', d)| + pages == free + |TablesIn(mem, d)|
    && TablesIn(mem', d) == TablesIn(mem, d) + tables
  }

  lemma CountedNone(mem: Frames, d: nat, i: nat, free: nat)
    requires d in mem && i < |mem[d]|
    ensures Counted(free, free, mem, mem, d, {}, 0)
    ensures mem[d][i].present ==> Counted(free, free, mem, mem, d, {i}, 0)
  {
    TablesInAt(mem, d, i);
  }

  lemma CountedTable(mem: Frames, d: nat, i: nat, t: nat, e: Pte, free: nat)
    requires d in mem && t != d && i < |mem[d]| && !mem[d][i].present && e.present
    ensures Counted(free + 1, free, mem, mem[t := Cleared()][d := mem[d][i := e]], d, {i}, 0)
  {
    TablesInMore(mem, d, i, t, e);
  }

  lemma CountedSame(free: nat, free': nat, m0: Frames, m1: Frames, m2: Frames, d: nat, tables: set<nat>, pages: nat)
    requires Counted(free, free', m0, m1, d, tables, pages) && d in m1 && d in m2 && m1[d] == m2[d]
    ensures Counted(free, free', m0, m2, d, tables, pages)
  {
    TablesInSame(m1, m2, d);
  }

  lemma CountedTrans(f0: nat, f1: nat, f2: nat, m0: Frames, m1: Frames, m2: Frames, d: nat, t1: set<nat>, t2: set<nat>,
                     n1: nat, n2: nat)
    requires Counted(f0, f1, m0, m1, d, t1, n1) && Counted(f1, f2, m1, m2, d, t2, n2)
    ensures Counted(f0, f2, m0, m2, d, t1 + t2, n1 + n2)
  {
  }

  lemma CountedStart(mem: Frames, d: nat, free: nat)
    ensures Counted(free, free, mem, mem, d, {}, 0)
  {
  }

  /** When the next page finds too few free pages, all of the pages needed more than there were. */
  lemma TablesShort(f0: nat, f1: nat, m0: Frames, m1: Frames, d: nat, lo: nat, a: nat, hi: nat, pages: nat, each: nat)
    requires Counted(f0, f1, m0, m1, d, TablesFor(lo, a), pages) && lo <= a < hi
    requires f1 < each + if Pdx(a) in TablesIn(m1, d) then 0 else 1
    ensures f0 < pages + each + |TablesFor(lo, hi) - TablesIn(m0, d)|
  {
    hide TablesIn, TablesFor;
    StillMissing(TablesIn(m0, d), lo, a, hi);
  }

  lemma TablesEnough(f0: nat, f1: nat, m0: Frames, m1: Frames, d: nat, lo: nat, hi: nat, pages: nat)
    requires Counted(f0, f1, m0, m1, d, TablesFor(lo, hi), pages)
    ensures f0 == f1 + pages + |TablesFor(lo, hi) - TablesIn(m0, d)|
  {
    hide TablesIn, TablesFor;
    Added(TablesIn(m0, d), TablesFor(lo, hi));
  }

  lemma TableTaken(fl0: seq<nat>, fl: seq<nat>, owner: Owner, mem: Frames, d: nat, i: nat, t: nat, dir: seq<Pte>)
    requires Elements(fl0) == Elements(fl) + {t} && d in owner
    ensures Moves(Pool(fl0, owner, {}), Pool(fl, owner[t := Table(i)], {}), mem, mem[t := Cleared()][d := dir])
    ensures Elements(fl) <= Elements(fl0)
  {
  }

  lemma StillOut(fl0: seq<nat>, fl: seq<nat>, p: nat)
    requires Elements(fl) <= Elements(fl0) && p !in fl0
    ensures p !in fl
  {
    assert p in fl ==> p in Elements(fl);
  }

  /** A page in the caller's hands takes no part. */
  lemma HoldsOn(fl0: seq<nat>, o0: Owner, fl: seq<nat>, o: Owner, p: nat, m0: Frames, m: Frames)
    requires Moves(Pool(fl0, o0, {}), Pool(fl, o, {}), m0, m)
    ensures Moves(Pool(fl0, o0, {p}), Pool(fl, o, {p}), m0, m)
  {
    assert Pool(fl0, o0, {p}) == Pool(fl0, o0, {}) + {p} && Pool(fl, o, {p}) == Pool(fl, o, {}) + {p};
  }

  lemma WrittenMoves(pool: set<nat>, fl: seq<nat>, o: Owner, m0: Frames, m: Frames, m': Frames, t: nat)
    requires Moves(pool, Pool(fl, o, {}), m0, m) && t in o && m'.Keys == m.Keys
    requires forall q | q in m && q != t :: m'[q] == m[q]
    ensures Moves(pool, Pool(fl, o, {}), m0, m')
  {
  }

  lemma MappedMoves(fl0: seq<nat>, o0: Owner, fl: seq<nat>, o: Owner, p: nat, use: Use, m0: Frames, m: Frames,
                    m': Frames, t: nat)
    requires Moves(Pool(fl0, o0, {p}), Pool(fl, o, {p}), m0, m) && t in o && m'.Keys == m.Keys
    requires forall q | q in m && q != t :: m'[q] == m[q]
    ensures Moves(Pool(fl0, o0, {p}), Pool(fl, o[p := use], {}), m0, m')
  {
    assert Pool(fl, o[p := use], {}) == Pool(fl, o, {p});
  }

  lemma TablesInMore(mem: Frames, d: nat, i: nat, t: nat, e: Pte)
    requires d in mem && t != d && i < |mem[d]| && !mem[d][i].present && e.present
    ensures var mem' := mem[t := Cleared()][d := mem[d][i := e]];
            TablesIn(mem', d) == TablesIn(mem, d) + {i} && |TablesIn(mem', d)| == |TablesIn(mem, d)| + 1
  {
    var mem' := mem[t := Cleared()][d := mem[d][i := e]];
    assert TablesIn(mem', d) == TablesIn(mem, d) + {i};
  }

  lemma TablesInSame(mem: Frames, mem': Frames, d: nat)
    requires d in mem && d in mem' && mem[d] == mem'[d]
    ensures TablesIn(mem', d) == TablesIn(mem, d)
  {
  }

  lemma NoTables(lo: nat)
    ensures TablesFor(lo, lo) == {}
  {
  }

  lemma OneMoreTable(lo: nat, a: nat)
    requires lo <= a
    ensures TablesFor(lo, a + 1) == TablesFor(lo, a) + {Pdx(a)}
  {
    forall i: nat ensures GoesThrough(i, lo, a + 1) <==> GoesThrough(i, lo, a) || i == Pdx(a) {
      PdxNext(a);
    }
    PdxNext(a);
  }

  lemma PdxNext(a: nat)
    ensures Pdx(a) <= Pdx(a + 1) <= Pdx(a) + 1 && (a > 0 ==> Pdx(a - 1) <= Pdx(a) <= Pdx(a - 1) + 1)
  {
  }

  lemma Added(p: set<nat>, t: set<nat>)
    ensures |p + t| == |p| + |t - p|
  {
    assert p + t == p + (t - p);
  }

  /** The tables the pages from lo on have got so far, and the next one if it is missing, are among
      those that all of them need. */
  lemma StillMissing(p: set<nat>, lo: nat, a: nat, hi: nat)
    requires lo <= a < hi
    ensures var now := p + TablesFor(lo, a);
            |now| - |p| + (if Pdx(a) in now then 0 else 1) <= |TablesFor(lo, hi) - p|
  {
    hide TablesFor;
    var now, more := p + TablesFor(lo, a), TablesFor(lo, a + 1) - p;
    OneMoreTable(lo, a);
    Added(p, TablesFor(lo, a));
    TablesWithin(lo, a + 1, hi);
    if Pdx(a) !in now {
      assert more == (TablesFor(lo, a) - p) + {Pdx(a)};
    } else {
      assert more == TablesFor(lo, a) - p;
    }
    SubsetCount(more, TablesFor(lo, hi) - p);
  }

  lemma TablesWithin(lo: nat, a: nat, hi: nat)
    requires lo <= a <= hi
    ensures TablesFor(lo, a) <= TablesFor(lo, hi)
  {
    forall i: nat | GoesThrough(i, lo, a) ensures GoesThrough(i, lo, hi) && i <= Pdx(hi) {
      PdxMonotone(a - 1, hi - 1);
      PdxMonotone(hi - 1, hi);
    }
  }

  lemma PdxMonotone(a: nat, b: nat)
    requires a <= b
    ensures Pdx(a) <= Pdx(b)
  {
  }

  lemma OwnsTable(mem: Frames, d: nat, owner: Owner, a: nat)
    requires Owns(mem, d, owner) && a < NPAGES
    ensures IsTable(mem, d) && d in owner && Pdx(a) < NENTRIES
    ensures mem[d][Pdx(a)].present ==>
              IsTable(mem, mem[d][Pdx(a)].page) && mem[d][Pdx(a)].page in owner && mem[d][Pdx(a)].page != d
  {
  }

  lemma SameDataNone(data: seq<Page>, free: set<nat>)
    ensures SameData(data, data, free)
  {
  }

  lemma SameDataTrans(data: seq<Page>, data1: seq<Page>, data2: seq<Page>, free1: set<nat>, free: set<nat>)
    requires SameData(data, data1, free) && SameData(data1, data2, free1) && free1 <= free
    ensures SameData(data, data2, free)
  {
  }

  /** Pages in use keep their contents while others are filled. */
  lemma ContentsStay(m: Frames, m': Frames, data: seq<Page>, data': seq<Page>, d: nat, owner: Owner, freelist: seq<nat>,
                     lo: nat, hi: nat)
    requires Owns(m, d, owner) && SameData(data, data', Elements(freelist)) && hi <= KERNPAGE
    requires forall p | p in owner :: p !in freelist && p < |data|
    requires forall b: nat | lo <= b < hi :: Lookup(m, d, b).present && Lookup(m', d, b) == Lookup(m, d, b)
    ensures forall b: nat | lo <= b < hi :: Contents(m', data', d, b) == Contents(m, data, d, b)
  {
    hide Lookup;
    assert forall p | p in owner :: p !in Elements(freelist);
  }

  lemma UserPage(mem: Frames, d: nat, n: nat)
    requires NoUserPages(mem, d, n) && n < KERNPAGE
    ensures !Lookup(mem, d, n).present
  {
  }

  lemma NewDirectory(fl0: seq<nat>, freelist: seq<nat>, mem: Frames, d: nat)
    requires Elements(fl0) == Elements(freelist) + {d}
    ensures Moves(Pool(fl0, map[], {}), Pool(freelist, map[d := Directory], {}), mem, mem[d := Cleared()])
  {
  }

  /** An address space none of whose pages took part in an operation is as it was. */
  lemma ParentKept(fl0: seq<nat>, freelist: seq<nat>, m0: Frames, mem: Frames, data0: seq<Page>, data: seq<Page>,
                   d: nat, owner: Owner, owner': Owner)
    requires Owns(m0, d, owner) && (forall p | p in owner :: p !in fl0 && p < |data0|)
    requires Moves(Pool(fl0, map[], {}), Pool(freelist, owner', {}), m0, mem) && SameData(data0, data, Elements(fl0))
    ensures Owns(mem, d, owner) && SameSpace(m0, data0, mem, data, d) && owner.Keys !! owner'.Keys
    ensures forall p | p in owner :: p !in freelist
  {
    hide Owns, Lookup, SameSpace;
    assert forall p | p in freelist :: p in Pool(freelist, owner', {});
    assert forall p | p in owner :: p !in Pool(fl0, map[], {});
    TablesKept(m0, mem, d, owner);
    ContentsKept(m0, mem, data0, data, d, owner, Elements(fl0));
  }

  lemma TablesKept(m0: Frames, mem: Frames, d: nat, owner: Owner)
    requires Owns(m0, d, owner) && forall p | p in owner && p in m0 :: p in mem && mem[p] == m0[p]
    ensures Owns(mem, d, owner) && forall b: nat :: Lookup(mem, d, b) == Lookup(m0, d, b)
  {
    forall b: nat ensures Lookup(mem, d, b) == Lookup(m0, d, b) {
      if b < NPAGES && m0[d][Pdx(b)].present {
        assert m0[d][Pdx(b)].page in owner;
      }
    }
  }

  lemma ContentsKept(m0: Frames, mem: Frames, data0: seq<Page>, data: seq<Page>, d: nat, owner: Owner, free: set<nat>)
    requires Owns(m0, d, owner) && (forall b: nat :: Lookup(mem, d, b) == Lookup(m0, d, b))
    requires SameData(data0, data, free) && forall p | p in owner :: p !in free && p < |data0|
    ensures SameSpace(m0, data0, mem, data, d)
  {
    hide Lookup;
  }

  /** The pages copying the first n user pages takes: the kernel part, the pages, and their page tables. */
  function CopyPages(n: nat): nat {
    KERNELPAGES + n + (n + NENTRIES - 1) / NENTRIES
  }

  /** The first page from a on that is not mapped. */
  ghost function FirstMissing(mem: Frames, d: nat, a: nat, n: nat): (m: nat)
    requires a <= n
    ensures a <= m <= n && (m < n ==> !Lookup(mem, d, m).present)
    ensures forall b: nat | a <= b < m :: Lookup(mem, d, b).present
    decreases n - a
  {
    if a == n || !Lookup(mem, d, a).present then a else FirstMissing(mem, d, a + 1, n)
  }

  lemma PagesAtMost(sz: nat)
    requires sz <= KERNBASE
    ensures Pages(sz) <= KERNPAGE
  {
  }

  lemma CopyMonotone(a: nat, b: nat)
    requires a <= b
    ensures CopyPages(a) <= CopyPages(b)
  {
  }

  /** The next page needs a page table of its own exactly at the start of one. */
  lemma CopyStep(fl: seq<nat>, fl': seq<nat>, m: Frames, m': Frames, c: nat, a: nat, ok: bool)
    requires a < KERNPAGE && TablesIn(m, c) == KernelTables() + TablesFor(0, a)
    requires ok <==> |fl| > if Pdx(a) in TablesIn(m, c) then 0 else 1
    requires ok ==> Counted(|fl|, |fl'|, m, m', c, {Pdx(a)}, 1)
    ensures ok <==> |fl| >= CopyPages(a + 1) - CopyPages(a)
    ensures ok ==>
              && |fl'| == |fl| - (CopyPages(a + 1) - CopyPages(a))
              && TablesIn(m', c) == KernelTables() + TablesFor(0, a + 1)
  {
    hide TablesIn, KernelTables, TablesFor, CopyPages;
    OneMoreTable(0, a);
    KernelTablesCount();
    TableStart(a);
    CopyCost(a);
    assert KernelTables() + TablesFor(0, a + 1) == TablesIn(m, c) + {Pdx(a)};
    if Pdx(a) in TablesIn(m, c) {
      assert TablesIn(m, c) + {Pdx(a)} == TablesIn(m, c);
    } else {
      Added(TablesIn(m, c), {Pdx(a)});
    }
  }

  lemma TableStart(a: nat)
    requires a < KERNPAGE
    ensures Pdx(a) in TablesFor(0, a) <==> a % NENTRIES != 0
    ensures Pdx(a) < 512
  {
    assert Pdx(a) in TablesFor(0, a) <==> GoesThrough(Pdx(a), 0, a);
  }

  lemma CopyCost(a: nat)
    ensures CopyPages(a + 1) - CopyPages(a) == if a % NENTRIES == 0 then 2 else 1
  {
  }

  lemma CopyNone(m0: Frames, data0: seq<Page>, d: nat, mem: Frames, data: seq<Page>, c: nat)
    ensures CopyOf(m0, data0, d, mem, data, c, 0)
  {
  }

  lemma SameEntry(m0: Frames, data0: seq<Page>, mem: Frames, data: seq<Page>, d: nat, owner: Owner, a: nat)
    requires SameSpace(m0, data0, mem, data, d) && Owns(mem, d, owner) && a < KERNPAGE
    ensures Lookup(mem, d, a) == Lookup(m0, d, a)
    ensures Lookup(mem, d, a).present ==> Lookup(mem, d, a).page in owner
    ensures Lookup(mem, d, a).present && Lookup(mem, d, a).page < |data| ==>
              data[Lookup(mem, d, a).page] == Contents(m0, data0, d, a)
  {
    hide Lookup;
  }

  lemma CopyMoves(pool: set<nat>, fl: seq<nat>, o: Owner, fl': seq<nat>, o': Owner, held: set<nat>,
                  m0: Frames, m: Frames, m': Frames)
    requires Moves(pool, Pool(fl, o, {}), m0, m) && Moves(Pool(fl, o, {}), Pool(fl', o', held), m, m')
    ensures Moves(pool, Pool(fl', o', held), m0, m')
  {
    MovesTrans(pool, Pool(fl, o, {}), Pool(fl', o', held), m0, m, m');
  }

  lemma CopyData(data0: seq<Page>, data: seq<Page>, data': seq<Page>, fl0: seq<nat>, fl: seq<nat>, o: Owner,
                 m0: Frames, m: Frames)
    requires SameData(data0, data, Elements(fl0)) && SameData(data, data', Elements(fl))
    requires Moves(Pool(fl0, map[], {}), Pool(fl, o, {}), m0, m)
    ensures SameData(data0, data', Elements(fl0))
  {
    assert Elements(fl) <= Pool(fl, o, {}) && Pool(fl0, map[], {}) == Elements(fl0);
    SameDataTrans(data0, data, data', Elements(fl), Elements(fl0));
  }

  lemma CopyMore(m0: Frames, data0: seq<Page>, d: nat, m: Frames, data: seq<Page>, m': Frames, data': seq<Page>, c: nat,
                 o: Owner, fl: seq<nat>, a: nat, dataPage: nat)
    requires CopyOf(m0, data0, d, m, data, c, a) && KernelMapped(m, c, dataPage) && NoUserPages(m, c, a) && a < KERNPAGE
    requires Owns(m, c, o) && SameData(data, data', Elements(fl)) && forall p | p in o :: p !in fl && p < |data|
    requires forall b: nat | b != a :: Lookup(m', c, b) == Lookup(m, c, b)
    requires Lookup(m0, d, a).present && Lookup(m', c, a) == Lookup(m0, d, a).(page := Lookup(m', c, a).page)
    requires Contents(m', data', c, a) == Contents(m0, data0, d, a)
    ensures CopyOf(m0, data0, d, m', data', c, a + 1) && KernelMapped(m', c, dataPage) && NoUserPages(m', c, a + 1)
  {
    hide Lookup, Owns, Contents, SameData, KernelEntry;
    ContentsStay(m, m', data, data', c, o, fl, 0, a);
  }
}
