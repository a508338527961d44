/** x86 two-level page tables (32-bit paging) as a structure over physical pages: which pages an
    address space owns, and what writing one entry does to it. */
module PageTables {
  const NENTRIES := 1024
  const KERNPAGE := 0x8_0000      // KERNBASE / PGSIZE: user pages lie below
  const NPAGES := 0x10_0000       // virtual pages in all

  /** A page directory or page table entry: a physical page and the flags P, W and U. */
  datatype Pte = Pte(page: nat, present: bool, writable: bool, user: bool)

  const NOPTE := Pte(0, false, false, false)

  /** The contents of the physical pages that serve as page directories and page tables. */
  type Frames = map<nat, seq<Pte>>

  function Pdx(a: nat): nat { a / NENTRIES }
  function Ptx(a: nat): nat { a % NENTRIES }

  function Cleared(): (t: seq<Pte>)
    ensures |t| == NENTRIES && forall i: nat | i < NENTRIES :: t[i] == NOPTE
  {
    seq(NENTRIES, i => NOPTE)
  }

  predicate IsTable(mem: Frames, p: nat) {
    p in mem && |mem[p]| == NENTRIES
  }

  /** What walking the tables finds for virtual page a; NOPTE where there is no page table. */
  function Lookup(mem: Frames, d: nat, a: nat): Pte {
    if a < NPAGES && IsTable(mem, d) && mem[d][Pdx(a)].present && IsTable(mem, mem[d][Pdx(a)].page)
    then mem[mem[d][Pdx(a)].page][Ptx(a)] else NOPTE
  }

  /** What an address space uses a physical page for. */
  datatype Use = Directory | Table(i: nat) | User(a: nat)

  type Owner = map<nat, Use>

  /** The pages directory d uses, each for one purpose: the directory itself, a page table for each
      present directory entry, and a page for each present entry of the user part. */
  ghost predicate Owns(mem: Frames, d: nat, owner: Owner) {
    && IsTable(mem, d) && d in owner && owner[d] == Directory
    && (forall i: nat | i < NENTRIES && mem[d][i].present ::
          IsTable(mem, mem[d][i].page) && mem[d][i].page in owner && owner[mem[d][i].page] == Table(i))
    && (forall a: nat | a < KERNPAGE && Lookup(mem, d, a).present ::
          Lookup(mem, d, a).page in owner && owner[Lookup(mem, d, a).page] == User(a))
    && (forall p | p in owner && owner[p].Directory? :: p == d)
    && (forall p | p in owner && owner[p].Table? ::
          owner[p].i < NENTRIES && mem[d][owner[p].i].present && mem[d][owner[p].i].page == p)
    && (forall p | p in owner && owner[p].User? ::
          owner[p].a < KERNPAGE && Lookup(mem, d, owner[p].a).present && Lookup(mem, d, owner[p].a).page == p)
  }

  /** An empty directory owns itself. */
  lemma EmptyOwns(mem: Frames, d: nat)
    requires d in mem && mem[d] == Cleared()
    ensures Owns(mem, d, map[d := Directory])
    ensures forall a: nat :: Lookup(mem, d, a) == NOPTE
  {
  }

  /** walkpgdir's new page table: it maps nothing yet. */
  lemma AddTable(mem: Frames, d: nat, owner: Owner, i: nat, t: nat)
    requires Owns(mem, d, owner) && i < NENTRIES && !mem[d][i].present && t !in owner
    ensures var mem' := mem[t := Cleared()][d := mem[d][i := Pte(t, true, true, true)]];
            && Owns(mem', d, owner[t := Table(i)])
            && (forall a: nat :: Lookup(mem', d, a) == Lookup(mem, d, a))
  {
    var mem' := mem[t := Cleared()][d := mem[d][i := Pte(t, true, true, true)]];
    forall a: nat ensures Lookup(mem', d, a) == Lookup(mem, d, a) {
      if a < NPAGES && Pdx(a) != i && mem[d][Pdx(a)].present {
        assert mem[d][Pdx(a)].page in owner;
      }
    }
  }

  /** Entry a of its page table becomes e. */
  ghost function WithEntry(mem: Frames, d: nat, a: nat, e: Pte): Frames
    requires IsTable(mem, d) && a < NPAGES && IsTable(mem, mem[d][Pdx(a)].page)
  {
    var t := mem[d][Pdx(a)].page;
    mem[t := mem[t][Ptx(a) := e]]
  }

  lemma WriteEntry(mem: Frames, d: nat, owner: Owner, a: nat, e: Pte)
    requires Owns(mem, d, owner) && a < NPAGES && mem[d][Pdx(a)].present
    ensures IsTable(mem, mem[d][Pdx(a)].page) && mem[d][Pdx(a)].page != d
    ensures WithEntry(mem, d, a, e)[d] == mem[d]
    ensures forall b: nat :: Lookup(WithEntry(mem, d, a, e), d, b) == if b == a then e else Lookup(mem, d, b)
  {
    var t := mem[d][Pdx(a)].page;
    assert t in owner && owner[t] == Table(Pdx(a));
    var mem' := WithEntry(mem, d, a, e);
    forall b: nat ensures Lookup(mem', d, b) == if b == a then e else Lookup(mem, d, b) {
      if b < NPAGES && mem[d][Pdx(b)].present {
        assert owner[mem[d][Pdx(b)].page] == Table(Pdx(b));
        assert Pdx(b) == Pdx(a) && Ptx(b) == Ptx(a) ==> b == a;
      }
    }
  }

  /** Mapping a page nobody owns at user page a. */
  lemma MapUser(mem: Frames, d: nat, owner: Owner, a: nat, e: Pte)
    requires Owns(mem, d, owner) && a < KERNPAGE && mem[d][Pdx(a)].present
    requires !Lookup(mem, d, a).present && e.present && e.page !in owner
    ensures IsTable(mem, mem[d][Pdx(a)].page)
    ensures Owns(WithEntry(mem, d, a, e), d, owner[e.page := User(a)])
  {
    hide Lookup, WithEntry;
    WriteEntry(mem, d, owner, a, e);
    TablesStay(mem, d, owner, a, e);
  }

  /** Writing an entry leaves every page table a page table. */
  lemma TablesStay(mem: Frames, d: nat, owner: Owner, a: nat, e: Pte)
    requires Owns(mem, d, owner) && a < NPAGES && mem[d][Pdx(a)].present
    ensures IsTable(mem, mem[d][Pdx(a)].page)
    ensures forall p: nat | IsTable(mem, p) :: IsTable(WithEntry(mem, d, a, e), p)
  {
  }

  /** Writing an entry of the kernel part changes nothing about ownership. */
  lemma MapKernel(mem: Frames, d: nat, owner: Owner, a: nat, e: Pte)
    requires Owns(mem, d, owner) && KERNPAGE <= a < NPAGES && mem[d][Pdx(a)].present
    ensures IsTable(mem, mem[d][Pdx(a)].page)
    ensures Owns(WithEntry(mem, d, a, e), d, owner)
  {
    hide Lookup, WithEntry;
    WriteEntry(mem, d, owner, a, e);
    TablesStay(mem, d, owner, a, e);
  }

  /** Unmapping user page a gives up its page. */
  lemma UnmapUser(mem: Frames, d: nat, owner: Owner, a: nat)
    requires Owns(mem, d, owner) && a < KERNPAGE && mem[d][Pdx(a)].present && Lookup(mem, d, a).present
    ensures IsTable(mem, mem[d][Pdx(a)].page)
    ensures Lookup(mem, d, a).page in owner && owner[Lookup(mem, d, a).page] == User(a)
    ensures Owns(WithEntry(mem, d, a, NOPTE), d, owner - {Lookup(mem, d, a).page})
  {
    hide Lookup, WithEntry;
    WriteEntry(mem, d, owner, a, NOPTE);
    TablesStay(mem, d, owner, a, NOPTE);
  }
}
