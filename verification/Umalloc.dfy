/** The Kernighan and Ritchie storage allocator (The C Programming Language, 2nd ed., section 8.7)
    over an address space counted in header units: a circular free list in address order, rooted
    at the static header base, that lies below everything sbrk hands out. */
module Umalloc {
  import opened Common

  type Fields = map<nat, nat>

  // ----- tiling -----

  /** Unit u lies in the block with header a. */
  predicate Within(size: Fields, a: nat, u: nat) {
    a in size && a <= u < a + size[a]
  }

  /** Every unit obtained from sbrk lies in exactly one block: home maps the unit to the block's
      header, and every unit of a block is mapped to that block. */
  ghost predicate Tiles(size: Fields, blocks: set<nat>, home: map<nat, nat>) {
    && (forall a | a in blocks :: a in size && size[a] > 0)
    && (forall u | u in home :: home[u] in blocks && Within(size, home[u], u))
    && (forall a, u | a in blocks && Within(size, a, u) :: u in home && home[u] == a)
  }

  /** The n units from b on go to block b. */
  ghost function Rehome(home: map<nat, nat>, b: nat, n: nat): (h: map<nat, nat>)
    ensures h.Keys == home.Keys
  {
    map u | u in home :: if b <= u < b + n then b else home[u]
  }

  lemma TilesSplit(size: Fields, blocks: set<nat>, home: map<nat, nat>, a: nat, n: nat)
    requires Tiles(size, blocks, home) && a in blocks && 0 < n < size[a]
    ensures var b := a + size[a] - n;
            b !in blocks && Tiles(size[a := size[a] - n][b := n], blocks + {b}, Rehome(home, b, n))
  {
    var b := a + size[a] - n;
    var size', blocks', home' := size[a := size[a] - n][b := n], blocks + {b}, Rehome(home, b, n);
    assert Within(size, a, b) && Within(size, b, b) == (b in size && size[b] > 0);
    forall u | u in home' ensures home'[u] in blocks' && Within(size', home'[u], u) {
      if b <= u < b + n { assert Within(size, a, u); }
    }
    forall c: nat, u: nat | c in blocks' && Within(size', c, u) ensures u in home' && home'[u] == c {
      if c == b { assert Within(size, a, u); } else { assert Within(size, c, u); }
      if b <= u < b + n { assert Within(size, a, u); }
    }
  }

  lemma TilesMerge(size: Fields, blocks: set<nat>, home: map<nat, nat>, a: nat, b: nat)
    requires Tiles(size, blocks, home) && a in blocks && b in blocks && a + size[a] == b
    ensures Tiles(size[a := size[a] + size[b]], blocks - {b}, Rehome(home, a, size[a] + size[b]))
  {
    var n := size[a] + size[b];
    var size', blocks', home' := size[a := n], blocks - {b}, Rehome(home, a, n);
    forall u: nat ensures a <= u < a + n <==> Within(size, a, u) || Within(size, b, u) {}
    forall u | u in home' ensures home'[u] in blocks' && Within(size', home'[u], u) {
      assert Within(size, home[u], u);
      assert home[u] == b ==> a <= u < a + n;
    }
    forall c: nat, u: nat | c in blocks' && Within(size', c, u) ensures u in home' && home'[u] == c {
      if c != a {
        assert Within(size, c, u);
        assert !Within(size, a, u) && !Within(size, b, u);
      }
    }
  }

  ghost function Fresh(p: nat, n: nat): (h: map<nat, nat>)
    ensures forall u: nat :: u in h <==> p <= u < p + n
    ensures forall u | u in h :: h[u] == p
  {
    if n == 0 then map[] else Fresh(p, n - 1)[p + n - 1 := p]
  }

  lemma TilesAdd(size: Fields, blocks: set<nat>, home: map<nat, nat>, p: nat, n: nat)
    requires Tiles(size, blocks, home) && n > 0 && forall u | u in home :: u < p
    ensures p !in blocks && Tiles(size[p := n], blocks + {p}, home + Fresh(p, n))
  {
    var size', blocks', home' := size[p := n], blocks + {p}, home + Fresh(p, n);
    assert forall a | a in blocks :: Within(size, a, a);
    forall u | u in home' ensures home'[u] in blocks' && Within(size', home'[u], u) {
      if u in home { assert Within(size, home[u], u); }
    }
    forall c: nat, u: nat | c in blocks' && Within(size', c, u) ensures u in home' && home'[u] == c {
      if c != p { assert Within(size, c, u); }
    }
  }

  /** Different blocks have no unit in common. */
  lemma BlocksDisjoint(size: Fields, blocks: set<nat>, home: map<nat, nat>, a: nat, b: nat)
    requires Tiles(size, blocks, home) && a in blocks && b in blocks && a < b
    ensures a + size[a] <= b
  {
    assert Within(size, b, b) && !Within(size, a, b);
  }

  // ----- the free list -----

  function After(n: nat, k: nat): (r: nat)
    requires k < n
    ensures r < n
  {
    if k + 1 < n then k + 1 else 0
  }

  /** The k-th entry of fl is linked to the next one, the last to the first. */
  ghost predicate Link(ptr: Fields, fl: seq<nat>, k: nat) {
    k < |fl| && fl[k] in ptr && ptr[fl[k]] == fl[After(|fl|, k)]
  }

  ghost predicate Circle(ptr: Fields, fl: seq<nat>) {
    forall k: nat | k < |fl| :: Link(ptr, fl, k)
  }

  /** In address order, and no block touches the next. */
  ghost predicate Ordered(size: Fields, fl: seq<nat>) {
    && (forall k: nat | k < |fl| :: fl[k] in size)
    && (forall j: nat, k: nat | j < k < |fl| :: fl[j] + size[fl[j]] < fl[k])
  }

  /** fl lists the free blocks, base first: in address order, linked in a circle with exactly one
      wrap, and no block touches the next. */
  ghost predicate FreeList(ptr: Fields, size: Fields, fl: seq<nat>, base: nat) {
    0 < |fl| && fl[0] == base && base in size && size[base] == 0 && Ordered(size, fl) && Circle(ptr, fl)
  }

  ghost function Members(fl: seq<nat>): set<nat> {
    set k: nat | 0 < k < |fl| :: fl[k]
  }

  lemma OrderedInsert(size: Fields, fl: seq<nat>, j: nat, b: nat)
    requires Ordered(size, fl) && j < |fl| && b in size && fl[j] + size[fl[j]] < b
    requires j + 1 < |fl| ==> b + size[b] < fl[j + 1]
    ensures Ordered(size, Insert(fl, j + 1, b))
  {
    hide Insert;
    var f := Insert(fl, j + 1, b);
    forall i: nat, k: nat | i < k < |f| ensures f[i] + size[f[i]] < f[k] {
      if i == j + 1 {
        assert f[k] == fl[k - 1] && fl[j + 1] <= fl[k - 1];
      } else if k == j + 1 {
        assert i == j || fl[i] + size[fl[i]] < fl[j];
      }
    }
  }

  lemma CircleInsert(ptr: Fields, size: Fields, fl: seq<nat>, j: nat, b: nat)
    requires Circle(ptr, fl) && Ordered(size, fl) && j < |fl| && b !in fl
    ensures Link(ptr, fl, j) && Circle(ptr[b := ptr[fl[j]]][fl[j] := b], Insert(fl, j + 1, b))
  {
    hide Insert;
    assert Link(ptr, fl, j);
    var f, p := Insert(fl, j + 1, b), ptr[b := ptr[fl[j]]][fl[j] := b];
    forall k: nat | k < |f| ensures Link(p, f, k) {
      if k < j {
        assert Link(ptr, fl, k) && fl[k] != fl[j] && fl[k] != b;
      } else if k > j + 1 {
        assert Link(ptr, fl, k - 1) && fl[k - 1] != fl[j] && fl[k - 1] != b;
      }
    }
  }

  lemma OrderedRemove(size: Fields, fl: seq<nat>, k: nat)
    requires Ordered(size, fl) && k < |fl|
    ensures Ordered(size, Remove(fl, k))
  {
    hide Remove;
  }

  lemma CircleRemove(ptr: Fields, size: Fields, fl: seq<nat>, k: nat)
    requires Circle(ptr, fl) && Ordered(size, fl) && 0 < k < |fl|
    ensures Link(ptr, fl, k) && Circle(ptr[fl[k - 1] := ptr[fl[k]]], Remove(fl, k))
  {
    hide Remove;
    assert Link(ptr, fl, k);
    var f, p := Remove(fl, k), ptr[fl[k - 1] := ptr[fl[k]]];
    forall i: nat | i < |f| ensures Link(p, f, i) {
      if i < k - 1 {
        assert Link(ptr, fl, i) && fl[i] != fl[k - 1];
      } else if i >= k {
        assert Link(ptr, fl, i + 1) && fl[i + 1] != fl[k - 1];
      }
    }
  }

  lemma OrderedResize(size: Fields, fl: seq<nat>, k: nat, s: nat)
    requires Ordered(size, fl) && k < |fl| && (k + 1 < |fl| ==> fl[k] + s < fl[k + 1])
    ensures Ordered(size[fl[k] := s], fl)
  {
    var size' := size[fl[k] := s];
    forall i: nat, m: nat | i < m < |fl| ensures fl[i] + size'[fl[i]] < fl[m] {
      if i == k {
        assert fl[k + 1] <= fl[m];
      }
    }
  }

  /** Fields of headers that are not on the list do not matter to it. */
  lemma ListFrame(ptr: Fields, size: Fields, fl: seq<nat>, base: nat, a: nat, p: nat, s: nat)
    requires FreeList(ptr, size, fl, base) && a !in fl
    ensures FreeList(ptr[a := p], size, fl, base) && FreeList(ptr, size[a := s], fl, base)
  {
    var ptr' := ptr[a := p];
    forall k: nat | k < |fl| ensures Link(ptr', fl, k) {
      assert Link(ptr, fl, k);
    }
  }

  /** Where block b belongs on the list: behind the last entry below it. */
  ghost function Place(fl: seq<nat>, b: nat): (j: nat)
    requires 0 < |fl| && fl[0] < b
    ensures j < |fl| && fl[j] < b && (j + 1 < |fl| ==> b <= fl[j + 1])
  {
    if |fl| == 1 || b <= fl[1] then 0 else 1 + Place(fl[1..], b)
  }

  /** free's two tests on an entry: they hold at the block's place and nowhere else. */
  lemma AtPlace(ptr: Fields, size: Fields, fl: seq<nat>, base: nat, b: nat, k: nat)
    requires FreeList(ptr, size, fl, base) && base < b && b !in fl && k < |fl|
    ensures 0 < |fl| && fl[0] < b && Link(ptr, fl, k)
    ensures var p, q := fl[k], ptr[fl[k]];
            k == Place(fl, b) <==> (b > p && b < q) || (p >= q && (b > p || b < q))
  {
    hide Place;
    assert Link(ptr, fl, k);
    var j := Place(fl, b);
    assert j < k ==> fl[j + 1] <= fl[k];
    assert k < j ==> fl[k + 1] <= fl[j];
  }

  lemma MembersInsert(fl: seq<nat>, j: nat, b: nat)
    requires j < |fl|
    ensures Members(Insert(fl, j + 1, b)) == Members(fl) + {b}
  {
    hide Insert;
    var f := Insert(fl, j + 1, b);
    forall x | x in Members(fl) ensures x in Members(f) {
      var k: nat :| 0 < k < |fl| && fl[k] == x;
      assert f[if k <= j then k else k + 1] == x;
    }
    assert f[j + 1] in Members(f);
  }

  lemma MembersRemove(size: Fields, fl: seq<nat>, k: nat)
    requires Ordered(size, fl) && 0 < k < |fl|
    ensures Members(Remove(fl, k)) == Members(fl) - {fl[k]}
  {
    hide Remove;
    var f := Remove(fl, k);
    forall x | x in Members(fl) && x != fl[k] ensures x in Members(f) {
      var i: nat :| 0 < i < |fl| && fl[i] == x;
      assert f[if i < k then i else i - 1] == x;
    }
  }

  /** Half way through free: block b is in no list, its neighbour above (if they touched) has been
      joined to it, and it belongs behind entry j. */
  ghost predicate Pending(ptr: Fields, size: Fields, fl: seq<nat>, base: nat, blocks: set<nat>, home: map<nat, nat>,
                          j: nat, b: nat)
  {
    && FreeList(ptr, size, fl, base) && Tiles(size, blocks, home) && Members(fl) <= blocks && base !in blocks
    && b in blocks && b !in fl && j < |fl| && fl[j] + size[fl[j]] <= b
    && (j + 1 < |fl| ==> b + size[b] < fl[j + 1])
  }

  lemma StayApart(ptr: Fields, size: Fields, fl: seq<nat>, base: nat, blocks: set<nat>, home: map<nat, nat>, b: nat)
    requires FreeList(ptr, size, fl, base) && Tiles(size, blocks, home) && Members(fl) <= blocks
    requires b in blocks && b !in fl && base < b && base !in blocks
    ensures var j := Place(fl, b);
            && fl[j] + size[fl[j]] <= b && (j + 1 < |fl| ==> b + size[b] <= fl[j + 1])
            && (j + 1 == |fl| || b + size[b] != fl[j + 1] ==> Pending(ptr, size, fl, base, blocks, home, j, b))
  {
    hide Place;
    var j := Place(fl, b);
    if j > 0 {
      assert fl[j] in Members(fl);
      BlocksDisjoint(size, blocks, home, fl[j], b);
    }
    if j + 1 < |fl| {
      assert fl[j + 1] in Members(fl);
      BlocksDisjoint(size, blocks, home, b, fl[j + 1]);
    }
  }

  /** free's first if: the block and the free block that follows it become one. */
  lemma JoinAbove(ptr: Fields, size: Fields, fl: seq<nat>, base: nat, blocks: set<nat>, home: map<nat, nat>, j: nat,
                  b: nat)
    requires FreeList(ptr, size, fl, base) && Tiles(size, blocks, home) && Members(fl) <= blocks && base !in blocks
    requires b in blocks && b !in fl && j + 1 < |fl| && fl[j] + size[fl[j]] <= b && b + size[b] == fl[j + 1]
    ensures Link(ptr, fl, j + 1) && fl[j + 1] in size
    ensures var n := size[b] + size[fl[j + 1]];
            Pending(ptr[fl[j] := ptr[fl[j + 1]]], size[b := n], Remove(fl, j + 1), base, blocks - {fl[j + 1]},
                    Rehome(home, b, n), j, b)
  {
    hide Tiles, Rehome;
    var next := fl[j + 1];
    assert next in Members(fl);
    TilesPositive(size, blocks, home, b);
    var n := size[b] + size[next];
    CircleRemove(ptr, size, fl, j + 1);
    OrderedRemove(size, fl, j + 1);
    MembersRemove(size, fl, j + 1);
    TilesMerge(size, blocks, home, b, next);
    var f := Remove(fl, j + 1);
    ListFrame(ptr[fl[j] := ptr[next]], size, f, base, b, 0, n);
    assert j + 1 < |f| ==> f[j + 1] == fl[j + 2];
  }

  lemma TilesPositive(size: Fields, blocks: set<nat>, home: map<nat, nat>, a: nat)
    requires Tiles(size, blocks, home) && a in blocks
    ensures a in size && size[a] > 0
  {
  }

  /** free's second if, when the block does not touch the one before it. */
  lemma LinkIn(ptr: Fields, size: Fields, fl: seq<nat>, base: nat, blocks: set<nat>, home: map<nat, nat>, j: nat,
               b: nat)
    requires Pending(ptr, size, fl, base, blocks, home, j, b) && fl[j] + size[fl[j]] != b
    ensures Link(ptr, fl, j)
    ensures FreeList(ptr[b := ptr[fl[j]]][fl[j] := b], size, Insert(fl, j + 1, b), base)
    ensures Members(Insert(fl, j + 1, b)) == Members(fl) + {b}
  {
    hide Insert;
    OrderedInsert(size, fl, j, b);
    CircleInsert(ptr, size, fl, j, b);
    MembersInsert(fl, j, b);
  }

  /** free's second if, when it does: the two become one. */
  lemma JoinBelow(ptr: Fields, size: Fields, fl: seq<nat>, base: nat, blocks: set<nat>, home: map<nat, nat>, j: nat,
                  b: nat)
    requires Pending(ptr, size, fl, base, blocks, home, j, b) && fl[j] + size[fl[j]] == b
    ensures var n := size[fl[j]] + size[b];
            && 0 < j && FreeList(ptr, size[fl[j] := n], fl, base)
            && Tiles(size[fl[j] := n], blocks - {b}, Rehome(home, fl[j], n))
  {
    assert fl[j] in Members(fl);
    OrderedResize(size, fl, j, size[fl[j]] + size[b]);
    TilesMerge(size, blocks, home, fl[j], b);
  }

  class Heap {
    const base: nat
    var freep: nat                // 0 until the first call of malloc
    var ptr: Fields
    var size: Fields

    ghost var fl: seq<nat>        // the free list from base on
    ghost var live: Fields        // the blocks handed out, with their sizes
    ghost var home: map<nat, nat> // the block each unit lies in

    ghost predicate Listed()
      reads this
    {
      freep in fl && Sound(ptr, size, fl, base, live, home)
    }

    ghost predicate Valid()
      reads this
    {
      0 < base && if freep == 0 then fl == [] && live == map[] && home == map[] else Listed()
    }

    constructor (base: nat)
      requires base > 0
      ensures Valid() && this.base == base && live == map[] && home == map[]
    {
      this.base, freep, ptr, size := base, 0, map[], map[];
      fl, live, home := [], map[], map[];
    }

    /** The blocks handed out, then and now, lie where they lay, and neither their headers nor anything
        else inside them has been written. */
    twostate predicate Undisturbed()
      reads this
    {
      Untouched(old(ptr), old(size), old(live), old(home), ptr, size, live, home)
    }

    /** The search loop of free: the entry behind which block bp belongs. */
    method FindPlace(bp: nat) returns (p: nat, ghost k: nat)
      requires FreeList(ptr, size, fl, base) && freep in fl && base < bp && bp !in fl
      ensures p == fl[Place(fl, bp)] && k == Place(fl, bp)
    {
      hide Place, FreeList;
      p := freep;
      k :| k < |fl| && fl[k] == freep;
      AtPlace(ptr, size, fl, base, bp, k);
      ghost var j := Place(fl, bp);
      while !(bp > p && bp < ptr[p])
        invariant k < |fl| && p == fl[k] && Link(ptr, fl, k)
        invariant k == j <==> (bp > p && bp < ptr[p]) || (p >= ptr[p] && (bp > p || bp < ptr[p]))
        decreases if k <= j then j - k else j + |fl| - k
      {
        if p >= ptr[p] && (bp > p || bp < ptr[p]) {
          break;
        }
        k := After(|fl|, k);
        p := ptr[p];
        AtPlace(ptr, size, fl, base, bp, k);
      }
    }

    /** free(ap), bp being the header of ap: the block goes back on the list, joined with the free
        blocks it touches on either side. No unit is lost, no other block handed out is touched. */
    method Free(bp: nat)
      requires Valid() && bp in live
      modifies this
      ensures Valid() && freep != 0 && live == old(live) - {bp} && home.Keys == old(home).Keys && Undisturbed()
      ensures exists a :: a in Members(fl) && a in size && a <= bp && bp + old(live)[bp] <= a + size[a]
    {
      hide Sound, PendingFor, Members, Place, FreeList, Untouched;
      LiveBlock(ptr, size, fl, base, live, home, bp);
      var p: nat;
      ghost var j: nat, ptr1: Fields;
      p, j := FindPlace(bp);
      FreeUnit(ptr, size, fl, base, live, home, j, p);
      OwnHeader(ptr, size, fl, base, live, home, bp);
      ptr1 := JoinNext(bp, p, j);
      JoinPrevious(bp, p, j, ptr1);
      ghost var k: nat :| k < |fl| && fl[k] == p;
      LinkAt(ptr, size, fl, base, live, home, k);
      freep := p;
      HeadersOnly(old(ptr), old(size), old(fl), base, old(live), old(home), ptr, size, fl, live, home, {p, bp});
    }

    /** The first if of free. ptr1 is the list as it would be without the block joined. */
    method JoinNext(bp: nat, p: nat, ghost j: nat) returns (ghost ptr1: Fields)
      requires Sound(ptr, size, fl, base, live, home) && bp in live && base < bp && j == Place(fl, bp) && p == fl[j]
      modifies this`ptr, this`size, this`fl, this`live, this`home
      ensures PendingFor(ptr1, size, fl, base, live, home, j, bp) && j < |fl| && fl[j] == p
      ensures live == old(live) - {bp} && home.Keys == old(home).Keys && p in size && bp in size
      ensures old(live)[bp] <= size[bp]
      ensures p in ptr1 && bp in ptr && ptr[p := bp] == ptr1[bp := ptr1[p]][p := bp]
      ensures ptr[p := ptr[bp]] == ptr1[bp := ptr[bp]]
      ensures ptr == old(ptr)[bp := ptr[bp]] && size == old(size)[bp := size[bp]]
    {
      hide Sound, PendingFor, Members, Place, FreeList, Rehome, Remove, Tiles;
      LinkAt(ptr, size, fl, base, live, home, j);
      ptr1 := ptr;
      if bp + size[bp] == ptr[p] {
        StartAbove(ptr, size, fl, base, live, home, bp);
        ptr1 := ptr[p := ptr[ptr[p]]];
        fl, home := Remove(fl, j + 1), Rehome(home, bp, size[bp] + size[ptr[p]]);
        size := size[bp := size[bp] + size[ptr[p]]];
        ptr := ptr[bp := ptr[ptr[p]]];
      } else {
        StartAlone(ptr, size, fl, base, live, home, bp);
        ptr := ptr[bp := ptr[p]];
      }
      live := live - {bp};
      PendingEntry(ptr1, size, fl, base, live, home, j, bp);
    }

    /** The second if of free. */
    method JoinPrevious(bp: nat, p: nat, ghost j: nat, ghost ptr1: Fields)
      requires PendingFor(ptr1, size, fl, base, live, home, j, bp) && j < |fl| && fl[j] == p && p in size && bp in size
      requires p in ptr1 && bp in ptr && ptr[p := bp] == ptr1[bp := ptr1[p]][p := bp]
      requires ptr[p := ptr[bp]] == ptr1[bp := ptr[bp]]
      modifies this`ptr, this`size, this`fl, this`home
      ensures Sound(ptr, size, fl, base, live, home) && p in fl && home.Keys == old(home).Keys
      ensures p in ptr && p in size && ptr == old(ptr)[p := ptr[p]] && size == old(size)[p := size[p]]
      ensures exists a :: a in Members(fl) && a in size && a <= bp && bp + old(size)[bp] <= a + size[a]
    {
      hide Sound, PendingFor, Members, Place, FreeList, Rehome, Insert, Tiles;
      if p + size[p] == bp {
        EndBelow(ptr1, size, fl, base, live, home, j, bp, ptr[bp]);
        home := Rehome(home, p, size[p] + size[bp]);
        size := size[p := size[p] + size[bp]];
        ptr := ptr[p := ptr[bp]];
        assert p in Members(fl) && p in size;
      } else {
        EndAlone(ptr1, size, fl, base, live, home, j, bp);
        fl := Insert(fl, j + 1, bp);
        ptr := ptr[p := bp];
        assert bp in Members(fl) && bp in size;
      }
    }

    /** morecore: ask the system for at least 4096 units and put them on the list. grant is what
        sbrk answers: None for failure, or the address of memory above all that came before. */
    method Morecore(nu: nat, grant: Option<nat>) returns (ok: bool)
      requires Valid() && freep != 0 && nu > 0
      requires grant.Some? ==> base < grant.value && forall u | u in home :: u < grant.value
      modifies this
      ensures Valid() && freep != 0 && live == old(live)
      ensures ok == grant.Some?
      ensures !ok ==> fl == old(fl) && size == old(size) && home == old(home)
      ensures ok ==> home.Keys == old(home).Keys + Fresh(grant.value, AtLeast(nu)).Keys
      ensures Undisturbed()
      ensures ok ==> exists a :: a in Members(fl) && a in size && size[a] >= AtLeast(nu)
    {
      hide Sound, Members, FreeList, Tiles, Fresh, Untouched;
      if grant.None? {
        SameHeap(ptr, size, live, home);
        return false;
      }
      var hp, n := grant.value, AtLeast(nu);
      NewBlock(ptr, size, fl, base, live, home, hp, n);
      size := size[hp := n];
      live, home := live[hp := n], home + Fresh(hp, n);
      ghost var size1, live1, home1 := size, live, home;
      Free(hp);
      assert live == old(live);
      NewUntouched(old(ptr), old(size), live, old(home), hp, n, size1, live1, home1, ptr, size, home);
      return true;
    }

    /** What malloc does with a block that is large enough: hand out all of it, or its upper end. */
    method TakeFrom(prevp: nat, p: nat, nunits: nat, ghost k: nat) returns (h: nat)
      requires 0 < base && Sound(ptr, size, fl, base, live, home) && 0 < k < |fl| && fl[k] == p && fl[k - 1] == prevp
      requires p in size && 0 < nunits <= size[p]
      modifies this
      ensures Valid() && freep != 0
      ensures h !in old(live) && live == old(live)[h := nunits] && home.Keys == old(home).Keys && Undisturbed()
    {
      hide Sound, Members, FreeList, Tiles, Rehome, Remove, Untouched;
      LinkAt(ptr, size, fl, base, live, home, k);
      LinkAt(ptr, size, fl, base, live, home, k - 1);
      FreeUnit(ptr, size, fl, base, live, home, k - 1, prevp);
      FreeUnit(ptr, size, fl, base, live, home, k, p);
      FreeUnit(ptr, size, fl, base, live, home, k, p + size[p] - nunits);
      h := p;
      if size[p] == nunits {
        HandOutAll(ptr, size, fl, base, live, home, k);
        ptr := ptr[prevp := ptr[p]];
        fl := Remove(fl, k);
      } else {
        HandOutEnd(ptr, size, fl, base, live, home, k, nunits);
        size := size[p := size[p] - nunits];
        h := p + size[p];
        size := size[h := nunits];
        home := Rehome(home, h, nunits);
      }
      live := live[h := nunits];
      freep := prevp;
      HeadersOnly(old(ptr), old(size), old(fl), base, old(live), old(home), ptr, size, fl, live, home, {prevp, p, h});
    }

    /** The initialisation at the start of malloc. */
    method StartList()
      requires Valid()
      modifies this
      ensures Valid() && freep != 0 && live == old(live) && home == old(home)
      ensures old(freep) != 0 ==> fl == old(fl) && size == old(size) && ptr == old(ptr) && freep == old(freep)
      ensures old(freep) == 0 ==> fl == [base]
    {
      if freep == 0 {
        ptr, size, freep := map[base := base], map[base := 0], base;
        fl := [base];
        EmptyList(ptr, size, base);
      }
    }

    /** The search loop of malloc on the list as it stands: the first entry after freep, going
        round, that has nunits units, together with the one before it. None if there is none. */
    method Search(nunits: nat) returns (r: Option<(nat, nat)>, ghost k: nat)
      requires Valid() && freep != 0 && nunits > 0
      ensures r.None? ==> forall a | a in Members(fl) :: a in size && size[a] < nunits
      ensures r.Some? ==> && 0 < k < |fl| && fl[k] == r.value.1 && fl[k - 1] == r.value.0
                          && r.value.1 in size && size[r.value.1] >= nunits && fl[k] in Members(fl)
      ensures r.Some? ==>
                forall m: nat | m < |fl| && Between(IndexOf(fl, freep), m, k) :: fl[m] in size && size[fl[m]] < nunits
    {
      hide Sound, Members, FreeList, Tiles, Ahead, Between, Passed;
      ghost var n, i: nat := |fl|, IndexOf(fl, freep);
      ListFacts(ptr, size, fl, base, live, home);
      LinkAt(ptr, size, fl, base, live, home, i);
      AheadStep(n, i, 0);
      PassedNone(size, fl, i, nunits);
      var prevp := freep;
      var p := ptr[prevp];
      ghost var d := 1;
      while true
        invariant 1 <= d <= n && p == fl[Ahead(n, i, d)] && prevp == fl[Ahead(n, i, d - 1)]
        invariant Passed(size, fl, i, d, nunits)
        decreases n - d
      {
        k := Ahead(n, i, d);
        LinkAt(ptr, size, fl, base, live, home, k);
        if size[p] >= nunits {
          InMembers(fl, k);
          AheadStep(n, i, d - 1);
          SmallBefore(size, fl, i, d, nunits);
          return Some((prevp, p)), k;
        }
        if p == freep {
          RoundOnce(ptr, size, fl, base, live, home, i, d);
          PassedMore(size, fl, i, d, nunits);
          AllSmall(size, fl, i, nunits);
          return None, 0;
        }
        RoundOnce(ptr, size, fl, base, live, home, i, n);
        AheadStep(n, i, d);
        PassedMore(size, fl, i, d, nunits);
        prevp := p;
        p := ptr[p];
        d := d + 1;
      }
    }

    /** malloc. When no free block is large enough it asks the system for memory, once; it fails
        only if that fails. asked says whether sbrk was called, which answers grant; whether the
        process then has the memory is what SbrkBacks is about. */
    method Malloc(nbytes: nat, grant: Option<nat>) returns (r: Option<nat>, asked: bool)
      requires Valid() && nbytes < 0x1_0000_0000
      requires grant.Some? ==> base < grant.value && forall u | u in home :: u < grant.value
      modifies this
      ensures Valid()
      ensures asked <==> forall a | a in Members(old(fl)) :: a in old(size) && old(size)[a] < Units(nbytes)
      ensures r.None? <==> asked && grant.None?
      ensures r.None? ==> live == old(live) && home == old(home)
      ensures r.Some? ==> && r.value > 0 && r.value - 1 !in old(live)
                          && live == old(live)[r.value - 1 := Units(nbytes)]
      ensures Undisturbed()
      ensures r.Some? && !asked ==> home.Keys == old(home).Keys
      ensures r.Some? && asked ==> home.Keys == old(home).Keys + Fresh(grant.value, AtLeast(Units(nbytes))).Keys
    {
      hide Sound, FreeList, Tiles, Fresh, Untouched;
      var nunits := (nbytes + HEADER - 1) % 0x1_0000_0000 / HEADER + 1;
      StartList();
      ghost var ptr0, size0, home0 := ptr, size, home;
      StartUntouched(old(ptr), old(size), old(live), old(home), ptr, size, old(freep) == 0);
      var found;
      ghost var k;
      found, k := Search(nunits);
      asked := found.None?;
      if asked {
        var ok := Morecore(nunits, grant);
        if !ok {
          UntouchedTrans(old(ptr), old(size), old(live), old(home), ptr0, size0, live, home0, ptr, size, live, home);
          return None, asked;
        }
        found, k := Search(nunits);
      }
      UntouchedTrans(old(ptr), old(size), old(live), old(home), ptr0, size0, live, home0, ptr, size, live, home);
      ghost var ptr1, size1, home1 := ptr, size, home;
      var h := TakeFrom(found.value.0, found.value.1, nunits, k);
      UntouchedTrans(old(ptr), old(size), old(live), old(home), ptr1, size1, old(live), home1, ptr, size, live, home);
      r := Some(h + 1);
    }
  }

  const HEADER := 8      // sizeof(Header)

  /** The number of units malloc asks for; the addition wraps around at 2 to the 32. */
  function Units(nbytes: nat): (n: nat)
    ensures n > 0
  {
    (nbytes + HEADER - 1) % 0x1_0000_0000 / HEADER + 1
  }

  /** The units behind the header hold the bytes asked for exactly when the addition does not wrap
      around. */
  lemma UnitsSuffice(nbytes: nat)
    requires nbytes < 0x1_0000_0000
    ensures (Units(nbytes) - 1) * HEADER >= nbytes <==> nbytes + HEADER - 1 < 0x1_0000_0000
    ensures Units(0xFFFF_FFFF) == 1
  {
  }

  /** Going round from i, position m comes before k. */
  predicate Between(i: nat, m: nat, k: nat) {
    if i < k then i < m < k else m > i || m < k
  }

  /** Position d entries after i, going round a list of n. */
  ghost function Ahead(n: nat, i: nat, d: nat): (k: nat)
    requires i < n && d <= n
    ensures k < n
  {
    if i + d < n then i + d else i + d - n
  }

  lemma EmptyList(ptr: Fields, size: Fields, base: nat)
    requires ptr == map[base := base] && size == map[base := 0]
    ensures Sound(ptr, size, [base], base, map[], map[])
  {
    assert Link(ptr, [base], 0);
    assert Members([base]) == {};
  }

  lemma InMembers(fl: seq<nat>, k: nat)
    requires k < |fl|
    ensures k > 0 ==> fl[k] in Members(fl)
  {
  }

  lemma ListFacts(ptr: Fields, size: Fields, fl: seq<nat>, base: nat, live: Fields, home: map<nat, nat>)
    requires Sound(ptr, size, fl, base, live, home)
    ensures forall k: nat | k < |fl| :: fl[k] in size
    ensures forall j: nat, k: nat | j < k < |fl| :: fl[j] != fl[k]
    ensures 0 < |fl| && fl[0] == base && fl[0] in size && size[fl[0]] == 0
  {
  }

  lemma AheadStep(n: nat, i: nat, d: nat)
    requires i < n && d < n
    ensures Ahead(n, i, 0) == i && Ahead(n, i, n) == i && Ahead(n, i, d + 1) == After(n, Ahead(n, i, d))
    ensures Ahead(n, i, d + 1) != 0 ==> Ahead(n, i, d) == Ahead(n, i, d + 1) - 1
  {
  }

  /** Going round from an entry, it comes back after n steps and not before. */
  lemma RoundOnce(ptr: Fields, size: Fields, fl: seq<nat>, base: nat, live: Fields, home: map<nat, nat>, i: nat, d: nat)
    requires Sound(ptr, size, fl, base, live, home) && i < |fl| && 1 <= d <= |fl|
    ensures fl[Ahead(|fl|, i, d)] == fl[i] <==> d == |fl|
  {
    hide Tiles, Members, Circle;
  }

  /** The entries from i on, going round, are too small, up to the d-th. */
  ghost predicate Passed(size: Fields, fl: seq<nat>, i: nat, d: nat, nunits: nat)
    requires i < |fl|
  {
    forall e: nat | 1 <= e < d && e <= |fl| :: fl[Ahead(|fl|, i, e)] in size && size[fl[Ahead(|fl|, i, e)]] < nunits
  }

  lemma PassedMore(size: Fields, fl: seq<nat>, i: nat, d: nat, nunits: nat)
    requires i < |fl| && 1 <= d <= |fl| && Passed(size, fl, i, d, nunits)
    requires fl[Ahead(|fl|, i, d)] in size && size[fl[Ahead(|fl|, i, d)]] < nunits
    ensures Passed(size, fl, i, d + 1, nunits)
  {
    hide Ahead;
  }

  lemma PassedNone(size: Fields, fl: seq<nat>, i: nat, nunits: nat)
    requires i < |fl|
    ensures Passed(size, fl, i, 1, nunits)
  {
  }

  lemma SmallBefore(size: Fields, fl: seq<nat>, i: nat, d: nat, nunits: nat)
    requires i < |fl| && 1 <= d <= |fl| && Passed(size, fl, i, d, nunits)
    ensures forall m: nat | m < |fl| && Between(i, m, Ahead(|fl|, i, d)) :: fl[m] in size && size[fl[m]] < nunits
  {
    forall m: nat | m < |fl| && Between(i, m, Ahead(|fl|, i, d)) ensures fl[m] in size && size[fl[m]] < nunits {
      assert m == Ahead(|fl|, i, if m > i then m - i else m - i + |fl|);
    }
  }

  lemma AllSmall(size: Fields, fl: seq<nat>, i: nat, nunits: nat)
    requires i < |fl| && Passed(size, fl, i, |fl| + 1, nunits)
    ensures forall a | a in Members(fl) :: a in size && size[a] < nunits
  {
    forall k: nat | k < |fl| ensures fl[k] in size && size[fl[k]] < nunits {
      assert k == Ahead(|fl|, i, if k > i then k - i else k - i + |fl|);
    }
  }

  /** The argument morecore passes to sbrk, nu * sizeof(Header) in 32 bits, read as an int. */
  function SbrkArgument(nu: nat): int {
    var bytes := nu * HEADER % 0x1_0000_0000;
    if bytes < 0x8000_0000 then bytes else bytes - 0x1_0000_0000
  }

  /** For a request malloc can make, the argument is a positive number of bytes, and the number
      meant, exactly when the request is for less than 2 to the 31 bytes. */
  lemma SbrkArgumentExact(nbytes: nat)
    requires nbytes < 0x1_0000_0000
    ensures var nu := AtLeast(Units(nbytes));
            && (SbrkArgument(nu) > 0 <==> nu * HEADER < 0x8000_0000)
            && (SbrkArgument(nu) == nu * HEADER <==> nu * HEADER < 0x8000_0000)
  {
  }

  const KERNBASE := 0x8000_0000

  /** sbrk of n bytes for a process of sz bytes: what it returns, and the size afterwards. room says
      whether allocuvm finds the pages. A negative n that takes more than there is wraps around to a
      new size above the old one, which deallocuvm ignores. */
  function Sbrk(sz: nat, n: int, room: bool): (Option<nat>, nat) {
    if n > 0 then
      if sz + n >= KERNBASE || !room then (None, sz) else (Some(sz), sz + n)
    else if n < 0 then
      var newsz := (sz + n) % 0x1_0000_0000;
      var left := if newsz >= sz then sz else newsz;
      if left == 0 then (None, sz) else (Some(sz), left)
    else (Some(sz), sz)
  }

  /** The process has the memory morecore asked for, when sbrk says so, exactly if that is less than 2 to
      the 31 bytes. */
  lemma SbrkBacks(sz: nat, nbytes: nat, room: bool)
    requires sz < KERNBASE && nbytes < 0x1_0000_0000
    ensures var nu := AtLeast(Units(nbytes));
            var (r, sz') := Sbrk(sz, SbrkArgument(nu), room);
            r.Some? ==>
              (sz' == sz + nu * HEADER <==> nu * HEADER < 0x8000_0000) && (sz' > sz <==> nu * HEADER < 0x8000_0000)
  {
    SbrkArgumentExact(nbytes);
  }

  /** Every unit the heap counts on is memory of a process of that size. */
  ghost predicate Backed(heap: Heap, sz: nat)
    reads heap
  {
    forall u | u in heap.home :: (u + 1) * HEADER <= sz
  }

  /** malloc with sbrk, in a process that has sz bytes: what the heap counts on stays the process's memory
      exactly unless sbrk answered a request of 2 to the 31 bytes or more. While it does, sbrk
      answers with memory above all that came before, which is what malloc relies on. */
  method MallocInProcess(heap: Heap, nbytes: nat, sz: nat, room: bool) returns (r: Option<nat>, sz': nat, asked: bool)
    requires heap.Valid() && nbytes < 0x1_0000_0000 && Backed(heap, sz)
    requires sz % HEADER == 0 && (heap.base + 1) * HEADER <= sz < KERNBASE
    modifies heap
    ensures heap.Valid() && heap.Undisturbed()
    ensures Backed(heap, sz') <==> !(asked && r.Some? && AtLeast(Units(nbytes)) * HEADER >= 0x8000_0000)
    ensures Backed(heap, sz') ==> sz <= sz' && sz' % HEADER == 0
    ensures r.None? <==> asked && Sbrk(sz, SbrkArgument(AtLeast(Units(nbytes))), room).0.None?
    ensures r.None? ==> heap.live == old(heap.live) && sz' == sz
    ensures r.Some? ==>
              r.value > 0 && r.value - 1 !in old(heap.live) && heap.live == old(heap.live)[r.value - 1 := Units(nbytes)]
  {
    hide Sound, Units;
    var (answer, left) := Sbrk(sz, SbrkArgument(AtLeast(Units(nbytes))), room);
    SbrkBacks(sz, nbytes, room);
    ghost var home, nu := heap.home, AtLeast(Units(nbytes));
    r, asked := heap.Malloc(nbytes, if answer.None? then None else Some(answer.value / HEADER));
    sz' := if asked then left else sz;
    if asked && r.Some? {
      assert sz / HEADER in Fresh(sz / HEADER, nu);
      assert sz / HEADER in heap.home;
    }
  }

  /** A request for 2 to the 31 bytes: sbrk answers with the end of the process's memory, gives nothing,
      and answers the same address the next time. */
  lemma NothingGiven(sz: nat, room: bool)
    requires 0 < sz < 0x7FFF_FFF8
    ensures Sbrk(sz, SbrkArgument(AtLeast(Units(0x8000_0000))), room) == (Some(sz), sz)
  {
  }

  /** malloc on an empty heap then hands out a block that lies wholly outside the process's memory. */
  method OutsideBlock(heap: Heap, sz: nat, room: bool) returns (r: Option<nat>, sz': nat)
    requires heap.Valid() && heap.live == map[] && heap.home == map[] && (heap.base + 1) * HEADER <= sz < 0x7FFF_FFF8
    requires sz % HEADER == 0
    modifies heap
    ensures r.Some? && sz' == sz && (r.value - 1) * HEADER >= sz'
  {
    var (grant, left) := Sbrk(sz, SbrkArgument(AtLeast(Units(0x8000_0000))), room);
    NothingGiven(sz, room);
    sz' := left;
    var asked;
    r, asked := heap.Malloc(0x8000_0000, Some(grant.value / HEADER));
    OwnHeader(heap.ptr, heap.size, heap.fl, heap.base, heap.live, heap.home, r.value - 1);
  }

  /** Two blocks handed out never overlap, and neither overlaps a free block. */
  lemma LiveDisjoint(ptr: Fields, size: Fields, fl: seq<nat>, base: nat, live: Fields, home: map<nat, nat>, a: nat,
                     b: nat)
    requires Sound(ptr, size, fl, base, live, home) && a in live && a != b && (b in live || b in Members(fl))
    ensures b in size && (a + live[a] <= b || b + size[b] <= a)
  {
    var blocks := Members(fl) + live.Keys;
    if a < b {
      BlocksDisjoint(size, blocks, home, a, b);
    } else {
      BlocksDisjoint(size, blocks, home, b, a);
    }
  }

  const MINUNITS := 4096

  function AtLeast(nu: nat): (n: nat)
    ensures n >= nu
  {
    if nu < MINUNITS then MINUNITS else nu
  }

  lemma NewBlock(ptr: Fields, size: Fields, fl: seq<nat>, base: nat, live: Fields, home: map<nat, nat>, hp: nat, n: nat)
    requires Sound(ptr, size, fl, base, live, home) && n > 0 && base < hp && forall u | u in home :: u < hp
    ensures hp !in live && Sound(ptr, size[hp := n], fl, base, live[hp := n], home + Fresh(hp, n))
  {
    hide Tiles, Fresh;
    var blocks := Members(fl) + live.Keys;
    TilesAdd(size, blocks, home, hp, n);
    forall k: nat | k < |fl| ensures fl[k] != hp {
      assert k > 0 ==> fl[k] in Members(fl);
    }
    ListFrame(ptr, size, fl, base, hp, 0, n);
    assert Members(fl) + live[hp := n].Keys == blocks + {hp};
  }

  /** New memory lies in no block that was handed out. */
  lemma NewUntouched(ptr: Fields, size: Fields, live: Fields, home: map<nat, nat>, hp: nat, n: nat,
                     size1: Fields, live1: Fields, home1: map<nat, nat>, ptr2: Fields, size2: Fields,
                     home2: map<nat, nat>)
    requires (forall u | u in home :: u < hp) && size1 == size[hp := n] && live1 == live[hp := n]
    requires home1 == home + Fresh(hp, n)
    requires Untouched(ptr, size1, live1, home1, ptr2, size2, live, home2)
    ensures Untouched(ptr, size, live, home, ptr2, size2, live, home2)
  {
  }

  lemma HandOutAll(ptr: Fields, size: Fields, fl: seq<nat>, base: nat, live: Fields, home: map<nat, nat>, k: nat)
    requires Sound(ptr, size, fl, base, live, home) && 0 < k < |fl|
    ensures Link(ptr, fl, k) && fl[k] in size && fl[k] !in live && fl[k - 1] in Remove(fl, k)
    ensures Sound(ptr[fl[k - 1] := ptr[fl[k]]], size, Remove(fl, k), base, live[fl[k] := size[fl[k]]], home)
  {
    hide Tiles, Circle, Ordered, Members, Remove;
    InMembers(fl, k);
    LinkAt(ptr, size, fl, base, live, home, k);
    CircleRemove(ptr, size, fl, k);
    OrderedRemove(size, fl, k);
    MembersRemove(size, fl, k);
    assert Members(Remove(fl, k)) + live[fl[k] := size[fl[k]]].Keys == Members(fl) + live.Keys;
    assert Remove(fl, k)[k - 1] == fl[k - 1];
  }

  lemma HandOutEnd(ptr: Fields, size: Fields, fl: seq<nat>, base: nat, live: Fields, home: map<nat, nat>, k: nat,
                   n: nat)
    requires Sound(ptr, size, fl, base, live, home) && 0 < k < |fl| && fl[k] in size && 0 < n < size[fl[k]]
    ensures var a := fl[k]; var b := a + size[a] - n;
            && b !in live
            && Sound(ptr, size[a := size[a] - n][b := n], fl, base, live[b := n], Rehome(home, b, n))
  {
    hide Tiles, Rehome, Members, Circle, Ordered;
    var a := fl[k];
    var b := a + size[a] - n;
    var size1, live1 := size[a := size[a] - n], live[b := n];
    InMembers(fl, k);
    TilesSplit(size, Members(fl) + live.Keys, home, a, n);
    forall i: nat | i < |fl| ensures fl[i] != b {
      InMembers(fl, i);
      LinkAt(ptr, size, fl, base, live, home, k);
    }
    ShrinkList(ptr, size, fl, base, k, size[a] - n);
    ListFrame(ptr, size1, fl, base, b, 0, n);
    assert Members(fl) + live1.Keys == Members(fl) + live.Keys + {b};
  }

  lemma ShrinkList(ptr: Fields, size: Fields, fl: seq<nat>, base: nat, k: nat, s: nat)
    requires FreeList(ptr, size, fl, base) && 0 < k < |fl| && fl[k] in size && s <= size[fl[k]]
    ensures FreeList(ptr, size[fl[k] := s], fl, base)
  {
    OrderedResize(size, fl, k, s);
  }

  /** The heap as a whole: the list, the tiling, and the blocks handed out. */
  ghost predicate Sound(ptr: Fields, size: Fields, fl: seq<nat>, base: nat, live: Fields, home: map<nat, nat>) {
    && FreeList(ptr, size, fl, base)
    && Members(fl) !! live.Keys && Tiles(size, Members(fl) + live.Keys, home)
    && (forall a | a in live :: a in size && size[a] == live[a])
    && (forall u | u in home :: base < u)
  }

  ghost predicate SameField(f: Fields, f': Fields, u: nat) {
    (u in f <==> u in f') && (u in f ==> f'[u] == f[u])
  }

  /** No unit of a block that is handed out before and after has been written or given to another block. */
  ghost predicate Untouched(ptr: Fields, size: Fields, live: Fields, home: map<nat, nat>,
                            ptr': Fields, size': Fields, live': Fields, home': map<nat, nat>)
  {
    forall u | u in home && home[u] in live && home[u] in live' ::
      SameField(ptr, ptr', u) && SameField(size, size', u) && u in home' && home'[u] == home[u]
  }

  lemma SameHeap(ptr: Fields, size: Fields, live: Fields, home: map<nat, nat>)
    ensures Untouched(ptr, size, live, home, ptr, size, live, home)
  {
  }

  lemma StartUntouched(ptr: Fields, size: Fields, live: Fields, home: map<nat, nat>, ptr': Fields, size': Fields,
                       first: bool)
    requires if first then home == map[] else ptr' == ptr && size' == size
    ensures Untouched(ptr, size, live, home, ptr', size', live, home)
  {
  }

  lemma UntouchedTrans(ptr: Fields, size: Fields, live: Fields, home: map<nat, nat>,
                       ptr1: Fields, size1: Fields, live1: Fields, home1: map<nat, nat>,
                       ptr2: Fields, size2: Fields, live2: Fields, home2: map<nat, nat>)
    requires Untouched(ptr, size, live, home, ptr1, size1, live1, home1) && live.Keys <= live1.Keys
    requires Untouched(ptr1, size1, live1, home1, ptr2, size2, live2, home2)
    ensures Untouched(ptr, size, live, home, ptr2, size2, live2, home2)
  {
  }

  /** Writing only headers of free blocks, or of a block that is not handed out both before and after, touches
      nothing else. */
  lemma HeadersOnly(ptr: Fields, size: Fields, fl: seq<nat>, base: nat, live: Fields, home: map<nat, nat>,
                    ptr': Fields, size': Fields, fl': seq<nat>, live': Fields, home': map<nat, nat>, hs: set<nat>)
    requires Sound(ptr, size, fl, base, live, home) && Sound(ptr', size', fl', base, live', home')
    requires forall h | h in hs && h in home && home[h] in live :: home[h] !in live'
    requires forall u | u !in hs :: SameField(ptr, ptr', u) && SameField(size, size', u)
    requires forall a | a in live && a in live' :: live'[a] == live[a]
    ensures Untouched(ptr, size, live, home, ptr', size', live', home')
  {
    hide FreeList, Members;
    forall u | u in home && home[u] in live && home[u] in live'
      ensures SameField(ptr, ptr', u) && SameField(size, size', u) && u in home' && home'[u] == home[u]
    {
      assert Within(size, home[u], u);
      assert Within(size', home[u], u);
    }
  }

  /** A unit of a free block, or the header of the list, lies in no block that is handed out. */
  lemma FreeUnit(ptr: Fields, size: Fields, fl: seq<nat>, base: nat, live: Fields, home: map<nat, nat>, k: nat, u: nat)
    requires Sound(ptr, size, fl, base, live, home) && k < |fl|
    requires u == fl[k] || Within(size, fl[k], u)
    ensures u in home ==> home[u] !in live
  {
    if k > 0 {
      assert fl[k] in Members(fl);
      assert Within(size, fl[k], u);
    }
  }

  lemma OwnHeader(ptr: Fields, size: Fields, fl: seq<nat>, base: nat, live: Fields, home: map<nat, nat>, a: nat)
    requires Sound(ptr, size, fl, base, live, home) && a in live
    ensures a in home && home[a] == a
  {
    assert Within(size, a, a);
  }

  /** The heap half way through free of block b, which is behind entry j but not linked in yet. */
  ghost predicate PendingFor(ptr: Fields, size: Fields, fl: seq<nat>, base: nat, live: Fields, home: map<nat, nat>,
                             j: nat, b: nat) {
    && b !in live && Members(fl) !! live.Keys
    && Pending(ptr, size, fl, base, Members(fl) + {b} + live.Keys, home, j, b)
    && (forall a | a in live :: a in size && size[a] == live[a])
    && (forall u | u in home :: base < u)
  }

  lemma StartAlone(ptr: Fields, size: Fields, fl: seq<nat>, base: nat, live: Fields, home: map<nat, nat>, b: nat)
    requires Sound(ptr, size, fl, base, live, home) && b in live && base < b
    requires var j := Place(fl, b); j + 1 == |fl| || b + size[b] != fl[j + 1]
    ensures PendingFor(ptr, size, fl, base, live - {b}, home, Place(fl, b), b)
  {
    hide FreeList, Tiles, Members, Place;
    LiveBlock(ptr, size, fl, base, live, home, b);
    StayApart(ptr, size, fl, base, Members(fl) + live.Keys, home, b);
    assert Members(fl) + {b} + (live - {b}).Keys == Members(fl) + live.Keys;
  }

  lemma StartAbove(ptr: Fields, size: Fields, fl: seq<nat>, base: nat, live: Fields, home: map<nat, nat>, b: nat)
    requires Sound(ptr, size, fl, base, live, home) && b in live && base < b
    requires var j := Place(fl, b); j + 1 < |fl| && b + size[b] == fl[j + 1]
    ensures var j := Place(fl, b); Link(ptr, fl, j + 1) && fl[j + 1] in size
    ensures var j := Place(fl, b); var n := size[b] + size[fl[j + 1]];
            && PendingFor(ptr[fl[j] := ptr[fl[j + 1]]], size[b := n], Remove(fl, j + 1), base, live - {b},
                          Rehome(home, b, n), j, b)
            && Remove(fl, j + 1)[j] == fl[j]
  {
    hide FreeList, Tiles, Members, Place, Rehome;
    LiveBlock(ptr, size, fl, base, live, home, b);
    var blocks, j := Members(fl) + live.Keys, Place(fl, b);
    StayApart(ptr, size, fl, base, blocks, home, b);
    JoinAbove(ptr, size, fl, base, blocks, home, j, b);
    MembersRemoveList(ptr, size, fl, base, j + 1);
    assert Members(Remove(fl, j + 1)) + {b} + (live - {b}).Keys == blocks - {fl[j + 1]};
  }

  lemma EndBelow(ptr: Fields, size: Fields, fl: seq<nat>, base: nat, live: Fields, home: map<nat, nat>, j: nat, b: nat,
                 x: nat)
    requires PendingFor(ptr, size, fl, base, live, home, j, b)
    requires fl[j] + size[fl[j]] == b
    ensures var n := size[fl[j]] + size[b];
            && 0 < j && fl[j] in Members(fl)
            && Sound(ptr[b := x], size[fl[j] := n], fl, base, live, Rehome(home, fl[j], n))
  {
    hide FreeList, Tiles, Rehome;
    PendingEntry(ptr, size, fl, base, live, home, j, b);
    var n, blocks := size[fl[j]] + size[b], Members(fl) + {b} + live.Keys;
    JoinBelow(ptr, size, fl, base, blocks, home, j, b);
    ListFrame(ptr, size[fl[j] := n], fl, base, b, x, 0);
    assert fl[j] in Members(fl);
    assert b !in Members(fl);
    assert blocks - {b} == Members(fl) + live.Keys;
  }

  lemma EndAlone(ptr: Fields, size: Fields, fl: seq<nat>, base: nat, live: Fields, home: map<nat, nat>, j: nat, b: nat)
    requires PendingFor(ptr, size, fl, base, live, home, j, b)
    requires fl[j] + size[fl[j]] != b
    ensures Link(ptr, fl, j)
    ensures Sound(ptr[b := ptr[fl[j]]][fl[j] := b], size, Insert(fl, j + 1, b), base, live, home)
    ensures b in Members(Insert(fl, j + 1, b)) && fl[j] in Insert(fl, j + 1, b)
  {
    hide FreeList, Tiles, Members;
    LinkIn(ptr, size, fl, base, Members(fl) + {b} + live.Keys, home, j, b);
    assert Insert(fl, j + 1, b)[j] == fl[j];
  }

  /** A block handed out is no entry of the list, and lies above base. */
  lemma LiveBlock(ptr: Fields, size: Fields, fl: seq<nat>, base: nat, live: Fields, home: map<nat, nat>, b: nat)
    requires Sound(ptr, size, fl, base, live, home) && b in live
    ensures FreeList(ptr, size, fl, base) && b !in fl && base < b && base !in Members(fl) + live.Keys && b in size
    ensures size[b] > 0
  {
    assert Within(size, b, b);
    assert base in Members(fl) + live.Keys ==> Within(size, base, base);
    forall k: nat | k < |fl| ensures fl[k] != b {
      assert k > 0 ==> fl[k] in Members(fl);
    }
  }

  lemma LinkAt(ptr: Fields, size: Fields, fl: seq<nat>, base: nat, live: Fields, home: map<nat, nat>, k: nat)
    requires Sound(ptr, size, fl, base, live, home) && k < |fl|
    ensures forall a | a in live :: a in size && size[a] == live[a]
    ensures Link(ptr, fl, k) && Link(ptr, fl, After(|fl|, k)) && fl[k] in size && base <= fl[k] && fl[0] == base
  {
  }

  lemma MembersRemoveList(ptr: Fields, size: Fields, fl: seq<nat>, base: nat, k: nat)
    requires FreeList(ptr, size, fl, base) && 0 < k < |fl|
    ensures fl[k] in Members(fl) && Members(Remove(fl, k)) == Members(fl) - {fl[k]}
    ensures Remove(fl, k)[k - 1] == fl[k - 1]
  {
    MembersRemove(size, fl, k);
  }

  lemma PendingEntry(ptr: Fields, size: Fields, fl: seq<nat>, base: nat, live: Fields, home: map<nat, nat>, j: nat,
                     b: nat)
    requires PendingFor(ptr, size, fl, base, live, home, j, b)
    ensures j < |fl| && fl[j] in size && b in size && fl[j] < b
  {
  }
}
