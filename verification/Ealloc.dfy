/** The page allocator of project 5: up to four pages, each cut into chunks that a table of sixteen
    entries describes and next and prev indices link in address order. */
module Ealloc {
  import opened Common
  import opened Counting

  const PAGESIZE := 4096
  const MINALLOC := 256
  const PAGEMAX := 4
  const CHUNKMAX := 16

  // ----- a page as the list of its chunks -----

  datatype Cell = Cell(size: int, used: bool)

  function Sum(cells: seq<Cell>): int {
    if cells == [] then 0 else cells[0].size + Sum(cells[1..])
  }

  /** The chunks partition the page into multiples of MINALLOC, and no two neighbours are free. */
  ghost predicate Tiled(cells: seq<Cell>) {
    && Sum(cells) == PAGESIZE
    && (forall k: nat | k < |cells| :: cells[k].size > 0 && cells[k].size % MINALLOC == 0)
    && (forall k: nat | k + 1 < |cells| :: cells[k].used || cells[k + 1].used)
  }

  predicate Fits(c: Cell, size: int) {
    !c.used && c.size >= size
  }

  /** The first free chunk that is large enough, or the number of chunks. */
  function FirstFit(cells: seq<Cell>, size: int): (k: nat)
    ensures k <= |cells| && (forall j: nat | j < k :: !Fits(cells[j], size))
    ensures k < |cells| ==> Fits(cells[k], size)
  {
    if cells == [] then 0 else if Fits(cells[0], size) then 0 else 1 + FirstFit(cells[1..], size)
  }

  /** The chunk found becomes used, or its lower end does and the rest stays free. */
  function Cut(c: Cell, size: int): (r: seq<Cell>) {
    if c.size == size then [Cell(size, true)] else [Cell(size, true), Cell(c.size - size, false)]
  }

  /** What alloc makes of the page. */
  function Carve(cells: seq<Cell>, k: nat, size: int): (r: seq<Cell>)
    requires k < |cells|
  {
    cells[..k] + Cut(cells[k], size) + cells[k + 1..]
  }

  /** merge_chunk: every run of free chunks becomes one. */
  function Merge(cells: seq<Cell>): (r: seq<Cell>)
    decreases |cells|
  {
    if |cells| < 2 then cells
    else if !cells[0].used && !cells[1].used then Merge([Join(cells[0], cells[1])] + cells[2..])
    else [cells[0]] + Merge(cells[1..])
  }

  function Join(a: Cell, b: Cell): Cell {
    Cell(a.size + b.size, false)
  }

  /** The chunks in use, each with the offset where it starts. */
  function Live(cells: seq<Cell>, off: int): seq<(int, int)> {
    if cells == [] then []
    else (if cells[0].used then [(off, cells[0].size)] else []) + Live(cells[1..], off + cells[0].size)
  }

  lemma {:induction false} Concat(a: seq<Cell>, b: seq<Cell>, off: int)
    ensures Sum(a + b) == Sum(a) + Sum(b)
    ensures Live(a + b, off) == Live(a, off) + Live(b, off + Sum(a))
  {
    if a == [] {
      assert a + b == b;
    } else {
      hide Sum, Live;
      var c, t := a[0], a[1..];
      assert a == [c] + t && a + b == [c] + (t + b);
      Head(c, t, off);
      Head(c, t + b, off);
      Concat(t, b, off + c.size);
      var first := if c.used then [(off, c.size)] else [];
      var x, y := Live(t, off + c.size), Live(b, off + Sum(a));
      assert first + (x + y) == first + x + y;
    }
  }

  /** The chunks in use lie inside the page, in order, and do not overlap. */
  lemma {:induction false} LiveApart(cells: seq<Cell>, off: int)
    requires forall k: nat | k < |cells| :: cells[k].size > 0
    ensures Sum(cells) >= 0
    ensures forall x | x in Live(cells, off) :: off <= x.0 && x.1 > 0 && x.0 + x.1 <= off + Sum(cells)
    ensures forall i: nat, j: nat | i < j < |Live(cells, off)| ::
              Live(cells, off)[i].0 + Live(cells, off)[i].1 <= Live(cells, off)[j].0
  {
    if cells != [] {
      LiveApart(cells[1..], off + cells[0].size);
      var rest := Live(cells[1..], off + cells[0].size);
      assert forall j: nat | j < |rest| :: rest[j] in rest;
    }
  }

  lemma Head(c: Cell, rest: seq<Cell>, off: int)
    ensures Sum([c] + rest) == c.size + Sum(rest)
    ensures Live([c] + rest, off) == (if c.used then [(off, c.size)] else []) + Live(rest, off + c.size)
  {
    assert ([c] + rest)[1..] == rest;
  }

  lemma SumUpTo(cells: seq<Cell>, k: nat)
    requires k < |cells|
    ensures Sum(cells[..k + 1]) == Sum(cells[..k]) + cells[k].size
  {
    assert cells[..k + 1] == cells[..k] + [cells[k]];
    Concat(cells[..k], [cells[k]], 0);
    Head(cells[k], [], 0);
    assert [cells[k]] + [] == [cells[k]];
  }

  lemma CutFacts(c: Cell, size: int, off: int)
    requires !c.used
    ensures Sum(Cut(c, size)) == c.size && Live(Cut(c, size), off) == [(off, size)]
  {
    if c.size == size {
      assert [Cell(size, true)] + [] == [Cell(size, true)];
      Head(Cell(size, true), [], off);
    } else {
      var r := Cell(c.size - size, false);
      Head(Cell(size, true), [r], off);
      Head(r, [], off + size);
      assert [r] + [] == [r] && Cut(c, size) == [Cell(size, true)] + [r];
    }
  }

  /** The chunk handed out is new and starts where the free chunk did; the chunks in use stay
      where they are, and no space is lost. */
  lemma CarveFacts(cells: seq<Cell>, k: nat, size: int, off: int)
    requires k < |cells| && !cells[k].used
    ensures var o := off + Sum(cells[..k]);
            && Sum(Carve(cells, k, size)) == Sum(cells)
            && Live(cells, off) == Live(cells[..k], off) + Live(cells[k + 1..], o + cells[k].size)
            && Live(Carve(cells, k, size), off) ==
               Live(cells[..k], off) + [(o, size)] + Live(cells[k + 1..], o + cells[k].size)
  {
    hide Live, Sum, Cut;
    var a, c, b := cells[..k], cells[k], cells[k + 1..];
    var o := off + Sum(a);
    assert cells == a + ([c] + b);
    Concat(a, [c] + b, off);
    Head(c, b, o);
    assert Carve(cells, k, size) == a + (Cut(c, size) + b);
    Concat(a, Cut(c, size) + b, off);
    Concat(Cut(c, size), b, o);
    CutFacts(c, size, o);
  }

  /** Taking part of a free chunk keeps the page tiled exactly when the size asked for is positive;
      alloc itself lets zero and negative multiples of MINALLOC through. */
  lemma CarveTiled(cells: seq<Cell>, k: nat, size: int)
    requires Tiled(cells) && k < |cells| && Fits(cells[k], size) && size % MINALLOC == 0
    ensures Tiled(Carve(cells, k, size)) <==> size > 0
  {
    hide Sum;
    CarveFacts(cells, k, size, 0);
    var r, n := Carve(cells, k, size), |Cut(cells[k], size)|;
    assert r[k] == Cell(size, true);
    if size > 0 {
      assert (cells[k].size - size) % MINALLOC == 0;
      forall j: nat | j < |r| ensures r[j].size > 0 && r[j].size % MINALLOC == 0 {
        if j >= k + n { assert r[j] == cells[j - n + 1]; }
      }
      forall j: nat | j + 1 < |r| ensures r[j].used || r[j + 1].used {
        if j + 1 >= k + n { assert r[j + 1] == cells[j + 1 - n + 1]; }
        if j >= k + n { assert r[j] == cells[j - n + 1]; }
      }
    }
  }

  lemma {:induction false} MergeFacts(cells: seq<Cell>, off: int)
    ensures Sum(Merge(cells)) == Sum(cells)
    ensures Live(Merge(cells), off) == Live(cells, off)
    decreases |cells|
  {
    hide Live, Sum;
    if |cells| >= 2 {
      var a, b, rest := cells[0], cells[1], cells[2..];
      assert cells == [a] + ([b] + rest) && cells[1..] == [b] + rest;
      Head(a, [b] + rest, off);
      if !a.used && !b.used {
        MergeFacts([Join(a, b)] + rest, off);
        Head(b, rest, off + a.size);
        Head(Join(a, b), rest, off);
      } else {
        MergeFacts(cells[1..], off + a.size);
        Head(a, Merge(cells[1..]), off);
      }
    }
  }

  lemma {:induction false} MergeAlternates(cells: seq<Cell>)
    ensures forall k: nat | k + 1 < |Merge(cells)| :: Merge(cells)[k].used || Merge(cells)[k + 1].used
    ensures cells != [] ==> Merge(cells) != [] && Merge(cells)[0].used == cells[0].used
    decreases |cells|
  {
    if |cells| >= 2 {
      if !cells[0].used && !cells[1].used {
        MergeAlternates([Join(cells[0], cells[1])] + cells[2..]);
      } else {
        MergeAlternates(cells[1..]);
        var m := Merge(cells[1..]);
        forall k: nat | k < |m| ensures ([cells[0]] + m)[k].used || ([cells[0]] + m)[k + 1].used {
          assert ([cells[0]] + m)[k + 1] == m[k];
        }
      }
    }
  }

  lemma {:induction false} MergeSizes(cells: seq<Cell>)
    requires forall k: nat | k < |cells| :: cells[k].size > 0 && cells[k].size % MINALLOC == 0
    ensures forall k: nat | k < |Merge(cells)| :: Merge(cells)[k].size > 0 && Merge(cells)[k].size % MINALLOC == 0
    decreases |cells|
  {
    if |cells| >= 2 {
      if !cells[0].used && !cells[1].used {
        assert (cells[0].size + cells[1].size) % MINALLOC == 0;
        MergeSizes([Join(cells[0], cells[1])] + cells[2..]);
      } else {
        MergeSizes(cells[1..]);
      }
    }
  }

  /** What dealloc makes of the page: the k-th chunk becomes free, then free runs are merged. */
  function Release(cells: seq<Cell>, k: nat): (r: seq<Cell>)
    requires k < |cells|
  {
    Merge(cells[k := cells[k].(used := false)])
  }

  /** Releasing a chunk keeps the page tiled, and of the chunks in use it removes just that one. */
  lemma ReleaseFacts(cells: seq<Cell>, k: nat, off: int)
    requires Tiled(cells) && k < |cells|
    ensures Tiled(Release(cells, k))
    ensures var o := off + Sum(cells[..k]);
            && Live(Release(cells, k), off) == Live(cells[..k], off) + Live(cells[k + 1..], o + cells[k].size)
            && Live(cells, off) == Live(cells[..k], off) + (if cells[k].used then [(o, cells[k].size)] else [])
                                   + Live(cells[k + 1..], o + cells[k].size)
  {
    hide Live, Sum, Merge;
    var a, c, b := cells[..k], cells[k], cells[k + 1..];
    var d := c.(used := false);
    var freed := cells[k := d];
    assert cells == a + ([c] + b) && freed == a + ([d] + b);
    Concat(a, [c] + b, off);
    Concat(a, [d] + b, off);
    Head(c, b, off + Sum(a));
    Head(d, b, off + Sum(a));
    MergeFacts(freed, off);
    MergeAlternates(freed);
    MergeSizes(freed);
  }

  lemma {:induction false} OffsetAtLeast(cells: seq<Cell>, k: nat, m: nat)
    requires Tiled(cells) && k <= |cells|
    ensures Sum(cells[..k]) >= MINALLOC * k
    ensures m < k && cells[m].size > MINALLOC ==> Sum(cells[..k]) >= MINALLOC * (k + 1)
  {
    if k > 0 {
      OffsetAtLeast(cells, k - 1, m);
      SumUpTo(cells, k - 1);
    }
  }

  /** There is room in the table for one more entry whenever a chunk can be split. */
  lemma RoomToSplit(cells: seq<Cell>, m: nat)
    requires Tiled(cells) && m < |cells| && cells[m].size > MINALLOC
    ensures |cells| < CHUNKMAX
  {
    OffsetAtLeast(cells, |cells|, m);
    assert cells[..|cells|] == cells;
  }

  // ----- a page as its table -----

  datatype Chunk = Chunk(addr: int, size: int, used: bool, inUse: bool, next: int, prev: int)

  const NOCHUNK := Chunk(0, 0, false, false, 0, 0)

  /** The table index at position k of the list, -1 beyond either end. */
  ghost function Index(ord: seq<nat>, k: int): int {
    if 0 <= k < |ord| then ord[k] else -1
  }

  /** Table entry ord[k] describes the k-th chunk and is linked to its neighbours. */
  ghost predicate Entry(t: seq<Chunk>, ord: seq<nat>, base: int, cells: seq<Cell>, k: nat) {
    && k < |ord| == |cells| && ord[k] < |t|
    && t[ord[k]] ==
       Chunk(base + Sum(cells[..k]), cells[k].size, cells[k].used, true, Index(ord, k + 1), Index(ord, k - 1))
  }

  /** The table and the index of its head entry describe the chunks of a page at base: ord lists
      the entries in use in address order. */
  ghost predicate Describes(t: seq<Chunk>, head: int, ord: seq<nat>, base: int, cells: seq<Cell>) {
    && |t| == CHUNKMAX && |ord| == |cells| && NoRepeat(ord) && head == Index(ord, 0)
    && (forall k: nat | k < |ord| :: Entry(t, ord, base, cells, k))
    && (forall i: nat | i < |t| && t[i].inUse :: i in ord)
  }

  lemma DescribesEntry(t: seq<Chunk>, head: int, ord: seq<nat>, base: int, cells: seq<Cell>, k: nat)
    requires Describes(t, head, ord, base, cells) && k < |ord|
    ensures Entry(t, ord, base, cells, k)
  {
  }

  /** Changing the flag of one entry. */
  lemma Flag(t: seq<Chunk>, head: int, ord: seq<nat>, base: int, cells: seq<Cell>, k: nat, used: bool)
    requires Describes(t, head, ord, base, cells) && k < |ord|
    ensures ord[k] < |t|
    ensures Describes(t[ord[k] := t[ord[k]].(used := used)], head, ord, base, cells[k := cells[k].(used := used)])
  {
    DescribesEntry(t, head, ord, base, cells, k);
    var t', cells' := t[ord[k] := t[ord[k]].(used := used)], cells[k := cells[k].(used := used)];
    forall j: nat | j < |ord| ensures Entry(t', ord, base, cells', j) {
      assert Entry(t, ord, base, cells, j);
      SameSizes(cells, cells', j);
    }
  }

  lemma {:induction false} SameSizes(a: seq<Cell>, b: seq<Cell>, k: nat)
    requires |a| == |b| && k <= |a| && forall j: nat | j < |a| :: a[j].size == b[j].size
    ensures Sum(a[..k]) == Sum(b[..k])
  {
    if k > 0 {
      SameSizes(a, b, k - 1);
      SumUpTo(a, k - 1);
      SumUpTo(b, k - 1);
    }
  }

  /** The list holds just the entries in use. */
  lemma Listed(t: seq<Chunk>, head: int, ord: seq<nat>, base: int, cells: seq<Cell>)
    requires Describes(t, head, ord, base, cells)
    ensures |t| == CHUNKMAX && |ord| == |cells| && NoRepeat(ord)
    ensures forall i: nat :: i in ord <==> i < CHUNKMAX && t[i].inUse
  {
    hide Sum;
    forall i: nat | i in ord ensures i < CHUNKMAX && t[i].inUse {
      var k: nat :| k < |ord| && ord[k] == i;
      assert Entry(t, ord, base, cells, k);
    }
  }

  /** All entries are in use exactly when there are as many chunks as entries. */
  lemma FreeEntry(t: seq<Chunk>, head: int, ord: seq<nat>, base: int, cells: seq<Cell>)
    requires Describes(t, head, ord, base, cells)
    ensures |t| == CHUNKMAX && ((forall i: nat | i < |t| :: t[i].inUse) <==> |cells| == CHUNKMAX)
  {
    hide Describes, NoRepeat;
    Listed(t, head, ord, base, cells);
    AllOrSome(ord, CHUNKMAX);
  }

  /** The table after the split: entry n takes the lower size bytes of the k-th chunk. */
  function SplitTable(t: seq<Chunk>, p: nat, n: nat, size: int): (r: seq<Chunk>)
    requires p < |t| && n < |t| && (t[p].prev == -1 || 0 <= t[p].prev < |t|)
    ensures |r| == |t|
  {
    var tmp := t[p];
    var t1 := if tmp.prev != -1 then t[tmp.prev := t[tmp.prev].(next := n)] else t;
    t1[p := tmp.(prev := n, addr := tmp.addr + size, size := tmp.size - size)]
      [n := Chunk(tmp.addr, size, true, true, p, tmp.prev)]
  }

  lemma {:induction false} CutOffsets(cells: seq<Cell>, k: nat, size: int, j: nat)
    requires k < |cells| && cells[k].size != size && j <= |cells| + 1
    ensures |Carve(cells, k, size)| == |cells| + 1
    ensures Sum(Carve(cells, k, size)[..j]) ==
            if j <= k then Sum(cells[..j]) else if j == k + 1 then Sum(cells[..k]) + size else Sum(cells[..j - 1])
  {
    hide Sum;
    var r := Carve(cells, k, size);
    if j <= k {
      assert r[..j] == cells[..j];
    } else {
      CutOffsets(cells, k, size, j - 1);
      SumUpTo(r, j - 1);
      if j > k + 1 {
        SumUpTo(cells, j - 2);
        assert j > k + 2 ==> r[j - 1] == cells[j - 2];
      }
    }
  }

  lemma SplitDescribes(t: seq<Chunk>, head: int, ord: seq<nat>, base: int, cells: seq<Cell>, k: nat, n: nat, size: int)
    requires Describes(t, head, ord, base, cells) && k < |ord| && !cells[k].used && cells[k].size != size
    requires n < |t| && !t[n].inUse
    ensures ord[k] < |t| && (t[ord[k]].prev == -1 || 0 <= t[ord[k]].prev < |t|)
    ensures var head' := if k == 0 then n else head;
            Describes(SplitTable(t, ord[k], n, size), head', Insert(ord, k, n), base, Carve(cells, k, size))
  {
    hide Sum, Insert;
    assert Entry(t, ord, base, cells, k);
    assert k > 0 ==> Entry(t, ord, base, cells, k - 1);
    var t', ord', cells' := SplitTable(t, ord[k], n, size), Insert(ord, k, n), Carve(cells, k, size);
    assert n !in ord by {
      forall j: nat | j < |ord| ensures ord[j] != n { assert Entry(t, ord, base, cells, j); }
    }
    CutOffsets(cells, k, size, 0);
    forall j: nat | j < |ord'| ensures Entry(t', ord', base, cells', j) {
      CutOffsets(cells, k, size, j);
      if j < k {
        assert Entry(t, ord, base, cells, j) && cells'[j] == cells[j];
      } else if j > k + 1 {
        assert Entry(t, ord, base, cells, j - 1) && cells'[j] == cells[j - 1];
      } else if j == k + 1 {
        assert cells'[j] == Cell(cells[k].size - size, false);
      } else {
        assert cells'[j] == Cell(size, true);
      }
    }
    forall i: nat | i < |t'| && t'[i].inUse ensures i in ord' {
      if i != n {
        var j: nat :| j < |ord| && ord[j] == i;
        assert ord'[if j < k then j else j + 1] == i;
      } else {
        assert ord'[k] == n;
      }
    }
  }

  /** The table after one step of merge_chunk: entry p takes over the entry that follows it. */
  function JoinTable(t: seq<Chunk>, p: nat): (r: seq<Chunk>)
    requires p < |t| && 0 <= t[p].next < |t| && (t[t[p].next].next == -1 || 0 <= t[t[p].next].next < |t|)
    ensures |r| == |t|
  {
    var d := t[p].next;
    var tmp, del := t[p].(size := t[p].size + t[d].size, next := t[d].next), t[d];
    var t1 := if del.next != -1 then t[del.next := t[del.next].(prev := p)] else t;
    t1[p := tmp][d := del.(inUse := false)]
  }

  ghost function Joined(cells: seq<Cell>, k: nat): (r: seq<Cell>)
    requires k + 1 < |cells|
    ensures |r| == |cells| - 1
  {
    cells[..k] + [Join(cells[k], cells[k + 1])] + cells[k + 2..]
  }

  lemma {:induction false} JoinOffsets(cells: seq<Cell>, k: nat, j: nat)
    requires k + 1 < |cells| && j < |cells|
    ensures Sum(Joined(cells, k)[..j]) == if j <= k then Sum(cells[..j]) else Sum(cells[..j + 1])
  {
    hide Sum;
    var r := Joined(cells, k);
    if j <= k {
      assert r[..j] == cells[..j];
    } else {
      JoinOffsets(cells, k, j - 1);
      SumUpTo(r, j - 1);
      SumUpTo(cells, j);
      if j == k + 1 {
        SumUpTo(cells, k);
      } else {
        assert r[j - 1] == cells[j];
      }
    }
  }

  lemma JoinDescribes(t: seq<Chunk>, head: int, ord: seq<nat>, base: int, cells: seq<Cell>, k: nat)
    requires Describes(t, head, ord, base, cells) && k + 1 < |ord| && !cells[k].used
    ensures ord[k] < |t| && ord[k + 1] < |t| && t[ord[k]].next == ord[k + 1]
    ensures t[ord[k + 1]].next == -1 || 0 <= t[ord[k + 1]].next < |t|
    ensures Describes(JoinTable(t, ord[k]), head, Remove(ord, k + 1), base, Joined(cells, k))
  {
    hide Sum, Remove;
    assert Entry(t, ord, base, cells, k) && Entry(t, ord, base, cells, k + 1);
    assert k + 2 < |ord| ==> Entry(t, ord, base, cells, k + 2);
    var t', ord', cells' := JoinTable(t, ord[k]), Remove(ord, k + 1), Joined(cells, k);
    forall j: nat | j < |ord'| ensures Entry(t', ord', base, cells', j) {
      JoinOffsets(cells, k, j);
      if j < k {
        assert Entry(t, ord, base, cells, j) && cells'[j] == cells[j];
      } else if j > k {
        assert Entry(t, ord, base, cells, j + 1) && cells'[j] == cells[j + 1];
      }
    }
    forall i: nat | i < |t'| && t'[i].inUse ensures i in ord' {
      var j: nat :| j < |ord| && ord[j] == i;
      assert ord'[if j <= k then j else j - 1] == i;
    }
  }

  // ----- the allocator -----

  /** What alloc comes to: an address, NULL, or a write to an entry outside the page's table. */
  datatype Outcome = Got(addr: int) | Null | OffTable

  class Allocator {
    var pagenum: nat
    var headIdx: seq<int>
    var chunks: seq<seq<Chunk>>

    ghost var ord: seq<seq<nat>>       // the entries of each page in address order
    ghost var base: seq<int>           // the address of each page
    ghost var cells: seq<seq<Cell>>    // the chunks of each page

    /** The tables describe the chunks of each page, and the pages do not overlap. */
    ghost predicate Linked()
      reads this
    {
      && pagenum <= PAGEMAX && |headIdx| == |chunks| == |ord| == |base| == |cells| == PAGEMAX
      && (forall i: nat | i < pagenum :: Describes(chunks[i], headIdx[i], ord[i], base[i], cells[i]))
      && (forall i: nat | pagenum <= i < PAGEMAX :: chunks[i] == Unused())
      && (forall i: nat, j: nat | i < j < pagenum :: base[i] + PAGESIZE <= base[j] || base[j] + PAGESIZE <= base[i])
    }

    /** Besides, the chunks partition each page. */
    ghost predicate Valid()
      reads this
    {
      Linked() && forall i: nat | i < pagenum :: Tiled(cells[i])
    }

    /** The static arrays, all zero, and init_alloc. */
    constructor ()
      ensures Valid() && pagenum == 0
    {
      pagenum, headIdx, chunks := 0, seq(PAGEMAX, i => -1), seq(PAGEMAX, i => Unused());
      ord, base, cells := seq(PAGEMAX, i => []), seq(PAGEMAX, i => 0), seq(PAGEMAX, i => []);
    }

    /** find_next: the first entry of the page's table that is not in use, or -1. */
    method FindNext(pg: nat) returns (r: int)
      requires pg < |chunks| && |chunks[pg]| == CHUNKMAX
      ensures -1 <= r < CHUNKMAX
      ensures r == -1 <==> forall i: nat | i < CHUNKMAX :: chunks[pg][i].inUse
      ensures r >= 0 ==> !chunks[pg][r].inUse && forall i: nat | i < r :: chunks[pg][i].inUse
    {
      for i := 0 to CHUNKMAX
        invariant forall j: nat | j < i :: chunks[pg][j].inUse
      {
        if !chunks[pg][i].inUse {
          return i;
        }
      }
      return -1;
    }

    /** The body of alloc's loop for one page: first fit. */
    method AllocInPage(i: nat, size: int) returns (r: Outcome)
      requires Linked() && i < pagenum
      modifies this`headIdx, this`chunks, this`ord, this`cells
      ensures Linked()
      ensures r.Null? <==> !old(HasRoom(i, size))
      ensures r.OffTable? <==> old(HasRoom(i, size)) && NoEntry(old(cells)[i], size)
      ensures !r.Got? ==> cells == old(cells)
      ensures r.Got? ==> Carved(old(cells)[i], cells[i], size, base[i], r.addr) && cells == old(cells)[i := cells[i]]
    {
      hide Describes, Carve, Sum, Insert;
      ghost var c, o := cells[i], ord[i];
      ListStart(chunks[i], headIdx[i], o, base[i], c);
      var p := headIdx[i];
      ghost var k: nat := 0;
      while p != -1
        invariant 0 <= k <= |c| && p == Index(o, k)
        invariant forall j: nat | j < k :: !Fits(c[j], size)
        invariant Linked() && headIdx == old(headIdx) && chunks == old(chunks) && ord == old(ord) && cells == old(cells)
        decreases |c| - k
      {
        DescribesEntry(chunks[i], headIdx[i], o, base[i], c, k);
        var tmp := chunks[i][p];
        if tmp.next == -1 && tmp.size < size {
          k := k + 1;
          break;
        }
        if tmp.size >= size && !tmp.used {
          FirstFitIs(c, size, k);
          r := TakeChunk(i, p, size, k);
          return;
        }
        p, k := tmp.next, k + 1;
      }
      FirstFitNone(c, size, k);
      return Null;
    }

    /** What alloc does with the chunk it has found. */
    method TakeChunk(i: nat, p: nat, size: int, ghost k: nat) returns (r: Outcome)
      requires Linked() && i < pagenum
      requires k < |cells[i]| && Fits(cells[i][k], size) && p == Index(ord[i], k)
      modifies this`headIdx, this`chunks, this`ord, this`cells
      ensures Linked()
      ensures if old(cells)[i][k].size != size && |old(cells)[i]| == CHUNKMAX then
                r.OffTable? && cells == old(cells)
              else
                && cells == old(cells)[i := Carve(old(cells)[i], k, size)]
                && r == Got(base[i] + Sum(old(cells)[i][..k]))
    {
      hide Describes, Carve, Sum, Insert, SplitTable;
      ghost var c, o := cells[i], ord[i];
      ListStart(chunks[i], headIdx[i], o, base[i], c);
      DescribesEntry(chunks[i], headIdx[i], o, base[i], c, k);
      var tmp := chunks[i][p];
      if tmp.size == size {
        Flag(chunks[i], headIdx[i], o, base[i], c, k, true);
        CarveWhole(c, k);
        chunks := chunks[i := chunks[i][p := tmp.(used := true)]];
      } else {
        FreeEntry(chunks[i], headIdx[i], o, base[i], c);
        var n := FindNext(i);
        if n == -1 {
          return OffTable;
        }
        SplitDescribes(chunks[i], headIdx[i], o, base[i], c, k, n, size);
        headIdx := if tmp.prev == -1 then headIdx[i := n] else headIdx;
        chunks := chunks[i := SplitTable(chunks[i], p, n, size)];
        ord := ord[i := Insert(o, k, n)];
      }
      r := Got(tmp.addr);
      cells := cells[i := Carve(c, k, size)];
    }

    /** Page i has a free chunk of at least size bytes. */
    ghost predicate HasRoom(i: nat, size: int)
      reads this
    {
      i < |cells| && FirstFit(cells[i], size) < |cells[i]|
    }

    /** Page i is the first one that has. */
    ghost predicate FirstRoom(i: nat, size: int)
      reads this
    {
      i < pagenum && HasRoom(i, size) && forall j: nat | j < i :: !HasRoom(j, size)
    }

    /** alloc's loop over the pages: the first one that has room. */
    method AllocInPages(size: int) returns (r: Outcome)
      requires Linked() && !Refused(size)
      modifies this`headIdx, this`chunks, this`ord, this`cells
      ensures Linked() && (old(Valid()) ==> (Valid() <==> size > 0 || !r.Got?))
      ensures r.Null? <==> forall i: nat | i < pagenum :: !old(HasRoom(i, size))
      ensures r.OffTable? <==> exists i: nat :: old(FirstRoom(i, size)) && NoEntry(old(cells)[i], size)
      ensures r.OffTable? && old(Valid()) ==> size <= 0
      ensures !r.Got? ==> cells == old(cells)
      ensures r.Got? ==> exists i: nat :: old(FirstRoom(i, size)) && cells == old(cells)[i := cells[i]]
                                          && Carved(old(cells)[i], cells[i], size, base[i], r.addr)
    {
      hide Describes, Tiled, Sum, Carved, NoEntry, FirstFit;
      for i := 0 to pagenum
        invariant Linked() && (old(Valid()) ==> Valid()) && cells == old(cells)
        invariant forall j: nat | j < i :: !old(HasRoom(j, size))
      {
        r := AllocInPage(i, size);
        if !r.Null? {
          assert old(FirstRoom(i, size));
          if old(Valid()) {
            KeepsTiled(old(cells)[i], cells[i], size, base[i], r);
          }
          return;
        }
      }
      return Null;
    }

    /** alloc. newPage is where mmap puts a further page, should one be needed. Pages that were
        partitioned into chunks stay so exactly if the size is positive or nothing is handed out. */
    method Alloc(size: int, newPage: int) returns (r: Outcome)
      requires Linked()
      requires (forall i: nat | i < pagenum :: !HasRoom(i, size)) ==> Apart(newPage)
      modifies this
      ensures Linked() && (old(Valid()) ==> (Valid() <==> size > 0 || !r.Got?))
      ensures r.Null? <==>
                Refused(size) || (old(pagenum) == PAGEMAX && forall i: nat | i < PAGEMAX :: !old(HasRoom(i, size)))
      ensures r.OffTable? <==>
                !Refused(size) && exists i: nat :: old(FirstRoom(i, size)) && NoEntry(old(cells)[i], size)
      ensures r.OffTable? && old(Valid()) ==> size <= 0
      ensures !r.Got? ==> pagenum == old(pagenum) && cells == old(cells)
      ensures r.Got? && pagenum == old(pagenum) ==>
                exists i: nat :: old(FirstRoom(i, size)) && cells == old(cells)[i := cells[i]]
                                 && Carved(old(cells)[i], cells[i], size, base[i], r.addr)
      ensures r.Got? && pagenum != old(pagenum) ==>
                && pagenum == old(pagenum) + 1 && (forall i: nat | i < old(pagenum) :: !old(HasRoom(i, size)))
                && r.addr == newPage && cells == old(cells)[old(pagenum) := cells[old(pagenum)]]
                && Carved(WholePage(), cells[old(pagenum)], size, newPage, newPage)
      ensures base == if pagenum == old(pagenum) then old(base) else old(base)[old(pagenum) := newPage]
      decreases PAGEMAX - pagenum, 1
    {
      hide Describes, Tiled, Sum, Carved, NoEntry, FirstFit, Unused;
      if size % MINALLOC != 0 || size > PAGESIZE {
        return Null;
      }
      r := AllocInPages(size);
      if !r.Null? || pagenum == PAGEMAX {
        return;
      }
      r := AllocInNewPage(size, newPage);
    }

    /** The rest of alloc, when no page has room: add one and try again, which succeeds. */
    method AllocInNewPage(size: int, newPage: int) returns (r: Outcome)
      requires Linked() && !Refused(size) && pagenum < PAGEMAX && Apart(newPage)
      requires forall i: nat | i < pagenum :: !HasRoom(i, size)
      modifies this
      ensures Linked() && (old(Valid()) ==> (Valid() <==> size > 0))
      ensures r == Got(newPage) && pagenum == old(pagenum) + 1 && base == old(base)[old(pagenum) := newPage]
      ensures cells == old(cells)[old(pagenum) := cells[old(pagenum)]]
      ensures Carved(WholePage(), cells[old(pagenum)], size, newPage, newPage)
      decreases PAGEMAX - pagenum, 0
    {
      hide Describes, Tiled, Sum, Carved, NoEntry, FirstFit, Unused;
      AddPage(newPage);
      WholePageFits(size);
      label added:
      assert forall i: nat | i < old(pagenum) :: old@added(HasRoom(i, size)) == old(HasRoom(i, size));
      assert FirstRoom(pagenum - 1, size);
      r := Alloc(size, newPage);
      CarvedWhole(cells[pagenum - 1], size, newPage, r.addr);
    }

    /** A page at this address overlaps none of the pages. */
    ghost predicate Apart(newPage: int)
      reads this
    {
      forall i: nat | i < pagenum && i < |base| :: base[i] + PAGESIZE <= newPage || newPage + PAGESIZE <= base[i]
    }

    /** The new page of alloc: one free chunk. */
    method AddPage(newPage: int)
      requires Linked() && pagenum < PAGEMAX && Apart(newPage)
      modifies this
      ensures Linked() && (old(Valid()) ==> Valid()) && pagenum == old(pagenum) + 1
      ensures base == old(base)[old(pagenum) := newPage] && cells == old(cells)[old(pagenum) := WholePage()]
    {
      hide Sum;
      var n := pagenum;
      headIdx := headIdx[n := 0];
      chunks := chunks[n := chunks[n][0 := Chunk(newPage, PAGESIZE, false, true, -1, -1)]];
      ord, base, cells := ord[n := [0]], base[n := newPage], cells[n := WholePage()];
      WholePageTiled(chunks[n], newPage);
      pagenum := pagenum + 1;
    }

    /** merge_chunk: every run of free chunks of the page becomes one. */
    method MergeChunk(i: nat)
      requires |headIdx| == |chunks| == |ord| == |base| == |cells| == PAGEMAX && i < PAGEMAX
      requires Describes(chunks[i], headIdx[i], ord[i], base[i], cells[i])
      modifies this`chunks, this`ord, this`cells
      ensures |chunks| == |ord| == |cells| == PAGEMAX
      ensures chunks == old(chunks)[i := chunks[i]] && ord == old(ord)[i := ord[i]]
      ensures cells == old(cells)[i := Merge(old(cells)[i])]
      ensures Describes(chunks[i], headIdx[i], ord[i], base[i], cells[i])
    {
      hide Describes, Sum, Merge, Joined, JoinTable, Remove;
      ListStart(chunks[i], headIdx[i], ord[i], base[i], cells[i]);
      var p := headIdx[i];
      ghost var k: nat := 0;
      MergeFrom(cells[i]);
      while p != -1
        invariant |chunks| == |ord| == |cells| == PAGEMAX
        invariant chunks == old(chunks)[i := chunks[i]] && ord == old(ord)[i := ord[i]]
        invariant cells == old(cells)[i := cells[i]]
        invariant Describes(chunks[i], headIdx[i], ord[i], base[i], cells[i])
        invariant |ord[i]| == |cells[i]| && 0 <= k <= |cells[i]| && p == Index(ord[i], k)
        invariant Merge(old(cells)[i]) == cells[i][..k] + Merge(cells[i][k..])
        decreases |cells[i]| - k
      {
        DescribesEntry(chunks[i], headIdx[i], ord[i], base[i], cells[i], k);
        ListStart(chunks[i], headIdx[i], ord[i], base[i], cells[i]);
        var tmp := chunks[i][p];
        if k + 1 < |ord[i]| {
          DescribesEntry(chunks[i], headIdx[i], ord[i], base[i], cells[i], k + 1);
        }
        if !tmp.used && tmp.next != -1 && !chunks[i][tmp.next].used {
          JoinDescribes(chunks[i], headIdx[i], ord[i], base[i], cells[i], k);
          MergeJoins(cells[i], k);
          chunks := chunks[i := JoinTable(chunks[i], p)];
          ord, cells := ord[i := Remove(ord[i], k + 1)], cells[i := Joined(cells[i], k)];
        } else {
          MergePasses(cells[i], k);
          p, k := tmp.next, k + 1;
        }
      }
      MergeEnds(cells[i], k);
    }

    /** The k-th chunk of page i starts at addr. */
    ghost predicate StartsAt(i: nat, k: nat, addr: int)
      reads this
    {
      i < |cells| && i < |base| && k < |cells[i]| && base[i] + Sum(cells[i][..k]) == addr
    }

    /** The k-th chunk of page i is the first one that starts at addr. */
    ghost predicate FirstAt(i: nat, k: nat, addr: int)
      reads this
    {
      && i < pagenum && StartsAt(i, k, addr) && (forall j: nat | j < k :: !StartsAt(i, j, addr))
      && forall j: nat, m: nat | j < i :: !StartsAt(j, m, addr)
    }

    /** dealloc: the first chunk that starts at addr becomes free and is merged with its free
        neighbours; an address where no chunk starts changes nothing. */
    method Dealloc(addr: int)
      requires Linked()
      modifies this`chunks, this`ord, this`cells
      ensures Linked() && (old(Valid()) ==> Valid())
      ensures (forall i: nat, k: nat | i < pagenum :: !old(StartsAt(i, k, addr))) ==> cells == old(cells)
      ensures (exists i: nat, k: nat :: i < pagenum && old(StartsAt(i, k, addr))) ==>
              exists i: nat, k: nat :: old(FirstAt(i, k, addr)) && cells == old(cells)[i := Release(old(cells)[i], k)]
    {
      hide Describes, Tiled, Sum, Merge;
      for i := 0 to pagenum
        invariant Linked() && (old(Valid()) ==> Valid()) && cells == old(cells) && chunks == old(chunks)
        invariant ord == old(ord)
        invariant forall j: nat, k: nat | j < i :: !old(StartsAt(j, k, addr))
      {
        var k := FindChunk(i, addr);
        assert forall m: nat :: old(StartsAt(i, m, addr)) == StartsAt(i, m, addr);
        if k.Some? {
          assert old(FirstAt(i, k.value.1, addr));
          FreeChunk(i, k.value.0, k.value.1);
          return;
        }
      }
    }

    /** dealloc's search of one page: the table index and the position of the first chunk at addr. */
    method FindChunk(i: nat, addr: int) returns (r: Option<(nat, nat)>)
      requires Linked() && i < pagenum
      ensures r.Some? ==> StartsAt(i, r.value.1, addr) && Index(ord[i], r.value.1) == r.value.0
                          && forall j: nat | j < r.value.1 :: !StartsAt(i, j, addr)
      ensures r.None? ==> forall k: nat :: !StartsAt(i, k, addr)
    {
      hide Describes, Sum;
      ListStart(chunks[i], headIdx[i], ord[i], base[i], cells[i]);
      var p, k: nat := headIdx[i], 0;
      while p != -1
        invariant 0 <= k <= |cells[i]| && p == Index(ord[i], k)
        invariant forall j: nat | j < k :: !StartsAt(i, j, addr)
        decreases |cells[i]| - k
      {
        DescribesEntry(chunks[i], headIdx[i], ord[i], base[i], cells[i], k);
        if chunks[i][p].addr == addr {
          return Some((p, k));
        }
        p, k := chunks[i][p].next, k + 1;
      }
      return None;
    }

    /** Clear the flag and merge. */
    method FreeChunk(i: nat, p: nat, ghost k: nat)
      requires Linked() && i < pagenum && k < |cells[i]| && Index(ord[i], k) == p
      modifies this`chunks, this`ord, this`cells
      ensures Linked() && (old(Valid()) ==> Valid()) && cells == old(cells)[i := Release(old(cells)[i], k)]
    {
      hide Describes, Tiled, Sum, Merge;
      ghost var c := cells[i];
      ListStart(chunks[i], headIdx[i], ord[i], base[i], c);
      Flag(chunks[i], headIdx[i], ord[i], base[i], c, k, false);
      if Tiled(c) {
        ReleaseFacts(c, k, 0);
      }
      chunks := chunks[i := chunks[i][p := chunks[i][p].(used := false)]];
      cells := cells[i := c[k := c[k].(used := false)]];
      MergeChunk(i);
    }
  }

  /** The sizes alloc turns down at once; it lets zero and negative multiples of MINALLOC through. */
  predicate Refused(size: int) {
    size % MINALLOC != 0 || size > PAGESIZE
  }

  /** The chunk first fit finds has to be split, and the table has no entry left. */
  ghost predicate NoEntry(cells: seq<Cell>, size: int) {
    var k := FirstFit(cells, size);
    k < |cells| && cells[k].size != size && |cells| == CHUNKMAX
  }

  lemma KeepsTiled(cells: seq<Cell>, cells': seq<Cell>, size: int, base: int, r: Outcome)
    requires Tiled(cells) && size % MINALLOC == 0
    requires r.OffTable? ==> NoEntry(cells, size)
    requires r.Got? ==> Carved(cells, cells', size, base, r.addr)
    ensures r.OffTable? ==> size <= 0
    ensures r.Got? ==> (Tiled(cells') <==> size > 0)
  {
    hide Sum, Carve;
    var k := FirstFit(cells, size);
    if r.Got? {
      CarveTiled(cells, k, size);
    } else if r.OffTable? && size > 0 {
      RoomToSplit(cells, k);
    }
  }

  /** A size of zero: an empty chunk is handed out, and the next one starts where it does. */
  method SameAddress(page: int, other: int) returns (a: Allocator, x: Outcome, y: Outcome)
    ensures x == y == Got(page) && !a.Valid()
  {
    a := new Allocator();
    x := a.Alloc(0, page);
    ghost var cells := a.cells[0];
    assert cells == [Cell(0, true), Cell(PAGESIZE, false)] by {
      WholePageFits(0);
    }
    FirstFitIs(cells, PAGESIZE, 1);
    SumUpTo(cells, 0);
    assert a.FirstRoom(0, PAGESIZE);
    y := a.Alloc(PAGESIZE, other);
    StillEmpty(cells);
  }

  lemma StillEmpty(cells: seq<Cell>)
    requires cells == [Cell(0, true), Cell(PAGESIZE, false)]
    ensures !Tiled(Carve(cells, 1, PAGESIZE))
  {
    assert Carve(cells, 1, PAGESIZE)[0].size == 0;
  }

  /** A size of -256: the chunk handed out is not on the page, and the page that is left reaches
      below its own start, from where a whole page is handed out next. */
  method BelowThePage(page: int, other: int) returns (a: Allocator, x: Outcome, y: Outcome)
    ensures x == Got(page) && y == Got(page - MINALLOC) && !a.Valid()
  {
    a := new Allocator();
    x := a.Alloc(-MINALLOC, page);
    ghost var cells := a.cells[0];
    assert cells == [Cell(-MINALLOC, true), Cell(PAGESIZE + MINALLOC, false)] by {
      WholePageFits(-MINALLOC);
    }
    FirstFitIs(cells, PAGESIZE, 1);
    SumUpTo(cells, 0);
    assert a.FirstRoom(0, PAGESIZE);
    y := a.Alloc(PAGESIZE, other);
  }

  lemma MergeFrom(cells: seq<Cell>)
    ensures Merge(cells) == cells[..0] + Merge(cells[0..])
  {
    assert cells[0..] == cells;
  }

  lemma MergeJoins(cells: seq<Cell>, k: nat)
    requires k + 1 < |cells| && !cells[k].used && !cells[k + 1].used
    ensures cells[..k] + Merge(cells[k..]) == Joined(cells, k)[..k] + Merge(Joined(cells, k)[k..])
  {
    var r := Joined(cells, k);
    assert r[..k] == cells[..k];
    assert r[k..] == [Join(cells[k], cells[k + 1])] + cells[k..][2..];
  }

  lemma MergePasses(cells: seq<Cell>, k: nat)
    requires k < |cells| && (k + 1 < |cells| ==> cells[k].used || cells[k + 1].used)
    ensures cells[..k] + Merge(cells[k..]) == cells[..k + 1] + Merge(cells[k + 1..])
  {
    var s := cells[k..];
    assert s[1..] == cells[k + 1..];
    assert cells[..k + 1] == cells[..k] + [cells[k]];
    assert Merge(s) == [s[0]] + Merge(s[1..]);
  }

  lemma MergeEnds(cells: seq<Cell>, k: nat)
    requires k == |cells|
    ensures cells[..k] + Merge(cells[k..]) == cells
  {
  }

  function WholePage(): seq<Cell> {
    [Cell(PAGESIZE, false)]
  }

  /** cells' is what first fit makes of cells, and addr is where the chunk handed out starts. */
  ghost predicate Carved(cells: seq<Cell>, cells': seq<Cell>, size: int, base: int, addr: int) {
    var k := FirstFit(cells, size);
    k < |cells| && cells' == Carve(cells, k, size) && addr == base + Sum(cells[..k])
  }

  lemma WholePageFits(size: int)
    requires size <= PAGESIZE
    ensures FirstFit(WholePage(), size) == 0 && Sum(WholePage()[..0]) == 0 && !NoEntry(WholePage(), size)
    ensures |WholePage()| == 1
  {
  }

  lemma CarvedWhole(cells: seq<Cell>, size: int, base: int, addr: int)
    requires Carved(WholePage(), cells, size, base, addr)
    ensures addr == base
  {
  }

  lemma WholePageTiled(t: seq<Chunk>, addr: int)
    requires t == Unused()[0 := Chunk(addr, PAGESIZE, false, true, -1, -1)]
    ensures Describes(t, 0, [0], addr, WholePage()) && Tiled(WholePage())
  {
    var cells := WholePage();
    assert cells[1..] == [];
    assert Entry(t, [0], addr, cells, 0);
    assert [0][0] in [0];
  }

  function Unused(): (t: seq<Chunk>)
    ensures |t| == CHUNKMAX
  {
    seq(CHUNKMAX, i => NOCHUNK)
  }

  lemma ListStart(t: seq<Chunk>, head: int, ord: seq<nat>, base: int, cells: seq<Cell>)
    requires Describes(t, head, ord, base, cells)
    ensures head == Index(ord, 0) && |ord| == |cells| && |t| == CHUNKMAX
  {
  }

  lemma {:induction false} FirstFitIs(cells: seq<Cell>, size: int, k: nat)
    requires k < |cells| && Fits(cells[k], size) && forall j: nat | j < k :: !Fits(cells[j], size)
    ensures FirstFit(cells, size) == k
  {
  }

  lemma FirstFitNone(cells: seq<Cell>, size: int, k: nat)
    requires k == |cells| && forall j: nat | j < k :: !Fits(cells[j], size)
    ensures FirstFit(cells, size) == |cells|
  {
  }

  lemma CarveWhole(cells: seq<Cell>, k: nat)
    requires k < |cells|
    ensures Carve(cells, k, cells[k].size) == cells[k := cells[k].(used := true)]
  {
  }
}
