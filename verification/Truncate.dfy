/** What happens to the block map while a file is truncated. */
module Truncate {
  import opened Blocks
  import opened Inodes

  ghost function Others(f: seq<Inode>, i: nat): (r: seq<Inode>)
    requires i < |f|
    ensures |r| == |f|
  {
    f[i := Cleared(f[i])]
  }

  /** Truncation of inode i, started on disk d0 where owner says who owns what, has so far freed
      exactly the blocks in freed, all of them the file's own; nothing else has changed. */
  ghost predicate Truncating(sb: Superblock, d0: Image, f: seq<Inode>, owner: map<nat, (nat, nat)>, i: nat,
                             disk: Image, freed: set<nat>)
  {
    && SbOk(sb) && |d0| == |disk| == sb.size && |f| == sb.ninodes && i < |f| && Owns(sb, d0, f, owner)
    && Owns(sb, disk, Others(f, i), owner - OwnedBy(owner, i))
    && Dinodes(sb, disk) == Dinodes(sb, d0) && SameBytes(d0, Others(f, i), disk, Others(f, i))
    && freed <= OwnedBy(owner, i)
    && (forall b: nat | b < sb.size :: Used(sb, disk, b) == (Used(sb, d0, b) && b !in freed))
    && (forall b: nat | DataStart(sb) <= b < sb.size :: disk[b] == d0[b])
  }

  lemma StartTruncating(sb: Superblock, d0: Image, f: seq<Inode>, owner: map<nat, (nat, nat)>, i: nat)
    requires SbOk(sb) && |d0| == sb.size && |f| == sb.ninodes && i < |f| && Owns(sb, d0, f, owner)
    ensures Truncating(sb, d0, f, owner, i, d0, {})
  {
    Detach(sb, d0, f, owner, i);
  }

  /** The block in slot k, if there is one and it has not been freed yet, is still in use, so
      freeing it does not panic; and it is one more block freed. */
  lemma FreeNext(sb: Superblock, d0: Image, f: seq<Inode>, owner: map<nat, (nat, nat)>, i: nat,
                 disk: Image, freed: set<nat>, k: nat)
    requires Truncating(sb, d0, f, owner, i, disk, freed) && k < NSLOTS
    requires Slot(d0, f[i], k) != 0 && Slot(d0, f[i], k) !in freed
    ensures var b := Slot(d0, f[i], k);
            && b in owner && owner[b] == (i, k) && b < sb.size && Used(sb, disk, b)
            && Truncating(sb, d0, f, owner, i, Unmarked(sb, disk, b), freed + {b})
  {
    hide Used, WordAt, Unmarked, SameBytes;
    var b := Slot(d0, f[i], k);
    assert b in owner && owner[b] == (i, k) && b in OwnedBy(owner, i);
    FreeStep(sb, d0, f, owner, i, disk, freed, b);
  }

  lemma FreeStep(sb: Superblock, d0: Image, f: seq<Inode>, owner: map<nat, (nat, nat)>, i: nat,
                 disk: Image, freed: set<nat>, b: nat)
    requires Truncating(sb, d0, f, owner, i, disk, freed)
    requires b in OwnedBy(owner, i) && b !in freed && DataStart(sb) <= b < sb.size && Used(sb, d0, b)
    ensures Used(sb, disk, b) && Truncating(sb, d0, f, owner, i, Unmarked(sb, disk, b), freed + {b})
  {
    hide Used, WordAt, Unmarked, SameBytes, Owns;
    var g, rest := Others(f, i), owner - OwnedBy(owner, i);
    FreeUnowned(sb, disk, g, rest, b);
    SameBytesTwice(d0, g, disk, Unmarked(sb, disk, b));
  }

  lemma SameBytesTwice(d0: Image, f: seq<Inode>, d1: Image, d2: Image)
    requires SameBytes(d0, f, d1, f) && SameBytes(d1, f, d2, f)
    ensures SameBytes(d0, f, d2, f)
  {
    hide FileByte;
  }
}
