// The cached FAT sector of kernel/filesystem/fat.c: lookup, first-free search, update and the
// step by which a file being written grows.
module FatCache {
  import opened Bits
  import opened FatChains
  import opened FatTable

  /**
   * The first FAT sector in memory.  Entries of the clusters below `clusters` lie in it, however
   * many the volume has; for these the reload tests of the source, which compare with 512 bytes,
   * never fire.
   */
  class Cache {
    const ty: FatType
    ghost const clusters: nat
    const totalClusters: nat
    const table: array<Byte>

    constructor (ty: FatType, ghost clusters: nat, totalClusters: nat, sector: seq<Byte>)
      requires 2 <= totalClusters && 2 <= clusters && |sector| <= 512
      requires InTable(ty, sector, clusters - 1) && Storable(ty, clusters - 1)
      ensures Valid() && fresh(table) && table[..] == sector
      ensures this.ty == ty && this.clusters == clusters && this.totalClusters == totalClusters
    {
      this.ty, this.clusters, this.totalClusters := ty, clusters, totalClusters;
      table := new Byte[|sector|](i requires 0 <= i < |sector| => sector[i]);
      new;
      assert table[..] == sector;
    }

    ghost predicate Valid()
      reads table
    {
      && 2 <= totalClusters && 2 <= clusters && table.Length <= 512
      && Offset(ty, clusters - 1) + Width(ty) <= table.Length
      && Storable(ty, clusters - 1)
    }

    /** The clusters a search can find lie below this one. */
    ghost function Limit(): (n: nat)
      ensures n <= clusters && n <= totalClusters && (n == clusters || n == totalClusters)
    {
      if totalClusters <= clusters then totalClusters else clusters
    }

    /** A search ends in the sector: at a free cluster, or with the volume. */
    ghost predicate SearchEnds()
      requires Valid()
      reads table
    {
      totalClusters <= clusters || !NoneFree(Next(), clusters)
    }

    /** What the entry of every cluster reads. */
    ghost function Next(): (l: Links)
      requires Valid()
      reads table
      ensures |l| == clusters
    {
      SmallSector();
      LinksOf(ty, table[..], clusters)
    }

    lemma SmallSector()
      requires Valid()
      ensures 2 <= totalClusters && 2 <= Limit() <= clusters <= 342 && InTable(ty, table[..], clusters - 1)
    {
    }

    /** The entry of a cluster lies in the sector, so reducing its offset changes nothing. */
    lemma EntryInside(c: nat)
      requires Valid() && c < clusters
      ensures InTable(ty, table[..], c) && Offset(ty, c) + Width(ty) <= table.Length
      ensures 0 < table.Length && Offset(ty, c) % table.Length == Offset(ty, c) < 512
      ensures Next()[c] == Read(ty, table[..], c)
    {
      SmallSector();
      InTableBelow(ty, table[..], clusters - 1, c);
      hide Read, Offset;
      WithinModulus(Offset(ty, c), table.Length);
    }

    method NextCluster(c: nat) returns (val: nat)
      requires Valid() && c < clusters
      ensures val == Next()[c]
    {
      EntryInside(c);
      hide Valid, Next, LinksOf, Decode12, Widen, Get16, Get32;
      var entOffset := Offset(ty, c) % table.Length;
      match ty
      case Fat12 => val := Widen(ty, Decode12(Get16(table[..], entOffset), c));
      case Fat16 => val := Widen(ty, Get16(table[..], entOffset));
      case Fat32 => val := Get32(table[..], entOffset);
    }

    /** The lowest free cluster of 2 .. totalClusters - 1, or 0 when there is none. */
    method FindFreeCluster() returns (f: nat)
      requires Valid() && SearchEnds()
      ensures LowestFree(Next(), Limit(), f)
    {
      var i := 2;
      while i < totalClusters
        invariant 2 <= i <= Limit() && NoneFree(Next(), i)
      {
        var cluster := NextCluster(i);
        if cluster == 0 {
          return i;
        }
        i := i + 1;
      }
      return 0;
    }

    method UpdateFat(c: nat, next: Word)
      requires Valid() && c < clusters
      modifies table
      ensures InTable(ty, old(table[..]), c) && table[..] == Update(ty, old(table[..]), c, next)
      ensures Next() == old(Next())[c := Widened(ty, next % Modulus(ty))]
    {
      UpdateFacts(c, next);
      ghost var t := table[..];
      UpdateCases(ty, t, c, next);
      hide *;
      var entOffset := Offset(ty, c) % table.Length;
      match ty {
        case Fat12 => Store16(entOffset, Encode12(Get16(table[..], entOffset), c, next));
        case Fat16 => Store16(entOffset, And(next, 0xFFFF));
        case Fat32 =>
          Store16(entOffset, next % 0x1_0000);
          Store16(entOffset + 2, next / 0x1_0000);
      }
      UpdateLength(ty, t, c, next);
      UpdatedNext(t, c, next);
    }

    lemma UpdateFacts(c: nat, next: Word)
      requires Valid() && c < clusters
      ensures InTable(ty, table[..], c) && Offset(ty, c) + Width(ty) <= table.Length
      ensures 0 < table.Length && Offset(ty, c) % table.Length == Offset(ty, c) < 512
      ensures Width(ty) == if ty.Fat32? then 4 else 2
      ensures clusters < 0xFFFF_FFF8 && InTable(ty, table[..], clusters - 1)
      ensures Next() == LinksOf(ty, table[..], clusters)
    {
      EntryInside(c);
      SmallSector();
    }

    lemma UpdatedNext(t: seq<Byte>, c: nat, next: Word)
      requires Valid() && |t| == table.Length && c < clusters && clusters < 0xFFFF_FFF8
      requires InTable(ty, t, clusters - 1) && InTable(ty, t, c)
      requires table[..] == Update(ty, t, c, next)
      ensures Next() == LinksOf(ty, t, clusters)[c := Widened(ty, next % Modulus(ty))]
    {
      SmallSector();
      UpdateLinks(ty, t, clusters, c, next);
      hide Update, Widened, Modulus;
    }

    method Store16(o: nat, v: nat)
      requires o + 2 <= table.Length && v < 0x1_0000
      modifies table
      ensures table[..] == Put16(old(table[..]), o, v)
    {
      table[o], table[o + 1] := v % 256, v / 256;
    }

    /**
     * One step along a file being written, for either end mark the writers use.  Inside the
     * chain nothing changes; behind its last cluster the lowest free cluster is appended, and
     * every other chain is as before.  Without a free cluster the file is left without a chain.
     */
    method Advance(current: nat, mark: Word, ghost chains: seq<seq<nat>>, ghost w: nat, ghost i: nat) returns (cur: nat)
      requires Valid() && WellFormed(Next(), chains) && w < |chains| && i < |chains[w]| && current == chains[w][i]
      requires mark == 0xFFFF_FFF8 || (ty.Fat12? && mark == 0x0FF8)
      requires SearchEnds()
      modifies table
      ensures i + 1 < |chains[w]| ==> cur == chains[w][i + 1] && table[..] == old(table[..])
      ensures current < clusters
      ensures i + 1 == |chains[w]| ==>
        LowestFree(old(Next()), Limit(), cur) && Next() == Linked(old(Next()), current, cur)
      ensures i + 1 == |chains[w]| && cur != 0 ==> WellFormed(Next(), chains[w := chains[w] + [cur]])
      ensures i + 1 == |chains[w]| && cur == 0 ==>
        forall ds | ds != [] && ds[0] == chains[w][0] :: !IsChain(Next(), ds)
    {
      SmallSector();
      LinkKind(Next(), chains[w], i);
      cur := NextCluster(current);
      if cur >= 0xFFFF_FFF8 {
        ghost var links, t := Next(), table[..];
        cur := FindFreeCluster();
        Grow(current, cur, mark);
        if cur != 0 {
          GrowKeepsChains(links, chains, w, cur);
        } else {
          forall ds: seq<nat> | ds != [] && ds[0] == chains[w][0] ensures !IsChain(Next(), ds) {
            GrowWithoutRoom(links, chains[w], ds);
          }
        }
      }
    }

    /** Link cluster f behind cluster last, then mark it as the end. */
    method Grow(last: nat, f: nat, mark: Word)
      requires Valid() && last < clusters && f < Limit()
      requires mark == 0xFFFF_FFF8 || (ty.Fat12? && mark == 0x0FF8)
      modifies table
      ensures Next() == Linked(old(Next()), last, f)
    {
      MarksRead(ty, f, mark);
      UpdateFat(last, f);
      UpdateFat(f, mark);
    }
  }

  lemma WithinModulus(x: nat, m: nat)
    requires x < m
    ensures x % m == x
  {
  }
}
