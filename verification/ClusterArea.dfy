// Where the clusters of a FAT volume lie on the disk.
module ClusterArea {
  import opened Bits

  /** A disk is a sequence of 512-byte sectors. */
  ghost predicate Sectors(disk: seq<seq<Byte>>) {
    forall lba | 0 <= lba < |disk| :: |disk[lba]| == 512
  }

  /** cluster_2_lba, in 32-bit arithmetic. */
  function Cluster2Lba(cluster: nat, sectorsPerCluster: nat, firstDataSector: nat): Word {
    Wrap(Wrap(Wrap(cluster - 2) * sectorsPerCluster) + firstDataSector)
  }

  /** The clusters from 2 to below n lie one after the other in the data area. */
  lemma LbaValue(c: nat, n: nat, spc: nat, first: nat, sectors: nat)
    requires 2 <= c < n < 0x1_0000_0000 && first + (n - 2) * spc <= sectors < 0x1_0000_0000
    ensures Cluster2Lba(c, spc, first) == first + (c - 2) * spc
    ensures first <= Cluster2Lba(c, spc, first) && Cluster2Lba(c, spc, first) + spc <= sectors
  {
    Monotone(c - 2, n - 3, spc);
    assert (n - 3) * spc + spc == (n - 2) * spc;
    if spc > 0 { Monotone(1, spc, c - 2); }
    hide Wrap;
    WrapSmall(c - 2);
    WrapSmall((c - 2) * spc);
    WrapSmall((c - 2) * spc + first);
  }

  /** For any cluster number at all the formula is right modulo 2^32. */
  lemma LbaModulo(c: nat, spc: nat, first: nat)
    ensures Cluster2Lba(c, spc, first) == ((c - 2) * spc + first) % 0x1_0000_0000
  {
    WrapTimes(c - 2, spc);
    WrapAdd((c - 2) * spc, first);
  }

  lemma WrapTimes(x: int, k: nat)
    ensures Wrap(Wrap(x) * k) == Wrap(x * k)
  {
    var q := x / 0x1_0000_0000;
    assert x == Wrap(x) + 0x1_0000_0000 * q;
    assert x * k == Wrap(x) * k + 0x1_0000_0000 * (q * k);
    WrapMore(Wrap(x) * k, q * k);
  }

  lemma WrapMore(x: int, m: int)
    ensures Wrap(x + 0x1_0000_0000 * m) == Wrap(x)
  {
  }

  lemma Monotone(a: nat, b: nat, k: nat)
    requires a <= b
    ensures a * k <= b * k
  {
  }

  lemma WrapSmall(x: nat)
    requires x < 0x1_0000_0000
    ensures Wrap(x) == x
  {
  }

  /** Different clusters occupy disjoint runs of sectors. */
  lemma LbasApart(c: nat, d: nat, n: nat, spc: nat, first: nat, sectors: nat)
    requires 2 <= c < n && 2 <= d < n < 0x1_0000_0000 && c != d && first + (n - 2) * spc <= sectors < 0x1_0000_0000
    ensures Cluster2Lba(c, spc, first) + spc <= Cluster2Lba(d, spc, first)
         || Cluster2Lba(d, spc, first) + spc <= Cluster2Lba(c, spc, first)
  {
    LbaValue(c, n, spc, first, sectors);
    LbaValue(d, n, spc, first, sectors);
    hide Cluster2Lba;
    if c < d {
      Monotone(c - 2 + 1, d - 2, spc);
    } else {
      Monotone(d - 2 + 1, c - 2, spc);
    }
  }
}
