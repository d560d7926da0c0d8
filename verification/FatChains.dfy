/**
 The file allocation table as a value: cluster chains, the flat bytes they stand for, and
 what appending, cutting and writing a cluster does to every file.
 */
module FatChains {
  import opened Lists

  const BLKSIZE: nat := 4096
  const NENTRY: nat := 2048
  const FAT_FREE: nat := 0
  const FAT_RESERVE: nat := 1
  const FAT_EOF: nat := 0xffff

  type Byte = x: nat | x < 256

  datatype Dinode = Dinode(dir: bool, first: nat, size: nat)

  // ---------- chains ----------

  /** Linked in order, ended by the EOF mark, without a cycle, on data clusters only. */
  ghost predicate ChainOk(fat: seq<nat>, c: seq<nat>)
  {
    && |fat| == NENTRY && |c| > 0 && NoDup(c)
    && (forall j :: 0 <= j < |c| ==> 2 <= c[j] < NENTRY)
    && (forall j :: 0 <= j < |c| - 1 ==> fat[c[j]] == c[j + 1])
    && fat[c[|c| - 1]] == FAT_EOF
  }

  ghost predicate Apart(c: seq<nat>, d: seq<nat>)
  {
    forall x :: x in c ==> x !in d
  }

  /** Every regular file has its chain, and no two chains share a cluster. */
  ghost predicate FatOk(fat: seq<nat>, dinos: seq<Dinode>, chains: seq<seq<nat>>)
  {
    && |fat| == NENTRY && fat[0] != FAT_FREE && fat[1] != FAT_FREE && |chains| == |dinos|
    && (forall i :: 0 <= i < |dinos| && !dinos[i].dir ==> ChainOk(fat, chains[i]) && chains[i][0] == dinos[i].first)
    && (forall i, j :: 0 <= i < j < |dinos| && !dinos[i].dir && !dinos[j].dir ==> Apart(chains[i], chains[j]))
  }

  ghost predicate SizeOk(d: Dinode, c: seq<nat>)
  {
    d.dir || d.size <= |c| * BLKSIZE
  }

  /** The chain is determined by the table and its first cluster. */
  lemma {:induction false} ChainUnique(fat: seq<nat>, c: seq<nat>, d: seq<nat>, n: nat)
    requires ChainOk(fat, c) && ChainOk(fat, d) && c[0] == d[0] && n <= |c|
    ensures n <= |d| && c[..n] == d[..n] && (n == |c| ==> c == d)
  {
    if n > 1 {
      ChainUnique(fat, c, d, n - 1);
      assert c[n - 2] == c[..n - 1][n - 2] == d[n - 2];
      assert fat[c[n - 2]] == c[n - 1] != FAT_EOF;
      assert n - 1 < |d|;
      assert c[..n] == c[..n - 1] + [c[n - 1]];
      assert d[..n] == d[..n - 1] + [d[n - 1]];
    }
    if n == |c| {
      assert c[..n] == c;
      assert d[n - 1] == c[n - 1];
      InChain(fat, d, d[n - 1]);
      assert n == |d|;
      assert d[..n] == d;
    }
  }

  /** A marked cluster keeps its mark clear of the free mark. */
  lemma InChain(fat: seq<nat>, c: seq<nat>, x: nat)
    requires ChainOk(fat, c) && x in c
    ensures 2 <= x < NENTRY && fat[x] != FAT_FREE && (fat[x] == FAT_EOF <==> x == c[|c| - 1])
  {
    var j :| 0 <= j < |c| && c[j] == x;
    if j < |c| - 1 {
      assert fat[c[j]] == c[j + 1];
    }
  }

  lemma ChainElsewhere(fat: seq<nat>, c: seq<nat>, x: nat, v: nat)
    requires ChainOk(fat, c) && x < NENTRY && x !in c
    ensures ChainOk(fat[x := v], c)
  {
    assert forall j :: 0 <= j < |c| ==> c[j] in c;
  }

  // ---------- appending a cluster ----------

  lemma ChainAppend(fat: seq<nat>, c: seq<nat>, n: nat)
    requires ChainOk(fat, c) && 2 <= n < NENTRY && fat[n] == FAT_FREE
    ensures n !in c && ChainOk(fat[c[|c| - 1] := n][n := FAT_EOF], c + [n])
  {
    if n in c {
      InChain(fat, c, n);
      assert false;
    }
    var d := c + [n];
    var last := c[|c| - 1];
    assert last in c;
    assert forall j :: 0 <= j < |c| - 1 ==> c[j] != last;
    hide NoDup;
    NoDupSnoc(c, n);
    assert forall j :: 0 <= j < |c| ==> d[j] == c[j] && c[j] in c && c[j] != n;
  }

  lemma FreeApart(fat: seq<nat>, dinos: seq<Dinode>, chains: seq<seq<nat>>, n: nat, i: nat)
    requires FatOk(fat, dinos, chains) && n < NENTRY && fat[n] == FAT_FREE && i < |dinos| && !dinos[i].dir
    ensures n !in chains[i] && 2 <= n
  {
    if n in chains[i] {
      InChain(fat, chains[i], n);
    }
  }

  ghost predicate RegularFile(dinos: seq<Dinode>, i: nat)
  {
    i < |dinos| && !dinos[i].dir
  }

  /** Different files keep to different clusters. */
  lemma FilesApart(fat: seq<nat>, dinos: seq<Dinode>, chains: seq<seq<nat>>, i: nat, j: nat, x: nat)
    requires FatOk(fat, dinos, chains) && RegularFile(dinos, i) && RegularFile(dinos, j) && i != j
    requires x in chains[i]
    ensures x !in chains[j]
  {
    if i < j {
      assert Apart(chains[i], chains[j]);
    } else {
      assert Apart(chains[j], chains[i]);
    }
  }

  /** A file's chain may be replaced by one on its own clusters or free ones, when the others are left alone. */
  lemma FatReplaced(fat: seq<nat>, dinos: seq<Dinode>, chains: seq<seq<nat>>, i: nat, fat1: seq<nat>, c: seq<nat>)
    requires FatOk(fat, dinos, chains) && RegularFile(dinos, i)
    requires ChainOk(fat1, c) && c[0] == dinos[i].first && fat1[0] != FAT_FREE && fat1[1] != FAT_FREE
    requires forall x :: x in c ==> x in chains[i] || (x < NENTRY && fat[x] == FAT_FREE)
    requires forall j: nat :: RegularFile(dinos, j) && j != i ==> ChainOk(fat1, chains[j])
    ensures FatOk(fat1, dinos, chains[i := c])
  {
    var ch := chains[i := c];
    forall j, k | 0 <= j < k < |dinos| && !dinos[j].dir && !dinos[k].dir
      ensures Apart(ch[j], ch[k])
    {
      var other := if j == i then k else j;
      if j == i || k == i {
        forall x | x in c
          ensures x !in chains[other]
        {
          if x in chains[i] {
            FilesApart(fat, dinos, chains, i, other, x);
          } else {
            FreeApart(fat, dinos, chains, x, other);
          }
        }
      }
    }
    forall j | 0 <= j < |dinos| && !dinos[j].dir
      ensures ChainOk(fat1, ch[j]) && ch[j][0] == dinos[j].first
    {
      assert RegularFile(dinos, j);
    }
  }

  /** Appending a free cluster to one file. */
  lemma FatAppend(fat: seq<nat>, dinos: seq<Dinode>, chains: seq<seq<nat>>, i: nat, n: nat)
    requires FatOk(fat, dinos, chains) && RegularFile(dinos, i) && n < NENTRY && fat[n] == FAT_FREE
    ensures var c := chains[i]; |c| > 0 && c[|c| - 1] < NENTRY && 2 <= n && n !in c
    ensures var c := chains[i]; FatOk(fat[c[|c| - 1] := n][n := FAT_EOF], dinos, chains[i := c + [n]])
  {
    hide FatOk, ChainOk;
    FatAt(fat, dinos, chains, i);
    var c := chains[i];
    FreeApart(fat, dinos, chains, n, i);
    ChainAppend(fat, c, n);
    var last := c[|c| - 1];
    ChainLast(fat, c);
    var fat1 := fat[last := n][n := FAT_EOF];
    forall j: nat | RegularFile(dinos, j) && j != i
      ensures ChainOk(fat1, chains[j])
    {
      FatAt(fat, dinos, chains, j);
      FilesApart(fat, dinos, chains, i, j, last);
      FreeApart(fat, dinos, chains, n, j);
      ChainElsewhere(fat, chains[j], last, n);
      ChainElsewhere(fat[last := n], chains[j], n, FAT_EOF);
    }
    FatReplaced(fat, dinos, chains, i, fat1, c + [n]);
  }

  lemma FatAt(fat: seq<nat>, dinos: seq<Dinode>, chains: seq<seq<nat>>, i: nat)
    requires FatOk(fat, dinos, chains) && RegularFile(dinos, i)
    ensures |fat| == NENTRY && fat[0] != FAT_FREE && fat[1] != FAT_FREE && |chains| == |dinos|
    ensures ChainOk(fat, chains[i]) && |chains[i]| > 0 && chains[i][0] == dinos[i].first
  {
  }

  lemma ChainLast(fat: seq<nat>, c: seq<nat>)
    requires ChainOk(fat, c)
    ensures |c| > 0 && c[|c| - 1] in c && 2 <= c[|c| - 1] < NENTRY && |fat| == NENTRY && fat[c[|c| - 1]] == FAT_EOF
  {
  }

  // ---------- cutting the last cluster ----------

  lemma ChainCut(fat: seq<nat>, c: seq<nat>)
    requires ChainOk(fat, c) && |c| > 1
    ensures ChainOk(fat[c[|c| - 2] := FAT_EOF][c[|c| - 1] := FAT_FREE], c[..|c| - 1])
  {
    var d := c[..|c| - 1];
    assert forall j :: 0 <= j < |d| - 1 ==> c[j] != c[|c| - 2] && c[j] != c[|c| - 1];
  }

  /** Cutting the last cluster off one file. */
  lemma FatCut(fat: seq<nat>, dinos: seq<Dinode>, chains: seq<seq<nat>>, i: nat)
    requires FatOk(fat, dinos, chains) && RegularFile(dinos, i) && |chains[i]| > 1
    ensures var c := chains[i]; c[|c| - 2] < NENTRY && c[|c| - 1] < NENTRY
    ensures var c := chains[i];
      FatOk(fat[c[|c| - 2] := FAT_EOF][c[|c| - 1] := FAT_FREE], dinos, chains[i := c[..|c| - 1]])
  {
    hide FatOk;
    FatAt(fat, dinos, chains, i);
    var c := chains[i];
    ChainCut(fat, c);
    var p, l := c[|c| - 2], c[|c| - 1];
    assert p in c && l in c;
    var fat1 := fat[p := FAT_EOF][l := FAT_FREE];
    forall j: nat | RegularFile(dinos, j) && j != i
      ensures ChainOk(fat1, chains[j])
    {
      FatAt(fat, dinos, chains, j);
      FilesApart(fat, dinos, chains, i, j, p);
      FilesApart(fat, dinos, chains, i, j, l);
      ChainElsewhere(fat, chains[j], p, FAT_EOF);
      ChainElsewhere(fat[p := FAT_EOF], chains[j], l, FAT_FREE);
    }
    FatReplaced(fat, dinos, chains, i, fat1, c[..|c| - 1]);
  }

  // ---------- a new file ----------

  /** A new file on one free cluster. */
  lemma FatCreate(fat: seq<nat>, dinos: seq<Dinode>, chains: seq<seq<nat>>, n: nat)
    requires FatOk(fat, dinos, chains) && n < NENTRY && fat[n] == FAT_FREE
    ensures FatOk(fat[n := FAT_EOF], dinos + [Dinode(false, n, 0)], chains + [[n]])
  {
    var fat1, dinos1, chains1 := fat[n := FAT_EOF], dinos + [Dinode(false, n, 0)], chains + [[n]];
    forall j | 0 <= j < |dinos1| && !dinos1[j].dir
      ensures ChainOk(fat1, chains1[j]) && chains1[j][0] == dinos1[j].first
      ensures j < |dinos| ==> n !in chains1[j]
    {
      if j < |dinos| {
        FreeApart(fat, dinos, chains, n, j);
        ChainElsewhere(fat, chains[j], n, FAT_EOF);
      }
    }
    forall j, k | 0 <= j < k < |dinos1| && !dinos1[j].dir && !dinos1[k].dir
      ensures Apart(chains1[j], chains1[k])
    {
      if k < |dinos| {
        assert Apart(chains[j], chains[k]);
      }
    }
  }

  // ---------- free clusters ----------

  ghost function Frees(fat: seq<nat>): set<nat>
  {
    set m: nat | m < |fat| && fat[m] == FAT_FREE
  }

  /** Appending a cluster takes exactly one off the free ones. */
  lemma FreesAppend(fat: seq<nat>, last: nat, n: nat)
    requires last < |fat| && n < |fat| && last != n && n > 0 && fat[last] != FAT_FREE && fat[n] == FAT_FREE
    ensures |Frees(fat[last := n][n := FAT_EOF])| == |Frees(fat)| - 1
  {
    assert Frees(fat) == Frees(fat[last := n][n := FAT_EOF]) + {n};
  }

  lemma FreesTaken(fat: seq<nat>, n: nat)
    requires n < |fat| && fat[n] == FAT_FREE
    ensures |Frees(fat[n := FAT_EOF])| == |Frees(fat)| - 1
  {
    assert Frees(fat) == Frees(fat[n := FAT_EOF]) + {n};
  }

  // ---------- bytes ----------

  ghost predicate DiskOk(disk: seq<seq<Byte>>)
  {
    |disk| == NENTRY && forall b :: 0 <= b < NENTRY ==> |disk[b]| == BLKSIZE
  }

  /** The bytes of a chain, cluster after cluster. */
  ghost function Flat(disk: seq<seq<Byte>>, c: seq<nat>): (f: seq<Byte>)
    requires DiskOk(disk) && forall j :: 0 <= j < |c| ==> c[j] < NENTRY
    ensures |f| == |c| * BLKSIZE
  {
    if c == [] then [] else Flat(disk, c[..|c| - 1]) + disk[c[|c| - 1]]
  }

  /** Byte `j * BLKSIZE + p` of a file is byte `p` of its cluster `j`. */
  lemma {:induction false} FlatAt(disk: seq<seq<Byte>>, c: seq<nat>, j: nat, p: nat)
    requires DiskOk(disk) && j < |c| && p < BLKSIZE && forall k :: 0 <= k < |c| ==> c[k] < NENTRY
    ensures j * BLKSIZE + p < |Flat(disk, c)| && Flat(disk, c)[j * BLKSIZE + p] == disk[c[j]][p]
  {
    var d := c[..|c| - 1];
    if j < |d| {
      FlatAt(disk, d, j, p);
    }
  }

  lemma {:induction false} FlatElsewhere(disk: seq<seq<Byte>>, c: seq<nat>, x: nat, b: seq<Byte>)
    requires DiskOk(disk) && x < NENTRY && |b| == BLKSIZE && x !in c && forall k :: 0 <= k < |c| ==> c[k] < NENTRY
    ensures DiskOk(disk[x := b]) && Flat(disk[x := b], c) == Flat(disk, c)
  {
    if c != [] {
      var d := c[..|c| - 1];
      assert c[|c| - 1] in c;
      assert forall k :: 0 <= k < |d| ==> d[k] == c[k];
      assert x !in d;
      FlatElsewhere(disk, d, x, b);
    }
  }

  /** `s` put into `f` at `off`. */
  function Patch(f: seq<Byte>, off: nat, s: seq<Byte>): seq<Byte>
    requires off + |s| <= |f|
  {
    f[..off] + s + f[off + |s|..]
  }

  /** Writing into a cluster patches the file's bytes at that place. */
  lemma FlatPatch(disk: seq<seq<Byte>>, c: seq<nat>, j: nat, off: nat, s: seq<Byte>)
    requires DiskOk(disk) && NoDup(c) && j < |c| && off + |s| <= BLKSIZE && forall k :: 0 <= k < |c| ==> c[k] < NENTRY
    ensures DiskOk(disk[c[j] := Patch(disk[c[j]], off, s)])
    ensures j * BLKSIZE + off + |s| <= |Flat(disk, c)|
    ensures Flat(disk[c[j] := Patch(disk[c[j]], off, s)], c) == Patch(Flat(disk, c), j * BLKSIZE + off, s)
  {
    hide Flat, Patch;
    var b := PatchBlock(disk[c[j]], off, s);
    var disk1 := disk[c[j] := b];
    assert DiskOk(disk1);
    var f, g := Flat(disk, c), Flat(disk1, c);
    CapMono(j, |c|);
    var h := PatchAt(f, j * BLKSIZE + off, s);
    forall q | 0 <= q < |f|
      ensures g[q] == h[q]
    {
      var k, p := q / BLKSIZE, q % BLKSIZE;
      Position(q, |c|);
      FlatAt(disk, c, k, p);
      FlatAt(disk1, c, k, p);
      if k != j {
        assert c[k] != c[j];
        Outside(q, j, off, |s|);
      }
    }
  }

  /** A patched sequence, byte by byte. */
  lemma PatchAt(f: seq<Byte>, off: nat, s: seq<Byte>) returns (h: seq<Byte>)
    requires off + |s| <= |f|
    ensures h == Patch(f, off, s) && |h| == |f|
    ensures forall q :: 0 <= q < |f| ==> h[q] == if off <= q < off + |s| then s[q - off] else f[q]
  {
    h := Patch(f, off, s);
  }

  lemma PatchBlock(b: seq<Byte>, off: nat, s: seq<Byte>) returns (h: seq<Byte>)
    requires off + |s| <= |b|
    ensures h == Patch(b, off, s) && |h| == |b|
    ensures forall q :: 0 <= q < |b| ==> h[q] == if off <= q < off + |s| then s[q - off] else b[q]
  {
    h := PatchAt(b, off, s);
  }

  lemma CapMono(j: nat, n: nat)
    requires j < n
    ensures (j + 1) * BLKSIZE <= n * BLKSIZE
  {
  }

  lemma Position(q: nat, n: nat)
    requires q < n * BLKSIZE
    ensures q / BLKSIZE < n && q == (q / BLKSIZE) * BLKSIZE + q % BLKSIZE
  {
  }

  lemma Outside(q: nat, j: nat, off: nat, n: nat)
    requires q / BLKSIZE != j && off + n <= BLKSIZE
    ensures q < j * BLKSIZE + off || j * BLKSIZE + off + n <= q
  {
  }

  lemma FlatAppend(disk: seq<seq<Byte>>, c: seq<nat>, n: nat)
    requires DiskOk(disk) && n < NENTRY && forall k :: 0 <= k < |c| ==> c[k] < NENTRY
    ensures (forall k :: 0 <= k < |c| + 1 ==> (c + [n])[k] < NENTRY) && Flat(disk, c + [n]) == Flat(disk, c) + disk[n]
  {
    assert (c + [n])[..|c|] == c;
  }

  // ---------- what a transfer has done so far ----------

  /** `done` stands at `off` in `f`, and every other byte of `f0` is still there. */
  ghost predicate Written(f0: seq<Byte>, f: seq<Byte>, off: nat, done: seq<Byte>)
  {
    && |f0| <= |f| && (done != [] ==> off + |done| <= |f|)
    && (forall q :: 0 <= q < |f0| && !(off <= q < off + |done|) ==> f[q] == f0[q])
    && (forall k :: 0 <= k < |done| ==> f[off + k] == done[k])
  }

  lemma WrittenPatch(f: seq<Byte>, off: nat, s: seq<Byte>)
    requires off + |s| <= |f|
    ensures Written(f, Patch(f, off, s), off, s)
  {
  }

  lemma WrittenRead(f: seq<Byte>, off: nat, n: nat)
    requires off + n <= |f|
    ensures Written(f, f, off, f[off..off + n])
  {
  }

  lemma WrittenGrown(f0: seq<Byte>, f: seq<Byte>, b: seq<Byte>, off: nat, done: seq<Byte>)
    requires Written(f0, f, off, done) && |f0| == |f|
    ensures Written(f0 + b, f + b, off, done)
  {
  }

  /** Two transfers in a row are one. */
  lemma WrittenMore(f0: seq<Byte>, f1: seq<Byte>, f2: seq<Byte>, off: nat, done: seq<Byte>, more: seq<Byte>)
    requires Written(f0, f1, off, done) && Written(f1, f2, off + |done|, more)
    ensures Written(f0, f2, off, done + more)
  {
    var all := done + more;
    forall k | 0 <= k < |all|
      ensures f2[off + k] == all[k]
    {
      if k < |done| {
        assert f1[off + k] == done[k];
      } else {
        assert f2[off + |done| + (k - |done|)] == more[k - |done|];
      }
    }
  }

  /** A file's content after `s` went in at `off`, at or before its end. */
  function Spliced(c: seq<Byte>, off: nat, s: seq<Byte>): seq<Byte>
    requires off <= |c|
  {
    c[..off] + s + (if off + |s| < |c| then c[off + |s|..] else [])
  }

  function Max(a: nat, b: nat): nat
  {
    if a < b then b else a
  }

  /** The flat file after a transfer that began within it. */
  lemma WrittenContent(f0: seq<Byte>, f: seq<Byte>, off: nat, done: seq<Byte>, size: nat)
    requires Written(f0, f, off, done) && off <= size <= |f0|
    ensures Max(size, off + |done|) <= |f| && f[..Max(size, off + |done|)] == Spliced(f0[..size], off, done)
  {
    var n := Max(size, off + |done|);
    var r := Spliced(f0[..size], off, done);
    assert |r| == n;
    forall q | 0 <= q < n
      ensures f[q] == r[q]
    {
      if off <= q < off + |done| {
        assert f[off + (q - off)] == done[q - off];
      }
    }
  }
}
