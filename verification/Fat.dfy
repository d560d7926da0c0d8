/**
 The file system of mod-sfatfs/sfatfs_inode.c: the allocation table, the file entries and
 the device blocks, changed by creation, block-wise transfers and truncation. The ghost
 field holds each file's chain of clusters, which the table determines.
 */
module Fat {
  import opened Lists
  import opened FatChains

  const FILE_NENTRY: nat := 149
  const MAX_FILE_SIZE: nat := 1024 * 1024
  const MAX_FNAME_LEN: nat := 15

  datatype Status = Done | Invalid | NoMemory | TooBig | Exists

  ghost predicate NoFree(fat: seq<nat>)
  {
    forall m :: 0 <= m < |fat| ==> fat[m] != FAT_FREE
  }

  /** A machine word read as a signed offset. */
  function Signed(x: int): int
  {
    var w := x % 0x1_0000_0000;
    if w < 0x8000_0000 then w else w - 0x1_0000_0000
  }

  /** How many blocks hold `n` bytes. */
  function Blocks(n: nat): nat
  {
    (n + BLKSIZE - 1) / BLKSIZE
  }

  lemma BlocksFit(n: nat, k: nat)
    ensures Blocks(n) <= k <==> n <= k * BLKSIZE
  {
  }

  // ---------- one transfer, step by step ----------

  /** Table, chains and device at one moment. */
  datatype Snap = Snap(fat: seq<nat>, chains: seq<seq<nat>>, disk: seq<seq<Byte>>)

  ghost predicate SnapOk(dinos: seq<Dinode>, s: Snap)
  {
    FatOk(s.fat, dinos, s.chains) && DiskOk(s.disk)
  }

  lemma SnapShape(dinos: seq<Dinode>, s: Snap)
    requires SnapOk(dinos, s)
    ensures |s.fat| == NENTRY && |s.chains| == |dinos| && DiskOk(s.disk)
  {
  }

  lemma ChainBounds(dinos: seq<Dinode>, s: Snap, i: nat)
    requires SnapOk(dinos, s) && RegularFile(dinos, i)
    ensures |s.chains| == |dinos| && |s.chains[i]| > 0 && NoDup(s.chains[i]) && DiskOk(s.disk)
    ensures forall k :: 0 <= k < |s.chains[i]| ==> 2 <= s.chains[i][k] < NENTRY
  {
  }

  ghost function FileBytes(dinos: seq<Dinode>, s: Snap, i: nat): seq<Byte>
    requires SnapOk(dinos, s) && RegularFile(dinos, i)
  {
    Flat(s.disk, s.chains[i])
  }

  /** Every other regular file keeps its chain and its bytes. */
  ghost predicate Untouched(dinos: seq<Dinode>, i: nat, s0: Snap, s: Snap)
    requires SnapOk(dinos, s0) && SnapOk(dinos, s)
  {
    forall j: nat :: RegularFile(dinos, j) && j != i ==>
      s.chains[j] == s0.chains[j] && FileBytes(dinos, s, j) == FileBytes(dinos, s0, j)
  }

  /** A prefix of the chain holds a prefix of the bytes. */
  lemma {:induction false} FlatPrefix(disk: seq<seq<Byte>>, c: seq<nat>, n: nat)
    requires DiskOk(disk) && n <= |c| && forall k :: 0 <= k < |c| ==> c[k] < NENTRY
    ensures (forall k :: 0 <= k < n ==> c[..n][k] < NENTRY) && n * BLKSIZE <= |Flat(disk, c)|
    ensures Flat(disk, c[..n]) == Flat(disk, c)[..n * BLKSIZE]
  {
    if n < |c| {
      var d := c[..|c| - 1];
      FlatPrefix(disk, d, n);
      assert d[..n] == c[..n];
    } else {
      assert c[..n] == c;
    }
  }

  /** What a file can have: its clusters and the free ones. */
  ghost function Room(s: Snap, i: nat): nat
    requires i < |s.chains|
  {
    |s.chains[i]| + |Frees(s.fat)|
  }

  /** Only file `i`'s chain grew, by clusters that were free; the table changed only if it did. */
  ghost predicate Grown(s0: Snap, s: Snap, i: nat)
  {
    && i < |s0.chains| == |s.chains| && s.chains == s0.chains[i := s.chains[i]] && s0.chains[i] <= s.chains[i]
    && Room(s, i) == Room(s0, i) && (|s.chains[i]| == |s0.chains[i]| ==> s.fat == s0.fat)
  }

  lemma GrownSelf(s: Snap, i: nat)
    requires i < |s.chains|
    ensures Grown(s, s, i)
  {
  }

  lemma GrownTrans(s: Snap, t: Snap, u: Snap, i: nat)
    requires Grown(s, t, i) && Grown(t, u, i)
    ensures Grown(s, u, i)
  {
    hide Frees;
  }

  /** `got` stands at `off` in file `i`, whose other bytes are those its clusters had before. */
  ghost predicate Carried(dinos: seq<Dinode>, i: nat, off: nat, got: seq<Byte>, s0: Snap, s: Snap)
  {
    && RegularFile(dinos, i) && SnapOk(dinos, s0) && SnapOk(dinos, s) && Grown(s0, s, i) && Untouched(dinos, i, s0, s)
    && (forall c :: 0 <= c < NENTRY && c !in s.chains[i] ==> s.disk[c] == s0.disk[c])
    && Written(FileBytes(dinos, s.(disk := s0.disk), i), FileBytes(dinos, s, i), off, got)
  }

  /** A transfer from `off` has moved `got`, and the chain reaches to the end of that. */
  ghost predicate Progress(dinos: seq<Dinode>, i: nat, off: nat, buf: seq<Byte>, write: bool, got: seq<Byte>, s0: Snap, s: Snap)
  {
    && Carried(dinos, i, off, got, s0, s)
    && (write ==> |got| <= |buf| && got == buf[..|got|])
    && (!write || got == [] ==> s.disk == s0.disk)
    && |s.chains[i]| == if got == [] then |s0.chains[i]| else Max(|s0.chains[i]|, Blocks(off + |got|))
  }

  lemma ProgressStart(dinos: seq<Dinode>, i: nat, off: nat, buf: seq<Byte>, write: bool, s: Snap)
    requires RegularFile(dinos, i) && SnapOk(dinos, s)
    ensures Progress(dinos, i, off, buf, write, [], s, s)
  {
  }

  /** What is plain from a transfer in progress. */
  lemma ProgressAt(dinos: seq<Dinode>, i: nat, off: nat, buf: seq<Byte>, write: bool, got: seq<Byte>, s0: Snap, s: Snap)
    requires Progress(dinos, i, off, buf, write, got, s0, s)
    ensures RegularFile(dinos, i) && |s.chains| == |s0.chains| == |dinos| && SnapOk(dinos, s) && SnapOk(dinos, s0)
    ensures |s.chains[i]| == if got == [] then |s0.chains[i]| else Max(|s0.chains[i]|, Blocks(off + |got|))
    ensures Room(s, i) == Room(s0, i) && (got == [] ==> s == s0)
  {
    hide FatOk, Flat, Written, Untouched, Frees;
    SnapShape(dinos, s0);
    if got == [] {
      assert s.chains[i] == s0.chains[i];
      assert s.chains == s0.chains;
    }
  }

  /** Appending a cluster to one file leaves the others alone and adds bytes at its end. */
  lemma AppendUntouched(dinos: seq<Dinode>, i: nat, s: Snap, t: Snap, n: nat)
    requires SnapOk(dinos, s) && SnapOk(dinos, t) && RegularFile(dinos, i) && t.disk == s.disk
    requires n < NENTRY && t.chains == s.chains[i := s.chains[i] + [n]]
    ensures Untouched(dinos, i, s, t) && FileBytes(dinos, t, i) == FileBytes(dinos, s, i) + s.disk[n]
  {
    hide FatOk;
    ChainBounds(dinos, s, i);
    FlatAppend(s.disk, s.chains[i], n);
  }

  /** Writing into one file's cluster leaves the others alone. */
  lemma PatchUntouched(dinos: seq<Dinode>, i: nat, s: Snap, k: nat, off: nat, data: seq<Byte>)
    requires SnapOk(dinos, s) && RegularFile(dinos, i) && k < |s.chains[i]| && off + |data| <= BLKSIZE
    ensures var c := s.chains[i][k]; c < NENTRY
    ensures var c := s.chains[i][k]; var t := s.(disk := s.disk[c := Patch(s.disk[c], off, data)]);
      && SnapOk(dinos, t) && Untouched(dinos, i, s, t)
      && k * BLKSIZE + off + |data| <= |FileBytes(dinos, s, i)|
      && FileBytes(dinos, t, i) == Patch(FileBytes(dinos, s, i), k * BLKSIZE + off, data)
  {
    hide FatOk, Patch, Flat, NoDup;
    ChainBounds(dinos, s, i);
    var c := s.chains[i][k];
    var b := PatchBlock(s.disk[c], off, data);
    var t := s.(disk := s.disk[c := b]);
    FlatPatch(s.disk, s.chains[i], k, off, data);
    forall j: nat | RegularFile(dinos, j) && j != i
      ensures FileBytes(dinos, t, j) == FileBytes(dinos, s, j)
    {
      ChainBounds(dinos, s, j);
      assert c in s.chains[i];
      FilesApart(s.fat, dinos, s.chains, i, j, c);
      FlatElsewhere(s.disk, s.chains[j], c, b);
    }
  }

  lemma UntouchedTrans(dinos: seq<Dinode>, i: nat, s: Snap, t: Snap, u: Snap)
    requires SnapOk(dinos, s) && SnapOk(dinos, t) && SnapOk(dinos, u)
    requires Untouched(dinos, i, s, t) && Untouched(dinos, i, t, u)
    ensures Untouched(dinos, i, s, u)
  {
    hide SnapOk, FileBytes;
  }

  /** Finding a cluster, or appending it, moves nothing. */
  lemma CarriedLoad(dinos: seq<Dinode>, i: nat, off: nat, got: seq<Byte>, s0: Snap, s: Snap, t: Snap)
    requires Carried(dinos, i, off, got, s0, s) && SnapOk(dinos, t) && t.disk == s.disk && Grown(s, t, i)
    requires t.chains == s.chains || exists x: nat :: x < NENTRY && t.chains == s.chains[i := s.chains[i] + [x]]
    ensures Carried(dinos, i, off, got, s0, t)
  {
    hide SnapOk, FileBytes, Untouched, Written, Grown, Frees, Room;
    GrownTrans(s0, s, t, i);
    ChainBounds(dinos, s, i);
    ChainBounds(dinos, t, i);
    ChainBounds(dinos, s0, i);
    var s1, t1 := s.(disk := s0.disk), t.(disk := s0.disk);
    Redisk(dinos, s, s0.disk);
    Redisk(dinos, t, s0.disk);
    if t.chains == s.chains {
      SameBytes(dinos, i, s, t);
      SameBytes(dinos, i, s1, t1);
    } else {
      var x: nat :| x < NENTRY && t.chains == s.chains[i := s.chains[i] + [x]];
      AppendUntouched(dinos, i, s, t, x);
      AppendUntouched(dinos, i, s1, t1, x);
      NewCluster(t.chains[i], s.chains[i], x);
      BytesSize(dinos, i, s);
      BytesSize(dinos, i, s1);
      WrittenGrown(FileBytes(dinos, s1, i), FileBytes(dinos, s, i), s.disk[x], off, got);
    }
    UntouchedTrans(dinos, i, s0, s, t);
  }

  lemma NewCluster(c: seq<nat>, c0: seq<nat>, x: nat)
    requires NoDup(c) && c == c0 + [x]
    ensures x !in c0 && forall y :: y in c0 ==> y in c
  {
    assert c[|c0|] == x;
    assert forall k :: 0 <= k < |c0| ==> c0[k] == c[k];
  }

  lemma Redisk(dinos: seq<Dinode>, s: Snap, disk: seq<seq<Byte>>)
    requires SnapOk(dinos, s) && DiskOk(disk)
    ensures SnapOk(dinos, s.(disk := disk))
  {
  }

  lemma BytesSize(dinos: seq<Dinode>, i: nat, s: Snap)
    requires SnapOk(dinos, s) && RegularFile(dinos, i)
    ensures |s.chains| == |dinos| && |FileBytes(dinos, s, i)| == |s.chains[i]| * BLKSIZE
  {
  }

  /** Writing the next piece into a loaded cluster. */
  lemma CarriedWrite(dinos: seq<Dinode>, i: nat, off: nat, got: seq<Byte>, s0: Snap, t: Snap, k: nat, p: nat, data: seq<Byte>)
    requires Carried(dinos, i, off, got, s0, t)
    requires k < |t.chains[i]| && p + |data| <= BLKSIZE && k * BLKSIZE + p == off + |got|
    ensures t.chains[i][k] < NENTRY
    ensures var c := t.chains[i][k]; Carried(dinos, i, off, got + data, s0, t.(disk := t.disk[c := Patch(t.disk[c], p, data)]))
  {
    hide SnapOk, FileBytes, Untouched, Written, Patch, Frees;
    ChainBounds(dinos, t, i);
    PatchUntouched(dinos, i, t, k, p, data);
    var c := t.chains[i][k];
    assert c in t.chains[i];
    var u := t.(disk := t.disk[c := Patch(t.disk[c], p, data)]);
    var g := FileBytes(dinos, t, i);
    WrittenPatch(g, k * BLKSIZE + p, data);
    ChainBounds(dinos, s0, i);
    Redisk(dinos, t, s0.disk);
    WrittenMore(FileBytes(dinos, t.(disk := s0.disk), i), g, FileBytes(dinos, u, i), off, got, data);
    UntouchedTrans(dinos, i, s0, t, u);
    assert u.(disk := s0.disk) == t.(disk := s0.disk);
  }

  /** Reading the next piece from a cluster. */
  lemma CarriedRead(dinos: seq<Dinode>, i: nat, off: nat, got: seq<Byte>, s0: Snap, t: Snap, k: nat, p: nat, n: nat)
    requires Carried(dinos, i, off, got, s0, t)
    requires k < |t.chains[i]| && p + n <= BLKSIZE && k * BLKSIZE + p == off + |got|
    ensures t.chains[i][k] < NENTRY && |t.disk| == NENTRY && |t.disk[t.chains[i][k]]| == BLKSIZE
    ensures Carried(dinos, i, off, got + t.disk[t.chains[i][k]][p..p + n], s0, t)
  {
    hide Untouched, Written, Flat, Frees;
    ChainBounds(dinos, t, i);
    var f, b := FileBytes(dinos, t, i), t.disk[t.chains[i][k]];
    CapMono(k, |t.chains[i]|);
    forall q | p <= q < p + n
      ensures f[k * BLKSIZE + q] == b[q]
    {
      FlatAt(t.disk, t.chains[i], k, q);
    }
    assert f[off + |got|..off + |got| + n] == b[p..p + n];
    WrittenRead(f, off + |got|, n);
    WrittenMore(FileBytes(dinos, t.(disk := s0.disk), i), f, f, off, got, b[p..p + n]);
  }

  lemma SameBytes(dinos: seq<Dinode>, i: nat, s: Snap, t: Snap)
    requires SnapOk(dinos, s) && SnapOk(dinos, t) && RegularFile(dinos, i) && s.disk == t.disk && s.chains == t.chains
    ensures Untouched(dinos, i, s, t) && FileBytes(dinos, s, i) == FileBytes(dinos, t, i)
  {
  }

  /** The chain after one more piece, at the end of what was moved. */
  lemma NextLength(c0: nat, c: nat, c': nat, off: nat, moved: nat, k: nat, p: nat, n: nat)
    requires p + n <= BLKSIZE && n > 0 && k * BLKSIZE + p == off + moved
    requires c == (if moved == 0 then c0 else Max(c0, Blocks(off + moved))) && k <= c && c' == Max(c, k + 1)
    ensures c' == Max(c0, Blocks(off + moved + n))
  {
  }

  /** The argument checks at the start of a transfer, on signed 32-bit offsets. */
  predicate Rejected(offset: int, len: nat)
  {
    offset < 0 || offset >= MAX_FILE_SIZE || offset > Signed(offset + len)
  }

  /** Where a transfer is to end: reads stop at the size, and nothing goes beyond the largest file. */
  function EndPos(size: nat, offset: nat, len: nat, write: bool): nat
  {
    var e := if offset + len <= MAX_FILE_SIZE then offset + len else MAX_FILE_SIZE;
    if !write && e > size then size else e
  }

  /** Nothing is asked for. */
  predicate Idle(size: nat, offset: nat, len: nat, write: bool)
  {
    len == 0 || (!write && offset >= size)
  }

  /** How a transfer between two offsets ends, and how much it moves, on a chain of `clusters` that can grow to `room`. */
  function Outcome(clusters: nat, room: nat, offset: nat, endpos: nat): Status
  {
    if offset / BLKSIZE > clusters then Invalid else if Blocks(endpos) <= room then Done else NoMemory
  }

  function Moved(clusters: nat, room: nat, offset: nat, endpos: nat): nat
    requires offset <= endpos
  {
    if offset / BLKSIZE > clusters then 0
    else if Blocks(endpos) <= room then endpos - offset
    else if offset < room * BLKSIZE then room * BLKSIZE - offset
    else 0
  }

  lemma MovedAll(clusters: nat, room: nat, offset: nat, endpos: nat)
    requires offset < endpos && offset / BLKSIZE <= clusters && Max(clusters, Blocks(endpos)) <= room
    ensures Outcome(clusters, room, offset, endpos) == Done && Moved(clusters, room, offset, endpos) == endpos - offset
  {
  }

  lemma MovedNone(clusters: nat, room: nat, offset: nat, endpos: nat)
    requires offset < endpos && offset / BLKSIZE > clusters
    ensures Outcome(clusters, room, offset, endpos) == Invalid && Moved(clusters, room, offset, endpos) == 0
  {
  }

  lemma MovedWithin(clusters: nat, room: nat, offset: nat, endpos: nat)
    requires offset <= endpos
    ensures offset + Moved(clusters, room, offset, endpos) <= endpos
  {
    BlocksFit(endpos, room);
  }

  /** Clusters ran out at cluster `k`. */
  lemma MovedPart(clusters: nat, room: nat, offset: nat, endpos: nat, n: nat, k: nat)
    requires offset + n < endpos && offset / BLKSIZE <= clusters && room == k
    requires if n == 0 then k == offset / BLKSIZE else offset + n == k * BLKSIZE
    ensures Outcome(clusters, room, offset, endpos) == NoMemory && Moved(clusters, room, offset, endpos) == n
  {
    BlocksFit(endpos, room);
  }

  /** The exact effect of a transfer that is not rejected. */
  ghost predicate IoEffect(d0: seq<Dinode>, s0: Snap, d: seq<Dinode>, s: Snap, i: nat, buf: seq<Byte>, offset: nat, len: nat,
      write: bool, r: Status, got: seq<Byte>)
  {
    && RegularFile(d0, i) && SnapOk(d0, s0) && SnapOk(d, s)
    && var size := d0[i].size;
       if Idle(size, offset, len, write) then r == Done && got == [] && d == d0 && s == s0
       else
         var e, c, room := EndPos(size, offset, len, write), |s0.chains[i]|, Room(s0, i);
         && offset < e && Progress(d0, i, offset, buf, write, got, s0, s)
         && r == Outcome(c, room, offset, e) && |got| == Moved(c, room, offset, e)
         && d == if write then d0[i := d0[i].(size := Max(size, offset + |got|))] else d0
  }

  ghost predicate SizeFits(d: seq<Dinode>, s: Snap, i: nat)
  {
    i < |d| && i < |s.chains| && SizeOk(d[i], s.chains[i])
  }

  /** The flat file: the bytes of its clusters up to its size. */
  ghost function FlatFile(d: seq<Dinode>, s: Snap, i: nat): seq<Byte>
    requires SnapOk(d, s) && RegularFile(d, i) && SizeFits(d, s, i)
  {
    FileBytes(d, s, i)[..d[i].size]
  }

  /** Every other file keeps its entry, its chain and its bytes, whatever became of the one used. */
  ghost predicate OthersKept(d0: seq<Dinode>, s0: Snap, d: seq<Dinode>, s: Snap, i: nat)
    requires SnapOk(d0, s0) && SnapOk(d, s)
  {
    forall j: nat :: RegularFile(d0, j) && j != i ==>
      RegularFile(d, j) && d[j] == d0[j] && s.chains[j] == s0.chains[j] && FileBytes(d, s, j) == FileBytes(d0, s0, j)
  }

  lemma IoOthers(d0: seq<Dinode>, s0: Snap, d: seq<Dinode>, s: Snap, i: nat, buf: seq<Byte>, offset: nat, len: nat,
      write: bool, r: Status, got: seq<Byte>)
    requires IoEffect(d0, s0, d, s, i, buf, offset, len, write, r, got)
    ensures OthersKept(d0, s0, d, s, i)
  {
    hide FatOk, Written, Flat, Frees, Moved, Outcome, EndPos, Idle;
  }

  /** How much a transfer may move. */
  function Limit(offset: nat, len: nat): nat
  {
    if offset + len <= MAX_FILE_SIZE then len else if offset <= MAX_FILE_SIZE then MAX_FILE_SIZE - offset else 0
  }

  function Slice(c: seq<Byte>, offset: nat, n: nat): seq<Byte>
  {
    if |c| <= offset then [] else if |c| <= offset + n then c[offset..] else c[offset..offset + n]
  }

  /** A read of a file whose size fits its chain returns the slice of the flat file and changes nothing. */
  lemma ReadWithin(d0: seq<Dinode>, s0: Snap, d: seq<Dinode>, s: Snap, i: nat, buf: seq<Byte>, offset: nat, len: nat,
      r: Status, got: seq<Byte>)
    requires IoEffect(d0, s0, d, s, i, buf, offset, len, false, r, got) && SizeFits(d0, s0, i) && offset < MAX_FILE_SIZE
    ensures r == Done && s == s0 && d == d0
    ensures got == Slice(FlatFile(d0, s0, i), offset, Limit(offset, len))
  {
    hide FatOk, Flat, Frees, Untouched;
    var size := d0[i].size;
    if !Idle(size, offset, len, false) {
      var e, c, room := EndPos(size, offset, len, false), |s0.chains[i]|, Room(s0, i);
      BytesSize(d0, i, s0);
      BlocksFit(e, c);
      FirstBlock(offset, c);
      ProgressAt(d0, i, offset, buf, false, got, s0, s);
      ReadFrame(d0, i, offset, buf, got, s0, s);
      var f := FileBytes(d0, s0, i);
      assert got == f[offset..e];
      assert f[..size][offset..e] == f[offset..e];
    }
  }

  lemma FirstBlock(offset: nat, c: nat)
    ensures offset / BLKSIZE < c <==> offset < c * BLKSIZE
  {
  }

  /** When a read allocates, and when it fails: never while the size fits the chain. */
  lemma ReadGrows(d0: seq<Dinode>, s0: Snap, d: seq<Dinode>, s: Snap, i: nat, buf: seq<Byte>, offset: nat, len: nat,
      r: Status, got: seq<Byte>)
    requires IoEffect(d0, s0, d, s, i, buf, offset, len, false, r, got)
    ensures var idle, e, c := Idle(d0[i].size, offset, len, false), EndPos(d0[i].size, offset, len, false), |s0.chains[i]|;
      && (s != s0 <==> !idle && offset / BLKSIZE <= c && e > c * BLKSIZE && !NoFree(s0.fat))
      && (r != Done <==> !idle && (offset / BLKSIZE > c || Blocks(e) > Room(s0, i)))
    ensures s != s0 || r != Done ==> !SizeFits(d0, s0, i)
  {
    hide FatOk, Flat, Untouched, Written;
    var size := d0[i].size;
    if !Idle(size, offset, len, false) {
      var e, c := EndPos(size, offset, len, false), |s0.chains[i]|;
      ProgressAt(d0, i, offset, buf, false, got, s0, s);
      FreeCount(s0.fat);
      BlocksFit(e, c);
      BlocksFit(offset + |got|, c);
      FirstBlock(offset, c);
      GrownExactly(c, Room(s0, i), offset, e);
      ReadFrame(d0, i, offset, buf, got, s0, s);
    }
  }

  lemma ReadFrame(d0: seq<Dinode>, i: nat, offset: nat, buf: seq<Byte>, got: seq<Byte>, s0: Snap, s: Snap)
    requires Progress(d0, i, offset, buf, false, got, s0, s)
    ensures i < |s0.chains| == |s.chains| && (s == s0 <==> |s.chains[i]| == |s0.chains[i]|)
  {
    hide FatOk, Flat, Untouched, Written, Frees;
    if |s.chains[i]| == |s0.chains[i]| {
      assert s.chains[i] == s0.chains[i];
      assert s.chains == s0.chains;
    }
  }

  /** The moved bytes reach past the chain exactly when the transfer starts, is to go there, and can grow. */
  lemma GrownExactly(c: nat, room: nat, offset: nat, e: nat)
    requires c <= room && offset < e
    ensures var n := Moved(c, room, offset, e);
      n > 0 && Blocks(offset + n) > c <==> offset / BLKSIZE <= c && e > c * BLKSIZE && room > c
  {
    var n := Moved(c, room, offset, e);
    BlocksFit(e, c);
    BlocksFit(e, room);
    BlocksFit(offset + n, c);
    if offset / BLKSIZE <= c && room > c {
      assert offset < (c + 1) * BLKSIZE <= room * BLKSIZE;
    }
  }

  lemma FreeCount(fat: seq<nat>)
    ensures NoFree(fat) <==> |Frees(fat)| == 0
  {
    if !NoFree(fat) {
      var m :| 0 <= m < |fat| && fat[m] == FAT_FREE;
      assert m in Frees(fat);
    } else {
      assert Frees(fat) == {};
    }
  }

  /** A write at or before the end of a file whose size fits splices in what it reports, even when clusters run out. */
  lemma WriteWithin(d0: seq<Dinode>, s0: Snap, d: seq<Dinode>, s: Snap, i: nat, buf: seq<Byte>, offset: nat, len: nat,
      r: Status, got: seq<Byte>)
    requires IoEffect(d0, s0, d, s, i, buf, offset, len, true, r, got) && SizeFits(d0, s0, i) && offset <= d0[i].size
    ensures r != Invalid && RegularFile(d, i) && SizeFits(d, s, i) && |got| <= |buf| && got == buf[..|got|]
    ensures FlatFile(d, s, i) == Spliced(FlatFile(d0, s0, i), offset, got)
  {
    hide FatOk, Flat, Frees, Untouched, Written;
    var size := d0[i].size;
    if len == 0 {
      var f := FlatFile(d0, s0, i);
      assert Spliced(f, offset, []) == f;
    } else {
      FirstBlock(offset, |s0.chains[i]| + 1);
      ProgressAt(d0, i, offset, buf, true, got, s0, s);
      ReachesSize(|s0.chains[i]|, |s.chains[i]|, size, offset, |got|);
      OldBytes(d0, i, offset, buf, true, got, s0, s);
      var old0, was, now := FileBytes(d0, s0, i), FileBytes(d0, s.(disk := s0.disk), i), FileBytes(d0, s, i);
      WrittenContent(was, now, offset, got, size);
      assert FlatFile(d, s, i) == now[..Max(size, offset + |got|)];
      assert FlatFile(d0, s0, i) == was[..size] by {
        assert old0 == was[..|old0|];
      }
    }
  }

  /** A write beyond the end keeps the old bytes, puts what it reports at its offset, and exposes in between
      what the clusters there held before. */
  lemma WriteBeyond(d0: seq<Dinode>, s0: Snap, d: seq<Dinode>, s: Snap, i: nat, buf: seq<Byte>, offset: nat, len: nat,
      r: Status, got: seq<Byte>)
    requires IoEffect(d0, s0, d, s, i, buf, offset, len, true, r, got) && len > 0
    requires SizeFits(d0, s0, i) && offset > d0[i].size && SizeFits(d, s, i)
    ensures RegularFile(d, i) && d[i].size == offset + |got| && |got| <= |buf| && got == buf[..|got|]
    ensures |FileBytes(d0, s0, i)| <= |FileBytes(d, s, i)| && SnapOk(d0, s.(disk := s0.disk))
    ensures var gap := FileBytes(d0, s.(disk := s0.disk), i)[..offset][d0[i].size..];
      FlatFile(d, s, i) == FlatFile(d0, s0, i) + gap + got
  {
    hide FatOk, Flat, Frees, Untouched;
    var size := d0[i].size;
    ProgressAt(d0, i, offset, buf, true, got, s0, s);
    BytesSize(d0, i, s0);
    BytesSize(d0, i, s);
    OldBytes(d0, i, offset, buf, true, got, s0, s);
    assert FileBytes(d, s, i) == FileBytes(d0, s, i);
    var f0, f, g := FileBytes(d0, s0, i), FileBytes(d0, s, i), FileBytes(d0, s.(disk := s0.disk), i);
    assert f[..offset + |got|] == g[..offset] + got;
    assert g[..offset] == g[..size] + g[..offset][size..];
    assert g[..size] == f0[..size];
  }

  /** The file's old clusters come first in the grown chain. */
  lemma OldBytes(d0: seq<Dinode>, i: nat, offset: nat, buf: seq<Byte>, write: bool, got: seq<Byte>, s0: Snap, s: Snap)
    requires Progress(d0, i, offset, buf, write, got, s0, s)
    ensures RegularFile(d0, i) && SnapOk(d0, s0) && SnapOk(d0, s) && SnapOk(d0, s.(disk := s0.disk))
    ensures |FileBytes(d0, s0, i)| <= |FileBytes(d0, s.(disk := s0.disk), i)| == |FileBytes(d0, s, i)|
    ensures FileBytes(d0, s.(disk := s0.disk), i)[..|FileBytes(d0, s0, i)|] == FileBytes(d0, s0, i)
    ensures Written(FileBytes(d0, s.(disk := s0.disk), i), FileBytes(d0, s, i), offset, got)
  {
    hide FatOk, Flat, Frees, Untouched, Written;
    ChainBounds(d0, s, i);
    ChainBounds(d0, s0, i);
    Redisk(d0, s, s0.disk);
    var c0, c := s0.chains[i], s.chains[i];
    FlatPrefix(s0.disk, c, |c0|);
    assert c[..|c0|] == c0;
  }

  lemma ReachesSize(c0: nat, c: nat, size: nat, offset: nat, n: nat)
    requires size <= c0 * BLKSIZE && c == if n == 0 then c0 else Max(c0, Blocks(offset + n))
    ensures n > 0 || offset <= size ==> Max(size, offset + n) <= c * BLKSIZE
    ensures c0 * BLKSIZE <= c * BLKSIZE
  {
    BlocksFit(offset + n, c);
  }

  /** The write starts within what the chain holds, or can start by growing it. */
  ghost predicate Lands(s0: Snap, i: nat, offset: nat)
  {
    && i < |s0.chains|
    && (offset <= |s0.chains[i]| * BLKSIZE || (offset / BLKSIZE == |s0.chains[i]| && !NoFree(s0.fat)))
  }

  /** After a write the size fits the chain exactly when it did before and the write lands, or when it did not
      and the write, as far as the clusters go, reaches the block of the last byte. */
  lemma SizeAfterWrite(d0: seq<Dinode>, s0: Snap, d: seq<Dinode>, s: Snap, i: nat, buf: seq<Byte>, offset: nat, len: nat,
      r: Status, got: seq<Byte>)
    requires IoEffect(d0, s0, d, s, i, buf, offset, len, true, r, got) && len > 0
    ensures offset < EndPos(d0[i].size, offset, len, true)
    ensures var n := Moved(|s0.chains[i]|, Room(s0, i), offset, EndPos(d0[i].size, offset, len, true));
      SizeFits(d, s, i) <==>
        if SizeFits(d0, s0, i) then Lands(s0, i, offset) else n > 0 && Blocks(d0[i].size) <= Blocks(offset + n)
  {
    hide FatOk, Flat, Untouched, Written;
    var size, c := d0[i].size, |s0.chains[i]|;
    ProgressAt(d0, i, offset, buf, true, got, s0, s);
    FreeCount(s0.fat);
    hide Frees;
    BlocksFit(size, c);
    BlocksFit(d[i].size, |s.chains[i]|);
    BlocksFit(offset + |got|, |s.chains[i]|);
    BlocksFit(size, |s.chains[i]|);
    FirstBlock(offset, c);
    StartsMoving(c, Room(s0, i), offset, EndPos(size, offset, len, true));
  }

  lemma StartsMoving(c: nat, room: nat, offset: nat, e: nat)
    requires c <= room && offset < e
    ensures Moved(c, room, offset, e) > 0 <==> offset / BLKSIZE < c || (offset / BLKSIZE == c && room > c)
  {
    BlocksFit(e, room);
    FirstBlock(offset, room);
  }

  lemma SignedSum(offset: int, len: nat)
    requires -0x8000_0000 <= offset < 0x8000_0000 && len < 0x1_0000_0000
    ensures 0 <= offset <= Signed(offset + len) ==> Signed(offset + len) == offset + len
  {
  }

  /** A table with one file on cluster 2. */
  function OneFile(): Snap
  {
    Snap(seq(NENTRY, k => if k < 2 then FAT_RESERVE else if k == 2 then FAT_EOF else FAT_FREE), [[2]],
         seq(NENTRY, k => seq(BLKSIZE, p => 0)))
  }

  lemma OneFileOk(size: nat)
    ensures SnapOk([Dinode(false, 2, size)], OneFile()) && !NoFree(OneFile().fat)
  {
    var d, s := [Dinode(false, 2, size)], OneFile();
    assert s.fat[2] == FAT_EOF && s.fat[0] == FAT_RESERVE && s.fat[1] == FAT_RESERVE && s.fat[3] == FAT_FREE;
    assert ChainOk(s.fat, [2]);
    assert FatOk(s.fat, d, s.chains);
    assert DiskOk(s.disk);
  }

  /** Writing one byte two blocks beyond an empty file stores nothing and leaves size 8192 on one cluster. */
  lemma SizeCanOutrunChain(d: seq<Dinode>, s: Snap, x: Byte, r: Status, got: seq<Byte>)
    requires IoEffect([Dinode(false, 2, 0)], OneFile(), d, s, 0, [x], 8192, 1, true, r, got)
    ensures !Rejected(8192, 1) && SizeFits([Dinode(false, 2, 0)], OneFile(), 0)
    ensures r == Invalid && got == [] && s == OneFile() && d == [Dinode(false, 2, 8192)] && !SizeFits(d, s, 0)
  {
    hide FatOk, Flat, Untouched, Written, Frees;
    ProgressAt([Dinode(false, 2, 0)], 0, 8192, [x], true, got, OneFile(), s);
    assert Signed(8193) == 8193;
  }

  /** Reading one byte of the second block then appends a cluster. */
  lemma ReadCanAllocate(d: seq<Dinode>, s: Snap, r: Status, got: seq<Byte>)
    requires IoEffect([Dinode(false, 2, 8192)], OneFile(), d, s, 0, [], 4096, 1, false, r, got)
    ensures r == Done && |got| == 1 && |s.chains[0]| == 2 && s != OneFile()
  {
    hide FatOk, Flat, Untouched, Written;
    OneFileOk(8192);
    FreeCount(OneFile().fat);
    hide Frees;
    ProgressAt([Dinode(false, 2, 8192)], 0, 4096, [], false, got, OneFile(), s);
  }

  // ---------- truncation ----------

  /** Only file `i`'s chain changed, the longer of the two chains beginning with the shorter. */
  ghost predicate Rechained(s0: Snap, s: Snap, i: nat)
  {
    && s.disk == s0.disk && i < |s0.chains| && |s.chains| == |s0.chains| && s.chains == s0.chains[i := s.chains[i]]
    && (s0.chains[i] <= s.chains[i] || s.chains[i] <= s0.chains[i])
  }

  lemma RechainedOthers(d0: seq<Dinode>, s0: Snap, d: seq<Dinode>, s: Snap, i: nat)
    requires SnapOk(d0, s0) && SnapOk(d, s) && RegularFile(d0, i) && Rechained(s0, s, i)
    requires |d| == |d0| && d == d0[i := d[i]]
    ensures OthersKept(d0, s0, d, s, i)
  {
    hide FatOk, Flat;
    SnapShape(d0, s0);
    forall j: nat | RegularFile(d0, j) && j != i
      ensures RegularFile(d, j) && d[j] == d0[j] && s.chains[j] == s0.chains[j]
    {
      assert d[j] == d0[i := d[i]][j];
    }
  }

  /** Growing or cutting a chain keeps the bytes both versions have. */
  lemma RechainedBytes(d0: seq<Dinode>, s0: Snap, d: seq<Dinode>, s: Snap, i: nat, n: nat)
    requires SnapOk(d0, s0) && SnapOk(d, s) && RegularFile(d0, i) && Rechained(s0, s, i)
    requires |d| == |d0| && d == d0[i := d0[i].(size := d[i].size)]
    requires n <= |s0.chains[i]| * BLKSIZE && n <= |s.chains[i]| * BLKSIZE
    ensures RegularFile(d, i) && FileBytes(d, s, i)[..n] == FileBytes(d0, s0, i)[..n]
  {
    hide FatOk, Flat;
    ChainBounds(d0, s0, i);
    ChainBounds(d, s, i);
    var c0, c := s0.chains[i], s.chains[i];
    if c0 <= c {
      FlatPrefix(s.disk, c, |c0|);
      assert c[..|c0|] == c0;
    } else {
      FlatPrefix(s.disk, c0, |c|);
      assert c0[..|c|] == c;
    }
  }

  /** How a truncation to `len` bytes ends, and the length of the chain it leaves. */
  function TruncOutcome(size: nat, c: nat, room: nat, len: nat): Status
  {
    if Blocks(len) <= Blocks(size) then Done else if Blocks(size) > c then Invalid else if Blocks(len) <= room then Done else NoMemory
  }

  function TruncLength(size: nat, c: nat, room: nat, len: nat): nat
  {
    var n, m := Blocks(size), Blocks(len);
    if m <= n then (if n - m < c then c - (n - m) else 1)
    else if n > c then c else if m <= room then Max(c, m) else room
  }

  /** The exact effect of a truncation. */
  ghost predicate TruncEffect(d0: seq<Dinode>, s0: Snap, d: seq<Dinode>, s: Snap, i: nat, len: nat, r: Status)
  {
    && RegularFile(d0, i) && SnapOk(d0, s0) && SnapOk(d, s) && Rechained(s0, s, i)
    && var size, c, room := d0[i].size, |s0.chains[i]|, Room(s0, i);
       && r == TruncOutcome(size, c, room, len) && |s.chains[i]| == TruncLength(size, c, room, len)
       && d == if r == Done then d0[i := d0[i].(size := len)] else d0
  }

  lemma TruncOthers(d0: seq<Dinode>, s0: Snap, d: seq<Dinode>, s: Snap, i: nat, len: nat, r: Status)
    requires TruncEffect(d0, s0, d, s, i, len, r)
    ensures OthersKept(d0, s0, d, s, i)
  {
    hide FatOk, Flat, Frees, TruncOutcome, TruncLength;
    RechainedOthers(d0, s0, d, s, i);
  }

  /** After a truncation the size fits the chain exactly when it did before, or when one block holds it. */
  lemma TruncSizes(d0: seq<Dinode>, s0: Snap, d: seq<Dinode>, s: Snap, i: nat, len: nat, r: Status)
    requires TruncEffect(d0, s0, d, s, i, len, r)
    ensures SizeFits(d, s, i) <==> SizeFits(d0, s0, i) || len <= BLKSIZE
  {
    ChainBounds(d0, s0, i);
    ChainBounds(d, s, i);
    hide FatOk, Flat, Frees;
    var size, c, c' := d0[i].size, |s0.chains[i]|, |s.chains[i]|;
    BlocksFit(size, c);
    BlocksFit(len, c');
    BlocksFit(size, c');
    BlocksFit(len, 1);
  }

  /** A file whose size fits keeps the bytes that both sizes cover, and its size still fits. */
  lemma TruncWithin(d0: seq<Dinode>, s0: Snap, d: seq<Dinode>, s: Snap, i: nat, len: nat, r: Status)
    requires TruncEffect(d0, s0, d, s, i, len, r) && SizeFits(d0, s0, i)
    ensures r != Invalid && RegularFile(d, i) && SizeFits(d, s, i) && d[i].size == if r == Done then len else d0[i].size
    ensures var n := if d[i].size < d0[i].size then d[i].size else d0[i].size;
      FlatFile(d, s, i)[..n] == FlatFile(d0, s0, i)[..n]
  {
    hide FatOk, Flat, Frees, Rechained;
    TruncSizes(d0, s0, d, s, i, len, r);
    BlocksFit(d0[i].size, |s0.chains[i]|);
    var n := if d[i].size < d0[i].size then d[i].size else d0[i].size;
    RechainedBytes(d0, s0, d, s, i, n);
    var x, y := FileBytes(d, s, i), FileBytes(d0, s0, i);
    assert x[..d[i].size][..n] == x[..n];
    assert y[..d0[i].size][..n] == y[..n];
  }

  /** The exact effect of a successful creation. */
  ghost predicate CreateEffect(d0: seq<Dinode>, s0: Snap, d: seq<Dinode>, s: Snap)
  {
    && SnapOk(d0, s0) && SnapOk(d, s) && |d| == |d0| + 1 && d[..|d0|] == d0 && s.disk == s0.disk
    && s.chains[..|d0|] == s0.chains && RegularFile(d, |d0|) && d[|d0|].size == 0 && |s.chains[|d0|]| == 1
    && |Frees(s.fat)| == |Frees(s0.fat)| - 1
  }

  lemma CreateOthers(d0: seq<Dinode>, s0: Snap, d: seq<Dinode>, s: Snap)
    requires CreateEffect(d0, s0, d, s)
    ensures OthersKept(d0, s0, d, s, |d0|)
  {
    hide FatOk, Flat, Frees;
    SnapShape(d0, s0);
    SnapShape(d, s);
    forall j: nat | RegularFile(d0, j)
      ensures RegularFile(d, j) && d[j] == d0[j] && s.chains[j] == s0.chains[j]
    {
      assert d[..|d0|][j] == d[j] && s.chains[..|d0|][j] == s.chains[j];
    }
  }

  // ---------- whole runs ----------

  /** One call with its result. */
  datatype FsOp =
    | IoOp(file: nat, buf: seq<Byte>, offset: nat, len: nat, write: bool, r: Status, got: seq<Byte>)
    | TruncOp(file: nat, len: nat, r: Status)
    | CreateOp

  datatype Fs = Fs(dinos: seq<Dinode>, snap: Snap)

  /** A call that is rejected changes nothing and is left out. */
  ghost predicate FsStep(a: Fs, op: FsOp, b: Fs)
  {
    match op
    case IoOp(i, buf, offset, len, write, r, got) =>
      offset < MAX_FILE_SIZE && IoEffect(a.dinos, a.snap, b.dinos, b.snap, i, buf, offset, len, write, r, got)
    case TruncOp(i, len, r) => TruncEffect(a.dinos, a.snap, b.dinos, b.snap, i, len, r)
    case CreateOp => CreateEffect(a.dinos, a.snap, b.dinos, b.snap)
  }

  ghost predicate FsRun(run: seq<Fs>, ops: seq<FsOp>)
  {
    |run| == |ops| + 1 && forall n :: 0 <= n < |ops| ==> FsStep(run[n], ops[n], run[n + 1])
  }

  /** File `k` exists and its size fits its chain. */
  ghost predicate Sound(a: Fs, k: nat)
  {
    SnapOk(a.dinos, a.snap) && RegularFile(a.dinos, k) && SizeFits(a.dinos, a.snap, k)
  }

  ghost function FlatOf(a: Fs, k: nat): seq<Byte>
    requires Sound(a, k)
  {
    FlatFile(a.dinos, a.snap, k)
  }

  /** What a call does to the flat file `k`, from content `c` to content `c'`. */
  ghost predicate FlatStep(k: nat, op: FsOp, c: seq<Byte>, c': seq<Byte>)
  {
    match op
    case IoOp(i, buf, offset, len, write, r, got) =>
      if i != k || len == 0 then c' == c
      else if !write then c' == c && r == Done && got == Slice(c, offset, Limit(offset, len))
      else
        && |got| <= |buf| && got == buf[..|got|]
        && if offset <= |c| then c' == Spliced(c, offset, got)
           else c <= c' && |c'| == offset + |got| && c'[offset..] == got
    case TruncOp(i, len, r) =>
      if i != k || r != Done then c' == c
      else |c'| == len && var n := if |c'| < |c| then |c'| else |c|; c'[..n] == c[..n]
    case CreateOp => c' == c
  }

  ghost predicate FlatBetween(a: Fs, op: FsOp, b: Fs, k: nat)
  {
    Sound(a, k) && Sound(b, k) && FlatStep(k, op, FlatOf(a, k), FlatOf(b, k))
  }

  /** A write to file `k` that lands, or any other call. */
  ghost predicate LandsOn(a: Fs, op: FsOp, k: nat)
  {
    op.IoOp? && op.file == k && op.write && op.len > 0 ==> Lands(a.snap, k, op.offset)
  }

  /** A step of any kind, on any file, acts on a sound flat file as it should. */
  lemma StepIsFlat(a: Fs, op: FsOp, b: Fs, k: nat)
    requires FsStep(a, op, b) && Sound(a, k) && LandsOn(a, op, k)
    ensures Sound(b, k) && FlatStep(k, op, FlatOf(a, k), FlatOf(b, k))
  {
    EffectOk(a, op, b);
    hide IoEffect, TruncEffect, CreateEffect, Lands;
    match op
    case IoOp(i, buf, offset, len, write, r, got) => IoIsFlat(a, b, i, buf, offset, len, write, r, got, k);
    case TruncOp(i, len, r) => TruncIsFlat(a, b, i, len, r, k);
    case CreateOp =>
      CreateOthers(a.dinos, a.snap, b.dinos, b.snap);
      OtherSound(a, b, |a.dinos|, k);
  }

  lemma OtherSound(a: Fs, b: Fs, i: nat, k: nat)
    requires Sound(a, k) && SnapOk(b.dinos, b.snap) && k != i && OthersKept(a.dinos, a.snap, b.dinos, b.snap, i)
    ensures Sound(b, k) && FlatOf(b, k) == FlatOf(a, k)
  {
    hide FatOk, Flat;
    SnapShape(a.dinos, a.snap);
    SnapShape(b.dinos, b.snap);
  }

  lemma EffectOk(a: Fs, op: FsOp, b: Fs)
    requires FsStep(a, op, b)
    ensures SnapOk(a.dinos, a.snap) && SnapOk(b.dinos, b.snap)
  {
  }

  lemma IoIsFlat(a: Fs, b: Fs, i: nat, buf: seq<Byte>, offset: nat, len: nat, write: bool, r: Status, got: seq<Byte>, k: nat)
    requires FsStep(a, IoOp(i, buf, offset, len, write, r, got), b) && Sound(a, k)
    requires LandsOn(a, IoOp(i, buf, offset, len, write, r, got), k)
    ensures Sound(b, k) && FlatStep(k, IoOp(i, buf, offset, len, write, r, got), FlatOf(a, k), FlatOf(b, k))
  {
    EffectOk(a, IoOp(i, buf, offset, len, write, r, got), b);
    var d0, s0, d, s := a.dinos, a.snap, b.dinos, b.snap;
    if i != k {
      IoOthers(d0, s0, d, s, i, buf, offset, len, write, r, got);
      OtherSound(a, b, i, k);
    } else if len > 0 {
      hide IoEffect, FatOk, Flat, Lands;
      if !write {
        ReadWithin(d0, s0, d, s, i, buf, offset, len, r, got);
      } else if offset <= d0[i].size {
        WriteWithin(d0, s0, d, s, i, buf, offset, len, r, got);
      } else {
        SizeAfterWrite(d0, s0, d, s, i, buf, offset, len, r, got);
        WriteBeyond(d0, s0, d, s, i, buf, offset, len, r, got);
      }
    }
  }

  lemma TruncIsFlat(a: Fs, b: Fs, i: nat, len: nat, r: Status, k: nat)
    requires FsStep(a, TruncOp(i, len, r), b) && Sound(a, k)
    ensures Sound(b, k) && FlatStep(k, TruncOp(i, len, r), FlatOf(a, k), FlatOf(b, k))
  {
    EffectOk(a, TruncOp(i, len, r), b);
    hide TruncEffect, FatOk, Flat;
    if i != k {
      TruncOthers(a.dinos, a.snap, b.dinos, b.snap, i, len, r);
      OtherSound(a, b, i, k);
    } else {
      TruncWithin(a.dinos, a.snap, b.dinos, b.snap, i, len, r);
      var x, y := FlatOf(a, k), FlatOf(b, k);
      if r != Done {
        assert x[..|x|] == x && y[..|x|] == y;
      }
    }
  }

  /** Over any run of calls on any files, a file whose size fits at the start and whose own writes land stays the
      flat file that its own calls make of it, whatever happens to the sizes of the others. */
  lemma {:induction false} FlatOverRun(run: seq<Fs>, ops: seq<FsOp>, k: nat, n: nat)
    requires FsRun(run, ops) && Sound(run[0], k) && n < |run|
    requires forall m :: 0 <= m < n ==> LandsOn(run[m], ops[m], k)
    ensures Sound(run[n], k) && forall m :: 0 <= m < n ==> FlatBetween(run[m], ops[m], run[m + 1], k)
  {
    hide FsStep, FlatStep, Sound, LandsOn;
    if n > 0 {
      FlatOverRun(run, ops, k, n - 1);
      StepIsFlat(run[n - 1], ops[n - 1], run[n], k);
    }
  }

  class Sfatfs {
    const fat: array<nat>
    var dinos: seq<Dinode>
    var disk: seq<seq<Byte>>
    ghost var chains: seq<seq<nat>>

    /** The table is sound and the device holds whole blocks. */
    ghost predicate Valid()
      reads this, fat
    {
      FatOk(fat[..], dinos, chains) && DiskOk(disk)
    }

    ghost predicate Regular(i: nat)
      reads this
    {
      RegularFile(dinos, i)
    }

    ghost function Now(): Snap
      reads this, fat
    {
      Snap(fat[..], chains, disk)
    }

    method SetFat(x: nat, v: nat)
      requires x < fat.Length
      modifies fat
      ensures fat[..] == old(fat[..])[x := v]
    {
      fat[x] := v;
    }

    /** The lowest free cluster. */
    method FindFree() returns (r: Status, n: nat)
      requires Valid()
      ensures r == Done <==> !NoFree(fat[..])
      ensures r == Done ==> n < NENTRY && fat[n] == FAT_FREE && forall m :: 0 <= m < n ==> fat[m] != FAT_FREE
      ensures r == Done || r == NoMemory
    {
      var i := 0;
      while i < NENTRY
        invariant i <= NENTRY == fat.Length && forall m :: 0 <= m < i ==> fat[m] != FAT_FREE
      {
        if fat[i] == FAT_FREE {
          assert fat[..][i] == FAT_FREE;
          return Done, i;
        }
        i := i + 1;
      }
      return NoMemory, 0;
    }

    /** Finds the file's cluster number `index`, appending one at the end of its chain. */
    method BmapLoad(i: nat, index: nat) returns (r: Status, clu: nat)
      requires Valid() && Regular(i)
      modifies fat, this`chains
      ensures Valid()
      ensures r == Invalid <==> index > |old(chains[i])|
      ensures r == NoMemory <==> index == |old(chains[i])| && NoFree(old(fat[..]))
      ensures r == Done || ((r == Invalid || r == NoMemory) && chains == old(chains) && fat[..] == old(fat[..]))
      ensures r == Done && index < |old(chains[i])| ==> chains == old(chains) && fat[..] == old(fat[..])
      ensures r == Done && index == |old(chains[i])| ==>
        clu < NENTRY && old(fat[clu]) == FAT_FREE && chains == old(chains)[i := old(chains[i]) + [clu]]
      ensures r == Done ==> index < |chains[i]| && clu == chains[i][index] < NENTRY
      ensures Grown(old(Now()), Now(), i)
    {
      hide Frees;
      ghost var c, table := chains[i], fat[..];
      FatAt(table, dinos, chains, i);
      var pclu := dinos[i].first;
      var k := 0;
      while k < index
        invariant k <= index && k < |c| && pclu == c[k]
        invariant chains == old(chains) && fat[..] == table
      {
        assert pclu in c;
        InChain(table, c, pclu);
        if fat[pclu] == FAT_EOF {
          assert k == |c| - 1;
          if k == index - 1 {
            r, clu := Append(i, pclu);
            return;
          } else {
            return Invalid, 0;
          }
        }
        assert fat[pclu] == c[k + 1];
        pclu := fat[pclu];
        k := k + 1;
      }
      assert pclu in c;
      InChain(table, c, pclu);
      return Done, pclu;
    }

    /** Links the lowest free cluster after the file's last one. */
    method Append(i: nat, last: nat) returns (r: Status, clu: nat)
      requires Valid() && Regular(i) && last == chains[i][|chains[i]| - 1]
      modifies fat, this`chains
      ensures Valid() && (r == Done || r == NoMemory)
      ensures r == NoMemory <==> NoFree(old(fat[..]))
      ensures r == NoMemory ==> chains == old(chains) && fat[..] == old(fat[..])
      ensures r == Done ==>
        clu < NENTRY && old(fat[clu]) == FAT_FREE && chains == old(chains)[i := old(chains[i]) + [clu]]
      ensures Grown(old(Now()), Now(), i)
    {
      hide Frees;
      r, clu := FindFree();
      if r != Done {
        return;
      }
      ChainLast(fat[..], chains[i]);
      FreesAppend(fat[..], last, clu);
      FatAppend(fat[..], dinos, chains, i, clu);
      SetFat(last, clu);
      SetFat(clu, FAT_EOF);
      chains := chains[i := chains[i] + [clu]];
    }

    /** Moves one piece within a block: finds the cluster, then reads or writes it. */
    method Chunk(i: nat, index: nat, p: nat, n: nat, off: nat, buf: seq<Byte>, write: bool, before: seq<Byte>, ghost s0: Snap)
        returns (r: Status, got: seq<Byte>)
      requires Progress(dinos, i, off, buf, write, before, s0, Now())
      requires p + n <= BLKSIZE && n > 0 && index * BLKSIZE + p == off + |before|
      requires write ==> |before| + n <= |buf|
      modifies fat, this`chains, this`disk
      ensures Progress(dinos, i, off, buf, write, got, s0, Now())
      ensures r == Done ==> |got| == |before| + n
      ensures r != Done ==> got == before && Now() == old(Now())
      ensures r == Invalid <==> index > |old(chains[i])|
      ensures r == NoMemory <==> index == |old(chains[i])| && NoFree(old(fat[..]))
      ensures r == Done || r == Invalid || r == NoMemory
    {
      hide FatOk, Written, Untouched, FileBytes, NoFree, Grown, Blocks;
      ghost var s := Now();
      ProgressAt(dinos, i, off, buf, write, before, s0, s);
      var clu;
      r, clu := BmapLoad(i, index);
      got := before;
      if r == Done {
        ghost var t := Now();
        NextLength(|s0.chains[i]|, |s.chains[i]|, |t.chains[i]|, off, |before|, index, p, n);
        CarriedLoad(dinos, i, off, before, s0, s, t);
        ChainBounds(dinos, t, i);
        if write {
          var data := buf[|before|..|before| + n];
          CarriedWrite(dinos, i, off, before, s0, t, index, p, data);
          disk := disk[clu := Patch(disk[clu], p, data)];
          got := before + data;
          assert got == buf[..|got|];
        } else {
          CarriedRead(dinos, i, off, before, s0, t, index, p, n);
          got := before + disk[clu][p..p + n];
        }
      }
    }

    /** Head, middle and tail blocks in turn. */
    method Transfer(i: nat, buf: seq<Byte>, offset: nat, endpos: nat, write: bool) returns (r: Status, got: seq<Byte>)
      requires Valid() && Regular(i) && offset < endpos && (write ==> endpos - offset <= |buf|)
      modifies fat, this`chains, this`disk
      ensures Progress(dinos, i, offset, buf, write, got, old(Now()), Now())
      ensures r == Outcome(|old(chains[i])|, Room(old(Now()), i), offset, endpos)
      ensures |got| == Moved(|old(chains[i])|, Room(old(Now()), i), offset, endpos)
    {
      hide Progress, NoFree, Outcome, Moved, Room, FatOk;
      ghost var s0 := Now();
      ProgressStart(dinos, i, offset, buf, write, s0);
      SnapShape(dinos, s0);
      r, got := Done, [];
      var blkno, nblks, blkoff := offset / BLKSIZE, endpos / BLKSIZE - offset / BLKSIZE, offset % BLKSIZE;
      if blkoff != 0 {
        var size := if nblks != 0 then BLKSIZE - blkoff else endpos - offset;
        r, got := Chunk(i, blkno, blkoff, size, offset, buf, write, got, s0);
        Ended(i, buf, offset, endpos, write, r, got, s0, blkno);
        if r != Done || nblks == 0 {
          return;
        }
        blkno, nblks := blkno + 1, nblks - 1;
      }
      while nblks != 0
        invariant Progress(dinos, i, offset, buf, write, got, s0, Now()) && r == Done && nblks >= 0
        invariant offset + |got| == blkno * BLKSIZE && blkno + nblks == endpos / BLKSIZE
        invariant i < |s0.chains| && if got == [] then blkno == offset / BLKSIZE else offset / BLKSIZE <= |s0.chains[i]|
      {
        ProgressAt(dinos, i, offset, buf, write, got, s0, Now());
        r, got := Chunk(i, blkno, 0, BLKSIZE, offset, buf, write, got, s0);
        if r != Done {
          Ended(i, buf, offset, endpos, write, r, got, s0, blkno);
          return;
        }
        blkno, nblks := blkno + 1, nblks - 1;
      }
      var size := endpos % BLKSIZE;
      if size != 0 {
        ProgressAt(dinos, i, offset, buf, write, got, s0, Now());
        r, got := Chunk(i, blkno, 0, size, offset, buf, write, got, s0);
      }
      Ended(i, buf, offset, endpos, write, r, got, s0, blkno);
    }

    /** A transfer has ended at cluster `k`: with everything moved, refused at its start, or for want of a cluster. */
    lemma Ended(i: nat, buf: seq<Byte>, offset: nat, endpos: nat, write: bool, r: Status, got: seq<Byte>, s0: Snap, k: nat)
      requires Progress(dinos, i, offset, buf, write, got, s0, Now()) && offset + |got| <= endpos && offset < endpos
      requires r == Done ==> |got| > 0 && offset / BLKSIZE <= |s0.chains[i]|
      requires r == Invalid ==> got == [] && offset / BLKSIZE > |s0.chains[i]|
      requires r == NoMemory ==> (
        && NoFree(fat[..]) && k == |chains[i]| && offset / BLKSIZE <= |s0.chains[i]| && offset + |got| < endpos
        && if got == [] then k == offset / BLKSIZE else offset + |got| == k * BLKSIZE)
      requires r == Done || r == Invalid || r == NoMemory
      ensures i < |s0.chains|
      ensures (r == Done ==> offset + |got| == endpos) ==>
        r == Outcome(|s0.chains[i]|, Room(s0, i), offset, endpos) && |got| == Moved(|s0.chains[i]|, Room(s0, i), offset, endpos)
    {
      hide Progress, NoFree, Outcome, Moved, FatOk, Frees, Blocks;
      ProgressAt(dinos, i, offset, buf, write, got, s0, Now());
      if r == Done && offset + |got| == endpos {
        MovedAll(|s0.chains[i]|, Room(s0, i), offset, endpos);
      } else if r == NoMemory {
        FreeCount(fat[..]);
        MovedPart(|s0.chains[i]|, Room(s0, i), offset, endpos, |got|, k);
      } else if r == Invalid {
        MovedNone(|s0.chains[i]|, Room(s0, i), offset, endpos);
      }
    }

    /** Reading or writing from an offset, in any state of the sizes. */
    method Io(i: nat, buf: seq<Byte>, offset: int, len: nat, write: bool) returns (r: Status, got: seq<Byte>)
      requires Valid() && Regular(i)
      requires -0x8000_0000 <= offset < 0x8000_0000 && len < 0x1_0000_0000 && (write ==> |buf| == len)
      modifies fat, this`chains, this`disk, this`dinos
      ensures Valid()
      ensures Rejected(offset, len) ==> r == Invalid && got == [] && Now() == old(Now()) && dinos == old(dinos)
      ensures !Rejected(offset, len) ==> IoEffect(old(dinos), old(Now()), dinos, Now(), i, buf, offset, len, write, r, got)
    {
      hide FatOk, Progress, Moved, Outcome, Room, Signed;
      ghost var s0 := Now();
      SnapShape(dinos, s0);
      var endpos := Signed(offset + len);
      SignedSum(offset, len);
      if offset < 0 || offset >= MAX_FILE_SIZE || offset > endpos {
        return Invalid, [];
      }
      if offset == endpos {
        return Done, [];
      }
      if endpos > MAX_FILE_SIZE {
        endpos := MAX_FILE_SIZE;
      }
      if !write {
        if offset >= dinos[i].size {
          return Done, [];
        }
        if endpos > dinos[i].size {
          endpos := dinos[i].size;
        }
      }
      r, got := Transfer(i, buf, offset, endpos, write);
      ProgressAt(dinos, i, offset, buf, write, got, s0, Now());
      MovedWithin(|s0.chains[i]|, Room(s0, i), offset, endpos);
      if offset + |got| > dinos[i].size {
        FatResize(fat[..], dinos, chains, i, offset + |got|);
        dinos := dinos[i := dinos[i].(size := offset + |got|)];
      } else if write {
        assert dinos == dinos[i := dinos[i].(size := Max(dinos[i].size, offset + |got|))];
      }
    }

    /** Cuts the last cluster off, but keeps the only one and clears the size instead. */
    method BmapTruncate(i: nat)
      requires Valid() && Regular(i)
      modifies fat, this`chains, this`dinos
      ensures Valid() && old(chains[i]) != [] && |dinos| == |old(dinos)| && Regular(i)
      ensures var c := old(chains[i]);
        if |c| == 1 then chains == old(chains) && dinos == old(dinos)[i := old(dinos[i]).(size := 0)] && fat[..] == old(fat[..])
        else chains == old(chains)[i := c[..|c| - 1]] && dinos == old(dinos)
    {
      ghost var c, table := chains[i], fat[..];
      FatAt(table, dinos, chains, i);
      var pclu := dinos[i].first;
      assert pclu in c;
      InChain(table, c, pclu);
      if fat[pclu] == FAT_EOF {
        FatResize(table, dinos, chains, i, 0);
        dinos := dinos[i := dinos[i].(size := 0)];
        return;
      }
      var nclu;
      pclu, nclu := LastTwo(i);
      FatCut(table, dinos, chains, i);
      SetFat(pclu, FAT_EOF);
      SetFat(nclu, FAT_FREE);
      chains := chains[i := c[..|c| - 1]];
    }

    /** Appends clusters until the chain holds `goal` of them. */
    method Extend(i: nat, from: nat, goal: nat) returns (r: Status)
      requires Valid() && Regular(i) && from < goal
      modifies fat, this`chains
      ensures Valid() && Grown(old(Now()), Now(), i)
      ensures var c, room := |old(chains[i])|, Room(old(Now()), i);
        && r == (if from > c then Invalid else if goal <= room then Done else NoMemory)
        && |chains[i]| == if from > c then c else if goal <= room then Max(c, goal) else room
    {
      hide FatOk, NoFree, Frees;
      FatAt(fat[..], dinos, chains, i);
      ghost var c, room := |chains[i]|, Room(Now(), i);
      var nblks: nat := from;
      GrownSelf(Now(), i);
      while nblks != goal
        invariant from <= nblks <= goal && Valid() && Grown(old(Now()), Now(), i)
        invariant nblks == from ==> Now() == old(Now())
        invariant nblks > from ==> from <= c
        invariant |chains[i]| == if from <= c then Max(c, nblks) else c
        decreases goal - nblks
      {
        ghost var s := Now();
        FreeCount(fat[..]);
        var clu;
        r, clu := BmapLoad(i, nblks);
        if r != Done {
          return;
        }
        GrownTrans(old(Now()), s, Now(), i);
        nblks := nblks + 1;
      }
      r := Done;
    }

    /** Cuts `n` clusters off, down to the last one. */
    method Shrink(i: nat, n: nat)
      requires Valid() && Regular(i)
      modifies fat, this`chains, this`dinos
      ensures Valid() && Rechained(old(Now()), Now(), i) && |dinos| == |old(dinos)|
      ensures dinos == old(dinos)[i := old(dinos[i]).(size := dinos[i].size)]
      ensures |old(chains[i])| > 0 && |chains[i]| == if n < |old(chains[i])| then |old(chains[i])| - n else 1
    {
      hide FatOk;
      FatAt(fat[..], dinos, chains, i);
      var left := n;
      assert dinos == old(dinos)[i := old(dinos[i]).(size := dinos[i].size)];
      while left != 0
        invariant 0 <= left <= n && Valid() && Rechained(old(Now()), Now(), i) && |dinos| == |old(dinos)| == |chains|
        invariant dinos == old(dinos)[i := old(dinos[i]).(size := dinos[i].size)]
        invariant chains[i] <= old(chains[i])
        invariant |chains[i]| == if n - left < |old(chains[i])| then |old(chains[i])| - (n - left) else 1
        decreases left
      {
        BmapTruncate(i);
        left := left - 1;
      }
    }

    /** Sets the size, growing or cutting the chain first, in any state of the sizes. */
    method TruncFile(i: nat, len: nat) returns (r: Status)
      requires Valid() && Regular(i)
      modifies fat, this`chains, this`dinos
      ensures Valid() && TruncEffect(old(dinos), old(Now()), dinos, Now(), i, len, r)
    {
      hide FatOk, Frees;
      FatAt(fat[..], dinos, chains, i);
      ghost var d0, s0 := dinos, Now();
      assert chains == chains[i := chains[i]];
      if dinos[i].size == len {
        assert dinos == dinos[i := dinos[i].(size := len)];
        return Done;
      }
      var tblks, nblks := Blocks(len), Blocks(dinos[i].size);
      r := Done;
      if nblks < tblks {
        r := Extend(i, nblks, tblks);
      } else if tblks < nblks {
        Shrink(i, nblks - tblks);
      }
      if r == Done {
        FatResize(fat[..], dinos, chains, i, len);
        dinos := dinos[i := dinos[i].(size := len)];
        assert dinos == d0[i := d0[i].(size := len)];
      }
    }

    /** A new empty file on one free cluster, unless the name, the table or the device forbids it. */
    method Create(name: string) returns (r: Status)
      requires Valid()
      modifies fat, this`chains, this`dinos
      ensures Valid()
      ensures r == TooBig <==> |name| > MAX_FNAME_LEN
      ensures r == Exists <==> name == "." || name == ".."
      ensures r == NoMemory <==> (
        |name| <= MAX_FNAME_LEN && name != "." && name != ".." && (|old(dinos)| >= FILE_NENTRY || NoFree(old(fat[..]))))
      ensures r != Done ==> Now() == old(Now()) && dinos == old(dinos)
      ensures r == Done ==> CreateEffect(old(dinos), old(Now()), dinos, Now())
      ensures r != Invalid
    {
      hide NoFree, Flat, ChainOk, Frees;
      if |name| > MAX_FNAME_LEN {
        return TooBig;
      }
      if name == "." || name == ".." {
        return Exists;
      }
      if |dinos| >= FILE_NENTRY {
        return NoMemory;
      }
      var bno;
      r, bno := FindFree();
      if r != Done {
        return;
      }
      FatCreate(fat[..], dinos, chains, bno);
      FreesTaken(fat[..], bno);
      dinos := dinos + [Dinode(false, bno, 0)];
      SetFat(bno, FAT_EOF);
      chains := chains + [[bno]];
    }

    /** Walks to the last link of a chain of at least two clusters. */
    method LastTwo(i: nat) returns (pclu: nat, nclu: nat)
      requires Valid() && Regular(i) && |chains[i]| > 1
      ensures var c := chains[i]; pclu == c[|c| - 2] < NENTRY && nclu == c[|c| - 1] < NENTRY
    {
      ghost var c, table := chains[i], fat[..];
      FatAt(table, dinos, chains, i);
      pclu := dinos[i].first;
      nclu := fat[pclu];
      ghost var k := 0;
      while fat[nclu] != FAT_EOF
        invariant k + 1 < |c| && pclu == c[k] && nclu == c[k + 1] < NENTRY && fat[..] == table
        decreases |c| - k
      {
        assert nclu in c;
        InChain(table, c, nclu);
        assert fat[nclu] == c[k + 2];
        pclu := nclu;
        nclu := fat[pclu];
        k := k + 1;
      }
      assert nclu in c;
      InChain(table, c, nclu);
    }
  }

  /** A size is not part of the table's soundness. */
  lemma FatResize(fat: seq<nat>, dinos: seq<Dinode>, chains: seq<seq<nat>>, i: nat, size: nat)
    requires FatOk(fat, dinos, chains) && RegularFile(dinos, i)
    ensures FatOk(fat, dinos[i := dinos[i].(size := size)], chains)
  {
  }
}
