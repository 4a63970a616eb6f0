/**
  * The allocator of scripts/mkfat32.py: cluster chains in the FAT and their bytes in the data
  * area, with a reader that knows only the FAT and the data.
  */
module Fat32Volume {
  import opened Arithmetic
  import opened Bytes
  import opened Fat32Geometry

  const FREE: nat := 0
  const END: nat := 0x0FFFFFFF
  const MEDIA: nat := 0x0FFFFFF8
  // Cluster numbers above this mark the end of a chain or a bad cluster.
  const LAST_CLUSTER: nat := 0x0FFFFFF6

  /** Bytes of `n` clusters of `per` bytes each. */
  function Span(per: nat, n: nat): nat {
    per * n
  }

  lemma {:induction false} SpanAdd(per: nat, a: nat, b: nat)
    ensures Span(per, a + b) == Span(per, a) + Span(per, b)
    ensures Span(per, 1) == per && Span(per, 0) == 0
  {
  }

  lemma {:induction false} SpanOrder(per: nat, a: nat, b: nat)
    ensures a <= b ==> Span(per, a) <= Span(per, b)
    ensures a < b ==> Span(per, a) + per <= Span(per, b)
  {
    MulOrder(per, a, b);
  }

  // ----- The reader -----

  /** The clusters of the chain that starts at `cluster`, unless it leaves the FAT or goes round. */
  function Follow(fat: seq<nat>, cluster: nat, fuel: nat): Option<seq<nat>>
    decreases fuel
  {
    if fuel == 0 || cluster < 2 || cluster >= |fat| then None
    else if fat[cluster] >= MEDIA then Some([cluster])
    else
      match Follow(fat, fat[cluster], fuel - 1)
      case None => None
      case Some(rest) => Some([cluster] + rest)
  }

  /** The bytes of these clusters of the data area, one cluster after another. */
  function ReadClusters(per: nat, data: seq<byte>, clusters: seq<nat>): Option<seq<byte>> {
    if clusters == [] then Some([])
    else if clusters[0] < 2 || Span(per, clusters[0] - 2) + per > |data| then None
    else
      match ReadClusters(per, data, clusters[1..])
      case None => None
      case Some(rest) => Some(data[Span(per, clusters[0] - 2)..Span(per, clusters[0] - 2) + per] + rest)
  }

  /** A file from its first cluster and its size; a file without bytes has no cluster. */
  function ReadFile(per: nat, fat: seq<nat>, data: seq<byte>, first: nat, size: nat): Option<seq<byte>> {
    if size == 0 then Some([])
    else
      match Follow(fat, first, |fat|)
      case None => None
      case Some(clusters) =>
        match ReadClusters(per, data, clusters)
        case None => None
        case Some(bytes) => if size <= |bytes| then Some(bytes[..size]) else None
  }

  // ----- What the allocator keeps true -----

  /** A chain as allocated, and the bytes last written to it. */
  datatype Chain = Chain(count: nat, written: seq<byte>)

  ghost predicate ChainIn(fat: seq<nat>, first: nat, count: nat) {
    && 2 <= first && 1 <= count && first + count <= |fat| && first + count <= LAST_CLUSTER + 1
    && (forall c | first <= c < first + count - 1 :: fat[c] == c + 1)
    && fat[first + count - 1] == END
  }

  ghost predicate Holds(per: nat, data: seq<byte>, first: nat, chain: Chain)
    requires first >= 2
  {
    var base := Span(per, first - 2);
    && |chain.written| <= Span(per, chain.count) && base + Span(per, chain.count) <= |data|
    && data[base..base + |chain.written|] == chain.written
  }

  ghost predicate Sound(per: nat, fat: seq<nat>, data: seq<byte>, nextFree: nat, chains: map<nat, Chain>) {
    && per > 0 && 2 <= nextFree <= |fat| <= LAST_CLUSTER + 1 && |data| == Span(per, |fat| - 2)
    && fat[0] == MEDIA && fat[1] == END
    && (forall c | 2 <= c < nextFree :: fat[c] != FREE)
    && (forall c | nextFree <= c < |fat| :: fat[c] == FREE)
    && (forall c | 0 <= c < |fat| :: fat[c] <= END)
    && (forall f | f in chains ::
          ChainIn(fat, f, chains[f].count) && f + chains[f].count <= nextFree
          && Holds(per, data, f, chains[f]))
    && (forall f, g | f in chains && g in chains && f < g :: f + chains[f].count <= g)
  }

  lemma {:induction false} SoundAt(per: nat, fat: seq<nat>, data: seq<byte>, nextFree: nat,
                   chains: map<nat, Chain>, f: nat)
    requires Sound(per, fat, data, nextFree, chains) && f in chains
    ensures per > 0 && |fat| <= LAST_CLUSTER + 1
    ensures ChainIn(fat, f, chains[f].count) && Holds(per, data, f, chains[f])
  {
  }

  lemma {:induction false} AreaSize(per: nat, fat: seq<nat>, now: seq<byte>, nextFree: nat,
                   chains: map<nat, Chain>, data: seq<byte>)
    requires Sound(per, fat, data, nextFree, chains) && |now| == |data|
    ensures |now| == Span(per, |fat| - 2) && |fat| <= LAST_CLUSTER + 1
  {
    hide Span;
  }

  // ----- Reading back what is held -----

  lemma {:induction false} FollowFinds(fat: seq<nat>, first: nat, count: nat, fuel: nat)
    requires ChainIn(fat, first, count) && fuel >= count
    ensures Follow(fat, first, fuel) == Some(seq(count, i => first + i))
    decreases count
  {
    if count == 1 {
      assert seq(1, i => first + i) == [first];
    } else {
      FollowFinds(fat, first + 1, count - 1, fuel - 1);
      assert seq(count, i => first + i) == [first] + seq(count - 1, i => first + 1 + i);
    }
  }

  lemma {:induction false} ReadsRun(per: nat, data: seq<byte>, first: nat, count: nat)
    requires first >= 2 && Span(per, first - 2) + Span(per, count) <= |data|
    ensures ReadClusters(per, data, seq(count, i => first + i))
            == Some(data[Span(per, first - 2)..Span(per, first - 2) + Span(per, count)])
    decreases count
  {
    hide Span;
    SpanAdd(per, first - 2, 1);
    var clusters := seq(count, i => first + i);
    var base := Span(per, first - 2);
    if count == 0 {
      assert clusters == [] && data[base..base] == [];
    } else {
      SpanAdd(per, 1, count - 1);
      assert first + 1 - 2 == first - 2 + 1;
      assert clusters[1..] == seq(count - 1, i => first + 1 + i);
      ReadsRun(per, data, first + 1, count - 1);
      assert data[base..base + Span(per, count)] == data[base..base + per] + data[base + per..base + Span(per, count)];
    }
  }

  /** Following the FAT and cutting to size gives back what was written to a chain. */
  lemma {:induction false} ReadsBack(per: nat, fat: seq<nat>, data: seq<byte>, first: nat, chain: Chain)
    requires ChainIn(fat, first, chain.count) && Holds(per, data, first, chain)
    ensures ReadFile(per, fat, data, first, |chain.written|) == Some(chain.written)
  {
    hide Span, Follow, ReadClusters;
    FollowFinds(fat, first, chain.count, |fat|);
    ReadsRun(per, data, first, chain.count);
    var base, n := Span(per, first - 2), |chain.written|;
    assert data[base..base + Span(per, chain.count)][..n] == data[base..base + n];
  }

  /** Chains are acyclic, stay among the allocated clusters and do not meet. */
  lemma {:induction false} ChainsApart(per: nat, fat: seq<nat>, data: seq<byte>, nextFree: nat, chains: map<nat, Chain>,
                    f: nat, g: nat)
    requires Sound(per, fat, data, nextFree, chains) && f in chains && g in chains
    ensures var c := Follow(fat, f, |fat|);
            && c.Some? && |c.value| == chains[f].count
            && (forall i, j | 0 <= i < j < |c.value| :: c.value[i] != c.value[j])
            && (forall i | 0 <= i < |c.value| :: 2 <= c.value[i] < nextFree)
            && (f != g ==> var d := Follow(fat, g, |fat|);
                           d.Some? && forall i, j | 0 <= i < |c.value| && 0 <= j < |d.value| ::
                                        c.value[i] != d.value[j])
  {
    hide Span, Follow;
    FollowFinds(fat, f, chains[f].count, |fat|);
    FollowFinds(fat, g, chains[g].count, |fat|);
  }

  /** Entries of the data clusters that are free, counted one by one. */
  ghost function FreeEntries(fat: seq<nat>, from: nat): nat
    decreases |fat| - from
  {
    if from >= |fat| then 0 else (if fat[from] == FREE then 1 else 0) + FreeEntries(fat, from + 1)
  }

  lemma {:induction false} FreeCount(fat: seq<nat>, nextFree: nat, from: nat)
    requires from <= |fat| && nextFree <= |fat|
    requires forall c | from <= c < nextFree :: fat[c] != FREE
    requires forall c | nextFree <= c < |fat| :: fat[c] == FREE
    ensures FreeEntries(fat, from) == |fat| - (if from < nextFree then nextFree else from)
    decreases |fat| - from
  {
    if from < |fat| { FreeCount(fat, nextFree, from + 1); }
  }

  // ----- Frames of the two writes -----

  /** Where chain `f` ends, the next chain's bytes have not begun. */
  lemma {:induction false} RegionsApart(per: nat, f: nat, count: nat, g: nat)
    requires 2 <= f && f + count <= g
    ensures Span(per, f - 2) + Span(per, count) <= Span(per, g - 2)
  {
    hide Span;
    SpanAdd(per, f - 2, count);
    SpanOrder(per, f - 2 + count, g - 2);
  }

  /** Assigning to a slice: the ends are clamped, as Python clamps them. */
  function Splice(data: seq<byte>, at: nat, chunk: seq<byte>): seq<byte> {
    var low := if at < |data| then at else |data|;
    var high := if at + |chunk| < |data| then at + |chunk| else |data|;
    data[..low] + chunk + data[high..]
  }

  lemma {:induction false} SpliceNothing(data: seq<byte>, at: nat, chunk: seq<byte>)
    requires chunk == []
    ensures Splice(data, at, chunk) == data
  {
  }

  lemma {:induction false} SpliceBeyond(data: seq<byte>, at: nat, chunk: seq<byte>)
    requires at >= |data|
    ensures Splice(data, at, chunk) == data + chunk
  {
  }

  lemma {:induction false} SpliceTwice(data: seq<byte>, base: nat, payload: seq<byte>, offset: nat, next: nat)
    requires offset <= next <= |payload| && base + next <= |data|
    ensures Splice(Splice(data, base, payload[..offset]), base + offset, payload[offset..next])
            == Splice(data, base, payload[..next])
  {
    assert payload[..next] == payload[..offset] + payload[offset..next];
  }

  lemma {:induction false} SpliceSize(data: seq<byte>, at: nat, chunk: seq<byte>)
    requires at + |chunk| <= |data|
    ensures |Splice(data, at, chunk)| == |data|
    ensures Splice(data, at, chunk)[at..at + |chunk|] == chunk
    ensures forall i | 0 <= i < at || at + |chunk| <= i < |data| :: Splice(data, at, chunk)[i] == data[i]
  {
  }

  lemma {:induction false} WriteKeeps(per: nat, fat: seq<nat>, data: seq<byte>, nextFree: nat, chains: map<nat, Chain>,
                   first: nat, payload: seq<byte>)
    requires Sound(per, fat, data, nextFree, chains) && first in chains
    requires |payload| <= Span(per, chains[first].count)
    ensures Sound(per, fat, Splice(data, Span(per, first - 2), payload), nextFree,
                  chains[first := Chain(chains[first].count, payload)])
  {
    hide Span, Splice;
    SpliceSize(data, Span(per, first - 2), payload);
    assert Holds(per, data, first, chains[first]);
    var base := Span(per, first - 2);
    var data' := Splice(data, base, payload);
    var chains' := chains[first := Chain(chains[first].count, payload)];
    forall f | f in chains'
      ensures ChainIn(fat, f, chains'[f].count) && f + chains'[f].count <= nextFree
      ensures Holds(per, data', f, chains'[f])
    {
      if f != first {
        assert Holds(per, data, f, chains[f]);
        HoldsElsewhere(per, data, first, chains[first].count, payload, f, chains[f]);
      }
    }
  }

  lemma {:induction false} HoldsElsewhere(per: nat, data: seq<byte>, first: nat, count: nat, payload: seq<byte>,
                       f: nat, chain: Chain)
    requires first >= 2 && f >= 2 && Holds(per, data, f, chain)
    requires Span(per, first - 2) + Span(per, count) <= |data| && |payload| <= Span(per, count)
    requires f + chain.count <= first || first + count <= f
    ensures Holds(per, Splice(data, Span(per, first - 2), payload), f, chain)
  {
    hide Span, Splice;
    SpliceSize(data, Span(per, first - 2), payload);
    var base, at, n := Span(per, first - 2), Span(per, f - 2), |chain.written|;
    if f + chain.count <= first {
      RegionsApart(per, f, chain.count, first);
    } else {
      RegionsApart(per, first, count, f);
    }
    assert Splice(data, base, payload)[at..at + n] == data[at..at + n];
  }

  lemma {:induction false} AllocateKeeps(per: nat, fat: seq<nat>, data: seq<byte>, nextFree: nat,
                      chains: map<nat, Chain>, fat': seq<nat>, needed: nat)
    requires Sound(per, fat, data, nextFree, chains)
    requires needed >= 1 && nextFree + needed <= |fat| == |fat'|
    requires forall c | 0 <= c < nextFree || nextFree + needed <= c < |fat| :: fat'[c] == fat[c]
    requires ChainIn(fat', nextFree, needed)
    requires forall c | nextFree <= c < nextFree + needed :: fat'[c] <= END
    ensures Sound(per, fat', data, nextFree + needed, chains[nextFree := Chain(needed, [])])
  {
    hide Span;
    var chains' := chains[nextFree := Chain(needed, [])];
    RegionsApart(per, nextFree, needed, |fat|);
    forall f | f in chains'
      ensures ChainIn(fat', f, chains'[f].count) && f + chains'[f].count <= nextFree + needed
      ensures Holds(per, data, f, chains'[f])
    {
      if f != nextFree {
        assert ChainIn(fat, f, chains[f].count) && Holds(per, data, f, chains[f]);
      }
    }
  }

  /** Clusters a request for this many bytes takes; even an empty one takes one. */
  function Needed(per: nat, byteCount: nat): (n: nat)
    requires per > 0
    ensures n >= 1 && byteCount <= Span(per, n)
    ensures forall fewer: nat | byteCount <= Span(per, fewer) :: n <= fewer || n == 1
  {
    QuotientBounds(byteCount + per - 1, per);
    QuotientMonotone(0, byteCount + per - 1, per);
    Quotient(0, per, 0);
    var n := (byteCount + per - 1) / per;
    SpanAdd(per, 0, 0);
    LeastCount(per, byteCount, n);
    if n < 1 then 1 else n
  }

  lemma {:induction false} LeastCount(per: nat, byteCount: nat, n: nat)
    requires per > 0 && Span(per, n) <= byteCount + per - 1
    ensures forall fewer: nat | byteCount <= Span(per, fewer) :: n <= fewer
  {
    forall fewer: nat | byteCount <= Span(per, fewer)
      ensures n <= fewer
    {
      SpanOrder(per, fewer, n);
    }
  }

  // ----- The volume object -----

  datatype VolumeError = ImageIsFull

  class Volume {
    const sectorsPerCluster: nat
    const sectors: nat
    const fatSectors: nat
    const clusters: nat
    var fat: seq<nat>
    var data: seq<byte>
    var nextFree: nat
    ghost var chains: map<nat, Chain>

    /** Bytes of one cluster. */
    function Per(): nat { sectorsPerCluster * SECTOR }

    ghost predicate Valid()
      reads this
    {
      && sectorsPerCluster > 0 && |fat| == clusters + 2 && |fat| * 4 <= fatSectors * SECTOR
      && Sound(Per(), fat, data, nextFree, chains)
    }

    constructor (sectors: nat, sectorsPerCluster: nat, geometry: Geometry)
      requires sectorsPerCluster > 0 && geometry.clusters + 2 <= LAST_CLUSTER + 1
      requires (geometry.clusters + 2) * 4 <= geometry.fatSectors * SECTOR
      ensures Valid() && chains == map[] && nextFree == 2
      ensures fat == [0x0FFFFFF8, 0x0FFFFFFF] + seq(geometry.clusters, _ => 0)
      ensures data == seq(Span(sectorsPerCluster * 512, geometry.clusters), _ => 0)
      ensures this.sectors == sectors && this.sectorsPerCluster == sectorsPerCluster
      ensures fatSectors == geometry.fatSectors && clusters == geometry.clusters
    {
      this.sectors, this.sectorsPerCluster := sectors, sectorsPerCluster;
      fatSectors, clusters := geometry.fatSectors, geometry.clusters;
      fat := [MEDIA, END] + seq(geometry.clusters, _ => FREE);
      data := seq(Span(sectorsPerCluster * SECTOR, geometry.clusters), _ => 0);
      nextFree, chains := 2, map[];
    }

    method Allocate(byteCount: nat) returns (r: Result<nat, VolumeError>)
      requires Valid()
      modifies this
      ensures Valid() && data == old(data)
      ensures r.Ok? <==> old(nextFree) + Needed(Per(), byteCount) <= clusters + 2
      ensures r.Ok? ==> r.value == old(nextFree) && nextFree == old(nextFree) + Needed(Per(), byteCount)
      ensures r.Ok? ==> r.value !in old(chains) &&
                        chains == old(chains)[r.value := Chain(Needed(Per(), byteCount), [])]
      ensures |fat| == |old(fat)| && forall c | 0 <= c < |fat| :: old(nextFree) <= c < nextFree || fat[c] == old(fat)[c]
      ensures r.Err? ==> chains == old(chains) && fat == old(fat) && nextFree == old(nextFree)
    {
      var needed := Needed(Per(), byteCount);
      if nextFree + needed > clusters + 2 {
        return Err(ImageIsFull);
      }
      var first := nextFree;
      for index := 0 to needed
        invariant |fat| == |old(fat)| && data == old(data) && chains == old(chains) && nextFree == first
        invariant forall c | 0 <= c < first || first + index <= c < |fat| :: fat[c] == old(fat)[c]
        invariant forall c | first <= c < first + index ::
                    fat[c] == if c == first + needed - 1 then END else c + 1
      {
        var cluster := first + index;
        fat := fat[cluster := if index == needed - 1 then END else cluster + 1];
      }
      AllocateKeeps(Per(), old(fat), data, first, chains, fat, needed);
      nextFree := nextFree + needed;
      chains := chains[first := Chain(needed, [])];
      return Ok(first);
    }

    /**
      * Fails, leaving the FAT with an index error, exactly when the chain is too short: the chain is
      * then full, and one more piece has been put past the end of the data area.
      */
    method WriteClusterChain(first: nat, payload: seq<byte>) returns (ok: bool)
      requires Valid() && first in chains
      modifies this`data, this`chains
      ensures ok <==> |payload| <= Span(Per(), old(chains)[first].count)
      ensures ok ==> Valid() && chains == old(chains)[first := Chain(old(chains)[first].count, payload)]
      ensures ok ==> data == Splice(old(data), Span(Per(), first - 2), payload)
      ensures !ok ==> chains == old(chains) &&
                      var full := Span(Per(), old(chains)[first].count);
                      var more := if full + Per() < |payload| then full + Per() else |payload|;
                      data == Splice(old(data), Span(Per(), first - 2), payload[..full]) + payload[full..more]
    {
      hide Span, Splice, Sound;
      assert Sound(Per(), fat, data, nextFree, chains);
      SoundAt(Per(), fat, data, nextFree, chains, first);
      var per := Per();
      SpanAdd(per, 0, 0);
      var cluster, offset := first, 0;
      ghost var count, base, done := chains[first].count, Span(per, first - 2), 0;
      SpliceNothing(data, base, payload[..0]);
      while offset < |payload|
        invariant done <= count && offset == Span(per, done) && chains == old(chains)
        invariant cluster == if done < count then first + done else END
        invariant var soFar := if offset < |payload| then offset else |payload|;
                  data == Splice(old(data), base, payload[..soFar])
        decreases |payload| - offset
      {
        var end := if offset + per < |payload| then offset + per else |payload|;
        var chunk := payload[offset..end];
        ghost var before := data;
        data := Splice(data, Span(per, cluster - 2), chunk);
        offset := offset + per;
        if cluster >= |fat| {
          assert done == count;
          SpliceSize(old(data), base, payload[..Span(per, done)]);
          SpanOrder(per, |fat| - 2, cluster - 2);
          AreaSize(per, fat, before, nextFree, chains, old(data));
          SpliceBeyond(before, Span(per, cluster - 2), chunk);
          return false;
        }
        SpanAdd(per, first - 2, done);
        SpanAdd(per, done, 1);
        SpanOrder(per, done + 1, count);
        assert cluster - 2 == first - 2 + done;
        SpliceTwice(old(data), base, payload, Span(per, done), end);
        cluster := fat[cluster];
        done := done + 1;
      }
      SpanOrder(per, done, count);
      assert payload[..|payload|] == payload;
      WriteKeeps(per, fat, old(data), nextFree, chains, first, payload);
      chains := chains[first := Chain(count, payload)];
      return true;
    }
  }
}
