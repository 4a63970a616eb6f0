/**
  * How scripts/mkfat32.py sizes a volume: four passes over an estimate of the cluster count.
  * The passes need not settle; when they do, and when the result fits, is made exact here.
  */
module Fat32Geometry {
  import opened Arithmetic
  import opened Bytes

  const SECTOR: nat := 512
  const RESERVED: nat := 32
  const MIN_CLUSTERS: nat := 65525

  datatype Geometry = Geometry(clusters: nat, fatSectors: nat)

  datatype GeometryError = TooFewClusters | NoClusters

  /** Sectors of one FAT with a slot for every cluster and two more. */
  function FatFor(clusters: int): int {
    ((clusters + 2) * 4 + SECTOR - 1) / SECTOR
  }

  /** The clusters that remain beside two FATs of this many sectors. */
  function Remaining(usable: int, perCluster: nat, fatSectors: int): int
    requires perCluster > 0
  {
    (usable - fatSectors * 2) / perCluster
  }

  /** The estimate after `passes` passes. */
  function Estimate(sectors: nat, perCluster: nat, passes: nat): int
    requires perCluster > 0
  {
    if passes == 0 then (sectors - RESERVED) / perCluster
    else Remaining(sectors - RESERVED, perCluster, FatFor(Estimate(sectors, perCluster, passes - 1)))
  }

  /** The geometry part of the constructor. A negative estimate raises IndexError there. */
  method Solve(sectors: nat, perCluster: nat, allowSmall: bool) returns (r: Result<Geometry, GeometryError>)
    requires perCluster > 0
    ensures var clusters := Estimate(sectors, perCluster, 4);
            r == if clusters < MIN_CLUSTERS && !allowSmall then Err(TooFewClusters)
                 else if clusters < 0 then Err(NoClusters)
                 else Ok(Geometry(clusters, FatFor(clusters)))
    ensures Estimate(sectors, perCluster, 4) >= 65525 ==> r.Ok?
    ensures r.Ok? ==> allowSmall || r.value.clusters >= 65525
    ensures r.Ok? ==> (r.value.clusters + 2) * 4 <= r.value.fatSectors * SECTOR
    ensures r.Ok? ==> (Fits(sectors, perCluster) <==>
                       RESERVED + 2 * r.value.fatSectors + r.value.clusters * perCluster <= sectors)
  {
    var usable := sectors - RESERVED;
    var clusters := usable / perCluster;
    for pass := 0 to 4
      invariant clusters == Estimate(sectors, perCluster, pass)
    {
      var fatSectors := ((clusters + 2) * 4 + SECTOR - 1) / SECTOR;
      clusters := (usable - fatSectors * 2) / perCluster;
    }
    if clusters < MIN_CLUSTERS && !allowSmall {
      return Err(TooFewClusters);
    }
    if clusters < 0 {
      return Err(NoClusters);
    }
    return Ok(Geometry(clusters, ((clusters + 2) * 4 + SECTOR - 1) / SECTOR));
  }

  // ----- The estimates bracket one another -----

  lemma {:induction false} PassReverses(usable: int, perCluster: nat, a: int, b: int)
    requires perCluster > 0 && a <= b
    ensures Remaining(usable, perCluster, FatFor(b)) <= Remaining(usable, perCluster, FatFor(a))
  {
    QuotientMonotone(usable - FatFor(b) * 2, usable - FatFor(a) * 2, perCluster);
  }

  /** c1 <= c3 <= c4 <= c2 <= c0: every pass overshoots in turn, by no more than the one before. */
  lemma {:induction false} EstimatesBracket(sectors: nat, perCluster: nat)
    requires perCluster > 0 && sectors >= RESERVED
    ensures Estimate(sectors, perCluster, 1) <= Estimate(sectors, perCluster, 3)
            <= Estimate(sectors, perCluster, 4) <= Estimate(sectors, perCluster, 2)
            <= Estimate(sectors, perCluster, 0)
  {
    var usable := sectors - RESERVED;
    var c0, c1, c2, c3 := Estimate(sectors, perCluster, 0), Estimate(sectors, perCluster, 1),
                          Estimate(sectors, perCluster, 2), Estimate(sectors, perCluster, 3);
    assert c1 == Remaining(usable, perCluster, FatFor(c0));
    assert c2 == Remaining(usable, perCluster, FatFor(c1));
    assert c3 == Remaining(usable, perCluster, FatFor(c2));
    assert Estimate(sectors, perCluster, 4) == Remaining(usable, perCluster, FatFor(c3));
    FirstEstimates(usable, perCluster);
    hide Remaining, Estimate, FatFor;
    PassReverses(usable, perCluster, c1, c0);
    PassReverses(usable, perCluster, c1, c2);
    PassReverses(usable, perCluster, c2, c0);
    PassReverses(usable, perCluster, c3, c2);
    PassReverses(usable, perCluster, c1, c3);
  }

  lemma {:induction false} FirstEstimates(usable: nat, perCluster: nat)
    requires perCluster > 0
    ensures var c0 := usable / perCluster;
            var c1 := Remaining(usable, perCluster, FatFor(c0));
            c1 <= c0 && Remaining(usable, perCluster, FatFor(c1)) <= c0
  {
    hide Remaining, FatFor;
    FirstGuess(usable, perCluster);
    var c0 := usable / perCluster;
    FatIsPositive(c0);
    SecondEstimate(usable, perCluster, c0, FatFor(c0));
    var c1 := Remaining(usable, perCluster, FatFor(c0));
    FatIsPositive(c1);
    RemainsNoMore(usable, perCluster, FatFor(c0));
    RemainsNoMore(usable, perCluster, FatFor(c1));
  }

  lemma {:induction false} FirstGuess(usable: nat, perCluster: nat)
    requires perCluster > 0
    ensures 0 <= usable / perCluster <= usable
  {
    var c0 := usable / perCluster;
    QuotientBounds(usable, perCluster);
    MulOrder(perCluster, c0, -1);
    MulOrder(c0, 1, perCluster);
  }

  lemma {:induction false} FatIsPositive(clusters: int)
    ensures clusters >= -3 ==> 0 <= FatFor(clusters)
    ensures clusters >= 0 ==> FatFor(clusters) * 2 <= clusters + 3
  {
  }

  /** A FAT for as many clusters as there are sectors leaves no fewer than minus three. */
  lemma {:induction false} SecondEstimate(usable: nat, perCluster: nat, c0: nat, f: int)
    requires perCluster > 0 && c0 <= usable && f * 2 <= c0 + 3
    ensures Remaining(usable, perCluster, f) >= -3
  {
    var q := Remaining(usable, perCluster, f);
    QuotientBounds(usable - f * 2, perCluster);
    if q < -3 { MulOrder(perCluster, q + 1, -3); }
  }

  lemma {:induction false} RemainsNoMore(usable: int, perCluster: nat, f: int)
    requires perCluster > 0 && f >= 0
    ensures Remaining(usable, perCluster, f) <= usable / perCluster
  {
    QuotientMonotone(usable - f * 2, usable, perCluster);
  }

  // ----- When the volume fits -----

  /** Reserved sectors, both FATs and the data area stay within the declared sectors. */
  predicate Fits(sectors: nat, perCluster: nat)
    requires perCluster > 0
  {
    var clusters := Estimate(sectors, perCluster, 4);
    RESERVED + 2 * FatFor(clusters) + clusters * perCluster <= sectors
  }

  /** Less than one cluster of the declared sectors is left over. */
  predicate FitsTightly(sectors: nat, perCluster: nat)
    requires perCluster > 0
  {
    var clusters := Estimate(sectors, perCluster, 4);
    Fits(sectors, perCluster) &&
    sectors < RESERVED + 2 * FatFor(clusters) + clusters * perCluster + perCluster
  }

  /** The last two passes ask for FATs of the same size. */
  predicate Settles(sectors: nat, perCluster: nat)
    requires perCluster > 0
  {
    FatFor(Estimate(sectors, perCluster, 3)) == FatFor(Estimate(sectors, perCluster, 4))
  }

  lemma {:induction false} SettledFits(sectors: nat, perCluster: nat)
    requires perCluster > 0 && Settles(sectors, perCluster)
    ensures FitsTightly(sectors, perCluster)
  {
    var f := FatFor(Estimate(sectors, perCluster, 4));
    QuotientBounds(sectors - RESERVED - 2 * f, perCluster);
  }

  /**
    * The sectors one FAT sector pays for: 128 clusters and its own two copies. A volume whose
    * size leaves a remainder of 0 or 1 has no FAT size that is right for what it leaves.
    */
  function Phase(sectors: nat, perCluster: nat): int
    requires perCluster > 0
  {
    (sectors - RESERVED + perCluster) % (128 * perCluster + 2)
  }

  function Blocks(sectors: nat, perCluster: nat): int
    requires perCluster > 0
  {
    (sectors - RESERVED + perCluster) / (128 * perCluster + 2)
  }

  /** A volume that fits has a phase of at least two. */
  lemma {:induction false} FitsNeedsPhase(sectors: nat, perCluster: nat)
    requires perCluster > 0 && sectors >= RESERVED && Fits(sectors, perCluster)
    ensures Phase(sectors, perCluster) >= 2
  {
    var usable := sectors - RESERVED;
    var c, c3 := Estimate(sectors, perCluster, 4), Estimate(sectors, perCluster, 3);
    EstimatesBracket(sectors, perCluster);
    assert c == Remaining(usable, perCluster, FatFor(c3));
    hide Estimate;
    CountLeft(usable, perCluster, FatFor(c3), FatFor(c));
    PhaseOf(usable, perCluster, c, FatFor(c));
  }

  /** The clusters are exactly those that a FAT of the final size leaves. */
  lemma {:induction false} CountLeft(usable: int, perCluster: nat, guess: int, f: int)
    requires perCluster > 0 && guess <= f
    requires 2 * f + Remaining(usable, perCluster, guess) * perCluster <= usable
    ensures var c := Remaining(usable, perCluster, guess);
            perCluster * c <= usable - 2 * f < perCluster * c + perCluster
  {
    QuotientBounds(usable - guess * 2, perCluster);
  }

  lemma {:induction false} PhaseOf(usable: int, perCluster: nat, c: int, f: int)
    requires perCluster > 0
    requires 128 * f - 129 <= c <= 128 * f - 2
    requires perCluster * c <= usable - 2 * f < perCluster * c + perCluster
    ensures (usable + perCluster) % (128 * perCluster + 2) >= 2
  {
    MulOrder(perCluster, 128 * f - 129, c);
    MulOrder(perCluster, c, 128 * f - 2);
    Expand(perCluster, f, 129);
    Expand(perCluster, f, 2);
    var p := 128 * perCluster + 2;
    var r := usable + perCluster - p * (f - 1);
    assert p * (f - 1) == 128 * (perCluster * f) - 128 * perCluster + 2 * f - 2;
    assert 2 <= r < p;
    Remainder(usable + perCluster, p, f - 1, r);
  }

  lemma {:induction false} Expand(d: int, f: int, k: int)
    ensures d * (128 * f - k) == 128 * (d * f) - k * d
  {
  }

  /** With a phase of two or more, a FAT of one sector per block and one more is right. */
  lemma {:induction false} RightFat(sectors: nat, perCluster: nat)
    requires perCluster > 0 && sectors >= RESERVED && Phase(sectors, perCluster) >= 2
    ensures var f := Blocks(sectors, perCluster) + 1;
            f >= 1 && FatFor(Remaining(sectors - RESERVED, perCluster, f)) == f
  {
    var usable, p := sectors - RESERVED, 128 * perCluster + 2;
    var b, r := Blocks(sectors, perCluster), Phase(sectors, perCluster);
    QuotientMonotone(0, usable + perCluster, p);
    Quotient(0, p, 0);
    assert usable + perCluster == p * b + r;
    hide Phase, Blocks, Remaining;
    RightCount(usable, perCluster, b, r);
  }

  /** What such a FAT leaves: as many clusters as it has slots, or up to 127 fewer. */
  lemma {:induction false} RightCount(usable: int, perCluster: nat, b: nat, r: int)
    requires perCluster > 0 && usable + perCluster == (128 * perCluster + 2) * b + r
    requires 2 <= r < 128 * perCluster + 2
    ensures 128 * b - 1 <= Remaining(usable, perCluster, b + 1) <= 128 * b + 126
  {
    var q := Remaining(usable, perCluster, b + 1);
    QuotientBounds(usable - (b + 1) * 2, perCluster);
    assert (128 * perCluster + 2) * b == 128 * (perCluster * b) + 2 * b;
    MulOrder(perCluster, q, 128 * b - 1);
    MulOrder(perCluster, 128 * b + 127, q);
    assert perCluster * (128 * b - 1) == 128 * (perCluster * b) - perCluster;
    assert perCluster * (128 * b + 127) == 128 * (perCluster * b) + 127 * perCluster;
  }

  /** A FAT guess that is `d` sectors too large takes two sectors for each: `e` clusters at most. */
  lemma {:induction false} TooLargeShrinks(usable: int, perCluster: nat, f: int, d: nat, e: nat)
    requires perCluster > 0 && FatFor(Remaining(usable, perCluster, f)) == f && 2 * d <= perCluster * e
    ensures var q := Remaining(usable, perCluster, f);
            var next := Remaining(usable, perCluster, f + d);
            q - e <= next <= q && f - (e + 127) / 128 <= FatFor(next) <= f
  {
    QuotientDrop(usable - f * 2, 2 * d, perCluster, e);
    assert usable - (f + d) * 2 == usable - f * 2 - 2 * d;
    FatChanges(Remaining(usable, perCluster, f), Remaining(usable, perCluster, f + d), e);
  }

  /** And one that is `d` sectors too small leaves as many too many. */
  lemma {:induction false} TooSmallShrinks(usable: int, perCluster: nat, f: int, d: nat, e: nat)
    requires perCluster > 0 && FatFor(Remaining(usable, perCluster, f)) == f && 2 * d <= perCluster * e
    ensures var q := Remaining(usable, perCluster, f);
            var next := Remaining(usable, perCluster, f - d);
            q <= next <= q + e && f <= FatFor(next) <= f + (e + 127) / 128
  {
    QuotientDrop(usable - (f - d) * 2, 2 * d, perCluster, e);
    assert usable - f * 2 == usable - (f - d) * 2 - 2 * d;
    FatChanges(Remaining(usable, perCluster, f - d), Remaining(usable, perCluster, f), e);
  }

  /** One FAT sector has slots for 128 clusters. */
  lemma {:induction false} FatChanges(more: int, fewer: int, e: nat)
    requires more - e <= fewer <= more
    ensures FatFor(more) - (e + 127) / 128 <= FatFor(fewer) <= FatFor(more)
  {
  }

  // With one sector per cluster, FATs up to this many sectors settle within four passes.
  const SETTLING_BLOCKS: nat := 253952

  /** How many blocks are sure to settle: the guesses close in faster with larger clusters. */
  function SettlingBlocks(perCluster: nat): nat {
    SETTLING_BLOCKS * (perCluster * perCluster)
  }

  /** With a phase of two or more, four passes are enough up to a generous size. */
  lemma {:induction false} PhaseSettles(sectors: nat, perCluster: nat)
    requires perCluster > 0 && sectors >= RESERVED && Phase(sectors, perCluster) >= 2
    requires Blocks(sectors, perCluster) < SettlingBlocks(perCluster)
    ensures Settles(sectors, perCluster)
    ensures FatFor(Estimate(sectors, perCluster, 4)) == Blocks(sectors, perCluster) + 1
  {
    var usable := sectors - RESERVED;
    var f := Blocks(sectors, perCluster) + 1;
    RightFat(sectors, perCluster);
    assert 2 * f <= perCluster * (2 * SETTLING_BLOCKS * perCluster);
    assert Remaining(usable, perCluster, 0) == usable / perCluster;
    hide Phase, Blocks;
    var c1, c2, c3 := Passes(sectors, perCluster);
    FourGuesses(usable, perCluster, f, c1, c2, c3);
  }

  /** The estimates, each from the FAT the one before asks for. */
  lemma {:induction false} Passes(sectors: nat, perCluster: nat) returns (c1: int, c2: int, c3: int)
    requires perCluster > 0
    ensures var usable := sectors - RESERVED;
            && c1 == Remaining(usable, perCluster, FatFor(usable / perCluster))
            && c2 == Remaining(usable, perCluster, FatFor(c1))
            && c3 == Remaining(usable, perCluster, FatFor(c2))
            && c3 == Estimate(sectors, perCluster, 3)
            && Estimate(sectors, perCluster, 4) == Remaining(usable, perCluster, FatFor(c3))
  {
    hide Remaining, FatFor;
    c1, c2, c3 := Estimate(sectors, perCluster, 1), Estimate(sectors, perCluster, 2), Estimate(sectors, perCluster, 3);
    assert Estimate(sectors, perCluster, 0) == (sectors - RESERVED) / perCluster;
  }

  /** From no FAT at all, each guess misses the right one by less than the one before: by 62 at most, then 1, then 0. */
  lemma {:induction false} FourGuesses(usable: int, perCluster: nat, f: int, c1: int, c2: int, c3: int)
    requires perCluster > 0 && f >= 1 && FatFor(Remaining(usable, perCluster, f)) == f
    requires 2 * f <= perCluster * (2 * SETTLING_BLOCKS * perCluster)
    requires Remaining(usable, perCluster, 0) == usable / perCluster
    requires c1 == Remaining(usable, perCluster, FatFor(usable / perCluster))
    requires c2 == Remaining(usable, perCluster, FatFor(c1)) && c3 == Remaining(usable, perCluster, FatFor(c2))
    ensures FatFor(c3) == f && FatFor(Remaining(usable, perCluster, FatFor(c3))) == f
  {
    hide Remaining;
    var q := Remaining(usable, perCluster, f);
    var f0, f1, f2 := FatFor(usable / perCluster), FatFor(c1), FatFor(c2);
    assert f - f == 0;
    TooSmallShrinks(usable, perCluster, f, f, 2 * SETTLING_BLOCKS * perCluster);
    assert f <= f0 <= f + 3968 * perCluster;
    hide FatFor;
    assert f + (f0 - f) == f0;
    TooLargeShrinks(usable, perCluster, f, f0 - f, 7936);
    assert f - 62 <= f1 <= f;
    MulOrder(124, 1, perCluster);
    assert f - (f - f1) == f1;
    TooSmallShrinks(usable, perCluster, f, f - f1, 124);
    assert f <= f2 <= f + 1;
    assert f + (f2 - f) == f2;
    TooLargeShrinks(usable, perCluster, f, f2 - f, if f2 == f then 0 else 2);
    LastGuess(q, c2, c3, f);
  }

  /** An overshoot means the right count lies near its upper end, too far to undershoot next. */
  lemma {:induction false} LastGuess(q: int, c2: int, c3: int, f: int)
    requires FatFor(q) == f && q <= c2 <= q + 124 && f <= FatFor(c2) <= f + 1
    requires q - (if FatFor(c2) == f then 0 else 2) <= c3 <= q
    ensures FatFor(c3) == f
  {
  }

  /** The exact condition, checkable before a volume is built: the phase is at least two. */
  lemma {:induction false} FitsExactly(sectors: nat, perCluster: nat)
    requires perCluster > 0 && sectors >= RESERVED
    requires Blocks(sectors, perCluster) < SettlingBlocks(perCluster)
    ensures Fits(sectors, perCluster) <==> Phase(sectors, perCluster) >= 2
    ensures Fits(sectors, perCluster) ==> FitsTightly(sectors, perCluster)
  {
    if Phase(sectors, perCluster) >= 2 {
      PhaseSettles(sectors, perCluster);
      SettledFits(sectors, perCluster);
    } else if Fits(sectors, perCluster) {
      FitsNeedsPhase(sectors, perCluster);
    }
  }

  /** With eight or more sectors per cluster that covers every size that a boot sector can declare. */
  lemma {:induction false} FitsExactlyWhenDeclared(sectors: nat, perCluster: nat)
    requires perCluster >= 8 && RESERVED <= sectors < 0x1_0000_0000
    ensures Fits(sectors, perCluster) <==> Phase(sectors, perCluster) >= 2
    ensures Fits(sectors, perCluster) ==> FitsTightly(sectors, perCluster)
  {
    MulOrder(perCluster, 8, perCluster);
    assert SettlingBlocks(perCluster) >= SETTLING_BLOCKS * 64;
    var x, p := sectors - RESERVED + perCluster, 128 * perCluster + 2;
    QuotientBounds(x, p);
    var b := x / p;
    if b >= SETTLING_BLOCKS * 64 {
      MulOrder(p, SETTLING_BLOCKS * 64, b);
    }
    FitsExactly(sectors, perCluster);
  }

  /** One pass at one sector per cluster, from an estimate that needs `f` FAT sectors. */
  lemma {:induction false} OnePass(sectors: nat, passes: nat, clusters: int, f: int)
    requires Estimate(sectors, 1, passes) == clusters
    requires 128 * (f - 1) < clusters + 2 <= 128 * f
    ensures FatFor(clusters) == f && Estimate(sectors, 1, passes + 1) == sectors - RESERVED - 2 * f
  {
    hide Estimate;
    EstimateStep(sectors, passes);
    Quotient(sectors - RESERVED - 2 * f, 1, sectors - RESERVED - 2 * f);
  }

  lemma {:induction false} EstimateStep(sectors: nat, passes: nat)
    ensures Estimate(sectors, 1, passes + 1)
            == Remaining(sectors - RESERVED, 1, FatFor(Estimate(sectors, 1, passes)))
    ensures Estimate(sectors, 1, 0) == sectors - RESERVED
  {
    Quotient(sectors - RESERVED, 1, sectors - RESERVED);
  }

  /** 64 MiB at one sector per cluster: two sectors too many. */
  lemma {:induction false} DoesNotFit()
    ensures Phase(131072, 1) == 1 && !Fits(131072, 1)
    ensures Estimate(131072, 1, 4) == 129024
    ensures RESERVED + 2 * FatFor(129024) + 129024 == 131072 + 2
  {
    hide Estimate;
    EstimateStep(131072, 0);
    OnePass(131072, 0, 131040, 1024);
    OnePass(131072, 1, 128992, 1008);
    OnePass(131072, 2, 129024, 1009);
    OnePass(131072, 3, 129022, 1008);
  }

  /** Past the bound a good phase no longer suffices: the passes have not settled in time. */
  lemma {:induction false} DoesNotSettle()
    ensures Phase(33554463, 1) == 2 && !Fits(33554463, 1)
  {
    hide Estimate;
    EstimateStep(33554463, 0);
    OnePass(33554463, 0, 33554431, 262145);
    OnePass(33554463, 1, 33030141, 258048);
    OnePass(33554463, 2, 33038335, 258113);
    OnePass(33554463, 3, 33038205, 258111);
  }
}
