/** Flash regions for the linker: a cursor walks over partitions and their sections. */
module Partitions {
  import opened Prelude

  /** A section without a size takes what the sized ones leave. */
  datatype Section = Section(name: string, size: Option<nat>)

  datatype Partition =
    | Plain(name: string, size: nat)
    | Sectioned(name: string, size: nat, sections: seq<Section>)

  datatype Memory = Memory(name: string, origin: int, size: int)

  function SizedTotal(sections: seq<Section>): (r: nat) {
    if sections == [] then 0
    else
      var last := sections[|sections| - 1];
      SizedTotal(sections[..|sections| - 1]) + if last.size.Some? then last.size.value else 0
  }

  function UnsizedCount(sections: seq<Section>): (r: nat) {
    if sections == [] then 0
    else UnsizedCount(sections[..|sections| - 1]) + if sections[|sections| - 1].size.None? then 1 else 0
  }

  function FreeSpace(p: Partition): (r: int)
    requires p.Sectioned?
  {
    p.size - SizedTotal(p.sections)
  }

  /** The regions of the first `n` sections, and where the cursor stands after them. */
  function SectionRegions(p: Partition, n: nat, cursor: int): (r: (seq<Memory>, int))
    requires p.Sectioned? && n <= |p.sections|
    ensures |r.0| == n
  {
    if n == 0 then ([], cursor)
    else
      var (regions, at) := SectionRegions(p, n - 1, cursor);
      var s := p.sections[n - 1];
      var size := if s.size.Some? then s.size.value else FreeSpace(p);
      (regions + [Memory(p.name + "_" + s.name, at, size)], at + size)
  }

  function Regions(p: Partition, cursor: int): (r: (seq<Memory>, int)) {
    match p
    case Plain(name, size) => ([Memory(name, cursor, size)], cursor + size)
    case Sectioned(_, _, sections) => SectionRegions(p, |sections|, cursor)
  }

  function Layout(partitions: seq<Partition>, origin: int): (r: (seq<Memory>, int)) {
    if partitions == [] then ([], origin)
    else
      var (before, at) := Layout(partitions[..|partitions| - 1], origin);
      var (regions, end) := Regions(partitions[|partitions| - 1], at);
      (before + regions, end)
  }

  function TotalSize(partitions: seq<Partition>): (r: nat) {
    if partitions == [] then 0 else TotalSize(partitions[..|partitions| - 1]) + partitions[|partitions| - 1].size
  }

  method GetPartitionFreeSpace(p: Partition) returns (size: int)
    requires p.Sectioned?
    ensures size == FreeSpace(p)
  {
    size := p.size;
    for i := 0 to |p.sections|
      invariant size == p.size - SizedTotal(p.sections[..i])
    {
      assert p.sections[..i + 1][..i] == p.sections[..i];
      if p.sections[i].size.Some? { size := size - p.sections[i].size.value; }
    }
    assert p.sections[..|p.sections|] == p.sections;
  }

  method CheckMemoryUsage(partitions: seq<Partition>, actualSize: nat) returns (overflow: Option<nat>)
    ensures overflow == if TotalSize(partitions) > actualSize then Some(TotalSize(partitions) - actualSize) else None
  {
    var totalUsed := 0;
    for i := 0 to |partitions|
      invariant totalUsed == TotalSize(partitions[..i])
    {
      assert partitions[..i + 1][..i] == partitions[..i];
      totalUsed := totalUsed + partitions[i].size;
    }
    assert partitions[..|partitions|] == partitions;
    overflow := if totalUsed > actualSize then Some(totalUsed - actualSize) else None;
  }

  /** The regions, or by how much the partitions overflow the flash. */
  method Generate(partitions: seq<Partition>, flashSize: nat, origin: int) returns (r: Result<seq<Memory>, nat>)
    ensures TotalSize(partitions) > flashSize ==> r == Err(TotalSize(partitions) - flashSize)
    ensures TotalSize(partitions) <= flashSize ==> r == Ok(Layout(partitions, origin).0)
    ensures r.Ok? ==> (Safe(r.value, origin, flashSize) <==>
                       AllFit(partitions) && TotalExtent(partitions) <= flashSize)
  {
    var overflow := CheckMemoryUsage(partitions, flashSize);
    if overflow.Some? { return Err(overflow.value); }
    var memories: seq<Memory> := [];
    var cursor := origin;
    for i := 0 to |partitions|
      invariant (memories, cursor) == Layout(partitions[..i], origin)
    {
      assert partitions[..i + 1][..i] == partitions[..i];
      var p := partitions[i];
      if p.Sectioned? {
        ghost var start, before := cursor, memories;
        for k := 0 to |p.sections|
          invariant memories == before + SectionRegions(p, k, start).0 && cursor == SectionRegions(p, k, start).1
        {
          var s := p.sections[k];
          var size;
          if s.size.Some? {
            size := s.size.value;
          } else {
            size := GetPartitionFreeSpace(p);
          }
          memories := memories + [Memory(p.name + "_" + s.name, cursor, size)];
          cursor := cursor + size;
        }
      } else {
        memories := memories + [Memory(p.name, cursor, p.size)];
        cursor := cursor + p.size;
      }
    }
    assert partitions[..|partitions|] == partitions;
    LayoutSafeIff(partitions, flashSize, origin);
    return Ok(memories);
  }

  // ----- tilings

  /** The regions follow each other without a gap from `start` to `end`. */
  predicate Tiles(regions: seq<Memory>, start: int, end: int) {
    if regions == [] then start == end
    else
      var last := regions[|regions| - 1];
      last.origin + last.size == end && Tiles(regions[..|regions| - 1], start, last.origin)
  }

  lemma {:induction false} TilesAppend(a: seq<Memory>, b: seq<Memory>, start: int, mid: int, end: int)
    requires Tiles(a, start, mid) && Tiles(b, mid, end)
    ensures Tiles(a + b, start, end)
  {
    if b == [] {
      assert a + b == a;
    } else {
      var b' := b[..|b| - 1];
      TilesAppend(a, b', start, mid, b[|b| - 1].origin);
      assert (a + b)[..|a + b| - 1] == a + b';
    }
  }

  lemma {:induction false} SectionsTile(p: Partition, n: nat, cursor: int)
    requires p.Sectioned? && n <= |p.sections|
    ensures var (regions, end) := SectionRegions(p, n, cursor); Tiles(regions, cursor, end)
  {
    if n > 0 {
      SectionsTile(p, n - 1, cursor);
      var (regions, end) := SectionRegions(p, n, cursor);
      assert regions[..|regions| - 1] == SectionRegions(p, n - 1, cursor).0;
    }
  }

  lemma PartitionTiles(p: Partition, cursor: int)
    ensures var (regions, end) := Regions(p, cursor); Tiles(regions, cursor, end)
  {
    if p.Sectioned? {
      SectionsTile(p, |p.sections|, cursor);
    } else {
      assert Regions(p, cursor).0[..0] == [];
    }
  }

  /** Whatever the configuration, the regions are contiguous from the origin. */
  lemma {:induction false} LayoutTiles(partitions: seq<Partition>, origin: int)
    ensures var (regions, end) := Layout(partitions, origin); Tiles(regions, origin, end)
  {
    if partitions != [] {
      var before := partitions[..|partitions| - 1];
      LayoutTiles(before, origin);
      var (regions, at) := Layout(before, origin);
      var (more, end) := Regions(partitions[|partitions| - 1], at);
      PartitionTiles(partitions[|partitions| - 1], at);
      TilesAppend(regions, more, origin, at, end);
    }
  }

  /** The region of a section carries both names, and the section's own size or else the free space. */
  lemma {:induction false} RegionOfSection(p: Partition, n: nat, cursor: int, k: nat)
    requires p.Sectioned? && k < n <= |p.sections|
    ensures var region, section := SectionRegions(p, n, cursor).0[k], p.sections[k];
            && region.name == p.name + "_" + section.name
            && (section.size.Some? ==> region.size == section.size.value)
            && (section.size.None? ==> region.size == p.size - SizedTotal(p.sections))
  {
    if k < n - 1 { RegionOfSection(p, n - 1, cursor, k); }
  }

  // ----- when a partition is covered exactly

  /** How far the cursor moves over a partition: each unsized section takes all the free space. */
  function Extent(p: Partition): (r: int) {
    match p
    case Plain(_, size) => size
    case Sectioned(_, _, sections) => SizedTotal(sections) + UnsizedCount(sections) * FreeSpace(p)
  }

  lemma {:induction false} SectionExtent(p: Partition, n: nat, cursor: int)
    requires p.Sectioned? && n <= |p.sections|
    ensures SectionRegions(p, n, cursor).1 ==
            cursor + SizedTotal(p.sections[..n]) + UnsizedCount(p.sections[..n]) * FreeSpace(p)
  {
    if n > 0 {
      SectionExtent(p, n - 1, cursor);
      assert p.sections[..n][..n - 1] == p.sections[..n - 1];
      var u := UnsizedCount(p.sections[..n - 1]);
      assert (u + 1) * FreeSpace(p) == u * FreeSpace(p) + FreeSpace(p);
    }
  }

  lemma CursorMovesByExtent(p: Partition, cursor: int)
    ensures Regions(p, cursor).1 == cursor + Extent(p)
  {
    if p.Sectioned? {
      SectionExtent(p, |p.sections|, cursor);
      assert p.sections[..|p.sections|] == p.sections;
    }
  }

  predicate NonNegative(regions: seq<Memory>) {
    forall i | 0 <= i < |regions| :: regions[i].size >= 0
  }

  /** Where a section takes the free space, there is some. */
  predicate Fits(p: Partition) {
    p.Sectioned? && UnsizedCount(p.sections) > 0 ==> SizedTotal(p.sections) <= p.size
  }

  lemma {:induction false} SectionSizes(p: Partition, n: nat, cursor: int)
    requires p.Sectioned? && n <= |p.sections|
    ensures NonNegative(SectionRegions(p, n, cursor).0)
       <==> (UnsizedCount(p.sections[..n]) > 0 ==> FreeSpace(p) >= 0)
  {
    if n > 0 {
      SectionSizes(p, n - 1, cursor);
      assert p.sections[..n][..n - 1] == p.sections[..n - 1];
      var init, last := SectionRegions(p, n - 1, cursor).0, SectionRegions(p, n, cursor).0[n - 1];
      assert SectionRegions(p, n, cursor).0 == init + [last];
      NonNegativeSplits(init, [last]);
      assert NonNegative([last]) <==> last.size >= 0;
    }
  }

  lemma NonNegativeSplits(a: seq<Memory>, b: seq<Memory>)
    ensures NonNegative(a + b) <==> NonNegative(a) && NonNegative(b)
  {
    if NonNegative(a + b) {
      assert forall i | 0 <= i < |a| :: a[i] == (a + b)[i];
      assert forall i | 0 <= i < |b| :: b[i] == (a + b)[|a| + i];
    }
  }

  /** No region of a partition is negative exactly when its sized sections leave room for an unsized one. */
  lemma NonNegativeIff(p: Partition, cursor: int)
    ensures NonNegative(Regions(p, cursor).0) <==> Fits(p)
  {
    if p.Sectioned? {
      SectionSizes(p, |p.sections|, cursor);
      assert p.sections[..|p.sections|] == p.sections;
    }
  }

  /** The regions end where the partition ends, and none is negative. */
  predicate Covered(p: Partition, cursor: int) {
    Regions(p, cursor).1 == cursor + p.size && NonNegative(Regions(p, cursor).0)
  }

  predicate WellFormed(p: Partition) {
    p.Sectioned? ==>
      || SizedTotal(p.sections) == p.size
      || (SizedTotal(p.sections) < p.size && UnsizedCount(p.sections) == 1)
  }

  /** A partition is covered exactly when the sized sections fill it, or leave room and one section is unsized. */
  lemma CoveredIff(p: Partition, cursor: int)
    ensures Covered(p, cursor) <==> WellFormed(p)
  {
    CursorMovesByExtent(p, cursor);
    NonNegativeIff(p, cursor);
    if p.Sectioned? { OneShare(UnsizedCount(p.sections), FreeSpace(p)); }
  }

  lemma OneShare(u: nat, free: int)
    ensures u * free == free <==> u == 1 || free == 0
  {
    assert u * free == free <==> (u - 1) * free == 0;
  }

  /** Without an unsized section, free space stays uncovered. */
  lemma UncoveredPartition()
    ensures var p := Sectioned("app", 10, [Section("code", Some(4))]);
            Regions(p, 0).0 == [Memory("app_code", 0, 4)] && Regions(p, 0).1 == 4 && !Covered(p, 0)
  {
    var code := Section("code", Some(4));
    var p := Sectioned("app", 10, [code]);
    assert SectionRegions(p, 0, 0).0 == [] && "app" + "_" + "code" == "app_code";
    assert SectionRegions(p, 1, 0).0 == [Memory("app_code", 0, 4)];
  }

  /** A sized section larger than its partition spills over, and the unsized one behind it has a negative size. */
  lemma SpilledPartition()
    ensures var p := Sectioned("app", 10, [Section("code", Some(15)), Section("data", None)]);
            && Regions(p, 0).0 == [Memory("app_code", 0, 15), Memory("app_data", 15, -5)]
            && Regions(p, 0).1 == 10 && !Covered(p, 0)
  {
    var code, data := Section("code", Some(15)), Section("data", None);
    var p := Sectioned("app", 10, [code, data]);
    assert [code, data][..1] == [code] && [code][..0] == [];
    assert SizedTotal([code]) == 15;
    assert FreeSpace(p) == -5;
    assert "app" + "_" + "code" == "app_code" && "app" + "_" + "data" == "app_data";
    assert SectionRegions(p, 1, 0).0 == [Memory("app_code", 0, 15)];
    assert Regions(p, 0).0[1].size == -5;
  }

  // ----- when a layout is safe

  function TotalExtent(partitions: seq<Partition>): (r: int) {
    if partitions == [] then 0
    else TotalExtent(partitions[..|partitions| - 1]) + Extent(partitions[|partitions| - 1])
  }

  predicate AllFit(partitions: seq<Partition>) {
    forall i | 0 <= i < |partitions| :: Fits(partitions[i])
  }

  lemma {:induction false} LayoutSizes(partitions: seq<Partition>, origin: int)
    ensures NonNegative(Layout(partitions, origin).0) <==> AllFit(partitions)
    ensures Layout(partitions, origin).1 == origin + TotalExtent(partitions)
  {
    if partitions != [] {
      var before, p := partitions[..|partitions| - 1], partitions[|partitions| - 1];
      LayoutSizes(before, origin);
      var (regions, at) := Layout(before, origin);
      CursorMovesByExtent(p, at);
      NonNegativeIff(p, at);
      NonNegativeSplits(regions, Regions(p, at).0);
      assert partitions == before + [p];
    }
  }

  predicate Inside(m: Memory, origin: int, size: int) {
    origin <= m.origin && m.origin + m.size <= origin + size
  }

  predicate Before(m: Memory, m': Memory) {
    m.origin + m.size <= m'.origin
  }

  /** The regions are ranges inside the flash, each after all earlier ones. */
  predicate Safe(regions: seq<Memory>, origin: int, flashSize: int) {
    && NonNegative(regions)
    && (forall i | 0 <= i < |regions| :: Inside(regions[i], origin, flashSize))
    && (forall i, j | 0 <= i < j < |regions| :: Before(regions[i], regions[j]))
  }

  lemma {:induction false} TilesInside(regions: seq<Memory>, start: int, end: int, i: nat, j: nat)
    requires Tiles(regions, start, end) && NonNegative(regions)
    requires i < j <= |regions|
    ensures Inside(regions[i], start, end - start)
    ensures j < |regions| ==> Before(regions[i], regions[j])
  {
    var init, last := regions[..|regions| - 1], regions[|regions| - 1];
    if i < |init| {
      TilesInside(init, start, last.origin, i, if j < |init| then j else |init|);
    } else {
      TilesOrdered(init, start, last.origin);
    }
  }

  lemma {:induction false} TilesOrdered(regions: seq<Memory>, start: int, end: int)
    requires Tiles(regions, start, end) && NonNegative(regions)
    ensures start <= end
  {
    if regions != [] { TilesOrdered(regions[..|regions| - 1], start, regions[|regions| - 1].origin); }
  }

  lemma TilesSafeIff(regions: seq<Memory>, origin: int, end: int, flashSize: nat)
    requires Tiles(regions, origin, end)
    ensures Safe(regions, origin, flashSize) <==> NonNegative(regions) && end <= origin + flashSize
  {
    if NonNegative(regions) && end <= origin + flashSize {
      forall i | 0 <= i < |regions|
        ensures Inside(regions[i], origin, flashSize)
      {
        TilesInside(regions, origin, end, i, |regions|);
      }
      forall i, j | 0 <= i < j < |regions|
        ensures Before(regions[i], regions[j])
      {
        TilesInside(regions, origin, end, i, j);
      }
    }
    if Safe(regions, origin, flashSize) && regions != [] {
      assert Inside(regions[|regions| - 1], origin, flashSize);
    }
  }

  /**
   * Exactly when a layout consists of disjoint ranges inside the flash: where a section takes the free space there
   * is some, and the extents, not the declared sizes, add up to no more than the flash.
   */
  lemma LayoutSafeIff(partitions: seq<Partition>, flashSize: nat, origin: int)
    ensures Safe(Layout(partitions, origin).0, origin, flashSize)
       <==> AllFit(partitions) && TotalExtent(partitions) <= flashSize
  {
    var (regions, end) := Layout(partitions, origin);
    LayoutTiles(partitions, origin);
    LayoutSizes(partitions, origin);
    TilesSafeIff(regions, origin, end, flashSize);
  }

  predicate AllWellFormed(partitions: seq<Partition>) {
    forall i | 0 <= i < |partitions| :: WellFormed(partitions[i])
  }

  lemma {:induction false} WellFormedExtent(partitions: seq<Partition>)
    requires AllWellFormed(partitions)
    ensures AllFit(partitions) && TotalExtent(partitions) == TotalSize(partitions)
  {
    if partitions != [] {
      var p := partitions[|partitions| - 1];
      WellFormedExtent(partitions[..|partitions| - 1]);
      CoveredIff(p, 0);
      CursorMovesByExtent(p, 0);
      NonNegativeIff(p, 0);
    }
  }

  /** With well-formed partitions, the check on the declared sizes decides whether the layout is safe. */
  lemma RegionsAreDisjoint(partitions: seq<Partition>, flashSize: nat, origin: int)
    requires AllWellFormed(partitions)
    ensures Safe(Layout(partitions, origin).0, origin, flashSize) <==> TotalSize(partitions) <= flashSize
  {
    WellFormedExtent(partitions);
    LayoutSafeIff(partitions, flashSize, origin);
  }

  /** Two unsized sections share the free space twice: the sizes pass the check and the second one leaves the flash. */
  lemma LayoutLeavesFlash()
    ensures var p := Sectioned("app", 10, [Section("a", None), Section("b", None)]);
            && TotalSize([p]) <= 10
            && Layout([p], 0).0 == [Memory("app_a", 0, 10), Memory("app_b", 10, 10)]
            && !Safe(Layout([p], 0).0, 0, 10)
  {
    var a, b := Section("a", None), Section("b", None);
    var p := Sectioned("app", 10, [a, b]);
    assert [a, b][..1] == [a] && [a][..0] == [] && [p][..0] == [];
    assert SizedTotal([a]) == 0;
    assert FreeSpace(p) == 10;
    assert "app" + "_" + "a" == "app_a" && "app" + "_" + "b" == "app_b";
    assert SectionRegions(p, 1, 0).0 == [Memory("app_a", 0, 10)];
    assert Layout([], 0) == ([], 0);
    assert Layout([p], 0).0 == Regions(p, 0).0;
    assert !Inside(Layout([p], 0).0[1], 0, 10);
  }

  /** Each partition occupies exactly its own range, right after the ones before it. */
  lemma PartitionIsCovered(partitions: seq<Partition>, origin: int, k: nat)
    requires k < |partitions| && AllWellFormed(partitions)
    ensures var start := origin + TotalSize(partitions[..k]);
            && Layout(partitions[..k], origin).1 == start
            && Layout(partitions[..k + 1], origin).0
               == Layout(partitions[..k], origin).0 + Regions(partitions[k], start).0
            && Tiles(Regions(partitions[k], start).0, start, start + partitions[k].size)
  {
    WellFormedExtent(partitions[..k]);
    LayoutSizes(partitions[..k], origin);
    assert partitions[..k + 1][..k] == partitions[..k];
    var start := origin + TotalSize(partitions[..k]);
    PartitionTiles(partitions[k], start);
    CoveredIff(partitions[k], start);
  }
}
