/** Guest memory regions: the descriptor chain of `createGMR`, the device that reads it, and the page
    list of `createGMR2`. */
module Gmr {
  import opened Returns
  import opened Words

  const PAGE_SIZE: nat := 4096
  /** Descriptors on one page, and how many of them describe memory: the last is kept for the link. */
  const PER_PAGE: nat := 512
  const DPP: nat := 511
  /** First address whose page number does not fit 32 bits. */
  const ADDRESS_LIMIT: nat := 0x1000_0000_0000

  // ----- memory descriptors -----

  /** A physically contiguous piece of a memory descriptor. */
  datatype Segment = Segment(addr: nat, length: nat)

  /** `getPhysicalSegment`: the rest of the segment at `offset`; past the end the address is 0. */
  function PhysicalSegment(md: seq<Segment>, offset: nat): Segment {
    if md == [] then Segment(0, 0)
    else if offset < md[0].length then Segment(md[0].addr + offset, md[0].length - offset)
    else PhysicalSegment(md[1..], offset - md[0].length)
  }

  ghost predicate NonEmpty(md: seq<Segment>) {
    forall j | 0 <= j < |md| :: md[j].length > 0
  }

  /** `getLength`. */
  function Length(md: seq<Segment>): nat {
    if md == [] then 0 else Length(md[..|md| - 1]) + md[|md| - 1].length
  }

  lemma {:induction false} SegmentAt(md: seq<Segment>, j: nat)
    requires NonEmpty(md) && j <= |md|
    ensures PhysicalSegment(md, Length(md[..j])) == if j < |md| then md[j] else Segment(0, 0)
  {
    if j > 0 {
      SegmentAt(md[1..], j - 1);
      LengthFront(md[..j]);
      assert md[..j][1..] == md[1..][..j - 1];
    }
  }

  lemma {:induction false} LengthFront(md: seq<Segment>)
    requires md != []
    ensures Length(md) == md[0].length + Length(md[1..])
  {
    if |md| > 1 {
      LengthFront(md[..|md| - 1]);
      assert md[..|md| - 1][1..] == md[1..][..|md| - 2];
    } else {
      assert md[..0] == [] && md[1..] == [];
    }
  }

  /** The loops stop at the first segment whose address reads as 0. */
  function Seen(md: seq<Segment>): (s: seq<Segment>)
    ensures s <= md
    ensures forall j | 0 <= j < |s| :: s[j].addr != 0
    ensures |s| < |md| ==> md[|s|].addr == 0
  {
    if md == [] || md[0].addr == 0 then [] else [md[0]] + Seen(md[1..])
  }

  // ----- what the device reads -----

  datatype Descriptor = Descriptor(ppn: Word, numPages: Word)

  /** Consecutive pages of guest memory. */
  datatype Range = Range(ppn: nat, numPages: nat)

  function Find(ppns: seq<nat>, ppn: nat): (p: Option<nat>)
    ensures p.Some? ==> p.value < |ppns| && ppns[p.value] == ppn
    ensures p.None? ==> ppn !in ppns
  {
    if ppns == [] then None
    else if ppns[0] == ppn then Some(0)
    else match Find(ppns[1..], ppn)
         case None => None
         case Some(p) => Some(p + 1)
  }

  /** The device's reading of a descriptor table: `table` holds the pages of descriptors, and page `p` of
      it lies at physical page ppns[p]. It reads entry `i` of page `ppn`, and at most `budget` entries.
      An entry ends the list, adds a range, or links to another page; the device never moves on to the
      next page by itself. */
  function Decode(ppns: seq<nat>, table: seq<Descriptor>, ppn: nat, i: nat, budget: nat): Option<seq<Range>>
    decreases budget
  {
    var page := Find(ppns, ppn);
    if budget == 0 || page.None? || i >= PER_PAGE || PER_PAGE * page.value + i >= |table| then None
    else
      var d := table[PER_PAGE * page.value + i];
      if d.ppn == 0 then
        if d.numPages == 0 then Some([]) else None
      else if d.numPages == 0 then Decode(ppns, table, d.ppn, 0, budget - 1)
      else
        match Decode(ppns, table, ppn, i + 1, budget - 1)
        case None => None
        case Some(rest) => Some([Range(d.ppn, d.numPages)] + rest)
  }

  // ----- the table for a list of ranges -----

  /** Entry `i` of page `p` of the table. */
  function Entry(ppns: seq<nat>, ranges: seq<Range>, p: nat, i: nat): Range {
    if i < DPP then
      if DPP * p + i < |ranges| then ranges[DPP * p + i] else Range(0, 0)
    else if p + 1 < |ppns| then Range(ppns[p + 1], 0)
    else Range(0, 0)
  }

  ghost predicate EntryOk(ppns: seq<nat>, table: seq<Descriptor>, ranges: seq<Range>, p: nat, i: nat) {
    && PER_PAGE * p + i < |table|
    && Range(table[PER_PAGE * p + i].ppn, table[PER_PAGE * p + i].numPages) == Entry(ppns, ranges, p, i)
  }

  /** Ranges in order, 511 a page; every page but the last links to the next; all else is zero. */
  ghost predicate TableOk(ppns: seq<nat>, table: seq<Descriptor>, ranges: seq<Range>) {
    && |table| == PER_PAGE * |ppns|
    && |ppns| == (|ranges| + DPP - 1) / DPP
    && (forall p | 0 <= p < |ppns| :: ppns[p] != 0)
    && (forall p, q | 0 <= p < q < |ppns| :: ppns[p] != ppns[q])
    && forall p: nat, i: nat | p < |ppns| && i < PER_PAGE :: EntryOk(ppns, table, ranges, p, i)
  }

  lemma {:induction false} FindAt(ppns: seq<nat>, p: nat)
    requires forall p, q | 0 <= p < q < |ppns| :: ppns[p] != ppns[q]
    requires p < |ppns|
    ensures Find(ppns, ppns[p]) == Some(p)
  {
    if p > 0 {
      FindAt(ppns[1..], p - 1);
      assert ppns[1..][p - 1] == ppns[p];
    }
  }

  /** Entries the device still has to read once it stands at entry `i` of page `p`: the ranges that are
      left, the links that are left, and the terminator. */
  function ToRead(ppns: seq<nat>, ranges: seq<Range>, p: nat, i: nat): int {
    |ranges| - (DPP * p + i) + |ppns| - p
  }

  ghost predicate NoneEmpty(ranges: seq<Range>) {
    forall j | 0 <= j < |ranges| :: ranges[j].numPages > 0
  }

  ghost predicate NoneZero(ranges: seq<Range>, from: nat) {
    forall j | from <= j < |ranges| :: ranges[j].ppn != 0
  }

  lemma TableAt(ppns: seq<nat>, table: seq<Descriptor>, ranges: seq<Range>, p: nat, i: nat)
    requires TableOk(ppns, table, ranges) && p < |ppns| && i < PER_PAGE
    ensures Find(ppns, ppns[p]) == Some(p) && EntryOk(ppns, table, ranges, p, i)
    ensures DPP * (|ppns| - 1) < |ranges| <= DPP * |ppns| && forall q | 0 <= q < |ppns| :: ppns[q] != 0
  {
    FindAt(ppns, p);
  }

  lemma {:induction false} DecodeFrom(ppns: seq<nat>, table: seq<Descriptor>, ranges: seq<Range>, p: nat, i: nat, budget: nat)
    requires TableOk(ppns, table, ranges) && NoneEmpty(ranges) && p < |ppns| && i <= DPP && DPP * p + i <= |ranges|
    ensures Decode(ppns, table, ppns[p], i, budget) ==
            if NoneZero(ranges, DPP * p + i) && budget >= ToRead(ppns, ranges, p, i) then Some(ranges[DPP * p + i..]) else None
    decreases |ranges| - (DPP * p + i), |ppns| - p
  {
    hide TableOk;
    TableAt(ppns, table, ranges, p, i);
    var j := DPP * p + i;
    if budget > 0 {
      if i < DPP && j < |ranges| {
        if ranges[j].ppn != 0 {
          DecodeFrom(ppns, table, ranges, p, i + 1, budget - 1);
          assert ranges[j..] == [ranges[j]] + ranges[j + 1..];
        }
      } else if i == DPP && p + 1 < |ppns| {
        DecodeFrom(ppns, table, ranges, p + 1, 0, budget - 1);
      } else {
        assert j == |ranges|;
        assert ranges[j..] == [];
      }
    }
  }

  /** Reading the table back gives exactly the ranges, in order, if no range begins at page 0; and the
      device reads as many entries as there are ranges and pages of table, not one more or less. */
  lemma RoundTrip(ppns: seq<nat>, table: seq<Descriptor>, ranges: seq<Range>, budget: nat)
    requires TableOk(ppns, table, ranges) && NoneEmpty(ranges) && ranges != []
    ensures Decode(ppns, table, ppns[0], 0, budget) ==
            if NoneZero(ranges, 0) && budget >= |ranges| + |ppns| then Some(ranges) else None
  {
    DecodeFrom(ppns, table, ranges, 0, 0, budget);
  }

  // ----- createGMR -----

  function PagesFor(x: nat): (n: nat)
    ensures x <= PAGE_SIZE * n < x + PAGE_SIZE
  {
    (x + PAGE_SIZE - 1) / PAGE_SIZE
  }

  /** The pages a segment touches. */
  function RangeOf(s: Segment): Range {
    Range(s.addr / PAGE_SIZE, PagesFor(s.addr % PAGE_SIZE + s.length))
  }

  function Ranges(md: seq<Segment>): (r: seq<Range>)
    ensures |r| == |md| && forall j | 0 <= j < |md| :: r[j] == RangeOf(md[j])
  {
    seq(|md|, j requires 0 <= j < |md| => RangeOf(md[j]))
  }

  /** What the two 32-bit fields of a descriptor keep of it. */
  function StoredRange(s: Segment): Range {
    Range(RangeOf(s).ppn % WORD_LIMIT, RangeOf(s).numPages % WORD_LIMIT)
  }

  function Stored(md: seq<Segment>): (r: seq<Range>)
    ensures |r| == |md| && forall j | 0 <= j < |md| :: r[j] == StoredRange(md[j])
  {
    seq(|md|, j requires 0 <= j < |md| => StoredRange(md[j]))
  }

  function PpnOf(helper: seq<Segment>, p: nat): nat {
    PhysicalSegment(helper, PAGE_SIZE * p).addr / PAGE_SIZE
  }

  /** The physical pages of a buffer of `pages` pages, in order. */
  function Ppns(helper: seq<Segment>, pages: nat): (r: seq<nat>)
    ensures |r| == pages && forall p | 0 <= p < pages :: r[p] == PpnOf(helper, p)
  {
    seq(pages, p requires 0 <= p < pages => PpnOf(helper, p))
  }

  ghost predicate WholePages(md: seq<Segment>) {
    forall j | 0 <= j < |md| ::
      && md[j].addr % PAGE_SIZE == 0 && md[j].length % PAGE_SIZE == 0 && md[j].length > 0
      && 0 < md[j].addr && md[j].addr + md[j].length <= ADDRESS_LIMIT
  }

  /** What `IOBufferMemoryDescriptor::inTaskWithPhysicalMask` hands out: `pages` whole pages, somewhere in
      physical memory, in pieces of any number; no page twice, and not page 0. */
  ghost predicate GoodHelper(helper: seq<Segment>, pages: nat) {
    && WholePages(helper)
    && Length(helper) == PAGE_SIZE * pages
    && (forall p, q | 0 <= p < q < pages :: PpnOf(helper, p) != PpnOf(helper, q))
  }

  /** What one piece of the helper says about the page at its front and the page behind that. */
  lemma {:induction false} HelperPage(helper: seq<Segment>, pages: nat, p: nat)
    requires WholePages(helper)
    requires Length(helper) == PAGE_SIZE * pages && p < pages
    ensures var s := PhysicalSegment(helper, PAGE_SIZE * p);
            && s.addr % PAGE_SIZE == 0 && s.length % PAGE_SIZE == 0 && s.length >= PAGE_SIZE
            && 0 < s.addr && s.addr + s.length <= ADDRESS_LIMIT && p + s.length / PAGE_SIZE <= pages
            && (s.length > PAGE_SIZE ==>
                  PhysicalSegment(helper, PAGE_SIZE * (p + 1)) == Segment(s.addr + PAGE_SIZE, s.length - PAGE_SIZE))
  {
    LengthFront(helper);
    var n := helper[0].length / PAGE_SIZE;
    if p >= n {
      HelperPage(helper[1..], pages - n, p - n);
      assert PAGE_SIZE * p - helper[0].length == PAGE_SIZE * (p - n);
      assert PAGE_SIZE * (p + 1) - helper[0].length == PAGE_SIZE * (p - n + 1);
    }
  }

  /** The loops over `md` have come to segment `j`. */
  ghost predicate Cursor(md: seq<Segment>, j: nat, offset: nat, segment: Segment) {
    j <= |Seen(md)| && offset == Length(md[..j]) && segment == if j < |md| then md[j] else Segment(0, 0)
  }

  lemma CursorStart(md: seq<Segment>)
    requires NonEmpty(md)
    ensures Cursor(md, 0, 0, PhysicalSegment(md, 0))
  {
    SegmentAt(md, 0);
  }

  lemma CursorStep(md: seq<Segment>, j: nat, offset: nat, segment: Segment)
    requires NonEmpty(md) && Cursor(md, j, offset, segment)
    ensures segment.addr == 0 <==> j == |Seen(md)|
    ensures segment.addr != 0 ==> j < |Seen(md)| && segment == Seen(md)[j] == md[j]
    ensures segment.addr != 0 ==> Cursor(md, j + 1, offset + segment.length, PhysicalSegment(md, offset + segment.length))
  {
    if segment.addr != 0 {
      assert md[..j + 1][..j] == md[..j];
      SegmentAt(md, j + 1);
    }
  }

  /** The first pass of `createGMR`: how many segments there are, unless one lies too high. */
  method CountRanges(md: seq<Segment>) returns (fits: bool, count: nat)
    requires NonEmpty(md)
    ensures fits <==> forall j | 0 <= j < |Seen(md)| :: md[j].addr < ADDRESS_LIMIT
    ensures fits ==> count == |Seen(md)|
  {
    hide Length, PhysicalSegment;
    CursorStart(md);
    count := 0;
    var offset: nat, segment := 0, PhysicalSegment(md, 0);
    while segment.addr != 0
      invariant Cursor(md, count, offset, segment)
      invariant forall j | 0 <= j < count :: md[j].addr < ADDRESS_LIMIT
      decreases |md| - count
    {
      CursorStep(md, count, offset, segment);
      if segment.addr >= ADDRESS_LIMIT {
        return false, count;
      }
      count := count + 1;
      offset := offset + segment.length;
      segment := PhysicalSegment(md, offset);
    }
    CursorStep(md, count, offset, segment);
    fits := true;
  }

  /** How far the second pass has come: everything before entry `i` of page `p` is written. */
  ghost predicate Written(ppns: seq<nat>, table: seq<Descriptor>, ranges: seq<Range>, p: nat, i: nat) {
    && |table| == PER_PAGE * |ppns|
    && forall q: nat, k: nat | q < |ppns| && k < PER_PAGE :: WrittenEntry(ppns, table, ranges, p, i, q, k)
  }

  ghost predicate WrittenEntry(ppns: seq<nat>, table: seq<Descriptor>, ranges: seq<Range>, p: nat, i: nat, q: nat, k: nat)
    requires PER_PAGE * q + k < |table|
  {
    if q < p || (q == p && k < i) then EntryOk(ppns, table, ranges, q, k)
    else table[PER_PAGE * q + k] == Descriptor(0, 0)
  }

  lemma WrittenStep(ppns: seq<nat>, table: seq<Descriptor>, ranges: seq<Range>, p: nat, i: nat, d: Descriptor)
    requires Written(ppns, table, ranges, p, i) && p < |ppns| && i < PER_PAGE
    requires Range(d.ppn, d.numPages) == Entry(ppns, ranges, p, i)
    ensures Written(ppns, table[PER_PAGE * p + i := d], ranges, p, i + 1)
  {
    var table', i' := table[PER_PAGE * p + i := d], i + 1;
    forall q: nat, k: nat | q < |ppns| && k < PER_PAGE
      ensures WrittenEntry(ppns, table', ranges, p, i', q, k)
    {
      if q == p && k == i {
        assert PER_PAGE * q + k == PER_PAGE * p + i;
      } else {
        assert PER_PAGE * q + k != PER_PAGE * p + i;
        assert WrittenEntry(ppns, table, ranges, p, i, q, k);
      }
    }
  }

  /** The next page begins where this one ends. */
  lemma WrittenPage(ppns: seq<nat>, table: seq<Descriptor>, ranges: seq<Range>, p: nat)
    requires Written(ppns, table, ranges, p, PER_PAGE)
    ensures Written(ppns, table, ranges, p + 1, 0)
  {
    var p' := p + 1;
    forall q: nat, k: nat | q < |ppns| && k < PER_PAGE
      ensures WrittenEntry(ppns, table, ranges, p', 0, q, k)
    {
      assert WrittenEntry(ppns, table, ranges, p, PER_PAGE, q, k);
    }
  }

  /** When all ranges are written the zeros that are left are what belongs there. */
  lemma WrittenAll(ppns: seq<nat>, table: seq<Descriptor>, ranges: seq<Range>, p: nat, i: nat)
    requires Written(ppns, table, ranges, p, i) && p + 1 == |ppns| && i <= DPP && DPP * p + i == |ranges|
    ensures forall q: nat, k: nat | q < |ppns| && k < PER_PAGE :: EntryOk(ppns, table, ranges, q, k)
  {
    forall q: nat, k: nat | q < |ppns| && k < PER_PAGE
      ensures EntryOk(ppns, table, ranges, q, k)
    {
      assert WrittenEntry(ppns, table, ranges, p, i, q, k);
    }
  }

  // ----- the second pass -----

  /** `helper_ppn` and `helper_length` once page `p` of the helper is in use: the page number after it,
      and what follows it in the same piece. */
  ghost predicate Ahead(helper: seq<Segment>, p: nat, helperPpn: int, helperLength: int) {
    && helperPpn == PpnOf(helper, p) + 1
    && helperLength == PhysicalSegment(helper, PAGE_SIZE * p).length - PAGE_SIZE
  }

  /** Where the next page of the helper lies, whether or not it continues the same piece; 0 once there is
      no further page. */
  method NextHelperPage(helper: seq<Segment>, pages: nat, nextPage: nat, helperPpn: nat, helperLength: int)
    returns (more: bool, ppn: nat, length: int)
    requires GoodHelper(helper, pages) && 0 < nextPage <= pages && Ahead(helper, nextPage - 1, helperPpn, helperLength)
    ensures more <==> nextPage < pages
    ensures more ==> ppn == PpnOf(helper, nextPage) && 0 < ppn < WORD_LIMIT && Ahead(helper, nextPage, ppn + 1, length)
  {
    HelperPage(helper, pages, nextPage - 1);
    ppn, length := helperPpn, helperLength;
    if helperLength > 0 {
      // the same piece goes on
    } else if nextPage < pages {
      var segment := PhysicalSegment(helper, PAGE_SIZE * nextPage);
      ppn, length := segment.addr / PAGE_SIZE, segment.length;
    } else {
      return false, ppn, length;
    }
    HelperPage(helper, pages, nextPage);
    more := true;
    length := length - PAGE_SIZE;
  }

  method PutRange(table: array<Descriptor>, helperPtr: nat, segment: Segment,
                  ghost ppns: seq<nat>, ghost ranges: seq<Range>, ghost p: nat, ghost i: nat)
    requires Written(ppns, table[..], ranges, p, i) && p < |ppns| && i < DPP && DPP * p + i < |ranges|
    requires helperPtr == PER_PAGE * p + i && ranges[DPP * p + i] == StoredRange(segment)
    modifies table
    ensures Written(ppns, table[..], ranges, p, i + 1)
  {
    ghost var was := table[..];
    var length := PagesFor(segment.addr % PAGE_SIZE + segment.length) * PAGE_SIZE;
    table[helperPtr] := Descriptor(segment.addr / PAGE_SIZE % WORD_LIMIT, length / PAGE_SIZE % WORD_LIMIT);
    assert table[..] == was[helperPtr := table[helperPtr]];
    WrittenStep(ppns, was, ranges, p, i, table[helperPtr]);
  }

  /** Links page `p` of the table, which is full, to the next one. */
  method PutLink(table: array<Descriptor>, helperPtr: nat, ppn: Word,
                 ghost ppns: seq<nat>, ghost ranges: seq<Range>, ghost p: nat)
    requires Written(ppns, table[..], ranges, p, DPP) && p + 1 < |ppns| && ppn == ppns[p + 1]
    requires helperPtr == PER_PAGE * p + DPP
    modifies table
    ensures Written(ppns, table[..], ranges, p + 1, 0)
  {
    ghost var was := table[..];
    assert WrittenEntry(ppns, was, ranges, p, DPP, p, DPP);
    table[helperPtr] := table[helperPtr].(ppn := ppn);
    assert table[..] == was[helperPtr := table[helperPtr]];
    WrittenStep(ppns, was, ranges, p, DPP, table[helperPtr]);
    WrittenPage(ppns, table[..], ranges, p);
  }

  /** The second pass of `createGMR`: writes the segments into the helper, page after page. */
  method WriteTable(md: seq<Segment>, helper: seq<Segment>, pages: nat, table: array<Descriptor>) returns (base: nat)
    requires NonEmpty(md) && |Seen(md)| > 0 && pages == (|Seen(md)| + DPP - 1) / DPP && GoodHelper(helper, pages)
    requires table.Length == PER_PAGE * pages && forall e | 0 <= e < table.Length :: table[e] == Descriptor(0, 0)
    modifies table
    ensures base == PpnOf(helper, 0)
    ensures forall p: nat, i: nat | p < pages && i < PER_PAGE ::
              EntryOk(Ppns(helper, pages), table[..], Stored(Seen(md)), p, i)
  {
    hide NonEmpty, GoodHelper, Written, Ahead, EntryOk, Entry, PhysicalSegment, Cursor, Seen, Stored, Ppns, StoredRange;
    ghost var ppns, ranges, n := Ppns(helper, pages), Stored(Seen(md)), |Seen(md)|;
    var helperPpn, helperLength;
    base, helperPpn, helperLength := FirstHelperPage(helper, pages);
    WrittenNone(ppns, table[..], ranges);
    var helperPtr, nextPage, inPageCount := 0, 1, DPP;
    ghost var j := 0;
    CursorStart(md);
    var offset: nat, segment := 0, PhysicalSegment(md, 0);
    while segment.addr != 0
      invariant j <= n && Cursor(md, j, offset, segment)
      invariant 1 <= nextPage <= pages && 0 < inPageCount <= DPP
      invariant helperPtr == PER_PAGE * (nextPage - 1) + (DPP - inPageCount)
      invariant j == DPP * (nextPage - 1) + (DPP - inPageCount)
      invariant Ahead(helper, nextPage - 1, helperPpn, helperLength)
      invariant Written(ppns, table[..], ranges, nextPage - 1, DPP - inPageCount)
      decreases n - j
    {
      CursorStep(md, j, offset, segment);
      PutRange(table, helperPtr, segment, ppns, ranges, nextPage - 1, DPP - inPageCount);
      offset := offset + segment.length;
      j := j + 1;
      segment := PhysicalSegment(md, offset);
      helperPtr := helperPtr + 1;
      inPageCount := inPageCount - 1;
      if inPageCount > 0 {
        continue;
      }
      var more, ppn, left := NextHelperPage(helper, pages, nextPage, helperPpn, helperLength);
      if !more {
        break;
      }
      PutLink(table, helperPtr, ppn, ppns, ranges, nextPage - 1);
      helperPpn, helperLength := ppn + 1, left;
      helperPtr := PER_PAGE * nextPage;
      nextPage := nextPage + 1;
      inPageCount := DPP;
    }
    CursorStep(md, j, offset, segment);
    WrittenAll(ppns, table[..], ranges, nextPage - 1, DPP - inPageCount);
  }

  method FirstHelperPage(helper: seq<Segment>, pages: nat) returns (base: nat, helperPpn: nat, helperLength: int)
    requires GoodHelper(helper, pages) && pages > 0
    ensures base == PpnOf(helper, 0) && Ahead(helper, 0, helperPpn, helperLength)
  {
    var piece := PhysicalSegment(helper, 0);
    base := piece.addr / PAGE_SIZE;
    helperPpn, helperLength := base + 1, piece.length - PAGE_SIZE;
  }

  lemma WrittenNone(ppns: seq<nat>, table: seq<Descriptor>, ranges: seq<Range>)
    requires |table| == PER_PAGE * |ppns| && forall e | 0 <= e < |table| :: table[e] == Descriptor(0, 0)
    ensures Written(ppns, table, ranges, 0, 0)
  {
  }

  function TablePages(md: seq<Segment>): nat {
    (|Seen(md)| + DPP - 1) / DPP
  }

  /** No segment begins on physical page 0, and the numbers of all fit the fields of a descriptor. */
  ghost predicate Storable(md: seq<Segment>) {
    forall j | 0 <= j < |md| :: 0 < RangeOf(md[j]).ppn < WORD_LIMIT && RangeOf(md[j]).numPages < WORD_LIMIT
  }

  /** Whatever table the device reads, what it makes of it are ranges that fit the fields. */
  lemma {:induction false} DecodedFit(ppns: seq<nat>, table: seq<Descriptor>, ppn: nat, i: nat, budget: nat)
    ensures var r := Decode(ppns, table, ppn, i, budget);
            r.Some? ==> forall j | 0 <= j < |r.value| :: 0 < r.value[j].ppn < WORD_LIMIT && r.value[j].numPages < WORD_LIMIT
    decreases budget
  {
    if budget > 0 {
      DecodedFit(ppns, table, ppn, i + 1, budget - 1);
      var page := Find(ppns, ppn);
      if page.Some? && PER_PAGE * page.value + i < |table| {
        DecodedFit(ppns, table, table[PER_PAGE * page.value + i].ppn, 0, budget - 1);
      }
    }
  }

  /** With room for all its entries, the device reads the whole buffer back from the table exactly if no
      segment lies on physical page 0 and none is too long for a descriptor. */
  lemma ReadsBack(md: seq<Segment>, ppns: seq<nat>, table: seq<Descriptor>, budget: nat)
    requires TableOk(ppns, table, Stored(Seen(md))) && Seen(md) != [] && NonEmpty(md) && budget >= |Seen(md)| + |ppns|
    ensures Decode(ppns, table, ppns[0], 0, budget) == Some(Ranges(md)) <==> Storable(md)
  {
    hide Decode, TableOk, RangeOf, Stored, Seen;
    assert ppns != [] by { TablePagesSome(ppns, table, Stored(Seen(md))); }
    if Storable(md) {
      StorableIsStored(md);
      RoundTrip(ppns, table, Ranges(md), budget);
    } else {
      DecodedFit(ppns, table, ppns[0], 0, budget);
      hide Ranges;
      var j :| 0 <= j < |md| && !(0 < RangeOf(md[j]).ppn < WORD_LIMIT && RangeOf(md[j]).numPages < WORD_LIMIT);
      assert Ranges(md)[j] == RangeOf(md[j]);
    }
  }

  lemma TablePagesSome(ppns: seq<nat>, table: seq<Descriptor>, ranges: seq<Range>)
    requires TableOk(ppns, table, ranges) && ranges != []
    ensures ppns != []
  {
  }

  lemma StorableIsStored(md: seq<Segment>)
    requires NonEmpty(md) && Storable(md)
    ensures Seen(md) == md && Stored(md) == Ranges(md) && NoneEmpty(Ranges(md)) && NoneZero(Ranges(md), 0)
  {
    assert forall j | 0 <= j < |md| :: RangeOf(md[j]).ppn != 0 && md[j].addr != 0;
    assert Seen(md) == md;
    assert Stored(md) == Ranges(md);
  }

  /** What `createGMR` returns. `helper` is the memory that could be had for the table, `prepared` what wiring
      it returned. */
  ghost function CreateResult(md: seq<Segment>, hasGmr: bool, maxDescriptors: nat, helper: Option<seq<Segment>>,
                              prepared: IOReturn): IOReturn {
    if !hasGmr || exists j :: 0 <= j < |Seen(md)| && md[j].addr >= ADDRESS_LIMIT then Unsupported
    else if Seen(md) == [] then BadArgument
    else if |Seen(md)| + TablePages(md) > maxDescriptors || helper.None? then NoResources
    else prepared
  }

  /** It succeeds for a device with GMRs and a buffer that begins on a real page, lies low enough and does not
      take more descriptors than the device reads, links and terminator included. */
  lemma CreateSucceeds(md: seq<Segment>, hasGmr: bool, maxDescriptors: nat, helper: Option<seq<Segment>>, prepared: IOReturn)
    ensures CreateResult(md, hasGmr, maxDescriptors, helper, prepared) == Success <==>
            && hasGmr && (forall j | 0 <= j < |Seen(md)| :: md[j].addr < ADDRESS_LIMIT) && |Seen(md)| > 0
            && |Seen(md)| + (|Seen(md)| + 510) / 511 <= maxDescriptors && helper.Some? && prepared == Success
  {
  }

  /** `createGMR`. On success the device is given the page number `base`. */
  method CreateGMR(md: seq<Segment>, hasGmr: bool, maxDescriptors: nat, helper: Option<seq<Segment>>, prepared: IOReturn)
    returns (rc: IOReturn, table: array<Descriptor>, base: nat)
    requires NonEmpty(md)
    requires helper.Some? ==> GoodHelper(helper.value, TablePages(md))
    ensures rc == CreateResult(md, hasGmr, maxDescriptors, helper, prepared)
    ensures rc == Success <==>
              && hasGmr && (forall j | 0 <= j < |Seen(md)| :: md[j].addr < ADDRESS_LIMIT) && Seen(md) != []
              && |Seen(md)| + (|Seen(md)| + 510) / 511 <= maxDescriptors && helper.Some? && prepared == Success
    ensures !hasGmr || (exists j :: 0 <= j < |Seen(md)| && md[j].addr >= ADDRESS_LIMIT) ==> rc == Unsupported
    ensures hasGmr && Seen(md) == [] ==> rc == BadArgument
    ensures hasGmr && (forall j | 0 <= j < |Seen(md)| :: md[j].addr < ADDRESS_LIMIT) && Seen(md) != [] ==>
              rc == if |Seen(md)| + (|Seen(md)| + 510) / 511 > maxDescriptors || helper.None? then NoResources else prepared
    ensures rc == Success ==>
              var ppns := Ppns(helper.value, TablePages(md));
              && TableOk(ppns, table[..], Stored(Seen(md))) && base == ppns[0]
              && (Decode(ppns, table[..], base, 0, maxDescriptors) == Some(Ranges(md)) <==> Storable(md))
  {
    hide NonEmpty, GoodHelper, Decode, EntryOk, PpnOf;
    table, base := new Descriptor[0], 0;
    if !hasGmr {
      return Unsupported, table, base;
    }
    var fits, count := CountRanges(md);
    if !fits {
      return Unsupported, table, base;
    }
    if count == 0 {
      return BadArgument, table, base;
    }
    var pages := (count + (DPP - 1)) / DPP;
    if count + pages > maxDescriptors {
      return NoResources, table, base;
    }
    if helper.None? {
      return NoResources, table, base;
    }
    if prepared != Success {
      return prepared, table, base;
    }
    table := new Descriptor[PER_PAGE * pages](_ => Descriptor(0, 0));
    base := WriteTable(md, helper.value, pages, table);
    TableComplete(md, helper.value, table[..]);
    ReadsBack(md, Ppns(helper.value, pages), table[..], maxDescriptors);
    rc := Success;
  }

  lemma TableComplete(md: seq<Segment>, helper: seq<Segment>, table: seq<Descriptor>)
    requires Seen(md) != [] && GoodHelper(helper, TablePages(md)) && |table| == PER_PAGE * TablePages(md)
    requires forall p: nat, i: nat | p < TablePages(md) && i < PER_PAGE ::
               EntryOk(Ppns(helper, TablePages(md)), table, Stored(Seen(md)), p, i)
    ensures TableOk(Ppns(helper, TablePages(md)), table, Stored(Seen(md)))
  {
    hide EntryOk, PhysicalSegment;
    forall p: nat | p < TablePages(md)
      ensures PpnOf(helper, p) != 0
    {
      HelperPage(helper, TablePages(md), p);
    }
  }

  // ----- createGMR2 -----

  /** The page that physical address `a` lies on. */
  function PageNumber(a: nat): nat {
    a / PAGE_SIZE
  }

  /** The pages that hold the bytes of a segment, and of a whole buffer, in order. */
  function PagesFrom(ppn: nat, n: nat): (r: seq<nat>)
    ensures |r| == n && forall i | 0 <= i < n :: r[i] == ppn + i
  {
    seq(n, i => ppn + i)
  }

  function SegmentPages(s: Segment): seq<nat>
    requires s.length > 0
  {
    PagesFrom(s.addr / PAGE_SIZE, (s.addr + s.length - 1) / PAGE_SIZE - s.addr / PAGE_SIZE + 1)
  }

  /** They are the pages that some byte of the segment lies on, and no others. */
  lemma PagesOfBytes(s: Segment, p: nat)
    requires s.length > 0
    ensures p in SegmentPages(s) <==> exists a: nat :: s.addr <= a < s.addr + s.length && PageNumber(a) == p
  {
    var first, last := s.addr / PAGE_SIZE, (s.addr + s.length - 1) / PAGE_SIZE;
    if first <= p <= last {
      assert SegmentPages(s)[p - first] == p;
      var a := if p == first then s.addr else PAGE_SIZE * p;
      assert PageNumber(a) == p;
    }
  }

  function BufferPages(md: seq<Segment>): seq<nat>
    requires NonEmpty(md)
  {
    if md == [] then [] else BufferPages(md[..|md| - 1]) + SegmentPages(md[|md| - 1])
  }

  /** The guest page numbers that a list of ranges stands for. */
  function Expand(ranges: seq<Range>): seq<nat> {
    if ranges == [] then []
    else Expand(ranges[..|ranges| - 1]) + PagesFrom(ranges[|ranges| - 1].ppn, ranges[|ranges| - 1].numPages)
  }

  lemma TouchedPages(s: Segment)
    requires s.length > 0
    ensures PagesFrom(RangeOf(s).ppn, RangeOf(s).numPages) == SegmentPages(s)
  {
    var q, r := s.addr / PAGE_SIZE, s.addr % PAGE_SIZE;
    assert s.addr == PAGE_SIZE * q + r;
    assert (s.addr + s.length - 1) / PAGE_SIZE == q + (r + s.length - 1) / PAGE_SIZE;
  }

  /** What a list of 32-bit page numbers keeps of them. */
  function Low(pages: seq<nat>): (r: seq<Word>)
    ensures |r| == |pages| && forall i | 0 <= i < |pages| :: r[i] == pages[i] % WORD_LIMIT
  {
    seq(|pages|, i requires 0 <= i < |pages| => pages[i] % WORD_LIMIT)
  }

  lemma LowSame(pages: seq<nat>)
    requires forall p | p in pages :: p < WORD_LIMIT
    ensures Low(pages) == pages
  {
    forall i | 0 <= i < |pages|
      ensures Low(pages)[i] == pages[i]
    {
      assert pages[i] in pages;
    }
  }

  /** Both encoders describe the same pages: the table of `createGMR`, page by page, is the list of
      `createGMR2`. */
  lemma {:induction false} EncodersAgree(md: seq<Segment>)
    requires NonEmpty(md)
    ensures Expand(Ranges(md)) == BufferPages(md)
  {
    if md != [] {
      var front := md[..|md| - 1];
      EncodersAgree(front);
      assert Ranges(md)[..|md| - 1] == Ranges(front);
      TouchedPages(md[|md| - 1]);
    }
  }

  /** Bytes of the described pages that are not bytes of the buffer. */
  function Waste(md: seq<Segment>): nat {
    if md == [] then 0
    else
      var s := md[|md| - 1];
      Waste(md[..|md| - 1]) + s.addr % PAGE_SIZE + (PAGE_SIZE - (s.addr + s.length) % PAGE_SIZE) % PAGE_SIZE
  }

  lemma RoundedUp(e: nat)
    requires e > 0
    ensures PAGE_SIZE * ((e - 1) / PAGE_SIZE + 1) == e + (PAGE_SIZE - e % PAGE_SIZE) % PAGE_SIZE
  {
  }

  lemma SegmentCovered(s: Segment)
    requires s.length > 0
    ensures PAGE_SIZE * |SegmentPages(s)| ==
            s.addr % PAGE_SIZE + s.length + (PAGE_SIZE - (s.addr + s.length) % PAGE_SIZE) % PAGE_SIZE
  {
    RoundedUp(s.addr + s.length);
  }

  lemma {:induction false} PagesCovered(md: seq<Segment>)
    requires NonEmpty(md)
    ensures PAGE_SIZE * |BufferPages(md)| == Length(md) + Waste(md)
  {
    hide SegmentPages;
    if md != [] {
      PagesCovered(md[..|md| - 1]);
      SegmentCovered(md[|md| - 1]);
    }
  }

  lemma PagesStep(md: seq<Segment>, j: nat)
    requires NonEmpty(md) && j < |md|
    ensures BufferPages(md[..j + 1]) == BufferPages(md[..j]) + SegmentPages(md[j])
  {
    assert md[..j + 1][..j] == md[..j];
  }

  /** The pages of a buffer are never fewer than the entries that `createGMR2` allocates for it, and exactly as
      many if and only if less than one page is wasted. */
  lemma ListFull(md: seq<Segment>)
    requires NonEmpty(md)
    ensures |BufferPages(md)| >= PagesFor(Length(md))
    ensures |BufferPages(md)| == PagesFor(Length(md)) <==> Waste(md) < PAGE_SIZE
  {
    PagesCovered(md);
  }

  /** The segments that the loop of `createGMR2` writes: up to the first that reads as 0 or lies too high. */
  function Visited(md: seq<Segment>): (v: seq<Segment>)
    ensures v <= md
    ensures forall j | 0 <= j < |v| :: 0 < v[j].addr < ADDRESS_LIMIT
    ensures |v| < |md| ==> md[|v|].addr == 0 || md[|v|].addr >= ADDRESS_LIMIT
  {
    if md == [] || md[0].addr == 0 || md[0].addr >= ADDRESS_LIMIT then [] else [md[0]] + Visited(md[1..])
  }

  /** What is written and wasted of the segments that are visited does not exceed what is allocated for all. */
  ghost predicate ListHolds(md: seq<Segment>) {
    Length(Visited(md)) + Waste(Visited(md)) <= PAGE_SIZE * PagesFor(Length(md))
  }

  /** The loop stays within the list that was allocated if and only if that is so. */
  lemma ListFits(md: seq<Segment>)
    requires NonEmpty(md)
    ensures |BufferPages(Visited(md))| <= PagesFor(Length(md)) <==> ListHolds(md)
    ensures Visited(md) == md ==> (ListHolds(md) <==> Waste(md) < PAGE_SIZE)
  {
    PagesCovered(Visited(md));
  }

  /** A segment that wastes half a page on address 0 is not visited, so it does no harm. */
  lemma UnvisitedWasteIsHarmless()
    ensures var md := [Segment(0x10000, 2048), Segment(0, 2048)];
            ListHolds(md) && Waste(md) >= PAGE_SIZE
  {
    var md := [Segment(0x10000, 2048), Segment(0, 2048)];
    assert md[..1] == [md[0]] && md[..1][..0] == [];
    assert Visited(md[1..]) == [];
    assert Visited(md) == md[..1];
    assert Length(md[..1]) == 2048 && Waste(md[..1]) == 2048;
  }

  /** All segments begin on page boundaries, and all but the last end on one. */
  ghost predicate PageAligned(md: seq<Segment>) {
    forall j | 0 <= j < |md| :: md[j].addr % PAGE_SIZE == 0 && (j + 1 < |md| ==> md[j].length % PAGE_SIZE == 0)
  }

  lemma {:induction false} AlignedWastesLittle(md: seq<Segment>)
    requires PageAligned(md)
    ensures Waste(md) < PAGE_SIZE
    ensures (forall j | 0 <= j < |md| :: md[j].length % PAGE_SIZE == 0) ==> Waste(md) == 0
  {
    if md != [] {
      var front := md[..|md| - 1];
      AlignedWastesLittle(front);
      assert forall j | 0 <= j < |front| :: front[j].length % PAGE_SIZE == 0;
    }
  }

  // ----- what the page list says about the bytes of the buffer -----

  /** Byte `x` of the buffer is where the list puts it: on page x / 4096 of the list, at the same offset. */
  ghost predicate InPlace(md: seq<Segment>, x: nat)
    requires NonEmpty(md)
  {
    && x / PAGE_SIZE < |BufferPages(md)|
    && BufferPages(md)[x / PAGE_SIZE] * PAGE_SIZE + x % PAGE_SIZE == PhysicalSegment(md, x).addr
  }

  lemma {:induction false} ByteInFront(md: seq<Segment>, x: nat)
    requires md != []
    ensures var front := md[..|md| - 1];
            if x < Length(front) then PhysicalSegment(md, x).addr == PhysicalSegment(front, x).addr
            else if x < Length(md) then PhysicalSegment(md, x).addr == md[|md| - 1].addr + x - Length(front)
            else true
  {
    var front := md[..|md| - 1];
    if |md| > 1 {
      LengthFront(md);
      LengthFront(front);
      assert front[1..] == md[1..][..|md| - 2];
      if x >= md[0].length {
        ByteInFront(md[1..], x - md[0].length);
      }
    }
  }

  lemma {:induction false} AlignedInPlace(md: seq<Segment>, x: nat)
    requires NonEmpty(md) && PageAligned(md) && x < Length(md)
    ensures InPlace(md, x)
  {
    var front, s := md[..|md| - 1], md[|md| - 1];
    ByteInFront(md, x);
    if x < Length(front) {
      AlignedInPlace(front, x);
    } else {
      AlignedWastesLittle(front);
      PagesCovered(front);
      assert forall j | 0 <= j < |front| :: front[j].length % PAGE_SIZE == 0;
      var d := x - Length(front);
      assert Length(front) == PAGE_SIZE * |BufferPages(front)|;
      assert s.addr == PAGE_SIZE * (s.addr / PAGE_SIZE);
      assert x / PAGE_SIZE == |BufferPages(front)| + d / PAGE_SIZE && x % PAGE_SIZE == d % PAGE_SIZE;
      assert (s.addr + s.length - 1) / PAGE_SIZE == s.addr / PAGE_SIZE + (s.length - 1) / PAGE_SIZE;
      assert BufferPages(md)[x / PAGE_SIZE] == SegmentPages(s)[d / PAGE_SIZE] == s.addr / PAGE_SIZE + d / PAGE_SIZE;
    }
  }

  lemma {:induction false} WasteOfTwo(md: seq<Segment>, j: nat)
    requires j + 1 < |md|
    ensures Waste(md) >= md[j + 1].addr % PAGE_SIZE + (PAGE_SIZE - (md[j].addr + md[j].length) % PAGE_SIZE) % PAGE_SIZE
  {
    if j + 2 < |md| {
      WasteOfTwo(md[..|md| - 1], j);
    }
  }

  /** A segment that begins where the length so far says begins on a page boundary if the one before does:
      otherwise both together waste a page. */
  lemma NextIsAligned(before: nat, s: Segment, addr: nat, page: nat, waste: nat)
    requires before % PAGE_SIZE == 0 && s.addr % PAGE_SIZE == 0 && waste < PAGE_SIZE
    requires page * PAGE_SIZE + (before + s.length) % PAGE_SIZE == addr
    requires waste >= addr % PAGE_SIZE + (PAGE_SIZE - (s.addr + s.length) % PAGE_SIZE) % PAGE_SIZE
    ensures s.length % PAGE_SIZE == 0 && addr % PAGE_SIZE == 0
  {
    var r := s.length % PAGE_SIZE;
    assert (before + s.length) % PAGE_SIZE == r && (s.addr + s.length) % PAGE_SIZE == r;
    assert addr % PAGE_SIZE == r;
  }

  lemma BeginsWhere(md: seq<Segment>, j: nat) returns (page: nat)
    requires NonEmpty(md) && j < |md| && forall x: nat | x < Length(md) :: InPlace(md, x)
    ensures page * PAGE_SIZE + Length(md[..j]) % PAGE_SIZE == md[j].addr
  {
    hide PhysicalSegment, BufferPages;
    var x := Length(md[..j]);
    SegmentAt(md, j);
    PrefixShorter(md, j);
    assert InPlace(md, x);
    page := BufferPages(md)[x / PAGE_SIZE];
  }

  lemma {:induction false} PlacedIsAligned(md: seq<Segment>, j: nat)
    requires NonEmpty(md) && Waste(md) < PAGE_SIZE && j < |md|
    requires forall x: nat | x < Length(md) :: InPlace(md, x)
    ensures md[j].addr % PAGE_SIZE == 0 && Length(md[..j]) % PAGE_SIZE == 0
    ensures j > 0 ==> md[j - 1].length % PAGE_SIZE == 0
  {
    var page := BeginsWhere(md, j);
    hide InPlace, Waste;
    if j > 0 {
      PlacedIsAligned(md, j - 1);
      WasteOfTwo(md, j - 1);
      assert md[..j][..j - 1] == md[..j - 1];
      assert Length(md[..j]) == Length(md[..j - 1]) + md[j - 1].length;
      hide Length;
      NextIsAligned(Length(md[..j - 1]), md[j - 1], md[j].addr, page, Waste(md));
    }
  }

  lemma {:induction false} PrefixShorter(md: seq<Segment>, j: nat)
    requires NonEmpty(md) && j < |md|
    ensures Length(md[..j]) < Length(md)
    decreases |md|
  {
    if j + 1 < |md| {
      PrefixShorter(md[..|md| - 1], j);
      assert md[..|md| - 1][..j] == md[..j];
    }
  }

  /** The list has one entry for each page of the length, and puts every byte of the buffer where it is, if
      and only if all segments begin on page boundaries and all but the last end on one. */
  lemma PageListExact(md: seq<Segment>)
    requires NonEmpty(md)
    ensures PageAligned(md) <==>
            |BufferPages(md)| == PagesFor(Length(md)) && forall x: nat | x < Length(md) :: InPlace(md, x)
  {
    ListFull(md);
    if PageAligned(md) {
      AlignedWastesLittle(md);
      forall x: nat | x < Length(md)
        ensures InPlace(md, x)
      {
        AlignedInPlace(md, x);
      }
    }
    if |BufferPages(md)| == PagesFor(Length(md)) && md != [] && forall x: nat | x < Length(md) :: InPlace(md, x) {
      forall j: nat | j < |md|
        ensures md[j].addr % PAGE_SIZE == 0 && (j + 1 < |md| ==> md[j].length % PAGE_SIZE == 0)
      {
        PlacedIsAligned(md, j);
        if j + 1 < |md| {
          PlacedIsAligned(md, j + 1);
        }
      }
    }
  }

  /** Half a page here and half a page there: one list entry is allocated and two are written. */
  lemma FragmentsOverrun()
    ensures var md := [Segment(0x10000, 2048), Segment(0x20000, 2048)];
            Visited(md) == md && PagesFor(Length(md)) == 1 && |BufferPages(md)| == 2
  {
    var md := [Segment(0x10000, 2048), Segment(0x20000, 2048)];
    assert md[..1] == [md[0]] && md[..1][..0] == [];
    assert Length(md[..1]) == 2048;
    assert |BufferPages(md[..1])| == 1;
    assert Visited(md[1..]) == md[1..];
  }

  lemma {:induction false} PagesOfPrefix(md: seq<Segment>, j: nat)
    requires NonEmpty(md) && j <= |md|
    ensures BufferPages(md[..j]) <= BufferPages(md)
    decreases |md|
  {
    if j < |md| {
      PagesOfPrefix(md[..|md| - 1], j);
      assert md[..|md| - 1][..j] == md[..j];
    } else {
      assert md[..j] == md;
    }
  }

  /** `createGMR2`, for buffers whose list is long enough if it comes to that. `hasMemory` says whether the list could be
      had, `defined` whether the device took the GMR. */
  method CreateGMR2(md: seq<Segment>, hasGmr2: bool, maxPages: nat, hasMemory: bool, defined: bool)
    returns (rc: IOReturn, ppnList: array<Word>)
    requires NonEmpty(md)
    requires hasGmr2 && hasMemory && PagesFor(Length(md)) <= maxPages ==> ListHolds(md)
    ensures rc == if !hasGmr2 then Unsupported
                  else if Length(md) == 0 then BadArgument
                  else if PagesFor(Length(md)) > maxPages then Unsupported
                  else if !hasMemory then NoMemory
                  else if exists j :: 0 <= j < |Seen(md)| && md[j].addr >= ADDRESS_LIMIT then Unsupported
                  else if !defined then DeviceError
                  else Success
    ensures rc == Success ==> ppnList.Length == PagesFor(Length(md)) && Low(BufferPages(Seen(md))) <= ppnList[..]
    ensures rc == Success && Seen(md) == md ==> ppnList[..] == Low(BufferPages(md))
    ensures rc == Success && Seen(md) == md && (forall p | p in BufferPages(md) :: p < WORD_LIMIT) ==>
              ppnList[..] == BufferPages(md)
  {
    hide BufferPages, Seen, Visited, Waste, PagesFrom;
    ppnList := new Word[0];
    if !hasGmr2 {
      return Unsupported, ppnList;
    }
    var numPages := (Length(md) + PAGE_SIZE - 1) / PAGE_SIZE;
    if numPages == 0 {
      return BadArgument, ppnList;
    }
    if numPages > maxPages {
      return Unsupported, ppnList;
    }
    if !hasMemory {
      return NoMemory, ppnList;
    }
    ppnList := new Word[numPages](_ => 0);
    ListFits(md);
    ListFull(md);
    var fits := ListPages(md, ppnList);
    if !fits {
      return Unsupported, ppnList;
    }
    if !defined {
      return DeviceError, ppnList;
    }
    if Seen(md) == md {
      assert Visited(md) == md;
    }
    if Seen(md) == md && forall p | p in BufferPages(md) :: p < WORD_LIMIT {
      LowSame(BufferPages(md));
    }
    rc := Success;
  }

  lemma NoPages()
    ensures BufferPages([]) == []
  {
  }

  /** The loop of `createGMR2`. */
  method ListPages(md: seq<Segment>, ppnList: array<Word>) returns (fits: bool)
    requires NonEmpty(md) && |BufferPages(Visited(md))| <= ppnList.Length
    modifies ppnList
    ensures fits <==> forall j | 0 <= j < |Seen(md)| :: md[j].addr < ADDRESS_LIMIT
    ensures fits ==> Low(BufferPages(Seen(md))) <= ppnList[..]
  {
    hide Length, PhysicalSegment, SegmentPages, Seen, Visited, BufferPages, Cursor;
    CursorStart(md);
    assert BufferPages(md[..0]) == [] by { NoPages(); }
    ghost var v := Visited(md);
    var offset: nat, segment := 0, PhysicalSegment(md, 0);
    var at: nat := 0;
    ghost var j := 0;
    while segment.addr != 0
      invariant Cursor(md, j, offset, segment) && j <= |v|
      invariant forall i | 0 <= i < j :: md[i].addr < ADDRESS_LIMIT
      invariant at <= |BufferPages(v)| && Low(BufferPages(md[..j])) == ppnList[..at]
      decreases |md| - j
    {
      CursorStep(md, j, offset, segment);
      if segment.addr >= ADDRESS_LIMIT {
        return false;
      }
      PagesOfPrefix(v, j + 1);
      PagesStep(md, j);
      assert v[..j + 1] == md[..j + 1];
      at := ListSegment(segment, ppnList, at, |BufferPages(v)|);
      offset := offset + segment.length;
      j := j + 1;
      segment := PhysicalSegment(md, offset);
    }
    CursorStep(md, j, offset, segment);
    assert md[..j] == Seen(md);
    fits := true;
  }

  method ListSegment(segment: Segment, ppnList: array<Word>, from: nat, ghost limit: nat) returns (at: nat)
    requires segment.length > 0
    requires from + |SegmentPages(segment)| <= limit <= ppnList.Length
    modifies ppnList
    ensures at == from + |SegmentPages(segment)|
    ensures ppnList[..at] == old(ppnList[..from]) + Low(SegmentPages(segment))
  {
    TouchedPages(segment);
    var length, ppn := PagesFor(segment.length + segment.addr % PAGE_SIZE), segment.addr / PAGE_SIZE;
    ghost var pages := SegmentPages(segment);
    at := from;
    while length > 0
      invariant at + length == from + |pages| && ppn == segment.addr / PAGE_SIZE + (at - from)
      invariant ppnList[..at] == old(ppnList[..from]) + Low(pages)[..at - from]
    {
      ppnList[at] := ppn % WORD_LIMIT;
      at := at + 1;
      ppn := ppn + 1;
      length := length - 1;
    }
  }
}
