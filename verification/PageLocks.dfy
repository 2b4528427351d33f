/** Stacking page locks (src/allocators.h): a count per page over overlapping ranges, so that
    the operating system, whose locks do not stack, is called on the first lock of a page and
    on its last unlock. */
module PageLocks {
  import opened Bits

  datatype Range = Range(base: nat, size: nat)

  datatype Call = Lock(page: nat) | Unlock(page: nat)

  const ADDRESSES := 0x1_0000_0000_0000_0000

  // ---------------------------------------------------------------- pages

  predicate Aligned(a: nat, pageSize: nat)
    requires pageSize > 0
  {
    a % pageSize == 0
  }

  /** The page of an address, by masking the low bits. */
  function PageOf(a: nat, pageSize: nat): (r: nat)
    requires pageSize > 0
    ensures r <= a
  {
    a - a % pageSize
  }

  lemma PageFacts(a: nat, pageSize: nat)
    requires pageSize > 0
    ensures Aligned(PageOf(a, pageSize), pageSize) && a < PageOf(a, pageSize) + pageSize
  {
    DivRem(PageOf(a, pageSize), pageSize, a / pageSize, 0);
  }

  /** No aligned address lies strictly inside a page. */
  lemma AlignedGap(a: nat, b: nat, pageSize: nat)
    requires pageSize > 0 && Aligned(a, pageSize) && Aligned(b, pageSize)
    ensures a < b + pageSize <==> a <= b
    ensures Aligned(b + pageSize, pageSize)
  {
    var m, n := a / pageSize, b / pageSize;
    assert a == m * pageSize && b == n * pageSize;
    assert (m - n) * pageSize == a - b;
    MulGrows(m - n, pageSize);
    DivRem(b + pageSize, pageSize, n + 1, 0);
  }

  /** Some byte of the range lies on the page at `a`. */
  predicate Touches(r: Range, a: nat, pageSize: nat) {
    r.size > 0 && r.base < a + pageSize && a < r.base + r.size
  }

  /** The pages a range touches are those from its first byte's to its last byte's. */
  lemma TouchedPages(r: Range, a: nat, pageSize: nat)
    requires pageSize > 0 && Aligned(a, pageSize) && r.size > 0
    ensures Touches(r, a, pageSize)
            <==> PageOf(r.base, pageSize) <= a <= PageOf(r.base + r.size - 1, pageSize)
  {
    hide Aligned, PageOf;
    var first, last := PageOf(r.base, pageSize), PageOf(r.base + r.size - 1, pageSize);
    PageFacts(r.base, pageSize);
    PageFacts(r.base + r.size - 1, pageSize);
    AlignedGap(a, last, pageSize);
    AlignedGap(first, a, pageSize);
  }

  /** How many of the ranges touch the page at `a`. */
  function Touching(live: seq<Range>, a: nat, pageSize: nat): (n: nat)
    ensures n <= |live|
  {
    if live == [] then 0
    else Touching(live[..|live| - 1], a, pageSize) + (if Touches(live[|live| - 1], a, pageSize) then 1 else 0)
  }

  function Without(live: seq<Range>, i: nat): seq<Range>
    requires i < |live|
  {
    live[..i] + live[i + 1..]
  }

  lemma {:induction false} TouchingWithout(live: seq<Range>, i: nat, a: nat, pageSize: nat)
    requires i < |live|
    ensures Touching(live, a, pageSize)
            == Touching(Without(live, i), a, pageSize) + (if Touches(live[i], a, pageSize) then 1 else 0)
  {
    var n := |live| - 1;
    if i < n {
      TouchingWithout(live[..n], i, a, pageSize);
      var w := Without(live, i);
      assert w[..n - 1] == Without(live[..n], i) && w[n - 1] == live[n];
    } else {
      assert Without(live, i) == live[..n];
    }
  }

  // ---------------------------------------------------------------- the operating system

  /** What a call does to the pages held: locks do not stack. */
  function Applied(held: set<nat>, c: Call): set<nat> {
    match c
    case Lock(page) => held + {page}
    case Unlock(page) => held - {page}
  }

  /** A lock finds its page unlocked, an unlock finds it locked. */
  predicate IsTransition(held: set<nat>, c: Call) {
    c.Lock? <==> c.page !in held
  }

  /** The pages the operating system holds. */
  function Held(calls: seq<Call>): set<nat> {
    if calls == [] then {} else Applied(Held(calls[..|calls| - 1]), calls[|calls| - 1])
  }

  predicate OnlyTransitions(calls: seq<Call>) {
    forall i :: 0 <= i < |calls| ==> IsTransition(Held(calls[..i]), calls[i])
  }

  lemma OneMoreCall(calls: seq<Call>, c: Call)
    requires OnlyTransitions(calls) && IsTransition(Held(calls), c)
    ensures OnlyTransitions(calls + [c]) && Held(calls + [c]) == Applied(Held(calls), c)
  {
    var more := calls + [c];
    assert more[..|calls|] == calls;
    assert forall i :: 0 <= i < |calls| ==> more[..i] == calls[..i];
  }

  // ---------------------------------------------------------------- the manager

  function CountAt(histogram: map<nat, int>, a: nat): int {
    if a in histogram then histogram[a] else 0
  }

  /** The histogram counts, for every page, the ranges that touch it. */
  ghost predicate Counts(histogram: map<nat, int>, live: seq<Range>, pageSize: nat)
    requires pageSize > 0
  {
    && (forall a :: a in histogram ==> histogram[a] > 0 && Aligned(a, pageSize))
    && (forall a: nat :: Aligned(a, pageSize) ==> CountAt(histogram, a) == Touching(live, a, pageSize))
  }

  /** Within a loop over the pages of `r`: those before `page` are `step` ahead of `live`. */
  ghost predicate CountsUpTo(histogram: map<nat, int>, live: seq<Range>, r: Range, page: nat, step: int, pageSize: nat)
    requires pageSize > 0
  {
    && (forall a :: a in histogram ==> histogram[a] > 0 && Aligned(a, pageSize))
    && (forall a: nat :: Aligned(a, pageSize) ==>
          CountAt(histogram, a)
          == Touching(live, a, pageSize) + (if a < page && Touches(r, a, pageSize) then step else 0))
  }

  /** The pages of a range end before the last page of the address space. Otherwise the loops
      would wrap around; see `LoopEnds`. */
  predicate Addressable(r: Range, pageSize: nat) {
    r.size == 0 || r.base + r.size + pageSize <= ADDRESSES
  }

  /** Counting one more page of the range. */
  lemma OneMorePage(h: map<nat, int>, h': map<nat, int>, live: seq<Range>, r: Range, page: nat, step: int,
                    pageSize: nat)
    requires pageSize > 0 && Aligned(page, pageSize) && Touches(r, page, pageSize)
    requires CountsUpTo(h, live, r, page, step, pageSize)
    requires CountAt(h', page) == CountAt(h, page) + step && (page in h' ==> h'[page] > 0)
    requires forall a :: a != page ==> (a in h' <==> a in h) && (a in h ==> h'[a] == h[a])
    ensures CountsUpTo(h', live, r, page + pageSize, step, pageSize)
  {
    hide Aligned, Touches, Touching;
    forall a: nat | Aligned(a, pageSize)
      ensures CountAt(h', a)
          == Touching(live, a, pageSize) + (if a < page + pageSize && Touches(r, a, pageSize) then step else 0)
    {
      AlignedGap(a, page, pageSize);
    }
  }

  lemma NoPageYet(h: map<nat, int>, live: seq<Range>, r: Range, step: int, pageSize: nat)
    requires pageSize > 0 && Counts(h, live, pageSize) && r.size > 0
    ensures CountsUpTo(h, live, r, PageOf(r.base, pageSize), step, pageSize)
  {
    hide Aligned, Touches, Touching, PageOf;
    forall a: nat | Aligned(a, pageSize) && a < PageOf(r.base, pageSize) ensures !Touches(r, a, pageSize) {
      TouchedPages(r, a, pageSize);
    }
  }

  lemma AllPagesUp(h: map<nat, int>, live: seq<Range>, r: Range, page: nat, pageSize: nat)
    requires pageSize > 0 && r.size > 0 && PageOf(r.base + r.size - 1, pageSize) < page
    requires CountsUpTo(h, live, r, page, 1, pageSize)
    ensures Counts(h, live + [r], pageSize)
  {
    hide Aligned, Touches, PageOf;
    assert (live + [r])[..|live|] == live;
    forall a: nat | Aligned(a, pageSize) ensures CountAt(h, a) == Touching(live + [r], a, pageSize) {
      TouchedPages(r, a, pageSize);
    }
  }

  lemma AllPagesDown(h: map<nat, int>, live: seq<Range>, i: nat, page: nat, pageSize: nat)
    requires pageSize > 0 && i < |live| && live[i].size > 0
    requires PageOf(live[i].base + live[i].size - 1, pageSize) < page
    requires CountsUpTo(h, live, live[i], page, -1, pageSize)
    ensures Counts(h, Without(live, i), pageSize)
  {
    hide Aligned, Touches, PageOf, Touching, Without;
    forall a: nat | Aligned(a, pageSize) ensures CountAt(h, a) == Touching(Without(live, i), a, pageSize) {
      TouchedPages(live[i], a, pageSize);
      TouchingWithout(live, i, a, pageSize);
    }
  }

  /** An empty range touches nothing. */
  lemma EmptyRange(h: map<nat, int>, live: seq<Range>, r: Range, pageSize: nat)
    requires pageSize > 0 && r.size == 0 && Counts(h, live, pageSize)
    ensures Counts(h, live + [r], pageSize)
    ensures forall i :: 0 <= i < |live| && live[i] == r ==> Counts(h, Without(live, i), pageSize)
  {
    hide Aligned, Without;
    assert (live + [r])[..|live|] == live;
    forall i | 0 <= i < |live| && live[i] == r ensures Counts(h, Without(live, i), pageSize) {
      forall a: nat | Aligned(a, pageSize) ensures CountAt(h, a) == Touching(Without(live, i), a, pageSize) {
        TouchingWithout(live, i, a, pageSize);
      }
    }
  }

  /** A page touched by a live range has a count. */
  lemma LiveCounted(live: seq<Range>, i: nat, a: nat, pageSize: nat)
    requires i < |live| && Touches(live[i], a, pageSize)
    ensures Touching(live, a, pageSize) > 0
  {
    TouchingWithout(live, i, a, pageSize);
  }

  class LockedPageManager {
    const pageSize: nat
    var histogram: map<nat, int>
    var calls: seq<Call>        // what reached the operating system
    ghost var live: seq<Range>  // ranges locked and not yet unlocked

    ghost predicate Valid()
      reads this
    {
      && pageSize > 0
      && Counts(histogram, live, pageSize)
      && Held(calls) == histogram.Keys
      && OnlyTransitions(calls)
    }

    constructor (pageSize: nat)
      requires pageSize > 0
      ensures Valid() && this.pageSize == pageSize && live == [] && calls == []
    {
      this.pageSize := pageSize;
      histogram, calls, live := map[], [], [];
    }

    /** `LockRange`. */
    method LockRange(base: nat, size: nat)
      requires Valid() && Addressable(Range(base, size), pageSize)
      modifies this
      ensures Valid() && live == old(live) + [Range(base, size)]
    {
      hide Counts, CountsUpTo, Touches, Touching, Aligned, PageOf, OnlyTransitions, Held;
      ghost var r := Range(base, size);
      if size == 0 {
        EmptyRange(histogram, live, r, pageSize);
        live := live + [r];
        return;
      }
      var page, end := PageOf(base, pageSize), PageOf(base + size - 1, pageSize);
      NoPageYet(histogram, live, r, 1, pageSize);
      PageFacts(base, pageSize);
      PageFacts(base + size - 1, pageSize);
      while page <= end
        invariant PageOf(base, pageSize) <= page && Aligned(page, pageSize)
        invariant CountsUpTo(histogram, live, r, page, 1, pageSize)
        invariant Held(calls) == histogram.Keys && OnlyTransitions(calls)
        invariant live == old(live)
        decreases end + pageSize - page
      {
        ghost var before := histogram;
        Present(histogram, live, r, page, 1, pageSize);
        if page !in histogram {
          OneMoreCall(calls, Lock(page));
          calls := calls + [Lock(page)];
          histogram := histogram[page := 1];
        } else {
          histogram := histogram[page := histogram[page] + 1];
        }
        TouchedPages(r, page, pageSize);
        OneMorePage(before, histogram, live, r, page, 1, pageSize);
        AlignedGap(page, page, pageSize);
        page := page + pageSize;
      }
      AllPagesUp(histogram, live, r, page, pageSize);
      live := live + [r];
    }

    /** `UnlockRange` of a live range: the assertion that every page is known cannot fail. */
    method UnlockRange(base: nat, size: nat, ghost i: nat)
      requires Valid() && Addressable(Range(base, size), pageSize)
      requires i < |live| && live[i] == Range(base, size)
      modifies this
      ensures Valid() && live == Without(old(live), i)
    {
      hide Counts, CountsUpTo, Touches, Touching, Aligned, PageOf, OnlyTransitions, Held, Without;
      ghost var r := Range(base, size);
      if size == 0 {
        EmptyRange(histogram, live, r, pageSize);
        live := Without(live, i);
        return;
      }
      var page, end := PageOf(base, pageSize), PageOf(base + size - 1, pageSize);
      NoPageYet(histogram, live, r, -1, pageSize);
      PageFacts(base, pageSize);
      PageFacts(base + size - 1, pageSize);
      while page <= end
        invariant PageOf(base, pageSize) <= page && Aligned(page, pageSize)
        invariant CountsUpTo(histogram, live, r, page, -1, pageSize)
        invariant Held(calls) == histogram.Keys && OnlyTransitions(calls)
        invariant live == old(live)
        decreases end + pageSize - page
      {
        ghost var before := histogram;
        TouchedPages(r, page, pageSize);
        LiveCounted(live, i, page, pageSize);
        Present(histogram, live, r, page, -1, pageSize);
        assert page in histogram;
        histogram := histogram[page := histogram[page] - 1];
        if histogram[page] == 0 {
          OneMoreCall(calls, Unlock(page));
          calls := calls + [Unlock(page)];
          histogram := histogram - {page};
        }
        OneMorePage(before, histogram, live, r, page, -1, pageSize);
        AlignedGap(page, page, pageSize);
        page := page + pageSize;
      }
      AllPagesDown(histogram, live, i, page, pageSize);
      live := Without(live, i);
    }

    /** `GetLockedPageCount`. */
    method GetLockedPageCount() returns (n: nat)
      requires Valid()
      ensures n == |Held(calls)|
    {
      n := |histogram|;
      assert |histogram| == |histogram.Keys|;
    }
  }

  /** What the histogram says about the page a loop has reached. */
  lemma Present(h: map<nat, int>, live: seq<Range>, r: Range, page: nat, step: int, pageSize: nat)
    requires pageSize > 0 && Aligned(page, pageSize) && CountsUpTo(h, live, r, page, step, pageSize)
    ensures CountAt(h, page) == Touching(live, page, pageSize)
    ensures page in h ==> h[page] > 0
  {
  }

  // ---------------------------------------------------------------- whole histories

  datatype Op = LockOp(range: Range) | UnlockOp(range: Range)

  /** The live ranges after a history: an unlock ends the latest lock of the same range.
      `Matching` says that there is one. */
  function LatestOf(live: seq<Range>, r: Range): (i: nat)
    requires r in live
    ensures i < |live| && live[i] == r
  {
    if live[|live| - 1] == r then |live| - 1 else LatestOf(live[..|live| - 1], r)
  }

  function Live(ops: seq<Op>): seq<Range> {
    if ops == [] then []
    else var before := Live(ops[..|ops| - 1]);
      match ops[|ops| - 1]
      case LockOp(r) => before + [r]
      case UnlockOp(r) => if r in before then Without(before, LatestOf(before, r)) else before
  }

  predicate Matching(ops: seq<Op>, pageSize: nat) {
    forall i :: 0 <= i < |ops| ==>
      && Addressable(ops[i].range, pageSize)
      && (ops[i].UnlockOp? ==> ops[i].range in Live(ops[..i]))
  }

  /** After any history of range locks and matching unlocks, a page is held by the operating
      system exactly when a live range touches it, its count is the number of such ranges, and
      the operating system was only called on the first lock and the last unlock of a page. */
  method RunHistory(ops: seq<Op>, pageSize: nat) returns (histogram: map<nat, int>, calls: seq<Call>)
    requires pageSize > 0 && Matching(ops, pageSize)
    ensures forall a :: a in histogram ==> Aligned(a, pageSize)
    ensures forall a: nat :: Aligned(a, pageSize) ==> CountAt(histogram, a) == Touching(Live(ops), a, pageSize)
    ensures forall a :: a in Held(calls) <==> Aligned(a, pageSize) && Touching(Live(ops), a, pageSize) > 0
    ensures OnlyTransitions(calls)
  {
    hide Counts, Touching, Aligned, OnlyTransitions, Held, Without;
    var manager := new LockedPageManager(pageSize);
    assert ops[..0] == [];
    for k := 0 to |ops|
      invariant manager.Valid() && manager.pageSize == pageSize && fresh(manager)
      invariant manager.live == Live(ops[..k])
    {
      assert ops[..k + 1][..k] == ops[..k];
      match ops[k]
      case LockOp(r) => manager.LockRange(r.base, r.size);
      case UnlockOp(r) => manager.UnlockRange(r.base, r.size, LatestOf(Live(ops[..k]), r));
    }
    assert ops[..|ops|] == ops;
    histogram, calls := manager.histogram, manager.calls;
    CountsMean(histogram, manager.live, pageSize);
  }

  lemma CountsMean(h: map<nat, int>, live: seq<Range>, pageSize: nat)
    requires pageSize > 0 && Counts(h, live, pageSize)
    ensures forall a :: a in h ==> Aligned(a, pageSize)
    ensures forall a: nat :: Aligned(a, pageSize) ==> CountAt(h, a) == Touching(live, a, pageSize)
    ensures forall a :: a in h <==> Aligned(a, pageSize) && Touching(live, a, pageSize) > 0
  {
    hide Touching, Aligned;
  }

  // ---------------------------------------------------------------- the end of the loops

  /** The loop variable after `k` steps of 64-bit address arithmetic. */
  function Stepped(page: nat, k: nat, pageSize: nat): nat {
    if k == 0 then page else (Stepped(page, k - 1, pageSize) + pageSize) % ADDRESSES
  }

  /** One step on page numbers. */
  lemma StepOnce(pages: nat, n: nat, pageSize: nat)
    requires pageSize > 0 && pages * pageSize == ADDRESSES && n < pages
    ensures (n * pageSize + pageSize) % ADDRESSES == if n + 1 < pages then (n + 1) * pageSize else 0
  {
    assert n * pageSize + pageSize == (n + 1) * pageSize;
    if n + 1 < pages {
      MulGrows(pages - n - 1, pageSize);
      assert (pages - n - 1) * pageSize == pages * pageSize - (n + 1) * pageSize;
      DivRem((n + 1) * pageSize, ADDRESSES, 0, (n + 1) * pageSize);
    }
  }

  /** The page number the loop has reached, wrapping after the last page. */
  function Turn(n: nat, k: nat, pages: nat): nat {
    if k == 0 then n
    else var m := Turn(n, k - 1, pages);
      if m + 1 < pages then m + 1 else 0
  }

  lemma {:induction false} SteppedTo(pages: nat, n: nat, k: nat, pageSize: nat)
    requires pageSize > 0 && pages * pageSize == ADDRESSES && n < pages
    ensures Turn(n, k, pages) < pages && Stepped(n * pageSize, k, pageSize) == Turn(n, k, pages) * pageSize
    ensures n + k < pages ==> Turn(n, k, pages) == n + k
  {
    if k > 0 {
      SteppedTo(pages, n, k - 1, pageSize);
      StepOnce(pages, Turn(n, k - 1, pages), pageSize);
    }
  }

  /** With the addresses' wrap-around the loops end exactly when the last page of the range is
      not the last page of the address space. */
  lemma LoopEnds(pages: nat, first: nat, last: nat, pageSize: nat)
    requires pageSize > 0 && pages * pageSize == ADDRESSES && first <= last < pages
    ensures (exists k :: Stepped(first * pageSize, k, pageSize) > last * pageSize) <==> last < pages - 1
  {
    hide Stepped, Turn;
    if last < pages - 1 {
      var k := last + 1 - first;
      SteppedTo(pages, first, k, pageSize);
      assert (last + 1) * pageSize == last * pageSize + pageSize;
      assert Stepped(first * pageSize, k, pageSize) > last * pageSize;
    } else {
      forall k: nat ensures Stepped(first * pageSize, k, pageSize) <= last * pageSize {
        SteppedTo(pages, first, k, pageSize);
        var n := Turn(first, k, pages);
        MulGrows(last - n, pageSize);
        assert (last - n) * pageSize == last * pageSize - n * pageSize;
      }
    }
  }
}
