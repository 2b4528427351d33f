/** What one call of each address-manager operation does to the state, given the
    random values it draws (src/addrman.cpp). The operations themselves are the
    methods of class `AddrMan`; these relations are their specification. */
module AddrSteps {
  import opened IntSets
  import opened Bits
  import opened AddrState

  const INSPECT_ON_EVICT := 4
  const HORIZON_DAYS := 30
  const RETRIES := 3
  const MAX_FAILURES := 10
  const MIN_FAIL_DAYS := 7
  const GETADDR_MAX_PCT := 23
  const GETADDR_MAX := 2500

  /** The random values drawn by one call, in order. */
  type Dice = nat -> nat

  /** `GetRandInt`. */
  function Roll(d: nat, n: nat): (r: nat)
    ensures n > 0 ==> r < n
  {
    if n == 0 then 0 else d % n
  }

  function Max(a: int, b: int): int {
    if a < b then b else a
  }

  function Min(a: int, b: int): int {
    if a < b then a else b
  }

  /** `CAddrInfo::IsTerrible`. */
  predicate IsTerrible(i: Info, now: int) {
    if i.lastTry != 0 && i.lastTry >= now - 60 then false
    else
      || i.time > now + 600
      || i.time == 0
      || now - i.time > HORIZON_DAYS * 86400
      || (i.lastSuccess == 0 && i.attempts >= RETRIES)
      || (now - i.lastSuccess > MIN_FAIL_DAYS * 86400 && i.attempts >= MAX_FAILURES)
  }

  // ------------------------------------------------------- shuffling from the front

  function SwapAt(xs: seq<int>, i: nat, j: nat): (ys: seq<int>)
    requires i < |xs| && j < |xs|
    ensures |ys| == |xs|
  {
    xs[i := xs[j]][j := xs[i]]
  }

  /** Position drawn in round `i` of a shuffle of `n` elements. */
  function Draw(dice: Dice, i: nat, n: nat): (p: nat)
    requires i < n
    ensures i <= p < n
  {
    i + Roll(dice(i), n - i)
  }

  /** The first `n` rounds of a random shuffle. */
  function ShuffleFront(xs: seq<int>, dice: Dice, n: nat): (ys: seq<int>)
    requires n <= |xs|
    ensures |ys| == |xs|
  {
    if n == 0 then xs
    else SwapAt(ShuffleFront(xs, dice, n - 1), n - 1, Draw(dice, n - 1, |xs|))
  }

  lemma SwapReorders(xs: seq<int>, ys: seq<int>, i: nat, j: nat)
    requires i < |ys| && j < |ys| && Reordered(xs, ys)
    ensures Reordered(xs, SwapAt(ys, i, j))
  {
    var zs := SwapAt(ys, i, j);
    assert ys[i] == zs[j] && ys[j] == zs[i];
    forall x | x in ys
      ensures x in zs
    {
      var k :| 0 <= k < |ys| && ys[k] == x;
      assert zs[if k == i then j else if k == j then i else k] == x;
    }
  }

  lemma {:induction false} ShuffleReorders(xs: seq<int>, dice: Dice, n: nat)
    requires n <= |xs| && NoDuplicates(xs)
    ensures Reordered(xs, ShuffleFront(xs, dice, n))
  {
    if n > 0 {
      ShuffleReorders(xs, dice, n - 1);
      SwapReorders(xs, ShuffleFront(xs, dice, n - 1), n - 1, Draw(dice, n - 1, |xs|));
    }
  }

  /** The elements drawn one by one: each from those left, its place being taken by the first. */
  ghost function Draws(xs: seq<int>, dice: Dice, n: nat): seq<int>
    requires n <= |xs|
    decreases n
  {
    if n == 0 then []
    else
      var p := dice(0) % |xs|;
      [xs[p]] + Draws(xs[p := xs[0]][1..], Later(dice), n - 1)
  }

  /** The front of a shuffle holds what is drawn. */
  lemma {:induction false} ShuffleDraws(xs: seq<int>, dice: Dice, n: nat)
    requires n <= |xs|
    ensures ShuffleFront(xs, dice, n)[..n] == Draws(xs, dice, n)
    decreases n
  {
    hide ShuffleFront, Draw;
    if n > 0 {
      var p := dice(0) % |xs|;
      var rest := xs[p := xs[0]][1..];
      ShuffleRest(xs, dice, n);
      ShuffleDraws(rest, Later(dice), n - 1);
    }
  }

  lemma {:induction false} ShuffleRest(xs: seq<int>, dice: Dice, n: nat)
    requires 0 < n <= |xs|
    ensures var p := dice(0) % |xs|;
      ShuffleFront(xs, dice, n) == [xs[p]] + ShuffleFront(xs[p := xs[0]][1..], Later(dice), n - 1)
    decreases n
  {
    hide ShuffleFront;
    var p := dice(0) % |xs|;
    var rest := xs[p := xs[0]][1..];
    ShuffleStep(xs, dice, n - 1);
    if n == 1 {
      assert SwapAt(xs, 0, p) == [xs[p]] + rest;
      ShuffleStart(rest, Later(dice));
    } else {
      ShuffleRest(xs, dice, n - 1);
      ShuffleStep(rest, Later(dice), n - 2);
      var ys := ShuffleFront(rest, Later(dice), n - 2);
      var i, j := n - 2, Draw(Later(dice), n - 2, |rest|);
      assert Draw(dice, n - 1, |xs|) == j + 1;
      assert SwapAt([xs[p]] + ys, i + 1, j + 1) == [xs[p]] + SwapAt(ys, i, j);
    }
  }

  lemma ShuffleStart(xs: seq<int>, dice: Dice)
    ensures ShuffleFront(xs, dice, 0) == xs
  {
  }

  /** A reordering takes its elements from the original. */
  lemma ReorderedFrom(xs: seq<int>, ys: seq<int>, j: nat) returns (i: nat)
    requires Reordered(xs, ys) && j < |ys|
    ensures i < |xs| && xs[i] == ys[j]
  {
    hide NoDuplicates;
    var x: int := ys[j];
    assert x in ys;
    i :| 0 <= i < |xs| && xs[i] == x;
  }

  // ---------------------------------------------------------------- eviction

  predicate Known(infos: Infos, xs: seq<int>) {
    forall i :: 0 <= i < |xs| ==> xs[i] in infos
  }

  lemma KnownAt(infos: Infos, xs: seq<int>, i: nat)
    requires Known(infos, xs) && i < |xs|
    ensures xs[i] in infos
  {
  }

  /** `win` is the first among the front `n` with the least recent success. */
  ghost predicate OldestOf(infos: Infos, order: seq<int>, n: nat, win: nat)
    requires n <= |order| && win < n && Known(infos, order)
  {
    && (forall j :: 0 <= j < n ==> infos[order[win]].lastSuccess <= infos[order[j]].lastSuccess)
    && (forall j :: 0 <= j < win ==> infos[order[win]].lastSuccess < infos[order[j]].lastSuccess)
  }

  /** One round of `SelectTried`: the newly drawn front entry is compared with the best
      so far. */
  lemma SelectRound(infos: Infos, xs: seq<int>, dice: Dice, i: nat, win: nat, ys: seq<int>)
    requires i < |xs| && Known(infos, ShuffleFront(xs, dice, i))
    requires i > 0 ==> win < i && OldestOf(infos, ShuffleFront(xs, dice, i), i, win)
    requires ys == SwapAt(ShuffleFront(xs, dice, i), i, Draw(dice, i, |xs|))
    ensures ys == ShuffleFront(xs, dice, i + 1) && Known(infos, ys)
    ensures forall j :: 0 <= j < i ==> ys[j] == ShuffleFront(xs, dice, i)[j]
    ensures i == 0 || infos[ys[i]].lastSuccess < infos[ys[win]].lastSuccess ==> OldestOf(infos, ys, i + 1, i)
    ensures i > 0 && infos[ys[i]].lastSuccess >= infos[ys[win]].lastSuccess ==> OldestOf(infos, ys, i + 1, win)
  {
    assert ys == ShuffleFront(xs, dice, i + 1);
    hide ShuffleFront;
  }

  /** `SelectTried` on a bucket `xs`: `order` is the bucket after its first rounds of
      shuffling, `win` the front entry with the oldest success (the earliest such),
      and `pos` the position that was drawn for it. */
  ghost predicate Selected(infos: Infos, xs: seq<int>, dice: Dice, order: seq<int>, win: nat, pos: nat) {
    var n := Min(INSPECT_ON_EVICT, |xs|);
    && order == ShuffleFront(xs, dice, n)
    && win < n
    && pos == Draw(dice, win, |xs|)
    && Known(infos, order)
    && OldestOf(infos, order, n, win)
  }

  /** In a bucket of four or more, four entries are drawn one by one, and the position is that from
      which the first of the least recent of them came. */
  lemma SelectedDrawn(infos: Infos, xs: seq<int>, dice: Dice, order: seq<int>, win: nat, pos: nat)
    requires |xs| >= 4 && Selected(infos, xs, dice, order, win, pos)
    ensures var drawn := Draws(xs, dice, 4);
      && |order| == |xs| && |drawn| == 4 && order[..4] == drawn
      && (forall j :: 0 <= j < 4 ==> drawn[j] in infos)
      && win < 4 && (forall j :: 0 <= j < 4 ==> infos[drawn[win]].lastSuccess <= infos[drawn[j]].lastSuccess)
      && (forall j :: 0 <= j < win ==> infos[drawn[win]].lastSuccess < infos[drawn[j]].lastSuccess)
      && pos == win + dice(win) % (|xs| - win)
  {
    hide ShuffleFront, Draws;
    ShuffleDraws(xs, dice, 4);
    assert order[..4] == Draws(xs, dice, 4);
    assert forall j :: 0 <= j < 4 ==> order[..4][j] == order[j];
  }

  /** What the loop of `SelectTried` has after `i` rounds. */
  ghost predicate Picking(infos: Infos, xs: seq<int>, dice: Dice, i: nat, bucket: seq<int>, oldest: int, pos: int,
                          win: nat)
  {
    && i <= |xs| && Known(infos, bucket) && bucket == ShuffleFront(xs, dice, i)
    && if i == 0 then pos == -1 && win == 0
       else win < i && oldest == bucket[win] && pos == Draw(dice, win, |xs|) && OldestOf(infos, bucket, i, win)
  }

  lemma PickStart(infos: Infos, xs: seq<int>, dice: Dice)
    requires Known(infos, xs)
    ensures Picking(infos, xs, dice, 0, xs, -1, -1, 0)
  {
  }

  lemma PickStep(infos: Infos, xs: seq<int>, dice: Dice, i: nat, bucket: seq<int>, ys: seq<int>, oldest: int,
                 pos: int, win: nat)
    requires i < |xs| == |bucket| && Picking(infos, xs, dice, i, bucket, oldest, pos, win)
    requires var p := Draw(dice, i, |xs|);
             ys == bucket[p := bucket[i]][i := bucket[p]]
    ensures |ys| == |xs| && ys[i] in infos && (pos == -1 <==> i == 0) && (pos != -1 ==> oldest in infos)
    ensures pos == -1 || infos[ys[i]].lastSuccess < infos[oldest].lastSuccess
            ==> Picking(infos, xs, dice, i + 1, ys, ys[i], Draw(dice, i, |xs|), i)
    ensures pos != -1 && infos[ys[i]].lastSuccess >= infos[oldest].lastSuccess
            ==> Picking(infos, xs, dice, i + 1, ys, oldest, pos, win)
  {
    hide ShuffleFront, OldestOf, Known, Roll;
    assert ys == SwapAt(bucket, i, Draw(dice, i, |xs|));
    SelectRound(infos, xs, dice, i, win, ys);
    KnownAt(infos, ys, i);
    KnownAt(infos, ys, win);
  }

  lemma PickEnd(infos: Infos, xs: seq<int>, dice: Dice, i: nat, bucket: seq<int>, oldest: int, pos: int, win: nat)
    requires Picking(infos, xs, dice, i, bucket, oldest, pos, win) && i == Min(INSPECT_ON_EVICT, |xs|)
    ensures xs != [] ==> pos >= 0 && Selected(infos, xs, dice, bucket, win, pos)
  {
  }

  lemma SelectedFrame(a: Infos, b: Infos, xs: seq<int>, dice: Dice, order: seq<int>, win: nat, pos: nat)
    requires Selected(a, xs, dice, order, win, pos) && Known(b, order)
    requires forall i :: 0 <= i < |order| ==> b[order[i]].lastSuccess == a[order[i]].lastSuccess
    ensures Selected(b, xs, dice, order, win, pos)
  {
    hide ShuffleFront, Draw;
  }

  /** Draws positions `p` and `q` in the first two rounds, then every slot's own. */
  function TwoDraws(p: nat, q: nat): Dice
    requires q >= 1
  {
    (i: nat) => if i == 0 then p else if i == 1 then q - 1 else 0
  }

  function Redrawn(xs: seq<int>, p: nat, q: nat): (r: seq<int>)
    requires |xs| >= 3 && p < |xs| && q < |xs|
    ensures |r| == |xs|
  {
    SwapAt(SwapAt(xs, 0, p), 1, q)
  }

  lemma TwoRounds(xs: seq<int>, dice: Dice, p: nat, q: nat)
    requires |xs| >= 3 && p == Draw(dice, 0, |xs|) && q == Draw(dice, 1, |xs|)
    ensures ShuffleFront(xs, dice, 2) == Redrawn(xs, p, q)
  {
    hide SwapAt, Draw;
    assert ShuffleFront(xs, dice, 1) == SwapAt(xs, 0, p);
  }

  lemma {:induction false} IdleRounds(xs: seq<int>, p: nat, q: nat, n: nat)
    requires 2 <= n <= |xs| && p < |xs| && 1 <= q < |xs|
    ensures ShuffleFront(xs, TwoDraws(p, q), n) == ShuffleFront(xs, TwoDraws(p, q), 2)
  {
    hide ShuffleFront, SwapAt, TwoDraws, Draw;
    if n > 2 {
      IdleRounds(xs, p, q, n - 1);
      TwoDrawsAt(p, q, n - 1, |xs|);
      ShuffleStep(xs, TwoDraws(p, q), n - 1);
      SwapSelf(ShuffleFront(xs, TwoDraws(p, q), n - 1), n - 1);
    }
  }

  lemma TwoDrawsAt(p: nat, q: nat, i: nat, n: nat)
    requires i < n && p < n && 1 <= q < n
    ensures Draw(TwoDraws(p, q), i, n) == if i == 0 then p else if i == 1 then q else i
  {
    RollBelow(TwoDraws(p, q)(i), n - i);
  }

  lemma RollBelow(d: nat, n: nat)
    requires d < n
    ensures Roll(d, n) == d
  {
    DivRem(d, n, 0, d);
  }

  lemma ShuffleStep(xs: seq<int>, dice: Dice, n: nat)
    requires n < |xs|
    ensures ShuffleFront(xs, dice, 0) == xs
    ensures ShuffleFront(xs, dice, n + 1) == SwapAt(ShuffleFront(xs, dice, n), n, Draw(dice, n, |xs|))
  {
  }

  lemma SwapSelf(xs: seq<int>, i: nat)
    requires i < |xs|
    ensures SwapAt(xs, i, i) == xs
  {
  }

  function Success(infos: Infos, id: int): int
    requires id in infos
  {
    infos[id].lastSuccess
  }

  /** Those draws make the front entry `win` the chosen one. */
  lemma TwoDrawsSelect(infos: Infos, xs: seq<int>, p: nat, q: nat, win: nat) returns (order: seq<int>)
    requires |xs| >= 3 && p < |xs| && 1 <= q < |xs| && win < 2 && Known(infos, xs)
    ensures order == Redrawn(xs, p, q) && Known(infos, order)
    ensures (forall j :: 0 <= j < |order| ==> Success(infos, order[win]) <= Success(infos, order[j]))
            && (win == 1 ==> Success(infos, order[1]) < Success(infos, order[0]))
            ==> Selected(infos, xs, TwoDraws(p, q), order, win, if win == 0 then p else q)
  {
    hide ShuffleFront, TwoDraws, Draw;
    TwoDrawsAt(p, q, 0, |xs|);
    TwoDrawsAt(p, q, 1, |xs|);
    TwoRounds(xs, TwoDraws(p, q), p, q);
    IdleRounds(xs, p, q, Min(INSPECT_ON_EVICT, |xs|));
    order := Redrawn(xs, p, q);
  }

  /** In a full bucket whose second entry alone has the least recent success, drawing that
      entry first evicts the first entry instead. */
  lemma EvictsTheWrongOne(infos: Infos, xs: seq<int>)
    requires |xs| == TRIED_BUCKET_SIZE && Known(infos, xs)
    requires forall j :: 0 <= j < |xs| && j != 1 ==> Success(infos, xs[1]) < Success(infos, xs[j])
    ensures Selected(infos, xs, TwoDraws(1, 1), SwapAt(xs, 0, 1), 0, 1)
    ensures Success(infos, SwapAt(xs, 0, 1)[1]) > Success(infos, SwapAt(xs, 0, 1)[0])
  {
    hide Selected;
    var order := TwoDrawsSelect(infos, xs, 1, 1, 0);
    assert order == SwapAt(xs, 0, 1);
  }

  /** Whatever is drawn, the evicted entry is no more recent than the chosen one. */
  ghost predicate EvictsLeast(infos: Infos, xs: seq<int>) {
    forall dice, order, win, pos :: Selected(infos, xs, dice, order, win, pos) ==> EvictsNoLater(infos, order, win, pos)
  }

  predicate EvictsNoLater(infos: Infos, order: seq<int>, win: nat, pos: nat) {
    && win < |order| && pos < |order| && order[win] in infos && order[pos] in infos
    && Success(infos, order[pos]) <= Success(infos, order[win])
  }

  predicate AllAlike(infos: Infos, xs: seq<int>)
    requires Known(infos, xs)
  {
    forall i, j :: 0 <= i < |xs| && 0 <= j < |xs| ==> Success(infos, xs[i]) == Success(infos, xs[j])
  }

  lemma {:induction false} SomeLeast(infos: Infos, xs: seq<int>) returns (q: nat)
    requires xs != [] && Known(infos, xs)
    ensures q < |xs| && forall j :: 0 <= j < |xs| ==> Success(infos, xs[q]) <= Success(infos, xs[j])
  {
    var n := |xs| - 1;
    q := n;
    if n > 0 {
      var m := SomeLeast(infos, xs[..n]);
      assert forall j :: 0 <= j < n ==> xs[..n][j] == xs[j];
      if Success(infos, xs[m]) <= Success(infos, xs[n]) {
        q := m;
      }
    }
  }

  /** Two draws that evict too recent an entry, in any bucket whose entries differ. */
  lemma WrongDraws(infos: Infos, xs: seq<int>) returns (p: nat, q: nat, win: nat)
    requires |xs| >= 3 && Known(infos, xs) && !AllAlike(infos, xs)
    ensures p < |xs| && 1 <= q < |xs| && win < 2
    ensures var order := Redrawn(xs, p, q);
      var pos := if win == 0 then p else q;
      && Selected(infos, xs, TwoDraws(p, q), order, win, pos)
      && !EvictsNoLater(infos, order, win, pos)
  {
    hide Selected;
    var least := SomeLeast(infos, xs);
    if Success(infos, xs[least]) < Success(infos, xs[0]) {
      p, q, win := least, 1, 0;
      assert SwapAt(SwapAt(xs, 0, p), 1, 1) == SwapAt(xs, 0, p);
    } else if Success(infos, xs[least]) < Success(infos, xs[1]) {
      p, q, win := 2, 2, if Success(infos, xs[2]) == Success(infos, xs[0]) then 0 else 1;
    } else {
      var u :| 0 <= u < |xs| && Success(infos, xs[u]) != Success(infos, xs[0]);
      p, q, win := 1, u, 0;
    }
    var order := TwoDrawsSelect(infos, xs, p, q, win);
  }

  /** Despite its comment, `SelectTried` does not always evict the least recent of the entries
      it inspects: it returns the position that entry came from. In a bucket of three or more,
      such as the full ones that `MakeTried` passes, the evicted entry is the least recent of the
      inspected ones for all draws exactly when all entries had their last success at once. */
  lemma EvictsLeastIff(infos: Infos, xs: seq<int>)
    requires |xs| >= 3 && Known(infos, xs) && NoDuplicates(xs)
    ensures EvictsLeast(infos, xs) <==> AllAlike(infos, xs)
  {
    hide Selected, NoDuplicates;
    if AllAlike(infos, xs) {
      forall dice, order, win, pos | Selected(infos, xs, dice, order, win, pos)
        ensures EvictsNoLater(infos, order, win, pos)
      {
        AlikeEvicted(infos, xs, dice, order, win, pos);
      }
    } else {
      var p, q, win := WrongDraws(infos, xs);
    }
  }

  lemma AlikeEvicted(infos: Infos, xs: seq<int>, dice: Dice, order: seq<int>, win: nat, pos: nat)
    requires Known(infos, xs) && NoDuplicates(xs) && AllAlike(infos, xs) && Selected(infos, xs, dice, order, win, pos)
    ensures EvictsNoLater(infos, order, win, pos)
  {
    hide ShuffleFront, OldestOf, NoDuplicates, Reordered;
    ShuffleReorders(xs, dice, Min(INSPECT_ON_EVICT, |xs|));
    var i := ReorderedFrom(xs, order, win);
    var j := ReorderedFrom(xs, order, pos);
  }

  /** The new bucket an evicted entry goes to: its own, or the one the promoted
      entry came from when its own is full. */
  function EvictionBucket(net: Net, s: State, id: int, evicted: int, origin: nat): (b: nat)
    requires evicted in s.infos && |s.news| == NEW_BUCKET_COUNT && origin < NEW_BUCKET_COUNT
    ensures b < NEW_BUCKET_COUNT
  {
    var b := NewBucket(net, s.key, s.infos[evicted], s.infos[evicted].source);
    if |s.news[b] - {id}| < NEW_BUCKET_SIZE then b else origin
  }

  /** `CAddrMan::MakeTried`. */
  ghost predicate MadeTried(net: Net, s: State, id: int, origin: nat, dice: Dice, t: State)
    requires Inv(net, s, NOBODY) && id in s.infos && origin < NEW_BUCKET_COUNT
  {
    var k := TriedBucket(net, s.key, s.infos[id]);
    if |s.tried[k]| < TRIED_BUCKET_SIZE then
      t == Promote(s, id, k)
    else
      exists order: seq<int>, win: nat, pos: nat :: Selected(s.infos, s.tried[k], dice, order, win, pos)
        && t == Exchange(s, id, k, order, pos, EvictionBucket(net, s, id, order[pos], origin))
  }

  function Probe(start: nat, n: nat, size: nat): (b: nat)
    requires size > 0
    ensures b < size
  {
    (n + start) % size
  }

  /** `origin` is the first bucket holding `id`, searching cyclically from `start`. */
  predicate FirstHolder(news: seq<set<int>>, id: int, start: nat, origin: nat) {
    exists n :: 0 <= n < |news| && HolderAfter(news, id, start, n, origin)
  }

  predicate HolderAfter(news: seq<set<int>>, id: int, start: nat, n: nat, origin: nat)
    requires n < |news|
  {
    && origin == Probe(start, n, |news|)
    && id in news[origin]
    && forall m :: 0 <= m < n ==> id !in news[Probe(start, m, |news|)]
  }

  function Later(dice: Dice): Dice {
    (i: nat) => dice(i + 1)
  }

  predicate Matches(s: State, service: Service) {
    service.host in s.ids && s.ids[service.host] in s.infos && s.infos[s.ids[service.host]].service == service
  }

  function Succeeded(i: Info, time: int): Info {
    i.(lastSuccess := time, lastTry := time, time := ToUint32(time), attempts := 0)
  }

  /** `CAddrMan::Good_`. */
  ghost predicate GoodStep(net: Net, s: State, service: Service, time: int, dice: Dice, t: State)
    requires Inv(net, s, NOBODY)
  {
    if !Matches(s, service) then t == s
    else
      var id := s.ids[service.host];
      var u := Put(s, id, Succeeded(s.infos[id], time));
      if s.infos[id].inTried then t == u
      else
        exists origin: nat :: origin < NEW_BUCKET_COUNT
          && FirstHolder(s.news, id, Roll(dice(0), NEW_BUCKET_COUNT), origin)
          && Inv(net, u, NOBODY) && MadeTried(net, u, id, origin, Later(dice), t)
  }

  // ---------------------------------------------------------------- adding

  /** The four positions that `ShrinkNew` draws in a bucket of `n` entries. */
  function Rolls(dice: Dice, n: nat): (r: seq<nat>)
    requires n > 0
    ensures |r| == 4 && forall j :: 0 <= j < 4 ==> r[j] < n
  {
    [Roll(dice(0), n), Roll(dice(1), n), Roll(dice(2), n), Roll(dice(3), n)]
  }

  /** `v` is older than `x`, or as old and first in the bucket. */
  predicate Precedes(infos: Infos, v: int, x: int) {
    v in infos && x in infos && (infos[v].time < infos[x].time || (infos[v].time == infos[x].time && v <= x))
  }

  /** `v` is at a sampled position and precedes everything at a sampled position. */
  predicate OldestSampled(infos: Infos, xs: seq<int>, rolls: seq<nat>, v: int)
    requires forall j :: 0 <= j < |rolls| ==> rolls[j] < |xs|
  {
    && (exists j :: 0 <= j < |rolls| && v == xs[rolls[j]])
    && (forall j :: 0 <= j < |rolls| ==> Precedes(infos, v, xs[rolls[j]]))
  }

  /** The entry `ShrinkNew` removes: the first terrible one, or else the first with
      the least time among those sampled. */
  ghost predicate IsVictim(infos: Infos, bucket: set<int>, now: int, dice: Dice, v: int)
    requires bucket != {} && forall x <- bucket :: x in infos
  {
    if exists x <- bucket :: IsTerrible(infos[x], now) then
      v in bucket && IsTerrible(infos[v], now) && forall x <- bucket :: x < v ==> !IsTerrible(infos[x], now)
    else
      OldestSampled(infos, Ascending(bucket), Rolls(dice, |bucket|), v)
  }

  lemma FirstTerribleIsVictim(infos: Infos, bucket: set<int>, now: int, dice: Dice, i: nat)
    requires bucket != {} && (forall x <- bucket :: x in infos)
    requires i < |Ascending(bucket)| && IsTerrible(infos[Ascending(bucket)[i]], now)
    requires forall j :: 0 <= j < i ==> !IsTerrible(infos[Ascending(bucket)[j]], now)
    ensures IsVictim(infos, bucket, now, dice, Ascending(bucket)[i])
  {
    hide IsTerrible, Ascending;
    var xs := Ascending(bucket);
    assert xs[i] in xs;
    forall x <- bucket | x < xs[i]
      ensures !IsTerrible(infos[x], now)
    {
      assert x in xs;
      var j :| 0 <= j < |xs| && xs[j] == x;
    }
  }

  /** `CAddrMan::ShrinkNew` on bucket `b`. */
  ghost predicate Shrunk(s: State, b: nat, now: int, dice: Dice, v: int, t: State)
  {
    && b < |s.news| && s.news[b] != {} && (forall x <- s.news[b] :: x in s.infos)
    && IsVictim(s.infos, s.news[b], now, dice, v)
    && v in s.infos && Swappable(s.infos, s.random, s.infos[v].randomPos, |s.random| - 1)
    && t == Unref(s, b, v)
  }

  /** The last part of `Add_`: `id`, which is owed a bucket, enters bucket `b`. */
  ghost predicate Attached(s: State, id: int, b: nat, now: int, dice: Dice, t: State)
    requires b < |s.news|
  {
    if |s.news[b]| == NEW_BUCKET_SIZE then
      exists v, u :: Shrunk(s, b, now, dice, v, u) && b < |u.news| && t == Place(u, b, id)
    else
      t == Place(s, b, id)
  }

  /** The entry `Add_` creates for an unknown address. */
  function Created(a: Address, source: NetAddr, penalty: int): Info {
    Info(a.service, a.services, ToUint32(Max(0, a.time - penalty)), 0, source, 0, 0, 0, false, -1)
  }

  function WithServices(a: bv64, b: bv64): bv64 {
    a | b
  }

  /** The update `Add_` makes to the entry of a known address. */
  function Refreshed(i: Info, a: Address, penalty: int, now: int): Info {
    var interval := if now - a.time < 24 * 60 * 60 then 60 * 60 else 24 * 60 * 60;
    var time := if a.time != 0 && (i.time == 0 || i.time < a.time - interval - penalty)
                then ToUint32(Max(0, a.time - penalty)) else i.time;
    i.(time := time, services := WithServices(i.services, a.services))
  }

  /** Whether `Add_` goes on to give a known entry one more bucket. */
  predicate Spreads(i: Info, a: Address, dice: Dice) {
    && !(a.time == 0 || (i.time != 0 && a.time <= i.time))
    && !i.inTried
    && i.refCount != NEW_BUCKETS_PER_ADDRESS
    && (i.refCount > 0 ==> Roll(dice(0), Pow2(i.refCount)) == 0)
  }

  /** `CAddrMan::Add_`. */
  ghost predicate AddStep(net: Net, s: State, a: Address, source: NetAddr, penalty: int, now: int, dice: Dice,
                          t: State, added: bool)
    requires Inv(net, s, NOBODY)
  {
    if !net.routable(a.service.host) then
      t == s && !added
    else if a.service.host in s.ids then
      var id := s.ids[a.service.host];
      var i := Refreshed(s.infos[id], a, penalty, now);
      var b := NewBucket(net, s.key, i, source);
      var u := Put(s, id, i);
      && !added
      && if Spreads(i, a, dice) && id !in s.news[b] then Attached(Owe(u, id), id, b, now, Later(dice), t)
         else t == u
    else
      var i := Created(a, source, penalty);
      && added
      && Attached(Enroll(s, i), s.idCount, NewBucket(net, s.key, i, source), now, Later(dice), t)
  }

  // ---------------------------------------------------------------- the rest

  /** `CAddrMan::Attempt_`. */
  function Attempted(s: State, service: Service, time: int): State {
    if !Matches(s, service) then s
    else
      var id := s.ids[service.host];
      Put(s, id, s.infos[id].(lastTry := time, attempts := s.infos[id].attempts + 1))
  }

  /** `CAddrMan::Connected_`. */
  function Touched(s: State, service: Service, time: int): State {
    if !Matches(s, service) then s
    else
      var id := s.ids[service.host];
      if time - s.infos[id].time > 20 * 60 then Put(s, id, s.infos[id].(time := ToUint32(time))) else s
  }

  function AddrLimit(size: nat): nat {
    Min(GETADDR_MAX, GETADDR_MAX_PCT * size / 100)
  }

  /** The part of an entry that is an address. */
  function AsAddress(i: Info): Address {
    Address(i.service, i.services, i.time)
  }

  /** Two tables that differ in back-positions only. */
  ghost predicate SameButPositions(a: Infos, b: Infos) {
    && a.Keys == b.Keys
    && forall id <- a :: id in b && b[id] == a[id].(randomPos := b[id].randomPos)
  }

  lemma SwapSameButPositions(infos: Infos, s: State, i: nat, j: nat)
    requires SameButPositions(infos, s.infos) && Swappable(s.infos, s.random, i, j)
    ensures SameButPositions(infos, SwapPositions(s, i, j).infos)
    ensures |SwapPositions(s, i, j).random| == |s.random| && SwapPositions(s, i, j).random == SwapAt(s.random, i, j)
  {
    assert SwapPositions(s, i, j).infos.Keys == infos.Keys;
    if i == j {
      assert SwapAt(s.random, i, j) == s.random;
    }
  }

  /** `CAddrMan::GetAddr_`: a shuffle of `random`, with back-positions. */
  ghost predicate GetAddrStep(net: Net, s: State, dice: Dice, t: State)
    requires Inv(net, s, NOBODY)
  {
    && t.random == ShuffleFront(s.random, dice, AddrLimit(|s.random|))
    && t == s.(infos := t.infos, random := t.random)
    && SameButPositions(s.infos, t.infos)
    && Shuffled(t.infos, t.random)
  }
}
