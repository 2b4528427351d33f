/** The disk format of the address manager (src/addrman.h): writing any valid manager
    and reading it back gives the same manager up to a renumbering of its ids. */
module AddrDisk {
  import opened IntSets
  import opened AddrState
  import opened AddrSteps
  import opened AddrRuns
  import opened AddrManager
  import AddrCheck

  // ---------------------------------------------------------------- renumbering

  /** The order in which entries are written: new entries by id, then tried ones by id.
      The position in this order is the id after reading. */
  function Order(infos: Infos): seq<int> {
    Ascending(NewIds(infos)) + Ascending(TriedIds(infos))
  }

  /** `t` is `s` with entry `Order(s.infos)[n]` renumbered to `n`, its last try forgotten
      and `random` put in order of ids. */
  ghost predicate Reloaded(s: State, t: State) {
    var order := Order(s.infos);
    && t.key == s.key && t.nNew == s.nNew && t.nTried == s.nTried && t.idCount == |order|
    && SameEntries(s.infos, order, t.infos)
    && SameIds(s.ids, order, t.ids)
    && |t.random| == |order| && (forall n :: 0 <= n < |order| ==> t.random[n] == n)
    && SameTried(s.tried, order, t.tried)
    && SameNew(s.news, order, t.news)
  }

  ghost predicate SameEntries(infos: Infos, order: seq<int>, infos': Infos) {
    && (forall n :: n in infos' <==> 0 <= n < |order|)
    && (forall n :: 0 <= n < |order| ==>
          order[n] in infos && infos'[n] == infos[order[n]].(lastTry := 0, randomPos := n))
  }

  ghost predicate SameIds(ids: map<NetAddr, int>, order: seq<int>, ids': map<NetAddr, int>) {
    && (forall a :: a in ids' <==> a in ids)
    && (forall a <- ids :: a in ids' && 0 <= ids'[a] < |order| && order[ids'[a]] == ids[a])
  }

  /** `n` is the new number of a member of `xs`. */
  predicate Renumbers(order: seq<int>, n: int, xs: seq<int>) {
    0 <= n < |order| && order[n] in xs
  }

  /** `n` is the new number of a member of `b`. */
  predicate Relocates(order: seq<int>, n: int, b: set<int>) {
    0 <= n < |order| && order[n] in b
  }

  ghost predicate SameTried(tried: seq<seq<int>>, order: seq<int>, tried': seq<seq<int>>) {
    && |tried'| == |tried|
    && (forall k :: 0 <= k < |tried'| ==> NoDuplicates(tried'[k]))
    && (forall k, n :: 0 <= k < |tried| ==> (n in tried'[k] <==> Renumbers(order, n, tried[k])))
  }

  ghost predicate SameNew(news: seq<set<int>>, order: seq<int>, news': seq<set<int>>) {
    && |news'| == |news|
    && (forall b, n :: 0 <= b < |news| ==> (n in news'[b] <==> Relocates(order, n, news[b])))
  }

  lemma OrderFacts(infos: Infos)
    ensures |Order(infos)| == |infos| && NoDuplicates(Order(infos))
    ensures forall id :: id in Order(infos) <==> id in infos
    ensures forall n :: 0 <= n < |Order(infos)| ==> Order(infos)[n] in infos
    ensures forall n :: 0 <= n < |Order(infos)| ==> (infos[Order(infos)[n]].inTried <==> n >= |NewIds(infos)|)
  {
    hide Ascending;
    var fr, tr := Ascending(NewIds(infos)), Ascending(TriedIds(infos));
    assert forall i :: 0 <= i < |fr| ==> fr[i] in NewIds(infos);
    assert forall i :: 0 <= i < |tr| ==> tr[i] in TriedIds(infos);
    SplitSize(infos);
    hide TriedIds, NewIds;
  }

  // What the invariant says about one entry.

  lemma LinkedAt(idCount: int, infos: Infos, ids: map<NetAddr, int>, id: int)
    requires Linked(idCount, infos, ids) && id in infos
    ensures infos[id].service.host in ids && ids[infos[id].service.host] == id
  {
  }

  lemma TriedAt(net: Net, key: seq<bv8>, infos: Infos, tried: seq<seq<int>>, id: int)
    requires TriedTable(net, key, infos, tried)
    ensures forall k :: 0 <= k < |tried| && id in tried[k] ==>
              id in infos && infos[id].inTried && TriedBucket(net, key, infos[id]) == k
    ensures id in infos && infos[id].inTried ==>
              infos[id].refCount == 0 && id in tried[TriedBucket(net, key, infos[id])]
  {
    hide TriedBucket;
  }

  lemma NewAt(infos: Infos, news: seq<set<int>>, id: int)
    requires NewTable(infos, news, NOBODY) && id != NOBODY
    ensures forall b :: 0 <= b < |news| && id in news[b] ==> id in infos && !infos[id].inTried
    ensures id in infos && !infos[id].inTried ==>
              1 <= infos[id].refCount <= NEW_BUCKETS_PER_ADDRESS && infos[id].refCount == |Holders(news, id)|
  {
    hide Holders;
  }

  lemma ReloadedLinked(s: State, t: State)
    requires Linked(s.idCount, s.infos, s.ids) && Reloaded(s, t)
    ensures Linked(t.idCount, t.infos, t.ids)
  {
    OrderFacts(s.infos);
    hide Order, SameTried, SameNew;
    var order := Order(s.infos);
    forall n | n in t.infos
      ensures t.infos[n].service.host in t.ids && t.ids[t.infos[n].service.host] == n
    {
      LinkedAt(s.idCount, s.infos, s.ids, order[n]);
      var a := s.infos[order[n]].service.host;
      assert a in s.ids && order[t.ids[a]] == order[n];
    }
    forall a <- t.ids
      ensures t.ids[a] in t.infos && t.infos[t.ids[a]].service.host == a
    {
      assert a in s.ids;
    }
  }

  lemma NumberedSize(infos: Infos, size: nat)
    requires forall n :: n in infos <==> 0 <= n < size
    ensures |infos| == size
  {
    assert infos.Keys == AddrCheck.Range(size);
    assert |infos| == |infos.Keys|;
  }

  lemma ReloadedShuffled(s: State, t: State)
    requires Reloaded(s, t)
    ensures Shuffled(t.infos, t.random)
  {
    hide Order, SameTried, SameNew, SameIds;
    NumberedSize(t.infos, |Order(s.infos)|);
  }

  /** Renumbered buckets are as large as the originals. */
  lemma {:induction false} RenumberedSize(order: seq<int>, b: set<int>, b': set<int>)
    requires NoDuplicates(order)
    requires forall n :: n in b' ==> Relocates(order, n, b)
    ensures |b'| <= |b|
    decreases b'
  {
    if b' != {} {
      var n := Least(b');
      RenumberedSize(order, b - {order[n]}, b' - {n});
    }
  }

  lemma {:induction false} RenumberedLength(order: seq<int>, xs: seq<int>, xs': seq<int>)
    requires NoDuplicates(order) && NoDuplicates(xs')
    requires forall i :: 0 <= i < |xs'| ==> Renumbers(order, xs'[i], xs)
    ensures |xs'| <= |xs|
  {
    if xs' != [] {
      var last := xs'[|xs'| - 1];
      var j :| 0 <= j < |xs| && xs[j] == order[last];
      var rest := xs[..j] + xs[j + 1..];
      forall i | 0 <= i < |xs'| - 1
        ensures Renumbers(order, xs'[i], rest)
      {
        var m :| 0 <= m < |xs| && xs[m] == order[xs'[i]];
        assert m != j;
        assert rest[if m < j then m else m - 1] == xs[m];
      }
      RenumberedLength(order, rest, xs'[..|xs'| - 1]);
    }
  }

  lemma ReloadedTried(net: Net, s: State, t: State)
    requires TriedTable(net, s.key, s.infos, s.tried) && Reloaded(s, t)
    ensures TriedTable(net, t.key, t.infos, t.tried)
  {
    OrderFacts(s.infos);
    hide Order, SameNew, SameIds, NoDuplicates;
    var order := Order(s.infos);
    forall k | 0 <= k < |t.tried|
      ensures |t.tried[k]| <= TRIED_BUCKET_SIZE
    {
      assert forall i :: 0 <= i < |t.tried[k]| ==> t.tried[k][i] in t.tried[k];
      RenumberedLength(order, s.tried[k], t.tried[k]);
    }
    forall n | n in t.infos
      ensures TriedBucket(net, t.key, t.infos[n]) == TriedBucket(net, s.key, s.infos[order[n]])
    {
    }
    hide TriedBucket;
    forall k, n | 0 <= k < |t.tried| && n in t.tried[k]
      ensures n in t.infos && t.infos[n].inTried && TriedBucket(net, t.key, t.infos[n]) == k
    {
      assert Renumbers(order, n, s.tried[k]);
      TriedAt(net, s.key, s.infos, s.tried, order[n]);
    }
    forall n | n in t.infos && t.infos[n].inTried
      ensures t.infos[n].refCount == 0 && n in t.tried[TriedBucket(net, t.key, t.infos[n])]
    {
      TriedAt(net, s.key, s.infos, s.tried, order[n]);
      assert Renumbers(order, n, s.tried[TriedBucket(net, s.key, s.infos[order[n]])]);
    }
  }

  lemma RenumberedHolders(news: seq<set<int>>, order: seq<int>, news': seq<set<int>>, n: nat)
    requires SameNew(news, order, news') && n < |order|
    ensures Holders(news', n) == Holders(news, order[n])
  {
    assert forall b :: 0 <= b < |news| ==> (n in news'[b] <==> Relocates(order, n, news[b]));
    assert forall b :: b in Holders(news', n) <==> b in Holders(news, order[n]);
  }

  lemma ReloadedNew(s: State, t: State)
    requires NewTable(s.infos, s.news, NOBODY) && NOBODY !in s.infos && Reloaded(s, t)
    ensures NewTable(t.infos, t.news, NOBODY)
  {
    OrderFacts(s.infos);
    hide Order, SameTried, SameIds, Holders, NoDuplicates, Linked;
    var order := Order(s.infos);
    forall b | 0 <= b < |t.news|
      ensures |t.news[b]| <= NEW_BUCKET_SIZE
    {
      assert forall n :: n in t.news[b] ==> Relocates(order, n, s.news[b]);
      RenumberedSize(order, s.news[b], t.news[b]);
    }
    forall b, n | 0 <= b < |t.news| && n in t.news[b]
      ensures n in t.infos && !t.infos[n].inTried
    {
      assert Relocates(order, n, s.news[b]);
      NewAt(s.infos, s.news, order[n]);
    }
    forall n | n in t.infos && !t.infos[n].inTried
      ensures 1 <= t.infos[n].refCount <= NEW_BUCKETS_PER_ADDRESS
      ensures n != NOBODY && t.infos[n].refCount == |Holders(t.news, n)|
    {
      RenumberedHolders(s.news, order, t.news, n);
      NewAt(s.infos, s.news, order[n]);
    }
  }

  lemma ReloadedCounted(s: State, t: State)
    requires Counted(s.infos, s.nTried, s.nNew) && Reloaded(s, t)
    ensures Counted(t.infos, t.nTried, t.nNew)
  {
    OrderFacts(s.infos);
    SplitSize(s.infos);
    SplitSize(t.infos);
    var order, m := Order(s.infos), |NewIds(s.infos)|;
    hide Order, SameTried, SameIds, SameNew, NoDuplicates;
    assert forall n :: n in NewIds(t.infos) <==> n in AddrCheck.Range(m);
    assert NewIds(t.infos) == AddrCheck.Range(m);
    assert forall n :: n in t.infos.Keys <==> n in AddrCheck.Range(|order|);
    assert t.infos.Keys == AddrCheck.Range(|order|);
  }

  /** A reloaded manager satisfies the whole invariant. */
  lemma ReloadedKeepsInv(net: Net, s: State, t: State)
    requires Inv(net, s, NOBODY) && Reloaded(s, t)
    ensures Inv(net, t, NOBODY)
  {
    hide Linked, Shuffled, TriedTable, NewTable, Counted, Reloaded;
    IdsInRange(s.idCount, s.infos, s.ids);
    ReloadedLinked(s, t);
    ReloadedShuffled(s, t);
    ReloadedTried(net, s, t);
    ReloadedNew(s, t);
    ReloadedCounted(s, t);
  }

  /** A manager read from disk can start a run, and no time stamp falls out of order. */
  lemma ReloadedStarts(net: Net, s: State, t: State)
    requires Inv(net, s, NOBODY) && Reloaded(s, t)
    ensures Run(net, [], [t])
    ensures Stamped(s.infos) ==> Stamped(t.infos)
  {
    hide Inv, Order, SameIds, SameTried, SameNew;
    ReloadedKeepsInv(net, s, t);
    if Stamped(s.infos) {
      forall n | n in t.infos
        ensures t.infos[n].lastTry >= 0 && t.infos[n].lastSuccess >= 0
        ensures t.infos[n].inTried ==> t.infos[n].lastSuccess > 0
      {
        var id := Order(s.infos)[n];
        assert id in s.infos && t.infos[n] == s.infos[id].(lastTry := 0, randomPos := n);
      }
    }
  }

  /** The states of a manager over many sessions: between two of them lies an operation, or the
      manager is written and read back. */
  ghost predicate Sessions(net: Net, states: seq<State>) {
    && states != [] && Inv(net, states[0], NOBODY)
    && forall i :: 0 < i < |states| ==> Moves(net, states[i - 1], states[i])
  }

  ghost predicate Moves(net: Net, s: State, t: State) {
    (exists op :: Step(net, s, op, t)) || Reloaded(s, t)
  }

  /** The address is known and its entry is in the tried table. */
  ghost predicate Tries(s: State, a: NetAddr) {
    a in s.ids && s.ids[a] in s.infos && s.infos[s.ids[a]].inTried
  }

  /** One operation or one reload: the invariant holds again, and an address that is tried stays
      known with its service. */
  lemma MovesKeepInv(net: Net, s: State, t: State)
    requires Inv(net, s, NOBODY) && Moves(net, s, t)
    ensures Inv(net, t, NOBODY)
    ensures forall a :: Tries(s, a) ==> Retains(s, t, a)
  {
    hide Step, Reloaded, TriedTable, NewTable, Counted, Shuffled;
    if Reloaded(s, t) {
      ReloadedKeepsInv(net, s, t);
      forall a | Tries(s, a) ensures Retains(s, t, a) {
        ReloadRetains(s, t, a);
      }
    } else {
      var op :| Step(net, s, op, t);
      StepKeepsInv(net, s, op, t);
      StepEvolves(net, s, op, t);
      forall a | Tries(s, a) ensures Retains(s, t, a) {
        LinkedAt(t.idCount, t.infos, t.ids, s.ids[a]);
      }
    }
  }

  /** The address is still known, with the same service. */
  ghost predicate Retains(s: State, t: State, a: NetAddr) {
    && a in s.ids && s.ids[a] in s.infos && a in t.ids && t.ids[a] in t.infos
    && t.infos[t.ids[a]].service == s.infos[s.ids[a]].service
  }

  lemma ReloadRetains(s: State, t: State, a: NetAddr)
    requires Reloaded(s, t) && a in s.ids && s.ids[a] in s.infos
    ensures Retains(s, t, a)
    ensures t.infos[t.ids[a]].inTried == s.infos[s.ids[a]].inTried
  {
    hide Order, SameTried, SameNew;
    assert Order(s.infos)[t.ids[a]] == s.ids[a];
  }

  /** Over any number of sessions the invariant holds at every point, and an address that is tried
      throughout a stretch is known at its end, with the same service. */
  lemma {:induction false} SessionsKeep(net: Net, states: seq<State>, i: nat, j: nat)
    requires Sessions(net, states) && i <= j < |states|
    ensures Inv(net, states[j], NOBODY)
    ensures forall a :: Tries(states[i], a) && (forall m :: i <= m < j && a in states[m].ids ==> Tries(states[m], a))
              ==> Retains(states[i], states[j], a)
    decreases j
  {
    hide Inv, Moves;
    if i < j {
      SessionsKeep(net, states, i, j - 1);
      MovesKeepInv(net, states[j - 1], states[j]);
    } else if j > 0 {
      SessionsKeep(net, states, j - 1, j - 1);
      MovesKeepInv(net, states[j - 1], states[j]);
    }
  }

  // ---------------------------------------------------------------- the format

  /** The part of an entry that is written. */
  datatype Record = Record(
    service: Service, services: bv64, time: Uint32, source: NetAddr, lastSuccess: int, attempts: int)

  datatype Token = ByteT(n: int) | KeyT(key: seq<bv8>) | IntT(i: int) | RecT(rec: Record)

  function ToRecord(i: Info): Record {
    Record(i.service, i.services, i.time, i.source, i.lastSuccess, i.attempts)
  }

  /** A freshly constructed entry into which a record has been read. */
  function FromRecord(r: Record): Info {
    Info(r.service, r.services, r.time, 0, r.source, r.lastSuccess, r.attempts, 0, false, -1)
  }

  function Records(infos: Infos, xs: seq<int>): (r: seq<Token>)
    requires Known(infos, xs)
    ensures |r| == |xs|
  {
    seq(|xs|, i requires 0 <= i < |xs| => RecT(ToRecord(infos[xs[i]])))
  }

  /** Position of `x` in `xs`, and 0 when it is missing. */
  function IndexIn(xs: seq<int>, x: int): (i: nat)
    ensures x in xs ==> i < |xs| && xs[i] == x
  {
    if xs == [] then 0
    else if x in xs[..|xs| - 1] then IndexIn(xs[..|xs| - 1], x)
    else if x == xs[|xs| - 1] then |xs| - 1
    else 0
  }

  function Indices(fr: seq<int>, xs: seq<int>): (r: seq<Token>)
    ensures |r| == |xs|
  {
    seq(|xs|, i requires 0 <= i < |xs| => IntT(IndexIn(fr, xs[i])))
  }

  function BucketTokens(fr: seq<int>, b: set<int>): (r: seq<Token>)
    ensures |r| == 1 + |b|
  {
    [IntT(|b|)] + Indices(fr, Ascending(b))
  }

  function AllBuckets(fr: seq<int>, news: seq<set<int>>): seq<Token> {
    if news == [] then [] else AllBuckets(fr, news[..|news| - 1]) + BucketTokens(fr, news[|news| - 1])
  }

  function Header(s: State): seq<Token> {
    [ByteT(0), KeyT(s.key), IntT(s.nNew), IntT(s.nTried), IntT(NEW_BUCKET_COUNT)]
  }

  /** What is written for a valid manager. */
  function Image(s: State): seq<Token>
    requires Known(s.infos, Order(s.infos))
  {
    Header(s) + Records(s.infos, Order(s.infos)) + AllBuckets(Ascending(NewIds(s.infos)), s.news)
  }

  // ---------------------------------------------------------------- writing

  lemma {:induction false} SortedUnique(xs: seq<int>, ys: seq<int>)
    requires Increasing(xs) && Increasing(ys) && forall x :: x in xs <==> x in ys
    ensures xs == ys
  {
    if xs == [] {
      HasMember(ys);
    } else {
      var a := xs[|xs| - 1];
      assert a in xs;
      assert a in ys;
      var b := ys[|ys| - 1];
      assert b in ys;
      assert a == b by {
        var i :| 0 <= i < |ys| && ys[i] == a;
        var j :| 0 <= j < |xs| && xs[j] == b;
      }
      var p, q := xs[..|xs| - 1], ys[..|ys| - 1];
      forall x
        ensures x in p <==> x in q
      {
        DropLast(xs, x);
        DropLast(ys, x);
      }
      SortedUnique(p, q);
    }
  }

  lemma HasMember(xs: seq<int>)
    ensures xs != [] ==> exists x :: x in xs
  {
    if xs != [] {
      var x := xs[0];
      assert x in xs;
    }
  }

  lemma DropLast(xs: seq<int>, x: int)
    requires Increasing(xs) && xs != []
    ensures x in xs[..|xs| - 1] <==> x in xs && x != xs[|xs| - 1]
  {
    if x in xs && x != xs[|xs| - 1] {
      var i :| 0 <= i < |xs| && xs[i] == x;
      assert xs[..|xs| - 1][i] == x;
    }
  }

  lemma {:induction false} IncreasingSize(xs: seq<int>, s: set<int>)
    requires Increasing(xs) && forall x :: x in xs <==> x in s
    ensures |xs| == |s|
  {
    SortedUnique(xs, Ascending(s));
  }

  lemma SubsetOfSameSize(a: set<int>, b: set<int>)
    requires a <= b && |a| == |b|
    ensures a == b
  {
    assert b == a + (b - a);
    assert |b - a| == 0;
  }

  /** An increasing selection from `ids` that is as long as `ids` is all of `ids`. */
  lemma SelectionComplete(xs: seq<int>, ids: set<int>)
    requires Increasing(xs) && |xs| == |ids| && forall i :: 0 <= i < |xs| ==> xs[i] in ids
    ensures xs == Ascending(ids)
  {
    var a := set x | x in xs;
    IncreasingSize(xs, a);
    assert a <= ids by {
      assert forall x :: x in a ==> x in ids;
    }
    SubsetOfSameSize(a, ids);
    SortedUnique(xs, Ascending(ids));
  }

  /** Whether the writer puts an entry in the first or in the second part. */
  predicate Wanted(i: Info, tried: bool) {
    if tried then i.inTried else i.refCount != 0
  }

  predicate Indexed(xs: seq<int>, index: map<int, int>) {
    forall i :: 0 <= i < |xs| ==> xs[i] in index && index[xs[i]] == i
  }

  function Target(infos: Infos, tried: bool): set<int> {
    set id | id in infos && Wanted(infos[id], tried)
  }

  /** `picked` are the wanted entries among the first `n` of `xs`, and `index` gives
      their positions. */
  ghost predicate Picked(infos: Infos, xs: seq<int>, n: nat, tried: bool, picked: seq<int>, index: map<int, int>)
    requires n <= |xs| && Known(infos, xs)
  {
    && Increasing(picked)
    && (forall j :: 0 <= j < n && Wanted(infos[xs[j]], tried) ==> xs[j] in picked)
    && (forall i :: 0 <= i < |picked| ==> picked[i] in xs[..n] && picked[i] in Target(infos, tried))
    && Indexed(picked, index)
  }

  lemma PickedBefore(xs: seq<int>, n: nat, picked: seq<int>)
    requires n < |xs| && Increasing(xs) && forall i :: 0 <= i < |picked| ==> picked[i] in xs[..n]
    ensures forall i :: 0 <= i < |picked| ==> picked[i] < xs[n] && picked[i] in xs[..n + 1]
  {
    forall i | 0 <= i < |picked|
      ensures picked[i] < xs[n] && picked[i] in xs[..n + 1]
    {
      var j :| 0 <= j < n && xs[j] == picked[i];
      assert xs[..n + 1][j] == picked[i];
    }
  }

  lemma PickNext(infos: Infos, xs: seq<int>, n: nat, tried: bool, picked: seq<int>, index: map<int, int>)
    requires n < |xs| && Known(infos, xs) && Increasing(xs) && Picked(infos, xs, n, tried, picked, index)
    ensures var id := xs[n];
            if Wanted(infos[id], tried) then Picked(infos, xs, n + 1, tried, picked + [id], index[id := |picked|])
            else Picked(infos, xs, n + 1, tried, picked, index[id := |picked|])
  {
    hide Wanted;
    var id := xs[n];
    PickedBefore(xs, n, picked);
    assert xs[..n + 1][n] == id;
    assert id in Target(infos, tried) <==> Wanted(infos[id], tried);
    hide Target;
    assert forall x :: x in picked ==> x in picked + [id];
    assert id in picked + [id];
  }

  lemma PickedAll(infos: Infos, xs: seq<int>, n: nat, tried: bool, picked: seq<int>, index: map<int, int>)
    requires n <= |xs| && Known(infos, xs) && Picked(infos, xs, n, tried, picked, index)
    requires forall x :: x in xs <==> x in infos
    requires n == |xs| || |picked| == |Target(infos, tried)|
    ensures picked == Ascending(Target(infos, tried))
  {
    hide Wanted, Ascending;
    var ids := Target(infos, tried);
    if n == |xs| {
      forall x
        ensures x in picked <==> x in Ascending(ids)
      {
        if x in ids {
          assert x in xs;
          var j :| 0 <= j < |xs| && xs[j] == x;
          assert xs[j] in picked;
        }
        if x in picked {
          var i :| 0 <= i < |picked| && picked[i] == x;
          assert picked[i] in ids;
        }
      }
      SortedUnique(picked, Ascending(ids));
    } else {
      SelectionComplete(picked, ids);
    }
  }

  /** One of the two loops that write entries; it stops after `limit` records. */
  method CollectEntries(infos: Infos, tried: bool, limit: int) returns (recs: seq<Token>, index: map<int, int>)
    ensures limit == |Target(infos, tried)| ==>
              var picked := Ascending(Target(infos, tried));
              && Known(infos, picked) && recs == Records(infos, picked)
              && Indexed(picked, index)
  {
    hide Wanted, Picked, Ascending;
    var xs := Ascending(infos.Keys);
    assert forall i :: 0 <= i < |xs| ==> xs[i] in xs;
    var nIds, n := 0, 0;
    recs, index := [], map[];
    ghost var picked: seq<int> := [];
    PickNone(infos, xs, tried);
    while n < |xs| && nIds != limit
      invariant 0 <= n <= |xs| && nIds == |picked| && Picked(infos, xs, n, tried, picked, index)
      invariant Known(infos, picked) && recs == Records(infos, picked)
    {
      var id := xs[n];
      PickNext(infos, xs, n, tried, picked, index);
      index := index[id := nIds];
      if Wanted(infos[id], tried) {
        recs := recs + [RecT(ToRecord(infos[id]))];
        nIds := nIds + 1;
        picked := picked + [id];
      }
      n := n + 1;
    }
    if limit == |Target(infos, tried)| {
      PickedAll(infos, xs, n, tried, picked, index);
      PickedIndex(infos, xs, n, tried, picked, index);
    }
  }

  lemma PickNone(infos: Infos, xs: seq<int>, tried: bool)
    requires Known(infos, xs)
    ensures Picked(infos, xs, 0, tried, [], map[])
  {
  }

  lemma PickedIndex(infos: Infos, xs: seq<int>, n: nat, tried: bool, picked: seq<int>, index: map<int, int>)
    requires n <= |xs| && Known(infos, xs) && Picked(infos, xs, n, tried, picked, index)
    ensures Indexed(picked, index)
  {
  }

  /** Writing one bucket. */
  method SaveBucket(ghost fr: seq<int>, index: map<int, int>, b: set<int>) returns (out: seq<Token>)
    ensures (forall id <- b :: id in index && index[id] == IndexIn(fr, id)) ==> out == BucketTokens(fr, b)
  {
    hide Ascending, IndexIn;
    var xs := Ascending(b);
    assert forall i :: 0 <= i < |xs| ==> xs[i] in xs;
    ghost var good := forall id <- b :: id in index && index[id] == IndexIn(fr, id);
    out := [IntT(|b|)];
    for i := 0 to |xs|
      invariant |out| == 1 + i && out[0] == IntT(|b|)
      invariant good ==> forall j :: 0 <= j < i ==> out[1 + j] == IntT(IndexIn(fr, xs[j]))
    {
      var id := xs[i];
      assert id in b;
      var nIndex := if id in index then index[id] else 0;
      out := out + [IntT(nIndex)];
    }
  }

  lemma BucketsWithNext(fr: seq<int>, news: seq<set<int>>, n: nat)
    requires n < |news|
    ensures AllBuckets(fr, news[..n + 1]) == AllBuckets(fr, news[..n]) + BucketTokens(fr, news[n])
  {
    assert news[..n + 1][..n] == news[..n];
  }

  lemma TargetsOfValid(net: Net, s: State)
    requires Inv(net, s, NOBODY)
    ensures Target(s.infos, false) == NewIds(s.infos) && Target(s.infos, true) == TriedIds(s.infos)
  {
    hide Linked, Shuffled, Counted, Holders, TriedBucket;
    assert forall id :: id in Target(s.infos, false) <==> id in NewIds(s.infos);
    assert forall id :: id in Target(s.infos, true) <==> id in TriedIds(s.infos);
  }

  lemma IndexIsPosition(xs: seq<int>, i: nat)
    requires Increasing(xs) && i < |xs|
    ensures IndexIn(xs, xs[i]) == i
  {
    assert xs[i] in xs;
    var j := IndexIn(xs, xs[i]);
    assert xs[j] == xs[i];
  }

  /** Every member of a new bucket has the position of its record as index. */
  lemma BucketIndex(net: Net, s: State, index: map<int, int>, b: nat)
    requires Inv(net, s, NOBODY) && b < |s.news|
    requires Indexed(Ascending(NewIds(s.infos)), index)
    ensures forall id <- s.news[b] :: id in index && index[id] == IndexIn(Ascending(NewIds(s.infos)), id)
  {
    hide Inv, Ascending, IndexIn;
    NewFacts(net, s, NOBODY);
    var fr := Ascending(NewIds(s.infos));
    forall id <- s.news[b]
      ensures id in index && index[id] == IndexIn(fr, id)
    {
      assert id in NewIds(s.infos);
      assert id in fr;
      var i :| 0 <= i < |fr| && fr[i] == id;
      assert fr[i] in index && index[fr[i]] == i;
      IndexIsPosition(fr, i);
    }
  }

  lemma RecordsConcat(infos: Infos, xs: seq<int>, ys: seq<int>)
    requires Known(infos, xs) && Known(infos, ys)
    ensures Known(infos, xs + ys) && Records(infos, xs + ys) == Records(infos, xs) + Records(infos, ys)
  {
  }

  /** Serialization. For a valid manager the result is its image. */
  method Save(m: AddrMan) returns (out: seq<Token>)
    ensures Inv(m.net, m.View(), NOBODY) ==> Known(m.infos, Order(m.infos)) && out == Image(m.View())
  {
    hide Inv, Ascending, Wanted, Target, NewIds, TriedIds, AllBuckets, BucketTokens, Known;
    ghost var s := m.View();
    ghost var good := Inv(m.net, s, NOBODY);
    ghost var fr := Ascending(NewIds(s.infos));
    if good {
      TargetsOfValid(m.net, s);
      CountsOf(m.net, s);
    }
    out := [ByteT(0), KeyT(m.key), IntT(m.nNew), IntT(m.nTried), IntT(NEW_BUCKET_COUNT)];
    var recs, index := CollectEntries(m.infos, false, m.nNew);
    out := out + recs;
    var recs2, _ := CollectEntries(m.infos, true, m.nTried);
    out := out + recs2;
    if good {
      RecordsConcat(m.infos, fr, Ascending(TriedIds(s.infos)));
      assert out == Header(s) + Records(s.infos, Order(s.infos));
    }
    ghost var before := out;
    StartBuckets(fr, m.news);
    for b := 0 to |m.news|
      invariant good ==> out == before + AllBuckets(fr, m.news[..b])
    {
      var tokens := SaveBucket(fr, index, m.news[b]);
      if good {
        BucketIndex(m.net, s, index, b);
        BucketsWithNext(fr, m.news, b);
      }
      out := out + tokens;
    }
    assert m.news[..|m.news|] == m.news;
  }

  lemma StartBuckets(fr: seq<int>, news: seq<set<int>>)
    ensures AllBuckets(fr, news[..0]) == []
  {
  }

  lemma CountsOf(net: Net, s: State)
    requires Inv(net, s, NOBODY)
    ensures s.nNew == |NewIds(s.infos)| && s.nTried == |TriedIds(s.infos)|
  {
    hide Linked, Shuffled, TriedTable, NewTable;
  }

  // ---------------------------------------------------------------- reading entries

  const HEADER := 5  // tokens before the first record

  /** `tokens` hold the records of the entries `order[..m]`. */
  ghost predicate RecordsAt(tokens: seq<Token>, infos: Infos, order: seq<int>, m: nat) {
    && m <= |order| && HEADER + m <= |tokens| && Known(infos, order)
    && forall n :: 0 <= n < m ==> tokens[HEADER + n] == RecT(ToRecord(infos[order[n]]))
  }

  /** The entries read so far: the first `n` of `order`. */
  ghost predicate EntriesUpTo(infos: Infos, order: seq<int>, n: nat, infos': Infos)
    requires n <= |order| && Known(infos, order)
  {
    && (forall j :: j in infos' <==> 0 <= j < n)
    && (forall j :: 0 <= j < n ==> infos'[j] == infos[order[j]].(lastTry := 0, randomPos := j, refCount := 0))
  }

  /** Their addresses. */
  ghost predicate IdsUpTo(infos: Infos, order: seq<int>, n: nat, ids': map<NetAddr, int>)
    requires n <= |order| && Known(infos, order)
  {
    && (forall a <- ids' :: 0 <= ids'[a] < n && infos[order[ids'[a]]].service.host == a)
    && (forall j :: 0 <= j < n ==> infos[order[j]].service.host in ids')
  }

  ghost predicate RandomUpTo(n: nat, random: seq<int>) {
    |random| == n && forall j :: 0 <= j < n ==> random[j] == j
  }

  ghost predicate ReadUpTo(infos: Infos, order: seq<int>, n: nat, infos': Infos, ids': map<NetAddr, int>,
                           random: seq<int>)
  {
    && n <= |order| && Known(infos, order)
    && EntriesUpTo(infos, order, n, infos') && IdsUpTo(infos, order, n, ids') && RandomUpTo(n, random)
  }

  lemma ReadOne(infos: Infos, order: seq<int>, n: nat, infos': Infos, ids': map<NetAddr, int>, random: seq<int>,
                info: Info)
    requires ReadUpTo(infos, order, n, infos', ids', random) && n < |order|
    requires info == infos[order[n]].(lastTry := 0, randomPos := n, refCount := 0)
    ensures ReadUpTo(infos, order, n + 1, infos'[n := info], ids'[info.service.host := n], random + [n])
  {
    var more, mids := infos'[n := info], ids'[info.service.host := n];
    assert forall j :: j in more <==> j in infos' || j == n;
    assert EntriesUpTo(infos, order, n + 1, more);
    assert IdsUpTo(infos, order, n + 1, mids);
    assert RandomUpTo(n + 1, random + [n]);
  }

  lemma ReadNothing(infos: Infos, order: seq<int>)
    requires Known(infos, order)
    ensures ReadUpTo(infos, order, 0, map[], map[], [])
  {
  }

  /** The loop that reads the new entries. */
  method ReadNew(tokens: seq<Token>, nNew: int, ghost infos: Infos, ghost order: seq<int>)
    returns (ok: bool, infos': Infos, ids': map<NetAddr, int>, random: seq<int>)
    ensures nNew >= 0 && RecordsAt(tokens, infos, order, nNew)
            && (forall n :: 0 <= n < nNew ==> !infos[order[n]].inTried) ==>
              ok && ReadUpTo(infos, order, nNew, infos', ids', random)
  {
    hide ReadUpTo;
    ok, infos', ids', random := true, map[], map[], [];
    ghost var good := nNew >= 0 && RecordsAt(tokens, infos, order, nNew)
                      && (forall n :: 0 <= n < nNew ==> !infos[order[n]].inTried);
    if good {
      ReadNothing(infos, order);
    }
    var n := 0;
    while n < nNew
      invariant 0 <= n && (good ==> n <= nNew && |random| == n && ReadUpTo(infos, order, n, infos', ids', random))
    {
      assert good ==> HEADER + n < |tokens| && tokens[HEADER + n] == RecT(ToRecord(infos[order[n]]));
      if HEADER + n >= |tokens| || !tokens[HEADER + n].RecT? {
        return false, infos', ids', random;
      }
      var info := FromRecord(tokens[HEADER + n].rec);
      info := info.(randomPos := |random|);
      if good {
        ReadOne(infos, order, n, infos', ids', random, info);
      }
      infos' := infos'[n := info];
      ids' := ids'[info.service.host := n];
      random := random + [n];
      n := n + 1;
    }
  }

  /** The tried buckets after reading the entries `order[..n]`. */
  ghost predicate TriedUpTo(net: Net, key: seq<bv8>, infos: Infos, order: seq<int>, n: nat, tried': seq<seq<int>>)
    requires n <= |order| && Known(infos, order)
  {
    && |tried'| == TRIED_BUCKET_COUNT
    && (forall k :: 0 <= k < |tried'| ==> NoDuplicates(tried'[k]))
    && (forall k, j :: 0 <= k < |tried'| ==>
          (j in tried'[k] <==> 0 <= j < n && HasHome(net, key, infos, order, j, k)))
  }

  predicate HasHome(net: Net, key: seq<bv8>, infos: Infos, order: seq<int>, j: nat, k: nat)
    requires j < |order| && Known(infos, order)
  {
    infos[order[j]].inTried && TriedBucket(net, key, infos[order[j]]) == k
  }

  lemma TriedOne(net: Net, key: seq<bv8>, infos: Infos, order: seq<int>, n: nat, tried': seq<seq<int>>, k: nat)
    requires n < |order| && Known(infos, order) && TriedUpTo(net, key, infos, order, n, tried')
    requires k == TriedBucket(net, key, infos[order[n]]) && infos[order[n]].inTried
    ensures TriedUpTo(net, key, infos, order, n + 1, tried'[k := tried'[k] + [n]])
  {
    hide TriedBucket;
    var more := tried'[k := tried'[k] + [n]];
    assert forall j :: j in more[k] <==> j in tried'[k] || j == n;
    assert forall i :: 0 <= i < |tried'[k]| ==> tried'[k][i] in tried'[k];
    assert NoDuplicates(more[k]);
  }

  /** There is room in the bucket: it cannot outgrow the bucket it was written from. */
  lemma TriedHasRoom(net: Net, key: seq<bv8>, infos: Infos, order: seq<int>, n: nat, tried: seq<seq<int>>,
                     tried': seq<seq<int>>, k: nat)
    requires TriedTable(net, key, infos, tried) && NoDuplicates(order)
    requires n < |order| && Known(infos, order) && TriedUpTo(net, key, infos, order, n, tried')
    requires k == TriedBucket(net, key, infos[order[n]]) && infos[order[n]].inTried
    ensures |tried'[k]| < TRIED_BUCKET_SIZE
  {
    TriedOne(net, key, infos, order, n, tried', k);
    var grown := tried'[k] + [n];
    assert grown == tried'[k := grown][k];
    forall i | 0 <= i < |grown|
      ensures Renumbers(order, grown[i], tried[k])
    {
      assert grown[i] in grown;
      TriedAt(net, key, infos, tried, order[grown[i]]);
    }
    RenumberedLength(order, tried[k], grown);
  }

  /** The loop that reads the tried entries; `lost` counts those without room. */
  method ReadTried(net: Net, key: seq<bv8>, tokens: seq<Token>, start: nat, nTried: int,
                   infos0: Infos, ids0: map<NetAddr, int>, random0: seq<int>,
                   ghost infos: Infos, ghost order: seq<int>, ghost tried: seq<seq<int>>)
    returns (ok: bool, idCount: nat, infos': Infos, ids': map<NetAddr, int>, random: seq<int>,
             tried': seq<seq<int>>, lost: nat)
    ensures nTried >= 0 && |order| == start + nTried && RecordsAt(tokens, infos, order, |order|)
            && (forall n :: start <= n < |order| ==> infos[order[n]].inTried)
            && (forall n :: 0 <= n < start ==> !infos[order[n]].inTried)
            && NoDuplicates(order) && TriedTable(net, key, infos, tried)
            && ReadUpTo(infos, order, start, infos0, ids0, random0) ==>
              && ok && lost == 0 && idCount == |order|
              && ReadUpTo(infos, order, |order|, infos', ids', random)
              && TriedUpTo(net, key, infos, order, |order|, tried')
  {
    hide ReadUpTo, TriedUpTo, TriedBucket, TriedTable, NoDuplicates;
    ok, idCount, infos', ids', random, lost := true, start, infos0, ids0, random0, 0;
    tried' := seq(TRIED_BUCKET_COUNT, _ => []);
    ghost var good := nTried >= 0 && |order| == start + nTried && RecordsAt(tokens, infos, order, |order|)
            && (forall n :: start <= n < |order| ==> infos[order[n]].inTried)
            && (forall n :: 0 <= n < start ==> !infos[order[n]].inTried)
            && NoDuplicates(order) && TriedTable(net, key, infos, tried)
            && ReadUpTo(infos, order, start, infos0, ids0, random0);
    if good {
      TriedNone(net, key, infos, order, start, tried');
      ReadLength(infos, order, start, infos0, ids0, random0);
    }
    var n := 0;
    while n < nTried
      invariant 0 <= n && |tried'| == TRIED_BUCKET_COUNT
      invariant good ==> n <= nTried && lost == 0 && idCount == start + n && |random| == start + n
      invariant good ==> ReadUpTo(infos, order, start + n, infos', ids', random)
      invariant good ==> TriedUpTo(net, key, infos, order, start + n, tried')
    {
      assert good ==> HEADER + (start + n) < |tokens|
                      && tokens[HEADER + (start + n)] == RecT(ToRecord(infos[order[start + n]]));
      if HEADER + start + n >= |tokens| || !tokens[HEADER + start + n].RecT? {
        ok := false;
        return;
      }
      var info := FromRecord(tokens[HEADER + start + n].rec);
      var k := TriedBucket(net, key, info);
      if good {
        SameBucket(net, key, info, infos[order[start + n]]);
        TriedHasRoom(net, key, infos, order, start + n, tried, tried', k);
        TriedOne(net, key, infos, order, start + n, tried', k);
        ReadOne(infos, order, start + n, infos', ids', random, info.(randomPos := |random|, inTried := true));
      }
      if |tried'[k]| < TRIED_BUCKET_SIZE {
        info := info.(randomPos := |random|, inTried := true);
        random := random + [idCount];
        infos' := infos'[idCount := info];
        ids' := ids'[info.service.host := idCount];
        tried' := tried'[k := tried'[k] + [idCount]];
        idCount := idCount + 1;
      } else {
        lost := lost + 1;
      }
      n := n + 1;
    }
  }

  lemma SameBucket(net: Net, key: seq<bv8>, a: Info, b: Info)
    requires a.service == b.service
    ensures TriedBucket(net, key, a) == TriedBucket(net, key, b)
  {
  }

  lemma TriedNone(net: Net, key: seq<bv8>, infos: Infos, order: seq<int>, n: nat, tried': seq<seq<int>>)
    requires n <= |order| && Known(infos, order) && forall j :: 0 <= j < n ==> !infos[order[j]].inTried
    requires |tried'| == TRIED_BUCKET_COUNT && forall k :: 0 <= k < |tried'| ==> tried'[k] == []
    ensures TriedUpTo(net, key, infos, order, n, tried')
  {
    hide TriedBucket;
  }

  lemma ReadLength(infos: Infos, order: seq<int>, n: nat, infos': Infos, ids': map<NetAddr, int>, random: seq<int>)
    requires ReadUpTo(infos, order, n, infos', ids', random)
    ensures |random| == n
  {
  }

  // ---------------------------------------------------------------- reading buckets

  /** The new table after reading the buckets `news[..b]` and the entries `done` of the
      next one: renumbered members, and reference counts of what has been met. */
  ghost predicate NewUpTo(news: seq<set<int>>, order: seq<int>, b: nat, done: seq<int>,
                          start: Infos, infos': Infos, news': seq<set<int>>)
    requires b <= |news|
  {
    && |news'| == |news|
    && (forall c, n :: 0 <= c < b ==> (n in news'[c] <==> Relocates(order, n, news[c])))
    && (forall n :: b < |news| ==> (n in news'[b] <==> Renumbers(order, n, done)))
    && (forall c :: b < c < |news| ==> news'[c] == {})
    && (forall n :: n in infos' <==> n in start)
    && (forall n <- infos' :: n in start && 0 <= n < |order|
          && infos'[n] == start[n].(refCount := AddrCheck.Met(news[..b], done, order[n])))
  }

  lemma NewOne(news: seq<set<int>>, order: seq<int>, b: nat, done: seq<int>, start: Infos, infos': Infos,
               news': seq<set<int>>, n: nat)
    requires b < |news| && NewUpTo(news, order, b, done, start, infos', news')
    requires NoDuplicates(order) && n < |order| && n in infos' && order[n] !in done
    ensures NewUpTo(news, order, b, done + [order[n]], start,
                    infos'[n := infos'[n].(refCount := infos'[n].refCount + 1)], news'[b := news'[b] + {n}])
  {
    var more, news'' := done + [order[n]], news'[b := news'[b] + {n}];
    var infos'' := infos'[n := infos'[n].(refCount := infos'[n].refCount + 1)];
    forall m
      ensures Renumbers(order, m, more) <==> Renumbers(order, m, done) || m == n
    {
      if 0 <= m < |order| {
        MetNext(news[..b], done, order[n], order[m]);
      }
    }
    forall m | m in infos''
      ensures m in start && 0 <= m < |order|
      ensures infos''[m] == start[m].(refCount := AddrCheck.Met(news[..b], more, order[m]))
    {
      assert m in infos';
      MetNext(news[..b], done, order[n], order[m]);
    }
    assert forall m :: m in infos'' <==> m in infos';
  }

  lemma MetNext(before: seq<set<int>>, done: seq<int>, x: int, y: int)
    requires x !in done
    ensures AddrCheck.Met(before, done + [x], y) == AddrCheck.Met(before, done, y) + (if x == y then 1 else 0)
    ensures y in done + [x] <==> y in done || y == x
  {
    hide Holders;
  }

  lemma NewBucketDone(news: seq<set<int>>, order: seq<int>, b: nat, done: seq<int>, start: Infos, infos': Infos,
                      news': seq<set<int>>)
    requires b < |news| && NewUpTo(news, order, b, done, start, infos', news')
    requires forall id :: id in done <==> id in news[b]
    ensures NewUpTo(news, order, b + 1, [], start, infos', news')
  {
    forall c, n | 0 <= c < b + 1
      ensures n in news'[c] <==> Relocates(order, n, news[c])
    {
      if c == b && 0 <= n < |order| {
        SameMembers(done, news[b], order[n]);
      }
    }
    var upto := news[..b + 1];
    assert upto[..b] == news[..b] && upto[b] == news[b];
    forall n | n in infos'
      ensures 0 <= n < |order| && AddrCheck.Met(upto, [], order[n]) == AddrCheck.Met(news[..b], done, order[n])
    {
      HoldersWithLast(upto, order[n]);
      SameMembers(done, news[b], order[n]);
    }
    hide AddrCheck.Met;
  }

  lemma SameMembers(done: seq<int>, b: set<int>, x: int)
    requires forall id :: id in done <==> id in b
    ensures x in done <==> x in b
  {
  }

  lemma {:induction false} BucketsPrefix(fr: seq<int>, news: seq<set<int>>, n: nat)
    requires n <= |news|
    ensures AllBuckets(fr, news[..n]) <= AllBuckets(fr, news)
    decreases |news| - n
  {
    if n == |news| {
      assert news[..n] == news;
    } else {
      BucketsWithNext(fr, news, n);
      BucketsPrefix(fr, news, n + 1);
    }
  }

  /** Position of the tokens of bucket `b`. */
  ghost function Offset(fr: seq<int>, news: seq<set<int>>, b: nat): nat
    requires b <= |news|
  {
    |AllBuckets(fr, news[..b])|
  }

  /** `tokens` hold all buckets from position `base` on. */
  ghost predicate BucketsAt(tokens: seq<Token>, base: nat, fr: seq<int>, news: seq<set<int>>) {
    base <= |tokens| && tokens[base..] == AllBuckets(fr, news)
  }

  lemma TokenOfBucket(tokens: seq<Token>, base: nat, fr: seq<int>, news: seq<set<int>>, b: nat, i: nat)
    requires BucketsAt(tokens, base, fr, news) && b < |news| && i <= |news[b]|
    ensures Offset(fr, news, b + 1) == Offset(fr, news, b) + 1 + |news[b]|
    ensures base + Offset(fr, news, b + 1) <= |tokens|
    ensures tokens[base + Offset(fr, news, b) + i] == BucketTokens(fr, news[b])[i]
  {
    hide AllBuckets, BucketTokens;
    BucketsWithNext(fr, news, b);
    BucketsPrefix(fr, news, b + 1);
    TokenWithin(tokens, base, AllBuckets(fr, news), AllBuckets(fr, news[..b]), BucketTokens(fr, news[b]), i);
  }

  /** Where an element of a part of a suffix is. */
  lemma TokenWithin(tokens: seq<Token>, base: nat, all: seq<Token>, before: seq<Token>, part: seq<Token>, i: nat)
    requires base <= |tokens| && tokens[base..] == all && before + part <= all && i < |part|
    ensures base + |before| + |part| <= |tokens| && tokens[base + |before| + i] == part[i]
  {
    var upto := before + part;
    assert upto[|before| + i] == part[i];
    assert all[|before| + i] == upto[|before| + i];
  }

  lemma BucketAt(tokens: seq<Token>, base: nat, fr: seq<int>, news: seq<set<int>>, b: nat)
    requires BucketsAt(tokens, base, fr, news) && b < |news|
    ensures Offset(fr, news, b + 1) == Offset(fr, news, b) + 1 + |news[b]|
    ensures base + Offset(fr, news, b + 1) <= |tokens|
    ensures tokens[base + Offset(fr, news, b)] == IntT(|news[b]|)
    ensures forall i :: 0 <= i < |news[b]| ==>
              tokens[base + Offset(fr, news, b) + 1 + i] == IntT(IndexIn(fr, Ascending(news[b])[i]))
  {
    hide Offset, BucketsAt, IndexIn, Ascending;
    TokenOfBucket(tokens, base, fr, news, b, 0);
    forall i | 0 <= i < |news[b]|
      ensures tokens[base + Offset(fr, news, b) + 1 + i] == IntT(IndexIn(fr, Ascending(news[b])[i]))
    {
      TokenOfBucket(tokens, base, fr, news, b, 1 + i);
    }
  }

  /** One more reference is within the limit: it is one of those that were written. */
  lemma RefStillLow(net: Net, s: State, b: nat, xs: seq<int>, i: nat)
    requires Inv(net, s, NOBODY) && b < |s.news| && i < |xs| && Increasing(xs)
    requires forall x :: x in xs <==> x in s.news[b]
    ensures AddrCheck.Met(s.news[..b], xs[..i], xs[i]) < NEW_BUCKETS_PER_ADDRESS
    ensures xs[i] !in xs[..i]
  {
    hide Inv, Holders;
    var id := xs[i];
    assert id in xs;
    NewFacts(net, s, NOBODY);
    NewHolders(net, s, id);
    AddrCheck.HoldersMonotone(s.news, b, id);
  }

  /** The index of a member of a new bucket leads back to that member. */
  lemma IndexLeadsBack(net: Net, s: State, b: nat, id: int)
    requires Inv(net, s, NOBODY) && b < |s.news| && id in s.news[b]
    ensures var n := IndexIn(Ascending(NewIds(s.infos)), id); n < |Order(s.infos)| && Order(s.infos)[n] == id
  {
    hide Inv, Ascending, IndexIn;
    NewFacts(net, s, NOBODY);
    assert id in NewIds(s.infos);
    assert id in Ascending(NewIds(s.infos));
  }

  const BLANK := Info(Service(NetAddr([]), 0), 1, 100000000, 0, NetAddr([]), 0, 0, 0, false, -1)

  /** What holds while buckets are being read back from the image of `s`. */
  ghost predicate ReadingBuckets(net: Net, s: State, tokens: seq<Token>, base: nat, infos0: Infos) {
    && Inv(net, s, NOBODY)
    && BucketsAt(tokens, base, Ascending(NewIds(s.infos)), s.news)
    && (forall n :: n in infos0 <==> 0 <= n < |Order(s.infos)|)
    && (forall n <- infos0 :: infos0[n].refCount == 0)
  }

  /** The tokens of bucket `b` stand from `at` on, and have been read up to the first `i` entries. */
  ghost predicate InBucket(net: Net, s: State, tokens: seq<Token>, at: nat, b: nat, i: nat, start: Infos,
                           infos': Infos, news': seq<set<int>>)
  {
    && b < |s.news| == |news'| && i <= |s.news[b]|
    && Inv(net, s, NOBODY) && TokensOf(tokens, at, Ascending(NewIds(s.infos)), Ascending(s.news[b]))
    && (forall n :: n in start <==> 0 <= n < |Order(s.infos)|)
    && NewUpTo(s.news, Order(s.infos), b, Ascending(s.news[b])[..i], start, infos', news')
  }

  ghost predicate TokensOf(tokens: seq<Token>, at: nat, fr: seq<int>, xs: seq<int>) {
    && at + 1 + |xs| <= |tokens| && tokens[at] == IntT(|xs|)
    && forall i :: 0 <= i < |xs| ==> tokens[at + 1 + i] == IntT(IndexIn(fr, xs[i]))
  }

  lemma BucketStarts(net: Net, s: State, tokens: seq<Token>, base: nat, b: nat, start: Infos,
                     infos': Infos, news': seq<set<int>>)
    requires ReadingBuckets(net, s, tokens, base, start) && b < |s.news| == |news'|
    requires NewUpTo(s.news, Order(s.infos), b, [], start, infos', news')
    ensures var at := base + Offset(Ascending(NewIds(s.infos)), s.news, b);
      && InBucket(net, s, tokens, at, b, 0, start, infos', news')
      && at < |tokens| && tokens[at] == IntT(|s.news[b]|)
      && base + Offset(Ascending(NewIds(s.infos)), s.news, b + 1) == at + 1 + |s.news[b]|
  {
    hide Inv, Ascending, IndexIn, NewUpTo, Order, NewIds, Offset, BucketsAt;
    BucketAt(tokens, base, Ascending(NewIds(s.infos)), s.news, b);
    assert Ascending(s.news[b])[..0] == [];
  }

  /** Reading one more entry of a bucket. */
  lemma BucketEntry(net: Net, s: State, tokens: seq<Token>, at: nat, b: nat, i: nat, start: Infos,
                    infos': Infos, news': seq<set<int>>)
    requires InBucket(net, s, tokens, at, b, i, start, infos', news') && i < |s.news[b]|
    ensures at + 1 + i < |tokens| && tokens[at + 1 + i].IntT?
    ensures var n := tokens[at + 1 + i].i;
      && n in infos' && infos'[n].refCount < NEW_BUCKETS_PER_ADDRESS
      && InBucket(net, s, tokens, at, b, i + 1, start,
                  infos'[n := infos'[n].(refCount := infos'[n].refCount + 1)], news'[b := news'[b] + {n}])
  {
    hide Inv, Ascending, IndexIn, NewUpTo, Order, NewIds;
    var xs := Ascending(s.news[b]);
    var id := xs[i];
    assert id in xs;
    var n := IndexIn(Ascending(NewIds(s.infos)), id);
    OrderFacts(s.infos);
    IndexLeadsBack(net, s, b, id);
    RefStillLow(net, s, b, xs, i);
    NewEntryAt(s.news, Order(s.infos), b, xs[..i], start, infos', news', n);
    NewOne(s.news, Order(s.infos), b, xs[..i], start, infos', news', n);
    assert xs[..i] + [id] == xs[..i + 1];
  }

  lemma BucketEnds(net: Net, s: State, tokens: seq<Token>, at: nat, b: nat, start: Infos,
                   infos': Infos, news': seq<set<int>>)
    requires b < |s.news| && InBucket(net, s, tokens, at, b, |s.news[b]|, start, infos', news')
    ensures NewUpTo(s.news, Order(s.infos), b + 1, [], start, infos', news')
  {
    hide Inv, Ascending, IndexIn, NewUpTo, Order, NewIds, TokensOf;
    var xs := Ascending(s.news[b]);
    assert xs[..|xs|] == xs;
    NewBucketDone(s.news, Order(s.infos), b, xs, start, infos', news');
  }

  /** Reads one bucket. */
  method ReadBucket(tokens: seq<Token>, at: nat, b: nat, infos0: Infos, news0: seq<set<int>>,
                    ghost net: Net, ghost s: State, ghost base: nat, ghost start: Infos)
    returns (ok: bool, pos: nat, infos': Infos, news': seq<set<int>>)
    requires b < |news0| == NEW_BUCKET_COUNT
    ensures |news'| == |news0|
    ensures ReadingBuckets(net, s, tokens, base, start) && |s.news| == NEW_BUCKET_COUNT
            && at == base + Offset(Ascending(NewIds(s.infos)), s.news, b)
            && NewUpTo(s.news, Order(s.infos), b, [], start, infos0, news0) ==>
              && ok && pos == base + Offset(Ascending(NewIds(s.infos)), s.news, b + 1)
              && NewUpTo(s.news, Order(s.infos), b + 1, [], start, infos', news')
  {
    hide ReadingBuckets, InBucket, Ascending, NewUpTo, Order, Offset, NewIds;
    ghost var fr, order := Ascending(NewIds(s.infos)), Order(s.infos);
    ghost var good := ReadingBuckets(net, s, tokens, base, start) && |s.news| == NEW_BUCKET_COUNT
                      && at == base + Offset(fr, s.news, b) && NewUpTo(s.news, order, b, [], start, infos0, news0);
    ok, pos, infos', news' := false, at, infos0, news0;
    if good {
      BucketStarts(net, s, tokens, base, b, start, infos', news');
    }
    if pos >= |tokens| || !tokens[pos].IntT? {
      return;
    }
    var nSize := tokens[pos].i;
    pos := pos + 1;
    var n := 0;
    while n < nSize
      invariant 0 <= n && |news'| == |news0| && pos == at + 1 + n
      invariant good ==> nSize == |s.news[b]| && n <= nSize && InBucket(net, s, tokens, at, b, n, start, infos', news')
    {
      if good {
        BucketEntry(net, s, tokens, at, b, n, start, infos', news');
      }
      if pos >= |tokens| || !tokens[pos].IntT? {
        return;
      }
      var nIndex := tokens[pos].i;
      pos := pos + 1;
      var info := if nIndex in infos' then infos'[nIndex] else BLANK;
      if info.refCount < NEW_BUCKETS_PER_ADDRESS {
        infos' := infos'[nIndex := info.(refCount := info.refCount + 1)];
        news' := news'[b := news'[b] + {nIndex}];
      } else {
        infos' := infos'[nIndex := info];
      }
      n := n + 1;
    }
    ok := true;
    if good {
      BucketEnds(net, s, tokens, at, b, start, infos', news');
    }
  }

  lemma NewEntryAt(news: seq<set<int>>, order: seq<int>, b: nat, done: seq<int>, start: Infos, infos': Infos,
                   news': seq<set<int>>, n: int)
    requires b <= |news| && NewUpTo(news, order, b, done, start, infos', news') && n in start
    ensures n in infos' && 0 <= n < |order| && infos'[n].refCount == AddrCheck.Met(news[..b], done, order[n])
  {
  }

  /** Reads all buckets. */
  method ReadBuckets(tokens: seq<Token>, base: nat, infos0: Infos, ghost net: Net, ghost s: State)
    returns (ok: bool, infos': Infos, news': seq<set<int>>)
    ensures ReadingBuckets(net, s, tokens, base, infos0) && |s.news| == NEW_BUCKET_COUNT ==>
              ok && NewUpTo(s.news, Order(s.infos), NEW_BUCKET_COUNT, [], infos0, infos', news')
  {
    hide ReadingBuckets, NewUpTo, Order, NewIds, Ascending, Offset;
    ghost var fr, order := Ascending(NewIds(s.infos)), Order(s.infos);
    ghost var good := ReadingBuckets(net, s, tokens, base, infos0) && |s.news| == NEW_BUCKET_COUNT;
    ok, infos', news' := true, infos0, seq(NEW_BUCKET_COUNT, _ => {});
    if good {
      NoBucketsYet(net, s, tokens, base, infos0, news');
    }
    var pos := base;
    for b := 0 to NEW_BUCKET_COUNT
      invariant ok && |news'| == NEW_BUCKET_COUNT
      invariant good ==> pos == base + Offset(fr, s.news, b) && NewUpTo(s.news, order, b, [], infos0, infos', news')
    {
      ok, pos, infos', news' := ReadBucket(tokens, pos, b, infos', news', net, s, base, infos0);
      if !ok {
        return;
      }
    }
  }

  lemma NoBucketsYet(net: Net, s: State, tokens: seq<Token>, base: nat, infos0: Infos, news': seq<set<int>>)
    requires ReadingBuckets(net, s, tokens, base, infos0) && |s.news| == NEW_BUCKET_COUNT
    requires |news'| == NEW_BUCKET_COUNT && forall b :: 0 <= b < NEW_BUCKET_COUNT ==> news'[b] == {}
    ensures Offset(Ascending(NewIds(s.infos)), s.news, 0) == 0
    ensures NewUpTo(s.news, Order(s.infos), 0, [], infos0, infos0, news')
  {
    hide Inv, Ascending, Order;
    assert s.news[..0] == [];
    forall n | n in infos0
      ensures AddrCheck.Met([], [], Order(s.infos)[n]) == 0
    {
      HoldersOfNone(Order(s.infos)[n]);
    }
  }

  // ---------------------------------------------------------------- the round trip

  lemma ImageParts(net: Net, s: State)
    requires Inv(net, s, NOBODY)
    ensures Known(s.infos, Order(s.infos)) && RecordsAt(Image(s), s.infos, Order(s.infos), |Order(s.infos)|)
    ensures BucketsAt(Image(s), HEADER + |Order(s.infos)|, Ascending(NewIds(s.infos)), s.news)
    ensures |Image(s)| >= HEADER && Image(s)[..HEADER] == Header(s)
    ensures |Order(s.infos)| == s.nNew + s.nTried && s.nNew >= 0 && s.nTried >= 0 && NoDuplicates(Order(s.infos))
    ensures forall n :: 0 <= n < |Order(s.infos)| ==> (s.infos[Order(s.infos)[n]].inTried <==> n >= s.nNew)
  {
    hide Inv, Order, Ascending, AllBuckets, NoDuplicates;
    OrderFacts(s.infos);
    CountsOf(net, s);
    SplitSize(s.infos);
    hide NewIds, TriedIds;
  }

  /** The pieces that have been read make up the reloaded manager. */
  lemma Assemble(net: Net, s: State, infos0: Infos, t: State)
    requires Inv(net, s, NOBODY) && |s.news| == NEW_BUCKET_COUNT && Known(s.infos, Order(s.infos))
    requires ReadUpTo(s.infos, Order(s.infos), |Order(s.infos)|, infos0, t.ids, t.random)
    requires TriedUpTo(net, s.key, s.infos, Order(s.infos), |Order(s.infos)|, t.tried)
    requires NewUpTo(s.news, Order(s.infos), NEW_BUCKET_COUNT, [], infos0, t.infos, t.news)
    requires t.key == s.key && t.nNew == s.nNew && t.nTried == s.nTried && t.idCount == |Order(s.infos)|
    ensures Reloaded(s, t)
  {
    hide Inv, Order, NoDuplicates;
    var order := Order(s.infos);
    AssembleEntries(net, s, order, infos0, t.infos, t.news) by {
      OrderFacts(s.infos);
    }
    AssembleIds(net, s, order, t.ids) by {
      OrderFacts(s.infos);
    }
    AssembleTried(net, s, order, t.tried);
    assert SameNew(s.news, order, t.news);
  }

  lemma AssembleEntries(net: Net, s: State, order: seq<int>, infos0: Infos, infos': Infos, news': seq<set<int>>)
    requires Inv(net, s, NOBODY) && |s.news| == NEW_BUCKET_COUNT && Known(s.infos, order)
    requires EntriesUpTo(s.infos, order, |order|, infos0)
    requires NewUpTo(s.news, order, NEW_BUCKET_COUNT, [], infos0, infos', news')
    ensures SameEntries(s.infos, order, infos')
  {
    hide Inv, Holders;
    assert s.news[..NEW_BUCKET_COUNT] == s.news;
    forall n | 0 <= n < |order|
      ensures n in infos' && infos'[n] == s.infos[order[n]].(lastTry := 0, randomPos := n)
    {
      assert n in infos0;
      RefsExactAt(net, s, order[n]);
    }
  }

  lemma RefsExactAt(net: Net, s: State, id: int)
    requires Inv(net, s, NOBODY) && id in s.infos
    ensures s.infos[id].refCount == AddrCheck.Met(s.news, [], id)
  {
    hide Inv, Holders;
    if s.infos[id].inTried {
      TriedUnreferenced(net, s, id);
    } else {
      NewHolders(net, s, id);
    }
  }

  lemma AssembleIds(net: Net, s: State, order: seq<int>, ids': map<NetAddr, int>)
    requires Inv(net, s, NOBODY) && Known(s.infos, order) && forall id :: id in order <==> id in s.infos
    requires IdsUpTo(s.infos, order, |order|, ids')
    ensures SameIds(s.ids, order, ids')
  {
    hide TriedTable, NewTable, Shuffled, Counted;
    forall a | a in ids'
      ensures a in s.ids && 0 <= ids'[a] < |order| && order[ids'[a]] == s.ids[a]
    {
      LinkedAt(s.idCount, s.infos, s.ids, order[ids'[a]]);
    }
    forall a | a in s.ids
      ensures a in ids'
    {
      var id := s.ids[a];
      assert id in order;
      var j :| 0 <= j < |order| && order[j] == id;
      assert s.infos[order[j]].service.host in ids';
    }
  }

  lemma AssembleTried(net: Net, s: State, order: seq<int>, tried': seq<seq<int>>)
    requires Inv(net, s, NOBODY) && Known(s.infos, order) && TriedUpTo(net, s.key, s.infos, order, |order|, tried')
    ensures SameTried(s.tried, order, tried')
  {
    hide Linked, NewTable, Shuffled, Counted, NoDuplicates, TriedBucket;
    forall k, n | 0 <= k < |s.tried|
      ensures n in tried'[k] <==> Renumbers(order, n, s.tried[k])
    {
      if 0 <= n < |order| {
        TriedAt(net, s.key, s.infos, s.tried, order[n]);
        assert n in tried'[k] <==> HasHome(net, s.key, s.infos, order, n, k);
      }
    }
  }

  /** Both loops over records. */
  method ReadEntries(net: Net, key: seq<bv8>, tokens: seq<Token>, nNew: int, nTried: int, ghost s: State)
    returns (ok: bool, idCount: nat, infos: Infos, ids: map<NetAddr, int>, random: seq<int>, tried: seq<seq<int>>,
             lost: nat, pos: nat)
    ensures Inv(net, s, NOBODY) && Known(s.infos, Order(s.infos)) && tokens == Image(s)
            && key == s.key && nNew == s.nNew && nTried == s.nTried ==>
              && ok && lost == 0 && idCount == |Order(s.infos)| && pos == HEADER + |Order(s.infos)|
              && ReadUpTo(s.infos, Order(s.infos), |Order(s.infos)|, infos, ids, random)
              && TriedUpTo(net, key, s.infos, Order(s.infos), |Order(s.infos)|, tried)
  {
    hide Inv, Order, Ascending, NewIds, ReadUpTo, TriedUpTo, RecordsAt, BucketsAt, NoDuplicates, TriedTable,
         TriedBucket, Image, Known;
    ghost var good := Inv(net, s, NOBODY) && Known(s.infos, Order(s.infos)) && tokens == Image(s)
                      && key == s.key && nNew == s.nNew && nTried == s.nTried;
    ghost var order := Order(s.infos);
    if good {
      ImageParts(net, s);
      RecordsPrefix(tokens, s.infos, order, |order|, nNew);
      TriedTableOf(net, s);
    }
    idCount, tried, lost, pos := 0, [], 0, 0;
    ok, infos, ids, random := ReadNew(tokens, nNew, s.infos, order);
    if !ok {
      return;
    }
    var start := if nNew < 0 then 0 else nNew;
    ok, idCount, infos, ids, random, tried, lost :=
      ReadTried(net, key, tokens, start, nTried, infos, ids, random, s.infos, order, s.tried);
    pos := HEADER + start + (if nTried < 0 then 0 else nTried);
  }

  /** Deserialization. Reading back the image of any valid manager succeeds and gives
      that manager up to renumbering, again valid. */
  method Load(m: AddrMan, tokens: seq<Token>, ghost s: State) returns (ok: bool)
    modifies m
    ensures Inv(m.net, s, NOBODY) && Known(s.infos, Order(s.infos)) && tokens == Image(s) ==>
              ok && Reloaded(s, m.View()) && Inv(m.net, m.View(), NOBODY)
  {
    hide Inv, Order, Ascending, NewIds, ReadUpTo, TriedUpTo, NewUpTo, RecordsAt, BucketsAt, Reloaded, NoDuplicates,
         TriedBucket, Known, Image, ReadingBuckets;
    ghost var good := Inv(m.net, s, NOBODY) && Known(s.infos, Order(s.infos)) && tokens == Image(s);
    ghost var order := Order(s.infos);
    if good {
      HeaderOf(m.net, s);
    }
    ok := |tokens| >= HEADER && tokens[0].ByteT? && tokens[1].KeyT?
      && tokens[2].IntT? && tokens[3].IntT? && tokens[4].IntT?;
    if !ok {
      return;
    }
    m.key, m.nNew, m.nTried := tokens[1].key, tokens[2].i, tokens[3].i;
    var nUBuckets := tokens[4].i;
    if nUBuckets != NEW_BUCKET_COUNT {
      return false;  // reading a different number of buckets is not modelled
    }
    var infos, lost, pos;
    ok, m.idCount, infos, m.ids, m.random, m.tried, lost, pos := ReadEntries(m.net, m.key, tokens, m.nNew, m.nTried, s);
    if !ok {
      return;
    }
    m.nTried := m.nTried - lost;
    if good {
      StartReadingBuckets(m.net, s, tokens, pos, infos, m.ids, m.random);
    }
    ok, m.infos, m.news := ReadBuckets(tokens, pos, infos, m.net, s);
    if good {
      Assemble(m.net, s, infos, m.View());
      ReloadedKeepsInv(m.net, s, m.View());
    }
  }

  /** Saving any valid manager and loading the result into another one gives that manager back
      up to renumbering. */
  method SaveAndLoad(m: AddrMan, copy: AddrMan) returns (ok: bool)
    requires m.Valid() && copy != m && copy.net == m.net
    modifies copy
    ensures ok && Reloaded(m.View(), copy.View()) && copy.Valid()
  {
    hide Inv, Reloaded, Image, Known, Order;
    var out := Save(m);
    ok := Load(copy, out, m.View());
  }

  lemma HeaderOf(net: Net, s: State)
    requires Inv(net, s, NOBODY) && Known(s.infos, Order(s.infos))
    ensures |s.news| == NEW_BUCKET_COUNT && |Image(s)| >= HEADER
    ensures Image(s)[0] == ByteT(0) && Image(s)[1] == KeyT(s.key)
    ensures Image(s)[2] == IntT(s.nNew) && Image(s)[3] == IntT(s.nTried) && Image(s)[4] == IntT(NEW_BUCKET_COUNT)
    ensures BucketsAt(Image(s), HEADER + |Order(s.infos)|, Ascending(NewIds(s.infos)), s.news)
  {
    hide Inv, Order, Ascending, AllBuckets, BucketsAt, Records, NewIds;
    ImageParts(net, s);
    NewFacts(net, s, NOBODY);
  }

  lemma RecordsPrefix(tokens: seq<Token>, infos: Infos, order: seq<int>, m: nat, n: int)
    requires RecordsAt(tokens, infos, order, m) && 0 <= n <= m
    ensures RecordsAt(tokens, infos, order, n)
  {
  }

  lemma TriedTableOf(net: Net, s: State)
    requires Inv(net, s, NOBODY)
    ensures TriedTable(net, s.key, s.infos, s.tried)
  {
    hide Linked, Shuffled, NewTable, Counted, TriedTable;
  }

  lemma StartReadingBuckets(net: Net, s: State, tokens: seq<Token>, base: nat, infos0: Infos,
                            ids0: map<NetAddr, int>, random0: seq<int>)
    requires Inv(net, s, NOBODY) && BucketsAt(tokens, base, Ascending(NewIds(s.infos)), s.news)
    requires ReadUpTo(s.infos, Order(s.infos), |Order(s.infos)|, infos0, ids0, random0)
    ensures ReadingBuckets(net, s, tokens, base, infos0)
  {
    hide Inv, Ascending, Order, NewIds, BucketsAt;
  }
}
