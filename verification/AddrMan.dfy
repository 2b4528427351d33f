/** The stochastic address manager (src/addrman.cpp): every method is the source's
    operation on mutable tables, proved against the step relations. */
module AddrManager {
  import opened IntSets
  import opened Bits
  import opened AddrState
  import opened AddrSteps
  import opened AddrRuns

  class AddrMan {
    const net: Net
    var key: seq<bv8>
    var idCount: int
    var infos: Infos
    var ids: map<NetAddr, int>
    var random: seq<int>
    var nTried: int
    var tried: seq<seq<int>>
    var nNew: int
    var news: seq<set<int>>

    ghost function View(): State
      reads this
    {
      State(key, idCount, infos, ids, random, nTried, tried, nNew, news)
    }

    ghost predicate Valid()
      reads this
    {
      Inv(net, View(), NOBODY)
    }

    constructor (net: Net, key: seq<bv8>)
      ensures this.net == net && View() == Empty(key) && Valid()
    {
      this.net := net;
      this.key := key;
      idCount, infos, ids, random := 0, map[], map[], [];
      nTried, tried := 0, seq(TRIED_BUCKET_COUNT, _ => []);
      nNew, news := 0, seq(NEW_BUCKET_COUNT, _ => {});
      new;
      EmptyInv(net, key);
    }

    method Find(host: NetAddr) returns (found: bool, id: int)
      ensures found <==> host in ids && ids[host] in infos
      ensures found ==> id == ids[host]
    {
      if host !in ids {
        return false, -1;
      }
      id := ids[host];
      found := id in infos;
    }

    method SwapRandom(i: int, j: int)
      requires i == j || Swappable(infos, random, i, j)
      modifies this`infos, this`random
      ensures View() == SwapPositions(old(View()), i, j)
    {
      if i == j {
        return;
      }
      var id1, id2 := random[i], random[j];
      infos := infos[id1 := infos[id1].(randomPos := j)];
      infos := infos[id2 := infos[id2].(randomPos := i)];
      random := random[i := id2];
      random := random[j := id1];
    }

    /** The removal common to both branches of `ShrinkNew`. */
    method DropReference(b: nat, id: int)
      requires id in infos && Swappable(infos, random, infos[id].randomPos, |random| - 1) && b < |news|
      modifies this
      ensures View() == Unref(old(View()), b, id)
    {
      infos := infos[id := infos[id].(refCount := infos[id].refCount - 1)];
      if infos[id].refCount == 0 {
        var host := infos[id].service.host;
        SwapRandom(infos[id].randomPos, |random| - 1);
        random := random[..|random| - 1];
        ids := ids - {host};
        infos := infos - {id};
        nNew := nNew - 1;
      }
      news := news[b := news[b] - {id}];
    }

    /** The loop of `SelectTried`, on one bucket. */
    static method ShuffleAndPick(infos: Infos, xs: seq<int>, dice: Dice)
      returns (bucket: seq<int>, pos: int, ghost win: nat)
      requires Known(infos, xs)
      ensures xs == [] ==> pos == -1 && bucket == xs
      ensures xs != [] ==> pos >= 0 && Selected(infos, xs, dice, bucket, win, pos)
    {
      hide Picking, Selected, Known, SwapAt, Roll;
      bucket, pos, win := xs, -1, 0;
      var oldest, i := -1, 0;
      PickStart(infos, xs, dice);
      while i < INSPECT_ON_EVICT && i < |bucket|
        invariant i <= INSPECT_ON_EVICT && i <= |bucket| == |xs|
        invariant i == 0 ==> pos == -1 && bucket == xs
        invariant Picking(infos, xs, dice, i, bucket, oldest, pos, win)
      {
        ghost var before := bucket;
        var p := Roll(dice(i), |bucket| - i) + i;
        var temp := bucket[p];
        bucket := bucket[p := bucket[i]];
        bucket := bucket[i := temp];
        PickStep(infos, xs, dice, i, before, bucket, oldest, pos, win);
        if pos == -1 || infos[temp].lastSuccess < infos[oldest].lastSuccess {
          oldest, pos, win := temp, p, i;
        }
        i := i + 1;
      }
      PickEnd(infos, xs, dice, i, bucket, oldest, pos, win);
    }

    method SelectTried(k: nat, dice: Dice) returns (pos: int, ghost win: nat)
      requires k < |tried| && Known(infos, tried[k])
      modifies this`tried
      ensures |tried| == |old(tried)| && tried == old(tried)[k := tried[k]]
      ensures old(tried)[k] == [] ==> pos == -1 && tried == old(tried)
      ensures old(tried)[k] != [] ==> pos >= 0 && Selected(infos, old(tried)[k], dice, tried[k], win, pos)
    {
      hide Selected;
      var bucket;
      bucket, pos, win := ShuffleAndPick(infos, tried[k], dice);
      tried := tried[k := bucket];
    }

    /** Scan of `ShrinkNew` for an entry that may simply be deleted. */
    static method FindTerrible(infos: Infos, xs: seq<int>, now: int) returns (found: bool, v: int, ghost at: nat)
      requires Known(infos, xs)
      ensures !found ==> forall j :: 0 <= j < |xs| ==> !IsTerrible(infos[xs[j]], now)
      ensures found ==> at < |xs| && v == xs[at] && IsTerrible(infos[v], now)
      ensures found ==> forall j :: 0 <= j < at ==> !IsTerrible(infos[xs[j]], now)
    {
      hide IsTerrible;
      for n := 0 to |xs|
        invariant forall j :: 0 <= j < n ==> !IsTerrible(infos[xs[j]], now)
      {
        if IsTerrible(infos[xs[n]], now) {
          return true, xs[n], n;
        }
      }
      return false, -1, 0;
    }

    /** Scan of `ShrinkNew` for the oldest of the entries at the sampled positions. */
    static method OldestSample(infos: Infos, xs: seq<int>, n: seq<nat>) returns (v: int)
      requires Known(infos, xs) && Increasing(xs) && forall i :: 0 <= i < |xs| ==> xs[i] >= 0
      requires n != [] && forall j :: 0 <= j < |n| ==> n[j] < |xs|
      ensures OldestSampled(infos, xs, n, v)
    {
      v := -1;
      ghost var at := 0;
      for nI := 0 to |xs|
        invariant v == -1 <==> forall j :: 0 <= j < |n| ==> n[j] >= nI
        invariant v != -1 ==> 0 <= at < |n| && v == xs[n[at]] && n[at] < nI
        invariant v != -1 ==> forall j :: 0 <= j < |n| && n[j] < nI ==> Precedes(infos, v, xs[n[j]])
      {
        if nI in n {
          if v == -1 || infos[xs[nI]].time < infos[v].time {
            at :| 0 <= at < |n| && n[at] == nI;
            v := xs[nI];
          }
        }
      }
      assert n[0] < |xs|;
    }

    /** The choice made by `ShrinkNew`. */
    static method PickVictim(infos: Infos, bucket: set<int>, now: int, dice: Dice) returns (code: int, v: int)
      requires bucket != {} && forall x <- bucket :: x in infos && x >= 0
      ensures IsVictim(infos, bucket, now, dice, v)
      ensures code == if exists x <- bucket :: IsTerrible(infos[x], now) then 0 else 1
    {
      hide IsTerrible, Ascending, OldestSampled;
      var xs := Ascending(bucket);
      assert forall i :: 0 <= i < |xs| ==> xs[i] in xs;
      var found;
      ghost var at;
      found, v, at := FindTerrible(infos, xs, now);
      if found {
        code := 0;
        FirstTerribleIsVictim(infos, bucket, now, dice, at);
      } else {
        forall x <- bucket ensures !IsTerrible(infos[x], now) {
          assert x in xs;
        }
        code := 1;
        v := OldestSample(infos, xs, Rolls(dice, |bucket|));
      }
    }

    method ShrinkNew(b: nat, now: int, dice: Dice, ghost owed: int) returns (code: int, ghost v: int)
      requires Inv(net, View(), owed) && b < |news| && news[b] != {} && owed !in news[b]
      modifies this
      ensures Shrunk(old(View()), b, now, dice, v, View()) && Inv(net, View(), owed)
      ensures code == if exists x <- old(news)[b] :: x in old(infos) && IsTerrible(old(infos)[x], now) then 0 else 1
    {
      hide Inv, IsTerrible, IsVictim, Unref, Swappable;
      ghost var s := View();
      NewFacts(net, s, owed);
      IdFacts(net, s, owed);
      var id;
      code, id := PickVictim(infos, news[b], now, dice);
      v := id;
      VictimInBucket(infos, news[b], now, dice, v);
      UnrefKeepsInv(net, s, owed, b, v);
      DropReference(b, id);
    }

    /** First part of `MakeTried`: removes an entry from all new buckets. */
    method EraseFromNew(id: int)
      requires id in infos
      modifies this`infos, this`news
      ensures news == Cleared(old(news), id)
      ensures infos == old(infos)[id := old(infos)[id].(refCount := old(infos)[id].refCount - |Holders(old(news), id)|)]
    {
      hide Holders;
      ghost var was, info := news, infos[id];
      HoldersOfNone(id);
      assert was[..0] == [];
      for b := 0 to |news|
        invariant |news| == |was| && id in infos
        invariant forall c :: 0 <= c < |was| ==> news[c] == if c < b then was[c] - {id} else was[c]
        invariant infos == old(infos)[id := info.(refCount := info.refCount - |Holders(was[..b], id)|)]
      {
        HoldersWithLast(was[..b + 1], id);
        assert was[..b + 1][..b] == was[..b];
        if id in news[b] {
          news := news[b := news[b] - {id}];
          infos := infos[id := infos[id].(refCount := infos[id].refCount - 1)];
        }
      }
      assert was[..|was|] == was;
      assert news == Cleared(was, id);
    }

    method MakeTried(id: int, origin: nat, dice: Dice)
      requires Valid() && id in infos && !infos[id].inTried
      requires origin < NEW_BUCKET_COUNT && |news| == NEW_BUCKET_COUNT && id in news[origin]
      modifies this
      ensures MadeTried(net, old(View()), id, origin, dice, View()) && Valid()
    {
      hide Inv, Holders, Selected, NewBucket;
      ghost var s := View();
      NewFacts(net, s, NOBODY);
      TriedFacts(net, s, NOBODY);
      NewHolders(net, s, id);
      EraseFromNew(id);
      nNew := nNew - 1;
      assert infos[id] == s.infos[id].(refCount := 0);
      var k := TriedBucket(net, key, infos[id]);
      assert k == TriedBucket(net, key, s.infos[id]);
      if |tried[k]| < TRIED_BUCKET_SIZE {
        tried := tried[k := tried[k] + [id]];
        nTried := nTried + 1;
        infos := infos[id := infos[id].(inTried := true)];
        assert View() == Promote(s, id, k);
      } else {
        Replace(s, id, origin, k, dice);
      }
      MadeTriedKeepsInv(net, s, id, origin, dice, View());
    }

    /** Last part of `MakeTried`: the tried bucket `k` is full, so an entry is evicted. */
    method Replace(ghost s: State, id: int, origin: nat, k: nat, dice: Dice)
      requires Inv(net, s, NOBODY) && id in s.infos && !s.infos[id].inTried && origin < NEW_BUCKET_COUNT
      requires k == TriedBucket(net, s.key, s.infos[id]) && k < |s.tried| && |s.tried[k]| == TRIED_BUCKET_SIZE
      requires View() == s.(infos := s.infos[id := s.infos[id].(refCount := 0)], news := Cleared(s.news, id),
                            nNew := s.nNew - 1)
      modifies this
      ensures exists order: seq<int>, win: nat, pos: nat :: Selected(s.infos, s.tried[k], dice, order, win, pos)
                && |s.news| == NEW_BUCKET_COUNT
                && View() == Exchange(s, id, k, order, pos, EvictionBucket(net, s, id, order[pos], origin))
    {
      hide Inv, TriedBucket, ShuffleFront, OldestOf, EvictionBucket, Exchange;
      NewFacts(net, s, NOBODY);
      TriedFacts(net, s, NOBODY);
      TriedKnown(net, s, k, infos);
      var pos, win := SelectTried(k, dice);
      ghost var order := tried[k];
      assert Selected(s.infos, s.tried[k], dice, order, win, pos) by {
        SelectedFrame(infos, s.infos, s.tried[k], dice, order, win, pos);
      }
      SelectedFacts(net, s, k, dice, order, win, pos);
      assert order[pos] != id;
      Evict(s, id, origin, k, order, pos);
    }

    /** The entry at `pos` goes back to a new bucket, and `id` takes its slot. */
    method Evict(ghost s: State, id: int, origin: nat, k: nat, ghost order: seq<int>, pos: nat)
      requires id in s.infos && origin < NEW_BUCKET_COUNT && |s.news| == NEW_BUCKET_COUNT
      requires k < |s.tried| && pos < |order| && order[pos] in s.infos && order[pos] != id
      requires View() == s.(infos := s.infos[id := s.infos[id].(refCount := 0)], news := Cleared(s.news, id),
                            nNew := s.nNew - 1, tried := s.tried[k := order])
      modifies this
      ensures View() == Exchange(s, id, k, order, pos, EvictionBucket(net, s, id, order[pos], origin))
    {
      hide NewBucket;
      var evicted := tried[k][pos];
      var b := NewBucket(net, key, infos[evicted], infos[evicted].source);
      ExchangedInfos(infos, s.infos, id, evicted);
      infos := infos[evicted := infos[evicted].(inTried := false, refCount := 1)];
      if |news[b]| < NEW_BUCKET_SIZE {
        news := news[b := news[b] + {evicted}];
      } else {
        news := news[origin := news[origin] + {evicted}];
      }
      nNew := nNew + 1;
      tried := tried[k := tried[k][pos := id]];
      infos := infos[id := infos[id].(inTried := true)];
    }

    method Good(service: Service, time: int, dice: Dice)
      requires Valid()
      modifies this
      ensures Valid() && GoodStep(net, old(View()), service, time, dice, View())
    {
      hide Inv, MadeTried, HolderAfter;
      ghost var s := View();
      var found, id := Find(service.host);
      if !found {
        return;
      }
      if infos[id].service != service {
        return;
      }
      infos := infos[id := infos[id].(lastSuccess := time, lastTry := time, time := ToUint32(time), attempts := 0)];
      PutKeepsInv(net, s, NOBODY, id, infos[id]);
      if infos[id].inTried {
        return;
      }
      NewFacts(net, s, NOBODY);
      var start := Roll(dice(0), |news|);
      var origin := FindHolder(id, start);
      if origin == -1 {
        SomeHolder(net, s, id, start);
        return;
      }
      assert FirstHolder(s.news, id, start, origin);
      MakeTried(id, origin, Later(dice));
    }

    /** The wrapped search of `Good_` for a new bucket that holds `id`. */
    method FindHolder(id: int, start: nat) returns (b: int)
      requires |news| > 0
      ensures b == -1 ==> forall n :: 0 <= n < |news| ==> id !in news[Probe(start, n, |news|)]
      ensures b != -1 ==> 0 <= b < |news| && id in news[b] && FirstHolder(news, id, start, b)
    {
      for n := 0 to |news|
        invariant forall m :: 0 <= m < n ==> id !in news[Probe(start, m, |news|)]
      {
        var nB := (n + start) % |news|;
        if id in news[nB] {
          assert HolderAfter(news, id, start, n, nB);
          return nB;
        }
      }
      return -1;
    }

    method Attempt(service: Service, time: int)
      requires Valid()
      modifies this`infos
      ensures Valid() && View() == Attempted(old(View()), service, time)
    {
      hide Inv;
      AttemptKeepsInv(net, View(), service, time);
      var found, id := Find(service.host);
      if found && infos[id].service == service {
        infos := infos[id := infos[id].(lastTry := time, attempts := infos[id].attempts + 1)];
      }
    }

    method Connected(service: Service, time: int)
      requires Valid()
      modifies this`infos
      ensures Valid() && View() == Touched(old(View()), service, time)
    {
      hide Inv;
      ConnectedKeepsInv(net, View(), service, time);
      var found, id := Find(service.host);
      if found && infos[id].service == service {
        if time - infos[id].time > 20 * 60 {
          infos := infos[id := infos[id].(time := ToUint32(time))];
        }
      }
    }

    /** The stochastic factor of `Add_`, doubled for every reference. */
    static method Factor(refCount: int) returns (factor: nat)
      ensures if refCount > 0 then factor == Pow2(refCount) > 1 else factor == 1
    {
      factor := 1;
      var n := 0;
      while n < refCount
        invariant 0 <= n <= Max(0, refCount) && factor == Pow2(n) && (factor > 1 <==> n > 0)
      {
        factor := factor * 2;
        n := n + 1;
      }
    }

    /** The tests by which `Add_` decides whether a known entry gets one more bucket. */
    static method PassesTests(info: Info, a: Address, dice: Dice) returns (spread: bool)
      ensures spread <==> Spreads(info, a, dice)
    {
      hide Roll;
      if a.time == 0 || (info.time != 0 && a.time <= info.time) {
        return false;
      }
      if info.inTried {
        return false;
      }
      if info.refCount == NEW_BUCKETS_PER_ADDRESS {
        return false;
      }
      var factor := Factor(info.refCount);
      return !(factor > 1 && Roll(dice(0), factor) != 0);
    }

    /** The update `Add_` makes to a known entry. */
    method Refresh(id: int, a: Address, penalty: int, now: int)
      requires id in infos
      modifies this`infos
      ensures infos == old(infos)[id := Refreshed(old(infos)[id], a, penalty, now)]
    {
      hide ToUint32, Max, WithServices;
      var interval := if now - a.time < 24 * 60 * 60 then 60 * 60 else 24 * 60 * 60;
      var info := infos[id];
      if a.time != 0 && (info.time == 0 || info.time < a.time - interval - penalty) {
        info := info.(time := ToUint32(Max(0, a.time - penalty)));
      }
      infos := infos[id := info.(services := WithServices(info.services, a.services))];
    }

    /** `Create`. */
    method Create(a: Address, source: NetAddr) returns (id: int)
      modifies this
      ensures id == old(idCount)
      ensures View() == old(View()).(
        idCount := id + 1,
        infos := old(infos)[id := Info(a.service, a.services, a.time, 0, source, 0, 0, 0, false, |old(random)|)],
        ids := old(ids)[a.service.host := id],
        random := old(random) + [id])
    {
      id := idCount;
      idCount := idCount + 1;
      infos := infos[id := Info(a.service, a.services, a.time, 0, source, 0, 0, 0, false, -1)];
      ids := ids[a.service.host := id];
      infos := infos[id := infos[id].(randomPos := |random|)];
      random := random + [id];
    }

    /** Last part of `Add_`: `id` enters bucket `b`. */
    method Attach(id: int, b: nat, now: int, dice: Dice)
      requires id in infos && !infos[id].inTried && Inv(net, Owe(View(), id), id)
      requires b < NEW_BUCKET_COUNT && |news| == NEW_BUCKET_COUNT && id !in news[b]
      modifies this
      ensures Attached(Owe(old(View()), id), id, b, now, dice, View()) && Valid()
    {
      hide Inv, Shrunk;
      infos := infos[id := infos[id].(refCount := infos[id].refCount + 1)];
      ghost var s := View();
      assert s == Owe(old(View()), id);
      NewFacts(net, s, id);
      if |news[b]| == NEW_BUCKET_SIZE {
        var code, v := ShrinkNew(b, now, dice, id);
        ShrunkKeepsInv(net, s, id, b, now, dice, v, View());
      }
      news := news[b := news[b] + {id}];
      AttachedKeepsInv(net, s, id, b, now, dice, View());
    }

    method Add(a: Address, source: NetAddr, penalty: int, now: int, dice: Dice) returns (added: bool)
      requires Valid()
      modifies this
      ensures Valid() && AddStep(net, old(View()), a, source, penalty, now, dice, View(), added)
    {
      hide Inv, Attached, Refreshed, Spreads;
      if !net.routable(a.service.host) {
        return false;
      }
      ghost var s := View();
      NewFacts(net, s, NOBODY);
      IdFacts(net, s, NOBODY);
      var found, id := Find(a.service.host);
      if found {
        Refresh(id, a, penalty, now);
        var spread := PassesTests(infos[id], a, dice);
        RefreshedFacts(s.infos[id], a, penalty, now);
        PutKeepsInv(net, s, NOBODY, id, infos[id]);
        if !spread {
          return false;
        }
        SpreadsFacts(infos[id], a, dice);
        var b := NewBucket(net, key, infos[id], source);
        if id !in news[b] {
          OweKeepsInv(net, View(), id);
          Attach(id, b, now, Later(dice));
        }
        added := false;
      } else {
        id := Create(a, source);
        infos := infos[id := infos[id].(time := ToUint32(Max(0, infos[id].time - penalty)))];
        nNew := nNew + 1;
        added := true;
        ghost var i := Created(a, source, penalty);
        assert Owe(View(), id) == Enroll(s, i);
        EnrollKeepsInv(net, s, i);
        var b := NewBucket(net, key, infos[id], source);
        assert id !in s.infos;
        Attach(id, b, now, Later(dice));
      }
    }

    /** `GetAddr_`: a bounded random selection of distinct known addresses. */
    method GetAddr(dice: Dice) returns (addrs: seq<Address>)
      requires Valid()
      modifies this`infos, this`random
      ensures Valid() && GetAddrStep(net, old(View()), dice, View())
      ensures |addrs| == AddrLimit(|old(random)|) && Listed(infos, random, addrs)
      ensures |addrs| <= |old(random)| == |random| && random[..|addrs|] == Draws(old(random), dice, |addrs|)
      ensures |addrs| == var n := 23 * |old(random)| / 100; if n > 2500 then 2500 else n
      ensures forall i, j :: 0 <= i < j < |addrs| ==> addrs[i].service.host != addrs[j].service.host
    {
      hide Linked, Shuffled, TriedTable, NewTable, Counted, SameButPositions, Swappable, SwapPositions, Roll,
           Listed, ShuffleFront, Draws;
      ghost var s := View();
      var nNodes := GETADDR_MAX_PCT * |random| / 100;
      if nNodes > GETADDR_MAX {
        nNodes := GETADDR_MAX;
      }
      assert nNodes == AddrLimit(|random|) <= |random|;
      hide AddrLimit;
      GetAddrStart(s, dice);
      addrs := [];
      for n := 0 to nNodes
        invariant |random| == |s.random| && random == ShuffleFront(s.random, dice, n)
        invariant Inv(net, View(), NOBODY) && View() == s.(infos := infos, random := random)
        invariant SameButPositions(s.infos, infos)
        invariant |addrs| == n && Listed(infos, random, addrs)
      {
        var p := Roll(dice(n), |random| - n) + n;
        GetAddrRound(net, s, View(), dice, n, p, addrs);
        SwapRandom(n, p);
        addrs := addrs + [AsAddress(infos[random[n]])];
      }
      ListedDistinct(net, View(), addrs);
      ShuffleDraws(s.random, dice, nNodes);
    }
  }

  /** The addresses of the first entries of `random`. */
  ghost predicate Listed(infos: Infos, random: seq<int>, addrs: seq<Address>) {
    && |addrs| <= |random|
    && (forall i :: 0 <= i < |addrs| ==> random[i] in infos && addrs[i] == AsAddress(infos[random[i]]))
  }

  lemma ListedDistinct(net: Net, s: State, addrs: seq<Address>)
    requires Inv(net, s, NOBODY) && Listed(s.infos, s.random, addrs)
    ensures forall i, j :: 0 <= i < j < |addrs| ==> addrs[i].service.host != addrs[j].service.host
  {
    hide Inv;
    forall i, j | 0 <= i < j < |addrs|
      ensures addrs[i].service.host != addrs[j].service.host
    {
      DistinctHosts(net, s, i, j);
    }
  }

  lemma GetAddrStart(s: State, dice: Dice)
    ensures ShuffleFront(s.random, dice, 0) == s.random && SameButPositions(s.infos, s.infos)
    ensures Listed(s.infos, s.random, [])
  {
  }

  /** One round of `GetAddr_`: the entries listed so far keep their positions. */
  lemma GetAddrRound(net: Net, s: State, t: State, dice: Dice, n: nat, p: nat, addrs: seq<Address>)
    requires Inv(net, t, NOBODY) && SameButPositions(s.infos, t.infos) && n < |s.random|
    requires t.random == ShuffleFront(s.random, dice, n) && p == Draw(dice, n, |s.random|)
    requires |addrs| == n && Listed(t.infos, t.random, addrs)
    ensures Swappable(t.infos, t.random, n, p)
    ensures var u := SwapPositions(t, n, p);
            && Inv(net, u, NOBODY) && u.random == ShuffleFront(s.random, dice, n + 1)
            && SameButPositions(s.infos, u.infos)
            && u.random[n] in u.infos && Listed(u.infos, u.random, addrs + [AsAddress(u.infos[u.random[n]])])
  {
    hide Linked, Shuffled, TriedTable, NewTable, Counted, SameButPositions, Swappable, SwapPositions;
    SwapKeepsInv(net, t, NOBODY, n, p);
    SwapSameButPositions(s.infos, t, n, p);
    var u := SwapPositions(t, n, p);
    assert u.random == ShuffleFront(s.random, dice, n + 1);
    hide ShuffleFront;
    assert u.random == SwapAt(t.random, n, p);
    var more := addrs + [AsAddress(u.infos[u.random[n]])] by {
      RandomIsKnown(net, u, n);
    }
    forall i | 0 <= i < |more|
      ensures u.random[i] in u.infos && more[i] == AsAddress(u.infos[u.random[i]])
    {
      RandomIsKnown(net, u, i);
      if i < n {
        assert u.random[i] == t.random[i];
        SameAddress(s.infos, u.infos, u.random[i]);
        SameAddress(s.infos, t.infos, t.random[i]);
      }
    }
  }

  lemma RandomIsKnown(net: Net, s: State, i: nat)
    requires Inv(net, s, NOBODY) && i < |s.random|
    ensures s.random[i] in s.infos
  {
    hide Linked, TriedTable, NewTable, Counted;
  }

  lemma SameAddress(a: Infos, b: Infos, id: int)
    requires SameButPositions(a, b) && id in b
    ensures id in a && AsAddress(a[id]) == AsAddress(b[id])
  {
    assert id in a.Keys;
  }
}
