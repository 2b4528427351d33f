/** Every operation keeps the invariant of the address manager, and so does every
    run; what is conserved along a run, and how large the tables can grow. */
module AddrRuns {
  import opened IntSets
  import opened Bits
  import opened AddrState
  import opened AddrSteps

  datatype Op =
    | Add(addr: Address, source: NetAddr, penalty: int, now: int, dice: Dice)
    | Good(service: Service, time: int, dice: Dice)
    | Attempt(service: Service, time: int)
    | Connected(service: Service, time: int)
    | GetAddr(dice: Dice)

  /** One call. Outside the invariant a call may do anything. */
  ghost predicate Step(net: Net, s: State, op: Op, t: State) {
    Inv(net, s, NOBODY) ==>
    match op
    case Add(a, source, penalty, now, dice) => exists added :: AddStep(net, s, a, source, penalty, now, dice, t, added)
    case Good(service, time, dice) => GoodStep(net, s, service, time, dice, t)
    case Attempt(service, time) => t == Attempted(s, service, time)
    case Connected(service, time) => t == Touched(s, service, time)
    case GetAddr(dice) => GetAddrStep(net, s, dice, t)
  }

  // ------------------------------------------------------- one step keeps the invariant

  lemma ShrunkKeepsInv(net: Net, s: State, owed: int, b: nat, now: int, dice: Dice, v: int, t: State)
    requires Inv(net, s, owed) && b < NEW_BUCKET_COUNT && |s.news| == NEW_BUCKET_COUNT
    requires Shrunk(s, b, now, dice, v, t) && owed !in s.news[b]
    ensures v in s.news[b] && Inv(net, t, owed)
    ensures t.news == s.news[b := s.news[b] - {v}] && |t.news[b]| == |s.news[b]| - 1
    ensures forall x <- s.infos :: x != v ==> x in t.infos && t.infos[x].inTried == s.infos[x].inTried
  {
    hide Inv, Swappable, IsTerrible, Unref;
    assert v in s.news[b];
    UnrefKeepsInv(net, s, owed, b, v);
    UnrefEffect(s, b, v);
    assert forall x <- s.infos :: x != v ==> x in t.infos.Keys;
  }

  lemma AttachedKeepsInv(net: Net, s: State, id: int, b: nat, now: int, dice: Dice, t: State)
    requires Inv(net, s, id) && b < NEW_BUCKET_COUNT && |s.news| == NEW_BUCKET_COUNT && |s.news[b]| <= NEW_BUCKET_SIZE
    requires id in s.infos && !s.infos[id].inTried && id !in s.news[b]
    requires Attached(s, id, b, now, dice, t)
    ensures Inv(net, t, NOBODY)
  {
    hide Inv, Shrunk;
    if |s.news[b]| == NEW_BUCKET_SIZE {
      var v, u :| Shrunk(s, b, now, dice, v, u) && b < |u.news| && t == Place(u, b, id);
      ShrunkKeepsInv(net, s, id, b, now, dice, v, u);
      PlaceKeepsInv(net, u, b, id);
    } else {
      PlaceKeepsInv(net, s, b, id);
    }
  }

  lemma NewFacts(net: Net, s: State, owed: int)
    requires Inv(net, s, owed)
    ensures |s.news| == NEW_BUCKET_COUNT
    ensures forall b :: 0 <= b < |s.news| ==> |s.news[b]| <= NEW_BUCKET_SIZE
    ensures forall b, id :: 0 <= b < |s.news| && id in s.news[b] ==> id in s.infos && !s.infos[id].inTried
    ensures forall id <- s.infos :: !s.infos[id].inTried ==> 1 <= s.infos[id].refCount <= NEW_BUCKETS_PER_ADDRESS
  {
    hide Linked, Shuffled, TriedTable, Counted, Holders;
  }

  lemma NewHolders(net: Net, s: State, id: int)
    requires Inv(net, s, NOBODY) && id in s.infos && !s.infos[id].inTried
    ensures 1 <= s.infos[id].refCount == |Holders(s.news, id)|
  {
    hide Shuffled, Counted, TriedTable, Holders;
  }

  /** The wrapped search for a holder of a new entry cannot fail. */
  lemma SomeHolder(net: Net, s: State, id: int, start: nat)
    requires Inv(net, s, NOBODY) && id in s.infos && !s.infos[id].inTried && |s.news| > 0
    ensures exists n :: 0 <= n < |s.news| && id in s.news[Probe(start, n, |s.news|)]
  {
    hide Inv;
    NewHolders(net, s, id);
    var b := Member(Holders(s.news, id));
    ProbeHits(start, |s.news|, b);
  }

  /** Every bucket is probed. */
  lemma ProbeHits(start: nat, size: nat, b: nat)
    requires b < size
    ensures exists n :: 0 <= n < size && Probe(start, n, size) == b
  {
    var r := start % size;
    var n := if r <= b then b - r else b - r + size;
    assert (n + start) % size == b by {
      var q := start / size;
      assert n + start == (if r <= b then q else q + 1) * size + b;
      DivRem(n + start, size, if r <= b then q else q + 1, b);
    }
    assert Probe(start, n, size) == b;
  }

  /** A tried entry is in no new bucket. */
  lemma TriedUnreferenced(net: Net, s: State, id: int)
    requires Inv(net, s, NOBODY) && id in s.infos && s.infos[id].inTried
    ensures s.infos[id].refCount == 0 && Holders(s.news, id) == {} && |Holders(s.news, id)| == 0
  {
    hide Linked, Shuffled, Counted;
  }

  lemma TriedFacts(net: Net, s: State, owed: int)
    requires Inv(net, s, owed)
    ensures |s.tried| == TRIED_BUCKET_COUNT
    ensures forall k :: 0 <= k < |s.tried| ==> |s.tried[k]| <= TRIED_BUCKET_SIZE && NoDuplicates(s.tried[k])
    ensures forall k, id :: 0 <= k < |s.tried| && id in s.tried[k] ==> id in s.infos && s.infos[id].inTried
  {
    hide Linked, Shuffled, NewTable, Counted, TriedBucket;
  }

  /** The entries of a tried bucket are known. */
  lemma TriedKnown(net: Net, s: State, k: nat, infos: Infos)
    requires Inv(net, s, NOBODY) && k < |s.tried| && forall id <- s.infos :: id in infos
    ensures Known(infos, s.tried[k])
  {
    hide Inv;
    TriedFacts(net, s, NOBODY);
    forall i | 0 <= i < |s.tried[k]| ensures s.tried[k][i] in infos {
      var id: int := s.tried[k][i];
      assert id in s.tried[k];
    }
  }

  lemma IdFacts(net: Net, s: State, owed: int)
    requires Inv(net, s, owed)
    ensures forall id <- s.infos :: 0 <= id < s.idCount
    ensures forall a <- s.ids :: s.ids[a] in s.infos && s.infos[s.ids[a]].service.host == a
    ensures forall id <- s.infos :: s.infos[id].service.host in s.ids && s.ids[s.infos[id].service.host] == id
  {
    hide Shuffled, TriedTable, NewTable, Counted;
  }

  lemma SpreadsFacts(i: Info, a: Address, dice: Dice)
    requires Spreads(i, a, dice) && (!i.inTried ==> i.refCount <= NEW_BUCKETS_PER_ADDRESS)
    ensures !i.inTried && i.refCount < NEW_BUCKETS_PER_ADDRESS
  {
  }

  lemma RefreshedFacts(i: Info, a: Address, penalty: int, now: int)
    ensures var r := Refreshed(i, a, penalty, now); r == i.(time := r.time, services := r.services)
  {
  }

  lemma AddKnownKeepsInv(net: Net, s: State, id: int, a: Address, source: NetAddr, penalty: int, now: int,
                         dice: Dice, t: State)
    requires Inv(net, s, NOBODY) && AddStep(net, s, a, source, penalty, now, dice, t, false)
    requires net.routable(a.service.host) && a.service.host in s.ids && id == s.ids[a.service.host]
    ensures Inv(net, t, NOBODY)
  {
    hide Inv, Attached;
    NewFacts(net, s, NOBODY);
    IdFacts(net, s, NOBODY);
    var i := Refreshed(s.infos[id], a, penalty, now);
    var b := NewBucket(net, s.key, i, source);
    var u := Put(s, id, i);
    PutKeepsInv(net, s, NOBODY, id, i);
    if Spreads(i, a, dice) && id !in s.news[b] {
      OweKeepsInv(net, u, id);
      AttachedKeepsInv(net, Owe(u, id), id, b, now, Later(dice), t);
    }
  }

  lemma AddKeepsInv(net: Net, s: State, a: Address, source: NetAddr, penalty: int, now: int, dice: Dice, t: State,
                    added: bool)
    requires Inv(net, s, NOBODY) && AddStep(net, s, a, source, penalty, now, dice, t, added)
    ensures Inv(net, t, NOBODY)
  {
    hide Inv, Attached, Refreshed, Spreads;
    if net.routable(a.service.host) {
      if a.service.host in s.ids {
        AddKnownKeepsInv(net, s, s.ids[a.service.host], a, source, penalty, now, dice, t);
      } else {
        NewFacts(net, s, NOBODY);
        IdFacts(net, s, NOBODY);
        var i := Created(a, source, penalty);
        EnrollKeepsInv(net, s, i);
        var b := NewBucket(net, s.key, i, source);
        assert 0 <= b < |s.news|;
        assert s.idCount !in s.infos;
        assert s.idCount !in s.news[b];
        AttachedKeepsInv(net, Enroll(s, i), s.idCount, b, now, Later(dice), t);
      }
    }
  }

  /** The eviction bucket has room: the origin has just lost the promoted entry. */
  lemma EvictionBucketHasRoom(net: Net, s: State, id: int, evicted: int, origin: nat)
    requires evicted in s.infos && |s.news| == NEW_BUCKET_COUNT && origin < NEW_BUCKET_COUNT && id in s.news[origin]
    ensures var b := EvictionBucket(net, s, id, evicted, origin); |s.news[b]| < NEW_BUCKET_SIZE || id in s.news[b]
  {
    var b := EvictionBucket(net, s, id, evicted, origin);
    if id !in s.news[b] {
      assert s.news[b] - {id} == s.news[b];
    }
  }

  /** A selected position is in range, and holds a tried entry. */
  lemma SelectedFacts(net: Net, s: State, k: nat, dice: Dice, order: seq<int>, win: nat, pos: nat)
    requires Inv(net, s, NOBODY) && k < |s.tried|
    requires Selected(s.infos, s.tried[k], dice, order, win, pos)
    ensures Reordered(s.tried[k], order) && pos < |order|
    ensures order[pos] in s.infos && s.infos[order[pos]].inTried
  {
    hide Inv, ShuffleFront, OldestOf, Known, NoDuplicates, Reordered, Roll;
    TriedFacts(net, s, NOBODY);
    ShuffleReorders(s.tried[k], dice, Min(INSPECT_ON_EVICT, |s.tried[k]|));
    var i := ReorderedFrom(s.tried[k], order, pos);
  }

  lemma ExchangeEffect(s: State, id: int, k: int, order: seq<int>, pos: int, b: int)
    requires id in s.infos && 0 <= k < |s.tried| && 0 <= b < |s.news|
    requires 0 <= pos < |order| && order[pos] in s.infos
    ensures var t := Exchange(s, id, k, order, pos, b);
            && t.ids == s.ids && t.infos.Keys == s.infos.Keys && t.infos[id].inTried
            && (forall x <- s.infos ::
                  t.infos[x] == s.infos[x].(refCount := t.infos[x].refCount, inTried := t.infos[x].inTried))
            && (forall x <- s.infos :: t.infos[x].inTried ==> x == id || s.infos[x].inTried)
  {
    assert Exchange(s, id, k, order, pos, b).infos.Keys == s.infos.Keys;
  }

  lemma PromoteEffect(s: State, id: int, k: int)
    requires id in s.infos && 0 <= k < |s.tried|
    ensures var t := Promote(s, id, k);
            && t.ids == s.ids && t.infos.Keys == s.infos.Keys && t.infos[id].inTried
            && (forall x <- s.infos ::
                  t.infos[x] == s.infos[x].(refCount := t.infos[x].refCount, inTried := t.infos[x].inTried))
            && (forall x <- s.infos :: t.infos[x].inTried ==> x == id || s.infos[x].inTried)
  {
    assert Promote(s, id, k).infos.Keys == s.infos.Keys;
  }

  lemma MadeTriedKeepsInv(net: Net, s: State, id: int, origin: nat, dice: Dice, t: State)
    requires Inv(net, s, NOBODY) && id in s.infos && !s.infos[id].inTried
    requires origin < NEW_BUCKET_COUNT && id in s.news[origin] && MadeTried(net, s, id, origin, dice, t)
    ensures Inv(net, t, NOBODY)
    ensures t.ids == s.ids && t.infos.Keys == s.infos.Keys && t.infos[id].inTried
    ensures forall x <- s.infos ::
      t.infos[x] == s.infos[x].(refCount := t.infos[x].refCount, inTried := t.infos[x].inTried)
    ensures forall x <- s.infos :: t.infos[x].inTried ==> x == id || s.infos[x].inTried
  {
    hide Inv, Promote, Exchange, EvictionBucket, TriedBucket, Reordered;
    NewFacts(net, s, NOBODY);
    TriedFacts(net, s, NOBODY);
    var k := TriedBucket(net, s.key, s.infos[id]);
    if |s.tried[k]| < TRIED_BUCKET_SIZE {
      PromoteKeepsInv(net, s, id, k);
      PromoteEffect(s, id, k);
    } else {
      var order: seq<int>, win: nat, pos: nat :| Selected(s.infos, s.tried[k], dice, order, win, pos)
        && t == Exchange(s, id, k, order, pos, EvictionBucket(net, s, id, order[pos], origin));
      SelectedFacts(net, s, k, dice, order, win, pos);
      var b := EvictionBucket(net, s, id, order[pos], origin);
      EvictionBucketHasRoom(net, s, id, order[pos], origin);
      ExchangeKeepsInv(net, s, id, k, order, pos, b);
      ExchangeEffect(s, id, k, order, pos, b);
    }
  }

  /** `Good_` conserves the known addresses and always leaves a matching entry in the
      tried table. */
  lemma GoodKeepsInv(net: Net, s: State, service: Service, time: int, dice: Dice, t: State)
    requires Inv(net, s, NOBODY) && GoodStep(net, s, service, time, dice, t)
    ensures Inv(net, t, NOBODY)
    ensures t.ids == s.ids && t.infos.Keys == s.infos.Keys
    ensures forall x <- s.infos :: t.infos[x].service == s.infos[x].service
    ensures Matches(s, service) ==> Matches(t, service) && t.infos[t.ids[service.host]].inTried
  {
    hide Inv, MadeTried;
    if Matches(s, service) {
      var id := s.ids[service.host];
      var good := Succeeded(s.infos[id], time);
      var u := Put(s, id, good);
      assert u.infos.Keys == s.infos.Keys;
      PutKeepsInv(net, s, NOBODY, id, good);
      if !s.infos[id].inTried {
        var origin: nat :| origin < NEW_BUCKET_COUNT
          && FirstHolder(s.news, id, Roll(dice(0), NEW_BUCKET_COUNT), origin)
          && Inv(net, u, NOBODY) && MadeTried(net, u, id, origin, Later(dice), t);
        MadeTriedKeepsInv(net, u, id, origin, Later(dice), t);
      }
    }
  }

  lemma GetAddrKeepsInv(net: Net, s: State, dice: Dice, t: State)
    requires Inv(net, s, NOBODY) && GetAddrStep(net, s, dice, t)
    ensures Inv(net, t, NOBODY)
  {
    hide Linked, Shuffled, TriedTable, NewTable, Counted, ShuffleFront;
    SamePlacesKeepInv(net, s, t, NOBODY);
  }

  /** Different positions of `random` hold different hosts. */
  lemma DistinctHosts(net: Net, s: State, i: nat, j: nat)
    requires Inv(net, s, NOBODY) && i < j < |s.random|
    ensures s.random[i] in s.infos && s.random[j] in s.infos
    ensures s.infos[s.random[i]].service.host != s.infos[s.random[j]].service.host
  {
    hide TriedTable, NewTable, Counted;
    var x, y := s.random[i], s.random[j];
    assert s.infos[x].randomPos == i && s.infos[y].randomPos == j;
    assert s.ids[s.infos[x].service.host] == x && s.ids[s.infos[y].service.host] == y;
  }

  lemma AttemptKeepsInv(net: Net, s: State, service: Service, time: int)
    requires Inv(net, s, NOBODY)
    ensures Inv(net, Attempted(s, service, time), NOBODY)
  {
    hide Inv;
    if Matches(s, service) {
      var id := s.ids[service.host];
      PutKeepsInv(net, s, NOBODY, id, s.infos[id].(lastTry := time, attempts := s.infos[id].attempts + 1));
    }
  }

  lemma ConnectedKeepsInv(net: Net, s: State, service: Service, time: int)
    requires Inv(net, s, NOBODY)
    ensures Inv(net, Touched(s, service, time), NOBODY)
  {
    hide Inv;
    if Matches(s, service) {
      var id := s.ids[service.host];
      PutKeepsInv(net, s, NOBODY, id, s.infos[id].(time := ToUint32(time)));
    }
  }

  lemma StepKeepsInv(net: Net, s: State, op: Op, t: State)
    requires Inv(net, s, NOBODY) && Step(net, s, op, t)
    ensures Inv(net, t, NOBODY)
  {
    hide Inv, AddStep, GoodStep, GetAddrStep, Attempted, Touched;
    match op
    case Add(a, source, penalty, now, dice) =>
      var added :| AddStep(net, s, a, source, penalty, now, dice, t, added);
      AddKeepsInv(net, s, a, source, penalty, now, dice, t, added);
    case Good(service, time, dice) => GoodKeepsInv(net, s, service, time, dice, t);
    case Attempt(service, time) => AttemptKeepsInv(net, s, service, time);
    case Connected(service, time) => ConnectedKeepsInv(net, s, service, time);
    case GetAddr(dice) => GetAddrKeepsInv(net, s, dice, t);
  }

  // ------------------------------------------------- what a step does to the entries

  /** What any step leaves of the entries: tried ones are never deleted, services are
      never changed, at most one entry disappears and at most one appears. */
  ghost predicate Evolves(s: State, t: State) {
    && (forall x <- s.infos :: s.infos[x].inTried ==> x in t.infos)
    && (forall x <- s.infos :: x in t.infos ==> t.infos[x].service == s.infos[x].service)
    && (forall x, y :: x in s.infos && x !in t.infos && y in s.infos && y !in t.infos ==> x == y)
    && (forall x, y :: x in t.infos && x !in s.infos && y in t.infos && y !in s.infos ==> x == y)
  }

  /** The statistics of surviving entries are not touched when an entry is attached. */
  lemma AttachedEffect(net: Net, s: State, id: int, b: nat, now: int, dice: Dice, t: State)
    requires Inv(net, s, id) && b < NEW_BUCKET_COUNT && |s.news| == NEW_BUCKET_COUNT
    requires id in s.infos && id !in s.news[b] && Attached(s, id, b, now, dice, t)
    ensures id in t.infos && t.infos.Keys <= s.infos.Keys && t.tried == s.tried
    ensures forall x <- t.infos ::
      t.infos[x] == s.infos[x].(randomPos := t.infos[x].randomPos, refCount := t.infos[x].refCount)
    ensures forall x <- s.infos :: s.infos[x].inTried ==> x in t.infos
    ensures forall x, y :: x in s.infos && x !in t.infos && y in s.infos && y !in t.infos ==> x == y
    ensures t.ids.Keys <= s.ids.Keys
  {
    hide Inv, IsVictim, Unref, Swappable;
    NewFacts(net, s, id);
    if |s.news[b]| == NEW_BUCKET_SIZE {
      var v, u :| Shrunk(s, b, now, dice, v, u) && b < |u.news| && t == Place(u, b, id);
      UnrefEffect(s, b, v);
      VictimInBucket(s.infos, s.news[b], now, dice, v);
      assert v in s.news[b];
      assert t.infos == u.infos;
      assert forall x <- s.infos :: x != v ==> x in u.infos.Keys;
    }
  }

  lemma VictimInBucket(infos: Infos, bucket: set<int>, now: int, dice: Dice, v: int)
    requires bucket != {} && (forall x <- bucket :: x in infos) && IsVictim(infos, bucket, now, dice, v)
    ensures v in bucket
  {
    hide IsTerrible;
  }

  /** The entry that a routable address ends up with. */
  ghost predicate Knows(t: State, id: int, host: NetAddr) {
    id in t.infos && t.infos[id].service.host == host
  }

  lemma AddKnownEffect(net: Net, s: State, id: int, a: Address, source: NetAddr, penalty: int, now: int, dice: Dice,
                       t: State)
    requires Inv(net, s, NOBODY) && AddStep(net, s, a, source, penalty, now, dice, t, false)
    requires net.routable(a.service.host) && a.service.host in s.ids && id == s.ids[a.service.host]
    ensures Evolves(s, t) && Knows(t, id, a.service.host)
    ensures Stamped(s.infos) ==> Stamped(t.infos)
  {
    hide Inv, Attached, NewBucket, Pow2, Roll;
    NewFacts(net, s, NOBODY);
    IdFacts(net, s, NOBODY);
    var i := Refreshed(s.infos[id], a, penalty, now);
    var b := NewBucket(net, s.key, i, source);
    var u := Put(s, id, i);
    assert u.infos.Keys == s.infos.Keys;
    PutKeepsInv(net, s, NOBODY, id, i);
    if Spreads(i, a, dice) && id !in s.news[b] {
      OweKeepsInv(net, u, id);
      assert Owe(u, id).infos.Keys == s.infos.Keys;
      AttachedEffect(net, Owe(u, id), id, b, now, Later(dice), t);
    }
  }

  lemma AddUnknownEffect(net: Net, s: State, a: Address, source: NetAddr, penalty: int, now: int, dice: Dice, t: State)
    requires Inv(net, s, NOBODY) && AddStep(net, s, a, source, penalty, now, dice, t, true)
    requires net.routable(a.service.host) && a.service.host !in s.ids
    ensures Evolves(s, t) && Knows(t, s.idCount, a.service.host)
    ensures Stamped(s.infos) ==> Stamped(t.infos)
  {
    hide Inv, Attached;
    NewFacts(net, s, NOBODY);
    IdFacts(net, s, NOBODY);
    var i := Created(a, source, penalty);
    var b := NewBucket(net, s.key, i, source);
    assert s.idCount !in s.infos;
    assert s.idCount !in s.news[b];
    EnrollKeepsInv(net, s, i);
    AttachedEffect(net, Enroll(s, i), s.idCount, b, now, Later(dice), t);
  }

  /** After `Add_`, a routable address is known; the result says whether it was new. */
  lemma AddEffect(net: Net, s: State, a: Address, source: NetAddr, penalty: int, now: int, dice: Dice, t: State,
                  added: bool)
    requires Inv(net, s, NOBODY) && AddStep(net, s, a, source, penalty, now, dice, t, added)
    ensures Evolves(s, t)
    ensures Stamped(s.infos) ==> Stamped(t.infos)
    ensures added <==> net.routable(a.service.host) && a.service.host !in s.ids
    ensures net.routable(a.service.host) ==> a.service.host in t.ids
  {
    hide Inv, Attached, Spreads, Refreshed;
    AddKeepsInv(net, s, a, source, penalty, now, dice, t, added);
    IdFacts(net, t, NOBODY);
    if net.routable(a.service.host) {
      if a.service.host in s.ids {
        AddKnownEffect(net, s, s.ids[a.service.host], a, source, penalty, now, dice, t);
      } else {
        AddUnknownEffect(net, s, a, source, penalty, now, dice, t);
      }
    }
  }

  /** The clock values under which a call keeps `Stamped`: exactly those the
      consistency check tolerates. */
  predicate Timely(s: State, op: Op) {
    match op
    case Good(service, time, _) => Matches(s, service) ==> time > 0
    case Attempt(service, time) => Matches(s, service) ==> time >= 0
    case _ => true
  }

  lemma GoodEffect(net: Net, s: State, service: Service, time: int, dice: Dice, t: State)
    requires Inv(net, s, NOBODY) && GoodStep(net, s, service, time, dice, t)
    ensures Evolves(s, t)
    ensures Stamped(s.infos) ==> (Stamped(t.infos) <==> Timely(s, Good(service, time, dice)))
  {
    hide Inv, MadeTried;
    GoodKeepsInv(net, s, service, time, dice, t);
    if Matches(s, service) {
      var id := s.ids[service.host];
      var good := Succeeded(s.infos[id], time);
      var u := Put(s, id, good);
      assert u.infos.Keys == s.infos.Keys;
      if !s.infos[id].inTried {
        PutKeepsInv(net, s, NOBODY, id, good);
        var origin: nat :| origin < NEW_BUCKET_COUNT
          && FirstHolder(s.news, id, Roll(dice(0), NEW_BUCKET_COUNT), origin)
          && Inv(net, u, NOBODY) && MadeTried(net, u, id, origin, Later(dice), t);
        MadeTriedKeepsInv(net, u, id, origin, Later(dice), t);
        assert t.infos[id].lastSuccess == time && t.infos[id].inTried;
      } else {
        assert t.infos[id].lastSuccess == time && t.infos[id].inTried;
      }
    }
  }

  /** `Stamped` survives a call exactly when its clock value is timely; entries evolve
      as `Evolves` says in any case. */
  lemma StepEvolves(net: Net, s: State, op: Op, t: State)
    requires Inv(net, s, NOBODY) && Step(net, s, op, t)
    ensures Evolves(s, t)
    ensures Stamped(s.infos) ==> (Stamped(t.infos) <==> Timely(s, op))
  {
    hide Inv, AddStep, GoodStep, ShuffleFront;
    match op
    case Add(a, source, penalty, now, dice) =>
      var added :| AddStep(net, s, a, source, penalty, now, dice, t, added);
      AddEffect(net, s, a, source, penalty, now, dice, t, added);
    case Good(service, time, dice) => GoodEffect(net, s, service, time, dice, t);
    case Attempt(service, time) =>
      if Matches(s, service) {
        assert t.infos.Keys == s.infos.Keys;
        assert t.infos[s.ids[service.host]].lastTry == time;
      }
    case Connected(service, time) =>
      if Matches(s, service) {
        assert t.infos.Keys == s.infos.Keys;
      }
    case GetAddr(dice) =>
  }

  // ---------------------------------------------------------------- whole runs

  /** `states` is a run of `ops` from any valid manager. */
  ghost predicate Run(net: Net, ops: seq<Op>, states: seq<State>) {
    && |states| == |ops| + 1
    && Inv(net, states[0], NOBODY)
    && forall i :: 0 <= i < |ops| ==> Step(net, states[i], ops[i], states[i + 1])
  }

  /** The manager of the constructor can start a run, its time stamps in order. */
  lemma EmptyStarts(net: Net, key: seq<bv8>)
    ensures Run(net, [], [Empty(key)]) && Stamped(Empty(key).infos)
  {
    hide Inv;
    EmptyInv(net, key);
  }

  /** Every state of every run satisfies the invariant, whatever is drawn. */
  lemma {:induction false} RunKeepsInv(net: Net, ops: seq<Op>, states: seq<State>, i: nat)
    requires Run(net, ops, states) && i <= |ops|
    ensures Inv(net, states[i], NOBODY)
  {
    hide Inv, Step, Stamped;
    if i > 0 {
      RunKeepsInv(net, ops, states, i - 1);
      assert Step(net, states[i - 1], ops[i - 1], states[i - 1 + 1]);
      StepKeepsInv(net, states[i - 1], ops[i - 1], states[i]);
    }
  }

  /** With timely clock values the time stamps stay in order too. */
  lemma {:induction false} RunKeepsStamps(net: Net, ops: seq<Op>, states: seq<State>, i: nat)
    requires Run(net, ops, states) && Stamped(states[0].infos) && i <= |ops|
    requires forall j :: 0 <= j < |ops| ==> Timely(states[j], ops[j])
    ensures Stamped(states[i].infos)
  {
    hide Inv, Step, Stamped, Timely, Evolves;
    if i > 0 {
      RunKeepsStamps(net, ops, states, i - 1);
      RunKeepsInv(net, ops, states, i - 1);
      assert Step(net, states[i - 1], ops[i - 1], states[i - 1 + 1]);
      StepEvolves(net, states[i - 1], ops[i - 1], states[i]);
    }
  }

  /** An entry that disappears between two points of a run was, at some step between
      them, deleted while not in the tried table. */
  lemma {:induction false} NeverDeletedWhileTried(net: Net, ops: seq<Op>, states: seq<State>, i: nat,
                                                  j: nat, id: int)
    requires Run(net, ops, states) && i <= j <= |ops| && id in states[i].infos
    requires forall m :: i <= m < j && id in states[m].infos ==> states[m].infos[id].inTried
    ensures id in states[j].infos && states[j].infos[id].service == states[i].infos[id].service
  {
    hide Inv, Step;
    if i < j {
      NeverDeletedWhileTried(net, ops, states, i, j - 1, id);
      RunKeepsInv(net, ops, states, j - 1);
      assert Step(net, states[j - 1], ops[j - 1], states[j - 1 + 1]);
      StepEvolves(net, states[j - 1], ops[j - 1], states[j]);
    }
  }
}
