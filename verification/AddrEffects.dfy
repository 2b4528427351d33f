/** What the operations of the address manager (src/addrman.cpp) do to the single entries and to
    the buckets that hold them. */
module AddrEffects {
  import opened IntSets
  import opened Bits
  import opened AddrState
  import opened AddrSteps
  import opened AddrRuns

  // ---------------------------------------------------------------- statistics

  /** Two entries of a valid manager do not share a service. */
  lemma ServiceUnique(net: Net, s: State, x: int, service: Service)
    requires Inv(net, s, NOBODY) && x in s.infos
    ensures s.infos[x].service == service <==> Matches(s, service) && s.ids[service.host] == x
  {
    hide Shuffled, TriedTable, NewTable, Counted;
  }

  /** `Attempt_` counts the attempt for the entry of exactly this service. */
  lemma AttemptEffect(net: Net, s: State, service: Service, time: int)
    requires Inv(net, s, NOBODY)
    ensures var t := Attempted(s, service, time);
      && t == s.(infos := t.infos) && t.infos.Keys == s.infos.Keys
      && forall x <- s.infos :: t.infos[x] ==
           if s.infos[x].service == service then s.infos[x].(lastTry := time, attempts := s.infos[x].attempts + 1)
           else s.infos[x]
  {
    hide Inv;
    var t := Attempted(s, service, time);
    assert t.infos.Keys == s.infos.Keys;
    forall x <- s.infos
      ensures s.infos[x].service == service <==> Matches(s, service) && s.ids[service.host] == x
    {
      ServiceUnique(net, s, x, service);
    }
  }

  /** `Connected_` moves its time when that is more than twenty minutes old. */
  lemma ConnectedEffect(net: Net, s: State, service: Service, time: int)
    requires Inv(net, s, NOBODY)
    ensures var t := Touched(s, service, time);
      && t == s.(infos := t.infos) && t.infos.Keys == s.infos.Keys
      && forall x <- s.infos :: t.infos[x] ==
           if s.infos[x].service == service && time - s.infos[x].time > 1200
           then s.infos[x].(time := time % 0x1_0000_0000) else s.infos[x]
  {
    hide Inv;
    var t := Touched(s, service, time);
    assert t.infos.Keys == s.infos.Keys;
    forall x <- s.infos
      ensures s.infos[x].service == service <==> Matches(s, service) && s.ids[service.host] == x
    {
      ServiceUnique(net, s, x, service);
    }
  }

  // ---------------------------------------------------------------- promotion and eviction

  /** `e` has left the tried table. */
  predicate Evicted(s: State, t: State, e: int) {
    e in s.infos && e in t.infos && s.infos[e].inTried && !t.infos[e].inTried
  }

  /** The one new bucket that holds an evicted entry: its own if that has room once `id` has left,
      otherwise the one `id` came from. */
  ghost predicate BackInNew(net: Net, s: State, id: int, origin: nat, e: int, t: State)
    requires e in s.infos && |s.news| == NEW_BUCKET_COUNT
  {
    var own := NewBucket(net, s.key, s.infos[e], s.infos[e].source);
    && |t.news| == NEW_BUCKET_COUNT
    && forall b :: 0 <= b < NEW_BUCKET_COUNT ==>
         (e in t.news[b] <==> b == if |s.news[own] - {id}| < 64 then own else origin)
  }

  /** What becomes of the tables when `id` is promoted out of bucket `origin`. */
  ghost predicate Promoted(net: Net, s: State, id: int, origin: nat, t: State)
    requires id in s.infos && |s.news| == NEW_BUCKET_COUNT
  {
    var k := TriedBucket(net, s.key, s.infos[id]);
    && t.infos.Keys == s.infos.Keys && |t.news| == NEW_BUCKET_COUNT && k < |s.tried| == |t.tried|
    && t.infos[id] == s.infos[id].(inTried := true, refCount := 0)
    && id in t.tried[k] && (forall b :: 0 <= b < NEW_BUCKET_COUNT ==> id !in t.news[b])
    && ((exists e :: Evicted(s, t, e)) <==> |s.tried[k]| == 64)
    && (forall e, f :: Evicted(s, t, e) && Evicted(s, t, f) ==> e == f)
    && (forall e :: Evicted(s, t, e) ==>
          && e in s.tried[k] && e !in t.tried[k] && t.infos[e] == s.infos[e].(inTried := false, refCount := 1)
          && BackInNew(net, s, id, origin, e, t))
    && (forall x <- s.infos :: x != id && !Evicted(s, t, x) ==>
          t.infos[x] == s.infos[x] && forall b :: 0 <= b < NEW_BUCKET_COUNT ==> (x in t.news[b] <==> x in s.news[b]))
  }

  /** `MakeTried` promotes `id`, and from a full tried bucket sends one entry back to its own new
      bucket, or to that of `id` when its own is full. */
  lemma MadeTriedPromotes(net: Net, s: State, id: int, origin: nat, dice: Dice, t: State)
    requires Inv(net, s, NOBODY) && id in s.infos && !s.infos[id].inTried
    requires origin < NEW_BUCKET_COUNT && id in s.news[origin] && MadeTried(net, s, id, origin, dice, t)
    ensures |s.news| == NEW_BUCKET_COUNT && Promoted(net, s, id, origin, t)
  {
    hide Inv, TriedBucket, Reordered, Promote, Exchange, NewBucket;
    NewFacts(net, s, NOBODY);
    TriedFacts(net, s, NOBODY);
    var k := TriedBucket(net, s.key, s.infos[id]);
    if |s.tried[k]| < TRIED_BUCKET_SIZE {
      PromotePromotes(net, s, id, origin);
    } else {
      var order: seq<int>, win: nat, pos: nat :| Selected(s.infos, s.tried[k], dice, order, win, pos)
        && t == Exchange(s, id, k, order, pos, EvictionBucket(net, s, id, order[pos], origin));
      SelectedFacts(net, s, k, dice, order, win, pos);
      ExchangePromotes(net, s, id, origin, order, pos);
    }
  }

  lemma PromotePromotes(net: Net, s: State, id: int, origin: nat)
    requires Inv(net, s, NOBODY) && id in s.infos && !s.infos[id].inTried && |s.news| == NEW_BUCKET_COUNT
    requires var k := TriedBucket(net, s.key, s.infos[id]); k < |s.tried| && |s.tried[k]| < TRIED_BUCKET_SIZE
    ensures Promoted(net, s, id, origin, Promote(s, id, TriedBucket(net, s.key, s.infos[id])))
  {
    hide Inv, TriedBucket, NewBucket;
    var t := Promote(s, id, TriedBucket(net, s.key, s.infos[id]));
    assert t.infos.Keys == s.infos.Keys;
  }

  lemma ExchangeTables(s: State, id: int, k: nat, order: seq<int>, pos: nat, b: nat)
    requires id in s.infos && k < |s.tried| && b < |s.news|
    requires pos < |order| && order[pos] in s.infos && order[pos] != id
    ensures var t, e := Exchange(s, id, k, order, pos, b), order[pos];
      && t.infos.Keys == s.infos.Keys && |t.news| == |s.news| && |t.tried| == |s.tried|
      && t.infos[id] == s.infos[id].(inTried := true, refCount := 0)
      && t.infos[e] == s.infos[e].(inTried := false, refCount := 1)
      && (forall x <- s.infos :: x != id && x != e ==> t.infos[x] == s.infos[x])
      && (forall x, c :: 0 <= c < |s.news| ==>
            (x in t.news[c] <==> (x != id && x in s.news[c]) || (x == e && c == b)))
      && t.tried[k] == order[pos := id]
  {
    assert Exchange(s, id, k, order, pos, b).infos.Keys == s.infos.Keys;
  }

  lemma ExchangePromotes(net: Net, s: State, id: int, origin: nat, order: seq<int>, pos: nat)
    requires Inv(net, s, NOBODY) && id in s.infos && !s.infos[id].inTried
    requires origin < NEW_BUCKET_COUNT == |s.news| && pos < |order| && order[pos] in s.infos
    requires s.infos[order[pos]].inTried
    requires var k := TriedBucket(net, s.key, s.infos[id]);
      k < |s.tried| && |s.tried[k]| == TRIED_BUCKET_SIZE && Reordered(s.tried[k], order)
    ensures Promoted(net, s, id, origin, Exchange(s, id, TriedBucket(net, s.key, s.infos[id]), order, pos,
                                                  EvictionBucket(net, s, id, order[pos], origin)))
  {
    hide Inv, TriedBucket, NewBucket, Exchange, NoDuplicates;
    NewFacts(net, s, NOBODY);
    TriedFacts(net, s, NOBODY);
    var k, e := TriedBucket(net, s.key, s.infos[id]), order[pos];
    assert e in order && e in s.tried[k];
    assert id !in order;
    ReplaceSlot(order, pos, id);
    var b := EvictionBucket(net, s, id, e, origin);
    var t := Exchange(s, id, k, order, pos, b);
    ExchangeTables(s, id, k, order, pos, b);
    assert order[pos := id][pos] == id;
    assert Evicted(s, t, e);
    assert forall x :: Evicted(s, t, x) ==> x == e;
  }

  /** The entry `Good_` leaves for the service it is about. */
  function Renewed(i: Info, time: int): Info {
    i.(lastSuccess := time, lastTry := time, time := time % 0x1_0000_0000, attempts := 0)
  }

  /** The first bucket that holds an entry, counted from the one drawn and around the end. */
  ghost predicate Origin(news: seq<set<int>>, x: int, draw: nat, origin: nat) {
    exists n :: 0 <= n < |news| && HoldsFirst(news, x, draw, n, origin)
  }

  ghost predicate HoldsFirst(news: seq<set<int>>, x: int, draw: nat, n: nat, origin: nat)
    requires n < |news|
  {
    && origin == Around(draw, n, |news|) && x in news[origin]
    && forall m :: 0 <= m < n ==> x !in news[Around(draw, m, |news|)]
  }

  function Around(draw: nat, n: nat, size: nat): (b: nat)
    requires size > 0
    ensures b < size
  {
    (draw + n) % size
  }

  /** `Good_` renews the entry of exactly this service and makes it tried, out of the first bucket
      that holds it; it changes no other entry but the one evicted for it. */
  lemma GoodPromotes(net: Net, s: State, service: Service, time: int, dice: Dice, t: State)
    requires Inv(net, s, NOBODY) && GoodStep(net, s, service, time, dice, t)
    ensures (forall x <- s.infos :: s.infos[x].service != service) ==> t == s
    ensures forall x <- s.infos :: s.infos[x].service == service && s.infos[x].inTried ==>
      t == s.(infos := s.infos[x := Renewed(s.infos[x], time)])
    ensures |s.news| == NEW_BUCKET_COUNT
    ensures forall x <- s.infos :: s.infos[x].service == service && !s.infos[x].inTried ==>
      exists origin: nat :: Origin(s.news, x, dice(0), origin)
        && Promoted(net, s.(infos := s.infos[x := Renewed(s.infos[x], time)]), x, origin, t)
  {
    hide Inv, MadeTried, Promoted, FirstHolder, Origin;
    NewFacts(net, s, NOBODY);
    forall x <- s.infos
      ensures s.infos[x].service == service <==> Matches(s, service) && s.ids[service.host] == x
    {
      ServiceUnique(net, s, x, service);
    }
    if Matches(s, service) && !s.infos[s.ids[service.host]].inTried {
      var id := s.ids[service.host];
      var u := Put(s, id, Renewed(s.infos[id], time));
      var origin: nat :| origin < NEW_BUCKET_COUNT
        && FirstHolder(s.news, id, Roll(dice(0), NEW_BUCKET_COUNT), origin)
        && Inv(net, u, NOBODY) && MadeTried(net, u, id, origin, Later(dice), t);
      HolderHolds(s.news, id, Roll(dice(0), NEW_BUCKET_COUNT), origin);
      HolderIsOrigin(s.news, id, dice(0), origin);
      MadeTriedPromotes(net, u, id, origin, Later(dice), t);
    }
  }

  lemma HolderIsOrigin(news: seq<set<int>>, x: int, draw: nat, origin: nat)
    requires news != [] && FirstHolder(news, x, draw % |news|, origin)
    ensures Origin(news, x, draw, origin)
  {
    hide Around, Probe;
    var start := draw % |news|;
    var n :| 0 <= n < |news| && HolderAfter(news, x, start, n, origin);
    forall m: nat ensures Around(draw, m, |news|) == Probe(start, m, |news|) {
      ProbesAround(draw, m, |news|);
    }
    assert HoldsFirst(news, x, draw, n, origin);
  }

  lemma ProbesAround(draw: nat, m: nat, size: nat)
    requires size > 0
    ensures Around(draw, m, size) == Probe(draw % size, m, size)
  {
    var start := draw % size;
    var q, p, r := draw / size, (start + m) / size, (start + m) % size;
    assert draw + m == (q + p) * size + r;
    DivRem(draw + m, size, q + p, r);
  }

  lemma HolderHolds(news: seq<set<int>>, id: int, start: nat, origin: nat)
    requires FirstHolder(news, id, start, origin)
    ensures origin < |news| && id in news[origin]
  {
  }

  // ---------------------------------------------------------------- joining a bucket

  /** Worth keeping: tried within the last minute, or last seen within thirty days and not in the
      future, and neither without success in three attempts nor without one for a week in ten. */
  predicate Worthy(i: Info, now: int) {
    || (i.lastTry != 0 && i.lastTry >= now - 60)
    || (0 < i.time && now - 2592000 <= i.time <= now + 600
        && (i.lastSuccess != 0 || i.attempts < 3) && (now - i.lastSuccess <= 604800 || i.attempts < 10))
  }

  /** What `ShrinkNew` drops: the first entry not worth keeping, or else one of four drawn that is
      seen no later than the others, and is first among those seen as early. */
  ghost predicate Dropped(infos: Infos, bucket: set<int>, now: int, dice: Dice, v: int)
    requires bucket != {} && forall x <- bucket :: x in infos
  {
    if exists x <- bucket :: !Worthy(infos[x], now) then
      v in bucket && !Worthy(infos[v], now) && forall x <- bucket :: !Worthy(infos[x], now) ==> v <= x
    else
      var drawn := Drawn(bucket, dice);
      v in drawn && v in infos && forall x <- drawn :: x in infos && infos[v].time <= infos[x].time
                                                       && (infos[v].time == infos[x].time ==> v <= x)
  }

  /** Four draws from a bucket in the order of ids. */
  ghost function Drawn(bucket: set<int>, dice: Dice): seq<int>
    requires bucket != {}
  {
    var xs := Ascending(bucket);
    [xs[dice(0) % |xs|], xs[dice(1) % |xs|], xs[dice(2) % |xs|], xs[dice(3) % |xs|]]
  }

  lemma VictimDropped(infos: Infos, bucket: set<int>, now: int, dice: Dice, v: int)
    requires bucket != {} && (forall x <- bucket :: x in infos)
    ensures IsVictim(infos, bucket, now, dice, v) <==> Dropped(infos, bucket, now, dice, v)
  {
    forall x <- bucket ensures IsTerrible(infos[x], now) <==> !Worthy(infos[x], now) {
    }
    hide IsTerrible, Worthy, Ascending;
    if forall x <- bucket :: !IsTerrible(infos[x], now) {
      SampledDrawn(infos, bucket, dice, v);
    }
  }

  lemma SampledDrawn(infos: Infos, bucket: set<int>, dice: Dice, v: int)
    requires bucket != {} && (forall x <- bucket :: x in infos)
    ensures OldestSampled(infos, Ascending(bucket), Rolls(dice, |bucket|), v)
      <==> var drawn := Drawn(bucket, dice);
           v in drawn && v in infos && forall x <- drawn :: x in infos && infos[v].time <= infos[x].time
                                                            && (infos[v].time == infos[x].time ==> v <= x)
  {
    hide Ascending;
    var xs, rolls, drawn := Ascending(bucket), Rolls(dice, |bucket|), Drawn(bucket, dice);
    assert drawn[0] == xs[rolls[0]] && drawn[1] == xs[rolls[1]] && drawn[2] == xs[rolls[2]] && drawn[3] == xs[rolls[3]];
    assert forall j :: 0 <= j < 4 ==> drawn[j] == xs[rolls[j]];
  }

  /** `id` joins bucket `b`, and `v` leaves it. */
  ghost predicate Replaces(s: State, t: State, id: int, b: nat, v: int)
    requires b < |s.news|
  {
    && |t.news| == |s.news| && v in s.news[b] && v in s.infos
    && (forall x, c :: 0 <= c < |s.news| ==>
          (x in t.news[c] <==> (x in s.news[c] && !(x == v && c == b)) || (x == id && c == b)))
    && (v in t.infos <==> s.infos[v].refCount > 1)
    && (forall x <- s.infos :: x != v ==>
          && x in t.infos
          && t.infos[x] == s.infos[x].(randomPos := t.infos[x].randomPos))
    && (v in t.infos ==>
          t.infos[v] == s.infos[v].(randomPos := t.infos[v].randomPos, refCount := s.infos[v].refCount - 1))
  }

  /** `id` joins bucket `b`, from which a victim is dropped if it is full. */
  ghost predicate Joins(s: State, t: State, id: int, b: nat, now: int, dice: Dice)
    requires b < |s.news|
  {
    if |s.news[b]| == 64 then
      exists v :: Replaces(s, t, id, b, v) && (forall x <- s.news[b] :: x in s.infos)
        && Dropped(s.infos, s.news[b], now, dice, v)
    else
      && t == s.(news := t.news) && |t.news| == |s.news|
      && forall x, c :: 0 <= c < |s.news| ==> (x in t.news[c] <==> x in s.news[c] || (x == id && c == b))
  }

  lemma AttachedJoins(net: Net, s: State, id: int, b: nat, now: int, dice: Dice, t: State)
    requires Inv(net, s, id) && b < NEW_BUCKET_COUNT == |s.news|
    requires id in s.infos && id !in s.news[b] && Attached(s, id, b, now, dice, t)
    ensures Joins(s, t, id, b, now, dice)
  {
    hide Inv, IsVictim, Dropped, Unref, Swappable;
    NewFacts(net, s, id);
    if |s.news[b]| == NEW_BUCKET_SIZE {
      var v, u :| Shrunk(s, b, now, dice, v, u) && b < |u.news| && t == Place(u, b, id);
      VictimInBucket(s.infos, s.news[b], now, dice, v);
      VictimReplaced(net, s, id, b, v);
      VictimDropped(s.infos, s.news[b], now, dice, v);
      assert Replaces(s, t, id, b, v);
    }
  }

  lemma VictimReplaced(net: Net, s: State, id: int, b: nat, v: int)
    requires Inv(net, s, id) && b < NEW_BUCKET_COUNT == |s.news| && v in s.news[b] && id !in s.news[b]
    requires v in s.infos && Swappable(s.infos, s.random, s.infos[v].randomPos, |s.random| - 1)
    ensures |Unref(s, b, v).news| == |s.news| && Replaces(s, Place(Unref(s, b, v), b, id), id, b, v)
  {
    hide Inv, Unref, Swappable;
    NewFacts(net, s, id);
    UnrefEffect(s, b, v);
    UnrefCount(s, b, v);
    var u := Unref(s, b, v);
    forall x <- s.infos | x != v
      ensures x in u.infos && u.infos[x] == s.infos[x].(randomPos := u.infos[x].randomPos)
    {
      UnrefOther(s, b, v, x);
    }
  }

  lemma UnrefCount(s: State, b: nat, v: int)
    requires v in s.infos && b < |s.news| && Swappable(s.infos, s.random, s.infos[v].randomPos, |s.random| - 1)
    requires s.infos[v].refCount >= 1
    ensures var u := Unref(s, b, v);
      && (v in u.infos <==> s.infos[v].refCount > 1)
      && (v in u.infos ==>
            u.infos[v] == s.infos[v].(randomPos := u.infos[v].randomPos, refCount := s.infos[v].refCount - 1))
  {
  }

  lemma UnrefOther(s: State, b: nat, v: int, x: int)
    requires v in s.infos && b < |s.news| && Swappable(s.infos, s.random, s.infos[v].randomPos, |s.random| - 1)
    requires x in s.infos && x != v
    ensures var u := Unref(s, b, v);
      x in u.infos && u.infos[x] == s.infos[x].(randomPos := u.infos[x].randomPos)
  {
  }

  /** The last-seen time of a known entry after `Add_`: the advertised one less the penalty, when it
      is news; for an address seen within a day an hour makes it so, otherwise a day. */
  function NewTime(i: Info, a: Address, penalty: int, now: int): Uint32 {
    var slack := if now - a.time < 86400 then 3600 else 86400;
    if a.time != 0 && (i.time == 0 || i.time + slack + penalty < a.time)
    then (if a.time < penalty then 0 else a.time - penalty) % 0x1_0000_0000
    else i.time
  }

  function SeenAgain(i: Info, a: Address, penalty: int, now: int): (r: Info)
    ensures r == i.(time := r.time, services := r.services)
  {
    i.(time := NewTime(i, a, penalty, now), services := i.services | a.services)
  }

  /** `Add_` gives a known entry one more bucket: it is not tried, has less than four, has news even
      after its time was updated, and a draw with odds of one in two to the number it has is won. */
  predicate GainsBucket(i: Info, a: Address, penalty: int, now: int, dice: Dice) {
    var time := NewTime(i, a, penalty, now);
    && a.time != 0 && (time == 0 || time < a.time) && !i.inTried
    && (|| (i.refCount == 1 && dice(0) % 2 == 0)
        || (i.refCount == 2 && dice(0) % 4 == 0)
        || (i.refCount == 3 && dice(0) % 8 == 0))
  }

  /** What `Add_` does for a known routable address. */
  lemma AddKnownExactly(net: Net, s: State, id: int, a: Address, source: NetAddr, penalty: int, now: int, dice: Dice,
                        t: State, added: bool)
    requires Inv(net, s, NOBODY) && AddStep(net, s, a, source, penalty, now, dice, t, added)
    requires net.routable(a.service.host) && id in s.infos && s.infos[id].service.host == a.service.host
    ensures !added && |s.news| == NEW_BUCKET_COUNT
    ensures var i := s.infos[id];
      var b := NewBucket(net, s.key, i, source);
      var seen := SeenAgain(i, a, penalty, now);
      if GainsBucket(i, a, penalty, now, dice) && id !in s.news[b] then
        Joins(s.(infos := s.infos[id := seen.(refCount := i.refCount + 1)]), t, id, b, now, Later(dice))
      else t == s.(infos := s.infos[id := seen])
  {
    hide Inv, AddStep, Joins, Attached, Refreshed, Spreads, GainsBucket, SeenAgain, NewBucket;
    KnownFacts(net, s, id);
    var i := s.infos[id];
    var seen := SeenAgain(i, a, penalty, now);
    SpreadsExactly(i, a, penalty, now, dice);
    AddKnownUnfolds(net, s, id, a, source, penalty, now, dice, t, added, seen);
    if GainsBucket(i, a, penalty, now, dice) && id !in s.news[NewBucket(net, s.key, i, source)] {
      GainsFacts(i, a, penalty, now, dice);
      GainedJoins(net, s, id, seen, NewBucket(net, s.key, i, source), now, Later(dice), t);
    }
  }

  lemma GainsFacts(i: Info, a: Address, penalty: int, now: int, dice: Dice)
    requires GainsBucket(i, a, penalty, now, dice)
    ensures !i.inTried && i.refCount < NEW_BUCKETS_PER_ADDRESS
  {
  }

  lemma KnownFacts(net: Net, s: State, id: int)
    requires Inv(net, s, NOBODY) && id in s.infos
    ensures |s.news| == NEW_BUCKET_COUNT
    ensures s.infos[id].service.host in s.ids && s.ids[s.infos[id].service.host] == id
    ensures if s.infos[id].inTried then s.infos[id].refCount == 0 else 1 <= s.infos[id].refCount <= 4
  {
    hide Shuffled, Counted, Holders;
  }

  lemma GainedJoins(net: Net, s: State, id: int, seen: Info, b: nat, now: int, dice: Dice, t: State)
    requires Inv(net, s, NOBODY) && b < NEW_BUCKET_COUNT == |s.news| && id in s.infos && id !in s.news[b]
    requires seen == s.infos[id].(time := seen.time, services := seen.services)
    requires !seen.inTried && seen.refCount < NEW_BUCKETS_PER_ADDRESS
    requires Attached(Owe(Put(s, id, seen), id), id, b, now, dice, t)
    ensures Joins(s.(infos := s.infos[id := seen.(refCount := seen.refCount + 1)]), t, id, b, now, dice)
  {
    hide Inv, Attached, Joins;
    PutKeepsInv(net, s, NOBODY, id, seen);
    OweKeepsInv(net, Put(s, id, seen), id);
    AttachedJoins(net, Owe(Put(s, id, seen), id), id, b, now, dice, t);
    assert Owe(Put(s, id, seen), id) == s.(infos := s.infos[id := seen.(refCount := seen.refCount + 1)]);
  }

  lemma AddKnownUnfolds(net: Net, s: State, id: int, a: Address, source: NetAddr, penalty: int, now: int, dice: Dice,
                        t: State, added: bool, seen: Info)
    requires Inv(net, s, NOBODY) && AddStep(net, s, a, source, penalty, now, dice, t, added)
    requires net.routable(a.service.host) && a.service.host in s.ids && id == s.ids[a.service.host] && id in s.infos
    requires seen == Refreshed(s.infos[id], a, penalty, now) && |s.news| == NEW_BUCKET_COUNT
    requires seen.service == s.infos[id].service
    ensures !added
    ensures var b, u := NewBucket(net, s.key, s.infos[id], source), Put(s, id, seen);
      if Spreads(seen, a, dice) && id !in s.news[b] then Attached(Owe(u, id), id, b, now, Later(dice), t) else t == u
  {
    hide Inv, Attached, Refreshed, Spreads;
  }

  lemma SpreadsExactly(i: Info, a: Address, penalty: int, now: int, dice: Dice)
    requires if i.inTried then i.refCount == 0 else 1 <= i.refCount <= 4
    ensures Refreshed(i, a, penalty, now) == SeenAgain(i, a, penalty, now)
    ensures Spreads(Refreshed(i, a, penalty, now), a, dice) <==> GainsBucket(i, a, penalty, now, dice)
  {
    assert Pow2(1) == 2 && Pow2(2) == 4 && Pow2(3) == 8;
  }

  /** What `Add_` does for an unknown routable address: a new entry with the time less the penalty
      joins the bucket of its address and source. */
  lemma AddUnknownExactly(net: Net, s: State, a: Address, source: NetAddr, penalty: int, now: int, dice: Dice,
                          t: State, added: bool)
    requires Inv(net, s, NOBODY) && AddStep(net, s, a, source, penalty, now, dice, t, added)
    requires net.routable(a.service.host) && forall x <- s.infos :: s.infos[x].service.host != a.service.host
    ensures added && |s.news| == NEW_BUCKET_COUNT
    ensures var id := s.idCount;
      var time := (if a.time < penalty then 0 else a.time - penalty) % 0x1_0000_0000;
      var i := Info(a.service, a.services, time, 0, source, 0, 0, 1, false, |s.random|);
      var u := s.(idCount := id + 1, infos := s.infos[id := i], ids := s.ids[a.service.host := id],
                  random := s.random + [id], nNew := s.nNew + 1);
      Joins(u, t, id, NewBucket(net, s.key, i, source), now, Later(dice))
  {
    hide Inv, Attached, Joins;
    NewFacts(net, s, NOBODY);
    IdFacts(net, s, NOBODY);
    var i := Created(a, source, penalty);
    var b := NewBucket(net, s.key, i, source);
    assert a.service.host !in s.ids;
    assert s.idCount !in s.infos && s.idCount !in s.news[b];
    EnrollKeepsInv(net, s, i);
    AttachedJoins(net, Enroll(s, i), s.idCount, b, now, Later(dice), t);
  }
}
