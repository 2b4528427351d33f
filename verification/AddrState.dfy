/** The data of the address manager (src/addrman.h) as one value, the invariant
    that ties its six redundant indexes together, and the elementary state
    changes from which every operation is built. */
module AddrState {

  const TRIED_BUCKET_COUNT := 64
  const TRIED_BUCKET_SIZE := 64
  const NEW_BUCKET_COUNT := 256
  const NEW_BUCKET_SIZE := 64
  const NEW_BUCKETS_PER_ADDRESS := 4
  const NOBODY := -1  // no entry is owed a bucket

  type Uint32 = n: nat | n < 0x1_0000_0000

  /** C++ conversion of a 64-bit value to `unsigned int`. */
  function ToUint32(n: int): Uint32 {
    n % 0x1_0000_0000
  }

  datatype NetAddr = NetAddr(ip: seq<bv8>)

  datatype Service = Service(host: NetAddr, port: nat)

  /** `CAddress`: a service with its advertised services and last-seen time. */
  datatype Address = Address(service: Service, services: bv64, time: Uint32)

  /** `CAddrInfo`. */
  datatype Info = Info(
    service: Service, services: bv64, time: Uint32, lastTry: int, source: NetAddr,
    lastSuccess: int, attempts: int, refCount: int, inTried: bool, randomPos: int)

  /** What the manager takes from elsewhere: routability and the keyed hashes
      behind the bucket numbers. */
  datatype Net = Net(
    routable: NetAddr -> bool,
    triedHash: (seq<bv8>, Service) -> nat,
    newHash: (seq<bv8>, NetAddr, NetAddr) -> nat)

  function TriedBucket(net: Net, key: seq<bv8>, info: Info): (k: nat)
    ensures k < TRIED_BUCKET_COUNT
  {
    net.triedHash(key, info.service) % TRIED_BUCKET_COUNT
  }

  function NewBucket(net: Net, key: seq<bv8>, info: Info, source: NetAddr): (b: nat)
    ensures b < NEW_BUCKET_COUNT
  {
    net.newHash(key, info.service.host, source) % NEW_BUCKET_COUNT
  }

  type Infos = map<int, Info>

  datatype State = State(
    key: seq<bv8>,
    idCount: int,
    infos: Infos,
    ids: map<NetAddr, int>,
    random: seq<int>,
    nTried: int,
    tried: seq<seq<int>>,
    nNew: int,
    news: seq<set<int>>)

  // ---------------------------------------------------------------- invariant

  /** `ids` is the exact inverse of `infos`, and ids are below the counter. */
  ghost predicate Linked(idCount: int, infos: Infos, ids: map<NetAddr, int>) {
    && 0 <= idCount
    && (forall id <- infos :: 0 <= id < idCount && infos[id].service.host in ids
                              && ids[infos[id].service.host] == id)
    && (forall a <- ids :: ids[a] in infos && infos[ids[a]].service.host == a)
  }

  /** `random` is a permutation of the ids, with correct back-positions. */
  ghost predicate Shuffled(infos: Infos, random: seq<int>) {
    && |random| == |infos|
    && (forall id <- infos :: 0 <= infos[id].randomPos < |random| && random[infos[id].randomPos] == id)
    && (forall i :: 0 <= i < |random| ==> random[i] in infos && infos[random[i]].randomPos == i)
  }

  predicate NoDuplicates(xs: seq<int>) {
    forall i, j :: 0 <= i < j < |xs| ==> xs[i] != xs[j]
  }

  /** Every tried entry sits in exactly one slot, in its own hash bucket, and has
      no reference from the new table. */
  ghost predicate TriedTable(net: Net, key: seq<bv8>, infos: Infos, tried: seq<seq<int>>) {
    && |tried| == TRIED_BUCKET_COUNT
    && (forall k :: 0 <= k < |tried| ==> |tried[k]| <= TRIED_BUCKET_SIZE && NoDuplicates(tried[k]))
    && (forall k, id :: 0 <= k < |tried| && id in tried[k] ==>
          id in infos && infos[id].inTried && TriedBucket(net, key, infos[id]) == k)
    && (forall id <- infos :: infos[id].inTried ==>
          infos[id].refCount == 0 && id in tried[TriedBucket(net, key, infos[id])])
  }

  /** The new buckets that hold `id`. */
  ghost function Holders(news: seq<set<int>>, id: int): set<int> {
    set b | 0 <= b < |news| && id in news[b]
  }

  lemma HoldersOfNone(id: int)
    ensures |Holders([], id)| == 0
  {
    assert Holders([], id) == {};
  }

  lemma HoldersWithLast(news: seq<set<int>>, id: int)
    requires news != []
    ensures var n := |news| - 1;
            |Holders(news, id)| == |Holders(news[..n], id)| + (if id in news[n] then 1 else 0)
  {
    var n := |news| - 1;
    var h := Holders(news[..n], id);
    if id in news[n] {
      assert Holders(news, id) == h + {n};
    } else {
      assert Holders(news, id) == h;
    }
  }

  /** Every other entry has a reference count between 1 and 4 that is the exact
      number of its new buckets; `owed` is one short of its count while `Add` is
      still looking for room. */
  ghost predicate NewTable(infos: Infos, news: seq<set<int>>, owed: int) {
    && |news| == NEW_BUCKET_COUNT
    && (forall b :: 0 <= b < |news| ==> |news[b]| <= NEW_BUCKET_SIZE)
    && (forall b, id :: 0 <= b < |news| && id in news[b] ==> id in infos && !infos[id].inTried)
    && (forall id <- infos :: !infos[id].inTried ==>
          && 1 <= infos[id].refCount <= NEW_BUCKETS_PER_ADDRESS
          && infos[id].refCount == |Holders(news, id)| + (if id == owed then 1 else 0))
  }

  function TriedIds(infos: Infos): set<int> {
    set id | id in infos && infos[id].inTried
  }

  function NewIds(infos: Infos): set<int> {
    set id | id in infos && !infos[id].inTried
  }

  ghost predicate Counted(infos: Infos, nTried: int, nNew: int) {
    nTried == |TriedIds(infos)| && nNew == |NewIds(infos)|
  }

  lemma SplitSize(infos: Infos)
    ensures |infos| == |TriedIds(infos)| + |NewIds(infos)|
  {
    assert forall id :: id in infos.Keys <==> id in TriedIds(infos) + NewIds(infos);
    assert infos.Keys == TriedIds(infos) + NewIds(infos);
    assert TriedIds(infos) !! NewIds(infos);
    assert |infos.Keys| == |infos|;
  }

  /** The whole structural invariant. */
  ghost predicate Inv(net: Net, s: State, owed: int) {
    && Linked(s.idCount, s.infos, s.ids)
    && Shuffled(s.infos, s.random)
    && TriedTable(net, s.key, s.infos, s.tried)
    && NewTable(s.infos, s.news, owed)
    && Counted(s.infos, s.nTried, s.nNew)
  }

  /** The part of the consistency check that depends on the clock. */
  ghost predicate Stamped(infos: Infos) {
    forall id <- infos ::
      && infos[id].lastTry >= 0
      && infos[id].lastSuccess >= 0
      && (infos[id].inTried ==> infos[id].lastSuccess > 0)
  }

  function Empty(key: seq<bv8>): State {
    State(key, 0, map[], map[], [], 0, seq(TRIED_BUCKET_COUNT, _ => []), 0, seq(NEW_BUCKET_COUNT, _ => {}))
  }

  lemma EmptyInv(net: Net, key: seq<bv8>)
    ensures Inv(net, Empty(key), NOBODY) && Stamped(Empty(key).infos)
  {
    assert TriedIds(map[]) == {};
    assert NewIds(map[]) == {};
  }

  // ------------------------------------------- changes that keep the two tables

  ghost predicate SameHosts(a: Infos, b: Infos) {
    && a.Keys == b.Keys
    && forall id <- a :: id in b && a[id].service == b[id].service
  }

  ghost predicate SamePositions(a: Infos, b: Infos) {
    && a.Keys == b.Keys
    && forall id <- a :: id in b && a[id].randomPos == b[id].randomPos
  }

  /** Same entries with the same place in the tables; statistics and positions in
      `random` may differ. */
  ghost predicate SamePlaces(a: Infos, b: Infos) {
    && SameHosts(a, b)
    && forall id <- a :: id in b && a[id].refCount == b[id].refCount && a[id].inTried == b[id].inTried
  }

  /** Replacing an entry by one with the same service and position. */
  lemma UpdateFrame(infos: Infos, id: int, info: Info)
    requires id in infos && info.service == infos[id].service && info.randomPos == infos[id].randomPos
    ensures SameHosts(infos, infos[id := info]) && SamePositions(infos, infos[id := info])
    ensures info.inTried == infos[id].inTried ==>
              TriedIds(infos[id := info]) == TriedIds(infos) && NewIds(infos[id := info]) == NewIds(infos)
  {
    var b := infos[id := info];
    assert b.Keys == infos.Keys;
    if info.inTried == infos[id].inTried {
      SplitFrame(infos, b);
    }
  }

  lemma LinkedFrame(a: Infos, b: Infos, idCount: int, ids: map<NetAddr, int>)
    requires SameHosts(a, b) && Linked(idCount, a, ids)
    ensures Linked(idCount, b, ids)
  {
  }

  lemma IdsInRange(idCount: int, infos: Infos, ids: map<NetAddr, int>)
    requires Linked(idCount, infos, ids)
    ensures forall id <- infos :: 0 <= id < idCount
  {
  }

  lemma ShuffledFrame(a: Infos, b: Infos, random: seq<int>)
    requires SamePositions(a, b) && Shuffled(a, random)
    ensures Shuffled(b, random)
  {
    assert |a.Keys| == |b.Keys|;
  }

  lemma TriedFrame(net: Net, key: seq<bv8>, a: Infos, b: Infos, tried: seq<seq<int>>)
    requires SamePlaces(a, b) && TriedTable(net, key, a, tried)
    ensures TriedTable(net, key, b, tried)
  {
  }

  lemma NewFrame(a: Infos, b: Infos, news: seq<set<int>>, owed: int)
    requires SamePlaces(a, b) && NewTable(a, news, owed)
    ensures NewTable(b, news, owed)
  {
  }

  lemma SplitFrame(a: Infos, b: Infos)
    requires a.Keys == b.Keys && forall id <- a :: id in b && a[id].inTried == b[id].inTried
    ensures TriedIds(a) == TriedIds(b) && NewIds(a) == NewIds(b)
  {
    assert forall id :: id in a.Keys <==> id in b.Keys;
    assert forall id :: id in TriedIds(a) <==> id in TriedIds(b);
    assert forall id :: id in NewIds(a) <==> id in NewIds(b);
  }

  /** Changing positions and statistics only leaves just `Shuffled` to be shown. */
  lemma SamePlacesKeepInv(net: Net, s: State, t: State, owed: int)
    requires Inv(net, s, owed) && SamePlaces(s.infos, t.infos) && Shuffled(t.infos, t.random)
    requires t == s.(infos := t.infos, random := t.random)
    ensures Inv(net, t, owed)
  {
    hide Linked, Shuffled, TriedTable, NewTable, TriedIds, NewIds;
    LinkedFrame(s.infos, t.infos, s.idCount, s.ids);
    TriedFrame(net, s.key, s.infos, t.infos, s.tried);
    NewFrame(s.infos, t.infos, s.news, owed);
    SplitFrame(s.infos, t.infos);
  }

  function Put(s: State, id: int, info: Info): State {
    s.(infos := s.infos[id := info])
  }

  /** Updating the statistics of an entry. */
  lemma PutKeepsInv(net: Net, s: State, owed: int, id: int, info: Info)
    requires Inv(net, s, owed) && id in s.infos
    requires info.service == s.infos[id].service && info.refCount == s.infos[id].refCount
    requires info.inTried == s.infos[id].inTried && info.randomPos == s.infos[id].randomPos
    ensures Inv(net, Put(s, id, info), owed)
  {
    hide Linked, Shuffled, TriedTable, NewTable, Counted;
    var t := Put(s, id, info);
    assert t.infos.Keys == s.infos.Keys;
    ShuffledFrame(s.infos, t.infos, s.random);
    SamePlacesKeepInv(net, s, t, owed);
  }

  ghost predicate Swappable(infos: Infos, random: seq<int>, i: int, j: int) {
    0 <= i < |random| && 0 <= j < |random| && random[i] in infos && random[j] in infos
  }

  function Repositioned(infos: Infos, a: int, i: int, b: int, j: int): Infos
    requires a in infos && b in infos
  {
    var m := infos[a := infos[a].(randomPos := j)];
    m[b := m[b].(randomPos := i)]
  }

  /** `CAddrMan::SwapRandom`. */
  function SwapPositions(s: State, i: int, j: int): State
    requires i == j || Swappable(s.infos, s.random, i, j)
  {
    if i == j then s else
      s.(infos := Repositioned(s.infos, s.random[i], i, s.random[j], j),
         random := s.random[i := s.random[j]][j := s.random[i]])
  }

  lemma RepositionedIsShuffled(infos: Infos, random: seq<int>, i: int, j: int)
    requires Shuffled(infos, random) && 0 <= i < |random| && 0 <= j < |random| && i != j
    ensures Swappable(infos, random, i, j)
    ensures SamePlaces(infos, Repositioned(infos, random[i], i, random[j], j))
    ensures Shuffled(Repositioned(infos, random[i], i, random[j], j), random[i := random[j]][j := random[i]])
  {
    var r := Repositioned(infos, random[i], i, random[j], j);
    assert r.Keys == infos.Keys;
    assert |r| == |infos|;
  }

  lemma SwapKeepsInv(net: Net, s: State, owed: int, i: int, j: int)
    requires Inv(net, s, owed) && 0 <= i < |s.random| && 0 <= j < |s.random|
    ensures Swappable(s.infos, s.random, i, j) && Inv(net, SwapPositions(s, i, j), owed)
  {
    if i != j {
      hide Linked, Shuffled, TriedTable, NewTable, Counted, SamePlaces, Swappable;
      RepositionedIsShuffled(s.infos, s.random, i, j);
      SamePlacesKeepInv(net, s, SwapPositions(s, i, j), owed);
    }
  }

  // ---------------------------------------------------- growing the new table

  /** An entry found again is owed one more bucket. */
  function Owe(s: State, id: int): State
    requires id in s.infos
  {
    Put(s, id, s.infos[id].(refCount := s.infos[id].refCount + 1))
  }

  lemma OweKeepsTables(net: Net, s: State, id: int)
    requires TriedTable(net, s.key, s.infos, s.tried) && NewTable(s.infos, s.news, NOBODY)
    requires id in s.infos && !s.infos[id].inTried && s.infos[id].refCount < NEW_BUCKETS_PER_ADDRESS
    requires forall x <- s.infos :: 0 <= x < s.idCount
    ensures TriedTable(net, s.key, Owe(s, id).infos, s.tried) && NewTable(Owe(s, id).infos, s.news, id)
  {
  }

  lemma OweKeepsInv(net: Net, s: State, id: int)
    requires Inv(net, s, NOBODY) && id in s.infos
    requires !s.infos[id].inTried && s.infos[id].refCount < NEW_BUCKETS_PER_ADDRESS
    ensures Inv(net, Owe(s, id), id)
  {
    hide Linked, Shuffled, TriedTable, NewTable, TriedIds, NewIds, SameHosts, SamePositions;
    var t := Owe(s, id);
    IdsInRange(s.idCount, s.infos, s.ids);
    OweKeepsTables(net, s, id);
    UpdateFrame(s.infos, id, t.infos[id]);
    ShuffledFrame(s.infos, t.infos, s.random);
    LinkedFrame(s.infos, t.infos, s.idCount, s.ids);
  }

  /** `CAddrMan::Create` with the counting that follows it in `Add_`: a new entry,
      owed its first bucket. */
  function Enroll(s: State, info: Info): State {
    s.(idCount := s.idCount + 1,
       infos := s.infos[s.idCount := info.(refCount := 1, inTried := false, randomPos := |s.random|)],
       ids := s.ids[info.service.host := s.idCount],
       random := s.random + [s.idCount],
       nNew := s.nNew + 1)
  }

  lemma EnrollLinked(infos: Infos, ids: map<NetAddr, int>, id: int, info: Info)
    requires Linked(id, infos, ids) && info.service.host !in ids
    ensures Linked(id + 1, infos[id := info], ids[info.service.host := id])
  {
  }

  lemma EnrollShuffled(infos: Infos, random: seq<int>, id: int, info: Info)
    requires Shuffled(infos, random) && id !in infos && info.randomPos == |random|
    ensures Shuffled(infos[id := info], random + [id])
  {
    var m, r := infos[id := info], random + [id];
    assert |m| == |infos| + 1;
    assert forall i :: 0 <= i < |random| ==> r[i] == random[i] && r[i] != id;
  }

  lemma EnrollTables(net: Net, key: seq<bv8>, infos: Infos, tried: seq<seq<int>>, news: seq<set<int>>, id: int,
                     info: Info)
    requires TriedTable(net, key, infos, tried) && NewTable(infos, news, NOBODY)
    requires id !in infos && !info.inTried && info.refCount == 1 && NOBODY !in infos
    ensures TriedTable(net, key, infos[id := info], tried) && NewTable(infos[id := info], news, id)
  {
    assert Holders(news, id) == {};
  }

  lemma EnrollIds(infos: Infos, id: int, info: Info)
    requires id !in infos && !info.inTried
    ensures TriedIds(infos[id := info]) == TriedIds(infos)
    ensures NewIds(infos[id := info]) == NewIds(infos) + {id} && id !in NewIds(infos)
  {
    var m := infos[id := info];
    assert forall x :: x in TriedIds(m) <==> x in TriedIds(infos);
    assert forall x :: x in NewIds(m) <==> x in NewIds(infos) + {id};
  }

  lemma EnrollCounted(infos: Infos, nTried: int, nNew: int, id: int, info: Info)
    requires Counted(infos, nTried, nNew) && id !in infos && !info.inTried
    ensures Counted(infos[id := info], nTried, nNew + 1)
  {
    hide TriedIds, NewIds;
    EnrollIds(infos, id, info);
  }

  lemma EnrollKeepsInv(net: Net, s: State, info: Info)
    requires Inv(net, s, NOBODY) && info.service.host !in s.ids
    ensures Inv(net, Enroll(s, info), s.idCount)
  {
    hide Linked, Shuffled, TriedTable, NewTable, Counted;
    var t := Enroll(s, info);
    IdsInRange(s.idCount, s.infos, s.ids);
    EnrollLinked(s.infos, s.ids, s.idCount, t.infos[s.idCount]);
    EnrollShuffled(s.infos, s.random, s.idCount, t.infos[s.idCount]);
    EnrollTables(net, s.key, s.infos, s.tried, s.news, s.idCount, t.infos[s.idCount]);
    EnrollCounted(s.infos, s.nTried, s.nNew, s.idCount, t.infos[s.idCount]);
  }

  /** Adds `id` to new bucket `b`. */
  function Place(s: State, b: int, id: int): State
    requires 0 <= b < |s.news|
  {
    s.(news := s.news[b := s.news[b] + {id}])
  }

  lemma HoldersAfterInsert(news: seq<set<int>>, b: int, id: int)
    requires 0 <= b < |news| && id !in news[b]
    ensures |Holders(news[b := news[b] + {id}], id)| == |Holders(news, id)| + 1
    ensures forall x :: x != id ==> Holders(news[b := news[b] + {id}], x) == Holders(news, x)
  {
    var f := news[b := news[b] + {id}];
    assert Holders(f, id) == Holders(news, id) + {b};
    assert forall x, c :: x != id ==> (c in Holders(f, x) <==> c in Holders(news, x));
  }

  lemma PlaceKeepsTable(infos: Infos, news: seq<set<int>>, b: int, id: int)
    requires NewTable(infos, news, id) && 0 <= b < |news| && id in infos && !infos[id].inTried
    requires id !in news[b] && |news[b]| < NEW_BUCKET_SIZE && NOBODY !in infos
    ensures NewTable(infos, news[b := news[b] + {id}], NOBODY)
  {
    HoldersAfterInsert(news, b, id);
    hide Holders;
  }

  lemma PlaceKeepsInv(net: Net, s: State, b: int, id: int)
    requires Inv(net, s, id) && 0 <= b < |s.news| && id in s.infos && !s.infos[id].inTried
    requires id !in s.news[b] && |s.news[b]| < NEW_BUCKET_SIZE
    ensures Inv(net, Place(s, b, id), NOBODY)
  {
    hide Linked, Shuffled, TriedTable, NewTable, Counted;
    IdsInRange(s.idCount, s.infos, s.ids);
    PlaceKeepsTable(s.infos, s.news, b, id);
  }

  // -------------------------------------------------- shrinking the new table

  /** Deletion of an entry: swap with the last position and pop. */
  function Forget(s: State, id: int): State
    requires id in s.infos && Swappable(s.infos, s.random, s.infos[id].randomPos, |s.random| - 1)
  {
    var last := |s.random| - 1;
    var t := SwapPositions(s, s.infos[id].randomPos, last);
    t.(random := t.random[..last], ids := t.ids - {s.infos[id].service.host}, infos := t.infos - {id},
       nNew := t.nNew - 1)
  }

  lemma ForgetLinked(idCount: int, infos: Infos, ids: map<NetAddr, int>, id: int)
    requires Linked(idCount, infos, ids) && id in infos
    ensures Linked(idCount, infos - {id}, ids - {infos[id].service.host})
  {
  }

  lemma ForgetShuffled(infos: Infos, random: seq<int>, id: int)
    requires Shuffled(infos, random) && |random| > 0 && random[|random| - 1] == id
    ensures Shuffled(infos - {id}, random[..|random| - 1])
  {
    var m := infos - {id};
    assert m.Keys == infos.Keys - {id};
    assert |m.Keys| == |infos.Keys| - 1;
  }

  lemma ForgetCounted(infos: Infos, nTried: int, nNew: int, id: int)
    requires Counted(infos, nTried, nNew) && id in infos && !infos[id].inTried
    ensures Counted(infos - {id}, nTried, nNew - 1)
  {
    assert TriedIds(infos - {id}) == TriedIds(infos);
    assert NewIds(infos - {id}) == NewIds(infos) - {id};
  }

  /** Removes one reference of `id`, from bucket `b`; the last one deletes it. */
  function Unref(s: State, b: int, id: int): State
    requires id in s.infos && Swappable(s.infos, s.random, s.infos[id].randomPos, |s.random| - 1)
    requires 0 <= b < |s.news|
  {
    var t := Put(s, id, s.infos[id].(refCount := s.infos[id].refCount - 1));
    var u := if t.infos[id].refCount == 0 then Forget(t, id) else t;
    u.(news := u.news[b := u.news[b] - {id}])
  }

  lemma HoldersAfterErase(news: seq<set<int>>, b: int, id: int)
    requires 0 <= b < |news| && id in news[b]
    ensures |Holders(news[b := news[b] - {id}], id)| == |Holders(news, id)| - 1
    ensures forall x :: x != id ==> Holders(news[b := news[b] - {id}], x) == Holders(news, x)
  {
    var f := news[b := news[b] - {id}];
    assert b in Holders(news, id);
    assert Holders(f, id) == Holders(news, id) - {b};
    assert forall x, c :: x != id ==> (c in Holders(f, x) <==> c in Holders(news, x));
  }

  /** An entry with several references loses one. */
  lemma UnrefOneTables(net: Net, key: seq<bv8>, infos: Infos, tried: seq<seq<int>>, news: seq<set<int>>,
                       owed: int, b: int, id: int, info: Info)
    requires TriedTable(net, key, infos, tried) && NewTable(infos, news, owed)
    requires 0 <= b < |news| && id in news[b] && id != owed
    requires info == infos[id].(refCount := infos[id].refCount - 1) && info.refCount != 0
    ensures TriedTable(net, key, infos[id := info], tried)
    ensures NewTable(infos[id := info], news[b := news[b] - {id}], owed)
  {
    HoldersAfterErase(news, b, id);
    hide Holders;
  }

  /** An entry with one reference has one holder, so erasing it leaves none. */
  lemma UnrefLastTables(net: Net, key: seq<bv8>, infos: Infos, tried: seq<seq<int>>, news: seq<set<int>>,
                        owed: int, b: int, id: int, rest: Infos)
    requires TriedTable(net, key, infos, tried) && NewTable(infos, news, owed)
    requires 0 <= b < |news| && id in news[b] && id != owed && infos[id].refCount == 1
    requires rest.Keys == infos.Keys - {id}
    requires forall x <- rest :: rest[x].service == infos[x].service && rest[x].refCount == infos[x].refCount
                                 && rest[x].inTried == infos[x].inTried
    ensures TriedTable(net, key, rest, tried)
    ensures NewTable(rest, news[b := news[b] - {id}], owed)
  {
    var f := news[b := news[b] - {id}];
    HoldersAfterErase(news, b, id);
    assert forall c :: 0 <= c < |f| && id in f[c] ==> c in Holders(f, id);
    assert forall x :: x in rest <==> x in infos && x != id;
    hide Holders;
  }

  /** `Forget` removes the entry and keeps the places of all others. */
  lemma ForgetKeepsIndexes(s: State, id: int)
    requires Linked(s.idCount, s.infos, s.ids) && Shuffled(s.infos, s.random) && id in s.infos
    ensures Swappable(s.infos, s.random, s.infos[id].randomPos, |s.random| - 1)
    ensures var u := Forget(s, id);
            && Linked(u.idCount, u.infos, u.ids) && Shuffled(u.infos, u.random)
            && u.infos.Keys == s.infos.Keys - {id}
            && forall x <- u.infos :: u.infos[x].service == s.infos[x].service
                 && u.infos[x].refCount == s.infos[x].refCount && u.infos[x].inTried == s.infos[x].inTried
  {
    hide Shuffled, Linked;
    PositionOf(s.infos, s.random, id);
    var p, last := s.infos[id].randomPos, |s.random| - 1;
    if p != last {
      RepositionedIsShuffled(s.infos, s.random, p, last);
    }
    var t := SwapPositions(s, p, last);
    assert SamePlaces(s.infos, t.infos) && Shuffled(t.infos, t.random);
    LinkedFrame(s.infos, t.infos, s.idCount, s.ids);
    ForgetLinked(t.idCount, t.infos, t.ids, id);
    ForgetShuffled(t.infos, t.random, id);
  }

  lemma PositionOf(infos: Infos, random: seq<int>, id: int)
    requires Shuffled(infos, random) && id in infos
    ensures 0 <= infos[id].randomPos < |random| && random[infos[id].randomPos] == id
    ensures random[|random| - 1] in infos
  {
  }

  /** The state just after the decrement: everything but the new table is in order. */
  lemma DecrementKeepsIndexes(net: Net, s: State, owed: int, id: int, info: Info)
    requires Inv(net, s, owed) && id in s.infos
    requires info == s.infos[id].(refCount := s.infos[id].refCount - 1)
    ensures var t := Put(s, id, info);
            Linked(t.idCount, t.infos, t.ids) && Shuffled(t.infos, t.random) && Counted(t.infos, t.nTried, t.nNew)
  {
    hide Linked, Shuffled, TriedTable, NewTable, SameHosts, SamePositions, TriedIds, NewIds;
    var t := Put(s, id, info);
    UpdateFrame(s.infos, id, info);
    ShuffledFrame(s.infos, t.infos, s.random);
    LinkedFrame(s.infos, t.infos, s.idCount, s.ids);
  }

  lemma UnrefLastKeepsInv(net: Net, s: State, owed: int, b: int, id: int, t: State)
    requires Inv(net, s, owed) && 0 <= b < |s.news| && id in s.news[b] && id != owed
    requires id in s.infos && s.infos[id].refCount == 1 && !s.infos[id].inTried
    requires t == Put(s, id, s.infos[id].(refCount := 0))
    ensures Swappable(t.infos, t.random, t.infos[id].randomPos, |t.random| - 1)
    ensures Inv(net, Forget(t, id).(news := s.news[b := s.news[b] - {id}]), owed)
  {
    hide Linked, Shuffled, TriedTable, NewTable, Counted, Swappable;
    DecrementKeepsIndexes(net, s, owed, id, t.infos[id]);
    ForgetKeepsIndexes(t, id);
    var u := Forget(t, id);
    assert u.infos.Keys == s.infos.Keys - {id};
    ForgetCounted(t.infos, s.nTried, s.nNew, id);
    CountedSame(t.infos - {id}, u.infos, s.nTried, s.nNew - 1);
    UnrefLastTables(net, s.key, s.infos, s.tried, s.news, owed, b, id, u.infos);
  }

  lemma UnrefKeepsInv(net: Net, s: State, owed: int, b: int, id: int)
    requires Inv(net, s, owed) && 0 <= b < |s.news| && id in s.news[b] && id != owed
    ensures id in s.infos && Swappable(s.infos, s.random, s.infos[id].randomPos, |s.random| - 1)
    ensures Inv(net, Unref(s, b, id), owed)
  {
    hide Linked, Shuffled, TriedTable, NewTable, Counted, Swappable;
    NewMember(s.infos, s.news, owed, b, id);
    var info := s.infos[id].(refCount := s.infos[id].refCount - 1);
    ForgetKeepsIndexes(s, id);
    if info.refCount == 0 {
      UnrefLastKeepsInv(net, s, owed, b, id, Put(s, id, info));
    } else {
      DecrementKeepsIndexes(net, s, owed, id, info);
      UnrefOneTables(net, s.key, s.infos, s.tried, s.news, owed, b, id, info);
    }
  }

  /** What `Unref` removes: one bucket entry, and the whole entry when that was its
      last reference. Nothing else about any entry changes but its position. */
  lemma UnrefEffect(s: State, b: int, id: int)
    requires id in s.infos && 0 <= b < |s.news|
    requires Swappable(s.infos, s.random, s.infos[id].randomPos, |s.random| - 1)
    ensures var t := Unref(s, b, id);
            && t.tried == s.tried && t.nTried == s.nTried && t.idCount == s.idCount && t.key == s.key
            && t.news == s.news[b := s.news[b] - {id}]
            && (if s.infos[id].refCount == 1
                then t.infos.Keys == s.infos.Keys - {id} && t.ids == s.ids - {s.infos[id].service.host}
                else t.infos.Keys == s.infos.Keys && t.ids == s.ids)
            && forall x <- t.infos :: x in s.infos &&
                 t.infos[x] == s.infos[x].(randomPos := t.infos[x].randomPos, refCount := t.infos[x].refCount)
  {
    if s.infos[id].refCount == 1 {
      ForgetEffect(Put(s, id, s.infos[id].(refCount := 0)), id);
      hide Forget;
    } else {
      assert Unref(s, b, id).infos.Keys == s.infos.Keys;
    }
  }

  lemma ForgetEffect(s: State, id: int)
    requires id in s.infos && Swappable(s.infos, s.random, s.infos[id].randomPos, |s.random| - 1)
    ensures var t := Forget(s, id);
            && t == s.(infos := t.infos, ids := s.ids - {s.infos[id].service.host}, random := t.random,
                       nNew := s.nNew - 1)
            && t.infos.Keys == s.infos.Keys - {id}
            && forall x <- t.infos :: t.infos[x] == s.infos[x].(randomPos := t.infos[x].randomPos)
  {
  }

  lemma NewMember(infos: Infos, news: seq<set<int>>, owed: int, b: int, id: int)
    requires NewTable(infos, news, owed) && 0 <= b < |news| && id in news[b]
    ensures id in infos && !infos[id].inTried && 1 <= infos[id].refCount
  {
  }

  lemma CountedSame(a: Infos, b: Infos, nTried: int, nNew: int)
    requires Counted(a, nTried, nNew) && a.Keys == b.Keys
    requires forall id <- a :: id in b && a[id].inTried == b[id].inTried
    ensures Counted(b, nTried, nNew)
  {
    SplitFrame(a, b);
  }

  // ------------------------------------------------------ moving between tables

  /** `news` with `id` erased from every bucket. */
  function Cleared(news: seq<set<int>>, id: int): (r: seq<set<int>>)
    ensures |r| == |news| && forall b :: 0 <= b < |news| ==> r[b] == news[b] - {id}
  {
    seq(|news|, b requires 0 <= b < |news| => news[b] - {id})
  }

  function AsTried(info: Info): Info {
    info.(refCount := 0, inTried := true)
  }

  function AsNew(info: Info): Info {
    info.(refCount := 1, inTried := false)
  }

  /** `id` leaves all new buckets for a free slot of its tried bucket `k`. */
  function Promote(s: State, id: int, k: int): State
    requires id in s.infos && 0 <= k < |s.tried|
  {
    s.(infos := s.infos[id := AsTried(s.infos[id])],
       news := Cleared(s.news, id), nNew := s.nNew - 1,
       tried := s.tried[k := s.tried[k] + [id]], nTried := s.nTried + 1)
  }

  lemma HoldersAfterClear(news: seq<set<int>>, id: int)
    ensures Holders(Cleared(news, id), id) == {}
    ensures forall x :: x != id ==> Holders(Cleared(news, id), x) == Holders(news, x)
  {
    assert forall x, c :: x != id ==> (c in Holders(Cleared(news, id), x) <==> c in Holders(news, x));
  }

  lemma PromoteTried(net: Net, key: seq<bv8>, infos: Infos, tried: seq<seq<int>>, id: int, k: int)
    requires TriedTable(net, key, infos, tried) && id in infos && !infos[id].inTried
    requires k == TriedBucket(net, key, infos[id]) && |tried[k]| < TRIED_BUCKET_SIZE
    ensures TriedTable(net, key, infos[id := AsTried(infos[id])], tried[k := tried[k] + [id]])
  {
    var m, t := infos[id := AsTried(infos[id])], tried[k := tried[k] + [id]];
    assert forall x :: x in t[k] <==> x in tried[k] || x == id;
    assert TriedBucket(net, key, m[id]) == k;
  }

  lemma PromoteNew(infos: Infos, news: seq<set<int>>, id: int)
    requires NewTable(infos, news, NOBODY) && id in infos && !infos[id].inTried
    ensures NewTable(infos[id := AsTried(infos[id])], Cleared(news, id), NOBODY)
  {
    HoldersAfterClear(news, id);
    hide Holders;
    var f := Cleared(news, id);
    forall b | 0 <= b < |f|
      ensures |f[b]| <= NEW_BUCKET_SIZE
    {
      SubsetSize(f[b], news[b]);
    }
  }

  lemma SubsetSize(a: set<int>, b: set<int>)
    requires a <= b
    ensures |a| <= |b|
  {
    assert |b| == |a| + |b - a| by {
      assert b == a + (b - a);
    }
  }

  lemma PromoteCounted(infos: Infos, nTried: int, nNew: int, id: int)
    requires Counted(infos, nTried, nNew) && id in infos && !infos[id].inTried
    ensures Counted(infos[id := AsTried(infos[id])], nTried + 1, nNew - 1)
  {
    var m := infos[id := AsTried(infos[id])];
    assert TriedIds(m) == TriedIds(infos) + {id};
    assert NewIds(m) == NewIds(infos) - {id};
  }

  lemma PromoteKeepsInv(net: Net, s: State, id: int, k: int)
    requires Inv(net, s, NOBODY) && id in s.infos && !s.infos[id].inTried
    requires |s.tried| == TRIED_BUCKET_COUNT
    requires k == TriedBucket(net, s.key, s.infos[id]) && |s.tried[k]| < TRIED_BUCKET_SIZE
    ensures Inv(net, Promote(s, id, k), NOBODY)
  {
    hide Linked, Shuffled, TriedTable, NewTable, Counted, SameHosts, SamePositions;
    var t := Promote(s, id, k);
    UpdateFrame(s.infos, id, t.infos[id]);
    LinkedFrame(s.infos, t.infos, s.idCount, s.ids);
    ShuffledFrame(s.infos, t.infos, s.random);
    PromoteTried(net, s.key, s.infos, s.tried, id, k);
    PromoteNew(s.infos, s.news, id);
    PromoteCounted(s.infos, s.nTried, s.nNew, id);
  }

  /** `ys` is a reordering of the duplicate-free `xs`. */
  ghost predicate Reordered(xs: seq<int>, ys: seq<int>) {
    && |xs| == |ys|
    && NoDuplicates(ys)
    && forall x :: x in xs <==> x in ys
  }

  /** `id` leaves all new buckets and takes slot `pos` of the full tried bucket `k`,
      reordered as `order`; the entry it displaces goes to new bucket `b`. */
  function Exchange(s: State, id: int, k: int, order: seq<int>, pos: int, b: int): State
    requires id in s.infos && 0 <= k < |s.tried| && 0 <= b < |s.news|
    requires 0 <= pos < |order| && order[pos] in s.infos
  {
    var evicted := order[pos];
    s.(infos := s.infos[evicted := AsNew(s.infos[evicted])][id := AsTried(s.infos[id])],
       news := Cleared(s.news, id)[b := Cleared(s.news, id)[b] + {evicted}],
       tried := s.tried[k := order[pos := id]])
  }

  /** The entries after an exchange made field by field. */
  lemma ExchangedInfos(cleared: Infos, infos: Infos, id: int, evicted: int)
    requires id in infos && evicted in infos && id != evicted
    requires cleared == infos[id := infos[id].(refCount := 0)]
    ensures var m := cleared[evicted := cleared[evicted].(inTried := false, refCount := 1)];
            m[id := m[id].(inTried := true)] == infos[evicted := AsNew(infos[evicted])][id := AsTried(infos[id])]
  {
  }

  lemma ReplaceSlot(order: seq<int>, pos: int, id: int)
    requires NoDuplicates(order) && 0 <= pos < |order| && id !in order
    ensures NoDuplicates(order[pos := id])
    ensures forall x :: x in order[pos := id] <==> (x in order && x != order[pos]) || x == id
  {
    var r := order[pos := id];
    assert r[pos] == id;
    forall x | x in order && x != order[pos]
      ensures x in r
    {
      var i :| 0 <= i < |order| && order[i] == x;
      assert r[i] == x;
    }
  }

  lemma ExchangeTried(net: Net, key: seq<bv8>, infos: Infos, tried: seq<seq<int>>, id: int, k: int,
                      order: seq<int>, pos: int)
    requires TriedTable(net, key, infos, tried) && id in infos && !infos[id].inTried
    requires k == TriedBucket(net, key, infos[id]) && Reordered(tried[k], order)
    requires 0 <= pos < |order| && order[pos] in infos
    ensures TriedTable(net, key, infos[order[pos] := AsNew(infos[order[pos]])][id := AsTried(infos[id])],
                       tried[k := order[pos := id]])
  {
    var evicted := order[pos];
    var m, t := infos[evicted := AsNew(infos[evicted])][id := AsTried(infos[id])], tried[k := order[pos := id]];
    assert id !in order;
    ReplaceSlot(order, pos, id);
    assert forall x :: x in t[k] <==> (x in tried[k] && x != evicted) || x == id;
    assert TriedBucket(net, key, m[id]) == k;
  }

  lemma ExchangeNew(infos: Infos, news: seq<set<int>>, id: int, evicted: int, b: int)
    requires NewTable(infos, news, NOBODY) && NOBODY !in infos
    requires id in infos && !infos[id].inTried && evicted in infos && infos[evicted].inTried
    requires 0 <= b < |news| && (|news[b]| < NEW_BUCKET_SIZE || id in news[b])
    ensures NewTable(infos[evicted := AsNew(infos[evicted])][id := AsTried(infos[id])],
                     Cleared(news, id)[b := Cleared(news, id)[b] + {evicted}], NOBODY)
  {
    PromoteNew(infos, news, id);
    var m, f := infos[id := AsTried(infos[id])], Cleared(news, id);
    assert |f[b]| < NEW_BUCKET_SIZE by {
      if id in news[b] {
        assert |news[b] - {id}| == |news[b]| - 1;
      }
    }
    assert evicted !in f[b];
    assert Holders(f, evicted) == {};
    var owing := m[evicted := AsNew(infos[evicted])];
    assert NewTable(owing, f, evicted);
    PlaceKeepsTable(owing, f, b, evicted);
    assert owing == infos[evicted := AsNew(infos[evicted])][id := AsTried(infos[id])];
  }

  lemma ExchangeCounted(infos: Infos, nTried: int, nNew: int, id: int, evicted: int)
    requires Counted(infos, nTried, nNew)
    requires id in infos && !infos[id].inTried && evicted in infos && infos[evicted].inTried
    ensures Counted(infos[evicted := AsNew(infos[evicted])][id := AsTried(infos[id])], nTried, nNew)
  {
    var m := infos[evicted := AsNew(infos[evicted])][id := AsTried(infos[id])];
    assert TriedIds(m) == TriedIds(infos) - {evicted} + {id};
    assert NewIds(m) == NewIds(infos) - {id} + {evicted};
  }

  lemma ExchangeKeepsInv(net: Net, s: State, id: int, k: int, order: seq<int>, pos: int, b: int)
    requires Inv(net, s, NOBODY) && id in s.infos && !s.infos[id].inTried && |s.tried| == TRIED_BUCKET_COUNT
    requires k == TriedBucket(net, s.key, s.infos[id]) && Reordered(s.tried[k], order)
    requires 0 <= pos < |order| && order[pos] in s.infos && s.infos[order[pos]].inTried
    requires 0 <= b < |s.news| && (|s.news[b]| < NEW_BUCKET_SIZE || id in s.news[b])
    ensures Inv(net, Exchange(s, id, k, order, pos, b), NOBODY)
  {
    hide Linked, Shuffled, TriedTable, NewTable, Counted, SameHosts, SamePositions, Reordered;
    var evicted := order[pos];
    var m := s.infos[evicted := AsNew(s.infos[evicted])];
    var t := Exchange(s, id, k, order, pos, b);
    IdsInRange(s.idCount, s.infos, s.ids);
    UpdateFrame(s.infos, evicted, m[evicted]);
    UpdateFrame(m, id, t.infos[id]);
    LinkedFrame(s.infos, m, s.idCount, s.ids);
    LinkedFrame(m, t.infos, s.idCount, s.ids);
    ShuffledFrame(s.infos, m, s.random);
    ShuffledFrame(m, t.infos, s.random);
    ExchangeTried(net, s.key, s.infos, s.tried, id, k, order, pos);
    ExchangeNew(s.infos, s.news, id, evicted, b);
    ExchangeCounted(s.infos, s.nTried, s.nNew, id, evicted);
  }
}
