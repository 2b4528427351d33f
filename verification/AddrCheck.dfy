/** The consistency check of the address manager (`CAddrMan::Check_`,
    src/addrman.cpp): what a result of zero means, and what it does not cover. */
module AddrCheck {
  import opened IntSets
  import opened AddrState
  import opened AddrSteps
  import opened AddrRuns
  import opened AddrManager

  /** `mapAddr[a]`: reading a missing key inserts and yields 0. */
  function Lookup(ids: map<NetAddr, int>, a: NetAddr): int {
    if a in ids then ids[a] else 0
  }

  /** The tests made for one entry. */
  predicate EntryOk(ids: map<NetAddr, int>, random: seq<int>, id: int, i: Info) {
    && (if i.inTried then i.lastSuccess != 0 && i.refCount == 0
        else 1 <= i.refCount <= NEW_BUCKETS_PER_ADDRESS)
    && Lookup(ids, i.service.host) == id
    && 0 <= i.randomPos < |random| && random[i.randomPos] == id
    && i.lastTry >= 0 && i.lastSuccess >= 0
  }

  /** All slots of the tried table, bucket after bucket. */
  function Slots(tried: seq<seq<int>>): seq<int> {
    if tried == [] then [] else Slots(tried[..|tried| - 1]) + tried[|tried| - 1]
  }

  /** Every member of `ids` occupies exactly one slot, and nothing else does. */
  ghost predicate ExactlyOnce(tried: seq<seq<int>>, ids: set<int>) {
    && NoDuplicates(Slots(tried))
    && forall id :: id in Slots(tried) <==> id in ids
  }

  /** Every key of `counts` is in exactly that many buckets, and nothing else is. */
  ghost predicate Multiplicity(news: seq<set<int>>, counts: map<int, int>) {
    && (forall b, id :: 0 <= b < |news| && id in news[b] ==> id in counts)
    && (forall id <- counts :: |Holders(news, id)| == counts[id])
  }

  ghost function RefCounts(infos: Infos): map<int, int> {
    map id | id in infos && !infos[id].inTried :: infos[id].refCount
  }

  /** What a result of zero says about the state. */
  ghost predicate Consistent(s: State) {
    && |s.random| == s.nTried + s.nNew
    && (forall id <- s.infos :: EntryOk(s.ids, s.random, id, s.infos[id]))
    && Counted(s.infos, s.nTried, s.nNew)
    && ExactlyOnce(s.tried, TriedIds(s.infos))
    && Multiplicity(s.news, RefCounts(s.infos))
  }

  // ---------------------------------------------------------------- scanning the tables

  lemma SlotsWithLast(tried: seq<seq<int>>, n: nat)
    requires n < |tried|
    ensures Slots(tried[..n + 1]) == Slots(tried[..n]) + tried[n]
  {
    assert tried[..n + 1][..n] == tried[..n];
  }

  lemma {:induction false} SlotsPrefix(tried: seq<seq<int>>, n: nat)
    requires n <= |tried|
    ensures Slots(tried[..n]) <= Slots(tried)
    decreases |tried| - n
  {
    if n == |tried| {
      assert tried[..n] == tried;
    } else {
      SlotsWithLast(tried, n);
      SlotsPrefix(tried, n + 1);
    }
  }

  /** The first scan of `Check_`: strikes every tried slot off a copy of the tried ids. */
  method ScanTried(tried: seq<seq<int>>, ids: set<int>) returns (ok: bool, rest: set<int>)
    ensures ok && rest == {} <==> ExactlyOnce(tried, ids)
  {
    rest := ids;
    ghost var done: seq<int> := [];
    assert tried[..0] == [];
    for n := 0 to |tried|
      invariant done == Slots(tried[..n]) && Struck(ids, done, rest)
    {
      hide Slots, Struck;
      SlotsWithLast(tried, n);
      SlotsPrefix(tried, n + 1);
      for i := 0 to |tried[n]|
        invariant done == Slots(tried[..n]) + tried[n][..i] && Struck(ids, done, rest)
      {
        var id := tried[n][i];
        assert done + [id] == Slots(tried[..n]) + tried[n][..i + 1];
        if id !in rest {
          assert done + [id] <= Slots(tried) by {
            assert tried[n][..i + 1] <= tried[n];
          }
          StrikeFails(tried, ids, done, id, rest);
          return false, rest;
        }
        Strike(ids, done, id, rest);
        done, rest := done + [id], rest - {id};
      }
      assert tried[n][..|tried[n]|] == tried[n];
    }
    assert tried[..|tried|] == tried;
    ok := true;
    AllStruck(tried, ids, rest);
  }

  /** `rest` is what remains of `ids` once the distinct slots `done` are struck off. */
  ghost predicate Struck(ids: set<int>, done: seq<int>, rest: set<int>) {
    && NoDuplicates(done)
    && (forall i :: 0 <= i < |done| ==> done[i] in ids)
    && (forall id :: id in rest <==> id in ids && id !in done)
  }

  lemma Strike(ids: set<int>, done: seq<int>, id: int, rest: set<int>)
    requires Struck(ids, done, rest) && id in rest
    ensures Struck(ids, done + [id], rest - {id})
  {
    var more := done + [id];
    assert forall x :: x in more <==> x in done || x == id;
    assert id !in done;
    assert forall i :: 0 <= i < |done| ==> more[i] in done;
  }

  lemma StrikeFails(tried: seq<seq<int>>, ids: set<int>, done: seq<int>, id: int, rest: set<int>)
    requires Struck(ids, done, rest) && id !in rest && done + [id] <= Slots(tried)
    ensures !ExactlyOnce(tried, ids)
  {
    var all := Slots(tried);
    hide Slots;
    assert all[|done|] == id;
    assert id in all;
    if id in ids {
      var i :| 0 <= i < |done| && done[i] == id;
      assert all[i] == id && i < |done|;
    }
  }

  lemma AllStruck(tried: seq<seq<int>>, ids: set<int>, rest: set<int>)
    requires Struck(ids, Slots(tried), rest)
    ensures rest == {} <==> ExactlyOnce(tried, ids)
  {
    hide Slots;
    var all := Slots(tried);
    assert forall id :: id in all ==> id in ids;
    if rest != {} {
      var id := Member(rest);
      assert id in ids && id !in all;
    }
  }

  /** How often `id` has been met after the buckets `before` and the entries `done` of
      the current one. */
  ghost function Met(before: seq<set<int>>, done: seq<int>, id: int): nat {
    |Holders(before, id)| + (if id in done then 1 else 0)
  }

  /** `rest` is what remains of `counts`. */
  ghost predicate Tally(counts: map<int, int>, before: seq<set<int>>, done: seq<int>, rest: map<int, int>) {
    && (forall b, id :: 0 <= b < |before| && id in before[b] ==> id in counts)
    && (forall i :: 0 <= i < |done| ==> done[i] in counts)
    && (forall id :: id in rest <==> id in counts && Met(before, done, id) < counts[id])
    && (forall id <- counts :: Met(before, done, id) <= counts[id])
    && (forall id <- counts :: id in rest ==> rest[id] == counts[id] - Met(before, done, id))
  }

  lemma TallyOne(counts: map<int, int>, before: seq<set<int>>, done: seq<int>, rest: map<int, int>, id: int,
                 left: map<int, int>)
    requires Tally(counts, before, done, rest) && id in rest && id !in done
    requires left == if rest[id] - 1 == 0 then rest - {id} else rest[id := rest[id] - 1]
    ensures Tally(counts, before, done + [id], left)
  {
    hide Holders;
    var more := done + [id];
    assert forall x :: x in more <==> x in done || x == id;
    assert forall x :: Met(before, more, x) == Met(before, done, x) + (if x == id then 1 else 0);
    hide Met;
    assert forall i :: 0 <= i < |done| ==> more[i] == done[i];
    assert forall x :: x in left <==> x in rest && !(x == id && rest[id] == 1);
  }

  lemma TallyBucket(counts: map<int, int>, news: seq<set<int>>, n: nat, done: seq<int>, rest: map<int, int>)
    requires n < |news| && Tally(counts, news[..n], done, rest) && forall id :: id in done <==> id in news[n]
    ensures Tally(counts, news[..n + 1], [], rest)
  {
    hide Holders;
    var upto := news[..n + 1];
    assert upto[..n] == news[..n] && upto[n] == news[n];
    forall id
      ensures Met(upto, [], id) == Met(news[..n], done, id)
    {
      HoldersWithLast(upto, id);
    }
    hide Met;
    forall b, id | 0 <= b < |upto| && id in upto[b]
      ensures id in counts
    {
      if b < n {
        assert id in news[..n][b];
      } else {
        assert id in done;
        var i :| 0 <= i < |done| && done[i] == id;
      }
    }
  }

  lemma HoldersMonotone(news: seq<set<int>>, n: nat, id: int)
    requires n <= |news|
    ensures |Holders(news[..n], id)| <= |Holders(news, id)|
    ensures n < |news| && id in news[n] ==> |Holders(news[..n], id)| < |Holders(news, id)|
  {
    var part, all := Holders(news[..n], id), Holders(news, id);
    assert forall b :: b in part ==> b in all;
    SubsetSize(part, all);
    if n < |news| && id in news[n] {
      assert n in all && n !in part;
      SubsetSize(part + {n}, all);
    }
  }

  lemma TallyFails(counts: map<int, int>, news: seq<set<int>>, n: nat, done: seq<int>, rest: map<int, int>, id: int)
    requires n < |news| && Tally(counts, news[..n], done, rest) && id in news[n] && id !in done && id !in rest
    ensures !Multiplicity(news, counts)
  {
    HoldersMonotone(news, n, id);
    hide Holders;
    if id in counts {
      assert Met(news[..n], done, id) == counts[id];
      assert |Holders(news, id)| > counts[id];
    }
  }

  lemma AllTallied(counts: map<int, int>, news: seq<set<int>>, rest: map<int, int>)
    requires Tally(counts, news, [], rest)
    ensures rest == map[] <==> Multiplicity(news, counts)
  {
    hide Holders;
    if Multiplicity(news, counts) {
      assert forall id :: id !in rest;
      assert rest == map[];
    }
    if rest == map[] {
      assert forall id <- counts :: id !in rest;
      assert forall id <- counts :: Met(news, [], id) == counts[id];
    }
  }

  lemma TallyStart(counts: map<int, int>)
    requires forall id <- counts :: counts[id] >= 1
    ensures Tally(counts, [], [], counts)
  {
    assert forall id :: Holders([], id) == {} by {
      forall id ensures Holders([], id) == {} {
        HoldersOfNone(id);
      }
    }
    assert forall id :: Met([], [], id) == 0;
  }

  /** The second scan of `Check_`: counts every entry of a new bucket off a copy of the
      reference counts. */
  method ScanNew(news: seq<set<int>>, counts: map<int, int>) returns (ok: bool, rest: map<int, int>)
    requires forall id <- counts :: counts[id] >= 1
    ensures ok && rest == map[] <==> Multiplicity(news, counts)
  {
    hide Tally, Multiplicity;
    rest := counts;
    TallyStart(counts);
    assert news[..0] == [];
    for n := 0 to |news|
      invariant Tally(counts, news[..n], [], rest)
    {
      var xs := Ascending(news[n]);
      assert xs[..0] == [];
      for i := 0 to |xs|
        invariant Tally(counts, news[..n], xs[..i], rest)
      {
        var id := xs[i];
        assert id in xs && id !in xs[..i];
        if id !in rest {
          TallyFails(counts, news, n, xs[..i], rest, id);
          return false, rest;
        }
        var left := if rest[id] - 1 == 0 then rest - {id} else rest[id := rest[id] - 1];
        TallyOne(counts, news[..n], xs[..i], rest, id, left);
        assert xs[..i] + [id] == xs[..i + 1];
        rest := left;
      }
      assert xs[..|xs|] == xs;
      TallyBucket(counts, news, n, xs, rest);
    }
    assert news[..|news|] == news;
    ok := true;
    AllTallied(counts, news, rest);
  }

  // ---------------------------------------------------------------- the check

  /** `after` is `before` with some missing addresses entered as belonging to entry 0. */
  ghost predicate Defaulted(before: map<NetAddr, int>, after: map<NetAddr, int>) {
    && (forall a <- before :: a in after && after[a] == before[a])
    && (forall a <- after :: after[a] == Lookup(before, a))
  }

  lemma DefaultedTwice(a: map<NetAddr, int>, b: map<NetAddr, int>, c: map<NetAddr, int>)
    requires Defaulted(a, b) && Defaulted(b, c)
    ensures Defaulted(a, c)
  {
  }

  lemma SameLookup(a: map<NetAddr, int>, b: map<NetAddr, int>, random: seq<int>, id: int, i: Info)
    requires Defaulted(a, b)
    ensures EntryOk(a, random, id, i) <==> EntryOk(b, random, id, i)
  {
  }

  /** The tests of one entry; the read of `mapAddr` may add a key. */
  method CheckEntry(ids: map<NetAddr, int>, random: seq<int>, id: int, i: Info)
    returns (code: int, ids': map<NetAddr, int>)
    ensures code == 0 <==> EntryOk(ids, random, id, i)
    ensures Defaulted(ids, ids')
    ensures code == 0 ==> i.service.host in ids'
  {
    ids' := ids;
    if i.inTried {
      if i.lastSuccess == 0 { return -1, ids'; }
      if i.refCount != 0 { return -2, ids'; }
    } else {
      if i.refCount < 0 || i.refCount > NEW_BUCKETS_PER_ADDRESS { return -3, ids'; }
      if i.refCount == 0 { return -4, ids'; }
    }
    if i.service.host !in ids' {
      ids' := ids'[i.service.host := 0];
    }
    if ids'[i.service.host] != id { return -5, ids'; }
    if i.randomPos < 0 || i.randomPos >= |random| || random[i.randomPos] != id { return -14, ids'; }
    if i.lastTry < 0 { return -6, ids'; }
    if i.lastSuccess < 0 { return -8, ids'; }
    return 0, ids';
  }

  /** The first `n` entries pass. */
  ghost predicate PassedFirst(ids: map<NetAddr, int>, after: map<NetAddr, int>, random: seq<int>, infos: Infos,
                              xs: seq<int>, n: nat)
    requires n <= |xs| && Known(infos, xs)
  {
    forall i :: 0 <= i < n ==> EntryOk(ids, random, xs[i], infos[xs[i]]) && infos[xs[i]].service.host in after
  }

  /** The loop of `Check_` over the entries. */
  method CheckEntries(ids: map<NetAddr, int>, random: seq<int>, infos: Infos)
    returns (code: int, setTried: set<int>, mapNew: map<int, int>, ids': map<NetAddr, int>)
    ensures code == 0 <==> forall id <- infos :: EntryOk(ids, random, id, infos[id])
    ensures code == 0 ==> setTried == TriedIds(infos) && mapNew == RefCounts(infos)
    ensures Defaulted(ids, ids')
    ensures code == 0 ==> forall id <- infos :: infos[id].service.host in ids'
  {
    hide EntryOk, Defaulted, Sorted, TriedIds, RefCounts, PassedFirst, Ascending;
    code, setTried, mapNew, ids' := 0, {}, map[], ids;
    var xs := Ascending(infos.Keys);
    assert forall i :: 0 <= i < |xs| ==> xs[i] in xs;
    StartSorted(infos, ids, random, xs);
    assert xs[..0] == [];
    for n := 0 to |xs|
      invariant PassedFirst(ids, ids', random, infos, xs, n) && Defaulted(ids, ids')
      invariant Sorted(infos, xs[..n], setTried, mapNew)
    {
      var id := xs[n];
      var i, was := infos[id], ids';
      SameLookup(ids, was, random, id, i);
      code, ids' := CheckEntry(was, random, id, i);
      DefaultedTwice(ids, was, ids');
      if code != 0 {
        return;
      }
      PassOne(ids, was, ids', random, infos, xs, n);
      SortOne(infos, xs[..n], id, setTried, mapNew);
      assert xs[..n] + [id] == xs[..n + 1];
      if i.inTried {
        setTried := setTried + {id};
      } else {
        mapNew := mapNew[id := i.refCount];
      }
    }
    assert xs[..|xs|] == xs;
    AllSorted(infos, xs, setTried, mapNew);
    AllPassed(ids, ids', random, infos, xs);
  }

  lemma PassOne(ids: map<NetAddr, int>, was: map<NetAddr, int>, after: map<NetAddr, int>, random: seq<int>,
                infos: Infos, xs: seq<int>, n: nat)
    requires n < |xs| && Known(infos, xs) && PassedFirst(ids, was, random, infos, xs, n) && Defaulted(was, after)
    requires EntryOk(ids, random, xs[n], infos[xs[n]]) && infos[xs[n]].service.host in after
    ensures PassedFirst(ids, after, random, infos, xs, n + 1)
  {
    hide EntryOk;
  }

  lemma AllPassed(ids: map<NetAddr, int>, after: map<NetAddr, int>, random: seq<int>, infos: Infos, xs: seq<int>)
    requires Known(infos, xs) && (forall id :: id in xs <==> id in infos.Keys)
    requires PassedFirst(ids, after, random, infos, xs, |xs|)
    ensures forall id <- infos :: EntryOk(ids, random, id, infos[id]) && infos[id].service.host in after
  {
    hide EntryOk;
    forall id <- infos
      ensures EntryOk(ids, random, id, infos[id]) && infos[id].service.host in after
    {
      assert id in xs;
      var k :| 0 <= k < |xs| && xs[k] == id;
    }
  }

  lemma StartSorted(infos: Infos, ids: map<NetAddr, int>, random: seq<int>, xs: seq<int>)
    requires Known(infos, xs)
    ensures Sorted(infos, [], {}, map[]) && Defaulted(ids, ids) && PassedFirst(ids, ids, random, infos, xs, 0)
  {
  }

  /** The entries `done` divided into tried ids and reference counts. */
  ghost predicate Sorted(infos: Infos, done: seq<int>, setTried: set<int>, mapNew: map<int, int>) {
    && (forall id :: id in setTried <==> id in done && id in infos && infos[id].inTried)
    && (forall id :: id in mapNew <==> id in done && id in infos && !infos[id].inTried)
    && (forall id <- mapNew :: id in infos && mapNew[id] == infos[id].refCount)
  }

  lemma SortOne(infos: Infos, done: seq<int>, id: int, setTried: set<int>, mapNew: map<int, int>)
    requires Sorted(infos, done, setTried, mapNew) && id in infos
    ensures infos[id].inTried ==> Sorted(infos, done + [id], setTried + {id}, mapNew)
    ensures !infos[id].inTried ==> Sorted(infos, done + [id], setTried, mapNew[id := infos[id].refCount])
  {
    assert forall x :: x in done + [id] <==> x in done || x == id;
  }

  lemma AllSorted(infos: Infos, xs: seq<int>, setTried: set<int>, mapNew: map<int, int>)
    requires Sorted(infos, xs, setTried, mapNew) && forall id :: id in xs <==> id in infos.Keys
    ensures setTried == TriedIds(infos) && mapNew == RefCounts(infos)
  {
    assert forall id :: id in setTried <==> id in TriedIds(infos);
    assert forall id :: id in mapNew <==> id in RefCounts(infos);
    assert mapNew.Keys == RefCounts(infos).Keys;
    assert forall id :: id in mapNew ==> mapNew[id] == RefCounts(infos)[id];
  }

  lemma RefCountsPositive(s: State)
    requires forall id <- s.infos :: EntryOk(s.ids, s.random, id, s.infos[id])
    ensures forall id <- RefCounts(s.infos) :: RefCounts(s.infos)[id] >= 1
  {
    forall id <- RefCounts(s.infos)
      ensures RefCounts(s.infos)[id] >= 1
    {
      assert EntryOk(s.ids, s.random, id, s.infos[id]);
    }
  }

  lemma RefCountsSize(infos: Infos)
    ensures |RefCounts(infos)| == |NewIds(infos)|
  {
    assert forall id :: id in RefCounts(infos).Keys <==> id in NewIds(infos);
    assert RefCounts(infos).Keys == NewIds(infos);
  }

  /** `CAddrMan::Check_`: zero exactly when the state is consistent. Nothing changes but
      that a missing address may be entered in `ids` as belonging to entry 0. */
  method Check(m: AddrMan) returns (code: int)
    modifies m`ids
    ensures code == 0 <==> Consistent(old(m.View()))
    ensures Defaulted(old(m.ids), m.ids)
    ensures code == 0 ==> forall id <- m.infos :: m.infos[id].service.host in m.ids
  {
    hide EntryOk, ExactlyOnce, Multiplicity, TriedIds, NewIds, RefCounts, Defaulted;
    ghost var s := m.View();
    StartSorted(s.infos, s.ids, [], []);
    if |m.random| != m.nTried + m.nNew { return -7; }
    var setTried, mapNew, ids';
    code, setTried, mapNew, ids' := CheckEntries(m.ids, m.random, m.infos);
    m.ids := ids';
    if code != 0 { return; }
    RefCountsSize(m.infos);
    RefCountsPositive(s);
    if |setTried| != m.nTried { return -9; }
    if |mapNew| != m.nNew { return -10; }
    var ok, restTried := ScanTried(m.tried, setTried);
    if !ok { return -11; }
    var ok', restNew := ScanNew(m.news, mapNew);
    if !ok' { return -12; }
    if |restTried| != 0 { return -13; }
    if |restNew| != 0 { return -15; }
    return 0;
  }

  // ---------------------------------------------------------------- exactness

  /** The part of the invariant that `Check_` does not look at: that every address is
      entered under its id and no other is, that ids are below the counter, that buckets
      are not overfull, and that tried entries sit in their own hash bucket. */
  ghost predicate Unchecked(net: Net, s: State) {
    && 0 <= s.idCount
    && (forall id <- s.infos :: 0 <= id < s.idCount && s.infos[id].service.host in s.ids)
    && (forall a <- s.ids :: s.ids[a] in s.infos && s.infos[s.ids[a]].service.host == a)
    && Homes(net, s.key, s.infos, s.tried)
    && |s.news| == NEW_BUCKET_COUNT && (forall b :: 0 <= b < |s.news| ==> |s.news[b]| <= NEW_BUCKET_SIZE)
  }

  ghost predicate Homes(net: Net, key: seq<bv8>, infos: Infos, tried: seq<seq<int>>) {
    && |tried| == TRIED_BUCKET_COUNT
    && (forall k :: 0 <= k < |tried| ==> |tried[k]| <= TRIED_BUCKET_SIZE)
    && (forall k, id :: 0 <= k < |tried| && id in tried[k] && id in infos ==> TriedBucket(net, key, infos[id]) == k)
  }

  // -------- from the invariant to the check

  lemma {:induction false} SlotsMembers(tried: seq<seq<int>>, n: nat, id: int)
    requires n <= |tried|
    ensures id in Slots(tried[..n]) <==> exists k :: 0 <= k < n && id in tried[k]
  {
    if n > 0 {
      SlotsWithLast(tried, n - 1);
      SlotsMembers(tried, n - 1, id);
      hide Slots;
      assert id in Slots(tried[..n]) <==> id in Slots(tried[..n - 1]) || id in tried[n - 1];
    }
  }

  lemma ConcatNoDuplicates(xs: seq<int>, ys: seq<int>)
    requires NoDuplicates(xs) && NoDuplicates(ys) && forall i :: 0 <= i < |ys| ==> ys[i] !in xs
    ensures NoDuplicates(xs + ys)
  {
    var zs := xs + ys;
    forall i, j | 0 <= i < j < |zs|
      ensures zs[i] != zs[j]
    {
      if i < |xs| <= j {
        assert xs[i] in xs && ys[j - |xs|] !in xs;
      }
    }
  }

  lemma {:induction false} SlotsDistinct(net: Net, key: seq<bv8>, infos: Infos, tried: seq<seq<int>>, n: nat)
    requires TriedTable(net, key, infos, tried) && n <= |tried|
    ensures NoDuplicates(Slots(tried[..n]))
  {
    hide NoDuplicates, TriedBucket;
    if n == 0 {
      NoneDuplicated();
      assert tried[..0] == [];
    } else {
      SlotsDistinct(net, key, infos, tried, n - 1);
      SlotsWithLast(tried, n - 1);
      var last, before := tried[n - 1], Slots(tried[..n - 1]);
      forall i | 0 <= i < |last|
        ensures last[i] !in before
      {
        SlotsMembers(tried, n - 1, last[i]);
        assert last[i] in tried[n - 1];
        OneHome(net, key, infos, tried, last[i], n - 1);
      }
      ConcatNoDuplicates(Slots(tried[..n - 1]), tried[n - 1]);
    }
  }

  lemma OneHome(net: Net, key: seq<bv8>, infos: Infos, tried: seq<seq<int>>, id: int, k: nat)
    requires TriedTable(net, key, infos, tried) && k < |tried| && id in tried[k]
    ensures forall j :: 0 <= j < |tried| && id in tried[j] ==> j == k
  {
    forall j | 0 <= j < |tried| && id in tried[j]
      ensures j == k
    {
      assert id in infos && TriedBucket(net, key, infos[id]) == j;
    }
  }

  lemma NoneDuplicated()
    ensures NoDuplicates([])
  {
  }

  lemma TriedExactlyOnce(net: Net, key: seq<bv8>, infos: Infos, tried: seq<seq<int>>)
    requires TriedTable(net, key, infos, tried)
    ensures ExactlyOnce(tried, TriedIds(infos))
  {
    SlotsDistinct(net, key, infos, tried, |tried|);
    assert tried[..|tried|] == tried;
    hide NoDuplicates, TriedBucket, Slots;
    forall id
      ensures id in Slots(tried) <==> id in TriedIds(infos)
    {
      SlotsMembers(tried, |tried|, id);
      if id in TriedIds(infos) {
        assert id in tried[TriedBucket(net, key, infos[id])];
      }
    }
  }

  lemma NewMultiplicity(infos: Infos, news: seq<set<int>>)
    requires NewTable(infos, news, NOBODY) && NOBODY !in infos
    ensures Multiplicity(news, RefCounts(infos))
  {
    hide Holders;
    forall id <- RefCounts(infos)
      ensures |Holders(news, id)| == RefCounts(infos)[id]
    {
      assert id in infos;
    }
  }

  lemma EntriesOk(net: Net, s: State)
    requires Inv(net, s, NOBODY) && Stamped(s.infos)
    ensures forall id <- s.infos :: EntryOk(s.ids, s.random, id, s.infos[id])
  {
    hide Counted, Holders, TriedBucket;
  }

  /** The invariant makes the check succeed. */
  lemma CheckPasses(net: Net, s: State)
    requires Inv(net, s, NOBODY) && Stamped(s.infos)
    ensures Consistent(s)
  {
    EntriesOk(net, s);
    hide Linked, Shuffled, TriedTable, NewTable, TriedIds, NewIds, Stamped, EntryOk, ExactlyOnce, Multiplicity,
         RefCounts;
    IdsInRange(s.idCount, s.infos, s.ids);
    SplitSize(s.infos);
    ShuffledSize(s.infos, s.random);
    TriedExactlyOnce(net, s.key, s.infos, s.tried);
    NewMultiplicity(s.infos, s.news);
  }

  lemma ShuffledSize(infos: Infos, random: seq<int>)
    requires Shuffled(infos, random)
    ensures |random| == |infos|
  {
  }

  // -------- from the check to the invariant

  ghost function Range(n: nat): (r: set<int>)
    ensures |r| == n && forall i :: i in r <==> 0 <= i < n
  {
    if n == 0 then {} else Range(n - 1) + {n - 1}
  }

  /** Ids with distinct positions are no more than the positions. */
  lemma {:induction false} Pigeonhole(infos: Infos, random: seq<int>, ids: set<int>, places: set<int>)
    requires forall id <- ids :: id in infos && 0 <= infos[id].randomPos < |random|
                                 && random[infos[id].randomPos] == id && infos[id].randomPos in places
    ensures |ids| <= |places|
    decreases ids
  {
    if ids != {} {
      var m := Least(ids);
      Pigeonhole(infos, random, ids - {m}, places - {infos[m].randomPos});
    }
  }

  /** Correct positions and equal sizes make `random` a permutation of the ids. */
  lemma SizesMakeShuffled(infos: Infos, random: seq<int>)
    requires |random| == |infos|
    requires forall id <- infos :: 0 <= infos[id].randomPos < |random| && random[infos[id].randomPos] == id
    ensures Shuffled(infos, random)
  {
    hide Range;
    assert |infos.Keys| == |random|;
    forall i | 0 <= i < |random|
      ensures random[i] in infos && infos[random[i]].randomPos == i
    {
      if !(random[i] in infos && infos[random[i]].randomPos == i) {
        Pigeonhole(infos, random, infos.Keys, Range(|random|) - {i});
        assert false;
      }
    }
  }

  /** Zero alone makes `vRandom` a bijection with `mapInfo`, although only sizes and positions
      are compared. */
  lemma CheckMakesShuffled(s: State)
    requires Consistent(s)
    ensures Shuffled(s.infos, s.random)
  {
    hide ExactlyOnce, Multiplicity, TriedIds, NewIds, Shuffled, RefCounts;
    SplitSize(s.infos);
    SizesMakeShuffled(s.infos, s.random);
  }

  lemma OnceMakesTried(net: Net, s: State)
    requires Homes(net, s.key, s.infos, s.tried) && ExactlyOnce(s.tried, TriedIds(s.infos))
    requires forall id <- s.infos :: s.infos[id].inTried ==> s.infos[id].refCount == 0
    ensures TriedTable(net, s.key, s.infos, s.tried)
  {
    hide TriedBucket, Slots, NoDuplicates;
    forall id
      ensures id in TriedIds(s.infos) <==> exists k :: 0 <= k < |s.tried| && id in s.tried[k]
    {
      SlotsMembers(s.tried, |s.tried|, id);
      assert s.tried[..|s.tried|] == s.tried;
    }
    forall k | 0 <= k < |s.tried|
      ensures NoDuplicates(s.tried[k])
    {
      BucketDistinct(s.tried, k);
    }
    forall k, id | 0 <= k < |s.tried| && id in s.tried[k]
      ensures id in s.infos && s.infos[id].inTried
    {
      assert id in TriedIds(s.infos);
    }
    forall id <- s.infos | s.infos[id].inTried
      ensures id in s.tried[TriedBucket(net, s.key, s.infos[id])]
    {
      assert id in TriedIds(s.infos);
      var k :| 0 <= k < |s.tried| && id in s.tried[k];
    }
  }

  lemma BucketDistinct(tried: seq<seq<int>>, k: nat)
    requires k < |tried| && NoDuplicates(Slots(tried))
    ensures NoDuplicates(tried[k])
  {
    SlotsWithLast(tried, k);
    SlotsPrefix(tried, k + 1);
    hide Slots;
    var all, before := Slots(tried), |Slots(tried[..k])|;
    assert forall i :: 0 <= i < |tried[k]| ==> all[before + i] == tried[k][i];
  }

  lemma CountsMakeNew(s: State)
    requires |s.news| == NEW_BUCKET_COUNT && (forall b :: 0 <= b < |s.news| ==> |s.news[b]| <= NEW_BUCKET_SIZE)
    requires Multiplicity(s.news, RefCounts(s.infos)) && NOBODY !in s.infos
    requires forall id <- s.infos :: !s.infos[id].inTried ==> 1 <= s.infos[id].refCount <= NEW_BUCKETS_PER_ADDRESS
    ensures NewTable(s.infos, s.news, NOBODY)
  {
    hide Holders;
    forall id <- s.infos | !s.infos[id].inTried
      ensures s.infos[id].refCount == |Holders(s.news, id)|
    {
      assert id in RefCounts(s.infos);
    }
    forall b, id | 0 <= b < |s.news| && id in s.news[b]
      ensures id in s.infos && !s.infos[id].inTried
    {
      assert id in RefCounts(s.infos);
    }
  }

  /** What each passed entry contributes to the invariant. */
  lemma EntriesMean(s: State)
    requires forall id <- s.infos :: EntryOk(s.ids, s.random, id, s.infos[id])
    requires forall id <- s.infos :: s.infos[id].service.host in s.ids
    ensures Stamped(s.infos)
    ensures forall id <- s.infos :: s.ids[s.infos[id].service.host] == id
    ensures forall id <- s.infos :: 0 <= s.infos[id].randomPos < |s.random| && s.random[s.infos[id].randomPos] == id
    ensures forall id <- s.infos :: s.infos[id].inTried ==> s.infos[id].refCount == 0
    ensures forall id <- s.infos :: !s.infos[id].inTried ==> 1 <= s.infos[id].refCount <= NEW_BUCKETS_PER_ADDRESS
  {
    forall id <- s.infos
      ensures EntryOk(s.ids, s.random, id, s.infos[id]) && s.ids[s.infos[id].service.host] == id
    {
    }
  }

  lemma CheckImpliesInv(net: Net, s: State)
    requires Consistent(s) && Unchecked(net, s)
    ensures Inv(net, s, NOBODY) && Stamped(s.infos)
  {
    hide EntryOk, ExactlyOnce, Multiplicity, RefCounts, TriedIds, NewIds, Homes, Stamped, Shuffled, TriedTable,
         NewTable;
    EntriesMean(s);
    SplitSize(s.infos);
    SizesMakeShuffled(s.infos, s.random);
    OnceMakesTried(net, s);
    CountsMakeNew(s);
  }

  lemma InvImpliesUnchecked(net: Net, s: State)
    requires Inv(net, s, NOBODY)
    ensures Unchecked(net, s)
  {
    hide Shuffled, Counted, Holders, TriedBucket;
  }

  /** `Check_` returns zero exactly when the invariant holds, up to `Unchecked`. */
  lemma CheckExact(net: Net, s: State)
    ensures Inv(net, s, NOBODY) && Stamped(s.infos) <==> Consistent(s) && Unchecked(net, s)
  {
    hide Inv, Stamped, Consistent, Unchecked;
    if Inv(net, s, NOBODY) && Stamped(s.infos) {
      CheckPasses(net, s);
      InvImpliesUnchecked(net, s);
    }
    if Consistent(s) && Unchecked(net, s) {
      CheckImpliesInv(net, s);
    }
  }
}
