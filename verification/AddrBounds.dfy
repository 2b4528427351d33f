/** Conservation of references and the size of the tables of the address manager. */
module AddrBounds {
  import opened IntSets
  import opened AddrState
  import opened AddrRuns

  /** Sum of the reference counts of the entries in `ids`. */
  ghost function RefSum(infos: Infos, ids: set<int>): int
    requires forall id <- ids :: id in infos
    decreases ids
  {
    if ids == {} then 0 else var m := Least(ids); infos[m].refCount + RefSum(infos, ids - {m})
  }

  /** Number of places the buckets give to the entries in `ids`. */
  ghost function PlaceSum(news: seq<set<int>>, ids: set<int>): nat
    decreases ids
  {
    if ids == {} then 0 else var m := Least(ids); |Holders(news, m)| + PlaceSum(news, ids - {m})
  }

  /** Sum of the sizes of the buckets. */
  ghost function SizeSum(news: seq<set<int>>): nat {
    if news == [] then 0 else SizeSum(news[..|news| - 1]) + |news[|news| - 1]|
  }

  lemma {:induction false} PlacesOfLastBucket(news: seq<set<int>>, ids: set<int>)
    requires news != []
    ensures PlaceSum(news, ids) == PlaceSum(news[..|news| - 1], ids) + |ids * news[|news| - 1]|
    decreases ids
  {
    var b := news[|news| - 1];
    if ids == {} {
      assert ids * b == {};
    } else {
      var m := Least(ids);
      PlacesOfLastBucket(news, ids - {m});
      HoldersWithLast(news, m);
      if m in b {
        assert ids * b == (ids - {m}) * b + {m};
      } else {
        assert ids * b == (ids - {m}) * b;
      }
    }
  }

  lemma {:induction false} PlacesInNoBucket(ids: set<int>)
    ensures PlaceSum([], ids) == 0
    decreases ids
  {
    if ids != {} {
      var m := Least(ids);
      assert Holders([], m) == {};
      PlacesInNoBucket(ids - {m});
    }
  }

  /** Double counting: by entries or by buckets, the places are the same. */
  lemma {:induction false} CountPlaces(news: seq<set<int>>, ids: set<int>)
    ensures PlaceSum(news, ids) <= SizeSum(news)
    ensures (forall b :: 0 <= b < |news| ==> news[b] <= ids) ==> PlaceSum(news, ids) == SizeSum(news)
    decreases |news|
  {
    if news == [] {
      PlacesInNoBucket(ids);
    } else {
      var n := |news| - 1;
      PlacesOfLastBucket(news, ids);
      CountPlaces(news[..n], ids);
      SubsetSize(ids * news[n], news[n]);
      if forall b :: 0 <= b < |news| ==> news[b] <= ids {
        assert ids * news[n] == news[n];
        assert forall b :: 0 <= b < n ==> news[..n][b] == news[b];
      }
    }
  }

  lemma {:induction false} RefsArePlaces(infos: Infos, news: seq<set<int>>, ids: set<int>)
    requires forall id <- ids :: id in infos && infos[id].refCount == |Holders(news, id)|
    ensures RefSum(infos, ids) == PlaceSum(news, ids)
    decreases ids
  {
    hide Holders;
    if ids != {} {
      RefsArePlaces(infos, news, ids - {Least(ids)});
    }
  }

  lemma RefsExact(net: Net, s: State, id: int)
    requires Inv(net, s, NOBODY) && id in s.infos
    ensures s.infos[id].refCount == |Holders(s.news, id)|
  {
    hide Inv, Holders;
    if s.infos[id].inTried {
      TriedUnreferenced(net, s, id);
    } else {
      NewHolders(net, s, id);
    }
  }

  /** The reference counts of all entries sum to the sizes of all new buckets. */
  lemma ReferencesConserved(net: Net, s: State)
    requires Inv(net, s, NOBODY)
    ensures RefSum(s.infos, s.infos.Keys) == SizeSum(s.news)
  {
    hide Inv, Holders;
    forall id <- s.infos.Keys
      ensures id in s.infos && s.infos[id].refCount == |Holders(s.news, id)|
    {
      RefsExact(net, s, id);
    }
    NewFacts(net, s, NOBODY);
    forall b | 0 <= b < |s.news|
      ensures s.news[b] <= s.infos.Keys
    {
      assert forall id <- s.news[b] :: id in s.infos.Keys;
    }
    RefsArePlaces(s.infos, s.news, s.infos.Keys);
    CountPlaces(s.news, s.infos.Keys);
  }

  lemma {:induction false} SizeSumBound(news: seq<set<int>>, cap: nat)
    requires forall b :: 0 <= b < |news| ==> |news[b]| <= cap
    ensures SizeSum(news) <= |news| * cap
  {
    if news != [] {
      var n := |news| - 1;
      SizeSumBound(news[..n], cap);
      assert (n + 1) * cap == n * cap + cap;
    }
  }

  lemma {:induction false} EachHasAPlace(news: seq<set<int>>, ids: set<int>)
    requires forall id <- ids :: Holders(news, id) != {}
    ensures |ids| <= PlaceSum(news, ids)
    decreases ids
  {
    hide Holders;
    if ids != {} {
      var m := Least(ids);
      assert |Holders(news, m)| >= 1 by {
        assert m in ids;
      }
      EachHasAPlace(news, ids - {m});
    }
  }

  ghost function Members(xs: seq<int>): set<int> {
    set x | x in xs
  }

  lemma {:induction false} MembersBound(xs: seq<int>)
    ensures |Members(xs)| <= |xs|
  {
    if xs == [] {
      assert Members(xs) == {};
    } else {
      var n := |xs| - 1;
      MembersBound(xs[..n]);
      assert forall x :: x in xs <==> x in xs[..n] || x == xs[n];
      assert Members(xs) == Members(xs[..n]) + {xs[n]};
    }
  }

  ghost function AsSets(tried: seq<seq<int>>): (r: seq<set<int>>)
    ensures |r| == |tried| && forall k :: 0 <= k < |tried| ==> r[k] == Members(tried[k])
  {
    seq(|tried|, k requires 0 <= k < |tried| => Members(tried[k]))
  }

  lemma TriedBound(net: Net, s: State)
    requires Inv(net, s, NOBODY)
    ensures |TriedIds(s.infos)| <= TRIED_BUCKET_COUNT * TRIED_BUCKET_SIZE
  {
    hide Linked, Shuffled, NewTable, Counted, Holders, TriedBucket;
    var sets, ids := AsSets(s.tried), TriedIds(s.infos);
    forall id <- ids
      ensures Holders(sets, id) != {}
    {
      HasHolder(sets, id, TriedBucket(net, s.key, s.infos[id]));
    }
    EachHasAPlace(sets, ids);
    CountPlaces(sets, ids);
    forall k | 0 <= k < |sets|
      ensures |sets[k]| <= TRIED_BUCKET_SIZE
    {
      MembersBound(s.tried[k]);
    }
    SizeSumBound(sets, TRIED_BUCKET_SIZE);
  }

  lemma HasHolder(news: seq<set<int>>, id: int, b: nat)
    requires b < |news| && id in news[b]
    ensures Holders(news, id) != {}
  {
    assert b in Holders(news, id);
  }

  lemma NewBound(net: Net, s: State)
    requires Inv(net, s, NOBODY)
    ensures |NewIds(s.infos)| <= NEW_BUCKET_COUNT * NEW_BUCKET_SIZE
  {
    hide Inv, Holders;
    var ids := NewIds(s.infos);
    forall id <- ids
      ensures Holders(s.news, id) != {}
    {
      NewHolders(net, s, id);
    }
    NewFacts(net, s, NOBODY);
    EachHasAPlace(s.news, ids);
    CountPlaces(s.news, ids);
    SizeSumBound(s.news, NEW_BUCKET_SIZE);
  }

  /** The counters are exact, and the manager never knows more addresses than its
      buckets can hold. */
  lemma SizeBound(net: Net, s: State)
    requires Inv(net, s, NOBODY)
    ensures |s.random| == s.nTried + s.nNew
    ensures |s.random| <= TRIED_BUCKET_COUNT * TRIED_BUCKET_SIZE + NEW_BUCKET_COUNT * NEW_BUCKET_SIZE
  {
    TriedBound(net, s);
    NewBound(net, s);
    hide Linked, TriedTable, NewTable, TriedIds, NewIds;
    SplitSize(s.infos);
  }
}
