/** Whose deed the alias index (src/db.cpp) holds after the scan of an accepted ledger. */
module AliasTitles {
  import opened Options
  import opened AliasIndex
  import opened AliasChain
  import opened AliasLedger
  import opened AliasRuns

  /** The entry that each transaction of a ledger would leave; none where its block is not
      scanned. */
  type Entries = seq<Option<Entry>>

  // ---------------------------------------------------------------- what the index sees

  /** The arguments that `aliasTx` decodes from the outputs of a transaction. */
  function DecodedArgs(vout: seq<Script>): seq<Bytes> {
    if AtMostOne(vout) && FirstAlias(vout) < |vout| then ArgsOf(vout[FirstAlias(vout)]) else []
  }

  /** `filter` takes the transaction for an operation on the name. */
  predicate Touches(x: Placed, name: Name) {
    x.dion && Names(LastOp(x.vout)) && Arg(DecodedArgs(x.vout), 0) == name
  }

  function ItemOf(x: Placed, e: Entry): Item {
    Item(LastOp(x.vout) == OP_SET, e)
  }

  /** The `t`-th transaction is scanned as an operation on the name. */
  predicate Acts(l: Ledger, entries: Entries, name: Name, t: nat)
    requires t < |l| == |entries|
  {
    Touches(l[t], name) && entries[t].Some?
  }

  function ItemAtTx(l: Ledger, entries: Entries, t: nat): Item
    requires t < |l| == |entries| && entries[t].Some?
  {
    ItemOf(l[t], entries[t].value)
  }

  /** The scanned operations on a name in a ledger. */
  function LedgerItems(l: Ledger, entries: Entries, name: Name): (items: seq<Item>)
    requires |entries| == |l|
    ensures |items| <= |l|
  {
    if l == [] then []
    else var n := |l| - 1;
      LedgerItems(l[..n], entries[..n], name)
      + (if Acts(l, entries, name, n) then [ItemAtTx(l, entries, n)] else [])
  }

  /** How many operations on the name come before the `t`-th transaction. */
  function Rank(l: Ledger, entries: Entries, name: Name, t: nat): (i: nat)
    requires t <= |l| == |entries|
  {
    |LedgerItems(l[..t], entries[..t], name)|
  }

  lemma {:induction false} ItemsPrefix(l: Ledger, entries: Entries, name: Name, t: nat)
    requires t <= |l| == |entries|
    ensures LedgerItems(l[..t], entries[..t], name) <= LedgerItems(l, entries, name)
  {
    hide Touches, ItemOf;
    var n := |l| - 1;
    if t == |l| {
      assert l[..t] == l && entries[..t] == entries;
    } else {
      ItemsPrefix(l[..n], entries[..n], name, t);
      assert l[..n][..t] == l[..t] && entries[..n][..t] == entries[..t];
    }
  }

  lemma OneMoreItem(l: Ledger, entries: Entries, name: Name, n: nat)
    requires 0 < n <= |l| == |entries|
    ensures LedgerItems(l[..n], entries[..n], name) == LedgerItems(l[..n - 1], entries[..n - 1], name)
      + (if Acts(l, entries, name, n - 1) then [ItemAtTx(l, entries, n - 1)] else [])
  {
    hide Touches, ItemOf;
    assert l[..n][..n - 1] == l[..n - 1] && entries[..n][..n - 1] == entries[..n - 1];
  }

  /** Where the operation of the `t`-th transaction is. */
  lemma ItemAtRank(l: Ledger, entries: Entries, name: Name, t: nat)
    requires t < |l| == |entries| && Acts(l, entries, name, t)
    ensures var i, items := Rank(l, entries, name, t), LedgerItems(l, entries, name);
      && i < |items| && items[i] == ItemAtTx(l, entries, t)
      && items[..i] == LedgerItems(l[..t], entries[..t], name)
      && Rank(l, entries, name, t + 1) == i + 1
  {
    hide Touches, ItemOf, LedgerItems;
    OneMoreItem(l, entries, name, t + 1);
    ItemsPrefix(l, entries, name, t + 1);
  }

  lemma RankAscends(l: Ledger, entries: Entries, name: Name, t: nat, u: nat)
    requires t <= u <= |l| == |entries|
    ensures Rank(l, entries, name, t) <= Rank(l, entries, name, u)
  {
    hide LedgerItems;
    ItemsPrefix(l[..u], entries[..u], name, t);
    assert l[..u][..t] == l[..t] && entries[..u][..t] == entries[..t];
  }

  /** Every operation comes from a transaction. */
  lemma {:induction false} ItemOrigin(l: Ledger, entries: Entries, name: Name, j: nat) returns (u: nat)
    requires |entries| == |l| && j < |LedgerItems(l, entries, name)|
    ensures u < |l| && Acts(l, entries, name, u) && Rank(l, entries, name, u) == j
  {
    hide Touches, ItemOf;
    var n := |l| - 1;
    if j < |LedgerItems(l[..n], entries[..n], name)| {
      u := ItemOrigin(l[..n], entries[..n], name, j);
      assert l[..n][..u] == l[..u] && entries[..n][..u] == entries[..u];
    } else {
      u := n;
    }
  }

  predicate HasEntry(entries: Entries, t: nat) {
    t < |entries| && entries[t].Some?
  }

  /** The deed of the `t`-th transaction took the name when it was scanned. */
  ghost predicate Took(l: Ledger, entries: Entries, name: Name, t: nat, testNet: bool)
    requires t < |l| == |entries| && entries[t].Some?
  {
    Takes(Scan(None, LedgerItems(l[..t], entries[..t], name), testNet), ItemAtTx(l, entries, t), testNet)
  }

  /** A later transaction leaves the deed of the `t`-th in the index: it does not act on the name
      or is a SET within the lifetime of that deed. */
  predicate Spares(l: Ledger, entries: Entries, name: Name, t: nat, u: nat, testNet: bool)
    requires t < |l| == |entries| && u < |l| && entries[t].Some?
  {
    Acts(l, entries, name, u) ==>
      LastOp(l[u].vout) == OP_SET && !Expired(entries[t].value.height, entries[u].value.height, testNet)
  }

  lemma ActsMeans(l: Ledger, entries: Entries, name: Name)
    requires |entries| == |l|
    ensures forall t :: 0 <= t < |l| && Acts(l, entries, name, t) ==> entries[t].Some? && Touches(l[t], name)
  {
    hide Touches;
  }

  /** After a scan the index holds the deed of the `t`-th transaction exactly when that one took
      the name and all later transactions spare it. */
  lemma IndexHolds(l: Ledger, entries: Entries, name: Name, t: nat, testNet: bool)
    requires t < |l| == |entries| && Acts(l, entries, name, t)
    requires Ascending(LedgerItems(l, entries, name)) && DistinctEntries(LedgerItems(l, entries, name))
    ensures Scan(None, LedgerItems(l, entries, name), testNet) == Some([entries[t].value])
      <==> Took(l, entries, name, t, testNet) && forall u :: t < u < |l| ==> Spares(l, entries, name, t, u, testNet)
  {
    hide LedgerItems, Acts, Takes, Expired, Ascending, DistinctEntries, Rank, Scan;
    ActsMeans(l, entries, name);
    var items, i := LedgerItems(l, entries, name), Rank(l, entries, name, t);
    ItemAtRank(l, entries, name, t);
    ScanHolds(items, i, testNet);
    if HeldUpTo(items, i, |items|, testNet) {
      forall u | t < u < |l| ensures Spares(l, entries, name, t, u, testNet) {
        if Acts(l, entries, name, u) {
          ItemAtRank(l, entries, name, u);
          RankAscends(l, entries, name, t + 1, u);
        }
      }
    }
    if forall u :: t < u < |l| ==> Spares(l, entries, name, t, u, testNet) {
      forall j | i < j < |items|
        ensures items[j].isSet && !Expired(items[i].entry.height, items[j].entry.height, testNet)
      {
        var u := ItemOrigin(l, entries, name, j);
        ItemAtRank(l, entries, name, u);
        if u <= t {
          RankAscends(l, entries, name, u, t);
        }
        assert Spares(l, entries, name, t, u, testNet);
      }
    }
  }

  /** The deed of the `u`-th transaction held the name when the `t`-th was scanned. */
  ghost predicate HeldAt(l: Ledger, entries: Entries, name: Name, u: nat, t: nat, testNet: bool)
    requires u < t < |l| == |entries|
  {
    && Acts(l, entries, name, u)
    && Scan(None, LedgerItems(l[..t], entries[..t], name), testNet) == Some([entries[u].value])
  }

  /** No earlier deed held the name unexpired. */
  ghost predicate Free(l: Ledger, entries: Entries, name: Name, t: nat, testNet: bool)
    requires t < |l| == |entries| && entries[t].Some?
  {
    forall u :: 0 <= u < t && HeldAt(l, entries, name, u, t, testNet) ==>
      Expired(entries[u].value.height, entries[t].value.height, testNet)
  }

  /** A SET takes the name exactly when it is free. */
  lemma SetTakesFree(l: Ledger, entries: Entries, name: Name, t: nat, testNet: bool)
    requires t < |l| == |entries| && Acts(l, entries, name, t) && LastOp(l[t].vout) == OP_SET
    requires Ascending(LedgerItems(l, entries, name))
    ensures Took(l, entries, name, t, testNet) <==> Free(l, entries, name, t, testNet)
  {
    hide LedgerItems, Touches, Takes, Expired, Scan, LastOp, Rank;
    var items, i := LedgerItems(l, entries, name), Rank(l, entries, name, t);
    ItemAtRank(l, entries, name, t);
    var before := LedgerItems(l[..t], entries[..t], name);
    var v := Scan(None, before, testNet);
    ScanLeaves(None, before, testNet);
    if v == None {
      TakesNothing(ItemAtTx(l, entries, t), testNet);
    } else {
      var j :| 0 <= j < |before| && v == Some([before[j].entry]);
      var u := EarlierOrigin(l, entries, name, t, j);
      assert before[j] == items[j];
      TakesFromEntry(before[j].entry, ItemAtTx(l, entries, t), testNet);
      assert HeldAt(l, entries, name, u, t, testNet);
      forall w | 0 <= w < t && HeldAt(l, entries, name, w, t, testNet)
        ensures entries[w].value == entries[u].value
      {
        assert [entries[w].value][0] == [entries[u].value][0];
      }
    }
  }

  lemma TakesNothing(item: Item, testNet: bool)
    ensures Takes(None, item, testNet) <==> item.isSet
  {
  }

  lemma EarlierOrigin(l: Ledger, entries: Entries, name: Name, t: nat, j: nat) returns (u: nat)
    requires t <= |l| == |entries| && j < Rank(l, entries, name, t)
    ensures u < t && Acts(l, entries, name, u)
    ensures LedgerItems(l[..t], entries[..t], name)[j].entry == entries[u].value
  {
    hide LedgerItems, Touches;
    u := ItemOrigin(l[..t], entries[..t], name, j);
    ItemAtRank(l[..t], entries[..t], name, u);
  }

  // ---------------------------------------------------------------- blocks and ledger

  /** The blocks hold the transactions of the ledger as `aliasTx` decodes them, where the chain
      says, and `entries` are those that `filter` makes of them, in the blocks that are scanned. */
  ghost predicate Recorded(blocks: seq<Block>, header: nat, testNet: bool, l: Ledger, chain: seq<BlockPos>,
                           entries: Entries)
  {
    && |entries| == |l|
    && if blocks == [] then l == []
       else
         var n := |blocks| - 1;
         var b := blocks[n];
         && |b.txs| <= |l| && b.height < |chain| && chain[b.height] == BlockPos(b.file, b.pos)
         && var m := |l| - |b.txs|;
            && Recorded(blocks[..n], header, testNet, l[..m], chain, entries[..m])
            && forall k :: 0 <= k < |b.txs| ==> RecordedTx(b, k, header, testNet, l, entries, m)
  }

  /** The `k`-th transaction of the block is the `k`-th of the ledger from `m` on. */
  ghost predicate RecordedTx(b: Block, k: nat, header: nat, testNet: bool, l: Ledger, entries: Entries, m: nat)
    requires k < |b.txs| && |entries| == |l| == m + |b.txs|
  {
    RecordedAs(b, k, header, testNet, l[m + k], entries[m + k])
  }

  predicate RecordedAs(b: Block, k: nat, header: nat, testNet: bool, x: Placed, e: Option<Entry>)
    requires k < |b.txs|
  {
    var tx := b.txs[k];
    && Decoded(tx) && tx.stored && tx.dion == x.dion && tx.op == LastOp(x.vout) && tx.args == DecodedArgs(x.vout)
    && x.height == b.height && x.at == TxStart(b, k, header)
    && (e.Some? <==> Scanned(b, testNet))
    && (e.Some? && Indexed(tx) ==> e.value == ItemAt(b, k, header).entry)
  }

  lemma RecordedItem(b: Block, k: nat, header: nat, testNet: bool, x: Placed, e: Option<Entry>, name: Name)
    requires k < |b.txs| && RecordedAs(b, k, header, testNet, x, e)
    ensures Decoded(b.txs[k]) && (Concerns(b.txs[k], name) <==> Touches(x, name))
    ensures e.Some? <==> Scanned(b, testNet)
    ensures Touches(x, name) && e.Some? ==> ItemOf(x, e.value) == ItemAt(b, k, header)
  {
    hide DecodedArgs, LastOp;
  }

  lemma RecordedPlace(b: Block, k: nat, header: nat, testNet: bool, x: Placed, e: Option<Entry>, name: Name)
    requires k < |b.txs| && RecordedAs(b, k, header, testNet, x, e)
    ensures x.height == b.height && x.at == TxStart(b, k, header)
    ensures Touches(x, name) && e.Some? ==> e.value.height == b.height && e.value.pos == Pos(b.file, b.pos, x.at)
  {
    hide DecodedArgs, LastOp;
  }

  lemma {:induction false} BlockItemsAreLedger(b: Block, k: nat, header: nat, testNet: bool, l: Ledger,
                                               entries: Entries, m: nat, name: Name)
    requires k <= |b.txs| && Readable(b) && |entries| == |l| == m + |b.txs|
    requires forall i :: 0 <= i < |b.txs| ==> RecordedTx(b, i, header, testNet, l, entries, m)
    ensures LedgerItems(l[..m + k], entries[..m + k], name)
      == LedgerItems(l[..m], entries[..m], name) + (if Scanned(b, testNet) then ItemsUpTo(b, name, k, header) else [])
  {
    hide RecordedAs, Touches, ItemOf, ItemAt, Concerns, Readable, Scanned;
    if k > 0 {
      BlockItemsAreLedger(b, k - 1, header, testNet, l, entries, m, name);
      assert RecordedTx(b, k - 1, header, testNet, l, entries, m);
      RecordedItem(b, k - 1, header, testNet, l[m + (k - 1)], entries[m + (k - 1)], name);
      var n := m + k;
      assert l[..n][..n - 1] == l[..n - 1] && entries[..n][..n - 1] == entries[..n - 1];
    }
  }

  /** What `xsc` scans for a name are the operations of the ledger on it. */
  lemma {:induction false} ChainItemsAreLedger(blocks: seq<Block>, header: nat, testNet: bool, l: Ledger,
                                               chain: seq<BlockPos>, entries: Entries, name: Name)
    requires AllReadable(blocks) && Recorded(blocks, header, testNet, l, chain, entries)
    ensures ChainItems(blocks, name, header, testNet) == LedgerItems(l, entries, name)
  {
    hide RecordedTx, Touches, ItemOf, ItemsUpTo, Readable, Scanned;
    if blocks != [] {
      var n := |blocks| - 1;
      var b := blocks[n];
      var m := |l| - |b.txs|;
      ChainItemsAreLedger(blocks[..n], header, testNet, l[..m], chain, entries[..m], name);
      BlockItemsAreLedger(b, |b.txs|, header, testNet, l, entries, m, name);
      assert l[..|l|] == l && entries[..|l|] == entries;
    }
  }

  /** The entry of an operation has the height and the place of its transaction. */
  ghost predicate WellPlaced(l: Ledger, chain: seq<BlockPos>, entries: Entries, name: Name, t: nat)
    requires t < |l| == |entries|
  {
    && l[t].height < |chain|
    && (Acts(l, entries, name, t) ==>
          entries[t].value.height == l[t].height && entries[t].value.pos == PlaceOf(l, chain, t))
  }

  /** Transactions stand in the order of their blocks and of their positions there. */
  predicate Before(l: Ledger, t: nat, u: nat)
    requires t < |l| && u < |l|
  {
    l[t].height < l[u].height || (l[t].height == l[u].height && l[t].at < l[u].at)
  }

  lemma {:induction false} StartsAscend(b: Block, j: nat, k: nat, header: nat)
    requires j < k <= |b.txs|
    ensures TxStart(b, j, header) < TxStart(b, k, header)
  {
    if j < k - 1 {
      StartsAscend(b, j, k - 1, header);
    }
  }

  lemma {:induction false} RecordedPlaces(blocks: seq<Block>, header: nat, testNet: bool, l: Ledger,
                                          chain: seq<BlockPos>, entries: Entries, name: Name)
    requires AscendingChain(blocks) && Recorded(blocks, header, testNet, l, chain, entries)
    ensures |entries| == |l| && forall t :: 0 <= t < |l| ==> WellPlaced(l, chain, entries, name, t)
    ensures blocks != [] ==> forall t :: 0 <= t < |l| ==> l[t].height <= blocks[|blocks| - 1].height
    ensures forall t, u :: 0 <= t < u < |l| ==> Before(l, t, u)
  {
    hide RecordedAs, Touches, TxStart, Scanned;
    if blocks != [] {
      var n := |blocks| - 1;
      var b := blocks[n];
      var m := |l| - |b.txs|;
      RecordedPlaces(blocks[..n], header, testNet, l[..m], chain, entries[..m], name);
      forall t | 0 <= t < |l|
        ensures WellPlaced(l, chain, entries, name, t)
        ensures l[t].height <= b.height && (t >= m ==> l[t].height == b.height)
        ensures t < m ==> l[t].height < b.height
      {
        if t < m {
          assert WellPlaced(l[..m], chain, entries[..m], name, t);
          assert blocks[..n][n - 1].height < b.height;
        } else {
          assert RecordedTx(b, t - m, header, testNet, l, entries, m);
          RecordedPlace(b, t - m, header, testNet, l[m + (t - m)], entries[m + (t - m)], name);
        }
      }
      forall t, u | 0 <= t < u < |l| ensures Before(l, t, u) {
        if u < m {
          assert Before(l[..m], t, u);
        } else if t >= m {
          assert RecordedTx(b, t - m, header, testNet, l, entries, m);
          assert RecordedTx(b, u - m, header, testNet, l, entries, m);
          RecordedPlace(b, t - m, header, testNet, l[m + (t - m)], entries[m + (t - m)], name);
          RecordedPlace(b, u - m, header, testNet, l[m + (u - m)], entries[m + (u - m)], name);
          StartsAscend(b, t - m, u - m, header);
        }
      }
    }
  }

  /** No two transactions have one place. */
  lemma PlacesDiffer(l: Ledger, chain: seq<BlockPos>, t: nat, u: nat)
    requires Distinct(chain) && t < |l| && u < |l| && l[t].height < |chain| && l[u].height < |chain|
    requires t < u ==> Before(l, t, u)
    requires u < t ==> Before(l, u, t)
    ensures PlaceOf(l, chain, t) == PlaceOf(l, chain, u) <==> t == u
  {
    assert BlockOf(PlaceOf(l, chain, t)) == chain[l[t].height];
    assert BlockOf(PlaceOf(l, chain, u)) == chain[l[u].height];
  }

  // ---------------------------------------------------------------- titles in the index

  /** A checked deed is what `filter` takes it for. */
  lemma CheckedTouches(l: Ledger, chain: seq<BlockPos>, o: OutPoint, hash: Hash160, scale: nat)
    requires Accepted(l, chain, hash, scale) && IsDeed(l, o) && Checked(l, o) && Names(OpAt(l, o))
    ensures o.tx < |l| && ArgsAt(l, o) != [] && Touches(l[o.tx], ArgsAt(l, o)[0])
    ensures LastOp(l[o.tx].vout) == OpAt(l, o)
  {
    hide IsAlias, FirstAlias, LastOp, Accepted, AtMostOne, Connects;
    CheckedMeans(l, chain, o, hash, scale);
    DeedExists(l, o);
  }

  lemma {:induction false} TitleAscends(l: Ledger, path: seq<OutPoint>, j: nat, k: nat, hash: Hash160, scale: nat)
    requires Title(l, path, hash, scale) && j < k < |path|
    ensures path[j].tx < path[k].tx
  {
    hide Title, IsDeed, Renews;
    TitleDeed(l, path, k, hash, scale);
    if j < k - 1 {
      TitleAscends(l, path, j, k - 1, hash, scale);
    }
  }

  /** The last deed of a title, as `filter` sees it when it was checked. */
  lemma TitleTouches(l: Ledger, chain: seq<BlockPos>, path: seq<OutPoint>, hash: Hash160, scale: nat)
    requires Accepted(l, chain, hash, scale) && CheckedTitle(l, path, hash, scale)
    ensures var o := path[|path| - 1];
      && IsDeed(l, o) && ArgsAt(l, o) != [] && o.tx < |l| && Touches(l[o.tx], ArgsAt(l, o)[0])
      && OpAt(l, o) == LastOp(l[o.tx].vout) == if |path| == 2 then OP_SET else OP_RELAY
  {
    hide Accepted, Checked, Continues, Renews, IsDeed, Touches, LastOp;
    var m := |path| - 1;
    TitleDeed(l, path, m, hash, scale);
    CheckedTouches(l, chain, path[m], hash, scale);
  }

  /** From its SET on, a title is about one name. */
  lemma TitleName(l: Ledger, path: seq<OutPoint>, hash: Hash160, scale: nat)
    requires Title(l, path, hash, scale)
    ensures |path| >= 2
    ensures var s, o := path[1], path[|path| - 1];
      && IsDeed(l, s) && OpAt(l, s) == OP_SET && ArgsAt(l, s) != []
      && IsDeed(l, o) && ArgsAt(l, o) != [] && ArgsAt(l, o)[0] == ArgsAt(l, s)[0]
  {
    TitleLength(l, path, hash, scale);
    hide Title, Renews, IsDeed;
    TitleDeed(l, path, 1, hash, scale);
    forall i | 1 < i <= |path| - 1 ensures Renews(l, path[i], path[i - 1], scale) {
      TitleDeed(l, path, i, hash, scale);
    }
    NameKept(l, path, 1, |path| - 1, scale);
  }

  /** A RELAY with a checked title takes the name if it is scanned together with the title's SET. */
  lemma TitledRelayTakes(l: Ledger, chain: seq<BlockPos>, path: seq<OutPoint>, entries: Entries,
                         hash: Hash160, scale: nat, testNet: bool)
    requires Accepted(l, chain, hash, scale) && CheckedTitle(l, path, hash, scale)
    requires |path| > 2 && |entries| == |l|
    requires HasEntry(entries, path[1].tx) && HasEntry(entries, path[|path| - 1].tx)
    ensures var o := path[|path| - 1];
      && IsDeed(l, o) && OpAt(l, o) == OP_RELAY && ArgsAt(l, o) != [] && o.tx < |l|
      && Touches(l[o.tx], ArgsAt(l, o)[0])
      && Took(l, entries, ArgsAt(l, o)[0], o.tx, testNet)
  {
    hide Accepted, Checked, Title, IsDeed, Touches, LedgerItems, Takes, Scan, Rank, FirstSet;
    var m := |path| - 1;
    var o := path[m];
    TitleTouches(l, chain, path, hash, scale);
    TitleName(l, path, hash, scale);
    CheckedTouches(l, chain, path[1], hash, scale);
    TitleAscends(l, path, 1, m, hash, scale);
    var name := ArgsAt(l, o)[0];
    var items := LedgerItems(l, entries, name);
    var i, j := Rank(l, entries, name, o.tx), Rank(l, entries, name, path[1].tx);
    ItemAtRank(l, entries, name, o.tx);
    ItemAtRank(l, entries, name, path[1].tx);
    RankAscends(l, entries, name, path[1].tx + 1, o.tx);
    assert items[j].isSet;
    FirstSetBefore(items, j);
    RelayTakes(items, i, testNet);
  }

  lemma FirstSetBefore(items: seq<Item>, j: nat)
    requires j < |items| && items[j].isSet
    ensures FirstSet(items) <= j
  {
    hide FirstSet;
  }

  /** After the scan of an accepted chain the index holds the last deed of a checked title,
      scanned together with the title's SET, exactly when every later operation on its name is a SET
      within its lifetime and, if it is the SET itself, no earlier deed held the name unexpired.
      So a later RELAY always takes the name, whichever title it belongs to. */
  lemma IndexHoldsTitle(l: Ledger, chain: seq<BlockPos>, path: seq<OutPoint>, hash: Hash160, scale: nat,
                        blocks: seq<Block>, header: nat, testNet: bool, entries: Entries)
    requires Accepted(l, chain, hash, scale) && CheckedTitle(l, path, hash, scale)
    requires AllReadable(blocks) && AscendingChain(blocks) && Recorded(blocks, header, testNet, l, chain, entries)
    requires HasEntry(entries, path[1].tx) && HasEntry(entries, path[|path| - 1].tx)
    ensures var o := path[|path| - 1];
      && IsDeed(l, o) && ArgsAt(l, o) != [] && o.tx < |l| == |entries| && entries[o.tx].Some?
      && var name := ArgsAt(l, o)[0];
         Scan(None, ChainItems(blocks, name, header, testNet), testNet) == Some([entries[o.tx].value])
         <==>
         && (|path| == 2 ==> Free(l, entries, name, o.tx, testNet))
         && (forall u :: o.tx < u < |l| ==> Spares(l, entries, name, o.tx, u, testNet))
  {
    hide Accepted, Title, Recorded, LedgerItems, ChainItems, Scan, Took, Spares, IsDeed, AllReadable,
         AscendingChain, Touches, Ascending, DistinctEntries, LastOp, Free;
    RecordedSize(blocks, header, testNet, l, chain, entries);
    TitleTouches(l, chain, path, hash, scale);
    TitleLength(l, path, hash, scale);
    var o := path[|path| - 1];
    var name := ArgsAt(l, o)[0];
    ChainItemsAreLedger(blocks, header, testNet, l, chain, entries, name);
    ChainItemsAscend(blocks, name, header, testNet);
    ChainItemsDistinct(blocks, name, header, testNet);
    if |path| > 2 {
      TitledRelayTakes(l, chain, path, entries, hash, scale, testNet);
    } else {
      SetTakesFree(l, entries, name, o.tx, testNet);
    }
    IndexHolds(l, entries, name, o.tx, testNet);
  }

  lemma TitleLength(l: Ledger, path: seq<OutPoint>, hash: Hash160, scale: nat)
    requires Title(l, path, hash, scale)
    ensures |path| >= 2
  {
    hide Continues;
  }

  lemma RecordedSize(blocks: seq<Block>, header: nat, testNet: bool, l: Ledger, chain: seq<BlockPos>, entries: Entries)
    requires Recorded(blocks, header, testNet, l, chain, entries)
    ensures |entries| == |l|
  {
  }

  // ---------------------------------------------------------------- the index and the miner

  /** After a scan the last entry of a name is that of the `t`-th transaction exactly when this
      one acted on the name, took it, and all later ones spare it. */
  lemma LastIsHolder(l: Ledger, chain: seq<BlockPos>, blocks: seq<Block>, header: nat, testNet: bool,
                     entries: Entries, index: Index, name: Name, t: nat)
    requires Distinct(chain) && AllReadable(blocks) && AscendingChain(blocks)
    requires Recorded(blocks, header, testNet, l, chain, entries) && t < |l| && l[t].height < |chain|
    requires Lookup(index, name) == Scan(None, ChainItems(blocks, name, header, testNet), testNet)
    ensures |entries| == |l|
    ensures LastIs(index, name, PlaceOf(l, chain, t))
      <==>
      && Acts(l, entries, name, t) && Took(l, entries, name, t, testNet)
      && (forall u :: t < u < |l| ==> Spares(l, entries, name, t, u, testNet))
  {
    hide Recorded, LedgerItems, ChainItems, Scan, Took, Spares, AllReadable, AscendingChain, Acts, Ascending,
         DistinctEntries, Distinct, Before, PlaceOf, Rank;
    RecordedPlaces(blocks, header, testNet, l, chain, entries, name);
    ActsMeans(l, entries, name);
    ChainItemsAreLedger(blocks, header, testNet, l, chain, entries, name);
    ChainItemsAscend(blocks, name, header, testNet);
    ChainItemsDistinct(blocks, name, header, testNet);
    var items := LedgerItems(l, entries, name);
    var v := Scan(None, items, testNet);
    ScanLeaves(None, items, testNet);
    assert WellPlaced(l, chain, entries, name, t);
    if v != None {
      var j :| 0 <= j < |items| && v == Some([items[j].entry]);
      assert l[..|l|] == l && entries[..|l|] == entries;
      WholeRank(l, entries, name);
      var u := EarlierOrigin(l, entries, name, |l|, j);
      assert WellPlaced(l, chain, entries, name, u);
      PlacesDiffer(l, chain, t, u);
      assert index[name] == [entries[u].value];
    }
    if Acts(l, entries, name, t) {
      IndexHolds(l, entries, name, t, testNet);
    }
  }

  lemma WholeRank(l: Ledger, entries: Entries, name: Name)
    requires |entries| == |l|
    ensures Rank(l, entries, name, |l|) == |LedgerItems(l, entries, name)|
  {
    hide LedgerItems;
    assert l[..|l|] == l && entries[..|l|] == entries;
  }

  /** The miner accepts a RELAY exactly when a block would and, besides, the deed it spends holds
      its name in the scanned index. In a block a RELAY of any other live title of the name is
      accepted as well. */
  lemma MinerRelaysHolder(l: Ledger, chain: seq<BlockPos>, blocks: seq<Block>, header: nat, testNet: bool,
                          entries: Entries, index: Index, t: nat, args: seq<Bytes>, prevOp: nat,
                          prevArgs: seq<Bytes>, height: nat, scale: nat)
    requires Distinct(chain) && AllReadable(blocks) && AscendingChain(blocks) && height < |chain|
    requires Recorded(blocks, header, testNet, l, chain, entries) && t < |l| && l[t].height < |chain|
    requires var name := Arg(args, 0);
      Lookup(index, name) == Scan(None, ChainItems(blocks, name, header, testNet), testNet)
    ensures |entries| == |l|
    ensures var name, at := Arg(args, 0), PlaceOf(l, chain, t);
      RelayConnects(args, prevOp, prevArgs, at, chain, height, InMiner, index, scale)
      <==>
      && RelayConnects(args, prevOp, prevArgs, at, chain, height, InBlock, index, scale)
      && Acts(l, entries, name, t) && Took(l, entries, name, t, testNet)
      && (forall u :: t < u < |l| ==> Spares(l, entries, name, t, u, testNet))
  {
    hide Recorded, ChainItems, Scan, Took, Spares, AllReadable, AscendingChain, Acts, Distinct, PlaceOf, Within,
         LastIs, Lookup;
    LastIsHolder(l, chain, blocks, header, testNet, entries, index, Arg(args, 0), t);
  }

  // ---------------------------------------------------------------- two titles of one name

  /** Two ENCRYPTED outputs with one commitment, a SET of the name for each in the next block, and
      a RELAY of the second there. */
  function RivalLedger(name: Name, height: nat, hash: Hash160): Ledger {
    [Funding(2),
     Operation(OP_ENCRYPTED, EncryptedArgs(name, hash), [OutPoint(0, 0)], height, 0),
     Operation(OP_ENCRYPTED, EncryptedArgs(name, hash), [OutPoint(0, 1)], height, 1),
     Operation(OP_SET, SetArgs(name), [OutPoint(1, 0)], height + 1, 0),
     Operation(OP_SET, SetArgs(name), [OutPoint(2, 0)], height + 1, 1),
     Operation(OP_RELAY, RelayArgs(name), [OutPoint(4, 0)], height + 1, 2)]
  }

  function RivalOp(t: nat): (op: nat)
    ensures 1 <= op <= 16
  {
    if t < 3 then OP_ENCRYPTED else if t < 5 then OP_SET else OP_RELAY
  }

  function RivalArgs(name: Name, hash: Hash160, t: nat): (args: seq<Bytes>)
    ensures Arity(RivalOp(t), |args|) && args[0] == name
  {
    if t < 3 then EncryptedArgs(name, hash) else if t < 5 then SetArgs(name) else RelayArgs(name)
  }

  function RivalSource(t: nat): OutPoint
    requires t > 0
  {
    if t < 3 then OutPoint(0, t - 1) else if t < 5 then OutPoint(t - 2, 0) else OutPoint(4, 0)
  }

  lemma RivalShape(name: Name, height: nat, hash: Hash160, t: nat)
    requires 1 <= t < 6
    ensures var l := RivalLedger(name, height, hash);
      && |l| == 6 && SpendsEarlier(l, t)
      && l[t].dion && !l[t].minted && l[t].height == (if t < 3 then height else height + 1)
      && l[t].vin == [RivalSource(t)] && l[t].vout == [ScriptOf(RivalOp(t), RivalArgs(name, hash, t))]
      && ScriptAt(l, OutPoint(t, 0)) == l[t].vout[0]
  {
    hide ScriptOf, EncryptedArgs;
  }

  /** The deeds of the rival ledger and what they spend. */
  lemma RivalDeed(name: Name, height: nat, hash: Hash160, t: nat)
    requires 1 <= t < 6
    ensures var l, o, op := RivalLedger(name, height, hash), OutPoint(t, 0), RivalOp(t);
      && |l| == 6 && SpendsEarlier(l, t)
      && l[t].dion && !l[t].minted && l[t].height == (if t < 3 then height else height + 1)
      && IsDeed(l, o) && OpAt(l, o) == op && ArgsAt(l, o) == RivalArgs(name, hash, t) && Checked(l, o)
      && LastOp(l[t].vout) == op && (Touches(l[t], name) <==> t >= 3) && l[t].vin == [RivalSource(t)]
  {
    hide ScriptOf, RivalArgs, FirstAlias, LastOp, IsAlias, RivalLedger, SpendsEarlier, ScriptAt;
    var l, op, args := RivalLedger(name, height, hash), RivalOp(t), RivalArgs(name, hash, t);
    RivalShape(name, height, hash, t);
    ScriptOfIs(op, args);
    OneScript(ScriptOf(op, args));
    if t >= 3 {
      var p := RivalSource(t).tx;
      RivalShape(name, height, hash, p);
      ScriptOfIs(RivalOp(p), RivalArgs(name, hash, p));
      OneScript(ScriptOf(RivalOp(p), RivalArgs(name, hash, p)));
      assert Ins(l, t) == [ScriptOf(RivalOp(p), RivalArgs(name, hash, p))];
    }
  }

  lemma RivalMatured(name: Name, height: nat, hash: Hash160)
    ensures var l := RivalLedger(name, height, hash);
      |l| == 6 && Matured(l, height) && l[0].minted && SpendsEarlier(l, 0) && l[0].height == 0
    ensures var l := RivalLedger(name, height, hash);
      ScriptAt(l, OutPoint(0, 0)) == PLAIN && ScriptAt(l, OutPoint(0, 1)) == PLAIN
  {
    hide ScriptOf, EncryptedArgs;
  }

  lemma RivalConnects(name: Name, chain: seq<BlockPos>, height: nat, hash: Hash160, scale: nat, p: nat)
    requires height + 1 < |chain| && Distinct(chain) && scale > 0 && 1 <= p < 5
    ensures var l := RivalLedger(name, height, hash); |l| == 6 && l[p].height < |chain|
    ensures var l := RivalLedger(name, height, hash);
      var at := PlaceOf(l, chain, p);
      && (p < 3 ==> SetConnects(SetArgs(name), OP_ENCRYPTED, EncryptedArgs(name, hash), at, chain, height + 1, InBlock,
                                ALL_WELL, hash, scale))
      && (p >= 3 ==> RelayConnects(RelayArgs(name), OP_SET, SetArgs(name), at, chain, height + 1, InBlock,
                                   map[], scale))
  {
    hide ScriptOf, EncryptedArgs, Within, Distinct;
    EncryptedArgsAre(name, hash);
    var below := if p < 3 then height else height + 1;
    DepthIsDifference(chain, height + 1, below, MIN_SET_DEPTH, 0);
    DepthIsDifference(chain, height + 1, below, scale, 0);
    assert SetArgs(name)[3] + SetArgs(name)[0] == [] + name;
  }

  lemma RivalAcceptedAt(name: Name, chain: seq<BlockPos>, height: nat, hash: Hash160, scale: nat, t: nat)
    requires |name| <= MAX_LOCATOR_LENGTH && height + 1 < |chain| && Distinct(chain) && scale > 0 && 1 <= t < 6
    ensures var l := RivalLedger(name, height, hash);
      |l| == 6 && SpendsEarlier(l, t) && l[t].height < |chain| && AcceptedAt(l, chain, t, hash, scale)
  {
    hide ScriptOf, EncryptedArgs, Connects, SetConnects, RelayConnects, SpendsEarlier, IsAlias, Within, Distinct,
         LastOp, Checked, AcceptedAt;
    var l := RivalLedger(name, height, hash);
    RivalDeed(name, height, hash, t);
    RivalMatured(name, height, hash);
    EncryptedArgsAre(name, hash);
    if t < 3 {
      EncryptedAccepted(l, chain, t, RivalArgs(name, hash, t), OutPoint(0, t - 1), height, t - 1, hash, scale);
    } else {
      var p := if t == 5 then 4 else t - 2;
      RivalDeed(name, height, hash, p);
      RivalConnects(name, chain, height, hash, scale, p);
      OperationAccepted(l, chain, t, RivalOp(t), RivalArgs(name, hash, t), OutPoint(p, 0), height + 1, t - 3,
        RivalOp(p), RivalArgs(name, hash, p), hash, scale);
    }
  }

  /** The rival ledger is accepted: nothing stops a second SET of a live name. */
  lemma {:induction false} RivalAccepted(name: Name, chain: seq<BlockPos>, height: nat, hash: Hash160, scale: nat)
    requires |name| <= MAX_LOCATOR_LENGTH && height + 1 < |chain| && Distinct(chain) && scale > 0
    ensures Accepted(RivalLedger(name, height, hash), chain, hash, scale)
  {
    hide AcceptedAt, SpendsEarlier, RivalLedger, Distinct, Matured;
    var l := RivalLedger(name, height, hash);
    RivalMatured(name, height, hash);
    MintedAcceptedAt(l, chain, 0, hash, scale);
    forall t | 0 <= t < 6 ensures l[t].height < |chain| && SpendsEarlier(l, t) && AcceptedAt(l, chain, t, hash, scale) {
      if t > 0 {
        RivalAcceptedAt(name, chain, height, hash, scale, t);
      }
    }
  }

  lemma MintedAcceptedAt(l: Ledger, chain: seq<BlockPos>, t: nat, hash: Hash160, scale: nat)
    requires t < |l| && SpendsEarlier(l, t) && l[t].height < |chain| && l[t].minted
    ensures AcceptedAt(l, chain, t, hash, scale)
  {
  }

  lemma {:induction false} RivalTitles(name: Name, height: nat, hash: Hash160, scale: nat)
    requires scale > 0
    ensures var l := RivalLedger(name, height, hash);
      && CheckedTitle(l, [OutPoint(1, 0), OutPoint(3, 0)], hash, scale)
      && CheckedTitle(l, [OutPoint(2, 0), OutPoint(4, 0)], hash, scale)
      && CheckedTitle(l, [OutPoint(2, 0), OutPoint(4, 0), OutPoint(5, 0)], hash, scale)
  {
    hide IsDeed, OpAt, ArgsAt, EncryptedArgs, Checked, RivalLedger, SpendsEarlier, LastOp, Touches;
    EncryptedArgsAre(name, hash);
    RivalDeed(name, height, hash, 1);
    RivalDeed(name, height, hash, 2);
    RivalDeed(name, height, hash, 3);
    RivalDeed(name, height, hash, 4);
    RivalDeed(name, height, hash, 5);
    assert SetArgs(name)[3] + SetArgs(name)[0] == [] + name;
  }

  lemma RivalActs(name: Name, height: nat, hash: Hash160, entries: Entries, t: nat)
    requires t < 6 == |entries| && entries[t].Some?
    ensures var l := RivalLedger(name, height, hash);
      && |l| == 6 && (Acts(l, entries, name, t) <==> t >= 3)
      && (t >= 3 ==> ItemAtTx(l, entries, t) == Item(t < 5, entries[t].value))
  {
    hide Touches, LastOp, EncryptedArgs, IsDeed, OpAt, ArgsAt, Checked;
    if t > 0 {
      RivalDeed(name, height, hash, t);
    } else {
      FundingTouchesNothing(name);
    }
  }

  lemma FundingTouchesNothing(name: Name)
    ensures !Touches(Funding(2), name)
  {
  }

  lemma {:induction false} RivalItems(name: Name, height: nat, hash: Hash160, entries: Entries)
    requires |entries| == 6 && forall t :: 0 <= t < 6 ==> entries[t].Some?
    ensures var l := RivalLedger(name, height, hash);
      var sets := [] + [Item(true, entries[3].value)] + [Item(true, entries[4].value)];
      && |l| == 6 && LedgerItems(l[..5], entries[..5], name) == sets
      && LedgerItems(l, entries, name) == sets + [Item(false, entries[5].value)]
  {
    hide LedgerItems, Acts, ItemAtTx, RivalLedger;
    RivalActs(name, height, hash, entries, 0);
    RivalActs(name, height, hash, entries, 1);
    RivalActs(name, height, hash, entries, 2);
    RivalActs(name, height, hash, entries, 3);
    RivalActs(name, height, hash, entries, 4);
    RivalActs(name, height, hash, entries, 5);
    var l := RivalLedger(name, height, hash);
    NoItemsYet(l, entries, name);
    OneMoreItem(l, entries, name, 1);
    OneMoreItem(l, entries, name, 2);
    OneMoreItem(l, entries, name, 3);
    OneMoreItem(l, entries, name, 4);
    OneMoreItem(l, entries, name, 5);
    OneMoreItem(l, entries, name, 6);
    assert l[..6] == l && entries[..6] == entries;
  }

  lemma NoItemsYet(l: Ledger, entries: Entries, name: Name)
    requires |entries| == |l|
    ensures LedgerItems(l[..0], entries[..0], name) == []
  {
  }

  lemma {:induction false} RivalIndex(name: Name, height: nat, hash: Hash160, entries: Entries, testNet: bool)
    requires |entries| == 6 && forall t :: 0 <= t < 6 ==> entries[t].Some?
    requires forall t :: 3 <= t < 6 ==> entries[t].value.height == entries[3].value.height
    ensures var l := RivalLedger(name, height, hash);
      && |l| == 6 && Scan(None, LedgerItems(l[..5], entries[..5], name), testNet) == Some([entries[3].value])
      && Scan(None, LedgerItems(l, entries, name), testNet) == Some([entries[5].value])
  {
    hide LedgerItems, Displaces, Scan, RivalLedger;
    RivalItems(name, height, hash, entries);
    NotExpiredAtOnce(entries[3].value.height, testNet);
    var three, four: Item := Item(true, entries[3].value), Item(true, entries[4].value);
    var five: Item := Item(false, entries[5].value);
    ScanStep(None, [], three, testNet);
    ScanStep(None, [] + [three], four, testNet);
    ScanStep(None, [] + [three] + [four], five, testNet);
  }

  lemma ScanStep(v: Option<seq<Entry>>, items: seq<Item>, item: Item, testNet: bool)
    requires Filled(v)
    ensures Scan(v, [], testNet) == v
    ensures Scan(v, items + [item], testNet) == Effect(Scan(v, items, testNet), item, testNet)
  {
    hide Effect;
    assert (items + [item])[..|items|] == items;
  }

  /** An accepted ledger with two live checked titles of one name. The index first holds the SET of the
      one title and refuses that of the other; the RELAY of the other then takes the name. */
  lemma {:induction false} TwoLiveTitles(name: Name, chain: seq<BlockPos>, height: nat, hash: Hash160, scale: nat,
                                         entries: Entries, testNet: bool)
    requires |name| <= MAX_LOCATOR_LENGTH && height + 1 < |chain| && Distinct(chain) && scale > 0
    requires |entries| == 6 && forall t :: 0 <= t < 6 ==> entries[t].Some?
    requires forall t :: 3 <= t < 6 ==> entries[t].value.height == entries[3].value.height
    ensures var l := RivalLedger(name, height, hash);
      && Accepted(l, chain, hash, scale) && |l| == 6 && Matured(l, height)
      && CheckedTitle(l, [OutPoint(1, 0), OutPoint(3, 0)], hash, scale)
      && CheckedTitle(l, [OutPoint(2, 0), OutPoint(4, 0)], hash, scale)
      && CheckedTitle(l, [OutPoint(2, 0), OutPoint(4, 0), OutPoint(5, 0)], hash, scale)
      && Scan(None, LedgerItems(l[..5], entries[..5], name), testNet) == Some([entries[3].value])
      && Scan(None, LedgerItems(l, entries, name), testNet) == Some([entries[5].value])
  {
    hide Accepted, Title, Scan, LedgerItems, RivalLedger, Matured;
    RivalAccepted(name, chain, height, hash, scale);
    RivalTitles(name, height, hash, scale);
    RivalMatured(name, height, hash);
    RivalIndex(name, height, hash, entries, testNet);
  }

  /** Then a RELAY of the first title's SET is still accepted in a block, but not by the miner,
      while the holder's RELAY would be. */
  lemma RivalRelay(name: Name, chain: seq<BlockPos>, height: nat, hash: Hash160, scale: nat, index: Index, e: Entry)
    requires height + 1 < |chain| && Distinct(chain) && scale > 0
    requires Lookup(index, name) == Some([e]) && e.pos == Pos(chain[height + 1].file, chain[height + 1].pos, 2)
    ensures var l := RivalLedger(name, height, hash); |l| == 6 && l[3].height == l[5].height == height + 1
    ensures var l, r, s := RivalLedger(name, height, hash), RelayArgs(name), SetArgs(name);
      var first, holder := PlaceOf(l, chain, 3), PlaceOf(l, chain, 5);
      && RelayConnects(r, OP_SET, s, first, chain, height + 1, InBlock, index, scale)
      && !RelayConnects(r, OP_SET, s, first, chain, height + 1, InMiner, index, scale)
      && RelayConnects(r, OP_RELAY, r, holder, chain, height + 1, InMiner, index, scale)
  {
    hide ScriptOf, EncryptedArgs, Within, Distinct;
    DepthIsDifference(chain, height + 1, height + 1, scale, 0);
  }
}
