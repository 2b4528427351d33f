/** The alias index: `LocatorNodeDB::filter` (src/db.cpp) adds the alias operations of a block,
    `xsc` (src/dions.cpp) scans the chain, `aliasTx` (src/dions.cpp) decides on expiry. */
module AliasIndex {
  import opened Options

  type Bytes = seq<nat>

  type Name = Bytes

  /** Heights fit a signed 32-bit integer. */
  type Height = n: nat | n < 0x8000_0000

  datatype Pos = Pos(file: nat, block: nat, tx: nat)

  datatype Entry = Entry(pos: Pos, height: Height, value: Bytes, address: string)

  /** Serialized sizes. */
  type Size = n: nat | n > 0 witness 1

  /** A transaction as `aliasTx` decodes it. `stored` says that the transaction and its index
      record can be read. */
  datatype Tx = Tx(dion: bool, op: nat, args: seq<Bytes>, address: string, stored: bool, size: Size)

  datatype Block = Block(height: Height, file: nat, pos: nat, txs: seq<Tx>)

  /** The database: a vector of entries for every name. */
  type Index = map<Name, seq<Entry>>

  const OP_SET := 2
  const OP_RELAY := 3

  const TWO32 := 0x1_0000_0000

  // ---------------------------------------------------------------- expiry

  /** `scaleMonitor`: the lifetime of an alias in blocks. */
  function ScaleMonitor(testNet: bool): nat {
    if testNet then 200 else 210000
  }

  /** The test of `aliasTx`, in unsigned 32-bit arithmetic. */
  predicate Expired(entry: Height, best: Height, testNet: bool) {
    (entry + ScaleMonitor(testNet)) % TWO32 <= best
  }

  /** The test of `filter`: the difference of the heights wraps around below zero. */
  predicate Displaces(block: Height, entry: Height, testNet: bool) {
    (block - entry) % TWO32 >= ScaleMonitor(testNet)
  }

  /** The two tests agree unless the entry is newer than the block, when `filter` displaces it
      although it is not expired. */
  lemma DisplacesExactly(block: Height, entry: Height, testNet: bool)
    ensures Displaces(block, entry, testNet) <==> Expired(entry, block, testNet) || block < entry
    ensures block < entry ==> !Expired(entry, block, testNet)
  {
    assert block < entry ==> (block - entry) % TWO32 == block - entry + TWO32;
  }

  // ---------------------------------------------------------------- one name

  /** An operation on a name, with the entry it would leave. */
  datatype Item = Item(isSet: bool, entry: Entry)

  /** The last entry of a vector counts. */
  function Last(v: seq<Entry>): Entry
    requires v != []
  {
    v[|v| - 1]
  }

  predicate Filled(v: Option<seq<Entry>>) {
    v.Some? ==> v.value != []
  }

  /** What an operation does to the vector of its name. */
  function Effect(v: Option<seq<Entry>>, item: Item, testNet: bool): (r: Option<seq<Entry>>)
    requires Filled(v)
    ensures Filled(r) && (v.Some? ==> r.Some?)
  {
    if v.None? then (if item.isSet then Some([item.entry]) else None)
    else if item.isSet && !Displaces(item.entry.height, Last(v.value).height, testNet) then v
    else Some([item.entry])
  }

  function Scan(v: Option<seq<Entry>>, items: seq<Item>, testNet: bool): (r: Option<seq<Entry>>)
    requires Filled(v)
    ensures Filled(r) && (v.Some? ==> r.Some?)
  {
    if items == [] then v
    else Effect(Scan(v, items[..|items| - 1], testNet), items[|items| - 1], testNet)
  }

  lemma {:induction false} ScanConcat(v: Option<seq<Entry>>, a: seq<Item>, b: seq<Item>, testNet: bool)
    requires Filled(v)
    ensures Scan(v, a + b, testNet) == Scan(Scan(v, a, testNet), b, testNet)
  {
    hide Effect;
    if b == [] {
      assert a + b == a;
    } else {
      assert (a + b)[..|a + b| - 1] == a + b[..|b| - 1];
      ScanConcat(v, a, b[..|b| - 1], testNet);
    }
  }

  /** Heights never fall. */
  predicate Ascending(items: seq<Item>) {
    forall i, j :: 0 <= i < j < |items| ==> items[i].entry.height <= items[j].entry.height
  }

  /** What a scan leaves is what was there or one of the operations scanned. */
  lemma {:induction false} ScanLeaves(v: Option<seq<Entry>>, items: seq<Item>, testNet: bool)
    requires Filled(v)
    ensures var r := Scan(v, items, testNet);
      r == v || exists i :: 0 <= i < |items| && r == Some([items[i].entry])
  {
    if items != [] {
      var n := |items| - 1;
      ScanLeaves(v, items[..n], testNet);
      var r := Scan(v, items[..n], testNet);
      if r != v {
        var i :| 0 <= i < n && r == Some([items[..n][i].entry]);
        assert items[i] == items[..n][i];
      }
    }
  }

  /** In an ascending scan a SET displaces an entry exactly when `aliasTx`, with the block as
      the best block, calls that entry expired. */
  lemma SetDisplacesExpired(items: seq<Item>, k: nat, testNet: bool)
    requires Ascending(items) && k < |items| && items[k].isSet
    ensures var v := Scan(None, items[..k], testNet);
      Scan(None, items[..k + 1], testNet)
        == if v.None? || Expired(Last(v.value).height, items[k].entry.height, testNet) then Some([items[k].entry])
           else v
  {
    hide Displaces, Expired, Ascending;
    var v := Scan(None, items[..k], testNet);
    assert items[..k + 1][..k] == items[..k];
    ScanLeaves(None, items[..k], testNet);
    if v.Some? {
      var i :| 0 <= i < k && v.value == [items[..k][i].entry];
      EarlierItem(items, i, k);
      DisplacesExactly(items[k].entry.height, Last(v.value).height, testNet);
    }
  }

  lemma EarlierItem(items: seq<Item>, i: nat, k: nat)
    requires Ascending(items) && i < k < |items|
    ensures items[..k][i] == items[i] && items[i].entry.height <= items[k].entry.height
  {
  }

  // ---------------------------------------------------------------- scanning again

  /** How a second scan relates to the first after the same operations: it has the same entry,
      or still the final one at the same height. */
  ghost predicate CaughtUp(final: Option<seq<Entry>>, first: Option<seq<Entry>>, second: Option<seq<Entry>>) {
    && first.Some? && second.Some? && first.value != [] && second.value != []
    && (second == first || (second == final && Last(second.value).height == Last(first.value).height))
  }

  lemma EffectCatchesUp(final: Option<seq<Entry>>, a: Option<seq<Entry>>, b: Option<seq<Entry>>, item: Item,
                        testNet: bool)
    requires CaughtUp(final, a, b)
    ensures CaughtUp(final, Effect(a, item, testNet), Effect(b, item, testNet))
  {
    hide Displaces;
  }

  lemma {:induction false} SecondScanCatchesUp(items: seq<Item>, final: Option<seq<Entry>>, k: nat, testNet: bool)
    requires items != [] && items[0].isSet && 1 <= k <= |items|
    requires final.Some? && final.value != [] && Last(final.value).height >= items[0].entry.height
    ensures CaughtUp(final, Scan(None, items[..k], testNet), Scan(final, items[..k], testNet))
  {
    hide Displaces;
    if k == 1 {
      var one := items[..1];
      assert one[..0] == [];
      DisplacesExactly(one[0].entry.height, Last(final.value).height, testNet);
      assert Scan(None, one, testNet) == Some([one[0].entry]);
      NotExpiredAtOnce(one[0].entry.height, testNet);
    } else {
      SecondScanCatchesUp(items, final, k - 1, testNet);
      assert items[..k][..k - 1] == items[..k - 1];
      var a, b := Scan(None, items[..k - 1], testNet), Scan(final, items[..k - 1], testNet);
      EffectCatchesUp(final, a, b, items[k - 1], testNet);
    }
  }

  lemma NotExpiredAtOnce(h: Height, testNet: bool)
    ensures !Displaces(h, h, testNet)
  {
  }

  /** Scanning the same operations again over the finished entry changes nothing, if the first
      of them is a SET. */
  lemma RescanUnchanged(items: seq<Item>, testNet: bool)
    requires Ascending(items) && (items != [] ==> items[0].isSet)
    ensures Scan(Scan(None, items, testNet), items, testNet) == Scan(None, items, testNet)
  {
    var final := Scan(None, items, testNet);
    if items != [] {
      assert items[..|items|] == items;
      FirstSetStays(items, |items|, testNet);
      ScanLeaves(None, items, testNet);
      var i :| 0 <= i < |items| && final.value == [items[i].entry];
      hide Scan;
      SecondScanCatchesUp(items, final, |items|, testNet);
    }
  }

  lemma {:induction false} FirstSetStays(items: seq<Item>, k: nat, testNet: bool)
    requires 1 <= k <= |items| && items[0].isSet
    ensures Scan(None, items[..k], testNet).Some?
  {
    if k == 1 {
      assert items[..1][..0] == [];
    } else {
      FirstSetStays(items, k - 1, testNet);
      assert items[..k][..k - 1] == items[..k - 1];
    }
  }

  /** An operation takes the vector of its name. */
  predicate Takes(v: Option<seq<Entry>>, item: Item, testNet: bool)
    requires Filled(v)
  {
    if v.None? then item.isSet
    else item.isSet ==> Displaces(item.entry.height, Last(v.value).height, testNet)
  }

  /** The `k`-th operation takes the vector both in a scan from nothing and in one from `e`. */
  ghost predicate BothTake(items: seq<Item>, e: Entry, k: nat, testNet: bool) {
    && k < |items|
    && Takes(Scan(None, items[..k], testNet), items[k], testNet)
    && Takes(Scan(Some([e]), items[..k], testNet), items[k], testNet)
  }

  /** Some operation before the `n`-th takes both. */
  ghost predicate Meet(items: seq<Item>, e: Entry, n: nat, testNet: bool) {
    exists k: nat :: k < n && BothTake(items, e, k, testNet)
  }

  predicate DistinctEntries(items: seq<Item>) {
    forall i, j :: 0 <= i < j < |items| ==> items[i].entry != items[j].entry
  }

  lemma EffectTakes(v: Option<seq<Entry>>, item: Item, testNet: bool)
    requires Filled(v)
    ensures Effect(v, item, testNet) == if Takes(v, item, testNet) then Some([item.entry]) else v
  {
    hide Displaces;
  }

  /** A scan from nothing and one from an entry meet at the first operation that takes both, and
      stay together from there. */
  lemma {:induction false} ScansMeet(items: seq<Item>, e: Entry, n: nat, testNet: bool)
    requires n <= |items| && DistinctEntries(items) && forall i :: 0 <= i < |items| ==> items[i].entry != e
    ensures Scan(None, items[..n], testNet) == Scan(Some([e]), items[..n], testNet)
      <==> Meet(items, e, n, testNet)
  {
    hide Takes, Effect;
    if n == 0 {
      assert items[..0] == [];
    } else {
      var before := items[..n - 1];
      assert items[..n][..n - 1] == before;
      ScansMeet(items, e, n - 1, testNet);
      var a, b := Scan(None, before, testNet), Scan(Some([e]), before, testNet);
      EffectTakes(a, items[n - 1], testNet);
      EffectTakes(b, items[n - 1], testNet);
      ScanLeaves(None, before, testNet);
      ScanLeaves(Some([e]), before, testNet);
      LeftBefore(items, e, n - 1, a);
      LeftBefore(items, e, n - 1, b);
      MeetStep(items, e, n - 1, testNet);
    }
  }

  lemma MeetStep(items: seq<Item>, e: Entry, n: nat, testNet: bool)
    ensures Meet(items, e, n + 1, testNet) <==> Meet(items, e, n, testNet) || BothTake(items, e, n, testNet)
  {
    hide BothTake;
    if BothTake(items, e, n, testNet) {
      assert n < n + 1;
    }
  }

  /** What is left by earlier operations is not the entry of the next one. */
  lemma LeftBefore(items: seq<Item>, e: Entry, n: nat, v: Option<seq<Entry>>)
    requires n < |items| && DistinctEntries(items) && items[n].entry != e
    requires v == None || v == Some([e]) || exists i :: 0 <= i < n && v == Some([items[..n][i].entry])
    ensures v != Some([items[n].entry])
  {
    if v != None && v != Some([e]) {
      var i :| 0 <= i < n && v == Some([items[..n][i].entry]);
      assert items[..n][i].entry == items[i].entry != items[n].entry;
      assert [items[i].entry][0] != [items[n].entry][0];
    } else if v == Some([e]) {
      assert [e][0] != [items[n].entry][0];
    }
  }

  /** The position of the first SET, or the number of operations. */
  function FirstSet(items: seq<Item>): (m: nat)
    ensures m <= |items| && (m < |items| ==> items[m].isSet) && forall i :: 0 <= i < m ==> !items[i].isSet
  {
    if items == [] || items[0].isSet then 0 else 1 + FirstSet(items[1..])
  }

  /** When scanning again changes nothing: no RELAY comes before the first SET, or there is no
      SET, or a scan from the last such RELAY meets the scan from the first SET. */
  ghost predicate Steady(items: seq<Item>, testNet: bool) {
    var m := FirstSet(items);
    m == 0 || m == |items| || Meet(items[m..], items[m - 1].entry, |items| - m, testNet)
  }

  /** Operations without a SET are skipped from nothing; from an entry the last RELAY takes. */
  lemma {:induction false} OnlyRelays(v: Option<seq<Entry>>, items: seq<Item>, testNet: bool)
    requires Filled(v) && forall i :: 0 <= i < |items| ==> !items[i].isSet
    ensures Scan(v, items, testNet) == if v.None? || items == [] then v else Some([items[|items| - 1].entry])
  {
    if items != [] {
      OnlyRelays(v, items[..|items| - 1], testNet);
    }
  }

  /** Scanning the same operations again over the finished entry changes nothing exactly when
      they are steady. */
  lemma {:induction false} RescanExactly(items: seq<Item>, testNet: bool)
    requires Ascending(items) && DistinctEntries(items)
    ensures Scan(Scan(None, items, testNet), items, testNet) == Scan(None, items, testNet) <==> Steady(items, testNet)
  {
    hide Ascending, DistinctEntries, Meet;
    var m := FirstSet(items);
    var final := Scan(None, items, testNet);
    if m == 0 {
      RescanUnchanged(items, testNet);
    } else {
      var relays, rest := items[..m], items[m..];
      assert items == relays + rest;
      ScanConcat(None, relays, rest, testNet);
      ScanConcat(final, relays, rest, testNet);
      OnlyRelays(None, relays, testNet);
      OnlyRelays(final, relays, testNet);
      if m < |items| {
        assert rest[..|rest|] == rest;
        FirstSetStays(rest, |rest|, testNet);
        SuffixDistinct(items, m);
        ScansMeet(rest, items[m - 1].entry, |rest|, testNet);
      }
    }
  }

  lemma SuffixDistinct(items: seq<Item>, m: nat)
    requires 0 < m <= |items| && DistinctEntries(items)
    ensures DistinctEntries(items[m..])
    ensures forall i :: 0 <= i < |items| - m ==> items[m..][i].entry != items[m - 1].entry
  {
  }

  /** In particular when a RELAY follows the first SET. */
  lemma RelaySteadies(items: seq<Item>, k: nat, testNet: bool)
    requires FirstSet(items) < k < |items| && !items[k].isSet
    ensures Steady(items, testNet)
  {
    hide BothTake, FirstSet;
    var m := FirstSet(items);
    if m > 0 {
      RelayTakesBoth(items[m..], items[m - 1].entry, k - m, testNet);
    }
  }

  lemma RelayTakesBoth(items: seq<Item>, e: Entry, k: nat, testNet: bool)
    requires 0 < k < |items| && items[0].isSet && !items[k].isSet
    ensures BothTake(items, e, k, testNet)
  {
    hide Scan, Displaces;
    FirstSetStays(items, k, testNet);
  }

  /** Or when the first SET comes after the lifetime of the last RELAY before it. */
  lemma LateSetSteadies(items: seq<Item>, m: nat, testNet: bool)
    requires 0 < m < |items| && m == FirstSet(items)
    requires Expired(items[m - 1].entry.height, items[m].entry.height, testNet)
    ensures Steady(items, testNet)
  {
    hide Displaces, Expired;
    DisplacesExactly(items[m].entry.height, items[m - 1].entry.height, testNet);
    assert items[m..][..0] == [] && items[m..][0] == items[m];
    assert BothTake(items[m..], items[m - 1].entry, 0, testNet);
  }

  /** A RELAY followed by one SET within its lifetime is not steady: skipped at first for want
      of an entry, the RELAY is taken up the second time. */
  lemma RescanAfterRelay(relay: Item, first: Item, testNet: bool)
    requires !relay.isSet && first.isSet && relay.entry.height <= first.entry.height
    ensures Scan(None, [relay, first], testNet) == Some([first.entry])
    ensures Scan(Some([first.entry]), [relay, first], testNet)
      == Some([if Displaces(first.entry.height, relay.entry.height, testNet) then first.entry else relay.entry])
  {
    hide Displaces;
    assert [relay, first][..1] == [relay] && [relay][..0] == [];
    assert Scan(None, [relay], testNet) == None;
    assert Scan(Some([first.entry]), [relay], testNet) == Some([relay.entry]);
  }

  // ---------------------------------------------------------------- who holds the name

  /** Among the first `n` operations, the `i`-th took the vector and none after it did: they are
      SETs within its lifetime. */
  ghost predicate HeldUpTo(items: seq<Item>, i: nat, n: nat, testNet: bool)
    requires i < n <= |items|
  {
    && Takes(Scan(None, items[..i], testNet), items[i], testNet)
    && forall j :: i < j < n ==> items[j].isSet && !Expired(items[i].entry.height, items[j].entry.height, testNet)
  }

  lemma {:induction false} ScanHoldsUpTo(items: seq<Item>, i: nat, n: nat, testNet: bool)
    requires Ascending(items) && DistinctEntries(items) && i < n <= |items|
    ensures Scan(None, items[..n], testNet) == Some([items[i].entry]) <==> HeldUpTo(items, i, n, testNet)
  {
    hide Takes, Effect, Expired, Displaces;
    var before := items[..n - 1];
    assert items[..n][..n - 1] == before;
    var v := Scan(None, before, testNet);
    EffectTakes(v, items[n - 1], testNet);
    ScanLeaves(None, before, testNet);
    if n - 1 == i {
      NotLeftBefore(items, i, i, v);
    } else {
      ScanHoldsUpTo(items, i, n - 1, testNet);
      NotLeftBefore(items, i, n - 1, None);
      if v == Some([items[i].entry]) {
        TakesFromEntry(items[i].entry, items[n - 1], testNet);
      }
    }
  }

  lemma NotLeftBefore(items: seq<Item>, i: nat, n: nat, v: Option<seq<Entry>>)
    requires i <= n < |items| && DistinctEntries(items)
    requires v == None || exists j :: 0 <= j < n && v == Some([items[..n][j].entry])
    ensures i == n ==> v != Some([items[n].entry])
    ensures i < n ==> Some([items[n].entry]) != Some([items[i].entry])
  {
    if i < n {
      assert [items[n].entry][0] != [items[i].entry][0];
    } else if v != None {
      var j :| 0 <= j < n && v == Some([items[..n][j].entry]);
      assert [items[j].entry][0] != [items[n].entry][0];
    }
  }

  lemma TakesFromEntry(e: Entry, item: Item, testNet: bool)
    requires e.height <= item.entry.height
    ensures Takes(Some([e]), item, testNet) <==> !item.isSet || Expired(e.height, item.entry.height, testNet)
  {
    hide Displaces, Expired;
    DisplacesExactly(item.entry.height, e.height, testNet);
  }

  /** After an ascending scan a name is held by an operation exactly when that one took it and all
      later ones are SETs within its lifetime. */
  lemma ScanHolds(items: seq<Item>, i: nat, testNet: bool)
    requires Ascending(items) && DistinctEntries(items) && i < |items|
    ensures Scan(None, items, testNet) == Some([items[i].entry]) <==> HeldUpTo(items, i, |items|, testNet)
  {
    assert items[..|items|] == items;
    ScanHoldsUpTo(items, i, |items|, testNet);
  }

  /** A RELAY takes the name whenever a SET came before, whatever the entry it replaces. */
  lemma RelayTakes(items: seq<Item>, i: nat, testNet: bool)
    requires i < |items| && !items[i].isSet
    ensures Takes(Scan(None, items[..i], testNet), items[i], testNet) <==> FirstSet(items) < i
  {
    hide Displaces;
    var m := FirstSet(items);
    if m < i {
      var rest := items[m..i];
      assert items[..i] == items[..m] + rest;
      ScanConcat(None, items[..m], rest, testNet);
      OnlyRelays(None, items[..m], testNet);
      assert rest[..|rest|] == rest;
      FirstSetStays(rest, |rest|, testNet);
    } else {
      OnlyRelays(None, items[..i], testNet);
    }
  }

  // ---------------------------------------------------------------- blocks

  /** `GetSizeOfCompactSize`. */
  function CompactSize(n: nat): nat {
    if n < 253 then 1 else if n <= 0xFFFF then 3 else if n <= 0xFFFF_FFFF then 5 else 9
  }

  /** Bytes of the transactions before the `k`-th. */
  function SizeBefore(txs: seq<Tx>, k: nat): nat
    requires k <= |txs|
  {
    if k == 0 then 0 else SizeBefore(txs, k - 1) + txs[k - 1].size
  }

  /** Where the `k`-th transaction of a block starts in its file; `header` is the size of an
      empty block without its two counters. */
  function TxStart(b: Block, k: nat, header: nat): nat
    requires k <= |b.txs|
  {
    b.pos + header + CompactSize(|b.txs|) + SizeBefore(b.txs, k)
  }

  predicate Indexed(tx: Tx) {
    tx.dion && (tx.op == OP_SET || tx.op == OP_RELAY) && tx.stored
  }

  /** Reading past the end of the arguments is undefined in the program. */
  function Arg(args: seq<Bytes>, i: nat): Bytes {
    if i < |args| then args[i] else []
  }

  /** SET and RELAY were decoded with the name, which is always read. The operation may be that
      of another output than the arguments. */
  predicate Decoded(tx: Tx) {
    tx.dion && (tx.op == OP_SET || tx.op == OP_RELAY) ==> tx.args != []
  }

  predicate Readable(b: Block) {
    forall k :: 0 <= k < |b.txs| ==> Decoded(b.txs[k])
  }

  /** The operation of the `k`-th transaction. A SET leaves an empty value; the value of a RELAY
      is read only when its name is indexed, as then only it matters. */
  function ItemAt(b: Block, k: nat, header: nat): (item: Item)
    requires k < |b.txs| && Decoded(b.txs[k]) && Indexed(b.txs[k])
    ensures item.entry.height == b.height
  {
    var tx := b.txs[k];
    var value := if tx.op == OP_SET then [] else Arg(tx.args, 1);
    Item(tx.op == OP_SET, Entry(Pos(b.file, b.pos, TxStart(b, k, header)), b.height, value, tx.address))
  }

  predicate Concerns(tx: Tx, name: Name)
    requires Decoded(tx)
  {
    Indexed(tx) && tx.args[0] == name
  }

  /** The operations on a name among the first `k` transactions of a block. */
  function ItemsUpTo(b: Block, name: Name, k: nat, header: nat): (r: seq<Item>)
    requires k <= |b.txs| && Readable(b)
    ensures forall i :: 0 <= i < |r| ==> r[i].entry.height == b.height
  {
    if k == 0 then []
    else ItemsUpTo(b, name, k - 1, header)
         + (if Concerns(b.txs[k - 1], name) then [ItemAt(b, k - 1, header)] else [])
  }

  function Items(b: Block, name: Name, header: nat): seq<Item>
    requires Readable(b)
  {
    ItemsUpTo(b, name, |b.txs|, header)
  }

  // ---------------------------------------------------------------- what a block leaves

  /** Bytes of some transactions together. */
  ghost function TotalSize(txs: seq<Tx>): nat {
    if txs == [] then 0 else txs[0].size + TotalSize(txs[1..])
  }

  lemma {:induction false} TotalSizeSnoc(txs: seq<Tx>, tx: Tx)
    ensures TotalSize(txs + [tx]) == TotalSize(txs) + tx.size
  {
    if txs == [] {
      assert txs + [tx] == [tx] && [tx][1..] == [];
    } else {
      assert (txs + [tx])[1..] == txs[1..] + [tx];
      TotalSizeSnoc(txs[1..], tx);
    }
  }

  lemma {:induction false} TotalSizeBefore(txs: seq<Tx>, k: nat)
    requires k <= |txs|
    ensures TotalSize(txs[..k]) == SizeBefore(txs, k)
  {
    if k > 0 {
      TotalSizeBefore(txs, k - 1);
      assert txs[..k] == txs[..k - 1] + [txs[k - 1]];
      TotalSizeSnoc(txs[..k - 1], txs[k - 1]);
    }
  }

  /** The `k`-th transaction of a block is a stored DION operation `op` on the name. */
  ghost predicate Operates(b: Block, k: nat, name: Name, op: nat) {
    && k < |b.txs|
    && var tx := b.txs[k];
       tx.dion && tx.stored && tx.op == op && tx.args != [] && tx.args[0] == name
  }

  /** What the `k`-th transaction leaves: the height of the block, the value it relays, its address,
      and its place behind the header, the counter and the transactions before it. */
  ghost predicate Records(b: Block, k: nat, header: nat, e: Entry)
    requires k < |b.txs|
  {
    var tx, n := b.txs[k], |b.txs|;
    && e.height == b.height && e.address == tx.address
    && e.value == (if tx.op == OP_RELAY && |tx.args| > 1 then tx.args[1] else [])
    && e.pos.file == b.file && e.pos.block == b.pos
    && e.pos.tx == b.pos + header + (if n < 0xFD then 1 else if n < 0x1_0000 then 3 else if n < TWO32 then 5 else 9)
                   + TotalSize(b.txs[..k])
  }

  lemma ItemRecords(b: Block, k: nat, header: nat)
    requires k < |b.txs| && Decoded(b.txs[k]) && Indexed(b.txs[k])
    ensures Records(b, k, header, ItemAt(b, k, header).entry)
    ensures ItemAt(b, k, header).isSet <==> b.txs[k].op == OP_SET
  {
    TotalSizeBefore(b.txs, k);
  }

  /** The name is indexed when the `k`-th transaction comes up. */
  ghost predicate Live(v: Option<seq<Entry>>, b: Block, k: nat, name: Name) {
    v.Some? || exists j: nat :: j < k && Operates(b, j, name, OP_SET)
  }

  /** The `k`-th of the first `n` transactions is the last RELAY of an indexed name. */
  ghost predicate RelaysLast(v: Option<seq<Entry>>, b: Block, n: nat, name: Name, k: nat) {
    && k < n && Operates(b, k, name, OP_RELAY) && Live(v, b, k, name)
    && forall j :: k < j < n ==> !Operates(b, j, name, OP_RELAY)
  }

  /** It is the first SET of a name that is not indexed, or whose entry is past its lifetime or newer
      than the block. */
  ghost predicate SetsFirst(v: Option<seq<Entry>>, b: Block, n: nat, name: Name, testNet: bool, k: nat)
    requires Filled(v)
  {
    && k < n && Operates(b, k, name, OP_SET) && (forall j :: 0 <= j < k ==> !Operates(b, j, name, OP_SET))
    && (v.Some? ==> var h := Last(v.value).height; b.height < h || b.height - h >= ScaleMonitor(testNet))
  }

  ghost predicate SomeRelay(v: Option<seq<Entry>>, b: Block, n: nat, name: Name) {
    exists k: nat :: RelaysLast(v, b, n, name, k)
  }

  ghost predicate SomeSet(v: Option<seq<Entry>>, b: Block, n: nat, name: Name, testNet: bool)
    requires Filled(v)
  {
    exists k: nat :: SetsFirst(v, b, n, name, testNet, k)
  }

  /** The entry left is that of the last RELAY that finds the name indexed, else that of the first
      SET that may take the name, else what was there. */
  ghost predicate Leaves(v: Option<seq<Entry>>, b: Block, n: nat, name: Name, header: nat, testNet: bool,
                         r: Option<seq<Entry>>)
    requires n <= |b.txs| && Filled(v)
  {
    if SomeRelay(v, b, n, name) then
      forall k: nat :: RelaysLast(v, b, n, name, k) ==> LeftBy(b, k, header, r)
    else if SomeSet(v, b, n, name, testNet) then
      forall k: nat :: SetsFirst(v, b, n, name, testNet, k) ==> LeftBy(b, k, header, r)
    else r == v
  }

  ghost predicate LeftBy(b: Block, k: nat, header: nat, r: Option<seq<Entry>>) {
    k < |b.txs| && r.Some? && |r.value| == 1 && Records(b, k, header, r.value[0])
  }

  ghost predicate LeftUpTo(v: Option<seq<Entry>>, b: Block, n: nat, name: Name, header: nat, testNet: bool,
                           r: Option<seq<Entry>>)
    requires n <= |b.txs| && Filled(v)
  {
    Leaves(v, b, n, name, header, testNet, r) && (r.Some? <==> Live(v, b, n, name))
  }

  lemma {:induction false} FirstOperation(b: Block, j: nat, name: Name, op: nat) returns (k: nat)
    requires Operates(b, j, name, op)
    ensures k <= j && Operates(b, k, name, op) && forall i :: 0 <= i < k ==> !Operates(b, i, name, op)
  {
    hide Operates;
    k := 0;
    while !Operates(b, k, name, op)
      invariant k <= j && forall i :: 0 <= i < k ==> !Operates(b, i, name, op)
      decreases j - k
    {
      k := k + 1;
    }
  }

  /** A transaction that is no operation on the name. */
  lemma OtherLeaves(v: Option<seq<Entry>>, b: Block, n: nat, name: Name, header: nat, testNet: bool,
                    r: Option<seq<Entry>>)
    requires 0 < n <= |b.txs| && Filled(v) && LeftUpTo(v, b, n - 1, name, header, testNet, r)
    requires !Operates(b, n - 1, name, OP_SET) && !Operates(b, n - 1, name, OP_RELAY)
    ensures LeftUpTo(v, b, n, name, header, testNet, r)
  {
    hide Operates, LeftBy;
    var m := n - 1;
    assert forall k: nat :: RelaysLast(v, b, n, name, k) <==> RelaysLast(v, b, m, name, k);
    assert forall k: nat :: SetsFirst(v, b, n, name, testNet, k) <==> SetsFirst(v, b, m, name, testNet, k);
  }

  lemma RelayLeaves(v: Option<seq<Entry>>, b: Block, n: nat, name: Name, header: nat, testNet: bool,
                    w: Option<seq<Entry>>, r: Option<seq<Entry>>)
    requires 0 < n <= |b.txs| && Filled(v) && LeftUpTo(v, b, n - 1, name, header, testNet, w)
    requires Operates(b, n - 1, name, OP_RELAY) && !Operates(b, n - 1, name, OP_SET)
    requires if w.Some? then LeftBy(b, n - 1, header, r) else r == w
    ensures LeftUpTo(v, b, n, name, header, testNet, r)
  {
    hide Operates, LeftBy;
    if w.Some? {
      assert RelaysLast(v, b, n, name, n - 1);
      assert forall k: nat :: RelaysLast(v, b, n, name, k) ==> k == n - 1;
      LeftIsSome(b, n - 1, header, r);
    } else {
      var m := n - 1;
      assert forall k: nat :: !RelaysLast(v, b, n, name, k) && !RelaysLast(v, b, m, name, k);
      assert forall k: nat :: !SetsFirst(v, b, n, name, testNet, k) && !SetsFirst(v, b, m, name, testNet, k);
    }
  }

  lemma LeftIsSome(b: Block, k: nat, header: nat, r: Option<seq<Entry>>)
    requires LeftBy(b, k, header, r)
    ensures r.Some? && r.value != [] && Last(r.value).height == b.height
  {
  }

  /** A SET over an entry of the same block leaves it. */
  lemma LeftStays(b: Block, k: nat, header: nat, w: Option<seq<Entry>>, item: Item, testNet: bool)
    requires LeftBy(b, k, header, w) && item.isSet && item.entry.height == b.height
    ensures Effect(w, item, testNet) == w
  {
    LeftIsSome(b, k, header, w);
    NotExpiredAtOnce(b.height, testNet);
  }

  lemma SetLeaves(v: Option<seq<Entry>>, b: Block, n: nat, name: Name, header: nat, testNet: bool,
                  w: Option<seq<Entry>>, item: Item)
    requires 0 < n <= |b.txs| && Filled(v) && Filled(w) && LeftUpTo(v, b, n - 1, name, header, testNet, w)
    requires Operates(b, n - 1, name, OP_SET) && !Operates(b, n - 1, name, OP_RELAY)
    requires item.isSet && item.entry.height == b.height && Records(b, n - 1, header, item.entry)
    ensures LeftUpTo(v, b, n, name, header, testNet, Effect(w, item, testNet))
  {
    hide Operates, Records, Displaces;
    var m := n - 1;
    assert forall k: nat :: RelaysLast(v, b, n, name, k) <==> RelaysLast(v, b, m, name, k);
    if SomeRelay(v, b, m, name) {
      var k: nat :| RelaysLast(v, b, m, name, k);
      LeftStays(b, k, header, w, item, testNet);
      assert RelaysLast(v, b, n, name, k);
    } else if SomeSet(v, b, m, name, testNet) {
      var k: nat :| SetsFirst(v, b, m, name, testNet, k);
      LeftStays(b, k, header, w, item, testNet);
      assert SetsFirst(v, b, n, name, testNet, k);
      assert forall i: nat :: SetsFirst(v, b, n, name, testNet, i) ==> i == k;
    } else {
      FirstSetLeaves(v, b, n, name, header, testNet, item);
    }
  }

  lemma FirstSetLeaves(v: Option<seq<Entry>>, b: Block, n: nat, name: Name, header: nat, testNet: bool, item: Item)
    requires 0 < n <= |b.txs| && Filled(v) && Operates(b, n - 1, name, OP_SET)
    requires item.isSet && item.entry.height == b.height && Records(b, n - 1, header, item.entry)
    requires !SomeRelay(v, b, n, name) && !SomeSet(v, b, n - 1, name, testNet)
    requires v.Some? <==> Live(v, b, n - 1, name)
    ensures LeftUpTo(v, b, n, name, header, testNet, Effect(v, item, testNet))
  {
    hide Operates, Records, Displaces, Expired;
    if v.Some? {
      DisplacesByHeight(b.height, Last(v.value).height, testNet);
    }
    if exists j: nat :: j < n - 1 && Operates(b, j, name, OP_SET) {
      var j: nat :| j < n - 1 && Operates(b, j, name, OP_SET);
      var k := FirstOperation(b, j, name, OP_SET);
      assert !SetsFirst(v, b, n - 1, name, testNet, k);
      assert forall i: nat :: SetsFirst(v, b, n, name, testNet, i) ==> i == k;
    } else {
      assert forall i: nat :: SetsFirst(v, b, n, name, testNet, i) ==> i == n - 1;
      if Effect(v, item, testNet) == Some([item.entry]) {
        assert LeftBy(b, n - 1, header, Some([item.entry]));
      }
      assert SetsFirst(v, b, n, name, testNet, n - 1)
        <==> (v.Some? ==> Displaces(b.height, Last(v.value).height, testNet));
    }
  }

  /** The unsigned test, on the heights. */
  lemma DisplacesByHeight(block: Height, entry: Height, testNet: bool)
    ensures Displaces(block, entry, testNet) <==> block < entry || block - entry >= ScaleMonitor(testNet)
  {
    if block < entry {
      DisplacesExactly(block, entry, testNet);
    }
  }

  /** What a block leaves of a name, exactly. */
  lemma {:induction false} BlockLeaves(v: Option<seq<Entry>>, b: Block, n: nat, name: Name, header: nat, testNet: bool)
    requires n <= |b.txs| && Readable(b) && Filled(v)
    ensures LeftUpTo(v, b, n, name, header, testNet, Scan(v, ItemsUpTo(b, name, n, header), testNet))
  {
    hide LeftUpTo, Operates, Records, ItemAt, Displaces, ItemsUpTo;
    if n == 0 {
      NothingLeaves(v, b, name, header, testNet);
    } else {
      BlockLeaves(v, b, n - 1, name, header, testNet);
      ItemsStep(b, name, n - 1, header, v, testNet);
      OperationAt(b, n - 1, name);
      var w := Scan(v, ItemsUpTo(b, name, n - 1, header), testNet);
      if Concerns(b.txs[n - 1], name) {
        ItemRecords(b, n - 1, header);
        var item := ItemAt(b, n - 1, header);
        if item.isSet {
          SetLeaves(v, b, n, name, header, testNet, w, item);
        } else {
          RelayLeaves(v, b, n, name, header, testNet, w, Effect(w, item, testNet));
        }
      } else {
        OtherLeaves(v, b, n, name, header, testNet, w);
      }
    }
  }

  lemma OperationAt(b: Block, k: nat, name: Name)
    requires k < |b.txs| && Decoded(b.txs[k])
    ensures Operates(b, k, name, OP_SET) <==> Concerns(b.txs[k], name) && b.txs[k].op == OP_SET
    ensures Operates(b, k, name, OP_RELAY) <==> Concerns(b.txs[k], name) && b.txs[k].op != OP_SET
  {
  }

  lemma NothingLeaves(v: Option<seq<Entry>>, b: Block, name: Name, header: nat, testNet: bool)
    requires Readable(b) && Filled(v)
    ensures LeftUpTo(v, b, 0, name, header, testNet, Scan(v, ItemsUpTo(b, name, 0, header), testNet))
  {
  }

  /** `xsc` skips the blocks of the main network before this height. */
  const FIRST_BLOCK := 1625000

  predicate Scanned(b: Block, testNet: bool) {
    testNet || b.height >= FIRST_BLOCK
  }

  predicate AllReadable(chain: seq<Block>) {
    forall k :: 0 <= k < |chain| ==> Readable(chain[k])
  }

  /** The operations on a name in the scanned blocks of a chain. */
  function ChainItems(chain: seq<Block>, name: Name, header: nat, testNet: bool): seq<Item>
    requires AllReadable(chain)
  {
    if chain == [] then []
    else var n := |chain| - 1;
      ChainItems(chain[..n], name, header, testNet)
      + (if Scanned(chain[n], testNet) then Items(chain[n], name, header) else [])
  }

  predicate AscendingChain(chain: seq<Block>) {
    forall i, j :: 0 <= i < j < |chain| ==> chain[i].height < chain[j].height
  }

  lemma {:induction false} ChainItemsAscend(chain: seq<Block>, name: Name, header: nat, testNet: bool)
    requires AllReadable(chain) && AscendingChain(chain)
    ensures Ascending(ChainItems(chain, name, header, testNet))
    ensures chain != [] ==> forall i :: 0 <= i < |ChainItems(chain, name, header, testNet)| ==>
      ChainItems(chain, name, header, testNet)[i].entry.height <= chain[|chain| - 1].height
  {
    hide ItemsUpTo, Readable, Scanned, Ascending;
    assert Ascending([]) by {
      NoneAscends();
    }
    if chain != [] {
      var n := |chain| - 1;
      ChainItemsAscend(chain[..n], name, header, testNet);
      var before := ChainItems(chain[..n], name, header, testNet);
      if n > 0 {
        assert chain[..n][n - 1] == chain[n - 1] && chain[n - 1].height < chain[n].height;
      } else {
        assert before == [];
      }
      var more := if Scanned(chain[n], testNet) then Items(chain[n], name, header) else [];
      AscendConcat(before, more, chain[n].height);
    }
  }

  lemma AscendConcat(a: seq<Item>, b: seq<Item>, h: Height)
    requires Ascending(a) && forall i :: 0 <= i < |a| ==> a[i].entry.height <= h
    requires forall i :: 0 <= i < |b| ==> b[i].entry.height == h
    ensures Ascending(a + b) && forall i :: 0 <= i < |a + b| ==> (a + b)[i].entry.height <= h
  {
  }

  lemma NoneAscends()
    ensures Ascending([])
  {
  }

  /** Operations of one block stand at different positions. */
  lemma {:induction false} BlockItemsDistinct(b: Block, name: Name, k: nat, header: nat)
    requires k <= |b.txs| && Readable(b)
    ensures DistinctEntries(ItemsUpTo(b, name, k, header))
    ensures forall i :: 0 <= i < |ItemsUpTo(b, name, k, header)| ==>
      ItemsUpTo(b, name, k, header)[i].entry.pos.tx < TxStart(b, k, header)
  {
    if k > 0 {
      BlockItemsDistinct(b, name, k - 1, header);
    }
  }

  /** Operations of an ascending chain leave different entries. */
  lemma {:induction false} ChainItemsDistinct(chain: seq<Block>, name: Name, header: nat, testNet: bool)
    requires AllReadable(chain) && AscendingChain(chain)
    ensures DistinctEntries(ChainItems(chain, name, header, testNet))
  {
    hide ItemsUpTo, Readable, Scanned;
    if chain != [] {
      var n := |chain| - 1;
      ChainItemsDistinct(chain[..n], name, header, testNet);
      ChainItemsAscend(chain[..n], name, header, testNet);
      BlockItemsDistinct(chain[n], name, |chain[n].txs|, header);
      if n > 0 {
        assert chain[..n][n - 1] == chain[n - 1] && chain[n - 1].height < chain[n].height;
      }
    }
  }

  /** Which blocks `xsc` scans: all of the test network, and those of the main network from
      height 1625000 on. */
  lemma {:induction false} ScannedSuffix(chain: seq<Block>, m: nat, name: Name, header: nat, testNet: bool)
    requires AllReadable(chain) && m <= |chain|
    requires forall k :: 0 <= k < m ==> !testNet && chain[k].height < 1625000
    requires forall k :: m <= k < |chain| ==> testNet || chain[k].height >= 1625000
    ensures m == |chain| ==> ChainItems(chain, name, header, testNet) == []
    ensures m < |chain| ==>
      var n := |chain| - 1;
      ChainItems(chain, name, header, testNet)
        == ChainItems(chain[..n], name, header, testNet) + Items(chain[n], name, header)
  {
    hide ItemsUpTo, Readable;
    if 0 < m == |chain| {
      ScannedSuffix(chain[..m - 1], m - 1, name, header, testNet);
    }
  }

  // ---------------------------------------------------------------- the database

  function Lookup(index: Index, name: Name): Option<seq<Entry>> {
    if name in index then Some(index[name]) else None
  }

  ghost predicate Valid(index: Index) {
    forall name :: Filled(Lookup(index, name))
  }

  /** Every name has undergone the operations among the first `k` transactions of a block. */
  ghost predicate ScannedUpTo(was: Index, now: Index, b: Block, k: nat, header: nat, testNet: bool)
    requires k <= |b.txs| && Readable(b)
  {
    forall name ::
      && Filled(Lookup(was, name))
      && Lookup(now, name) == Scan(Lookup(was, name), ItemsUpTo(b, name, k, header), testNet)
  }

  lemma NoneScanned(index: Index, b: Block, header: nat, testNet: bool)
    requires Valid(index) && Readable(b)
    ensures ScannedUpTo(index, index, b, 0, header, testNet)
  {
  }

  lemma AllScanned(was: Index, now: Index, b: Block, header: nat, testNet: bool)
    requires Readable(b) && ScannedUpTo(was, now, b, |b.txs|, header, testNet)
    ensures forall name ::
      && Filled(Lookup(was, name))
      && Lookup(now, name) == Scan(Lookup(was, name), Items(b, name, header), testNet)
      && Leaves(Lookup(was, name), b, |b.txs|, name, header, testNet, Lookup(now, name))
  {
    hide Scan, Leaves, ItemsUpTo, Readable;
    forall name
      ensures Filled(Lookup(was, name))
      ensures Leaves(Lookup(was, name), b, |b.txs|, name, header, testNet, Lookup(now, name))
    {
      BlockLeaves(Lookup(was, name), b, |b.txs|, name, header, testNet);
    }
  }

  lemma IndexedArgs(b: Block, k: nat)
    requires Readable(b) && k < |b.txs| && Indexed(b.txs[k])
    ensures Decoded(b.txs[k]) && b.txs[k].args != []
  {
  }

  lemma OneMoreScanned(was: Index, before: Index, now: Index, b: Block, k: nat, header: nat, testNet: bool)
    requires k < |b.txs| && Readable(b) && Valid(before) && ScannedUpTo(was, before, b, k, header, testNet)
    requires !Indexed(b.txs[k]) ==> now == before
    requires Indexed(b.txs[k]) ==>
      (IndexedArgs(b, k);
       var name := b.txs[k].args[0];
       Filled(Lookup(before, name))
       && Lookup(now, name) == Effect(Lookup(before, name), ItemAt(b, k, header), testNet)
       && forall other :: other != name ==> Lookup(now, other) == Lookup(before, other))
    ensures ScannedUpTo(was, now, b, k + 1, header, testNet)
  {
    hide Effect, Filled, Lookup, ItemsUpTo, Scan, Readable, ItemAt, Valid;
    forall name ensures Filled(Lookup(was, name))
      && Lookup(now, name) == Scan(Lookup(was, name), ItemsUpTo(b, name, k + 1, header), testNet)
    {
      ItemsStep(b, name, k, header, Lookup(was, name), testNet);
    }
  }

  class LocatorNodeDB {
    var index: Index

    constructor ()
      ensures index == map[]
    {
      index := map[];
    }

    /** The body of the loop of `filter` for one operation. */
    method Apply(item: Item, name: Name, testNet: bool)
      requires Valid(index)
      modifies this
      ensures Valid(index)
      ensures Filled(Lookup(old(index), name)) && Lookup(index, name) == Effect(Lookup(old(index), name), item, testNet)
      ensures forall other :: other != name ==> Lookup(index, other) == Lookup(old(index), other)
    {
      hide Displaces;
      assert Filled(Lookup(index, name));
      if item.isSet && name !in index {
        index := index[name := [item.entry]];
      } else if item.isSet && name in index {
        var t := Last(index[name]);
        if Displaces(item.entry.height, t.height, testNet) {
          index := index[name := [item.entry]];
        }
      } else if !item.isSet && name in index {
        index := index[name := [item.entry]];
      }
      forall other ensures Filled(Lookup(index, other)) {
        assert Filled(Lookup(old(index), other));
      }
    }

    /** `filter`: every name undergoes the operations of the block that concern it, in order. */
    method Filter(b: Block, header: nat, testNet: bool)
      requires Valid(index) && Readable(b)
      modifies this
      ensures Valid(index)
      ensures forall name ::
        && Filled(Lookup(old(index), name))
        && Lookup(index, name) == Scan(Lookup(old(index), name), Items(b, name, header), testNet)
        && Leaves(Lookup(old(index), name), b, |b.txs|, name, header, testNet, Lookup(index, name))
    {
      hide Valid, ScannedUpTo, Effect, Lookup, Indexed, Leaves;
      var txPos := b.pos + header + CompactSize(|b.txs|);
      NoneScanned(index, b, header, testNet);
      for k := 0 to |b.txs|
        invariant Valid(index) && txPos == TxStart(b, k, header)
        invariant ScannedUpTo(old(index), index, b, k, header, testNet)
      {
        var tx := b.txs[k];
        ghost var before := index;
        if Indexed(tx) {
          IndexedArgs(b, k);
          var value := if tx.op == OP_SET then [] else Arg(tx.args, 1);
          var item := Item(tx.op == OP_SET, Entry(Pos(b.file, b.pos, txPos), b.height, value, tx.address));
          Apply(item, tx.args[0], testNet);
        }
        OneMoreScanned(old(index), before, index, b, k, header, testNet);
        txPos := txPos + tx.size;
      }
      AllScanned(old(index), index, b, header, testNet);
    }

    /** `xsc`. */
    method Xsc(chain: seq<Block>, header: nat, testNet: bool)
      requires Valid(index) && AllReadable(chain)
      modifies this
      ensures Valid(index)
      ensures forall name ::
        && Filled(Lookup(old(index), name))
        && Lookup(index, name)
           == Scan(Lookup(old(index), name), ChainItems(chain, name, header, testNet), testNet)
    {
      hide Scan, Filled, Lookup, ItemsUpTo, Readable, ChainItems;
      forall name ensures Scan(Lookup(old(index), name), ChainItems(chain[..0], name, header, testNet), testNet)
        == Lookup(old(index), name)
      {
        NoItems(Lookup(old(index), name), chain[..0], name, header, testNet);
      }
      for k := 0 to |chain|
        invariant Valid(index)
        invariant forall name ::
          && Filled(Lookup(old(index), name))
          && Lookup(index, name)
             == Scan(Lookup(old(index), name), ChainItems(chain[..k], name, header, testNet), testNet)
      {
        ghost var before := index;
        if Scanned(chain[k], testNet) {
          Filter(chain[k], header, testNet);
        }
        forall name ensures Lookup(index, name)
          == Scan(Lookup(old(index), name), ChainItems(chain[..k + 1], name, header, testNet), testNet)
        {
          ChainStep(chain, k, name, header, Lookup(old(index), name), testNet);
        }
      }
      assert chain[..|chain|] == chain;
    }

    /** Scanning a chain a second time over the finished index leaves a name as it is exactly
        when its operations are steady. */
    method ScanTwice(chain: seq<Block>, header: nat, testNet: bool) returns (once: Index)
      requires index == map[] && AllReadable(chain) && AscendingChain(chain)
      modifies this
      ensures forall name :: Lookup(once, name) == Scan(None, ChainItems(chain, name, header, testNet), testNet)
      ensures forall name ::
        Lookup(index, name) == Lookup(once, name) <==> Steady(ChainItems(chain, name, header, testNet), testNet)
      ensures index == once <==> forall name :: Steady(ChainItems(chain, name, header, testNet), testNet)
    {
      hide Scan, ChainItems, Steady;
      Xsc(chain, header, testNet);
      once := index;
      assert forall name :: Lookup(once, name) == Scan(None, ChainItems(chain, name, header, testNet), testNet);
      Xsc(chain, header, testNet);
      forall name
        ensures Lookup(index, name) == Lookup(once, name)
          <==> Steady(ChainItems(chain, name, header, testNet), testNet)
      {
        ChainItemsAscend(chain, name, header, testNet);
        ChainItemsDistinct(chain, name, header, testNet);
        RescanExactly(ChainItems(chain, name, header, testNet), testNet);
      }
      if forall name :: Steady(ChainItems(chain, name, header, testNet), testNet) {
        SameLookups(index, once);
      }
    }
  }

  lemma SameLookups(a: Index, b: Index)
    requires forall name :: Lookup(a, name) == Lookup(b, name)
    ensures a == b
  {
    assert forall name :: name in a <==> Lookup(a, name).Some?;
    assert forall name :: name in b <==> Lookup(b, name).Some?;
    assert forall name :: name in a ==> a[name] == Lookup(a, name).value;
    assert forall name :: name in b ==> b[name] == Lookup(b, name).value;
  }

  lemma ItemsStep(b: Block, name: Name, k: nat, header: nat, v: Option<seq<Entry>>, testNet: bool)
    requires k < |b.txs| && Readable(b) && Filled(v)
    ensures Scan(v, ItemsUpTo(b, name, k + 1, header), testNet)
      == var was := Scan(v, ItemsUpTo(b, name, k, header), testNet);
         if Concerns(b.txs[k], name) then Effect(was, ItemAt(b, k, header), testNet) else was
  {
    hide Effect, Filled, ItemAt;
    var before, after := ItemsUpTo(b, name, k, header), ItemsUpTo(b, name, k + 1, header);
    if Concerns(b.txs[k], name) {
      assert after[..|after| - 1] == before;
    } else {
      assert after == before;
    }
  }

  lemma NoItems(v: Option<seq<Entry>>, chain: seq<Block>, name: Name, header: nat, testNet: bool)
    requires Filled(v) && chain == []
    ensures Scan(v, ChainItems(chain, name, header, testNet), testNet) == v
  {
  }

  lemma ChainStep(chain: seq<Block>, k: nat, name: Name, header: nat, v: Option<seq<Entry>>, testNet: bool)
    requires k < |chain| && AllReadable(chain) && Filled(v)
    ensures Scan(v, ChainItems(chain[..k + 1], name, header, testNet), testNet)
      == var was := Scan(v, ChainItems(chain[..k], name, header, testNet), testNet);
         if Scanned(chain[k], testNet) then Scan(was, Items(chain[k], name, header), testNet) else was
  {
    hide Scan, Filled, ItemsUpTo, Readable, Scanned;
    assert chain[..k + 1][..k] == chain[..k];
    var before := ChainItems(chain[..k], name, header, testNet);
    if Scanned(chain[k], testNet) {
      ScanConcat(v, before, Items(chain[k], name, header), testNet);
    } else {
      assert ChainItems(chain[..k + 1], name, header, testNet) == before;
    }
  }
}
