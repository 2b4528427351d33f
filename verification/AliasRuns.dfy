/** Runs of the alias protocol (src/dions.cpp): how accepted ledgers come about, what can go wrong
    in them, and the discipline under which nothing does. */
module AliasRuns {
  import opened Options
  import opened AliasIndex
  import opened AliasChain
  import opened AliasLedger

  // ---------------------------------------------------------------- growing chains

  /** A new block leaves the verdict on an earlier transaction as it was. */
  lemma ConnectsStable(spent: seq<Spent>, vout: seq<Script>, chain: seq<BlockPos>, b: BlockPos, height: nat,
                       mode: Mode, o: Outside, index: Index, hash: Hash160, scale: nat)
    requires height < |chain|
    ensures Connects(spent, vout, chain + [b], height, mode, o, index, hash, scale)
      <==> Connects(spent, vout, chain, height, mode, o, index, hash, scale)
  {
    hide IsAlias, FirstAlias, LastOp, AtMostOne, Within, Opens;
    var k := FirstAlias(Scripts(spent));
    if k < |spent| {
      WithinStable(chain, b, height, BlockOf(spent[k].at), MIN_SET_DEPTH);
      WithinStable(chain, b, height, BlockOf(spent[k].at), scale);
    }
  }

  lemma WithinStable(chain: seq<BlockPos>, b: BlockPos, height: nat, at: BlockPos, maxDepth: int)
    requires height < |chain|
    ensures Within(chain + [b], height, at, maxDepth) <==> Within(chain, height, at, maxDepth)
  {
    assert forall i :: 0 <= i <= height ==> (chain + [b])[i] == chain[i];
  }

  /** Accepted ledgers stay accepted when the chain grows. */
  lemma BlockKeepsAccepted(l: Ledger, chain: seq<BlockPos>, b: BlockPos, hash: Hash160, scale: nat)
    requires Accepted(l, chain, hash, scale) && b !in chain
    ensures Accepted(l, chain + [b], hash, scale)
  {
    hide Connects;
    var more := chain + [b];
    forall t | 0 <= t < |l|
      ensures l[t].height < |more| && SpendsEarlier(l, t) && AcceptedAt(l, more, t, hash, scale)
    {
      AcceptedFacts(l, chain, t, hash, scale);
      var spent := SpentBy(l, chain, t);
      assert SpentBy(l, more, t) == spent;
      ConnectsStable(spent, l[t].vout, chain, b, l[t].height, InBlock, l[t].outside, map[], hash, scale);
    }
  }

  /** Appending a transaction leaves the verdicts on earlier ones as they were. */
  lemma TxKeepsAccepted(l: Ledger, chain: seq<BlockPos>, x: Placed, hash: Hash160, scale: nat)
    requires Accepted(l, chain, hash, scale) && Admits(l, chain, x, hash, scale)
    ensures Accepted(l + [x], chain, hash, scale)
  {
    hide Connects;
    var more := l + [x];
    forall t | 0 <= t < |l|
      ensures more[t].height < |chain| && SpendsEarlier(more, t) && AcceptedAt(more, chain, t, hash, scale)
    {
      AcceptedFacts(l, chain, t, hash, scale);
      assert SpentBy(more, chain, t) == SpentBy(l, chain, t);
    }
  }

  // ---------------------------------------------------------------- runs

  datatype Event = NewBlock(at: BlockPos) | NewTx(tx: Placed)

  datatype Chained = Chained(l: Ledger, chain: seq<BlockPos>)

  /** The transaction enters the last block: it spends outputs of the ledger, and meets the
      conditions unless it is a coinbase, a coinstake or of another version. */
  predicate Admits(l: Ledger, chain: seq<BlockPos>, x: Placed, hash: Hash160, scale: nat) {
    && x.height < |chain|
    && SpendsEarlier(l + [x], |l|)
    && AcceptedAt(l + [x], chain, |l|, hash, scale)
  }

  /** The ledger and the chain after a sequence of events. */
  function After(events: seq<Event>, hash: Hash160, scale: nat): Chained {
    if events == [] then Chained([], [])
    else Next(After(events[..|events| - 1], hash, scale), events[|events| - 1], hash, scale)
  }

  function Next(c: Chained, e: Event, hash: Hash160, scale: nat): Chained {
    match e
    case NewBlock(at) => if at in c.chain then c else c.(chain := c.chain + [at])
    case NewTx(tx) =>
      if c.chain == [] then c
      else
        var x := tx.(height := |c.chain| - 1);
        if Admits(c.l, c.chain, x, hash, scale) then c.(l := c.l + [x]) else c
  }

  /** Connecting blocks, and putting transactions into them as `ConnectInputs` and
      `ConnectInputsPost` decide, leads to the ledger of the events; it is always accepted. */
  method Replay(events: seq<Event>, hash: Hash160, scale: nat) returns (l: Ledger, chain: seq<BlockPos>)
    ensures Chained(l, chain) == After(events, hash, scale)
    ensures Accepted(l, chain, hash, scale)
  {
    hide Connects, SpendsEarlier, Accepted;
    l, chain := [], [];
    EmptyAccepted(hash, scale);
    for k := 0 to |events|
      invariant Chained(l, chain) == After(events[..k], hash, scale)
      invariant Accepted(l, chain, hash, scale)
    {
      assert events[..k + 1][..k] == events[..k];
      match events[k]
      case NewBlock(at) =>
        if at !in chain {
          BlockKeepsAccepted(l, chain, at, hash, scale);
          chain := chain + [at];
        }
      case NewTx(tx) =>
        if chain != [] {
          var x := tx.(height := |chain| - 1);
          if SpendsEarlier(l + [x], |l|) {
            var ok := x.minted;
            if !ok {
              var spent := SpentBy(l + [x], chain, |l|);
              ok := ConnectInputsPost(
                x.dion, spent, x.vout, chain, x.height, InBlock, x.outside, map[], hash, scale);
            }
            if ok {
              TxKeepsAccepted(l, chain, x, hash, scale);
              l := l + [x];
            }
          }
        }
    }
    assert events[..|events|] == events;
  }

  lemma {:induction false} AfterAccepted(events: seq<Event>, hash: Hash160, scale: nat)
    ensures var c := After(events, hash, scale); Accepted(c.l, c.chain, hash, scale)
  {
    hide Connects, SpendsEarlier, Accepted;
    if events == [] {
      EmptyAccepted(hash, scale);
    } else {
      var c := After(events[..|events| - 1], hash, scale);
      AfterAccepted(events[..|events| - 1], hash, scale);
      match events[|events| - 1]
      case NewBlock(at) =>
        if at !in c.chain {
          BlockKeepsAccepted(c.l, c.chain, at, hash, scale);
        }
      case NewTx(tx) =>
        if c.chain != [] {
          var x := tx.(height := |c.chain| - 1);
          if Admits(c.l, c.chain, x, hash, scale) {
            TxKeepsAccepted(c.l, c.chain, x, hash, scale);
          }
        }
    }
  }

  /** What enters: every new block, and exactly the transactions with which the ledger is still
      accepted. */
  lemma ReplayStep(events: seq<Event>, e: Event, hash: Hash160, scale: nat)
    ensures e.NewBlock? ==>
      var c, d := After(events, hash, scale), After(events + [e], hash, scale);
      d.l == c.l && d.chain == if e.at in c.chain then c.chain else c.chain + [e.at]
    ensures e.NewTx? ==>
      var c, d := After(events, hash, scale), After(events + [e], hash, scale);
      && d.chain == c.chain
      && if c.chain == [] then d.l == []
         else
           var more := c.l + [e.tx.(height := |c.chain| - 1)];
           d.l == if Accepted(more, c.chain, hash, scale) then more else c.l
  {
    hide Connects, SpendsEarlier;
    assert (events + [e])[..|events|] == events;
    AfterAccepted(events, hash, scale);
    var c := After(events, hash, scale);
    if e.NewTx? {
      if c.chain == [] {
        NoChainNoLedger(c.l, c.chain, hash, scale);
      } else {
        var x := e.tx.(height := |c.chain| - 1);
        if Admits(c.l, c.chain, x, hash, scale) {
          TxKeepsAccepted(c.l, c.chain, x, hash, scale);
        }
      }
    }
  }

  lemma NoChainNoLedger(l: Ledger, chain: seq<BlockPos>, hash: Hash160, scale: nat)
    requires Accepted(l, chain, hash, scale)
    ensures chain == [] ==> l == []
  {
    hide Accepted, AcceptedAt;
    if l != [] {
      AcceptedFacts(l, chain, 0, hash, scale);
    }
  }

  lemma EmptyAccepted(hash: Hash160, scale: nat)
    ensures Accepted([], [], hash, scale)
  {
  }

  // ---------------------------------------------------------------- disciplined ledgers

  /** Scripts that start like an alias script are alias scripts, and occur only in DION
      transactions. */
  predicate AliasesInDion(l: Ledger) {
    forall t, n :: 0 <= t < |l| && 0 <= n < |l[t].vout| && Opens(l[t].vout[n]) ==>
      l[t].dion && IsAlias(l[t].vout[n])
  }

  /** And not in coinbases or coinstakes. */
  predicate Disciplined(l: Ledger) {
    && AliasesInDion(l)
    && (forall t, n :: 0 <= t < |l| && 0 <= n < |l[t].vout| && Opens(l[t].vout[n]) ==> !l[t].minted)
  }

  /** When nothing else starts like an alias script, the operation reported last is that of the
      only alias script. */
  lemma {:induction false} LastOpDown(scripts: seq<Script>, k: nat, n: nat)
    requires forall i :: 0 <= i < |scripts| && Opens(scripts[i]) ==> IsAlias(scripts[i])
    requires AtMostOne(scripts) && k < n <= |scripts| && IsAlias(scripts[k])
    ensures Opens(scripts[k]) && LastOp(scripts[..n]) == OpOf(scripts[k])
  {
    hide IsAlias, Opens;
    AliasOpens(scripts[k]);
    assert scripts[..n][n - 1] == scripts[n - 1];
    if k < n - 1 {
      LastOpDown(scripts, k, n - 1);
      assert scripts[..n][..n - 1] == scripts[..n - 1];
    }
  }

  lemma ReadsRight(scripts: seq<Script>)
    requires forall i :: 0 <= i < |scripts| && Opens(scripts[i]) ==> IsAlias(scripts[i])
    requires AtMostOne(scripts)
    ensures ReadRight(scripts)
  {
    hide IsAlias, Opens, LastOp, FirstAlias;
    var k := FirstAlias(scripts);
    if k < |scripts| {
      LastOpDown(scripts, k, |scripts|);
      assert scripts[..|scripts|] == scripts;
    }
  }

  /** In a disciplined ledger every deed is checked, so every SET and every RELAY has a title. */
  lemma DisciplinedProvenance(l: Ledger, chain: seq<BlockPos>, o: OutPoint, hash: Hash160, scale: nat)
    requires Accepted(l, chain, hash, scale) && Disciplined(l) && IsDeed(l, o) && Names(OpAt(l, o))
    ensures forall t :: 0 <= t < |l| ==> SpendsEarlier(l, t)
    ensures CheckedTitle(l, Walk(l, o), hash, scale)
  {
    hide Accepted, Walk, Checked, CheckedTitle, SpendsEarlier, IsDeed, Disciplined;
    CheckedProvenance(l, chain, o, hash, scale);
    var path := Walk(l, o);
    forall k | 0 <= k < |path| ensures Checked(l, path[k]) {
      DisciplinedChecked(l, chain, path[k], hash, scale);
    }
  }

  lemma DisciplinedChecked(l: Ledger, chain: seq<BlockPos>, o: OutPoint, hash: Hash160, scale: nat)
    requires Accepted(l, chain, hash, scale) && Disciplined(l) && IsDeed(l, o)
    ensures Checked(l, o)
  {
    hide Accepted, IsAlias, Opens, LastOp, FirstAlias, SetConnects, RelayConnects, AtMostOne, SpendsEarlier, Checked;
    DeedExists(l, o);
    AliasOpens(ScriptAt(l, o));
    AcceptedFacts(l, chain, o.tx, hash, scale);
    OnlyDeedChecked(l, o);
  }

  lemma OnlyDeedChecked(l: Ledger, o: OutPoint)
    requires Disciplined(l) && IsDeed(l, o) && o.tx < |l| && AtMostOne(l[o.tx].vout) && AtMostOne(Ins(l, o.tx))
    ensures Checked(l, o)
  {
    hide IsAlias, Opens, LastOp, FirstAlias, AtMostOne;
    DeedExists(l, o);
    AliasOpens(ScriptAt(l, o));
    var vout := l[o.tx].vout;
    LastOpDown(vout, o.n, |vout|);
    assert vout[..|vout|] == vout;
    NothingOpens();
    forall i | 0 <= i < |l[o.tx].vin| && Opens(Ins(l, o.tx)[i]) ensures IsAlias(Ins(l, o.tx)[i]) {
    }
    ReadsRight(Ins(l, o.tx));
  }

  /** A transaction has exactly one deed, which is proper, and spends at most one alias. */
  ghost predicate Sound(l: Ledger, t: nat, hash: Hash160, scale: nat)
    requires t < |l|
  {
    && AtMostOne(l[t].vout) && AtMostOne(Ins(l, t))
    && exists n: nat :: IsDeed(l, OutPoint(t, n)) && Proper(l, OutPoint(t, n), hash, scale)
  }

  /** Which disciplined ledgers are accepted: exactly those whose DION transactions, but for
      coinbases and coinstakes, are sound. */
  lemma AcceptedExactly(l: Ledger, chain: seq<BlockPos>, hash: Hash160, scale: nat)
    requires Linked(l, chain) && Disciplined(l)
    ensures Accepted(l, chain, hash, scale)
      <==> forall t :: 0 <= t < |l| && l[t].dion && !l[t].minted ==> Sound(l, t, hash, scale)
  {
    hide SpendsEarlier, AcceptedAt, Sound, Disciplined, Distinct;
    forall t | 0 <= t < |l| && l[t].dion && !l[t].minted
      ensures SpendsEarlier(l, t) && l[t].height < |chain|
      ensures AcceptedAt(l, chain, t, hash, scale) <==> Sound(l, t, hash, scale)
    {
      SoundExactly(l, chain, t, hash, scale);
    }
    forall t | 0 <= t < |l| && !(l[t].dion && !l[t].minted)
      ensures SpendsEarlier(l, t) && l[t].height < |chain| && AcceptedAt(l, chain, t, hash, scale)
    {
      UncheckedAccepted(l, chain, t, hash, scale);
    }
  }

  lemma UncheckedAccepted(l: Ledger, chain: seq<BlockPos>, t: nat, hash: Hash160, scale: nat)
    requires Linked(l, chain) && t < |l| && !(l[t].dion && !l[t].minted)
    ensures SpendsEarlier(l, t) && l[t].height < |chain| && AcceptedAt(l, chain, t, hash, scale)
  {
    hide Connects, SpendsEarlier;
  }

  lemma SoundExactly(l: Ledger, chain: seq<BlockPos>, t: nat, hash: Hash160, scale: nat)
    requires Linked(l, chain) && Disciplined(l) && t < |l| && l[t].dion && !l[t].minted
    ensures SpendsEarlier(l, t) && l[t].height < |chain|
    ensures AcceptedAt(l, chain, t, hash, scale) <==> Sound(l, t, hash, scale)
  {
    hide AcceptedAt, SpendsEarlier, AtMostOne, Proper, Disciplined, IsDeed, FirstAlias;
    if AcceptedAt(l, chain, t, hash, scale) {
      HasOneDeed(l, chain, t, hash, scale);
    }
    if AtMostOne(l[t].vout) && AtMostOne(Ins(l, t)) {
      forall n: nat | IsDeed(l, OutPoint(t, n))
        ensures AcceptedAt(l, chain, t, hash, scale) <==> Proper(l, OutPoint(t, n), hash, scale)
      {
        OnlyDeedChecked(l, OutPoint(t, n));
        CheckedExactly(l, chain, OutPoint(t, n), hash, scale);
      }
    }
  }

  lemma HasOneDeed(l: Ledger, chain: seq<BlockPos>, t: nat, hash: Hash160, scale: nat)
    requires t < |l| && SpendsEarlier(l, t) && l[t].height < |chain| && l[t].dion && !l[t].minted
    requires AcceptedAt(l, chain, t, hash, scale)
    ensures AtMostOne(l[t].vout) && AtMostOne(Ins(l, t))
    ensures exists n: nat :: IsDeed(l, OutPoint(t, n))
  {
    hide IsAlias, AtMostOne, LastOp, SetConnects, RelayConnects, EncryptedConnects;
    var n := FirstAlias(l[t].vout);
    assert IsDeed(l, OutPoint(t, n));
  }

  lemma NothingOpens()
    ensures !Opens([])
  {
  }

  // ---------------------------------------------------------------- scripts by their meaning

  function PushAll(args: seq<Bytes>): Script {
    seq(|args|, i requires 0 <= i < |args| => Push(args[i]))
  }

  function ScriptOf(op: nat, args: seq<Bytes>): Script
    requires 1 <= op <= 16
  {
    [Code(OP_1 + op - 1)] + PushAll(args) + [Code(OP_2DROP)]
  }

  lemma {:induction false} PushesOf(args: seq<Bytes>, rest: Script)
    requires rest == [] || rest[0].Code?
    ensures Pushes(PushAll(args) + rest) == args
  {
    var s := PushAll(args) + rest;
    if args == [] {
      assert s == rest;
    } else {
      assert s[1..] == PushAll(args[1..]) + rest;
      PushesOf(args[1..], rest);
    }
  }

  lemma ScriptOfIs(op: nat, args: seq<Bytes>)
    requires 1 <= op <= 16 && Arity(op, |args|)
    ensures var s := ScriptOf(op, args); IsAlias(s) && OpOf(s) == op && ArgsOf(s) == args
  {
    var s := ScriptOf(op, args);
    var drop: Script := [Code(OP_2DROP)];
    assert s[1..] == PushAll(args) + drop;
    PushesOf(args, drop);
    hide Pushes, Arity;
    assert s[1 + |args|..] == drop;
  }

  /** `s` starts with an operation, its arguments as pushes and a drop. */
  ghost predicate Spells(s: Script, op: nat, args: seq<Bytes>, drop: Opcode, rest: Script) {
    && 1 <= op <= 16 && s == [Code(0x50 + op)] + PushAll(args) + [Code(drop)] + rest
    && drop in {0x61, 0x6d, 0x75}
    && ((op == 1 && |args| == 8) || (op == 2 && |args| == 5) || (op == 3 && |args| == 2) || op in {5, 6, 7, 9, 16})
  }

  /** What `aliasScript` accepts: exactly such scripts, and it reads back what they spell. */
  lemma AliasSpells(s: Script)
    ensures IsAlias(s) <==> exists op, args, drop, rest :: Spells(s, op, args, drop, rest)
    ensures forall op, args, drop, rest :: Spells(s, op, args, drop, rest) ==>
      Opens(s) && OpOf(s) == op && ArgsOf(s) == args
  {
    if IsAlias(s) {
      var args := ArgsOf(s);
      var n := |args|;
      PushesAre(s[1..]);
      assert s[1 + n..] == s[1..][n..];
      assert s == [s[0]] + s[1..][..n] + [s[1 + n]] + s[2 + n..];
      assert Spells(s, OpOf(s), args, s[1 + n].code, s[2 + n..]);
    }
    forall op, args, drop, rest | Spells(s, op, args, drop, rest)
      ensures IsAlias(s) && Opens(s) && OpOf(s) == op && ArgsOf(s) == args
    {
      var tail: Script := [Code(drop)] + rest;
      assert s[1..] == PushAll(args) + tail;
      PushesOf(args, tail);
      assert s[1 + |args|..] == tail;
    }
  }

  lemma {:induction false} PushesAre(t: Script)
    ensures t[..|Pushes(t)|] == PushAll(Pushes(t))
  {
    if t != [] && t[0].Push? {
      PushesAre(t[1..]);
      var n := |Pushes(t[1..])|;
      assert t[..n + 1] == [t[0]] + t[1..][..n];
    }
  }

  lemma OneScript(s: Script)
    requires IsAlias(s)
    ensures AtMostOne([s]) && FirstAlias([s]) == 0 && LastOp([s]) == OpOf(s)
  {
    hide IsAlias;
    AliasOpens(s);
  }

  /** A script that is no alias operation and does not start like one. */
  const PLAIN: Script := [Code(0x76)]

  lemma PlainIs()
    ensures !Opens(PLAIN) && !IsAlias(PLAIN) && !Opens([]) && !IsAlias([])
  {
  }

  const ALL_WELL := Outside((_, _, _) => true, true, false)

  /** The arguments of an ENCRYPTED, a SET and a RELAY of a name, with an empty random value. */
  function EncryptedArgs(name: Name, hash: Hash160): seq<Bytes> {
    [name, [], [], hash([] + name), [], [], [], []]
  }

  lemma EncryptedArgsAre(name: Name, hash: Hash160)
    ensures var a := EncryptedArgs(name, hash);
      |a| == 8 && a[0] == name && a[2] == [] && a[3] == hash([] + name) && |a[3]| == 20
  {
  }

  function SetArgs(name: Name): seq<Bytes> {
    [name, [], [], [], []]
  }

  function RelayArgs(name: Name): seq<Bytes> {
    [name, []]
  }

  /** A coinbase in the first block with plain outputs. */
  function Funding(outputs: nat): Placed {
    Placed(false, true, [], seq(outputs, _ => PLAIN), 0, 0, ALL_WELL)
  }

  /** An alias operation that spends the outputs given. */
  function Operation(op: nat, args: seq<Bytes>, vin: seq<OutPoint>, height: nat, at: nat): Placed
    requires 1 <= op <= 16
  {
    Placed(true, false, vin, [ScriptOf(op, args)], height, at, ALL_WELL)
  }

  /** Only coinbases lack inputs, and minted outputs are spent at maturity. */
  predicate Matured(l: Ledger, maturity: nat) {
    forall t :: 0 <= t < |l| ==> (l[t].vin == [] ==> l[t].minted) && MaturedAt(l, t, maturity)
  }

  predicate MaturedAt(l: Ledger, t: nat, maturity: nat)
    requires t < |l|
  {
    forall i :: 0 <= i < |l[t].vin| && l[t].vin[i].tx < |l| && l[l[t].vin[i].tx].minted ==>
      l[t].height - l[l[t].vin[i].tx].height >= maturity
  }

  /** An ENCRYPTED that spends a plain output is accepted. */
  lemma EncryptedAccepted(l: Ledger, chain: seq<BlockPos>, t: nat, args: seq<Bytes>, p: OutPoint, height: nat, at: nat,
                          hash: Hash160, scale: nat)
    requires t < |l| && SpendsEarlier(l, t) && height < |chain| && |args| == 8
    requires l[t] == Operation(OP_ENCRYPTED, args, [p], height, at) && ScriptAt(l, p) == PLAIN
    requires |args[0]| <= MAX_LOCATOR_LENGTH && |args[3]| == 20
    ensures AcceptedAt(l, chain, t, hash, scale)
  {
    hide IsAlias, LastOp, Opens, ScriptOf, SetConnects, RelayConnects, ScriptAt;
    ScriptOfIs(OP_ENCRYPTED, args);
    OneScript(ScriptOf(OP_ENCRYPTED, args));
    PlainIs();
    assert Ins(l, t) == [PLAIN];
  }

  /** A SET or RELAY with one input is accepted under its conditions. */
  lemma OperationAccepted(l: Ledger, chain: seq<BlockPos>, t: nat, op: nat, args: seq<Bytes>, p: OutPoint, height: nat,
                          at: nat, prevOp: nat, prevArgs: seq<Bytes>, hash: Hash160, scale: nat)
    requires t < |l| && SpendsEarlier(l, t) && height < |chain|
    requires Names(op) && Arity(op, |args|) && 1 <= prevOp <= 16 && Arity(prevOp, |prevArgs|)
    requires l[t] == Operation(op, args, [p], height, at) && |args[0]| <= MAX_LOCATOR_LENGTH
    requires IsAlias(ScriptAt(l, p)) && OpOf(ScriptAt(l, p)) == prevOp && ArgsOf(ScriptAt(l, p)) == prevArgs
    requires p.tx < |l| && l[p.tx].height < |chain|
    requires var place := PlaceOf(l, chain, p.tx);
      && (op == OP_SET ==>
            SetConnects(args, prevOp, prevArgs, place, chain, height, InBlock, ALL_WELL, hash, scale))
      && (op == OP_RELAY ==>
            RelayConnects(args, prevOp, prevArgs, place, chain, height, InBlock, map[], scale))
    ensures AcceptedAt(l, chain, t, hash, scale)
  {
    hide IsAlias, FirstAlias, LastOp, Opens, ScriptOf, SetConnects, RelayConnects, SpendsEarlier, ScriptAt, AtMostOne;
    ScriptOfIs(op, args);
    OneScript(ScriptOf(op, args));
    OneScript(ScriptAt(l, p));
    assert Ins(l, t) == [ScriptAt(l, p)];
  }

  // ---------------------------------------------------------------- what is not checked

  /** A RELAY script in a transaction of another version, and a RELAY that spends it. */
  function UnboundLedger(name: Name, height: nat): Ledger {
    [Funding(1),
     Placed(false, false, [OutPoint(0, 0)], [ScriptOf(OP_RELAY, RelayArgs(name))], height, 0, ALL_WELL),
     Operation(OP_RELAY, RelayArgs(name), [OutPoint(1, 0)], height, 1)]
  }

  /** Where provenance fails: the ledger is accepted, and no RELAY in it goes back to a SET. The
      first is in a transaction that `ConnectInputsPost` lets through, the second spends it. */
  lemma {:induction false} UnboundRelay(name: Name, chain: seq<BlockPos>, height: nat, hash: Hash160, scale: nat)
    requires |name| <= MAX_LOCATOR_LENGTH && height < |chain| && Distinct(chain) && scale > 0
    ensures var l, o, p := UnboundLedger(name, height), OutPoint(2, 0), OutPoint(1, 0);
      && Accepted(l, chain, hash, scale) && Matured(l, height)
      && IsDeed(l, o) && OpAt(l, o) == OP_RELAY && Checked(l, o)
      && (forall q :: IsDeed(l, q) ==> OpAt(l, q) == OP_RELAY)
      && IsDeed(l, p) && Source(l, 2) == Some(p) && !Checked(l, p)
  {
    hide IsAlias, Opens, ScriptOf, Connects, FirstAlias, LastOp, Within, Distinct;
    var l := UnboundLedger(name, height);
    var args := RelayArgs(name);
    PlainIs();
    ScriptOfIs(OP_RELAY, args);
    OneScript(ScriptOf(OP_RELAY, args));
    SameBlockWithin(chain, height, scale);
    OperationAccepted(l, chain, 2, OP_RELAY, args, OutPoint(1, 0), height, 1, OP_RELAY, args, hash, scale);
    assert Ins(l, 2) == [ScriptOf(OP_RELAY, args)];
    forall q | IsDeed(l, q) ensures OpAt(l, q) == OP_RELAY {
      DeedExists(l, q);
    }
  }

  lemma SameBlockWithin(chain: seq<BlockPos>, height: nat, scale: nat)
    requires height < |chain| && scale > 0
    ensures Within(chain, height, chain[height], scale)
  {
  }

  /** A SET in a coinstake, and a RELAY that spends it when it has matured. */
  function MintedLedger(name: Name, maturity: nat): Ledger {
    [Funding(1),
     Placed(true, true, [OutPoint(0, 0)], [[], PLAIN, ScriptOf(OP_SET, SetArgs(name))], maturity, 0, ALL_WELL),
     Operation(OP_RELAY, RelayArgs(name), [OutPoint(1, 2)], 2 * maturity, 0)]
  }

  /** It also fails when alias scripts occur only in DION transactions and nothing else starts
      like one: `ConnectInputs` does not ask about coinbases and coinstakes. */
  lemma {:induction false} MintedSet(name: Name, chain: seq<BlockPos>, maturity: nat, hash: Hash160, scale: nat)
    requires |name| <= MAX_LOCATOR_LENGTH && 2 * maturity < |chain| && Distinct(chain) && maturity < scale
    ensures var l, o, p := MintedLedger(name, maturity), OutPoint(2, 0), OutPoint(1, 2);
      && Accepted(l, chain, hash, scale) && Matured(l, maturity) && AliasesInDion(l)
      && IsDeed(l, o) && OpAt(l, o) == OP_RELAY && Checked(l, o) && Source(l, 2) == Some(p)
      && IsDeed(l, p) && OpAt(l, p) == OP_SET && LastOp(l[1].vout) == OP_SET && ReadRight(Ins(l, 1))
      && Source(l, 1) == None && !Checked(l, p)
  {
    hide AcceptedAt, SpendsEarlier, Distinct, MintedLedger, Checked, Source, IsDeed, OpAt, AliasesInDion, Matured,
         LastOp, ReadRight, Ins;
    MintedLinked(name, chain, maturity);
    MintedDeeds(name, maturity);
    MintedAccepted(name, chain, maturity, hash, scale);
  }

  lemma MintedLinked(name: Name, chain: seq<BlockPos>, maturity: nat)
    requires 2 * maturity < |chain|
    ensures var l := MintedLedger(name, maturity);
      |l| == 3 && Matured(l, maturity) && forall t :: 0 <= t < 3 ==> l[t].height < |chain| && SpendsEarlier(l, t)
  {
    hide ScriptOf;
  }

  lemma MintedDeeds(name: Name, maturity: nat)
    ensures var l, o, p := MintedLedger(name, maturity), OutPoint(2, 0), OutPoint(1, 2);
      && |l| == 3 && AliasesInDion(l)
      && IsDeed(l, o) && OpAt(l, o) == OP_RELAY && Checked(l, o) && Source(l, 2) == Some(p)
      && IsDeed(l, p) && OpAt(l, p) == OP_SET && LastOp(l[1].vout) == OP_SET && ReadRight(Ins(l, 1))
      && Source(l, 1) == None && !Checked(l, p)
      && ScriptAt(l, p) == ScriptOf(OP_SET, SetArgs(name))
  {
    hide IsAlias, Opens, ScriptOf, FirstAlias, LastOp, ReadRight;
    var l := MintedLedger(name, maturity);
    var r, s := ScriptOf(OP_RELAY, RelayArgs(name)), ScriptOf(OP_SET, SetArgs(name));
    PlainIs();
    ScriptOfIs(OP_RELAY, RelayArgs(name));
    OneScript(r);
    ScriptOfIs(OP_SET, SetArgs(name));
    OneScript(s);
    MintedScripts(s);
    assert Ins(l, 1) == [PLAIN] && Ins(l, 2) == [s];
  }

  lemma MintedAccepted(name: Name, chain: seq<BlockPos>, maturity: nat, hash: Hash160, scale: nat)
    requires |name| <= MAX_LOCATOR_LENGTH && 2 * maturity < |chain| && Distinct(chain) && maturity < scale
    ensures var l := MintedLedger(name, maturity);
      forall t :: 0 <= t < 3 ==> SpendsEarlier(l, t) && AcceptedAt(l, chain, t, hash, scale)
  {
    hide IsAlias, ScriptOf, Connects, Within, Distinct, SpendsEarlier, ScriptAt;
    var l := MintedLedger(name, maturity);
    MintedLinked(name, chain, maturity);
    MintedDeeds(name, maturity);
    ScriptOfIs(OP_SET, SetArgs(name));
    DepthIsDifference(chain, 2 * maturity, maturity, scale, 0);
    OperationAccepted(l, chain, 2, OP_RELAY, RelayArgs(name), OutPoint(1, 2), 2 * maturity, 0,
      OP_SET, SetArgs(name), hash, scale);
  }

  lemma MintedScripts(s: Script)
    requires IsAlias(s)
    ensures Opens(s) && LastOp([[], PLAIN, s]) == OpOf(s)
    ensures FirstAlias([PLAIN]) == 1 && ReadRight([PLAIN]) && ReadRight([s])
  {
    hide IsAlias, Opens;
    AliasOpens(s);
    PlainIs();
  }

  /** A script that starts like a SET but is none, as a bare two-of-three multisignature does. */
  const OPENER: Script := [Code(OP_1 + 1)]

  lemma OpenerIs()
    ensures !IsAlias(OPENER) && Opens(OPENER) && OpOf(OPENER) == OP_SET
  {
    assert OPENER[1..] == [] && Pushes(OPENER[1..]) == [];
  }

  /** An ENCRYPTED output, an output with such a script, and a RELAY that spends both. */
  function MisreadLedger(name: Name, height: nat, hash: Hash160): Ledger {
    [Funding(2),
     Operation(OP_ENCRYPTED, EncryptedArgs(name, hash), [OutPoint(0, 0)], height, 0),
     Placed(false, false, [OutPoint(0, 1)], [OPENER], height, 1, ALL_WELL),
     Operation(OP_RELAY, RelayArgs(name), [OutPoint(1, 0), OutPoint(2, 0)], height, 2)]
  }

  /** The third way it fails: a RELAY of an ENCRYPTED output, both of DION transactions with one
      output each, since the operation spent is read from the last input that starts like one. */
  lemma {:induction false} MisreadInput(name: Name, chain: seq<BlockPos>, height: nat, hash: Hash160, scale: nat)
    requires |name| <= MAX_LOCATOR_LENGTH && height < |chain| && Distinct(chain) && scale > 0
    ensures var l, o, p := MisreadLedger(name, height, hash), OutPoint(3, 0), OutPoint(1, 0);
      && Accepted(l, chain, hash, scale) && Matured(l, height)
      && IsDeed(l, o) && OpAt(l, o) == OP_RELAY && IsDeed(l, p) && OpAt(l, p) == OP_ENCRYPTED && Checked(l, p)
      && Source(l, 3) == Some(p) && !ReadRight(Ins(l, 3)) && !Checked(l, o)
  {
    hide AcceptedAt, SpendsEarlier, Distinct, MisreadLedger, Checked, Source, IsDeed, OpAt, Matured, ReadRight, Ins;
    MisreadLinked(name, chain, height, hash);
    MisreadDeeds(name, height, hash);
    MisreadAccepted(name, chain, height, hash, scale);
  }

  lemma MisreadLinked(name: Name, chain: seq<BlockPos>, height: nat, hash: Hash160)
    requires height < |chain|
    ensures var l := MisreadLedger(name, height, hash);
      |l| == 4 && Matured(l, height) && forall t :: 0 <= t < 4 ==> l[t].height < |chain| && SpendsEarlier(l, t)
  {
    hide ScriptOf, EncryptedArgs;
  }

  lemma MisreadDeeds(name: Name, height: nat, hash: Hash160)
    ensures var l, o, p := MisreadLedger(name, height, hash), OutPoint(3, 0), OutPoint(1, 0);
      && |l| == 4
      && IsDeed(l, o) && OpAt(l, o) == OP_RELAY && IsDeed(l, p) && OpAt(l, p) == OP_ENCRYPTED && Checked(l, p)
      && ArgsAt(l, p) == EncryptedArgs(name, hash)
      && Ins(l, 3) == [ScriptAt(l, p), OPENER] && Source(l, 3) == Some(p) && !ReadRight(Ins(l, 3)) && !Checked(l, o)
  {
    hide IsAlias, Opens, ScriptOf, FirstAlias, LastOp, ReadRight, EncryptedArgs;
    var l := MisreadLedger(name, height, hash);
    var args := EncryptedArgs(name, hash);
    var e, r := ScriptOf(OP_ENCRYPTED, args), ScriptOf(OP_RELAY, RelayArgs(name));
    EncryptedArgsAre(name, hash);
    ScriptOfIs(OP_ENCRYPTED, args);
    OneScript(e);
    ScriptOfIs(OP_RELAY, RelayArgs(name));
    OneScript(r);
    assert Ins(l, 3) == [e, OPENER];
    MisreadScripts(e);
  }

  lemma MisreadScripts(e: Script)
    requires IsAlias(e) && OpOf(e) == OP_ENCRYPTED
    ensures var s := [e, OPENER];
      AtMostOne(s) && FirstAlias(s) == 0 && LastOp(s) == OP_SET && !ReadRight(s)
  {
    hide IsAlias, Opens;
    OpenerIs();
  }

  lemma MisreadAccepted(name: Name, chain: seq<BlockPos>, height: nat, hash: Hash160, scale: nat)
    requires |name| <= MAX_LOCATOR_LENGTH && height < |chain| && scale > 0
    ensures var l := MisreadLedger(name, height, hash);
      forall t :: 0 <= t < 4 ==> SpendsEarlier(l, t) && AcceptedAt(l, chain, t, hash, scale)
  {
    hide IsAlias, ScriptOf, Connects, SpendsEarlier, EncryptedArgs;
    var l := MisreadLedger(name, height, hash);
    MisreadLinked(name, chain, height, hash);
    EncryptedArgsAre(name, hash);
    EncryptedAccepted(l, chain, 1, EncryptedArgs(name, hash), OutPoint(0, 0), height, 0, hash, scale);
    MisreadConnects(name, chain, height, hash, scale);
  }

  lemma MisreadConnects(name: Name, chain: seq<BlockPos>, height: nat, hash: Hash160, scale: nat)
    requires |name| <= MAX_LOCATOR_LENGTH && height < |chain| && scale > 0
    ensures var l := MisreadLedger(name, height, hash); SpendsEarlier(l, 3) && AcceptedAt(l, chain, 3, hash, scale)
  {
    hide IsAlias, Opens, ScriptOf, FirstAlias, LastOp, Within, AtMostOne, SpendsEarlier, ScriptAt, ReadRight,
         EncryptedArgs;
    var l := MisreadLedger(name, height, hash);
    MisreadLinked(name, chain, height, hash);
    MisreadDeeds(name, height, hash);
    EncryptedArgsAre(name, hash);
    MisreadScripts(ScriptAt(l, OutPoint(1, 0)));
    AliasOpens(ScriptAt(l, OutPoint(1, 0)));
    SameBlockWithin(chain, height, scale);
    var args := RelayArgs(name);
    ScriptOfIs(OP_RELAY, args);
    OneScript(ScriptOf(OP_RELAY, args));
    var at := SpentBy(l, chain, 3)[0].at;
    assert BlockOf(at) == chain[height];
    assert RelayConnects(args, OP_SET, EncryptedArgs(name, hash), at, chain, height, InBlock, map[], scale);
  }
}
