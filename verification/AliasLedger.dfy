/** What `ConnectInputsPost` (src/dions.cpp) guarantees about the aliases of a whole chain: where
    a SET or RELAY comes from, in every ledger that it accepted, and how far that goes. */
module AliasLedger {
  import opened Options
  import opened AliasIndex
  import opened AliasChain

  /** An output of a transaction of the ledger. */
  datatype OutPoint = OutPoint(tx: nat, n: nat)

  /** A transaction at position `at` of the block at some height, with the outside verdicts it
      met. `minted` marks a coinbase, which has no inputs here, or a coinstake. */
  datatype Placed = Placed(
    dion: bool,
    minted: bool,
    vin: seq<OutPoint>,
    vout: seq<Script>,
    height: nat,
    at: nat,
    outside: Outside)

  /** The transactions of a chain in the order of their blocks. */
  type Ledger = seq<Placed>

  // ---------------------------------------------------------------- ledgers

  /** The inputs are existing outputs of transactions before the `t`-th. */
  predicate SpendsEarlier(l: Ledger, t: nat)
    requires t < |l|
  {
    forall i :: 0 <= i < |l[t].vin| ==>
      var p := l[t].vin[i];
      p.tx < t && p.n < |l[p.tx].vout| && l[p.tx].height <= l[t].height
  }

  predicate Linked(l: Ledger, chain: seq<BlockPos>) {
    && Distinct(chain)
    && (forall t :: 0 <= t < |l| ==> l[t].height < |chain| && SpendsEarlier(l, t))
  }

  /** The script of an output, if there is such an output. */
  function ScriptAt(l: Ledger, o: OutPoint): Script {
    if o.tx < |l| && o.n < |l[o.tx].vout| then l[o.tx].vout[o.n] else []
  }

  /** The scripts that a transaction spends. */
  function Ins(l: Ledger, t: nat): (r: seq<Script>)
    requires t < |l|
    ensures |r| == |l[t].vin| && forall i :: 0 <= i < |r| ==> r[i] == ScriptAt(l, l[t].vin[i])
  {
    seq(|l[t].vin|, i requires 0 <= i < |l[t].vin| => ScriptAt(l, l[t].vin[i]))
  }

  function SpentBy(l: Ledger, chain: seq<BlockPos>, t: nat): (r: seq<Spent>)
    requires t < |l| && SpendsEarlier(l, t) && l[t].height < |chain|
    ensures |r| == |l[t].vin| && Scripts(r) == Ins(l, t)
    ensures forall i :: 0 <= i < |r| ==>
      l[t].vin[i].tx < |l| && l[l[t].vin[i].tx].height < |chain| && r[i].at == PlaceOf(l, chain, l[t].vin[i].tx)
  {
    seq(|l[t].vin|, i requires 0 <= i < |l[t].vin| =>
      Spent(ScriptAt(l, l[t].vin[i]), PlaceOf(l, chain, l[t].vin[i].tx)))
  }

  /** Where a transaction is on disk. */
  function PlaceOf(l: Ledger, chain: seq<BlockPos>, t: nat): (at: Pos)
    requires t < |l| && l[t].height < |chain|
    ensures BlockOf(at) == chain[l[t].height]
  {
    Pos(chain[l[t].height].file, chain[l[t].height].pos, l[t].at)
  }

  /** The transaction was accepted in its block: `ConnectInputs` asks `ConnectInputsPost` about
      all transactions but coinbases and coinstakes. */
  predicate AcceptedAt(l: Ledger, chain: seq<BlockPos>, t: nat, hash: Hash160, scale: nat)
    requires t < |l| && SpendsEarlier(l, t) && l[t].height < |chain|
  {
    l[t].dion && !l[t].minted ==>
      Connects(SpentBy(l, chain, t), l[t].vout, chain, l[t].height, InBlock, l[t].outside, map[], hash, scale)
  }

  predicate Accepted(l: Ledger, chain: seq<BlockPos>, hash: Hash160, scale: nat) {
    && Linked(l, chain)
    && (forall t :: 0 <= t < |l| ==> AcceptedAt(l, chain, t, hash, scale))
  }

  lemma AcceptedFacts(l: Ledger, chain: seq<BlockPos>, t: nat, hash: Hash160, scale: nat)
    requires Accepted(l, chain, hash, scale) && t < |l|
    ensures Distinct(chain) && l[t].height < |chain| && SpendsEarlier(l, t) && AcceptedAt(l, chain, t, hash, scale)
  {
    hide Connects, Distinct;
  }

  // ---------------------------------------------------------------- deeds

  /** An output that carries an alias operation. */
  predicate IsDeed(l: Ledger, o: OutPoint) {
    IsAlias(ScriptAt(l, o))
  }

  function OpAt(l: Ledger, o: OutPoint): nat
    requires IsDeed(l, o)
  {
    OpOf(ScriptAt(l, o))
  }

  function ArgsAt(l: Ledger, o: OutPoint): (args: seq<Bytes>)
    requires IsDeed(l, o)
    ensures Arity(OpAt(l, o), |args|)
  {
    ArgsOf(ScriptAt(l, o))
  }

  lemma DeedExists(l: Ledger, o: OutPoint)
    ensures IsDeed(l, o) ==> o.tx < |l| && o.n < |l[o.tx].vout| && ScriptAt(l, o) == l[o.tx].vout[o.n]
  {
  }

  predicate Names(op: nat) {
    op == OP_SET || op == OP_RELAY
  }

  /** The operation read from some scripts is that of their first alias script. */
  predicate ReadRight(scripts: seq<Script>) {
    var k := FirstAlias(scripts);
    k < |scripts| ==> LastOp(scripts) == OpOf(scripts[k])
  }

  /** `ConnectInputsPost` looked at the deed as what it is: it looks only at DION transactions
      that are no coinbase or coinstake, and takes the operation from the last output, and the
      spent operation from the last input, that start like an alias script. */
  predicate Checked(l: Ledger, o: OutPoint)
    requires IsDeed(l, o)
  {
    DeedExists(l, o);
    && l[o.tx].dion && !l[o.tx].minted
    && LastOp(l[o.tx].vout) == OpAt(l, o)
    && (Names(OpAt(l, o)) ==> ReadRight(Ins(l, o.tx)))
  }

  /** The deed that a transaction spends, if any: the first of its alias inputs. */
  function Source(l: Ledger, t: nat): (p: Option<OutPoint>)
    requires t < |l|
    ensures p.Some? ==> IsDeed(l, p.value) && p.value in l[t].vin
  {
    var k := FirstAlias(Ins(l, t));
    if k < |l[t].vin| then Some(l[t].vin[k]) else None
  }

  /** What links a SET to the ENCRYPTED output it spends: a strictly later block, the same owner
      field, and the commitment opened. */
  ghost predicate Commits(l: Ledger, o: OutPoint, p: OutPoint, hash: Hash160) {
    && IsDeed(l, o) && IsDeed(l, p) && OpAt(l, o) == OP_SET && OpAt(l, p) == OP_ENCRYPTED
    && o.tx < |l| && p.tx < o.tx && l[p.tx].height < l[o.tx].height
    && ArgsAt(l, p)[2] == ArgsAt(l, o)[2]
    && hash(ArgsAt(l, o)[3] + ArgsAt(l, o)[0])
       == (var c := ArgsAt(l, p)[3]; if |c| == 20 then c else seq(20, _ => 0))
  }

  /** What links a RELAY to the SET or RELAY it spends: the same name, and less than a lifetime
      between their blocks. */
  ghost predicate Renews(l: Ledger, o: OutPoint, p: OutPoint, scale: nat) {
    && IsDeed(l, o) && IsDeed(l, p) && OpAt(l, o) == OP_RELAY && Names(OpAt(l, p))
    && o.tx < |l| && p.tx < o.tx
    && ArgsAt(l, p)[0] == ArgsAt(l, o)[0]
    && 0 <= l[o.tx].height - l[p.tx].height < scale
  }

  /** A checked deed of an accepted ledger: its transaction has no other alias output, at most one
      alias input, and met the conditions of its operation. */
  lemma CheckedMeans(l: Ledger, chain: seq<BlockPos>, o: OutPoint, hash: Hash160, scale: nat)
    requires Accepted(l, chain, hash, scale) && IsDeed(l, o) && Checked(l, o)
    ensures o.tx < |l| && SpendsEarlier(l, o.tx) && l[o.tx].height < |chain| && Distinct(chain)
    ensures AtMostOne(l[o.tx].vout) && AtMostOne(Ins(l, o.tx)) && o.n == FirstAlias(l[o.tx].vout) < |l[o.tx].vout|
    ensures LastOp(l[o.tx].vout) == OpAt(l, o)
    ensures var x := l[o.tx];
      Connects(SpentBy(l, chain, o.tx), x.vout, chain, x.height, InBlock, x.outside, map[], hash, scale)
    ensures Names(OpAt(l, o)) ==> ReadRight(Ins(l, o.tx))
  {
    hide IsAlias, Opens, FirstAlias, LastOp, SetConnects, RelayConnects, Accepted, SpendsEarlier;
    DeedExists(l, o);
    AcceptedFacts(l, chain, o.tx, hash, scale);
  }

  // ---------------------------------------------------------------- what is demanded of one deed

  /** The address that must have signed an ENCRYPTED: its own owner field, unless it spends an
      alias with arguments. */
  ghost function Signer(l: Ledger, o: OutPoint): Bytes
    requires IsDeed(l, o) && o.tx < |l| && OpAt(l, o) == OP_ENCRYPTED
  {
    match Source(l, o.tx)
    case None => ArgsAt(l, o)[2]
    case Some(p) => if ArgsAt(l, p) == [] then ArgsAt(l, o)[2] else Arg(ArgsAt(l, p), 2)
  }

  /** An ENCRYPTED is signed with its hash and its other fields, a SET by its owner with its name. */
  ghost predicate Signed(l: Ledger, o: OutPoint)
    requires IsDeed(l, o)
  {
    && o.tx < |l|
    && var args, verifies := ArgsAt(l, o), l[o.tx].outside.verifies;
       && (OpAt(l, o) == OP_ENCRYPTED ==> verifies(Signer(l, o), args[1], [args[0], args[3], args[4], args[5]]))
       && (OpAt(l, o) == OP_SET ==> verifies(args[2], args[1], [args[0]]))
  }

  ghost predicate InLimits(l: Ledger, o: OutPoint)
    requires IsDeed(l, o)
  {
    var op, args := OpAt(l, o), ArgsAt(l, o);
    && (args != [] ==> |args[0]| <= MAX_LOCATOR_LENGTH)
    && (op == OP_ENCRYPTED ==> |args[3]| == 20)
    && (op == OP_SET ==> |args[3]| <= 20 && |args[2]| <= MAX_XUNIT_LENGTH)
    && (op == OP_RELAY ==> |args[1]| <= MAX_XUNIT_LENGTH)
  }

  /** The deed follows from the alias it spends. */
  ghost predicate Follows(l: Ledger, o: OutPoint, hash: Hash160, scale: nat)
    requires IsDeed(l, o) && o.tx < |l|
  {
    && (OpAt(l, o) == OP_SET ==> Source(l, o.tx).Some? && Commits(l, o, Source(l, o.tx).value, hash))
    && (OpAt(l, o) == OP_RELAY ==> Source(l, o.tx).Some? && Renews(l, o, Source(l, o.tx).value, scale))
  }

  /** All that is demanded of a deed: it is signed, within the limits, and follows from what it
      spends; ENCRYPTEDs, messages and keys pass their own checks. */
  ghost predicate Proper(l: Ledger, o: OutPoint, hash: Hash160, scale: nat)
    requires IsDeed(l, o)
  {
    && Signed(l, o) && InLimits(l, o) && Follows(l, o, hash, scale)
    && (!Names(OpAt(l, o)) ==> l[o.tx].outside.otherAccepts)
  }

  /** The arguments of the alias that a transaction spends. */
  ghost function SpentArgs(l: Ledger, t: nat): seq<Bytes>
    requires t < |l|
  {
    match Source(l, t)
    case None => []
    case Some(p) => ArgsAt(l, p)
  }

  /** What `ConnectInputsPost` asks about a checked deed, in terms of the ledger. */
  lemma AcceptedAsks(l: Ledger, chain: seq<BlockPos>, o: OutPoint, hash: Hash160, scale: nat)
    requires Linked(l, chain) && IsDeed(l, o) && Checked(l, o)
    requires o.tx < |l| && AtMostOne(l[o.tx].vout) && AtMostOne(Ins(l, o.tx))
    ensures SpendsEarlier(l, o.tx) && l[o.tx].height < |chain|
    ensures Source(l, o.tx).Some? ==>
      var p := Source(l, o.tx).value;
      && IsDeed(l, p) && p.tx < o.tx && l[p.tx].height <= l[o.tx].height && l[p.tx].height < |chain|
      && (Names(OpAt(l, o)) ==> LastOp(Ins(l, o.tx)) == OpAt(l, p))
    ensures AcceptedAt(l, chain, o.tx, hash, scale)
      <==>
      var args, prev, x, last := ArgsAt(l, o), SpentArgs(l, o.tx), l[o.tx], LastOp(Ins(l, o.tx));
      && |Arg(args, 0)| <= MAX_LOCATOR_LENGTH
      && match OpAt(l, o)
         case 1 => EncryptedConnects(args, prev, x.outside)
         case 2 => Source(l, o.tx).Some? && SetConnects(args, last, prev,
                     PlaceOf(l, chain, Source(l, o.tx).value.tx), chain, x.height, InBlock, x.outside, hash, scale)
         case 3 => Source(l, o.tx).Some? && RelayConnects(args, last, prev,
                     PlaceOf(l, chain, Source(l, o.tx).value.tx), chain, x.height, InBlock, map[], scale)
         case op => OtherOp(op) && x.outside.otherAccepts
  {
    hide IsAlias, Opens, LastOp, SetConnects, RelayConnects, EncryptedConnects, OtherOp;
    DeedExists(l, o);
    assert FirstAlias(l[o.tx].vout) == o.n;
  }

  lemma EncryptedExactly(l: Ledger, chain: seq<BlockPos>, o: OutPoint, hash: Hash160, scale: nat)
    requires Linked(l, chain) && IsDeed(l, o) && Checked(l, o) && OpAt(l, o) == OP_ENCRYPTED
    requires o.tx < |l| && AtMostOne(l[o.tx].vout) && AtMostOne(Ins(l, o.tx))
    ensures SpendsEarlier(l, o.tx) && l[o.tx].height < |chain|
    ensures AcceptedAt(l, chain, o.tx, hash, scale) <==> Proper(l, o, hash, scale)
  {
    hide IsAlias, AcceptedAt, AtMostOne, SpendsEarlier, Linked, Checked, Source;
    AcceptedAsks(l, chain, o, hash, scale);
  }

  lemma SetExactly(l: Ledger, chain: seq<BlockPos>, o: OutPoint, hash: Hash160, scale: nat)
    requires Linked(l, chain) && IsDeed(l, o) && Checked(l, o) && OpAt(l, o) == OP_SET
    requires o.tx < |l| && AtMostOne(l[o.tx].vout) && AtMostOne(Ins(l, o.tx))
    ensures SpendsEarlier(l, o.tx) && l[o.tx].height < |chain|
    ensures AcceptedAt(l, chain, o.tx, hash, scale) <==> Proper(l, o, hash, scale)
  {
    hide IsAlias, AcceptedAt, AtMostOne, SpendsEarlier, Checked, Source, Within, LastOp, Opens;
    AcceptedAsks(l, chain, o, hash, scale);
    if Source(l, o.tx).Some? {
      var p := Source(l, o.tx).value;
      DepthIsDifference(chain, l[o.tx].height, l[p.tx].height, MIN_SET_DEPTH, 0);
    }
  }

  lemma RelayExactly(l: Ledger, chain: seq<BlockPos>, o: OutPoint, hash: Hash160, scale: nat)
    requires Linked(l, chain) && IsDeed(l, o) && Checked(l, o) && OpAt(l, o) == OP_RELAY
    requires o.tx < |l| && AtMostOne(l[o.tx].vout) && AtMostOne(Ins(l, o.tx))
    ensures SpendsEarlier(l, o.tx) && l[o.tx].height < |chain|
    ensures AcceptedAt(l, chain, o.tx, hash, scale) <==> Proper(l, o, hash, scale)
  {
    hide IsAlias, AcceptedAt, AtMostOne, SpendsEarlier, Checked, Source, Within, LastOp, Opens;
    AcceptedAsks(l, chain, o, hash, scale);
    if Source(l, o.tx).Some? {
      var p := Source(l, o.tx).value;
      DepthIsDifference(chain, l[o.tx].height, l[p.tx].height, scale, 0);
    }
  }

  lemma OtherExactly(l: Ledger, chain: seq<BlockPos>, o: OutPoint, hash: Hash160, scale: nat)
    requires Linked(l, chain) && IsDeed(l, o) && Checked(l, o) && OpAt(l, o) !in {1, 2, 3}
    requires o.tx < |l| && AtMostOne(l[o.tx].vout) && AtMostOne(Ins(l, o.tx))
    ensures SpendsEarlier(l, o.tx) && l[o.tx].height < |chain|
    ensures AcceptedAt(l, chain, o.tx, hash, scale) <==> Proper(l, o, hash, scale)
  {
    hide IsAlias, AcceptedAt, AtMostOne, SpendsEarlier, Checked, Source, Linked, LastOp, Opens;
    AcceptedAsks(l, chain, o, hash, scale);
  }

  /** The transaction of a checked deed is accepted exactly when the deed is proper, the only one,
      and spends at most one alias. */
  lemma CheckedExactly(l: Ledger, chain: seq<BlockPos>, o: OutPoint, hash: Hash160, scale: nat)
    requires Linked(l, chain) && IsDeed(l, o) && Checked(l, o)
    ensures o.tx < |l| && SpendsEarlier(l, o.tx) && l[o.tx].height < |chain|
    ensures AcceptedAt(l, chain, o.tx, hash, scale)
      <==> AtMostOne(l[o.tx].vout) && AtMostOne(Ins(l, o.tx)) && Proper(l, o, hash, scale)
  {
    hide IsAlias, Opens, FirstAlias, LastOp, SetConnects, RelayConnects, EncryptedConnects, Proper, SpendsEarlier;
    DeedExists(l, o);
    if AtMostOne(l[o.tx].vout) && AtMostOne(Ins(l, o.tx)) {
      match OpAt(l, o)
      case 1 => EncryptedExactly(l, chain, o, hash, scale);
      case 2 => SetExactly(l, chain, o, hash, scale);
      case 3 => RelayExactly(l, chain, o, hash, scale);
      case _ => OtherExactly(l, chain, o, hash, scale);
    }
  }

  /** In an accepted ledger every checked deed is proper. */
  lemma CheckedProper(l: Ledger, chain: seq<BlockPos>, o: OutPoint, hash: Hash160, scale: nat)
    requires Accepted(l, chain, hash, scale) && IsDeed(l, o) && Checked(l, o)
    ensures o.tx < |l| && Proper(l, o, hash, scale)
  {
    hide AcceptedAt, AtMostOne, SpendsEarlier, Proper, Checked;
    CheckedExactly(l, chain, o, hash, scale);
  }

  /** A checked SET is signed by its owner and spends an ENCRYPTED output of a strictly earlier
      block, with the same owner field and a commitment to its random value and its name. */
  lemma SetStep(l: Ledger, chain: seq<BlockPos>, o: OutPoint, hash: Hash160, scale: nat)
    requires Accepted(l, chain, hash, scale) && IsDeed(l, o) && Checked(l, o) && OpAt(l, o) == OP_SET
    ensures o.tx < |l| && Source(l, o.tx).Some? && Commits(l, o, Source(l, o.tx).value, hash)
    ensures var args := ArgsAt(l, o); l[o.tx].outside.verifies(args[2], args[1], [args[0]])
  {
    hide IsAlias, Accepted, Checked, Source, Commits;
    CheckedProper(l, chain, o, hash, scale);
  }

  /** A checked RELAY spends an unexpired SET or RELAY of the same name. */
  lemma RelayStep(l: Ledger, chain: seq<BlockPos>, o: OutPoint, hash: Hash160, scale: nat)
    requires Accepted(l, chain, hash, scale) && IsDeed(l, o) && Checked(l, o) && OpAt(l, o) == OP_RELAY
    ensures o.tx < |l| && Source(l, o.tx).Some? && Renews(l, o, Source(l, o.tx).value, scale)
  {
    hide IsAlias, Accepted, Checked, Source, Renews;
    CheckedProper(l, chain, o, hash, scale);
  }

  /** A checked SET or RELAY follows from its source as its operation demands. */
  lemma CheckedFollows(l: Ledger, chain: seq<BlockPos>, o: OutPoint, hash: Hash160, scale: nat)
    requires Accepted(l, chain, hash, scale) && IsDeed(l, o) && Checked(l, o) && Names(OpAt(l, o))
    ensures o.tx < |l| && Source(l, o.tx).Some?
    ensures OpAt(l, o) == OP_SET ==> Commits(l, o, Source(l, o.tx).value, hash)
    ensures OpAt(l, o) == OP_RELAY ==> Renews(l, o, Source(l, o.tx).value, scale)
  {
    hide IsAlias, Accepted, Checked, Commits, Renews, Source;
    CheckedProper(l, chain, o, hash, scale);
  }

  lemma LinkMeans(l: Ledger, o: OutPoint, p: OutPoint, hash: Hash160, scale: nat)
    ensures Commits(l, o, p, hash) || Renews(l, o, p, scale) ==> p.tx < o.tx < |l| && IsDeed(l, p) && IsDeed(l, o)
    ensures Commits(l, o, p, hash) ==> OpAt(l, o) == OP_SET && OpAt(l, p) == OP_ENCRYPTED
    ensures Renews(l, o, p, scale) ==> OpAt(l, o) == OP_RELAY && Names(OpAt(l, p))
    ensures Reveals(l, o, p, hash) ==> Commits(l, o, p, hash) && |ArgsAt(l, p)[3]| == 20
    ensures Commits(l, o, p, hash) && |ArgsAt(l, p)[3]| == 20 ==> Reveals(l, o, p, hash)
  {
    hide IsAlias;
  }

  // ---------------------------------------------------------------- provenance

  /** The way back from a deed: through sources, as long as the deeds are SETs and RELAYs. */
  ghost function Walk(l: Ledger, o: OutPoint): (path: seq<OutPoint>)
    requires (forall t :: 0 <= t < |l| ==> SpendsEarlier(l, t)) && IsDeed(l, o)
    ensures path != [] && path[|path| - 1] == o && forall k :: 0 <= k < |path| ==> IsDeed(l, path[k])
    decreases o.tx
  {
    DeedExists(l, o);
    if Names(OpAt(l, o)) && Source(l, o.tx).Some? then
      assert SpendsEarlier(l, o.tx);
      Walk(l, Source(l, o.tx).value) + [o]
    else [o]
  }

  /** A SET opens the commitment of the ENCRYPTED output it spends. */
  ghost predicate Reveals(l: Ledger, o: OutPoint, p: OutPoint, hash: Hash160) {
    Commits(l, o, p, hash) && ArgsAt(l, p)[3] == hash(ArgsAt(l, o)[3] + ArgsAt(l, o)[0])
  }

  /** The deed at `k` spends the one before it: the first one an ENCRYPTED that it opens, any later
      one a deed of the same name that it renews. */
  ghost predicate Continues(l: Ledger, path: seq<OutPoint>, k: nat, hash: Hash160, scale: nat)
    requires 0 < k < |path|
  {
    && path[k].tx < |l| && path[k - 1] in l[path[k].tx].vin
    && (if k == 1 then Reveals(l, path[k], path[k - 1], hash) else Renews(l, path[k], path[k - 1], scale))
  }

  /** The history of an alias: an ENCRYPTED, the SET that opens it, then RELAYs of the name. */
  ghost predicate Title(l: Ledger, path: seq<OutPoint>, hash: Hash160, scale: nat) {
    |path| >= 2 && forall k :: 0 < k < |path| ==> Continues(l, path, k, hash, scale)
  }

  /** A title whose deeds were all checked. */
  ghost predicate CheckedTitle(l: Ledger, path: seq<OutPoint>, hash: Hash160, scale: nat) {
    Title(l, path, hash, scale) && forall k :: 0 <= k < |path| ==> IsDeed(l, path[k]) && Checked(l, path[k])
  }

  /** What a deed on the way back owes when it was not checked: at the start it is an ENCRYPTED with
      a hash for a commitment, later it continues the way. */
  ghost predicate Vouched(l: Ledger, path: seq<OutPoint>, k: nat, hash: Hash160, scale: nat)
    requires k < |path|
  {
    if k == 0 then IsDeed(l, path[0]) && OpAt(l, path[0]) == OP_ENCRYPTED && |ArgsAt(l, path[0])[3]| == 20
    else Continues(l, path, k, hash, scale)
  }

  lemma AcceptedSpends(l: Ledger, chain: seq<BlockPos>, hash: Hash160, scale: nat)
    requires Accepted(l, chain, hash, scale)
    ensures forall t :: 0 <= t < |l| ==> SpendsEarlier(l, t)
  {
    hide SpendsEarlier, Connects;
  }

  /** Every deed on the way back but the first is a SET or RELAY that spends the one before it. */
  lemma {:induction false} WalkSteps(l: Ledger, o: OutPoint, k: nat)
    requires (forall t :: 0 <= t < |l| ==> SpendsEarlier(l, t)) && IsDeed(l, o)
    requires k < |Walk(l, o)|
    ensures var path := Walk(l, o);
      && path[k].tx < |l|
      && (if k > 0 then Names(OpAt(l, path[k])) && Source(l, path[k].tx) == Some(path[k - 1])
          else !Names(OpAt(l, path[0])) || Source(l, path[0].tx) == None)
    decreases o.tx
  {
    hide IsDeed, Source, SpendsEarlier;
    DeedExists(l, o);
    if Names(OpAt(l, o)) && Source(l, o.tx).Some? {
      var p := Source(l, o.tx).value;
      assert p.tx < o.tx by {
        SourceEarlier(l, o.tx);
      }
      if k < |Walk(l, p)| {
        WalkSteps(l, p, k);
      } else {
        assert Walk(l, o)[k - 1] == p;
      }
    }
  }

  lemma SourceEarlier(l: Ledger, t: nat)
    requires t < |l| && SpendsEarlier(l, t) && Source(l, t).Some?
    ensures Source(l, t).value.tx < t
  {
    hide IsAlias;
  }

  /** A checked deed on the way back in an accepted ledger spends the one before it as its operation
      demands; if it is the first, it is neither SET nor RELAY. */
  lemma WalkFollows(l: Ledger, chain: seq<BlockPos>, o: OutPoint, k: nat, hash: Hash160, scale: nat)
    requires Accepted(l, chain, hash, scale) && IsDeed(l, o)
    requires (forall t :: 0 <= t < |l| ==> SpendsEarlier(l, t)) && k < |Walk(l, o)|
    ensures var path := Walk(l, o);
      Checked(l, path[k]) ==>
        if k == 0 then !Names(OpAt(l, path[0]))
        else Commits(l, path[k], path[k - 1], hash) || Renews(l, path[k], path[k - 1], scale)
  {
    hide Accepted, Checked, Commits, Renews, IsDeed, Source, SpendsEarlier, Walk;
    var path := Walk(l, o);
    WalkSteps(l, o, k);
    if Checked(l, path[k]) && Names(OpAt(l, path[k])) {
      CheckedFollows(l, chain, path[k], hash, scale);
    }
  }

  /** Where a SET or RELAY comes from, in every accepted ledger. On the way back each deed spends
      the one before it, and a checked one as its operation demands. The way is a title exactly
      when every deed on it that was not checked does so too. */
  lemma Provenance(l: Ledger, chain: seq<BlockPos>, o: OutPoint, hash: Hash160, scale: nat)
    requires Accepted(l, chain, hash, scale) && IsDeed(l, o) && Names(OpAt(l, o))
    ensures forall t :: 0 <= t < |l| ==> SpendsEarlier(l, t)
    ensures var path := Walk(l, o);
      && path[|path| - 1] == o
      && (forall k :: 0 < k < |path| ==> path[k].tx < |l| && Source(l, path[k].tx) == Some(path[k - 1]))
      && (forall k :: 0 < k < |path| && Checked(l, path[k]) ==>
            Commits(l, path[k], path[k - 1], hash) || Renews(l, path[k], path[k - 1], scale))
      && (Title(l, path, hash, scale)
          <==> forall k :: 0 <= k < |path| && !Checked(l, path[k]) ==> Vouched(l, path, k, hash, scale))
  {
    hide Accepted, Checked, Commits, Renews, Reveals, IsDeed, Walk, SpendsEarlier, Source, Title, Continues, Vouched;
    AcceptedSpends(l, chain, hash, scale);
    var path := Walk(l, o);
    forall k | 0 < k < |path|
      ensures path[k].tx < |l| && Source(l, path[k].tx) == Some(path[k - 1])
      ensures Checked(l, path[k]) ==>
                Commits(l, path[k], path[k - 1], hash) || Renews(l, path[k], path[k - 1], scale)
    {
      WalkSteps(l, o, k);
      WalkFollows(l, chain, o, k, hash, scale);
    }
    if Title(l, path, hash, scale) {
      TitleVouches(l, path, hash, scale);
    }
    if forall k :: 0 <= k < |path| && !Checked(l, path[k]) ==> Vouched(l, path, k, hash, scale) {
      VouchedIsTitle(l, chain, o, hash, scale);
    }
  }

  lemma TitleVouches(l: Ledger, path: seq<OutPoint>, hash: Hash160, scale: nat)
    requires Title(l, path, hash, scale)
    ensures forall k :: 0 <= k < |path| ==> Vouched(l, path, k, hash, scale)
  {
    hide Commits, Renews, Reveals, IsDeed;
    assert Continues(l, path, 1, hash, scale);
    LinkMeans(l, path[1], path[0], hash, scale);
  }

  lemma VouchedIsTitle(l: Ledger, chain: seq<BlockPos>, o: OutPoint, hash: Hash160, scale: nat)
    requires Accepted(l, chain, hash, scale) && IsDeed(l, o) && Names(OpAt(l, o))
    requires forall t :: 0 <= t < |l| ==> SpendsEarlier(l, t)
    requires var path := Walk(l, o);
      forall k :: 0 <= k < |path| && !Checked(l, path[k]) ==> Vouched(l, path, k, hash, scale)
    ensures Title(l, Walk(l, o), hash, scale)
  {
    hide Accepted, Checked, Commits, Renews, Reveals, IsDeed, Walk, SpendsEarlier, Source, Continues;
    var path := Walk(l, o);
    WalkFollows(l, chain, o, 0, hash, scale);
    StartIsNoName(l, chain, o, hash, scale);
    assert |path| >= 2;
    forall k | 0 < k < |path| ensures Continues(l, path, k, hash, scale) {
      WalkContinues(l, chain, o, k, hash, scale);
    }
  }

  lemma StartIsNoName(l: Ledger, chain: seq<BlockPos>, o: OutPoint, hash: Hash160, scale: nat)
    requires Accepted(l, chain, hash, scale) && IsDeed(l, o)
    requires forall t :: 0 <= t < |l| ==> SpendsEarlier(l, t)
    requires var path := Walk(l, o); !Checked(l, path[0]) ==> Vouched(l, path, 0, hash, scale)
    ensures !Names(OpAt(l, Walk(l, o)[0]))
  {
    hide Accepted, Checked, IsDeed, Walk, SpendsEarlier, Source;
    WalkFollows(l, chain, o, 0, hash, scale);
  }

  lemma WalkContinues(l: Ledger, chain: seq<BlockPos>, o: OutPoint, k: nat, hash: Hash160, scale: nat)
    requires Accepted(l, chain, hash, scale) && IsDeed(l, o)
    requires forall t :: 0 <= t < |l| ==> SpendsEarlier(l, t)
    requires 0 < k < |Walk(l, o)| && !Names(OpAt(l, Walk(l, o)[0]))
    requires var path := Walk(l, o);
      && (!Checked(l, path[0]) ==> Vouched(l, path, 0, hash, scale))
      && (!Checked(l, path[k]) ==> Vouched(l, path, k, hash, scale))
    ensures Continues(l, Walk(l, o), k, hash, scale)
  {
    hide Accepted, Checked, Commits, Renews, Reveals, IsDeed, Walk, SpendsEarlier, Source;
    var path := Walk(l, o);
    WalkSteps(l, o, k);
    WalkSteps(l, o, k - 1);
    WalkFollows(l, chain, o, k, hash, scale);
    LinkMeans(l, path[k], path[k - 1], hash, scale);
    SourceSpent(l, path[k].tx);
    if k == 1 && Checked(l, path[1]) && Checked(l, path[0]) {
      CheckedProper(l, chain, path[0], hash, scale);
    }
  }

  lemma SourceSpent(l: Ledger, t: nat)
    requires t < |l| && Source(l, t).Some?
    ensures Source(l, t).value in l[t].vin
  {
  }

  /** So when all deeds on the way back were checked, it is a title. */
  lemma CheckedProvenance(l: Ledger, chain: seq<BlockPos>, o: OutPoint, hash: Hash160, scale: nat)
    requires Accepted(l, chain, hash, scale) && IsDeed(l, o) && Names(OpAt(l, o))
    ensures forall t :: 0 <= t < |l| ==> SpendsEarlier(l, t)
    ensures (forall k :: 0 <= k < |Walk(l, o)| ==> Checked(l, Walk(l, o)[k]))
            ==> CheckedTitle(l, Walk(l, o), hash, scale)
  {
    hide Accepted, Checked, IsDeed, Walk, SpendsEarlier, Title, Source, Commits, Renews;
    Provenance(l, chain, o, hash, scale);
  }

  /** Who signed a title whose deeds were checked: the owner named in the ENCRYPTED signed the
      name in the SET, and all deeds are proper. */
  lemma TitleSigned(l: Ledger, chain: seq<BlockPos>, path: seq<OutPoint>, hash: Hash160, scale: nat)
    requires Accepted(l, chain, hash, scale) && CheckedTitle(l, path, hash, scale)
    ensures forall k :: 0 <= k < |path| ==> path[k].tx < |l| && Proper(l, path[k], hash, scale)
    ensures |path| >= 2 && OpAt(l, path[0]) == OP_ENCRYPTED && OpAt(l, path[1]) == OP_SET
    ensures var owner, args := ArgsAt(l, path[0])[2], ArgsAt(l, path[1]);
      l[path[1].tx].outside.verifies(owner, args[1], [args[0]])
    ensures var args := ArgsAt(l, path[0]);
      l[path[0].tx].outside.verifies(Signer(l, path[0]), args[1], [args[0], args[3], args[4], args[5]])
  {
    hide IsAlias, Accepted, Checked, Proper, Continues, Signer;
    forall k | 0 <= k < |path| ensures path[k].tx < |l| && Proper(l, path[k], hash, scale) {
      CheckedProper(l, chain, path[k], hash, scale);
    }
    TitleDeed(l, path, 1, hash, scale);
    ProperSigned(l, path[0], hash, scale);
    ProperSigned(l, path[1], hash, scale);
    TitleOwner(l, path, hash, scale);
  }

  lemma ProperSigned(l: Ledger, o: OutPoint, hash: Hash160, scale: nat)
    requires IsDeed(l, o) && Proper(l, o, hash, scale)
    ensures Signed(l, o)
  {
  }

  lemma TitleOwner(l: Ledger, path: seq<OutPoint>, hash: Hash160, scale: nat)
    requires Title(l, path, hash, scale)
    ensures IsDeed(l, path[0]) && IsDeed(l, path[1])
    ensures OpAt(l, path[0]) == OP_ENCRYPTED && OpAt(l, path[1]) == OP_SET
    ensures ArgsAt(l, path[0])[2] == ArgsAt(l, path[1])[2]
  {
    hide IsAlias;
    assert Continues(l, path, 1, hash, scale);
  }

  /** What the deeds of a title are. */
  lemma TitleDeed(l: Ledger, path: seq<OutPoint>, k: nat, hash: Hash160, scale: nat)
    requires Title(l, path, hash, scale) && 0 < k < |path|
    ensures IsDeed(l, path[k]) && IsDeed(l, path[k - 1]) && path[k - 1].tx < path[k].tx < |l|
    ensures path[k - 1] in l[path[k].tx].vin
    ensures OpAt(l, path[k]) == if k == 1 then OP_SET else OP_RELAY
    ensures k == 1 ==> OpAt(l, path[0]) == OP_ENCRYPTED
    ensures k > 1 ==> Renews(l, path[k], path[k - 1], scale)
  {
    hide Commits, Renews, Reveals, IsDeed;
    assert Continues(l, path, k, hash, scale);
    LinkMeans(l, path[k], path[k - 1], hash, scale);
  }

  /** All deeds that renew one another carry one name. */
  lemma {:induction false} NameKept(l: Ledger, path: seq<OutPoint>, j: nat, k: nat, scale: nat)
    requires j <= k < |path| && IsDeed(l, path[j]) && Names(OpAt(l, path[j]))
    requires forall i :: j < i <= k ==> Renews(l, path[i], path[i - 1], scale)
    ensures IsDeed(l, path[k]) && Names(OpAt(l, path[k])) && ArgsAt(l, path[k]) != [] && ArgsAt(l, path[j]) != []
    ensures ArgsAt(l, path[k])[0] == ArgsAt(l, path[j])[0]
  {
    hide IsAlias;
    if j < k {
      NameKept(l, path, j, k - 1, scale);
      assert Renews(l, path[k], path[k - 1], scale);
    }
  }

  /** The transaction of a checked deed spends at most one deed. */
  lemma OneSource(l: Ledger, chain: seq<BlockPos>, o: OutPoint, p: OutPoint, hash: Hash160, scale: nat)
    requires Accepted(l, chain, hash, scale) && IsDeed(l, o) && Checked(l, o)
    requires o.tx < |l| && p in l[o.tx].vin && IsDeed(l, p)
    ensures Source(l, o.tx) == Some(p)
  {
    hide IsAlias, Accepted, Connects, LastOp;
    CheckedMeans(l, chain, o, hash, scale);
    var i :| 0 <= i < |l[o.tx].vin| && l[o.tx].vin[i] == p;
    assert IsAlias(Ins(l, o.tx)[i]);
  }

  /** And it has no other deed. */
  lemma OneDeed(l: Ledger, chain: seq<BlockPos>, o: OutPoint, p: OutPoint, hash: Hash160, scale: nat)
    requires Accepted(l, chain, hash, scale) && IsDeed(l, o) && Checked(l, o) && IsDeed(l, p) && p.tx == o.tx
    ensures p == o
  {
    hide IsAlias, Accepted, Connects, LastOp, FirstAlias;
    CheckedMeans(l, chain, o, hash, scale);
    DeedExists(l, o);
    DeedExists(l, p);
  }

  lemma TitlePrefix(l: Ledger, path: seq<OutPoint>, hash: Hash160, scale: nat)
    requires Title(l, path, hash, scale) && |path| > 2
    ensures Title(l, path[..|path| - 1], hash, scale)
  {
    hide Renews, Reveals, IsDeed;
    var p := path[..|path| - 1];
    forall k | 0 < k < |p| ensures Continues(l, p, k, hash, scale) {
      assert Continues(l, path, k, hash, scale);
    }
  }

  /** A title whose deeds were checked is the only one that ends in its last transaction, so there
      is one SET. */
  lemma {:induction false} TitleUnique(l: Ledger, chain: seq<BlockPos>, a: seq<OutPoint>, b: seq<OutPoint>,
                                       hash: Hash160, scale: nat)
    requires Accepted(l, chain, hash, scale) && CheckedTitle(l, a, hash, scale) && Title(l, b, hash, scale)
    requires a[|a| - 1].tx == b[|b| - 1].tx
    ensures a == b
    decreases |a|
  {
    hide Accepted, Checked, Continues, Renews, IsDeed, SpendsEarlier, Source;
    var m, n := |a| - 1, |b| - 1;
    TitleDeed(l, a, m, hash, scale);
    TitleDeed(l, b, n, hash, scale);
    OneDeed(l, chain, a[m], b[n], hash, scale);
    OneSource(l, chain, a[m], a[m - 1], hash, scale);
    OneSource(l, chain, a[m], b[n - 1], hash, scale);
    assert a == a[..m] + [a[m]] && b == b[..n] + [b[n]];
    if m > 1 {
      TitlePrefix(l, a, hash, scale);
      TitlePrefix(l, b, hash, scale);
      TitleUnique(l, chain, a[..m], b[..n], hash, scale);
    } else {
      assert a[..1] == [a[0]] && b[..1] == [b[0]];
    }
  }
}
