/** The alias protocol in the block chain (src/dions.cpp): what `ConnectInputsPost` demands of a
    transaction, and the methods that decide it. */
module AliasChain {
  import opened AliasIndex

  // ---------------------------------------------------------------- scripts

  const OP_PUSHDATA4 := 0x4e
  const OP_1 := 0x51
  const OP_16 := 0x60
  const OP_NOP := 0x61
  const OP_2DROP := 0x6d
  const OP_DROP := 0x75

  /** Opcodes that push no data. */
  type Opcode = n: nat | OP_PUSHDATA4 < n < 256 witness 0x75

  datatype Token = Push(data: Bytes) | Code(code: Opcode)

  /** A script as far as its operations can be read. */
  type Script = seq<Token>

  const OP_ENCRYPTED := 1
  const OP_MESSAGE := 5
  const OP_ENCRYPTED_MESSAGE := 6
  const OP_PUBLIC_KEY := 7
  const OP_VERTEX := 9
  const OP_MAP_PROJECT := 16

  /** What `aliasScript` reports: the operation is set as soon as the first opcode is read. */
  datatype Parse = Parse(ok: bool, op: nat, args: seq<Bytes>)

  /** The data of the pushes a script begins with. */
  function Pushes(s: Script): (r: seq<Bytes>)
    ensures |r| <= |s|
  {
    if s == [] || s[0].Code? then [] else [s[0].data] + Pushes(s[1..])
  }

  predicate Drops(s: Script) {
    s != [] && s[0].Code? && s[0].code in {OP_DROP, OP_2DROP, OP_NOP}
  }

  predicate Opens(s: Script) {
    s != [] && s[0].Code? && OP_1 <= s[0].code <= OP_16
  }

  function OpOf(s: Script): nat
    requires Opens(s)
  {
    s[0].code - OP_1 + 1
  }

  predicate Arity(op: nat, n: nat) {
    || (op == OP_ENCRYPTED && n == 8)
    || (op == OP_SET && n == 5)
    || (op == OP_RELAY && n == 2)
    || op in {OP_MESSAGE, OP_ENCRYPTED_MESSAGE, OP_MAP_PROJECT, OP_PUBLIC_KEY, OP_VERTEX}
  }

  function ArgsOf(s: Script): seq<Bytes>
    requires Opens(s)
  {
    Pushes(s[1..])
  }

  /** An operation, its arguments, and a drop. */
  predicate IsAlias(s: Script) {
    && Opens(s)
    && Drops(s[1 + |ArgsOf(s)|..])
    && Arity(OpOf(s), |ArgsOf(s)|)
  }

  /** `aliasScript`. */
  method AliasScript(s: Script) returns (p: Parse)
    ensures p.ok <==> IsAlias(s)
    ensures Opens(s) ==> p.op == OpOf(s)
    ensures p.ok ==> p.args == ArgsOf(s)
  {
    hide Pushes, Arity;
    if s == [] || s[0].Push? || s[0].code < OP_1 || s[0].code > OP_16 {
      return Parse(false, 0, []);
    }
    var op := s[0].code - OP_1 + 1;
    var t := s[1..];
    var args := ReadPushes(t);
    var rest := t[|args|..];
    assert rest == s[1 + |args|..];
    p := Parse(Drops(rest) && Arity(op, |args|), op, args);
  }

  /** The loop that collects the arguments. */
  method ReadPushes(t: Script) returns (args: seq<Bytes>)
    ensures args == Pushes(t)
  {
    args := [];
    assert t[0..] == t;
    while |args| < |t| && t[|args|].Push?
      invariant |args| <= |t| && Pushes(t) == args + Pushes(t[|args|..])
    {
      assert t[|args|..][1..] == t[|args| + 1..];
      args := args + [t[|args|].data];
    }
  }

  // ---------------------------------------------------------------- scanning scripts

  predicate AtMostOne(scripts: seq<Script>) {
    forall i, j :: 0 <= i < |scripts| && 0 <= j < |scripts| && IsAlias(scripts[i]) && IsAlias(scripts[j]) ==> i == j
  }

  /** The first alias script; the number of scripts when there is none. */
  function FirstAlias(scripts: seq<Script>): (k: nat)
    ensures k <= |scripts| && (k < |scripts| ==> IsAlias(scripts[k]))
    ensures forall i :: 0 <= i < k ==> !IsAlias(scripts[i])
  {
    if scripts == [] || IsAlias(scripts[0]) then 0 else 1 + FirstAlias(scripts[1..])
  }

  /** The operation reported last: any script that starts like an alias script reports one. */
  function LastOp(scripts: seq<Script>): nat {
    if scripts == [] then 0
    else var last := scripts[|scripts| - 1];
      if Opens(last) then OpOf(last) else LastOp(scripts[..|scripts| - 1])
  }

  /** The loops over the inputs and over the outputs of a transaction. */
  method FindAlias(scripts: seq<Script>) returns (unique: bool, found: bool, k: nat, op: nat, args: seq<Bytes>)
    ensures unique <==> AtMostOne(scripts)
    ensures unique ==> op == LastOp(scripts) && (found <==> FirstAlias(scripts) < |scripts|)
    ensures unique && found ==> k == FirstAlias(scripts) && Opens(scripts[k]) && args == ArgsOf(scripts[k])
    ensures unique && !found ==> args == []
  {
    hide IsAlias, Opens, FirstAlias, LastOp, Pushes;
    found, k, op, args := false, 0, 0, [];
    LastOpOfNone(scripts);
    for i := 0 to |scripts|
      invariant op == LastOp(scripts[..i])
      invariant found ==> k < i && IsAlias(scripts[k]) && Opens(scripts[k]) && args == ArgsOf(scripts[k])
      invariant forall j :: 0 <= j < i && IsAlias(scripts[j]) ==> found && j == k
      invariant !found ==> args == []
    {
      LastOpStep(scripts, i);
      AliasOpens(scripts[i]);
      var p := AliasScript(scripts[i]);
      if Opens(scripts[i]) {
        op := p.op;
      }
      if p.ok {
        if found {
          return false, found, k, op, args;
        }
        found, k, args := true, i, p.args;
      }
    }
    unique := true;
    assert scripts[..|scripts|] == scripts;
  }

  lemma LastOpOfNone(scripts: seq<Script>)
    ensures LastOp(scripts[..0]) == 0
  {
  }

  lemma LastOpStep(scripts: seq<Script>, i: nat)
    requires i < |scripts|
    ensures LastOp(scripts[..i + 1]) == if Opens(scripts[i]) then OpOf(scripts[i]) else LastOp(scripts[..i])
  {
    assert scripts[..i + 1][..i] == scripts[..i];
  }

  lemma AliasOpens(s: Script)
    ensures IsAlias(s) ==> Opens(s)
  {
  }

  // ---------------------------------------------------------------- depth

  /** The place of a block on disk. */
  datatype BlockPos = BlockPos(file: nat, pos: nat)

  /** One of the last `maxDepth` blocks up to `height` is at this place. */
  predicate Within(chain: seq<BlockPos>, height: nat, at: BlockPos, maxDepth: int)
    requires height < |chain|
  {
    exists b :: 0 <= b <= height && height - b < maxDepth && chain[b] == at
  }

  /** `CheckTransactionAtRelativeDepth` on a chain given by the places of its blocks: how many
      blocks back the nearest one at `at` is, or -1 if that is `maxDepth` or more. */
  method RelativeDepth(chain: seq<BlockPos>, height: nat, at: BlockPos, maxDepth: int) returns (depth: int)
    requires height < |chain|
    ensures -1 <= depth <= height
    ensures depth >= 0 ==> depth < maxDepth && chain[height - depth] == at
    ensures depth >= 0 ==> forall b :: height - depth < b <= height ==> chain[b] != at
    ensures depth == -1 <==> !Within(chain, height, at, maxDepth)
  {
    depth := 0;
    while depth <= height && depth < maxDepth
      invariant 0 <= depth <= height + 1
      invariant forall b :: height - depth < b <= height ==> chain[b] != at
    {
      if chain[height - depth] == at {
        return depth;
      }
      depth := depth + 1;
    }
    return -1;
  }

  predicate Distinct(chain: seq<BlockPos>) {
    forall i, j :: 0 <= i < j < |chain| ==> chain[i] != chain[j]
  }

  /** For a block of the chain the depth is the difference of the heights. */
  lemma DepthIsDifference(chain: seq<BlockPos>, height: nat, below: nat, maxDepth: int, depth: int)
    requires below <= height < |chain| && Distinct(chain)
    ensures Within(chain, height, chain[below], maxDepth) <==> height - below < maxDepth
    ensures 0 <= depth <= height && chain[height - depth] == chain[below] ==> depth == height - below
  {
  }

  // ---------------------------------------------------------------- acceptance

  const MAX_LOCATOR_LENGTH := 684
  const MAX_XUNIT_LENGTH := 1024 * 1024
  const MIN_SET_DEPTH := 1

  type Digest = b: Bytes | |b| == 20 witness [0, 0, 0, 0, 0, 0, 0, 0, 0, 0, 0, 0, 0, 0, 0, 0, 0, 0, 0, 0]

  type Hash160 = Bytes -> Digest

  /** `verifymessage`: is this, for this owner address, a signature of these parts? */
  type Verifier = (Bytes, Bytes, seq<Bytes>) -> bool

  /** What the checks outside this model say about a transaction: its signatures; the other
      operations; whether another transaction on the alias is pending. */
  datatype Outside = Outside(verifies: Verifier, otherAccepts: bool, pending: bool)

  datatype Mode = InBlock | InMiner | InPool

  /** A spent output: its script and the place of its transaction on disk. */
  datatype Spent = Spent(script: Script, at: Pos)

  function BlockOf(at: Pos): BlockPos {
    BlockPos(at.file, at.block)
  }

  /** `aliasTxPos` on the entries of a name: the last one is that of the transaction. */
  predicate LastIs(index: Index, name: Name, at: Pos) {
    name in index && index[name] != [] && Last(index[name]).pos == at
  }

  /** `uint160` of a byte vector. */
  function AsHash(b: Bytes): Digest {
    if |b| == 20 then b else seq(20, _ => 0)
  }

  function Scripts(spent: seq<Spent>): (r: seq<Script>)
    ensures |r| == |spent| && forall i :: 0 <= i < |r| ==> r[i] == spent[i].script
  {
    seq(|spent|, i requires 0 <= i < |spent| => spent[i].script)
  }

  /** The address that must have signed: that of the spent alias, if it has arguments. */
  function Owner(args: seq<Bytes>, prevArgs: seq<Bytes>): Bytes {
    if prevArgs != [] then Arg(prevArgs, 2) else Arg(args, 2)
  }

  /** The conditions on an ENCRYPTED: a hash for a commitment, signed with all that goes with it. */
  predicate EncryptedConnects(args: seq<Bytes>, prevArgs: seq<Bytes>, o: Outside) {
    && |Arg(args, 3)| == 20
    && o.verifies(Owner(args, prevArgs), Arg(args, 1), [Arg(args, 0), Arg(args, 3), Arg(args, 4), Arg(args, 5)])
    && o.otherAccepts
  }

  /** The conditions on a SET: it spends an ENCRYPTED output of an earlier block with the same
      owner field, signs the name and opens the commitment. */
  predicate SetConnects(args: seq<Bytes>, prevOp: nat, prevArgs: seq<Bytes>, at: Pos, chain: seq<BlockPos>,
                        height: nat, mode: Mode, o: Outside, hash: Hash160, scale: nat)
    requires height < |chain|
  {
    && prevOp == OP_ENCRYPTED
    && o.verifies(Owner(args, prevArgs), Arg(args, 1), [Arg(args, 0)])
    && Arg(args, 2) == Arg(prevArgs, 2)
    && |Arg(args, 3)| <= 20
    && |Arg(args, 2)| <= MAX_XUNIT_LENGTH
    && AsHash(Arg(prevArgs, 3)) == hash(Arg(args, 3) + Arg(args, 0))
    && (!mode.InPool? ==> !Within(chain, height, BlockOf(at), MIN_SET_DEPTH))
    && (mode.InMiner? ==> Within(chain, height, BlockOf(at), scale) && !o.pending)
  }

  /** The conditions on a RELAY: it spends a SET or RELAY of the same name that is not yet
      expired and, outside blocks, is the one in the index. */
  predicate RelayConnects(args: seq<Bytes>, prevOp: nat, prevArgs: seq<Bytes>, at: Pos, chain: seq<BlockPos>,
                          height: nat, mode: Mode, index: Index, scale: nat)
    requires height < |chain|
  {
    && (prevOp == OP_SET || prevOp == OP_RELAY)
    && |Arg(args, 1)| <= MAX_XUNIT_LENGTH
    && Arg(prevArgs, 0) == Arg(args, 0)
    && (!mode.InPool? ==> Within(chain, height, BlockOf(at), scale))
    && (!mode.InBlock? ==> LastIs(index, Arg(args, 0), at))
  }

  method ConnectSet(args: seq<Bytes>, prevOp: nat, prevArgs: seq<Bytes>, at: Pos, chain: seq<BlockPos>,
                    height: nat, mode: Mode, o: Outside, hash: Hash160, scale: nat) returns (ok: bool)
    requires height < |chain|
    ensures ok <==> SetConnects(args, prevOp, prevArgs, at, chain, height, mode, o, hash, scale)
  {
    hide Within;
    if prevOp != OP_ENCRYPTED || !o.verifies(Owner(args, prevArgs), Arg(args, 1), [Arg(args, 0)]) {
      return false;
    }
    if Arg(args, 2) != Arg(prevArgs, 2) {
      return false;
    }
    if |Arg(args, 3)| > 20 || |Arg(args, 2)| > MAX_XUNIT_LENGTH {
      return false;
    }
    var toHash := Arg(args, 3) + Arg(args, 0);
    if AsHash(Arg(prevArgs, 3)) != hash(toHash) {
      return false;
    }
    var depth := RelativeDepth(chain, height, BlockOf(at), MIN_SET_DEPTH);
    if (mode.InBlock? || mode.InMiner?) && depth >= 0 && depth < MIN_SET_DEPTH {
      return false;
    }
    if mode.InMiner? {
      depth := RelativeDepth(chain, height, BlockOf(at), scale);
      if depth == -1 || o.pending {
        return false;
      }
    }
    return true;
  }

  method ConnectRelay(args: seq<Bytes>, prevOp: nat, prevArgs: seq<Bytes>, at: Pos, chain: seq<BlockPos>,
                      height: nat, mode: Mode, index: Index, scale: nat) returns (ok: bool)
    requires height < |chain|
    ensures ok <==> RelayConnects(args, prevOp, prevArgs, at, chain, height, mode, index, scale)
  {
    hide Within;
    if prevOp != OP_SET && prevOp != OP_RELAY {
      return false;
    }
    if |Arg(args, 1)| > MAX_XUNIT_LENGTH || Arg(prevArgs, 0) != Arg(args, 0) {
      return false;
    }
    var depth := RelativeDepth(chain, height, BlockOf(at), scale);
    if (mode.InBlock? || mode.InMiner?) && depth < 0 {
      return false;
    }
    if !mode.InBlock? {
      var entries := if Arg(args, 0) in index then index[Arg(args, 0)] else [];
      if entries == [] || Last(entries).pos != at {
        return false;
      }
    }
    return true;
  }

  /** What is accepted: at most one spent alias output, exactly one new one, and the conditions
      of its operation. */
  predicate Connects(spent: seq<Spent>, vout: seq<Script>, chain: seq<BlockPos>, height: nat,
                     mode: Mode, o: Outside, index: Index, hash: Hash160, scale: nat)
    requires height < |chain|
  {
    var ins := Scripts(spent);
    var k, n := FirstAlias(ins), FirstAlias(vout);
    && AtMostOne(ins) && AtMostOne(vout) && n < |vout|
    && var args := ArgsOf(vout[n]);
       var prevArgs := if k < |ins| then ArgsOf(ins[k]) else [];
       && |Arg(args, 0)| <= MAX_LOCATOR_LENGTH
       && match LastOp(vout)
          case 1 =>
            EncryptedConnects(args, prevArgs, o)
          case 2 =>
            && k < |ins|
            && SetConnects(args, LastOp(ins), prevArgs, spent[k].at, chain, height, mode, o, hash, scale)
          case 3 =>
            && k < |ins|
            && RelayConnects(args, LastOp(ins), prevArgs, spent[k].at, chain, height, mode, index, scale)
          case op =>
            OtherOp(op) && o.otherAccepts
  }

  /** The place of the alias a transaction spends. */
  function AliasPlace(spent: seq<Spent>): Pos {
    var k := FirstAlias(Scripts(spent));
    if k < |spent| then spent[k].at else Pos(0, 0, 0)
  }

  function AliasName(vout: seq<Script>): Name {
    var n := FirstAlias(vout);
    if n < |vout| then Arg(ArgsOf(vout[n]), 0) else []
  }

  /** How the three uses differ: the miner takes what a block takes if the ENCRYPTED of a SET is
      not too old and nothing else is pending on the name, and a RELAY spends the last entry of the
      index; the memory pool takes what the miner takes without regard to depth and pending ones. */
  lemma ModesDiffer(spent: seq<Spent>, vout: seq<Script>, chain: seq<BlockPos>, height: nat, o: Outside,
                    index: Index, hash: Hash160, scale: nat)
    requires height < |chain|
    ensures var at := AliasPlace(spent);
      var deep := Within(chain, height, BlockOf(at), scale);
      var held := LastIs(index, AliasName(vout), at);
      var op := LastOp(vout);
      var inBlock := Connects(spent, vout, chain, height, InBlock, o, index, hash, scale);
      var inMiner := Connects(spent, vout, chain, height, InMiner, o, index, hash, scale);
      var inPool := Connects(spent, vout, chain, height, InPool, o, index, hash, scale);
      && (inMiner <==> inBlock && (op == OP_SET ==> deep && !o.pending) && (op == OP_RELAY ==> held))
      && (inBlock && (op == OP_RELAY ==> held)
          <==> inPool && (op == OP_SET ==> !Within(chain, height, BlockOf(at), MIN_SET_DEPTH))
               && (op == OP_RELAY ==> deep))
  {
    hide IsAlias, LastOp, Within, AtMostOne;
  }

  predicate OtherOp(op: nat) {
    op in {OP_MESSAGE, OP_ENCRYPTED_MESSAGE, OP_MAP_PROJECT, OP_PUBLIC_KEY, OP_VERTEX}
  }

  /** `ConnectInputsPost`. A transaction of another version is let through. */
  method ConnectInputsPost(dion: bool, spent: seq<Spent>, vout: seq<Script>, chain: seq<BlockPos>, height: nat,
                           mode: Mode, o: Outside, index: Index, hash: Hash160, scale: nat) returns (ok: bool)
    requires height < |chain|
    ensures ok <==> (dion ==> Connects(spent, vout, chain, height, mode, o, index, hash, scale))
  {
    hide IsAlias, SetConnects, RelayConnects, LastOp, Opens, FirstAlias, AtMostOne;
    if !dion {
      return true;
    }
    var uniqueIn, found, k, prevOp, prevArgs := FindAlias(Scripts(spent));
    if !uniqueIn {
      return false;
    }
    var uniqueOut, foundOut, n, op, args := FindAlias(vout);
    if !uniqueOut || !foundOut {
      return false;
    }
    if |Arg(args, 0)| > MAX_LOCATOR_LENGTH {
      return false;
    }
    match op
    case 1 =>
      if |Arg(args, 3)| != 20 {
        return false;
      }
      var parts := [Arg(args, 0), Arg(args, 3), Arg(args, 4), Arg(args, 5)];
      ok := o.verifies(Owner(args, prevArgs), Arg(args, 1), parts) && o.otherAccepts;
    case 2 =>
      if !found {
        return false;
      }
      ok := ConnectSet(args, prevOp, prevArgs, spent[k].at, chain, height, mode, o, hash, scale);
    case 3 =>
      if !found {
        return false;
      }
      ok := ConnectRelay(args, prevOp, prevArgs, spent[k].at, chain, height, mode, index, scale);
    case _ =>
      ok := OtherOp(op) && o.otherAccepts;
  }
}
