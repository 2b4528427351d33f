/** The fee loop of `txPost` (src/dions.cpp): a transaction is built again and again until it
    pays for its own size. */
module TxPost {
  import opened Options

  type Script = seq<nat>

  datatype Out = Out(value: int, script: Script)

  /** A transaction output to spend: the transaction and the index in it. */
  datatype Coin = Coin(tx: nat, n: nat)

  datatype Tx = Tx(vin: seq<Coin>, vout: seq<Out>)

  datatype Selection = Selection(coins: seq<Coin>, value: int)

  const CENT := 1_000_000
  const MAX_BLOCK_SIZE := 4 * 1024 * 1024

  /** The wallet and the random choices, which may answer differently in every round. */
  datatype Wallet = Wallet(
    select: (nat, int) -> Option<Selection>,  // round, target
    changeScript: nat -> Option<Script>,      // round
    changeAt: nat -> nat,                     // round
    signs: (nat, Tx) -> bool,                 // round
    size: (nat, Tx) -> nat)                   // round; the transaction as signed there

  function Total(vout: seq<Out>): int {
    if vout == [] then 0 else Total(vout[..|vout| - 1]) + vout[|vout| - 1].value
  }

  lemma {:induction false} TotalConcat(a: seq<Out>, b: seq<Out>)
    ensures Total(a + b) == Total(a) + Total(b)
  {
    if b == [] {
      assert a + b == a;
    } else {
      assert (a + b)[..|a + b| - 1] == a + b[..|b| - 1];
      TotalConcat(a, b[..|b| - 1]);
    }
  }

  /** No initial part of the payments has a negative total. */
  predicate Payable(send: seq<Out>) {
    send != [] && forall k :: 0 <= k <= |send| ==> Total(send[..k]) >= 0
  }

  /** The fee a transaction of `bytes` bytes must pay. */
  function PayFee(bytes: nat): (fee: nat)
    ensures bytes < MAX_BLOCK_SIZE ==> CENT <= fee <= 4096 * CENT
  {
    CENT * (1 + bytes / 1024)
  }

  /** The requested outputs in order, with a change output inserted before one of them or
      not at all. */
  predicate Carries(vout: seq<Out>, send: seq<Out>, change: seq<Out>, at: nat) {
    |change| <= 1 && at <= |send| && (change != [] ==> at < |send|) && vout == send[..at] + change + send[at..]
  }

  lemma CarriesTotal(vout: seq<Out>, send: seq<Out>, change: seq<Out>, at: nat)
    requires Carries(vout, send, change, at)
    ensures Total(vout) == Total(send) + Total(change)
  {
    hide Total;
    TotalConcat(send[..at] + change, send[at..]);
    TotalConcat(send[..at], change);
    TotalConcat(send[..at], send[at..]);
    assert send == send[..at] + send[at..];
  }

  /** The loop that adds up the payments, checking the sum before each addition. */
  method AddUp(send: seq<Out>) returns (ok: bool, value: int)
    ensures ok <==> Payable(send)
    ensures ok ==> value == Total(send)
  {
    value := 0;
    for k := 0 to |send|
      invariant value == Total(send[..k])
      invariant forall j :: 0 <= j < k ==> Total(send[..j]) >= 0
    {
      assert send[..k + 1][..k] == send[..k];
      if value < 0 {
        return false, value;
      }
      value := value + send[k].value;
    }
    assert send[..|send|] == send;
    ok := send != [] && value >= 0;
  }

  /** A finished round: the transaction and the value of the coins selected for it. */
  datatype Built = Built(tx: Tx, selected: int)

  /** The requested outputs, and the change when it is worth an output. It goes before one of
      them, never after the last. */
  function Outputs(send: seq<Out>, left: int, script: Script, at: nat): seq<Out>
    requires at <= |send|
  {
    if left >= CENT then send[..at] + [Out(left, script)] + send[at..] else send
  }

  /** One round of the loop with a given fee. It fails when the wallet finds no coins, no key
      for the change or no signature, or when the transaction is too large. The spent alias
      output comes first and its value is not counted. */
  function Attempt(w: Wallet, send: seq<Out>, input: Coin, round: nat, fee: int): Option<Built>
    requires w.changeAt(round) < |send|
  {
    match w.select(round, Total(send) + fee)
    case None => None
    case Some(s) =>
      var left := s.value - Total(send) - fee;
      var script := w.changeScript(round);
      if left >= CENT && script.None? then None
      else
        var vout := Outputs(send, left, if script.Some? then script.value else [], w.changeAt(round));
        var tx := Tx([input] + s.coins, vout);
        if w.signs(round, tx) && w.size(round, tx) < MAX_BLOCK_SIZE then Some(Built(tx, s.value)) else None
  }

  /** A transaction that a round with a given fee may end in: it spends the alias output and then
      the coins selected for payments and fee, and pays what is asked for; what is left over goes
      to a change output, if it is worth one, and otherwise to the fee. */
  ghost predicate Pays(w: Wallet, send: seq<Out>, input: Coin, round: nat, fee: int, tx: Tx, selected: int)
    requires w.changeAt(round) < |send|
  {
    var left, at, script := selected - Total(send) - fee, w.changeAt(round), w.changeScript(round);
    && tx.vin != [] && tx.vin[0] == input
    && w.select(round, Total(send) + fee) == Some(Selection(tx.vin[1..], selected))
    && (if left < 1_000_000 then tx.vout == send
        else script.Some? && tx.vout == send[..at] + [Out(left, script.value)] + send[at..])
    && w.signs(round, tx)
    && w.size(round, tx) < 4194304
  }

  /** A round succeeds exactly with such a transaction. */
  lemma AttemptExactly(w: Wallet, send: seq<Out>, input: Coin, round: nat, fee: int, tx: Tx, selected: int)
    requires w.changeAt(round) < |send|
    ensures Attempt(w, send, input, round, fee) == Some(Built(tx, selected))
      <==> Pays(w, send, input, round, fee, tx, selected)
  {
    hide Total;
    if tx.vin != [] {
      assert tx.vin == [tx.vin[0]] + tx.vin[1..];
    }
    if w.select(round, Total(send) + fee).Some? {
      var coins := w.select(round, Total(send) + fee).value.coins;
      assert ([input] + coins)[1..] == coins;
    }
  }

  /** A round that ends in no such transaction fails. */
  lemma AttemptFails(w: Wallet, send: seq<Out>, input: Coin, round: nat, fee: int)
    requires w.changeAt(round) < |send|
    ensures Attempt(w, send, input, round, fee) == None
      <==> forall tx, selected :: !Pays(w, send, input, round, fee, tx, selected)
  {
    hide Pays, Attempt;
    forall tx, selected
      ensures Attempt(w, send, input, round, fee) == Some(Built(tx, selected))
        <==> Pays(w, send, input, round, fee, tx, selected)
    {
      AttemptExactly(w, send, input, round, fee, tx, selected);
    }
    var r := Attempt(w, send, input, round, fee);
    assert r.Some? ==> r == Some(Built(r.value.tx, r.value.selected));
  }

  ghost predicate Placeable(w: Wallet, send: seq<Out>) {
    send != [] ==> forall round :: w.changeAt(round) < |send|
  }

  /** The fee at the start of a round, if the loop gets there. */
  ghost function FeeAt(w: Wallet, send: seq<Out>, input: Coin, round: nat): Option<int>
    requires send != [] && Placeable(w, send)
  {
    if round == 0 then Some(CENT)
    else match FeeAt(w, send, input, round - 1)
      case None => None
      case Some(fee) =>
        match Attempt(w, send, input, round - 1, fee)
        case None => None
        case Some(b) => var pay := PayFee(w.size(round - 1, b.tx));
          if fee < pay then Some(pay) else None
  }

  /** Coin selection covers what it is asked for. */
  ghost predicate Covers(w: Wallet) {
    forall round: nat, target: int :: w.select(round, target).Some? ==> w.select(round, target).value.value >= target
  }

  /** What a post promises about its transaction, the value selected and the fee. */
  ghost predicate Posted(w: Wallet, send: seq<Out>, input: Coin, b: Built, fee: int) {
    && (exists change, at :: Carries(b.tx.vout, send, change, at))
    && b.tx.vin != [] && b.tx.vin[0] == input
    && b.selected - Total(b.tx.vout) - fee < CENT
    && (|b.tx.vout| > |send| ==> b.selected - Total(b.tx.vout) == fee)
    && (Covers(w) ==> b.selected - Total(b.tx.vout) >= fee)
  }

  /** Every round's transaction carries the payments and accounts for the coins selected. */
  lemma AttemptPosts(w: Wallet, send: seq<Out>, input: Coin, round: nat, fee: int)
    requires w.changeAt(round) < |send| && Attempt(w, send, input, round, fee).Some?
    ensures var b := Attempt(w, send, input, round, fee).value;
      Posted(w, send, input, b, fee) && Pays(w, send, input, round, fee, b.tx, b.selected)
  {
    hide Total, PayFee, Pays;
    var b := Attempt(w, send, input, round, fee).value;
    var left := b.selected - Total(send) - fee;
    var at := w.changeAt(round);
    AttemptExactly(w, send, input, round, fee, b.tx, b.selected);
    if left >= CENT {
      var change := [b.tx.vout[at]];
      assert Carries(b.tx.vout, send, change, at);
      CarriesTotal(b.tx.vout, send, change, at);
      TotalOfOne(b.tx.vout[at]);
    } else {
      assert Carries(b.tx.vout, send, [], 0);
    }
    assert w.select(round, Total(send) + fee).Some?;
  }

  lemma TotalOfOne(o: Out)
    ensures Total([o]) == o.value
  {
    assert [o][..0] == [];
  }

  /** The fee of a round is a CENT, or what the size of the last round's transaction asked for. */
  ghost predicate Charged(w: Wallet, send: seq<Out>, input: Coin, round: nat, fee: int)
    requires send != [] && Placeable(w, send)
  {
    if round == 0 then fee == 1_000_000
    else exists was, tx, selected :: Raises(w, send, input, round, was, tx, selected, fee)
  }

  ghost predicate Raises(w: Wallet, send: seq<Out>, input: Coin, round: nat, was: int, tx: Tx, selected: int, fee: int)
    requires send != [] && Placeable(w, send) && round > 0
  {
    && FeeAt(w, send, input, round - 1) == Some(was) && Pays(w, send, input, round - 1, was, tx, selected)
    && was < fee == 1_000_000 * (1 + w.size(round - 1, tx) / 1024)
  }

  lemma FeeCharged(w: Wallet, send: seq<Out>, input: Coin, round: nat, fee: int)
    requires send != [] && Placeable(w, send) && FeeAt(w, send, input, round) == Some(fee)
    ensures Charged(w, send, input, round, fee)
  {
    hide Attempt, Pays;
    if round > 0 {
      var was := FeeAt(w, send, input, round - 1).value;
      var b := Attempt(w, send, input, round - 1, was).value;
      AttemptExactly(w, send, input, round - 1, was, b.tx, b.selected);
      assert Raises(w, send, input, round, was, b.tx, b.selected, fee);
    }
  }

  /** `txPost`. The loop ends for every wallet, since the fee rises in every round and never
      exceeds that of the largest transaction allowed. */
  method Post(w: Wallet, send: seq<Out>, input: Coin)
    returns (ok: bool, tx: Tx, selected: int, fee: int, rounds: nat)
    requires Placeable(w, send)
    ensures !Payable(send) ==> !ok
    ensures Payable(send) ==> FeeAt(w, send, input, rounds) == Some(fee) && CENT <= fee <= 4096 * CENT
    ensures Payable(send) ==> send != [] && Charged(w, send, input, rounds, fee)
    ensures ok ==> send != [] && Pays(w, send, input, rounds, fee, tx, selected)
    ensures Payable(send) && !ok ==> send != [] && forall t, v :: !Pays(w, send, input, rounds, fee, t, v)
    ensures ok ==> Posted(w, send, input, Built(tx, selected), fee)
    ensures ok ==> fee >= 1_000_000 * (1 + w.size(rounds, tx) / 1024)
  {
    hide Posted, PayFee, Total, Attempt, Payable, Pays, Charged;
    tx, selected, fee, rounds := Tx([], []), 0, CENT, 0;
    var payable, value := AddUp(send);
    if !payable {
      return false, tx, 0, 0, 0;
    }
    PayableIsSome(send);
    while true
      invariant CENT <= fee <= 4096 * CENT
      invariant FeeAt(w, send, input, rounds) == Some(fee)
      decreases 4096 * CENT - fee
    {
      match Attempt(w, send, input, rounds, fee)
      case None =>
        AttemptFails(w, send, input, rounds, fee);
        FeeCharged(w, send, input, rounds, fee);
        return false, tx, selected, fee, rounds;
      case Some(b) =>
        tx, selected := b.tx, b.selected;
        AttemptFits(w, send, input, rounds, fee);
        var payFee := PayFee(w.size(rounds, tx));
        var needed := if payFee < CENT then CENT else payFee;
        if fee < needed {
          fee := needed;
          rounds := rounds + 1;
        } else {
          AttemptPosts(w, send, input, rounds, fee);
          FeeCharged(w, send, input, rounds, fee);
          FeeCovers(w, rounds, tx);
          return true, tx, selected, fee, rounds;
        }
    }
  }

  lemma FeeCovers(w: Wallet, round: nat, tx: Tx)
    ensures PayFee(w.size(round, tx)) == 1_000_000 * (1 + w.size(round, tx) / 1024)
  {
  }

  lemma PayableIsSome(send: seq<Out>)
    requires Payable(send)
    ensures send != []
  {
  }

  lemma AttemptFits(w: Wallet, send: seq<Out>, input: Coin, round: nat, fee: int)
    requires w.changeAt(round) < |send| && Attempt(w, send, input, round, fee).Some?
    ensures w.size(round, Attempt(w, send, input, round, fee).value.tx) < MAX_BLOCK_SIZE
  {
  }

  /** The fee strictly rises from round to round, so there are at most 4096 of them. */
  lemma {:induction false} FeeRises(w: Wallet, send: seq<Out>, input: Coin, round: nat)
    requires send != [] && Placeable(w, send) && FeeAt(w, send, input, round).Some?
    ensures (round + 1) * CENT <= FeeAt(w, send, input, round).value <= 4096 * CENT
    ensures round > 0 ==>
      (FeeAt(w, send, input, round - 1).Some?
       && FeeAt(w, send, input, round - 1).value < FeeAt(w, send, input, round).value)
    ensures FeeAt(w, send, input, round).value % CENT == 0
  {
    hide Attempt;
    if round > 0 {
      FeeRises(w, send, input, round - 1);
      var fee := FeeAt(w, send, input, round - 1).value;
      AttemptFits(w, send, input, round - 1, fee);
    }
  }
}
