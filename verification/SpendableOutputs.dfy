/** BTC spendable and spent outputs: adds and deletes of output records, with the spent collection as
    tombstones, and the balance that is read from them. Every event is one atomic step here. */
module SpendableOutputs {
  import opened MachineIntegers

  /** What every query selects by; the output index is not part of it. */
  datatype Key = Key(userID: string, txID: string, address: string)

  datatype SpOut = SpOut(key: Key, txOutID: int, amount: int, txStatus: int)

  datatype Outputs = Outputs(spendable: seq<SpOut>, spent: seq<Key>)

  const DELETE_ATTEMPTS := 4

  // ---------------------------------------------------------------- queries and events on values

  function IndexOfKey(outs: seq<SpOut>, k: Key): (i: nat)
    ensures i <= |outs|
    ensures i < |outs| ==> outs[i].key == k
    ensures forall j :: 0 <= j < i ==> outs[j].key != k
  {
    if outs == [] || outs[0].key == k then 0 else 1 + IndexOfKey(outs[1..], k)
  }

  function KeysOf(outs: seq<SpOut>): set<Key> { set o | o in outs :: o.key }

  function SpentKeys(spent: seq<Key>): set<Key> { set k | k in spent }

  ghost predicate OneRecordPerKey(outs: seq<SpOut>) {
    forall i, j :: 0 <= i < j < |outs| ==> outs[i].key != outs[j].key
  }

  function AddOut(o: Outputs, out: SpOut): Outputs {
    if out.key in o.spent then o
    else
      var i := IndexOfKey(o.spendable, out.key);
      if i == |o.spendable| then o.(spendable := o.spendable + [out])
      else o.(spendable := o.spendable[i := o.spendable[i].(txStatus := out.txStatus)])
  }

  function Repeated(k: Key, n: nat): seq<Key> { seq(n, i => k) }

  /** A successful remove ends the loop after one attempt; otherwise every attempt leaves a tombstone. */
  function DeleteOut(o: Outputs, k: Key): Outputs {
    var i := IndexOfKey(o.spendable, k);
    if i < |o.spendable| then Outputs(o.spendable[..i] + o.spendable[i + 1..], o.spent + [k])
    else Outputs(o.spendable, o.spent + Repeated(k, DELETE_ATTEMPTS))
  }

  /** DeleteHistory for one address. */
  function ClearAddress(o: Outputs, address: string): Outputs {
    Outputs(OutsElsewhere(o.spendable, address), KeysElsewhere(o.spent, address))
  }

  function OutsElsewhere(outs: seq<SpOut>, address: string): (r: seq<SpOut>)
    ensures forall x :: x in r <==> x in outs && x.key.address != address
  {
    if outs == [] then []
    else
      var last := outs[|outs| - 1];
      assert outs == outs[..|outs| - 1] + [last];
      var rest := OutsElsewhere(outs[..|outs| - 1], address);
      if last.key.address != address then rest + [last] else rest
  }

  function KeysElsewhere(keys: seq<Key>, address: string): (r: seq<Key>)
    ensures forall k :: k in r <==> k in keys && k.address != address
  {
    if keys == [] then []
    else
      var last := keys[|keys| - 1];
      assert keys == keys[..|keys| - 1] + [last];
      var rest := KeysElsewhere(keys[..|keys| - 1], address);
      if last.address != address then rest + [last] else rest
  }

  datatype Event = Add(out: SpOut) | Delete(key: Key)

  function Apply(o: Outputs, e: Event): Outputs {
    match e
    case Add(out) => AddOut(o, out)
    case Delete(k) => DeleteOut(o, k)
  }

  function After(o: Outputs, es: seq<Event>): Outputs {
    if es == [] then o else Apply(After(o, es[..|es| - 1]), es[|es| - 1])
  }

  // ---------------------------------------------------------------- the code

  class OutputCollections {
    var outputs: Outputs

    constructor ()
      ensures outputs == Outputs([], [])
    {
      outputs := Outputs([], []);
    }

    /** One message of the stream of new spendable outputs, or one of a resync. */
    method AddSpendableOut(out: SpOut)
      modifies this
      ensures outputs == AddOut(old(outputs), out)
    {
      if out.key !in outputs.spent {
        var i := IndexOfKey(outputs.spendable, out.key);
        if i == |outputs.spendable| {
          outputs := outputs.(spendable := outputs.spendable + [out]);
          return;
        }
        outputs := outputs.(spendable := outputs.spendable[i := outputs.spendable[i].(txStatus := out.txStatus)]);
      }
    }

    /** One message of the stream of deleted outputs. The loop ends after at most four attempts. */
    method DeleteSpendableOut(del: Key) returns (attempts: nat)
      modifies this
      ensures outputs == DeleteOut(old(outputs), del)
      ensures 1 <= attempts <= DELETE_ATTEMPTS
      ensures attempts == if del in KeysOf(old(outputs).spendable) then 1 else DELETE_ATTEMPTS
    {
      var i := 0;
      attempts := 0;
      while true
        invariant 0 <= i < DELETE_ATTEMPTS && attempts == i
        invariant i > 0 ==> IndexOfKey(old(outputs).spendable, del) == |old(outputs).spendable|
        invariant outputs == Outputs(old(outputs).spendable, old(outputs).spent + Repeated(del, i))
        decreases DELETE_ATTEMPTS - i
      {
        outputs := outputs.(spent := outputs.spent + [del]);
        attempts := attempts + 1;
        var k := IndexOfKey(outputs.spendable, del);
        if k < |outputs.spendable| {
          assert outputs.spendable[k] in outputs.spendable;
          assert old(outputs).spent + Repeated(del, 0) + [del] == old(outputs).spent + [del];
          outputs := outputs.(spendable := outputs.spendable[..k] + outputs.spendable[k + 1..]);
          break;
        }
        assert old(outputs).spent + Repeated(del, i) + [del] == old(outputs).spent + Repeated(del, i + 1);
        i := i + 1;
        if i == DELETE_ATTEMPTS {
          break;
        }
      }
    }

    /** The two RemoveAll queries: the records of the address go, all others stay in their order. */
    method DeleteHistory(address: string)
      modifies this
      ensures outputs == ClearAddress(old(outputs), address)
      ensures forall o :: o in outputs.spendable <==> o in old(outputs).spendable && o.key.address != address
      ensures forall k :: k in outputs.spent <==> k in old(outputs).spent && k.address != address
      ensures forall b :: b != address ==> Balance(outputs.spendable, b) == Balance(old(outputs).spendable, b)
    {
      var outs, spendable := outputs.spendable, [];
      for i := 0 to |outs|
        invariant outputs == old(outputs) && spendable == OutsElsewhere(outs[..i], address)
      {
        assert outs[..i + 1][..i] == outs[..i];
        if outs[i].key.address != address { spendable := spendable + [outs[i]]; }
      }
      assert outs[..|outs|] == outs;
      var keys, spent := outputs.spent, [];
      for i := 0 to |keys|
        invariant outputs == old(outputs) && spent == KeysElsewhere(keys[..i], address)
      {
        assert keys[..i + 1][..i] == keys[..i];
        if keys[i].address != address { spent := spent + [keys[i]]; }
      }
      assert keys[..|keys|] == keys;
      outputs := Outputs(spendable, spent);
      forall b | b != address ensures Balance(spendable, b) == Balance(outs, b) { BalanceElsewhere(outs, address, b); }
    }

    /** checkBTCAddressbalance: a signed 64-bit sum over the spendable records of the address. */
    method AddressBalance(address: string) returns (balance: int)
      ensures balance == Signed64(Balance(outputs.spendable, address))
    {
      balance := 0;
      var spOuts := outputs.spendable;
      for i := 0 to |spOuts|
        invariant balance == Signed64(Balance(spOuts[..i], address))
      {
        assert spOuts[..i + 1][..i] == spOuts[..i];
        if spOuts[i].key.address == address {
          Signed64Add(Balance(spOuts[..i], address), spOuts[i].amount);
          balance := Signed64(balance + spOuts[i].amount);
        }
      }
      assert spOuts[..|spOuts|] == spOuts;
    }
  }

  // ---------------------------------------------------------------- the balance

  function Balance(outs: seq<SpOut>, address: string): int {
    if outs == [] then 0
    else
      var last := outs[|outs| - 1];
      Balance(outs[..|outs| - 1], address) + (if last.key.address == address then last.amount else 0)
  }

  lemma {:induction false} BalanceElsewhere(outs: seq<SpOut>, address: string, b: string)
    requires b != address
    ensures Balance(OutsElsewhere(outs, address), b) == Balance(outs, b)
  {
    if outs != [] { BalanceElsewhere(outs[..|outs| - 1], address, b); }
  }
}
