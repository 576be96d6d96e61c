/** The `Key` enumeration and `translateKey`, which maps a platform key
    code to the `Key` whose position in the translation table holds it.
    The platform's key codes themselves are not part of this model, so the
    table is a parameter. */
module Keys {
  import opened Wrappers

  /** A `Key` value: its position in the enumeration, or `Unknown`. */
  type Key = nat

  const Unknown: Key := 0xFFFF_FFFF
  const V: Key := 21
  const LControl: Key := 37
  const RControl: Key := 41
  const Return: Key := 58
  const Backspace: Key := 59
  const End: Key := 63
  const Home: Key := 64
  const Delete: Key := 66
  const Left: Key := 71
  const Right: Key := 72
  const Enter: Key := 85
  const KeyCount: nat := 110

  /** `std::find` over the table: the first position holding `code`. */
  function Find(table: seq<int>, code: int): (r: Option<nat>)
    ensures r.Some? ==> r.value < |table| && table[r.value] == code
    ensures r.Some? ==> forall j :: 0 <= j < r.value ==> table[j] != code
    ensures r.None? <==> code !in table
  {
    if |table| == 0 then None
    else if table[0] == code then Some(0)
    else match Find(table[1..], code)
      case None => None
      case Some(i) => Some(i + 1)
  }

  /** `translateKey` over the 110-entry table: the position of the first
      entry equal to `code`, or `Unknown`. */
  function TranslateKey(table: seq<int>, code: int): (r: Key)
    requires |table| == KeyCount
    ensures code !in table <==> r == Unknown
    ensures r != Unknown ==> r < KeyCount && table[r] == code
    ensures r != Unknown ==> forall j :: 0 <= j < r ==> table[j] != code
  {
    match Find(table, code)
    case None => Unknown
    case Some(i) => i
  }

  /** With no duplicate codes in the table, translating the code stored at
      position `k` gives `k` back. */
  lemma TranslateKeyRoundTrip(table: seq<int>, k: nat)
    requires |table| == KeyCount && k < KeyCount
    requires forall i, j :: 0 <= i < j < |table| ==> table[i] != table[j]
    ensures TranslateKey(table, table[k]) == k
  {
    var r := TranslateKey(table, table[k]);
    assert table[k] in table;
    if r < k {
      assert table[r] == table[k];
    }
  }
}
