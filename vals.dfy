/**
 * The nine symbols of the puzzle (Val.java). The enumeration order of the
 * constants is the order in which every rule tries candidates.
 */
module Vals {
  import opened Dbc

  datatype Val = One | Two | Three | Four | Five | Six | Seven | Eight | Nine
  {
    /** The number the constant is declared with. */
    function N(): int
    {
      match this
      case One => 1
      case Two => 2
      case Three => 3
      case Four => 4
      case Five => 5
      case Six => 6
      case Seven => 7
      case Eight => 8
      case Nine => 9
    }
  }

  /** The constants in declaration order, as Val.values() returns them. */
  const Values: seq<Val> := [One, Two, Three, Four, Five, Six, Seven, Eight, Nine]

  /** The full candidate set. */
  const AllVals: set<Val> := {One, Two, Three, Four, Five, Six, Seven, Eight, Nine}

  /** The constant at position k of the declaration order carries the number k + 1. */
  lemma ValuesNumbered()
    ensures |Values| == 9
    ensures forall k :: 0 <= k < 9 ==> Values[k].N() == k + 1
    ensures forall v: Val :: v in Values && v in AllVals && Values[v.N() - 1] == v
  {
    forall k | 0 <= k < 9 ensures Values[k].N() == k + 1 {
      if k == 0 {} else if k == 1 {} else if k == 2 {} else if k == 3 {}
      else if k == 4 {} else if k == 5 {} else if k == 6 {} else if k == 7 {} else {}
    }
    forall v: Val ensures v in Values && v in AllVals && Values[v.N() - 1] == v {
      match v
      case One => case Two => case Three => case Four => case Five =>
      case Six => case Seven => case Eight => case Nine =>
    }
  }

  /** The constant at position j is the only one numbered j + 1, and every number lies in 1..9. */
  lemma ValueAt(j: int)
    requires 0 <= j < 9
    ensures Values[j].N() == j + 1
    ensures forall w: Val :: 1 <= w.N() <= 9 && (w.N() == j + 1 ==> w == Values[j])
  {
    ValuesNumbered();
  }

  /** The declaration order is strictly ascending in the numbers, so the constants are distinct. */
  lemma ValuesAscending(i: int, j: int)
    requires 0 <= i < j < 9
    ensures Values[i].N() < Values[j].N() && Values[i] != Values[j]
  {
    ValuesNumbered();
  }

  /** The lookup loop of Val.of(int), from position k of the declaration order on. */
  function OfFrom(n: int, k: nat): (r: Result<Val>)
    requires k <= 9
    ensures r.Ok? <==> k + 1 <= n <= 9
    ensures r.Ok? ==> r.value.N() == n
    ensures r.Fail? ==> r.error == InvalidVal(n)
    decreases 9 - k
  {
    ValuesNumbered();
    if k == 9 then Fail(InvalidVal(n))
    else if Values[k].N() == n then Ok(Values[k])
    else OfFrom(n, k + 1)
  }

  /** Val.of(int): the constant whose number is n; fails for n outside 1..9. */
  function Of(n: int): (r: Result<Val>)
    ensures r.Ok? <==> 1 <= n <= 9
    ensures r.Ok? ==> r.value.N() == n
    ensures r.Fail? ==> r.error == InvalidVal(n)
  {
    OfFrom(n, 0)
  }

  /** Val.of(char): the character's distance from '0', looked up as a number. */
  function OfChar(c: char): Result<Val>
  {
    Of(c as int - '0' as int)
  }

  /** Val.toString(): the decimal digits of the number. */
  function ToString(v: Val): string
  {
    [('0' as int + v.N()) as char]
  }

  /** Val.of(char) accepts exactly the digits '1'..'9' and maps digit d to the constant numbered d. */
  lemma OfCharDigits(c: char)
    ensures OfChar(c).Ok? <==> '1' <= c <= '9'
    ensures OfChar(c).Ok? ==> OfChar(c).value.N() == c as int - '0' as int
  {
  }

  /** Round trip: the string of a constant is one digit, and reading that digit back gives the constant. */
  lemma ToStringRoundTrip(v: Val)
    ensures |ToString(v)| == 1 && '1' <= ToString(v)[0] <= '9'
    ensures OfChar(ToString(v)[0]) == Ok(v)
  {
    var r := OfChar(ToString(v)[0]);
    assert r.Ok? && r.value.N() == v.N();
    ValuesNumbered();
    assert r.value == Values[v.N() - 1];
  }

  /** Of is injective on the constants: distinct numbers 1..9 name distinct constants. */
  lemma OfNumber(v: Val)
    ensures 1 <= v.N() <= 9 && Of(v.N()) == Ok(v)
  {
    ValuesNumbered();
    assert Of(v.N()).value == Values[v.N() - 1];
  }
}
