/** Block identifiers and ranges of consecutive blocks. */
module Block {
  import opened JavaInt
  import opened Wrappers

  /** A block number; arithmetic on it is Java `int` arithmetic and wraps around. */
  datatype Id = Id(value: int32) {

    function Plus(k: int32): (r: Id)
      ensures -0x8000_0000 <= value + k < 0x8000_0000 ==> r.value == value + k
    {
      Id(Wrap32(value + k))
    }

    function Minus(k: int32): (r: Id)
      ensures -0x8000_0000 <= value - k < 0x8000_0000 ==> r.value == value - k
    {
      Id(Wrap32(value - k))
    }

    function MinusId(other: Id): (r: Id)
      ensures r == Minus(other.value)
    {
      Id(Wrap32(value - other.value))
    }

    predicate LessThan(other: Id) { value < other.value }

    predicate GreaterThan(other: Id) { value > other.value }
  }

  const ZERO: Id := Id(0)

  /** Adding and then subtracting the same amount gives back the block, overflow or not. */
  lemma {:induction false} PlusMinus(id: Id, k: int32)
    ensures id.Plus(k).Minus(k) == id
  {
    var a := Wrap32(id.value + k);
    Wrap32Congruent(a - k, id.value);
  }

  /** Subtracting and then adding the same amount gives back the block, overflow or not. */
  lemma {:induction false} MinusPlus(id: Id, k: int32)
    ensures id.Minus(k).Plus(k) == id
  {
    var a := Wrap32(id.value - k);
    Wrap32Congruent(a + k, id.value);
  }

  /** The distance between two blocks, added back to the lower one, gives the upper one. */
  lemma {:induction false} MinusIdPlus(a: Id, b: Id)
    ensures b.Plus(a.MinusId(b).value) == a
  {
    var d := Wrap32(a.value - b.value);
    Wrap32Congruent(b.value + d, a.value);
  }

  /** `lessThan` and `greaterThan` are the two strict orders: converse of each other, irreflexive, and
      exactly one of less, greater or equal holds. */
  lemma {:induction false} CompareStrict(a: Id, b: Id)
    ensures a.LessThan(b) <==> b.GreaterThan(a)
    ensures !a.LessThan(a) && !a.GreaterThan(a)
    ensures a.LessThan(b) || a.GreaterThan(b) || a == b
    ensures !(a.LessThan(b) && a.GreaterThan(b))
  {
  }

  /** A run of `length` consecutive blocks starting at `from`. */
  datatype Range = Range(from: Id, length: int32)

  /** `Range.of`: the assertions of the source (assertions enabled) reject a negative start or an empty run. */
  function RangeOf(from: Id, length: int32): (r: Result<Range>)
    ensures r.Ok? <==> from.value >= 0 && length > 0
    ensures r.Ok? ==> r.value.from == from && r.value.length == length
    ensures r.Err? ==> r.error == AssertionFailure
  {
    if from.value < 0 || length <= 0 then Err(AssertionFailure) else Ok(Range(from, length))
  }
}
