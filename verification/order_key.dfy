/**
 The key under which resting orders are filed: a price and a creation time,
 compared price first and creation time second. Creation times are integer
 timestamps; only the sign of a time comparison is modelled.
 */
module OrderKeys {

  datatype Key = Key(price: int, time: int)

  /** Three-way comparison of two integers with the result -1, 0 or 1. */
  function IntCompare(x: int, y: int): (r: int)
    ensures r == -1 || r == 0 || r == 1
    ensures r < 0 <==> x < y
    ensures r > 0 <==> x > y
  {
    if x < y then -1 else if x == y then 0 else 1
  }

  /** Natural key order: price decides, creation time breaks ties. */
  function Compare(a: Key, b: Key): (r: int)
    ensures r == -1 || r == 0 || r == 1
    ensures r == 0 <==> a == b
    ensures r < 0 <==> a.price < b.price || (a.price == b.price && a.time < b.time)
    ensures a.price != b.price ==> r == IntCompare(a.price, b.price)
    ensures a.price == b.price ==> r == IntCompare(a.time, b.time)
  {
    var byPrice := IntCompare(a.price, b.price);
    if byPrice != 0 then byPrice else IntCompare(a.time, b.time)
  }

  /** Swapping the arguments negates the comparison. */
  lemma CompareAntisymmetric(a: Key, b: Key)
    ensures Compare(a, b) == -Compare(b, a)
  {
  }

  /** Both the strict and the non-strict key order are transitive. */
  lemma CompareTransitive(a: Key, b: Key, c: Key)
    ensures Compare(a, b) <= 0 && Compare(b, c) <= 0 ==> Compare(a, c) <= 0
    ensures Compare(a, b) < 0 && Compare(b, c) < 0 ==> Compare(a, c) < 0
  {
  }
}
