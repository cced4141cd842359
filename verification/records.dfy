/**
 The three updates the components apply to a list of records held in React
 state: drop every record with a given id (`filter(x => x.id !== id)`),
 replace every record with a given id (`map(x => x.id === id ? v : x)`),
 and append one record (`[...prev, v]`). `idOf` reads a record's id field.
 */
module Records {
  import opened Common

  /** `xs.filter(x => idOf(x) !== id)`. */
  function Without<T>(xs: seq<T>, idOf: T -> Id, id: Id): (r: seq<T>)
    ensures |r| <= |xs|
    ensures forall x | x in r :: x in xs && idOf(x) != id
    ensures forall x | x in xs && idOf(x) != id :: x in r
  {
    if xs == [] then []
    else if idOf(xs[0]) != id then [xs[0]] + Without(xs[1..], idOf, id)
    else Without(xs[1..], idOf, id)
  }

  /** The membership facts of `Without`, position by position. */
  lemma WithoutAt<T>(xs: seq<T>, idOf: T -> Id, id: Id)
    ensures forall i | 0 <= i < |Without(xs, idOf, id)| ::
      Without(xs, idOf, id)[i] in xs && idOf(Without(xs, idOf, id)[i]) != id
    ensures forall i | 0 <= i < |xs| && idOf(xs[i]) != id :: xs[i] in Without(xs, idOf, id)
  {
  }

  /** How many records in `xs` carry the id `id`. */
  function CountId<T>(xs: seq<T>, idOf: T -> Id, id: Id): (n: nat)
    ensures n <= |xs|
  {
    if xs == [] then 0
    else (if idOf(xs[0]) == id then 1 else 0) + CountId(xs[1..], idOf, id)
  }

  /** `xs.map(x => idOf(x) === id ? v : x)`. */
  function ReplaceWhere<T>(xs: seq<T>, idOf: T -> Id, id: Id, v: T): (r: seq<T>)
    ensures |r| == |xs|
    ensures forall i | 0 <= i < |xs| :: r[i] == if idOf(xs[i]) == id then v else xs[i]
  {
    if xs == [] then []
    else [if idOf(xs[0]) == id then v else xs[0]] + ReplaceWhere(xs[1..], idOf, id, v)
  }

  /** Removal distributes over concatenation, so the kept records stay in their order. */
  lemma {:induction false} WithoutAppend<T>(xs: seq<T>, ys: seq<T>, idOf: T -> Id, id: Id)
    ensures Without(xs + ys, idOf, id) == Without(xs, idOf, id) + Without(ys, idOf, id)
  {
    if xs == [] {
      assert xs + ys == ys;
    } else {
      var zs := xs + ys;
      assert zs[0] == xs[0] && zs[1..] == xs[1..] + ys;
      WithoutAppend(xs[1..], ys, idOf, id);
      var tail := Without(xs[1..], idOf, id);
      if idOf(xs[0]) != id {
        assert Without(zs, idOf, id) == [xs[0]] + (tail + Without(ys, idOf, id));
        assert Without(xs, idOf, id) == [xs[0]] + tail;
      } else {
        assert Without(zs, idOf, id) == tail + Without(ys, idOf, id);
        assert Without(xs, idOf, id) == tail;
      }
    }
  }

  /** Exactly the records carrying `id` disappear. */
  lemma {:induction false} WithoutLength<T>(xs: seq<T>, idOf: T -> Id, id: Id)
    ensures |Without(xs, idOf, id)| == |xs| - CountId(xs, idOf, id)
  {
    if xs != [] {
      WithoutLength(xs[1..], idOf, id);
    }
  }

  /** A record at a known position makes the count positive. */
  lemma {:induction false} CountIdAt<T>(xs: seq<T>, idOf: T -> Id, id: Id, i: nat)
    requires i < |xs| && idOf(xs[i]) == id
    ensures CountId(xs, idOf, id) > 0
  {
    if i > 0 {
      CountIdAt(xs[1..], idOf, id, i - 1);
    }
  }

  /** A count equal to the length means every record carries `id`. */
  lemma {:induction false} CountIdAll<T>(xs: seq<T>, idOf: T -> Id, id: Id)
    ensures CountId(xs, idOf, id) == |xs| <==> forall i | 0 <= i < |xs| :: idOf(xs[i]) == id
  {
    if xs != [] {
      CountIdAll(xs[1..], idOf, id);
      assert forall i | 1 <= i < |xs| :: xs[i] == xs[1..][i - 1];
    }
  }

  /** A list with no record carrying `id` is left as it is. */
  lemma {:induction false} WithoutAbsent<T>(xs: seq<T>, idOf: T -> Id, id: Id)
    requires forall i | 0 <= i < |xs| :: idOf(xs[i]) != id
    ensures Without(xs, idOf, id) == xs
  {
    if xs != [] {
      WithoutAbsent(xs[1..], idOf, id);
    }
  }

  /** Removing the same id twice is the same as removing it once. */
  lemma WithoutIdempotent<T>(xs: seq<T>, idOf: T -> Id, id: Id)
    ensures Without(Without(xs, idOf, id), idOf, id) == Without(xs, idOf, id)
  {
    var r := Without(xs, idOf, id);
    WithoutAbsent(r, idOf, id);
  }

  /**
   An update whose new record keeps the id changes nothing but the records
   with that id: dropping the id afterwards gives the same list as dropping
   it from the original.
   */
  lemma {:induction false} ReplaceThenWithout<T>(xs: seq<T>, idOf: T -> Id, id: Id, v: T)
    requires idOf(v) == id
    ensures Without(ReplaceWhere(xs, idOf, id, v), idOf, id) == Without(xs, idOf, id)
  {
    if xs != [] {
      var r := ReplaceWhere(xs, idOf, id, v);
      assert r[1..] == ReplaceWhere(xs[1..], idOf, id, v);
      ReplaceThenWithout(xs[1..], idOf, id, v);
    }
  }
}
