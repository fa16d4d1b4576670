/**
  The `Array.prototype.filter` that both delete handlers use to drop rows by
  id: a generic filter over sequences and what it keeps.
 */
module Lists {

  /** The elements of `s` that satisfy `keep`, in their original order. */
  function Filter<T>(s: seq<T>, keep: T -> bool): (r: seq<T>)
    ensures |r| <= |s|
  {
    if s == [] then []
    else (if keep(s[0]) then [s[0]] else []) + Filter(s[1..], keep)
  }

  /** An element survives the filter exactly when it was there and is kept. */
  lemma {:induction false} FilterMembership<T>(s: seq<T>, keep: T -> bool)
    ensures forall x :: x in Filter(s, keep) <==> x in s && keep(x)
  {
    if s != [] {
      FilterMembership(s[1..], keep);
      assert s == [s[0]] + s[1..];
    }
  }

  /** Filtering distributes over concatenation, so the survivors keep their order. */
  lemma {:induction false} FilterAppend<T>(a: seq<T>, b: seq<T>, keep: T -> bool)
    ensures Filter(a + b, keep) == Filter(a, keep) + Filter(b, keep)
  {
    if a == [] {
      assert a + b == b;
    } else {
      var head := if keep(a[0]) then [a[0]] else [];
      assert (a + b)[0] == a[0] && (a + b)[1..] == a[1..] + b;
      FilterAppend(a[1..], b, keep);
      calc {
        Filter(a + b, keep);
        head + Filter(a[1..] + b, keep);
        head + (Filter(a[1..], keep) + Filter(b, keep));
        (head + Filter(a[1..], keep)) + Filter(b, keep);
        Filter(a, keep) + Filter(b, keep);
      }
    }
  }

  /** When every element is kept, the filter changes nothing. */
  lemma {:induction false} FilterKeepsAll<T>(s: seq<T>, keep: T -> bool)
    ensures (forall x :: x in s ==> keep(x)) ==> Filter(s, keep) == s
  {
    if s != [] && forall x :: x in s ==> keep(x) {
      assert forall x :: x in s[1..] ==> x in s;
      FilterKeepsAll(s[1..], keep);
    }
  }
}
