/**
  What both linked lists promise, stated on their abstract contents: the
  sequence of stored values from `head_` onwards.
 */
module ListSpec {

  /** How `InsertAt` ends: normally, or by throwing `std::out_of_range`. */
  datatype Status = Ok | OutOfRange

  /** One call of the lists' mutating interface. */
  datatype Op<T> = Append(value: T) | Prepend(value: T) | InsertAt(value: T, index: int)

  /** The contents after placing `v` at position `i`, the rest keeping their order. */
  function Insert<T>(s: seq<T>, v: T, i: int): (r: seq<T>)
    requires 0 <= i <= |s|
    ensures |r| == |s| + 1 && r[i] == v
    ensures forall j :: 0 <= j < i ==> r[j] == s[j]
    ensures forall j :: i < j <= |s| ==> r[j] == s[j - 1]
  {
    s[..i] + [v] + s[i..]
  }

  /** Inserting at the front is prepending. */
  lemma InsertFront<T>(s: seq<T>, v: T)
    ensures Insert(s, v, 0) == [v] + s
  {
  }

  /** Inserting after the last element is appending. */
  lemma InsertBack<T>(s: seq<T>, v: T)
    ensures Insert(s, v, |s|) == s + [v]
  {
  }

  /** The status and contents after one call on a list holding `s`. */
  function Apply<T>(s: seq<T>, op: Op<T>): (r: (Status, seq<T>))
    ensures r.0 == OutOfRange <==> op.InsertAt? && (op.index < 0 || op.index > |s|)
    ensures r.0 == OutOfRange ==> r.1 == s
    ensures r.0 == Ok ==> |r.1| == |s| + 1
  {
    match op
    case Append(v) => (Ok, s + [v])
    case Prepend(v) => (Ok, [v] + s)
    case InsertAt(v, i) =>
      if i < 0 || i > |s| then (OutOfRange, s)
      else if i == 0 then (Ok, [v] + s)
      else (Ok, Insert(s, v, i))
  }

  /** The number of calls in `ops` that do not throw on a list holding `s`. */
  function Successes<T>(s: seq<T>, ops: seq<Op<T>>): nat
    decreases |ops|
  {
    if ops == [] then 0
    else (if Apply(s, ops[0]).0 == Ok then 1 else 0) + Successes(Apply(s, ops[0]).1, ops[1..])
  }

  /** The contents after the calls `ops`, one after the other, starting from `s`. */
  function Run<T>(s: seq<T>, ops: seq<Op<T>>): (r: seq<T>)
    ensures |r| == |s| + Successes(s, ops)
    decreases |ops|
  {
    if ops == [] then s else Run(Apply(s, ops[0]).1, ops[1..])
  }

  /** Running one more call extends the run by one step. */
  lemma {:induction false} RunSnoc<T>(s: seq<T>, ops: seq<Op<T>>, op: Op<T>)
    ensures Run(s, ops + [op]) == Apply(Run(s, ops), op).1
    decreases |ops|
  {
    if ops == [] {
      assert [op][1..] == [];
    } else {
      assert (ops + [op])[1..] == ops[1..] + [op];
      RunSnoc(Apply(s, ops[0]).1, ops[1..], op);
    }
  }

  /** How each of the calls `ops` ends, one after the other, starting from `s`. */
  function Outcomes<T>(s: seq<T>, ops: seq<Op<T>>): (r: seq<Status>)
    ensures |r| == |ops|
    decreases |ops|
  {
    if ops == [] then [] else [Apply(s, ops[0]).0] + Outcomes(Apply(s, ops[0]).1, ops[1..])
  }

  /** One more call adds the outcome of that call on the contents reached so far. */
  lemma {:induction false} OutcomesSnoc<T>(s: seq<T>, ops: seq<Op<T>>, op: Op<T>)
    ensures Outcomes(s, ops + [op]) == Outcomes(s, ops) + [Apply(Run(s, ops), op).0]
    decreases |ops|
  {
    if ops == [] {
      assert [op][1..] == [];
    } else {
      assert (ops + [op])[1..] == ops[1..] + [op];
      OutcomesSnoc(Apply(s, ops[0]).1, ops[1..], op);
    }
  }

  /** The first `i + 1` calls: the first `i`, then call `i` on the contents they reach. */
  lemma RunPrefix<T>(s: seq<T>, ops: seq<Op<T>>, i: int)
    requires 0 <= i < |ops|
    ensures Run(s, ops[..i + 1]) == Apply(Run(s, ops[..i]), ops[i]).1
    ensures Outcomes(s, ops[..i + 1]) == Outcomes(s, ops[..i]) + [Apply(Run(s, ops[..i]), ops[i]).0]
  {
    assert ops[..i + 1] == ops[..i] + [ops[i]];
    RunSnoc(s, ops[..i], ops[i]);
    OutcomesSnoc(s, ops[..i], ops[i]);
  }

  /** No element occurs twice. */
  ghost predicate Distinct<X>(xs: seq<X>)
  {
    forall i, j :: 0 <= i < j < |xs| ==> xs[i] != xs[j]
  }

  /** Inserting an element not yet present keeps a sequence free of repeats. */
  lemma InsertDistinct<X>(xs: seq<X>, x: X, i: int)
    requires 0 <= i <= |xs| && Distinct(xs) && x !in xs
    ensures Distinct(Insert(xs, x, i))
  {
    var r := Insert(xs, x, i);
    forall j, k | 0 <= j < k < |r|
      ensures r[j] != r[k]
    {
      if j == i {
        assert r[k] == xs[k - 1];
      } else if k == i {
        assert r[j] == xs[j];
      } else {
        var j' := if j < i then j else j - 1;
        var k' := if k < i then k else k - 1;
        assert r[j] == xs[j'] && r[k] == xs[k'] && j' < k';
      }
    }
  }

  /** Inserting adds exactly the new element to the set of elements. */
  lemma InsertElements<X>(xs: seq<X>, x: X, i: int)
    requires 0 <= i <= |xs|
    ensures (set y | y in Insert(xs, x, i)) == (set y | y in xs) + {x}
  {
    assert xs == xs[..i] + xs[i..];
  }

  /** A sequence without repeats has as many distinct elements as positions. */
  lemma {:induction false} DistinctSize<X>(xs: seq<X>)
    requires Distinct(xs)
    ensures |set x | x in xs| == |xs|
    decreases |xs|
  {
    if xs != [] {
      var rest := xs[1..];
      assert Distinct(rest) by {
        forall j, k | 0 <= j < k < |rest| ensures rest[j] != rest[k] {
          assert rest[j] == xs[j + 1] && rest[k] == xs[k + 1];
        }
      }
      DistinctSize(rest);
      assert (set x | x in xs) == (set x | x in rest) + {xs[0]};
      assert xs[0] !in rest by {
        forall k | 0 <= k < |rest| ensures rest[k] != xs[0] {
          assert rest[k] == xs[k + 1];
        }
      }
    }
  }
}
