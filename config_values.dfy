/** What the expression evaluator does to values
    (config_to_json/config_to_json.py:116-144): Python's `+ - *` on ints and
    lists, `sorted()` and list indexing. */
module ConfigValues {
  import opened ConfigSyntax

  /** Python's `xs * n` for a list and an int: xs repeated n times, [] when n <= 0. */
  function Repeat(xs: seq<Value>, n: int): (r: seq<Value>)
    ensures |r| == if n <= 0 then 0 else n * |xs|
    ensures forall k :: 0 <= k < |r| ==> r[k] in xs
    decreases if n <= 0 then 0 else n
  {
    if n <= 0 then [] else xs + Repeat(xs, n - 1)
  }

  /** Python's `a op b`: int arithmetic on two ints, concatenation of two lists,
      repetition of a list by an int (either order); anything else is a TypeError. */
  function Apply(op: BinOp, a: Value, b: Value): Result<Value>
  {
    match (op, a, b)
    case (Add, Int(x), Int(y)) => Ok(Int(x + y))
    case (Add, Array(xs), Array(ys)) => Ok(Array(xs + ys))
    case (Sub, Int(x), Int(y)) => Ok(Int(x - y))
    case (Mul, Int(x), Int(y)) => Ok(Int(x * y))
    case (Mul, Array(xs), Int(n)) => Ok(Array(Repeat(xs, n)))
    case (Mul, Int(n), Array(xs)) => Ok(Array(Repeat(xs, n)))
    case _ => Err(TypeError)
  }

  /** On two integers every operator succeeds; `-` succeeds on integers only;
      mixing an int with a list succeeds only for `*`. */
  lemma ApplyDefinedness(op: BinOp, a: Value, b: Value)
    ensures a.Int? && b.Int? ==> Apply(op, a, b).Ok? && Apply(op, a, b).value.Int?
    ensures op == Sub ==> (Apply(op, a, b).Ok? <==> a.Int? && b.Int?)
    ensures op == Add ==> (Apply(op, a, b).Ok? <==> a.Int? == b.Int?)
    ensures op == Mul ==> (Apply(op, a, b).Ok? <==> a.Int? || b.Int?)
    ensures Apply(op, a, b).Err? ==> Apply(op, a, b).error == TypeError
  {
  }

  // ---------------------------------------------------------------------------
  // sorted()

  predicate AllInts(xs: seq<Value>)
  {
    forall k :: 0 <= k < |xs| ==> xs[k].Int?
  }

  /** Ascending order of an integer list. */
  predicate SortedInts(xs: seq<Value>)
  {
    AllInts(xs) && forall j, k :: 0 <= j < k < |xs| ==> xs[j].i <= xs[k].i
  }

  /** Inserts an integer into an ascending integer list. */
  function Insert(x: Value, xs: seq<Value>): (r: seq<Value>)
    requires x.Int? && SortedInts(xs)
    ensures SortedInts(r)
    ensures multiset(r) == multiset(xs) + multiset{x}
  {
    if xs == [] then [x]
    else if x.i <= xs[0].i then [x] + xs
    else
      var rest := Insert(x, xs[1..]);
      assert xs == [xs[0]] + xs[1..];
      assert forall k :: 0 <= k < |rest| ==> xs[0].i <= rest[k].i by {
        forall k | 0 <= k < |rest| ensures xs[0].i <= rest[k].i {
          assert rest[k] in multiset(rest);
          if rest[k] != x {
            assert rest[k] in multiset(xs[1..]);
            var j :| 0 <= j < |xs[1..]| && xs[1..][j] == rest[k];
            assert xs[0].i <= xs[j + 1].i;
          }
        }
      }
      ConsSorted(xs[0], rest);
      [xs[0]] + rest
  }

  lemma ConsSorted(y: Value, s: seq<Value>)
    requires y.Int? && SortedInts(s)
    requires forall k :: 0 <= k < |s| ==> y.i <= s[k].i
    ensures SortedInts([y] + s)
  {
  }

  /** Sorts an integer list (Python's sorted() on ints). */
  function InsertionSort(xs: seq<Value>): (r: seq<Value>)
    requires AllInts(xs)
    ensures SortedInts(r)
    ensures multiset(r) == multiset(xs)
  {
    if xs == [] then []
    else
      assert xs == [xs[0]] + xs[1..];
      Insert(xs[0], InsertionSort(xs[1..]))
  }

  /** Two ascending integer lists holding the same elements are equal:
      there is exactly one sorted permutation. */
  lemma {:induction false} SortedUnique(a: seq<Value>, b: seq<Value>)
    requires SortedInts(a) && SortedInts(b)
    requires multiset(a) == multiset(b)
    ensures a == b
  {
    if a == [] {
      assert |b| == |multiset(b)|;
    } else {
      SortedHeads(a, b);
      SameTails(a, b);
      SortedUnique(a[1..], b[1..]);
      assert a == [a[0]] + a[1..] && b == [b[0]] + b[1..];
    }
  }

  /** Two ascending lists with the same elements start with the same one. */
  lemma SortedHeads(a: seq<Value>, b: seq<Value>)
    requires SortedInts(a) && SortedInts(b) && multiset(a) == multiset(b) && a != []
    ensures b != [] && a[0] == b[0]
  {
    assert a[0] in multiset(b);
    var j :| 0 <= j < |b| && b[j] == a[0];
    assert b[0] in multiset(a);
    var k :| 0 <= k < |a| && a[k] == b[0];
    assert b[0].i <= b[j].i && a[0].i <= a[k].i;
  }

  /** Taking the same first element off two lists with the same elements. */
  lemma SameTails(a: seq<Value>, b: seq<Value>)
    requires a != [] && b != [] && a[0] == b[0] && multiset(a) == multiset(b)
    ensures multiset(a[1..]) == multiset(b[1..])
  {
    assert a == [a[0]] + a[1..];
    assert b == [b[0]] + b[1..];
    assert multiset(a) == multiset{a[0]} + multiset(a[1..]);
    assert multiset(b) == multiset{a[0]} + multiset(b[1..]);
    assert multiset(a[1..]) == multiset(a) - multiset{a[0]};
    assert multiset(b[1..]) == multiset(b) - multiset{a[0]};
  }

  /** `sorted(v)` as the `sort()` builtin applies it. A list of integers is
      sorted ascending; a list of fewer than two elements is returned as it is
      (Python compares nothing); a list of two or more elements that is not all
      integers is a TypeError, and so is a non-list. */
  function SortValue(v: Value): (r: Result<Value>)
    ensures r.Ok? <==> v.Array? && (|v.elems| <= 1 || AllInts(v.elems))
    ensures r.Ok? ==> r.value.Array? && multiset(r.value.elems) == multiset(v.elems)
    ensures r.Ok? ==> SortedInts(r.value.elems) || (|v.elems| <= 1 && r.value == v)
    ensures r.Err? ==> r.error == TypeError
  {
    match v
    case Int(_) => Err(TypeError)
    case Array(xs) =>
      if |xs| <= 1 then Ok(v)
      else if AllInts(xs) then Ok(Array(InsertionSort(xs)))
      else Err(TypeError)
  }

  /** Sorting twice is sorting once. */
  lemma SortIdempotent(v: Value)
    requires SortValue(v).Ok?
    ensures SortValue(SortValue(v).value) == SortValue(v)
  {
    var w := SortValue(v).value;
    if |v.elems| > 1 {
      SortedUnique(InsertionSort(w.elems), w.elems);
    }
  }

  /** After sort() the first element is the least of the list. */
  lemma SortedStartsWithMinimum(v: Value)
    requires v.Array? && |v.elems| >= 1 && AllInts(v.elems)
    ensures SortValue(v).Ok?
    ensures forall k :: 0 <= k < |v.elems| ==> SortValue(v).value.elems[0].i <= v.elems[k].i
  {
    var w := SortValue(v).value.elems;
    assert |w| == |multiset(w)| == |multiset(v.elems)| == |v.elems|;
    forall k | 0 <= k < |v.elems| ensures w[0].i <= v.elems[k].i {
      assert v.elems[k] in multiset(w);
      var j :| 0 <= j < |w| && w[j] == v.elems[k];
      if |v.elems| > 1 {
        assert w[0].i <= w[j].i;
      }
    }
  }

  // ---------------------------------------------------------------------------
  // index()

  /** Python's `xs[i]`: a negative i counts from the end; outside [-len, len)
      is an IndexError. */
  function PyIndex(xs: seq<Value>, i: int): (r: Result<Value>)
    ensures r.Ok? <==> -|xs| <= i < |xs|
    ensures r.Err? ==> r.error == IndexError
  {
    if 0 <= i < |xs| then Ok(xs[i])
    else if -|xs| <= i < 0 then Ok(xs[|xs| + i])
    else Err(IndexError)
  }

  /** A non-negative index i and its negative alias i - len select the same element. */
  lemma NegativeIndexAlias(xs: seq<Value>, k: int)
    requires 0 <= k < |xs|
    ensures PyIndex(xs, k) == PyIndex(xs, k - |xs|) == Ok(xs[k])
  {
  }

  /** The `index()` builtin: a list and an integer index, else a TypeError. */
  function IndexValue(a: Value, i: Value): (r: Result<Value>)
    ensures !(a.Array? && i.Int?) ==> r == Err(TypeError)
    ensures a.Array? && i.Int? && 0 <= i.i < |a.elems| ==> r == Ok(a.elems[i.i])
  {
    if a.Array? && i.Int? then PyIndex(a.elems, i.i) else Err(TypeError)
  }
}
