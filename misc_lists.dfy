/** The list helpers of gorilla/core/misc.py: element-wise casting, the
    "sequence of some type" test, slicing a list into chunks and
    concatenating chunks back, and `multi_apply`. */
module MiscLists {
  import opened Python

  /** `convert_list(xs, cast)`, and `iter_cast(xs, cast, return_type=list)`:
      `cast` applied to every element in order; the first exception a cast
      raises propagates. */
  function ListCast<T, U>(xs: seq<T>, cast: T -> Result<U>): (r: Result<seq<U>>)
    ensures r.Success? <==> forall i :: 0 <= i < |xs| ==> cast(xs[i]).Success?
    ensures r.Success? ==> |r.value| == |xs| && forall i :: 0 <= i < |xs| ==> cast(xs[i]) == Success(r.value[i])
    ensures r.Failure? ==>
              exists i :: 0 <= i < |xs| && cast(xs[i]) == Failure(r.error) && forall j :: 0 <= j < i ==> cast(xs[j]).Success?
    decreases |xs|
  {
    if xs == [] then Success([])
    else
      assert forall i :: 1 <= i < |xs| ==> xs[1..][i - 1] == xs[i];
      match cast(xs[0])
      case Failure(e) => Failure(e)
      case Success(y) =>
        match ListCast(xs[1..], cast)
        case Failure(e) =>
          assert exists i :: 1 <= i < |xs| && cast(xs[i]) == Failure(e) && forall j :: 1 <= j < i ==> cast(xs[j]).Success?;
          Failure(e)
        case Success(ys) => Success([y] + ys)
  }

  /** `is_seq_of(s, expected_type, seq_type)`: `isContainer` is whether `s`
      is an instance of the container type, `isInstance` whether an item is
      an instance of `expected_type`. */
  method IsSeqOf<T>(s: seq<T>, isContainer: bool, isInstance: T -> bool) returns (b: bool)
    ensures b <==> isContainer && forall i :: 0 <= i < |s| ==> isInstance(s[i])
  {
    if !isContainer {
      return false;
    }
    for i := 0 to |s|
      invariant forall j :: 0 <= j < i ==> isInstance(s[j])
    {
      if !isInstance(s[i]) {
        return false;
      }
    }
    return true;
  }

  /** The `lens` argument of `slice_list`: one integer, or a list of them. */
  datatype Lens = Each(n: int) | Sizes(sizes: seq<int>)

  /** `sum(s)`. */
  function Sum(s: seq<int>): int
    decreases |s|
  {
    if s == [] then 0 else Sum(s[..|s| - 1]) + s[|s| - 1]
  }

  /** A bound of a Python slice on a sequence of length `n`: a negative
      bound counts from the end, then the bound is clamped to `0..n`. */
  function SliceBound(k: int, n: nat): (b: nat)
    ensures b <= n
    ensures 0 <= k <= n ==> b == k
  {
    var j := if k < 0 then k + n else k;
    if j < 0 then 0 else if j > n then n else j
  }

  /** Python's `s[i:j]`. */
  function PySlice<T>(s: seq<T>, i: int, j: int): (r: seq<T>)
    ensures 0 <= i <= j <= |s| ==> r == s[i..j]
  {
    var lo, hi := SliceBound(i, |s|), SliceBound(j, |s|);
    if lo < hi then s[lo..hi] else []
  }

  /** `[n] * q`: `q` copies of `n`, none when `q` is not positive. */
  function Repeat(n: int, q: int): (r: seq<int>)
    ensures |r| == if q < 0 then 0 else q
    ensures forall k :: 0 <= k < |r| ==> r[k] == n
  {
    seq(if q < 0 then 0 else q, _ => n)
  }

  /** Where chunk `k` starts: the sum of the sizes before it. */
  function Offset(sizes: seq<int>, k: nat): int
    requires k <= |sizes|
  {
    Sum(sizes[..k])
  }

  lemma OffsetStep(sizes: seq<int>, k: nat)
    requires k < |sizes|
    ensures Offset(sizes, k + 1) == Offset(sizes, k) + sizes[k]
  {
    assert sizes[..k + 1][..k] == sizes[..k];
  }

  /** Chunk `k` of `slice_list`: `s[idx:idx + sizes[k]]` with `idx` the
      offset of `k`. */
  function Chunk<T>(s: seq<T>, sizes: seq<int>, k: nat): seq<T>
    requires k < |sizes|
  {
    PySlice(s, Offset(sizes, k), Offset(sizes, k) + sizes[k])
  }

  /** The chunks `slice_list` cuts for the lengths `sizes`. */
  function Chunks<T>(s: seq<T>, sizes: seq<int>): (r: seq<seq<T>>)
    ensures |r| == |sizes|
    ensures forall k :: 0 <= k < |sizes| ==> r[k] == Chunk(s, sizes, k)
  {
    seq(|sizes|, k requires 0 <= k < |sizes| => Chunk(s, sizes, k))
  }

  /** `slice_list(in_list, lens)`. An integer `lens` must divide the length
      (a zero `lens` raises ZeroDivisionError in the `%`) and stands for
      `len(in_list) / lens` copies of itself; a list `lens` must sum to the
      length. */
  method SliceList<T>(inList: seq<T>, lens: Lens) returns (r: Result<seq<seq<T>>>)
    ensures lens.Each? ==>
              r == if lens.n == 0 then Failure(ZeroDivisionError)
                   else if |inList| % lens.n != 0 then Failure(AssertionError)
                   else Success(Chunks(inList, Repeat(lens.n, |inList| / lens.n)))
    ensures lens.Sizes? ==>
              r == if Sum(lens.sizes) != |inList| then Failure(ValueError)
                   else Success(Chunks(inList, lens.sizes))
  {
    var sizes: seq<int>;
    match lens {
      case Each(n) =>
        if n == 0 {
          return Failure(ZeroDivisionError);
        }
        if |inList| % n != 0 {
          return Failure(AssertionError);
        }
        sizes := Repeat(n, |inList| / n);
      case Sizes(ns) =>
        if Sum(ns) != |inList| {
          return Failure(ValueError);
        }
        sizes := ns;
    }
    var out := CutChunks(inList, sizes);
    r := Success(out);
  }

  /** The loop of `slice_list`: one slice per size, `idx` summing the sizes
      consumed so far. */
  method CutChunks<T>(inList: seq<T>, sizes: seq<int>) returns (out: seq<seq<T>>)
    ensures out == Chunks(inList, sizes)
  {
    out := [];
    var idx := 0;
    for i := 0 to |sizes|
      invariant idx == Offset(sizes, i)
      invariant |out| == i
      invariant forall k :: 0 <= k < i ==> out[k] == Chunk(inList, sizes, k)
    {
      OffsetStep(sizes, i);
      out := out + [PySlice(inList, idx, idx + sizes[i])];
      idx := idx + sizes[i];
    }
  }

  /** The sum of the lengths of the inner lists. */
  function TotalLength<T>(xss: seq<seq<T>>): nat
    decreases |xss|
  {
    if xss == [] then 0 else |xss[0]| + TotalLength(xss[1..])
  }

  /** `concat_list(in_list)`: the inner lists one after another, so that
      every element is kept. */
  function Concat<T>(xss: seq<seq<T>>): (r: seq<T>)
    ensures |r| == TotalLength(xss)
    decreases |xss|
  {
    if xss == [] then [] else xss[0] + Concat(xss[1..])
  }

  /** Concatenation keeps order: concatenating two runs of lists is
      concatenating each and joining the results. */
  lemma {:induction false} ConcatAppend<T>(a: seq<seq<T>>, b: seq<seq<T>>)
    ensures Concat(a + b) == Concat(a) + Concat(b)
    decreases |a|
  {
    if a != [] {
      assert (a + b)[0] == a[0];
      assert (a + b)[1..] == a[1..] + b;
      ConcatAppend(a[1..], b);
      calc {
        Concat(a + b);
        (a + b)[0] + Concat((a + b)[1..]);
        a[0] + Concat(a[1..] + b);
        a[0] + (Concat(a[1..]) + Concat(b));
        (a[0] + Concat(a[1..])) + Concat(b);
        Concat(a) + Concat(b);
      }
    } else {
      assert a + b == b;
    }
  }

  /** Element `j` of inner list `i` sits in the result after everything in
      the lists before `i`. */
  lemma ConcatIndex<T>(xss: seq<seq<T>>, i: nat, j: nat)
    requires i < |xss| && j < |xss[i]|
    ensures TotalLength(xss[..i]) + j < |Concat(xss)|
    ensures Concat(xss)[TotalLength(xss[..i]) + j] == xss[i][j]
  {
    assert xss == xss[..i] + ([xss[i]] + xss[i + 1..]);
    ConcatAppend(xss[..i], [xss[i]] + xss[i + 1..]);
    ConcatAppend([xss[i]], xss[i + 1..]);
    assert Concat([xss[i]]) == xss[i] by {
      assert [xss[i]][1..] == [];
    }
  }

  /** With non-negative sizes, every prefix sum lies between 0 and the
      total. */
  lemma {:induction false} SumPrefixBounds(sizes: seq<int>, k: nat)
    requires forall i :: 0 <= i < |sizes| ==> sizes[i] >= 0
    requires k <= |sizes|
    ensures 0 <= Sum(sizes[..k]) <= Sum(sizes)
    decreases |sizes|
  {
    if sizes != [] {
      var init := sizes[..|sizes| - 1];
      if k < |sizes| {
        assert init[..k] == sizes[..k];
        SumPrefixBounds(init, k);
      } else {
        assert sizes[..k] == sizes;
      }
      SumPrefixBounds(init, |init|);
      assert init[..|init|] == init;
    }
  }

  /** When the non-negative sizes add up to the length, chunk `k` is the
      contiguous piece of length `sizes[k]` that starts after the chunks
      before it. */
  lemma ChunksShape<T>(s: seq<T>, sizes: seq<int>, k: nat)
    requires forall i :: 0 <= i < |sizes| ==> sizes[i] >= 0
    requires Sum(sizes) == |s|
    requires k < |sizes|
    ensures 0 <= Sum(sizes[..k]) <= Sum(sizes[..k + 1]) <= |s|
    ensures Chunks(s, sizes)[k] == s[Sum(sizes[..k])..Sum(sizes[..k + 1])]
    ensures |Chunks(s, sizes)[k]| == sizes[k]
  {
    SumPrefixBounds(sizes, k);
    SumPrefixBounds(sizes, k + 1);
    assert sizes[..k + 1][..k] == sizes[..k];
  }

  /** The first `k` chunks concatenate to the first `Sum(sizes[..k])`
      elements. */
  lemma {:induction false} ConcatChunksPrefix<T>(s: seq<T>, sizes: seq<int>, k: nat)
    requires forall i :: 0 <= i < |sizes| ==> sizes[i] >= 0
    requires Sum(sizes) == |s|
    requires k <= |sizes|
    ensures 0 <= Sum(sizes[..k]) <= |s|
    ensures Concat(Chunks(s, sizes)[..k]) == s[..Sum(sizes[..k])]
    decreases k
  {
    var cs := Chunks(s, sizes);
    if k == 0 {
      assert cs[..0] == [];
    } else {
      ConcatChunksPrefix(s, sizes, k - 1);
      ChunksShape(s, sizes, k - 1);
      assert cs[..k] == cs[..k - 1] + [cs[k - 1]];
      ConcatAppend(cs[..k - 1], [cs[k - 1]]);
      assert Concat([cs[k - 1]]) == cs[k - 1] by {
        assert [cs[k - 1]][1..] == [];
      }
      var lo, hi := Sum(sizes[..k - 1]), Sum(sizes[..k]);
      assert s[..lo] + s[lo..hi] == s[..hi];
    }
  }

  /** Round trip: when the non-negative sizes add up to the length,
      concatenating the chunks gives the list back. */
  lemma SliceConcatRoundTrip<T>(s: seq<T>, sizes: seq<int>)
    requires forall i :: 0 <= i < |sizes| ==> sizes[i] >= 0
    requires Sum(sizes) == |s|
    ensures Concat(Chunks(s, sizes)) == s
  {
    ConcatChunksPrefix(s, sizes, |sizes|);
    assert Chunks(s, sizes)[..|sizes|] == Chunks(s, sizes);
    assert sizes[..|sizes|] == sizes;
  }

  /** `q` copies of `n` add up to `n * q`, and the first `k` of them to
      `n * k`. */
  lemma {:induction false} SumRepeat(n: int, q: nat, k: nat)
    requires k <= q
    ensures Sum(Repeat(n, q)[..k]) == n * k
    decreases k
  {
    if k > 0 {
      assert Repeat(n, q)[..k][..k - 1] == Repeat(n, q)[..k - 1];
      SumRepeat(n, q, k - 1);
    }
  }

  /** For a positive integer `lens` that divides the length, `slice_list`
      cuts `len / lens` chunks, chunk `k` being `s[k*lens:(k+1)*lens]`, and
      they concatenate back to the list. */
  lemma EachChunks<T>(s: seq<T>, n: int)
    requires n > 0 && |s| % n == 0
    ensures var cs := Chunks(s, Repeat(n, |s| / n));
      && |cs| == |s| / n
      && (forall k :: 0 <= k < |cs| ==> 0 <= k * n <= k * n + n <= |s| && cs[k] == s[k * n..k * n + n])
      && Concat(cs) == s
  {
    var q := |s| / n;
    var sizes := Repeat(n, q);
    SumRepeat(n, q, q);
    assert sizes[..q] == sizes;
    assert Sum(sizes) == |s|;
    forall k | 0 <= k < q
      ensures 0 <= k * n <= k * n + n <= |s| && Chunks(s, sizes)[k] == s[k * n..k * n + n]
    {
      ChunksShape(s, sizes, k);
      SumRepeat(n, q, k);
      SumRepeat(n, q, k + 1);
    }
    SliceConcatRoundTrip(s, sizes);
  }

  /** The sum check does not stop negative sizes: `[2, -2, 2]` sums to the
      length of `[1, 2]`, and the slices then repeat the list. */
  lemma NegativeSizesRepeatElements()
    ensures Sum([2, -2, 2]) == |[1, 2]|
    ensures Chunks([1, 2], [2, -2, 2]) == [[1, 2], [], [1, 2]]
    ensures Concat(Chunks([1, 2], [2, -2, 2])) != [1, 2]
  {
    var s, sizes := [1, 2], [2, -2, 2];
    assert sizes[..0] == [] && sizes[..1] == [2] && sizes[..2] == [2, -2];
    assert [2, -2][..1] == [2] && [2][..0] == [];
    assert Sum(sizes[..1]) == 2 && Sum(sizes[..2]) == 0;
    assert PySlice(s, 0, 2) == [1, 2];
    assert PySlice(s, 2, 0) == [];
    var cs := Chunks(s, sizes);
    assert cs[0] == [1, 2] && cs[1] == [] && cs[2] == [1, 2];
    assert cs == [[1, 2], [], [1, 2]];
    assert [[1, 2], [], [1, 2]][1..] == [[], [1, 2]];
    assert [[], [1, 2]][1..] == [[1, 2]];
    assert [[1, 2]][1..] == [];
  }

  /** A negative integer `lens` that divides the length passes the check,
      but `[lens] * int(len / lens)` has no elements: `slice_list([1, 2], -2)`
      is `[]`, which does not concatenate back to the list. */
  lemma NegativeLensLosesList()
    ensures |[1, 2]| % -2 == 0 && |[1, 2]| / -2 == -1
    ensures Chunks([1, 2], Repeat(-2, |[1, 2]| / -2)) == []
    ensures Concat(Chunks([1, 2], Repeat(-2, |[1, 2]| / -2))) != [1, 2]
  {
    assert Repeat(-2, -1) == [];
  }

  /** The length of the shortest list. */
  function MinLength<T>(xss: seq<seq<T>>): (m: nat)
    requires |xss| > 0
    ensures forall i :: 0 <= i < |xss| ==> m <= |xss[i]|
    ensures exists i :: 0 <= i < |xss| && m == |xss[i]|
    decreases |xss|
  {
    if |xss| == 1 then |xss[0]|
    else
      var m := MinLength(xss[1..]);
      assert forall i :: 1 <= i < |xss| ==> xss[i] == xss[1..][i - 1];
      if |xss[0]| <= m then |xss[0]| else m
  }

  /** Element `k` of every row. */
  function Column<T>(rows: seq<seq<T>>, k: nat): (c: seq<T>)
    requires rows != [] && k < MinLength(rows)
    ensures |c| == |rows|
    ensures forall i :: 0 <= i < |rows| ==> c[i] == rows[i][k]
  {
    seq(|rows|, i requires 0 <= i < |rows| => rows[i][k])
  }

  /** `zip(*rows)`, each tuple made a list: list `k` holds element `k` of
      every row, for as many `k` as the shortest row is long; no rows give
      no lists. */
  function Zip<T>(rows: seq<seq<T>>): (r: seq<seq<T>>)
    ensures rows == [] ==> r == []
    ensures rows != [] ==> |r| == MinLength(rows)
    ensures forall k :: 0 <= k < |r| ==> |r[k]| == |rows| && forall i :: 0 <= i < |rows| ==> k < |rows[i]| && r[k][i] == rows[i][k]
  {
    if rows == [] then []
    else seq(MinLength(rows), k requires 0 <= k < MinLength(rows) => Column(rows, k))
  }

  /** `multi_apply(func, *args)`: `func` applied to the k-th elements of
      every argument list, for as many k as the shortest list has, and its
      result tuples transposed. With no argument lists at all, `map`
      raises TypeError. Keyword arguments are bound into `f`. */
  function MultiApply<A, B>(f: seq<A> -> seq<B>, args: seq<seq<A>>): (r: Result<seq<seq<B>>>)
    ensures r.Failure? <==> args == []
    ensures r.Failure? ==> r.error == TypeError
    ensures r.Success? ==> forall k :: 0 <= k < |r.value| ==> |r.value[k]| == MinLength(args)
  {
    if args == [] then Failure(TypeError)
    else
      var calls := Zip(args);
      Success(Zip(seq(|calls|, i requires 0 <= i < |calls| => f(calls[i]))))
  }

  /** The results of the calls `multi_apply` makes: call `i` is on element
      `i` of every argument list. */
  function Calls<A, B>(f: seq<A> -> seq<B>, args: seq<seq<A>>): (outs: seq<seq<B>>)
    requires args != []
    ensures |outs| == MinLength(args)
    ensures forall i :: 0 <= i < |outs| ==> outs[i] == f(Column(args, i))
  {
    seq(MinLength(args), i requires 0 <= i < MinLength(args) => f(Column(args, i)))
  }

  /** `multi_apply` transposes the results of its calls. */
  lemma MultiApplyCalls<A, B>(f: seq<A> -> seq<B>, args: seq<seq<A>>)
    requires args != []
    ensures MultiApply(f, args) == Success(Zip(Calls(f, args)))
  {
    var calls := Zip(args);
    assert forall i :: 0 <= i < |calls| ==> calls[i] == Column(args, i);
    assert seq(|calls|, i requires 0 <= i < |calls| => f(calls[i])) == Calls(f, args);
  }

  /** What `multi_apply` returns: list `k` holds output `k` of every call,
      and there are as many lists as the shortest output tuple is long. */
  lemma MultiApplyShape<A, B>(f: seq<A> -> seq<B>, args: seq<seq<A>>)
    ensures MultiApply(f, args).Success? <==> args != []
    ensures args != [] ==>
              var r, outs := MultiApply(f, args).value, Calls(f, args);
              && (outs == [] ==> r == [])
              && (outs != [] ==> |r| == MinLength(outs))
              && forall k :: 0 <= k < |r| ==> |r[k]| == |outs| && forall i :: 0 <= i < |outs| ==> k < |outs[i]| && r[k][i] == outs[i][k]
  {
    if args != [] {
      MultiApplyCalls(f, args);
    }
  }

  /** `zip(*zip(*rows))` gives back rows that all have the same positive
      length. */
  lemma ZipZip<T>(rows: seq<seq<T>>, w: nat)
    requires rows != [] && w > 0
    requires forall i :: 0 <= i < |rows| ==> |rows[i]| == w
    ensures Zip(Zip(rows)) == rows
  {
    var z := Zip(rows);
    assert |rows[0]| == w;
    assert MinLength(rows) == w;
    assert |z| == w && |z[0]| == |rows|;
    var zz := Zip(z);
    assert |zz| == |rows|;
    forall i | 0 <= i < |rows| ensures zz[i] == rows[i] {
      assert |zz[i]| == |z| == w;
    }
  }

  /** When every call returns a tuple of the same positive length,
      transposing what `multi_apply` returns gives the calls' results back:
      entry `i` is the result of call `i`. */
  lemma MultiApplyRecoversResults<A, B>(f: seq<A> -> seq<B>, args: seq<seq<A>>, w: nat)
    requires args != [] && MinLength(args) > 0 && w > 0
    requires forall i :: 0 <= i < MinLength(args) ==> |Calls(f, args)[i]| == w
    ensures |MultiApply(f, args).value| == w
    ensures Zip(MultiApply(f, args).value) == Calls(f, args)
  {
    MultiApplyCalls(f, args);
    ZipZip(Calls(f, args), w);
  }
}
