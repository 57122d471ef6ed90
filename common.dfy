/**
 * Small shared vocabulary of the model: optional values, results, opaque
 * identifiers and timestamps, and Go's 64-bit `int`.
 */
module Common {

  /** A Go pointer field that may be nil, or a query parameter that may be absent. */
  datatype Option<T> = None | Some(value: T) {
    function GetOr(default: T): T {
      match this
      case Some(v) => v
      case None => default
    }
  }

  /** A value or the error a service call returns instead. */
  datatype Result<T, E> = Ok(value: T) | Err(error: E)

  /**
   * Row identifiers. The database generates them (uuid v4); the model only
   * needs equality, freshness and one distinguished value.
   */
  type Id = nat

  /** `uuid.Nil`, the all-zero identifier; the generator never hands it out. */
  const Nil: Id := 0

  /** Timestamps are opaque inputs (the source reads `time.Now()`). */
  type Time = nat

  const MinInt64: int := -0x8000_0000_0000_0000
  const MaxInt64: int := 0x7FFF_FFFF_FFFF_FFFF

  /** Go's `int` on a 64-bit platform. */
  predicate IsInt64(x: int) {
    MinInt64 <= x <= MaxInt64
  }

  /** Two's-complement wrap-around of an exact result into Go's 64-bit `int`. */
  function Wrap64(x: int): (r: int)
    ensures IsInt64(r)
    ensures (r - x) % 0x1_0000_0000_0000_0000 == 0
    ensures IsInt64(x) ==> r == x
  {
    var m := (x - MinInt64) % 0x1_0000_0000_0000_0000;
    m + MinInt64
  }

  /** No value occurs twice. */
  predicate Distinct<T(==)>(s: seq<T>) {
    forall i, j :: 0 <= i < j < |s| ==> s[i] != s[j]
  }

  /** `r` is the entries of `s` at the strictly increasing positions `idx`. */
  ghost predicate PicksInOrder<T>(s: seq<T>, r: seq<T>, idx: seq<int>) {
    && |idx| == |r|
    && (forall j :: 0 <= j < |idx| ==> 0 <= idx[j] < |s| && r[j] == s[idx[j]])
    && (forall j, k :: 0 <= j < k < |idx| ==> idx[j] < idx[k])
  }

  /**
   * `r` keeps the entries of `s` that satisfy `keep`, each once and in the
   * order of `s`, and nothing else: what a `WHERE` clause does to an
   * ordered scan.
   */
  ghost predicate FiltersInOrder<T>(s: seq<T>, r: seq<T>, keep: T -> bool) {
    exists idx :: PicksInOrder(s, r, idx) && forall i :: 0 <= i < |s| ==> (i in idx <==> keep(s[i]))
  }

  /** The entries of `s` that satisfy `keep`, in the order of `s`. */
  function Filter<T(==,!new)>(s: seq<T>, keep: T -> bool): (r: seq<T>)
    ensures forall x :: x in r <==> x in s && keep(x)
    ensures |r| <= |s|
  {
    if |s| == 0 then []
    else (if keep(s[0]) then [s[0]] else []) + Filter(s[1..], keep)
  }

  /** `Filter` keeps exactly the matching positions, in order. */
  lemma {:induction false} FilterInOrder<T(!new)>(s: seq<T>, keep: T -> bool)
    ensures FiltersInOrder(s, Filter(s, keep), keep)
    decreases |s|
  {
    if |s| == 0 {
      assert PicksInOrder(s, [], []);
    } else {
      var tail := s[1..];
      FilterInOrder(tail, keep);
      var idx :| PicksInOrder(tail, Filter(tail, keep), idx) && forall i :: 0 <= i < |tail| ==> (i in idx <==> keep(tail[i]));
      var all := PicksCons(s, Filter(tail, keep), idx, keep(s[0]));
      assert Filter(s, keep) == (if keep(s[0]) then [s[0]] else []) + Filter(tail, keep);
      forall i | 0 <= i < |s| ensures i in all <==> keep(s[i]) {
        if i > 0 {
          assert s[i] == tail[i - 1];
        }
      }
    }
  }

  /** Positions picking `r` from `s[1..]`, shifted by one, with position 0 in front when `s[0]` is kept. */
  lemma PicksCons<T>(s: seq<T>, r: seq<T>, idx: seq<int>, head: bool) returns (all: seq<int>)
    requires |s| > 0 && PicksInOrder(s[1..], r, idx)
    ensures PicksInOrder(s, (if head then [s[0]] else []) + r, all)
    ensures forall i :: 1 <= i <= |s[1..]| ==> (i in all <==> i - 1 in idx)
    ensures 0 in all <==> head
  {
    var shifted := seq(|idx|, j requires 0 <= j < |idx| => idx[j] + 1);
    all := if head then [0] + shifted else shifted;
    forall i | 1 <= i <= |s[1..]| ensures i in all <==> i - 1 in idx {
      if i - 1 in idx {
        var j :| 0 <= j < |idx| && idx[j] == i - 1;
        assert shifted[j] == i;
      }
    }
    assert forall j :: 0 <= j < |shifted| ==> shifted[j] >= 1;
  }

  predicate IsSuffix<T(==)>(suffix: seq<T>, s: seq<T>) {
    |suffix| <= |s| && s[|s| - |suffix|..] == suffix
  }

  /** The two parts of a repetition-free concatenation are repetition-free and share nothing. */
  lemma DistinctConcat<T>(a: seq<T>, b: seq<T>)
    requires Distinct(a + b)
    ensures Distinct(a) && Distinct(b)
    ensures forall x :: x in a ==> x !in b
  {
    assert forall i :: 0 <= i < |b| ==> (a + b)[|a| + i] == b[i];
    forall i, j | 0 <= i < j < |a| ensures a[i] != a[j] {
      assert (a + b)[i] != (a + b)[j];
    }
    forall i, j | 0 <= i < j < |b| ensures b[i] != b[j] {
      assert (a + b)[|a| + i] != (a + b)[|a| + j];
    }
    forall i, j | 0 <= i < |a| && 0 <= j < |b| ensures a[i] != b[j] {
      assert (a + b)[i] != (a + b)[|a| + j];
    }
  }
}
