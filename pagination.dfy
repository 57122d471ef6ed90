/**
 * Page windows of the post listings: `(page-1)*limit` rows are skipped,
 * then at most `limit` rows are returned. The query builder writes an
 * OFFSET clause only for a positive offset.
 */
module Pagination {
  import opened Common

  /** The offset as the service computes it, in Go's 64-bit `int`: the product wraps around. */
  function OffsetAsWritten(page: int, limit: int): (offset: int)
    ensures IsInt64(offset)
    ensures IsInt64((page - 1) * limit) ==> offset == (page - 1) * limit
  {
    Wrap64((page - 1) * limit)
  }

  /** The offset the listing evidently intends: the exact product. */
  function Offset(page: int, limit: int): (offset: int)
    ensures page >= 1 && limit >= 0 ==> offset >= 0
    ensures page >= 1 && limit >= 1 ==> offset >= page - 1
  {
    (page - 1) * limit
  }

  /**
   * `LIMIT limit OFFSET offset` over `s`: a non-positive offset skips
   * nothing, an offset past the end leaves nothing.
   */
  function Window<T>(s: seq<T>, offset: int, limit: nat): (w: seq<T>)
    ensures |w| <= limit
    ensures var start := if offset > 0 then offset else 0;
      && (start >= |s| ==> w == [])
      && (start < |s| ==> |w| == (if start + limit <= |s| then limit else |s| - start))
      && forall j :: 0 <= j < |w| ==> start + j < |s| && w[j] == s[start + j]
  {
    var start := if offset > 0 then offset else 0;
    if start >= |s| then []
    else if start + limit <= |s| then s[start..start + limit]
    else s[start..]
  }

  /** A window holds only entries of the sequence it is cut from. */
  lemma WindowWithin<T>(s: seq<T>, offset: int, limit: nat)
    ensures forall x :: x in Window(s, offset, limit) ==> x in s
  {
    var w := Window(s, offset, limit);
    forall x | x in w ensures x in s {
      var j :| 0 <= j < |w| && w[j] == x;
      var start := if offset > 0 then offset else 0;
      assert s[start + j] == x;
    }
  }

  lemma MulMono(a: int, b: int, c: nat)
    requires a <= b
    ensures a * c <= b * c
  {
    assert b * c - a * c == (b - a) * c;
  }

  /** A position `q * limit + r` with `r < limit` falls inside page `q + 1` only. */
  lemma OnePage(limit: nat, q: int, r: int, page: int)
    requires limit >= 1 && q >= 0 && 0 <= r < limit && page >= 1
    requires Offset(page, limit) <= q * limit + r < Offset(page, limit) + limit
    ensures page == q + 1
  {
    if page - 1 < q {
      MulMono(page, q, limit);
    } else if page - 1 > q {
      MulMono(q + 1, page - 1, limit);
    }
  }

  /**
   * With the exact offset every row lies on exactly one page: row `i` is
   * entry `i % limit` of page `i / limit + 1`, and no other page's range
   * holds position `i`.
   */
  lemma PagesTile<T>(s: seq<T>, limit: nat, i: int)
    requires limit >= 1 && 0 <= i < |s|
    ensures var page := i / limit + 1;
      var w := Window(s, Offset(page, limit), limit);
      i % limit < |w| && w[i % limit] == s[i]
    ensures forall page :: page >= 1 && Offset(page, limit) <= i < Offset(page, limit) + limit ==>
      page == i / limit + 1
  {
    var q := i / limit;
    var r := i % limit;
    assert i == q * limit + r;
    assert Offset(q + 1, limit) == q * limit;
    forall page | page >= 1 && Offset(page, limit) <= i < Offset(page, limit) + limit
      ensures page == q + 1
    {
      OnePage(limit, q, r, page);
    }
  }

  /**
   * The wrap-around: asking for page 2^62 + 1 with 4 rows per page skips
   * 2^64 rows exactly, which wraps to 0, so the first page comes back
   * where an empty page was meant.
   */
  lemma OffsetWrapsToFirstPage(s: seq<int>)
    requires 0 < |s| <= MaxInt64
    ensures var page := 0x4000_0000_0000_0001;
      && IsInt64(page)
      && OffsetAsWritten(page, 4) == 0
      && Window(s, OffsetAsWritten(page, 4), 4) == Window(s, Offset(1, 4), 4) != []
      && Window(s, Offset(page, 4), 4) == []
  {
    var page := 0x4000_0000_0000_0001;
    assert (page - 1) * 4 == 0x1_0000_0000_0000_0000;
    assert Wrap64(0x1_0000_0000_0000_0000) == 0;
  }
}
