/** The result list: records in chunk order, searchable by keyword, with the
    keyword ordering and exchange that make it sortable. Keywords need not be
    unique. */
module TextualDataList {
  import opened Wrappers
  import opened Bytes
  import opened PngText

  /** The first record whose keyword equals `keyword`, or None: a missing
      keyword is not an error. */
  function Find(list: seq<TextualData>, keyword: seq<byte>): (r: Option<TextualData>)
    ensures r.None? <==> forall i :: 0 <= i < |list| ==> list[i].keyword != keyword
    ensures r.Some? ==>
      exists i :: 0 <= i < |list| && list[i] == r.value && list[i].keyword == keyword
               && forall j :: 0 <= j < i ==> list[j].keyword != keyword
  {
    if |list| == 0 then None
    else if list[0].keyword == keyword then Some(list[0])
    else
      var r := Find(list[1..], keyword);
      if r.Some? then
        var tail := list[1..];
        var i :| 0 <= i < |tail| && tail[i] == r.value && tail[i].keyword == keyword
                 && forall j :: 0 <= j < i ==> tail[j].keyword != keyword;
        assert list[i + 1] == r.value;
        assert forall j :: 1 <= j < i + 1 ==> list[j] == tail[j - 1];
        r
      else
        r
  }

  /** Byte-wise lexicographic order, as Go compares strings: `a` sorts before
      `b` when they agree on a common prefix of length k and then either `a`
      ends while `b` goes on, or `a`'s next byte is smaller. */
  ghost predicate LexLess(a: seq<byte>, b: seq<byte>) {
    exists k :: LessAt(a, b, k)
  }

  ghost predicate LessAt(a: seq<byte>, b: seq<byte>, k: int) {
    && 0 <= k <= |a| && k < |b| && a[..k] == b[..k]
    && (k == |a| || a[k] < b[k])
  }

  /** strings.Compare: -1, 0 or +1 as `a` sorts before, equal to, or after `b`. */
  function Compare(a: seq<byte>, b: seq<byte>): (r: int)
    ensures -1 <= r <= 1
    ensures r == 0 <==> a == b
    ensures r < 0 <==> LexLess(a, b)
    ensures r > 0 <==> LexLess(b, a)
  {
    if |a| == 0 && |b| == 0 then
      0
    else if |a| == 0 then
      assert LessAt(a, b, 0);
      -1
    else if |b| == 0 then
      assert LessAt(b, a, 0);
      1
    else if a[0] < b[0] then
      assert LessAt(a, b, 0);
      -1
    else if a[0] > b[0] then
      assert LessAt(b, a, 0);
      1
    else
      var r := Compare(a[1..], b[1..]);
      LexLessTail(a, b);
      LexLessTail(b, a);
      if r == 0 then
        assert a == [a[0]] + a[1..] && b == [b[0]] + b[1..];
        r
      else
        r
  }

  /** Two sequences with the same first byte compare as their tails do. */
  lemma LexLessTail(a: seq<byte>, b: seq<byte>)
    requires |a| > 0 && |b| > 0 && a[0] == b[0]
    ensures LexLess(a, b) <==> LexLess(a[1..], b[1..])
  {
    if LexLess(a, b) {
      var k :| LessAt(a, b, k);
      assert k > 0;
      assert a[1..][..k - 1] == a[1..k] && b[1..][..k - 1] == b[1..k];
      assert LessAt(a[1..], b[1..], k - 1);
    }
    if LexLess(a[1..], b[1..]) {
      var k :| LessAt(a[1..], b[1..], k);
      assert a[..k + 1] == [a[0]] + a[1..][..k] && b[..k + 1] == [b[0]] + b[1..][..k];
      assert LessAt(a, b, k + 1);
    }
  }

  /** sort.Interface's Less: the keyword at i sorts before the keyword at j.
      Out-of-range indexes panic in the source. */
  function Less(list: seq<TextualData>, i: int, j: int): (r: bool)
    requires 0 <= i < |list| && 0 <= j < |list|
    ensures r <==> LexLess(list[i].keyword, list[j].keyword)
  {
    Compare(list[i].keyword, list[j].keyword) < 0
  }

  /** sort.Interface's Swap: exchanges positions i and j and nothing else. */
  function Swap(list: seq<TextualData>, i: int, j: int): (r: seq<TextualData>)
    requires 0 <= i < |list| && 0 <= j < |list|
    ensures |r| == |list| && r[i] == list[j] && r[j] == list[i]
    ensures forall k :: 0 <= k < |list| && k != i && k != j ==> r[k] == list[k]
    ensures multiset(r) == multiset(list)
  {
    list[i := list[j]][j := list[i]]
  }

  /** Swapping the same two positions twice restores the list. */
  lemma SwapTwice(list: seq<TextualData>, i: int, j: int)
    requires 0 <= i < |list| && 0 <= j < |list|
    ensures Swap(Swap(list, i, j), i, j) == list
  {
    var r := Swap(Swap(list, i, j), i, j);
    assert forall k :: 0 <= k < |list| ==> r[k] == list[k];
  }

  /** The keyword order is a strict total order, so Less can drive a sort. */
  lemma LexLessIrreflexive(a: seq<byte>)
    ensures !LexLess(a, a)
  {
  }

  lemma LexLessAsymmetric(a: seq<byte>, b: seq<byte>)
    ensures LexLess(a, b) ==> !LexLess(b, a)
  {

  }

  lemma LexLessTransitive(a: seq<byte>, b: seq<byte>, c: seq<byte>)
    requires LexLess(a, b) && LexLess(b, c)
    ensures LexLess(a, c)
  {
    var k1 :| LessAt(a, b, k1);
    var k2 :| LessAt(b, c, k2);
    if k1 < k2 {
      assert b[..k2][k1] == c[..k2][k1];
      assert a[..k1] == c[..k1] by { assert b[..k2][..k1] == c[..k2][..k1]; }
      assert LessAt(a, c, k1);
    } else if k2 < k1 {
      assert a[..k1][k2] == b[..k1][k2];
      assert a[..k2] == c[..k2] by { assert a[..k1][..k2] == b[..k1][..k2]; }
      assert LessAt(a, c, k2);
    } else {
      assert LessAt(a, c, k1);
    }
  }

  lemma LexLessTotal(a: seq<byte>, b: seq<byte>)
    ensures a == b || LexLess(a, b) || LexLess(b, a)
  {
    var r := Compare(a, b);
  }
}
