/**
 * The raw grid a worksheet decodes to: a PHP array from row number to the
 * row's cell values. PHP arrays remember insertion order, and assigning to a
 * key that is already present replaces its value where it stands; a grid is
 * therefore a sequence of entries with distinct row numbers, in the order
 * those numbers were first assigned.
 */
module Grids {
  import opened Wrappers
  import opened Values

  datatype GridRow = GridRow(number: int, values: seq<Value>)

  type Grid = seq<GridRow>

  predicate DistinctKeys(g: Grid) {
    forall i, j :: 0 <= i < j < |g| ==> g[i].number != g[j].number
  }

  /** The row numbers of `g`, in iteration order. */
  function Keys(g: Grid): (ks: seq<int>)
    ensures |ks| == |g|
    ensures forall i :: 0 <= i < |g| ==> ks[i] == g[i].number
  {
    seq(|g|, i requires 0 <= i < |g| => g[i].number)
  }

  /** The position of the first entry numbered `k`. */
  function IndexOf(g: Grid, k: int): (r: Option<nat>)
    ensures r.Some? ==> r.value < |g| && g[r.value].number == k
    ensures r.Some? ==> forall i :: 0 <= i < r.value ==> g[i].number != k
    ensures r.None? <==> k !in Keys(g)
  {
    if |g| == 0 then None
    else if g[0].number == k then Some(0)
    else match IndexOf(g[1..], k)
      case None => None
      case Some(i) => Some(i + 1)
  }

  /** `$g[$k]`: the values stored under `k`, or None when `k` is absent. */
  function Lookup(g: Grid, k: int): Option<seq<Value>> {
    match IndexOf(g, k)
    case None => None
    case Some(i) => Some(g[i].values)
  }

  /** `$g[$k] = $v`: replace in place when `k` is present, append otherwise. */
  function Put(g: Grid, k: int, v: seq<Value>): (r: Grid)
    ensures Lookup(r, k) == Some(v)
    ensures forall k' :: k' != k ==> Lookup(r, k') == Lookup(g, k')
  {
    match IndexOf(g, k)
    case Some(i) =>
      var r := g[i := GridRow(k, v)];
      assert forall k' :: IndexOf(r, k') == IndexOf(g, k') by {
        forall k' {
          IndexOfUpdate(g, i, v, k');
        }
      }
      r
    case None =>
      var r := g + [GridRow(k, v)];
      assert forall k' :: k' != k ==> IndexOf(r, k') == IndexOf(g, k') by {
        forall k' | k' != k {
          IndexOfAppend(g, GridRow(k, v), k');
        }
      }
      IndexOfAppend(g, GridRow(k, v), k);
      r
  }

  /** Assignment keeps the order of the keys already present and appends a new key at the end. */
  lemma PutKeys(g: Grid, k: int, v: seq<Value>)
    ensures Keys(Put(g, k, v)) == if k in Keys(g) then Keys(g) else Keys(g) + [k]
  {
  }

  /** Assignment never creates a second entry for a key, and adds no entry but `k => v`. */
  lemma PutEntries(g: Grid, k: int, v: seq<Value>)
    ensures DistinctKeys(g) ==> DistinctKeys(Put(g, k, v))
    ensures forall i :: 0 <= i < |Put(g, k, v)| ==> Put(g, k, v)[i] in g || Put(g, k, v)[i] == GridRow(k, v)
  {
    var r := Put(g, k, v);
    match IndexOf(g, k)
    case Some(i) =>
      assert r == g[i := GridRow(k, v)];
      assert forall j :: 0 <= j < |r| ==> r[j].number == g[j].number;
      assert forall j :: 0 <= j < |r| && j != i ==> r[j] == g[j];
    case None =>
      assert r == g + [GridRow(k, v)];
      assert forall j :: 0 <= j < |g| ==> g[j].number != k by {
        forall j | 0 <= j < |g|
          ensures g[j].number != k
        {
          assert Keys(g)[j] == g[j].number;
        }
      }
  }

  lemma {:induction false} IndexOfAppend(g: Grid, e: GridRow, k: int)
    ensures IndexOf(g + [e], k) ==
      if k in Keys(g) then IndexOf(g, k)
      else if e.number == k then Some(|g|)
      else None
  {
    if |g| > 0 {
      assert (g + [e])[1..] == g[1..] + [e];
      IndexOfAppend(g[1..], e, k);
      assert Keys(g) == [g[0].number] + Keys(g[1..]);
    }
  }

  lemma {:induction false} IndexOfUpdate(g: Grid, i: nat, v: seq<Value>, k: int)
    requires i < |g|
    ensures IndexOf(g[i := GridRow(g[i].number, v)], k) == IndexOf(g, k)
  {
    var h := g[i := GridRow(g[i].number, v)];
    assert |h| == |g| && h[0].number == g[0].number;
    if i > 0 {
      assert h[1..] == g[1..][i - 1 := GridRow(g[i].number, v)];
      IndexOfUpdate(g[1..], i - 1, v, k);
    } else {
      assert h[1..] == g[1..];
    }
  }
}
