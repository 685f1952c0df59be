/** OFFSET / LIMIT windows over an ordered list. */
module Paging {

  function Min(a: int, b: int): int {
    if a <= b then a else b
  }

  /** Skip `offset` elements, then take `limit` of them; a limit of 0 means no
      bound. A page is full unless the list runs out. */
  function Slice<T>(s: seq<T>, offset: nat, limit: nat): (page: seq<T>)
    ensures limit > 0 ==> |page| == if |s| <= offset then 0 else Min(limit, |s| - offset)
    ensures limit == 0 ==> |page| == if |s| <= offset then 0 else |s| - offset
  {
    if |s| <= offset then []
    else if limit == 0 || |s| <= offset + limit then s[offset..]
    else s[offset..offset + limit]
  }

  /** With the lengths above this is all there is to say of a page, the unbounded
      one included. */
  lemma SliceElements<T>(s: seq<T>, offset: nat, limit: nat, k: nat)
    requires k < |Slice(s, offset, limit)|
    ensures offset + k < |s| && Slice(s, offset, limit)[k] == s[offset + k]
  {
  }

  /** A page depends only on the first offset + limit elements. */
  lemma SliceOfPrefix<T>(s: seq<T>, t: seq<T>, offset: nat, limit: nat)
    requires s <= t && limit > 0 && offset + limit <= |s|
    ensures Slice(s, offset, limit) == Slice(t, offset, limit)
  {
  }

  /** The pages at the given offsets, in request order. */
  function Pages<T>(s: seq<T>, offsets: seq<nat>, limit: nat): seq<T> {
    if offsets == [] then []
    else
      var n := |offsets| - 1;
      Pages(s, offsets[..n], limit) + Slice(s, offsets[n], limit)
  }

  /** 0, limit, 2 * limit, ... */
  function Offsets(limit: nat, count: nat): (offsets: seq<nat>)
    ensures |offsets| == count
  {
    if count == 0 then [] else Offsets(limit, count - 1) + [(count - 1) * limit]
  }

  lemma {:induction false} OffsetAt(limit: nat, count: nat, k: nat)
    requires k < count
    ensures Offsets(limit, count)[k] == k * limit
  {
    if k < count - 1 {
      OffsetAt(limit, count - 1, k);
    }
  }

  /** Consecutive pages concatenate to a prefix of the list: no gap, no repeat,
      no reordering. */
  lemma {:induction false} PagesArePrefix<T>(s: seq<T>, limit: nat, count: nat)
    requires limit > 0
    ensures Pages(s, Offsets(limit, count), limit) == s[..Min(count * limit, |s|)]
  {
    if count > 0 {
      PagesArePrefix(s, limit, count - 1);
      var start := (count - 1) * limit;
      assert start + limit == count * limit;
      assert Offsets(limit, count)[..count - 1] == Offsets(limit, count - 1);
      SliceExtends(s, start, limit);
    }
  }

  lemma SliceExtends<T>(s: seq<T>, start: nat, limit: nat)
    requires limit > 0
    ensures s[..Min(start + limit, |s|)] == s[..Min(start, |s|)] + Slice(s, start, limit)
  {
  }
}
