/**
 * An entity table: a map from id to record whose keys are handed out by a
 * counter starting at 1. A JavaScript `Map` iterates in insertion order;
 * ids are only ever appended in counter order and overwriting an existing
 * key keeps its place, so `Array.from(map.values())` lists the records in
 * ascending id order. `Values` is that listing.
 */
module Tables {
  import opened Schema

  /** Every key of `m` lies in [1, next): the ids the counter has handed out. */
  ghost predicate KeysBelow<T>(m: map<int, T>, next: int)
  {
    forall k :: k in m ==> 1 <= k < next
  }

  /**
   * The values of `m` stored under keys 1 .. next-1, in ascending key order:
   * a value is listed exactly when it is stored under such a key.
   */
  function Values<T>(m: map<int, T>, next: int): (r: seq<T>)
    ensures |r| <= if next <= 1 then 0 else next - 1
    ensures forall k :: 1 <= k < next && k in m ==> m[k] in r
    decreases next
  {
    if next <= 1 then []
    else Values(m, next - 1) + (if next - 1 in m then [m[next - 1]] else [])
  }

  /** A value is listed exactly when it is stored under some key in [1, next). */
  lemma {:induction false} ValuesMember<T>(m: map<int, T>, next: int, x: T)
    ensures x in Values(m, next) <==> exists k :: 1 <= k < next && k in m && m[k] == x
    decreases next
  {
    if next > 1 {
      ValuesMember(m, next - 1, x);
    }
  }

  /** The listing sees only keys below `next`. */
  lemma {:induction false} ValuesAgree<T>(m: map<int, T>, m': map<int, T>, next: int)
    requires forall k :: 1 <= k < next ==> (k in m <==> k in m')
    requires forall k :: 1 <= k < next && k in m ==> m[k] == m'[k]
    ensures Values(m, next) == Values(m', next)
    decreases next
  {
    if next > 1 {
      ValuesAgree(m, m', next - 1);
    }
  }

  /** Storing a value under the counter's id appends it to the listing. */
  lemma ValuesAppend<T>(m: map<int, T>, next: int, v: T)
    requires next >= 1 && KeysBelow(m, next)
    ensures Values(m[next := v], next + 1) == Values(m, next) + [v]
  {
    ValuesAgree(m, m[next := v], next);
  }

  /** Every record is stored under the id that `id` reads from it. */
  ghost predicate KeyedBy<T>(m: map<int, T>, id: T -> int)
  {
    forall k :: k in m ==> id(m[k]) == k
  }

  /**
   * Listing a table whose records are stored under their own ids gives them
   * in strictly increasing id order, every id below the counter.
   */
  lemma {:induction false} ValuesIncrease<T>(m: map<int, T>, next: int, id: T -> int)
    requires KeyedBy(m, id)
    ensures forall i, j :: 0 <= i < j < |Values(m, next)| ==> id(Values(m, next)[i]) < id(Values(m, next)[j])
    ensures forall x :: x in Values(m, next) ==> id(x) < next
    decreases next
  {
    if next > 1 {
      ValuesIncrease(m, next - 1, id);
    }
  }

  /** The index of the first element satisfying `p` (`Array.prototype.findIndex`). */
  function FirstIndex<T>(s: seq<T>, p: T -> bool): (r: Option<nat>)
    ensures r.Some? ==> r.value < |s| && p(s[r.value])
    ensures r.Some? ==> forall j :: 0 <= j < r.value ==> !p(s[j])
    ensures r.None? ==> forall j :: 0 <= j < |s| ==> !p(s[j])
  {
    if |s| == 0 then None
    else if p(s[0]) then Some(0)
    else match FirstIndex(s[1..], p)
      case None => None
      case Some(k) => Some(k + 1)
  }

  /** The first element satisfying `p`, if any (`Array.prototype.find`). */
  function Find<T>(s: seq<T>, p: T -> bool): (r: Option<T>)
    ensures r.Some? ==> r.value in s && p(r.value)
    ensures r.Some? ==> exists i :: 0 <= i < |s| && s[i] == r.value && forall j :: 0 <= j < i ==> !p(s[j])
    ensures r.None? <==> forall x :: x in s ==> !p(x)
  {
    match FirstIndex(s, p)
    case None => None
    case Some(i) => Some(s[i])
  }
}
