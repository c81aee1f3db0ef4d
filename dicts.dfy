/** Python's insertion-ordered `dict` with string keys, modelled as a
    sequence of entries.  Lookup, `d[k] = v` and `del d[k]` follow the
    language's rules: assigning to an existing key keeps its position, a new
    key goes to the end, and deleting a key keeps the order of the rest. */
module Dicts {

  datatype Option<T> = None | Some(value: T)

  /** One `key: value` item of a dict. */
  datatype Entry<V> = Entry(key: string, val: V)

  type Dict<V> = seq<Entry<V>>

  /** The keys in iteration order (`list(d)`). */
  function Keys<V>(d: Dict<V>): seq<string> {
    seq(|d|, i requires 0 <= i < |d| => d[i].key)
  }

  /** Every key occurs once: what a real dict always satisfies. */
  ghost predicate DistinctKeys<V>(d: Dict<V>) {
    forall i, j :: 0 <= i < j < |d| ==> d[i].key != d[j].key
  }

  /** The position of the first entry with key `k`, if any. */
  function Find<V>(d: Dict<V>, k: string): (r: Option<nat>)
    ensures r.Some? ==> r.value < |d| && d[r.value].key == k
    ensures r.Some? ==> forall j :: 0 <= j < r.value ==> d[j].key != k
    ensures r.None? ==> forall j :: 0 <= j < |d| ==> d[j].key != k
  {
    if d == [] then None
    else if d[0].key == k then Some(0)
    else match Find(d[1..], k)
      case None => None
      case Some(i) => Some(i + 1)
  }

  /** `k in d` */
  predicate Contains<V>(d: Dict<V>, k: string) {
    Find(d, k).Some?
  }

  /** `d.get(k)` */
  function Get<V>(d: Dict<V>, k: string): Option<V> {
    match Find(d, k)
    case Some(i) => Some(d[i].val)
    case None => None
  }

  /** The first position of `k`, or `|d|` when `k` is absent. */
  function FirstPos<V>(d: Dict<V>, k: string): nat {
    match Find(d, k)
    case Some(i) => i
    case None => |d|
  }

  // The search result is determined by where the key first occurs.
  lemma FindIs<V>(d: Dict<V>, k: string, i: nat)
    requires i < |d| && d[i].key == k
    requires forall j :: 0 <= j < i ==> d[j].key != k
    ensures Find(d, k) == Some(i)
  {
  }

  lemma FindSameKeys<V, W>(d: Dict<V>, e: Dict<W>, k: string)
    requires |d| == |e|
    requires forall j :: 0 <= j < |d| ==> d[j].key == e[j].key
    ensures Find(d, k) == Find(e, k)
  {
    match Find(d, k)
    case Some(i) => FindIs(e, k, i);
    case None =>
  }

  lemma {:induction false} FindCons<V>(x: Entry<V>, d: Dict<V>, k: string)
    ensures Find([x] + d, k) ==
      if x.key == k then Some(0)
      else match Find(d, k) case None => None case Some(i) => Some(i + 1)
  {
    assert ([x] + d)[1..] == d;
  }

  lemma {:induction false} FindSnoc<V>(d: Dict<V>, x: Entry<V>, k: string)
    ensures Find(d + [x], k) ==
      if Contains(d, k) then Find(d, k)
      else if x.key == k then Some(|d|)
      else None
  {
    match Find(d, k)
    case Some(i) => FindIs(d + [x], k, i);
    case None =>
      if x.key == k { FindIs(d + [x], k, |d|); }
  }

  lemma GetCons<V>(x: Entry<V>, d: Dict<V>, k: string)
    ensures Get([x] + d, k) == if x.key == k then Some(x.val) else Get(d, k)
  {
    FindCons(x, d, k);
  }

  lemma DistinctCons<V>(x: Entry<V>, d: Dict<V>)
    ensures DistinctKeys([x] + d) <==> !Contains(d, x.key) && DistinctKeys(d)
  {
    var xd := [x] + d;
    assert forall j :: 0 <= j < |d| ==> d[j] == xd[j + 1];
    if DistinctKeys(d) && !Contains(d, x.key) {
      forall i, j | 0 <= i < j < |xd| ensures xd[i].key != xd[j].key {
        if i > 0 { assert xd[i] == d[i - 1] && xd[j] == d[j - 1]; }
        else { assert xd[j] == d[j - 1]; }
      }
    }
    if DistinctKeys(xd) {
      forall i, j | 0 <= i < j < |d| ensures d[i].key != d[j].key {
        assert d[i] == xd[i + 1] && d[j] == xd[j + 1];
      }
      forall j | 0 <= j < |d| ensures d[j].key != x.key {
        assert xd[0].key != xd[j + 1].key;
      }
    }
  }

  /** `d[k] = v` */
  function Put<V>(d: Dict<V>, k: string, v: V): Dict<V> {
    match Find(d, k)
    case Some(i) => d[i := Entry(k, v)]
    case None => d + [Entry(k, v)]
  }

  /** An existing key keeps its position; a new key is appended last. */
  lemma PutKeys<V>(d: Dict<V>, k: string, v: V)
    ensures Keys(Put(d, k, v)) == if Contains(d, k) then Keys(d) else Keys(d) + [k]
  {
    var r := Put(d, k, v);
    if Contains(d, k) {
      assert Keys(r) == Keys(d);
    } else {
      assert Keys(r) == Keys(d) + [k];
    }
  }

  /** The key takes the new value. */
  lemma PutGetSame<V>(d: Dict<V>, k: string, v: V)
    ensures Get(Put(d, k, v), k) == Some(v)
  {
    match Find(d, k)
    case Some(i) => FindIs(Put(d, k, v), k, i);
    case None => FindSnoc(d, Entry(k, v), k);
  }

  /** Every other key keeps its value. */
  lemma PutGetOther<V>(d: Dict<V>, k: string, v: V, k': string)
    requires k' != k
    ensures Get(Put(d, k, v), k') == Get(d, k')
  {
    match Find(d, k)
    case Some(i) => FindSameKeys(Put(d, k, v), d, k');
    case None => FindSnoc(d, Entry(k, v), k');
  }

  /** The value seen at every key after `d[k] = v`. */
  lemma PutGet<V>(d: Dict<V>, k: string, v: V)
    ensures Get(Put(d, k, v), k) == Some(v)
    ensures forall k' :: k' != k ==> Get(Put(d, k, v), k') == Get(d, k')
  {
    PutGetSame(d, k, v);
    forall k' | k' != k ensures Get(Put(d, k, v), k') == Get(d, k') {
      PutGetOther(d, k, v, k');
    }
  }

  /** Assignment never duplicates a key. */
  lemma PutDistinct<V>(d: Dict<V>, k: string, v: V)
    requires DistinctKeys(d)
    ensures DistinctKeys(Put(d, k, v))
  {
    match Find(d, k)
    case Some(i) =>
    case None =>
      var r := Put(d, k, v);
      forall i, j | 0 <= i < j < |r| ensures r[i].key != r[j].key {
        if j == |d| { assert r[i] == d[i]; }
      }
  }

  /** `del d[k]` (the callers only delete keys they have found; an
      absent key leaves the dict as it is). */
  function Remove<V>(d: Dict<V>, k: string): Dict<V> {
    if d == [] then []
    else if d[0].key == k then Remove(d[1..], k)
    else [d[0]] + Remove(d[1..], k)
  }

  /** After `del d[k]` the key is gone ... */
  lemma {:induction false} RemoveGetSame<V>(d: Dict<V>, k: string)
    ensures !Contains(Remove(d, k), k)
  {
    if d != [] {
      RemoveGetSame(d[1..], k);
      if d[0].key != k {
        FindCons(d[0], Remove(d[1..], k), k);
      }
    }
  }

  /** ... and every other key keeps its value. */
  lemma {:induction false} RemoveGetOther<V>(d: Dict<V>, k: string, k': string)
    requires k' != k
    ensures Get(Remove(d, k), k') == Get(d, k')
  {
    if d != [] {
      var x, t := d[0], d[1..];
      assert d == [x] + t;
      RemoveGetOther(t, k, k');
      GetCons(x, t, k');
      if x.key != k {
        GetCons(x, Remove(t, k), k');
      }
    }
  }

  lemma RemoveGet<V>(d: Dict<V>, k: string)
    ensures !Contains(Remove(d, k), k)
    ensures forall k' :: k' != k ==> Get(Remove(d, k), k') == Get(d, k')
  {
    RemoveGetSame(d, k);
    forall k' | k' != k ensures Get(Remove(d, k), k') == Get(d, k') {
      RemoveGetOther(d, k, k');
    }
  }

  /** Deleting an absent key changes nothing. */
  lemma {:induction false} RemoveAbsent<V>(d: Dict<V>, k: string)
    requires !Contains(d, k)
    ensures Remove(d, k) == d
  {
    if d != [] {
      FindCons(d[0], d[1..], k);
      assert d == [d[0]] + d[1..];
      RemoveAbsent(d[1..], k);
    }
  }

  /** Deleting never duplicates a key. */
  lemma {:induction false} RemoveDistinct<V>(d: Dict<V>, k: string)
    requires DistinctKeys(d)
    ensures DistinctKeys(Remove(d, k))
  {
    if d != [] {
      var x, t := d[0], d[1..];
      assert d == [x] + t;
      DistinctCons(x, t);
      RemoveDistinct(t, k);
      if x.key != k {
        RemoveGetOther(t, k, x.key);
        DistinctCons(x, Remove(t, k));
      }
    }
  }

  /** On a real dict `del d[k]` cuts out exactly the one entry, so the
      other entries keep their relative order. */
  lemma {:induction false} RemoveCut<V>(d: Dict<V>, k: string)
    requires DistinctKeys(d) && Contains(d, k)
    ensures Remove(d, k) == d[..FirstPos(d, k)] + d[FirstPos(d, k) + 1..]
  {
    var x, t := d[0], d[1..];
    assert d == [x] + t;
    DistinctCons(x, t);
    FindCons(x, t, k);
    if x.key == k {
      RemoveAbsent(t, k);
    } else {
      RemoveCut(t, k);
      var j := FirstPos(t, k);
      assert FirstPos(d, k) == j + 1;
      assert d[..j + 1] == [x] + t[..j];
      assert d[j + 2..] == t[j + 1..];
    }
  }
}
