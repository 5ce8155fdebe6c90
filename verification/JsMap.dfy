/**
  JavaScript's `Map`: iteration is in insertion order, and setting a key that is present keeps its place. A map
  is the list of its entries. Two uses of it recur in the enclave, and are stated and proved once here: deleting
  entries while iterating over them, and deleting the first key until one more fits.
*/
module JsMap {
  import opened Wrappers

  datatype Entry<+V> = Entry(key: string, value: V)

  predicate DistinctKeys<V>(m: seq<Entry<V>>) {
    forall i, j :: 0 <= i < j < |m| ==> m[i].key != m[j].key
  }

  function Get<V>(m: seq<Entry<V>>, key: string): Option<V> {
    if m == [] then None else if m[0].key == key then Some(m[0].value) else Get(m[1..], key)
  }

  function Set<V>(m: seq<Entry<V>>, key: string, value: V): seq<Entry<V>> {
    if m == [] then [Entry(key, value)]
    else if m[0].key == key then [Entry(key, value)] + m[1..]
    else [m[0]] + Set(m[1..], key, value)
  }

  function Delete<V>(m: seq<Entry<V>>, key: string): seq<Entry<V>> {
    if m == [] then []
    else if m[0].key == key then Delete(m[1..], key)
    else [m[0]] + Delete(m[1..], key)
  }

  /** The entries that satisfy `keep`, in order. */
  function Keep<V>(m: seq<Entry<V>>, keep: V -> bool): seq<Entry<V>> {
    if m == [] then []
    else if keep(m[0].value) then [m[0]] + Keep(m[1..], keep)
    else Keep(m[1..], keep)
  }

  predicate Has<V>(m: seq<Entry<V>>, key: string) {
    exists i :: 0 <= i < |m| && m[i].key == key
  }

  lemma {:induction false} GetHas<V>(m: seq<Entry<V>>, key: string)
    ensures Get(m, key).Some? <==> Has(m, key)
    ensures Get(m, key).Some? ==> Entry(key, Get(m, key).value) in m
  {
    if m != [] {
      GetHas(m[1..], key);
      if m[0].key != key && Has(m, key) {
        var i :| 0 <= i < |m| && m[i].key == key;
        assert m[1..][i - 1].key == key;
      }
    }
  }

  lemma {:induction false} GetOfMember<V>(m: seq<Entry<V>>, e: Entry<V>)
    requires DistinctKeys(m) && e in m
    ensures Get(m, e.key) == Some(e.value)
  {
    if m[0] != e {
      assert m == [m[0]] + m[1..];
      GetOfMember(m[1..], e);
    }
  }

  lemma {:induction false} SetGets<V>(m: seq<Entry<V>>, key: string, value: V, k: string)
    ensures Get(Set(m, key, value), k) == if k == key then Some(value) else Get(m, k)
  {
    if m != [] && m[0].key != key { SetGets(m[1..], key, value, k); }
  }

  lemma {:induction false} SetHas<V>(m: seq<Entry<V>>, key: string, value: V)
    ensures |Set(m, key, value)| == if Has(m, key) then |m| else |m| + 1
    ensures Has(m, key) ==> forall i :: 0 <= i < |m| ==> Set(m, key, value)[i].key == m[i].key
    ensures !Has(m, key) ==> Set(m, key, value) == m + [Entry(key, value)]
  {
    if m != [] && m[0].key != key {
      SetHas(m[1..], key, value);
      HasTail(m, key);
      assert m == [m[0]] + m[1..];
    }
  }

  lemma HasTail<V>(m: seq<Entry<V>>, key: string)
    requires m != [] && m[0].key != key
    ensures Has(m, key) <==> Has(m[1..], key)
  {
    if Has(m, key) {
      var i :| 0 <= i < |m| && m[i].key == key;
      assert m[1..][i - 1].key == key;
    }
  }

  lemma SetKeepsDistinct<V>(m: seq<Entry<V>>, key: string, value: V)
    requires DistinctKeys(m)
    ensures DistinctKeys(Set(m, key, value))
  {
    SetHas(m, key, value);
  }

  lemma {:induction false} DeleteMembers<V>(m: seq<Entry<V>>, key: string, e: Entry<V>)
    ensures e in Delete(m, key) <==> e in m && e.key != key
  {
    if m != [] {
      DeleteMembers(m[1..], key, e);
      assert m == [m[0]] + m[1..];
    }
  }

  lemma {:induction false} DeleteKeepsDistinct<V>(m: seq<Entry<V>>, key: string)
    requires DistinctKeys(m)
    ensures DistinctKeys(Delete(m, key))
  {
    if m != [] {
      DeleteKeepsDistinct(m[1..], key);
      forall i | 0 <= i < |Delete(m[1..], key)| ensures Delete(m[1..], key)[i].key != m[0].key {
        var e := Delete(m[1..], key)[i];
        DeleteMembers(m[1..], key, e);
        var k :| 0 <= k < |m[1..]| && m[1..][k] == e;
        assert m[k + 1] == e;
      }
    }
  }

  lemma {:induction false} DeleteGets<V>(m: seq<Entry<V>>, key: string, k: string)
    ensures Get(Delete(m, key), k) == if k == key then None else Get(m, k)
  {
    if m != [] { DeleteGets(m[1..], key, k); }
  }

  lemma {:induction false} DeleteAbsent<V>(m: seq<Entry<V>>, key: string)
    requires !Has(m, key)
    ensures Delete(m, key) == m
  {
    if m != [] {
      HasTail(m, key);
      DeleteAbsent(m[1..], key);
    }
  }

  /** Deleting the entry at an index. */
  lemma {:induction false} DeleteAt<V>(m: seq<Entry<V>>, i: nat)
    requires DistinctKeys(m) && i < |m|
    ensures Delete(m, m[i].key) == m[..i] + m[i + 1..]
  {
    if i == 0 {
      assert !Has(m[1..], m[0].key);
      DeleteAbsent(m[1..], m[0].key);
    } else {
      DeleteAt(m[1..], i - 1);
      assert m[1..][i - 1] == m[i] && m[..i] == [m[0]] + m[1..][..i - 1];
      assert m[1..][i..] == m[i + 1..];
    }
  }

  lemma {:induction false} KeepMembers<V>(m: seq<Entry<V>>, keep: V -> bool, e: Entry<V>)
    ensures e in Keep(m, keep) <==> e in m && keep(e.value)
  {
    if m != [] {
      KeepMembers(m[1..], keep, e);
      assert m == [m[0]] + m[1..];
    }
  }

  lemma {:induction false} KeepAppend<V>(a: seq<Entry<V>>, b: seq<Entry<V>>, keep: V -> bool)
    ensures Keep(a + b, keep) == Keep(a, keep) + Keep(b, keep)
  {
    if a == [] {
      assert a + b == b;
    } else {
      KeepAppend(a[1..], b, keep);
      assert (a + b)[0] == a[0] && (a + b)[1..] == a[1..] + b;
      var rest, more := Keep(a[1..], keep), Keep(b, keep);
      assert [a[0]] + (rest + more) == [a[0]] + rest + more;
    }
  }

  lemma {:induction false} KeepKeepsDistinct<V>(m: seq<Entry<V>>, keep: V -> bool)
    requires DistinctKeys(m)
    ensures DistinctKeys(Keep(m, keep)) && |Keep(m, keep)| <= |m|
  {
    if m != [] {
      KeepKeepsDistinct(m[1..], keep);
      forall i | 0 <= i < |Keep(m[1..], keep)| ensures Keep(m[1..], keep)[i].key != m[0].key {
        var e := Keep(m[1..], keep)[i];
        KeepMembers(m[1..], keep, e);
        var k :| 0 <= k < |m[1..]| && m[1..][k] == e;
        assert m[k + 1] == e;
      }
    }
  }

  /** What is kept of a map is what was found and is kept. */
  lemma KeepGets<V>(m: seq<Entry<V>>, keep: V -> bool, key: string)
    requires DistinctKeys(m)
    ensures Get(Keep(m, keep), key) == match Get(m, key) case Some(v) => (if keep(v) then Some(v) else None)
            case None => None
  {
    var kept := Keep(m, keep);
    KeepKeepsDistinct(m, keep);
    GetHas(m, key);
    GetHas(kept, key);
    if Get(kept, key).Some? {
      var e := Entry(key, Get(kept, key).value);
      KeepMembers(m, keep, e);
      GetOfMember(m, e);
    } else if Get(m, key).Some? {
      var e := Entry(key, Get(m, key).value);
      KeepMembers(m, keep, e);
      if keep(e.value) { GetOfMember(kept, e); }
    }
  }

  /** Without its oldest places, so that one more fits within `max`. */
  function MakeRoom<V>(m: seq<Entry<V>>, max: nat): seq<Entry<V>> {
    if |m| < max then m else if max == 0 then [] else m[|m| - max + 1..]
  }

  // ------------------------------------------------------------ deleting while iterating

  /**
    A map after the iteration over it met `j` of its entries and deleted those not to be kept: the first `i` of
    those left were kept.
  */
  ghost predicate Reaping<V>(m: seq<Entry<V>>, keep: V -> bool, j: nat, now: seq<Entry<V>>, i: nat) {
    && j <= |m| && |now| == i + (|m| - j)
    && i == |Keep(m[..j], keep)| && now == Keep(m[..j], keep) + m[j..]
  }

  lemma ReapStart<V>(m: seq<Entry<V>>, keep: V -> bool)
    ensures Reaping(m, keep, 0, m, 0)
  {
    assert m[..0] == [] && [] + m[0..] == m;
  }

  lemma ReapStep<V>(m: seq<Entry<V>>, keep: V -> bool, j: nat, now: seq<Entry<V>>, i: nat)
    requires Reaping(m, keep, j, now, i) && i < |now| && DistinctKeys(now)
    ensures j < |m| && now[i] == m[j]
    ensures keep(now[i].value) ==> Reaping(m, keep, j + 1, now, i + 1)
    ensures !keep(now[i].value) ==> Reaping(m, keep, j + 1, Delete(now, now[i].key), i)
    ensures DistinctKeys(Delete(now, now[i].key))
  {
    var kept := Keep(m[..j], keep);
    KeepNext(m, keep, j);
    Around(kept, m, j);
    DeleteAt(now, i);
    DeleteKeepsDistinct(now, now[i].key);
  }

  lemma KeepNext<V>(m: seq<Entry<V>>, keep: V -> bool, j: nat)
    requires j < |m|
    ensures Keep(m[..j + 1], keep) == if keep(m[j].value) then Keep(m[..j], keep) + [m[j]] else Keep(m[..j], keep)
  {
    assert m[..j + 1] == m[..j] + [m[j]];
    KeepAppend(m[..j], [m[j]], keep);
    assert Keep([m[j]], keep) == if keep(m[j].value) then [m[j]] else [];
  }

  lemma Around<E>(a: seq<E>, m: seq<E>, j: nat)
    requires j < |m|
    ensures var now := a + m[j..];
            now[|a|] == m[j] && now[..|a|] == a && now[|a| + 1..] == m[j + 1..] && now == a + [m[j]] + m[j + 1..]
  {}

  lemma ReapEnd<V>(m: seq<Entry<V>>, keep: V -> bool, j: nat, now: seq<Entry<V>>, i: nat)
    requires Reaping(m, keep, j, now, i) && i >= |now|
    ensures j == |m| && now == Keep(m, keep)
  {
    assert m[..|m|] == m;
  }

  /** `for (const [key, value] of entries) if (…) entries.delete(key)`. */
  method ReapEntries<V>(entries: seq<Entry<V>>, keep: V -> bool) returns (kept: seq<Entry<V>>, removed: nat)
    requires DistinctKeys(entries)
    ensures DistinctKeys(kept) && kept == Keep(entries, keep) && removed == |entries| - |kept|
  {
    kept, removed := entries, 0;
    var i := 0;
    ghost var j := 0;
    ReapStart(entries, keep);
    while i < |kept|
      invariant DistinctKeys(kept) && Reaping(entries, keep, j, kept, i)
      invariant i + removed == j <= |entries|
      decreases |entries| - j
    {
      ReapStep(entries, keep, j, kept, i);
      if !keep(kept[i].value) {
        kept := Delete(kept, kept[i].key);
        removed := removed + 1;
      } else {
        i := i + 1;
      }
      j := j + 1;
    }
    ReapEnd(entries, keep, j, kept, i);
  }

  lemma DropFirst<V>(m: seq<Entry<V>>)
    requires DistinctKeys(m) && m != []
    ensures Delete(m, m[0].key) == m[1..] && DistinctKeys(m[1..])
  {
    DeleteAt(m, 0);
    assert m[..0] + m[1..] == m[1..];
  }

  /** Deletes the first key until one more fits. */
  method DropOldest<V>(entries: seq<Entry<V>>, max: nat) returns (m: seq<Entry<V>>)
    requires DistinctKeys(entries)
    ensures DistinctKeys(m) && m == MakeRoom(entries, max)
  {
    m := entries;
    ghost var k := 0;
    while |m| >= max && m != []
      invariant DistinctKeys(m) && k <= |entries| && m == entries[k..] && (k > 0 ==> |entries| - k + 1 >= max)
      decreases |m|
    {
      DropFirst(m);
      assert entries[k..][1..] == entries[k + 1..];
      m := Delete(m, m[0].key);
      k := k + 1;
    }
  }
}
