/** A dictionary that remembers insertion order, as a sequence of entries with distinct keys. */
module Dicts {

  datatype Entry<K, V> = Entry(key: K, value: V)

  /** d[key] = value: in place if the key is there, else at the end. */
  function Put<K(==), V>(d: seq<Entry<K, V>>, key: K, value: V): seq<Entry<K, V>> {
    if d == [] then [Entry(key, value)]
    else if d[0].key == key then [Entry(key, value)] + d[1..]
    else [d[0]] + Put(d[1..], key, value)
  }

  /** Storing the pairs one after the other. */
  function Stored<K(==), V>(d: seq<Entry<K, V>>, pairs: seq<Entry<K, V>>): seq<Entry<K, V>> {
    if pairs == [] then d
    else Put(Stored(d, pairs[..|pairs| - 1]), pairs[|pairs| - 1].key, pairs[|pairs| - 1].value)
  }

  predicate DistinctKeys<K(==), V>(d: seq<Entry<K, V>>) {
    forall i, j :: 0 <= i < j < |d| ==> d[i].key != d[j].key
  }

  predicate HasKey<K(==), V>(d: seq<Entry<K, V>>, key: K) {
    exists i :: 0 <= i < |d| && d[i].key == key
  }

  lemma {:induction false} PutKeys<K, V>(d: seq<Entry<K, V>>, key: K, value: V, k: K)
    ensures HasKey(Put(d, key, value), k) <==> HasKey(d, k) || k == key
  {
    if d != [] && d[0].key != key {
      PutKeys(d[1..], key, value, k);
      HasKeyCons(d[0], d[1..], k);
      HasKeyCons(d[0], Put(d[1..], key, value), k);
      assert d == [d[0]] + d[1..];
    } else if d != [] {
      HasKeyCons(d[0], d[1..], k);
      HasKeyCons(Entry(key, value), d[1..], k);
      assert d == [d[0]] + d[1..];
    } else {
      assert [Entry(key, value)][0].key == key;
    }
  }

  lemma {:induction false} HasKeyCons<K, V>(e: Entry<K, V>, d: seq<Entry<K, V>>, k: K)
    ensures HasKey([e] + d, k) <==> e.key == k || HasKey(d, k)
  {
    assert ([e] + d)[0] == e;
    if HasKey(d, k) {
      var i :| 0 <= i < |d| && d[i].key == k;
      assert ([e] + d)[i + 1] == d[i];
    }
    if HasKey([e] + d, k) {
      var i :| 0 <= i < |[e] + d| && ([e] + d)[i].key == k;
      assert i > 0 ==> d[i - 1] == ([e] + d)[i];
    }
  }

  lemma {:induction false} PutDistinct<K, V>(d: seq<Entry<K, V>>, key: K, value: V)
    requires DistinctKeys(d)
    ensures DistinctKeys(Put(d, key, value))
  {
    if d != [] && d[0].key != key {
      var rest := Put(d[1..], key, value);
      PutDistinct(d[1..], key, value);
      PutKeys(d[1..], key, value, d[0].key);
      assert !HasKey(d[1..], d[0].key);
      forall i | 0 <= i < |rest| ensures rest[i].key != d[0].key {
      }
    }
  }

  /** A stored entry is the new one or was there before. */
  lemma {:induction false} PutEntries<K, V>(d: seq<Entry<K, V>>, key: K, value: V, i: nat)
    requires i < |Put(d, key, value)|
    ensures Put(d, key, value)[i] == Entry(key, value) || Put(d, key, value)[i] in d
  {
    if d != [] && d[0].key != key && i > 0 {
      PutEntries(d[1..], key, value, i - 1);
    }
  }

  /** A key that is not there goes to the end. */
  lemma {:induction false} PutNew<K, V>(d: seq<Entry<K, V>>, key: K, value: V)
    requires !HasKey(d, key)
    ensures Put(d, key, value) == d + [Entry(key, value)]
  {
    if d != [] {
      assert d == [d[0]] + d[1..];
      HasKeyCons(d[0], d[1..], key);
      PutNew(d[1..], key, value);
    }
  }

  lemma {:induction false} PutHolds<K, V>(d: seq<Entry<K, V>>, key: K, value: V, e: Entry<K, V>)
    requires e == Entry(key, value) || (e in d && e.key != key)
    ensures e in Put(d, key, value)
  {
    if d != [] && d[0].key != key {
      if e != d[0] {
        PutHolds(d[1..], key, value, e);
      }
    }
  }

  /** Pair i is the last of its key. */
  predicate LastFor<K(==), V>(pairs: seq<Entry<K, V>>, i: nat) {
    i < |pairs| && forall j :: i < j < |pairs| ==> pairs[j].key != pairs[i].key
  }

  /** The value given last is the one kept. */
  lemma {:induction false} LastIsStored<K, V>(pairs: seq<Entry<K, V>>, i: nat)
    requires LastFor(pairs, i)
    ensures pairs[i] in Stored([], pairs)
  {
    var n := |pairs| - 1;
    var last := pairs[n];
    if i < n {
      assert LastFor(pairs[..n], i);
      LastIsStored(pairs[..n], i);
    }
    PutHolds(Stored([], pairs[..n]), last.key, last.value, pairs[i]);
  }

  /** The keys stored are exactly those of the pairs, each once, each with a value it was given. */
  lemma {:induction false} StoredIsDict<K, V>(pairs: seq<Entry<K, V>>)
    ensures DistinctKeys(Stored([], pairs))
    ensures forall k :: HasKey(Stored([], pairs), k) <==> HasKey(pairs, k)
    ensures forall i :: 0 <= i < |Stored([], pairs)| ==> Stored([], pairs)[i] in pairs
  {
    if pairs != [] {
      var n := |pairs| - 1;
      var before, last := Stored([], pairs[..n]), pairs[n];
      StoredIsDict(pairs[..n]);
      PutDistinct(before, last.key, last.value);
      forall k ensures HasKey(Stored([], pairs), k) <==> HasKey(pairs, k) {
        PutKeys(before, last.key, last.value, k);
        HasKeyLast(pairs, k);
      }
      forall i | 0 <= i < |Stored([], pairs)| ensures Stored([], pairs)[i] in pairs {
        PutEntries(before, last.key, last.value, i);
        if Stored([], pairs)[i] in before {
          var j :| 0 <= j < |before| && before[j] == Stored([], pairs)[i];
          assert before[j] in pairs[..n];
        } else {
          assert last in pairs;
        }
      }
    }
  }

  lemma {:induction false} HasLast<K, V>(pairs: seq<Entry<K, V>>, k: K) returns (i: nat)
    requires HasKey(pairs, k)
    ensures LastFor(pairs, i) && pairs[i].key == k
  {
    var n := |pairs| - 1;
    if pairs[n].key == k {
      i := n;
    } else {
      HasKeyLast(pairs, k);
      i := HasLast(pairs[..n], k);
    }
  }

  /** What is stored is the last pair of every key, and nothing else. */
  lemma {:induction false} StoredAreLast<K, V>(pairs: seq<Entry<K, V>>, e: Entry<K, V>)
    ensures e in Stored([], pairs) <==> exists i :: 0 <= i < |pairs| && LastFor(pairs, i) && pairs[i] == e
  {
    var d := Stored([], pairs);
    StoredIsDict(pairs);
    if e in d {
      var j :| 0 <= j < |d| && d[j] == e;
      assert HasKey(d, e.key);
      var i := HasLast(pairs, e.key);
      LastIsStored(pairs, i);
      var k :| 0 <= k < |d| && d[k] == pairs[i];
      assert j == k;
    }
    if i :| 0 <= i < |pairs| && LastFor(pairs, i) && pairs[i] == e {
      LastIsStored(pairs, i);
    }
  }

  lemma {:induction false} HasKeyLast<K, V>(pairs: seq<Entry<K, V>>, k: K)
    requires pairs != []
    ensures HasKey(pairs, k) <==> HasKey(pairs[..|pairs| - 1], k) || pairs[|pairs| - 1].key == k
  {
    var n := |pairs| - 1;
    if HasKey(pairs[..n], k) {
      var i :| 0 <= i < n && pairs[..n][i].key == k;
      assert pairs[i].key == k;
    }
    if HasKey(pairs, k) {
      var i :| 0 <= i < |pairs| && pairs[i].key == k;
      assert i < n ==> pairs[..n][i] == pairs[i];
    }
  }

  /** Pairs with distinct keys are stored as they come. */
  lemma {:induction false} DistinctStored<K, V>(pairs: seq<Entry<K, V>>)
    requires DistinctKeys(pairs)
    ensures Stored([], pairs) == pairs
  {
    if pairs != [] {
      var n := |pairs| - 1;
      DistinctStored(pairs[..n]);
      assert !HasKey(pairs[..n], pairs[n].key);
      PutNew(pairs[..n], pairs[n].key, pairs[n].value);
      assert pairs == pairs[..n] + [pairs[n]];
    }
  }

  lemma {:induction false} StoredAppend<K, V>(d: seq<Entry<K, V>>, a: seq<Entry<K, V>>, b: seq<Entry<K, V>>)
    ensures Stored(Stored(d, a), b) == Stored(d, a + b)
  {
    if b == [] {
      assert a + b == a;
    } else {
      StoredAppend(d, a, b[..|b| - 1]);
      assert (a + b)[..|a + b| - 1] == a + b[..|b| - 1];
    }
  }
}
