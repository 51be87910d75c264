/** A table of slots, each free or holding a key and a value, read as a map. */
module SlotTables {

  datatype Slot<K, V> = Free | Used(key: K, value: V)

  ghost predicate UniqueKeys<K(!new), V(!new)>(t: seq<Slot<K, V>>) {
    forall i, j :: 0 <= i < j < |t| && t[i].Used? && t[j].Used? ==> t[i].key != t[j].key
  }

  /** The map a table stands for. */
  ghost function Entries<K(!new), V(!new)>(t: seq<Slot<K, V>>): (m: map<K, V>)
    requires UniqueKeys(t)
  {
    map i | 0 <= i < |t| && t[i].Used? :: t[i].key := t[i].value
  }

  lemma EntryIn<K(!new), V(!new)>(t: seq<Slot<K, V>>, i: nat)
    requires UniqueKeys(t) && i < |t| && t[i].Used?
    ensures t[i].key in Entries(t) && Entries(t)[t[i].key] == t[i].value
  {
  }

  lemma EntryAt<K(!new), V(!new)>(t: seq<Slot<K, V>>, k: K) returns (i: nat)
    requires UniqueKeys(t) && k in Entries(t)
    ensures i < |t| && t[i].Used? && t[i].key == k && Entries(t)[k] == t[i].value
  {
    i :| i < |t| && t[i].Used? && t[i].key == k;
  }

  lemma NotIn<K(!new), V(!new)>(t: seq<Slot<K, V>>, k: K)
    requires UniqueKeys(t) && forall i :: 0 <= i < |t| && t[i].Used? ==> t[i].key != k
    ensures k !in Entries(t)
  {
  }

  lemma EntriesAdd<K(!new), V(!new)>(t: seq<Slot<K, V>>, i: nat, k: K, v: V)
    requires UniqueKeys(t) && i < |t| && t[i].Free? && k !in Entries(t)
    ensures UniqueKeys(t[i := Used(k, v)]) && Entries(t[i := Used(k, v)]) == Entries(t)[k := v]
  {
    var t' := t[i := Used(k, v)];
    forall j | 0 <= j < |t| && t[j].Used? ensures t[j].key != k {
      EntryIn(t, j);
    }
    var m, m' := Entries(t)[k := v], Entries(t');
    forall x | x in m' ensures x in m && m'[x] == m[x] {
      var j := EntryAt(t', x);
      if j != i { EntryIn(t, j); }
    }
    forall x | x in m ensures x in m' {
      if x == k {
        EntryIn(t', i);
      } else {
        var j := EntryAt(t, x);
        EntryIn(t', j);
      }
    }
  }

  lemma EntriesRemove<K(!new), V(!new)>(t: seq<Slot<K, V>>, i: nat)
    requires UniqueKeys(t) && i < |t| && t[i].Used?
    ensures UniqueKeys(t[i := Free]) && Entries(t[i := Free]) == Entries(t) - {t[i].key}
  {
    var t' := t[i := Free];
    var m, m' := Entries(t) - {t[i].key}, Entries(t');
    forall x | x in m' ensures x in m && m'[x] == m[x] {
      var j := EntryAt(t', x);
      EntryIn(t, j);
    }
    forall x | x in m ensures x in m' {
      var j := EntryAt(t, x);
      EntryIn(t', j);
    }
  }

  lemma EntriesSnoc<K(!new), V(!new)>(t: seq<Slot<K, V>>, s: Slot<K, V>)
    requires UniqueKeys(t + [s])
    ensures UniqueKeys(t)
    ensures Entries(t + [s]) == match s case Free => Entries(t) case Used(k, v) => Entries(t)[k := v]
    ensures s.Used? ==> s.key !in Entries(t)
  {
    var t' := t + [s];
    assert forall j :: 0 <= j < |t| ==> t'[j] == t[j];
    forall j | 0 <= j < |t| && t[j].Used? && s.Used? ensures t[j].key != s.key {
      assert t'[j].Used? && t'[|t|].Used?;
    }
    var m, m' := (match s case Free => Entries(t) case Used(k, v) => Entries(t)[k := v]), Entries(t');
    forall x | x in m' ensures x in m && m'[x] == m[x] {
      var j := EntryAt(t', x);
      if j < |t| { EntryIn(t, j); }
    }
    forall x | x in m ensures x in m' {
      if s.Used? && x == s.key {
        EntryIn(t', |t|);
      } else {
        var j := EntryAt(t, x);
        EntryIn(t', j);
      }
    }
  }

  /** A table has room exactly when it holds fewer entries than it has slots. */
  lemma {:induction false} EntriesCount<K(!new), V(!new)>(t: seq<Slot<K, V>>)
    requires UniqueKeys(t)
    ensures |Entries(t)| <= |t|
    ensures |Entries(t)| == |t| <==> forall i :: 0 <= i < |t| ==> t[i].Used?
  {
    if t == [] {
      assert Entries(t) == map[];
    } else {
      var n := |t| - 1;
      assert t == t[..n] + [t[n]];
      EntriesSnoc(t[..n], t[n]);
      EntriesCount(t[..n]);
      assert forall i :: 0 <= i < n ==> t[i] == t[..n][i];
    }
  }
}
