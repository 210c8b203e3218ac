/** `FastTravelUnorderedMap` of water/componet/fast_travel_unordered_map.h: a vector of entries with
    an index, where erasing moves the last entry into the gap; and the sweep of
    processes/gateway/anysdk_login_manager.cpp that erases while it iterates. */
module FastTravelMap {
  datatype Entry<K, V> = Entry(key: K, value: V)

  datatype Table<!K(==), V> = Table(vec: seq<Entry<K, V>>, index: map<K, nat>)

  // The index names exactly the keys of the vector, each at its only place.
  predicate Indexed<K, V>(t: Table<K, V>) {
    && (forall i :: 0 <= i < |t.vec| ==> t.vec[i].key in t.index && t.index[t.vec[i].key] == i)
    && (forall k <- t.index :: t.index[k] < |t.vec| && t.vec[t.index[k]].key == k)
  }

  // The finite map that a table stands for.
  function Contents<K, V>(t: Table<K, V>): map<K, V>
    requires Indexed(t)
  {
    map k | k in t.index :: t.vec[t.index[k]].value
  }

  // Entry i gives way to the last one.
  function SwapOut<T>(vec: seq<T>, i: nat): (r: seq<T>)
    requires i < |vec|
    ensures |r| == |vec| - 1
    ensures forall j :: 0 <= j < |r| ==> r[j] == if j == i then vec[|vec| - 1] else vec[j]
  {
    vec[i := vec[|vec| - 1]][..|vec| - 1]
  }

  function Erased<K, V>(t: Table<K, V>, i: nat): Table<K, V>
    requires i < |t.vec|
  {
    Table(SwapOut(t.vec, i), t.index[t.vec[|t.vec| - 1].key := i] - {t.vec[i].key})
  }

  lemma ErasedContents<K, V>(t: Table<K, V>, i: nat)
    requires Indexed(t) && i < |t.vec|
    ensures Indexed(Erased(t, i)) && Contents(Erased(t, i)) == Contents(t) - {t.vec[i].key}
  {
    var r := Erased(t, i);
    ErasedIndexed(t, i);
    forall k ensures k in r.index <==> k in t.index && k != t.vec[i].key {}
    forall k <- r.index ensures r.vec[r.index[k]].value == t.vec[t.index[k]].value {}
  }

  lemma ErasedIndexed<K, V>(t: Table<K, V>, i: nat)
    requires Indexed(t) && i < |t.vec|
    ensures Indexed(Erased(t, i))
  {
  }

  lemma Place<K, V>(t: Table<K, V>, key: K)
    requires Indexed(t) && key in t.index
    ensures t.index[key] < |t.vec| && t.vec[t.index[key]].key == key && t.vec[|t.vec| - 1].key in t.index
  {
  }

  lemma LastOne<K, V>(t: Table<K, V>)
    requires Indexed(t) && |t.vec| == 1
    ensures Erased(t, 0) == Table([], map[])
  {
    assert Erased(t, 0).vec == [];
    assert Erased(t, 0).index == map[];
  }

  // ---------------------------------------------------------------- the sweep

  // What is left of the table when the sweep goes on from entry i.
  function Swept<K, V>(t: Table<K, V>, i: nat, expired: V -> bool): Table<K, V>
    requires i <= |t.vec|
    decreases |t.vec| - i
  {
    if i == |t.vec| then t
    else if expired(t.vec[i].value) then Swept(Erased(t, i), i, expired)
    else Swept(t, i + 1, expired)
  }

  // The entries it looks at, in order.
  function Examined<K, V>(vec: seq<Entry<K, V>>, i: nat, expired: V -> bool): seq<Entry<K, V>>
    requires i <= |vec|
    decreases |vec| - i
  {
    if i == |vec| then []
    else if expired(vec[i].value) then [vec[i]] + Examined(SwapOut(vec, i), i, expired)
    else [vec[i]] + Examined(vec, i + 1, expired)
  }

  lemma SweepStep<K, V>(t: Table<K, V>, i: nat, expired: V -> bool)
    requires i < |t.vec|
    ensures |Erased(t, i).vec| == |t.vec| - 1
    ensures expired(t.vec[i].value) ==>
      && Swept(t, i, expired) == Swept(Erased(t, i), i, expired)
      && Examined(t.vec, i, expired) == [t.vec[i]] + Examined(Erased(t, i).vec, i, expired)
    ensures !expired(t.vec[i].value) ==>
      && Swept(t, i, expired) == Swept(t, i + 1, expired)
      && Examined(t.vec, i, expired) == [t.vec[i]] + Examined(t.vec, i + 1, expired)
  {
  }

  lemma SweepEnd<K, V>(t: Table<K, V>, expired: V -> bool)
    ensures Swept(t, |t.vec|, expired) == t && Examined(t.vec, |t.vec|, expired) == []
  {
  }

  // Every entry from i on is examined exactly once, although entries move under the sweep.
  lemma {:induction false} ExaminesOnce<K, V>(vec: seq<Entry<K, V>>, i: nat, expired: V -> bool)
    requires i <= |vec|
    ensures multiset(Examined(vec, i, expired)) == multiset(vec[i..])
    decreases |vec| - i
  {
    if i == |vec| {
      assert vec[i..] == [];
    } else if expired(vec[i].value) {
      ExaminesOnce(SwapOut(vec, i), i, expired);
      TailSwapped(vec, i);
    } else {
      ExaminesOnce(vec, i + 1, expired);
      assert vec[i..] == [vec[i]] + vec[i + 1..];
    }
  }

  lemma TailSwapped<T>(vec: seq<T>, i: nat)
    requires i < |vec|
    ensures multiset{vec[i]} + multiset(SwapOut(vec, i)[i..]) == multiset(vec[i..])
  {
    var last := |vec| - 1;
    if i == last {
      assert SwapOut(vec, i)[i..] == [] && vec[i..] == [vec[i]];
    } else {
      assert SwapOut(vec, i)[i..] == [vec[last]] + vec[i + 1..last];
      assert vec[i..] == [vec[i]] + vec[i + 1..last] + [vec[last]];
    }
  }

  function Unexpired<K, V>(m: map<K, V>, expired: V -> bool): map<K, V> {
    map k | k in m && !expired(m[k]) :: m[k]
  }

  // Exactly the unexpired entries are left.
  lemma {:induction false} SweepLeaves<K, V>(t: Table<K, V>, i: nat, expired: V -> bool)
    requires Indexed(t) && i <= |t.vec|
    requires forall j :: 0 <= j < i ==> !expired(t.vec[j].value)
    ensures Indexed(Swept(t, i, expired))
    ensures Contents(Swept(t, i, expired)) == Unexpired(Contents(t), expired)
    decreases |t.vec| - i
  {
    if i == |t.vec| {
      assert Contents(t) == Unexpired(Contents(t), expired);
    } else if expired(t.vec[i].value) {
      ErasedContents(t, i);
      SweepLeaves(Erased(t, i), i, expired);
      assert Unexpired(Contents(Erased(t, i)), expired) == Unexpired(Contents(t), expired) by {
        Forgotten(Contents(t), t.vec[i].key, expired);
      }
    } else {
      SweepLeaves(t, i + 1, expired);
    }
  }

  lemma Forgotten<K, V>(m: map<K, V>, key: K, expired: V -> bool)
    requires key in m && expired(m[key])
    ensures Unexpired(m - {key}, expired) == Unexpired(m, expired)
  {
  }

  // ---------------------------------------------------------------- the container

  class FastTravelUnorderedMap<!K(==), V> {
    var vec: seq<Entry<K, V>>
    var index: map<K, nat>

    ghost function Value(): Table<K, V>
      reads this
    {
      Table(vec, index)
    }

    constructor ()
      ensures Indexed(Value()) && vec == []
    {
      vec, index := [], map[];
    }

    method Insert(key: K, value: V) returns (ok: bool)
      requires Indexed(Value())
      modifies this
      ensures Indexed(Value())
      ensures ok <==> key !in old(Contents(Value()))
      ensures Contents(Value()) == if ok then old(Contents(Value()))[key := value] else old(Contents(Value()))
      ensures vec == if ok then old(vec) + [Entry(key, value)] else old(vec)
    {
      if key in index { return false; }
      index := index[key := |vec|];
      vec := vec + [Entry(key, value)];
      return true;
    }

    // The place of the key, or the end.
    method Find(key: K) returns (i: nat)
      requires Indexed(Value())
      ensures if key in Contents(Value()) then i < |vec| && vec[i] == Entry(key, Contents(Value())[key]) else i == |vec|
    {
      if key !in index { return |vec|; }
      i := index[key];
    }

    method Erase(key: K)
      requires Indexed(Value())
      modifies this
      ensures Indexed(Value()) && Contents(Value()) == old(Contents(Value())) - {key}
      ensures key !in old(index) ==> Value() == old(Value())
      ensures key in old(index) ==> Value() == Erased(old(Value()), old(index)[key])
    {
      if key !in index {
        assert Contents(Value()) == Contents(Value()) - {key};
        return;
      }
      hide Indexed, Contents;
      ghost var before := Value();
      Place(before, key);
      var i := index[key];
      ErasedContents(before, i);
      if |vec| == 1 {
        vec, index := [], map[];
        LastOne(before);
        return;
      }
      CloseGap(i);
    }

    // The entry that is moved is indexed already, so storing its new place adds no key.
    method CloseGap(i: nat)
      requires i < |vec| && vec[|vec| - 1].key in index
      modifies this
      ensures Value() == Erased(old(Value()), i)
    {
      var key := vec[i].key;
      if i + 1 != |vec| {
        var last := vec[|vec| - 1];
        vec := vec[i := last];
        index := index[last.key := i];
      }
      vec := vec[..|vec| - 1];
      index := index - {key};
      assert vec == Erased(old(Value()), i).vec;
      assert index == Erased(old(Value()), i).index;
    }

    // Erases the entry at a place; the same place then holds the next entry to look at.
    method EraseAt(i: nat) returns (next: nat)
      requires Indexed(Value()) && i < |vec|
      modifies this
      ensures next == i && Value() == Erased(old(Value()), i) && Indexed(Value())
    {
      next := index[vec[i].key];
      Erase(vec[i].key);
    }
  }

  // timerExec: drops what has expired.
  method DropExpired<K, V>(tokens: FastTravelUnorderedMap<K, V>, expired: V -> bool) returns (ghost seen: seq<Entry<K, V>>)
    requires Indexed(tokens.Value())
    modifies tokens
    ensures Indexed(tokens.Value()) && Contents(tokens.Value()) == Unexpired(old(Contents(tokens.Value())), expired)
    ensures multiset(seen) == multiset(old(tokens.vec))
  {
    hide Indexed, Contents, Unexpired, Swept, Examined, Erased;
    seen := [];
    var i := 0;
    ghost var before := tokens.Value();
    SweepLeaves(before, 0, expired);
    ExaminesOnce(before.vec, 0, expired);
    while i != |tokens.vec|
      invariant Indexed(tokens.Value()) && i <= |tokens.vec|
      invariant Swept(tokens.Value(), i, expired) == Swept(before, 0, expired)
      invariant seen + Examined(tokens.vec, i, expired) == Examined(before.vec, 0, expired)
      decreases |tokens.vec| - i
    {
      SweepStep(tokens.Value(), i, expired);
      seen := seen + [tokens.vec[i]];
      if expired(tokens.vec[i].value) {
        i := tokens.EraseAt(i);
      } else {
        i := i + 1;
      }
    }
    assert before.vec[0..] == before.vec;
    SweepEnd(tokens.Value(), expired);
  }
}
