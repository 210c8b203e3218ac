/** `LimitedSizeUnorderedMapCache` of water/componet/limited_size_unordered_map_cache.h: a list in
    the order of last use and a map from keys to list nodes. It is compared with a map that carries
    time stamps and drops its oldest entry. */
module LruCache {
  // A list node; its id stands for its address, which splicing does not change.
  datatype Node<K, V> = Node(id: nat, key: K, value: V)

  function PosOf<K(==), V>(list: seq<Node<K, V>>, key: K): (p: nat)
    ensures p <= |list| && (p < |list| ==> list[p].key == key)
    ensures forall i :: 0 <= i < p ==> list[i].key != key
  {
    if list == [] then 0 else if list[0].key == key then 0 else 1 + PosOf(list[1..], key)
  }

  function ToFront<T>(list: seq<T>, p: nat): (r: seq<T>)
    requires p < |list|
    ensures |r| == |list|
  {
    [list[p]] + list[..p] + list[p + 1..]
  }

  function Without<T>(list: seq<T>, p: nat): (r: seq<T>)
    requires p < |list|
    ensures |r| == |list| - 1
  {
    list[..p] + list[p + 1..]
  }

  // ---------------------------------------------------------------- the list under the operations

  function Inserted<K(==), V>(list: seq<Node<K, V>>, maxSize: nat, node: Node<K, V>): seq<Node<K, V>> {
    if PosOf(list, node.key) < |list| then list
    else
      var l := [node] + list;
      if |l| > maxSize then l[..|l| - 1] else l
  }

  function Found<K(==), V>(list: seq<Node<K, V>>, key: K): seq<Node<K, V>> {
    var p := PosOf(list, key);
    if p < |list| then ToFront(list, p) else list
  }

  function Erased<K(==), V>(list: seq<Node<K, V>>, key: K): seq<Node<K, V>> {
    var p := PosOf(list, key);
    if p < |list| then Without(list, p) else list
  }

  datatype Op<K, V> = Insert(node: Node<K, V>) | Find(key: K) | Erase(key: K)

  function Apply<K(==), V>(list: seq<Node<K, V>>, maxSize: nat, op: Op<K, V>): seq<Node<K, V>> {
    match op
    case Insert(node) => Inserted(list, maxSize, node)
    case Find(key) => Found(list, key)
    case Erase(key) => Erased(list, key)
  }

  function Run<K(==), V>(maxSize: nat, ops: seq<Op<K, V>>): seq<Node<K, V>> {
    if ops == [] then [] else Apply(Run(maxSize, ops[..|ops| - 1]), maxSize, ops[|ops| - 1])
  }

  // ---------------------------------------------------------------- the map with time stamps

  datatype Stamped<V> = Stamped(value: V, time: nat)

  predicate Oldest<K, V>(m: map<K, Stamped<V>>, k: K) {
    k in m && forall j <- m :: m[k].time <= m[j].time
  }

  function WithoutOldest<K(==), V>(m: map<K, Stamped<V>>): map<K, Stamped<V>> {
    map k | k in m && !Oldest(m, k) :: m[k]
  }

  // Successful insertions and finds stamp their key; beyond maxSize the oldest stamp goes.
  function ApplyStamped<K(==), V>(m: map<K, Stamped<V>>, maxSize: nat, op: Op<K, V>, now: nat): map<K, Stamped<V>> {
    match op
    case Insert(node) =>
      if node.key in m then m
      else
        var grown := m[node.key := Stamped(node.value, now)];
        if |grown| > maxSize then WithoutOldest(grown) else grown
    case Find(key) => if key in m then m[key := Stamped(m[key].value, now)] else m
    case Erase(key) => m - {key}
  }

  function RunStamped<K(==), V>(maxSize: nat, ops: seq<Op<K, V>>): map<K, Stamped<V>> {
    if ops == [] then map[]
    else ApplyStamped(RunStamped(maxSize, ops[..|ops| - 1]), maxSize, ops[|ops| - 1], |ops| - 1)
  }

  // The map has exactly the keys of the list.
  predicate SameKeys<K(==), V, W>(list: seq<Node<K, V>>, m: map<K, W>) {
    && (forall i :: 0 <= i < |list| ==> list[i].key in m)
    && (forall k <- m :: PosOf(list, k) < |list|)
  }

  // Same values, listed from the latest stamp to the earliest, none of them later than now.
  ghost predicate InStampOrder<K, V>(list: seq<Node<K, V>>, m: map<K, Stamped<V>>, now: nat)
    requires SameKeys(list, m)
  {
    && (forall i :: 0 <= i < |list| ==> m[list[i].key].value == list[i].value && m[list[i].key].time < now)
    && (forall i, j :: 0 <= i < j < |list| ==> m[list[i].key].time > m[list[j].key].time)
  }

  ghost predicate Agrees<K, V>(list: seq<Node<K, V>>, m: map<K, Stamped<V>>, now: nat) {
    SameKeys(list, m) && InStampOrder(list, m, now)
  }

  lemma {:induction false} SameSize<K, V, W>(list: seq<Node<K, V>>, m: map<K, W>)
    requires SameKeys(list, m) && forall i, j :: 0 <= i < j < |list| ==> list[i].key != list[j].key
    ensures |m| == |list|
    decreases |list|
  {
    hide PosOf, SameKeys;
    if list == [] {
      NoKeys(list, m);
    } else {
      var last := |list| - 1;
      LessOne(list, m);
      SameSize(list[..last], m - {list[last].key});
      OneFewer(m, list[last].key);
    }
  }

  lemma NoKeys<K, V, W>(list: seq<Node<K, V>>, m: map<K, W>)
    requires SameKeys(list, m) && list == []
    ensures |m| == 0
  {
    assert m == map[];
  }

  lemma LessOne<K, V, W>(list: seq<Node<K, V>>, m: map<K, W>)
    requires SameKeys(list, m) && list != [] && forall i, j :: 0 <= i < j < |list| ==> list[i].key != list[j].key
    ensures list[|list| - 1].key in m && SameKeys(list[..|list| - 1], m - {list[|list| - 1].key})
  {
    hide PosOf;
    var front := list[..|list| - 1];
    forall k <- m - {list[|list| - 1].key} ensures PosOf(front, k) < |front| {
      assert front[PosOf(list, k)].key == k;
    }
  }

  lemma OneFewer<K, W>(m: map<K, W>, k: K)
    requires k in m
    ensures |m| == |m - {k}| + 1
  {
    assert m.Keys == (m - {k}).Keys + {k};
    assert |m| == |m.Keys| && |m - {k}| == |(m - {k}).Keys|;
  }

  lemma InsertAgrees<K, V>(list: seq<Node<K, V>>, maxSize: nat, m: map<K, Stamped<V>>, now: nat, node: Node<K, V>)
    requires Agrees(list, m, now)
    ensures Agrees(Inserted(list, maxSize, node), ApplyStamped(m, maxSize, Insert(node), now), now + 1)
  {
    hide PosOf, InStampOrder;
    if node.key in m {
      Later(list, m, now);
    } else {
      var l := [node] + list;
      var grown := m[node.key := Stamped(node.value, now)];
      GrownAgrees(list, m, now, node);
      DistinctKeys(l, grown, now + 1);
      SameSize(l, grown);
      if |l| > maxSize { TrimAgrees(l, grown, now + 1); }
      assert PosOf(list, node.key) == |list|;
    }
  }

  lemma Later<K, V>(list: seq<Node<K, V>>, m: map<K, Stamped<V>>, now: nat)
    requires Agrees(list, m, now)
    ensures Agrees(list, m, now + 1)
  {
  }

  lemma DistinctKeys<K, V>(list: seq<Node<K, V>>, m: map<K, Stamped<V>>, now: nat)
    requires Agrees(list, m, now)
    ensures forall i, j :: 0 <= i < j < |list| ==> list[i].key != list[j].key
  {
    hide PosOf;
  }

  lemma GrownKeys<K, V, W>(list: seq<Node<K, V>>, m: map<K, W>, node: Node<K, V>, w: W)
    requires SameKeys(list, m)
    ensures SameKeys([node] + list, m[node.key := w])
  {
    hide PosOf;
    var l := [node] + list;
    forall k <- m[node.key := w] ensures PosOf(l, k) < |l| {
      assert l[if k == node.key then 0 else PosOf(list, k) + 1].key == k;
    }
  }

  lemma GrownAgrees<K, V>(list: seq<Node<K, V>>, m: map<K, Stamped<V>>, now: nat, node: Node<K, V>)
    requires Agrees(list, m, now) && node.key !in m
    ensures Agrees([node] + list, m[node.key := Stamped(node.value, now)], now + 1)
  {
    hide PosOf;
    GrownKeys(list, m, node, Stamped(node.value, now));
    var l := [node] + list;
    assert l[0] == node && forall i :: 0 < i < |l| ==> l[i] == list[i - 1];
  }

  // The last node of the list is the one with the oldest stamp, and the only one.
  lemma OldestIsLast<K, V>(list: seq<Node<K, V>>, m: map<K, Stamped<V>>, now: nat)
    requires Agrees(list, m, now) && list != []
    ensures forall k <- m :: Oldest(m, k) <==> k == list[|list| - 1].key
  {
    hide PosOf;
    var last := |list| - 1;
    forall k <- m ensures Oldest(m, k) <==> k == list[last].key {
      assert list[PosOf(list, k)].key == k;
      if k == list[last].key {
        forall j <- m ensures m[k].time <= m[j].time { assert list[PosOf(list, j)].key == j; }
      }
    }
  }

  lemma TrimAgrees<K, V>(list: seq<Node<K, V>>, m: map<K, Stamped<V>>, now: nat)
    requires Agrees(list, m, now) && list != []
    ensures Agrees(list[..|list| - 1], WithoutOldest(m), now)
  {
    hide PosOf, Oldest;
    OldestIsLast(list, m, now);
    var rest := list[..|list| - 1];
    forall k <- WithoutOldest(m) ensures PosOf(rest, k) < |rest| {
      assert rest[PosOf(list, k)].key == k;
    }
  }

  lemma FindAgrees<K, V>(list: seq<Node<K, V>>, m: map<K, Stamped<V>>, now: nat, key: K, maxSize: nat)
    requires Agrees(list, m, now)
    ensures Agrees(Found(list, key), ApplyStamped(m, maxSize, Find(key), now), now + 1)
  {
    hide PosOf;
    if key in m {
      FrontAgrees(list, m, now, PosOf(list, key));
    } else {
      assert PosOf(list, key) == |list|;
      Later(list, m, now);
    }
  }

  // Where the nodes of the rearranged lists come from.
  function FrontSource(p: nat, i: nat): nat {
    if i == 0 then p else if i <= p then i - 1 else i
  }

  lemma FrontIndex<T>(list: seq<T>, p: nat, i: nat)
    requires p < |list| && i < |list|
    ensures ToFront(list, p)[i] == list[FrontSource(p, i)]
    ensures ToFront(list, p)[if i == p then 0 else if i < p then i + 1 else i] == list[i]
  {
  }

  lemma WithoutIndex<T>(list: seq<T>, p: nat, i: nat)
    requires p < |list| && i < |list|
    ensures i < |list| - 1 ==> Without(list, p)[i] == list[if i < p then i else i + 1]
    ensures i != p ==> Without(list, p)[if i < p then i else i - 1] == list[i]
  {
  }

  lemma FrontKeys<K, V, W>(list: seq<Node<K, V>>, m: map<K, W>, p: nat)
    requires SameKeys(list, m) && p < |list|
    ensures SameKeys(ToFront(list, p), m)
  {
    hide PosOf, ToFront;
    var r := ToFront(list, p);
    forall k <- m ensures PosOf(r, k) < |r| { FrontIndex(list, p, PosOf(list, k)); }
    forall i | 0 <= i < |r| ensures r[i].key in m { FrontIndex(list, p, i); }
  }

  lemma FrontAgrees<K, V>(list: seq<Node<K, V>>, m: map<K, Stamped<V>>, now: nat, p: nat)
    requires Agrees(list, m, now) && p < |list|
    ensures Agrees(ToFront(list, p), m[list[p].key := Stamped(list[p].value, now)], now + 1)
  {
    hide PosOf, ToFront;
    DistinctKeys(list, m, now);
    FrontKeys(list, m, p);
    var r, t := ToFront(list, p), m[list[p].key := Stamped(list[p].value, now)];
    forall i | 0 <= i < |r| ensures t[r[i].key].value == r[i].value && t[r[i].key].time < now + 1 {
      FrontIndex(list, p, i);
    }
    forall i, j | 0 <= i < j < |r| ensures t[r[i].key].time > t[r[j].key].time {
      FrontOrder(list, m, now, p, i, j);
    }
  }

  lemma FrontOrder<K, V>(list: seq<Node<K, V>>, m: map<K, Stamped<V>>, now: nat, p: nat, i: nat, j: nat)
    requires Agrees(list, m, now) && p < |list| && i < j < |list|
    ensures var r, t := ToFront(list, p), m[list[p].key := Stamped(list[p].value, now)];
      r[i].key in t && r[j].key in t && t[r[i].key].time > t[r[j].key].time
  {
    hide PosOf, ToFront;
    DistinctKeys(list, m, now);
    FrontIndex(list, p, i);
    FrontIndex(list, p, j);
  }

  lemma EraseAgrees<K, V>(list: seq<Node<K, V>>, m: map<K, Stamped<V>>, now: nat, key: K)
    requires Agrees(list, m, now)
    ensures Agrees(Erased(list, key), m - {key}, now + 1)
  {
    hide PosOf;
    if key in m {
      WithoutAgrees(list, m, now, PosOf(list, key));
    } else {
      assert PosOf(list, key) == |list|;
      assert m - {key} == m;
      Later(list, m, now);
    }
  }

  lemma WithoutKeys<K, V, W>(list: seq<Node<K, V>>, m: map<K, W>, p: nat)
    requires SameKeys(list, m) && p < |list|
    requires forall i, j :: 0 <= i < j < |list| ==> list[i].key != list[j].key
    ensures SameKeys(Without(list, p), m - {list[p].key})
  {
    hide PosOf, Without;
    var r := Without(list, p);
    forall k <- m - {list[p].key} ensures PosOf(r, k) < |r| { WithoutIndex(list, p, PosOf(list, k)); }
    forall i | 0 <= i < |r| ensures r[i].key in m - {list[p].key} { WithoutIndex(list, p, i); }
  }

  lemma WithoutAgrees<K, V>(list: seq<Node<K, V>>, m: map<K, Stamped<V>>, now: nat, p: nat)
    requires Agrees(list, m, now) && p < |list|
    ensures Agrees(Without(list, p), m - {list[p].key}, now + 1)
  {
    hide PosOf, Without;
    DistinctKeys(list, m, now);
    WithoutKeys(list, m, p);
    var r, t := Without(list, p), m - {list[p].key};
    forall i | 0 <= i < |r| ensures t[r[i].key].value == r[i].value && t[r[i].key].time < now + 1 {
      WithoutIndex(list, p, i);
    }
    forall i, j | 0 <= i < j < |r| ensures t[r[i].key].time > t[r[j].key].time {
      WithoutIndex(list, p, i);
      WithoutIndex(list, p, j);
    }
  }

  // After any run the list is the time-stamped map, in the order of last use.
  lemma {:induction false} RunAgrees<K, V>(maxSize: nat, ops: seq<Op<K, V>>)
    ensures Agrees(Run(maxSize, ops), RunStamped(maxSize, ops), |ops|)
    decreases |ops|
  {
    hide Agrees, Inserted, Found, Erased;
    if ops == [] {
      NothingYet<K, V>();
    } else {
      var before, now := ops[..|ops| - 1], |ops| - 1;
      RunAgrees(maxSize, before);
      var list, m := Run(maxSize, before), RunStamped(maxSize, before);
      match ops[now]
      case Insert(node) => InsertAgrees(list, maxSize, m, now, node);
      case Find(key) => FindAgrees(list, m, now, key, maxSize);
      case Erase(key) => EraseAgrees(list, m, now, key);
    }
  }

  lemma NothingYet<K, V>()
    ensures Agrees<K, V>([], map[], 0)
  {
  }

  lemma {:induction false} NeverTooLarge<K, V>(maxSize: nat, ops: seq<Op<K, V>>)
    ensures |Run(maxSize, ops)| <= maxSize && |RunStamped(maxSize, ops)| == |Run(maxSize, ops)|
    decreases |ops|
  {
    RunAgrees(maxSize, ops);
    SameSize(Run(maxSize, ops), RunStamped(maxSize, ops));
    if ops != [] { NeverTooLarge(maxSize, ops[..|ops| - 1]); }
  }

  // An insertion into a full cache pushes out the entry that was used before all others.
  lemma EvictsLeastRecent<K, V>(maxSize: nat, ops: seq<Op<K, V>>, node: Node<K, V>, gone: K)
    requires |Run(maxSize, ops)| == maxSize > 0 && node.key !in RunStamped(maxSize, ops)
    requires gone == Run(maxSize, ops)[maxSize - 1].key
    ensures Oldest(RunStamped(maxSize, ops), gone)
    ensures RunStamped(maxSize, ops + [Insert(node)])
         == (RunStamped(maxSize, ops) - {gone})[node.key := Stamped(node.value, |ops|)]
  {
    hide PosOf, Run, RunStamped, Agrees, SameKeys, WithoutOldest;
    var list, m := Run(maxSize, ops), RunStamped(maxSize, ops);
    RunAgrees(maxSize, ops);
    OldestIsLast(list, m, |ops|);
    Evicts(list, m, maxSize, node, |ops|);
    StampedStep(maxSize, ops, Insert(node));
    assert gone in m by { LastIn(list, m, |ops|); }
  }

  lemma LastIn<K, V>(list: seq<Node<K, V>>, m: map<K, Stamped<V>>, now: nat)
    requires Agrees(list, m, now) && list != []
    ensures list[|list| - 1].key in m
  {
  }

  lemma StampedStep<K, V>(maxSize: nat, ops: seq<Op<K, V>>, op: Op<K, V>)
    ensures RunStamped(maxSize, ops + [op]) == ApplyStamped(RunStamped(maxSize, ops), maxSize, op, |ops|)
  {
    assert (ops + [op])[..|ops|] == ops;
  }

  lemma Evicts<K, V>(list: seq<Node<K, V>>, m: map<K, Stamped<V>>, maxSize: nat, node: Node<K, V>, now: nat)
    requires Agrees(list, m, now) && |list| == maxSize > 0 && node.key !in m
    ensures ApplyStamped(m, maxSize, Insert(node), now) == (m - {list[maxSize - 1].key})[node.key := Stamped(node.value, now)]
  {
    hide PosOf, Oldest, Agrees;
    var grown, l := m[node.key := Stamped(node.value, now)], [node] + list;
    var gone := list[maxSize - 1].key;
    assert gone in m by { LastIn(list, m, now); }
    GrownAgrees(list, m, now, node);
    OldestIsLast(l, grown, now + 1);
    assert SameKeys(l, grown) by { KeysOf(l, grown, now + 1); }
    DistinctKeys(l, grown, now + 1);
    SameSize(l, grown);
    assert l[|l| - 1].key == gone;
    forall k ensures k in WithoutOldest(grown) <==> k in grown && k != gone {}
    assert WithoutOldest(grown) == grown - {gone};
  }

  lemma KeysOf<K, V>(list: seq<Node<K, V>>, m: map<K, Stamped<V>>, now: nat)
    requires Agrees(list, m, now)
    ensures SameKeys(list, m)
  {
  }

  // ---------------------------------------------------------------- the cache

  // The index leads from every key to its only node.
  predicate Linked<K(==), V>(list: seq<Node<K, V>>, index: map<K, nat>, next: nat) {
    && SameKeys(list, index)
    && (forall i :: 0 <= i < |list| ==> index[list[i].key] == list[i].id < next)
    && (forall i, j :: 0 <= i < j < |list| ==> list[i].key != list[j].key && list[i].id != list[j].id)
  }

  // Following an index entry.
  function NodeAt<K, V>(list: seq<Node<K, V>>, id: nat): (p: nat)
    ensures p <= |list| && (p < |list| ==> list[p].id == id)
    ensures forall i :: 0 <= i < p ==> list[i].id != id
  {
    if list == [] then 0 else if list[0].id == id then 0 else 1 + NodeAt(list[1..], id)
  }

  lemma IndexLeadsThere<K, V>(list: seq<Node<K, V>>, index: map<K, nat>, next: nat, key: K)
    requires Linked(list, index, next) && key in index
    ensures NodeAt(list, index[key]) == PosOf(list, key) < |list|
  {
    hide PosOf, NodeAt;
    var p := PosOf(list, key);
    assert list[p].key == key && list[p].id == index[key];
  }

  class LimitedSizeUnorderedMapCache<!K(==), V> {
    const maxSize: nat
    var list: seq<Node<K, V>>
    var index: map<K, nat>
    var nextNode: nat

    ghost predicate Valid()
      reads this
    {
      Linked(list, index, nextNode) && |list| <= maxSize
    }

    constructor (maxSize: nat)
      ensures Valid() && this.maxSize == maxSize && list == []
    {
      this.maxSize := maxSize;
      list, index, nextNode := [], map[], 0;
    }

    method Insert(key: K, value: V) returns (ok: bool)
      requires Valid()
      modifies this
      ensures Valid()
      ensures ok <==> key !in old(index)
      ensures list == Inserted(old(list), maxSize, Node(old(nextNode), key, value))
      ensures ok ==> (key in index <==> maxSize > 0)   // success, yet a size of 0 keeps nothing
    {
      hide PosOf, Inserted, SameKeys;
      var node := Node(nextNode, key, value);
      InsertedCases(list, maxSize, node, index);
      list := [node] + list;
      nextNode := nextNode + 1;
      if key in index {
        list := list[1..];
        assert list == old(list);
        return false;
      }
      index := index[key := node.id];
      InsertLinks(old(list), old(index), old(nextNode), node);
      Trim();
      if list != [] {
        HasFirst(list, index, nextNode);
      } else {
        HasNone<K, V>(index);
      }
      return true;
    }

    // Keeps size <= maxSize.
    method Trim()
      requires Linked(list, index, nextNode)
      modifies this`list, this`index
      ensures Linked(list, index, nextNode)
      ensures list == if |old(list)| > maxSize then old(list)[..|old(list)| - 1] else old(list)
    {
      SameSize(list, index);
      if |index| > maxSize {
        TrimLinks(list, index, nextNode);
        index := index - {list[|list| - 1].key};
        list := list[..|list| - 1];
      }
    }

    method Find(key: K) returns (found: bool)
      requires Valid()
      modifies this
      ensures Valid() && (found <==> key in old(index))
      ensures list == Found(old(list), key)
      ensures found ==> list != [] && list[0].key == key
    {
      if key !in index {
        assert PosOf(list, key) == |list|;
        return false;
      }
      IndexLeadsThere(list, index, nextNode, key);
      var p := NodeAt(list, index[key]);
      FrontLinks(list, index, nextNode, p);
      list := ToFront(list, p);
      return true;
    }

    method Erase(key: K)
      requires Valid()
      modifies this
      ensures Valid() && list == Erased(old(list), key)
    {
      if key !in index {
        assert PosOf(list, key) == |list|;
        return;
      }
      IndexLeadsThere(list, index, nextNode, key);
      var p := NodeAt(list, index[key]);
      WithoutLinks(list, index, nextNode, p);
      index := index - {key};
      list := Without(list, p);
    }
  }

  lemma HasFirst<K, V>(list: seq<Node<K, V>>, index: map<K, nat>, next: nat)
    requires Linked(list, index, next) && list != []
    ensures list[0].key in index
  {
  }

  lemma HasNone<K, V>(index: map<K, nat>)
    requires SameKeys<K, V, nat>([], index)
    ensures index == map[]
  {
  }

  lemma InsertedCases<K, V, W>(list: seq<Node<K, V>>, maxSize: nat, node: Node<K, V>, m: map<K, W>)
    requires SameKeys(list, m)
    ensures node.key in m ==> Inserted(list, maxSize, node) == list
    ensures node.key !in m ==>
      Inserted(list, maxSize, node) == if |list| + 1 > maxSize then ([node] + list)[..|list|] else [node] + list
  {
    hide PosOf;
    assert node.key !in m ==> PosOf(list, node.key) == |list|;
  }

  lemma InsertLinks<K, V>(list: seq<Node<K, V>>, index: map<K, nat>, next: nat, node: Node<K, V>)
    requires Linked(list, index, next) && node.key !in index && node.id == next
    ensures Linked([node] + list, index[node.key := node.id], next + 1)
  {
    hide PosOf;
    GrownKeys(list, index, node, node.id);
    var l := [node] + list;
    assert l[0] == node && forall i :: 0 < i < |l| ==> l[i] == list[i - 1];
  }

  lemma TrimLinks<K, V>(list: seq<Node<K, V>>, index: map<K, nat>, next: nat)
    requires Linked(list, index, next) && list != []
    ensures Linked(list[..|list| - 1], index - {list[|list| - 1].key}, next)
  {
    hide PosOf;
    LessOne(list, index);
  }

  lemma FrontLinks<K, V>(list: seq<Node<K, V>>, index: map<K, nat>, next: nat, p: nat)
    requires Linked(list, index, next) && p < |list|
    ensures Linked(ToFront(list, p), index, next) && ToFront(list, p)[0] == list[p]
  {
    hide PosOf, ToFront;
    FrontKeys(list, index, p);
    FrontIndex(list, p, 0);
    var r := ToFront(list, p);
    forall i | 0 <= i < |r| ensures index[r[i].key] == r[i].id < next { FrontIndex(list, p, i); }
    forall i, j | 0 <= i < j < |r| ensures r[i].key != r[j].key && r[i].id != r[j].id {
      FrontDistinct(list, index, next, p, i, j);
    }
  }

  lemma FrontDistinct<K, V>(list: seq<Node<K, V>>, index: map<K, nat>, next: nat, p: nat, i: nat, j: nat)
    requires Linked(list, index, next) && p < |list| && i < j < |list|
    ensures ToFront(list, p)[i].key != ToFront(list, p)[j].key && ToFront(list, p)[i].id != ToFront(list, p)[j].id
  {
    hide PosOf, ToFront, SameKeys;
    FrontIndex(list, p, i);
    FrontIndex(list, p, j);
  }

  lemma WithoutLinks<K, V>(list: seq<Node<K, V>>, index: map<K, nat>, next: nat, p: nat)
    requires Linked(list, index, next) && p < |list|
    ensures Linked(Without(list, p), index - {list[p].key}, next)
  {
    hide PosOf, Without;
    WithoutKeys(list, index, p);
    var r := Without(list, p);
    forall i | 0 <= i < |r| ensures (index - {list[p].key})[r[i].key] == r[i].id < next { WithoutIndex(list, p, i); }
    forall i, j | 0 <= i < j < |r| ensures r[i].key != r[j].key && r[i].id != r[j].id {
      WithoutIndex(list, p, i);
      WithoutIndex(list, p, j);
    }
  }
}
