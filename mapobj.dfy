/**
 * The chained hash map of core/mapobj.c.  The bucket array is a sequence
 * of buckets; a bucket is the list of its nodes, head first, as the
 * `_next_node` links visit them.  A node keeps its key, its value and the
 * key's hash.  Keys are compared with `==` (`zis_object_equals`, and
 * identity for symbol keys); hashing is a function of the map that may
 * fail (`zis_object_hash` returning false).
 */
module MapObj {
  import opened Wrappers

  datatype Node<K, V> = Node(key: K, value: V, keyHash: nat)

  type Bucket<K, V> = seq<Node<K, V>>

  /** `ZIS_OK`, `ZIS_THR` (hashing the key threw) and `ZIS_E_ARG` (no such key). */
  datatype Status = Success | Thrown | NoKey

  predicate Matches<K(==), V>(x: Node<K, V>, k: K, h: nat) {
    x.key == k && x.keyHash == h
  }

  // ----- buckets -----

  /** `zis_hashmap_buckets_obj_new`: n buckets, all empty. */
  function EmptyBuckets<K, V>(n: nat): (bs: seq<Bucket<K, V>>)
    ensures |bs| == n && forall b :: 0 <= b < n ==> bs[b] == []
  {
    seq(n, _ => [])
  }

  /** `zis_hashmap_buckets_get_bucket`: bucket `h % count`, or none when there are no buckets. */
  function BucketOf<K, V>(bs: seq<Bucket<K, V>>, h: nat): Bucket<K, V> {
    if |bs| == 0 then [] else bs[h % |bs|]
  }

  /** The position of the first node of a bucket with this key and hash. */
  function FindIn<K(==), V>(bucket: Bucket<K, V>, k: K, h: nat): (r: Option<nat>)
    ensures r.Some? ==> r.value < |bucket| && Matches(bucket[r.value], k, h)
    ensures r.Some? ==> forall j :: 0 <= j < r.value ==> !Matches(bucket[j], k, h)
    ensures r.None? ==> forall j :: 0 <= j < |bucket| ==> !Matches(bucket[j], k, h)
  {
    if |bucket| == 0 then None
    else if Matches(bucket[0], k, h) then Some(0)
    else match FindIn(bucket[1..], k, h)
      case None => None
      case Some(j) => Some(j + 1)
  }

  /** The value of the first matching node of a list. */
  function FirstValue<K(==), V>(nodes: seq<Node<K, V>>, k: K, h: nat): Option<V> {
    match FindIn(nodes, k, h)
    case None => None
    case Some(j) => Some(nodes[j].value)
  }

  /** The value of the last matching node of a list. */
  function LastValue<K(==), V>(nodes: seq<Node<K, V>>, k: K, h: nat): (r: Option<V>)
    ensures r.None? ==> forall j :: 0 <= j < |nodes| ==> !Matches(nodes[j], k, h)
  {
    if |nodes| == 0 then None
    else if Matches(nodes[|nodes| - 1], k, h) then Some(nodes[|nodes| - 1].value)
    else LastValue(nodes[..|nodes| - 1], k, h)
  }

  /** The number of nodes of a list with this key and hash. */
  function Count<K(==), V>(nodes: seq<Node<K, V>>, k: K, h: nat): nat {
    if |nodes| == 0 then 0
    else (if Matches(nodes[0], k, h) then 1 else 0) + Count(nodes[1..], k, h)
  }

  /** What the map holds for a key with hash h: the first matching node of its bucket. */
  function Lookup<K(==), V>(bs: seq<Bucket<K, V>>, k: K, h: nat): Option<V> {
    FirstValue(BucketOf(bs, h), k, h)
  }

  function CountIn<K(==), V>(bs: seq<Bucket<K, V>>, k: K, h: nat): nat {
    Count(BucketOf(bs, h), k, h)
  }

  /** The nodes in the order `zis_hashmap_buckets_foreach_node_r` visits them: bucket by bucket, head first. */
  function Flat<K, V>(bs: seq<Bucket<K, V>>): seq<Node<K, V>> {
    if |bs| == 0 then [] else Flat(bs[..|bs| - 1]) + bs[|bs| - 1]
  }

  /** `zis_hashmap_buckets_put_node`: the node becomes the head of bucket `hash % count`. */
  function Put<K, V>(bs: seq<Bucket<K, V>>, x: Node<K, V>): seq<Bucket<K, V>>
    requires |bs| > 0
  {
    bs[x.keyHash % |bs| := [x] + bs[x.keyHash % |bs|]]
  }

  /** Put each node of a list in turn. */
  function PutAll<K, V>(bs: seq<Bucket<K, V>>, nodes: seq<Node<K, V>>): (r: seq<Bucket<K, V>>)
    requires |bs| > 0 || |nodes| == 0
    ensures |r| == |bs|
  {
    if |nodes| == 0 then bs else Put(PutAll(bs, nodes[..|nodes| - 1]), nodes[|nodes| - 1])
  }

  /** Unlink node j of bucket b. */
  function RemoveAt<K, V>(bs: seq<Bucket<K, V>>, b: nat, j: nat): seq<Bucket<K, V>>
    requires b < |bs| && j < |bs[b]|
  {
    bs[b := bs[b][..j] + bs[b][j + 1..]]
  }

  /** Replace the value of node j of bucket b. */
  function UpdateAt<K, V>(bs: seq<Bucket<K, V>>, b: nat, j: nat, v: V): seq<Bucket<K, V>>
    requires b < |bs| && j < |bs[b]|
  {
    bs[b := bs[b][j := bs[b][j].(value := v)]]
  }

  /** Every node sits in bucket `keyHash % count`. */
  ghost predicate Placed<K, V>(bs: seq<Bucket<K, V>>) {
    forall b, j :: 0 <= b < |bs| && 0 <= j < |bs[b]| ==> bs[b][j].keyHash % |bs| == b
  }

  /** Every node's hash is the hash of its key. */
  ghost predicate HashesRight<K, V>(bs: seq<Bucket<K, V>>, hash: K -> Option<nat>) {
    forall b, j :: 0 <= b < |bs| && 0 <= j < |bs[b]| ==> hash(bs[b][j].key) == Some(bs[b][j].keyHash)
  }

  /** No key is held twice. */
  ghost predicate Unique<K(!new), V>(bs: seq<Bucket<K, V>>) {
    forall k, h: nat :: CountIn(bs, k, h) <= 1
  }

  ghost predicate ValidBuckets<K(!new), V>(bs: seq<Bucket<K, V>>, hash: K -> Option<nat>) {
    Placed(bs) && HashesRight(bs, hash) && Unique(bs)
  }

  /**
   * `zis_hashmap_buckets_get_node` (and `zis_hashmap_buckets_sym_get_node`):
   * walk the bucket comparing the hash first and then the key.
   */
  method FindNode<K(==), V>(bucket: Bucket<K, V>, k: K, h: nat) returns (r: Option<nat>)
    ensures r == FindIn(bucket, k, h)
  {
    var j := 0;
    while j < |bucket|
      invariant j <= |bucket|
      invariant forall i :: 0 <= i < j ==> !Matches(bucket[i], k, h)
    {
      if bucket[j].keyHash == h && bucket[j].key == k {
        return Some(j);
      }
      j := j + 1;
    }
    return None;
  }

  /**
   * `zis_hashmap_buckets_del_node`: walk the bucket of h; on the first node
   * with this key, unlink it from the bucket head or from its predecessor.
   */
  method DelNode<K(==), V>(bs: seq<Bucket<K, V>>, k: K, h: nat) returns (nb: seq<Bucket<K, V>>, found: bool)
    ensures found <==> FindIn(BucketOf(bs, h), k, h).Some?
    ensures found ==> nb == RemoveAt(bs, h % |bs|, FindIn(BucketOf(bs, h), k, h).value)
    ensures !found ==> nb == bs
  {
    var bucket := BucketOf(bs, h);
    var i := FindNode(bucket, k, h);
    if i.None? {
      return bs, false;
    }
    nb := RemoveAt(bs, h % |bs|, i.value);
    found := true;
  }

  /**
   * `zis_hashmap_buckets_del_node` as written: unlinking the bucket head
   * stores the next node at index `key_hash` of the bucket array rather
   * than `key_hash % count`.  `None` is a store outside the array.
   */
  function DelNodeAsWritten<K(==), V>(bs: seq<Bucket<K, V>>, k: K, h: nat): Option<seq<Bucket<K, V>>> {
    var bucket := BucketOf(bs, h);
    match FindIn(bucket, k, h)
    case None => Some(bs)
    case Some(j) =>
      if j > 0 then Some(RemoveAt(bs, h % |bs|, j))
      else if h < |bs| then Some(bs[h := bucket[1..]])
      else None
  }

  /** While the hash is below the bucket count the as-written deletion is the intended one. */
  lemma DelNodeAsWrittenSmallHash<K, V>(bs: seq<Bucket<K, V>>, k: K, h: nat)
    requires h < |bs|
    ensures var found := FindIn(BucketOf(bs, h), k, h);
            DelNodeAsWritten(bs, k, h) == if found.Some? then Some(RemoveAt(bs, h % |bs|, found.value)) else Some(bs)
  {
    assert h % |bs| == h;
    var bucket := BucketOf(bs, h);
    assert bucket == bs[h];
    match FindIn(bucket, k, h)
    case None =>
    case Some(j) =>
      if j == 0 {
        assert bucket[..0] + bucket[1..] == bucket[1..];
        assert RemoveAt(bs, h, 0) == bs[h := bucket[1..]];
      }
  }

  /**
   * Two buckets and one node with hash 3 (bucket 1): deleting it as written
   * stores outside the bucket array, where the intended deletion empties
   * bucket 1.
   */
  lemma DelHeadAsWrittenOutOfBounds()
    ensures var bs: seq<Bucket<int, int>> := [[], [Node(7, 70, 3)]];
            DelNodeAsWritten(bs, 7, 3).None? && FindIn(BucketOf(bs, 3), 7, 3) == Some(0) &&
            RemoveAt(bs, 3 % 2, 0) == [[], []]
  {
    var bs: seq<Bucket<int, int>> := [[], [Node(7, 70, 3)]];
    assert 3 % 2 == 1;
    var bucket := BucketOf(bs, 3);
    assert bucket == [Node(7, 70, 3)];
    assert Matches(bucket[0], 7, 3);
    assert FindIn(bucket, 7, 3) == Some(0);
    assert bucket[..0] + bucket[1..] == [];
  }

  // ----- list lemmas -----

  lemma {:induction false} CountSplit<K, V>(a: seq<Node<K, V>>, b: seq<Node<K, V>>, k: K, h: nat)
    ensures Count(a + b, k, h) == Count(a, k, h) + Count(b, k, h)
  {
    if |a| == 0 {
      assert a + b == b;
    } else {
      assert (a + b)[0] == a[0] && (a + b)[1..] == a[1..] + b;
      CountSplit(a[1..], b, k, h);
    }
  }

  lemma {:induction false} CountZero<K, V>(nodes: seq<Node<K, V>>, k: K, h: nat)
    ensures Count(nodes, k, h) == 0 <==> FindIn(nodes, k, h).None?
  {
    if |nodes| > 0 {
      CountZero(nodes[1..], k, h);
    }
  }

  /** The first match of a concatenation is in the first part if there is one there. */
  lemma {:induction false} FirstValueAppend<K, V>(a: seq<Node<K, V>>, b: seq<Node<K, V>>, k: K, h: nat)
    ensures FirstValue(a + b, k, h) == if FirstValue(a, k, h).Some? then FirstValue(a, k, h) else FirstValue(b, k, h)
  {
    if |a| == 0 {
      assert a + b == b;
    } else {
      assert (a + b)[0] == a[0] && (a + b)[1..] == a[1..] + b;
      FirstValueAppend(a[1..], b, k, h);
    }
  }

  /** The last match of a concatenation is in the second part if there is one there. */
  lemma {:induction false} LastValueAppend<K, V>(a: seq<Node<K, V>>, b: seq<Node<K, V>>, k: K, h: nat)
    ensures LastValue(a + b, k, h) == if LastValue(b, k, h).Some? then LastValue(b, k, h) else LastValue(a, k, h)
    decreases |b|
  {
    if |b| == 0 {
      assert a + b == a;
    } else {
      assert (a + b)[..|a + b| - 1] == a + b[..|b| - 1];
      LastValueAppend(a, b[..|b| - 1], k, h);
    }
  }

  /** With at most one match, the first match is the last. */
  lemma {:induction false} FirstIsLast<K, V>(nodes: seq<Node<K, V>>, k: K, h: nat)
    requires Count(nodes, k, h) <= 1
    ensures FirstValue(nodes, k, h) == LastValue(nodes, k, h)
    decreases |nodes|
  {
    if |nodes| > 0 {
      var a, x := nodes[..|nodes| - 1], nodes[|nodes| - 1];
      assert nodes == a + [x];
      CountSplit(a, [x], k, h);
      FirstValueAppend(a, [x], k, h);
      assert Count([x], k, h) == if Matches(x, k, h) then 1 else 0;
      if Matches(x, k, h) {
        CountZero(a, k, h);
      } else {
        FirstIsLast(a, k, h);
      }
    }
  }

  /** With at most one match, any matching node is the one found. */
  lemma {:induction false} MatchIsFound<K, V>(nodes: seq<Node<K, V>>, p: nat, k: K, h: nat)
    requires Count(nodes, k, h) <= 1 && p < |nodes| && Matches(nodes[p], k, h)
    ensures FirstValue(nodes, k, h) == Some(nodes[p].value)
    decreases |nodes|
  {
    if p > 0 {
      assert nodes[1..][p - 1] == nodes[p];
      if Matches(nodes[0], k, h) {
        CountZero(nodes[1..], k, h);
        assert false;
      }
      MatchIsFound(nodes[1..], p - 1, k, h);
    }
  }

  // ----- bucket lemmas -----

  /** A node put into the buckets is found first for its key; every other lookup is unchanged. */
  lemma LookupPut<K, V>(bs: seq<Bucket<K, V>>, x: Node<K, V>, k: K, h: nat)
    requires |bs| > 0
    ensures Lookup(Put(bs, x), k, h) == if Matches(x, k, h) then Some(x.value) else Lookup(bs, k, h)
    ensures CountIn(Put(bs, x), k, h) == CountIn(bs, k, h) + if Matches(x, k, h) then 1 else 0
  {
    var b := x.keyHash % |bs|;
    if h % |bs| == b {
      FirstValueAppend([x], bs[b], k, h);
      CountSplit([x], bs[b], k, h);
      assert Count([x], k, h) == if Matches(x, k, h) then 1 else 0;
    }
  }

  lemma PlacedPut<K, V>(bs: seq<Bucket<K, V>>, x: Node<K, V>, hash: K -> Option<nat>)
    requires |bs| > 0 && Placed(bs) && HashesRight(bs, hash) && hash(x.key) == Some(x.keyHash)
    ensures Placed(Put(bs, x)) && HashesRight(Put(bs, x), hash)
  {
    var nb: seq<Bucket<K, V>> := Put(bs, x);
    var b := x.keyHash % |bs|;
    forall c, j | 0 <= c < |nb| && 0 <= j < |nb[c]|
      ensures nb[c][j].keyHash % |nb| == c && hash(nb[c][j].key) == Some(nb[c][j].keyHash)
    {
      if c == b && j > 0 {
        assert nb[c][j] == bs[c][j - 1];
      }
    }
  }

  /** The number of nodes after replacing one bucket. */
  lemma {:induction false} FlatSizeUpdate<K, V>(bs: seq<Bucket<K, V>>, b: nat, bucket: Bucket<K, V>)
    requires b < |bs|
    ensures |Flat(bs[b := bucket])| == |Flat(bs)| - |bs[b]| + |bucket|
    ensures |Flat(bs)| >= |bs[b]|
  {
    var nb := bs[b := bucket];
    var m := |bs| - 1;
    assert nb[..m] == if b < m then bs[..m][b := bucket] else bs[..m];
    if b < m {
      FlatSizeUpdate(bs[..m], b, bucket);
    }
  }

  /** Putting correctly hashed nodes keeps every node in its bucket with its key's hash, and adds them to the count. */
  lemma {:induction false} PutAllPlaced<K, V>(bs: seq<Bucket<K, V>>, nodes: seq<Node<K, V>>, hash: K -> Option<nat>)
    requires |bs| > 0 && Placed(bs) && HashesRight(bs, hash)
    requires forall i :: 0 <= i < |nodes| ==> hash(nodes[i].key) == Some(nodes[i].keyHash)
    ensures Placed(PutAll(bs, nodes)) && HashesRight(PutAll(bs, nodes), hash)
    ensures |Flat(PutAll(bs, nodes))| == |Flat(bs)| + |nodes|
    decreases |nodes|
  {
    if |nodes| > 0 {
      var init, x := nodes[..|nodes| - 1], nodes[|nodes| - 1];
      PutAllPlaced(bs, init, hash);
      var p := PutAll(bs, init);
      PlacedPut(p, x, hash);
      FlatSizeUpdate(p, x.keyHash % |p|, [x] + p[x.keyHash % |p|]);
    }
  }

  /** After putting a list of nodes into buckets that lack a key, the key finds the last of its nodes. */
  lemma {:induction false} PutAllLookup<K, V>(bs: seq<Bucket<K, V>>, nodes: seq<Node<K, V>>, k: K, h: nat)
    requires |bs| > 0 && Lookup(bs, k, h).None?
    ensures Lookup(PutAll(bs, nodes), k, h) == LastValue(nodes, k, h)
    ensures CountIn(PutAll(bs, nodes), k, h) == CountIn(bs, k, h) + Count(nodes, k, h)
    decreases |nodes|
  {
    if |nodes| > 0 {
      var init, x := nodes[..|nodes| - 1], nodes[|nodes| - 1];
      PutAllLookup(bs, init, k, h);
      LookupPut(PutAll(bs, init), x, k, h);
      assert nodes == init + [x];
      CountSplit(init, [x], k, h);
      assert Count([x], k, h) == if Matches(x, k, h) then 1 else 0;
    }
  }

  /** A bucket other than `h % count` holds no node with hash h. */
  lemma NoMatchElsewhere<K, V>(bs: seq<Bucket<K, V>>, c: nat, k: K, h: nat)
    requires Placed(bs) && c < |bs| && c != h % |bs|
    ensures Count(bs[c], k, h) == 0 && LastValue(bs[c], k, h).None?
  {
    CountZero(bs[c], k, h);
    if LastValue(bs[c], k, h).Some? {
      LastSome(bs[c], k, h);
    }
  }

  lemma {:induction false} LastSome<K, V>(nodes: seq<Node<K, V>>, k: K, h: nat)
    requires LastValue(nodes, k, h).Some?
    ensures FindIn(nodes, k, h).Some?
  {
    if !Matches(nodes[|nodes| - 1], k, h) {
      LastSome(nodes[..|nodes| - 1], k, h);
      var j := FindIn(nodes[..|nodes| - 1], k, h).value;
      assert nodes[..|nodes| - 1][j] == nodes[j];
    }
  }

  /** In the flattened order only bucket `h % count` contributes matches for hash h. */
  lemma {:induction false} FlatOnlyBucket<K, V>(bs: seq<Bucket<K, V>>, i: nat, k: K, h: nat)
    requires Placed(bs) && 0 < |bs| && i <= |bs|
    ensures Count(Flat(bs[..i]), k, h) == if h % |bs| < i then Count(bs[h % |bs|], k, h) else 0
    ensures LastValue(Flat(bs[..i]), k, h) == if h % |bs| < i then LastValue(bs[h % |bs|], k, h) else None
  {
    if i > 0 {
      FlatOnlyBucket(bs, i - 1, k, h);
      assert bs[..i][..i - 1] == bs[..i - 1];
      assert Flat(bs[..i]) == Flat(bs[..i - 1]) + bs[i - 1];
      CountSplit(Flat(bs[..i - 1]), bs[i - 1], k, h);
      LastValueAppend(Flat(bs[..i - 1]), bs[i - 1], k, h);
      if i - 1 != h % |bs| {
        NoMatchElsewhere(bs, i - 1, k, h);
      }
    }
  }

  /** Every node of the flattened list comes from some bucket. */
  lemma {:induction false} FlatFrom<K, V>(bs: seq<Bucket<K, V>>, p: nat)
    requires p < |Flat(bs)|
    ensures exists b, j :: 0 <= b < |bs| && 0 <= j < |bs[b]| && Flat(bs)[p] == bs[b][j]
  {
    var m := |bs| - 1;
    if p < |Flat(bs[..m])| {
      FlatFrom(bs[..m], p);
      var b, j :| 0 <= b < |bs[..m]| && 0 <= j < |bs[..m][b]| && Flat(bs[..m])[p] == bs[..m][b][j];
      assert Flat(bs)[p] == bs[b][j];
    } else {
      assert Flat(bs)[p] == bs[m][p - |Flat(bs[..m])|];
    }
  }

  /** Every node of valid buckets, in visiting order, has its key's hash. */
  lemma FlatHashesRight<K, V>(bs: seq<Bucket<K, V>>, hash: K -> Option<nat>)
    requires HashesRight(bs, hash)
    ensures forall i :: 0 <= i < |Flat(bs)| ==> hash(Flat(bs)[i].key) == Some(Flat(bs)[i].keyHash)
  {
    forall i | 0 <= i < |Flat(bs)|
      ensures hash(Flat(bs)[i].key) == Some(Flat(bs)[i].keyHash)
    {
      FlatFrom(bs, i);
    }
  }

  /** Rehashing keeps what one key looks up, and keeps it held at most once. */
  lemma RehashLookup<K, V>(bs: seq<Bucket<K, V>>, n: nat, k: K, h: nat)
    requires Placed(bs) && CountIn(bs, k, h) <= 1 && n > 0
    ensures Lookup(PutAll(EmptyBuckets(n), Flat(bs)), k, h) == Lookup(bs, k, h)
    ensures CountIn(PutAll(EmptyBuckets(n), Flat(bs)), k, h) <= 1
  {
    var e: seq<Bucket<K, V>> := EmptyBuckets(n);
    PutAllLookup(e, Flat(bs), k, h);
    if |bs| > 0 {
      FlatOnlyBucket(bs, |bs|, k, h);
      assert bs[..|bs|] == bs;
      FirstIsLast(bs[h % |bs|], k, h);
    }
  }

  /**
   * Rehashing (putting every node, in visiting order, into n new buckets)
   * keeps the buckets valid, the node count and every lookup.
   */
  lemma RehashKeeps<K(!new), V>(bs: seq<Bucket<K, V>>, n: nat, hash: K -> Option<nat>)
    requires ValidBuckets(bs, hash) && (n > 0 || |bs| == 0)
    ensures var nb := PutAll(EmptyBuckets(n), Flat(bs));
            ValidBuckets(nb, hash) && |nb| == n && |Flat(nb)| == |Flat(bs)| &&
            forall k, h: nat :: Lookup(nb, k, h) == Lookup(bs, k, h)
  {
    var e: seq<Bucket<K, V>> := EmptyBuckets(n);
    if n == 0 {
      return;
    }
    FlatHashesRight(bs, hash);
    FlatEmpty(e);
    PutAllPlaced(e, Flat(bs), hash);
    forall k, h: nat
      ensures Lookup(PutAll(e, Flat(bs)), k, h) == Lookup(bs, k, h)
      ensures CountIn(PutAll(e, Flat(bs)), k, h) <= 1
    {
      RehashLookup(bs, n, k, h);
    }
  }

  lemma {:induction false} FlatEmpty<K, V>(bs: seq<Bucket<K, V>>)
    requires forall b :: 0 <= b < |bs| ==> bs[b] == []
    ensures Flat(bs) == []
  {
    if |bs| > 0 {
      FlatEmpty(bs[..|bs| - 1]);
    }
  }

  /**
   * Putting a node whose key the buckets do not hold keeps them valid,
   * adds one node, finds the new value for its key and changes no other
   * lookup.
   */
  lemma InsertKeeps<K(!new), V>(bs: seq<Bucket<K, V>>, x: Node<K, V>, hash: K -> Option<nat>)
    requires ValidBuckets(bs, hash) && |bs| > 0
    requires hash(x.key) == Some(x.keyHash) && Lookup(bs, x.key, x.keyHash).None?
    ensures ValidBuckets(Put(bs, x), hash) && |Flat(Put(bs, x))| == |Flat(bs)| + 1
    ensures forall k, h: nat :: Lookup(Put(bs, x), k, h) == if Matches(x, k, h) then Some(x.value) else Lookup(bs, k, h)
  {
    PlacedPut(bs, x, hash);
    FlatSizeUpdate(bs, x.keyHash % |bs|, [x] + bs[x.keyHash % |bs|]);
    forall k, h: nat
      ensures Lookup(Put(bs, x), k, h) == (if Matches(x, k, h) then Some(x.value) else Lookup(bs, k, h))
      ensures CountIn(Put(bs, x), k, h) <= 1
    {
      LookupPut(bs, x, k, h);
      if Matches(x, k, h) {
        CountZero(BucketOf(bs, h), k, h);
      }
    }
  }

  /** Replacing the value of the node found for a key keeps the buckets valid and changes only that key's lookup. */
  lemma UpdateKeeps<K(!new), V>(bs: seq<Bucket<K, V>>, k: K, h: nat, v: V, hash: K -> Option<nat>)
    requires ValidBuckets(bs, hash) && FindIn(BucketOf(bs, h), k, h).Some?
    ensures var nb := UpdateAt(bs, h % |bs|, FindIn(BucketOf(bs, h), k, h).value, v);
            ValidBuckets(nb, hash) && |Flat(nb)| == |Flat(bs)| &&
            forall k', h': nat :: Lookup(nb, k', h') == if k' == k && h' == h then Some(v) else Lookup(bs, k', h')
  {
    var b, j := h % |bs|, FindIn(BucketOf(bs, h), k, h).value;
    var nb := UpdateAt(bs, b, j, v);
    FlatSizeUpdate(bs, b, nb[b]);
    forall k', h': nat
      ensures Lookup(nb, k', h') == (if k' == k && h' == h then Some(v) else Lookup(bs, k', h'))
      ensures CountIn(nb, k', h') == CountIn(bs, k', h')
    {
      if h' % |bs| == b {
        SameMatches(bs[b], nb[b], k', h');
      }
    }
  }

  /** Two lists whose nodes match at the same positions find and count alike. */
  lemma {:induction false} SameMatches<K, V>(a: seq<Node<K, V>>, c: seq<Node<K, V>>, k: K, h: nat)
    requires |a| == |c| && forall i :: 0 <= i < |a| ==> (Matches(a[i], k, h) <==> Matches(c[i], k, h))
    ensures FindIn(a, k, h) == FindIn(c, k, h) && Count(a, k, h) == Count(c, k, h)
  {
    if |a| > 0 {
      SameMatches(a[1..], c[1..], k, h);
    }
  }

  /** Unlinking a node keeps every other node in its bucket with its key's hash, and removes one node. */
  lemma RemovePlaced<K, V>(bs: seq<Bucket<K, V>>, b: nat, j: nat, hash: K -> Option<nat>)
    requires Placed(bs) && HashesRight(bs, hash) && b < |bs| && j < |bs[b]|
    ensures Placed(RemoveAt(bs, b, j)) && HashesRight(RemoveAt(bs, b, j), hash)
    ensures |Flat(RemoveAt(bs, b, j))| == |Flat(bs)| - 1
  {
    var nb := RemoveAt(bs, b, j);
    FlatSizeUpdate(bs, b, nb[b]);
    forall c, i | 0 <= c < |nb| && 0 <= i < |nb[c]|
      ensures nb[c][i].keyHash % |nb| == c && hash(nb[c][i].key) == Some(nb[c][i].keyHash)
    {
      if c == b && i >= j {
        assert nb[c][i] == bs[c][i + 1];
      }
    }
  }

  /** Unlinking the first node of a list with (k, h) leaves the other keys' first values and counts. */
  lemma RemoveFromList<K, V>(nodes: seq<Node<K, V>>, j: nat, k: K, h: nat, k': K, h': nat)
    requires j < |nodes| && FindIn(nodes, k, h) == Some(j) && Count(nodes, k, h) <= 1
    ensures var rest := nodes[..j] + nodes[j + 1..];
            FirstValue(rest, k', h') == (if k' == k && h' == h then None else FirstValue(nodes, k', h')) &&
            Count(rest, k', h') <= Count(nodes, k', h')
  {
    assert nodes == nodes[..j] + [nodes[j]] + nodes[j + 1..];
    CountSplit(nodes[..j] + [nodes[j]], nodes[j + 1..], k', h');
    CountSplit(nodes[..j], [nodes[j]], k', h');
    CountSplit(nodes[..j], nodes[j + 1..], k', h');
    assert Count([nodes[j]], k', h') == if Matches(nodes[j], k', h') then 1 else 0;
    if k' == k && h' == h {
      CountZero(nodes[..j] + nodes[j + 1..], k', h');
    } else {
      FirstValueAppend(nodes[..j] + [nodes[j]], nodes[j + 1..], k', h');
      FirstValueAppend(nodes[..j], [nodes[j]], k', h');
      FirstValueAppend(nodes[..j], nodes[j + 1..], k', h');
    }
  }

  /** Unlinking the node found for a key keeps the buckets valid, removes one node and that key only. */
  lemma RemoveKeeps<K(!new), V>(bs: seq<Bucket<K, V>>, k: K, h: nat, hash: K -> Option<nat>)
    requires ValidBuckets(bs, hash) && FindIn(BucketOf(bs, h), k, h).Some?
    ensures var nb := RemoveAt(bs, h % |bs|, FindIn(BucketOf(bs, h), k, h).value);
            ValidBuckets(nb, hash) && |Flat(nb)| == |Flat(bs)| - 1 &&
            forall k', h': nat :: Lookup(nb, k', h') == if k' == k && h' == h then None else Lookup(bs, k', h')
  {
    var b, j := h % |bs|, FindIn(BucketOf(bs, h), k, h).value;
    var nb := RemoveAt(bs, b, j);
    RemovePlaced(bs, b, j, hash);
    assert CountIn(bs, k, h) <= 1;
    forall k', h': nat
      ensures Lookup(nb, k', h') == (if k' == k && h' == h then None else Lookup(bs, k', h'))
      ensures CountIn(nb, k', h') <= 1
    {
      assert CountIn(bs, k', h') <= 1;
      if h' % |bs| == b {
        RemoveFromList(bs[b], j, k, h, k', h');
      }
    }
  }

  /** A node of valid buckets is what its key looks up. */
  lemma NodeFound<K(!new), V>(bs: seq<Bucket<K, V>>, b: nat, j: nat, hash: K -> Option<nat>)
    requires ValidBuckets(bs, hash) && b < |bs| && j < |bs[b]|
    ensures Lookup(bs, bs[b][j].key, bs[b][j].keyHash) == Some(bs[b][j].value)
  {
    var x := bs[b][j];
    assert CountIn(bs, x.key, x.keyHash) <= 1;
    MatchIsFound(bs[b], j, x.key, x.keyHash);
  }

  // ----- the map object -----

  /** `zis_map_obj_min_bkt_cnt`: ⌈n / load_factor⌉ buckets. */
  function MinBuckets(loadFactor: real, n: nat): (m: nat)
    requires loadFactor > 0.0
    ensures m as real * loadFactor >= n as real
    ensures m > 0 ==> (m - 1) as real * loadFactor < n as real
  {
    var x := n as real / loadFactor;
    var c := if x.Floor as real == x then x.Floor else x.Floor + 1;
    assert x.Floor as real <= x < x.Floor as real + 1.0;
    assert (c - 1) as real < x <= c as real;
    CeilBounds(c, x, loadFactor, n);
    c
  }

  lemma CeilBounds(c: int, x: real, f: real, n: nat)
    requires f > 0.0 && x == n as real / f && (c - 1) as real < x <= c as real
    ensures (c - 1) as real * f < n as real <= c as real * f
  {
    assert x * f == n as real;
    ScaleLess((c - 1) as real, x, f);
    ScaleLess(x, c as real, f);
  }

  lemma ScaleLess(a: real, b: real, f: real)
    requires f > 0.0
    ensures a < b ==> a * f < b * f
    ensures a <= b ==> a * f <= b * f
  {
  }

  /** `node_count_threshold` after a rehash: ⌊n · load_factor⌋. */
  function Threshold(n: nat, loadFactor: real): nat
    requires loadFactor > 0.0
  {
    (n as real * loadFactor).Floor
  }

  /** The minimal bucket count for n nodes gives a threshold of at least n. */
  lemma ReserveCovers(loadFactor: real, n: nat)
    requires loadFactor > 0.0
    ensures Threshold(MinBuckets(loadFactor, n), loadFactor) >= n
    ensures n > 0 ==> MinBuckets(loadFactor, n) > 0
  {
  }

  /** The node count `set` reserves room for when it grows the map. */
  function GrowTarget(count: nat): (n: nat)
    ensures n >= 6 && n > count
  {
    if count > 4 then count * 2 else 6
  }

  /**
   * The loop of `zis_map_obj_rehash`: visit every node, bucket by bucket
   * and head first, putting it into n new buckets.
   */
  method MoveNodes<K, V>(bs: seq<Bucket<K, V>>, n: nat) returns (nb: seq<Bucket<K, V>>)
    requires n > 0 || |bs| == 0
    ensures nb == PutAll(EmptyBuckets(n), Flat(bs))
  {
    nb := EmptyBuckets(n);
    ghost var visited: seq<Node<K, V>> := [];
    var i := 0;
    while i < |bs|
      invariant i <= |bs| && visited == Flat(bs[..i]) && nb == PutAll(EmptyBuckets(n), visited)
    {
      var bucket := bs[i];
      var j := 0;
      assert visited + bucket[..0] == visited;
      while j < |bucket|
        invariant j <= |bucket| && nb == PutAll(EmptyBuckets(n), visited + bucket[..j])
      {
        assert (visited + bucket[..j + 1])[..|visited + bucket[..j + 1]| - 1] == visited + bucket[..j];
        nb := Put(nb, bucket[j]);
        j := j + 1;
      }
      assert bs[..i + 1][..i] == bs[..i];
      assert bucket[..j] == bucket;
      visited := visited + bucket;
      i := i + 1;
    }
    assert bs[..i] == bs;
  }

  /** Node j of bucket b holds v, and no node visited before it does. */
  ghost predicate FirstHolder<K, V>(bs: seq<Bucket<K, V>>, v: V, b: int, j: int) {
    0 <= b < |bs| && 0 <= j < |bs[b]| && bs[b][j].value == v &&
    (forall c, i :: 0 <= c < b && 0 <= i < |bs[c]| ==> bs[c][i].value != v) &&
    (forall i :: 0 <= i < j ==> bs[b][i].value != v)
  }

  /** `struct zis_map_obj`. */
  class Map<K(==,!new), V(==)> {
    var buckets: seq<Bucket<K, V>>
    var nodeCount: nat
    var threshold: nat
    var loadFactor: real
    const hash: K -> Option<nat>

    ghost predicate Valid()
      reads this
    {
      ValidBuckets(buckets, hash) && nodeCount == |Flat(buckets)| && loadFactor > 0.0 &&
      (threshold > 0 ==> |buckets| > 0)
    }

    /** What the map holds for a key; nothing when the key cannot be hashed. */
    function At(k: K): Option<V>
      reads this
    {
      match hash(k)
      case None => None
      case Some(h) => Lookup(buckets, k, h)
    }

    /**
     * `zis_map_obj_new`: a load factor that is not positive becomes 0.9;
     * a reservation creates ⌈reserve / load factor⌉ empty buckets and sets
     * the threshold to the reservation.
     */
    constructor (hash: K -> Option<nat>, loadFactor: real, reserve: nat)
      ensures Valid() && this.hash == hash
      ensures this.loadFactor == if loadFactor > 0.0 then loadFactor else 0.9
      ensures nodeCount == 0 && forall k :: At(k).None?
      ensures reserve > 0 ==> |buckets| == MinBuckets(this.loadFactor, reserve) && threshold == reserve
      ensures reserve == 0 ==> buckets == [] && threshold == 0
    {
      this.hash := hash;
      var lf := if loadFactor > 0.0 then loadFactor else 0.9;
      this.loadFactor := lf;
      nodeCount := 0;
      if reserve > 0 {
        buckets := EmptyBuckets(MinBuckets(lf, reserve));
        threshold := reserve;
      } else {
        buckets := [];
        threshold := 0;
      }
      new;
      FlatEmpty(buckets);
    }

    /**
     * `zis_map_obj_rehash`: every node, in visiting order, is put into n
     * new buckets, and the threshold becomes ⌊n · load factor⌋.  Lookups and
     * the node count are unchanged.
     */
    method Rehash(n: nat)
      requires Valid() && (n > 0 || |buckets| == 0)
      modifies this
      ensures buckets == PutAll(EmptyBuckets(n), Flat(old(buckets)))
      ensures Valid() && nodeCount == old(nodeCount) && loadFactor == old(loadFactor)
      ensures threshold == Threshold(n, loadFactor)
      ensures forall k :: At(k) == old(At(k))
    {
      var nb := MoveNodes(buckets, n);
      RehashKeeps(buckets, n, hash);
      buckets := nb;
      threshold := Threshold(n, loadFactor);
    }

    /** `zis_map_obj_reserve`: rehash into ⌈n / load factor⌉ buckets when there are fewer. */
    method Reserve(n: nat)
      requires Valid()
      modifies this
      ensures Valid() && nodeCount == old(nodeCount) && loadFactor == old(loadFactor)
      ensures |old(buckets)| < MinBuckets(loadFactor, n) ==>
                |buckets| == MinBuckets(loadFactor, n) && threshold == Threshold(MinBuckets(loadFactor, n), loadFactor)
      ensures |old(buckets)| >= MinBuckets(loadFactor, n) ==> buckets == old(buckets) && threshold == old(threshold)
      ensures forall k :: At(k) == old(At(k))
    {
      var m := MinBuckets(loadFactor, n);
      if |buckets| < m {
        Rehash(m);
      }
    }

    /** `zis_map_obj_clear`: every bucket emptied, the count reset; bucket count and threshold kept. */
    method Clear()
      requires Valid()
      modifies this
      ensures |buckets| == |old(buckets)| && threshold == old(threshold) && loadFactor == old(loadFactor)
      ensures nodeCount == 0 && forall k :: At(k).None?
      ensures Valid()
    {
      var nb := buckets;
      var i := 0;
      while i < |nb|
        invariant i <= |nb| == |buckets|
        invariant forall b :: 0 <= b < i ==> nb[b] == []
      {
        nb := nb[i := []];
        i := i + 1;
      }
      buckets := nb;
      nodeCount := 0;
      FlatEmpty(nb);
    }

    /** `zis_map_obj_get`: the value, `Thrown` when hashing fails, `NoKey` when absent. */
    method Get(k: K) returns (r: Result<V, Status>)
      ensures hash(k).None? ==> r == Err(Thrown)
      ensures hash(k).Some? && At(k).None? ==> r == Err(NoKey)
      ensures At(k).Some? ==> r == Ok(At(k).value)
    {
      if hash(k).None? {
        return Err(Thrown);
      }
      var h := hash(k).value;
      var bucket := BucketOf(buckets, h);
      var i := FindNode(bucket, k, h);
      if i.None? {
        return Err(NoKey);
      }
      return Ok(bucket[i.value].value);
    }

    /** `zis_map_obj_sym_get`: the value of a symbol key, `NULL` (here `None`) when absent. */
    method SymGet(k: K) returns (r: Option<V>)
      requires hash(k).Some?
      ensures r == At(k)
    {
      var h := hash(k).value;
      var bucket := BucketOf(buckets, h);
      var i := FindNode(bucket, k, h);
      if i.None? {
        return None;
      }
      return Some(bucket[i.value].value);
    }

    /**
     * Whether `set` grows the map before inserting k: the count has reached
     * the threshold and k's bucket is occupied or the map is empty.
     */
    predicate MustGrow(k: K)
      reads this
    {
      hash(k).Some? && nodeCount >= threshold && (BucketOf(buckets, hash(k).value) != [] || nodeCount == 0)
    }

    /** `zis_hashmap_buckets_put_node` of a new node for a key the map does not hold, counting it. */
    method PutNew(k: K, v: V)
      requires Valid() && hash(k).Some? && At(k).None? && |buckets| > 0
      modifies this
      ensures buckets == Put(old(buckets), Node(k, v, hash(k).value))
      ensures nodeCount == old(nodeCount) + 1 && threshold == old(threshold) && loadFactor == old(loadFactor)
      ensures Valid() && At(k) == Some(v) && forall k' :: k' != k ==> At(k') == old(At(k'))
    {
      var node := Node(k, v, hash(k).value);
      InsertKeeps(buckets, node, hash);
      buckets := Put(buckets, node);
      nodeCount := nodeCount + 1;
    }

    /**
     * The insertion branch of `zis_map_obj_set`: grow the map when it must,
     * reserving room for twice the count (6 up to 4 nodes), then put the new
     * node at the head of its bucket.
     */
    method Insert(k: K, v: V)
      requires Valid() && hash(k).Some? && At(k).None?
      modifies this
      ensures Valid() && loadFactor == old(loadFactor)
      ensures At(k) == Some(v) && forall k' :: k' != k ==> At(k') == old(At(k'))
      ensures nodeCount == old(nodeCount) + 1
      ensures old(MustGrow(k)) ==> |buckets| >= MinBuckets(loadFactor, GrowTarget(old(nodeCount)))
      ensures !old(MustGrow(k)) ==> |buckets| == |old(buckets)| && threshold == old(threshold)
    {
      var h := hash(k).value;
      var count := nodeCount;
      if count >= threshold && (BucketOf(buckets, h) != [] || count == 0) {
        Reserve(GrowTarget(count));
        ReserveCovers(loadFactor, GrowTarget(count));
      }
      PutNew(k, v);
    }

    /**
     * `zis_map_obj_set`: replace the value of an existing key, or insert it
     * (growing the map first when it must); `Thrown`, with nothing changed,
     * when the key cannot be hashed.
     */
    method Set(k: K, v: V) returns (s: Status)
      requires Valid()
      modifies this
      ensures loadFactor == old(loadFactor) && Valid()
      ensures s != NoKey && (s == Thrown <==> hash(k).None?)
      ensures s == Thrown ==> buckets == old(buckets) && threshold == old(threshold) && nodeCount == old(nodeCount)
      ensures s == Success ==> At(k) == Some(v) && forall k' :: k' != k ==> At(k') == old(At(k'))
      ensures s == Success ==> nodeCount == old(nodeCount) + if old(At(k)).Some? then 0 else 1
      ensures s == Success && old(At(k)).None? && old(MustGrow(k)) ==>
                |buckets| >= MinBuckets(loadFactor, GrowTarget(old(nodeCount)))
      ensures !(s == Success && old(At(k)).None? && old(MustGrow(k))) ==>
                |buckets| == |old(buckets)| && threshold == old(threshold)
    {
      if hash(k).None? {
        return Thrown;
      }
      var h := hash(k).value;
      var i := FindNode(BucketOf(buckets, h), k, h);
      if i.Some? {
        UpdateKeeps(buckets, k, h, v, hash);
        buckets := UpdateAt(buckets, h % |buckets|, i.value, v);
        return Success;
      }
      Insert(k, v);
      return Success;
    }

    /** `zis_map_obj_sym_set`: replace the value of a symbol key, or insert it as `set` does. */
    method SymSet(k: K, v: V)
      requires Valid() && hash(k).Some?
      modifies this
      ensures At(k) == Some(v) && forall k' :: k' != k ==> At(k') == old(At(k'))
      ensures nodeCount == old(nodeCount) + if old(At(k)).Some? then 0 else 1
      ensures loadFactor == old(loadFactor) && Valid()
    {
      var h := hash(k).value;
      var i := FindNode(BucketOf(buckets, h), k, h);
      if i.Some? {
        UpdateKeeps(buckets, k, h, v, hash);
        buckets := UpdateAt(buckets, h % |buckets|, i.value, v);
        return;
      }
      var s := Set(k, v);
    }

    /** `zis_map_obj_unset`: remove a key; `Thrown` when hashing fails, `NoKey` (nothing changed) when absent. */
    method Unset(k: K) returns (s: Status)
      requires Valid()
      modifies this
      ensures s == Thrown <==> hash(k).None?
      ensures s == NoKey <==> hash(k).Some? && old(At(k)).None?
      ensures s != Success ==> buckets == old(buckets) && nodeCount == old(nodeCount)
      ensures s == Success ==> At(k).None? && nodeCount == old(nodeCount) - 1 &&
                               forall k' :: k' != k ==> At(k') == old(At(k'))
      ensures |buckets| == |old(buckets)| && threshold == old(threshold) && loadFactor == old(loadFactor)
      ensures Valid()
    {
      if hash(k).None? {
        return Thrown;
      }
      var h := hash(k).value;
      var nb, found := DelNode(buckets, k, h);
      if !found {
        return NoKey;
      }
      RemoveKeeps(buckets, k, h, hash);
      buckets := nb;
      nodeCount := nodeCount - 1;
      return Success;
    }

    /**
     * `zis_map_obj_reverse_lookup`: the key of the first node, in visiting
     * order, whose value is this one; `NULL` (here `None`) when no key
     * holds it.
     */
    method ReverseLookup(v: V) returns (r: Option<K>)
      requires Valid()
      ensures r.Some? ==> At(r.value) == Some(v)
      ensures r.Some? ==> exists b, j :: FirstHolder(buckets, v, b, j) && buckets[b][j].key == r.value
      ensures r.None? ==> forall k :: At(k) != Some(v)
    {
      var b := 0;
      while b < |buckets|
        invariant b <= |buckets|
        invariant forall c, i :: 0 <= c < b && 0 <= i < |buckets[c]| ==> buckets[c][i].value != v
      {
        var bucket := buckets[b];
        var j := 0;
        while j < |bucket|
          invariant j <= |bucket|
          invariant forall i :: 0 <= i < j ==> bucket[i].value != v
        {
          if bucket[j].value == v {
            NodeFound(buckets, b, j, hash);
            return Some(bucket[j].key);
          }
          j := j + 1;
        }
        b := b + 1;
      }
      forall k | At(k).Some?
        ensures At(k) != Some(v)
      {
        var h := hash(k).value;
        var j := FindIn(BucketOf(buckets, h), k, h).value;
        assert buckets[h % |buckets|][j].value != v;
      }
      return None;
    }
  }
}
