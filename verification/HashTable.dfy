/** The chained hash table of `libkern/hash.c`, for any hash function, against a map from keys to stacks of values. */
module HashTable {
  import opened Machine

  type Value = nat

  datatype Pair = Pair(key: Word, value: Value)

  // What the table means: one chain of pairs per bucket, newest first

  function LookupIn(chain: seq<Pair>, key: Word): Option<Value> {
    if chain == [] then None
    else if chain[0].key == key then Some(chain[0].value)
    else LookupIn(chain[1..], key)
  }

  function RemoveIn(chain: seq<Pair>, key: Word): (r: seq<Pair>)
    ensures |r| == if LookupIn(chain, key).Some? then |chain| - 1 else |chain|
  {
    if chain == [] then []
    else if chain[0].key == key then chain[1..]
    else [chain[0]] + RemoveIn(chain[1..], key)
  }

  /** The values stored under `key`, newest first. */
  function StackIn(chain: seq<Pair>, key: Word): seq<Value> {
    if chain == [] then []
    else (if chain[0].key == key then [chain[0].value] else []) + StackIn(chain[1..], key)
  }

  lemma {:induction false} LookupReadsTop(chain: seq<Pair>, key: Word)
    ensures LookupIn(chain, key) == if StackIn(chain, key) == [] then None else Some(StackIn(chain, key)[0])
  {
    if chain != [] {
      LookupReadsTop(chain[1..], key);
    }
  }

  /** A stack after popping it, if asked to and if there is something on it. */
  function Popped(stack: seq<Value>, pop: bool): seq<Value> {
    if pop && stack != [] then stack[1..] else stack
  }

  /** Removing a key pops its own stack and leaves every other one alone. */
  lemma {:induction false} RemovePops(chain: seq<Pair>, key: Word, other: Word)
    ensures StackIn(RemoveIn(chain, key), other) == Popped(StackIn(chain, other), other == key)
  {
    if chain != [] {
      var tail := chain[1..];
      if chain[0].key != key {
        RemovePops(tail, key, other);
        assert RemoveIn(chain, key)[1..] == RemoveIn(tail, key);
      }
    }
  }

  lemma RemovePopsOnly(chain: seq<Pair>, key: Word)
    ensures forall other: Word :: StackIn(RemoveIn(chain, key), other)
                                  == Popped(StackIn(chain, other), other == key)
  {
    forall other: Word
      ensures StackIn(RemoveIn(chain, key), other) == Popped(StackIn(chain, other), other == key)
    {
      RemovePops(chain, key, other);
    }
  }

  /** Removing a key right after inserting it restores the chain, older pairs under the same key included. */
  lemma RemoveUndoesInsert(chain: seq<Pair>, key: Word, value: Value)
    ensures RemoveIn([Pair(key, value)] + chain, key) == chain
  {
    assert ([Pair(key, value)] + chain)[1..] == chain;
  }

  function Total(table: seq<seq<Pair>>): nat {
    if table == [] then 0 else |table[|table| - 1]| + Total(table[..|table| - 1])
  }

  lemma {:induction false} TotalUpdate(table: seq<seq<Pair>>, b: nat, chain: seq<Pair>)
    requires b < |table|
    ensures Total(table[b := chain]) == Total(table) - |table[b]| + |chain| && |table[b]| <= Total(table)
  {
    var n := |table| - 1;
    if b == n {
      assert table[b := chain][..n] == table[..n];
    } else {
      assert table[b := chain][..n] == table[..n][b := chain];
      TotalUpdate(table[..n], b, chain);
    }
  }

  lemma CountWraps(n: nat)
    ensures (n % U32 + 1) % U32 == (n + 1) % U32
    ensures 0 < n ==> (n % U32 + U32 - 1) % U32 == (n - 1) % U32
  {
  }

  class HashNode {
    var key: Word
    var value: Value
    var next: HashNode?

    constructor (key: Word, value: Value, next: HashNode?)
      ensures this.key == key && this.value == value && this.next == next
    {
      this.key, this.value, this.next := key, value, next;
    }
  }

  class HashTable {
    const hash: Word -> nat
    const buckets: array<HashNode?>
    var count: nat

    /** The pairs of each bucket, and the nodes that hold them, in chain order. */
    ghost var table: seq<seq<Pair>>
    ghost var chains: seq<seq<HashNode>>
    ghost var repr: set<HashNode>

    /** Node `i` of bucket `b` holds pair `i` of that bucket and links the next node. */
    ghost predicate NodeOk(b: nat, i: nat)
      requires b < buckets.Length && |table| == buckets.Length == |chains|
      requires |chains[b]| == |table[b]| && i < |chains[b]|
      reads this, buckets, repr
    {
      var n := chains[b][i];
      && n in repr && Pair(n.key, n.value) == table[b][i] && Bucket(n.key) == b
      && n.next == if i + 1 < |chains[b]| then chains[b][i + 1] else null
    }

    /** Bucket `b` is a chain of nodes that holds the pairs of `table[b]`, all of them hashed to `b`. */
    ghost predicate BucketOk(b: nat)
      requires b < buckets.Length && |table| == buckets.Length == |chains|
      reads this, buckets, repr
    {
      && |chains[b]| == |table[b]|
      && buckets[b] == (if chains[b] == [] then null else chains[b][0])
      && (forall i :: 0 <= i < |chains[b]| ==> NodeOk(b, i))
      && forall i, j :: 0 <= i < j < |chains[b]| ==> chains[b][i] != chains[b][j]
    }

    ghost predicate Valid()
      reads this, buckets, repr
    {
      && 0 < buckets.Length && |table| == buckets.Length && |chains| == buckets.Length
      && (forall b :: 0 <= b < buckets.Length ==> BucketOk(b))
      && count == Total(table) % U32
    }

    /** The bucket of a key: `hash_u64(key, nbuckets)`. */
    function Bucket(key: Word): (b: nat)
      requires 0 < buckets.Length
      ensures b < buckets.Length
    {
      hash(key) % buckets.Length
    }

    /** The values stored under `key`, newest first: what the table is for its callers. */
    ghost function Stack(key: Word): seq<Value>
      requires 0 < buckets.Length && |table| == buckets.Length
      reads this
    {
      StackIn(table[Bucket(key)], key)
    }

    /** `hashtable_init`. */
    constructor (hash: Word -> nat, nbuckets: nat)
      requires 0 < nbuckets
      ensures Valid() && fresh(buckets) && repr == {}
      ensures |table| == nbuckets && forall b :: 0 <= b < nbuckets ==> table[b] == []
    {
      this.hash := hash;
      count := 0;
      buckets := new HashNode?[nbuckets](_ => null);
      table := seq(nbuckets, _ => []);
      chains := seq(nbuckets, _ => []);
      repr := {};
      new;
      TotalOfEmpty(nbuckets);
    }

    static lemma {:induction false} TotalOfEmpty(n: nat)
      ensures Total(seq(n, _ => [])) == 0
    {
      if n > 0 {
        assert seq(n, _ => [])[..n - 1] == seq<seq<Pair>>(n - 1, _ => []);
        TotalOfEmpty(n - 1);
      }
    }

    /** `hashtable_insert`: push on the chain of the key's bucket. */
    method Insert(key: Word, value: Value)
      requires Valid()
      modifies this, buckets
      ensures Valid() && fresh(repr - old(repr))
      ensures table == old(table)[Bucket(key) := [Pair(key, value)] + old(table)[Bucket(key)]]
      ensures forall k: Word :: Stack(k) == if k == key then [value] + old(Stack(k)) else old(Stack(k))
    {
      var b := Bucket(key);
      var n := new HashNode(key, value, buckets[b]);
      buckets[b] := n;
      TotalUpdate(table, b, [Pair(key, value)] + table[b]);
      CountWraps(Total(table));
      table := table[b := [Pair(key, value)] + table[b]];
      chains := chains[b := [n] + chains[b]];
      repr := repr + {n};
      count := (count + 1) % U32;
      forall c | 0 <= c < buckets.Length
        ensures BucketOk(c)
      {
        assert old(BucketOk(c));
        forall i | 0 <= i < |chains[c]|
          ensures NodeOk(c, i)
        {
          if c != b {
            assert old(NodeOk(c, i));
          } else if i > 0 {
            assert old(NodeOk(c, i - 1));
          }
        }
      }
    }

    /** `hashtable_lookup`. */
    method Lookup(key: Word) returns (value: Option<Value>)
      requires Valid()
      ensures value == if Stack(key) == [] then None else Some(Stack(key)[0])
    {
      LookupReadsTop(table[Bucket(key)], key);
      var b := Bucket(key);
      var n := buckets[b];
      ghost var i := 0;
      assert BucketOk(b);
      while n != null
        invariant 0 <= i <= |chains[b]|
        invariant n == if i < |chains[b]| then chains[b][i] else null
        invariant LookupIn(table[b], key) == LookupIn(table[b][i..], key)
        decreases |chains[b]| - i
      {
        assert NodeOk(b, i);
        if n.key == key {
          return Some(n.value);
        }
        n := n.next;
        i := i + 1;
      }
      return None;
    }

    /** `hashtable_remove`. */
    method Remove(key: Word)
      requires Valid()
      modifies this, buckets, repr
      ensures Valid() && repr == old(repr)
      ensures table == old(table)[Bucket(key) := RemoveIn(old(table)[Bucket(key)], key)]
      ensures forall k: Word :: Stack(k) == Popped(old(Stack(k)), k == key)
    {
      hide BucketOk, NodeOk, Total;
      RemovePopsOnly(table[Bucket(key)], key);
      RemoveNode(key);
    }

    /** Its loop: `prev` is the node whose `next` the pointer of the loop points at, null for the bucket head. */
    method RemoveNode(key: Word)
      requires Valid()
      modifies this, buckets, repr
      ensures Valid() && repr == old(repr)
      ensures table == old(table)[Bucket(key) := RemoveIn(old(table)[Bucket(key)], key)]
    {
      hide Total;
      var b := Bucket(key);
      var prev: HashNode? := null;
      var n := buckets[b];
      ghost var i := 0;
      assert BucketOk(b);
      while n != null
        invariant Valid() && unchanged(this) && unchanged(buckets) && unchanged(repr)
        invariant 0 <= i <= |chains[b]|
        invariant n == if i < |chains[b]| then chains[b][i] else null
        invariant prev == if i == 0 then null else chains[b][i - 1]
        invariant RemoveIn(table[b], key) == table[b][..i] + RemoveIn(table[b][i..], key)
        decreases |chains[b]| - i
      {
        assert NodeOk(b, i);
        if n.key == key {
          assert table[b][i..][1..] == table[b][i + 1..];
          if prev == null {
            UnlinkHead(b, i, n);
          } else {
            UnlinkInner(b, i, prev, n);
          }
          return;
        }
        prev := n;
        n := n.next;
        i := i + 1;
      }
      assert table[b][..i] + [] == table[b];
      assert table[b := table[b]] == table;
    }

    /** `*pp = dead->next` when `pp` is the bucket head. */
    method UnlinkHead(b: nat, ghost i: nat, dead: HashNode)
      requires Valid() && b < buckets.Length && BucketOk(b) && i < |chains[b]| && dead == chains[b][i]
      requires i == 0
      modifies this, buckets, repr
      ensures Valid() && repr == old(repr)
      ensures table == old(table)[b := old(table)[b][..i] + old(table)[b][i + 1..]]
    {
      TotalUpdate(table, b, table[b][..i] + table[b][i + 1..]);
      CountWraps(Total(table));
      assert NodeOk(b, i);
      buckets[b] := dead.next;
      table := table[b := table[b][..i] + table[b][i + 1..]];
      chains := chains[b := chains[b][..i] + chains[b][i + 1..]];
      count := (count + U32 - 1) % U32;
      forall c | 0 <= c < buckets.Length
        ensures BucketOk(c)
      {
        assert old(BucketOk(c));
        forall j | 0 <= j < |chains[c]|
          ensures NodeOk(c, j)
        {
          assert old(NodeOk(c, if c != b || j < i then j else j + 1));
        }
      }
    }

    /** `*pp = dead->next` when `pp` is the `next` field of the node before. */
    method UnlinkInner(b: nat, ghost i: nat, prev: HashNode, dead: HashNode)
      requires Valid() && b < buckets.Length && BucketOk(b) && i < |chains[b]| && dead == chains[b][i]
      requires 0 < i && prev == chains[b][i - 1]
      modifies this, buckets, repr
      ensures Valid() && repr == old(repr)
      ensures table == old(table)[b := old(table)[b][..i] + old(table)[b][i + 1..]]
    {
      TotalUpdate(table, b, table[b][..i] + table[b][i + 1..]);
      CountWraps(Total(table));
      assert NodeOk(b, i);
      assert NodeOk(b, i - 1);
      prev.next := dead.next;
      table := table[b := table[b][..i] + table[b][i + 1..]];
      chains := chains[b := chains[b][..i] + chains[b][i + 1..]];
      count := (count + U32 - 1) % U32;
      forall c | 0 <= c < buckets.Length
        ensures BucketOk(c)
      {
        assert old(BucketOk(c));
        forall j | 0 <= j < |chains[c]|
          ensures NodeOk(c, j)
        {
          assert old(NodeOk(c, if c != b || j < i then j else j + 1));
        }
      }
    }
  }
}
