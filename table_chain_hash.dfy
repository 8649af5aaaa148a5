/** The separate-chaining hash table of TableChainHash.java, modelled as the
    code behaves. Bucket `i` is a pair of parallel chains, the elements in
    `table[i]` and their keys in `keys[i]`, both listed from the head node on;
    the empty sequence stands for a null head.

    The class keeps the open-address table's method names and comments. Its
    code behaves differently from those comments:
    - `put` always links a new node at the head of the bucket and never replaces,
      so a key put twice has two entries and the newer one shadows the older;
    - `manyItems` is never incremented, so the table is never full;
    - `remove` of a bucket's head node empties the whole bucket;
    - `hasBeenUsed` is never set, so `containsKey` always answers false;
    - `get` of a key that is missing from a non-empty bucket runs off the end
      of the chain (a null dereference), and it is a precondition here. */
module Chaining {
  import opened Wrappers
  import Hashing

  /** The position of the first occurrence of `k` in `s`. */
  function IndexOf<K(==)>(s: seq<K>, k: K): (r: nat)
    requires k in s
    ensures r < |s| && s[r] == k
    ensures forall j :: 0 <= j < r ==> s[j] != k
  {
    if s[0] == k then 0 else 1 + IndexOf(s[1..], k)
  }

  /** Walking a chain from its head: the element paired with the first
      occurrence of `key`, or `None` when the key is not in the chain. */
  function Find<K(==), E>(ks: seq<K>, vs: seq<E>, key: K): (r: Option<E>)
    requires |ks| == |vs|
    ensures r.None? <==> key !in ks
    ensures key in ks ==> r == Some(vs[IndexOf(ks, key)])
  {
    if ks == [] then None
    else if ks[0] == key then Some(vs[0])
    else Find(ks[1..], vs[1..], key)
  }

  /** A new head node shadows every older entry of its key and leaves the
      entries of other keys visible. */
  lemma FindPrepend<K, E>(ks: seq<K>, vs: seq<E>, key: K, element: E, k: K)
    requires |ks| == |vs|
    ensures Find([key] + ks, [element] + vs, k) == if k == key then Some(element) else Find(ks, vs, k)
  {
    assert ([key] + ks)[1..] == ks && ([element] + vs)[1..] == vs;
  }

  /** Unlinking the first node of `key` leaves every other key's entry as it
      was, and makes the next older entry of `key`, if any, visible again. */
  lemma {:induction false} FindUnlink<K, E>(ks: seq<K>, vs: seq<E>, key: K, k: K)
    requires |ks| == |vs| && key in ks
    ensures var j := IndexOf(ks, key);
      Find(ks[..j] + ks[j + 1..], vs[..j] + vs[j + 1..], k)
        == if k == key then Find(ks[j + 1..], vs[j + 1..], key) else Find(ks, vs, k)
  {
    var j := IndexOf(ks, key);
    if j == 0 {
      assert ks[..0] + ks[1..] == ks[1..] && vs[..0] + vs[1..] == vs[1..];
    } else {
      var ks', vs' := ks[..j] + ks[j + 1..], vs[..j] + vs[j + 1..];
      assert ks'[0] == ks[0] && vs'[0] == vs[0];
      assert IndexOf(ks[1..], key) == j - 1;
      assert ks'[1..] == ks[1..][..j - 1] + ks[1..][j..];
      assert vs'[1..] == vs[1..][..j - 1] + vs[1..][j..];
      assert ks[1..][j..] == ks[j + 1..] && vs[1..][j..] == vs[j + 1..];
      FindUnlink(ks[1..], vs[1..], key, k);
    }
  }

  /** The invariant of the chained table, stated on the contents of its
      arrays: the two chains of a bucket have equal length, every key sits in
      the bucket it hashes to, no `hasBeenUsed` flag is set and `manyItems`
      never rises above its initial 0. */
  ghost predicate Inv<K, E>(hashCode: K -> nat, table: seq<seq<E>>, keys: seq<seq<K>>,
                            used: seq<bool>, many: int)
  {
    && 0 < |table| && |keys| == |table| && |used| == |table|
    && (forall i :: 0 <= i < |table| ==> |table[i]| == |keys[i]|)
    && (forall i, j :: 0 <= i < |keys| && 0 <= j < |keys[i]| ==>
          Hashing.Hash(hashCode(keys[i][j]), |keys|) == i)
    && (forall i :: 0 <= i < |used| ==> !used[i])
    && many <= 0
  }

  /** The entry a walk of the bucket of `key` finds. */
  ghost function LookupIn<K, E>(hashCode: K -> nat, table: seq<seq<E>>, keys: seq<seq<K>>, key: K): Option<E>
    requires 0 < |table| && |keys| == |table|
    requires forall i :: 0 <= i < |table| ==> |table[i]| == |keys[i]|
  {
    var h := Hashing.Hash(hashCode(key), |keys|);
    Find(keys[h], table[h], key)
  }

  /** Linking a pair in at the head of its bucket keeps the invariant and
      behaves as a map update for lookups. */
  lemma PrependKeepsInv<K, E>(hashCode: K -> nat, table: seq<seq<E>>, keys: seq<seq<K>>,
                              used: seq<bool>, many: int, key: K, element: E)
    requires Inv(hashCode, table, keys, used, many)
    ensures var h := Hashing.Hash(hashCode(key), |keys|);
      var table', keys' := table[h := [element] + table[h]], keys[h := [key] + keys[h]];
      && Inv(hashCode, table', keys', used, many)
      && forall k :: LookupIn(hashCode, table', keys', k)
                       == if k == key then Some(element) else LookupIn(hashCode, table, keys, k)
  {
    var h := Hashing.Hash(hashCode(key), |keys|);
    var table', keys' := table[h := [element] + table[h]], keys[h := [key] + keys[h]];
    forall i, j | 0 <= i < |keys'| && 0 <= j < |keys'[i]|
      ensures Hashing.Hash(hashCode(keys'[i][j]), |keys'|) == i
    {
      if i == h && j > 0 {
        assert keys'[i][j] == keys[i][j - 1];
      }
    }
    forall k
      ensures LookupIn(hashCode, table', keys', k)
                == if k == key then Some(element) else LookupIn(hashCode, table, keys, k)
    {
      if Hashing.Hash(hashCode(k), |keys|) == h {
        FindPrepend(keys[h], table[h], key, element, k);
      }
    }
  }

  /** Unlinking the first node of `key` from both chains of its bucket keeps
      the invariant (with one item fewer), leaves the other keys' lookups as
      they were, and uncovers the older entry of `key`, if any. */
  lemma UnlinkKeepsInv<K, E>(hashCode: K -> nat, table: seq<seq<E>>, keys: seq<seq<K>>,
                             used: seq<bool>, many: int, key: K)
    requires Inv(hashCode, table, keys, used, many)
    requires key in keys[Hashing.Hash(hashCode(key), |keys|)]
    ensures var h := Hashing.Hash(hashCode(key), |keys|);
      var j := IndexOf(keys[h], key);
      var table' := table[h := table[h][..j] + table[h][j + 1..]];
      var keys' := keys[h := keys[h][..j] + keys[h][j + 1..]];
      && Inv(hashCode, table', keys', used, many - 1)
      && LookupIn(hashCode, table', keys', key) == Find(keys[h][j + 1..], table[h][j + 1..], key)
      && forall k :: k != key ==> LookupIn(hashCode, table', keys', k) == LookupIn(hashCode, table, keys, k)
  {
    var h := Hashing.Hash(hashCode(key), |keys|);
    var j := IndexOf(keys[h], key);
    var table' := table[h := table[h][..j] + table[h][j + 1..]];
    var keys' := keys[h := keys[h][..j] + keys[h][j + 1..]];
    forall i, m | 0 <= i < |keys'| && 0 <= m < |keys'[i]|
      ensures Hashing.Hash(hashCode(keys'[i][m]), |keys'|) == i
    {
      if i == h {
        assert keys'[i][m] == if m < j then keys[i][m] else keys[i][m + 1];
      }
    }
    assert Inv(hashCode, table', keys', used, many - 1);
    forall k
      ensures LookupIn(hashCode, table', keys', k)
                == if k == key then Find(keys[h][j + 1..], table[h][j + 1..], key)
                   else LookupIn(hashCode, table, keys, k)
    {
      var hk := Hashing.Hash(hashCode(k), |keys|);
      if hk == h {
        FindUnlink(keys[h], table[h], key, k);
      } else {
        assert keys'[hk] == keys[hk] && table'[hk] == table[hk];
      }
    }
  }

  /** Setting a bucket's heads to null keeps the invariant (with one item
      fewer) and loses every key of that bucket. */
  lemma EmptyBucketKeepsInv<K, E>(hashCode: K -> nat, table: seq<seq<E>>, keys: seq<seq<K>>,
                                  used: seq<bool>, many: int, h: nat)
    requires Inv(hashCode, table, keys, used, many) && h < |keys|
    ensures var table', keys' := table[h := []], keys[h := []];
      && Inv(hashCode, table', keys', used, many - 1)
      && forall k :: LookupIn(hashCode, table', keys', k)
                       == if Hashing.Hash(hashCode(k), |keys|) == h then None
                          else LookupIn(hashCode, table, keys, k)
  {
  }

  class TableChainHash<K(==, !new), E> {
    /** The absolute value of a key's hash code. */
    const hashCode: K -> nat
    var manyItems: int
    const hasBeenUsed: array<bool>
    /** The element chains, one per bucket. */
    const table: array<seq<E>>
    /** The key chains, node for node beside the element chains. */
    const keys: array<seq<K>>
    /** Nodes walked past by the most recent `put`. */
    var collisions: int

    /** The bucket of `key`. */
    function Hash(key: K): (h: nat)
      requires table.Length > 0
      ensures h < table.Length
      ensures hashCode(key) < table.Length ==> h == hashCode(key)
    {
      Hashing.Hash(hashCode(key), table.Length)
    }

    ghost predicate Valid()
      reads this, table, keys, hasBeenUsed
    {
      && table as object != keys as object
      && table as object != hasBeenUsed as object && keys as object != hasBeenUsed as object
      && collisions >= 0
      && Inv(hashCode, table[..], keys[..], hasBeenUsed[..], manyItems)
    }

    /** What a successful `get` of `key` answers: the entry found by walking
        its bucket from the head. */
    ghost function Lookup(key: K): Option<E>
      reads this, table, keys, hasBeenUsed
      requires Valid()
    {
      LookupIn(hashCode, table[..], keys[..], key)
    }

    /** An empty table of `capacity` buckets. */
    constructor (capacity: nat, hashCode: K -> nat)
      requires capacity > 0
      ensures Valid()
      ensures this.hashCode == hashCode && table.Length == capacity
      ensures fresh(table) && fresh(keys) && fresh(hasBeenUsed)
      ensures forall i :: 0 <= i < capacity ==> table[i] == [] && keys[i] == [] && !hasBeenUsed[i]
      ensures manyItems == 0 && collisions == 0
    {
      this.hashCode := hashCode;
      table := new seq<E>[capacity](_ => []);
      keys := new seq<K>[capacity](_ => []);
      hasBeenUsed := new bool[capacity](_ => false);
      manyItems := 0;
      collisions := 0;
    }

    /** `new TableChainHash(capacity)`: rejects a capacity that is not positive. */
    static method Create(capacity: int, hashCode: K -> nat) returns (r: Result<TableChainHash<K, E>>)
      ensures capacity <= 0 ==> r == Failure(IllegalArgument("Capacity is negative"))
      ensures capacity > 0 ==> r.Success?
      ensures r.Success? ==>
        && fresh(r.value) && fresh(r.value.table) && fresh(r.value.keys) && fresh(r.value.hasBeenUsed)
        && r.value.Valid()
        && r.value.table.Length == capacity && r.value.hashCode == hashCode
        && r.value.manyItems == 0
        && (forall i :: 0 <= i < capacity ==> r.value.table[i] == [] && r.value.keys[i] == [])
    {
      if capacity <= 0 {
        return Failure(IllegalArgument("Capacity is negative"));
      }
      var t := new TableChainHash(capacity, hashCode);
      return Success(t);
    }

    /** The open-address search inherited from Table.java. It compares the key
        with a chain's head node, which is never equal to it, and it stops at
        the first slot whose `hasBeenUsed` flag is false; so it answers -1. */
    method FindIndex(key: K) returns (r: int)
      requires 0 < table.Length && hasBeenUsed.Length == table.Length
      ensures r == -1
    {
      var count := 0;
      var i := Hash(key);
      while count < table.Length && hasBeenUsed[i]
        invariant 0 <= count <= table.Length && 0 <= i < table.Length
        decreases table.Length - count
      {
        count := count + 1;
        i := Hashing.NextIndex(i, table.Length);
      }
      return -1;
    }

    /** Always false: it is `findIndex(key) != -1`. */
    method ContainsKey(key: K) returns (b: bool)
      requires 0 < table.Length && hasBeenUsed.Length == table.Length
      ensures !b
    {
      var index := FindIndex(key);
      b := index != -1;
    }

    /** Walks the bucket of `key` to its first node holding `key`. A key
        missing from a non-empty bucket would run off the end of the chain. */
    method Get(key: K) returns (r: Option<E>)
      requires Valid()
      requires keys[Hash(key)] != [] ==> key in keys[Hash(key)]
      ensures keys[Hash(key)] == [] ==> r == None
      ensures keys[Hash(key)] != [] ==> r == Some(table[Hash(key)][IndexOf(keys[Hash(key)], key)])
      ensures r == Lookup(key)
    {
      var index := Hash(key);
      if keys[index] == [] {
        return None;
      }
      var cursor := 0;
      while keys[index][cursor] != key
        invariant cursor <= IndexOf(keys[index], key)
        decreases IndexOf(keys[index], key) - cursor
      {
        cursor := cursor + 1;
      }
      return Some(table[index][cursor]);
    }

    /** Walks to the end of the bucket of `key`, counting its nodes as
        collisions, then links the new pair in at the head. The full-table
        exception and the replace branch of the source cannot be reached. */
    method Put(key: K, element: E) returns (r: Result<Option<E>>)
      requires Valid()
      modifies this, table, keys
      ensures Valid()
      ensures r == Success(None)
      ensures collisions == |old(table[Hash(key)])|
      ensures table[..] == old(table[..])[Hash(key) := [element] + old(table[Hash(key)])]
      ensures keys[..] == old(keys[..])[Hash(key) := [key] + old(keys[Hash(key)])]
      ensures manyItems == old(manyItems)
      ensures forall k :: Lookup(k) == if k == key then Some(element) else old(Lookup(k))
    {
      collisions := 0;
      var index := FindIndex(key);
      if manyItems < table.Length {
        index := Hash(key);
        var cursor := 0;
        if table[index] != [] {
          while cursor < |table[index]|
            modifies this`collisions
            invariant cursor <= |table[index]|
            invariant collisions == cursor
          {
            collisions := collisions + 1;
            cursor := cursor + 1;
          }
        }
        if cursor == |table[index]| {
          ghost var table0, keys0 := table[..], keys[..];
          PrependKeepsInv(hashCode, table0, keys0, hasBeenUsed[..], manyItems, key, element);
          table[index] := [element] + table[index];
          keys[index] := [key] + keys[index];
          assert table[..] == table0[index := [element] + table0[index]];
          assert keys[..] == keys0[index := [key] + keys0[index]];
        } else {
          assert false;
        }
        r := Success(None);
      } else {
        assert false;
      }
    }

    /** Walks the bucket of `key` with a trailing parent. A match after the
        head is unlinked from both chains; a match at the head empties the
        whole bucket. A match decrements `manyItems` and returns its element. */
    method Remove(key: K) returns (r: Option<E>)
      requires Valid()
      modifies this, table, keys
      ensures Valid()
      ensures collisions == old(collisions)
      ensures old(key !in keys[Hash(key)]) ==>
        && r == None && manyItems == old(manyItems)
        && table[..] == old(table[..]) && keys[..] == old(keys[..])
      ensures old(key in keys[Hash(key)]) ==>
        var h := Hash(key);
        var j := old(IndexOf(keys[h], key));
        && r == Some(old(table[h][j]))
        && manyItems == old(manyItems) - 1
        && (j == 0 ==> table[..] == old(table[..])[h := []] && keys[..] == old(keys[..])[h := []])
        && (j > 0 ==>
              && table[..] == old(table[..])[h := old(table[h][..j] + table[h][j + 1..])]
              && keys[..] == old(keys[..])[h := old(keys[h][..j] + keys[h][j + 1..])])
        && (j == 0 ==> forall k :: Lookup(k) == if Hash(k) == h then None else old(Lookup(k)))
        && (j > 0 ==>
              && Lookup(key) == old(Find(keys[h][j + 1..], table[h][j + 1..], key))
              && forall k :: k != key ==> Lookup(k) == old(Lookup(k)))
    {
      var index := Hash(key);
      if keys[index] == [] {
        return None;
      }
      ghost var table0, keys0 := table[..], keys[..];
      var cursor := 0;
      while cursor < |keys[index]|
        invariant cursor <= |keys[index]|
        invariant forall j :: 0 <= j < cursor ==> keys[index][j] != key
        invariant table[..] == table0 && keys[..] == keys0 && manyItems == old(manyItems)
      {
        if keys[index][cursor] == key {
          r := Some(table[index][cursor]);
          if cursor > 0 {
            UnlinkKeepsInv(hashCode, table0, keys0, hasBeenUsed[..], manyItems, key);
            keys[index] := keys[index][..cursor] + keys[index][cursor + 1..];
            table[index] := table[index][..cursor] + table[index][cursor + 1..];
            assert keys[..] == keys0[index := keys0[index][..cursor] + keys0[index][cursor + 1..]];
            assert table[..] == table0[index := table0[index][..cursor] + table0[index][cursor + 1..]];
          } else {
            EmptyBucketKeepsInv(hashCode, table0, keys0, hasBeenUsed[..], manyItems, index);
            table[index] := [];
            keys[index] := [];
            assert keys[..] == keys0[index := []] && table[..] == table0[index := []];
          }
          manyItems := manyItems - 1;
          return;
        }
        cursor := cursor + 1;
      }
      r := None;
    }

    function GetCollisions(): (c: int)
      reads this, table, keys, hasBeenUsed
      requires Valid()
      ensures c == collisions
      ensures c >= 0
    {
      collisions
    }
  }

  /** Read-after-write: `get` right after `put` returns the element just put,
      whether or not the key was already present. */
  method PutThenGet<K(==, !new), E>(t: TableChainHash<K, E>, key: K, element: E) returns (got: Option<E>)
    requires t.Valid()
    modifies t, t.table, t.keys
    ensures got == Some(element)
  {
    var _ := t.Put(key, element);
    got := t.Get(key);
  }

  /** Capacity 3 with identity hash codes: keys 0, 3 and 6 share bucket 0, so
      each put walks past every node already there; containsKey still answers
      false for a key that is present. */
  method CollisionScenario() returns (c0: int, c1: int, c2: int, found: bool)
    ensures c0 == 0 && c1 == 1 && c2 == 2
    ensures !found
  {
    var t := new TableChainHash<nat, string>(3, k => k);
    var r := t.Put(0, "zero");
    c0 := t.GetCollisions();
    r := t.Put(3, "three");
    c1 := t.GetCollisions();
    r := t.Put(6, "six");
    c2 := t.GetCollisions();
    found := t.ContainsKey(3);
  }

  /** Capacity 3 with identity hash codes: key 1 put with "old", then with
      "new", then key 4 put, leaves bucket 1 holding three entries, the newest
      first. */
  method ShadowedBucket() returns (t: TableChainHash<nat, string>)
    ensures fresh(t) && fresh(t.table) && fresh(t.keys) && fresh(t.hasBeenUsed)
    ensures t.Valid() && t.table.Length == 3 && t.Hash(1) == 1
    ensures t.keys[1] == [4, 1, 1] && t.table[1] == ["four", "new", "old"]
  {
    t := new TableChainHash<nat, string>(3, k => k);
    var r := t.Put(1, "old");
    r := t.Put(1, "new");
    r := t.Put(4, "four");
  }

  /** A key put twice has two entries, and `get` finds the newer one. */
  method ShadowScenario() returns (got: Option<string>)
    ensures got == Some("new")
  {
    var t := ShadowedBucket();
    got := t.Get(1);
  }

  /** Unlinking the newer entry of a key, when it is not at the head of its
      bucket, brings the older entry back. */
  method ResurfaceScenario() returns (removed: Option<string>, again: Option<string>)
    ensures removed == Some("new")
    ensures again == Some("old")
  {
    var t := ShadowedBucket();
    assert IndexOf(t.keys[1], 1) == 1;
    removed := t.Remove(1);
    again := t.Get(1);
  }

  /** Removing the head node of a bucket drops the rest of the bucket too:
      key 1 is lost although only key 4 was removed. */
  method HeadRemoveScenario() returns (removed: Option<string>, lost: Option<string>)
    ensures removed == Some("four")
    ensures lost == None
  {
    var t := new TableChainHash<nat, string>(3, k => k);
    var r := t.Put(1, "one");
    r := t.Put(4, "four");
    removed := t.Remove(4);
    lost := t.Get(1);
  }
}
