/** The open-address hash table of Table.java: three parallel arrays (`keys`,
    `data`, `hasBeenUsed`) probed linearly from the home slot of a key, with a
    count of the occupied slots that the last `put` had to step over.

    A slot whose key is `None` and whose `hasBeenUsed` flag is set is a
    tombstone: `remove` leaves it behind so that a search keeps probing past it.
    The class invariant `Valid` is the one the Java comments state, plus the
    probe-path property that makes searching correct: every stored key is
    reached from its home slot through used slots only. */
module OpenAddressing {
  import opened Wrappers
  import Hashing

  /** The number of non-null keys in `s`. */
  function CountKeys<K>(s: seq<Option<K>>): (c: nat)
    ensures c <= |s|
  {
    if s == [] then 0
    else CountKeys(s[..|s| - 1]) + (if s[|s| - 1].Some? then 1 else 0)
  }

  /** Every cell holds a key exactly when the count is the length. */
  lemma {:induction false} CountKeysFull<K>(s: seq<Option<K>>)
    ensures CountKeys(s) == |s| <==> forall i :: 0 <= i < |s| ==> s[i].Some?
  {
    if s != [] {
      var n := |s|;
      CountKeysFull(s[..n - 1]);
      assert forall i :: 0 <= i < n - 1 ==> s[..n - 1][i] == s[i];
    }
  }

  /** No cell holds a key exactly when the count is 0. */
  lemma {:induction false} CountKeysEmpty<K>(s: seq<Option<K>>)
    ensures CountKeys(s) == 0 <==> forall i :: 0 <= i < |s| ==> s[i].None?
  {
    if s != [] {
      var n := |s|;
      CountKeysEmpty(s[..n - 1]);
      assert forall i :: 0 <= i < n - 1 ==> s[..n - 1][i] == s[i];
    }
  }

  /** Overwriting one cell changes the count by what leaves and what arrives. */
  lemma {:induction false} CountKeysUpdate<K>(s: seq<Option<K>>, i: nat, x: Option<K>)
    requires i < |s|
    ensures CountKeys(s[i := x])
         == CountKeys(s) - (if s[i].Some? then 1 else 0) + (if x.Some? then 1 else 0)
  {
    var n := |s|;
    var t := s[i := x];
    if i == n - 1 {
      assert t[..n - 1] == s[..n - 1];
    } else {
      assert t[..n - 1] == s[..n - 1][i := x];
      CountKeysUpdate(s[..n - 1], i, x);
    }
    assert CountKeys(t) == CountKeys(t[..n - 1]) + (if t[n - 1].Some? then 1 else 0);
    assert CountKeys(s) == CountKeys(s[..n - 1]) + (if s[n - 1].Some? then 1 else 0);
  }

  /** If fewer than all cells hold a key and the first `c + 1` slots of the
      probe sequence from `h` all hold one, the sequence has a further step:
      linear probing from any home slot meets a free slot within the capacity. */
  lemma FreeSlotAhead<K>(s: seq<Option<K>>, h: nat, c: nat)
    requires h < |s| && c < |s|
    requires CountKeys(s) < |s|
    requires forall j :: 0 <= j <= c ==> s[Hashing.Probe(h, j, |s|)].Some?
    ensures c + 1 < |s|
  {
    CountKeysFull(s);
    var free :| 0 <= free < |s| && s[free].None?;
    var d := Hashing.Dist(h, free, |s|);
    assert c < d;
  }

  /** Every slot from home slot `h` forward to slot `i` has been used. */
  ghost predicate PathUsed(used: seq<bool>, h: nat, i: nat)
    requires h < |used| && i < |used|
  {
    forall j :: 0 <= j <= Hashing.Dist(h, i, |used|) ==> used[Hashing.Probe(h, j, |used|)]
  }

  /** What the invariant of Table.java says about slot `i`: its key is null
      exactly when its element is, and a key it holds has been used and sits
      where `pos` says (so no key is stored twice). */
  ghost predicate SlotInv<K, E>(keys: seq<Option<K>>, data: seq<Option<E>>, used: seq<bool>,
                                pos: map<K, nat>, i: nat)
    requires i < |keys| && |data| == |keys| && |used| == |keys|
  {
    && (keys[i].Some? <==> data[i].Some?)
    && (keys[i].Some? ==> used[i] && keys[i].value in pos && pos[keys[i].value] == i)
  }

  /** What the invariant says about a stored key `k`: it sits in slot `pos[k]`,
      and every slot from its home slot forward to that one has been used. */
  ghost predicate KeyInv<K>(hashCode: K -> nat, keys: seq<Option<K>>, used: seq<bool>,
                            pos: map<K, nat>, k: K)
    requires 0 < |keys| && |used| == |keys| && k in pos
  {
    && pos[k] < |keys|
    && keys[pos[k]] == Some(k)
    && PathUsed(used, Hashing.Hash(hashCode(k), |keys|), pos[k])
  }

  /** The invariant of Table.java over the contents of its three arrays, its
      item count and the slot `pos[k]` at which each key `k` sits. */
  ghost predicate Inv<K, E>(hashCode: K -> nat, keys: seq<Option<K>>, data: seq<Option<E>>,
                            used: seq<bool>, many: int, pos: map<K, nat>)
  {
    && |keys| > 0 && |data| == |keys| && |used| == |keys|
    // the number of items is the number of non-null keys
    && many == CountKeys(keys)
    && (forall i: nat :: i < |keys| ==> SlotInv(keys, data, used, pos, i))
    && (forall k :: k in pos ==> KeyInv(hashCode, keys, used, pos, k))
  }

  /** The mapping from each stored key to its element. */
  ghost function ContentsOf<K, E>(data: seq<Option<E>>, pos: map<K, nat>): map<K, E>
  {
    map k | k in pos && pos[k] < |data| && data[pos[k]].Some? :: data[pos[k]].value
  }

  /** Under the invariant the mapping holds exactly the keys that have a slot. */
  lemma ContentsKeys<K, E>(hashCode: K -> nat, keys: seq<Option<K>>, data: seq<Option<E>>,
                           used: seq<bool>, many: int, pos: map<K, nat>)
    requires Inv(hashCode, keys, data, used, many, pos)
    ensures ContentsOf(data, pos).Keys == pos.Keys
    ensures forall k :: k in pos ==> ContentsOf(data, pos)[k] == data[pos[k]].value
  {
    forall k | k in pos ensures data[pos[k]].Some? {
      assert KeyInv(hashCode, keys, used, pos, k);
      assert SlotInv(keys, data, used, pos, pos[k]);
    }
  }

  /** Overwriting the element of a stored key keeps the invariant, and the
      mapping changes at that key only. */
  lemma ReplaceKeepsInv<K, E>(hashCode: K -> nat, keys: seq<Option<K>>, data: seq<Option<E>>,
                              used: seq<bool>, many: int, pos: map<K, nat>, key: K, element: E)
    requires Inv(hashCode, keys, data, used, many, pos) && key in pos
    ensures Inv(hashCode, keys, data[pos[key] := Some(element)], used, many, pos)
    ensures ContentsOf(data[pos[key] := Some(element)], pos) == ContentsOf(data, pos)[key := element]
  {
    var slot := pos[key];
    var data' := data[slot := Some(element)];
    assert KeyInv(hashCode, keys, used, pos, key);
    forall i: nat | i < |keys| ensures SlotInv(keys, data', used, pos, i) {
      assert SlotInv(keys, data, used, pos, i);
    }
    forall k | k in pos && k != key ensures pos[k] != slot {
      assert KeyInv(hashCode, keys, used, pos, k);
    }
    ContentsKeys(hashCode, keys, data, used, many, pos);
    ContentsKeys(hashCode, keys, data', used, many, pos);
  }

  /** Giving a new key its own slot adds exactly that key to the mapping. */
  lemma ContentsInsert<K, E>(data: seq<Option<E>>, pos: map<K, nat>, key: K, element: E, slot: nat)
    requires slot < |data| && key !in pos
    requires forall k :: k in pos ==> pos[k] != slot
    ensures ContentsOf(data[slot := Some(element)], pos[key := slot]) == ContentsOf(data, pos)[key := element]
  {
    var before, after := ContentsOf(data, pos), ContentsOf(data[slot := Some(element)], pos[key := slot]);
    assert after.Keys == before.Keys + {key};
    forall k | k in after ensures after[k] == before[key := element][k] {
    }
  }

  /** Marking more slots as used keeps every probe path used. */
  lemma MoreUsedKeepsPath(used: seq<bool>, used': seq<bool>, h: nat, i: nat)
    requires |used'| == |used| && h < |used| && i < |used|
    requires forall j :: 0 <= j < |used| && used[j] ==> used'[j]
    requires PathUsed(used, h, i)
    ensures PathUsed(used', h, i)
  {
  }

  /** Storing a new key in the first null-key slot of its probe path, after
      `c` occupied slots, keeps the invariant and adds the key to the mapping. */
  lemma InsertKeepsInv<K, E>(hashCode: K -> nat, keys: seq<Option<K>>, data: seq<Option<E>>,
                             used: seq<bool>, many: int, pos: map<K, nat>,
                             key: K, element: E, c: nat)
    requires Inv(hashCode, keys, data, used, many, pos) && key !in pos
    requires c < |keys|
    requires forall j :: 0 <= j < c ==>
      keys[Hashing.Probe(Hashing.Hash(hashCode(key), |keys|), j, |keys|)].Some?
    requires keys[Hashing.Probe(Hashing.Hash(hashCode(key), |keys|), c, |keys|)].None?
    ensures var slot := Hashing.Probe(Hashing.Hash(hashCode(key), |keys|), c, |keys|);
      && Inv(hashCode, keys[slot := Some(key)], data[slot := Some(element)], used[slot := true],
             many + 1, pos[key := slot])
      && ContentsOf(data[slot := Some(element)], pos[key := slot]) == ContentsOf(data, pos)[key := element]
  {
    var n := |keys|;
    var h := Hashing.Hash(hashCode(key), n);
    var slot := Hashing.Probe(h, c, n);
    var keys', data', used', pos' := keys[slot := Some(key)], data[slot := Some(element)],
                                     used[slot := true], pos[key := slot];
    CountKeysUpdate(keys, slot, Some(key));
    forall j | 0 <= j < n && used[j] ensures used'[j] {
    }
    // the new key is reachable: the slots before it are occupied, hence used
    Hashing.ProbeVisitsOnce(h, c, n);
    forall j | 0 <= j <= c ensures used'[Hashing.Probe(h, j, n)] {
      if j < c {
        assert SlotInv(keys, data, used, pos, Hashing.Probe(h, j, n));
      }
    }
    assert KeyInv(hashCode, keys', used', pos', key);
    // every other key keeps its slot and its probe path
    forall k | k in pos ensures pos[k] != slot && KeyInv(hashCode, keys', used', pos', k) {
      assert KeyInv(hashCode, keys, used, pos, k);
      MoreUsedKeepsPath(used, used', Hashing.Hash(hashCode(k), n), pos[k]);
    }
    // every other slot is as it was
    forall i: nat | i < n ensures SlotInv(keys', data', used', pos', i) {
      assert SlotInv(keys, data, used, pos, i);
    }
    ContentsInsert(data, pos, key, element, slot);
  }

  /** Nulling the key and element of a stored key, while its slot stays used,
      keeps the invariant and removes the key from the mapping. */
  lemma RemoveKeepsInv<K, E>(hashCode: K -> nat, keys: seq<Option<K>>, data: seq<Option<E>>,
                             used: seq<bool>, many: int, pos: map<K, nat>, key: K)
    requires Inv(hashCode, keys, data, used, many, pos) && key in pos
    ensures Inv(hashCode, keys[pos[key] := None], data[pos[key] := None], used, many - 1, pos - {key})
    ensures ContentsOf(data[pos[key] := None], pos - {key}) == ContentsOf(data, pos) - {key}
  {
    var slot := pos[key];
    var keys', data', pos' := keys[slot := None], data[slot := None], pos - {key};
    assert KeyInv(hashCode, keys, used, pos, key);
    CountKeysUpdate(keys, slot, None);
    forall k | k in pos' ensures pos'[k] != slot && KeyInv(hashCode, keys', used, pos', k) {
      assert KeyInv(hashCode, keys, used, pos, k);
    }
    forall i: nat | i < |keys| ensures SlotInv(keys', data', used, pos', i) {
      assert SlotInv(keys, data, used, pos, i);
    }
    var before, after := ContentsOf(data, pos), ContentsOf(data', pos');
    assert after.Keys == before.Keys - {key};
  }

  class Table<K(==), E> {
    /** The absolute value of a key's hash code. */
    const hashCode: K -> nat
    var manyItems: int
    const keys: array<Option<K>>
    const data: array<Option<E>>
    const hasBeenUsed: array<bool>
    /** Occupied slots stepped over by the most recent `put`. */
    var collisions: int

    /** The slot at which each stored key sits. */
    ghost var Position: map<K, nat>

    /** The home slot of `key`. */
    function Hash(key: K): (h: nat)
      requires keys.Length > 0
      ensures h < keys.Length
      ensures hashCode(key) < keys.Length ==> h == hashCode(key)
    {
      Hashing.Hash(hashCode(key), keys.Length)
    }

    ghost predicate Valid()
      reads this, keys, data, hasBeenUsed
    {
      && keys as object != data as object
      && keys as object != hasBeenUsed as object && data as object != hasBeenUsed as object
      && 0 <= collisions < keys.Length
      && Inv(hashCode, keys[..], data[..], hasBeenUsed[..], manyItems, Position)
    }

    /** The mapping the table represents. */
    ghost function Contents(): map<K, E>
      reads this, data
    {
      ContentsOf(data[..], Position)
    }

    /** An empty table of `capacity` slots. */
    constructor (capacity: nat, hashCode: K -> nat)
      requires capacity > 0
      ensures Valid()
      ensures this.hashCode == hashCode && keys.Length == capacity
      ensures fresh(keys) && fresh(data) && fresh(hasBeenUsed)
      ensures forall i :: 0 <= i < capacity ==> keys[i].None? && data[i].None? && !hasBeenUsed[i]
      ensures manyItems == 0 && collisions == 0
      ensures Contents() == map[]
    {
      this.hashCode := hashCode;
      keys := new Option<K>[capacity](_ => None);
      data := new Option<E>[capacity](_ => None);
      hasBeenUsed := new bool[capacity](_ => false);
      manyItems := 0;
      collisions := 0;
      Position := map[];
      new;
      CountKeysEmpty(keys[..]);
    }

    /** `new Table(capacity)`: rejects a capacity that is not positive. */
    static method Create(capacity: int, hashCode: K -> nat) returns (r: Result<Table<K, E>>)
      ensures capacity <= 0 ==> r == Failure(IllegalArgument("Capacity is negative"))
      ensures capacity > 0 ==> r.Success?
      ensures r.Success? ==>
        && fresh(r.value) && fresh(r.value.keys) && fresh(r.value.data) && fresh(r.value.hasBeenUsed)
        && r.value.Valid()
        && r.value.keys.Length == capacity && r.value.hashCode == hashCode
        && r.value.manyItems == 0
        && (forall i :: 0 <= i < capacity ==>
              r.value.keys[i].None? && r.value.data[i].None? && !r.value.hasBeenUsed[i])
        && r.value.Contents() == map[]
    {
      if capacity <= 0 {
        return Failure(IllegalArgument("Capacity is negative"));
      }
      var t := new Table(capacity, hashCode);
      return Success(t);
    }

    /** The index of `key`, or -1: probes from the home slot for at most
        `capacity` slots, passing tombstones, and stops at a never-used slot. */
    method FindIndex(key: K) returns (r: int)
      requires Valid()
      ensures r == -1 <==> key !in Position
      ensures r != -1 ==> 0 <= r < keys.Length && keys[r] == Some(key) && r == Position[key]
    {
      var n := data.Length;
      var h := Hash(key);
      var count := 0;
      var i := h;
      if key in Position {
        assert KeyInv(hashCode, keys[..], hasBeenUsed[..], Position, key);
      }
      while count < n && hasBeenUsed[i]
        invariant 0 <= count <= n && i < n
        invariant count < n ==> i == Hashing.Probe(h, count, n)
        invariant key in Position ==> count <= Hashing.Dist(h, Position[key], n)
        decreases n - count
      {
        if keys[i] == Some(key) {
          assert SlotInv(keys[..], data[..], hasBeenUsed[..], Position, i);
          return i;
        }
        if count + 1 < n {
          Hashing.ProbeStep(h, count, n);
        }
        count := count + 1;
        i := Hashing.NextIndex(i, n);
      }
      return -1;
    }

    method ContainsKey(key: K) returns (b: bool)
      requires Valid()
      ensures b <==> key in Contents()
    {
      ContentsKeys(hashCode, keys[..], data[..], hasBeenUsed[..], manyItems, Position);
      var index := FindIndex(key);
      b := index != -1;
    }

    method Get(key: K) returns (r: Option<E>)
      requires Valid()
      ensures key in Contents() ==> r == Some(Contents()[key])
      ensures key !in Contents() ==> r == None
    {
      ContentsKeys(hashCode, keys[..], data[..], hasBeenUsed[..], manyItems, Position);
      var index := FindIndex(key);
      if index == -1 {
        r := None;
      } else {
        r := data[index];
      }
    }

    /** The probing loop of `put` for a new key: steps forward from the home
        slot of `key` to the first slot whose key is null, counting each
        occupied slot stepped over as a collision. */
    method ProbeFree(key: K) returns (index: nat)
      requires Valid() && collisions == 0 && manyItems < keys.Length
      modifies this`collisions
      ensures 0 <= collisions < keys.Length
      ensures index == Hashing.Probe(Hash(key), collisions, keys.Length)
      ensures keys[index].None?
      ensures forall c :: 0 <= c < collisions ==> keys[Hashing.Probe(Hash(key), c, keys.Length)].Some?
    {
      var n := data.Length;
      var h := Hash(key);
      ghost var keys0 := keys[..];
      index := h;
      while keys[index].Some?
        invariant keys[..] == keys0
        invariant 0 <= collisions < n && index == Hashing.Probe(h, collisions, n)
        invariant forall c :: 0 <= c < collisions ==> keys0[Hashing.Probe(h, c, n)].Some?
        decreases n - collisions
      {
        FreeSlotAhead(keys0, h, collisions);
        Hashing.ProbeStep(h, collisions, n);
        index := Hashing.NextIndex(index, n);
        collisions := collisions + 1;
      }
    }

    /** Replaces the element of a present key; otherwise stores the key in
        the first slot with a null key on its probe path, counting the
        occupied slots stepped over, or throws when the table is full. */
    method Put(key: K, element: E) returns (r: Result<Option<E>>)
      requires Valid()
      modifies this, keys, data, hasBeenUsed
      ensures Valid()
      // the key is present: only its element changes
      ensures old(key in Contents()) ==>
        && r == Success(Some(old(Contents()[key])))
        && Contents() == old(Contents())[key := element]
        && key in old(Position) && Position == old(Position)
        && keys[..] == old(keys[..]) && hasBeenUsed[..] == old(hasBeenUsed[..])
        && data[..] == old(data[..])[old(Position)[key] := Some(element)]
        && manyItems == old(manyItems) && collisions == 0
      // a new key and room for it: it goes to the first null-key slot on its probe path
      ensures old(key !in Contents()) && old(manyItems) < keys.Length ==>
        && r == Success(None)
        && Contents() == old(Contents())[key := element]
        && 0 <= collisions < keys.Length
        && (forall c :: 0 <= c < collisions ==>
              old(keys[Hashing.Probe(Hash(key), c, keys.Length)]).Some?)
        && (var slot := Hashing.Probe(Hash(key), collisions, keys.Length);
            && old(keys[slot]) == None
            && keys[..] == old(keys[..])[slot := Some(key)]
            && data[..] == old(data[..])[slot := Some(element)]
            && hasBeenUsed[..] == old(hasBeenUsed[..])[slot := true])
        && manyItems == old(manyItems) + 1
      // a new key and no room: "Table is full.", and only the counter was reset
      ensures old(key !in Contents()) && old(manyItems) >= keys.Length ==>
        && r == Failure(IllegalState("Table is full."))
        && keys[..] == old(keys[..]) && data[..] == old(data[..])
        && hasBeenUsed[..] == old(hasBeenUsed[..])
        && Position == old(Position)
        && manyItems == old(manyItems) && collisions == 0
    {
      collisions := 0;
      ghost var keys0, data0, used0 := keys[..], data[..], hasBeenUsed[..];
      ContentsKeys(hashCode, keys0, data0, used0, manyItems, Position);
      var index := FindIndex(key);
      if index != -1 {
        ReplaceKeepsInv(hashCode, keys0, data0, used0, manyItems, Position, key, element);
        r := Success(data[index]);
        data[index] := Some(element);
        assert data[..] == data0[index := Some(element)];
      } else if manyItems < data.Length {
        index := ProbeFree(key);
        InsertKeepsInv(hashCode, keys0, data0, used0, manyItems, Position, key, element, collisions);
        keys[index] := Some(key);
        assert keys[..] == keys0[index := Some(key)];
        data[index] := Some(element);
        assert data[..] == data0[index := Some(element)];
        hasBeenUsed[index] := true;
        assert hasBeenUsed[..] == used0[index := true];
        manyItems := manyItems + 1;
        Position := Position[key := index];
        r := Success(None);
      } else {
        r := Failure(IllegalState("Table is full."));
      }
    }

    /** Nulls the key and element of a present key, leaving its slot marked
        as used (a tombstone), and returns the element; otherwise does nothing. */
    method Remove(key: K) returns (r: Option<E>)
      requires Valid()
      modifies this, keys, data
      ensures Valid()
      ensures collisions == old(collisions)
      ensures key in old(Contents()) ==> r == Some(old(Contents()[key]))
      ensures key !in old(Contents()) ==> r == None
      ensures Contents() == old(Contents()) - {key}
      ensures key in old(Position) ==>
        && keys[..] == old(keys[..])[old(Position[key]) := None]
        && data[..] == old(data[..])[old(Position[key]) := None]
        && hasBeenUsed[old(Position[key])]
        && manyItems == old(manyItems) - 1
      ensures key !in old(Position) ==>
        keys[..] == old(keys[..]) && data[..] == old(data[..]) && manyItems == old(manyItems)
    {
      ContentsKeys(hashCode, keys[..], data[..], hasBeenUsed[..], manyItems, Position);
      var index := FindIndex(key);
      r := None;
      if index != -1 {
        ghost var oldKeys, oldData := keys[..], data[..];
        RemoveKeepsInv(hashCode, oldKeys, oldData, hasBeenUsed[..], manyItems, Position, key);
        assert SlotInv(oldKeys, oldData, hasBeenUsed[..], Position, index);
        r := data[index];
        keys[index] := None;
        data[index] := None;
        assert keys[..] == oldKeys[index := None];
        assert data[..] == oldData[index := None];
        manyItems := manyItems - 1;
        Position := Position - {key};
      }
    }

    function GetCollisions(): (c: int)
      reads this, keys, data, hasBeenUsed
      requires Valid()
      ensures c == collisions
      ensures 0 <= c < keys.Length
    {
      collisions
    }
  }

  /** Read-after-write: whenever `put` returns normally, `get` of the same key
      returns the element just put. */
  method PutThenGet<K, E>(t: Table<K, E>, key: K, element: E)
    returns (r: Result<Option<E>>, got: Option<E>)
    requires t.Valid()
    modifies t, t.keys, t.data, t.hasBeenUsed
    ensures r.Success? ==> got == Some(element)
  {
    r := t.Put(key, element);
    got := t.Get(key);
  }

  /** Removing one key never hides another: the tombstone it leaves keeps
      the other key's probe path intact. */
  method RemoveKeepsOthers<K, E>(t: Table<K, E>, key: K, other: K)
    returns (before: Option<E>, after: Option<E>)
    requires t.Valid() && key != other
    modifies t, t.keys, t.data
    ensures before == after
  {
    before := t.Get(other);
    var _ := t.Remove(key);
    after := t.Get(other);
  }

  /** Capacity 5 with identity hash codes: keys 2 and 7 share home slot 2.
      The first put steps over nothing, the second steps over slot 2 and lands
      in slot 3; once 2 is removed, 7 is still found through the tombstone. */
  method CollisionScenario() returns (first: int, second: int, got: Option<string>)
    ensures first == 0 && second == 1
    ensures got == Some("seven")
  {
    var t := new Table<nat, string>(5, k => k);
    ghost var keys0 := t.keys[..];
    assert t.Hash(2) == 2 && Hashing.Probe(2, 0, 5) == 2 && keys0[2] == None;
    var r := t.Put(2, "two");
    first := t.GetCollisions();
    ghost var keys1 := t.keys[..];
    assert keys1 == keys0[2 := Some(2)];
    assert t.Hash(7) == 2 && Hashing.Probe(2, 1, 5) == 3 && keys1[3] == None;
    r := t.Put(7, "seven");
    second := t.GetCollisions();
    assert t.keys[..] == keys1[3 := Some(7)];
    assert 7 in t.Contents() && t.Contents()[7] == "seven";
    var removed := t.Remove(2);
    assert 7 in t.Contents() && t.Contents()[7] == "seven";
    got := t.Get(7);
  }
}
