/** Index arithmetic shared by both tables: the home slot of a key, the
    linear step, and the probe sequence these two generate. */
module Hashing {

  /** The home slot of a key whose (absolute) hash code is `code`, in a table
      of `capacity` slots: the remainder of the code divided by the capacity. */
  function Hash(code: nat, capacity: nat): (h: nat)
    requires capacity > 0
    ensures h < capacity
    ensures code < capacity ==> h == code
  {
    code % capacity
  }

  /** Below twice the divisor, the remainder needs at most one subtraction. */
  lemma ModOnce(x: nat, n: nat)
    requires 0 < n && x < 2 * n
    ensures x % n == if x < n then x else x - n
  {
    if x < n {
      assert x == 0 * n + x;
    } else {
      assert x == 1 * n + (x - n);
    }
  }

  /** The slot after `i`, wrapping from the last slot back to slot 0. */
  function NextIndex(i: nat, capacity: nat): (j: nat)
    requires i < capacity
    ensures j < capacity
    ensures j == (i + 1) % capacity
  {
    ModOnce(i + 1, capacity);
    if i + 1 == capacity then 0 else i + 1
  }

  /** The slot visited after `j` steps of linear probing from home slot `h`. */
  function Probe(h: nat, j: nat, capacity: nat): (i: nat)
    requires h < capacity && j < capacity
    ensures i < capacity
    ensures i == (h + j) % capacity
  {
    ModOnce(h + j, capacity);
    if h + j < capacity then h + j else h + j - capacity
  }

  /** How many linear steps lead from home slot `h` to slot `i`. */
  function Dist(h: nat, i: nat, capacity: nat): (d: nat)
    requires h < capacity && i < capacity
    ensures d < capacity
    ensures Probe(h, d, capacity) == i
  {
    if h <= i then i - h else i + capacity - h
  }

  /** One call of NextIndex advances the probe sequence by one step. */
  lemma ProbeStep(h: nat, j: nat, capacity: nat)
    requires h < capacity && j + 1 < capacity
    ensures NextIndex(Probe(h, j, capacity), capacity) == Probe(h, j + 1, capacity)
  {
  }

  /** The first `capacity` steps of the probe sequence visit every slot
      exactly once: the step count of a slot is determined by the slot. */
  lemma ProbeVisitsOnce(h: nat, j: nat, capacity: nat)
    requires h < capacity && j < capacity
    ensures Dist(h, Probe(h, j, capacity), capacity) == j
  {
  }

  /** Two distinct step counts below the capacity reach two distinct slots. */
  lemma ProbeInjective(h: nat, j1: nat, j2: nat, capacity: nat)
    requires h < capacity && j1 < capacity && j2 < capacity
    requires Probe(h, j1, capacity) == Probe(h, j2, capacity)
    ensures j1 == j2
  {
    ProbeVisitsOnce(h, j1, capacity);
    ProbeVisitsOnce(h, j2, capacity);
  }
}
