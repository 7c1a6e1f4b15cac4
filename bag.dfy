/** A counted multiset: a map from each value present to how many times it
    is present, and a separate counter of all the values. */
module Bag {

  /** The count the map records for `v`; a missing key counts as 0. */
  function Get<T>(m: map<T, nat>, v: T): nat
  {
    if v in m then m[v] else 0
  }

  /** The sum of all the counts in `m`. */
  ghost function Sum<T>(m: map<T, nat>): nat
    decreases |m|
  {
    if m == map[] then 0
    else
      var k :| k in m;
      m[k] + Sum(m - {k})
  }

  /** The sum does not depend on which key is taken out first. */
  lemma {:induction false} SumRemove<T>(m: map<T, nat>, k: T)
    requires k in m
    ensures Sum(m) == m[k] + Sum(m - {k})
    decreases |m|
  {
    var j :| j in m && Sum(m) == m[j] + Sum(m - {j});
    if j != k {
      SumRemove(m - {j}, k);
      SumRemove(m - {k}, j);
      assert m - {j} - {k} == m - {k} - {j};
    }
  }

  /** Setting one count changes the sum by the difference. */
  lemma SumUpdate<T>(m: map<T, nat>, k: T, c: nat)
    ensures Sum(m[k := c]) + Get(m, k) == Sum(m) + c
  {
    SumRemove(m[k := c], k);
    assert m[k := c] - {k} == m - {k};
    if k in m {
      SumRemove(m, k);
    } else {
      assert m - {k} == m;
    }
  }

  /** The multiset a count map stands for holds `v` exactly `Get(m, v)` times. */
  ghost predicate Counts<T>(ms: multiset<T>, m: map<T, nat>)
  {
    (forall v :: v in m ==> ms[v] == m[v]) && (forall v :: v in ms ==> v in m)
  }

  /** A multiset recorded by a count map has as many elements as the sum
      of the counts. */
  lemma {:induction false} CountsSize<T>(ms: multiset<T>, m: map<T, nat>)
    requires Counts(ms, m)
    ensures |ms| == Sum(m)
    decreases |m|
  {
    if m == map[] {
      assert ms == multiset{};
    } else {
      var k :| k in m;
      SumRemove(m, k);
      CountsSize(ms[k := 0], m - {k});
    }
  }

  /** Adding one `v` to the multiset is adding 1 to its count. */
  lemma CountsAdd<T>(ms: multiset<T>, m: map<T, nat>, v: T)
    requires Counts(ms, m)
    ensures Counts(ms + multiset{v}, m[v := Get(m, v) + 1])
  {
  }

  /** Taking one `v` out of the multiset is lowering its count by 1, and
      dropping the key when the count reaches 0. */
  lemma CountsTake<T>(ms: multiset<T>, m: map<T, nat>, v: T)
    requires Counts(ms, m) && v in m
    ensures m[v] > 1 ==> Counts(ms - multiset{v}, m[v := m[v] - 1])
    ensures m[v] == 1 ==> Counts(ms - multiset{v}, m - {v})
  {
  }

  class Bag<T(==)> {
    var size: int
    var data: map<T, nat>

    /** The values in the bag, with their multiplicities. */
    ghost var Contents: multiset<T>

    /** Every stored count is at least 1, the map records the multiset, and
        `size` is the sum of the counts. */
    ghost predicate Valid()
      reads this
    {
      (forall v :: v in data ==> data[v] > 0) &&
      Counts(Contents, data) &&
      size == Sum(data)
    }

    /** New: an empty map and a zero counter. */
    constructor ()
      ensures Valid() && Contents == multiset{}
      ensures size == 0 && data == map[]
    {
      size := 0;
      data := map[];
      Contents := multiset{};
    }

    /** Adds one occurrence of `v`: its count and the size go up by one. */
    method Insert(v: T)
      requires Valid()
      modifies this
      ensures Valid() && Contents == old(Contents) + multiset{v}
      ensures data == old(data)[v := Get(old(data), v) + 1] && size == old(size) + 1
    {
      var c := Get(data, v) + 1;
      SumUpdate(data, v, c);
      CountsAdd(Contents, data, v);
      data := data[v := c];
      size := size + 1;
      Contents := Contents + multiset{v};
    }

    /** Removes one occurrence of `v` if there is one; a count that would
        drop to 0 is deleted from the map instead. An absent value changes
        nothing. */
    method Remove(v: T)
      requires Valid()
      modifies this
      ensures Valid() && Contents == old(Contents) - multiset{v}
      ensures v !in old(data) ==> data == old(data) && size == old(size)
      ensures v in old(data) && old(data)[v] > 1 ==>
        data == old(data)[v := old(data)[v] - 1] && size == old(size) - 1
      ensures v in old(data) && old(data)[v] == 1 ==>
        data == old(data) - {v} && size == old(size) - 1
    {
      if v in data {
        CountsTake(Contents, data, v);
        var old_ := data[v];
        if old_ > 1 {
          SumUpdate(data, v, old_ - 1);
          data := data[v := old_ - 1];
        } else {
          SumRemove(data, v);
          data := data - {v};
        }
        size := size - 1;
        Contents := Contents - multiset{v};
      }
    }

    /** The number of values in the bag. */
    method Size() returns (r: int)
      requires Valid()
      ensures r == |Contents|
    {
      CountsSize(Contents, data);
      r := size;
    }

    /** How many times `v` is in the bag; 0 when it is absent. */
    method Count(v: T) returns (r: int)
      requires Valid()
      ensures r == Contents[v]
      ensures r == 0 <==> v !in data
    {
      r := Get(data, v);
    }

    /** The values a callback passed to Do is applied to, in call order:
        each value as many times as it is in the bag, so `size` calls in all.
        Which value comes first is not fixed, as with a Go map range. */
    method Do() returns (calls: seq<T>)
      requires Valid()
      ensures multiset(calls) == Contents
      ensures |calls| == size
    {
      calls := [];
      var rest := data;
      while rest != map[]
        invariant forall v :: v in rest ==> v in data && rest[v] == data[v]
        invariant forall v :: multiset(calls)[v] + Get(rest, v) == Contents[v]
        decreases |rest|
      {
        var val :| val in rest;
        var cnt: nat := rest[val];
        while cnt > 0
          invariant forall v :: multiset(calls)[v] + (if v == val then cnt else Get(rest, v)) == Contents[v]
        {
          calls := calls + [val];
          cnt := cnt - 1;
        }
        forall v ensures multiset(calls)[v] + Get(rest - {val}, v) == Contents[v] {
          if v != val {
            assert multiset(calls)[v] + Get(rest, v) == Contents[v];
          }
        }
        rest := rest - {val};
      }
      assert multiset(calls) == Contents;
      CountsSize(Contents, data);
    }

    /** Reset: back to the state New builds. */
    method Reset()
      modifies this
      ensures Valid() && Contents == multiset{}
      ensures size == 0 && data == map[]
    {
      size := 0;
      data := map[];
      Contents := multiset{};
    }
  }
}
