/** Reward maps: crediting one address (`increment`), adding one map into
    another (what ranging over a map and crediting every entry does), and the
    total of a map's values. */
module Maps {

  /** The amount credited to `k` so far; a missing entry reads as zero. */
  function Get<K>(m: map<K, int>, k: K): int {
    if k in m then m[k] else 0
  }

  /** `m` with `amount` added to the entry of `k`, creating it at zero when missing. */
  function Increment<K>(m: map<K, int>, k: K, amount: int): (r: map<K, int>)
    ensures r.Keys == m.Keys + {k}
    ensures r[k] == Get(m, k) + amount
    ensures forall j :: j in m && j != k ==> r[j] == m[j]
  {
    m[k := Get(m, k) + amount]
  }

  /** `m` with every entry of `s` credited to its key. */
  function MergeAdd<K>(m: map<K, int>, s: map<K, int>): (r: map<K, int>)
    ensures r.Keys == m.Keys + s.Keys
    ensures forall k :: k in r ==> r[k] == Get(m, k) + Get(s, k)
  {
    map k | k in m.Keys + s.Keys :: Get(m, k) + Get(s, k)
  }

  ghost function Pick<K>(s: set<K>): K
    requires s != {}
  {
    var k :| k in s; k
  }

  /** The total of the values of `m`. */
  ghost function SumValues<K>(m: map<K, int>): int
    decreases |m.Keys|
  {
    if m.Keys == {} then 0
    else
      var k := Pick(m.Keys);
      assert (m - {k}).Keys == m.Keys - {k};
      m[k] + SumValues(m - {k})
  }

  /** The total does not depend on which key is taken out first. */
  lemma {:induction false} SumValuesRemove<K>(m: map<K, int>, k: K)
    requires k in m
    ensures SumValues(m) == m[k] + SumValues(m - {k})
    decreases |m.Keys|
  {
    var p := Pick(m.Keys);
    if p != k {
      var mp, mk := m - {p}, m - {k};
      assert mp.Keys == m.Keys - {p} && mk.Keys == m.Keys - {k};
      calc {
        SumValues(m);
        m[p] + SumValues(mp);
        { SumValuesRemove(mp, k); assert mp - {k} == m - {p, k}; }
        m[p] + m[k] + SumValues(m - {p, k});
        { SumValuesRemove(mk, p); assert mk - {p} == m - {p, k}; }
        m[k] + SumValues(mk);
      }
    }
  }

  /** Crediting `amount` to one address raises the total by exactly `amount`. */
  lemma {:induction false} IncrementSum<K>(m: map<K, int>, k: K, amount: int)
    ensures SumValues(Increment(m, k, amount)) == SumValues(m) + amount
  {
    var r := Increment(m, k, amount);
    SumValuesRemove(r, k);
    assert r - {k} == m - {k};
    if k in m {
      SumValuesRemove(m, k);
    } else {
      assert m - {k} == m;
    }
  }

  /** Adding `s` into `m` is crediting the entries of `s` one at a time, in any order. */
  lemma MergeAddStep<K>(m: map<K, int>, s: map<K, int>, k: K)
    requires k in s
    ensures MergeAdd(m, s) == Increment(MergeAdd(m, s - {k}), k, s[k])
  {
    var lhs, rhs := MergeAdd(m, s), Increment(MergeAdd(m, s - {k}), k, s[k]);
    assert lhs.Keys == rhs.Keys;
    forall j | j in lhs
      ensures lhs[j] == rhs[j]
    {
      if j != k {
        assert Get(s, j) == Get(s - {k}, j);
      }
    }
  }

  /** Adding `s` into `m` raises the total by the total of `s`. */
  lemma {:induction false} MergeAddSum<K>(m: map<K, int>, s: map<K, int>)
    ensures SumValues(MergeAdd(m, s)) == SumValues(m) + SumValues(s)
    decreases |s.Keys|
  {
    if s.Keys == {} {
      assert MergeAdd(m, s) == m;
      assert SumValues(s) == 0;
    } else {
      var k :| k in s;
      var rest := s - {k};
      assert rest.Keys == s.Keys - {k};
      var before := MergeAdd(m, rest);
      calc {
        SumValues(MergeAdd(m, s));
        { MergeAddStep(m, s, k); }
        SumValues(Increment(before, k, s[k]));
        { IncrementSum(before, k, s[k]); }
        SumValues(before) + s[k];
        { MergeAddSum(m, rest); }
        SumValues(m) + SumValues(rest) + s[k];
        { SumValuesRemove(s, k); }
        SumValues(m) + SumValues(s);
      }
    }
  }
}
