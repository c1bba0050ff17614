/** A finite map listed in two parallel sequences: its keys in increasing order, and
    the value of each key at the same place. */
module Listings {
  import opened Basics

  /** The map has exactly the listed keys, each with the value at the same place. */
  ghost predicate Listed<D>(ks: seq<nat>, ds: seq<D>, m: map<nat, D>)
  {
    && |ks| == |ds|
    && (forall i {:trigger ks[i]} | 0 <= i < |ks| :: ks[i] in m && m[ks[i]] == ds[i])
    && (forall k {:trigger Occurs(ks, k)} | k in m :: Occurs(ks, k))
  }

  ghost predicate Occurs(ks: seq<nat>, k: nat)
  {
    exists i :: 0 <= i < |ks| && ks[i] == k
  }

  ghost function Without<D>(s: seq<D>, at: nat): (r: seq<D>)
    requires at < |s|
  {
    s[..at] + s[at + 1..]
  }

  ghost function Within<D>(s: seq<D>, at: nat, d: D): (r: seq<D>)
    requires at <= |s|
  {
    s[..at] + [d] + s[at..]
  }

  lemma WithinHas<D>(s: seq<D>, at: nat, d: D)
    requires at <= |s|
    ensures forall x {:trigger x in Within(s, at, d)} :: x in Within(s, at, d) <==> x in s || x == d
  {
    assert Within(s, at, d)[at] == d;
    assert s == s[..at] + s[at..];
  }

  lemma ListedWithout<D>(ks: seq<nat>, ds: seq<D>, m: map<nat, D>, at: nat)
    requires Increasing(ks) && Listed(ks, ds, m) && at < |ks|
    ensures Increasing(Without(ks, at)) && Listed(Without(ks, at), Without(ds, at), m - {ks[at]})
  {
    var ks', ds', m' := Without(ks, at), Without(ds, at), m - {ks[at]};
    forall j | 0 <= j < |ks'| ensures ks'[j] in m' && m'[ks'[j]] == ds'[j] {
      var i := if j < at then j else j + 1;
      assert ks'[j] == ks[i] && ds'[j] == ds[i];
    }
    forall k | k in m' ensures Occurs(ks', k) {
      assert Occurs(ks, k);
      var i :| 0 <= i < |ks| && ks[i] == k;
      assert ks'[if i < at then i else i - 1] == k;
    }
  }

  lemma ListedWithin<D>(ks: seq<nat>, ds: seq<D>, m: map<nat, D>, at: nat, k0: nat, d: D)
    requires Increasing(ks) && Listed(ks, ds, m) && at <= |ks|
    requires forall i :: 0 <= i < at ==> ks[i] < k0
    requires forall i :: at <= i < |ks| ==> k0 < ks[i]
    ensures Increasing(Within(ks, at, k0)) && Listed(Within(ks, at, k0), Within(ds, at, d), m[k0 := d])
  {
    var ks', ds', m' := Within(ks, at, k0), Within(ds, at, d), m[k0 := d];
    forall j | 0 <= j < |ks'| ensures ks'[j] in m' && m'[ks'[j]] == ds'[j] {
      if j != at {
        var i := if j < at then j else j - 1;
        assert ks'[j] == ks[i] && ds'[j] == ds[i];
      }
    }
    forall k | k in m' ensures Occurs(ks', k) {
      if k == k0 {
        assert ks'[at] == k;
      } else {
        assert Occurs(ks, k);
        var i :| 0 <= i < |ks| && ks[i] == k;
        assert ks'[if i < at then i else i + 1] == k;
      }
    }
  }

  lemma ThreeParts(s: seq<nat>, lo: int, at: int, hi: int)
    requires 0 <= lo <= at < hi <= |s|
    ensures s[lo..hi] == s[lo..at] + [s[at]] + s[at + 1..hi]
  {
  }

  lemma ListedCount<D>(ks: seq<nat>, ds: seq<D>, m: map<nat, D>)
    requires Increasing(ks) && Listed(ks, ds, m)
    ensures |m| == |ks|
  {
    forall k ensures k in m.Keys <==> k in Elems(ks) {
      assert k in m ==> Occurs(ks, k);
    }
    assert m.Keys == Elems(ks);
    DistinctCount(ks);
  }

  lemma {:induction false} DistinctCount(ks: seq<nat>)
    requires Increasing(ks)
    ensures |Elems(ks)| == |ks|
  {
    if ks != [] {
      var last := |ks| - 1;
      DistinctCount(ks[..last]);
      assert Elems(ks) == Elems(ks[..last]) + {ks[last]};
    }
  }

  ghost function Elems<T>(s: seq<T>): set<T>
  {
    set x | x in s
  }
}
