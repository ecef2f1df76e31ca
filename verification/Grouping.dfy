/** Keys grouped by a label: the shape shared by the unique lookup and the secondary indexes. */
module Grouping {

  /** Every label in use, with all the keys that carry it. */
  function Grouped<K, T>(labels: map<K, T>): map<T, set<K>> {
    map t | t in labels.Values :: set k | k in labels && labels[k] == t
  }

  function AddTo<K, T>(groups: map<T, set<K>>, t: T, k: K): map<T, set<K>> {
    groups[t := (if t in groups then groups[t] else {}) + {k}]
  }

  /** Groups that become empty are dropped. */
  function RemoveFrom<K, T>(groups: map<T, set<K>>, t: T, k: K): map<T, set<K>> {
    if t !in groups then groups
    else if groups[t] - {k} == {} then groups - {t}
    else groups[t := groups[t] - {k}]
  }

  lemma AddTwice<K, T>(groups: map<T, set<K>>, t: T, k: K)
    ensures AddTo(AddTo(groups, t, k), t, k) == AddTo(groups, t, k)
  {
  }

  lemma RemoveTwice<K, T>(groups: map<T, set<K>>, t: T, k: K)
    ensures RemoveFrom(RemoveFrom(groups, t, k), t, k) == RemoveFrom(groups, t, k)
  {
    if t in groups { assert groups[t] - {k} - {k} == groups[t] - {k}; }
  }

  /** Adding a key to its group is grouping with the key added. */
  lemma GroupedAdd<K, T>(labels: map<K, T>, k: K, t: T)
    requires k !in labels
    ensures Grouped(labels[k := t]) == AddTo(Grouped(labels), t, k)
  {
    var labels' := labels[k := t];
    forall u ensures u in labels'.Values <==> u in labels.Values || u == t {
      if u in labels.Values {
        var j :| j in labels && labels[j] == u;
        assert labels'[j] == u;
      }
      if u == t { assert labels'[k] == u; }
    }
    forall u | u in labels'.Values
      ensures Grouped(labels')[u] == AddTo(Grouped(labels), t, k)[u]
    {
      if u !in labels.Values { assert forall j :: j in labels ==> labels[j] != u; }
    }
  }

  /** Removing a key from its group is grouping without the key. */
  lemma GroupedRemove<K, T>(labels: map<K, T>, k: K)
    requires k in labels
    ensures Grouped(labels - {k}) == RemoveFrom(Grouped(labels), labels[k], k)
  {
    var rest, t := labels - {k}, labels[k];
    forall u ensures u in rest.Values <==> u in labels.Values && (u == t ==> Grouped(labels)[t] - {k} != {}) {
      if u in rest.Values {
        var j :| j in rest && rest[j] == u;
        assert labels[j] == u;
        if u == t { assert j in Grouped(labels)[t] - {k}; }
      }
      if u in labels.Values {
        if u == t {
          if Grouped(labels)[t] - {k} != {} {
            var j :| j in Grouped(labels)[t] - {k};
            assert rest[j] == u;
          }
        } else {
          var j :| j in labels && labels[j] == u;
          assert rest[j] == u;
        }
      }
    }
    forall u | u in rest.Values ensures Grouped(rest)[u] == if u == t then Grouped(labels)[t] - {k} else Grouped(labels)[u] {}
    assert t in labels.Values;
  }

  /** A key that is in no group is not removed from any. */
  lemma RemoveAbsent<K, T>(labels: map<K, T>, k: K, t: T)
    requires k !in labels
    ensures RemoveFrom(Grouped(labels), t, k) == Grouped(labels)
  {
    if t in labels.Values {
      var j :| j in labels && labels[j] == t;
      assert j in Grouped(labels)[t] - {k};
      assert Grouped(labels)[t] - {k} == Grouped(labels)[t];
    }
  }

  /** The groups determine the labels. */
  lemma GroupedTellsLabels<K, T>(a: map<K, T>, b: map<K, T>)
    requires Grouped(a) == Grouped(b)
    ensures a == b
  {
    forall k | k in a ensures k in b && a[k] == b[k] {
      assert a[k] in a.Values && k in Grouped(a)[a[k]];
      assert k in Grouped(b)[a[k]];
    }
    forall k | k in b ensures k in a {
      assert b[k] in b.Values && k in Grouped(b)[b[k]];
      assert k in Grouped(a)[b[k]];
    }
  }
}
