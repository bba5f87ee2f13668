/**
 * Shared vocabulary: optional values, student identifiers, and the
 * insertion-ordered dictionary `{student_id: embedding}` that the
 * embeddings loader builds and the matcher and the routes consume.
 */
module Roster {

  datatype Option<+T> = None | Some(value: T)

  /** Student identifiers (UUIDs in the database) are opaque strings. */
  type StudentId = string

  /** One key/value pair of an insertion-ordered Python dict. */
  datatype Entry<V> = Entry(id: StudentId, value: V)

  /** The keys of an ordered dict, in insertion order (`list(d.keys())`). */
  function Ids<V>(d: seq<Entry<V>>): (r: seq<StudentId>)
    ensures |r| == |d|
    ensures forall i :: 0 <= i < |d| ==> r[i] == d[i].id
  {
    seq(|d|, i requires 0 <= i < |d| => d[i].id)
  }

  /** The key set of an ordered dict (`set(d.keys())`). */
  function KeySet<V>(d: seq<Entry<V>>): (r: set<StudentId>)
  {
    set i | 0 <= i < |d| :: d[i].id
  }

  /** The key sequence and the key set hold the same keys; a dict's key sequence has no repeats. */
  lemma IdsCoverKeys<V>(d: seq<Entry<V>>)
    ensures (set x | x in Ids(d)) == KeySet(d)
    ensures DistinctIds(d) ==> NoDuplicates(Ids(d))
  {
    forall y | y in KeySet(d) ensures y in Ids(d) {
      var i :| 0 <= i < |d| && d[i].id == y;
      assert Ids(d)[i] == y;
    }
  }

  /** A dict never holds the same key twice. */
  ghost predicate DistinctIds<V>(d: seq<Entry<V>>) {
    forall i, j :: 0 <= i < j < |d| ==> d[i].id != d[j].id
  }

  /** No element of a sequence occurs twice. */
  ghost predicate NoDuplicates<T>(s: seq<T>) {
    forall i, j :: 0 <= i < j < |s| ==> s[i] != s[j]
  }

  /** The set of elements of a sequence, built from the front. */
  function Elems<T>(s: seq<T>): (r: set<T>)
    decreases |s|
  {
    if s == [] then {} else Elems(s[..|s| - 1]) + {s[|s| - 1]}
  }

  /** `Elems` holds exactly the elements of the sequence. */
  lemma {:induction false} ElemsMembers<T>(s: seq<T>)
    ensures forall x :: x in Elems(s) <==> x in s
    decreases |s|
  {
    if s != [] {
      var n := |s| - 1;
      ElemsMembers(s[..n]);
      assert s == s[..n] + [s[n]];
      assert forall x :: x in s <==> x in s[..n] || x == s[n];
    }
  }

  /** Dropping the last element of a repeat-free sequence keeps it repeat-free, and that element is not in the rest. */
  lemma NoDuplicatesInit<T>(s: seq<T>)
    requires s != [] && NoDuplicates(s)
    ensures NoDuplicates(s[..|s| - 1]) && s[|s| - 1] !in s[..|s| - 1]
  {
    var n := |s| - 1;
    assert forall i :: 0 <= i < n ==> s[..n][i] == s[i];
  }

  /**
   * `d[k] = v`: an existing key keeps its position and gets the new value;
   * a new key is appended at the end.
   */
  function Put<V>(d: seq<Entry<V>>, k: StudentId, v: V): (r: seq<Entry<V>>)
    ensures KeySet(r) == KeySet(d) + {k}
    ensures Ids(r) == if k in KeySet(d) then Ids(d) else Ids(d) + [k]
    ensures forall e :: e in r ==> e == Entry(k, v) || e in d
    ensures Entry(k, v) in r
    ensures k in KeySet(d) ==>
      |r| == |d| && forall i :: 0 <= i < |d| ==> r[i] == (if d[i].id == k then Entry(k, v) else d[i])
    ensures k !in KeySet(d) ==> r == d + [Entry(k, v)]
    ensures DistinctIds(d) ==> DistinctIds(r)
  {
    if k in KeySet(d) then
      var r := seq(|d|, i requires 0 <= i < |d| => if d[i].id == k then Entry(k, v) else d[i]);
      assert Ids(r) == Ids(d);
      assert Entry(k, v) in r by {
        var j :| 0 <= j < |d| && d[j].id == k;
        assert r[j] == Entry(k, v);
      }
      SameIdsSameKeys(r, d);
      r
    else
      var r := d + [Entry(k, v)];
      assert KeySet(r) == KeySet(d) + {k} by {
        assert r[|d|].id == k;
        forall x | x in KeySet(d) ensures x in KeySet(r) {
          var i :| 0 <= i < |d| && d[i].id == x;
          assert r[i].id == x;
        }
      }
      r
  }

  /** Two dicts with the same key sequence have the same key set. */
  lemma SameIdsSameKeys<U, V>(a: seq<Entry<U>>, b: seq<Entry<V>>)
    requires Ids(a) == Ids(b)
    ensures KeySet(a) == KeySet(b)
  {
    forall x | x in KeySet(a) ensures x in KeySet(b) {
      var i :| 0 <= i < |a| && a[i].id == x;
      assert Ids(a)[i] == b[i].id;
    }
    forall x | x in KeySet(b) ensures x in KeySet(a) {
      var i :| 0 <= i < |b| && b[i].id == x;
      assert Ids(b)[i] == a[i].id;
    }
  }

  /** `sub` is obtained from `s` by deleting zero or more elements. */
  ghost predicate IsSubsequence<T>(sub: seq<T>, s: seq<T>)
    decreases |s|
  {
    if sub == [] then true
    else if s == [] then false
    else if sub[|sub| - 1] == s[|s| - 1] then IsSubsequence(sub[..|sub| - 1], s[..|s| - 1])
    else IsSubsequence(sub, s[..|s| - 1])
  }

  /** Appending one element to both sides, or to the longer side only, keeps a subsequence. */
  lemma {:induction false} SubsequenceAppend<T>(sub: seq<T>, s: seq<T>, x: T)
    requires IsSubsequence(sub, s)
    ensures IsSubsequence(sub + [x], s + [x])
    ensures IsSubsequence(sub, s + [x])
    decreases |s|
  {
    assert (sub + [x])[..|sub + [x]| - 1] == sub;
    assert (s + [x])[..|s + [x]| - 1] == s;
    if sub != [] && sub[|sub| - 1] == x {
      // the last element of `sub` is matched by the new `x`; the rest sits in `s`
      SubsequenceDropLast(sub, s);
    }
  }

  /** Dropping the last element of a subsequence keeps it a subsequence. */
  lemma {:induction false} SubsequenceDropLast<T>(sub: seq<T>, s: seq<T>)
    requires sub != []
    requires IsSubsequence(sub, s)
    ensures IsSubsequence(sub[..|sub| - 1], s)
    decreases |s|, 1
  {
    var init := sub[..|sub| - 1];
    if s == [] {
    } else if sub[|sub| - 1] == s[|s| - 1] {
      SubsequenceWeaken(init, s[..|s| - 1], s);
    } else {
      SubsequenceDropLast(sub, s[..|s| - 1]);
      SubsequenceWeaken(init, s[..|s| - 1], s);
    }
  }

  /** A subsequence of all but the last element is a subsequence of the whole. */
  lemma {:induction false} SubsequenceWeaken<T>(sub: seq<T>, init: seq<T>, s: seq<T>)
    requires s != [] && init == s[..|s| - 1]
    requires IsSubsequence(sub, init)
    ensures IsSubsequence(sub, s)
    decreases |s|, 0
  {
    if sub != [] && sub[|sub| - 1] == s[|s| - 1] {
      SubsequenceDropLast(sub, init);
    }
  }
}
