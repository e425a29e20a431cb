/**
 * Duplicate removal in main(): an entry is kept when no earlier entry has the
 * same (ip, domain) key, so the first occurrence of each key wins, whatever its
 * category, and the order of the kept entries is the order of the file.
 */
module Dedup {
  import opened HostsParser

  datatype Key = Key(ip: string, domain: string)

  function KeyOf(e: Entry): Key {
    Key(e.ip, e.domain)
  }

  function Keys(es: seq<Entry>): set<Key> {
    set i | 0 <= i < |es| :: KeyOf(es[i])
  }

  /** The unique entries: each entry whose key no earlier entry has, in order. */
  function Unique(es: seq<Entry>): seq<Entry> {
    if es == [] then []
    else
      var n := |es| - 1;
      Unique(es[..n]) + (if KeyOf(es[n]) in Keys(es[..n]) then [] else [es[n]])
  }

  predicate DistinctKeys(es: seq<Entry>) {
    forall i, j :: 0 <= i < j < |es| ==> KeyOf(es[i]) != KeyOf(es[j])
  }

  lemma KeysStep(es: seq<Entry>, i: nat)
    requires i < |es|
    ensures Keys(es[..i + 1]) == Keys(es[..i]) + {KeyOf(es[i])}
    ensures Unique(es[..i + 1]) == Unique(es[..i]) + (if KeyOf(es[i]) in Keys(es[..i]) then [] else [es[i]])
  {
    var a, b := es[..i], es[..i + 1];
    assert b[..i] == a;
    assert b[i] == es[i];
    forall k | k in Keys(b)
      ensures k in Keys(a) + {KeyOf(es[i])}
    {
      var j :| 0 <= j < |b| && k == KeyOf(b[j]);
      if j < i {
        assert b[j] == a[j];
      }
    }
    forall k | k in Keys(a)
      ensures k in Keys(b)
    {
      var j :| 0 <= j < |a| && k == KeyOf(a[j]);
      assert b[j] == a[j];
    }
  }

  /** The loop at lines 377-383, with `seen` the set of keys met so far. */
  method RemoveDuplicates(entries: seq<Entry>) returns (unique: seq<Entry>)
    ensures unique == Unique(entries)
  {
    var seen: set<Key> := {};
    unique := [];
    for i := 0 to |entries|
      invariant seen == Keys(entries[..i])
      invariant unique == Unique(entries[..i])
    {
      var key := KeyOf(entries[i]);
      KeysStep(entries, i);
      if key !in seen {
        seen := seen + {key};
        unique := unique + [entries[i]];
      } else {
        assert unique + [] == unique;
      }
    }
    assert entries[..|entries|] == entries;
  }

  // ---------------------------------------------------------------------------
  // Properties.

  /** No key is lost and no key is made up. */
  lemma {:induction false} UniqueKeys(es: seq<Entry>)
    ensures Keys(Unique(es)) == Keys(es)
    decreases |es|
  {
    if es != [] {
      var n := |es| - 1;
      UniqueKeys(es[..n]);
      KeysStep(es, n);
      var kept := if KeyOf(es[n]) in Keys(es[..n]) then [] else [es[n]];
      KeysOfAppend(Unique(es[..n]), kept);
      assert Keys(kept) == if kept == [] then {} else {KeyOf(es[n])} by {
        if kept != [] {
          assert kept[0] == es[n];
        }
      }
      assert es[..n + 1] == es;
    }
  }

  lemma KeysOfAppend(a: seq<Entry>, b: seq<Entry>)
    ensures Keys(a + b) == Keys(a) + Keys(b)
  {
    var ab := a + b;
    forall k | k in Keys(ab)
      ensures k in Keys(a) + Keys(b)
    {
      var j :| 0 <= j < |ab| && k == KeyOf(ab[j]);
      if j < |a| {
        assert ab[j] == a[j];
      } else {
        assert ab[j] == b[j - |a|];
      }
    }
    forall k | k in Keys(a) + Keys(b)
      ensures k in Keys(ab)
    {
      if k in Keys(a) {
        var j :| 0 <= j < |a| && k == KeyOf(a[j]);
        assert ab[j] == a[j];
      } else {
        var j :| 0 <= j < |b| && k == KeyOf(b[j]);
        assert ab[j + |a|] == b[j];
      }
    }
  }

  /** No two kept entries share a key. */
  lemma {:induction false} UniqueDistinct(es: seq<Entry>)
    ensures DistinctKeys(Unique(es))
    decreases |es|
  {
    if es != [] {
      var n := |es| - 1;
      var u := Unique(es[..n]);
      UniqueDistinct(es[..n]);
      UniqueKeys(es[..n]);
      if KeyOf(es[n]) !in Keys(es[..n]) {
        var r := u + [es[n]];
        forall i, j | 0 <= i < j < |r|
          ensures KeyOf(r[i]) != KeyOf(r[j])
        {
          assert r[i] == u[i];
          if j == |u| {
            assert KeyOf(u[i]) in Keys(u);
          } else {
            assert r[j] == u[j];
          }
        }
      } else {
        assert u + [] == u;
      }
    }
  }

  /** An entry is kept exactly when it occurs at a position that no earlier entry
      with the same key precedes. */
  lemma {:induction false} UniqueFirstOccurrence(es: seq<Entry>, e: Entry)
    ensures e in Unique(es) <==> exists i :: 0 <= i < |es| && es[i] == e && KeyOf(e) !in Keys(es[..i])
    decreases |es|
  {
    if es != [] {
      var n := |es| - 1;
      var init := es[..n];
      UniqueFirstOccurrence(init, e);
      KeysStep(es, n);
      assert es[..n + 1] == es;
      if e in Unique(es) {
        if e in Unique(init) {
          var i :| 0 <= i < |init| && init[i] == e && KeyOf(e) !in Keys(init[..i]);
          assert init[..i] == es[..i];
        } else {
          assert e == es[n];
        }
      }
      if exists i :: 0 <= i < |es| && es[i] == e && KeyOf(e) !in Keys(es[..i]) {
        var i :| 0 <= i < |es| && es[i] == e && KeyOf(e) !in Keys(es[..i]);
        if i < n {
          assert init[..i] == es[..i];
          assert init[i] == e;
        }
      }
    }
  }

  /** Keeping the first occurrences of a prefix gives a prefix of the result: the
      kept entries stay in file order. */
  lemma {:induction false} UniquePrefix(es: seq<Entry>, k: nat)
    requires k <= |es|
    ensures Unique(es[..k]) <= Unique(es)
    decreases |es|
  {
    if k < |es| {
      var n := |es| - 1;
      UniquePrefix(es[..n], k);
      assert es[..n][..k] == es[..k];
      assert es[..n + 1] == es;
      KeysStep(es, n);
    } else {
      assert es[..k] == es;
    }
  }

  /** A list whose keys are already distinct is left as it is. */
  lemma {:induction false} UniqueOfDistinct(es: seq<Entry>)
    requires DistinctKeys(es)
    ensures Unique(es) == es
    decreases |es|
  {
    if es != [] {
      var n := |es| - 1;
      assert DistinctKeys(es[..n]);
      UniqueOfDistinct(es[..n]);
      assert es[..n] + [es[n]] == es;
    }
  }

  /** Removing duplicates twice removes nothing more. */
  lemma UniqueIdempotent(es: seq<Entry>)
    ensures Unique(Unique(es)) == Unique(es)
  {
    UniqueDistinct(es);
    UniqueOfDistinct(Unique(es));
  }

  /** Duplicate removal never adds entries. */
  lemma {:induction false} UniqueShorter(es: seq<Entry>)
    ensures |Unique(es)| <= |es|
    ensures forall e :: e in Unique(es) ==> e in es
    decreases |es|
  {
    if es != [] {
      var n := |es| - 1;
      UniqueShorter(es[..n]);
      assert forall e :: e in es[..n] ==> e in es;
    }
  }
}
