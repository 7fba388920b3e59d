/** Ordering of entity sets by name for the schema tree: a stable sort under the
    lexicographic (ordinal, character-code) order on strings. */
module NameOrder {
  import opened Edm

  /** `a` sorts no later than `b`: `a` is a prefix of `b`, or at the first
      difference `a` has the smaller character. */
  predicate NameLe(a: string, b: string)
    decreases |a|
  {
    if |a| == 0 then true
    else if |b| == 0 then false
    else if a[0] == b[0] then NameLe(a[1..], b[1..])
    else a[0] < b[0]
  }

  lemma {:induction false} NameLeReflexive(a: string)
    ensures NameLe(a, a)
    decreases |a|
  {
    if |a| > 0 {
      NameLeReflexive(a[1..]);
    }
  }

  lemma {:induction false} NameLeTotal(a: string, b: string)
    ensures NameLe(a, b) || NameLe(b, a)
    decreases |a|
  {
    if |a| > 0 && |b| > 0 && a[0] == b[0] {
      NameLeTotal(a[1..], b[1..]);
    }
  }

  lemma {:induction false} NameLeAntisymmetric(a: string, b: string)
    requires NameLe(a, b) && NameLe(b, a)
    ensures a == b
    decreases |a|
  {
    if |a| > 0 {
      NameLeAntisymmetric(a[1..], b[1..]);
      assert a == [a[0]] + a[1..];
      assert b == [b[0]] + b[1..];
    }
  }

  lemma {:induction false} NameLeTransitive(a: string, b: string, c: string)
    requires NameLe(a, b) && NameLe(b, c)
    ensures NameLe(a, c)
    decreases |a|
  {
    if |a| > 0 && a[0] == b[0] && b[0] == c[0] {
      NameLeTransitive(a[1..], b[1..], c[1..]);
    }
  }

  /** The sets at `i` and `i + 1` are in name order. */
  predicate InOrderAt(s: seq<EntitySet>, i: nat)
    requires i + 1 < |s|
  {
    NameLe(s[i].name, s[i + 1].name)
  }

  /** Adjacent sets are in name order. */
  predicate SortedByName(s: seq<EntitySet>) {
    forall i: nat :: i + 1 < |s| ==> InOrderAt(s, i)
  }

  lemma SortedTail(s: seq<EntitySet>)
    requires SortedByName(s) && |s| > 0
    ensures SortedByName(s[1..])
  {
    forall i: nat | i + 1 < |s[1..]| ensures InOrderAt(s[1..], i) {
      assert InOrderAt(s, i + 1);
    }
  }

  lemma SortedCons(y: EntitySet, s: seq<EntitySet>)
    requires SortedByName(s)
    requires |s| > 0 ==> NameLe(y.name, s[0].name)
    ensures SortedByName([y] + s)
  {
    var r := [y] + s;
    forall i: nat | i + 1 < |r| ensures InOrderAt(r, i) {
      if i > 0 {
        assert InOrderAt(s, i - 1);
      }
    }
  }

  /** The sets of `s` named `k`, in their order in `s`. */
  function Named(s: seq<EntitySet>, k: string): seq<EntitySet> {
    if |s| == 0 then []
    else NamedAs(s[0], k) + Named(s[1..], k)
  }

  /** `[x]` when `x` is named `k`, otherwise nothing. */
  function NamedAs(x: EntitySet, k: string): seq<EntitySet> {
    if x.name == k then [x] else []
  }

  /** `Named` of a sequence that starts with `y`. */
  lemma NamedCons(y: EntitySet, s: seq<EntitySet>, k: string)
    ensures Named([y] + s, k) == NamedAs(y, k) + Named(s, k)
  {
    assert ([y] + s)[1..] == s;
  }

  /** Inserts `x` before the first set whose name does not sort before it, so
      `x` precedes every set of `s` with the same name. */
  function Insert(x: EntitySet, s: seq<EntitySet>): (r: seq<EntitySet>)
    requires SortedByName(s)
    ensures SortedByName(r)
    ensures |r| == |s| + 1
    ensures multiset(r) == multiset(s) + multiset{x}
    ensures |s| > 0 ==> r[0] == x || r[0] == s[0]
  {
    if |s| == 0 then [x]
    else if NameLe(x.name, s[0].name) then
      SortedCons(x, s);
      [x] + s
    else
      NameLeTotal(x.name, s[0].name);
      SortedTail(s);
      assert s == [s[0]] + s[1..];
      var tail := Insert(x, s[1..]);
      assert |s| > 1 ==> InOrderAt(s, 0);
      SortedCons(s[0], tail);
      [s[0]] + tail
  }

  /** Past a set that sorts strictly before `x`, insertion recurses into the tail. */
  lemma InsertPast(x: EntitySet, s: seq<EntitySet>)
    requires SortedByName(s) && |s| > 0 && !NameLe(x.name, s[0].name)
    ensures SortedByName(s[1..])
    ensures Insert(x, s) == [s[0]] + Insert(x, s[1..])
  {
    SortedTail(s);
  }

  /** Putting `y`, named differently from `x`, in front of both sides keeps
      `x` ahead of the other sets named `k`. */
  lemma NamedReorder(x: EntitySet, y: EntitySet, t: seq<EntitySet>, rest: seq<EntitySet>, k: string)
    requires y.name != x.name
    requires Named(t, k) == NamedAs(x, k) + Named(rest, k)
    ensures Named([y] + t, k) == NamedAs(x, k) + Named([y] + rest, k)
  {
    NamedCons(y, t, k);
    NamedCons(y, rest, k);
    if x.name == k {
      assert NamedAs(y, k) == [];
      assert [] + Named(t, k) == Named(t, k);
      assert [] + Named(rest, k) == Named(rest, k);
    } else {
      assert NamedAs(x, k) == [];
      assert [] + Named(rest, k) == Named(rest, k);
      assert [] + Named([y] + rest, k) == Named([y] + rest, k);
    }
  }

  /** Insertion keeps the relative order of equally named sets, `x` first. */
  lemma {:induction false} InsertNamed(x: EntitySet, s: seq<EntitySet>, k: string)
    requires SortedByName(s)
    ensures Named(Insert(x, s), k) == NamedAs(x, k) + Named(s, k)
    decreases |s|
  {
    if |s| == 0 {
      NamedCons(x, [], k);
      assert [x] + [] == [x];
    } else if NameLe(x.name, s[0].name) {
      NamedCons(x, s, k);
    } else {
      NameLeReflexive(x.name);
      InsertPast(x, s);
      InsertNamed(x, s[1..], k);
      NamedReorder(x, s[0], Insert(x, s[1..]), s[1..], k);
      assert s == [s[0]] + s[1..];
    }
  }

  /** `OrderBy(o => o.Name)`: the sets rearranged into name order. */
  function SortByName(s: seq<EntitySet>): (r: seq<EntitySet>)
    ensures |r| == |s|
    ensures SortedByName(r)
    ensures multiset(r) == multiset(s)
    ensures forall i :: 0 <= i < |r| ==> r[i] in s
  {
    if |s| == 0 then []
    else
      var r := Insert(s[0], SortByName(s[1..]));
      assert multiset(r) == multiset(s) by {
        assert s == [s[0]] + s[1..];
      }
      assert forall i :: 0 <= i < |r| ==> r[i] in s by {
        forall i | 0 <= i < |r| ensures r[i] in s {
          assert r[i] in multiset(r);
        }
      }
      r
  }

  /** The sort is stable: the sets of each name keep their original order. */
  lemma {:induction false} SortByNameStable(s: seq<EntitySet>, k: string)
    ensures Named(SortByName(s), k) == Named(s, k)
  {
    if |s| > 0 {
      InsertNamed(s[0], SortByName(s[1..]), k);
      SortByNameStable(s[1..], k);
      NamedCons(s[0], s[1..], k);
      assert s == [s[0]] + s[1..];
    }
  }

  /** Sorted in the adjacent sense means every earlier set sorts no later than
      every later one. */
  lemma {:induction false} SortedAllPairs(s: seq<EntitySet>, i: nat, j: nat)
    requires SortedByName(s) && i <= j < |s|
    ensures NameLe(s[i].name, s[j].name)
    decreases j - i
  {
    if i == j {
      NameLeReflexive(s[i].name);
    } else {
      SortedAllPairs(s, i + 1, j);
      assert InOrderAt(s, i);
      NameLeTransitive(s[i].name, s[i + 1].name, s[j].name);
    }
  }

  /** The sort's output is unique: any sorted sequence that keeps each name's
      sets in their original order is the sort's output. */
  lemma {:induction false} SortUnique(s: seq<EntitySet>, t: seq<EntitySet>)
    requires SortedByName(s) && SortedByName(t)
    requires forall k :: Named(s, k) == Named(t, k)
    ensures s == t
    decreases |s| + |t|
  {
    if |s| > 0 {
      assert |Named(s, s[0].name)| > 0;
      assert |t| > 0;
    }
    if |t| > 0 {
      assert |Named(t, t[0].name)| > 0;
      assert |s| > 0;
    }
    if |s| > 0 {
      var a, b := s[0], t[0];
      assert Named(s, a.name)[0] == a;
      assert Named(t, b.name)[0] == b;
      NamedMembers(t, a.name);
      NamedMembers(s, b.name);
      var ia :| 0 <= ia < |t| && t[ia] == Named(t, a.name)[0];
      var ib :| 0 <= ib < |s| && s[ib] == Named(s, b.name)[0];
      SortedAllPairs(t, 0, ia);
      SortedAllPairs(s, 0, ib);
      NameLeAntisymmetric(a.name, b.name);
      assert Named(t, a.name)[0] == b;
      assert a == b;
      forall k ensures Named(s[1..], k) == Named(t[1..], k) {
        assert s == [a] + s[1..];
        assert t == [a] + t[1..];
        NamedCons(a, s[1..], k);
        NamedCons(a, t[1..], k);
        var h := NamedAs(a, k);
        assert h + Named(s[1..], k) == h + Named(t[1..], k);
        assert Named(s[1..], k) == (h + Named(s[1..], k))[|h|..];
        assert Named(t[1..], k) == (h + Named(t[1..], k))[|h|..];
      }
      SortedTail(s);
      SortedTail(t);
      SortUnique(s[1..], t[1..]);
      assert s == [a] + s[1..];
      assert t == [a] + t[1..];
    }
  }

  /** Every set picked out by `Named` comes from the sequence and carries that name. */
  lemma {:induction false} NamedMembers(s: seq<EntitySet>, k: string)
    ensures forall i :: 0 <= i < |Named(s, k)| ==>
      Named(s, k)[i].name == k && exists j :: 0 <= j < |s| && s[j] == Named(s, k)[i]
  {
    if |s| > 0 {
      NamedMembers(s[1..], k);
      forall i | 0 <= i < |Named(s, k)|
        ensures Named(s, k)[i].name == k && exists j :: 0 <= j < |s| && s[j] == Named(s, k)[i]
      {
        if s[0].name == k && i == 0 {
          assert s[0] == Named(s, k)[i];
        } else {
          var h := if s[0].name == k then 1 else 0;
          assert Named(s, k)[i] == Named(s[1..], k)[i - h];
          var j :| 0 <= j < |s[1..]| && s[1..][j] == Named(s[1..], k)[i - h];
          assert s[j + 1] == Named(s, k)[i];
        }
      }
    }
  }
}
