/** The order in which type labels are sorted: strings compared character by
    character on code points, a proper prefix coming first. */
module Collation {
  import opened Sequences

  /** `a` sorts strictly before `b`. */
  predicate Below(a: string, b: string)
    decreases |a|
  {
    if |a| == 0 then |b| > 0
    else if |b| == 0 then false
    else if a[0] != b[0] then a[0] < b[0]
    else Below(a[1..], b[1..])
  }

  lemma {:induction false} BelowIrreflexive(a: string)
    ensures !Below(a, a)
    decreases |a|
  {
    if |a| > 0 { BelowIrreflexive(a[1..]); }
  }

  lemma {:induction false} BelowAsymmetric(a: string, b: string)
    ensures Below(a, b) ==> !Below(b, a)
    decreases |a|
  {
    if |a| > 0 && |b| > 0 && a[0] == b[0] { BelowAsymmetric(a[1..], b[1..]); }
  }

  /** Any two different labels are ordered one way or the other. */
  lemma {:induction false} BelowTotal(a: string, b: string)
    ensures a != b ==> Below(a, b) || Below(b, a)
    decreases |a|
  {
    if |a| > 0 && |b| > 0 && a[0] == b[0] {
      assert a == [a[0]] + a[1..] && b == [b[0]] + b[1..];
      BelowTotal(a[1..], b[1..]);
    }
  }

  /** "Not after" is transitive. */
  lemma {:induction false} NotAboveTransitive(a: string, b: string, c: string)
    ensures !Below(b, a) && !Below(c, b) ==> !Below(c, a)
    decreases |a|
  {
    if |a| > 0 && |b| > 0 && |c| > 0 && a[0] == b[0] == c[0] {
      NotAboveTransitive(a[1..], b[1..], c[1..]);
    }
  }

  /** Every label is not after every later one. */
  ghost predicate Ascending(s: seq<string>) {
    forall i, j :: 0 <= i < j < |s| ==> !Below(s[j], s[i])
  }

  /** Every label is strictly before every later one: sorted, no duplicates. */
  ghost predicate StrictlyAscending(s: seq<string>) {
    forall i, j :: 0 <= i < j < |s| ==> Below(s[i], s[j])
  }

  /** A sorted list without repetitions is strictly ascending. */
  lemma AscendingDistinct(s: seq<string>)
    requires Ascending(s) && NoDup(s)
    ensures StrictlyAscending(s)
  {
    forall i, j | 0 <= i < j < |s| ensures Below(s[i], s[j]) {
      BelowTotal(s[i], s[j]);
    }
  }

  /** Two strictly ascending lists with the same labels are the same list:
      the sorted, deduplicated list is determined by its set of labels. */
  lemma {:induction false} StrictlyAscendingUnique(s: seq<string>, t: seq<string>)
    requires StrictlyAscending(s) && StrictlyAscending(t)
    requires forall x :: x in s <==> x in t
    ensures s == t
  {
    if s != [] && t != [] {
      if s[0] != t[0] {
        assert t[0] in s && s[0] in t;
        var k :| 0 <= k < |s| && s[k] == t[0];
        var m :| 0 <= m < |t| && t[m] == s[0];
        assert k > 0 && m > 0;
        BelowAsymmetric(s[0], t[0]);
        assert false;
      }
      forall x ensures x in s[1..] <==> x in t[1..] {
        if x in s[1..] {
          var k :| 0 <= k < |s[1..]| && s[1..][k] == x;
          assert Below(s[0], s[k + 1]);
          BelowIrreflexive(x);
          assert x in t && x != t[0];
          assert t == [t[0]] + t[1..];
        }
        if x in t[1..] {
          var k :| 0 <= k < |t[1..]| && t[1..][k] == x;
          assert Below(t[0], t[k + 1]);
          BelowIrreflexive(x);
          assert x in s && x != s[0];
          assert s == [s[0]] + s[1..];
        }
      }
      StrictlyAscendingUnique(s[1..], t[1..]);
      assert s == [s[0]] + s[1..] && t == [t[0]] + t[1..];
    } else {
      ElemsEmpty(s);
      ElemsEmpty(t);
      assert Elems(s) == Elems(t);
    }
  }

  /** Sorts the labels in place by insertion: each label in turn sinks into
      the sorted prefix before it. */
  method SortLabels(a: array<string>)
    modifies a
    ensures Ascending(a[..])
    ensures multiset(a[..]) == multiset(old(a[..]))
  {
    var i := 0;
    while i < a.Length
      invariant 0 <= i <= a.Length
      invariant forall p, q :: 0 <= p < q < i ==> !Below(a[q], a[p])
      invariant multiset(a[..]) == multiset(old(a[..]))
    {
      SinkLabel(a, i);
      i := i + 1;
    }
  }

  /** Swaps `a[i]` down past every label of the sorted prefix `a[..i]` that
      sorts strictly after it, so that `a[..i + 1]` is sorted. */
  method SinkLabel(a: array<string>, i: nat)
    requires i < a.Length
    requires forall p, q :: 0 <= p < q < i ==> !Below(a[q], a[p])
    modifies a
    ensures forall p, q :: 0 <= p < q <= i ==> !Below(a[q], a[p])
    ensures multiset(a[..]) == multiset(old(a[..]))
  {
    var j := i;
    while j > 0 && Below(a[j], a[j - 1])
      invariant 0 <= j <= i
      invariant forall p, q :: 0 <= p < q <= i && p != j && q != j ==> !Below(a[q], a[p])
      invariant forall q :: j < q <= i ==> !Below(a[q], a[j])
      invariant multiset(a[..]) == multiset(old(a[..]))
    {
      BelowAsymmetric(a[j], a[j - 1]);
      a[j - 1], a[j] := a[j], a[j - 1];
      j := j - 1;
    }
    forall p, q | 0 <= p < q <= i ensures !Below(a[q], a[p]) {
      if q == j && p < j - 1 {
        NotAboveTransitive(a[p], a[j - 1], a[j]);
      }
    }
  }
}
