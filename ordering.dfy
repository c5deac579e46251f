/** The final ordering of the collected records:
    `all_entries.sort(key=lambda x: x["published"] or "", reverse=True)`.
    Python's sort is stable, and `reverse=True` keeps records with equal keys
    in their original order. It is modelled by a stable insertion sort; the
    lemmas show that its result is sorted, a permutation, stable, and the only
    list with those three properties, so it is the list Python produces. */
module Ordering {
  import opened Wrappers
  import opened Text
  import opened Entry

  /** `x["published"] or ""`. */
  function SortKey(n: NormalizedEntry): string {
    n.published.GetOr("")
  }

  /** Non-increasing by key, as a descending sort leaves it. */
  predicate SortedDesc(s: seq<NormalizedEntry>) {
    forall i, j :: 0 <= i < j < |s| ==> LexLeq(SortKey(s[j]), SortKey(s[i]))
  }

  /** The records of `s` whose key is `k`, in the order of `s`. */
  function WithKey(s: seq<NormalizedEntry>, k: string): seq<NormalizedEntry> {
    if s == [] then []
    else (if SortKey(s[0]) == k then [s[0]] else []) + WithKey(s[1..], k)
  }

  /** Every record of `s` has a key at most `k`. */
  predicate AtMost(s: seq<NormalizedEntry>, k: string) {
    forall i :: 0 <= i < |s| ==> LexLeq(SortKey(s[i]), k)
  }

  lemma SortedDescCons(x: NormalizedEntry, s: seq<NormalizedEntry>)
    ensures SortedDesc([x] + s) <==> AtMost(s, SortKey(x)) && SortedDesc(s)
  {
    var t := [x] + s;
    if AtMost(s, SortKey(x)) && SortedDesc(s) {
      forall i, j | 0 <= i < j < |t| ensures LexLeq(SortKey(t[j]), SortKey(t[i])) {
        if i > 0 { assert t[i] == s[i - 1] && t[j] == s[j - 1]; }
        else { assert t[j] == s[j - 1]; }
      }
    }
    if SortedDesc(t) {
      forall i | 0 <= i < |s| ensures LexLeq(SortKey(s[i]), SortKey(x)) {
        assert t[0] == x && t[i + 1] == s[i];
      }
      forall i, j | 0 <= i < j < |s| ensures LexLeq(SortKey(s[j]), SortKey(s[i])) {
        assert t[i + 1] == s[i] && t[j + 1] == s[j];
      }
    }
  }

  /** Place `x` before the first record whose key is not greater than its own. */
  function Insert(x: NormalizedEntry, s: seq<NormalizedEntry>): (r: seq<NormalizedEntry>)
    ensures multiset(r) == multiset(s) + multiset{x}
  {
    if s == [] || LexLeq(SortKey(s[0]), SortKey(x)) then [x] + s
    else
      assert s == [s[0]] + s[1..];
      [s[0]] + Insert(x, s[1..])
  }

  lemma {:induction false} InsertAtMost(x: NormalizedEntry, s: seq<NormalizedEntry>, k: string)
    requires AtMost(s, k) && LexLeq(SortKey(x), k)
    ensures AtMost(Insert(x, s), k)
  {
    if s == [] || LexLeq(SortKey(s[0]), SortKey(x)) {
      assert forall i :: 0 < i < |s| + 1 ==> ([x] + s)[i] == s[i - 1];
    } else {
      InsertAtMost(x, s[1..], k);
      var r := Insert(x, s[1..]);
      assert forall i :: 0 < i < |r| + 1 ==> ([s[0]] + r)[i] == r[i - 1];
    }
  }

  /** Inserting into a descending list keeps it descending. */
  lemma {:induction false} InsertSorted(x: NormalizedEntry, s: seq<NormalizedEntry>)
    requires SortedDesc(s)
    ensures SortedDesc(Insert(x, s))
  {
    if s == [] || LexLeq(SortKey(s[0]), SortKey(x)) {
      forall j | 0 <= j < |s| ensures LexLeq(SortKey(s[j]), SortKey(x)) {
        if j > 0 { LexLeqTransitive(SortKey(s[j]), SortKey(s[0]), SortKey(x)); }
      }
      SortedDescCons(x, s);
    } else {
      SortedDescCons(s[0], s[1..]);
      assert s == [s[0]] + s[1..];
      LexLeqTotal(SortKey(s[0]), SortKey(x));
      InsertSorted(x, s[1..]);
      InsertAtMost(x, s[1..], SortKey(s[0]));
      SortedDescCons(s[0], Insert(x, s[1..]));
    }
  }

  /** The sorted list: each record is inserted, last first, into the sorted rest. */
  function SortByPublished(s: seq<NormalizedEntry>): (r: seq<NormalizedEntry>)
    ensures SortedDesc(r)
    ensures multiset(r) == multiset(s)
    ensures |r| == |s|
  {
    if s == [] then []
    else
      assert s == [s[0]] + s[1..];
      InsertSorted(s[0], SortByPublished(s[1..]));
      Insert(s[0], SortByPublished(s[1..]))
  }

  lemma {:induction false} InsertWithKey(x: NormalizedEntry, s: seq<NormalizedEntry>, k: string)
    ensures WithKey(Insert(x, s), k) == (if SortKey(x) == k then [x] else []) + WithKey(s, k)
  {
    if s == [] || LexLeq(SortKey(s[0]), SortKey(x)) {
      assert ([x] + s)[1..] == s;
    } else {
      InsertWithKey(x, s[1..], k);
      var r := Insert(x, s);
      assert r[0] == s[0] && r[1..] == Insert(x, s[1..]);
      if SortKey(s[0]) == k {
        assert SortKey(x) != k by { LexLeqReflexive(k); }
      }
    }
  }

  /** Stability: for every key, the records with that key appear in the
      sorted list in the order they were collected. */
  lemma {:induction false} SortStable(s: seq<NormalizedEntry>, k: string)
    ensures WithKey(SortByPublished(s), k) == WithKey(s, k)
  {
    if s != [] {
      SortStable(s[1..], k);
      InsertWithKey(s[0], SortByPublished(s[1..]), k);
    }
  }

  lemma {:induction false} WithKeyHead(s: seq<NormalizedEntry>)
    requires s != []
    ensures WithKey(s, SortKey(s[0])) != [] && WithKey(s, SortKey(s[0]))[0] == s[0]
  {
  }

  lemma {:induction false} WithKeyTail(s: seq<NormalizedEntry>, k: string)
    requires s != []
    ensures WithKey(s[1..], k) == if SortKey(s[0]) == k then WithKey(s, k)[1..] else WithKey(s, k)
  {
  }

  /** A record whose key is `k` is found among `WithKey(s, k)`, so `s` has one at some index. */
  lemma {:induction false} WithKeyNonEmpty(s: seq<NormalizedEntry>, k: string) returns (i: nat)
    requires WithKey(s, k) != []
    ensures i < |s| && SortKey(s[i]) == k
  {
    if SortKey(s[0]) == k {
      i := 0;
    } else {
      var j := WithKeyNonEmpty(s[1..], k);
      i := j + 1;
    }
  }

  /** Two descending lists with the same records per key, in the same order
      per key, are the same list. */
  lemma {:induction false} SortedDescUnique(a: seq<NormalizedEntry>, b: seq<NormalizedEntry>)
    requires SortedDesc(a) && SortedDesc(b)
    requires forall k :: WithKey(a, k) == WithKey(b, k)
    ensures a == b
  {
    if a == [] || b == [] {
      if a != [] {
        WithKeyHead(a);
        assert false;
      } else if b != [] {
        WithKeyHead(b);
        assert false;
      }
    } else {
      var ka, kb := SortKey(a[0]), SortKey(b[0]);
      WithKeyHead(a);
      WithKeyHead(b);
      var ib := WithKeyNonEmpty(b, ka);
      var ia := WithKeyNonEmpty(a, kb);
      assert LexLeq(ka, kb) by {
        if ib > 0 { } else { LexLeqReflexive(ka); }
      }
      assert LexLeq(kb, ka) by {
        if ia > 0 { } else { LexLeqReflexive(kb); }
      }
      LexLeqAntisymmetric(ka, kb);
      assert a[0] == WithKey(a, ka)[0] == WithKey(b, ka)[0] == b[0];
      forall k ensures WithKey(a[1..], k) == WithKey(b[1..], k) {
        WithKeyTail(a, k);
        WithKeyTail(b, k);
      }
      SortedDescUnique(a[1..], b[1..]);
      assert a == [a[0]] + a[1..] && b == [b[0]] + b[1..];
    }
  }

  /** Any descending, stable rearrangement of `s` (such as the one Python's
      sort produces) is the list `SortByPublished` gives. */
  lemma SortIsDetermined(s: seq<NormalizedEntry>, t: seq<NormalizedEntry>)
    requires SortedDesc(t)
    requires forall k :: WithKey(t, k) == WithKey(s, k)
    ensures t == SortByPublished(s)
  {
    forall k ensures WithKey(t, k) == WithKey(SortByPublished(s), k) {
      SortStable(s, k);
    }
    SortedDescUnique(t, SortByPublished(s));
  }

  /** With every stored date a non-empty string, a descending list puts every
      undated record after every dated one. */
  lemma UndatedLast(s: seq<NormalizedEntry>)
    requires SortedDesc(s)
    requires forall n :: n in s ==> n.published != Some("")
    ensures forall i, j :: 0 <= i < j < |s| && s[i].published.None? ==> s[j].published.None?
  {
    forall i, j | 0 <= i < j < |s| && s[i].published.None?
      ensures s[j].published.None?
    {
      assert LexLeq(SortKey(s[j]), "");
      assert s[j] in s;
    }
  }

  /** The sorted list puts every undated record after every dated one, when no
      stored date is the empty string. */
  lemma SortedUndatedLast(s: seq<NormalizedEntry>)
    requires forall n :: n in s ==> n.published != Some("")
    ensures var r := SortByPublished(s);
      forall i, j :: 0 <= i < j < |r| && r[i].published.None? ==> r[j].published.None?
  {
    var r := SortByPublished(s);
    forall n | n in r ensures n.published != Some("") {
      assert n in multiset(r);
    }
    UndatedLast(r);
  }

  lemma SortByPublishedCons(x: NormalizedEntry, s: seq<NormalizedEntry>)
    ensures SortByPublished([x] + s) == Insert(x, SortByPublished(s))
  {
    assert ([x] + s)[1..] == s;
  }

  lemma InsertHere(x: NormalizedEntry, s: seq<NormalizedEntry>)
    requires s == [] || LexLeq(SortKey(s[0]), SortKey(x))
    ensures Insert(x, s) == [x] + s
  {
  }

  lemma InsertPast(x: NormalizedEntry, s: seq<NormalizedEntry>)
    requires s != [] && !LexLeq(SortKey(s[0]), SortKey(x))
    ensures Insert(x, s) == [s[0]] + Insert(x, s[1..])
  {
  }

  /** An undated record collected before a dated one goes after it. */
  lemma SortTwo(undated: NormalizedEntry, dated: NormalizedEntry)
    requires undated.published == None
    requires dated.published.Some? && dated.published.value != ""
    ensures SortByPublished([undated, dated]) == [dated, undated]
  {
    SortByPublishedCons(dated, []);
    SortByPublishedCons(undated, [dated]);
    InsertPast(undated, [dated]);
    InsertHere(undated, []);
  }

  lemma InsertAfterNewer(older: NormalizedEntry, newer: NormalizedEntry, undated: NormalizedEntry)
    requires undated.published == None
    requires !LexLeq(SortKey(newer), SortKey(older))
    ensures Insert(older, [newer, undated]) == [newer, older, undated]
  {
    InsertPast(older, [newer, undated]);
    assert [newer, undated][1..] == [undated];
    EmptyIsLeast(SortKey(older));
    InsertHere(older, [undated]);
  }

  /** Two dated records and an undated one, collected older, undated, newer,
      come out newer, older, undated. */
  lemma SortThree(older: NormalizedEntry, undated: NormalizedEntry, newer: NormalizedEntry)
    requires undated.published == None
    requires newer.published.Some? && newer.published.value != ""
    requires !LexLeq(SortKey(newer), SortKey(older))
    ensures SortByPublished([older, undated, newer]) == [newer, older, undated]
  {
    SortTwo(undated, newer);
    SortByPublishedCons(older, [undated, newer]);
    InsertAfterNewer(older, newer, undated);
  }

  /** Records collected as January, undated, June come out June, January,
      undated. */
  lemma SortExample(jan: NormalizedEntry, undated: NormalizedEntry, jun: NormalizedEntry)
    requires jan.published == Some("2024-01-15T08:00:00")
    requires undated.published == None
    requires jun.published == Some("2024-06-01T12:30:00")
    ensures SortByPublished([jan, undated, jun]) == [jun, jan, undated]
  {
    LexLeqFirstDifference("2024-06-01T12:30:00", "2024-01-15T08:00:00", 6);
    SortThree(jan, undated, jun);
  }
}
