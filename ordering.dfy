/**
 * The order of the markdown export: `sorted(annotations, key=lambda x:
 * x.page_number)` (a stable sort on the page number) followed by
 * `enumerate(..., 1)`-style numbering of the entries.
 */
module MarkdownOrder {
  import opened Annotations

  /** Non-decreasing page numbers. */
  predicate SortedByPage(s: seq<Annotation>)
  {
    forall i, j :: 0 <= i < j < |s| ==> s[i].pageNumber <= s[j].pageNumber
  }

  /** The annotations of page `p`, in their order in `s`. */
  function OnPage(s: seq<Annotation>, p: int): (r: seq<Annotation>)
    ensures |r| <= |s|
  {
    if s == [] then []
    else OnPage(s[..|s| - 1], p) + (if s[|s| - 1].pageNumber == p then [s[|s| - 1]] else [])
  }

  /** Insertion into a sorted run after every entry whose page is not later. */
  function Insert(sorted: seq<Annotation>, a: Annotation): (r: seq<Annotation>)
    ensures |r| == |sorted| + 1
  {
    if sorted == [] || sorted[|sorted| - 1].pageNumber <= a.pageNumber then sorted + [a]
    else Insert(sorted[..|sorted| - 1], a) + [sorted[|sorted| - 1]]
  }

  /** `sorted(annotations, key=lambda x: x.page_number)`. */
  function SortByPage(s: seq<Annotation>): (r: seq<Annotation>)
    ensures |r| == |s|
  {
    if s == [] then [] else Insert(SortByPage(s[..|s| - 1]), s[|s| - 1])
  }

  lemma {:induction false} InsertMultiset(sorted: seq<Annotation>, a: Annotation)
    ensures multiset(Insert(sorted, a)) == multiset(sorted) + multiset{a}
  {
    if !(sorted == [] || sorted[|sorted| - 1].pageNumber <= a.pageNumber) {
      var init := sorted[..|sorted| - 1];
      InsertMultiset(init, a);
      assert sorted == init + [sorted[|sorted| - 1]];
    }
  }

  lemma {:induction false} InsertOnPage(sorted: seq<Annotation>, a: Annotation, p: int)
    ensures OnPage(Insert(sorted, a), p) == OnPage(sorted, p) + (if a.pageNumber == p then [a] else [])
  {
    var r := Insert(sorted, a);
    if sorted == [] || sorted[|sorted| - 1].pageNumber <= a.pageNumber {
      assert r[..|r| - 1] == sorted;
    } else {
      var init := sorted[..|sorted| - 1];
      InsertOnPage(init, a, p);
      assert r[..|r| - 1] == Insert(init, a);
    }
  }

  lemma {:induction false} InsertSorted(sorted: seq<Annotation>, a: Annotation)
    requires SortedByPage(sorted)
    ensures SortedByPage(Insert(sorted, a))
  {
    if !(sorted == [] || sorted[|sorted| - 1].pageNumber <= a.pageNumber) {
      var init, last := sorted[..|sorted| - 1], sorted[|sorted| - 1];
      var r, r' := Insert(sorted, a), Insert(init, a);
      InsertSorted(init, a);
      InsertBelow(init, a, last.pageNumber);
      assert r == r' + [last];
      forall i, j | 0 <= i < j < |r| ensures r[i].pageNumber <= r[j].pageNumber {
        if j == |r| - 1 {
          assert r[i] == r'[i];
        } else {
          assert r[i] == r'[i] && r[j] == r'[j];
        }
      }
    }
  }

  /** Insertion keeps every page at or below a bound that the run and the new annotation respect. */
  lemma InsertBelow(sorted: seq<Annotation>, a: Annotation, bound: int)
    requires forall i :: 0 <= i < |sorted| ==> sorted[i].pageNumber <= bound
    requires a.pageNumber <= bound
    ensures forall i :: 0 <= i < |Insert(sorted, a)| ==> Insert(sorted, a)[i].pageNumber <= bound
  {
    var r := Insert(sorted, a);
    InsertMultiset(sorted, a);
    forall i | 0 <= i < |r| ensures r[i].pageNumber <= bound {
      assert r[i] in multiset(r);
      if r[i] != a {
        assert r[i] in multiset(sorted);
      }
    }
  }

  /** Inserting into a sorted run keeps it sorted, adds exactly the new
      annotation, and puts it after the annotations of its own page. */
  lemma InsertSpec(sorted: seq<Annotation>, a: Annotation)
    requires SortedByPage(sorted)
    ensures var r := Insert(sorted, a);
      && SortedByPage(r)
      && multiset(r) == multiset(sorted) + multiset{a}
      && forall p :: OnPage(r, p) == OnPage(sorted, p) + (if a.pageNumber == p then [a] else [])
  {
    InsertSorted(sorted, a);
    InsertMultiset(sorted, a);
    forall p ensures OnPage(Insert(sorted, a), p) == OnPage(sorted, p) + (if a.pageNumber == p then [a] else []) {
      InsertOnPage(sorted, a, p);
    }
  }

  /** The markdown order is sorted by page, holds exactly the annotations it was
      given, and keeps the original order among annotations of the same page
      (Python's sort is stable). */
  lemma {:induction false} SortByPageSpec(s: seq<Annotation>)
    ensures var r := SortByPage(s);
      && SortedByPage(r)
      && multiset(r) == multiset(s)
      && forall p :: OnPage(r, p) == OnPage(s, p)
  {
    if s != [] {
      var init, last := s[..|s| - 1], s[|s| - 1];
      SortByPageSpec(init);
      InsertSpec(SortByPage(init), last);
      forall p ensures OnPage(SortByPage(s), p) == OnPage(s, p) {
        assert OnPage(SortByPage(s), p) == OnPage(init, p) + (if last.pageNumber == p then [last] else []);
      }
      InitAndLast(s);
    }
  }

  lemma InitAndLast<T>(s: seq<T>)
    requires s != []
    ensures s == s[..|s| - 1] + [s[|s| - 1]]
  {
  }

  /** A numbered markdown entry: `iteration + 1` and the annotation. */
  datatype Entry = Entry(number: nat, annotation: Annotation)

  /** `for iteration, annotation in enumerate(sorted_annotations)` with the
      entry number `iteration + 1`. */
  function MarkdownEntries(annotations: seq<Annotation>): (entries: seq<Entry>)
    ensures |entries| == |annotations|
    ensures forall i :: 0 <= i < |entries| ==> entries[i].number == i + 1
  {
    var sorted := SortByPage(annotations);
    seq(|sorted|, i requires 0 <= i < |sorted| => Entry(i + 1, sorted[i]))
  }

  /** The entries are numbered 1, 2, ... in order, one per annotation, with
      non-decreasing pages and the same-page annotations in their input order. */
  lemma MarkdownEntriesSpec(annotations: seq<Annotation>)
    ensures var entries := MarkdownEntries(annotations);
      && |entries| == |annotations|
      && (forall i :: 0 <= i < |entries| ==> entries[i].number == i + 1)
      && (forall i, j :: 0 <= i < j < |entries| ==>
            entries[i].annotation.pageNumber <= entries[j].annotation.pageNumber)
      && multiset(seq(|entries|, i requires 0 <= i < |entries| => entries[i].annotation)) == multiset(annotations)
      && forall p :: OnPage(seq(|entries|, i requires 0 <= i < |entries| => entries[i].annotation), p) == OnPage(annotations, p)
  {
    var entries := MarkdownEntries(annotations);
    SortByPageSpec(annotations);
    assert seq(|entries|, i requires 0 <= i < |entries| => entries[i].annotation) == SortByPage(annotations);
  }
}
