/** What merging one INI document into another means, on values. */
module IniMerge {
  import opened IniText

  /** On a common key, `retain` keeps the left value. */
  function MergeSection(a: Section, b: Section, retain: bool): Section {
    map k | k in a.Keys + b.Keys :: if k in a && (retain || k !in b) then a[k] else b[k]
  }

  function Merge(a: Document, b: Document, retain: bool): Document {
    map s | s in a.Keys + b.Keys ::
      if s !in a then b[s] else if s !in b then a[s] else MergeSection(a[s], b[s], retain)
  }

  /** A lookup in the merged document: the left value if it stands and is retained, else the right one. */
  lemma MergeLookup(a: Document, b: Document, retain: bool, s: string, k: string)
    ensures var m := Merge(a, b, retain);
            var left, right := s in a && k in a[s], s in b && k in b[s];
            && (s in m <==> s in a || s in b)
            && (s in m && k in m[s] <==> left || right)
            && (left && (retain || !right) ==> m[s][k] == a[s][k])
            && (right && (!retain || !left) ==> m[s][k] == b[s][k])
  {
  }

  lemma MergeIdempotent(a: Document, retain: bool)
    ensures Merge(a, a, retain) == a
  {
    forall s | s in a
      ensures MergeSection(a[s], a[s], retain) == a[s]
    {
    }
  }

  /** Merging the same document in again changes nothing. */
  lemma MergeTwice(a: Document, b: Document, retain: bool)
    ensures Merge(Merge(a, b, retain), b, retain) == Merge(a, b, retain)
  {
    forall s | s in a && s in b
      ensures MergeSection(MergeSection(a[s], b[s], retain), b[s], retain) == MergeSection(a[s], b[s], retain)
    {
    }
    forall s | s in b
      ensures MergeSection(b[s], b[s], retain) == b[s]
    {
    }
  }

  lemma MergeSectionAssociative(a: Section, b: Section, c: Section, retain: bool)
    ensures MergeSection(MergeSection(a, b, retain), c, retain) == MergeSection(a, MergeSection(b, c, retain), retain)
  {
  }

  lemma MergeAssociative(a: Document, b: Document, c: Document, retain: bool)
    ensures Merge(Merge(a, b, retain), c, retain) == Merge(a, Merge(b, c, retain), retain)
  {
    var l, r := Merge(Merge(a, b, retain), c, retain), Merge(a, Merge(b, c, retain), retain);
    forall s
      ensures s in l <==> s in r
      ensures s in l ==> l[s] == r[s]
    {
      MergeAssociativeAt(a, b, c, retain, s);
    }
    hide Merge;
    assert l == r;
  }

  lemma MergeAssociativeAt(a: Document, b: Document, c: Document, retain: bool, s: string)
    ensures var l, r := Merge(Merge(a, b, retain), c, retain), Merge(a, Merge(b, c, retain), retain);
            (s in l <==> s in r) && (s in l ==> l[s] == r[s])
  {
    hide MergeSection, Merge;
    MergeAt(a, b, retain, s);
    MergeAt(b, c, retain, s);
    MergeAt(Merge(a, b, retain), c, retain, s);
    MergeAt(a, Merge(b, c, retain), retain, s);
    if s in a && s in b && s in c {
      MergeSectionAssociative(a[s], b[s], c[s], retain);
    }
  }

  lemma MergeAt(a: Document, b: Document, retain: bool, s: string)
    ensures var m := Merge(a, b, retain);
            && (s in m <==> s in a || s in b)
            && (s in a && s !in b ==> m[s] == a[s])
            && (s in b && s !in a ==> m[s] == b[s])
            && (s in a && s in b ==> m[s] == MergeSection(a[s], b[s], retain))
  {
  }

  /** Retaining the left values is overwriting from the right, seen from the other side. */
  lemma MergeDual(a: Document, b: Document)
    ensures Merge(a, b, true) == Merge(b, a, false)
  {
    forall s | s in a && s in b
      ensures MergeSection(a[s], b[s], true) == MergeSection(b[s], a[s], false)
    {
    }
  }

  /** One more key, or one more section, on the right. */
  lemma MergeSectionPut(a: Section, u: Section, k: string, v: string, retain: bool)
    requires k !in u
    ensures var m := MergeSection(a, u, retain);
            (k in m <==> k in a) && MergeSection(a, u[k := v], retain) == if k !in a || !retain then m[k := v] else m
  {
  }

  lemma MergePut(a: Document, u: Document, s: string, section: Section, retain: bool)
    requires s !in u
    ensures var m := Merge(a, u, retain);
            && (s in m <==> s in a) && (s in a ==> m[s] == a[s])
            && Merge(a, u[s := section], retain)
               == m[s := if s in a then MergeSection(a[s], section, retain) else section]
  {
    hide MergeSection, Merge;
    var m, n := Merge(a, u, retain), Merge(a, u[s := section], retain);
    MergeAt(a, u, retain, s);
    forall t
      ensures t in n <==> t in m || t == s
      ensures t in m && t != s ==> n[t] == m[t]
    {
      MergeAt(a, u, retain, t);
      MergeAt(a, u[s := section], retain, t);
    }
    MergeAt(a, u[s := section], retain, s);
  }
}
