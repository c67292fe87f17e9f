/**
  A Lucene index whose documents are keyed by a "path" term, as the
  documentation core uses it: IndexWriter.UpdateDocument(new Term("path", p), d)
  deletes every document holding that term and adds `d` at the end, so the
  index keeps one document per path and search ties come out in the order
  of the last updates.
*/
module Indexes {
  import opened Wrappers

  /** The documents by path, and the paths in document order. */
  datatype Index<D> = Index(docs: map<string, D>, order: seq<string>)

  /** No path twice. */
  ghost predicate Distinct(order: seq<string>) {
    forall i, j :: 0 <= i < j < |order| ==> order[i] != order[j]
  }

  /** No path twice, and the order lists exactly the stored paths. */
  ghost predicate Valid<D>(ix: Index<D>) {
    && Distinct(ix.order)
    && (forall p :: p in ix.docs <==> p in ix.order)
  }

  function Empty<D>(): (ix: Index<D>)
    ensures Valid(ix) && ix.docs == map[]
  {
    Index(map[], [])
  }

  /** The order without `p`. */
  function Remove(order: seq<string>, p: string): (r: seq<string>)
    ensures p !in r
    ensures forall q :: q in r <==> q in order && q != p
    ensures |r| <= |order|
  {
    if order == [] then []
    else Remove(order[..|order| - 1], p) + (if order[|order| - 1] == p then [] else [order[|order| - 1]])
  }

  lemma RemoveSnoc(order: seq<string>, x: string, p: string)
    ensures Remove(order + [x], p) == Remove(order, p) + (if x == p then [] else [x])
  {
    assert (order + [x])[..|order|] == order;
  }

  /** Deleting from a concatenation deletes from each part, keeping their order. */
  lemma {:induction false} RemoveAppend(a: seq<string>, b: seq<string>, p: string)
    ensures Remove(a + b, p) == Remove(a, p) + Remove(b, p)
  {
    if b == [] {
      assert a + b == a;
    } else {
      var init := b[..|b| - 1];
      var x := b[|b| - 1];
      assert b == init + [x];
      assert a + b == (a + init) + [x];
      RemoveAppend(a, init, p);
      RemoveSnoc(a + init, x, p);
      RemoveSnoc(init, x, p);
      ConcatStep(Remove(a + b, p), Remove(a, p), Remove(b, p), Remove(init, p), if x == p then [] else [x]);
    }
  }

  /** Removing a path that is not there changes nothing. */
  lemma {:induction false} RemoveAbsent(order: seq<string>, p: string)
    requires p !in order
    ensures Remove(order, p) == order
  {
    if order != [] {
      RemoveAbsent(order[..|order| - 1], p);
      assert order[..|order| - 1] + [order[|order| - 1]] == order;
    }
  }

  /** Removing keeps the others in their order, each once. */
  lemma {:induction false} RemoveDistinct(order: seq<string>, p: string)
    requires Distinct(order)
    ensures Distinct(Remove(order, p))
  {
    if order != [] {
      var init := order[..|order| - 1];
      RemoveDistinct(init, p);
      var last := order[|order| - 1];
      assert last !in init;
      var a := Remove(init, p);
      var tail := if last == p then [] else [last];
      var r := a + tail;
      forall i, j | 0 <= i < j < |r| ensures r[i] != r[j] {
        if j >= |a| {
          assert r[j] == last && r[i] == a[i] && a[i] in a;
        } else {
          assert r[i] == a[i] && r[j] == a[j];
        }
      }
    }
  }

  /** IndexWriter.UpdateDocument: the path now holds `d`, at the end of the order. */
  function Upsert<D>(ix: Index<D>, p: string, d: D): Index<D> {
    Index(ix.docs[p := d], Remove(ix.order, p) + [p])
  }

  /**
    After an update the path holds the new document and every other path
    the document it held; the path comes last in document order and the
    other paths keep theirs.
  */
  lemma UpsertSpec<D>(ix: Index<D>, p: string, d: D)
    ensures var r := Upsert(ix, p, d);
      && p in r.docs && r.docs[p] == d
      && (forall q :: q != p ==> (q in r.docs <==> q in ix.docs))
      && (forall q | q != p && q in ix.docs :: r.docs[q] == ix.docs[q])
      && (forall q :: q in r.order <==> q in ix.order || q == p)
      && r.order != [] && r.order[|r.order| - 1] == p
      && r.order[..|r.order| - 1] == Remove(ix.order, p)
  {
  }

  /** An update keeps one document per path. */
  lemma UpsertValid<D>(ix: Index<D>, p: string, d: D)
    requires Valid(ix)
    ensures Valid(Upsert(ix, p, d))
  {
    RemoveDistinct(ix.order, p);
    var a := Remove(ix.order, p);
    var r := a + [p];
    forall i, j | 0 <= i < j < |r| ensures r[i] != r[j] {
      if j == |a| {
        assert r[i] == a[i] && a[i] in a;
      } else {
        assert r[i] == a[i] && r[j] == a[j];
      }
    }
  }

  /** A new path is appended; the documents already there keep their places. */
  lemma UpsertNew<D>(ix: Index<D>, p: string, d: D)
    requires p !in ix.order
    ensures Upsert(ix, p, d).order == ix.order + [p]
  {
    RemoveAbsent(ix.order, p);
  }

  /** The number of documents is the number of distinct paths. */
  lemma {:induction false} CountIsDistinctPaths<D>(ix: Index<D>)
    requires Valid(ix)
    ensures |ix.docs| == |ix.order|
  {
    var s := set p | p in ix.order;
    assert s == ix.docs.Keys;
    DistinctCard(ix.order);
  }

  lemma {:induction false} DistinctCard(order: seq<string>)
    requires Distinct(order)
    ensures |set p | p in order| == |order|
  {
    if order != [] {
      var init := order[..|order| - 1];
      var last := order[|order| - 1];
      DistinctCard(init);
      assert last !in init;
      assert (set p | p in order) == (set p | p in init) + {last};
    }
  }
}
