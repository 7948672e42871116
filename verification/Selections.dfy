/** What the stream queries are specified with: the entries of a listing that pass a filter and lie
    beyond a cursor. A listing is ascending or descending (`desc`) in its cursors; "beyond" follows
    the direction of the listing. */
module Selections {
  import opened Basics
  import opened Cursors

  datatype Entry<T> = Entry(cursor: Cursor, val: T)

  predicate Beyond(desc: bool, c: Cursor, x: Cursor) {
    if desc then x < c else c < x
  }

  ghost predicate Ordered<T>(list: seq<Entry<T>>, desc: bool) {
    forall i, j :: 0 <= i < j < |list| ==> Beyond(desc, list[i].cursor, list[j].cursor)
  }

  function Vals<T>(list: seq<Entry<T>>): (r: seq<T>)
    ensures |r| == |list| && forall i :: 0 <= i < |list| ==> r[i] == list[i].val
  {
    seq(|list|, i requires 0 <= i < |list| => list[i].val)
  }

  /** The entries that pass the filter. */
  ghost function Select<T>(list: seq<Entry<T>>, p: T -> bool): seq<Entry<T>> {
    if list == [] then []
    else
      var rest, last := Select(list[..|list| - 1], p), list[|list| - 1];
      if p(last.val) then rest + [last] else rest
  }

  /** The entries that pass the filter and lie strictly beyond the cursor, in listing order. */
  ghost function Matching<T>(list: seq<Entry<T>>, p: T -> bool, desc: bool, c: Cursor): seq<Entry<T>> {
    if list == [] then []
    else
      var rest, last := Matching(list[..|list| - 1], p, desc, c), list[|list| - 1];
      if Beyond(desc, c, last.cursor) && p(last.val) then rest + [last] else rest
  }

  /** A listing of an ascending sequence of entries. */
  function Listing<T>(entries: seq<Entry<T>>, desc: bool): seq<Entry<T>> {
    if desc then Reverse(entries) else entries
  }

  lemma ListingOrdered<T>(entries: seq<Entry<T>>, desc: bool)
    requires Ordered(entries, false)
    ensures Ordered(Listing(entries, desc), desc)
  {
  }

  lemma {:induction false} MatchingConcat<T>(a: seq<Entry<T>>, b: seq<Entry<T>>, p: T -> bool, desc: bool, c: Cursor)
    ensures Matching(a + b, p, desc, c) == Matching(a, p, desc, c) + Matching(b, p, desc, c)
  {
    if b == [] {
      assert a + b == a;
    } else {
      assert (a + b)[..|a + b| - 1] == a + b[..|b| - 1];
      MatchingConcat(a, b[..|b| - 1], p, desc, c);
    }
  }

  lemma {:induction false} SelectConcat<T>(a: seq<Entry<T>>, b: seq<Entry<T>>, p: T -> bool)
    ensures Select(a + b, p) == Select(a, p) + Select(b, p)
  {
    if b == [] {
      assert a + b == a;
    } else {
      assert (a + b)[..|a + b| - 1] == a + b[..|b| - 1];
      SelectConcat(a, b[..|b| - 1], p);
    }
  }

  /** Reading the listing in the other direction reverses the selection. */
  lemma {:induction false} MatchingReverse<T>(list: seq<Entry<T>>, p: T -> bool, desc: bool, c: Cursor)
    ensures Matching(Reverse(list), p, desc, c) == Reverse(Matching(list, p, desc, c))
  {
    if list != [] {
      var init, last := list[..|list| - 1], list[|list| - 1];
      assert Reverse(list) == [last] + Reverse(init);
      MatchingConcat([last], Reverse(init), p, desc, c);
      MatchingReverse(init, p, desc, c);
      assert [last][..0] == [];
    }
  }

  /** Nothing in a stretch that ends before the cursor is beyond it. */
  lemma {:induction false} NothingBeyond<T>(list: seq<Entry<T>>, p: T -> bool, desc: bool, c: Cursor)
    requires forall i :: 0 <= i < |list| ==> !Beyond(desc, c, list[i].cursor)
    ensures Matching(list, p, desc, c) == []
  {
    if list != [] {
      NothingBeyond(list[..|list| - 1], p, desc, c);
    }
  }

  lemma {:induction false} SelectMember<T>(list: seq<Entry<T>>, p: T -> bool, e: Entry<T>)
    ensures e in Select(list, p) <==> e in list && p(e.val)
  {
    if list != [] {
      SelectMember(list[..|list| - 1], p, e);
      assert list == list[..|list| - 1] + [list[|list| - 1]];
    }
  }

  lemma {:induction false} MatchingMember<T>(list: seq<Entry<T>>, p: T -> bool, desc: bool, c: Cursor, e: Entry<T>)
    ensures e in Matching(list, p, desc, c) <==> e in list && p(e.val) && if desc then e.cursor < c else c < e.cursor
  {
    if list != [] {
      MatchingMember(list[..|list| - 1], p, desc, c, e);
      assert list == list[..|list| - 1] + [list[|list| - 1]];
    }
  }

  /** A selection keeps the order of the listing, whatever side of the cursor it takes. */
  lemma {:induction false} MatchingOrdered<T>(list: seq<Entry<T>>, p: T -> bool, desc: bool, c: Cursor, dir: bool)
    requires Ordered(list, dir)
    ensures Ordered(Matching(list, p, desc, c), dir)
  {
    if list != [] {
      var init, last := list[..|list| - 1], list[|list| - 1];
      MatchingOrdered(init, p, desc, c, dir);
      forall e | e in Matching(init, p, desc, c)
        ensures Beyond(dir, e.cursor, last.cursor)
      {
        MatchingMember(init, p, desc, c, e);
        var i :| 0 <= i < |init| && init[i] == e;
        assert list[i] == e;
      }
    }
  }

  /** What a selection from an ascending sequence is, in plain terms: the entries that pass the filter
      and have a cursor on the given side, descending or ascending. */
  lemma SelectionMeans<T>(entries: seq<Entry<T>>, p: T -> bool, down: bool, c: Cursor, backward: bool)
    returns (m: seq<Entry<T>>)
    requires Ordered(entries, false)
    ensures m == Matching(Listing(entries, backward), p, down, c)
    ensures forall e :: e in m <==> e in entries && p(e.val) && if down then e.cursor < c else c < e.cursor
    ensures forall i, j :: 0 <= i < j < |m| ==> if backward then m[j].cursor < m[i].cursor else m[i].cursor < m[j].cursor
  {
    hide Matching;
    m := Matching(Listing(entries, backward), p, down, c);
    ListingOrdered(entries, backward);
    MatchingOrdered(Listing(entries, backward), p, down, c, backward);
    forall e
      ensures e in m
         <==> e in entries && p(e.val) && if down then e.cursor < c else c < e.cursor
    {
      MatchingMember(Listing(entries, backward), p, down, c, e);
      ReverseSame(entries, e);
    }
  }

  lemma ReverseSame<T>(entries: seq<T>, e: T)
    ensures e in Reverse(entries) <==> e in entries
  {
    if e in entries {
      var i :| 0 <= i < |entries| && entries[i] == e;
      assert Reverse(entries)[|entries| - 1 - i] == e;
    }
  }

  lemma {:induction false} SelectOrdered<T>(list: seq<Entry<T>>, p: T -> bool, desc: bool)
    requires Ordered(list, desc)
    ensures Ordered(Select(list, p), desc)
  {
    if list != [] {
      var init, last := list[..|list| - 1], list[|list| - 1];
      SelectOrdered(init, p, desc);
      forall e | e in Select(init, p)
        ensures Beyond(desc, e.cursor, last.cursor)
      {
        SelectMember(init, p, e);
        var i :| 0 <= i < |init| && init[i] == e;
        assert list[i] == e;
      }
    }
  }

  /** The position in a listing after which every entry is beyond the cursor. */
  ghost function Cut<T>(list: seq<Entry<T>>, desc: bool, c: Cursor): (k: nat)
    ensures k <= |list|
  {
    if list == [] || !Beyond(desc, c, list[|list| - 1].cursor) then |list|
    else Cut(list[..|list| - 1], desc, c)
  }

  /** In an ordered listing the cut separates the entries beyond the cursor from all others. */
  lemma {:induction false} CutSeparates<T>(list: seq<Entry<T>>, desc: bool, c: Cursor)
    requires Ordered(list, desc)
    ensures forall i :: 0 <= i < |list| ==> (Beyond(desc, c, list[i].cursor) <==> Cut(list, desc, c) <= i)
  {
    if list != [] && Beyond(desc, c, list[|list| - 1].cursor) {
      CutSeparates(list[..|list| - 1], desc, c);
    }
  }

  /** How many leading entries come strictly before the cursor. */
  ghost function CutBefore<T>(list: seq<Entry<T>>, desc: bool, c: Cursor): (k: nat)
    ensures k <= |list|
  {
    if list == [] || Beyond(!desc, c, list[|list| - 1].cursor) then |list|
    else CutBefore(list[..|list| - 1], desc, c)
  }

  lemma {:induction false} CutBeforeSeparates<T>(list: seq<Entry<T>>, desc: bool, c: Cursor)
    requires Ordered(list, desc)
    ensures forall i :: 0 <= i < |list| ==> (Beyond(!desc, c, list[i].cursor) <==> i < CutBefore(list, desc, c))
  {
    if list != [] && !Beyond(!desc, c, list[|list| - 1].cursor) {
      CutBeforeSeparates(list[..|list| - 1], desc, c);
    }
  }

  lemma CutOfAppended<T>(m: seq<Entry<T>>, e: Entry<T>, desc: bool, c: Cursor)
    ensures Cut(m + [e], desc, c) == if Beyond(desc, c, e.cursor) then Cut(m, desc, c) else |m| + 1
  {
    assert (m + [e])[..|m|] == m;
  }

  /** In an ordered listing the filtered entries beyond a cursor are a tail of all the filtered ones. */
  lemma {:induction false} MatchingIsTail<T>(list: seq<Entry<T>>, p: T -> bool, desc: bool, c: Cursor)
    requires Ordered(list, desc)
    ensures Matching(list, p, desc, c) == Select(list, p)[Cut(Select(list, p), desc, c)..]
  {
    hide Cut;
    if list != [] {
      var init, last := list[..|list| - 1], list[|list| - 1];
      MatchingIsTail(init, p, desc, c);
      CutOfAppended(Select(init, p), last, desc, c);
      if !Beyond(desc, c, last.cursor) {
        NothingBeyond(init, p, desc, c);
      }
    }
  }

  /** The filtered entries before a cursor are a head of all the filtered ones. */
  lemma {:induction false} MatchingIsHead<T>(list: seq<Entry<T>>, p: T -> bool, desc: bool, c: Cursor)
    requires Ordered(list, desc)
    ensures Matching(list, p, !desc, c) == Select(list, p)[..CutBefore(Select(list, p), desc, c)]
  {
    if list != [] {
      var init, last := list[..|list| - 1], list[|list| - 1];
      MatchingIsHead(init, p, desc, c);
      if Beyond(!desc, c, last.cursor) {
        AllBefore(init, p, desc, c);
      }
    }
  }

  lemma {:induction false} AllBefore<T>(list: seq<Entry<T>>, p: T -> bool, desc: bool, c: Cursor)
    requires forall i :: 0 <= i < |list| ==> Beyond(!desc, c, list[i].cursor)
    ensures Matching(list, p, !desc, c) == Select(list, p)
  {
    if list != [] {
      AllBefore(list[..|list| - 1], p, desc, c);
    }
  }
}
