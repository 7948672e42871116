/** The page logic of the list handlers in dns-server/internal/dns_server_http.go: query parameters
    to a page, and the links a page carries to its neighbours. */
module Paging {
  import opened Basics
  import opened Cursors
  import opened Selections
  import opened Streams

  /** The parameters the handler looks at. `count` holds what `strconv.Atoi` made of the text, which
      is 0 for text that is not a number. */
  datatype Request = Request(after: Option<string>, before: Option<string>, backward: bool, count: Option<int>)

  function CursorOrZero(text: string): Cursor {
    match ParseCursor(text)
    case Some(c) => c
    case None => 0
  }

  predicate AfterMode(req: Request) {
    req.after.Some? || req.before.None?
  }

  function PageCursor(req: Request): Cursor {
    if req.after.Some? then CursorOrZero(req.after.value)
    else if req.before.Some? then CursorOrZero(req.before.value)
    else if req.backward then MAX_CURSOR
    else 0
  }

  function PageSize(req: Request): (n: int)
    ensures n >= 1
  {
    if req.count.Some? then Max(1, req.count.value) else 50
  }

  function LinkBefore(req: Request, c: Cursor): Request {
    req.(after := None, before := Some(Format(c)))
  }

  function LinkAfter(req: Request, c: Cursor): Request {
    req.(after := Some(Format(c)), before := None)
  }

  /** Everything a page in after mode may show, in listing order. */
  ghost function Later<T>(entries: seq<Entry<T>>, p: T -> bool, req: Request): seq<Entry<T>> {
    Matching(Listing(entries, req.backward), p, req.backward, PageCursor(req))
  }

  /** Everything a page in before mode may show, in listing order. */
  ghost function Earlier<T>(entries: seq<Entry<T>>, p: T -> bool, req: Request): seq<Entry<T>> {
    Matching(Listing(entries, req.backward), p, !req.backward, PageCursor(req))
  }

  /** The page: the first entries after the cursor or the last ones before it, in listing order. */
  ghost function Page<T>(entries: seq<Entry<T>>, p: T -> bool, req: Request): seq<Entry<T>> {
    if AfterMode(req) then Kept(Later(entries, p, req), PageSize(req))
    else LastN(Earlier(entries, p, req), PageSize(req))
  }

  ghost function Prev<T>(entries: seq<Entry<T>>, p: T -> bool, req: Request): Request {
    LinkBefore(req, FirstCursor(Page(entries, p, req), PageCursor(req)))
  }

  ghost function Next<T>(entries: seq<Entry<T>>, p: T -> bool, req: Request): Request {
    LinkAfter(req, LastCursor(Page(entries, p, req), PageCursor(req)))
  }

  /** The list handler. A page in before mode is fetched in the opposite direction and turned round. */
  method ListPage<T(0)>(st: Buffered<T>, p: T -> bool, req: Request)
    returns (res: QueryResult<T>, prev: Request, next: Request)
    requires st.Valid()
    ensures Ordered(st.Entries(), false) ==>
              var page := Page(st.Entries(), p, req);
              && res.items == Vals(page)
              && res.hasMore == (|page| < if AfterMode(req) then |Later(st.Entries(), p, req)|
                                          else |Earlier(st.Entries(), p, req)|)
              && prev == Prev(st.Entries(), p, req)
              && next == Next(st.Entries(), p, req)
  {
    hide Matching, Ordered, Reverse, Kept, LastN, Vals, Listing;
    var afterMode := true;
    var cursor: Cursor := 0;
    if req.after.Some? {
      cursor := CursorOrZero(req.after.value);
    } else if req.before.Some? {
      cursor := CursorOrZero(req.before.value);
      afterMode := false;
    } else if req.backward {
      cursor := MAX_CURSOR;
    }
    var count := 50;
    if req.count.Some? {
      count := Max(1, req.count.value);
    }
    ghost var m := if afterMode then Later(st.Entries(), p, req) else Earlier(st.Entries(), p, req);
    FetchedFrom(st.Entries(), p, req);
    if req.backward == afterMode {
      res := st.QueryBackward(cursor, count, p);
    } else {
      res := st.Query(cursor, count, p);
    }
    if !afterMode {
      KeptReversed(m, cursor, count);
      res := res.Reversed();
    }
    prev := LinkBefore(req, res.firstCursor);
    next := LinkAfter(req, res.lastCursor);
  }

  /** Which of the two queries serves which kind of page. */
  lemma FetchedFrom<T>(entries: seq<Entry<T>>, p: T -> bool, req: Request)
    ensures var c := PageCursor(req);
            && Later(entries, p, req) == (if req.backward then Reverse(Matching(entries, p, true, c)) else Matching(entries, p, false, c))
            && Reverse(Earlier(entries, p, req)) == (if req.backward then Matching(entries, p, false, c) else Reverse(Matching(entries, p, true, c)))
  {
    hide Matching;
    var c := PageCursor(req);
    MatchingReverse(entries, p, true, c);
    MatchingReverse(entries, p, false, c);
    assert Reverse(Reverse(Matching(entries, p, false, c))) == Matching(entries, p, false, c);
  }

  function AnswerOf<T>(k: seq<Entry<T>>, c: Cursor, hasMore: bool): QueryResult<T> {
    QueryResult(Vals(k), FirstCursor(k, c), LastCursor(k, c), hasMore)
  }

  /** Answering from the far end and turning the answer round keeps the entries at that end. */
  lemma KeptReversed<T>(m: seq<Entry<T>>, c: Cursor, count: nat)
    ensures var k := LastN(m, count);
            ResultOf(Reverse(m), c, count).Reversed() == AnswerOf(k, c, |k| < |m|)
  {
    var k := LastN(m, count);
    assert Kept(Reverse(m), count) == Reverse(k);
    assert Reverse(Vals(Reverse(k))) == Vals(k);
  }

  // ------------------------------------------------------------ what a page shows

  /** The size of a page, in plain terms. */
  lemma SizeMeans<T>(entries: seq<Entry<T>>, p: T -> bool, req: Request, m: seq<Entry<T>>)
    requires m == if AfterMode(req) then Later(entries, p, req) else Earlier(entries, p, req)
    ensures var size := if req.count.None? then 50 else if req.count.value < 1 then 1 else req.count.value;
            Page(entries, p, req) == if |m| <= size then m else if AfterMode(req) then m[..size] else m[|m| - size..]
  {
  }

  /** The opening page: without a cursor a list starts at the oldest entry, and a backward list at the
      newest one. It shows 50 entries, or as many as asked for but at least one. */
  lemma OpeningPage<T>(entries: seq<Entry<T>>, p: T -> bool, req: Request) returns (m: seq<Entry<T>>)
    requires Ordered(entries, false) && req.after.None? && req.before.None?
    requires forall e :: e in entries ==> 0 < e.cursor < 0xFFFF_FFFF_FFFF_FFFF
    ensures forall e :: e in m <==> e in entries && p(e.val)
    ensures forall i, j :: 0 <= i < j < |m| ==> if req.backward then m[j].cursor < m[i].cursor else m[i].cursor < m[j].cursor
    ensures var size := if req.count.None? then 50 else if req.count.value < 1 then 1 else req.count.value;
            Page(entries, p, req) == if |m| <= size then m else m[..size]
  {
    hide Matching, Page;
    m := SelectionMeans(entries, p, req.backward, PageCursor(req), req.backward);
    SizeMeans(entries, p, req, m);
  }

  /** A page after a cursor shows the first entries that follow it in the listing. A text that is no
      cursor counts as zero, and the parameter wins over `before`. */
  lemma AfterPage<T>(entries: seq<Entry<T>>, p: T -> bool, req: Request, c: Cursor) returns (m: seq<Entry<T>>)
    requires Ordered(entries, false) && req.after.Some?
    requires ParseCursor(req.after.value) == Some(c) || (ParseCursor(req.after.value).None? && c == 0)
    ensures forall e :: e in m <==> e in entries && p(e.val) && if req.backward then e.cursor < c else c < e.cursor
    ensures forall i, j :: 0 <= i < j < |m| ==> if req.backward then m[j].cursor < m[i].cursor else m[i].cursor < m[j].cursor
    ensures var size := if req.count.None? then 50 else if req.count.value < 1 then 1 else req.count.value;
            Page(entries, p, req) == if |m| <= size then m else m[..size]
  {
    hide Matching, Page, ParseCursor;
    m := SelectionMeans(entries, p, req.backward, PageCursor(req), req.backward);
    SizeMeans(entries, p, req, m);
  }

  /** A page before a cursor shows the last entries that precede it in the listing. */
  lemma BeforePage<T>(entries: seq<Entry<T>>, p: T -> bool, req: Request, c: Cursor) returns (m: seq<Entry<T>>)
    requires Ordered(entries, false) && req.after.None? && req.before.Some?
    requires ParseCursor(req.before.value) == Some(c) || (ParseCursor(req.before.value).None? && c == 0)
    ensures forall e :: e in m <==> e in entries && p(e.val) && if req.backward then c < e.cursor else e.cursor < c
    ensures forall i, j :: 0 <= i < j < |m| ==> if req.backward then m[j].cursor < m[i].cursor else m[i].cursor < m[j].cursor
    ensures var size := if req.count.None? then 50 else if req.count.value < 1 then 1 else req.count.value;
            Page(entries, p, req) == if |m| <= size then m else m[|m| - size..]
  {
    hide Matching, Page, ParseCursor;
    m := SelectionMeans(entries, p, !req.backward, PageCursor(req), req.backward);
    SizeMeans(entries, p, req, m);
  }

  // ------------------------------------------------------------ page links

  /** Every filtered entry, in listing order. */
  ghost function All<T>(entries: seq<Entry<T>>, p: T -> bool, backward: bool): seq<Entry<T>> {
    Select(Listing(entries, backward), p)
  }

  lemma AllOrdered<T>(entries: seq<Entry<T>>, p: T -> bool, backward: bool)
    requires Ordered(entries, false)
    ensures Ordered(All(entries, p, backward), backward)
  {
    ListingOrdered(entries, backward);
    SelectOrdered(Listing(entries, backward), p, backward);
  }

  /** The two cuts differ exactly by an entry that sits at the cursor. */
  lemma CutsAt<T>(m: seq<Entry<T>>, desc: bool, c: Cursor)
    requires Ordered(m, desc)
    ensures var k, j := Cut(m, desc, c), CutBefore(m, desc, c);
            && j <= k <= j + 1
            && forall i :: 0 <= i < |m| ==> (m[i].cursor == c <==> j <= i < k)
  {
    hide Cut, CutBefore;
    var k, j := Cut(m, desc, c), CutBefore(m, desc, c);
    CutSeparates(m, desc, c);
    CutBeforeSeparates(m, desc, c);
    assert forall i :: 0 <= i < |m| ==> (m[i].cursor == c <==> j <= i < k);
    if j < |m| {
      assert !Beyond(!desc, c, m[j].cursor);
    }
    if k < |m| {
      assert Beyond(desc, c, m[k].cursor);
    }
    if j + 1 < |m| {
      assert Beyond(desc, m[j].cursor, m[j + 1].cursor);
    }
  }

  /** The cuts at the cursor of an entry lie on its two sides. */
  lemma CutsAtEntry<T>(m: seq<Entry<T>>, desc: bool, i: nat)
    requires Ordered(m, desc) && i < |m|
    ensures CutBefore(m, desc, m[i].cursor) == i && Cut(m, desc, m[i].cursor) == i + 1
  {
    hide Cut, CutBefore, Ordered;
    CutsAt(m, desc, m[i].cursor);
  }

  /** A matching entry sits exactly at the cursor the page was asked for. */
  ghost predicate EntryAtCursor<T>(entries: seq<Entry<T>>, p: T -> bool, req: Request) {
    exists i :: 0 <= i < |All(entries, p, req.backward)| && All(entries, p, req.backward)[i].cursor == PageCursor(req)
  }

  lemma EntryAtCursorIff<T>(entries: seq<Entry<T>>, p: T -> bool, req: Request)
    requires Ordered(entries, false)
    ensures var m, c := All(entries, p, req.backward), PageCursor(req);
            Cut(m, req.backward, c) == CutBefore(m, req.backward, c) + if EntryAtCursor(entries, p, req) then 1 else 0
  {
    hide Cut, CutBefore, Ordered, All;
    var m, c := All(entries, p, req.backward), PageCursor(req);
    AllOrdered(entries, p, req.backward);
    CutsAt(m, req.backward, c);
    if CutBefore(m, req.backward, c) < Cut(m, req.backward, c) {
      assert m[CutBefore(m, req.backward, c)].cursor == c;
    }
  }

  lemma LinkCursors<T>(entries: seq<Entry<T>>, p: T -> bool, req: Request)
    ensures PageCursor(Prev(entries, p, req)) == FirstCursor(Page(entries, p, req), PageCursor(req))
    ensures PageCursor(Next(entries, p, req)) == LastCursor(Page(entries, p, req), PageCursor(req))
    ensures AfterMode(Next(entries, p, req)) && !AfterMode(Prev(entries, p, req))
  {
    hide Page, ParseCursor, Format;
    ParseFormat(FirstCursor(Page(entries, p, req), PageCursor(req)));
    ParseFormat(LastCursor(Page(entries, p, req), PageCursor(req)));
  }

  /** Bounds of a page in the whole filtered listing. */
  ghost function Start<T>(m: seq<Entry<T>>, req: Request): nat {
    if AfterMode(req) then Cut(m, req.backward, PageCursor(req))
    else Max(0, CutBefore(m, req.backward, PageCursor(req)) - PageSize(req))
  }

  ghost function Stop<T>(m: seq<Entry<T>>, req: Request): (b: nat)
    ensures Start(m, req) <= b <= |m|
  {
    if AfterMode(req) then Min(|m|, Cut(m, req.backward, PageCursor(req)) + PageSize(req))
    else CutBefore(m, req.backward, PageCursor(req))
  }

  /** A page is a stretch of the whole filtered listing next to the place of its cursor. */
  lemma PageIsSlice<T>(entries: seq<Entry<T>>, p: T -> bool, req: Request)
    requires Ordered(entries, false)
    ensures var m := All(entries, p, req.backward);
            && Page(entries, p, req) == m[Start(m, req)..Stop(m, req)]
            && (AfterMode(req) ==> Later(entries, p, req) == m[Start(m, req)..])
            && (!AfterMode(req) ==> Earlier(entries, p, req) == m[..Stop(m, req)])
  {
    hide Matching, Select, Cut, CutBefore, Ordered, Listing;
    ListingOrdered(entries, req.backward);
    var list := Listing(entries, req.backward);
    MatchingIsTail(list, p, req.backward, PageCursor(req));
    MatchingIsHead(list, p, req.backward, PageCursor(req));
  }

  /** Where the two neighbours of a non-empty page lie. */
  lemma Neighbours<T>(entries: seq<Entry<T>>, p: T -> bool, req: Request)
    requires Ordered(entries, false) && Page(entries, p, req) != []
    ensures var m, n, next, prev := All(entries, p, req.backward), PageSize(req), Next(entries, p, req), Prev(entries, p, req);
            && Start(m, next) == Stop(m, req) && Stop(m, next) == Min(|m|, Stop(m, req) + n)
            && Stop(m, prev) == Start(m, req) && Start(m, prev) == Max(0, Start(m, req) - n)
  {
    hide Matching, Select, Cut, CutBefore, Ordered, Listing, All, Page, Later, Earlier, PageCursor;
    var m := All(entries, p, req.backward);
    AllOrdered(entries, p, req.backward);
    PageIsSlice(entries, p, req);
    LinkCursors(entries, p, req);
    CutsAtEntry(m, req.backward, Start(m, req));
    CutsAtEntry(m, req.backward, Stop(m, req) - 1);
  }

  /** A page asked for before the very first matching entry. */
  ghost predicate BeforeFirst<T>(entries: seq<Entry<T>>, p: T -> bool, req: Request) {
    var m := All(entries, p, req.backward);
    !AfterMode(req) && m != [] && m[0].cursor == PageCursor(req)
  }

  /** A page asked for after the very last matching entry. */
  ghost predicate AfterLast<T>(entries: seq<Entry<T>>, p: T -> bool, req: Request) {
    var m := All(entries, p, req.backward);
    AfterMode(req) && m != [] && m[|m| - 1].cursor == PageCursor(req)
  }

  /** With a non-empty next page, a page is empty next to an entry at its cursor exactly when it was
      asked for before the first entry. */
  lemma EmptyAtFirst<T>(entries: seq<Entry<T>>, p: T -> bool, req: Request)
    requires Ordered(entries, false) && Page(entries, p, Next(entries, p, req)) != []
    ensures Page(entries, p, req) == [] && EntryAtCursor(entries, p, req) <==> BeforeFirst(entries, p, req)
  {
    hide Matching, Select, Cut, CutBefore, Ordered, Listing, All, Page, Later, Earlier, PageCursor;
    var m := All(entries, p, req.backward);
    AllOrdered(entries, p, req.backward);
    PageIsSlice(entries, p, req);
    PageIsSlice(entries, p, Next(entries, p, req));
    LinkCursors(entries, p, req);
    EntryAtCursorIff(entries, p, req);
    CutsAt(m, req.backward, PageCursor(req));
    if BeforeFirst(entries, p, req) {
      CutsAtEntry(m, req.backward, 0);
      assert m[0].cursor == PageCursor(req);
    }
  }

  lemma EmptyAtLast<T>(entries: seq<Entry<T>>, p: T -> bool, req: Request)
    requires Ordered(entries, false) && Page(entries, p, Prev(entries, p, req)) != []
    ensures Page(entries, p, req) == [] && EntryAtCursor(entries, p, req) <==> AfterLast(entries, p, req)
  {
    hide Matching, Select, Cut, CutBefore, Ordered, Listing, All, Page, Later, Earlier, PageCursor;
    var m := All(entries, p, req.backward);
    AllOrdered(entries, p, req.backward);
    PageIsSlice(entries, p, req);
    PageIsSlice(entries, p, Prev(entries, p, req));
    LinkCursors(entries, p, req);
    EntryAtCursorIff(entries, p, req);
    CutsAt(m, req.backward, PageCursor(req));
    if AfterLast(entries, p, req) {
      CutsAtEntry(m, req.backward, |m| - 1);
      assert m[|m| - 1].cursor == PageCursor(req);
    }
  }

  /** Going on to a non-empty next page and back returns to the same entries, in both listing
      directions and from both kinds of page, unless the starting page was asked for before the cursor
      of the first matching entry. */
  lemma PrevUndoesNext<T>(entries: seq<Entry<T>>, p: T -> bool, req: Request)
    requires Ordered(entries, false)
    requires Page(entries, p, Next(entries, p, req)) != []
    ensures Page(entries, p, Prev(entries, p, Next(entries, p, req))) == Page(entries, p, req)
       <==> !BeforeFirst(entries, p, req)
  {
    hide Matching, Select, Cut, CutBefore, Ordered, Listing, All, Page, Later, Earlier, PageCursor, EntryAtCursor, BeforeFirst;
    var m, next := All(entries, p, req.backward), Next(entries, p, req);
    EmptyAtFirst(entries, p, req);
    PageIsSlice(entries, p, req);
    PageIsSlice(entries, p, next);
    PageIsSlice(entries, p, Prev(entries, p, next));
    Neighbours(entries, p, next);
    if Page(entries, p, req) != [] {
      Neighbours(entries, p, req);
    } else {
      LinkCursors(entries, p, req);
      EntryAtCursorIff(entries, p, req);
    }
  }

  /** And likewise for going back to a non-empty previous page and on again, unless the starting page
      was asked for after the cursor of the last matching entry. */
  lemma NextUndoesPrev<T>(entries: seq<Entry<T>>, p: T -> bool, req: Request)
    requires Ordered(entries, false)
    requires Page(entries, p, Prev(entries, p, req)) != []
    ensures Page(entries, p, Next(entries, p, Prev(entries, p, req))) == Page(entries, p, req)
       <==> !AfterLast(entries, p, req)
  {
    hide Matching, Select, Cut, CutBefore, Ordered, Listing, All, Page, Later, Earlier, PageCursor, EntryAtCursor, AfterLast;
    var m, prev := All(entries, p, req.backward), Prev(entries, p, req);
    EmptyAtLast(entries, p, req);
    PageIsSlice(entries, p, req);
    PageIsSlice(entries, p, prev);
    PageIsSlice(entries, p, Next(entries, p, prev));
    Neighbours(entries, p, prev);
    if Page(entries, p, req) != [] {
      Neighbours(entries, p, req);
    } else {
      LinkCursors(entries, p, req);
      EntryAtCursorIff(entries, p, req);
    }
  }

  /** The exception is real: two entries, and a page asked for before the first of them. It is empty,
      its next page shows the second entry, and the previous link of that page shows the first. */
  lemma LinksCanDiffer(p: int -> bool)
    requires p(0)
    ensures var entries, req := [Entry(5, 0), Entry(7, 0)], Request(None, Some(Format(5)), false, None);
            && Page(entries, p, req) == []
            && Page(entries, p, Next(entries, p, req)) == [Entry(7, 0)]
            && Page(entries, p, Prev(entries, p, Next(entries, p, req))) != Page(entries, p, req)
  {
    hide Format, ParseCursor, Matching, Select;
    var entries, req := [Entry(5, 0), Entry(7, 0)], Request(None, Some(Format(5)), false, None);
    ParseFormat(5);
    TwoEntries(p);
    LinkCursors(entries, p, req);
    assert All(entries, p, false)[0].cursor == PageCursor(req);
    PrevUndoesNext(entries, p, req);
  }

  lemma TwoEntries(p: int -> bool)
    requires p(0)
    ensures var entries := [Entry(5, 0), Entry(7, 0)];
            && Matching(entries, p, true, 5) == []
            && Matching(entries, p, false, 5) == [Entry(7, 0)]
            && Select(entries, p) == entries
  {
    hide Matching, Select;
    var a, b := [Entry(5, 0)], [Entry(7, 0)];
    assert [Entry(5, 0), Entry(7, 0)] == a + b;
    OneEntry(p, 5);
    OneEntry(p, 7);
    MatchingConcat(a, b, p, true, 5);
    MatchingConcat(a, b, p, false, 5);
    SelectConcat(a, b, p);
  }

  lemma OneEntry(p: int -> bool, c: Cursor)
    requires p(0)
    ensures Select([Entry(c, 0)], p) == [Entry(c, 0)]
    ensures forall desc, d :: Matching([Entry(c, 0)], p, desc, d) == if Beyond(desc, d, c) then [Entry(c, 0)] else []
  {
    var one := [Entry(c, 0)];
    assert one[..0] == [] && one[0] == Entry(c, 0);
  }

  /** The pages reached by following next links until one is empty. */
  ghost function Crawl<T>(entries: seq<Entry<T>>, p: T -> bool, req: Request): seq<seq<Entry<T>>>
    requires Ordered(entries, false) && AfterMode(req)
    decreases |Later(entries, p, req)|
  {
    if Page(entries, p, req) == [] then []
    else
      NextMovesOn(entries, p, req);
      [Page(entries, p, req)] + Crawl(entries, p, Next(entries, p, req))
  }

  lemma NextMovesOn<T>(entries: seq<Entry<T>>, p: T -> bool, req: Request)
    requires Ordered(entries, false) && AfterMode(req)
    requires Page(entries, p, req) != []
    ensures var next := Next(entries, p, req);
            AfterMode(next) && Later(entries, p, req) == Page(entries, p, req) + Later(entries, p, next)
  {
    hide Matching, Select, Cut, CutBefore, Ordered, Listing, All, Page, Later, Earlier, PageCursor;
    var m, next := All(entries, p, req.backward), Next(entries, p, req);
    PageIsSlice(entries, p, req);
    PageIsSlice(entries, p, next);
    Neighbours(entries, p, req);
    LinkCursors(entries, p, req);
    assert m[Start(m, req)..] == m[Start(m, req)..Stop(m, req)] + m[Stop(m, req)..];
  }

  function Flatten<T>(pages: seq<seq<T>>): seq<T> {
    if pages == [] then [] else pages[0] + Flatten(pages[1..])
  }

  /** Following the next links from any page in after mode shows every matching entry beyond its
      cursor once, in order. */
  lemma {:induction false} CrawlShowsAll<T>(entries: seq<Entry<T>>, p: T -> bool, req: Request)
    requires Ordered(entries, false) && AfterMode(req)
    ensures Flatten(Crawl(entries, p, req)) == Later(entries, p, req)
    decreases |Later(entries, p, req)|
  {
    if Page(entries, p, req) != [] {
      NextMovesOn(entries, p, req);
      CrawlShowsAll(entries, p, Next(entries, p, req));
    }
  }

  /** `hasMore` on a page in after mode announces exactly a non-empty next page, on a page in before
      mode a non-empty previous one. */
  lemma HasMoreTells<T>(entries: seq<Entry<T>>, p: T -> bool, req: Request)
    requires Ordered(entries, false) && Page(entries, p, req) != []
    ensures AfterMode(req) ==>
              (|Page(entries, p, req)| < |Later(entries, p, req)| <==> Page(entries, p, Next(entries, p, req)) != [])
    ensures !AfterMode(req) ==>
              (|Page(entries, p, req)| < |Earlier(entries, p, req)| <==> Page(entries, p, Prev(entries, p, req)) != [])
  {
    hide Matching, Select, Cut, CutBefore, Ordered, Listing, All, Page, Later, Earlier, PageCursor;
    PageIsSlice(entries, p, req);
    PageIsSlice(entries, p, Next(entries, p, req));
    PageIsSlice(entries, p, Prev(entries, p, req));
    Neighbours(entries, p, req);
  }
}
