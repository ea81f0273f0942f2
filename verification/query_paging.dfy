/** Walking the pages of a JMAP Email/query and fetching headers in batches. */
module QueryPaging {
  import opened Common

  const U32_MAX: int := 0xFFFF_FFFF

  datatype Error = IncompleteQuery | Request

  // What the server answers to one Email/query call: any field may be missing or false.
  datatype Page = Page(ids: seq<string>, position: Option<nat>, state: Option<string>, total: Option<nat>)

  // A server is anything that answers the n-th call for a position, or fails.
  type Server = (nat, nat) -> Result<Page, Error>

  predicate Distinct(ids: seq<string>) {
    forall i, j | 0 <= i < j < |ids| :: ids[i] != ids[j]
  }

  predicate Disjoint(a: seq<string>, b: seq<string>) {
    forall i, j | 0 <= i < |a| && 0 <= j < |b| :: a[i] != b[j]
  }

  // The query state and total that every page has to repeat.
  datatype Query = Query(state: string, total: nat)

  /** Accepts a page at the position asked for that repeats the query's state and total,
      fits into the total and brings new ids only. */
  function ValidateQueryPage(position: nat, previous: Option<Query>, collected: seq<string>,
      page: Page): Result<Query, Error> {
    if page.total.None?
       || page.position != Some(position)
       || page.state.None?
       || (previous.Some? && previous.value != Query(page.state.value, page.total.value))
       || |collected| + |page.ids| > page.total.value
       || !Disjoint(collected, page.ids)
       || !Distinct(page.ids)
    then Err(IncompleteQuery)
    else Ok(Query(page.state.value, page.total.value))
  }

  /** Where to go on; None when everything advertised has been collected. */
  function NextQueryPosition(collected: nat, total: nat, pageLen: nat): Result<Option<nat>, Error> {
    if collected >= total then Ok(None)
    else if pageLen == 0 || collected > U32_MAX then Err(IncompleteQuery)
    else Ok(Some(collected))
  }

  /** The ids collected and the query they are from, page by page: each page the server's
      answer for the position where the one before it ended, and accepted. */
  ghost predicate Walk(server: Server, pages: seq<Page>, query: Option<Query>, ids: seq<string>)
    decreases |pages|
  {
    if pages == [] then query == None && ids == []
    else
      var n, page := |pages| - 1, pages[|pages| - 1];
      && |page.ids| <= |ids| && query.Some?
      && var before, previous := ids[..|ids| - |page.ids|], if n == 0 then None else query;
         && ids == before + page.ids && server(n, |before|) == Ok(page)
         && ValidateQueryPage(|before|, previous, before, page) == Ok(query.value)
         && Walk(server, pages[..n], previous, before)
  }

  /** A page is accepted exactly when it is the one asked for, repeats the query's state and total, and
      brings ids that are new and fit into the total. */
  lemma AcceptedIff(position: nat, previous: Option<Query>, collected: seq<string>, page: Page, query: Query)
    requires Distinct(collected)
    ensures ValidateQueryPage(position, previous, collected, page) == Ok(query) <==>
      && page.position == Some(position) && page.state == Some(query.state) && page.total == Some(query.total)
      && (previous == None || previous == Some(query))
      && |collected + page.ids| <= query.total && Distinct(collected + page.ids)
  {
    var all := collected + page.ids;
    assert forall j | 0 <= j < |page.ids| :: all[|collected| + j] == page.ids[j];
    assert forall i | 0 <= i < |collected| :: all[i] == collected[i];
  }

  function IdsOf(pages: seq<Page>): seq<string> {
    if pages == [] then [] else IdsOf(pages[..|pages| - 1]) + pages[|pages| - 1].ids
  }

  /** What a walk collects: page after page, each the server's answer at the position where the one
      before it ended, all of one state and one total. */
  lemma {:induction false} WalkIs(server: Server, pages: seq<Page>, query: Query, ids: seq<string>, i: nat)
    requires Walk(server, pages, Some(query), ids) && i < |pages|
    ensures ids == IdsOf(pages)
    ensures server(i, |IdsOf(pages[..i])|) == Ok(pages[i]) && pages[i].position == Some(|IdsOf(pages[..i])|)
    ensures pages[i].state == Some(query.state) && pages[i].total == Some(query.total)
  {
    var n := |pages| - 1;
    var page := pages[n];
    var before := ids[..|ids| - |page.ids|];
    if n > 0 {
      WalkIs(server, pages[..n], query, before, if i < n then i else 0);
    }
    if i < n {
      assert pages[..n][..i] == pages[..i];
    }
  }

  /** The next position is where the ids end; none when all are there, an error when nothing came
      or the position has more than 32 bits. */
  lemma NextPositionIff(collected: nat, total: nat, pageLen: nat, position: nat)
    ensures NextQueryPosition(collected, total, pageLen) == Ok(Some(position)) <==>
      position == collected < total && pageLen > 0 && position <= 0xFFFF_FFFF
    ensures NextQueryPosition(collected, total, pageLen) == Ok(None) <==> total <= collected
  {
  }

  lemma {:induction false} WalkOn(server: Server, pages: seq<Page>, previous: Option<Query>, ids: seq<string>,
      page: Page, query: Query)
    requires Walk(server, pages, previous, ids) && Distinct(ids) && (previous.None? <==> pages == [])
    requires server(|pages|, |ids|) == Ok(page)
    requires ValidateQueryPage(|ids|, previous, ids, page) == Ok(query)
    ensures Walk(server, pages + [page], Some(query), ids + page.ids) && Distinct(ids + page.ids)
  {
    var all := ids + page.ids;
    assert all[..|all| - |page.ids|] == ids;
    assert (pages + [page])[..|pages|] == pages;
  }

  // ---- an honest server ----

  /** A server with a fixed list of distinct ids that answers every position with the ids
      from there on, as many as it likes but at least one. */
  ghost predicate Honest(server: Server, list: seq<string>, state: string) {
    Distinct(list) &&
    forall n, position | 0 <= position <= |list| :: HonestAnswer(server(n, position), list, state, position)
  }

  predicate HonestAnswer(answer: Result<Page, Error>, list: seq<string>, state: string, position: nat)
    requires position <= |list|
  {
    answer.Ok? &&
    var page := answer.value;
    && page.position == Some(position) && page.state == Some(state) && page.total == Some(|list|)
    && |page.ids| <= |list| - position && (position < |list| ==> page.ids != [])
    && page.ids == list[position..position + |page.ids|]
  }

  lemma HonestPageIsAccepted(list: seq<string>, state: string, position: nat, page: Page, previous: Option<Query>)
    requires Distinct(list) && position <= |list| && HonestAnswer(Ok(page), list, state, position)
    requires previous == None || previous == Some(Query(state, |list|))
    ensures ValidateQueryPage(position, previous, list[..position], page) == Ok(Query(state, |list|))
    ensures list[..position] + page.ids == list[..position + |page.ids|]
  {
  }

  /** An honest server's next page is accepted and brings the list's next ids. */
  lemma HonestStep(list: seq<string>, state: string, ids: seq<string>, answer: Result<Page, Error>,
      previous: Option<Query>)
    requires Distinct(list) && |ids| <= |list| && ids == list[..|ids|]
    requires previous == None || previous == Some(Query(state, |list|))
    requires HonestAnswer(answer, list, state, |ids|)
    ensures answer.Ok? && ValidateQueryPage(|ids|, previous, ids, answer.value) == Ok(Query(state, |list|))
    ensures var n := |ids| + |answer.value.ids|;
      n <= |list| && ids + answer.value.ids == list[..n] && (|ids| < |list| ==> |ids| < n)
  {
    hide ValidateQueryPage, Distinct;
    HonestPageIsAccepted(list, state, |ids|, answer.value, previous);
  }

  lemma AcceptedPage(position: nat, previous: Option<Query>, ids: seq<string>, page: Page)
    requires ValidateQueryPage(position, previous, ids, page).Ok?
    ensures var query := ValidateQueryPage(position, previous, ids, page).value;
      |ids| + |page.ids| <= query.total && (previous.Some? ==> query == previous.value)
  {
  }

  /** All ids of a mailbox. Whatever the server answers, the loop ends; success means as
      many distinct ids as one query advertised; and an honest server's list is collected
      whole and in order, however it cuts its pages. */
  method QueryAllEmailIds(server: Server, ghost list: seq<string>, ghost state: string)
    returns (r: Result<seq<string>, Error>, ghost pages: seq<Page>, query: Option<Query>)
    ensures r.Ok? ==> Walk(server, pages, query, r.value) && query.Some?
    ensures r.Ok? ==> Distinct(r.value) && |r.value| == query.value.total
    ensures Honest(server, list, state) && |list| <= U32_MAX + 1 ==> r == Ok(list)
  {
    hide Walk, Honest, HonestAnswer, ValidateQueryPage, Distinct;
    ghost var honest := Honest(server, list, state) && |list| <= U32_MAX + 1;
    var ids: seq<string>, position, call: nat := [], 0, 0;
    query, pages := None, [];
    WalkStarts(server);
    assert Distinct(ids) by {
      NothingRepeats();
    }
    while true
      invariant position == |ids| && call == |pages|
      invariant Walk(server, pages, query, ids) && Distinct(ids) && (query.None? <==> pages == [])
      invariant query.Some? ==> |ids| < query.value.total
      invariant honest ==> |ids| <= |list| && ids == list[..|ids|] && query in {None, Some(Query(state, |list|))}
      decreases query.None?, if query.Some? then query.value.total - |ids| else 0
    {
      var answer := server(call, position);
      if honest {
        HonestAnswers(server, list, state, call, position);
        HonestStep(list, state, ids, answer, query);
      }
      if answer.Err? {
        return Err(answer.error), pages, query;
      }
      var page := answer.value;
      var accepted := ValidateQueryPage(position, query, ids, page);
      if accepted.Err? {
        return Err(accepted.error), pages, query;
      }
      AcceptedPage(position, query, ids, page);
      WalkOn(server, pages, query, ids, page, accepted.value);
      pages, query := pages + [page], Some(accepted.value);
      call := call + 1;
      ids := ids + page.ids;
      var next := NextQueryPosition(|ids|, accepted.value.total, |page.ids|);
      if next.Err? {
        return Err(next.error), pages, query;
      }
      if next.value.None? {
        assert honest ==> list[..|list|] == list;
        return Ok(ids), pages, query;
      }
      position := next.value.value;
    }
  }

  lemma NothingRepeats()
    ensures Distinct([])
  {
  }

  lemma WalkStarts(server: Server)
    ensures Walk(server, [], None, [])
  {
  }

  lemma HonestAnswers(server: Server, list: seq<string>, state: string, n: nat, position: nat)
    requires Honest(server, list, state) && position <= |list|
    ensures Distinct(list) && HonestAnswer(server(n, position), list, state, position)
  {
  }

  // ---- headers ----

  // A header; what else it holds is not looked at.
  datatype Header = Header(id: string, subject: Option<string>)

  // A server's answer to the n-th Email/get.
  type HeaderServer = (nat, seq<string>) -> Result<seq<Header>, Error>

  function HeaderIds(headers: seq<Header>): seq<string> {
    seq(|headers|, i requires 0 <= i < |headers| => headers[i].id)
  }

  function Members(ids: seq<string>): set<string> {
    set id | id in ids
  }

  lemma {:induction false} MembersOfDistinct(ids: seq<string>)
    ensures |Members(ids)| <= |ids| && (Distinct(ids) <==> |Members(ids)| == |ids|)
  {
    if ids != [] {
      var fewer, last := ids[..|ids| - 1], ids[|ids| - 1];
      assert ids == fewer + [last];
      assert Members(ids) == Members(fewer) + {last};
      MembersOfDistinct(fewer);
      if last in fewer {
        assert Members(ids) == Members(fewer);
      }
    }
  }

  lemma {:induction false} OnceEach(ids: seq<string>, id: string)
    requires Distinct(ids)
    ensures multiset(ids)[id] == if id in ids then 1 else 0
  {
    if ids != [] {
      var fewer, last := ids[..|ids| - 1], ids[|ids| - 1];
      assert ids == fewer + [last];
      OnceEach(fewer, id);
    }
  }

  /** As many ids, with the same members, as a list without repeats: a permutation of it. */
  lemma SameMembersPermute(a: seq<string>, b: seq<string>)
    requires |a| == |b| && Members(a) == Members(b) && Distinct(b)
    ensures multiset(a) == multiset(b) && Distinct(a)
  {
    MembersOfDistinct(a);
    MembersOfDistinct(b);
    forall id ensures multiset(a)[id] == multiset(b)[id] {
      OnceEach(a, id);
      OnceEach(b, id);
      assert id in a <==> id in Members(a);
      assert id in b <==> id in Members(b);
    }
  }

  lemma PartIsDistinct(ids: seq<string>, i: nat, j: nat)
    requires Distinct(ids) && i <= j <= |ids|
    ensures Distinct(ids[i..j])
  {
  }

  /** One header for each id asked for, and no other. */
  predicate Answers(answer: Result<seq<Header>, Error>, batch: seq<string>) {
    && answer.Ok? && |answer.value| == |batch|
    && (forall h | h in answer.value :: h.id in batch)
    && (forall id | id in batch :: exists h | h in answer.value :: h.id == id)
  }

  function Flat<T>(parts: seq<seq<T>>): seq<T> {
    if parts == [] then [] else Flat(parts[..|parts| - 1]) + parts[|parts| - 1]
  }

  lemma AnswersIff(page: seq<Header>, batch: seq<string>)
    ensures Answers(Ok(page), batch) <==> |page| == |batch| && Members(HeaderIds(page)) == Members(batch)
  {
    assert forall i | 0 <= i < |page| :: HeaderIds(page)[i] == page[i].id && page[i] in page;
    if Answers(Ok(page), batch) {
      forall id | id in batch ensures id in Members(HeaderIds(page)) {
        var h :| h in page && h.id == id;
        var i :| 0 <= i < |page| && page[i] == h;
        assert HeaderIds(page)[i] == id;
      }
    }
    if Members(HeaderIds(page)) == Members(batch) {
      forall h | h in page ensures h.id in batch {
        var i :| 0 <= i < |page| && page[i] == h;
        assert HeaderIds(page)[i] in Members(batch);
      }
      forall id | id in batch ensures exists h | h in page :: h.id == id {
        assert id in Members(HeaderIds(page));
        var i :| 0 <= i < |page| && HeaderIds(page)[i] == id;
        assert page[i] in page;
      }
    }
  }

  function FlatAnswers(answers: seq<Result<seq<Header>, Error>>): seq<Header> {
    if answers == [] then []
    else
      var last := answers[|answers| - 1];
      FlatAnswers(answers[..|answers| - 1]) + if last.Ok? then last.value else []
  }

  /** Batches of the ids from the first on, each of this size but for the one that ends them, and the
      server's answers to them. */
  ghost predicate Asked(server: HeaderServer, ids: seq<string>, size: nat, batches: seq<seq<string>>,
      answers: seq<Result<seq<Header>, Error>>) {
    && Flat(batches) <= ids && |answers| == |batches|
    && (forall i | 0 <= i < |batches| :: answers[i] == server(i, batches[i]) && 0 < |batches[i]| <= size)
    && (forall i | 0 <= i < |batches| :: |batches[i]| == size || (i == |batches| - 1 && Flat(batches) == ids))
  }

  lemma {:induction false} AskNext(server: HeaderServer, ids: seq<string>, size: nat, batches: seq<seq<string>>,
      answers: seq<Result<seq<Header>, Error>>, done: nat, end: nat)
    requires done < end <= |ids|
    requires Asked(server, ids, size, batches, answers) && Flat(batches) == ids[..done]
    requires (end == done + size || (end < done + size && end == |ids|))
    ensures var batches', answers' := batches + [ids[done..end]], answers + [server(|batches|, ids[done..end])];
      && Asked(server, ids, size, batches', answers') && Flat(batches') == ids[..end]
      && FlatAnswers(answers') == FlatAnswers(answers)
           + var last := server(|batches|, ids[done..end]); if last.Ok? then last.value else []
  {
    var batch := ids[done..end];
    var batches', answers' := batches + [batch], answers + [server(|batches|, batch)];
    assert batches'[..|batches|] == batches && answers'[..|answers|] == answers;
    assert ids[..done] + batch == ids[..end];
    assert end == |ids| ==> ids[..end] == ids;
  }

  /**
    Headers fetched in batches: the ids in order, each batch as large as the server allows but for the
    last. It succeeds exactly when every batch is answered, with one header for each of its ids; then
    the headers are a permutation of the ids, if these are distinct.
  */
  method GetEmailHeaders(ids: seq<string>, maxObjectsInGet: nat, server: HeaderServer)
    returns (r: Result<seq<Header>, Error>, ghost batches: seq<seq<string>>,
             ghost answers: seq<Result<seq<Header>, Error>>)
    ensures r.Ok? ==> |r.value| == |ids| && (Distinct(ids) ==> multiset(HeaderIds(r.value)) == multiset(ids))
    ensures Asked(server, ids, if maxObjectsInGet == 0 then 1 else maxObjectsInGet, batches, answers)
    ensures r.Ok? <==> forall i | 0 <= i < |batches| :: Answers(answers[i], batches[i])
    ensures r.Ok? ==> Flat(batches) == ids && r.value == FlatAnswers(answers)
  {
    hide Asked, Answers, Members, HeaderIds, Distinct, FlatAnswers, Flat;
    var size := if maxObjectsInGet == 0 then 1 else maxObjectsInGet;
    var emails: seq<Header>, done, call: nat := [], 0, 0;
    batches, answers := [], [];
    NothingAsked(server, ids, size);
    assert ids[..0] == [];
    while done < |ids|
      invariant 0 <= done <= |ids| && |emails| == done && call == |batches| == |answers|
      invariant Distinct(ids) ==> multiset(HeaderIds(emails)) == multiset(ids[..done])
      invariant Asked(server, ids, size, batches, answers)
      invariant forall i | 0 <= i < call :: Answers(answers[i], batches[i])
      invariant Flat(batches) == ids[..done] && emails == FlatAnswers(answers)
    {
      var end := if done + size <= |ids| then done + size else |ids|;
      var batch := ids[done..end];
      AskNext(server, ids, size, batches, answers, done, end);
      var answer := server(call, batch);
      call := call + 1;
      batches, answers := batches + [batch], answers + [answer];
      if answer.Err? {
        assert !Answers(answers[call - 1], batch) by { ErrorIsNoAnswer(answer, batch); }
        return Err(answer.error), batches, answers;
      }
      var page := answer.value;
      AnswersIff(page, batch);
      if |page| != |batch| || Members(HeaderIds(page)) != Members(batch) {
        assert !Answers(answers[call - 1], batch);
        return Err(IncompleteQuery), batches, answers;
      }
      if Distinct(ids) {
        PartIsDistinct(ids, done, end);
        assert |HeaderIds(page)| == |page| by { NextBatch(ids, done, end, emails, page); }
        SameMembersPermute(HeaderIds(page), batch);
      }
      NextBatch(ids, done, end, emails, page);
      emails := emails + page;
      done := end;
    }
    assert ids[..done] == ids;
    return Ok(emails), batches, answers;
  }

  lemma NextBatch(ids: seq<string>, done: nat, end: nat, emails: seq<Header>, page: seq<Header>)
    requires done <= end <= |ids|
    ensures HeaderIds(emails + page) == HeaderIds(emails) + HeaderIds(page)
    ensures |HeaderIds(page)| == |page| && ids[..end] == ids[..done] + ids[done..end]
  {
  }

  lemma NothingAsked(server: HeaderServer, ids: seq<string>, size: nat)
    ensures Asked(server, ids, size, [], [])
    ensures HeaderIds([]) == [] && FlatAnswers([]) == [] && Flat<string>([]) == []
  {
  }

  lemma ErrorIsNoAnswer(answer: Result<seq<Header>, Error>, batch: seq<string>)
    requires answer.Err?
    ensures !Answers(answer, batch)
  {
  }
}
