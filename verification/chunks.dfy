/** `fetchItemsInChunks`: enumerate a remote list by fixed-size pages until a
    page comes back with a length other than the page size. */
module Chunks {

  /** The paging arguments of one `getList` request. */
  datatype Request = Request(offset: nat, limit: nat)

  /** The remote `getList(undefined, {offset, limit})` over a fixed dataset:
      the records from `offset` on, at most `limit` of them. */
  function GetList<T>(data: seq<T>, offset: nat, limit: nat): (page: seq<T>)
    ensures |page| <= limit
    ensures offset <= |data| ==> page == data[offset..Min(offset + limit, |data|)]
    ensures offset >= |data| ==> page == []
  {
    if offset >= |data| then [] else data[offset..Min(offset + limit, |data|)]
  }

  function Min(a: int, b: int): int
  {
    if a <= b then a else b
  }

  /** The pages joined in request order. */
  function Concat<T>(pages: seq<seq<T>>): seq<T>
  {
    if pages == [] then [] else Concat(pages[..|pages| - 1]) + pages[|pages| - 1]
  }

  lemma ConcatSnoc<T>(pages: seq<seq<T>>, page: seq<T>)
    ensures Concat(pages + [page]) == Concat(pages) + page
  {
    assert (pages + [page])[..|pages|] == pages;
  }

  lemma NextOffset(n: nat, limit: nat)
    ensures (n + 1) * limit == n * limit + limit
  {
  }

  /** A page read at the end of a prefix extends the prefix; a full page
      leaves the offset within the dataset. */
  lemma PageExtendsPrefix<T>(data: seq<T>, offset: nat, limit: nat)
    requires offset <= |data|
    ensures data[..offset] + GetList(data, offset, limit) == data[..Min(offset + limit, |data|)]
    ensures |GetList(data, offset, limit)| == limit ==> offset + limit <= |data|
    ensures |GetList(data, offset, limit)| != limit ==> data[..offset] + GetList(data, offset, limit) == data
    ensures |GetList(data, offset, limit)| != limit ==> |data| < offset + limit
  {
  }

  /** Integer division pinned down by its bounds. */
  lemma DivFromBounds(d: nat, l: nat, q: nat)
    requires l > 0
    requires q * l <= d < (q + 1) * l
    ensures d / l == q
  {
    var q', r' := d / l, d % l;
    assert d == q' * l + r';
    if q' < q {
      MulMonotone(q' + 1, q, l);
    } else if q' > q {
      MulMonotone(q + 1, q', l);
    }
  }

  lemma MulMonotone(a: nat, b: nat, l: nat)
    requires a <= b
    ensures a * l <= b * l
  {
    assert b * l == a * l + (b - a) * l;
  }

  /** Request k asked for offset k * limit, and `offset` is where the next
      request starts. */
  ghost predicate Requested(requests: seq<Request>, limit: nat, offset: nat)
  {
    && offset == |requests| * limit
    && (forall k :: 0 <= k < |requests| ==> requests[k] == Request(k * limit, limit))
  }

  lemma RequestedStep(requests: seq<Request>, limit: nat, offset: nat)
    requires Requested(requests, limit, offset)
    ensures Requested(requests + [Request(offset, limit)], limit, offset + limit)
  {
    NextOffset(|requests|, limit);
  }

  /** Every request got its page from the remote, and the records are the
      pages joined in order. */
  ghost predicate Answered<T>(data: seq<T>, items: seq<T>, requests: seq<Request>, responses: seq<seq<T>>)
  {
    && |requests| == |responses|
    && (forall k :: 0 <= k < |responses| ==> responses[k] == GetList(data, requests[k].offset, requests[k].limit))
    && items == Concat(responses)
  }

  lemma AnsweredStep<T>(data: seq<T>, items: seq<T>, requests: seq<Request>, responses: seq<seq<T>>, r: Request)
    requires Answered(data, items, requests, responses)
    ensures var page := GetList(data, r.offset, r.limit);
            Answered(data, items + page, requests + [r], responses + [page])
  {
    ConcatSnoc(responses, GetList(data, r.offset, r.limit));
  }

  /** What the paging loop knows after each page: while `more` holds every
      page so far was full and the records are the dataset up to `offset`;
      once `more` fails the last page was short and the records are the
      whole dataset. */
  ghost predicate Paged<T>(data: seq<T>, limit: nat, items: seq<T>, requests: seq<Request>,
                           responses: seq<seq<T>>, offset: nat, more: bool)
  {
    && Requested(requests, limit, offset)
    && Answered(data, items, requests, responses)
    && (forall k :: 0 <= k < |responses| - 1 ==> |responses[k]| == limit)
    && (more ==> (forall k :: 0 <= k < |responses| ==> |responses[k]| == limit)
                 && offset <= |data| && items == data[..offset])
    && (!more ==> |responses| >= 1 && |responses[|responses| - 1]| != limit
                  && items == data && offset - limit <= |data| < offset)
  }

  /** One iteration of the loop body keeps `Paged`. */
  lemma PageStep<T>(data: seq<T>, limit: nat, items: seq<T>, requests: seq<Request>,
                    responses: seq<seq<T>>, offset: nat)
    requires limit > 0
    requires Paged(data, limit, items, requests, responses, offset, true)
    ensures var response := GetList(data, offset, limit);
            Paged(data, limit, items + response, requests + [Request(offset, limit)],
                  responses + [response], offset + limit, |response| == limit)
  {
    RequestedStep(requests, limit, offset);
    AnsweredStep(data, items, requests, responses, Request(offset, limit));
    PageExtendsPrefix(data, offset, limit);
  }

  /** The do-while paging loop. Besides the records it returns the requests it
      made and the pages it received, so that the contract can speak of them:
      request k asks for offset k * limit; the loop runs at least once and
      stops at the first page whose length differs from `limit`; the result is
      the pages joined in order, which is the whole dataset, after exactly
      |data| / limit + 1 requests. */
  method FetchItemsInChunks<T>(data: seq<T>, limit: nat)
    returns (items: seq<T>, requests: seq<Request>, responses: seq<seq<T>>)
    requires limit > 0
    ensures |requests| == |responses| >= 1
    ensures forall k :: 0 <= k < |requests| ==> requests[k] == Request(k * limit, limit)
    ensures forall k :: 0 <= k < |responses| ==> responses[k] == GetList(data, requests[k].offset, requests[k].limit)
    ensures forall k :: 0 <= k < |responses| - 1 ==> |responses[k]| == limit
    ensures |responses[|responses| - 1]| != limit
    ensures items == Concat(responses)
    ensures items == data
    ensures |requests| == |data| / limit + 1
  {
    items := [];
    requests := [];
    responses := [];
    var offset: nat := 0;
    var more := true;
    PagedStart(data, limit);
    while more
      invariant Paged(data, limit, items, requests, responses, offset, more)
      decreases if more then |data| + 1 - offset else 0
    {
      var response := GetList(data, offset, limit);
      PageStep(data, limit, items, requests, responses, offset);
      requests := requests + [Request(offset, limit)];
      responses := responses + [response];
      items := items + response;
      offset := offset + limit;
      more := |response| == limit;
    }
    PagedDone(data, limit, items, requests, responses, offset);
  }

  /** The loop's exit state: the last page was short, the records are the
      whole dataset and the number of requests is |data| / limit + 1. */
  lemma PagedDone<T>(data: seq<T>, limit: nat, items: seq<T>, requests: seq<Request>,
                     responses: seq<seq<T>>, offset: nat)
    requires limit > 0
    requires Paged(data, limit, items, requests, responses, offset, false)
    ensures |requests| == |responses| >= 1
    ensures forall k :: 0 <= k < |requests| ==> requests[k] == Request(k * limit, limit)
    ensures forall k :: 0 <= k < |responses| ==> responses[k] == GetList(data, requests[k].offset, requests[k].limit)
    ensures forall k :: 0 <= k < |responses| - 1 ==> |responses[k]| == limit
    ensures |responses[|responses| - 1]| != limit
    ensures items == Concat(responses)
    ensures items == data
    ensures |requests| == |data| / limit + 1
  {
    PagingCount(|data|, limit, |requests|);
  }

  /** Before the first request nothing is known but the starting offset. */
  lemma PagedStart<T>(data: seq<T>, limit: nat)
    ensures Paged(data, limit, [], [], [], 0, true)
  {
  }

  /** The loop's exit state pins down the number of requests. */
  lemma PagingCount(d: nat, limit: nat, n: nat)
    requires limit > 0 && n >= 1
    requires n * limit - limit <= d < n * limit
    ensures n == d / limit + 1
  {
    NextOffset(n - 1, limit);
    DivFromBounds(d, limit, n - 1);
  }
}
