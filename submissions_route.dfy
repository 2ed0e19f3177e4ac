/**
 * GET and DELETE /api/contact/submissions: the paginated list and delete by id.
 */
module SubmissionsRoute {
  import opened Wrappers
  import opened Submissions

  /** A page number or page size given as a positive integer. */
  type Positive = x: int | x >= 1 witness 1

  const DefaultPage: Positive := 1
  const DefaultLimit: Positive := 10

  /** Rows on the pages before this one. */
  function Offset(page: Positive, limit: Positive): (o: nat)
    ensures o + limit == page * limit
    ensures page == 1 <==> o == 0
  {
    (page - 1) * limit
  }

  lemma MulMonotone(a: nat, b: nat, c: nat)
    requires a <= b
    ensures a * c <= b * c
  {
  }

  /**
   * Math.ceil(total / limit) in integers: the fewest pages of limit rows
   * that hold total rows.
   */
  function TotalPages(total: nat, limit: Positive): (n: nat)
    ensures n * limit >= total
    ensures n == 0 || (n - 1) * limit < total
  {
    var n := (total + limit - 1) / limit;
    assert n * limit >= total by {
      assert (total + limit - 1) == n * limit + (total + limit - 1) % limit;
    }
    assert n == 0 || (n - 1) * limit < total by {
      assert (total + limit - 1) == n * limit + (total + limit - 1) % limit;
    }
    n
  }

  /** An empty table has no pages, and total rows never need more than total pages. */
  lemma TotalPagesBounds(total: nat, limit: Positive)
    ensures total == 0 <==> TotalPages(total, limit) == 0
    ensures TotalPages(total, limit) <= total
  {
    var n := TotalPages(total, limit);
    if n > 0 {
      MulMonotone(1, limit, n - 1);
      assert n - 1 <= (n - 1) * limit;
    }
  }

  /** 15 rows at 10 per page make 2 pages, the second holding 5 rows. */
  lemma FifteenRowsTwoPages(ordered: seq<Submission>)
    requires |ordered| == 15
    ensures TotalPages(|ordered|, 10) == 2
    ensures |Window(ordered, Offset(2, 10), 10)| == 5
  {
  }

  /** Pages 1 to k, one after the other. */
  function Pages(ordered: seq<Submission>, limit: Positive, k: nat): seq<Submission> {
    if k == 0 then [] else Pages(ordered, limit, k - 1) + Window(ordered, Offset(k, limit), limit)
  }

  /** The first k pages are the first k * limit rows. */
  lemma {:induction false} PagesArePrefix(ordered: seq<Submission>, limit: Positive, k: nat)
    ensures Pages(ordered, limit, k) == ordered[..Min(k * limit, |ordered|)]
  {
    if k > 0 {
      PagesArePrefix(ordered, limit, k - 1);
      var lo := Offset(k, limit);
      var hi := k * limit;
      assert hi == lo + limit by {
        assert k * limit == (k - 1) * limit + limit;
      }
      PagesStep(ordered, Pages(ordered, limit, k - 1), lo, hi, limit);
    }
  }

  /** Appending the window at lo to the first lo rows gives the first lo + limit rows. */
  lemma PagesStep(ordered: seq<Submission>, prefix: seq<Submission>, lo: nat, hi: nat, limit: Positive)
    requires hi == lo + limit
    requires prefix == ordered[..Min(lo, |ordered|)]
    ensures prefix + Window(ordered, lo, limit) == ordered[..Min(hi, |ordered|)]
  {
    if lo < |ordered| {
      assert ordered[..lo] + ordered[lo..Min(hi, |ordered|)] == ordered[..Min(hi, |ordered|)];
    }
  }

  /** Reading every page from 1 to totalPages yields each row once, in order. */
  lemma PagesCoverAllRows(ordered: seq<Submission>, limit: Positive)
    ensures Pages(ordered, limit, TotalPages(|ordered|, limit)) == ordered
  {
    var n := TotalPages(|ordered|, limit);
    PagesArePrefix(ordered, limit, n);
    assert Min(n * limit, |ordered|) == |ordered|;
  }

  /** The page with a given number is empty exactly when the number is past totalPages. */
  lemma PageEmptyIffPastLast(ordered: seq<Submission>, page: Positive, limit: Positive)
    ensures Window(ordered, Offset(page, limit), limit) == [] <==> page > TotalPages(|ordered|, limit)
  {
    var n := TotalPages(|ordered|, limit);
    if page > n {
      MulMonotone(n, page - 1, limit);
    } else {
      MulMonotone(page - 1, n - 1, limit);
      assert Offset(page, limit) < |ordered|;
    }
  }

  /** The JSON reply of GET: the page of rows and the pagination block. */
  datatype ListReply = ListReply(data: seq<Submission>, page: Positive, limit: Positive, total: nat, totalPages: nat)

  /**
   * GET: absent parameters default to page 1 and 10 rows; the reply echoes
   * them, counts every row of the table, and carries the page-th slice of
   * the newest-first rows. It changes nothing.
   */
  method List(table: Table, pageParam: Option<Positive>, limitParam: Option<Positive>) returns (reply: ListReply)
    requires table.Valid()
    ensures reply.page == pageParam.GetOr(DefaultPage) && reply.limit == limitParam.GetOr(DefaultLimit)
    ensures reply.total == |table.rows|
    ensures reply.totalPages == TotalPages(reply.total, reply.limit)
    ensures reply.data == Window(NewestFirst(table.rows), Offset(reply.page, reply.limit), reply.limit)
    ensures |reply.data| <= reply.limit && SortedNewestFirst(reply.data)
    ensures reply.data == [] <==> reply.page > reply.totalPages
  {
    var page := pageParam.GetOr(DefaultPage);
    var limit := limitParam.GetOr(DefaultLimit);
    var offset := Offset(page, limit);
    var total := table.Count();
    var data := table.Page(limit, offset);
    PageEmptyIffPastLast(NewestFirst(table.rows), page, limit);
    reply := ListReply(data, page, limit, total, TotalPages(total, limit));
  }

  /** The outcomes of DELETE. */
  datatype DeleteReply = IdRequired | NotFound | Deleted

  /** The HTTP status: 400 for a missing id, 404 for an unknown one, 200 after the delete. */
  function DeleteStatus(reply: DeleteReply): (code: int)
    ensures code == 200 <==> reply == Deleted
    ensures code == 400 <==> reply == IdRequired
    ensures code == 404 <==> reply == NotFound
  {
    match reply
    case IdRequired => 400
    case NotFound => 404
    case Deleted => 200
  }

  const DeletedText := "Submission deleted successfully"

  /** The error text of a 400 or 404 reply, or the message of the 200 reply (sent beside success: true). */
  function DeleteText(reply: DeleteReply): (t: string)
    ensures t == DeletedText <==> reply == Deleted
    ensures reply != Deleted ==> |t| > 11 && t[..11] == "Submission "
  {
    match reply
    case IdRequired => "Submission ID is required"
    case NotFound => "Submission not found"
    case Deleted => DeletedText
  }

  /**
   * DELETE: an absent or empty id is refused; an id no row has is not found;
   * otherwise that one row goes and every other row stays, in order.
   * Afterwards no row has the id, so deleting it again is not found.
   */
  method Delete(table: Table, idParam: Option<nat>) returns (reply: DeleteReply)
    requires table.Valid()
    modifies table
    ensures table.Valid()
    ensures idParam.None? ==> reply == IdRequired && table.rows == old(table.rows)
    ensures idParam.Some? && !HasId(old(table.rows), idParam.value) ==>
      reply == NotFound && table.rows == old(table.rows)
    ensures idParam.Some? && HasId(old(table.rows), idParam.value) ==>
      && reply == Deleted
      && table.rows == Without(old(table.rows), idParam.value)
      && |table.rows| == |old(table.rows)| - 1
    ensures idParam.Some? ==> !HasId(table.rows, idParam.value)
    ensures table.nextId == old(table.nextId) && table.clock == old(table.clock)
  {
    if idParam.None? {
      return IdRequired;
    }
    var removed := table.DeleteById(idParam.value);
    if !removed {
      return NotFound;
    }
    reply := Deleted;
  }
}
