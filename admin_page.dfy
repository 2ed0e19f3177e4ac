/**
 * The state logic of the admin dashboard: message truncation, the expanded
 * and deleting sets, the local list after a delete, and the pagination buttons.
 */
module AdminPage {
  import opened Submissions

  /** truncateMessage's default maxLength, and the length beyond which Show more appears. */
  const CollapsedLength: nat := 100

  /**
   * message.substring(0, maxLength) + "..." for a message longer than
   * maxLength, the message itself otherwise.
   */
  function Truncate(message: string, maxLength: nat): (r: string)
    ensures |message| <= maxLength ==> r == message
    ensures |message| > maxLength ==> |r| == maxLength + 3 && r[maxLength..] == "..."
    ensures |r| <= maxLength + 3
    ensures r[..Min(|message|, maxLength)] == message[..Min(|message|, maxLength)]
  {
    if |message| <= maxLength then message else message[..maxLength] + "..."
  }

  /** truncateMessage with its default maxLength of 100, as the message column calls it. */
  function TruncateMessage(message: string): (r: string)
    ensures |message| <= 100 ==> r == message
    ensures |message| > 100 ==> |r| == 103 && r[..100] == message[..100] && r[100..] == "..."
  {
    Truncate(message, CollapsedLength)
  }

  /** The Show more / Show less toggle is rendered for long messages only. */
  predicate ShowsExpandToggle(message: string)
    ensures !ShowsExpandToggle(message) ==> TruncateMessage(message) == message
    ensures ShowsExpandToggle(message) ==> |TruncateMessage(message)| == 103
  {
    |message| > CollapsedLength
  }

  /** The text shown for a row: the whole message when expanded, the truncated one otherwise. */
  function DisplayedMessage(sub: Submission, expanded: set<nat>): (r: string)
    ensures sub.id in expanded || !ShowsExpandToggle(sub.message) ==> r == sub.message
    ensures sub.id !in expanded ==> r == TruncateMessage(sub.message)
    ensures sub.id !in expanded && ShowsExpandToggle(sub.message) ==> |r| == 103 && r[100..] == "..."
    ensures Min(|sub.message|, 100) <= |r|
    ensures r[..Min(|sub.message|, 100)] == sub.message[..Min(|sub.message|, 100)]
    ensures |r| <= |sub.message| + 3
  {
    if sub.id in expanded then sub.message else TruncateMessage(sub.message)
  }

  /**
   * No text is ever hidden without a way to reveal it: a message whose
   * collapsed view differs from it has a toggle, and one without a toggle is
   * shown in full.
   */
  lemma CollapsedViewHidesOnlyWithToggle(sub: Submission, expanded: set<nat>)
    ensures !ShowsExpandToggle(sub.message) ==> DisplayedMessage(sub, expanded) == sub.message
    ensures DisplayedMessage(sub, expanded) != sub.message ==> ShowsExpandToggle(sub.message)
    ensures ShowsExpandToggle(sub.message) ==>
      DisplayedMessage(sub, Toggled(expanded, sub.id)) == sub.message || DisplayedMessage(sub, expanded) == sub.message
    ensures ShowsExpandToggle(sub.message) ==>
      {DisplayedMessage(sub, expanded), DisplayedMessage(sub, Toggled(expanded, sub.id))}
        == {sub.message, TruncateMessage(sub.message)}
  {
  }

  /** A set with id's membership flipped and every other element as it was. */
  function Toggled(s: set<nat>, id: nat): (r: set<nat>)
    ensures id in r <==> id !in s
    ensures forall x :: x != id ==> (x in r <==> x in s)
  {
    if id in s then s - {id} else s + {id}
  }

  /** Toggling the same id twice restores the set. */
  lemma ToggleTwiceRestores(s: set<nat>, id: nat)
    ensures Toggled(Toggled(s, id), id) == s
  {
  }

  /** Previous is disabled on page 1 and while loading. */
  predicate PreviousDisabled(page: int, loading: bool)
    ensures loading ==> PreviousDisabled(page, loading)
    ensures !loading ==> (PreviousDisabled(page, loading) <==> page == 1)
  {
    page == 1 || loading
  }

  /** Next is disabled on the last page and while loading. */
  predicate NextDisabled(page: int, totalPages: int, loading: bool)
    ensures loading ==> NextDisabled(page, totalPages, loading)
    ensures !loading ==> (NextDisabled(page, totalPages, loading) <==> page == totalPages)
  {
    page == totalPages || loading
  }

  /**
   * On a page within range, an enabled Previous or Next button always
   * requests a page that is within range too.
   */
  lemma EnabledButtonsStayInRange(page: int, totalPages: int, loading: bool)
    requires 1 <= page <= totalPages
    ensures !PreviousDisabled(page, loading) ==> 1 <= page - 1 <= totalPages
    ensures !NextDisabled(page, totalPages, loading) ==> 1 <= page + 1 <= totalPages
    ensures totalPages > 1 && !loading ==> !PreviousDisabled(page, loading) || !NextDisabled(page, totalPages, loading)
  {
  }

  /** The dashboard's React state that the handlers update. */
  class AdminView {
    var submissions: seq<Submission>
    var expandedMessages: set<nat>
    var deleting: set<nat>

    constructor ()
      ensures submissions == [] && expandedMessages == {} && deleting == {}
    {
      submissions, expandedMessages, deleting := [], {}, {};
    }

    /** toggleMessageExpansion: flip id in the expanded set. */
    method ToggleMessageExpansion(id: nat)
      modifies this
      ensures expandedMessages == Toggled(old(expandedMessages), id)
      ensures submissions == old(submissions) && deleting == old(deleting)
    {
      var next := expandedMessages;
      if id in next {
        next := next - {id};
      } else {
        next := next + {id};
      }
      expandedMessages := next;
    }

    /**
     * handleDelete up to its request: unless the confirmation is declined,
     * id joins the deleting set, which disables its Delete button.
     */
    method BeginDelete(id: nat, confirmed: bool) returns (started: bool)
      modifies this
      ensures started == confirmed
      ensures deleting == if confirmed then old(deleting) + {id} else old(deleting)
      ensures started ==> id in deleting
      ensures submissions == old(submissions) && expandedMessages == old(expandedMessages)
    {
      if !confirmed {
        return false;
      }
      deleting := deleting + {id};
      started := true;
    }

    /**
     * handleDelete after its request: on an ok response the local list drops
     * every entry with id; in either case id leaves the deleting set and the
     * other members stay.
     */
    method FinishDelete(id: nat, responseOk: bool)
      modifies this
      ensures submissions == if responseOk then Without(old(submissions), id) else old(submissions)
      ensures responseOk ==> !HasId(submissions, id)
      ensures deleting == old(deleting) - {id}
      ensures id !in deleting
      ensures expandedMessages == old(expandedMessages)
    {
      if responseOk {
        submissions := Without(submissions, id);
      }
      var next := deleting;
      next := next - {id};
      deleting := next;
    }
  }
}
