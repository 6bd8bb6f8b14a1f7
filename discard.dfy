/** The "Discard workout" button: a first tap asks for confirmation, a second
    tap sends `DELETE /api/logs?date=...` for the button's date. */
module Discard {
  import opened Wrappers
  import opened DailyLog

  /** A request the button sends. */
  datatype Request = Delete(date: Day)

  /** How the DELETE request ended. */
  datatype DeleteOutcome = DeleteOk | DeleteNotOk | DeleteThrew

  class DiscardButton {
    const date: Day
    var loading: bool
    var confirming: bool

    constructor (day: Day)
      ensures date == day && !loading && !confirming
    {
      date := day;
      loading := false;
      confirming := false;
    }

    /** `disabled={loading}`: the button is disabled exactly while it reads
        "Discarding...". */
    predicate Disabled(): (r: bool)
      reads this
      ensures r <==> Label() == "Discarding..."
    {
      loading
    }

    /** The button text. */
    function Label(): (t: string)
      reads this
      ensures loading ==> t == "Discarding..."
      ensures !loading && confirming ==> t == "Tap again to confirm"
      ensures !loading && !confirming ==> t == "Discard workout"
    {
      if loading then "Discarding..." else if confirming then "Tap again to confirm" else "Discard workout"
    }

    /** The synchronous part of `handleDiscard`, on a tap of the enabled
        button: the first tap only arms the confirmation; the second sends
        exactly one DELETE for the button's date and starts loading. */
    method Press() returns (sent: Option<Request>)
      requires !Disabled()
      modifies this
      ensures !old(confirming) ==> sent.None? && confirming && !loading
      ensures old(confirming) ==> sent == Some(Delete(date)) && confirming && loading
    {
      if !confirming {
        confirming := true;
        return None;
      }
      loading := true;
      sent := Some(Delete(date));
    }

    /** The `finally` of `handleDiscard` once the DELETE has ended: the page
        is refreshed only on an ok reply, and both flags are cleared on every path. */
    method Settle(outcome: DeleteOutcome) returns (refresh: bool)
      requires loading
      modifies this
      ensures refresh <==> outcome == DeleteOk
      ensures !loading && !confirming
    {
      refresh := outcome == DeleteOk;
      loading := false;
      confirming := false;
    }
  }

  /** A full confirmation: two taps and the reply; the first tap sends
      nothing, the second one DELETE for the date, and the button ends idle. */
  method TwoTaps(b: DiscardButton, outcome: DeleteOutcome) returns (first: Option<Request>, second: Option<Request>, refresh: bool)
    requires !b.loading && !b.confirming
    modifies b
    ensures first.None? && second == Some(Delete(b.date))
    ensures refresh <==> outcome == DeleteOk
    ensures !b.loading && !b.confirming && b.Label() == "Discard workout"
  {
    first := b.Press();
    assert b.Label() == "Tap again to confirm";
    second := b.Press();
    assert b.Disabled() && b.Label() == "Discarding...";
    refresh := b.Settle(outcome);
  }
}
