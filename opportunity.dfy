/** The opportunity record kept by the admin page, and the form it is
    created from. */
module Opportunities {
  import opened Text

  datatype Status = Pending | Accepted | Declined

  /** The status as the string the page stores, filters on, sorts on and exports. */
  function StatusName(s: Status): string {
    match s
    case Pending => "pending"
    case Accepted => "accepted"
    case Declined => "declined"
  }

  /** Position of a status in JavaScript's string order of the names. */
  function StatusRank(s: Status): nat {
    match s
    case Accepted => 0
    case Declined => 1
    case Pending => 2
  }

  /** Comparing status names as strings is comparing their ranks: the names
      sort as "accepted" < "declined" < "pending". */
  lemma StatusNameOrder(x: Status, y: Status)
    ensures StrLess(StatusName(x), StatusName(y)) <==> StatusRank(x) < StatusRank(y)
    ensures StatusName(x) == StatusName(y) <==> x == y
  {
    if x == y {
      StrLessIrreflexive(StatusName(x));
    } else {
      assert StatusName(x)[0] != StatusName(y)[0];
    }
  }

  /** A calendar date as the page holds it: the ISO text of a date input
      (empty when nothing was entered) and the day number that text denotes. */
  datatype Date = Date(iso: string, day: int)

  datatype Opportunity = Opportunity(
    id: string,
    title: string,
    description: string,
    consultantEmail: string,
    startDate: Date,
    endDate: Date,
    status: Status)

  /** The values of the "Add New Opportunity" form at submit time. */
  datatype Form = Form(
    title: string,
    description: string,
    consultantEmail: string,
    startDate: Date,
    endDate: Date)

  /** The submit guard: every field of the form is non-empty. */
  predicate FormComplete(f: Form) {
    f.title != [] && f.description != [] && f.consultantEmail != []
    && f.startDate.iso != [] && f.endDate.iso != []
  }

  /** The record a submitted form becomes; `id` is the caller's clock reading. */
  function NewOpportunity(f: Form, id: string): Opportunity {
    Opportunity(id, f.title, f.description, f.consultantEmail, f.startDate, f.endDate, Pending)
  }
}
