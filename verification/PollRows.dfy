/** Poll rows as the lifecycle code sees them. */
module PollRows {
  import opened Options

  datatype Status = Draft | Open | Closed

  datatype Poll = Poll(status: Status, closesAt: Option<int>, closedAt: Option<int>) {
    predicate IsDue(now: int) {
      status == Open && closesAt.Some? && closesAt.value <= now
    }

    function CloseAt(now: int): Poll {
      this.(status := Closed, closedAt := Some(now))
    }
  }
}
