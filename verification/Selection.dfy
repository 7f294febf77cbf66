/**
 Choosing among several authenticators by touch. Each native call gives an
 arbitrary reply and takes some time.
 */
module Selection {
  import opened Wrappers
  import opened Bytes
  import opened NativeErrors

  const NANOS_PER_MILLI: nat := 1_000_000
  const TOUCH_POLL_INTERVAL: nat := 100 * NANOS_PER_MILLI
  const I32_MAX: nat := 0x7fff_ffff

  datatype Reply = Reply(status: int, touched: int, nanos: nat)

  datatype TouchEvent =
    | TimeoutSet(device: nat, milliseconds: nat)
    | TouchBegun(device: nat)
    | Polled(device: nat, at: nat, milliseconds: nat, status: int, touched: int)
    | TouchCancelled(device: nat)

  function AsMillis(nanos: nat): nat
  {
    nanos / NANOS_PER_MILLI
  }

  /** What ends a ceremony that has no winner. */
  function CancelAllOf(devices: seq<nat>): (events: seq<TouchEvent>)
    ensures |events| == |devices|
  {
    seq(|devices|, i requires 0 <= i < |devices| => TouchCancelled(devices[i]))
  }

  /** The devices without the one at `i`, whose place the last one takes. */
  function SwapRemove(devices: seq<nat>, i: nat): (others: seq<nat>)
    requires i < |devices|
    ensures |others| == |devices| - 1
  {
    var last := |devices| - 1;
    if i == last then devices[..last] else devices[..last][i := devices[last]]
  }

  lemma SwapRemoveKeepsOthers(devices: seq<nat>, i: nat)
    requires i < |devices|
    ensures multiset(SwapRemove(devices, i)) == multiset(devices) - multiset{devices[i]}
  {
    var last := |devices| - 1;
    assert devices == devices[..last] + [devices[last]];
    if i != last {
      assert multiset(devices[..last][i := devices[last]]) == multiset(devices[..last]) - multiset{devices[i]} + multiset{devices[last]};
    }
  }

  /** Whose turn it is after `k` polls of `n` devices: the next one's, and after the last the first's. */
  function Turn(k: nat, n: nat): (index: nat)
    requires n > 0
    ensures index < n
  {
    if k == 0 || Turn(k - 1, n) + 1 == n then 0 else Turn(k - 1, n) + 1
  }

  /** A poll waits no longer than its interval, nor beyond the deadline, except for the least wait of a millisecond. */
  ghost predicate WaitBounded(at: nat, milliseconds: nat, deadline: nat)
  {
    && at < deadline && 1 <= milliseconds && milliseconds * NANOS_PER_MILLI <= TOUCH_POLL_INTERVAL
    && (milliseconds == 1 || at + milliseconds * NANOS_PER_MILLI <= deadline)
  }

  /** Polls go round the devices in order, and none begins at or after the deadline. */
  ghost predicate RoundRobin(polls: seq<TouchEvent>, devices: seq<nat>, deadline: nat)
    requires devices != []
  {
    forall k | 0 <= k < |polls| :: polls[k].Polled? && polls[k].device == devices[Turn(k, |devices|)] && WaitBounded(polls[k].at, polls[k].milliseconds, deadline)
  }

  lemma WaitFits(at: nat, wait: nat, milliseconds: nat, deadline: nat)
    requires at < deadline && wait <= TOUCH_POLL_INTERVAL && wait <= deadline - at
    requires milliseconds == if AsMillis(wait) > 1 then AsMillis(wait) else 1
    ensures WaitBounded(at, milliseconds, deadline)
  {
  }

  /** The announcements so far: a timeout and a begin for each device, in order. */
  ghost predicate AnnouncedInOrder(setup: seq<TouchEvent>, devices: seq<nat>)
  {
    && |setup| <= 2 * |devices|
    && (forall i | 0 <= 2 * i < |setup| :: setup[2 * i].TimeoutSet? && setup[2 * i].device == devices[i]
                                           && 1 <= setup[2 * i].milliseconds <= I32_MAX)
    && (forall i | 0 < 2 * i + 1 < |setup| :: setup[2 * i + 1] == TouchBegun(devices[i]))
  }

  lemma AnnounceOne(setup: seq<TouchEvent>, devices: seq<nat>, i: nat, milliseconds: nat)
    requires AnnouncedInOrder(setup, devices) && |setup| == 2 * i && i < |devices| && 1 <= milliseconds <= I32_MAX
    ensures var timed := setup + [TimeoutSet(devices[i], milliseconds)];
            AnnouncedInOrder(timed, devices) && AnnouncedInOrder(timed + [TouchBegun(devices[i])], devices)
  {
  }

  predicate NoTouch(e: TouchEvent)
  {
    e.Polled? && e.status == FIDO_OK && e.touched == 0
  }

  class Panel {
    const replies: nat -> Reply
    var calls: nat
    /** Nanoseconds. */
    var now: nat
    ghost var trace: seq<TouchEvent>

    constructor (replies: nat -> Reply)
      ensures trace == [] && this.replies == replies
    {
      this.replies := replies;
      calls, now, trace := 0, 0, [];
    }

    /** Time passes during every call. */
    ghost predicate ConsumesTime()
    {
      forall k :: replies(k).nanos >= 1
    }

    method Next() returns (reply: Reply)
      modifies this`calls, this`now
      ensures now == old(now) + reply.nanos && (ConsumesTime() ==> now > old(now))
    {
      reply := replies(calls);
      calls := calls + 1;
      now := now + reply.nanos;
    }

    method SetTimeout(device: nat, milliseconds: nat) returns (status: int)
      modifies this
      ensures trace == old(trace) + [TimeoutSet(device, milliseconds)] && now >= old(now)
    {
      var reply := Next();
      status := reply.status;
      trace := trace + [TimeoutSet(device, milliseconds)];
    }

    method TouchBegin(device: nat) returns (status: int)
      modifies this
      ensures trace == old(trace) + [TouchBegun(device)] && now >= old(now)
    {
      var reply := Next();
      status := reply.status;
      trace := trace + [TouchBegun(device)];
    }

    method TouchStatus(device: nat, milliseconds: nat) returns (status: int, touched: int)
      modifies this
      ensures trace == old(trace) + [Polled(device, old(now), milliseconds, status, touched)]
      ensures now >= old(now) && (ConsumesTime() ==> now > old(now))
    {
      ghost var at := now;
      var reply := Next();
      status, touched := reply.status, reply.touched;
      trace := trace + [Polled(device, at, milliseconds, status, touched)];
    }

    method CancelAll(devices: seq<nat>)
      modifies this
      ensures trace == old(trace) + CancelAllOf(devices) && now >= old(now)
    {
      for i := 0 to |devices|
        invariant now >= old(now)
        invariant trace == old(trace) + CancelAllOf(devices[..i])
      {
        var _ := Next();
        assert CancelAllOf(devices[..i + 1]) == CancelAllOf(devices[..i]) + [TouchCancelled(devices[i])];
        trace := trace + [TouchCancelled(devices[i])];
      }
      assert devices[..|devices|] == devices;
    }

    /** Announces the ceremony on every device; an expired deadline is the one exit that cancels nothing. */
    method Announce(devices: seq<nat>, deadline: nat)
      returns (r: Result<(), NativeError>, ghost setup: seq<TouchEvent>, ghost ending: seq<TouchEvent>)
      modifies this
      ensures trace == old(trace) + setup + ending && now >= old(now)
      ensures AnnouncedInOrder(setup, devices)
      ensures r.Ok? ==> ending == [] && |setup| == 2 * |devices|
      ensures r.Err? ==> ending == CancelAllOf(devices) || (ending == [] && r.error in {SelectionTimedOut, Protocol})
    {
      setup, ending := [], [];
      for i := 0 to |devices|
        invariant trace == old(trace) + setup && now >= old(now) && ending == []
        invariant AnnouncedInOrder(setup, devices) && |setup| == 2 * i
      {
        if now > deadline {
          return Err(SelectionTimedOut), setup, ending;
        }
        var milliseconds := if AsMillis(deadline - now) > 1 then AsMillis(deadline - now) else 1;
        if milliseconds > I32_MAX {
          return Err(Protocol), setup, ending;
        }
        AnnounceOne(setup, devices, i, milliseconds);
        hide AnnouncedInOrder, CancelAllOf;
        var status := SetTimeout(devices[i], milliseconds);
        setup := setup + [TimeoutSet(devices[i], milliseconds)];
        if status != FIDO_OK {
          CancelAll(devices);
          return Err(TranslateStatus(status)), setup, CancelAllOf(devices);
        }
        status := TouchBegin(devices[i]);
        setup := setup + [TouchBegun(devices[i])];
        if status != FIDO_OK {
          CancelAll(devices);
          return Err(TranslateStatus(status)), setup, CancelAllOf(devices);
        }
      }
      r := Ok(());
    }

    /** How a ceremony may end after a last poll of the device at `index`. */
    static ghost predicate EndsAt(r: Result<nat, NativeError>, devices: seq<nat>, index: nat, operationMilliseconds: nat,
                                  poll: TouchEvent, ending: seq<TouchEvent>)
      requires index < |devices|
    {
      if poll.Polled? && poll.status == FIDO_OK && poll.touched == 1 then
        && ending == CancelAllOf(SwapRemove(devices, index)) + [TimeoutSet(devices[index], operationMilliseconds)]
        && (r.Ok? ==> r.value == devices[index])
      else
        r.Err? && ending == CancelAllOf(devices)
    }

    static ghost predicate Ends(r: Result<nat, NativeError>, devices: seq<nat>, operationMilliseconds: nat,
                                polls: seq<TouchEvent>, ending: seq<TouchEvent>)
      requires devices != []
    {
      || (r.Err? && ending == CancelAllOf(devices) && forall k | 0 <= k < |polls| :: NoTouch(polls[k]))
      || (polls != []
          && EndsAt(r, devices, Turn(|polls| - 1, |devices|), operationMilliseconds, polls[|polls| - 1], ending))
    }

    /** One poll; `r` is the outcome if the ceremony ends with it. */
    method PollOnce(devices: seq<nat>, index: nat, deadline: nat, operationMilliseconds: nat)
      returns (r: Option<Result<nat, NativeError>>, ghost polled: seq<TouchEvent>, ghost ending: seq<TouchEvent>)
      requires index < |devices| && ConsumesTime()
      modifies this
      ensures trace == old(trace) + polled + ending
      ensures if old(now) >= deadline then polled == [] && r == Some(Err(SelectionTimedOut)) && ending == CancelAllOf(devices)
              else
                && |polled| == 1 && polled[0].Polled? && polled[0].device == devices[index] && polled[0].at == old(now)
                && WaitBounded(polled[0].at, polled[0].milliseconds, deadline)
                && now > old(now)
                && (if r.None? then NoTouch(polled[0]) && ending == []
                    else EndsAt(r.value, devices, index, operationMilliseconds, polled[0], ending))
    {
      polled, ending := [], [];
      if now >= deadline {
        CancelAll(devices);
        return Some(Err(SelectionTimedOut)), polled, CancelAllOf(devices);
      }
      var wait := if TOUCH_POLL_INTERVAL < deadline - now then TOUCH_POLL_INTERVAL else deadline - now;
      var milliseconds := if AsMillis(wait) > 1 then AsMillis(wait) else 1;
      WaitFits(now, wait, milliseconds, deadline);
      ghost var at := now;
      var status, touched := TouchStatus(devices[index], milliseconds);
      polled := [Polled(devices[index], at, milliseconds, status, touched)];
      if status != FIDO_OK {
        CancelAll(devices);
        return Some(Err(TranslateStatus(status))), polled, CancelAllOf(devices);
      }
      if touched == 1 {
        var others := SwapRemove(devices, index);
        CancelAll(others);
        status := SetTimeout(devices[index], operationMilliseconds);
        ending := CancelAllOf(others) + [TimeoutSet(devices[index], operationMilliseconds)];
        r := Some(if status != FIDO_OK then Err(TranslateStatus(status)) else Ok(devices[index]));
        return;
      }
      if touched != 0 {
        CancelAll(devices);
        return Some(Err(Protocol)), polled, CancelAllOf(devices);
      }
      r := None;
    }

    /**
     The first device in turn to report a touch wins; its operation timeout is
     restored and every other device is cancelled. A ceremony without a winner
     cancels every device, and time alone brings it to an end.
     */
    method Poll(devices: seq<nat>, deadline: nat, operationMilliseconds: nat)
      returns (r: Result<nat, NativeError>, ghost polls: seq<TouchEvent>, ghost ending: seq<TouchEvent>)
      requires devices != [] && ConsumesTime()
      modifies this
      ensures trace == old(trace) + polls + ending
      ensures RoundRobin(polls, devices, deadline)
      ensures forall k | 0 <= k < |polls| - 1 :: NoTouch(polls[k])
      ensures Ends(r, devices, operationMilliseconds, polls, ending)
    {
      hide CancelAllOf, SwapRemove, EndsAt;
      polls, ending := [], [];
      var n := |devices|;
      while true
        invariant trace == old(trace) + polls
        invariant Turn(|polls|, n) == 0
        invariant RoundRobin(polls, devices, deadline)
        invariant forall k | 0 <= k < |polls| :: NoTouch(polls[k])
        decreases if now < deadline then deadline - now else 0
      {
        ghost var began := now;
        for index := 0 to n
          invariant trace == old(trace) + polls
          invariant Turn(|polls|, n) == if index == n then 0 else index
          invariant RoundRobin(polls, devices, deadline)
          invariant forall k | 0 <= k < |polls| :: NoTouch(polls[k])
          invariant if index > 0 then began < deadline && began < now else began == now
        {
          var outcome, polled, last := PollOnce(devices, index, deadline, operationMilliseconds);
          ConcatAssociative(old(trace), polls, polled);
          ghost var earlier := polls;
          polls := polls + polled;
          if outcome.Some? {
            if polled == [] { assert polls == earlier; }
            return outcome.value, polls, last;
          }
        }
      }
    }

    method SelectByTouch(devices: seq<nat>, selectionTimeout: nat, operationMilliseconds: nat)
      returns (r: Result<nat, NativeError>, ghost setup: seq<TouchEvent>, ghost polls: seq<TouchEvent>, ghost ending: seq<TouchEvent>)
      requires devices != [] && ConsumesTime()
      modifies this
      ensures trace == old(trace) + setup + polls + ending
      ensures AnnouncedInOrder(setup, devices) && (polls != [] ==> |setup| == 2 * |devices|)
      ensures RoundRobin(polls, devices, old(now) + selectionTimeout)
      ensures forall k | 0 <= k < |polls| - 1 :: NoTouch(polls[k])
      ensures Ends(r, devices, operationMilliseconds, polls, ending)
              || (polls == [] && ending == [] && r.Err? && r.error in {SelectionTimedOut, Protocol})
      ensures r.Ok? ==> r.value in devices
    {
      polls := [];
      var deadline := now + selectionTimeout;
      var announced;
      announced, setup, ending := Announce(devices, deadline);
      if announced.Err? {
        assert trace == old(trace) + setup + [] + ending;
        return Err(announced.error), setup, polls, ending;
      }
      assert old(trace) + setup + [] == old(trace) + setup;
      r, polls, ending := Poll(devices, deadline, operationMilliseconds);
    }
  }
}
