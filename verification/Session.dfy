/**
 The outside world of one operation: the user who answers prompts, the random
 source, and the memory Argon2id asks for. Each answer is fixed in advance by an
 arbitrary function of the time it is asked for, so what is proved holds for
 every user, every random stream and every failure.
 */
module Sessions {
  import opened Wrappers
  import opened Errors
  import opened Bytes
  import opened Policy

  datatype Operation =
    | CreateRoot | ProtectRoot | Unlock | AddRecipient | RewrapPassphrase | VerifyManagedRecipient | RetireManagedRecipient

  datatype Ceremony = EnrollmentCeremony | AssertionCeremony

  datatype Purpose = ForUnlock | ForNew | ForConfirmation

  /** What is done with the user and the authenticator, in order. */
  datatype Event =
    | PinAsked(operation: Operation, caption: Bytes, ceremony: Ceremony)
    | TouchAsked(operation: Operation, caption: Bytes, ceremony: Ceremony, policy: FidoPolicy)
    | PassphraseAsked(operation: Operation, caption: Bytes, purpose: Purpose)
    | Asserted
    | KeyDerived

  type Passphrase = b: Bytes | 1 <= |b| <= 1024 witness [0]

  class Session {
    const bytes: nat -> byte
    const randomFails: nat -> bool
    const memoryFails: nat -> bool
    const passphrases: nat -> Result<Passphrase, InteractionError>
    const replies: nat -> Option<InteractionError>

    var clock: nat
    ghost var log: seq<Event>
    /** How often the user was asked to choose among authenticators. */
    ghost var selections: nat

    constructor (bytes: nat -> byte, randomFails: nat -> bool, memoryFails: nat -> bool,
                 passphrases: nat -> Result<Passphrase, InteractionError>, replies: nat -> Option<InteractionError>)
      ensures log == [] && selections == 0
    {
      this.bytes, this.randomFails, this.memoryFails := bytes, randomFails, memoryFails;
      this.passphrases, this.replies := passphrases, replies;
      clock, log, selections := 0, [], 0;
    }

    /** What the random source gives when `n` bytes are drawn at this time. */
    function Draw(time: nat, n: nat): (r: Outcome<Bytes>)
      ensures r.Ok? ==> |r.value| == n
      ensures r.Err? ==> r.error == RandomUnavailable
    {
      if randomFails(time) then Err(RandomUnavailable) else Ok(seq(n, i requires 0 <= i < n => bytes(time + i)))
    }

    method RandomArray(n: nat) returns (r: Outcome<Bytes>)
      modifies this`clock
      ensures clock == old(clock) + n + 1 && r == Draw(old(clock), n)
      ensures r.Ok? ==> InTurn(this, [r.value], old(clock), clock)
    {
      r := Draw(clock, n);
      clock := clock + n + 1;
      if r.Ok? { OneDraw(this, r.value, old(clock)); }
    }

    /** The first of at most `attempts` draws that is not rejected. */
    ghost function FirstAccepted(time: nat, n: nat, rejected: Bytes -> bool, attempts: nat): (r: Outcome<Bytes>)
      ensures r.Ok? ==> |r.value| == n && !rejected(r.value)
      ensures r.Err? ==> r.error == RandomUnavailable
      decreases attempts
    {
      if attempts == 0 then Err(RandomUnavailable) else
      var drawn :- Draw(time, n);
      if rejected(drawn) then FirstAccepted(time + n + 1, n, rejected, attempts - 1) else Ok(drawn)
    }

    method RequestPassphrase(operation: Operation, caption: Bytes, purpose: Purpose) returns (r: Outcome<Passphrase>)
      modifies this`clock, this`log
      ensures log == old(log) + [PassphraseAsked(operation, caption, purpose)] && clock == old(clock) + 1
      ensures match passphrases(old(clock))
              case Ok(p) => r == Ok(p)
              case Err(e) => r == Err(Interaction(e))
    {
      r := match passphrases(clock) case Ok(p) => Ok(p) case Err(e) => Err(Interaction(e));
      clock := clock + 1;
      log := log + [PassphraseAsked(operation, caption, purpose)];
    }

    function Answer(time: nat): Outcome<()> {
      match replies(time)
      case None => Ok(())
      case Some(e) => Err(Interaction(e))
    }

    method RequestPin(operation: Operation, caption: Bytes, ceremony: Ceremony) returns (r: Outcome<()>)
      modifies this`clock, this`log
      ensures log == old(log) + [PinAsked(operation, caption, ceremony)] && r == Answer(old(clock)) && clock == old(clock) + 1
    {
      r := Answer(clock);
      clock := clock + 1;
      log := log + [PinAsked(operation, caption, ceremony)];
    }

    method TouchRequired(operation: Operation, caption: Bytes, ceremony: Ceremony, policy: FidoPolicy) returns (r: Outcome<()>)
      modifies this`clock, this`log
      ensures log == old(log) + [TouchAsked(operation, caption, ceremony, policy)] && r == Answer(old(clock))
      ensures clock == old(clock) + 1
    {
      r := Answer(clock);
      clock := clock + 1;
      log := log + [TouchAsked(operation, caption, ceremony, policy)];
    }

    method SelectAuthenticator() returns (r: Outcome<()>)
      modifies this`clock, this`selections
      ensures selections == old(selections) + 1 && r == Answer(old(clock)) && clock == old(clock) + 1
    {
      r := Answer(clock);
      clock := clock + 1;
      selections := selections + 1;
    }

    ghost method Note(event: Event)
      modifies this`log
      ensures log == old(log) + [event]
    {
      log := log + [event];
    }

    /** The memory of one Argon2id derivation. */
    method ReserveMemory() returns (r: Outcome<()>)
      modifies this`clock, this`log
      ensures log == old(log) + [KeyDerived]
      ensures r == if memoryFails(old(clock)) then Err(KdfResourceUnavailable) else Ok(())
    {
      r := if memoryFails(clock) then Err(KdfResourceUnavailable) else Ok(());
      clock := clock + 1;
      log := log + [KeyDerived];
    }
  }

  // ----- randomness -----

  /** The values were drawn one after another, each from a stretch of the random stream of its own. */
  ghost predicate InTurn(s: Session, values: seq<Bytes>, from: nat, to: nat)
    decreases |values|
  {
    if values == [] then from <= to
    else exists t: nat | from <= t :: s.Draw(t, |values[0]|) == Ok(values[0]) && InTurn(s, values[1..], t + |values[0]| + 1, to)
  }

  /** The value was drawn at this time or later. */
  ghost predicate DrawnSince(s: Session, value: Bytes, since: nat)
  {
    exists t: nat | since <= t :: s.Draw(t, |value|) == Ok(value)
  }

  ghost predicate DrawnApart(s: Session, values: seq<Bytes>)
  {
    exists end :: InTurn(s, values, 0, end)
  }

  lemma OneDraw(s: Session, value: Bytes, time: nat)
    requires s.Draw(time, |value|) == Ok(value)
    ensures InTurn(s, [value], time, time + |value| + 1)
  {
    var end := time + |value| + 1;
    assert [value][0] == value && [value][1..] == [];
    assert s.Draw(time, |[value][0]|) == Ok([value][0]) && InTurn(s, [value][1..], time + |[value][0]| + 1, end);
  }

  lemma {:induction false} InTurnAppend(s: Session, values: seq<Bytes>, last: Bytes, from: nat, middle: nat, to: nat)
    requires InTurn(s, values, from, middle) && InTurn(s, [last], middle, to)
    ensures InTurn(s, values + [last], from, to)
    decreases |values|
  {
    hide Session.Draw;
    if values == [] {
      InTurnEarlier(s, [last], from, middle, to);
      assert values + [last] == [last];
    } else {
      var first := values[0];
      var t: nat :| from <= t && s.Draw(t, |first|) == Ok(first) && InTurn(s, values[1..], t + |first| + 1, middle);
      InTurnAppend(s, values[1..], last, t + |first| + 1, middle, to);
      assert (values + [last])[0] == first && (values + [last])[1..] == values[1..] + [last];
    }
  }

  lemma InTurnEarlier(s: Session, values: seq<Bytes>, earlier: nat, from: nat, to: nat)
    requires InTurn(s, values, from, to) && earlier <= from
    ensures InTurn(s, values, earlier, to)
  {
  }

  lemma Apart(s: Session, values: seq<Bytes>, from: nat, to: nat)
    requires InTurn(s, values, from, to)
    ensures DrawnApart(s, values)
  {
    InTurnEarlier(s, values, 0, from, to);
  }

  // ----- scripts -----

  /**
   What happened since `before` is an initial part of `script`, and all of it on
   success: nothing out of order, nothing twice, nothing else.
   */
  ghost predicate Followed(before: seq<Event>, after: seq<Event>, script: seq<Event>, ok: bool)
  {
    before <= after <= before + script && (ok ==> after == before + script)
  }

  lemma Continues(a: seq<Event>, b: seq<Event>, c: seq<Event>, first: seq<Event>, second: seq<Event>, ok: bool)
    requires Followed(a, b, first, true) && Followed(b, c, second, ok)
    ensures Followed(a, c, first + second, ok)
  {
    assert b + second == a + (first + second);
  }

  lemma Stops(a: seq<Event>, b: seq<Event>, first: seq<Event>, second: seq<Event>)
    requires Followed(a, b, first, false)
    ensures Followed(a, b, first + second, false)
  {
    assert a + (first + second) == (a + first) + second;
  }

  /** Enrollment always verifies the user. */
  function EnrollScript(operation: Operation, caption: Bytes, policy: FidoPolicy): seq<Event>
  {
    [PinAsked(operation, caption, EnrollmentCeremony), TouchAsked(operation, caption, EnrollmentCeremony, policy)]
  }

  /** An assertion asks for a PIN exactly under user verification, then for a touch. */
  function AssertScript(operation: Operation, caption: Bytes, policy: FidoPolicy): seq<Event>
  {
    (if policy == UserVerification then [PinAsked(operation, caption, AssertionCeremony)] else [])
    + TouchScript(operation, caption, policy)
  }

  /** An assertion under a PIN that is already at hand. */
  function TouchScript(operation: Operation, caption: Bytes, policy: FidoPolicy): seq<Event>
  {
    [TouchAsked(operation, caption, AssertionCeremony, policy), Asserted]
  }

  function ManageScript(operation: Operation, caption: Bytes, policy: FidoPolicy): seq<Event>
  {
    [PinAsked(operation, caption, AssertionCeremony)] + TouchScript(operation, caption, policy)
  }

  function NewPassphraseScript(operation: Operation, caption: Bytes): seq<Event>
  {
    [PassphraseAsked(operation, caption, ForNew), PassphraseAsked(operation, caption, ForConfirmation), KeyDerived]
  }

  function OldPassphraseScript(operation: Operation, caption: Bytes): seq<Event>
  {
    [PassphraseAsked(operation, caption, ForUnlock), KeyDerived]
  }
}
