/** What the scripts of the protector mean for the user. */
module Prompts {
  import opened Bytes
  import opened Policy
  import opened Envelopes
  import opened Sessions
  import opened Backends
  import opened Protector

  /** How often a passphrase key was derived. */
  function Derivations(log: seq<Event>): nat
  {
    if log == [] then 0 else Derivations(log[..|log| - 1]) + if log[|log| - 1] == KeyDerived then 1 else 0
  }

  lemma {:induction false} DerivationsAdd(a: seq<Event>, b: seq<Event>)
    ensures Derivations(a + b) == Derivations(a) + Derivations(b)
  {
    if b == [] {
      assert a + b == a;
    } else {
      DerivationsAdd(a, b[..|b| - 1]);
      assert (a + b)[..|a + b| - 1] == a + b[..|b| - 1];
    }
  }

  lemma {:induction false} DerivationsOfPart(a: seq<Event>, b: seq<Event>)
    requires a <= b
    ensures Derivations(a) <= Derivations(b)
  {
    assert b == a + b[|a|..];
    DerivationsAdd(a, b[|a|..]);
  }

  lemma FollowedDerivations(before: seq<Event>, after: seq<Event>, script: seq<Event>, ok: bool)
    requires Followed(before, after, script, ok)
    ensures Derivations(after) <= Derivations(before) + Derivations(script)
  {
    DerivationsOfPart(after, before + script);
    DerivationsAdd(before, script);
  }

  lemma ScriptDerivations(operation: Operation, caption: Bytes, policy: FidoPolicy)
    ensures Derivations(EnrollScript(operation, caption, policy)) == 0
    ensures Derivations(TouchScript(operation, caption, policy)) == 0
    ensures Derivations(AssertScript(operation, caption, policy)) == 0
    ensures Derivations(NewPassphraseScript(operation, caption)) == 1
    ensures Derivations(OldPassphraseScript(operation, caption)) == 1
  {
    var pin := PinAsked(operation, caption, AssertionCeremony);
    OneEvent(pin);
    OneEvent(TouchAsked(operation, caption, AssertionCeremony, policy));
    OneEvent(Asserted);
    OneEvent(PinAsked(operation, caption, EnrollmentCeremony));
    OneEvent(TouchAsked(operation, caption, EnrollmentCeremony, policy));
    OneEvent(KeyDerived);
    OneEvent(PassphraseAsked(operation, caption, ForNew));
    OneEvent(PassphraseAsked(operation, caption, ForConfirmation));
    OneEvent(PassphraseAsked(operation, caption, ForUnlock));
    DerivationsAdd([TouchAsked(operation, caption, AssertionCeremony, policy)], [Asserted]);
    DerivationsAdd([PinAsked(operation, caption, EnrollmentCeremony)], [TouchAsked(operation, caption, EnrollmentCeremony, policy)]);
    DerivationsAdd([pin], TouchScript(operation, caption, policy));
    DerivationsAdd([], TouchScript(operation, caption, policy));
    DerivationsAdd([PassphraseAsked(operation, caption, ForNew)], [PassphraseAsked(operation, caption, ForConfirmation)]);
    DerivationsAdd([PassphraseAsked(operation, caption, ForNew), PassphraseAsked(operation, caption, ForConfirmation)], [KeyDerived]);
    DerivationsAdd([PassphraseAsked(operation, caption, ForUnlock)], [KeyDerived]);
    hide Derivations;
    assert TouchScript(operation, caption, policy) == [TouchAsked(operation, caption, AssertionCeremony, policy)] + [Asserted];
    assert EnrollScript(operation, caption, policy)
        == [PinAsked(operation, caption, EnrollmentCeremony)] + [TouchAsked(operation, caption, EnrollmentCeremony, policy)];
    assert OldPassphraseScript(operation, caption) == [PassphraseAsked(operation, caption, ForUnlock)] + [KeyDerived];
    assert [PassphraseAsked(operation, caption, ForNew), PassphraseAsked(operation, caption, ForConfirmation)]
        == [PassphraseAsked(operation, caption, ForNew)] + [PassphraseAsked(operation, caption, ForConfirmation)];
    assert NewPassphraseScript(operation, caption)
        == [PassphraseAsked(operation, caption, ForNew), PassphraseAsked(operation, caption, ForConfirmation)] + [KeyDerived];
  }

  lemma OneEvent(e: Event)
    ensures Derivations([e]) == if e == KeyDerived then 1 else 0
    ensures Derivations([]) == 0
  {
    assert [e][..0] == [];
  }

  /** No enrollment derives more than one passphrase key, undone or not. */
  lemma EnrollmentDerivesOnce(before: seq<Event>, after: seq<Event>, policy: RecipientPolicy, operation: Operation,
                              caption: Bytes, ok: bool)
    requires FollowedOrUndone(before, after, EnrollmentScript(policy, operation, caption), UndoScript(policy, caption), ok)
    ensures Derivations(after) <= Derivations(before) + 1
  {
    var script, undo := EnrollmentScript(policy, operation, caption), UndoScript(policy, caption);
    EnrollmentScriptDerivations(policy, operation, caption);
    hide Derivations, EnrollmentScript, UndoScript;
    if ok {
      FollowedDerivations(before, after, script, true);
    } else {
      var k :| 0 <= k <= |script| && before + script[..k] <= after <= before + script[..k] + undo;
      DerivationsOfPart(script[..k], script);
      DerivationsAdd(before, script[..k]);
      FollowedDerivations(before + script[..k], after, undo, false);
    }
  }

  lemma EnrollmentScriptDerivations(policy: RecipientPolicy, operation: Operation, caption: Bytes)
    ensures Derivations(EnrollmentScript(policy, operation, caption)) <= 1
    ensures Derivations(UndoScript(policy, caption)) == 0
  {
    OneEvent(KeyDerived);
    var f := match policy
      case FidoOnly(f) => f
      case ManagedFido(f) => f
      case FidoAndPassphrasePolicy(f) => f
      case _ => Presence;
    ScriptDerivations(operation, caption, f);
    ScriptDerivations(RetireManagedRecipient, caption, f);
    hide EnrollScript, TouchScript, AssertScript, NewPassphraseScript, Derivations;
    var enroll, assertion := EnrollScript(operation, caption, f), AssertScript(operation, caption, f);
    DerivationsAdd(enroll, assertion);
    DerivationsAdd(enroll, TouchScript(operation, caption, f));
    DerivationsAdd(enroll + assertion, NewPassphraseScript(operation, caption));
  }

  /** Nor does an unlock or a rewrap. */
  lemma UnlockDerivesOnce(before: seq<Event>, after: seq<Event>, r: RecipientRecord, ok: bool)
    requires Followed(before, after, UnlockScript(r), ok) || Followed(before, after, RewrapScript(r), ok)
    ensures Derivations(after) <= Derivations(before) + 1
  {
    OneEvent(KeyDerived);
    var f := if r.UsesCredential() then AssertedPolicy(r) else Presence;
    ScriptDerivations(Unlock, r.caption, f);
    ScriptDerivations(RewrapPassphrase, r.caption, f);
    hide AssertScript, OldPassphraseScript, NewPassphraseScript, Derivations, Followed;
    var first := if r.UsesCredential() then AssertScript(Unlock, r.caption, f) else [];
    var second := if r.UsesPassphrase() then OldPassphraseScript(Unlock, r.caption) else [];
    DerivationsAdd(first, second);
    first := if r.FidoAndPassphrase? then AssertScript(RewrapPassphrase, r.caption, f) else [];
    DerivationsAdd(first, NewPassphraseScript(RewrapPassphrase, r.caption));
    if Followed(before, after, UnlockScript(r), ok) {
      FollowedDerivations(before, after, UnlockScript(r), ok);
    } else {
      FollowedDerivations(before, after, RewrapScript(r), ok);
    }
  }

  /** Whenever the user is asked for a passphrase, the authenticator has already answered. */
  ghost predicate PassphraseLast(before: seq<Event>, after: seq<Event>)
  {
    forall i | |before| <= i < |after| && after[i].PassphraseAsked? :: exists j | |before| <= j < i :: after[j] == Asserted
  }

  lemma PassphraseLastIn(before: seq<Event>, after: seq<Event>, first: seq<Event>, second: seq<Event>, ok: bool)
    requires Followed(before, after, first + second, ok)
    requires first != [] && first[|first| - 1] == Asserted
    requires forall i | 0 <= i < |first| :: !first[i].PassphraseAsked?
    ensures PassphraseLast(before, after)
  {
    var n := |before|;
    forall i | n <= i < |after| && after[i].PassphraseAsked?
      ensures exists j | n <= j < i :: after[j] == Asserted
    {
      assert after[i] == (before + (first + second))[i] == (first + second)[i - n];
      assert i - n >= |first|;
      var j := n + |first| - 1;
      assert after[j] == (before + (first + second))[j] == first[|first| - 1];
    }
  }

  /** A combined route never asks for the passphrase before the security key has answered. */
  lemma CombinedAsksPassphraseLast(before: seq<Event>, after: seq<Event>, r: RecipientRecord, operation: Operation, ok: bool)
    requires r.FidoAndPassphrase?
    requires Followed(before, after, UnlockScript(r), ok) || Followed(before, after, RewrapScript(r), ok)
             || Followed(before, after, EnrollmentScript(FidoAndPassphrasePolicy(r.policy), operation, r.caption), ok)
    ensures PassphraseLast(before, after)
  {
    if Followed(before, after, UnlockScript(r), ok) {
      PassphraseLastIn(before, after, AssertScript(Unlock, r.caption, r.policy), OldPassphraseScript(Unlock, r.caption), ok);
    } else if Followed(before, after, RewrapScript(r), ok) {
      PassphraseLastIn(before, after, AssertScript(RewrapPassphrase, r.caption, r.policy),
                       NewPassphraseScript(RewrapPassphrase, r.caption), ok);
    } else {
      PassphraseLastIn(before, after, EnrollScript(operation, r.caption, r.policy) + AssertScript(operation, r.caption, r.policy),
                       NewPassphraseScript(operation, r.caption), ok);
    }
  }

  /** An unlock asks for a PIN only under user verification; and then an unlock that gets its answers has asked for one. */
  lemma PinMeansVerification(before: seq<Event>, after: seq<Event>, r: RecipientRecord, ok: bool)
    requires Followed(before, after, UnlockScript(r), ok)
    ensures (exists i | |before| <= i < |after| :: after[i].PinAsked?)
            ==> r.UsesCredential() && AssertedPolicy(r) == UserVerification
    ensures ok && r.UsesCredential() && AssertedPolicy(r) == UserVerification
            ==> exists i | |before| <= i < |after| :: after[i].PinAsked?
  {
    var script := UnlockScript(r);
    assert forall i | |before| <= i < |after| :: after[i] == (before + script)[i] == script[i - |before|];
    if ok && r.UsesCredential() && AssertedPolicy(r) == UserVerification {
      assert script[0].PinAsked?;
      assert after[|before|] == script[0];
    }
  }
}
