/**
 Refresh-token rotation under concurrent redemptions (internal/oauth/storage.go,
 and section 10.4 of RFC 6749): any number of redemptions, each going through
 Get, Rotate, CreateAccess, CreateRefresh, interleave with each other, with
 crashes and with revocations.
 */
module RefreshRotation {
  import opened GrantStorage

  type Redemption = nat

  /** How far a redemption has come. */
  datatype Phase =
    | Got(signature: string, chain: string)
    | PastRotate(chain: string)
    | PastAccess(chain: string)

  datatype State = State(
    refresh: Grants,
    redemptions: map<Redemption, Phase>,
    // Chains begun and signatures ever issued; both are random and new each time.
    issued: set<string>,
    used: set<string>,
    // What has happened: rotations by signature and by chain, refresh tokens by chain.
    rotated: multiset<string>,
    rotations: multiset<string>,
    minted: multiset<string>)

  const START := State(map[], map[], {}, {}, multiset{}, multiset{}, multiset{})

  datatype Step =
    | Issue(chain: string, signature: string, client: string, subject: string)
    | Get(r: Redemption, signature: string)
    | Rotate(r: Redemption)
    | CreateAccess(r: Redemption)
    | CreateRefresh(r: Redemption, signature: string, client: string, subject: string)
    | Crash(r: Redemption)
    // Any deletion of refresh tokens: revoking a chain, a client or a subject.
    | Delete(signatures: set<string>)

  function Fresh(chain: string, client: string, subject: string): Grant {
    Grant(chain, client, subject, true)
  }

  predicate Enabled(s: State, step: Step) {
    match step
    case Issue(chain, signature, _, _) => chain !in s.issued && signature !in s.used
    case Get(r, _) => r !in s.redemptions
    case Rotate(r) => r in s.redemptions && s.redemptions[r].Got?
    case CreateAccess(r) => r in s.redemptions && s.redemptions[r].PastRotate?
    case CreateRefresh(r, signature, _, _) => r in s.redemptions && s.redemptions[r].PastAccess? && signature !in s.used
    case Crash(r) => r in s.redemptions
    case Delete(_) => true
  }

  function Next(s: State, step: Step): State
    requires Enabled(s, step)
  {
    match step
    case Issue(chain, signature, client, subject) =>
      s.(refresh := s.refresh[signature := Fresh(chain, client, subject)],
         issued := s.issued + {chain}, used := s.used + {signature}, minted := s.minted + multiset{chain})
    case Get(r, signature) =>
      var found := Look(s.refresh, signature);
      if found.Found? then s.(redemptions := s.redemptions[r := Got(signature, found.grant.requestId)]) else s
    case Rotate(r) =>
      var signature, chain := s.redemptions[r].signature, s.redemptions[r].chain;
      if CanRotate(s.refresh, chain, signature) then
        s.(refresh := Rotated(s.refresh, chain, signature), redemptions := s.redemptions[r := PastRotate(chain)],
           rotated := s.rotated + multiset{signature}, rotations := s.rotations + multiset{chain})
      else s.(redemptions := s.redemptions - {r})
    case CreateAccess(r) => s.(redemptions := s.redemptions[r := PastAccess(s.redemptions[r].chain)])
    case CreateRefresh(r, signature, client, subject) =>
      var chain := s.redemptions[r].chain;
      s.(refresh := s.refresh[signature := Fresh(chain, client, subject)], redemptions := s.redemptions - {r},
         used := s.used + {signature}, minted := s.minted + multiset{chain})
    case Crash(r) => s.(redemptions := s.redemptions - {r})
    case Delete(signatures) => s.(refresh := s.refresh - signatures)
  }

  predicate Runs(s: State, steps: seq<Step>)
    decreases |steps|
  {
    steps == [] || (Enabled(s, steps[0]) && Runs(Next(s, steps[0]), steps[1..]))
  }

  function Final(s: State, steps: seq<Step>): State
    requires Runs(s, steps)
    decreases |steps|
  {
    if steps == [] then s else Final(Next(s, steps[0]), steps[1..])
  }

  // ----- One slot per chain --------------------------------------------------------

  /** What can yet lead to a new token pair: an active token, or a redemption past Rotate. */
  datatype Slot = Active(signature: string) | Pending(r: Redemption)

  predicate Pends(s: State, r: Redemption, chain: string) {
    r in s.redemptions && !s.redemptions[r].Got? && s.redemptions[r].chain == chain
  }

  predicate Holds(s: State, chain: string, slot: Slot) {
    match slot
    case Active(signature) => CanRotate(s.refresh, chain, signature)
    case Pending(r) => Pends(s, r, chain)
  }

  ghost predicate OneSlot(s: State) {
    forall chain, a, b :: Holds(s, chain, a) && Holds(s, chain, b) ==> a == b
  }

  ghost predicate Begun(s: State) {
    && (forall chain, slot :: Holds(s, chain, slot) ==> chain in s.issued)
    && (forall signature :: signature in s.refresh ==>
          signature in s.used && s.refresh[signature].requestId in s.issued)
  }

  ghost predicate Counted(s: State) {
    && (forall signature :: s.rotated[signature] <=
          if signature !in s.used || (signature in s.refresh && s.refresh[signature].active) then 0 else 1)
    && (forall chain :: s.minted[chain] <= s.rotations[chain] + if chain in s.issued then 1 else 0)
    && (forall chain, r :: Pends(s, r, chain) ==> s.minted[chain] <= s.rotations[chain])
  }

  ghost predicate Inv(s: State) {
    OneSlot(s) && Begun(s) && Counted(s)
  }

  /** Which slot a slot of the next state was before the step. */
  function Came(s: State, step: Step, slot: Slot): Slot
    requires Enabled(s, step)
  {
    if step.Rotate? && slot == Pending(step.r) then Active(s.redemptions[step.r].signature)
    else if step.CreateRefresh? && slot == Active(step.signature) then Pending(step.r)
    else slot
  }

  lemma SlotsOnlyMove(s: State, step: Step, chain: string, slot: Slot)
    requires Begun(s) && Enabled(s, step) && Holds(Next(s, step), chain, slot)
    ensures (step.Issue? && step.chain == chain && slot == Active(step.signature))
      || Holds(s, chain, Came(s, step, slot))
  {
  }

  lemma SlotsStayApart(s: State, step: Step, chain: string, a: Slot, b: Slot)
    requires Begun(s) && Enabled(s, step) && Holds(Next(s, step), chain, a) && Holds(Next(s, step), chain, b)
    requires Came(s, step, a) == Came(s, step, b)
    ensures a == b
  {
  }

  lemma KeepsOneSlot(s: State, step: Step)
    requires OneSlot(s) && Begun(s) && Enabled(s, step)
    ensures OneSlot(Next(s, step))
  {
    forall chain, a, b | Holds(Next(s, step), chain, a) && Holds(Next(s, step), chain, b)
      ensures a == b
    {
      SlotsOnlyMove(s, step, chain, a);
      SlotsOnlyMove(s, step, chain, b);
      if Holds(s, chain, Came(s, step, a)) && Holds(s, chain, Came(s, step, b)) {
        SlotsStayApart(s, step, chain, a, b);
      }
      hide Next, Holds, Came;
    }
  }

  lemma KeepsBegun(s: State, step: Step)
    requires Begun(s) && Enabled(s, step)
    ensures Begun(Next(s, step))
  {
    forall chain, slot | Holds(Next(s, step), chain, slot)
      ensures chain in Next(s, step).issued
    {
      SlotsOnlyMove(s, step, chain, slot);
    }
    if step.CreateRefresh? {
      assert Holds(s, s.redemptions[step.r].chain, Pending(step.r));
    }
  }

  lemma KeepsRotatedOnce(s: State, step: Step, signature: string)
    requires Begun(s) && Counted(s) && Enabled(s, step)
    ensures Next(s, step).rotated[signature] <=
      if signature !in Next(s, step).used
         || (signature in Next(s, step).refresh && Next(s, step).refresh[signature].active) then 0 else 1
  {
  }

  lemma KeepsMintedBounded(s: State, step: Step, chain: string)
    requires Inv(s) && Enabled(s, step)
    ensures var t := Next(s, step);
      && t.minted[chain] <= t.rotations[chain] + (if chain in t.issued then 1 else 0)
      && forall r :: Pends(t, r, chain) ==> t.minted[chain] <= t.rotations[chain]
  {
    var t := Next(s, step);
    assert chain !in s.issued ==> s.minted[chain] <= s.rotations[chain];
    if step.CreateRefresh? {
      assert Pends(s, step.r, s.redemptions[step.r].chain);
      assert Holds(s, s.redemptions[step.r].chain, Pending(step.r));
    } else if step.Rotate? && CanRotate(s.refresh, s.redemptions[step.r].chain, s.redemptions[step.r].signature) {
      assert Holds(s, s.redemptions[step.r].chain, Active(s.redemptions[step.r].signature));
    }
    forall r | Pends(t, r, chain)
      ensures t.minted[chain] <= t.rotations[chain]
    {
      assert Holds(t, chain, Pending(r));
      SlotsOnlyMove(s, step, chain, Pending(r));
      if Pends(s, r, chain) {
        assert Holds(s, chain, Pending(r));
      }
    }
  }

  lemma KeepsCounted(s: State, step: Step)
    requires Inv(s) && Enabled(s, step)
    ensures Counted(Next(s, step))
  {
    forall signature
      ensures Next(s, step).rotated[signature] <=
        if signature !in Next(s, step).used
           || (signature in Next(s, step).refresh && Next(s, step).refresh[signature].active) then 0 else 1
    {
      KeepsRotatedOnce(s, step, signature);
    }
    forall chain
      ensures Next(s, step).minted[chain] <=
        Next(s, step).rotations[chain] + if chain in Next(s, step).issued then 1 else 0
      ensures forall r :: Pends(Next(s, step), r, chain) ==>
        Next(s, step).minted[chain] <= Next(s, step).rotations[chain]
    {
      KeepsMintedBounded(s, step, chain);
    }
    hide Next, Enabled, Pends, OneSlot, Begun;
  }

  lemma {:induction false} RunKeepsInv(s: State, steps: seq<Step>)
    requires Inv(s) && Runs(s, steps)
    ensures Inv(Final(s, steps))
    decreases |steps|
  {
    hide OneSlot, Begun, Counted, Next, Enabled;
    if steps != [] {
      KeepsOneSlot(s, steps[0]);
      KeepsBegun(s, steps[0]);
      KeepsCounted(s, steps[0]);
      RunKeepsInv(Next(s, steps[0]), steps[1..]);
    }
  }

  /**
   After any interleaving: a chain has at most one active refresh token or
   redemption between Rotate and CreateRefresh; no refresh token was rotated
   twice; and a chain's refresh tokens number at most one more than its rotations.
   */
  lemma RotationIsSafe(steps: seq<Step>, chain: string, signature: string, a: Slot, b: Slot)
    requires Runs(START, steps)
    ensures var s := Final(START, steps);
      && (Holds(s, chain, a) && Holds(s, chain, b) ==> a == b)
      && s.rotated[signature] <= 1
      && s.minted[chain] <= 1 + s.rotations[chain]
  {
    assert Inv(START);
    RunKeepsInv(START, steps);
    hide Final, Runs, Holds, Begun;
  }

  /**
   After any interleaving a presented token is answered in one of three ways, told apart:
   not found exactly if it is not in the table; found, with its grant, if it is active;
   inactive, with its grant and so with the chain it belongs to, otherwise, and so
   whenever it has been rotated.
   */
  lemma ReplayIsSeen(steps: seq<Step>, signature: string)
    requires Runs(START, steps)
    ensures var s := Final(START, steps);
      var answer := Look(s.refresh, signature);
      && (answer == NotFound <==> signature !in s.refresh)
      && (signature in s.refresh ==>
            && answer == (if s.refresh[signature].active then Found(s.refresh[signature])
                          else Inactive(s.refresh[signature]))
            && answer.grant.requestId in s.issued
            && (s.rotated[signature] > 0 ==> answer.Inactive?))
  {
    assert Inv(START);
    RunKeepsInv(START, steps);
    hide Final, Runs, OneSlot, Holds;
  }

  predicate Deletes(step: Step, signature: string) {
    step.Delete? && signature in step.signatures
  }

  lemma {:induction false} SpentStaysSpent(s: State, steps: seq<Step>, signature: string)
    requires Begun(s) && Runs(s, steps) && forall i :: 0 <= i < |steps| ==> !Deletes(steps[i], signature)
    requires signature in s.refresh && !s.refresh[signature].active
    ensures var t := Final(s, steps);
      signature in t.refresh && t.refresh[signature] == s.refresh[signature]
    decreases |steps|
  {
    hide Holds;
    if steps != [] {
      KeepsBegun(s, steps[0]);
      var t := Next(s, steps[0]);
      assert signature in t.refresh && t.refresh[signature] == s.refresh[signature];
      hide Next, Enabled, Begun;
      SpentStaysSpent(t, steps[1..], signature);
    }
  }

  /**
   So reuse is recognised: once a redemption has rotated a token, presenting it again is
   answered with the very grant it was issued under, now inactive, until that is deleted;
   and no redemption comes of it.
   */
  lemma ReuseIsRecognised(past: seq<Step>, r: Redemption, later: seq<Step>)
    requires Runs(START, past)
    requires var s := Final(START, past);
      Enabled(s, Rotate(r)) && CanRotate(s.refresh, s.redemptions[r].chain, s.redemptions[r].signature)
    requires Runs(Next(Final(START, past), Rotate(r)), later)
    requires forall i :: 0 <= i < |later| ==> !Deletes(later[i], Final(START, past).redemptions[r].signature)
    ensures var s := Final(START, past);
      var signature := s.redemptions[r].signature;
      var t := Final(Next(s, Rotate(r)), later);
      && Look(t.refresh, signature) == Inactive(s.refresh[signature].(active := false))
      && forall again :: again !in t.redemptions ==> Next(t, Get(again, signature)) == t
  {
    assert Inv(START);
    RunKeepsInv(START, past);
    var s := Final(START, past);
    KeepsBegun(s, Rotate(r));
    hide Begun, OneSlot, Counted, Holds, Runs, Final;
    SpentStaysSpent(Next(s, Rotate(r)), later, s.redemptions[r].signature);
  }

  // ----- Revoking a chain on reuse ---------------------------------------------------

  /** What the reuse of a rotated token sets off: every refresh token of the chain goes. */
  function RevokeChain(s: State, chain: string): Step {
    Delete(set signature | signature in s.refresh && s.refresh[signature].requestId == chain)
  }

  lemma RevokeChainIsRevoke(s: State, chain: string)
    ensures Next(s, RevokeChain(s, chain)) == s.(refresh := WithoutRequest(s.refresh, chain))
  {
    assert Next(s, RevokeChain(s, chain)).refresh == WithoutRequest(s.refresh, chain);
  }

  ghost predicate Dead(s: State, chain: string) {
    forall slot :: !Holds(s, chain, slot)
  }

  ghost predicate DeadForGood(s: State, chain: string) {
    forall steps :: Runs(s, steps) ==> Dead(Final(s, steps), chain)
  }

  lemma {:induction false} DeadStaysDead(s: State, steps: seq<Step>, chain: string)
    requires Begun(s) && chain in s.issued && Dead(s, chain) && Runs(s, steps)
    ensures Dead(Final(s, steps), chain) && Final(s, steps).minted[chain] == s.minted[chain]
    decreases |steps|
  {
    if steps != [] {
      StepKeepsDead(s, steps[0], chain);
      KeepsBegun(s, steps[0]);
      hide Dead, Begun, Next, Enabled;
      DeadStaysDead(Next(s, steps[0]), steps[1..], chain);
    }
  }

  lemma StepKeepsDead(s: State, step: Step, chain: string)
    requires Begun(s) && chain in s.issued && Dead(s, chain) && Enabled(s, step)
    ensures Dead(Next(s, step), chain) && chain in Next(s, step).issued
    ensures Next(s, step).minted[chain] == s.minted[chain]
  {
    forall slot
      ensures !Holds(Next(s, step), chain, slot)
    {
      if Holds(Next(s, step), chain, slot) {
        SlotsOnlyMove(s, step, chain, slot);
      }
    }
    if step.CreateRefresh? && s.redemptions[step.r].chain == chain {
      assert Holds(s, chain, Pending(step.r));
    }
  }

  /** Some redemption is past Rotate and has yet to create its refresh token. */
  predicate InFlight(s: State, chain: string) {
    exists r :: r in s.redemptions && Pends(s, r, chain)
  }

  /** The shortest way back to life for a revoked chain. */
  function Finish(s: State, r: Redemption, signature: string): seq<Step>
    requires r in s.redemptions
  {
    (if s.redemptions[r].PastRotate? then [CreateAccess(r)] else []) + [CreateRefresh(r, signature, "", "")]
  }

  lemma FinishRevives(s: State, r: Redemption, chain: string, signature: string)
    requires Pends(s, r, chain) && signature !in s.used
    ensures Runs(s, Finish(s, r, signature))
    ensures Holds(Final(s, Finish(s, r, signature)), chain, Active(signature))
  {
    var last := CreateRefresh(r, signature, "", "");
    assert [last][1..] == [];
    if s.redemptions[r].PastRotate? {
      var t := Next(s, CreateAccess(r));
      assert Finish(s, r, signature)[1..] == [last];
      assert Runs(t, [last]) && Final(t, [last]) == Next(t, last);
    } else {
      assert Finish(s, r, signature) == [last];
      assert Runs(s, [last]) && Final(s, [last]) == Next(s, last);
    }
  }

  /**
   Revoking a chain on reuse ends it for good if and only if no redemption of it
   is between Rotate and CreateRefresh at that moment.
   */
  lemma RevocationIsFinalIff(past: seq<Step>, chain: string)
    requires Runs(START, past) && chain in Final(START, past).issued
    ensures var s := Final(START, past);
      DeadForGood(s.(refresh := WithoutRequest(s.refresh, chain)), chain) <==> !InFlight(s, chain)
  {
    assert Inv(START);
    RunKeepsInv(START, past);
    RevocationIsFinalIffFrom(Final(START, past), chain);
  }

  /**
   As the reuse of a token sets it off: the answer to the presented token names the chain,
   and revoking it ends the chain for good exactly if none of its redemptions is in flight.
   */
  lemma ReuseEndsChainIff(past: seq<Step>, signature: string)
    requires Runs(START, past) && Look(Final(START, past).refresh, signature).Inactive?
    ensures var s := Final(START, past);
      var chain := Look(s.refresh, signature).grant.requestId;
      && chain in s.issued
      && (DeadForGood(s.(refresh := WithoutRequest(s.refresh, chain)), chain) <==> !InFlight(s, chain))
  {
    ReplayIsSeen(past, signature);
    var s := Final(START, past);
    hide Final, Runs, DeadForGood, InFlight;
    RevocationIsFinalIff(past, Look(s.refresh, signature).grant.requestId);
  }

  lemma RevocationIsFinalIffFrom(s: State, chain: string)
    requires Inv(s) && chain in s.issued
    ensures DeadForGood(s.(refresh := WithoutRequest(s.refresh, chain)), chain) <==> !InFlight(s, chain)
  {
    RevokeChainIsRevoke(s, chain);
    var revoked := Next(s, RevokeChain(s, chain));
    KeepsBegun(s, RevokeChain(s, chain));
    if InFlight(s, chain) {
      var r :| r in s.redemptions && Pends(s, r, chain);
      var signature := NewSignature(s.used);
      FinishRevives(revoked, r, chain, signature);
      var steps := Finish(revoked, r, signature);
      assert Runs(revoked, steps) && Holds(Final(revoked, steps), chain, Active(signature));
      assert !Dead(Final(revoked, steps), chain);
    } else {
      assert Dead(revoked, chain);
      forall steps | Runs(revoked, steps)
        ensures Dead(Final(revoked, steps), chain)
      {
        DeadStaysDead(revoked, steps, chain);
      }
    }
  }

  lemma {:induction false} NewSignature(used: set<string>) returns (signature: string)
    ensures signature !in used && forall u :: u in used ==> |u| < |signature|
  {
    if used == {} {
      signature := "";
    } else {
      var u :| u in used;
      var longer := NewSignature(used - {u});
      signature := longer + u + "x";
    }
  }
}
