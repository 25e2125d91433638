/** A fee-slip batch (`oe.feeslip.run`): a record with a workflow state that owns
    a collection of fee slips and moves them through their own states.

    The batch's slips are kept as the sequence of their states; the framework's
    record store is not modelled. The slip-level actions `action_feeslip_done`
    and `action_feeslip_paid` belong to `oe.feeslip`, which is not part of this
    model: they are assumed to set exactly the slips they act on to `done` and
    `paid` respectively and to leave every other slip alone. */
module FeeslipBatch {

  /** The batch's `state` selection. */
  datatype RunState = Draft | Verify | Close | Paid

  /** The state of one `oe.feeslip`. */
  datatype SlipState = SlipDraft | SlipDone | SlipCancel | SlipPaid

  /** The two exception kinds the batch raises. */
  datatype Error = ValidationError(message: string) | UserError(message: string)

  datatype Outcome = Pass | Fail(error: Error)

  const PaidSlipMessage := "You cannot reset a batch to draft if some of the feeslips have already been paid."
  const BatchNotDraftMessage := "You cannot delete a feeslip batch which is not draft!"
  const SlipNotDraftMessage := "You cannot delete a feeslip which is not draft or cancelled!"

  /** The selection key stored for each batch state. */
  function StateName(s: RunState): string
  {
    match s
    case Draft => "draft"
    case Verify => "verify"
    case Close => "close"
    case Paid => "paid"
  }

  /** Python's `needle in hay` on two strings: a substring test. */
  predicate IsSubstring(needle: string, hay: string)
    decreases |hay|
  {
    needle <= hay || (|hay| > 0 && IsSubstring(needle, hay[1..]))
  }

  /** The delete guard writes `state not in ('draft')`, which tests against the
      string "draft", not a one-element tuple. For the four declared states the
      substring test picks out exactly the draft state. */
  lemma StateInDraftLiteral(s: RunState)
    ensures IsSubstring(StateName(s), "draft") <==> s == Draft
  {
    match s
    case Draft =>
    case Verify =>
    case Close =>
      assert "close"[0] != "draft"[0];
      assert !IsSubstring("close", "raft");
    case Paid =>
      assert "paid"[0] != "draft"[0];
      assert "paid"[0] != "raft"[0];
      assert !IsSubstring("paid", "aft");
  }

  /** Every slip's state lies in `allowed`. */
  function AllIn(slips: seq<SlipState>, allowed: set<SlipState>): (r: bool)
    ensures r <==> forall i :: 0 <= i < |slips| ==> slips[i] in allowed
  {
    if slips == [] then true else slips[0] in allowed && AllIn(slips[1..], allowed)
  }

  /** `_are_feeslips_ready`: every slip is done or cancelled (vacuously so for
      a batch without slips). */
  function AreFeeslipsReady(slips: seq<SlipState>): (r: bool)
    ensures r <==> forall i :: 0 <= i < |slips| ==> slips[i] == SlipDone || slips[i] == SlipCancel
  {
    AllIn(slips, {SlipDone, SlipCancel})
  }

  /** `_compute_state_change`: a draft batch that has slips becomes confirmed;
      any other batch keeps its state. */
  function StateChange(state: RunState, slips: seq<SlipState>): (r: RunState)
    ensures state != Draft ==> r == state
    ensures r == Draft <==> state == Draft && slips == []
    ensures r == Verify || r == state
  {
    if state == Draft && |slips| > 0 then Verify else state
  }

  /** `_unlink_if_draft_or_cancel`: deleting is refused, with the batch-level
      message first, unless the batch is draft and no slip is outside
      {draft, cancel}. */
  function UnlinkCheck(state: RunState, slips: seq<SlipState>): (r: Outcome)
    ensures r == Fail(UserError(BatchNotDraftMessage)) <==> state != Draft
    ensures r == Fail(UserError(SlipNotDraftMessage)) <==>
      state == Draft && exists i :: 0 <= i < |slips| && slips[i] != SlipDraft && slips[i] != SlipCancel
    ensures r == Pass <==>
      state == Draft && forall i :: 0 <= i < |slips| ==> slips[i] == SlipDraft || slips[i] == SlipCancel
  {
    StateInDraftLiteral(state);
    if !IsSubstring(StateName(state), "draft") then Fail(UserError(BatchNotDraftMessage))
    else if !AllIn(slips, {SlipDraft, SlipCancel}) then Fail(UserError(SlipNotDraftMessage))
    else Pass
  }

  /** The slips after `action_validate` marks every slip outside {draft, cancel}
      as done. */
  function ValidatedSlips(slips: seq<SlipState>): (r: seq<SlipState>)
  {
    seq(|slips|, i requires 0 <= i < |slips| =>
      if slips[i] == SlipDraft || slips[i] == SlipCancel then slips[i] else SlipDone)
  }

  /** A slip sequence of length `n` all in state `s`. */
  function Uniform(n: nat, s: SlipState): (r: seq<SlipState>)
    ensures |r| == n && forall i :: 0 <= i < n ==> r[i] == s
  {
    seq(n, _ => s)
  }

  /** Validation closes the batch exactly when no slip was left in draft. */
  lemma ValidatedReadyIffNoDraft(slips: seq<SlipState>)
    ensures AreFeeslipsReady(ValidatedSlips(slips)) <==> SlipDraft !in slips
  {
    var v := ValidatedSlips(slips);
    if SlipDraft in slips {
      var i :| 0 <= i < |slips| && slips[i] == SlipDraft;
      assert v[i] == SlipDraft;
    }
  }

  /** Validation changes only slips outside {draft, cancel}, and leaves nothing
      outside {draft, cancel, done}. */
  lemma ValidatedSlipsShape(slips: seq<SlipState>)
    ensures |ValidatedSlips(slips)| == |slips|
    ensures forall i :: 0 <= i < |slips| && (slips[i] == SlipDraft || slips[i] == SlipCancel) ==>
      ValidatedSlips(slips)[i] == slips[i]
    ensures SlipPaid !in ValidatedSlips(slips)
  {
  }

  /** A batch that was successfully reset to draft may be deleted. */
  lemma ResetBatchIsDeletable(n: nat)
    ensures UnlinkCheck(Draft, Uniform(n, SlipDraft)) == Pass
  {
  }

  /** Once a non-empty batch is paid, it can no longer be reset to draft. */
  lemma PaidBatchCannotBeReset(n: nat)
    requires n > 0
    ensures SlipPaid in Uniform(n, SlipPaid)
  {
    assert Uniform(n, SlipPaid)[0] == SlipPaid;
  }

  /** `_compute_state_change` is idempotent. */
  lemma StateChangeIdempotent(state: RunState, slips: seq<SlipState>)
    ensures StateChange(StateChange(state, slips), slips) == StateChange(state, slips)
  {
  }

  /** One `oe.feeslip.run` record: its workflow state and the states of the
      slips it owns, updated in place by the actions below. */
  class FeeslipRun {
    var state: RunState
    var slips: seq<SlipState>

    /** A new batch is draft and has no slips. */
    constructor ()
      ensures state == Draft && slips == []
    {
      state := Draft;
      slips := [];
    }

    /** `_compute_feeslip_count`. */
    method FeeslipCount() returns (n: nat)
      ensures n == |slips|
    {
      n := |slips|;
    }

    /** `_compute_state_change`, run explicitly after the slips change. */
    method ComputeStateChange()
      modifies this`state
      ensures state == StateChange(old(state), slips)
    {
      if state == Draft && |slips| > 0 {
        state := Verify;
      }
    }

    /** A slip joins the batch; the computed state is then brought up to date. */
    method AttachSlip(s: SlipState)
      modifies this
      ensures slips == old(slips) + [s]
      ensures state == (if old(state) == Draft then Verify else old(state))
    {
      slips := slips + [s];
      ComputeStateChange();
    }

    /** `action_draft`: refused with a validation error, changing nothing, when
        a slip is paid; otherwise the batch and every slip return to draft. */
    method ActionDraft() returns (r: Outcome)
      modifies this
      ensures SlipPaid in old(slips) ==>
        r == Fail(ValidationError(PaidSlipMessage)) && state == old(state) && slips == old(slips)
      ensures SlipPaid !in old(slips) ==>
        r == Pass && state == Draft && slips == Uniform(|old(slips)|, SlipDraft)
    {
      if SlipPaid in slips {
        return Fail(ValidationError(PaidSlipMessage));
      }
      state := Draft;
      slips := Uniform(|slips|, SlipDraft);
      r := Pass;
    }

    /** `action_open`: confirmed, from any state. */
    method ActionOpen()
      modifies this`state
      ensures state == Verify
    {
      state := Verify;
    }

    /** `action_close`: closed when every slip is done or cancelled; otherwise
        nothing changes and no error is raised. */
    method ActionClose()
      modifies this`state
      ensures AreFeeslipsReady(slips) ==> state == Close
      ensures !AreFeeslipsReady(slips) ==> state == old(state)
    {
      if AreFeeslipsReady(slips) {
        state := Close;
      }
    }

    /** `action_paid`: every slip is paid, then the batch is paid, from any
        state. */
    method ActionPaid()
      modifies this
      ensures slips == Uniform(|old(slips)|, SlipPaid)
      ensures state == Paid
    {
      slips := Uniform(|slips|, SlipPaid);
      state := Paid;
    }

    /** `action_validate`: the slips outside {draft, cancel} are marked done,
        then closing is attempted, which succeeds exactly when no slip is
        draft. */
    method ActionValidate()
      modifies this
      ensures slips == ValidatedSlips(old(slips))
      ensures SlipDraft !in old(slips) ==> state == Close
      ensures SlipDraft in old(slips) ==> state == old(state)
    {
      slips := ValidatedSlips(slips);
      ValidatedReadyIffNoDraft(old(slips));
      ActionClose();
    }
  }

  /** A non-empty batch that has been paid can no longer be reset to draft:
      `action_draft` refuses it and the batch stays paid. */
  method PayThenReset(b: FeeslipRun) returns (r: Outcome)
    requires |b.slips| > 0
    modifies b
    ensures r == Fail(ValidationError(PaidSlipMessage)) && b.state == Paid
    ensures b.slips == Uniform(|old(b.slips)|, SlipPaid)
  {
    b.ActionPaid();
    PaidBatchCannotBeReset(|b.slips|);
    r := b.ActionDraft();
  }
}
