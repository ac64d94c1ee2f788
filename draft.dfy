/** Draft auto-save and restore of the work-log modal (scripts.js:379-422).
    Local storage is a map from keys to saved forms; the JSON encoding in
    between is not modelled. */
module Draft {
  import opened Wrappers
  import Decimal
  import opened WorkLog

  /** The storage key of an issue's draft; the page uses issue 47, giving
      "work_log_draft_47". */
  function DraftKey(issueId: nat): string {
    "work_log_draft_" + Decimal.FromNat(issueId)
  }

  /** The page's own key. */
  lemma DraftKeyOfPage()
    ensures DraftKey(47) == "work_log_draft_47"
  {
    assert Decimal.FromNat(4) == "4";
  }

  /** Different issues never share a draft. */
  lemma DraftKeyInjective(a: nat, b: nat)
    requires DraftKey(a) == DraftKey(b)
    ensures a == b
  {
    var prefix := "work_log_draft_";
    assert DraftKey(a)[|prefix|..] == Decimal.FromNat(a);
    assert DraftKey(b)[|prefix|..] == Decimal.FromNat(b);
  }

  /** The browser's local storage, holding at most one draft per key. */
  class DraftStorage {
    var items: map<string, WorkLogForm>

    constructor ()
      ensures items == map[]
    {
      items := map[];
    }

    function Get(key: string): Option<WorkLogForm>
      reads this
    {
      if key in items then Some(items[key]) else None
    }

    method SetItem(key: string, draft: WorkLogForm)
      modifies this
      ensures items == old(items)[key := draft]
    {
      items := items[key := draft];
    }
  }

  /** The seven inputs of the work-log modal. */
  class WorkLogModal {
    var workDescription: string
    var filesChanged: string
    var solutionApproach: string
    var testingDone: string
    var testingInstructions: string
    var blockersEncountered: string
    var timeSpent: string

    /** The values `.val()` reads from the seven inputs. */
    function Snapshot(): WorkLogForm
      reads this
    {
      WorkLogForm(workDescription, filesChanged, solutionApproach, testingDone,
        testingInstructions, blockersEncountered, timeSpent)
    }

    constructor ()
      ensures Snapshot() == WorkLogForm("", "", "", "", "", "", "")
    {
      workDescription, filesChanged, solutionApproach := "", "", "";
      testingDone, testingInstructions, blockersEncountered, timeSpent := "", "", "", "";
    }

    /** `saveDraft`: the current values, unvalidated, overwrite the issue's
        draft; no other key and no input changes. */
    method SaveDraft(storage: DraftStorage, issueId: nat)
      modifies storage
      ensures storage.items == old(storage.items)[DraftKey(issueId) := Snapshot()]
    {
      storage.SetItem(DraftKey(issueId), Snapshot());
    }

    /** The first half of `loadDraft`, run when the modal opens: the issue's
        draft as stored at that moment, if any (scripts.js:395-397). The
        Restore dialog is then shown; what it does with its answer is
        `ApplyDraft`, which may run much later. */
    method LoadDraft(storage: DraftStorage, issueId: nat) returns (draft: Option<WorkLogForm>)
      ensures draft.Some? <==> DraftKey(issueId) in storage.items
      ensures draft.Some? ==> draft.value == storage.items[DraftKey(issueId)]
    {
      draft := storage.Get(DraftKey(issueId));
    }

    /** The second half, when the user chooses Restore Draft: each of the
        seven inputs receives its value from the draft read at open
        (scripts.js:408-416); storage is not consulted again. */
    method ApplyDraft(draft: WorkLogForm)
      modifies this
      ensures Snapshot() == draft
    {
      workDescription := draft.workDescription;
      filesChanged := draft.filesChanged;
      solutionApproach := draft.solutionApproach;
      testingDone := draft.testingDone;
      testingInstructions := draft.testingInstructions;
      blockersEncountered := draft.blockersEncountered;
      timeSpent := draft.timeSpent;
    }
  }

  /** Opening the modal reads the draft and starts the auto-save at once
      (scripts.js:364-372); if the Restore dialog is still open when the
      first auto-save fires, that save overwrites the draft with the inputs
      as they stand, and the later Restore still applies the draft read at
      open. The inputs then hold the old draft while storage holds the
      overwritten values, until the next auto-save. */
  method RestoreAfterAutoSave(modal: WorkLogModal, storage: DraftStorage, issueId: nat)
      returns (draft: Option<WorkLogForm>)
    modifies modal, storage
    ensures draft.Some? <==> DraftKey(issueId) in old(storage.items)
    ensures draft.Some? ==> modal.Snapshot() == old(storage.items)[DraftKey(issueId)]
    ensures draft.None? ==> modal.Snapshot() == old(modal.Snapshot())
    ensures storage.items == old(storage.items)[DraftKey(issueId) := old(modal.Snapshot())]
  {
    draft := modal.LoadDraft(storage, issueId);
    modal.SaveDraft(storage, issueId);
    if draft.Some? {
      modal.ApplyDraft(draft.value);
    }
  }

  /** Saving and later restoring brings back exactly the values held at save
      time, empty strings included, whatever was typed in between and
      whatever other issues saved meanwhile. */
  method SaveEditRestore(modal: WorkLogModal, storage: DraftStorage, issueId: nat,
                         typed: WorkLogForm, otherIssue: nat, otherDraft: WorkLogForm)
    requires otherIssue != issueId
    modifies modal, storage
    ensures modal.Snapshot() == old(modal.Snapshot())
  {
    modal.SaveDraft(storage, issueId);
    ghost var saved := modal.Snapshot();
    modal.workDescription, modal.filesChanged := typed.workDescription, typed.filesChanged;
    modal.solutionApproach, modal.testingDone := typed.solutionApproach, typed.testingDone;
    modal.testingInstructions, modal.blockersEncountered := typed.testingInstructions, typed.blockersEncountered;
    modal.timeSpent := typed.timeSpent;
    storage.SetItem(DraftKey(otherIssue), otherDraft);
    if DraftKey(otherIssue) == DraftKey(issueId) {
      DraftKeyInjective(otherIssue, issueId);
    }
    var draft := modal.LoadDraft(storage, issueId);
    modal.ApplyDraft(draft.value);
  }

  /** Saving one issue's draft leaves every other issue's draft as it was. */
  lemma SaveKeepsOtherIssues(items: map<string, WorkLogForm>, issueId: nat, draft: WorkLogForm, other: nat)
    requires other != issueId
    ensures DraftKey(other) in items[DraftKey(issueId) := draft] <==> DraftKey(other) in items
    ensures DraftKey(other) in items ==> items[DraftKey(issueId) := draft][DraftKey(other)] == items[DraftKey(other)]
  {
    if DraftKey(other) == DraftKey(issueId) {
      DraftKeyInjective(other, issueId);
    }
  }
}
