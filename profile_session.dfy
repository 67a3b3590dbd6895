/** The editing session of the profile page (src/components/Profile.tsx:35-137):
    the state the component keeps with `useState`, the effect that resets it
    when a new member record arrives, and the handlers that start, change,
    cancel and save an edit. The awaited calls of a save (sending the draft
    and refreshing the member) are not run here: their outcome is a
    parameter. */
module ProfileSession {
  import opened Wrappers
  import opened Json
  import opened ProfilePaths

  /** The message shown when a save fails. */
  const SaveFailedMessage: string := "Unable to save your changes. Please try again."

  /** How the awaited part of a save ended: both calls succeeded, sending the
      draft was rejected, or the draft was accepted but refreshing the member
      was rejected. */
  datatype SaveOutcome = Saved | UpdateRejected | RefreshRejected

  /** A member record as the page holds it: an object, or `null` while none
      is loaded. */
  predicate IsRecord(v: Value)
  {
    v.Null? || v.Obj?
  }

  class Session {
    /** The `member` prop: the last record received from the server. */
    var member: Value
    var isEditing: bool
    /** The draft being edited. */
    var formData: Value
    var isSaving: bool
    var saveError: Option<string>

    predicate Valid()
      reads this
    {
      IsRecord(member) && IsRecord(formData) &&
      (saveError.Some? ==> saveError.value == SaveFailedMessage)
    }

    /** `displayMember`: the draft while editing, the member otherwise. */
    function DisplayMember(): (r: Value)
      reads this
      ensures Valid() ==> IsRecord(r)
      ensures !isEditing ==> r == member
      ensures isEditing ==> r == formData
    {
      if isEditing then formData else member
    }

    /** The first render: the draft starts as the member, nothing is being
        edited or saved, and there is no error. */
    constructor(m: Value)
      requires IsRecord(m)
      ensures Valid()
      ensures member == m && formData == m
      ensures !isEditing && !isSaving && saveError.None?
    {
      member := m;
      isEditing := false;
      formData := m;
      isSaving := false;
      saveError := None;
    }

    /** A new member record arrives and the effect on `member` runs: the
        draft is replaced, editing stops and the error is cleared. */
    method MemberChanged(m: Value)
      requires Valid() && IsRecord(m)
      modifies this
      ensures Valid()
      ensures member == m && formData == m
      ensures !isEditing && saveError.None?
      ensures isSaving == old(isSaving)
      ensures DisplayMember() == m
    {
      member := m;
      formData := m;
      isEditing := false;
      saveError := None;
    }

    /** `startEditing`: the draft restarts from the member. A previous save
        error stays. */
    method StartEditing()
      requires Valid()
      modifies this
      ensures Valid()
      ensures isEditing && formData == member
      ensures member == old(member) && isSaving == old(isSaving) && saveError == old(saveError)
      ensures DisplayMember() == member
    {
      formData := member;
      isEditing := true;
    }

    /** `handleCancelEdit`: the draft is discarded, editing stops and the
        error is cleared. */
    method CancelEdit()
      requires Valid()
      modifies this
      ensures Valid()
      ensures !isEditing && formData == member && saveError.None?
      ensures member == old(member) && isSaving == old(isSaving)
      ensures DisplayMember() == member
    {
      formData := member;
      isEditing := false;
      saveError := None;
    }

    /** `handleFieldChange`: the draft takes the value at the path. When the
        updater throws, the draft is left as it was and the error is
        returned. */
    method FieldChange(path: FieldPath, x: Value) returns (failure: Option<PathError>)
      requires Valid()
      modifies this
      ensures Valid()
      ensures SetPath(old(formData), path, x).Ok? ==>
                formData == SetPath(old(formData), path, x).value && failure.None?
      ensures SetPath(old(formData), path, x).Err? ==>
                formData == old(formData) && failure == Some(SetPath(old(formData), path, x).error)
      ensures member == old(member) && isEditing == old(isEditing)
      ensures isSaving == old(isSaving) && saveError == old(saveError)
    {
      var r := HandleFieldChange(formData, path, x);
      match r
      case Ok(updated) =>
        formData := updated;
        failure := None;
      case Err(e) =>
        failure := Some(e);
    }

    /** The synchronous start of `handleSave`: nothing happens without a
        draft; otherwise saving starts and the error is cleared. */
    method BeginSave() returns (started: bool)
      requires Valid()
      modifies this
      ensures Valid()
      ensures started <==> !formData.Null?
      ensures started ==> isSaving && saveError.None?
      ensures !started ==> isSaving == old(isSaving) && saveError == old(saveError)
      ensures member == old(member) && formData == old(formData) && isEditing == old(isEditing)
    {
      if formData.Null? {
        return false;
      }
      isSaving := true;
      saveError := None;
      started := true;
    }

    /** The end of `handleSave` once its awaited calls have settled: an
        accepted draft ends editing, any rejection sets the error, and saving
        is over in every case. */
    method CompleteSave(outcome: SaveOutcome)
      requires Valid()
      modifies this
      ensures Valid()
      ensures !isSaving
      ensures isEditing == (old(isEditing) && outcome == UpdateRejected)
      ensures saveError == if outcome == Saved then old(saveError) else Some(SaveFailedMessage)
      ensures member == old(member) && formData == old(formData)
    {
      if outcome != UpdateRejected {
        isEditing := false;
      }
      if outcome != Saved {
        saveError := Some(SaveFailedMessage);
      }
      isSaving := false;
    }

    /** `handleSave` from submit to `finally`. Without a draft nothing
        changes. Otherwise saving is over afterwards, the error is set
        exactly when a call was rejected, and editing stops unless the draft
        itself was rejected, in which case the draft is still shown. */
    method Save(outcome: SaveOutcome) returns (started: bool)
      requires Valid()
      modifies this
      ensures Valid()
      ensures started <==> !old(formData).Null?
      ensures !started ==> isSaving == old(isSaving) && saveError == old(saveError) && isEditing == old(isEditing)
      ensures started ==> !isSaving
      ensures started ==> (saveError.Some? <==> outcome != Saved)
      ensures started ==> isEditing == (old(isEditing) && outcome == UpdateRejected)
      ensures member == old(member) && formData == old(formData)
      ensures started && outcome != UpdateRejected ==> DisplayMember() == member
    {
      started := BeginSave();
      if started {
        CompleteSave(outcome);
      }
    }
  }
}
