/** A task card: its edit dialog's fields, the save rule and the delete action. */
module TaskCard {
  import opened Wrappers
  import opened Text
  import opened KanbanTypes
  import opened UseTasks

  /** The description field's starting text: the task's description, or empty when it has none. */
  function InitialDescription(description: Option<string>): (text: string)
    ensures description.Some? ==> text == description.value
    ensures description.None? ==> text == ""
  {
    description.GetOr("")
  }

  /**
   * The update a save sends: the trimmed title and the trimmed description, the latter as
   * null when it is blank; no update at all when the title is blank.
   */
  function SavePatch(editTitle: string, editDescription: string): (p: Option<TaskPatch>)
    ensures p.None? <==> AllWhitespace(editTitle)
    ensures p.Some? ==>
      && p.value.title == Some(Trim(editTitle)) && Trim(editTitle) != ""
      && p.value.description == Some(if AllWhitespace(editDescription) then None else Some(Trim(editDescription)))
      && p.value.id.None? && p.value.status.None? && p.value.position.None?
      && p.value.createdAt.None? && p.value.updatedAt.None?
  {
    TrimEmptyIff(editTitle);
    TrimEmptyIff(editDescription);
    if Trim(editTitle) == "" then None
    else
      var description := Trim(editDescription);
      Some(EmptyPatch.(title := Some(Trim(editTitle)), description := Some(if description == "" then None else Some(description))))
  }

  /** Saving the values a save produced produces the same update again: the normalisation is idempotent. */
  lemma SavePatchIdempotent(editTitle: string, editDescription: string)
    requires SavePatch(editTitle, editDescription).Some?
    ensures var p := SavePatch(editTitle, editDescription).value;
      SavePatch(p.title.value, InitialDescription(p.description.value)) == Some(p)
  {
    TrimIdempotent(editTitle);
    TrimIdempotent(editDescription);
    TrimEmptyIff(editDescription);
    TrimEmptyIff(Trim(editDescription));
    TrimEmptyIff("");
  }

  /** An accepted save changes the task's title and description and nothing else. */
  lemma SaveChangesOnlyText(t: Task, editTitle: string, editDescription: string)
    requires SavePatch(editTitle, editDescription).Some?
    ensures var r := Merge(t, SavePatch(editTitle, editDescription).value);
      && r.title == Trim(editTitle)
      && r.description == (if AllWhitespace(editDescription) then None else Some(Trim(editDescription)))
      && r == t.(title := r.title, description := r.description)
  {
  }

  class TaskCard {
    const task: Task
    var isEditing: bool
    var editTitle: string
    var editDescription: string

    /** A card starts closed, with the edit fields holding the task's own title and description. */
    constructor (task: Task)
      ensures this.task == task && !isEditing
      ensures editTitle == task.title && editDescription == InitialDescription(task.description)
    {
      this.task := task;
      isEditing := false;
      editTitle := task.title;
      editDescription := InitialDescription(task.description);
    }

    /** The Edit menu item opens the editor. */
    method StartEditing()
      modifies this`isEditing
      ensures isEditing
    {
      isEditing := true;
    }

    /**
     * `handleSave`: with a non-blank title, send the update for this card's task and close the
     * editor; with a blank one, send nothing and leave the editor as it is.
     */
    method HandleSave() returns (update: Option<(string, TaskPatch)>)
      modifies this`isEditing
      ensures SavePatch(editTitle, editDescription).None? ==> update.None? && isEditing == old(isEditing)
      ensures SavePatch(editTitle, editDescription).Some? ==>
        update == Some((task.id, SavePatch(editTitle, editDescription).value)) && !isEditing
    {
      var patch := SavePatch(editTitle, editDescription);
      if patch.None? {
        return None;
      }
      update := Some((task.id, patch.value));
      isEditing := false;
    }

    /** The Delete menu item asks to delete this card's own task. */
    method HandleDelete() returns (id: string)
      ensures id == task.id
    {
      id := task.id;
    }
  }
}
