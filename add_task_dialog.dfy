/** The dialog that collects a new task's title and description. */
module AddTaskDialog {
  import opened Wrappers
  import opened Text

  /** The Add Task button is disabled exactly when the title is blank. */
  function SubmitDisabled(title: string): (disabled: bool)
    ensures disabled <==> AllWhitespace(title)
  {
    TrimEmptyIff(title);
    Trim(title) == ""
  }

  /** What a submit hands on: the trimmed title, never empty, and the trimmed description; nothing when the title is blank. */
  function Submission(title: string, description: string): (s: Option<(string, string)>)
    ensures s.None? <==> SubmitDisabled(title)
    ensures s.Some? ==> s.value.0 == Trim(title) && s.value.0 != "" && s.value.1 == Trim(description)
  {
    if Trim(title) == "" then None else Some((Trim(title), Trim(description)))
  }

  class Dialog {
    var title: string
    var description: string

    constructor ()
      ensures title == "" && description == ""
    {
      title := "";
      description := "";
    }

    /** `handleSubmit`: hand on the trimmed fields and clear them, unless the title is blank. */
    method HandleSubmit() returns (submitted: Option<(string, string)>)
      modifies this
      ensures submitted == Submission(old(title), old(description))
      ensures submitted.None? ==> title == old(title) && description == old(description)
      ensures submitted.Some? ==> title == "" && description == ""
    {
      if Trim(title) == "" {
        return None;
      }
      submitted := Some((Trim(title), Trim(description)));
      title := "";
      description := "";
    }
  }
}
