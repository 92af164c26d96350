/**
 * The form that creates a todo: its six state fields and the handlers that
 * add a tag, remove a tag and submit. The input fields' change handlers
 * are plain assignments to the fields.
 */
module TodoForm {
  import opened Types
  import opened Seqs
  import opened Text
  import opened TagEditor

  /** The arguments of the `onAdd` prop. */
  datatype AddCall = AddCall(title: string, description: Option<string>, tags: Option<seq<string>>)

  class FormState {
    var title: string
    var description: string
    var tagInput: string
    var tags: seq<string>
    var showDescription: bool
    var showTags: bool

    /** The entered tags are trimmed, non-blank and distinct. */
    predicate Valid()
      reads this
    {
      IsTagList(tags)
    }

    /** The fields' initial values. */
    predicate IsReset()
      reads this
    {
      title == "" && description == "" && tagInput == "" && tags == [] && !showDescription && !showTags
    }

    constructor()
      ensures IsReset() && Valid()
    {
      title, description, tagInput, tags := "", "", "", [];
      showDescription, showTags := false, false;
    }

    /** `handleAddTag`: append the trimmed input and clear it, when it may be added. */
    method HandleAddTag()
      requires Valid()
      modifies this
      ensures Valid()
      ensures tags == AddName(old(tags), old(tagInput))
      ensures tagInput == if CanAdd(old(tags), old(tagInput)) then "" else old(tagInput)
      ensures title == old(title) && description == old(description)
      ensures showDescription == old(showDescription) && showTags == old(showTags)
    {
      AddKeepsTagList(tags, tagInput);
      if CanAdd(tags, tagInput) {
        tags := tags + [Trim(tagInput)];
        tagInput := "";
      }
    }

    /** `handleRemoveTag`: drop every entry equal to the name. */
    method HandleRemoveTag(tagToRemove: string)
      requires Valid()
      modifies this
      ensures Valid()
      ensures tags == RemoveAll(old(tags), tagToRemove)
      ensures title == old(title) && description == old(description) && tagInput == old(tagInput)
      ensures showDescription == old(showDescription) && showTags == old(showTags)
    {
      RemoveKeepsTagList(tags, tagToRemove);
      tags := RemoveAll(tags, tagToRemove);
    }

    /**
     * `handleSubmit`: with a non-blank title, call `onAdd` with the title as
     * typed, the description and the tags (none when the list is empty),
     * then reset every field; with a blank title, nothing.
     */
    method HandleSubmit() returns (call: Option<AddCall>)
      requires Valid()
      modifies this
      ensures Valid()
      ensures IsBlank(old(title)) ==> call.None? && unchanged(this)
      ensures !IsBlank(old(title)) ==>
        && call == Some(AddCall(old(title), Some(old(description)), if old(tags) == [] then None else Some(old(tags))))
        && IsReset()
    {
      if IsBlank(title) {
        return None;
      }
      call := Some(AddCall(title, Some(description), if |tags| > 0 then Some(tags) else None));
      title, description, tagInput, tags := "", "", "", [];
      showDescription, showTags := false, false;
    }
  }
}
