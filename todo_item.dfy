/**
 * One row of the todo list and its inline editor: the props it was given
 * and the five state fields the editor changes.
 */
module TodoItem {
  import opened Types
  import opened Seqs
  import opened Text
  import opened TagEditor

  class ItemState {
    // props (`files` and `tags` default to empty lists); the list renders
    // the row again under the same key whenever its todo changes
    var id: string
    var title: string
    var description: Option<string>
    var tags: seq<Tag>

    // state
    var isEditing: bool
    var editedTitle: string
    var editedDescription: string
    var tagInput: string
    var editedTags: seq<string>

    /** The editor shows the props as they came. */
    predicate ShowsProps()
      reads this
    {
      && !isEditing
      && editedTitle == title
      && editedDescription == description.GetOr("")
      && editedTags == TagNames(tags)
    }

    constructor(id: string, title: string, description: Option<string>, tags: Option<seq<Tag>>)
      ensures this.id == id && this.title == title && this.description == description
      ensures this.tags == tags.GetOr([])
      ensures ShowsProps() && tagInput == ""
      ensures |editedTags| == |this.tags| && forall i :: 0 <= i < |editedTags| ==> editedTags[i] == this.tags[i].name
    {
      this.id, this.title, this.description := id, title, description;
      this.tags := tags.GetOr([]);
      isEditing := false;
      editedTitle := title;
      editedDescription := description.GetOr("");
      tagInput := "";
      editedTags := TagNames(tags.GetOr([]));
    }

    /** The Edit button. */
    method StartEditing()
      modifies this
      ensures id == old(id) && title == old(title) && description == old(description) && tags == old(tags)
      ensures isEditing
      ensures editedTitle == old(editedTitle) && editedDescription == old(editedDescription)
      ensures tagInput == old(tagInput) && editedTags == old(editedTags)
    {
      isEditing := true;
    }

    /** `handleEdit`: with a non-blank title, call `onEdit` and leave edit mode. */
    method HandleEdit() returns (call: Option<EditCall>)
      modifies this
      ensures id == old(id) && title == old(title) && description == old(description) && tags == old(tags)
      ensures IsBlank(editedTitle) ==> call.None? && unchanged(this)
      ensures !IsBlank(editedTitle) ==>
        && call == Some(EditCall(id, editedTitle, Some(editedDescription), Some(editedTags)))
        && !isEditing
      ensures editedTitle == old(editedTitle) && editedDescription == old(editedDescription)
      ensures tagInput == old(tagInput) && editedTags == old(editedTags)
    {
      if IsBlank(editedTitle) {
        return None;
      }
      call := Some(EditCall(id, editedTitle, Some(editedDescription), Some(editedTags)));
      isEditing := false;
    }

    /** `handleAddTag`: append the trimmed input and clear it, when it may be added. */
    method HandleAddTag()
      modifies this
      ensures id == old(id) && title == old(title) && description == old(description) && tags == old(tags)
      ensures editedTags == AddName(old(editedTags), old(tagInput))
      ensures tagInput == if CanAdd(old(editedTags), old(tagInput)) then "" else old(tagInput)
      ensures isEditing == old(isEditing) && editedTitle == old(editedTitle) && editedDescription == old(editedDescription)
      ensures NoDup(old(editedTags)) ==> NoDup(editedTags)
    {
      if NoDup(editedTags) {
        AddNameKeepsNoDup(editedTags, tagInput);
      }
      if CanAdd(editedTags, tagInput) {
        editedTags := editedTags + [Trim(tagInput)];
        tagInput := "";
      }
    }

    /** `handleRemoveTag`: drop every entry equal to the name. */
    method HandleRemoveTag(tagToRemove: string)
      modifies this
      ensures id == old(id) && title == old(title) && description == old(description) && tags == old(tags)
      ensures editedTags == RemoveAll(old(editedTags), tagToRemove)
      ensures isEditing == old(isEditing) && editedTitle == old(editedTitle)
      ensures editedDescription == old(editedDescription) && tagInput == old(tagInput)
    {
      editedTags := RemoveAll(editedTags, tagToRemove);
    }

    /**
     * A re-render under the same key: the row receives the todo's current
     * title, description and tags, and keeps every state field as it was.
     */
    method ReceiveProps(title: string, description: Option<string>, tags: Option<seq<Tag>>)
      modifies this
      ensures this.id == old(id) && this.title == title && this.description == description
      ensures this.tags == tags.GetOr([])
      ensures isEditing == old(isEditing) && editedTitle == old(editedTitle)
      ensures editedDescription == old(editedDescription) && tagInput == old(tagInput)
      ensures editedTags == old(editedTags)
    {
      this.title, this.description := title, description;
      this.tags := tags.GetOr([]);
    }

    /** The Cancel button: back to the props as they are now, out of edit mode; the tag input is kept. */
    method Cancel()
      modifies this
      ensures id == old(id) && title == old(title) && description == old(description) && tags == old(tags)
      ensures ShowsProps()
      ensures tagInput == old(tagInput)
    {
      isEditing := false;
      editedTitle := title;
      editedDescription := description.GetOr("");
      editedTags := TagNames(tags);
    }
  }

  /**
   * A row first rendered with `title` that is rendered again with `saved`
   * after an edit: editing once more and pressing Cancel shows `saved`.
   */
  method CancelAfterSave(id: string, title: string, saved: string, typed: string) returns (shown: string)
    ensures shown == saved
  {
    var row := new ItemState(id, title, None, None);
    row.ReceiveProps(saved, None, None);
    row.StartEditing();
    row.editedTitle := typed;
    row.Cancel();
    shown := row.editedTitle;
  }
}
