/**
 * The tag-editing rule shared by the add form, the inline editor and the
 * details panel: the input is added trimmed, and only when it is not blank
 * and not already present; removal drops every entry with that name.
 */
module TagEditor {
  import opened Types
  import opened Seqs
  import opened Text

  /** The call a component makes through its `onEdit` prop. */
  datatype EditCall = EditCall(id: string, title: string, description: Option<string>, tags: Option<seq<string>>)

  /** An entry the editor itself would add: non-blank and trimmed. */
  predicate IsCleanName(name: string) {
    name != [] && IsTrimmed(name)
  }

  /** `tagInput.trim() !== '' && !names.includes(tagInput.trim())`. */
  predicate CanAdd(names: seq<string>, input: string) {
    !IsBlank(input) && Trim(input) !in names
  }

  /** The names after an add: the trimmed input appended when it may be added. */
  function AddName(names: seq<string>, input: string): seq<string> {
    if CanAdd(names, input) then names + [Trim(input)] else names
  }

  /** An add never introduces a duplicate. */
  lemma AddNameKeepsNoDup(names: seq<string>, input: string)
    requires NoDup(names)
    ensures NoDup(AddName(names, input))
  {
    if CanAdd(names, input) {
      var r := names + [Trim(input)];
      forall i, j | 0 <= i < j < |r| ensures r[i] != r[j] {
        if j == |names| {
          assert r[i] == names[i];
        } else {
          assert r[i] == names[i] && r[j] == names[j];
        }
      }
    }
  }

  /** An add never introduces a blank or untrimmed entry. */
  lemma AddNameIsClean(names: seq<string>, input: string)
    ensures forall i :: |names| <= i < |AddName(names, input)| ==> IsCleanName(AddName(names, input)[i])
  {
  }

  /** After an add the trimmed input is present, whatever the branch, when it is not blank. */
  lemma AddNamePresent(names: seq<string>, input: string)
    requires !IsBlank(input)
    ensures Trim(input) in AddName(names, input)
  {
    if !CanAdd(names, input) {
      assert Trim(input) in names;
    } else {
      assert AddName(names, input)[|names|] == Trim(input);
    }
  }

  /** Adding a fresh name and then removing it gives back the list. */
  lemma AddThenRemove(names: seq<string>, input: string)
    requires CanAdd(names, input)
    ensures RemoveAll(AddName(names, input), Trim(input)) == names
  {
    AppendThenRemove(names, Trim(input));
  }

  /** A list of clean, distinct names stays so under add and remove. */
  predicate IsTagList(names: seq<string>) {
    NoDup(names) && forall i :: 0 <= i < |names| ==> IsCleanName(names[i])
  }

  lemma AddKeepsTagList(names: seq<string>, input: string)
    requires IsTagList(names)
    ensures IsTagList(AddName(names, input))
  {
    AddNameKeepsNoDup(names, input);
    AddNameIsClean(names, input);
  }

  lemma RemoveKeepsTagList(names: seq<string>, name: string)
    requires IsTagList(names)
    ensures IsTagList(RemoveAll(names, name))
  {
    SubsequenceKeepsNoDup(RemoveAll(names, name), names);
  }
}
