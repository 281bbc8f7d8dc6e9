/**
 * The inline title editor of src/components/editable-text.tsx. It shows `value` (the
 * prop: a column's title) until double-clicked; while editing it holds its own `text`.
 * Blur and Enter commit: the trimmed text is handed to `onSave` when it is non-empty
 * and the text differs from `value`, otherwise the text reverts to `value`. Escape
 * always reverts. When the parent passes a different `value`, the text follows it.
 * `onSave` is the returned `Some(title)`.
 */
module EditableText {
  import opened Wrappers
  import opened Text

  datatype Key = Enter | Escape | OtherKey

  /** What a commit does with the edited text. */
  datatype Commit = Save(title: string) | Revert

  /**
   * The commit rule: save exactly when the text is not all white space and differs from
   * `value`; what is saved is the trimmed text, never empty and with no outer white space.
   */
  function CommitOf(text: string, value: string): (c: Commit)
    ensures c.Save? <==> !AllSpace(text) && text != value
    ensures c.Save? ==> c.title == Trim(text) && c.title != [] && Trimmed(c.title)
  {
    TrimEmptyIff(text);
    if Trim(text) != "" && text != value then Save(Trim(text)) else Revert
  }

  /**
   * A text that differs from `value` only by white space around it is still saved, and
   * what is saved equals `value`.
   */
  lemma PaddedValueSaves(pre: string, value: string, post: string)
    requires AllSpace(pre) && AllSpace(post) && pre + post != []
    requires Trimmed(value) && value != []
    ensures CommitOf(pre + value + post, value) == Save(value)
  {
    var text := pre + value + post;
    TrimPadding(pre, value, post);
    assert |text| == |pre| + |value| + |post|;
    assert text != value;
    TrimEmptyIff(text);
  }

  /** Committing the unchanged value never saves. */
  lemma UnchangedNeverSaves(value: string)
    ensures CommitOf(value, value) == Revert
  {
  }

  class Editor {
    /** The prop the parent passes. */
    var value: string
    var isEditing: bool
    /** The input's contents. */
    var text: string

    constructor (value: string)
      ensures this.value == value && text == value && !isEditing
    {
      this.value := value;
      text := value;
      isEditing := false;
    }

    /** `handleDoubleClick`: enter editing; the text is what it was. */
    method DoubleClick()
      modifies this
      ensures isEditing && text == old(text) && value == old(value)
    {
      isEditing := true;
    }

    /** The input's `onChange`. */
    method Change(newText: string)
      modifies this
      ensures text == newText && isEditing == old(isEditing) && value == old(value)
    {
      text := newText;
    }

    /** Blur and Enter: commit by `CommitOf`, then leave editing. */
    method Commit() returns (saved: Option<string>)
      modifies this
      ensures !isEditing && value == old(value)
      ensures CommitOf(old(text), value).Save? ==>
        saved == Some(CommitOf(old(text), value).title) && text == old(text)
      ensures CommitOf(old(text), value).Revert? ==> saved == None && text == value
    {
      TrimEmptyIff(text);
      if Trim(text) != "" && text != value {
        saved := Some(Trim(text));
      } else {
        saved := None;
        text := value;
      }
      isEditing := false;
    }

    /** `handleBlur`. */
    method Blur() returns (saved: Option<string>)
      modifies this
      ensures !isEditing && value == old(value)
      ensures saved == (match CommitOf(old(text), value) case Save(t) => Some(t) case Revert => None)
      ensures saved.Some? ==> text == old(text)
      ensures saved.None? ==> text == value
    {
      saved := Commit();
    }

    /** `handleKeyDown`: Enter commits, Escape reverts without saving, other keys do nothing. */
    method KeyDown(key: Key) returns (saved: Option<string>)
      modifies this
      ensures value == old(value)
      ensures key == Enter ==>
        && !isEditing
        && saved == (match CommitOf(old(text), value) case Save(t) => Some(t) case Revert => None)
        && (saved.Some? ==> text == old(text))
        && (saved.None? ==> text == value)
      ensures key == Escape ==> !isEditing && saved == None && text == value
      ensures key == OtherKey ==> saved == None && isEditing == old(isEditing) && text == old(text)
    {
      saved := None;
      if key == Enter {
        saved := Commit();
      } else if key == Escape {
        text := value;
        isEditing := false;
      }
    }

    /**
     * The parent re-renders with `newValue`; the value effect resets the text only when
     * the value actually changed.
     */
    method SyncValue(newValue: string)
      modifies this
      ensures value == newValue && isEditing == old(isEditing)
      ensures newValue != old(value) ==> text == newValue
      ensures newValue == old(value) ==> text == old(text)
    {
      if newValue != value {
        text := newValue;
      }
      value := newValue;
    }
  }
}
