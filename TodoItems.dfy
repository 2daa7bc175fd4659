/** One entry of the to-do list: an immutable value with structural equality. */
module TodoItems {

  /** A to-do item. A new item is active unless said otherwise; `item.(isCompleted := b)`
      plays the part of the data class's `copy(isCompleted = b)`. */
  datatype TodoItem = TodoItem(id: int, text: string, isCompleted: bool := false)

  /** An item built from an id and a text alone is active. */
  lemma NewItemIsActive(id: int, text: string)
    ensures var item := TodoItem(id, text); item.id == id && item.text == text && !item.isCompleted
  {
  }

  /** Copying with a new completion flag keeps the id and the text, and leaves the
      original value as it was. */
  lemma CopyKeepsIdentity(item: TodoItem, isCompleted: bool)
    ensures var copy := item.(isCompleted := isCompleted);
      copy == TodoItem(item.id, item.text, isCompleted) &&
      (copy == item <==> item.isCompleted == isCompleted)
  {
  }

  /** Two items are equal exactly when their three fields are. */
  lemma EqualityIsStructural(a: TodoItem, b: TodoItem)
    ensures a == b <==> a.id == b.id && a.text == b.text && a.isCompleted == b.isCompleted
  {
  }
}
