/** The screen's mutable state: the list owner, whose callbacks reassign the remembered list
    and counter, and the input section, which owns the pending text and submits it. */
module Screen {
  import opened TodoItems
  import opened TodoLists
  import opened Trimming

  /** The state held by the root screen. Each callback replaces the list by a new value
      (and the add callback advances the counter); the new state is the pure transition
      applied to the old one. */
  class TodoApp {
    var todoItems: seq<TodoItem>
    var nextId: int

    function State(): TodoState
      reads this
    {
      TodoState(todoItems, nextId)
    }

    ghost predicate Valid()
      reads this
    {
      TodoLists.Valid(State())
    }

    constructor ()
      ensures Valid() && State() == Initial
    {
      todoItems := [];
      nextId := 1;
    }

    /** The add callback handed to the input section. */
    method OnAddItem(text: string)
      requires Valid()
      modifies this
      ensures Valid() && State() == Add(old(State()), text)
    {
      todoItems := todoItems + [TodoItem(nextId, text)];
      nextId := nextId + 1;
    }

    /** The checkbox callback of the row showing the item `id`. */
    method OnCheckedChange(id: int, isChecked: bool)
      requires Valid()
      modifies this
      ensures Valid() && State() == Toggle(old(State()), id, isChecked)
    {
      todoItems := Toggled(todoItems, id, isChecked);
    }

    /** The delete callback of the row showing the item `id`. */
    method OnDelete(id: int)
      requires Valid()
      modifies this
      ensures Valid() && State() == Delete(old(State()), id)
    {
      todoItems := WithoutId(todoItems, id);
    }
  }

  /** The input row: a text field and an "Add" button. */
  class AddItemSection {
    var textInput: string

    constructor ()
      ensures textInput == ""
    {
      textInput := "";
    }

    /** Typing replaces the pending text. */
    method OnValueChange(value: string)
      modifies this
      ensures textInput == value
    {
      textInput := value;
    }

    /** The "Add" button. The pending text is trimmed; if nothing is left the click is
        rejected (`rejected` stands for the validation notice) and neither the text nor the
        list changes; otherwise the trimmed text is added to the list and the field is
        cleared. */
    method OnClick(app: TodoApp, isWhitespace: char -> bool) returns (rejected: bool)
      requires app.Valid()
      modifies this, app
      ensures app.Valid()
      ensures rejected <==> AllWhitespace(old(textInput), isWhitespace)
      ensures rejected ==> textInput == old(textInput) && app.State() == old(app.State())
      ensures !rejected ==>
        && textInput == ""
        && app.State() == Add(old(app.State()), Trim(old(textInput), isWhitespace))
    {
      var trimmedText := Trim(textInput, isWhitespace);
      if trimmedText == "" {
        rejected := true;
      } else {
        rejected := false;
        app.OnAddItem(trimmedText);
        textInput := "";
      }
    }
  }

  /** What a click on "Add" leaves in the list: a new last item whose text is non-empty,
      without whitespace at either end, and unchanged by trimming again. */
  lemma SubmittedTextIsTrimmed(input: string, isWhitespace: char -> bool, s: TodoState)
    requires !AllWhitespace(input, isWhitespace)
    ensures var text := Add(s, Trim(input, isWhitespace)).items[|s.items|].text;
      && text != ""
      && !isWhitespace(text[0]) && !isWhitespace(text[|text| - 1])
      && Trim(text, isWhitespace) == text
  {
  }

  /** Short sessions on the screen, followed through the contracts above alone. */
  method BlankInputIsRejected()
  {
    var app := new TodoApp();
    var input := new AddItemSection();
    input.OnValueChange("   ");
    var rejected := input.OnClick(app, c => c == ' ');
    assert rejected && app.todoItems == [] && app.nextId == 1 && input.textInput == "   ";
  }

  method AddedTextIsTrimmed(text: string)
    requires text != [] && text[0] != ' ' && text[|text| - 1] != ' '
  {
    var app := new TodoApp();
    var input := new AddItemSection();
    var isWhitespace := c => c == ' ';
    var typed := " " + text + " ";
    input.OnValueChange(typed);
    assert Trim(typed, isWhitespace) == text by {
      TrimPadded(" ", text, " ", isWhitespace);
    }
    var rejected := input.OnClick(app, isWhitespace);
    assert !rejected && input.textInput == "";
    assert app.todoItems == [TodoItem(1, text)] && app.nextId == 2;
  }

  method CompletedItemChangesSection()
  {
    var app := new TodoApp();
    app.OnAddItem("A");
    app.OnAddItem("B");
    app.OnCheckedChange(1, true);
    var items := app.todoItems;
    assert items == [TodoItem(1, "A", true)] + [TodoItem(2, "B")];
    PartitionKeepsOrder([TodoItem(1, "A", true)], [TodoItem(2, "B")]);
    assert ActiveItems(items) == [TodoItem(2, "B")];
    assert CompletedItems(items) == [TodoItem(1, "A", true)];
  }

  method IdsOutliveDeletes()
  {
    var app := new TodoApp();
    app.OnAddItem("X");
    DeleteRemovesExactlyOne(app.todoItems, 0);
    app.OnDelete(1);
    assert app.todoItems == [];
    app.OnAddItem("Y");
    assert app.todoItems == [TodoItem(2, "Y")] && app.nextId == 3;
  }
}
