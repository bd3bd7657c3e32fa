/** The typed stack of the interpreter, on top of the list. */
module TypedStack {
  import opened DList
  import opened DListTraverse
  import opened Engine

  const INTEGER_VALUE: Tag := 38928921
  const LIST: Tag := 77834894
  const HANDLE: Tag := 19827435
  const HANDLE_INFO: Tag := 81342783
  const PLUGIN_ID_MASK: Tag := 18923789
  const BOOLEAN_VALUE: Tag := 54938587

  datatype Cell =
    | ListCell(list: ControlNode<Info>)
    | HandleCell(handle: Handle)
    | MaskCell(mask: PluginType)
    | IntegerCell(number: int)
    | BooleanCell(flag: bool)

  type Stack = ControlNode<Cell>

  /** The cells from the bottom to the top, each with the tag it was pushed with. */
  ghost function Contents(stack: Stack): seq<(Cell, Tag)>
    reads stack, stack.nodes
  {
    Items(stack.nodes)
  }

  lemma ItemsAppend<T>(s: seq<LinkNode<T>>, x: LinkNode<T>)
    ensures Items(s + [x]) == Items(s) + [(x.data, x.tag)]
  {
  }

  /** Push; running out of memory ends the program. */
  method Push(stack: Stack, tag: Tag, cell: Cell)
    requires stack.Valid() && |Contents(stack)| < MAX_COUNT
    modifies stack, stack.nodes`next, stack.nodes`prev
    ensures stack.Valid() && Contents(stack) == old(Contents(stack)) + [(cell, tag)]
    ensures forall i :: 0 <= i < |stack.nodes| ==> stack.nodes[i] in old(stack.nodes) || fresh(stack.nodes[i])
  {
    ghost var before := stack.nodes;
    var rc, node := InsertObject(stack, cell, tag, null, AppendToList, true, true);
    assert stack.nodes == before + [node];
    ItemsAppend(before, node);
  }

  /** Pop; a tag that is not on top ends the program. */
  method Pop(stack: Stack, tag: Tag) returns (aborted: bool, cell: Option<Cell>)
    requires stack.Valid()
    modifies stack, stack.nodes`next, stack.nodes`prev, stack.nodes`owner
    ensures stack.Valid() && (forall i :: 0 <= i < |stack.nodes| ==> stack.nodes[i] in old(stack.nodes))
    ensures aborted == var c := old(Contents(stack)); c == [] || c[|c| - 1].1 != tag
    ensures aborted ==> cell == None && Contents(stack) == old(Contents(stack))
    ensures !aborted ==> var c := old(Contents(stack)); cell == Some(c[|c| - 1].0) && Contents(stack) == c[..|c| - 1]
  {
    hide Chained, Distinct, Items;
    ghost var before := stack.nodes;
    ItemsAre(before);
    var rc := GoToEndOfList(stack);
    rc, cell := ExtractObject(stack, tag, null);
    aborted := rc != SUCCESS;
    if !aborted {
      assert stack.nodes == before[..|before| - 1];
      assert before == before[..|before| - 1] + [before[|before| - 1]];
      ItemsAppend(before[..|before| - 1], before[|before| - 1]);
    }
  }

  /** Peek; an empty stack ends the program. */
  method Peek(stack: Stack) returns (aborted: bool, tag: Tag)
    requires stack.Valid()
    modifies stack`currentItem, stack`cursor
    ensures stack.Valid() && Contents(stack) == old(Contents(stack))
    ensures aborted == (Contents(stack) == [])
    ensures !aborted ==> tag == Contents(stack)[|Contents(stack)| - 1].1
  {
    ItemsAre(stack.nodes);
    var rc := GoToEndOfList(stack);
    var data;
    rc, tag, data := BlindGetObject(stack, null, false, 0);
    aborted := rc != SUCCESS;
  }
}
