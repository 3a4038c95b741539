/** The shapes shared by the store: items, clipboard entries and the modal state
    (types/desktop.tsx). */
module Types {

  datatype Option<T> = None | Some(value: T)

  /** Identifiers are non-empty strings (timestamps in practice), so a test
      such as `if (item.parentId)` in the store is the same as "is present". */
  type Id = s: string | s != "" witness "0"

  /** The path of the desktop itself; root items live at `/desktop/<name>`. */
  const DesktopPath: string := "/desktop"

  datatype Kind = File | Folder

  /** The optional `content` array: every node may carry one, whatever its kind. */
  datatype Content = Absent | Present(items: seq<Item>)

  /** A node of the tree. `parent` is the field the type file calls
      `locationId` and the store reads and writes as `parentId`. */
  datatype Item = Item(
    id: Id,
    name: string,
    kind: Kind,
    content: Content,
    link: Option<string>,
    parent: Option<Id>,
    path: string)

  /** The children of a node: its content, or none when it has no content. */
  function Kids(x: Item): (r: seq<Item>)
    ensures x.content.Absent? ==> r == []
    ensures x.content.Present? ==> r == x.content.items
  {
    if x.content.Present? then x.content.items else []
  }

  /** `x` with `c` appended as its last child (a missing content array starts empty). */
  function WithChild(x: Item, c: Item): (r: Item)
    ensures r.id == x.id && r.name == x.name && r.kind == x.kind
    ensures r.link == x.link && r.parent == x.parent && r.path == x.path
    ensures Kids(r) == Kids(x) + [c]
  {
    x.(content := Present(Kids(x) + [c]))
  }

  datatype Operation = Copy | Cut

  datatype ClipboardItem = ClipboardItem(item: Item, operation: Operation)

  datatype ModalType = New | Edit | Rename | CopyModal | CutModal

  datatype ModalState = ModalState(
    open: bool,
    kind: Option<ModalType>,
    itemType: Option<Kind>,
    parentId: Option<Id>,
    item: Option<Item>)

  /** The state the store resets the modal to after every operation. */
  const ClosedModal: ModalState := ModalState(false, None, None, None, None)

  /** JavaScript truthiness of an optional string: present and non-empty. */
  predicate Truthy(s: Option<string>)
  {
    s.Some? && s.value != ""
  }
}
