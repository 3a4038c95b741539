/** The clipboard provider (context/ClipboardContext.tsx:17-43): one slot
    that holds the last copied or cut item, or nothing. */
module ClipboardStore {
  import opened Types

  class ClipboardProvider {
    var clipboard: Option<ClipboardItem>

    /** The slot starts empty. */
    constructor ()
      ensures clipboard == None
    {
      clipboard := None;
    }

    /** copyItem: the slot holds the item for a copy, whatever it held. */
    method CopyItem(item: Item)
      modifies this
      ensures clipboard == Some(ClipboardItem(item, Copy))
    {
      clipboard := Some(ClipboardItem(item, Copy));
    }

    /** cutItem: the slot holds the item for a cut, whatever it held; no
        tree is touched here. */
    method CutItem(item: Item)
      modifies this
      ensures clipboard == Some(ClipboardItem(item, Cut))
    {
      clipboard := Some(ClipboardItem(item, Cut));
    }

    /** clearClipboard: the slot is empty, whatever it held. */
    method ClearClipboard()
      modifies this
      ensures clipboard == None
    {
      clipboard := None;
    }
  }
}
