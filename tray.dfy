/** Circus.Wpf.Controls.DocumentTrayStackInfo: the counter of toggled
  * (pinned) documents in a document tray. Next is the first position after
  * the toggled area; the decisions below move it up or down by one. There
  * is no lower bound, so Next may become negative. The out parameters are
  * returned values. */
module DocumentTray {

  class DocumentTrayStackInfo {
    var next: int

    /** Empty: no toggled document. */
    predicate Empty()
      reads this
    {
      next == 0
    }

    /** A new instance is Reset(): Next == 0. */
    constructor ()
      ensures next == 0 && Empty()
    {
      next := 0;
    }

    method Pop()
      modifies this
      ensures next == old(next) - 1
    {
      next := next - 1;
    }

    method Push()
      modifies this
      ensures next == old(next) + 1
    {
      next := next + 1;
    }

    /** IsDrop(position, toggled, out update): update is set for a toggled
      * document dropped inside the toggled area; a toggled document dropped
      * outside it leaves the area (Next drops by one). A toggled document
      * may go anywhere; an untoggled one only at or after Next. */
    method IsDrop(position: int, toggled: bool) returns (r: bool, update: bool)
      modifies this
      ensures update <==> toggled && position < old(next)
      ensures toggled && position >= old(next) ==> next == old(next) - 1
      ensures !(toggled && position >= old(next)) ==> next == old(next)
      ensures r <==> toggled || position >= old(next)
    {
      update := toggled && position < next;
      if toggled && !update {
        Pop();
      }
      r := toggled || position >= next;
    }

    /** IsMoved(index, toggled, out position): toggling on places the
      * document at the old Next and grows the area; toggling off shrinks
      * the area and places it at the new Next. The result says whether the
      * document has to move. */
    method IsMoved(index: int, toggled: bool) returns (r: bool, position: int)
      modifies this
      ensures toggled ==> position == old(next) && next == old(next) + 1
      ensures !toggled ==> next == old(next) - 1 && position == next
      ensures r <==> position != index
    {
      if toggled {
        position := next;
        Push();
      } else {
        Pop();
        position := next;
      }
      r := position != index;
    }

    /** Reset(value): Next becomes value. */
    method Reset(value: int)
      modifies this
      ensures next == value
    {
      next := value;
    }

    /** Update(toggled): a closed or floated toggled document leaves the
      * area. */
    method Update(toggled: bool)
      modifies this
      ensures toggled ==> next == old(next) - 1
      ensures !toggled ==> next == old(next)
    {
      if toggled {
        Pop();
      }
    }
  }

  /** Toggling a document on and then off restores Next and puts it back
    * at the same position. */
  method ToggleOnOff(info: DocumentTrayStackInfo, index: int) returns (p: int, q: int)
    modifies info
    ensures info.next == old(info.next)
    ensures p == q == old(info.next)
  {
    var _, p' := info.IsMoved(index, true);
    var _, q' := info.IsMoved(index, false);
    p, q := p', q';
  }
}
