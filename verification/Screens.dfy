/** The frame buffer as an object (src/tui/screen.cpp): clear and resize rewrite its cells in place. */
module Screens {
  import opened Bytes
  import opened Cells

  class Screen {
    var w: nat
    var h: nat
    var cells: array<Cell>
    var cursor: Cursor
    var links: seq<seq<byte>>
    var blank: bool
    const depth: Depth

    ghost predicate Valid()
      reads this
    {
      cells.Length == w * h && |links| <= 255
    }

    function Abstract(): Frame
      reads this, cells
    {
      Frame(w, h, cells[..], cursor, depth, links, blank)
    }

    constructor (dimx: nat, dimy: nat, depth: Depth)
      ensures Valid() && fresh(cells) && Abstract() == Cleared(dimx, dimy, depth)
    {
      w, h := dimx, dimy;
      this.depth := depth;
      cells := new Cell[dimx * dimy](_ => BLANK);
      cursor, links, blank := NO_CURSOR, [], true;
      new;
      assert cells[..] == seq(dimx * dimy, _ => BLANK);
    }

    /** Every cell becomes the prepared blank one; cursor and links are forgotten. */
    method Clear()
      requires Valid()
      modifies this`cursor, this`links, this`blank, cells
      ensures Valid() && Abstract() == Cleared(w, h, depth)
    {
      var i := 0;
      while i < cells.Length
        invariant 0 <= i <= cells.Length && forall k | 0 <= k < i :: cells[k] == BLANK
      {
        cells[i] := BLANK;
        i := i + 1;
      }
      cursor, links, blank := NO_CURSOR, [], true;
      assert cells[..] == seq(w * h, _ => BLANK);
    }

    /** Whatever was in the buffer, the new one is blank. */
    method Resize(dimx: nat, dimy: nat)
      requires Valid()
      modifies this, cells
      ensures Valid() && fresh(cells) && Abstract() == Cleared(dimx, dimy, depth)
    {
      var kept := cells;
      w, h := dimx, dimy;
      cells := new Cell[dimx * dimy](i reads kept => if 0 <= i < kept.Length then kept[i] else BLANK);
      Clear();
    }

    /** The number of a link, 0 if there is no room for another; links that are known keep theirs. */
    method RegisterHyperlink(link: seq<byte>) returns (id: byte)
      requires Valid()
      modifies this`links
      ensures Valid() && Abstract() == old(Abstract()).(links := links) && old(links) <= links
      ensures id == 0 <==> link !in old(links) && |old(links)| == 255
      ensures id != 0 ==> id <= |links| && links[id - 1] == link
      ensures links != old(links) ==> link !in old(links) && links == old(links) + [link]
    {
      var i := 0;
      while i < |links|
        invariant 0 <= i <= |links| && forall k | 0 <= k < i :: links[k] != link
      {
        if links[i] == link {
          return i + 1;
        }
        i := i + 1;
      }
      if |links| >= 255 {
        return 0;
      }
      links := links + [link];
      id := |links|;
    }
  }
}
