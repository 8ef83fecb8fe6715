/**
 * The two display helpers: the text rewrite done before an interruptible
 * scroll, and the scan that tells a finished scroll by a dark screen.
 */
module Display {

  /** Side length of the LED matrix. */
  const GridSize: nat := 5

  /** A pixel reading: 0 is off, 9 is full brightness. */
  type Brightness = b: int | 0 <= b <= 9

  /**
   * Every space becomes an underscore, so that a blank glyph in the middle
   * of the text is not taken for the end of the scroll.
   */
  function ReplaceSpaces(s: string): (r: string)
    ensures |r| == |s| && ' ' !in r
    ensures forall i :: 0 <= i < |s| ==> r[i] == (if s[i] == ' ' then '_' else s[i])
  {
    if s == [] then [] else ReplaceSpaces(s[..|s| - 1]) + [if s[|s| - 1] == ' ' then '_' else s[|s| - 1]]
  }

  /** Text without spaces scrolls as it is; in particular the rewrite is idempotent. */
  lemma ReplaceSpacesIdentity(s: string)
    requires ' ' !in s
    ensures ReplaceSpaces(s) == s
  {
    var r := ReplaceSpaces(s);
    assert forall i :: 0 <= i < |s| ==> r[i] == s[i];
  }

  lemma ReplaceSpacesIdempotent(s: string)
    ensures ReplaceSpaces(ReplaceSpaces(s)) == ReplaceSpaces(s)
  {
    ReplaceSpacesIdentity(ReplaceSpaces(s));
  }

  /** Whether no pixel of the matrix is lit. */
  ghost predicate Dark(grid: array2<Brightness>)
    reads grid
    requires grid.Length0 == GridSize && grid.Length1 == GridSize
  {
    forall x, y :: 0 <= x < GridSize && 0 <= y < GridSize ==> grid[x, y] == 0
  }

  /** Scans column by column and stops at the first lit pixel. */
  method AllPixelsAreOff(grid: array2<Brightness>) returns (off: bool)
    requires grid.Length0 == GridSize && grid.Length1 == GridSize
    ensures off <==> Dark(grid)
  {
    var x := 0;
    while x < GridSize
      invariant 0 <= x <= GridSize
      invariant forall i, j :: 0 <= i < x && 0 <= j < GridSize ==> grid[i, j] == 0
    {
      var y := 0;
      while y < GridSize
        invariant 0 <= y <= GridSize
        invariant forall i, j :: 0 <= i < x && 0 <= j < GridSize ==> grid[i, j] == 0
        invariant forall j :: 0 <= j < y ==> grid[x, j] == 0
      {
        if grid[x, y] != 0 {
          return false;
        }
        y := y + 1;
      }
      x := x + 1;
    }
    return true;
  }
}
