/**
 * The input mutators of the black-box mutation fuzzer. Three of them act on an
 * action string (one character per Pacman action); five act on a map, kept as
 * its list of row strings.
 *
 * Each mutator draws a position and characters at random; here those draws are
 * parameters, constrained to the ranges the random calls produce, so every
 * mutator is a deterministic function of its inputs.
 */
module MutationFuzzer {

  /** An action string. */
  type Actions = seq<char>

  /** A map as its list of rows. */
  type Grid = seq<seq<char>>

  // Python slicing with a non-negative bound clamps it to the length.

  /** `s[:k]` */
  function Take<T>(s: seq<T>, k: nat): (r: seq<T>)
    ensures |r| == if k <= |s| then k else |s|
    ensures forall i :: 0 <= i < |r| ==> r[i] == s[i]
  {
    if k <= |s| then s[..k] else s
  }

  /** `s[k:]` */
  function Drop<T>(s: seq<T>, k: nat): (r: seq<T>)
    ensures |r| == if k <= |s| then |s| - k else 0
    ensures forall i :: 0 <= i < |r| ==> r[i] == s[k + i]
  {
    if k <= |s| then s[k..] else []
  }

  /** Every character of `s` is drawn from `chars`. */
  predicate AllIn(s: seq<char>, chars: seq<char>)
  {
    forall i :: 0 <= i < |s| ==> s[i] in chars
  }

  /** Every cell of `m` is drawn from `chars`. */
  predicate CellsIn(m: Grid, chars: seq<char>)
  {
    forall r :: 0 <= r < |m| ==> AllIn(m[r], chars)
  }

  /** Every row is as long as the first. */
  predicate Rectangular(m: Grid)
  {
    forall r :: 0 <= r < |m| ==> |m[r]| == |m[0]|
  }

  /** The maps the mutators keep producing: empty, or rectangular and at least one column wide. */
  predicate WellFormed(m: Grid)
  {
    m == [] || (|m[0]| > 0 && Rectangular(m))
  }

  // ---------------------------------------------------------------------------
  // Action-string mutators
  // ---------------------------------------------------------------------------

  /** `sadd`: insert the character `c` drawn from `chars` at position `pos`, the end included. */
  function SAdd(s: Actions, chars: seq<char>, pos: nat, c: char): (r: Actions)
    requires pos <= |s| && c in chars
    ensures |r| == |s| + 1
    ensures r[pos] == c
    ensures forall i :: 0 <= i < pos ==> r[i] == s[i]
    ensures forall i :: pos <= i < |s| ==> r[i + 1] == s[i]
  {
    s[..pos] + [c] + s[pos..]
  }

  /** `sdel`: delete the character at `pos`; an empty string is returned as it is. */
  function SDel(s: Actions, pos: nat): (r: Actions)
    requires |s| > 0 ==> pos < |s|
    ensures |s| == 0 ==> r == s
    ensures |s| > 0 ==> |r| == |s| - 1
    ensures forall i :: 0 <= i < |r| ==> r[i] == if i < pos then s[i] else s[i + 1]
  {
    if |s| == 0 then s else s[..pos] + s[pos + 1..]
  }

  /** `srpl`: overwrite the character at `pos` with `c` drawn from `chars`; an empty string is returned as it is. */
  function SRpl(s: Actions, chars: seq<char>, pos: nat, c: char): (r: Actions)
    requires |s| > 0 ==> pos < |s| && c in chars
    ensures |r| == |s|
    ensures |s| > 0 ==> r[pos] == c
    ensures forall i :: 0 <= i < |s| && i != pos ==> r[i] == s[i]
  {
    if |s| == 0 then s else s[..pos] + [c] + s[pos + 1..]
  }

  // ---------------------------------------------------------------------------
  // Map mutators
  // ---------------------------------------------------------------------------

  /** The length of a row `radd` inserts: that of the first row, but at least one. */
  function NewRowLength(m: Grid): (n: nat)
    ensures n >= 1
    ensures |m| > 0 && |m[0]| > 0 ==> n == |m[0]|
    ensures |m| == 0 || |m[0]| == 0 ==> n == 1
  {
    var width := if |m| > 0 then |m[0]| else 0;
    if width > 1 then width else 1
  }

  /** `radd`: insert the row `row`, drawn from `chars`, before row `pos`, the end included. */
  function RAdd(m: Grid, chars: seq<char>, pos: nat, row: seq<char>): (r: Grid)
    requires pos <= |m|
    requires |row| == NewRowLength(m) && AllIn(row, chars)
    ensures |r| == |m| + 1
    ensures r[pos] == row
    ensures forall i :: 0 <= i < pos ==> r[i] == m[i]
    ensures forall i :: pos <= i < |m| ==> r[i + 1] == m[i]
  {
    m[..pos] + [row] + m[pos..]
  }

  /** `row[:pos] + c + row[pos:]` with Python's clamping: past the end, `c` is appended. */
  function InsertAt(row: seq<char>, pos: nat, c: char): (r: seq<char>)
    ensures |r| == |row| + 1
    ensures pos <= |row| ==> r[pos] == c && r[..pos] + r[pos + 1..] == row
    ensures |row| < pos ==> r == row + [c]
  {
    Take(row, pos) + [c] + Drop(row, pos)
  }

  /**
   * `cadd`: insert one column before column `pos` of the first row, the end
   * included; row `i` receives `cs[i]`. An empty map instead gets the one-cell
   * row `cs`, as `radd` would add.
   */
  function CAdd(m: Grid, chars: seq<char>, pos: nat, cs: seq<char>): (r: Grid)
    requires AllIn(cs, chars)
    requires |m| == 0 ==> |cs| == 1
    requires |m| > 0 ==> |cs| == |m| && pos <= |m[0]|
    ensures |m| == 0 ==> r == [cs]
    ensures |m| > 0 ==> |r| == |m|
    ensures |m| > 0 ==> forall i :: 0 <= i < |m| ==> |r[i]| == |m[i]| + 1
    ensures |m| > 0 ==> forall i :: 0 <= i < |m| && pos <= |m[i]| ==>
              r[i][pos] == cs[i] && r[i][..pos] + r[i][pos + 1..] == m[i]
    ensures |m| > 0 ==> forall i :: 0 <= i < |m| && |m[i]| < pos ==> r[i] == m[i] + [cs[i]]
  {
    if |m| == 0 then RAdd(m, chars, 0, cs)
    else seq(|m|, i requires 0 <= i < |m| => InsertAt(m[i], pos, cs[i]))
  }

  /** `rdel`: delete row `pos`; an empty map is returned as it is. */
  function RDel(m: Grid, pos: nat): (r: Grid)
    requires |m| > 0 ==> pos < |m|
    ensures |m| == 0 ==> r == m
    ensures |m| > 0 ==> |r| == |m| - 1
    ensures forall i :: 0 <= i < |r| ==> r[i] == if i < pos then m[i] else m[i + 1]
  {
    if |m| == 0 then m else m[..pos] + m[pos + 1..]
  }

  /** `row[:pos] + row[pos+1:]` with Python's clamping: past the end, nothing is removed. */
  function RemoveAt(row: seq<char>, pos: nat): (r: seq<char>)
    ensures pos < |row| ==> |r| == |row| - 1 && r == row[..pos] + row[pos + 1..]
    ensures |row| <= pos ==> r == row
  {
    Take(row, pos) + Drop(row, pos + 1)
  }

  /**
   * Remove column `pos` from every row, in order, and keep only the rows that
   * are not left empty (the lemmas DeleteColumnRowwise, DeleteColumnKeepsAll
   * and DeleteColumnDropsAll state this row by row).
   */
  function DeleteColumn(m: Grid, pos: nat): (r: Grid)
    ensures |r| <= |m|
    ensures forall i :: 0 <= i < |r| ==> |r[i]| > 0
  {
    if m == [] then []
    else
      var row := RemoveAt(m[0], pos);
      if |row| > 0 then [row] + DeleteColumn(m[1..], pos) else DeleteColumn(m[1..], pos)
  }

  /**
   * `cdel`: delete column `pos` of the first row from every row, dropping rows
   * that become empty; a map that is empty or whose first row is empty is
   * returned as it is.
   */
  function CDel(m: Grid, pos: nat): (r: Grid)
    requires |m| > 0 && |m[0]| > 0 ==> pos < |m[0]|
    ensures |r| <= |m|
    ensures |m| == 0 || |m[0]| == 0 ==> r == m
    ensures |m| > 0 && |m[0]| > 0 ==> forall i :: 0 <= i < |r| ==> |r[i]| > 0
    ensures |m| > 0 && |m[0]| > 0 ==> r == DeleteColumn(m, pos)
  {
    if |m| == 0 || |m[0]| == 0 then m else DeleteColumn(m, pos)
  }

  /** `row[:col] + c + row[col+1:]` with Python's clamping: past the end, `c` is appended. */
  function ReplaceAt(row: seq<char>, col: nat, c: char): (r: seq<char>)
    ensures col < |row| ==> |r| == |row| && r[col] == c
    ensures col < |row| ==> forall j :: 0 <= j < |row| && j != col ==> r[j] == row[j]
    ensures |row| <= col ==> r == row + [c]
  {
    Take(row, col) + [c] + Drop(row, col + 1)
  }

  /**
   * `mrpl`: overwrite the cell at row `row`, column `col` (a column of the
   * first row) with `c` drawn from `chars`; a map that is empty or whose first
   * row is empty is returned as it is.
   */
  function MRpl(m: Grid, chars: seq<char>, row: nat, col: nat, c: char): (r: Grid)
    requires |m| > 0 && |m[0]| > 0 ==> row < |m| && col < |m[0]| && c in chars
    ensures |r| == |m|
    ensures |m| == 0 || |m[0]| == 0 ==> r == m
    ensures forall i :: 0 <= i < |m| && i != row ==> r[i] == m[i]
    ensures |m| > 0 && |m[0]| > 0 && col < |m[row]| ==>
              |r[row]| == |m[row]| && r[row][col] == c &&
              forall j :: 0 <= j < |m[row]| && j != col ==> r[row][j] == m[row][j]
    ensures |m| > 0 && |m[0]| > 0 && |m[row]| <= col ==> r[row] == m[row] + [c]
  {
    if |m| == 0 || |m[0]| == 0 then m else m[row := ReplaceAt(m[row], col, c)]
  }
}
