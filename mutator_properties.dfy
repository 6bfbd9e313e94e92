/**
 * What the mutators promise beyond one call: the six mutators other than `rdel`
 * and `cdel` are undone by another call; the three deleters lose information,
 * yet `sdel` is always undone by `sadd`, `rdel` by `radd` except on a single
 * row wider than one cell, and `cdel` by `cadd` except when it empties the map;
 * the well-formed maps are closed under every map mutator, and the alphabet
 * the characters are drawn from is never left.
 */
module MutatorProperties {
  import opened MutationFuzzer

  // ---------------------------------------------------------------------------
  // Round trips
  // ---------------------------------------------------------------------------

  /** Deleting the character `sadd` inserted gives back the original string. */
  lemma SAddThenSDel(s: Actions, chars: seq<char>, pos: nat, c: char)
    requires pos <= |s| && c in chars
    ensures SDel(SAdd(s, chars, pos, c), pos) == s
  {
    var t := SAdd(s, chars, pos, c);
    var r := SDel(t, pos);
    assert |r| == |s|;
    forall i | 0 <= i < |s|
      ensures r[i] == s[i]
    {
      if i >= pos {
        assert t[i + 1] == s[i];
      }
    }
  }

  /** Writing the old character back over the one `srpl` placed undoes it. */
  lemma SRplUndo(s: Actions, chars: seq<char>, pos: nat, c: char)
    requires pos < |s| && c in chars && s[pos] in chars
    ensures SRpl(SRpl(s, chars, pos, c), chars, pos, s[pos]) == s
  {
    var r := SRpl(SRpl(s, chars, pos, c), chars, pos, s[pos]);
    assert forall i :: 0 <= i < |s| ==> r[i] == s[i];
  }

  /** Inserting the deleted character back where `sdel` took it gives back the original string. */
  lemma SDelThenSAdd(s: Actions, chars: seq<char>, pos: nat)
    requires pos < |s| && s[pos] in chars
    ensures SAdd(SDel(s, pos), chars, pos, s[pos]) == s
  {
    var t := SDel(s, pos);
    var r := SAdd(t, chars, pos, s[pos]);
    forall i | 0 <= i < |s|
      ensures r[i] == s[i]
    {
      if i > pos {
        assert r[(i - 1) + 1] == t[i - 1];
      }
    }
  }

  /** Deleting the row `radd` inserted gives back the original map. */
  lemma RAddThenRDel(m: Grid, chars: seq<char>, pos: nat, row: seq<char>)
    requires pos <= |m|
    requires |row| == NewRowLength(m) && AllIn(row, chars)
    ensures RDel(RAdd(m, chars, pos, row), pos) == m
  {
    var t := RAdd(m, chars, pos, row);
    var r := RDel(t, pos);
    assert |r| == |m|;
    forall i | 0 <= i < |m|
      ensures r[i] == m[i]
    {
      if i >= pos {
        assert t[i + 1] == m[i];
      }
    }
  }

  /** On a well-formed map, deleting the column `cadd` inserted gives back the original map. */
  lemma CAddThenCDel(m: Grid, chars: seq<char>, pos: nat, cs: seq<char>)
    requires WellFormed(m)
    requires AllIn(cs, chars)
    requires |m| == 0 ==> |cs| == 1 && pos == 0
    requires |m| > 0 ==> |cs| == |m| && pos <= |m[0]|
    ensures CDel(CAdd(m, chars, pos, cs), pos) == m
  {
    var t := CAdd(m, chars, pos, cs);
    if |m| == 0 {
      assert t == [cs];
      assert RemoveAt(cs, 0) == [];
      assert DeleteColumn(t[1..], pos) == [];
    } else {
      var w := |m[0]|;
      assert forall i :: 0 <= i < |t| ==> |t[i]| == w + 1;
      DeleteColumnUniform(t, w + 1, pos);
      var r := CDel(t, pos);
      assert |r| == |m|;
      forall i | 0 <= i < |m|
        ensures r[i] == m[i]
      {
        assert r[i] == t[i][..pos] + t[i][pos + 1..];
      }
    }
  }

  /** On a rectangular map, writing the old cell back over the one `mrpl` placed undoes it. */
  lemma MRplUndo(m: Grid, chars: seq<char>, row: nat, col: nat, c: char)
    requires Rectangular(m)
    requires |m| > 0 && |m[0]| > 0
    requires row < |m| && col < |m[0]| && c in chars
    requires m[row][col] in chars
    ensures MRpl(MRpl(m, chars, row, col, c), chars, row, col, m[row][col]) == m
  {
    var t := MRpl(m, chars, row, col, c);
    assert |t[0]| == |m[0]|;
    var r := MRpl(t, chars, row, col, m[row][col]);
    assert |r[row]| == |m[row]|;
    assert r[row] == m[row];
    assert forall i :: 0 <= i < |m| ==> r[i] == m[i];
  }

  /**
   * `rdel` undoes itself through `radd`, given the deleted row back, unless it
   * removed a single row wider than one cell: `radd` on the empty map only
   * inserts rows one cell wide.
   */
  lemma RDelThenRAdd(m: Grid, chars: seq<char>, pos: nat)
    requires WellFormed(m) && pos < |m| && AllIn(m[pos], chars)
    requires |m| >= 2 || |m[0]| == 1
    ensures RAdd(RDel(m, pos), chars, pos, m[pos]) == m
  {
    var t := RDel(m, pos);
    var r := RAdd(t, chars, pos, m[pos]);
    forall i | 0 <= i < |m|
      ensures r[i] == m[i]
    {
      if i > pos {
        assert r[(i - 1) + 1] == t[i - 1];
      }
    }
  }

  /** Column `pos` of a map whose rows all reach that column, top to bottom. */
  function Column(m: Grid, pos: nat): (cs: seq<char>)
    requires forall i :: 0 <= i < |m| ==> pos < |m[i]|
    ensures |cs| == |m|
    ensures forall i :: 0 <= i < |m| ==> cs[i] == m[i][pos]
  {
    seq(|m|, i requires 0 <= i < |m| => m[i][pos])
  }

  /** Putting a removed character back where it was gives back the row. */
  lemma InsertAtRemoveAt(row: seq<char>, pos: nat)
    requires pos < |row|
    ensures InsertAt(RemoveAt(row, pos), pos, row[pos]) == row
  {
    var r := InsertAt(RemoveAt(row, pos), pos, row[pos]);
    assert r[..pos] + r[pos + 1..] == row[..pos] + row[pos + 1..];
    assert r[..pos] == row[..pos] && r[pos + 1..] == row[pos + 1..] by {
      assert |r[..pos]| == |row[..pos]|;
    }
    assert r == r[..pos] + [r[pos]] + r[pos + 1..];
    assert row == row[..pos] + [row[pos]] + row[pos + 1..];
  }

  /**
   * `cdel` undoes itself through `cadd`, given the deleted column back, unless
   * it emptied a map of several rows: `cadd` on the empty map only adds one
   * row.
   */
  lemma CDelThenCAdd(m: Grid, chars: seq<char>, pos: nat)
    requires WellFormed(m) && CellsIn(m, chars) && |m| > 0 && pos < |m[0]|
    requires |m[0]| >= 2 || |m| == 1
    ensures |m[0]| == 1 ==> CDel(m, pos) == []
    ensures |m[0]| >= 2 ==> |CDel(m, pos)| == |m| && pos <= |CDel(m, pos)[0]|
    ensures CAdd(CDel(m, pos), chars, pos, Column(m, pos)) == m
  {
    var cs := Column(m, pos);
    assert AllIn(cs, chars) by {
      forall i | 0 <= i < |m|
        ensures cs[i] in chars
      {
        assert AllIn(m[i], chars);
      }
    }
    CDelRectangular(m, pos);
    var t := CDel(m, pos);
    var r := CAdd(t, chars, pos, cs);
    if |m[0]| == 1 {
      assert r == [cs];
      assert cs == m[0];
    } else {
      forall i | 0 <= i < |m|
        ensures r[i] == m[i]
      {
        assert t[i] == RemoveAt(m[i], pos);
        assert r[i] == InsertAt(t[i], pos, cs[i]);
        InsertAtRemoveAt(m[i], pos);
      }
    }
  }

  /**
   * All three deleters lose information: two different inputs can give the
   * same result.
   */
  lemma DeletersLoseInformation()
    ensures SDel("a", 0) == SDel("b", 0) == []
    ensures RDel(["a"], 0) == RDel(["b"], 0) == []
    ensures CDel(["a", "b"], 0) == CDel(["c"], 0) == []
  {
    assert RemoveAt("a", 0) == [] && RemoveAt("b", 0) == [] && RemoveAt("c", 0) == [];
    assert DeleteColumn(["b"], 0) == [];
    assert DeleteColumn(["a", "b"], 0) == DeleteColumn(["b"], 0) by {
      assert ["a", "b"][1..] == ["b"];
    }
  }

  /** No `radd` restores a single row wider than one cell after `rdel` removed it. */
  lemma RDelOfWideRowIsFinal(m: Grid, chars: seq<char>, pos: nat, row: seq<char>)
    requires |m| == 1 && |m[0]| > 1
    requires |row| == NewRowLength(RDel(m, 0)) && AllIn(row, chars)
    requires pos <= |RDel(m, 0)|
    ensures RAdd(RDel(m, 0), chars, pos, row) != m
  {
    assert RDel(m, 0) == [];
    assert |RAdd(RDel(m, 0), chars, pos, row)[0]| == 1;
  }

  /** No `cadd` restores a one-column map of several rows after `cdel` emptied it. */
  lemma CDelOfOneColumnIsFinal(m: Grid, chars: seq<char>, pos: nat, cs: seq<char>)
    requires Rectangular(m) && |m| >= 2 && |m[0]| == 1
    requires AllIn(cs, chars) && |cs| == 1
    ensures CDel(m, 0) == []
    ensures CAdd(CDel(m, 0), chars, pos, cs) != m
  {
    CDelRectangular(m, 0);
    assert |CAdd(CDel(m, 0), chars, pos, cs)| == 1;
  }

  /**
   * A map whose only row is empty is not well formed, and `radd` does not
   * keep it rectangular: the new row is one cell wide.
   */
  lemma RAddOnZeroWidthMap(chars: seq<char>, c: char)
    requires c in chars
    ensures !WellFormed([""])
    ensures !Rectangular(RAdd([""], chars, 1, [c]))
  {
    var r := RAdd([""], chars, 1, [c]);
    assert |r[1]| != |r[0]|;
  }

  // ---------------------------------------------------------------------------
  // The shape of column deletion
  // ---------------------------------------------------------------------------

  /**
   * Deleting a column from rows that all have width `w`: width one leaves no
   * rows, a larger width keeps every row, one character shorter.
   */
  lemma {:induction false} DeleteColumnUniform(m: Grid, w: nat, pos: nat)
    requires pos < w
    requires forall i :: 0 <= i < |m| ==> |m[i]| == w
    ensures w == 1 ==> DeleteColumn(m, pos) == []
    ensures w > 1 ==> |DeleteColumn(m, pos)| == |m|
    ensures w > 1 ==> forall i :: 0 <= i < |m| ==>
              DeleteColumn(m, pos)[i] == m[i][..pos] + m[i][pos + 1..]
  {
    if m != [] {
      DeleteColumnUniform(m[1..], w, pos);
      var row := RemoveAt(m[0], pos);
      assert |row| == w - 1;
      if w > 1 {
        var r := DeleteColumn(m, pos);
        assert r == [row] + DeleteColumn(m[1..], pos);
        forall i | 0 <= i < |m|
          ensures r[i] == m[i][..pos] + m[i][pos + 1..]
        {
          if i > 0 {
            assert m[1..][i - 1] == m[i];
          }
        }
      }
    }
  }

  /**
   * Column deletion works row by row and keeps the order: deleting from two
   * stacked maps stacks the results, and a single row survives, with column
   * `pos` cut out, exactly when that leaves it non-empty.
   */
  lemma {:induction false} DeleteColumnRowwise(a: Grid, b: Grid, pos: nat)
    ensures DeleteColumn(a + b, pos) == DeleteColumn(a, pos) + DeleteColumn(b, pos)
    ensures a != [] ==>
              DeleteColumn([a[0]], pos) == (if |RemoveAt(a[0], pos)| > 0 then [RemoveAt(a[0], pos)] else [])
  {
    if a != [] {
      assert (a + b)[0] == a[0];
      assert (a + b)[1..] == a[1..] + b;
      DeleteColumnRowwise(a[1..], b, pos);
      assert [a[0]][1..] == [];
    } else {
      assert a + b == b;
    }
  }

  /**
   * When no row is emptied, every row survives in order with column `pos`
   * cut out; a row too short to have that column survives unchanged.
   */
  lemma {:induction false} DeleteColumnKeepsAll(m: Grid, pos: nat)
    requires forall i :: 0 <= i < |m| ==> |RemoveAt(m[i], pos)| > 0
    ensures |DeleteColumn(m, pos)| == |m|
    ensures forall i :: 0 <= i < |m| ==> DeleteColumn(m, pos)[i] == RemoveAt(m[i], pos)
  {
    if m != [] {
      assert forall i :: 0 <= i < |m| - 1 ==> m[1..][i] == m[i + 1];
      DeleteColumnKeepsAll(m[1..], pos);
      var r := DeleteColumn(m, pos);
      assert r == [RemoveAt(m[0], pos)] + DeleteColumn(m[1..], pos);
      forall i | 0 < i < |m|
        ensures r[i] == RemoveAt(m[i], pos)
      {
        assert r[i] == DeleteColumn(m[1..], pos)[i - 1];
        assert m[1..][i - 1] == m[i];
      }
    }
  }

  /** When every row is emptied, no row survives. */
  lemma {:induction false} DeleteColumnDropsAll(m: Grid, pos: nat)
    requires forall i :: 0 <= i < |m| ==> |RemoveAt(m[i], pos)| == 0
    ensures DeleteColumn(m, pos) == []
  {
    if m != [] {
      assert forall i :: 0 <= i < |m| - 1 ==> m[1..][i] == m[i + 1];
      DeleteColumnDropsAll(m[1..], pos);
    }
  }

  /**
   * `cdel` on a rectangular map with at least one column: a single column
   * leaves the empty map; otherwise every row survives with column `pos` cut out.
   */
  lemma CDelRectangular(m: Grid, pos: nat)
    requires Rectangular(m) && |m| > 0 && pos < |m[0]|
    ensures |m[0]| == 1 ==> CDel(m, pos) == []
    ensures |m[0]| > 1 ==> |CDel(m, pos)| == |m|
    ensures |m[0]| > 1 ==> forall i :: 0 <= i < |m| ==>
              |CDel(m, pos)[i]| == |m[0]| - 1 &&
              CDel(m, pos)[i] == m[i][..pos] + m[i][pos + 1..]
  {
    DeleteColumnUniform(m, |m[0]|, pos);
  }

  // ---------------------------------------------------------------------------
  // Each map mutator keeps a well-formed map well formed, and writes only cells
  // drawn from the alphabet
  // ---------------------------------------------------------------------------

  lemma RAddPreserves(m: Grid, chars: seq<char>, pos: nat, row: seq<char>)
    requires pos <= |m|
    requires |row| == NewRowLength(m) && AllIn(row, chars)
    ensures WellFormed(m) ==> WellFormed(RAdd(m, chars, pos, row))
    ensures CellsIn(m, chars) ==> CellsIn(RAdd(m, chars, pos, row), chars)
  {
    var r := RAdd(m, chars, pos, row);
    forall i | 0 <= i < |r| && i != pos
      ensures r[i] == m[if i < pos then i else i - 1]
    {
      if i > pos {
        assert r[(i - 1) + 1] == m[i - 1];
      }
    }
  }

  lemma InsertAtKeepsAlphabet(row: seq<char>, chars: seq<char>, pos: nat, c: char)
    requires AllIn(row, chars) && c in chars
    ensures AllIn(InsertAt(row, pos, c), chars)
  {
    var r := InsertAt(row, pos, c);
    var a, b := Take(row, pos), Drop(row, pos);
    assert r == a + [c] + b;
    forall i | 0 <= i < |r|
      ensures r[i] in chars
    {
      if i > |a| {
        assert r[i] == b[i - |a| - 1];
      }
    }
  }

  lemma CAddPreserves(m: Grid, chars: seq<char>, pos: nat, cs: seq<char>)
    requires AllIn(cs, chars)
    requires |m| == 0 ==> |cs| == 1
    requires |m| > 0 ==> |cs| == |m| && pos <= |m[0]|
    ensures WellFormed(m) ==> WellFormed(CAdd(m, chars, pos, cs))
    ensures Rectangular(m) ==> Rectangular(CAdd(m, chars, pos, cs))
    ensures CellsIn(m, chars) ==> CellsIn(CAdd(m, chars, pos, cs), chars)
  {
    var r := CAdd(m, chars, pos, cs);
    if |m| > 0 && CellsIn(m, chars) {
      forall i | 0 <= i < |m|
        ensures AllIn(r[i], chars)
      {
        assert cs[i] in chars;
        InsertAtKeepsAlphabet(m[i], chars, pos, cs[i]);
      }
    }
  }

  lemma RDelPreserves(m: Grid, chars: seq<char>, pos: nat)
    requires |m| > 0 ==> pos < |m|
    ensures WellFormed(m) ==> WellFormed(RDel(m, pos))
    ensures CellsIn(m, chars) ==> CellsIn(RDel(m, pos), chars)
  {
    var r := RDel(m, pos);
    if |r| > 0 && WellFormed(m) {
      assert |r[0]| == |m[0]|;
    }
  }

  lemma {:induction false} DeleteColumnKeepsAlphabet(m: Grid, chars: seq<char>, pos: nat)
    requires CellsIn(m, chars)
    ensures CellsIn(DeleteColumn(m, pos), chars)
  {
    if m != [] {
      assert CellsIn(m[1..], chars) by {
        forall i | 0 <= i < |m| - 1
          ensures AllIn(m[1..][i], chars)
        {
          assert m[1..][i] == m[i + 1];
        }
      }
      DeleteColumnKeepsAlphabet(m[1..], chars, pos);
      var row := RemoveAt(m[0], pos);
      var a, b := Take(m[0], pos), Drop(m[0], pos + 1);
      assert AllIn(row, chars) by {
        assert AllIn(m[0], chars);
        assert row == a + b;
        forall i | 0 <= i < |row|
          ensures row[i] in chars
        {
          if i >= |a| {
            assert row[i] == b[i - |a|];
          }
        }
      }
    }
  }

  lemma CDelPreserves(m: Grid, chars: seq<char>, pos: nat)
    requires |m| > 0 && |m[0]| > 0 ==> pos < |m[0]|
    ensures WellFormed(m) ==> WellFormed(CDel(m, pos))
    ensures CellsIn(m, chars) ==> CellsIn(CDel(m, pos), chars)
  {
    if |m| > 0 && |m[0]| > 0 {
      if WellFormed(m) {
        CDelRectangular(m, pos);
      }
      if CellsIn(m, chars) {
        DeleteColumnKeepsAlphabet(m, chars, pos);
      }
    }
  }

  lemma ReplaceAtKeepsAlphabet(row: seq<char>, chars: seq<char>, col: nat, c: char)
    requires AllIn(row, chars) && c in chars
    ensures AllIn(ReplaceAt(row, col, c), chars)
  {
    var r := ReplaceAt(row, col, c);
    var a, b := Take(row, col), Drop(row, col + 1);
    assert r == a + [c] + b;
    forall j | 0 <= j < |r|
      ensures r[j] in chars
    {
      if j > |a| {
        assert r[j] == b[j - |a| - 1];
      }
    }
  }

  lemma MRplPreserves(m: Grid, chars: seq<char>, row: nat, col: nat, c: char)
    requires |m| > 0 && |m[0]| > 0 ==> row < |m| && col < |m[0]| && c in chars
    ensures WellFormed(m) ==> WellFormed(MRpl(m, chars, row, col, c))
    ensures CellsIn(m, chars) ==> CellsIn(MRpl(m, chars, row, col, c), chars)
  {
    if |m| > 0 && |m[0]| > 0 && CellsIn(m, chars) {
      var r := MRpl(m, chars, row, col, c);
      assert r == m[row := ReplaceAt(m[row], col, c)];
      ReplaceAtKeepsAlphabet(m[row], chars, col, c);
    }
  }

  // ---------------------------------------------------------------------------
  // The action mutators write only characters drawn from the alphabet
  // ---------------------------------------------------------------------------

  lemma ActionMutatorsKeepAlphabet(s: Actions, chars: seq<char>, pos: nat, c: char)
    requires AllIn(s, chars) && c in chars
    ensures pos <= |s| ==> AllIn(SAdd(s, chars, pos, c), chars)
    ensures pos < |s| || |s| == 0 ==> AllIn(SDel(s, pos), chars)
    ensures pos < |s| || |s| == 0 ==> AllIn(SRpl(s, chars, pos, c), chars)
  {
    if pos <= |s| {
      var r := SAdd(s, chars, pos, c);
      forall i | 0 <= i < |r|
        ensures r[i] in chars
      {
        if i > pos {
          assert r[(i - 1) + 1] == s[i - 1];
        }
      }
    }
  }
}
