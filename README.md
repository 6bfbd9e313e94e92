# jpacman guests and fuzzer mutators in Dafny

This project models two self-contained parts of a Pacman testing repository.

**The Player and Wall guests of the game model (`jpacman.model`).** A guest is
an object standing on a board cell. When a player or a monster tries to move
into the cell, the guest already there decides the move by double dispatch. It
is asked `meetPlayer` or `meetMonster`, answers whether the move may go ahead,
and may mark a side effect on the move being built.

- The `Player` is a class. It holds its points eaten (a Java `int`), an alive
  flag, and the last direction moved.
  - `Eat` adds points with Java's wrapping `int` addition.
  - `Die` makes death one-way: its precondition requires a living player.
  - A monster bumping into the player is refused, and the move is marked as
    lethal.
  - Another player bumping in is refused, and nothing changes.
- The `Wall` has no state, so it is a one-value datatype. Every move into a
  wall is refused, and the move is left as it was.
- `Move` is a minimal stand-in for the move classes. It holds the mover kind,
  the moving player, an `initialized` flag and a `playerDies` flag.
- The guest superclass's own invariant is represented by a ghost flag, `guestOk`.

**The input mutators of the black-box mutation fuzzer (`src/fuzz`).**
- Three mutators edit an action string: `sadd`, `sdel` and `srpl`.
- Five edit a map kept as a list of row strings: `radd`, `cadd`, `rdel`, `cdel`
  and `mrpl`.
- Each random draw is a parameter, constrained to the range that the random call
  produces: a position, or a character or row drawn from the alphabet.
- Python's clamping of out-of-range slice bounds is written out in `Take` and
  `Drop`. It decides what `cadd`, `cdel` and `mrpl` do to a row shorter than the
  first row.

The lemmas prove three kinds of property:
- Six mutators are undone by another call that restores their input:
  - `sadd` is undone by `sdel` at the same position;
  - `sdel` is undone by `sadd` of the deleted character;
  - `srpl` is undone by writing the old character back;
  - `radd` is undone by `rdel` at the same position;
  - `cadd` is undone by `cdel` at the same position, on well-formed maps;
  - `mrpl` is undone by writing the old cell back, on rectangular maps.
- All three deleters lose information: two different inputs can give the same
  result. Even so, the deleted part can be put back, except in two cases:
  - `rdel` is undone by `radd` of the deleted row on a well-formed map, except
    when it removes a single row wider than one cell: `radd` on the empty map
    only inserts a row one cell wide.
  - `cdel` is undone by `cadd` of the deleted column on a well-formed map,
    except when it empties a one-column map of several rows: `cadd` on the
    empty map only adds one row.
- Every map mutator keeps the well-formed maps well formed. A map is well formed
  when it is empty, or rectangular and at least one column wide. The width
  bound is needed: `radd` on `[""]` inserts a row one cell wide (the new width
  is `max(1, 0)`), so a rectangular map of width 0 does not stay rectangular.
- No mutator ever writes a character from outside the alphabet.

`Player.java:37-43` says that a player cannot eat negative food. `eat`
(`Player.java:70-76`), however, accepts any `foodPoints` that keeps the counter
non-negative, so `Eat` admits negative meals as well. The check after the
addition also rules out wrap-around: a non-negative counter plus an `int` that
stays non-negative never leaves the 32-bit range.

The length check that `sdel` asserts (`mutation_fuzzer.py:103`) is the
ensures `|s| > 0 ==> |r| == |s| - 1` of `SDel`.

## Model

| member | source | states |
|---|---|---|
| `JavaInt.Wrap` | src/main/java/jpacman/model/Player.java:73 | Java's `int` sum: the result is in the 32-bit range, congruent to the mathematical sum modulo 2^32, equal to it when no overflow occurs, and 2^32 below it when it overflows once |
| `JPacmanModel.Player.PlayerInvariant` | src/main/java/jpacman/model/Player.java:41-43 | the guest invariant holds and the points eaten are not negative; a ghost predicate here, a public boolean method in Java |
| `JPacmanModel.Player.constructor` | src/main/java/jpacman/model/Player.java:31-34 | a new player is alive, has eaten 0 points, satisfies the player invariant (points never negative) and has last direction (0, 0) |
| `JPacmanModel.Player.Living` | src/main/java/jpacman/model/Player.java:50-52 | reports whether the player is alive |
| `JPacmanModel.Player.GetPointsEaten` | src/main/java/jpacman/model/Player.java:59-61 | returns the points eaten; the result is never negative while the player invariant of lines 41-43 holds |
| `JPacmanModel.Player.Eat` | src/main/java/jpacman/model/Player.java:70-76 | requires the invariant, a living player and a non-negative wrapped sum (the check of line 75); adds exactly `foodPoints`, since those requirements rule out wrap-around; the player stays alive and the invariant is kept |
| `JPacmanModel.Player.Die` | src/main/java/jpacman/model/Player.java:82-87 | requires a living player that satisfies the invariant; afterwards the player is dead, the points are unchanged and the invariant still holds, so a second `Die` is ruled out |
| `JPacmanModel.Player.MeetPlayer` | src/main/java/jpacman/model/Player.java:102-109 | for an uninitialized move of this very player: the move is refused, and neither the move nor the player changes (a function) |
| `JPacmanModel.Player.MeetMonster` | src/main/java/jpacman/model/Player.java:122-131 | for an uninitialized monster move: the move is refused, marked as killing the player and still uninitialized; only its `playerDies` flag may change |
| `JPacmanModel.Player.GuestType` | src/main/java/jpacman/model/Player.java:138-140 | the player's type code, distinct from the wall, food, monster and empty codes |
| `JPacmanModel.Player.SetLastDirection` | src/main/java/jpacman/model/Player.java:153-156 | afterwards `GetLastDx` and `GetLastDy` return the given values; the alive flag and the points are unchanged |
| `JPacmanModel.Player.GetLastDx` | src/main/java/jpacman/model/Player.java:145-147 | returns the most recent x advancement |
| `JPacmanModel.Player.GetLastDy` | src/main/java/jpacman/model/Player.java:161-163 | returns the most recent y advancement |
| `JPacmanModel.Wall.MeetPlayer` | src/main/java/jpacman/model/Wall.java:26-31 | for an uninitialized player move: always refused; the move is not changed (a function of a stateless wall, so the answer cannot depend on history) |
| `JPacmanModel.Wall.MeetMonster` | src/main/java/jpacman/model/Wall.java:41-47 | for an uninitialized monster move: always refused, and the move (its "player dies" flag included) is not changed |
| `JPacmanModel.Wall.GuestType` | src/main/java/jpacman/model/Wall.java:54-56 | the wall's type code, distinct from the player, food, monster and empty codes |
| `JPacmanModel.EatOneFood` | src/test/java/jpacman/model/PlayerMoveTest.java:107-115 | a new player that eats one food item has exactly one point and is alive |
| `JPacmanModel.EatThenDie` | src/main/java/jpacman/model/Player.java:70-87 | a new player that eats a meal and then dies is dead and keeps exactly the meal's points |
| `JPacmanModel.BumpScenarios` | src/main/java/jpacman/model/Player.java:122-131 | a monster bumping into the player is refused and lethal; a player bumping into a wall is refused and not lethal |
| `MutationFuzzer.Take` | src/fuzz/mutation_fuzzer.py:92 | Python `s[:k]`: the first `k` elements, or all of `s` when `k` is past the end |
| `MutationFuzzer.Drop` | src/fuzz/mutation_fuzzer.py:92 | Python `s[k:]`: the elements from `k` on, or nothing when `k` is past the end |
| `MutationFuzzer.SAdd` | src/fuzz/mutation_fuzzer.py:89-94 | for `pos` at most the length and `c` in the alphabet: one longer, `c` at `pos`, the characters before `pos` kept and the rest shifted up by one |
| `MutationFuzzer.SDel` | src/fuzz/mutation_fuzzer.py:97-104 | an empty string is returned unchanged; otherwise one shorter, with exactly the character at `pos` removed |
| `MutationFuzzer.SRpl` | src/fuzz/mutation_fuzzer.py:107-114 | an empty string is returned unchanged; otherwise the same length, with `c` at `pos` and every other character kept |
| `MutationFuzzer.NewRowLength` | src/fuzz/mutation_fuzzer.py:122-124 | the width of a new row: that of the first row, but 1 for an empty map or an empty first row |
| `MutationFuzzer.RAdd` | src/fuzz/mutation_fuzzer.py:117-129 | one more row, `row` at `pos`, the rows before `pos` kept and the rest shifted down by one |
| `MutationFuzzer.InsertAt` | src/fuzz/mutation_fuzzer.py:140 | one character longer; within the row, removing the new character at `pos` gives back the row; past its end, the character is appended |
| `MutationFuzzer.CAdd` | src/fuzz/mutation_fuzzer.py:132-144 | an empty map gets the one-cell row, as `radd` would add; otherwise the same number of rows, each one longer, with its own new character at column `pos` (appended to rows shorter than `pos`) |
| `MutationFuzzer.RDel` | src/fuzz/mutation_fuzzer.py:147-154 | an empty map is returned unchanged; otherwise one row fewer, with exactly row `pos` removed |
| `MutationFuzzer.RemoveAt` | src/fuzz/mutation_fuzzer.py:166 | within the row, exactly the character at `pos` is removed; past its end, the row is unchanged |
| `MutationFuzzer.DeleteColumn` | src/fuzz/mutation_fuzzer.py:163-167 | never more rows than before, and no empty row in the result; its row-by-row contents are stated by the three lemmas below |
| `MutationFuzzer.CDel` | src/fuzz/mutation_fuzzer.py:157-168 | a map that is empty or has an empty first row is returned unchanged; otherwise the result is the column deletion of every row (no more rows than before, none of them empty) |
| `MutationFuzzer.ReplaceAt` | src/fuzz/mutation_fuzzer.py:180 | within the row, same length with `c` at `col` and every other character kept; past its end, `c` is appended |
| `MutationFuzzer.MRpl` | src/fuzz/mutation_fuzzer.py:171-181 | a map that is empty or has an empty first row is returned unchanged; otherwise the same rows except row `row`, whose cell `col` becomes `c` with its length kept (or `c` is appended when the row is too short) |
| `MutatorProperties.SAddThenSDel` | src/fuzz/mutation_fuzzer.py:89-104 | deleting at `pos` the character that `sadd` inserted there gives back the original string |
| `MutatorProperties.SDelThenSAdd` | src/fuzz/mutation_fuzzer.py:89-104 | inserting the deleted character back at `pos` gives back the original string |
| `MutatorProperties.SRplUndo` | src/fuzz/mutation_fuzzer.py:107-114 | replacing at `pos` again with the old character gives back the original string |
| `MutatorProperties.RAddThenRDel` | src/fuzz/mutation_fuzzer.py:117-154 | deleting the row that `radd` inserted gives back the original map |
| `MutatorProperties.CAddThenCDel` | src/fuzz/mutation_fuzzer.py:132-168 | on a well-formed map, deleting the column that `cadd` inserted gives back the original map (an empty map included) |
| `MutatorProperties.MRplUndo` | src/fuzz/mutation_fuzzer.py:171-181 | on a rectangular map, replacing the same cell again with its old character gives back the original map |
| `MutatorProperties.RDelThenRAdd` | src/fuzz/mutation_fuzzer.py:117-154 | on a well-formed map, inserting the deleted row back at `pos` gives back the map, unless the map was a single row wider than one cell |
| `MutatorProperties.InsertAtRemoveAt` | src/fuzz/mutation_fuzzer.py:140-166 | putting a character removed from a row back at its column gives back the row |
| `MutatorProperties.CDelThenCAdd` | src/fuzz/mutation_fuzzer.py:132-168 | on a well-formed map over the alphabet, inserting the deleted column back at `pos` gives back the map, unless the map was one column wide with several rows; a one-column single row becomes `[]` first |
| `MutatorProperties.DeletersLoseInformation` | src/fuzz/mutation_fuzzer.py:97-168 | `sdel` of `"a"` and of `"b"` are both empty, `rdel` of `["a"]` and of `["b"]` are both `[]`, and so are `cdel` of `["a","b"]` and of `["c"]` |
| `MutatorProperties.RDelOfWideRowIsFinal` | src/fuzz/mutation_fuzzer.py:117-154 | after `rdel` removes the only row, wider than one cell, no `radd` gives the map back, since the new row has width `max(1, 0)` |
| `MutatorProperties.CDelOfOneColumnIsFinal` | src/fuzz/mutation_fuzzer.py:132-168 | `cdel` turns a one-column map of several rows into `[]`, and no `cadd` gives it back, since `cadd` on `[]` adds a single row |
| `MutatorProperties.RAddOnZeroWidthMap` | src/fuzz/mutation_fuzzer.py:122-129 | `[""]` is not well formed, and `radd` of it at the end is not rectangular |
| `MutatorProperties.DeleteColumnRowwise` | src/fuzz/mutation_fuzzer.py:163-167 | column deletion distributes over stacking maps, so order is kept; a single row survives, with column `pos` cut out, exactly when that leaves it non-empty |
| `MutatorProperties.DeleteColumnKeepsAll` | src/fuzz/mutation_fuzzer.py:163-167 | when no row is emptied, every row survives in order with column `pos` cut out, and a row too short to have that column survives unchanged |
| `MutatorProperties.DeleteColumnDropsAll` | src/fuzz/mutation_fuzzer.py:163-167 | when every row is emptied, no row survives |
| `MutatorProperties.DeleteColumnUniform` | src/fuzz/mutation_fuzzer.py:163-167 | rows all of width `w`: width 1 leaves no rows; a greater width keeps every row, in order, with column `pos` cut out |
| `MutatorProperties.CDelRectangular` | src/fuzz/mutation_fuzzer.py:157-168 | on a rectangular map: one column leaves `[]`; a width of 2 or more keeps the row count, and each row loses exactly column `pos` |
| `MutatorProperties.RAddPreserves` | src/fuzz/mutation_fuzzer.py:117-129 | `radd` keeps a well-formed map well formed and keeps every cell in the alphabet |
| `MutatorProperties.InsertAtKeepsAlphabet` | src/fuzz/mutation_fuzzer.py:140 | inserting a character from the alphabet into a row over the alphabet stays within the alphabet |
| `MutatorProperties.CAddPreserves` | src/fuzz/mutation_fuzzer.py:132-144 | `cadd` keeps a well-formed map well formed, keeps a rectangular map rectangular (one of width 0 included) and keeps every cell in the alphabet |
| `MutatorProperties.RDelPreserves` | src/fuzz/mutation_fuzzer.py:147-154 | `rdel` keeps a well-formed map well formed and keeps every cell in the alphabet |
| `MutatorProperties.DeleteColumnKeepsAlphabet` | src/fuzz/mutation_fuzzer.py:163-167 | removing a column never brings in a character from outside the alphabet |
| `MutatorProperties.CDelPreserves` | src/fuzz/mutation_fuzzer.py:157-168 | `cdel` keeps a well-formed map well formed and keeps every cell in the alphabet |
| `MutatorProperties.ReplaceAtKeepsAlphabet` | src/fuzz/mutation_fuzzer.py:180 | replacing a cell of a row over the alphabet with a character from the alphabet stays within the alphabet |
| `MutatorProperties.MRplPreserves` | src/fuzz/mutation_fuzzer.py:171-181 | `mrpl` keeps a well-formed map well formed and keeps every cell in the alphabet |
| `MutatorProperties.ActionMutatorsKeepAlphabet` | src/fuzz/mutation_fuzzer.py:89-114 | `sadd`, `sdel` and `srpl` turn a string over the alphabet into another string over the alphabet |

## Left out

- Fuzzer drivers: `mutation_fuzzer()` (mutation_fuzzer.py:10-81), `random_fuzzer.py` and `fuzzer.py` are left out. They open files, run the game jar as a subprocess, read the clock and draw random numbers.
- Random draws: their distribution is not modelled. Each draw is a parameter that ranges over the values the random call can produce.
- Empty alphabet: `random.choice` (mutation_fuzzer.py:92, 112, 140, 180) and `random.choices` (line 126) raise `IndexError` on an empty alphabet. The preconditions that the drawn characters come from the alphabet rule this case out, so the exception is not modelled.
- Exit filter: the driver keeps an action string only if it ends with the exit action (mutation_fuzzer.py:39-42). This filter is not modelled. `mutfuzz_actions[-1]` would raise an `IndexError` on an empty action string, which `sdel` can produce from a one-action seed.
- Alphabets: the alphabets are parameters. `constants.py` is data only, and it defines no map-cell alphabet, although the driver and the tests use one.
- Alphabet entries: each entry is modelled as a single character. The Python lists hold strings, and a multi-character entry would change the lengths.
- Unused arguments: the `*args` of `sdel`, `rdel` and `cdel` are ignored by the source, so those functions take no alphabet.
- Guest superclass: `Guest.guestInvariant` is not part of this model. For the player it is the ghost flag `guestOk`. A new player is assumed to satisfy it, and no player operation changes it.
- Wall invariant: the wall's own `guestInvariant` assert is not modelled, because a wall has no state in this model.
- Type codes: `Guest.java` is not part of this model, so the codes are an assumption. They are the characters the level maps in `EngineTest.java:34-37` and `test.py:35-43` use: '0' for an empty cell, 'F', 'W', 'P' and 'M'. Only their distinctness is relied on.
- Move classes: `PlayerMove`, `MonsterMove`, `Food`, `Monster`, `Cell`, `Board` and `Engine` are not part of this model. Of the moves, only the state that `meetPlayer` and `meetMonster` read and write is kept. The end-to-end property that a monster moving onto the player puts the engine in the Died state is not modelled.
- `JPacmanModel.Move.Die`: its own precondition in `MonsterMove` is not visible, so it has none here.
- Java assertions: the model treats them as contracts that always hold. With assertions disabled at run time, Java would not check them.
- Observers and mocks: observer notification and the jMock-based test scaffolding are left out.
