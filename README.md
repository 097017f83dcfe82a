# Rust playground, modelled in Dafny

This project models three small Rust programs and proves properties of them.

- **`linked_list`**: a singly-linked list. It has an owning chain from `head`, a non-owning reference to the last node (`tail`) and a cached length `len`. Two forward iterators walk it. One yields copies of the values; the other yields the nodes themselves, so writes through them change the list.
- **`tictactoe`**: a console tic-tac-toe game. A typed move `"row,column"` is validated and converted to board indices. The board's state machine places the current player's mark and then looks for a winning line.
- **`rustbook`**: three exercises from the Rust book.
  - `mode` finds the most frequent value of a list.
  - `pig_latin` translates a word into Pig Latin.
  - `add_to_dept` files an employee under a department, keeping each department's list sorted.

Files:

- `wrappers.dfy` (module `Wrappers`): the `Option` and `Result` types that stand in for Rust's.
- `linked_list.dfy` (module `LinkedLists`):
  - classes `Node`, `LinkedList`, `LinkedListIterator` and `LinkedListIteratorMut`;
  - the list's public view is a ghost sequence `Contents`, with the nodes that hold it in `Nodes`;
  - every mutator is proved against that view and keeps the invariant `Valid()`.
- `tictactoe.dfy` (module `TicTacToe`):
  - `str::trim`, `str::split` and `u8::from_str` as functions, with their round trips;
  - the validator and the coordinate conversion;
  - the `Board` class over a 3-by-3 `array2<char>`, whose ghost `Cells` grid is its public view;
  - the sequence of lines the winner scan visits.
- `rustbook.dfy` (module `RustBook`):
  - `Mode` and the counting loop;
  - `PigLatin` and its lemmas;
  - `split_ascii_whitespace` as `Words`, with a round trip;
  - `String` ordering and `slice::binary_search`;
  - `AddToDept`, which takes the department map in and gives it back.

## Model

| member | source | states |
|---|---|---|
| LinkedLists.Node.constructor | linked_list/src/main.rs:20-22 | a new node holds the value and links nowhere |
| LinkedLists.LinkedList.constructor | linked_list/src/main.rs:48-54 | a new list is valid and empty: no head, no tail, length 0 |
| LinkedLists.LinkedList.Head | linked_list/src/main.rs:60-65 | the first value of the contents, or nothing for an empty list |
| LinkedLists.LinkedList.Tail | linked_list/src/main.rs:67-74 | the tail reference always resolves; it gives the last value of the contents, or nothing for an empty list |
| LinkedLists.LinkedList.Len | linked_list/src/main.rs:76-78 | the cached length equals the number of values in the chain |
| LinkedLists.LinkedList.IsEmpty | linked_list/src/main.rs:214-216 | true exactly when the contents are empty |
| LinkedLists.LinkedList.PushHead | linked_list/src/main.rs:80-94 | contents become `[x] + old`, head is `x` and length grows by one; the tail changes only when the list was empty; the invariant is kept |
| LinkedLists.LinkedList.PushBack | linked_list/src/main.rs:96-111 | contents become `old + [x]`, tail is `x` and length grows by one; the head changes only when the list was empty; the fallback for a tail that does not resolve is unreachable |
| LinkedLists.LinkedList.PopHead | linked_list/src/main.rs:113-123 | an empty list gives nothing and is unchanged; otherwise gives the first value, drops it from the contents, shrinks the length by one, and clears the tail exactly when the list becomes empty |
| LinkedLists.LinkedList.PopBack | linked_list/src/main.rs:125-163 | an empty list gives nothing and is unchanged; otherwise gives the last value and drops it, and with two or more nodes the former second-to-last node becomes the tail and links nowhere |
| LinkedLists.LinkedList.Clear | linked_list/src/main.rs:173-179 | leaves a valid empty list whatever the prior state, so clearing twice is clearing once |
| LinkedLists.LinkedList.Replace | linked_list/src/main.rs:181-194 | reports success exactly when `index < len`, including `index == len`, which passes the guard but finds no node; on success only that position changes, to the new value; the chain itself is untouched |
| LinkedLists.LinkedList.WriteThrough | linked_list/src/main.rs:188 | a write through a node handed out by the mutable iterator changes exactly that position of the list's contents |
| LinkedLists.LinkedList.IndexOf | linked_list/src/main.rs:196-203 | nothing exactly when the value is absent; otherwise the smallest position holding it |
| LinkedLists.LinkedList.Contains | linked_list/src/main.rs:205-212 | true exactly when the value occurs in the contents |
| LinkedLists.LinkedList.Iter | linked_list/src/main.rs:226-230 | the iterator starts at the head with the whole chain still to visit |
| LinkedLists.LinkedList.IterMut | linked_list/src/main.rs:232-236 | the mutable iterator starts at the head with the whole chain still to visit |
| LinkedLists.LinkedListIterator.Next | linked_list/src/main.rs:268-277 | yields the value of the next unvisited node and advances, then nothing once the chain is exhausted |
| LinkedLists.LinkedListIteratorMut.Next | linked_list/src/main.rs:293-302 | yields the next unvisited node itself, an alias rather than a copy, and advances, then nothing |
| LinkedLists.ContainsMatchesIndexOf | linked_list/src/main.rs:196-212 | `contains` is true exactly when `index_of` finds a position |
| LinkedLists.QueueOrder | linked_list/src/main.rs:96-123 | for two values pushed at the back, popping at the head gives them back in the order pushed, then nothing |
| LinkedLists.StackOrder | linked_list/src/main.rs:96-163 | for three values pushed at the back, popping at the back gives them back in reverse order, then nothing |
| LinkedLists.ReplaceThenFind | linked_list/src/main.rs:181-212 | replacing position 1 of a two-element list succeeds and position 2 fails; the new value is then found at position 1 |
| TicTacToe.Trim | tictactoe/src/main.rs:26 | the trimmed text neither starts nor ends with whitespace, is no longer than the input, and is empty exactly when the input is all whitespace |
| TicTacToe.TrimPadded | tictactoe/src/main.rs:26 | trimming undoes any whitespace padding around a text that has none at its ends |
| TicTacToe.Split | tictactoe/src/main.rs:26 | `str::split` gives at least one field; its round trips with `Join` are `JoinSplit` and `SplitJoin` |
| TicTacToe.SplitCount | tictactoe/src/main.rs:26 | splitting gives one more field than there are separators, and no field holds the separator |
| TicTacToe.JoinSplit | tictactoe/src/main.rs:26 | joining the fields of a split with the separator gives back the text |
| TicTacToe.SplitJoin | tictactoe/src/main.rs:26 | splitting separator-free fields joined by the separator gives back the fields |
| TicTacToe.DecimalRoundTrip | tictactoe/src/main.rs:38 | the decimal rendering of a number reads back as that number |
| TicTacToe.ParseByte | tictactoe/src/main.rs:38 | a parse succeeds only on an optional `+` followed by at least one decimal digit, and its value is that of the digits; every digit string worth at most 255 parses to its value, leading zeros included; a `+` in front of digits parses like the digits alone |
| TicTacToe.ParseDecimal | tictactoe/src/main.rs:38 | every `u8` written in decimal parses as itself |
| TicTacToe.CheckField | tictactoe/src/main.rs:35-48 | a field is accepted exactly when it parses as a `u8` within the range, and the accepted value is the parsed one; a field that does not parse is reported as such; field errors are never field-count errors |
| TicTacToe.ValidateFields | tictactoe/src/main.rs:25-51 | success yields exactly two numbers, both within the range, and they are the parses of the two comma-separated fields of the trimmed input, in order |
| TicTacToe.ValidateInput | tictactoe/src/main.rs:25-51 | as written: success yields exactly two numbers, both in 1..=9, and they are the parses of the two comma-separated fields of the trimmed input, in order |
| TicTacToe.ValidateCell | tictactoe/src/main.rs:42 | the corrected range check: success yields two numbers in 1..=3 whose conversion lies on the board |
| TicTacToe.FieldCountError | tictactoe/src/main.rs:26-33 | unless the trimmed input holds exactly one comma, the input is rejected for its field count |
| TicTacToe.RejectsBadField | tictactoe/src/main.rs:35-50 | with two fields, a first field that is not a `u8` is reported; a first field outside 1..=9 is rejected as out of range; a valid first field followed by a second that is not a `u8` reports the second |
| TicTacToe.AcceptsTypedMove | tictactoe/src/main.rs:25-51 | two numbers in 1..=9 typed as `a,b`, with any whitespace around them, are accepted as `[a, b]`, in input order |
| TicTacToe.ConvertCoord | tictactoe/src/main.rs:53-57 | each index is one less than its number |
| TicTacToe.ValidatedInputConverts | tictactoe/src/main.rs:25-57 | validated input always meets the conversion's requirements and gives indices below 9 |
| TicTacToe.ValidatedMoveOffBoard | tictactoe/src/main.rs:25-57 | as written, `"4,4"` is accepted and converts to a cell off the 3-by-3 board |
| TicTacToe.LineWinner | tictactoe/src/main.rs:107-114 | a line's winner, if any, is player 1 or player 2 |
| TicTacToe.CheckedLines | tictactoe/src/main.rs:78-105 | the lines the board scan visits: eight of them; which lines they are and in which order is stated by `ScanOutcome` and `WinnerFromRowsAndDiagonals` |
| TicTacToe.FirstWinner | tictactoe/src/main.rs:78-105 | the scan that stops at the first winning line: a winner is player 1 or 2, and a winning first line decides |
| TicTacToe.OneDistinct | tictactoe/src/main.rs:108 | a line holds exactly one distinct character exactly when it is non-empty and all its characters are equal |
| TicTacToe.FirstWinnerSome | tictactoe/src/main.rs:78-105 | a scan that stops at the first winning line finds a winner exactly when some line wins |
| TicTacToe.WinnerFromRowsAndDiagonals | tictactoe/src/main.rs:78-105 | the board's scan finds a winner exactly when a row or a diagonal is full of one mark; columns play no part |
| TicTacToe.ScanOutcome | tictactoe/src/main.rs:78-105 | the scan reports the first full line among row 0, row 1, row 2, the diagonal and the anti-diagonal, in that order |
| TicTacToe.NoWinnerWhileBlank | tictactoe/src/main.rs:78-114 | while every scanned line still holds a blank, no winner is found |
| TicTacToe.FullColumnIsMissed | tictactoe/src/main.rs:79-92 | a grid whose first column is all `O`, with no full row or diagonal, yields no winner |
| TicTacToe.AllLinesAddColumns | tictactoe/src/main.rs:79-103 | scanning every row, column and diagonal finds a winner exactly when the board's scan does or some column is full of one mark |
| TicTacToe.AllLines | tictactoe/src/main.rs:79-103 | the corrected scan's eight lines: every row, every column, both diagonals; `AllLinesAddColumns` relates it to the board scan |
| TicTacToe.PlaceMark | tictactoe/src/main.rs:68-70 | a mark placed on a blank cell keeps every cell blank, `O` or `X`, and adds one to the number of marked cells |
| TicTacToe.WithMarkChangesOneCell | tictactoe/src/main.rs:69 | a mark written into a cell is there afterwards, and the other eight cells keep their contents |
| TicTacToe.Board.constructor | tictactoe/src/main.rs:13-23 | a new board is valid: round 0, every cell blank, no winner |
| TicTacToe.Board.Winner | tictactoe/src/main.rs:116-118 | the recorded winner, if any, is player 1 or player 2 |
| TicTacToe.Board.IsMarked | tictactoe/src/main.rs:74-76 | true exactly when the cell holds a player's mark |
| TicTacToe.Board.Mark | tictactoe/src/main.rs:59-72 | with a winner already recorded, or on a marked cell, nothing changes; otherwise exactly that cell gets `O` on an even round and `X` on an odd one, the round grows by one, and the winner is the first winning line of the scan, if any |
| TicTacToe.Board.Place | tictactoe/src/main.rs:69 | one cell takes the mark and the other eight keep theirs |
| TicTacToe.Board.IterateBoard | tictactoe/src/main.rs:78-105 | the loop records the winner of the first full line among row 0, each row and the two diagonals, and otherwise leaves the winner as it was |
| TicTacToe.Board.FindWinner | tictactoe/src/main.rs:107-114 | reports a line as won exactly when all its cells hold one mark other than blank, then records player 1 for `O` and player 2 for any other mark; otherwise the winner is unchanged |
| TicTacToe.ReadMove | tictactoe/src/main.rs:148-154 | the validation step of the game loop, with the corrected range check: a move is accepted exactly when the check accepts it, and it then converts to a cell on the board |
| TicTacToe.Turn | tictactoe/src/main.rs:148-156 | one turn of the game loop, with the corrected range check: a rejected move, a move after a win, or a move onto a marked cell leaves the board unchanged; otherwise the target cell, on the board, takes the current player's mark and the other cells keep theirs, the round grows by one, and the winner is the first winning line of the scan, if any |
| TicTacToe.OpeningMoves | tictactoe/src/main.rs:59-105 | `O` at (0,0) then `X` at (1,1) leaves those two marks, round 2 and no winner |
| TicTacToe.ColumnGame | tictactoe/src/main.rs:59-105 | a game in which `O` fills the first column ends with no winner declared |
| RustBook.Mode | rustbook/src/main.rs:32-39 | for a non-empty list, the result occurs in the list and no value occurs more often |
| RustBook.PigLatin | rustbook/src/main.rs:41-51 | when the lower-cased first letter is a vowel, the result is the whole word, case kept, then `-hay`; otherwise it is the word less its first letter, then `-`, the lower-cased first letter and `ay` |
| RustBook.PigLatinVowelWord | rustbook/src/main.rs:42-44 | a word starting with a vowel is kept whole, case included, and followed by `-hay` |
| RustBook.PigLatinConsonantWord | rustbook/src/main.rs:45-49 | a word starting with a lower-case consonant is recovered by moving the letter before `ay` back to the front |
| RustBook.PigLatinAmbiguous | rustbook/src/main.rs:41-51 | the translation has no inverse: a vowel word and the same word with `h` in front translate alike |
| RustBook.LeadingWord | rustbook/src/main.rs:54 | the first word is the longest whitespace-free prefix of the text |
| RustBook.Words | rustbook/src/main.rs:54 | every word is non-empty and free of ASCII whitespace |
| RustBook.WordsUnwords | rustbook/src/main.rs:54 | splitting words joined by single spaces gives the words back |
| RustBook.Less | rustbook/src/main.rs:59 | the `String` ordering `binary_search` uses is strict: no name is less than itself |
| RustBook.LessIrreflexive | rustbook/src/main.rs:59 | no name sorts before itself |
| RustBook.LessAsymmetric | rustbook/src/main.rs:59 | two names are never each less than the other |
| RustBook.LessTransitive | rustbook/src/main.rs:59 | the name ordering is transitive |
| RustBook.LessTotal | rustbook/src/main.rs:59 | any two different names are ordered one way or the other |
| RustBook.BinarySearch | rustbook/src/main.rs:59-62 | `Ok` points at an equal element; on a sorted list, `Ok` comes back exactly when the name is present, and `Err` gives the position with smaller names before it and larger names after it |
| RustBook.InsertSorted | rustbook/src/main.rs:61 | inserting at that position keeps a strictly sorted list strictly sorted |
| RustBook.AddToDept | rustbook/src/main.rs:53-64 | other departments are unchanged; a new department gets `[name]`; an existing department keeps its names and gains `name`; on a sorted list a present name changes nothing and an absent one is inserted, keeping the list sorted and duplicate-free; a sorted directory stays sorted |

## Left out

- Reference counting (`Rc`, `RefCell`, `Weak`) is abstracted to plain references. `tail` is a reference to the last node, or `null` when the list is empty. Out of scope:
  - the panics of `Rc::try_unwrap(..).ok().unwrap()` in `pop_head` and `pop_back` while an iterator still holds a node;
  - borrow-checking failures;
  - a `Weak` that no longer upgrades.
- The `push_back` fallback for a tail that does not upgrade, which overwrites `head`, is unreachable under the list invariant. The model writes no code for it.
- `from`, `insert_at` and `remove_at` only call `unimplemented!()`, so there is no behaviour to model.
- `into_iter` is not modelled. It builds the same read iterator as `iter`, but consumes the list, which the model has no notion of.
- Not modelled because they are console output or demo drivers:
  - `display` in the linked list;
  - `output` on the board;
  - the three `main` functions. One pass of the tic-tac-toe loop is kept as `ReadMove` and `Turn`; the line reading and printing are not modelled.
- `median` is left out: it computes in `f64`.
- The integer widths are unbounded in the model:
  - `usize` lengths and indices;
  - the board's `i32` round, which the invariant bounds by 9;
  - the `i32` counts of `mode`.
  
  `u8` is modelled as the subset type `Byte`, and the parse rejects values above 255.
- The text of error messages is not modelled. Validation errors are the abstract `InputError`: a field-count error, a field that is not a `u8`, or a number out of range.
- RustBook.PigLatin: lower-casing is restricted to ASCII letters. Rust's full Unicode `to_lowercase` is a library call, and the model does not reproduce it.
- RustBook.Mode: the result is only promised to be some most frequent value. On a tie, Rust returns the last maximal entry in the `HashMap`'s iteration order, which is a library detail.
- RustBook.AddToDept: it requires at least four words in the instruction, because the source panics on fewer. On an unsorted department list, `binary_search`'s position is unspecified, and the model promises only that the list keeps its names and gains the new one.
- RustBook.BinarySearch: Rust does not fix the probe sequence, so the model uses one lower-bound search. On an unsorted list, only the bounds and "`Ok` points at an equal element" are promised.
- The board keeps `iterate_board` as written, without columns. The rule with columns is stated separately, as `AllLines` and `AllLinesAddColumns`.

## Findings

| source | as written | input that shows it | evidently intended | confidence | as-written member | corrected member |
|---|---|---|---|---|---|---|
| tictactoe/src/main.rs:42 | each number is accepted in 1..=9, but the board is 3 by 3 | `4,4` is accepted as `[4, 4]` and converts to (3, 3), off the board, so indexing in `mark` panics | each number lies in 1..=3, so that every accepted move is a cell of the board | not executed | TicTacToe.ValidatedMoveOffBoard | TicTacToe.ValidateCell |
| tictactoe/src/main.rs:79-92 | the loop checks row 0 and each row, never a column | `O` at (0,0), `X` at (1,1), `O` at (1,0), `X` at (2,1), `O` at (2,0): `O` fills the first column and no winner is declared | a full column wins like a full row or diagonal | not executed | TicTacToe.FullColumnIsMissed | TicTacToe.AllLinesAddColumns |
