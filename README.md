# Caret mapping, bracket labels and formula tokens

This project is a Dafny model of the text-processing core of three
contenteditable editor experiments:

- **The bracket-label editor** (`src/stories/PseudoCaret.tsx`).
  - `parse` splits the editor text into *normal* blocks and *label* blocks `[...]`.
    A label opens at the right-most `[` before the first `]` that follows the first `[`.
  - `toHtml` renders each block as one `<span>`. A label is rendered as a
    `contenteditable="false"` widget.
  - `countChars`, `getCaretPosition`, `findNode` and `moveCaret` convert between
    a place in the rendered tree and a *virtual* caret offset. In that offset a
    label widget counts as one character.
- **The plain editor** (`src/stories/Editor.tsx`). This is the same caret
  mapping without widgets: offsets count text characters only.
- **The formula builder** (`src/stories/FormulaBuilder.tsx`).
  - `StatementParser` is a cursor (`currentPointer`) over a statement string.
    It skips whitespace and reads numbers, variables `${name}`, the operators
    `+ - * /` and parentheses. It throws on anything else and never finishes
    on an unterminated `${`.
  - The token rendering and the `${name}` chip text show how a statement is
    printed back.

Modules:

- **Dom** (`dom.dfy`) holds the rendered tree as a datatype.
  - A node is a text node with a length, or an element with an id, a tag name,
    an *atomic* flag (`contenteditable="false"`) and children.
  - Node ids stand for object identity (`head === target`).
  - The module also holds the generic document-order walks and the running-sum
    scan that both `findNode`s perform.
- **BlockParser** models `parse` and `toHtml`. **PseudoCaret** models the
  label-aware caret mapping. **Editor** models the plain caret mapping.
  - These are pure recursive functions.
  - The `while (true)` search for the innermost `[` is the method `MostNearStart`.
  - The focus-offset correction loop of `getCaretPosition` is the method
    `CorrectFocusOffset`.
  - The selection, which the browser holds, is an input. The place where
    `moveCaret` would put the caret is an output.
- **FormulaBuilder** models `StatementParser` as a class.
  - `currentPointer` is a mutable field, and `GetChar`, `GetToken` and `Parse`
    are methods with loop invariants.
  - Each method is proved equal to a pure function (`ReadChar`, `ScanToken`,
    `Tokenize`). The properties are proved about those functions.
  - A thrown `Error` and the endless loop are the `Throws` and `Diverges` cases
    of an `Outcome`.

The model follows the code as written:

- `parse("[[ab]")` gives a normal block `"["` and then a label `"[ab]"`.
- The `start` of a block is relative to the text that remained when its step
  began. Only the blocks of the first step carry absolute indices.
- `findNode` gives a `<br>` the virtual length 1, but `countChars` gives it 0.
  So the move/read round trip holds only in trees without `<br>`
  (`LineBreakCountedOnlyByFind` shows the mismatch).
- An offset past the end makes `moveCaret` do nothing. The caret is not pinned
  to the last leaf.
- There is no deletion-specific (Backspace/Delete) reconciliation.

## Model

| member | source | states |
|---|---|---|
| Dom.FirstReachingNone | src/stories/Editor.tsx:24-34 | The running-sum scan of `findNode` finds nothing exactly when there are no leaves or the total stays below the offset. |
| Dom.FirstReachingFound | src/stories/Editor.tsx:24-34 | Whatever the scan returns is the first leaf whose running total reaches the offset, with the overshoot as `diff`. |
| Dom.FirstReachingAt | src/stories/Editor.tsx:24-34 | Conversely, the first leaf whose running total reaches the offset is what the scan returns. |
| Dom.FirstReachingBounds | src/stories/Editor.tsx:30-32 | From a start at or below the offset, `diff` lies between 0 and the chosen leaf's length, and the leaf is one of the leaves. |
| BlockParser.IndexOf | src/stories/PseudoCaret.tsx:110 | `indexOf` gives -1 or an index at or after `from` that holds the character. |
| BlockParser.IndexOfFirst | src/stories/PseudoCaret.tsx:110-114 | -1 means the character does not occur from `from` on; otherwise no earlier index holds it. |
| BlockParser.LastOpenBefore | src/stories/PseudoCaret.tsx:116-121 | The innermost `[` lies between the first `[` and the `]` and holds a `[`. |
| BlockParser.LastOpenBeforeIsLast | src/stories/PseudoCaret.tsx:116-121 | No `[` lies between the innermost `[` and the `]`. |
| BlockParser.MostNearStart | src/stories/PseudoCaret.tsx:116-121 | The `while (true)` loop ends on the right-most `[` before `endIndex`. |
| BlockParser.Parse | src/stories/PseudoCaret.tsx:107-131 | `parse` only appends to the accumulator: the blocks passed in are a prefix of the result. |
| BlockParser.ParseRoundTrip | src/stories/PseudoCaret.tsx:123-130 | Concatenating the texts of the blocks `parse` appends gives back the input text. |
| BlockParser.ParseShape | src/stories/PseudoCaret.tsx:110-130 | The appended blocks alternate normal, label, normal, …, starting with a normal block. Every label starts with `[`, ends with `]` and holds no other bracket. |
| BlockParser.StepLabel | src/stories/PseudoCaret.tsx:116-124 | The label a step cuts out has the label shape. |
| BlockParser.ParsePlain | src/stories/PseudoCaret.tsx:108-114 | Empty text leaves the accumulator unchanged. Text with no `[` that a later `]` closes (including a `]` before every `[`) becomes exactly one normal block. Other text yields at least two blocks. |
| BlockParser.ParseStep | src/stories/PseudoCaret.tsx:110-130 | A step, without the search functions: normal text up to the right-most `[` before the first `]` after the first `[`, a label up to that `]` with its start relative to the current text, and a recursion from `endIndex + 1`. |
| BlockParser.ParseNested | src/stories/PseudoCaret.tsx:116-124 | `"[[ab]"` parses to normal `"["` and label `"[ab]"` at 1. |
| BlockParser.ParseLabelFirst | src/stories/PseudoCaret.tsx:110-130 | A text that starts with a label yields an empty normal block, then the label at 0, then the parse of the rest started from the label's length. |
| BlockParser.ParseWholeLabel | src/stories/PseudoCaret.tsx:110-130 | A text that is one label yields an empty normal block and the label. |
| BlockParser.ParseAdjacent | src/stories/PseudoCaret.tsx:110-130 | Two adjacent labels stay two labels, each preceded by an empty normal block. The second label's start is 0, relative to the remainder. |
| BlockParser.ParseClosed | src/stories/PseudoCaret.tsx:107-131 | `"a[b]"` parses to normal `"a"` and label `"[b]"` at 1. |
| BlockParser.ParseUnbracketed | src/stories/PseudoCaret.tsx:108-111 | `"ab"` parses to one normal block. |
| BlockParser.Labels | src/stories/PseudoCaret.tsx:46-47 | The `filter` keeps exactly the label blocks: each block kept is a label of the input, and every label of the input is kept. It never returns more blocks than it is given. |
| BlockParser.LabelsAppend | src/stories/PseudoCaret.tsx:46-47 | The `filter` keeps the input order: the labels of two block lists in a row are the labels of the first, then those of the second. |
| BlockParser.LabelsKeepAll | src/stories/PseudoCaret.tsx:46-48 | The label count equals the block count exactly when every block is a label. |
| BlockParser.BlockHtml | src/stories/PseudoCaret.tsx:136-140 | The `map` callback of `toHtml`: a normal block is a plain `<span>` around its text, and a label is an empty `contenteditable="false"` span carrying the text in `data-text`. `ToHtmlAppend` shows how these are joined. |
| BlockParser.ToHtml | src/stories/PseudoCaret.tsx:133-142 | `toHtml` maps each block to its span and joins them with `""`. `ToHtmlAppend` characterises it: appending blocks appends their HTML, and one block gives its own span. |
| BlockParser.ToHtmlAppend | src/stories/PseudoCaret.tsx:133-142 | The HTML of a block list is the span of each block joined in order. The empty list gives `""` and one block gives its own span. |
| Editor.CountChars | src/stories/Editor.tsx:9-16 | Plain `countChars`: the text lengths before the target node, entering elements. `CountCharsWalk` characterises it as a sum over the document-order walk. |
| Editor.GetCaretPosition | src/stories/Editor.tsx:4-18 | Plain `getCaretPosition`: 0 without a selection, otherwise `countChars` up to the focus node plus the focus offset. `MoveThenGetCaret` relates it to `moveCaret`. |
| Editor.FindNode | src/stories/Editor.tsx:24-34 | Plain `findNode`: the childless node whose running text length first reaches the offset, with the overshoot. `FindNodeLeaves`, `LeavesAreChildless` and `FindNodeInWalk` characterise it. |
| Editor.MoveCaret | src/stories/Editor.tsx:20-45 | Plain `moveCaret`: the node found and the offset `length - diff` inside it, or nothing. `MoveCaretSpec` characterises it, and `MoveThenGetCaret` shows `getCaretPosition` reads it back. |
| Editor.CountCharsWalk | src/stories/Editor.tsx:9-16 | Plain `countChars` sums the text lengths of the nodes before the target in document order. Without a target it sums all of the text. |
| Editor.FindNodeLeaves | src/stories/Editor.tsx:24-34 | Plain `findNode` is the running-sum scan over the childless nodes in document order. |
| Editor.LeavesHoldAllText | src/stories/Editor.tsx:24-34 | The childless nodes hold all of the editor's text. |
| Editor.LeavesAreChildless | src/stories/Editor.tsx:27-29 | `findNode` stops only at nodes without children. |
| Editor.FindNodeInWalk | src/stories/Editor.tsx:24-34 | The node found is a node of the tree. |
| Editor.MoveCaretSpec | src/stories/Editor.tsx:20-40 | Plain `moveCaret` places the caret exactly when there is a selection and the offset is at most the text length. It chooses the first leaf whose running length reaches the offset. For an offset that is not negative, the caret lands between 0 and that leaf's length. |
| Editor.BoundaryPrefersEarlierNode | src/stories/Editor.tsx:30-32 | At a boundary between two text nodes the earlier node wins, with the caret at its end. |
| Editor.FindThenCount | src/stories/Editor.tsx:9-16 | The characters before the node found, plus the offset placed in it, give the offset searched for. |
| Editor.MoveThenGetCaret | src/stories/Editor.tsx:4-45 | For every offset from 0 to the text length, `getCaretPosition` after `moveCaret` reports that offset. |
| PseudoCaret.IsCustomComponent | src/stories/PseudoCaret.tsx:18-22 | A widget is an element marked `contenteditable="false"`. `CountCharsWalk` and `FindNodeLeaves` show that widgets count as one character and are never entered. |
| PseudoCaret.CountChars | src/stories/PseudoCaret.tsx:24-35 | Label-aware `countChars`. `CountCharsWalk` characterises it as the virtual offset of the target in the document-order walk. |
| PseudoCaret.FindNode | src/stories/PseudoCaret.tsx:71-85 | Label-aware `findNode`. `FindNodeLeaves` characterises it as the running-sum scan over leaves, and `FindNodeInWalk` places its result in the tree. |
| PseudoCaret.MoveCaret | src/stories/PseudoCaret.tsx:67-99 | Label-aware `moveCaret`: after the widget found, or at `max(length - diff, 0)` in the node found. `MoveCaretSpec` characterises it, and `MoveThenCount` shows counting back gives the offset. |
| PseudoCaret.CountCharsWalk | src/stories/PseudoCaret.tsx:24-35 | Label-aware `countChars` sums the virtual lengths of the nodes before the target: 1 per widget, whose children are never visited, and the length of each text node. It adds 1 when the target is a `DIV`, and gives the full total when the target is absent. |
| PseudoCaret.FindNodeLeaves | src/stories/PseudoCaret.tsx:71-85 | Label-aware `findNode` is the running-sum scan over the leaves, with widgets as leaves. Widgets and `<br>` count 1. |
| PseudoCaret.FindNodeInWalk | src/stories/PseudoCaret.tsx:71-85 | The leaf found is a node of the tree. |
| PseudoCaret.MoveCaretSpec | src/stories/PseudoCaret.tsx:67-96 | `moveCaret` places the caret exactly when there is a selection and the offset is at most the virtual length. It chooses the first leaf reaching the offset: after it for a widget, otherwise inside it at `max(len - diff, 0)`, which lies in `[0, len]`. |
| PseudoCaret.FindThenCount | src/stories/PseudoCaret.tsx:24-35 | In a tree without `<br>`, for a leaf that is neither a widget nor a `DIV`, the count up to the leaf found plus the placed offset gives the offset searched for. |
| PseudoCaret.FirstEndingAt | src/stories/PseudoCaret.tsx:49-52 | The `find` gives the first label whose raw end equals the focus offset, or none. |
| PseudoCaret.CorrectFocusOffset | src/stories/PseudoCaret.tsx:45-59 | The correction loop computes `FocusCorrection`: unchanged without new labels, otherwise minus the found label's length less one, or minus 1. |
| PseudoCaret.ClosedLabelCountsOnce | src/stories/PseudoCaret.tsx:48-55 | When a label was just closed and the focus sits at its raw end, the corrected offset is the label's start plus one: the label counts once. |
| PseudoCaret.NoClosedLabelStepsBack | src/stories/PseudoCaret.tsx:48-58 | Without a label ending at the focus, the offset moves back by 1 when labels were added and stays put otherwise. |
| PseudoCaret.FocusCorrection | src/stories/PseudoCaret.tsx:45-59 | The focus-offset correction of `getCaretPosition` after a label was created. `ClosedLabelCountsOnce` and `NoClosedLabelStepsBack` characterise it, and `CorrectFocusOffset` computes it with the source's loop. |
| PseudoCaret.CaretPosition | src/stories/PseudoCaret.tsx:37-65 | What `getCaretPosition` returns. The method `GetCaretPosition` is proved equal to it, and `MoveThenGetCaret` relates it to `moveCaret`. |
| PseudoCaret.GetCaretPosition | src/stories/PseudoCaret.tsx:37-65 | The result is 0 without a selection, or when the focus node is absent or is the editor. Otherwise it is `countChars` to the focus node plus the corrected offset. |
| PseudoCaret.MoveThenCount | src/stories/PseudoCaret.tsx:67-96 | With unique ids and no `<br>`, when `moveCaret` places the caret at an offset inside the editor itself or inside a node that is not a `DIV`, counting back to that place gives the offset. The caret lands on the editor itself only at offset 0. |
| PseudoCaret.MoveThenGetCaret | src/stories/PseudoCaret.tsx:37-99 | With no label just created, unique ids, no `<br>` and a landing node that is the editor itself or not a `DIV`, `getCaretPosition` after `moveCaret` reports the offset. |
| PseudoCaret.ClosingBracketExample | src/stories/PseudoCaret.tsx:37-65 | Typing `]` to turn `"a[b"` into `"a[b]"`, with the focus at raw offset 4, gives the virtual offset 2. |
| PseudoCaret.LineBreakCountedOnlyByFind | src/stories/PseudoCaret.tsx:24-35 | A `<br>` counts 1 for `findNode` and 0 for `countChars`, so offset 2 reads back as 1 after a `<br>`. |
| FormulaBuilder.IsWhitespace | src/stories/FormulaBuilder.tsx:284 | The characters `/\s/` matches. `SkippedAreWhitespace` and `ReadCharSkips` show `getChar` passes over exactly these. |
| FormulaBuilder.IsNumber | src/stories/FormulaBuilder.tsx:292-297 | `isNumber`: a character is present and is a decimal digit. `DigitRunExact` shows the digit loop collects exactly these. |
| FormulaBuilder.SkipWhitespace | src/stories/FormulaBuilder.tsx:283-287 | The skip ends at or past its start, never beyond the end, and on a character that is not whitespace. |
| FormulaBuilder.SkippedAreWhitespace | src/stories/FormulaBuilder.tsx:284-287 | Everything skipped is whitespace. |
| FormulaBuilder.ReadChar | src/stories/FormulaBuilder.tsx:282-290 | `getChar` returns a non-whitespace character and leaves the cursor just past it. Past the end it returns `undefined` (None) with the cursor one past the end. |
| FormulaBuilder.ReadCharSkips | src/stories/FormulaBuilder.tsx:282-290 | Only whitespace is passed over. None means only whitespace is left, and conversely. |
| FormulaBuilder.DigitRun | src/stories/FormulaBuilder.tsx:226-230 | The digit loop keeps what was read as a prefix and appends digits only. The cursor stays within the text and moves forward when a digit was read. |
| FormulaBuilder.NonSpace | src/stories/FormulaBuilder.tsx:283-287 | What is left of a string once `getChar` has passed over its whitespace: only characters of the string that are not whitespace. |
| FormulaBuilder.DigitEnd | src/stories/FormulaBuilder.tsx:226-230 | Where the digit loop stops: the first position holding neither a digit nor whitespace, or the end of the text. Every position before it holds a digit or whitespace. |
| FormulaBuilder.DigitsAt | src/stories/FormulaBuilder.tsx:225-229 | The characters the digit loop collects are all decimal digits. |
| FormulaBuilder.DigitRunExact | src/stories/FormulaBuilder.tsx:225-230 | The digit loop collects exactly the digits up to `DigitEnd`, with the whitespace between them dropped. The step back leaves the cursor on `DigitEnd`. |
| FormulaBuilder.DigitRunOver | src/stories/FormulaBuilder.tsx:226-230 | A digit run followed by neither a digit nor whitespace is read exactly. |
| FormulaBuilder.NameRun | src/stories/FormulaBuilder.tsx:241-245 | The name loop stops just past a `}` and keeps what was read so far as a prefix. |
| FormulaBuilder.NameRunNone | src/stories/FormulaBuilder.tsx:241-245 | The name loop has no end exactly when no `}` is left. |
| FormulaBuilder.NameEnd | src/stories/FormulaBuilder.tsx:242-245 | Where the name loop stops: the first `}` at or after the cursor, or the end of the text. No position before it holds a `}`. |
| FormulaBuilder.NameAt | src/stories/FormulaBuilder.tsx:240-245 | A name read by the loop holds neither whitespace nor `}`. |
| FormulaBuilder.NameRunExact | src/stories/FormulaBuilder.tsx:240-245 | The name loop collects exactly the characters before the first `}`, with whitespace dropped, and leaves the cursor just past that `}`. With no `}` left it never ends. |
| FormulaBuilder.NameRunOver | src/stories/FormulaBuilder.tsx:241-245 | A name without whitespace or `}`, followed by `}`, is read exactly. |
| FormulaBuilder.DecimalString | src/stories/FormulaBuilder.tsx:120 | `${value}` prints a non-empty run of decimal digits. |
| FormulaBuilder.DecimalRoundTrip | src/stories/FormulaBuilder.tsx:233 | `parseInt` of the printed digits gives back the number. |
| FormulaBuilder.ScanToken | src/stories/FormulaBuilder.tsx:216-280 | Every token other than `EOS` moves the cursor forward and not past the end. |
| FormulaBuilder.ScanTokenEnd | src/stories/FormulaBuilder.tsx:219-223 | `getToken` returns `EOS` exactly when only whitespace is left. |
| FormulaBuilder.ScanNumber | src/stories/FormulaBuilder.tsx:224-235 | The number path returns a `Number` and gains at least one position despite the step back. |
| FormulaBuilder.ScanVariable | src/stories/FormulaBuilder.tsx:236-250 | The variable path returns only a `VarName` and moves the cursor forward. |
| FormulaBuilder.ScanNumberExact | src/stories/FormulaBuilder.tsx:224-235 | The number path returns the value of the digits up to `DigitEnd`, whitespace between them ignored, and leaves the cursor on `DigitEnd`. |
| FormulaBuilder.ScanVariableThrows | src/stories/FormulaBuilder.tsx:236-239 | The variable path throws "Failed to parse variable." unless a `{` comes next. |
| FormulaBuilder.ScanVariableBrace | src/stories/FormulaBuilder.tsx:236-250 | After `${` the variable path returns the name before the first `}`, whitespace dropped, with the cursor past that `}`. With no `}` left it never ends. |
| FormulaBuilder.OperatorToken | src/stories/FormulaBuilder.tsx:252-279 | Exactly the six characters `+-*/()` have a token, and it is an operator or parenthesis token. |
| FormulaBuilder.ScannedProgress | src/stories/FormulaBuilder.tsx:208-212 | The termination measure of the `parse` loop: each non-`EOS` token advances the cursor. |
| FormulaBuilder.Tokenize | src/stories/FormulaBuilder.tsx:205-214 | The tokens `parse` collects never include `EOS`. |
| FormulaBuilder.BlankIsEmpty | src/stories/FormulaBuilder.tsx:205-223 | Empty or all-whitespace input gives no tokens, and only such input does. |
| FormulaBuilder.DigitsAcrossSpace | src/stories/FormulaBuilder.tsx:224-235 | `"1 2"` reads as the single number 12. |
| FormulaBuilder.DollarWithoutBraceThrows | src/stories/FormulaBuilder.tsx:236-239 | `"$x"` throws "Failed to parse variable.". |
| FormulaBuilder.UnsupportedCharacterThrows | src/stories/FormulaBuilder.tsx:277-278 | `"2%3"` throws `Unsupported operator: %`. |
| FormulaBuilder.UnterminatedVariableDiverges | src/stories/FormulaBuilder.tsx:241-245 | `"${ab"` never finishes reading. |
| FormulaBuilder.SpaceInNameDropped | src/stories/FormulaBuilder.tsx:240-248 | `"${a b}"` names the variable `"ab"`. |
| FormulaBuilder.ScanDigits | src/stories/FormulaBuilder.tsx:224-235 | A digit run followed by neither a digit nor whitespace is one `Number` with its decimal value. |
| FormulaBuilder.ScanPrintedVariable | src/stories/FormulaBuilder.tsx:35 | A chip printed as `${name}` with a plain name reads back as that variable. |
| FormulaBuilder.ScanPrinted | src/stories/FormulaBuilder.tsx:113-120 | Any printable token reads back as itself, with the cursor just past its text. |
| FormulaBuilder.PrintedReadsAs | src/stories/FormulaBuilder.tsx:205-250 | A printed token list reads back token by token. |
| FormulaBuilder.ReadsAsTokenize | src/stories/FormulaBuilder.tsx:205-214 | Reading back token by token is what `parse` returns. |
| FormulaBuilder.TokenText | src/stories/FormulaBuilder.tsx:113-120 | The text a token other than a variable is shown as: its symbol, a number in decimal, nothing for `EOS`. `ScanPrinted` shows each reads back as its token. |
| FormulaBuilder.ComponentText | src/stories/FormulaBuilder.tsx:34-38 | The text `handleInput` takes from one component: `${name}` for a chip, otherwise the token's text. `ScanPrintedVariable` and `ScanPrinted` show it reads back as the token. |
| FormulaBuilder.Serialise | src/stories/FormulaBuilder.tsx:32-39 | The statement text `handleInput` builds by concatenating the components' texts. `PrintThenParse` shows parsing it gives back the tokens. |
| FormulaBuilder.PrintThenParse | src/stories/FormulaBuilder.tsx:205-250 | Printing tokens as operator symbols, decimal numbers and `${name}` chips, then parsing, gives the same tokens. Names must hold no whitespace or `}`, and no two numbers may be adjacent. |
| FormulaBuilder.StatementParser.constructor | src/stories/FormulaBuilder.tsx:200-203 | A new parser holds the text with the cursor at 0. |
| FormulaBuilder.StatementParser.GetChar | src/stories/FormulaBuilder.tsx:282-290 | `getChar` returns `ReadChar` of the old cursor and moves the cursor to where `ReadChar` says. |
| FormulaBuilder.StatementParser.GetToken | src/stories/FormulaBuilder.tsx:216-280 | `getToken` returns the token, the error or the divergence of `ScanToken`, and leaves the cursor where `ScanToken` says. |
| FormulaBuilder.StatementParser.Parse | src/stories/FormulaBuilder.tsx:205-214 | `parse` returns the statement of `Tokenize`'s tokens, throws its error or diverges with it. |

## Left out

- React: component state, effects, refs, event handlers and the `isComposing` gating are not modelled.
- The Selection/Range API is not modelled. The selection is an input (`Option<Selection>`), and `moveCaret`'s range update is the returned `Placement`.
- Rendering plumbing is not modelled: the `innerHTML` assignment, `createRoot(...).render`, MUI components and styles. `toHtml` is modelled as the string it returns.
- Caret coordinates (`updateCaretCoords`) are floating-point layout geometry and are not modelled.
- `console.log` calls are not modelled.
- `Token.render` and `Statement.render` return empty fragments and are not modelled. Neither are the Storybook story files.
- `handleInput` is modelled only through the `${name}` shape of its chip text (`ComponentText`, `Serialise`). Its walk over the DOM children is not.
- DOM node types other than text and element nodes are not modelled.
- Numbers are unbounded naturals, so `parseInt` precision loss on very long digit runs is not modelled.
- FormulaBuilder.Tokenize: the endless loop on an unterminated `${` is the `Diverges` outcome. The growing cursor and the `"undefined"` text appended to the name on each turn are not modelled.
- FormulaBuilder.StatementParser.GetToken: after a thrown error or in the endless loop, the cursor is not stated.
- FormulaBuilder.PrintThenParse: proved only for names without whitespace or `}` and without two adjacent numbers. Printing other tokens does not read back. Numbers of 10^21 and above, which `${token.value}` prints in exponent form (`1e+21`), are printed in full decimal by the model, so the round trip describes JavaScript only below 10^21.
- FormulaBuilder.DecimalString: prints every natural number in full decimal. JavaScript's `${token.value}` (src/stories/FormulaBuilder.tsx:120) does so only below 10^21 and uses exponent form from there on.
- Strings are sequences of Unicode scalar values (Dafny `char`), while JavaScript indexes strings by UTF-16 code units. The two agree only on text inside the Basic Multilingual Plane. Outside it they differ for `indexOf`, a block's `start` and `text.length` in `parse` (src/stories/PseudoCaret.tsx:107-131), for the label end `start + text.length` that `getCaretPosition` compares with `focusOffset` (src/stories/PseudoCaret.tsx:50-51), and for the tokenizer's `currentPointer` and `text[i]` (src/stories/FormulaBuilder.tsx:283-288). For `"😀[a]"` the label starts at 2 in JavaScript and at 1 in the model. For `"😀"` the tokenizer throws on the lone surrogate `\uD83D` in JavaScript and on `😀` in the model.
- The text of the two thrown `Error`s is not modelled. The error is the `ParseError` constructor: `FailedToParseVariable` or `UnsupportedOperator` with the character found.
- PseudoCaret.MoveThenGetCaret: proved only when no label was just created, ids are unique, the tree has no `<br>`, and the caret is placed at an offset inside the editor itself or inside a node that is not a `DIV`. The other cases are not covered. A `<br>` shifts the offset (`LineBreakCountedOnlyByFind`). An empty `DIV` other than the editor is counted one more by `countChars` (src/stories/PseudoCaret.tsx:28). A just-created label makes `getCaretPosition` subtract its correction. A caret placed after a widget is outside the `At` case these lemmas cover.
- PseudoCaret.MoveThenCount: proved only for an element editor with unique ids and no `<br>`, when `moveCaret` places the caret at an offset (not after a widget) inside the editor itself or inside a node that is not a `DIV`.
- Editor.MoveCaret: for a negative offset the model places the caret at a negative offset inside the first leaf, where `range.setStart` (src/stories/Editor.tsx:40) throws `IndexSizeError` instead. The offsets `moveCaret` receives come from `getCaretPosition` and are never negative.
- PseudoCaret.FindThenCount: proved only for leaves that are neither widgets nor `DIV`s, in trees without `<br>`.
