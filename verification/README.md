# DuneOS: verified algorithms

DuneOS is a small operating system for ESP32 hand-helds. Most of its code talks
to devices, but it also holds a good number of self-contained algorithms whose
correctness is easy to get wrong and hard to see from one function: an
interpreter without a syntax tree, a backtracking matcher, a file format written
by one program and read by another, two rendering modes that must agree, rings
and framers that see their input in pieces. This project models those in Dafny
and proves what each is for.

Code that updates state is modelled as it is written: classes with the same
fields, loops over the same arrays, the same branches and the same constants.
Each such method is proved against a function of its inputs or of the old state,
and the lemmas then relate that function to an independent account of the
result: a syntax tree, a declarative language, a picture, a map, a log that
forgets nothing, a closed formula.

| files | part of the system |
|---|---|
| ShellControl, ShellEngine | control flow of the shell: if / for / while over a flat statement list |
| ShellLoops | what its loops and conditions do, pass by pass |
| ShellStray | where a script differs from a block |
| ShellCut | cutting the text of a script into statements |
| ShellArith | the arithmetic evaluator of the shell |
| ShellPath | the in-place path normaliser |
| Regex, RegexClass, RegexEngine, RegexCompile, RegexMatch, RegexText | the regular-expression engine |
| I2c, I2cRules, I2cDecode | the I2C decoder and the waveforms of the bus |
| Vcd, VcdFile | saving a capture, and the viewer that loads it |
| GfxPicture, Gfx, GfxGlyph | the drawing library in its buffered and streamed modes |
| StackUsage | the worst-case stack analysis of the build tool |
| Smoke | the incremental console matcher of the emulator bench |
| Ld2450 | the radar framer and its test encoder |
| Klog | the kernel log ring and its reconstruction from a dump |
| KnownYaml, KnownMap, KnownStore | the store of known WiFi networks |
| RadarMath | the line and the square root of the radar scope |
| SnakeRules, SnakeFull, Snake | the snake game |
| TetrisRules, TetrisMoves, Tetris | the falling-block game |
| Modifiers, KeyCodes, KeyScan | sticky modifiers and key codes of the matrix keyboard |
| Wrappers, Decimal | options, text positions, lines, character classes and decimal numerals |

`dafny verify dfyconfig.toml` checks everything.

## Results that are not plain successes

Some of what the programs promise holds only on a condition. The proofs say
which, in both directions.

- A top-level `break` does not stop a script: `run_script` does not gate its
  loop. A script does what a block would do, in all its runs, if and only if no
  tree but the last can let a break or continue out of its loops
  (`ShellStray.AgreeExactly`); `break` and then `echo x` is the shortest script
  that differs (`ShellStray.BreakThenEcho`).
- A script of more than 190 statements is cut off behind the 190th, without a
  word (`ShellCut.CutLaid`). The comment above `run_script` says that comments
  are skipped; one with a semicolon in it is skipped up to there, and the rest
  of the line runs (`ShellCut.CommentEnds`), unless an apostrophe or a quotation
  mark stands in front of it (`ShellCut.CommentHides`).
- Arithmetic wraps: if what is divided fits 32 bits, a result is right if and
  only if it fits too (`ShellArith.ExactPrinted`); if not, a result that would
  fit can be wrong (`ShellArith.WrappedDividend`).
- `class_match` can read past the end of a class. A range that ends in the first
  backslash of an escape pair leaves the second one alone in front of the NUL,
  and the scan steps over both into the bytes of the next class. The answer
  depends on the class text alone if and only if the character does not come to
  that backslash unmatched (`RegexClass.SettledExactly`); the classes
  `[a-\\]` and `[xyz]` match `xx` (`RegexMatch.StrayFound`). A pattern without a
  dash in front of a backslash matches what is written (`RegexMatch.ReMatch`).
- An empty class in a pattern is stored without a test for room. Class text
  stays in its buffer of 192 bytes if and only if no empty class is read with
  the buffer full (`RegexCompile.StoredFits`, `RegexCompile.OverrunExactly`); a
  class of 191 characters and an empty one overrun it by a byte
  (`RegexCompile.OverrunHappens`).
- The incremental matcher misses a pattern, for some way of cutting some text, if
  and only if the pattern matches a text that shows neither before its last
  character nor in the window scanned with it (`Smoke.MissedExactly`). Patterns
  without a newline in what they match are never missed (`Smoke.LocalIsSafe`).
  The comment that no match can straddle two windows is wrong of the panic
  handler pattern, whose white space can hold any number of line breaks
  (`Smoke.CorePanicLost`).
- A network whose values carry outer whitespace, a pair of double quotes or a
  newline, or whose name is empty, does not survive the known-networks file, and
  all others do (`KnownYaml.SavedReloads`). A file that lists a name twice is not
  a map: removing the name uncovers the second entry (`KnownMap.DropExactly`).
- A reader of the kernel log misses something if and only if some read finds it
  more than 16384 bytes behind (`Klog.NoLossNoRepeat`).
- On a large field the snake's arrays can be full when it eats, as a run on the
  field of a 320 by 240 panel shows (`SnakeFull.FullArraysHappen`); the board then
  keeps a stale cell unless the new food lands on it, and the length falls behind
  the score (`SnakeRules.FullArraysStale`). With the field full there is no free
  cell and `place_food` never ends (`SnakeRules.FreeCell`).
- A streamed fill or rectangle whose visible part is wider than 320 columns draws
  nothing, where the buffered one paints (`Gfx.Context.Fill`, `Gfx.Context.Rect`).
  The modes still agree where later painting settles each pixel that was dropped,
  and whatever the colours only there (`GfxPicture.ModesAgreeExactly`).
- A key with more than one code can release a code it never pressed: codes are
  pressed and released in turn if and only if the key has the same code on all
  layers (`KeyCodes.CodesInTurn`).
- The comment above `STACK_RESERVE` in `tools/dbt/stackusage.py` speaks of a
  4 KiB cover; the constant is 3072. The model follows the constant. The floor
  of 3072 never decides, since the reserve alone exceeds it with its margin.

## Model

| member | source | states |
|---|---|---|
| `ShellControl.ScriptMeansTree` | apps/system/shell_core/shell_cmds.c:1126-1241 | For every well-formed script tree and every behaviour of its commands, running the list of its statement texts with the index engine ends in the state the structured meaning of the tree gives: variables and files, `$?`, and the pending break/continue. |
| `ShellControl.SimTree` | apps/system/shell_core/shell_cmds.c:1126-1195 | One call of the engine on a tree anywhere in the list returns exactly the index behind its last statement and, if the run gate is on, the state the tree means; with the gate off it changes nothing. |
| `ShellControl.SimIf` | apps/system/shell_core/shell_cmds.c:1131-1149 | The if branch runs the first arm whose condition gives status 0, or the else arm, and consumes the whole if, whichever arm was taken. |
| `ShellControl.SimElif` | apps/system/shell_core/shell_cmds.c:1138-1145 | An elif is tested only while no earlier arm was taken; what follows sees the arm as taken from then on. |
| `ShellControl.SimElse` | apps/system/shell_core/shell_cmds.c:1137-1148 | The elif/else/fi part of an if runs exactly the arm that is left and always ends behind the fi. |
| `ShellControl.SimForTree` | apps/system/shell_core/shell_cmds.c:1151-1174 | A for header with its do, body and done is consumed whole; if running, its words are expanded once and the loop means the structured for. |
| `ShellControl.SimFor` | apps/system/shell_core/shell_cmds.c:1161-1170 | Running the body range once per word, with break and continue consumed after each pass, is the structured for loop. |
| `ShellControl.SimWhile` | apps/system/shell_core/shell_cmds.c:1176-1191 | Running the condition and the body range until the condition fails, a break, or the 100000 guard, is the structured while loop with the same guard. |
| `ShellControl.SimBlock` | apps/system/shell_core/shell_cmds.c:1115-1119 | Running until a terminator stops exactly at the end of a block and gives its meaning; behind a pending break or continue the rest is scanned but not run. |
| `ShellControl.SimRange` | apps/system/shell_core/shell_cmds.c:1120-1124 | Running a loop body by its index range gives the meaning of the block in that range. |
| `ShellControl.BlockEndTree` | apps/system/shell_core/shell_cmds.c:1099-1108 | The search for a block end passes over any whole tree, however deep, without changing its depth count. |
| `ShellControl.BlockEndBlock` | apps/system/shell_core/shell_cmds.c:1099-1108 | ... and over any block of trees, so it stops at the fi or done of the block it was started in. |
| `ShellControl.BlockEndElse` | apps/system/shell_core/shell_cmds.c:1099-1108 | The tail of an if, elif arms and all, closes exactly the block that its if opened. |
| `ShellControl.SimScript` | apps/system/shell_core/shell_cmds.c:1237-1240 | The top-level driver runs the trees of a script one after the other and drops a break or continue left at the end. |
| `ShellControl.LexTree` | apps/system/shell_core/shell_cmds.c:1074-1083 | Every statement of a printed tree is recognised by its own keyword and no other, with its argument intact. |
| `ShellControl.KwUnique` | apps/system/shell_core/shell_cmds.c:1074-1083 | No statement begins with two different keywords. |
| `ShellControl.ForHeader` | apps/system/shell_core/shell_cmds.c:1152-1157 | The name and the word list of a for header are read back as they were written. |
| `ShellLoops.ForInOrder` | apps/system/shell_core/shell_cmds.c:1151-1174 | Run from its statement texts, a for loop makes one pass of its body for each word its list expands to, the first 32 of them, in order, each from the state the last one left and with the variable set to the word; it ends at a break or with the words. |
| `ShellLoops.WhileInOrder` | apps/system/shell_core/shell_cmds.c:1176-1191 | A while loop runs its body from the state its condition leaves, as long as that gives status 0, up to a break or the 100001st pass. |
| `ShellLoops.IfInOrder` | apps/system/shell_core/shell_cmds.c:1131-1149 | An if with elif and else runs the arm of the first condition that gives status 0, each tested in the state the ones before it leave, or the else arm. |
| `ShellLoops.IfAlone` | apps/system/shell_core/shell_cmds.c:1131-1149 | Without an else, an if whose condition fails runs nothing more. |
| `ShellLoops.LongStatement` | apps/system/shell_core/shell_cmds.c:1090-1096 | A statement runs cut to its first 255 characters. |
| `ShellLoops.LongForRefused` | apps/system/shell_core/shell_cmds.c:1151-1162 | A loop variable of more than 23 characters makes the loop run not at all. |
| `ShellStray.TopIsBlock` | apps/system/shell_core/shell_cmds.c:1237-1240 | In any run in which each top-level tree but the last leaves nothing pending, the ungated top level does what an ordinary block does. |
| `ShellStray.AgreeUnlessStray` | apps/system/shell_core/shell_cmds.c:1237-1240 | Whatever the statements do, as long as only texts of a given set break: a script in which no tree but the last can let such a break out of its loops is a block, from every state. |
| `ShellStray.AgreeExactly` | apps/system/shell_core/shell_cmds.c:1237-1240 | And only then: a script is a block in all its runs, for all such behaviours, if and only if no tree but the last can; whether one can is read off the tree. |
| `ShellStray.StrayDiffers` | apps/system/shell_core/shell_cmds.c:1237-1240 | For every script in which an earlier tree can, a behaviour and a start state under which the block stops at the break and the script goes on to another state. |
| `ShellStray.BreakThenEcho` | apps/system/shell_core/shell_cmds.c:1237-1240 | The shortest one, run from its statement texts: behind a top-level `break`, `echo x` still runs, where a block would skip it. |
| `ShellStray.QuietTree` | apps/system/shell_core/shell_cmds.c:1111-1124 | A tree out of which no break can get leaves none pending. |
| `ShellStray.ForConsumes` | apps/system/shell_core/shell_cmds.c:1161-1170 | A for loop leaves no break or continue pending, whatever its body does, unless its words raised one and there are none of them. |
| `ShellStray.WhileConsumes` | apps/system/shell_core/shell_cmds.c:1176-1187 | Nor does a while loop whose condition raises none. |
| `ShellEngine.Kw` | apps/system/shell_core/shell_cmds.c:1074-1083 | Recognises a keyword at the start of a statement and returns what follows it past blanks. |
| `ShellEngine.AtTerm` | apps/system/shell_core/shell_cmds.c:1085-1088 | True exactly on fi, done, else and elif statements. |
| `ShellEngine.FindEnd` | apps/system/shell_core/shell_cmds.c:1099-1108 | The loop returns the index the recursive block-end search gives. |
| `ShellEngine.Engine.CtrlExec` | apps/system/shell_core/shell_cmds.c:1126-1195 | On the engine object: the index returned and the new state are those of the engine function on the same list. |
| `ShellEngine.Engine.ExecIf` | apps/system/shell_core/shell_cmds.c:1131-1149 | The if branch with its flags and index loop computes the if of the engine function. |
| `ShellEngine.Engine.ExecElifs` | apps/system/shell_core/shell_cmds.c:1138-1145 | The elif loop, with its `taken` flag, computes the recursive form. |
| `ShellEngine.Engine.ExecFor` | apps/system/shell_core/shell_cmds.c:1151-1174 | The for branch updates variables and state as the engine function does. |
| `ShellEngine.Engine.ExecWhile` | apps/system/shell_core/shell_cmds.c:1176-1191 | The while branch does, guard included. |
| `ShellEngine.Engine.RunUntil` | apps/system/shell_core/shell_cmds.c:1115-1119 | The loop up to a terminator computes the recursive form. |
| `ShellEngine.Engine.RunBody` | apps/system/shell_core/shell_cmds.c:1120-1124 | The loop over a body range computes the recursive form. |
| `ShellEngine.Engine.RunScript` | apps/system/shell_core/shell_cmds.c:1237-1240 | The top-level loop of a script computes the recursive form and clears the pending flag. |
| `ShellCut.RunTrees` | apps/system/shell_core/shell_cmds.c:1199-1241 | Running the text of a well-formed script, its statements laid out in any way with any separators, comments, open quotes and inline bodies, leaves the engine object in the state its tree means, if there are at most 190 of them. |
| `ShellCut.CutLaid` | apps/system/shell_core/shell_cmds.c:1199-1236 | Any text is cut to the statements of its lines in order: nothing for a comment, two for a keyword with its body inline, and the first 190 of them all. |
| `ShellCut.EveryText` | apps/system/shell_core/shell_cmds.c:1199-1221 | Every text is made of such lines and separators, comments and quotes left open at a newline included. |
| `ShellCut.TextMeansTree` | apps/system/shell_core/shell_cmds.c:1199-1241 | A tree written one statement to a line is such a text: running it means the tree. |
| `ShellCut.InlineBody` | apps/system/shell_core/shell_cmds.c:1223-1232 | A then, do or else with a body behind it on the same line is cut to the keyword and the body. |
| `ShellCut.QuotedIsOne` | apps/system/shell_core/shell_cmds.c:1210-1221 | A text with one stretch in quotation marks or in apostrophes is one statement, whatever stands in the stretch but the quote itself and a newline. |
| `ShellCut.SeparatedAreTwo` | apps/system/shell_core/shell_cmds.c:1203-1221 | Outside quotes a semicolon or a newline separates two statements, with any blanks and separators around it; blanks alone do not. |
| `ShellCut.CommentEnds` | apps/system/shell_core/shell_cmds.c:1207-1221 | A comment ends at its first semicolon outside quotes: what follows it on the line is a statement. |
| `ShellCut.CommentHides` | apps/system/shell_core/shell_cmds.c:1207-1221 | Behind an apostrophe or a quotation mark in a comment a semicolon is hidden, and only the next line runs. |
| `ShellCut.CutScript` | apps/system/shell_core/shell_cmds.c:1199-1236 | The loops over separators, quotes and trailing blanks compute the cut, and never fill more than 190 of the 192 slots. |
| `ShellCut.RunText` | apps/system/shell_core/shell_cmds.c:1199-1241 | Cutting and running a text is the engine function on the statements it is cut to. |
| `ShellArith.EvalPrinted` | apps/system/shell_core/shell_cmds.c:526-572 | For every integer expression tree, printed with any blanks before its tokens and only the parentheses left association needs, the evaluator returns the value of the tree in 32 bits and stops at the very end of the text. |
| `ShellArith.ExactPrinted` | apps/system/shell_core/shell_cmds.c:526-572 | Where every dividend and divisor fits a long, that is the value over the integers, with division as in C, if and only if the value fits a long, whatever overflows on the way. |
| `ShellArith.WrappedDividend` | apps/system/shell_core/shell_cmds.c:547-559 | Where one does not, a result that would fit can be wrong: `(2147483647+1)/2` is -1073741824. |
| `ShellArith.SubstMeans` | apps/system/shell_core/shell_cmds.c:577-590 | After a variable is set to the printed value of an expression, every expression in the variable has the value it has with that expression written in its place. |
| `ShellArith.ShowReads` | apps/system/shell_core/shell_cmds.c:545-587 | What `%ld` prints for a number, `atoi` reads back as that number, for all 2^32 of them. |
| `ShellArith.Truncates` | apps/system/shell_core/shell_cmds.c:554-555 | Quotient and remainder are those of C: the remainder is smaller than the divisor and has the sign of the dividend. |
| `ShellArith.NumberRead` | apps/system/shell_core/shell_cmds.c:545 | Behind white space and a sign, digits read as their number, or as the end of the range of a long if that is beyond it, whatever follows them. |
| `ShellArith.NoNumber` | apps/system/shell_core/shell_cmds.c:545 | A text with no digit and no sign in front reads as 0. |
| `ShellArith.LongName` | apps/system/shell_core/shell_cmds.c:542-545 | A name is read up to its 23rd character. |
| `ShellArith.PrintedExpr` | apps/system/shell_core/shell_cmds.c:560-571 | Anywhere in a text, a printed sum is read as its value and then whatever additive operators follow it. |
| `ShellArith.PrintedTerm` | apps/system/shell_core/shell_cmds.c:547-559 | The same for products. |
| `ShellArith.PrintedFactor` | apps/system/shell_core/shell_cmds.c:530-546 | A printed unit is read as its value and nothing behind it is touched. |
| `ShellArith.Evaluator.EvalExpr` | apps/system/shell_core/shell_cmds.c:560-571 | The loop with its moving cursor computes the grammar function of sums, and terminates on every text. |
| `ShellArith.Evaluator.EvalTerm` | apps/system/shell_core/shell_cmds.c:547-559 | The loop computes the grammar function of products; a zero divisor gives 0. |
| `ShellArith.Evaluator.EvalFactor` | apps/system/shell_core/shell_cmds.c:530-546 | Parentheses (closed or not), signs, `$`, numbers and names, as the grammar function reads them; no input makes it fail to return. |
| `ShellPath.NormalizePath` | apps/system/shell_core/shell_cmds.c:64-86 | In place, the path becomes the rendering of the stack its components resolve to; it is never longer than before. |
| `ShellPath.NormalStackClean` | apps/system/shell_core/shell_cmds.c:64-86 | That stack holds no empty, `.` or `..` component and no slash. |
| `ShellPath.NormalIsStable` | apps/system/shell_core/shell_cmds.c:61-86 | Normalising again changes nothing, and the result reads back as the same stack. |
| `ShellPath.ParentUndoesChild` | apps/system/shell_core/shell_cmds.c:76-80 | `x/c/..` normalises to what `x` does, for every clean component c. |
| `ShellPath.DotIsNothing` | apps/system/shell_core/shell_cmds.c:69-84 | A `.` anywhere in a path, or one more slash, changes nothing. |
| `ShellPath.DotsDrop` | apps/system/shell_core/shell_cmds.c:69-84 | A component and the `..` behind it are gone from anywhere in a path. |
| `ShellPath.RootIsTop` | apps/system/shell_core/shell_cmds.c:76-80 | `/..` is the root. |
| `ShellPath.ProperKept` | apps/system/shell_core/shell_cmds.c:69-84 | A path of proper components, each behind one slash, stays as it is. |
| `ShellPath.PartsOfRender` | apps/system/shell_core/shell_cmds.c:69-84 | Splitting a rendered stack gives the stack back. |
| `ShellPath.Pop` | apps/system/shell_core/shell_cmds.c:76-80 | Dropping back to the previous slash leaves the rendering of the stack without its last component; on the root it changes nothing. |
| `ShellPath.Push` | apps/system/shell_core/shell_cmds.c:81-82 | Appending a component, with its separator unless the stack is the root, leaves the rendering of the longer stack. |
| `ShellPath.Build` | apps/system/shell_core/shell_cmds.c:69-84 | The scan computes the rendering of the resolved stack and never outgrows its input. |
| `Regex.HereIff` | sdk/re/re.c:181-201 | Whatever characters the atoms accept, the search succeeds at a position if and only if some piece of text from there on is in the language of the program. |
| `Regex.HereSound` | sdk/re/re.c:156-201 | The length a success adds is the length of a piece that is in the language. |
| `Regex.HereComplete` | sdk/re/re.c:156-201 | Whenever such a piece exists the backtracking search does not miss it. |
| `Regex.StarIsGreedy` | sdk/re/re.c:158-170 | `*` keeps the longest run of its atom that the rest of the program can follow. |
| `Regex.RunEndIsLongest` | sdk/re/re.c:163 | The greedy loop ends on a run of the atom, and no run is longer. |
| `Regex.LangAgrees` | sdk/re/re.c:156-201 | The language of a program depends only on which characters of the text its atoms accept. |
| `RegexEngine.MatchHere` | sdk/re/re.c:181-201 | Adds the length of the match to `len` on success and leaves it unchanged on failure; terminates on every program and text. |
| `RegexEngine.MatchStar` | sdk/re/re.c:159-170 | Forward and backtracking loops compute the greedy choice. |
| `RegexEngine.MatchPlus` | sdk/re/re.c:172-179 | One atom, then a star; fails without touching `len`. |
| `RegexEngine.ReMatchp` | sdk/re/re.c:203-220 | On the memory the compiler left: returns the smallest offset at which the program matches with a length that is in its language, only offset 0 if anchored, and -1 if and only if there is none. |
| `RegexEngine.LookUp` | sdk/re/re.c:122-137 | The loop over the bytes of a class gives the answer of the recursive reading of memory, and says when it leaves the memory at hand. |
| `RegexEngine.OneMatch` | sdk/re/re.c:139-154 | Each kind of atom accepts what the program in memory accepts there. |
| `RegexClass.SettledExactly` | sdk/re/re.c:122-137 | For every class text and character: the answer is the same whatever stands behind the class if and only if the character does not come unmatched upon a backslash that ends the text; and then it is the one the class is written for. |
| `RegexClass.LookIsMatch` | sdk/re/re.c:122-137 | A character that does not is judged by the class text alone, anywhere in memory. |
| `RegexClass.LookStrays` | sdk/re/re.c:122-137 | One that does is judged by the bytes behind the NUL. |
| `RegexClass.NoBackslashRange` | sdk/re/re.c:79-137 | A class the compiler stores keeps to its text unless a range in it ends in a backslash. |
| `RegexClass.MemoryIsWritten` | sdk/re/re.c:122-154 | If no character of the text strays out of a class, the program in memory accepts what it accepts as written, atom by atom. |
| `RegexMatch.ReMatch` | sdk/re/re.c:222-225 | From the pattern to the answer: -1 if it does not compile; else what the program in memory finds; and that is what the program as written finds if no character of the text strays, so for every text if the pattern has no dash in front of a backslash. |
| `RegexText.MatchPattern` | sdk/re/re.c:39-225 | For every pattern of characters, `.`, escapes and classes, each once or with `*`, `+` or `?`, anchored or not: compiled and run it returns the smallest offset where the text has a piece for each item in order, and the length of such a match; -1 if there is none, and -1 if it needs more than 95 nodes or its classes more than the buffer. |
| `RegexText.FindLiteral` | sdk/re/re.c:39-225 | A pattern of plain characters finds the first place where it stands in the text, and gives its length; -1 if and only if it stands nowhere. |
| `RegexText.LangIsPiece` | sdk/re/re.c:156-201 | The language of the compiled nodes is that of the items of the pattern. |
| `RegexText.OneTakes` | sdk/re/re.c:33-41 | A character takes itself and `.` any; `\d`, `\w` and `\s` take the digits, the letters with digits and underscore, and the six kinds of white space; the capital letters take the others. |
| `RegexText.ElemsMatch` | sdk/re/re.c:122-137 | A class takes a character if and only if one of its members does: a character, a range with both its ends, or an escape. |
| `RegexText.PatternShown` | sdk/re/re.c:46-98 | The text a pattern is compiled from is its items as they are written. |
| `RegexMatch.StrayFound` | sdk/re/re.c:122-201 | The pattern of the classes `[a-\\]` and `[xyz]` finds both characters of `xx`; as written it finds nothing. |
| `RegexMatch.StrayMatches` | sdk/re/re.c:222-225 | Run through compiler and matcher, whatever the buffer held before: offset 0, length 2. |
| `RegexMatch.StrayCompiles` | sdk/re/re.c:73-98 | That pattern compiles, and leaves the bytes of its classes one behind the other. |
| `RegexMatch.BackslashMissed` | sdk/re/re.c:122-137 | Alone in clear memory, the first of its classes does not take the backslash written in it. |
| `RegexCompile.Compiler.ReCompile` | sdk/re/re.c:39-107 | The compile loop produces the node list of the pattern or refuses it, leaves room for the end node, and leaves in memory exactly the bytes the pattern stores, each class where its node points; some lie behind the class buffer if and only if an empty class is read with the buffer full. |
| `RegexCompile.CompileContained` | sdk/re/re.c:46-106 | A pattern without a dash in front of a backslash compiles to classes that keep to their text. |
| `RegexCompile.CompileShown` | sdk/re/re.c:46-106 | Writing out any list of nodes and compiling the text gives the list back, with the texts of its classes stored one behind the other; it is refused, as a whole, if and only if it has more than 95 nodes or a class that is not empty ends behind the last byte but one of the buffer. |
| `RegexCompile.StoredFits` | sdk/re/re.c:79-89 | For every pattern, compiled or refused: what is stored stays inside the 192 bytes if and only if no empty class is read with all of them used. |
| `RegexCompile.OverrunExactly` | sdk/re/re.c:79-89 | A list of nodes that compiles overruns the buffer if and only if an empty class has 192 bytes or more of class text before it. |
| `RegexCompile.OverrunHappens` | sdk/re/re.c:79-89 | A class of 191 characters and an empty class: the pattern compiles and its last byte is the 193rd of 192. |
| `RegexCompile.CompileFits` | sdk/re/re.c:46-106 | A compiled program never fills the node array. |
| `RegexCompile.ReadShown` | sdk/re/re.c:48-98 | Each kind of node is read back from its own spelling, at any place in the pattern. |
| `RegexCompile.Compiler.ScanClass` | sdk/re/re.c:79-88 | The class loop stores the class text byte by byte up to the closing bracket, or refuses: unterminated, or no room for the next byte. |
| `RegexCompile.Compiler.ReadOne` | sdk/re/re.c:47-98 | One turn of the switch reads one node and stores the text and the NUL of a class, on a refusal the text read so far. |
| `I2c.DecodeInvertsWave` | sdk/proto/i2c_decode.c:7-48 | For every list of transactions laid out as the waveform of NXP UM10204 sections 3.1.4 to 3.1.6, with any times and any samples that move neither line, the decoder returns exactly START, ADDR, DATA and STOP with the same address, direction, bytes and ACKs. |
| `I2c.XferRead` | sdk/proto/i2c_decode.c:20-42 | One transaction, ended by STOP or by a repeated START, decodes to its own tokens and leaves the decoder ready for the next. |
| `I2c.ByteRead` | sdk/proto/i2c_decode.c:31-42 | Nine clocks give one token: the first byte is split into address and direction, later ones are data, with the ACK of the ninth clock. |
| `I2c.StutterFree` | sdk/proto/i2c_decode.c:14-46 | Dropping every sample that moves neither line loses no token and moves none. |
| `I2c.InsertStutter` | sdk/proto/i2c_decode.c:14-46 | Inserting one anywhere changes nothing. |
| `I2c.RetimeCommutes` | sdk/proto/i2c_decode.c:14-46 | Times do not influence what is decoded: changing all of them changes only the times of the tokens. |
| `I2cRules.ConditionsExactly` | sdk/proto/i2c_decode.c:19-30 | On any samples, from any state: a START is reported exactly where SDA falls while SCL is high before and after, a STOP exactly where it rises. |
| `I2cRules.AlwaysOrdered` | sdk/proto/i2c_decode.c:14-46 | On any samples, the first byte behind a START is an address and the others are data, and no byte is reported outside a transaction. |
| `I2cRules.EveryByteInside` | sdk/proto/i2c_decode.c:14-46 | So each byte has a START before it with no STOP in between. |
| `I2cRules.NoStartNoByte` | sdk/proto/i2c_decode.c:31-32 | Outside a transaction, samples without a START condition give no byte, however often SCL is clocked. |
| `I2cRules.NineClocks` | sdk/proto/i2c_decode.c:31-42 | Inside one that no condition cuts short there is a byte for each nine rising edges of SCL. |
| `I2cRules.ValuesFit` | sdk/proto/i2c_decode.c:31-42 | Addresses are below 128 and data below 256. |
| `I2cDecode.I2cDecode` | sdk/proto/i2c_decode.c:7-48 | The loop over the samples fills the buffer with the first `max` tokens of the stream and never more. |
| `I2cDecode.OnSample` | sdk/proto/i2c_decode.c:15-45 | The body of the loop is one step of the decoder, with at most one token. |
| `Vcd.SavedReloads` | apps/user/i2cscope/sniff.c:167-200 | Parsing the text a capture is saved as gives the idle sample followed by exactly the samples that moved a line, at their 32-bit times since the first edge. |
| `Vcd.ReloadedDecodes` | apps/user/waves/waves.c:173-176 | Decoding the reloaded samples gives the tokens of the original capture, with times relative to the first edge, up to the token room of the viewer. |
| `Vcd.BodyParse` | apps/user/waves/waves.c:147-164 | The value changes of any run of samples parse back to the samples, from any state that has seen the earlier ones. |
| `Vcd.EdgeParse` | apps/user/waves/waves.c:147-163 | One time stamp and the changes under it become one sample. |
| `Vcd.HeaderParse` | apps/user/waves/waves.c:122-145 | The definition lines give the two channels their bits. |
| `Vcd.FirstLines` | apps/user/i2cscope/sniff.c:173-179 | The lines every file begins with, character by character. |
| `Vcd.StampIs` | apps/user/i2cscope/sniff.c:185-194 | A time stamp is the time since the first edge, modulo 2^32. |
| `Vcd.StampsKeepTime` | apps/user/i2cscope/sniff.c:185-194 | In a capture of less than 2^32 microseconds the stamps begin at 0 and differ as the times do. |
| `VcdFile.Sniffer.SaveVcd` | apps/user/i2cscope/sniff.c:167-200 | The writer leaves a file with the header, the idle state and the lines of every moving sample. |
| `VcdFile.Reader.NextLine` | apps/user/waves/waves.c:78-95 | However few bytes each read returns, the next line comes out whole, without carriage returns and cut at the line buffer; the end of the file is reported once nothing is left. |
| `VcdFile.Viewer.HandleLine` | apps/user/waves/waves.c:118-163 | The body of the parse loop updates the viewer as the line demands. |
| `VcdFile.Viewer.Load` | apps/user/waves/waves.c:105-178 | The whole file is parsed and its samples are decoded into the token table. |
| `VcdFile.SaveAndReload` | apps/user/i2cscope/sniff.c:167-200 | Decoding a capture, saving it and loading the file leaves in the viewer the first tokens of the table the sniffer decoded, up to 256 where that takes 384, times counted from the first edge. |
| `Gfx.SamePixels` | sdk/display/gfx.c:177-353 | Any list of fills, pixels, rectangles, texts and blits with any coordinates, drawn in both modes on black panels of any width and then flushed, leaves in each mode its picture; on panels of at most 320 columns, and on wider ones where later painting settles what was dropped, the same pixels. |
| `GfxPicture.ModesAgree` | sdk/display/gfx.c:177-227 | The pictures of the two modes are the same if each pixel of a fill or rectangle that the streamed mode drops is painted again later. |
| `GfxPicture.ModesAgreeExactly` | sdk/display/gfx.c:177-227 | And only then: if some pixel is not, recolouring the dropped operations makes the pictures differ. |
| `GfxPicture.NarrowSettled` | sdk/display/gfx.c:177-227 | On at most 320 columns nothing is dropped, so every list is settled. |
| `Gfx.Panel.WriteArea` | sdk/display/gfx.c:156-162 | An area is only ever written inside the panel; inside it the pixels are replaced, outside nothing changes. |
| `Gfx.Context.Fill` | sdk/display/gfx.c:177-191 | Fills the panel; a streamed panel wider than 320 is left as it was. |
| `Gfx.Context.Pixel` | sdk/display/gfx.c:193-203 | Sets one pixel, or nothing if it is off the panel. |
| `Gfx.Context.Rect` | sdk/display/gfx.c:205-227 | Paints exactly the part of the rectangle that is on the panel; in streamed mode if that part is at most 320 columns wide, and nothing otherwise. |
| `Gfx.Context.Text` | sdk/display/gfx.c:239-293 | Paints the glyphs with the same line breaks, fallback character and clipping in both modes. |
| `GfxGlyph.DrawLine` | sdk/display/gfx.c:239-293 | A line of text on a black panel, in either mode and flushed: the k-th character stands 8 columns on for each before it, in lines of as many as fit, and each of its pixels on the panel is of the ink or the paper; all others stay black. |
| `GfxGlyph.TextCells` | sdk/display/gfx.c:247-291 | The colour of every pixel of every character: a row byte of the font has column 0 in its lowest bit, and a character without a glyph shows as `?`. |
| `GfxGlyph.BitIsInked` | sdk/display/gfx.c:236 | The bit tested is the one of value 2^col. |
| `GfxGlyph.PenMoves` | sdk/display/gfx.c:291 | The pen moves on by 8, or back to the margin and 8 down where the next character would not fit. |
| `GfxGlyph.NewlineDown` | sdk/display/gfx.c:247 | A newline sends the rest of the text to the margin, 8 below. |
| `Gfx.Context.Raster` | sdk/display/gfx.c:231-237 | The 64 cells of a glyph, ink by ink. |
| `Gfx.Context.GlyphBuffered` | sdk/display/gfx.c:251-258 | A glyph into the back buffer is the glyph clipped to the panel. |
| `Gfx.Context.GlyphStream` | sdk/display/gfx.c:274-289 | A glyph streamed whole, or row by row from its clipped corner, is the same picture. |
| `Gfx.Context.Blit` | sdk/display/gfx.c:295-329 | Copies exactly the visible part of the source, whatever corner is cut off. |
| `Gfx.Context.Flush` | sdk/display/gfx.c:333-353 | After a flush the panel shows what was drawn, in both modes. |
| `Gfx.Context.DrawAll` | sdk/display/gfx.c:177-329 | A list of operations leaves the picture it describes; streamed, without the fills and rectangles wider than 320 columns. |
| `Gfx.Context.Draw` | sdk/display/gfx.c:177-329 | One operation does, on a panel of any width. |
| `GfxPicture.GlyphClip` | sdk/display/gfx.c:274-289 | The clipped box of a glyph, all its rows done, is the glyph on the panel. |
| `GfxPicture.BlitClip` | sdk/display/gfx.c:299-304 | Clipping a blit to the panel changes nothing on it. |
| `StackUsage.Analyze` | tools/dbt/stackusage.py:48-98 | The recursion list is empty if and only if no cycle is reachable from the root; if it is, `worst` is the cost of the reported chain and no chain from the root costs more. Flagged functions are on a reachable cycle. |
| `StackUsage.Analyzer.Walk` | tools/dbt/stackusage.py:72-88 | The memoised walk keeps every settled entry, settles its own node unless recursion was seen, and flags only functions on a reachable cycle. |
| `StackUsage.TotalCovers` | tools/dbt/stackusage.py:72-88 | Every chain from a memoised function costs at most its memoised total. |
| `StackUsage.ChainExactly` | tools/dbt/stackusage.py:72-82 | A chain is a walk along edges of the graph, and every such walk is one. |
| `StackUsage.CostAdds` | tools/dbt/stackusage.py:78-83 | It costs the sum of its frames, where a function without one costs nothing. |
| `StackUsage.SettledIsAcyclic` | tools/dbt/stackusage.py:67-88 | If the root ends up settled, no cycle is reachable from it. |
| `StackUsage.Settle` | tools/dbt/stackusage.py:84-87 | Memoising a function whose callees are all memoised keeps every promise of the memo. |
| `StackUsage.Recommend` | tools/dbt/stackusage.py:112-125 | No size without an entry point or with recursion; otherwise a multiple of 16 that covers the worst chain and the reserve and has the 20 % margin, rounded up by less than 16, for every floating-point product within 1e-15 of the exact one. |
| `StackUsage.SizeFor` | tools/dbt/stackusage.py:101-125 | A size is given if and only if the root exists and reaches no cycle, and it covers every call chain plus the reserve. |
| `Smoke.FeedAll` | tools/dbt/qemu.py:343-371 | For every way of cutting the console text, each of the five lists ends with exactly the labels whose pattern occurs in the whole text, each once, and the boot count is the number of its banners; for every pattern that is safe. |
| `Smoke.Matcher.Feed` | tools/dbt/qemu.py:343-371 | Each chunk keeps that true of the text so far. |
| `Smoke.Matcher.FeedPatterns` | tools/dbt/qemu.py:354-361 | After scanning the window, each list holds a label if and only if its pattern occurs in all of the text. |
| `Smoke.Matcher.FeedGroup` | tools/dbt/qemu.py:359-361 | So does the loop over one list, whichever labels it had. |
| `Smoke.Matcher.FeedBanners` | tools/dbt/qemu.py:366-370 | A banner seen in two windows, or growing at a chunk boundary, is counted once. |
| `Smoke.OccursMore` | tools/dbt/qemu.py:347-361 | A pattern occurs after a chunk if and only if it did before or does in the window that begins on a line start. |
| `Smoke.MissedExactly` | tools/dbt/qemu.py:307-351 | Some text and some cut of it make the matcher miss a pattern if and only if the pattern matches some text that shows neither before its last character nor in the window scanned with that. |
| `Smoke.LocalIsSafe` | tools/dbt/qemu.py:307-308 | No pattern is missed that has newlines only among the last 513 characters of what it matches. |
| `Smoke.LiteralSafe` | tools/dbt/qemu.py:307-308 | For a literal that is the exact condition. |
| `Smoke.LiteralOccurs` | tools/dbt/qemu.py:310-312 | A literal occurs exactly where it stands, and if it is anchored, at the start of the text or behind a newline. |
| `Smoke.BannerCountIs` | tools/dbt/qemu.py:366-370 | The boot count is the number of places of `rst:0x` with a hexadecimal digit behind it. |
| `Smoke.CorePanicLost` | tools/dbt/qemu.py:162-308 | The overlap is not longer than every pattern: the panic handler line, with more than 512 line breaks where the pattern allows white space, is lost. |
| `Smoke.Search` | tools/dbt/qemu.py:360 | The search of a window finds a pattern if and only if it occurs there. |
| `Smoke.BannerIsLiteral` | tools/dbt/qemu.py:168 | A boot banner is `rst:0x` with a hexadecimal digit behind it. |
| `Ld2450.StreamReports` | sdk/sensor/libld2450.c:87-106 | For every byte stream the reported frames are those of the batch splitter: find the next header, take 30 bytes, report them if the tail is right, go on behind them. |
| `Ld2450.FramerIsSplitter` | sdk/sensor/libld2450.c:87-106 | The same from any state of the parser: what it holds is the leftover of the stream so far. |
| `Ld2450.HeaderTailIsLongest` | sdk/sensor/libld2450.c:93-95 | While it hunts, the parser holds the longest beginning of a header that ends the input. |
| `Ld2450.BlockRoundTrip` | apps/user/radar/radar.c:276-288 | Decoding an encoded target gives back position and speed for all values within 32767, and the fixed resolution. |
| `Ld2450.FrameMeans` | sdk/sensor/libld2450.c:39-85 | Thirty bytes are a frame if and only if they begin with AA FF 03 00 and end in 55 CC; eight zero bytes are an empty slot, and of others each number has its sign in the highest bit, set for what is not negative. |
| `Ld2450.Sign15InvertsEnc15` | sdk/sensor/libld2450.c:44-48 | The sign-flag decoding inverts the encoding of the demo mode. |
| `Ld2450.DemoFrameReported` | apps/user/radar/radar.c:292-327 | A synthesised frame behind any junk that hides no header is reported as exactly its three targets. |
| `Ld2450.Parser.FeedByte` | sdk/sensor/libld2450.c:87-106 | The parser object makes one step of the framer and writes its output only when a frame is complete and right. |
| `Ld2450.Parser.FeedAll` | sdk/sensor/libld2450.c:142-153 | A chunk fed byte by byte reports the frames of the splitter and holds its leftover. |
| `Klog.NoLossNoRepeat` | kernel/duneos_kernel/src/klog.c:118-143 | Over every interleaving of appends and reads, a reader has read exactly the log between its first and its present position if and only if no read with room for a byte ever found it more than 16384 bytes behind. |
| `Klog.MovesByGotAndLost` | kernel/duneos_kernel/src/klog.c:118-143 | Over every interleaving, the position of a reader moves by the bytes it got and the bytes it lost, and it lost none if and only if it kept up. |
| `Klog.ReadDelivers` | kernel/duneos_kernel/src/klog.c:118-143 | A read with room gives as many bytes as fit or are there, from the position or, if that is more than 16384 behind, from the oldest byte kept. |
| `Klog.ReadsDrain` | kernel/duneos_kernel/src/klog.c:118-143 | A reader that goes on reading comes to the end of the log. |
| `Klog.Ring.Append` | kernel/duneos_kernel/src/klog.c:40-46 | Appending keeps the last 16384 bytes of the whole log in their slots. |
| `Klog.Ring.ReadInto` | kernel/duneos_kernel/src/klog.c:118-143 | One or two copies out of the ring deliver the bytes of the whole log at the position, which moves by their number. |
| `Klog.Ring.Play` | kernel/duneos_kernel/src/klog.c:40-143 | Any sequence of appends and reads on the ring is a run on a log that forgets nothing. |
| `Klog.PieceIsLog` | kernel/duneos_kernel/src/klog.c:133-140 | A stretch of the ring, cut at the wrap, is the stretch of the log. |
| `Klog.DumpIsLogTail` | tools/dbt/qemu.py:683-699 | From a raw dump and the write counter, the reconstruction is the last bytes of the log, as many as the ring holds. |
| `KnownYaml.SavedReloads` | sdk/net/known_yaml.c:24-55 | What is printed parses back to the same list if and only if the list fits, every ssid is non-empty, and every value fits, has no newline, no whitespace at its ends and is not wrapped in double quotes. |
| `KnownYaml.ValueSurvives` | sdk/net/known_yaml.c:10-22 | A value printed behind a space is read back unchanged if and only if it is bare of outer whitespace, not wrapped in quotes, and fits. |
| `KnownYaml.TrimIs` | sdk/net/known_yaml.c:12-14 | Trimming removes the whitespace around a value and nothing of the value. |
| `KnownYaml.QuotesRemoved` | sdk/net/known_yaml.c:10-22 | One pair of double quotes around a value goes, with the white space outside; what is inside stays, cut to the field. |
| `KnownYaml.PlainKept` | sdk/net/known_yaml.c:10-22 | A value without them stays whole, cut to the field. |
| `KnownYaml.OtherLine` | sdk/net/known_yaml.c:34-51 | Comments, empty lines and lines of any other kind change nothing. |
| `KnownYaml.EntryLine` | sdk/net/known_yaml.c:36-50 | `- ssid:` opens an entry with its value for a name, if that is not empty and there is room; `psk:` completes the entry that is open. |
| `KnownYaml.OneSaved` | apps/user/wifi/wifi.c:136-150 | The printed file of a network, character by character. |
| `KnownYaml.ParsedAllOneLine` | sdk/net/known_yaml.c:24-55 | No text whatever parses to a value with a newline in it. |
| `KnownYaml.ReadNetsGrows` | sdk/net/known_yaml.c:36-45 | Each printed network adds at most one entry, none is reordered, and the table is never overfilled. |
| `KnownYaml.NetParse` | sdk/net/known_yaml.c:36-50 | The two lines of a network add it to the table, or nothing if its name reads as empty or the table is full. |
| `KnownYaml.ParseJoined` | sdk/net/known_yaml.c:30-53 | Parsing a text is parsing its lines one after the other. |
| `KnownStore.CopyValue` | sdk/net/known_yaml.c:10-22 | The pointer loops compute the trimmed, unquoted and cut value. |
| `KnownStore.HandleLine` | sdk/net/known_yaml.c:34-51 | The body of the line loop updates the table and the open entry as the line demands. |
| `KnownStore.ParseInPlace` | sdk/net/known_yaml.c:24-55 | The pass that cuts the buffer leaves every newline of the text a NUL and the table of its networks. |
| `KnownStore.WifiApp.SaveKnown` | apps/user/wifi/wifi.c:136-153 | The file holds the printed table afterwards, in /data or, without it, in the seed. |
| `KnownStore.WifiApp.LoadKnown` | apps/user/wifi/wifi.c:120-126 | The table is what the current file parses to; a missing /data falls back to the seed, and no file is no network. |
| `KnownStore.WifiApp.SetKnown` | apps/user/wifi/wifi.c:155-166 | Reads the file, replaces or appends the entry, and rewrites the file; a new name in a full table changes nothing. |
| `KnownStore.WifiApp.RemoveKnown` | apps/user/wifi/wifi.c:168-177 | Reads the file, closes the gap over the entry and rewrites the file; an unknown name changes nothing. |
| `KnownMap.FileIsMap` | apps/user/wifi/wifi.c:120-177 | After any run of saves and removals with storable values, the file read as a map from ssid to psk is what the run makes of the map it held before. |
| `KnownMap.AnyFileStep` | apps/user/wifi/wifi.c:120-177 | One save or removal on any file at all, written by hand or not: the file then reads as the changed table with every entry printed and read back and those without a name gone, which is the changed table itself if and only if all its entries survive. |
| `KnownMap.AnyFileRun` | apps/user/wifi/wifi.c:120-177 | So does any run of saves and removals on any file, change by change. |
| `KnownMap.NothingToDo` | apps/user/wifi/wifi.c:155-177 | Removing a name that is not there, or adding one to sixteen, leaves the file as it is. |
| `KnownMap.DropExactly` | apps/user/wifi/wifi.c:168-177 | A removal takes a name out of the map if and only if it was there at most once; of a name listed twice the second entry comes to light. |
| `KnownMap.StepRefines` | apps/user/wifi/wifi.c:155-177 | One save or removal on the table is that change on the map, and leaves distinct names. |
| `KnownMap.SavedLoads` | apps/user/wifi/wifi.c:147-150 | A table of distinct storable networks survives being saved and loaded. |
| `KnownMap.SavedFits` | sdk/net/known_yaml.c:57-67 | Whatever a load can have read, printed again, is at most 1882 characters, which the 2047 characters the loader reads hold. |
| `KnownMap.LoadFielded` | sdk/net/known_yaml.c:24-67 | Whatever a file holds, a load makes at most sixteen entries of it, each short enough for its field and on one line. |
| `RadarMath.CvLine` | apps/user/radar/radar.c:357-371 | Paints exactly max(dx, dy) + 1 pixels, in order the rounded points of the ideal line, and terminates for all end points. |
| `RadarMath.WithinHalf` | apps/user/radar/radar.c:365-370 | Every pixel is one step further along the major axis and at most half a pixel off the ideal line along the minor one. |
| `RadarMath.EndPoints` | apps/user/radar/radar.c:366-367 | The first pixel is the start and the last one the end. |
| `RadarMath.Connected` | apps/user/radar/radar.c:368-370 | Neighbouring pixels touch. |
| `RadarMath.Isqrt32` | apps/user/radar/radar.c:116-126 | The digit-by-digit root is the integer square root rounded down, for every 32-bit value. |
| `RadarMath.RootDigit` | apps/user/radar/radar.c:120-124 | Each digit is set exactly if the square of the larger root still fits. |
| `SnakeRules.EveryRun` | apps/user/snake/snake.c:45-113 | On a field of at most MAX_LEN cells, in every state of every run of keys and ticks the body is a path of distinct cells of the field, its length is 3 plus the score, the food is off it, and the board left by incremental painting shows what a full repaint would. |
| `SnakeRules.StepKeeps` | apps/user/snake/snake.c:80-107 | A step keeps all of that. |
| `SnakeRules.StepPaintsCell` | apps/user/snake/snake.c:95-103 | Erasing the tail, recolouring the old head and drawing the new one leaves each cell as a full repaint would. |
| `SnakeRules.FullArraysStale` | apps/user/snake/snake.c:89-90 | A snake that eats with its arrays full leaves a stale cell unless the new food lands on it, and its length falls behind the score. |
| `SnakeFull.FullArraysHappen` | apps/user/snake/snake.c:45-113 | On the field of a 320 by 240 panel a legal run from a new game gets there: it ends with 512 segments, a score of 510 and a board that a repaint would change. |
| `SnakeFull.StaleFrom` | apps/user/snake/snake.c:80-113 | So does a legal run from every state in which the snake lies along the path and its food is ahead. |
| `SnakeRules.RoomToGrow` | apps/user/snake/snake.c:89-90 | On a field of at most MAX_LEN cells the arrays are never full when food is eaten. |
| `SnakeRules.FreeCell` | apps/user/snake/snake.c:45-48 | A free cell for the food exists if and only if the body is shorter than the field: otherwise placing food would never end. |
| `SnakeRules.NeverReverses` | apps/user/snake/snake.c:109-113 | Steering can never run the head back into the neck. |
| `SnakeRules.StartInside` | apps/user/snake/snake.c:50-57 | The first body lies in the field if and only if there are four columns and a row. |
| `SnakeRules.PaintedIsRendered` | apps/user/snake/snake.c:67-75 | A board that shows every cell as it should is the board a full repaint draws. |
| `SnakeRules.RestartGood` | apps/user/snake/snake.c:50-75 | A new game is good and painted. |
| `Snake.Snake.Advance` | apps/user/snake/snake.c:80-107 | The in-place shift, the wall and self tests and the painting make one step of the rules, or end the game and change only the direction. |
| `Snake.Snake.Render` | apps/user/snake/snake.c:67-75 | The repaint loop draws the food and then the segments, the head in its own colour. |
| `Snake.Snake.PlaceFood` | apps/user/snake/snake.c:45-48 | The food is the first random cell that is not on the snake. |
| `Snake.Snake.OnSnake` | apps/user/snake/snake.c:39-43 | True exactly if the cell is on the body. |
| `Snake.Snake.SetDir` | apps/user/snake/snake.c:109-113 | Takes the new direction unless it is the reverse of the last step. |
| `Snake.Snake.Tick` | apps/user/snake/snake.c:141-147 | A tick is a step, or a new game after the last one. |
| `TetrisRules.EveryGame` | apps/user/tetris/tetris.c:147-201 | In every state of every game the live piece collides with nothing, no full row is standing, the score is ten a line, and the filled cells are four for each locked piece less ten for each line. |
| `TetrisRules.SweptIs` | apps/user/tetris/tetris.c:84-94 | Clearing leaves a board of the same shape with no full row, blank rows on top, and ten filled cells fewer for each row cleared. |
| `TetrisRules.LockKeeps` | apps/user/tetris/tetris.c:77-95 | Locking keeps the balance of cells, lines and score. |
| `TetrisRules.LayFills` | apps/user/tetris/tetris.c:79-82 | Locking a piece that collides with nothing fills one cell for each visible cell of the piece. |
| `TetrisRules.LayCell` | apps/user/tetris/tetris.c:79-82 | After locking, each board cell is the piece colour where the piece covers it and what it was elsewhere. |
| `TetrisRules.FourCells` | apps/user/tetris/tetris.c:28-36 | Each of the seven pieces is four cells in each of its four rotations. |
| `TetrisMoves.PieceCells` | apps/user/tetris/tetris.c:28-50 | Which cells each of the seven pieces covers: those of its first shape, turned clockwise in its square once for each step of its rotation. |
| `TetrisMoves.ColoursAre` | apps/user/tetris/tetris.c:37-41 | The seven colours as the panel takes them, five bits red, six green and five blue. |
| `TetrisMoves.CollidesExactly` | apps/user/tetris/tetris.c:57-67 | A piece collides if and only if it covers a cell left or right of the ten columns, below the twenty rows, or filled. |
| `TetrisMoves.KeyMoves` | apps/user/tetris/tetris.c:166-178 | Left, right and down move the piece by one and up turns it clockwise, if all the cells it would cover are free; otherwise nothing changes. |
| `TetrisMoves.TickMoves` | apps/user/tetris/tetris.c:139-191 | A tick drops the piece by one if it can; if not, locks it and brings the next one in at column 3, or begins a new game on an empty board if that has no room. |
| `TetrisMoves.RowsDrop` | apps/user/tetris/tetris.c:84-94 | Each row that is not full drops by the number of full rows below it. |
| `TetrisRules.PlayKeeps` | apps/user/tetris/tetris.c:139-145 | Every key and every tick, a blocked spawn and its new game included, keeps that. |
| `Tetris.Tetris.Sweep` | apps/user/tetris/tetris.c:84-94 | The row loop with its recheck terminates and leaves the rows that were not full in their order under as many blank ones as were cleared, with lines and score counted. |
| `Tetris.Tetris.DropRows` | apps/user/tetris/tetris.c:89-90 | Copying each row over the one below drops the rows above and blanks the top one. |
| `Tetris.Tetris.Collide` | apps/user/tetris/tetris.c:57-67 | True exactly if some cell of the piece is outside the well or on a filled cell; above the well is free. |
| `Tetris.Tetris.LayPiece` | apps/user/tetris/tetris.c:79-82 | The nested loops write the piece into the board. |
| `Tetris.Tetris.LockPiece` | apps/user/tetris/tetris.c:77-95 | Piece laid, rows swept, score counted. |
| `Tetris.Tetris.Gravity` | apps/user/tetris/tetris.c:139-145 | Down one row, or lock and respawn; false exactly if the new piece collides. |
| `Tetris.Tetris.Turn` | apps/user/tetris/tetris.c:166-191 | One turn of the main loop is one step of the game. |
| `Modifiers.HeldEvents` | apps/system/kb_iomatrix/kb_iomatrix.c:343-355 | Over every run of scans from the start, the events of Ctrl and of Alt are presses and releases in turn, a press first, and after each scan the last one sent is a press exactly if the modifier is held or latched. |
| `Modifiers.RunAlternates` | apps/system/kb_iomatrix/kb_iomatrix.c:343-418 | The same from any state, relative to what was sent last. |
| `Modifiers.ScanPresses` | apps/system/kb_iomatrix/kb_iomatrix.c:343-418 | The events of a held modifier in one scan: its change before the keys, then its change after them. |
| `Modifiers.TapOrUse` | apps/system/kb_iomatrix/kb_iomatrix.c:154-163 | A hold of any length toggles the latch when it ends if and only if the modifier latches at all and no ordinary key was pressed during the hold. |
| `Modifiers.HoldKeeps` | apps/system/kb_iomatrix/kb_iomatrix.c:376-379 | During a hold the latch stays, and the modifier counts as used exactly once a key has been pressed. |
| `Modifiers.OneshotNextKey` | apps/system/kb_iomatrix/kb_iomatrix.c:396-418 | An armed one-shot modifier survives every scan without a key; the first key press finds it still on, it is off at the end of that scan, and its release is injected after the key. |
| `Modifiers.ArmedWaits` | apps/system/kb_iomatrix/kb_iomatrix.c:396-404 | Until then it stays armed and sends nothing. |
| `KeyCodes.CodesInTurn` | apps/system/kb_iomatrix/kb_iomatrix.c:365-394 | Over all runs from the start, each code of a key is pressed and released in turn if and only if the key has the same code on all three layers. |
| `KeyCodes.OneCodeInTurn` | apps/system/kb_iomatrix/kb_iomatrix.c:365-394 | Such a key sends presses and releases in turn from any state, and the last one is a press exactly if the key is down. |
| `KeyCodes.HandoverReleases` | apps/system/kb_iomatrix/kb_iomatrix.c:369-393 | Any other key, pressed alone and let go just as Fn or Shift goes down, releases a code that it never pressed. |
| `KeyCodes.ScanTypes` | apps/system/kb_iomatrix/kb_iomatrix.c:365-394 | One scan injects of a code the change of the key, if the layer of that scan gives it the code, and nothing else. |
| `KeyCodes.KeyInjects` | apps/system/kb_iomatrix/kb_iomatrix.c:365-394 | A key that changes injects its code on the layer, or on the first layer if it has none there, or nothing; the four modifiers inject no key. |
| `KeyCodes.FirstScan` | apps/system/kb_iomatrix/kb_iomatrix.c:137-142 | Fn is at row 2 column 0, Shift beside it, Ctrl at row 3 column 0 and Alt at column 2: what each does in the first scan. |
| `KeyCodes.LayerInTurn` | apps/system/kb_iomatrix/kb_iomatrix.c:343-363 | Over every run, Fn and Shift are reported down and up in turn, as they are. |
| `KeyScan.Scanner.ScanOnce` | apps/system/kb_iomatrix/kb_iomatrix.c:325-418 | One turn of the scan loop updates the modifiers and the previous matrix and injects exactly the events of the rules, in order. |
| `KeyScan.Scanner.StepMods` | apps/system/kb_iomatrix/kb_iomatrix.c:326-331 | The tap state machine of each modifier, and which physical levels changed. |
| `KeyScan.Scanner.ResolveLayer` | apps/system/kb_iomatrix/kb_iomatrix.c:333-338 | The layer is that of the strongest active modifier: Fn over Shift over none. |
| `KeyScan.Scanner.SendBefore` | apps/system/kb_iomatrix/kb_iomatrix.c:343-363 | The events before the keys, in table order. |
| `KeyScan.Scanner.ScanKeys` | apps/system/kb_iomatrix/kb_iomatrix.c:365-394 | Every changed key is injected with its code on the layer, or its base code; a press uses every modifier that is down. |
| `KeyScan.Scanner.ClearOneshots` | apps/system/kb_iomatrix/kb_iomatrix.c:397-404 | Exactly the one-shot latches that are not held go out. |
| `KeyScan.Scanner.SendAfter` | apps/system/kb_iomatrix/kb_iomatrix.c:405-417 | The events after the keys. |

## Left out

- Devices, files and the operating system: a panel is a grid of pixels, a file is its text, the gpio matrix and random draws are parameters; calls that fail to open or write are not modelled.
- Shell: a simple command, the expansion of a word list and the assignment of a loop variable are arbitrary functions of the state; pipelines, expansion, globbing and builtins are behind them.
- ShellCut: the buffer is cut in place by writing NULs into it; the model returns the statements. A text holds no NUL.
- ShellControl.ScriptMeansTree: statements longer than 255 characters, names longer than 23 and word lists of more than 32 words are cut by the engine and kept out of the trees (word lists are cut on both sides).
- ShellArith.EvalPrinted: an overflow wraps, as the machine does, where C leaves signed overflow undefined; the `expr` buffer of 160 bytes cuts longer expressions before they are evaluated, and names are at most 23 characters.
- ShellPath.NormalizePath: paths begin with a slash and are shorter than 256 characters, as every caller passes them; longer ones are cut by the source.
- Regex: texts and patterns hold no NUL; behind the bytes a pattern stores is what earlier patterns left, and a class whose scan leaves the memory of the compiler gives an arbitrary answer.
- RegexCompile.CompileShown: classes are written without a closing bracket or an unpaired backslash in them, the spellings the compiler can read.
- I2c: capturing and stitching of windows, and the names of channels on the screen.
- Vcd: files hold no NUL and times are the 32-bit differences the sniffer prints.
- Gfx: the FB0 backend, whose kernel side is not part of this model; devices, canvases and coordinate sums beyond the machine word.
- StackUsage: reading `.ci` files and printing reports; a path is the list of names, each with the frame the graph gives it.
- Smoke.FeedAll: a Python expression is the set of texts it matches, which leaves out look-around beyond the match; PSRAM detection, verdicts and the run loop are not modelled.
- Klog: formatting of log lines, the lock-free ROM writer, 32-bit wrap of the counter, and UTF-8 decoding and NUL stripping of a dump.
- Ld2450: configuration commands and the trigonometry of the synthetic targets.
- KnownYaml: merging the legacy single-network file; a C string holds no NUL, and a file is cut at its first one.
- KnownMap.FileIsMap: starts from a file with distinct names and saves storable values; what changes make of any other file is stated by KnownMap.AnyFileRun and KnownMap.DropExactly.
- RadarMath.CvLine: pixels are collected in order instead of drawn, and coordinates are unbounded.
- Snake: score text, speed and the pixels inside a cell; the random generator is a list of draws with a free one among them.
- Tetris: rendering, speed and the random generator; a board row is copied as one value where the source copies bytes.
- Modifiers: reading the modes from the configuration, publishing the latches for the status bar, and the concrete keymap: the results hold for every keymap.
- The remaining programs, the loader, the supervisor, board generators and build commands: table look-ups and device protocols that would add only easy members.
