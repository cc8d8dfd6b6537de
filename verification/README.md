# Draw-and-guess game: round logic and drawing surface

This project models the local game logic of a draw-and-guess game window
written with Qt (`drawgame.cpp`, `drawgame.h`). Two objects carry the state:

- `DrawingArea` (module `Canvas`, class `Canvas.DrawingArea`) is the drawing
  surface. It holds a raster (a two-dimensional array of RGB pixels, 800 by
  600 at start), the pen (colour, width, eraser flag) and the mouse-stroke
  state (`drawing`, `lastPoint`). It clears the raster, grows it when the
  widget outgrows it, and turns mouse drags into line segments.
- `DrawGame` (module `Game`, class `Game.DrawGame`) is the game window. It
  holds the local player's role (`isDrawer`), the seconds left in the round,
  the secret word, the word list, and the word label. It handles the start
  button, chat messages (guesses), the one-second clock tick and the pen
  controls.

The course of a round is also given as pure functions on a `Round` value
(role and clock): `AfterTick` for a clock tick and `AfterMessage` for a chat
message. The class methods are proved to move their state exactly as these
functions say, and the lemmas about rounds are proved about the functions.
Module `Text` holds the two string operations the guess check uses:
trimming white space from both ends, and case-insensitive comparison.

Three behaviours of the code are worth stating, because a reader might
expect otherwise:

- When the clock runs out, the code swaps the roles before starting the next
  round (`drawgame.cpp:238`). The model does the same (`AfterTick`,
  `RoundTimesOut`, `RolesAlternate`).
- The code does not check the role before drawing: the mouse handlers draw
  for the drawer and the guesser alike. The model does the same.
- The two files contain no networking at all. There is no socket, no message
  framing, no stroke encoding and no image resynchronisation. So the model
  has none of these either.

## Model

| member | source | states |
|---|---|---|
| `Text.IsSpace` | drawgame.cpp:172 | The white space that trimming removes is exactly what `QChar::isSpace` accepts: TAB to CR, SPACE, U+0085, U+00A0, U+1680, U+2000 to U+200A, U+2028, U+2029, U+202F, U+205F and U+3000. No white-space character is a folded capital. |
| `Text.SkipLeadingSpace` | drawgame.cpp:172 | The scan from the front stops at the first visible character, or at the end. Everything it passes over is white space. |
| `Text.SkipTrailingSpace` | drawgame.cpp:172 | The scan from the back stops just after the last visible character, never before the front cursor. Everything it passes over is white space. |
| `Text.Trimmed` | drawgame.cpp:172-173 | The trimmed message is empty exactly when the message is all white space. Otherwise it starts and ends with a visible character. |
| `Text.TrimmedSlice` | drawgame.cpp:172 | The trimmed message is the slice of the message from the returned index, with the returned length. Everything before and after that slice is white space, and the slice starts and ends with a visible character when it is not empty. |
| `Text.TrimmedIs` | drawgame.cpp:172 | A slice that starts and ends with a visible character, with only white space before and after it, is exactly what trimming keeps. So the trimmed message is unique. |
| `Text.TrimmedIgnoresPadding` | drawgame.cpp:172 | Adding white space around a message does not change the trimmed message. |
| `Text.TrimmedIdempotent` | drawgame.cpp:172 | Trimming twice gives the same result as trimming once. |
| `Text.FoldCaseIdempotent` | drawgame.cpp:179 | Case-folding a folded string changes nothing. So a string compares equal, ignoring case, to its own folded form. |
| `Text.TrimmedFoldCase` | drawgame.cpp:172-179 | Case folding commutes with trimming. |
| `Text.FoldChar` | drawgame.cpp:179 | A character changes under folding exactly when it is one of the modelled capitals, and then it moves to a higher code point that is not a capital. `Text.FoldCharAlike` shows that no two different letters end up alike. The ranges folded are listed under "## Left out" (`Text.FoldChar` line). |
| `Text.FoldCharDistinguishesCapitals` | drawgame.cpp:179 | Two different capitals never fold to the same character. |
| `Text.FoldCharAlike` | drawgame.cpp:179 | Two characters fold alike exactly when they are the same letter up to case: equal, or one is the capital whose fold is the other. |
| `Text.FoldCase` | drawgame.cpp:179 | A folded string has the same length, contains no modelled capital, and keeps every other character in place. |
| `Text.EqualsIgnoringCase` | drawgame.cpp:179 | Two strings compare equal ignoring case when they fold to the same text. Strings of different lengths never compare equal. |
| `Text.EqualsIgnoringCaseByChar` | drawgame.cpp:179 | Two strings compare equal ignoring case exactly when they have the same length and their characters fold alike, position by position. |
| `Text.EqualsIgnoringCaseExactly` | drawgame.cpp:179 | The guess check is an exact match ignoring case: two strings compare equal exactly when they have the same length and each position holds the same letter up to case. So "A" and "B" never match. |
| `Canvas.ColorForIndex` | drawgame.cpp:195-205 | Index 0..4 gives black, red, green, blue or yellow. Any other index gives black. The result is always a palette colour. Black comes exactly from index 0 and from out-of-range indices. |
| `Canvas.InkColor` | drawgame.cpp:82 | Without the eraser a stroke has the pen colour. It is white exactly when the eraser is on or the pen itself is white. |
| `Canvas.UpdateRect` | drawgame.cpp:86-88 | Each edge of the repainted rectangle lies exactly twice the pen width beyond the outermost end point on its side. So it is the rectangle spanned by the two points, widened by twice the pen width on every side. For a pen width of zero or more it is normalised and contains both end points. |
| `Canvas.UpdateRectCoversPen` | drawgame.cpp:83-88 | Every point within twice the pen width of an end point, in each coordinate, lies in the repainted rectangle. |
| `Canvas.GrownSize` | drawgame.cpp:70-73 | Each new dimension is the larger of (widget + 128) and the raster dimension. So the raster never shrinks and covers the widget with a margin. |
| `Canvas.NeedsGrowth` | drawgame.cpp:70 | The raster must grow exactly when it does not cover the widget in both width and height. |
| `Canvas.GrowthSettles` | drawgame.cpp:68-77 | After one growth, a second resize to the same widget size asks for no growth. |
| `Canvas.ResizedAt` | drawgame.cpp:93-103 | The resized raster has exactly the requested size. Pixels in the overlap keep their old colour. All other pixels are white. |
| `Canvas.Resized` | drawgame.cpp:98-101 | The white fill and the copy at the origin give a raster of exactly the requested size, white wherever the old raster has no pixel. `Canvas.ResizedAt` adds that overlap pixels keep their colour. |
| `Canvas.ResizeToOwnSize` | drawgame.cpp:95-96 | Resizing to the current size changes nothing. So the early return on an equal size is only a shortcut. |
| `Canvas.GrowThenCrop` | drawgame.cpp:98-102 | Growing loses no pixel: cropping back to the old size gives back the old raster. |
| `Canvas.GrowTwice` | drawgame.cpp:68-77 | Two successive growths give the same raster as one growth to the final size. |
| `Canvas.Fill` | drawgame.cpp:17 | Every pixel of the array gets the given colour. |
| `Canvas.DrawAtOrigin` | drawgame.cpp:100-101 | The old raster is copied pixel for pixel into the top-left corner of the new one. The rest of the new one is untouched. |
| `Canvas.DrawingArea.constructor` | drawgame.cpp:9-18 | A new surface is 800×600 and all white. `drawing` is false, the eraser is off, and the pen is black and 3 pixels wide. |
| `Canvas.DrawingArea.SetPenColor` | drawgame.cpp:20-23 | Sets the pen colour. Nothing else changes. |
| `Canvas.DrawingArea.SetPenWidth` | drawgame.cpp:25-28 | Sets the pen width. Nothing else changes. |
| `Canvas.DrawingArea.SetEraserMode` | drawgame.h:24-25 | Afterwards `IsEraserMode()` returns the value just passed. The pen, the raster, `drawing` and `lastPoint` do not change. |
| `Canvas.DrawingArea.Clear` | drawgame.cpp:32-36 | Every pixel becomes white. The raster size does not change. |
| `Canvas.DrawingArea.MousePress` | drawgame.cpp:38-44 | A left press starts a stroke at the pressed point. Other buttons change nothing. |
| `Canvas.DrawingArea.MouseMove` | drawgame.cpp:46-51 | A segment is drawn exactly when a stroke is under way and the left button is held. The segment runs from the last point to the new one, and the new point becomes the last point. Without a segment no pixel changes. With one, no pixel outside its repainted rectangle changes. |
| `Canvas.DrawingArea.MouseRelease` | drawgame.cpp:53-59 | A left release during a stroke draws a last segment and ends the stroke. Any other release changes nothing, pixels included. With a segment, no pixel outside its repainted rectangle changes. |
| `Canvas.DrawingArea.ResizeEvent` | drawgame.cpp:68-77 | The raster never shrinks, and afterwards it covers the widget. If the widget was larger, the raster gets the grown size and keeps its pixels. Otherwise it is the same raster. |
| `Canvas.DrawingArea.DrawLineTo` | drawgame.cpp:79-91 | The segment from the last point to the end point is drawn white in eraser mode and in the pen colour otherwise, at the pen width. The raster keeps its identity and size, and for a pen width of zero or more no pixel outside the repainted rectangle (`UpdateRect`) changes. Afterwards the end point is the last point. |
| `Canvas.DrawingArea.ResizeImage` | drawgame.cpp:93-103 | The raster gets exactly the new size, and its pixels are the old ones resized. With an equal size the raster is left as it is. Otherwise it is a new raster. |
| `Game.AfterTick` | drawgame.cpp:226-241 | A tick takes one second off the clock while the role is unchanged. The role flips exactly when the clock runs out, and then the clock is full again. A clock between 1 and 180 stays in that range. |
| `Game.TicksWithinRound` | drawgame.cpp:228 | Before the clock runs out, k ticks take exactly k seconds off it and keep the role. |
| `Game.AfterTicksAdd` | drawgame.cpp:226-241 | m + n ticks are m ticks followed by n ticks. |
| `Game.RoundTimesOut` | drawgame.cpp:235-239 | With no correct guess, a round ends after exactly as many ticks as its clock shows. The role is unchanged until then. At that tick the roles swap and the clock is full. |
| `Game.RolesAlternate` | drawgame.cpp:235-239 | With nobody guessing, the roles swap every 180 ticks. After k full rounds the role is the original one exactly when k is even. |
| `Game.AfterMessage` | drawgame.cpp:170-193 | A message changes the role exactly when it is a winning guess: the player is the guesser, and the trimmed message is non-empty and equals the word ignoring case. A win makes the player the drawer with a full clock. Anything else changes nothing. |
| `Game.IsWinningGuess` | drawgame.cpp:172-179 | A message wins only for the guesser, only if it is not all white space, and only if its trimmed form has the length of the secret word, which is not empty. |
| `Game.DrawerNeverGuesses` | drawgame.cpp:177-191 | The drawer's messages never change role or clock. |
| `Game.BlankMessageIgnored` | drawgame.cpp:172-173 | A message of only white space changes nothing. |
| `Game.PaddedGuess` | drawgame.cpp:172 | White space around a guess does not change its outcome. |
| `Game.GuessIgnoresCase` | drawgame.cpp:179 | Two messages that differ only in letter case have the same outcome. |
| `Game.SmallLetterGuessWins` | drawgame.cpp:178-185 | The guesser wins by typing the secret word in small letters, unless the word starts or ends with white space. A win makes the guesser the drawer with a full clock. |
| `Game.LabelShowsWordOnlyToDrawer` | drawgame.cpp:162-167 | The drawer's label tells any two words apart. The guesser's label is the same for every word. |
| `Game.WordLabel` | drawgame.cpp:163-167 | The label always starts with the prefix "Слово: ". After it comes the secret word for the drawer and "*****" for the guesser. |
| `Game.SwitchedTwice` | drawgame.cpp:251-255 | Switching roles twice restores the role. |
| `Game.DrawGame.constructor` | drawgame.cpp:105-136 | The window starts the first round at once. The local player is the drawer and the clock shows 180. The word is from the ten-word list. The surface is new, white and 800×600, with the default pen. |
| `Game.DrawGame.GenerateRandomWord` | drawgame.cpp:243-249 | With a non-empty word list, the new word is one of its elements. With an empty list, the word is unchanged. |
| `Game.DrawGame.SwitchRoles` | drawgame.cpp:251-255 | The role flips. Nothing else changes. |
| `Game.DrawGame.StartGame` | drawgame.cpp:154-168 | The role is kept and the clock is 180 and running. The word is picked from the list. The surface is cleared at its size. The word label shows the word exactly when the player is the drawer. |
| `Game.DrawGame.SendMessage` | drawgame.cpp:170-193 | The role and clock move as `AfterMessage` says. A message that does not win keeps the word and the surface. A winning guess starts a new round with a word from the list (possibly the same one) and a cleared surface. |
| `Game.DrawGame.UpdateGame` | drawgame.cpp:226-241 | The role and clock move as `AfterTick` says. Before time runs out, the word and the surface are kept. When time runs out, a new round starts with a word from the list (possibly the same one) and a cleared surface. |
| `Game.DrawGame.ColorChanged` | drawgame.cpp:195-209 | The pen takes the colour of the chosen index and the eraser is turned off. |
| `Game.DrawGame.ClearClicked` | drawgame.cpp:211-214 | The surface is cleared to white at its size. |
| `Game.DrawGame.EraserClicked` | drawgame.cpp:216-224 | The eraser flag takes the button state. When on, the pen is white. When off, the pen is the colour the chooser shows. The invariant "eraser on implies white pen" is kept. |

`Game.DrawGame.Valid` holds the invariants that the constructor sets up and
that every slot keeps: `StartGame`, `SendMessage`, `UpdateGame`,
`ColorChanged` and `EraserClicked` (`ClearClicked` changes only pixels, which
`Valid` does not depend on). The helpers `SwitchRoles` and
`GenerateRandomWord` are steps inside those slots and do not keep it on their
own: after `SwitchRoles` the word label is stale until `StartGame` rewrites it.
The invariants are:

- the clock shows 1 to 180 seconds and is running;
- the secret word comes from the word list;
- the word label shows the word to the drawer only;
- the eraser is on only with a white pen;
- the raster is never smaller than 800×600.

The local role is a single boolean, so the player is always exactly one of
drawer or guesser (`drawgame.h:73`). `DrawingArea` keeps no stroke history.
Its only per-stroke state is `drawing` and `lastPoint` (`drawgame.h:39-44`),
and the model adds none.

## Left out

- Networking, message framing, stroke encoding and image resynchronisation are not in the two files, so there is nothing to model.
- Canvas.DrawingArea.DrawLineTo: the pixels inside the repainted rectangle are not modelled. They come from the Qt painter (round caps, joins), which is foreign code. The method returns the segment and pen it hands to the painter. Its contract allows any change inside the repainted rectangle and none outside it.
- Canvas.UpdateRect: `QRect::normalized` is modelled as taking the minimum and maximum of the two corners, for Qt 5, which the `QOverload` signal wiring (`drawgame.cpp:134`, `drawgame.cpp:147`) points to. Qt 5 swaps the corners only when the second is more than one pixel before the first, so a segment whose end is exactly one pixel left of (or above) its start keeps the unswapped corners there, and the model does not reproduce that case. Qt 6 swaps whenever the second corner comes first and also moves both corners one pixel inward. Under Qt 6, a right-to-left or bottom-to-top segment would get a rectangle one pixel narrower on each side than the model's.
- The rectangle passed to `update(rect)` is modelled (`Canvas.UpdateRect`); the repaint it requests is not. Repaint requests, `paintEvent`, layout, the minimum widget size, the status label, the chat log, the start-button caption, message boxes and clearing the input line are presentation. They are not modelled. The word label is modelled, because it decides who sees the secret word.
- The Qt timer becomes the boolean `timerActive`. Its one-second ticks are calls of `UpdateGame` from outside.
- The random word choice is a nondeterministic pick from the word list.
- Text.FoldChar folds exactly these capitals to their small letters: A–Z, U+00C0–U+00DE except U+00D7, U+0400–U+040F and U+0410–U+042F. Qt's case-insensitive compare folds every script. Every other character folds to itself in the model, for example the Cyrillic capitals U+0460–U+052F (such as Ґ U+0490 and Ӏ U+04C0), Greek capitals and Latin-1 µ U+00B5, which Qt folds to Greek μ.
- Canvas.Rgb: colours are red, green and blue channels only, with no alpha channel and no colour-spec conversion.
- Widget sizes and mouse events are parameters of the handlers. The colour chooser's current index is a parameter of `EraserClicked`.
- Game.DrawGame.ColorChanged: unchecking the eraser button fires the eraser handler again, with the chooser's current index. That re-entry is not modelled, because it sets the same pen colour and eraser state again.
- Integer widths: `penWidth * 2` and the widget size plus 128 are unbounded integers in the model. The clock stays between 0 and 180, so it cannot overflow.
