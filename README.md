# UnixLikeFileExplorer: a verified model of the explorer's main loop

UnixLikeFileExplorer is a keyboard-driven directory browser for the
terminal. This version of the program has one class, `App`, in `main.py`.
On every pass of its loop it reads the window size and paints the title
`THE_FILE_GLOBBER` centred on row 0. It then paints the names in the
current directory, one every other row from row 2, with the selected name
in reverse video. Finally it reads a key: the up and down arrows move the
selection, and `:` ends the loop.

This Dafny project models that logic in three modules:

- `Cursor` (`cursor.dfy`): special keys, the clamp `max(0, min(x, n - 1))`,
  and the effect of one key on the selection.
- `Screen` (`screen.dfy`): where the title and entries are painted.
  - The entry row is `i * 2 + 2`.
  - The centring column is `cols // 2 - len(text) // 2`.
  - A label is either the name alone, or a four-character prefix, a space
    and the name.
  - Only the selected entry is highlighted.
- `Explorer` (`explorer.dfy`): the `App` class. Its fields are `running`,
  `key`, `path`, `selectedItem`, `rows`, `cols` and the `useEmojis`
  setting.
  - `Update`, `HandleInput`, `DisplayMiddleScreen`, `ApplyAesthetic` and
    `ListFiles` each mirror the Python method of the same name.
  - `Iterate` is not a Python method: it is the body of the
    `while self.running` loop in `main`.
  - `Run` is `run` and `main` together: that loop over a sequence of turns.
  - The pure specification functions beside the class (`Consumed`,
    `SelectionAfter`, `FramesOf`) say what a whole session does.

These inputs are parameters:

- what the terminal reports each turn (window size, key pressed);
- what the filesystem reports (the directory's names, and whether a name
  is a file).

One `Turn` value carries the window size, the listing, the key, and a
function `isFile: string -> bool` that stands for the file test at the
current path on that pass. Painting returns `Paint(row, col, text, reverse)` records and is not
performed. Python's `//` by 2 is the same as Dafny's `/` by 2 for every
integer (both round down when the divisor is positive), so the centring
formula needs no adjustment.

The prefixes are the string literals of `main.py` exactly as Python reads
them. Before a file the prefix is U+F8FF U+00FC U+00EC U+00D1. Before
anything else it is U+F8FF U+00FC U+00EC U+00C5.

This version of the program is simple in several ways:

- the quit key is `:`, and there is no confirmation prompt;
- KEY_LEFT, KEY_RIGHT and every other `KEY_` key only clamp the selection;
- entries are painted at row `2 * i + 2` in one column;
- the listing is `os.listdir` unfiltered: no `..` entry, no hiding of
  dotfiles, no glob pattern.

## Model

| member | source | states |
|---|---|---|
| `Cursor.IsSpecialKey` | main.py:82 | a key is special exactly when it is at least four characters long and begins with `KEY_` |
| `Cursor.Clamp` | main.py:87 | the result is in [0, max(0, n-1)]; it is 0 for an empty listing, x itself when x is a valid index, 0 below the range and n-1 above it |
| `Cursor.Movement` | main.py:83-86 | KEY_UP moves by -1, KEY_DOWN by +1, and every other key by 0 |
| `Cursor.NextSelection` | main.py:82-87 | after a key starting with `KEY_` the selection is in [0, max(0, n-1)]; any other key leaves it exactly as it was, even out of range |
| `Cursor.ClampIdempotent` | main.py:87 | clamping twice gives the same result as clamping once |
| `Cursor.ClampFixedPoints` | main.py:87 | the clamp leaves x unchanged if and only if x is already in [0, max(0, n-1)] |
| `Cursor.ClampEmptyListing` | main.py:87 | with no entries, every clamped selection is 0 |
| `Cursor.SpecialKeyEffect` | main.py:83-87 | KEY_UP gives clamp(old-1), KEY_DOWN gives clamp(old+1), any other `KEY_` key gives clamp(old) |
| `Cursor.ArrowSteps` | main.py:83-87 | from a valid selection, KEY_DOWN moves one down unless on the last entry, and KEY_UP moves one up unless on the first |
| `Screen.Row` | main.py:108-113 | entry i's row `i * 2 + 2` is even and at least 2 |
| `Screen.RowLayout` | main.py:108-113 | entry rows are even and below the title row; different entries get different rows; rows increase with the index, two rows apart |
| `Screen.RowFits` | main.py:108-113 | entry i's row is inside a window of `rows` rows exactly when i < (rows-1)/2 |
| `Screen.MiddleColumn` | main.py:139 | the column `cols // 2 - len(text) // 2` centres the text: twice the column plus the text length is within one of the width |
| `Screen.Centred` | main.py:139-141 | a text no wider than the screen begins at a column in [0, cols - len] and its left and right margins differ by at most one |
| `Screen.Prefix` | main.py:101-105 | the prefix is four characters long; it is the file prefix exactly for a file, and the folder prefix for anything else |
| `Screen.Label` | main.py:100-113 | the label ends with the whole name; with prefixes on it starts with five more characters, the file or folder prefix and a space, and the file prefix appears exactly for files; with prefixes off it is the name alone |
| `Screen.EntryPaint` | main.py:108-113 | entry i is painted at column 1 on row `i * 2 + 2`, reversed exactly when i is the selection; its text is the entry's `Label`: the prefix, a space and the name with prefixes on, the name alone with prefixes off |
| `Screen.EntryPaints` | main.py:98-113 | one paint call per entry of the listing |
| `Screen.EntryPaintsLayout` | main.py:98-113 | entry i is painted at column 1 on row 2i+2, with its label, reversed exactly when i is the selection; rows strictly increase along the listing |
| `Screen.HighlightCountAt` | main.py:108-113 | if exactly position sel is reversed, one call is reversed when sel is a valid position and none otherwise |
| `Screen.ExactlyOneHighlighted` | main.py:108-113 | exactly one entry is in reverse video when 0 <= selection < n, and none otherwise |
| `Screen.TitlePaint` | main.py:121 | the title is painted on row 0 in reverse video at the centring column, and lies inside the screen when the screen is at least as wide as the title |
| `Explorer.RenderFrame` | main.py:56-59 | a pass paints the title on row 0 in reverse video and one call per entry of its listing |
| `Explorer.FrameLayout` | main.py:56-59 | a pass's title is at the centring column; entry i is labelled with that pass's file test; exactly one entry is reversed when the selection is inside the listing, and none otherwise |
| `Explorer.Consumed` | main.py:50-64 | the loop runs up to and including the first turn whose key is `:`; with no `:` it runs every turn |
| `Explorer.ConsumedUpToFirstQuit` | main.py:51-64 | a stop after t turns, on a `:` or because no turns remain, matches `Consumed` |
| `Explorer.SelectionAfter` | main.py:51-64 | the selection across the loop's turns; after a turn whose key is special it is in [0, max(0, n-1)] for that turn's listing |
| `Explorer.FramesOf` | main.py:51-62 | the session paints one frame per turn it runs |
| `Explorer.FramesOfAt` | main.py:51-62 | turn t's frame shows turn t's listing and title, with the selection the keys of turns 0..t-1 have produced |
| `Explorer.SessionStep` | main.py:51-64 | one more turn appends its frame, painted with the selection from before its key, and then applies its key to the selection |
| `Explorer.SelectionStaysInRange` | main.py:82-87 | over an unchanging listing, a selection in [0, max(0, n-1)] stays in that range after any keys |
| `Explorer.PlainKeysKeepSelection` | main.py:82 | keys that do not start with `KEY_` never change the selection |
| `Explorer.RepeatedDown` | main.py:85-87 | k presses of KEY_DOWN from a valid selection give min(sel + k, n - 1) |
| `Explorer.RepeatedUp` | main.py:83-87 | k presses of KEY_UP from a valid selection give max(sel - k, 0) |
| `Explorer.App.constructor` | main.py:11-26 | not running, empty key, the given path, selection 0, window 0 by 0 |
| `Explorer.App.Update` | main.py:67-71 | stores the window size, keeps the selection non-negative, and changes nothing else |
| `Explorer.App.HandleInput` | main.py:74-90 | stores and returns the key read and sets the selection to `NextSelection`; the running flag, path and window size are unchanged |
| `Explorer.App.DisplayMiddleScreen` | main.py:131-141 | paints the text on the given row at the centring column, in the given style |
| `Explorer.App.ApplyAesthetic` | main.py:116-121 | paints the title as `TitlePaint` describes |
| `Explorer.App.ListFiles` | main.py:93-113 | paints every entry, in listing order, as `EntryPaints` describes for the current selection and prefix setting; exactly one call is reversed when the selection is inside the listing, and none otherwise |
| `Explorer.App.Iterate` | main.py:52-64 | one pass: stores the window size and key; the frame shows the selection from before the key; the selection moves by `NextSelection`; running stays true exactly when the key is not `:`; the path is unchanged |
| `Explorer.App.Run` | main.py:33-64 | runs the turns that `Consumed` counts and paints `FramesOf` them; at the end it is still running exactly when no `:` was read; the selection is `SelectionAfter` those turns; key and window size come from the last turn run; the path is unchanged |

## Left out

- Terminal I/O is not modelled: `curses.wrapper`, `getmaxyx`, `getkey`, `addstr` and the style flags. The window size and key are inputs, and paint calls are returned as values.
- Painting outside the window is not modelled. Curses raises an error when a paint call lands outside the window, for example an entry row at or past `rows`, or a title wider than the screen. Nothing in `main.py` catches that error, so the program would stop. Curses also wraps text that runs past the last column onto the next row, and raises an error for a write that reaches the bottom-right cell: a title in a window of one row and 16 columns, or an entry on the last row whose label reaches the last column. The model only records the paint calls. `Screen.RowFits` and `Screen.Centred` say whether each call starts inside the window; they do not model wrapping or the bottom-right error.
- The screen is never cleared between passes, so text painted on an earlier pass stays visible. The model records each pass's paint calls separately.
- `os.listdir`, `os.path.isfile` and `os.path.join` are filesystem calls. The listing and the file test are inputs to each turn, so the file test may differ from one pass to the next.
- `main.py` lists the directory in `list_files` on every pass, and a second time in `handle_input` when the key is special. The model uses one listing for both, so it does not capture the directory changing between the two calls.
- Reading `config.ini` through `configparser` is configuration I/O. The `UseEmojis` setting is the `useEmojis` constructor parameter.
- Two uncaught errors in `list_files` and `handle_input` are not modelled. `self.config["DISPLAY"]` raises KeyError when `config.ini` has no DISPLAY section; the file is read from the working directory, so starting the program elsewhere triggers it on the first pass with a non-empty listing, after the title is painted. `os.listdir` raises OSError when the directory cannot be read or has been removed. Nothing in `main.py` catches either error, so the program would stop. The model's `ListFiles` and `HandleInput` always succeed.
- The starting path comes from `__file__`, which is process environment. It is a constructor parameter.
- Explorer.App.Run: the real loop waits forever for the next key. The model stops when its finite sequence of turns runs out, with `running` still true.
- setup.py is left out. It only prompts for a pip command and runs pip through the shell.
