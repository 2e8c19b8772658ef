/**
 * The explorer application: its per-session state (running flag, last key,
 * current path, selected entry, window size) and the loop that, turn after
 * turn, reads the window size, paints the title and the listing, reads a
 * key and stops on ':'.
 *
 * What the terminal and the filesystem supply on each turn (window size,
 * the names in the current directory, which of them are files, the key
 * pressed) is given as a Turn value; what would be painted is returned as a Frame.
 */
module Explorer {
  import opened Cursor
  import opened Screen

  const QuitKey := ":"

  /**
   * What one pass of the loop receives: the window size, the listing of the
   * current path, the file test at that path as it stands on this pass,
   * and the key.
   */
  datatype Turn = Turn(rows: int, cols: int, entries: seq<string>, isFile: string -> bool, key: string)

  /** What one pass of the loop paints: the title, then one call per entry. */
  datatype Frame = Frame(title: Paint, entries: seq<Paint>)

  /** The frame painted for `turn` while entry `sel` is selected. */
  function RenderFrame(turn: Turn, sel: int, useEmojis: bool): (f: Frame)
    ensures f.title.row == TitleRow && f.title.text == Title && f.title.reverse
    ensures |f.entries| == |turn.entries|
  {
    Frame(TitlePaint(turn.cols), EntryPaints(turn.entries, turn.isFile, useEmojis, sel))
  }

  /**
   * A frame's title is centred, each entry is labelled by that pass's file
   * test, and exactly the selected entry is highlighted.
   */
  lemma FrameLayout(turn: Turn, sel: int, useEmojis: bool)
    ensures RenderFrame(turn, sel, useEmojis).title.col == MiddleColumn(turn.cols, Title)
    ensures forall i :: 0 <= i < |turn.entries| ==>
      RenderFrame(turn, sel, useEmojis).entries[i].text == Label(turn.entries[i], turn.isFile(turn.entries[i]), useEmojis)
    ensures HighlightCount(RenderFrame(turn, sel, useEmojis).entries) == if 0 <= sel < |turn.entries| then 1 else 0
  {
    EntryPaintsLayout(turn.entries, turn.isFile, useEmojis, sel);
    ExactlyOneHighlighted(turn.entries, turn.isFile, useEmojis, sel);
  }

  predicate QuitRequested(turns: seq<Turn>) {
    exists t :: 0 <= t < |turns| && turns[t].key == QuitKey
  }

  /**
   * How many turns the loop runs: up to and including the first ':'
   * key, or all of them when no ':' comes.
   */
  function Consumed(turns: seq<Turn>): (n: nat)
    ensures n <= |turns|
    ensures forall t :: 0 <= t < n - 1 ==> turns[t].key != QuitKey
    ensures QuitRequested(turns) <==> n > 0 && turns[n - 1].key == QuitKey
    ensures !QuitRequested(turns) ==> n == |turns|
  {
    if |turns| == 0 then 0
    else if turns[0].key == QuitKey then 1
    else
      var rest := turns[1..];
      assert forall t :: 0 <= t < |rest| ==> rest[t] == turns[t + 1];
      assert QuitRequested(turns) ==> QuitRequested(rest);
      1 + Consumed(rest)
  }

  /** The loop stops after t turns exactly when t is the count Consumed gives. */
  lemma ConsumedUpToFirstQuit(turns: seq<Turn>, t: nat)
    requires t <= |turns|
    requires forall k :: 0 <= k < t - 1 ==> turns[k].key != QuitKey
    requires (t > 0 && turns[t - 1].key == QuitKey) || (t == |turns| && !QuitRequested(turns))
    ensures Consumed(turns) == t
  {
    var n := Consumed(turns);
    if t > 0 && turns[t - 1].key == QuitKey {
      assert QuitRequested(turns);
      assert n > 0 && turns[n - 1].key == QuitKey;
    }
  }

  /** The selection after the keys of `turns`, each taken with the size of its own listing. */
  function SelectionAfter(sel: int, turns: seq<Turn>): (r: int)
    ensures turns != [] && IsSpecialKey(turns[|turns| - 1].key) ==> InRange(r, |turns[|turns| - 1].entries|)
  {
    if |turns| == 0 then sel
    else
      var last := turns[|turns| - 1];
      NextSelection(SelectionAfter(sel, turns[..|turns| - 1]), last.key, |last.entries|)
  }

  /** The frames painted over `turns` when the session starts with entry `sel` selected. */
  function FramesOf(sel: int, turns: seq<Turn>, useEmojis: bool): (r: seq<Frame>)
    ensures |r| == |turns|
  {
    if |turns| == 0 then []
    else
      var front := turns[..|turns| - 1];
      FramesOf(sel, front, useEmojis) + [RenderFrame(turns[|turns| - 1], SelectionAfter(sel, front), useEmojis)]
  }

  /** Turn t shows its own listing and title, with the selection left by the keys of the turns before it. */
  lemma {:induction false} FramesOfAt(sel: int, turns: seq<Turn>, useEmojis: bool, t: nat)
    requires t < |turns|
    ensures FramesOf(sel, turns, useEmojis)[t] == RenderFrame(turns[t], SelectionAfter(sel, turns[..t]), useEmojis)
  {
    var front := turns[..|turns| - 1];
    if t < |turns| - 1 {
      FramesOfAt(sel, front, useEmojis, t);
      assert front[..t] == turns[..t];
    }
  }

  /** Running one more turn appends its frame and applies its key to the selection. */
  lemma SessionStep(sel: int, turns: seq<Turn>, t: nat, useEmojis: bool)
    requires t < |turns|
    ensures SelectionAfter(sel, turns[..t + 1]) == NextSelection(SelectionAfter(sel, turns[..t]), turns[t].key, |turns[t].entries|)
    ensures FramesOf(sel, turns[..t + 1], useEmojis)
      == FramesOf(sel, turns[..t], useEmojis) + [RenderFrame(turns[t], SelectionAfter(sel, turns[..t]), useEmojis)]
  {
    assert turns[..t + 1][..t] == turns[..t];
  }

  /** Over an unchanging listing, an admissible selection stays admissible whatever keys are pressed. */
  lemma {:induction false} SelectionStaysInRange(sel: int, turns: seq<Turn>, n: nat)
    requires InRange(sel, n)
    requires forall t :: 0 <= t < |turns| ==> |turns[t].entries| == n
    ensures InRange(SelectionAfter(sel, turns), n)
  {
    if |turns| > 0 {
      SelectionStaysInRange(sel, turns[..|turns| - 1], n);
    }
  }

  /** Keys that are not special never move the selection, even one outside the listing. */
  lemma {:induction false} PlainKeysKeepSelection(sel: int, turns: seq<Turn>)
    requires forall t :: 0 <= t < |turns| ==> !IsSpecialKey(turns[t].key)
    ensures SelectionAfter(sel, turns) == sel
  {
    if |turns| > 0 {
      PlainKeysKeepSelection(sel, turns[..|turns| - 1]);
    }
  }

  /** k presses of KEY_DOWN over a listing of n entries move the selection k rows down, stopping at the last. */
  lemma {:induction false} RepeatedDown(sel: int, turns: seq<Turn>, n: nat)
    requires 0 <= sel < n
    requires forall t :: 0 <= t < |turns| ==> |turns[t].entries| == n && turns[t].key == KeyDown
    ensures SelectionAfter(sel, turns) == Min(sel + |turns|, n - 1)
  {
    if |turns| > 0 {
      RepeatedDown(sel, turns[..|turns| - 1], n);
      assert IsSpecialKey(KeyDown);
    }
  }

  /** k presses of KEY_UP move the selection k rows up, stopping at the first. */
  lemma {:induction false} RepeatedUp(sel: int, turns: seq<Turn>, n: nat)
    requires 0 <= sel < n
    requires forall t :: 0 <= t < |turns| ==> |turns[t].entries| == n && turns[t].key == KeyUp
    ensures SelectionAfter(sel, turns) == Max(sel - |turns|, 0)
  {
    if |turns| > 0 {
      RepeatedUp(sel, turns[..|turns| - 1], n);
      assert IsSpecialKey(KeyUp);
    }
  }

  class App {
    /** Whether the loop goes on. */
    var running: bool
    /** The key read last. */
    var key: string
    /** The directory being listed. */
    var path: string
    /** The position, in the listing, of the selected entry. */
    var selectedItem: int
    /** The window size read on the last turn. */
    var rows: int
    var cols: int
    /** The DISPLAY.UseEmojis setting. */
    const useEmojis: bool

    /** The selection is never negative. */
    predicate Valid()
      reads this
    {
      selectedItem >= 0
    }

    constructor (path: string, useEmojis: bool)
      ensures Valid()
      ensures !running && key == "" && this.path == path && selectedItem == 0
      ensures rows == 0 && cols == 0 && this.useEmojis == useEmojis
    {
      running := false;
      key := "";
      this.path := path;
      selectedItem := 0;
      rows, cols := 0, 0;
      this.useEmojis := useEmojis;
    }

    /** Records the window size. */
    method Update(rows: int, cols: int)
      requires Valid()
      modifies this
      ensures Valid()
      ensures this.rows == rows && this.cols == cols
      ensures running == old(running) && key == old(key) && path == old(path)
      ensures selectedItem == old(selectedItem)
    {
      this.rows, this.cols := rows, cols;
    }

    /**
     * Stores the key just read and moves the selection over `entries`,
     * the listing of the current path; returns the key.
     */
    method HandleInput(pressed: string, entries: seq<string>) returns (r: string)
      requires Valid()
      modifies this
      ensures Valid()
      ensures r == pressed && key == pressed
      ensures selectedItem == NextSelection(old(selectedItem), pressed, |entries|)
      ensures running == old(running) && path == old(path)
      ensures rows == old(rows) && cols == old(cols)
    {
      key := pressed;
      if IsSpecialKey(key) {
        if key == KeyUp {
          selectedItem := selectedItem - 1;
        } else if key == KeyDown {
          selectedItem := selectedItem + 1;
        }
        selectedItem := Max(0, Min(selectedItem, |entries| - 1));
      }
      r := key;
    }

    /** Paints `text` centred on `row` of the current window. */
    method DisplayMiddleScreen(text: string, row: int, reverse: bool) returns (p: Paint)
      ensures p == Paint(row, MiddleColumn(cols, text), text, reverse)
    {
      var middle := MiddleColumn(cols, text);
      p := Paint(row, middle, text, reverse);
    }

    /** Paints the title. */
    method ApplyAesthetic() returns (p: Paint)
      ensures p == TitlePaint(cols)
    {
      p := DisplayMiddleScreen(Title, TitleRow, true);
    }

    /** Paints every entry of `entries`, the listing of the current path. */
    method ListFiles(entries: seq<string>, isFile: string -> bool) returns (paints: seq<Paint>)
      requires Valid()
      ensures paints == EntryPaints(entries, isFile, useEmojis, selectedItem)
      ensures HighlightCount(paints) == if selectedItem < |entries| then 1 else 0
    {
      paints := [];
      for i := 0 to |entries|
        invariant |paints| == i
        invariant forall k :: 0 <= k < i ==>
          paints[k] == EntryPaint(k, entries[k], isFile(entries[k]), useEmojis, selectedItem)
      {
        var text;
        if useEmojis {
          var prefix := Prefix(isFile(entries[i]));
          text := prefix + " " + entries[i];
        } else {
          text := entries[i];
        }
        paints := paints + [Paint(Row(i), EntryColumn, text, i == selectedItem)];
      }
      ExactlyOneHighlighted(entries, isFile, useEmojis, selectedItem);
    }

    /**
     * One pass of the loop: window size, title, listing, key, and the
     * quit check. The frame shows the selection from before the key.
     */
    method Iterate(turn: Turn) returns (frame: Frame)
      requires Valid()
      modifies this
      ensures Valid()
      ensures frame == RenderFrame(turn, old(selectedItem), useEmojis)
      ensures rows == turn.rows && cols == turn.cols && key == turn.key
      ensures selectedItem == NextSelection(old(selectedItem), turn.key, |turn.entries|)
      ensures running <==> old(running) && turn.key != QuitKey
      ensures path == old(path)
    {
      Update(turn.rows, turn.cols);
      var title := ApplyAesthetic();
      var paints := ListFiles(turn.entries, turn.isFile);
      var _ := HandleInput(turn.key, turn.entries);
      if key == QuitKey {
        running := false;
      }
      frame := Frame(title, paints);
    }

    /**
     * The session: runs turns until ':' is read. When the turns run out
     * first the loop is still running (it would wait for the next key).
     */
    method Run(turns: seq<Turn>) returns (frames: seq<Frame>)
      requires Valid()
      modifies this
      ensures Valid()
      ensures frames == FramesOf(old(selectedItem), turns[..Consumed(turns)], useEmojis)
      ensures running <==> !QuitRequested(turns)
      ensures selectedItem == SelectionAfter(old(selectedItem), turns[..Consumed(turns)])
      ensures Consumed(turns) > 0 ==> key == turns[Consumed(turns) - 1].key
      ensures Consumed(turns) > 0 ==> rows == turns[Consumed(turns) - 1].rows && cols == turns[Consumed(turns) - 1].cols
      ensures Consumed(turns) == 0 ==> key == old(key) && rows == old(rows) && cols == old(cols)
      ensures path == old(path)
    {
      running := true;
      frames := [];
      var t := 0;
      while running && t < |turns|
        invariant 0 <= t <= |turns|
        invariant Valid()
        invariant path == old(path)
        invariant running ==> forall k :: 0 <= k < t ==> turns[k].key != QuitKey
        invariant !running ==> t > 0 && turns[t - 1].key == QuitKey
        invariant forall k :: 0 <= k < t - 1 ==> turns[k].key != QuitKey
        invariant frames == FramesOf(old(selectedItem), turns[..t], useEmojis)
        invariant selectedItem == SelectionAfter(old(selectedItem), turns[..t])
        invariant t > 0 ==> key == turns[t - 1].key && rows == turns[t - 1].rows && cols == turns[t - 1].cols
        invariant t == 0 ==> key == old(key) && rows == old(rows) && cols == old(cols)
        decreases |turns| - t
      {
        SessionStep(old(selectedItem), turns, t, useEmojis);
        var frame := Iterate(turns[t]);
        frames := frames + [frame];
        t := t + 1;
      }
      if running {
        assert !QuitRequested(turns);
      }
      ConsumedUpToFirstQuit(turns, t);
    }
  }
}
