/**
 * Where the explorer paints things on the terminal: the centred title on
 * the top row and one line per directory entry, every other row, with the
 * selected entry in reverse video.
 *
 * A paint call is recorded as a value instead of being sent to the terminal.
 */
module Screen {

  /** One call that writes `text` at (row, col), in reverse video or normal style. */
  datatype Paint = Paint(row: int, col: int, text: string, reverse: bool)

  const Title := "THE_FILE_GLOBBER"
  const TitleRow := 0
  const EntryColumn := 1
  /** The four characters the program shows before a file name. */
  const FilePrefix := "\U{F8FF}\U{FC}\U{EC}\U{D1}"
  /** The four characters the program shows before any other name. */
  const FolderPrefix := "\U{F8FF}\U{FC}\U{EC}\U{C5}"

  /** The screen row of the entry at position i of the listing. */
  function Row(i: nat): (r: int)
    ensures r >= 2 && r % 2 == 0
  {
    i * 2 + 2
  }

  /** Entry rows are even, lie below the title, and grow with the index two rows at a time. */
  lemma RowLayout(i: nat, j: nat)
    ensures Row(i) % 2 == 0 && Row(i) > TitleRow + 1
    ensures i < j <==> Row(i) < Row(j)
    ensures Row(i) == Row(j) <==> i == j
    ensures Row(i + 1) == Row(i) + 2
  {
  }

  /** Entry i lies inside a window of `rows` rows exactly when i < (rows - 1) / 2. */
  lemma RowFits(i: nat, rows: int)
    ensures Row(i) < rows <==> i < (rows - 1) / 2
  {
    var h := (rows - 1) / 2;
    assert 2 * h <= rows - 1 < 2 * h + 2;
  }

  /** The first column of `text` centred on a screen `cols` wide. */
  function MiddleColumn(cols: int, text: string): (c: int)
    ensures -1 <= 2 * c + |text| - cols <= 1
  {
    cols / 2 - |text| / 2
  }

  /**
   * A text no wider than the screen is painted inside it, and the margins
   * to its left and right differ by at most one column.
   */
  lemma Centred(cols: int, text: string)
    requires |text| <= cols
    ensures 0 <= MiddleColumn(cols, text)
    ensures MiddleColumn(cols, text) + |text| <= cols
    ensures -1 <= MiddleColumn(cols, text) - (cols - MiddleColumn(cols, text) - |text|) <= 1
  {
    var c, l := cols / 2, |text| / 2;
    assert 2 * c <= cols <= 2 * c + 1;
    assert 2 * l <= |text| <= 2 * l + 1;
  }

  /** The prefix that tells a file from a folder. */
  function Prefix(isFile: bool): (r: string)
    ensures |r| == 4 && (r == FilePrefix <==> isFile)
    ensures !isFile ==> r == FolderPrefix
  {
    assert FilePrefix != FolderPrefix by { assert FilePrefix[3] != FolderPrefix[3]; }
    if isFile then FilePrefix else FolderPrefix
  }

  /**
   * The text shown for an entry: its name, preceded by a prefix and a
   * space when the prefixes are switched on.
   */
  function Label(name: string, isFile: bool, useEmojis: bool): (r: string)
    ensures |r| - |name| == (if useEmojis then 5 else 0)
    ensures r[|r| - |name|..] == name
    ensures useEmojis ==> r[..5] == (if isFile then FilePrefix else FolderPrefix) + " "
    ensures useEmojis ==> (r[..4] == FilePrefix <==> isFile)
  {
    assert FilePrefix[3] != FolderPrefix[3];
    if useEmojis then Prefix(isFile) + " " + name else name
  }

  /** The paint call for entry `name` at position i when entry `sel` is selected. */
  function EntryPaint(i: nat, name: string, isFile: bool, useEmojis: bool, sel: int): (p: Paint)
    ensures p.row == Row(i) && p.col == EntryColumn && (p.reverse <==> i == sel)
    ensures |name| <= |p.text| && p.text[|p.text| - |name|..] == name
    ensures !useEmojis ==> p.text == name
    ensures p.text == Label(name, isFile, useEmojis)
  {
    Paint(Row(i), EntryColumn, Label(name, isFile, useEmojis), i == sel)
  }

  /** The paint calls for a whole listing, in listing order. */
  function EntryPaints(entries: seq<string>, isFile: string -> bool, useEmojis: bool, sel: int): (r: seq<Paint>)
    ensures |r| == |entries|
  {
    seq(|entries|, i requires 0 <= i < |entries| => EntryPaint(i, entries[i], isFile(entries[i]), useEmojis, sel))
  }

  /**
   * Every entry is shown in full at column 1, one per row, rows strictly
   * increasing with the listing order, and only the selected one reversed.
   */
  lemma EntryPaintsLayout(entries: seq<string>, isFile: string -> bool, useEmojis: bool, sel: int)
    ensures forall i :: 0 <= i < |entries| ==>
      && EntryPaints(entries, isFile, useEmojis, sel)[i].col == EntryColumn
      && EntryPaints(entries, isFile, useEmojis, sel)[i].row == Row(i)
      && (EntryPaints(entries, isFile, useEmojis, sel)[i].reverse <==> i == sel)
      && EntryPaints(entries, isFile, useEmojis, sel)[i].text == Label(entries[i], isFile(entries[i]), useEmojis)
    ensures forall i, j :: 0 <= i < j < |entries| ==>
      EntryPaints(entries, isFile, useEmojis, sel)[i].row < EntryPaints(entries, isFile, useEmojis, sel)[j].row
  {
  }

  /** How many of the paint calls are in reverse video. */
  function HighlightCount(paints: seq<Paint>): nat {
    if paints == [] then 0
    else HighlightCount(paints[..|paints| - 1]) + (if paints[|paints| - 1].reverse then 1 else 0)
  }

  /** When exactly position `sel` is reversed, one call is reversed if sel is a position, none otherwise. */
  lemma {:induction false} HighlightCountAt(paints: seq<Paint>, sel: int)
    requires forall i :: 0 <= i < |paints| ==> (paints[i].reverse <==> i == sel)
    ensures HighlightCount(paints) == if 0 <= sel < |paints| then 1 else 0
  {
    if paints != [] {
      var front := paints[..|paints| - 1];
      assert forall i :: 0 <= i < |front| ==> front[i] == paints[i];
      HighlightCountAt(front, sel);
    }
  }

  /** Exactly one entry is highlighted when the selection is inside the listing, and none otherwise. */
  lemma ExactlyOneHighlighted(entries: seq<string>, isFile: string -> bool, useEmojis: bool, sel: int)
    ensures HighlightCount(EntryPaints(entries, isFile, useEmojis, sel)) == if 0 <= sel < |entries| then 1 else 0
  {
    HighlightCountAt(EntryPaints(entries, isFile, useEmojis, sel), sel);
  }

  /** The title: centred on row 0, in reverse video. */
  function TitlePaint(cols: int): (p: Paint)
    ensures p.row == TitleRow && p.text == Title && p.reverse
    ensures p.col == MiddleColumn(cols, Title)
    ensures |Title| <= cols ==> 0 <= p.col && p.col + |Title| <= cols
  {
    var p := Paint(TitleRow, MiddleColumn(cols, Title), Title, true);
    if |Title| <= cols then Centred(cols, Title); p else p
  }
}
