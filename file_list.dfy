/**
 * The list of uploaded files (frontend/src/app/components/FileList.tsx):
 * which row is expanded, and how a byte count is shown.
 */
module FileList {
  import opened Records
  import opened Text

  /** The list's own state: at most one expanded row, since the state is a single id. */
  class FileListView {
    var expandedId: Option<string>

    constructor ()
      ensures expandedId == None
    {
      expandedId := None;
    }

    /** Whether the row of `fileId` shows its details. */
    predicate IsExpanded(fileId: string)
      reads this
    {
      expandedId == Some(fileId)
    }

    /**
     * A click on a row: the expanded row collapses, any other row becomes
     * the only expanded one.
     */
    method ToggleExpand(fileId: string)
      modifies this
      ensures IsExpanded(fileId) <==> !old(IsExpanded(fileId))
      ensures forall other :: other != fileId ==> !IsExpanded(other)
      ensures expandedId == None || expandedId == Some(fileId)
    {
      expandedId := if expandedId == Some(fileId) then None else Some(fileId);
    }
  }

  /**
   * Two clicks on the same row restore the state when that row or no row
   * was expanded; when another row was, both end up collapsed.
   */
  method ToggleTwice(view: FileListView, fileId: string)
    modifies view
    ensures old(view.expandedId) == None ==> view.expandedId == None
    ensures old(view.expandedId) == Some(fileId) ==> view.expandedId == Some(fileId)
    ensures old(view.expandedId).Some? && old(view.expandedId) != Some(fileId) ==> view.expandedId == None
  {
    view.ToggleExpand(fileId);
    view.ToggleExpand(fileId);
  }

  const KiB := 1024
  const MiB := 1024 * 1024

  /**
   * `n` tenths is `bytes / unit` rounded to the nearest tenth, a tie going
   * to the larger `n` (the choice `Number.prototype.toFixed(1)` makes).
   */
  predicate NearestTenth(bytes: int, unit: nat, n: int) {
    2 * unit * n <= 20 * bytes + unit < 2 * unit * n + 2 * unit
  }

  /** `n / 10` with exactly one decimal: `toFixed(1)` of a non-negative value of `n` tenths. */
  function Fixed1(n: nat): string {
    Decimal(n / 10) + "." + [DigitChar(n % 10)]
  }

  /**
   * Reads `digits.d` back as a count of tenths; the integer part must have
   * no superfluous leading zero, as in every text `toFixed(1)` writes.
   */
  function ReadFixed1(s: string): Option<nat> {
    if |s| >= 3 && s[|s| - 2] == '.' && CanonicalDigits(s[..|s| - 2]) && IsDigit(s[|s| - 1]) then
      Some(10 * ParseDigits(s[..|s| - 2]) + DigitValue(s[|s| - 1]))
    else None
  }

  lemma Fixed1RoundTrip(n: nat)
    ensures ReadFixed1(Fixed1(n)) == Some(n)
  {
    var s := Fixed1(n);
    assert s[..|s| - 2] == Decimal(n / 10);
    DecimalRoundTrip(n / 10);
    DecimalCanonical(n / 10);
  }

  /** A text that reads back is the one `Fixed1` writes for its value, so the reading pins the text. */
  lemma Fixed1Unique(s: string)
    requires ReadFixed1(s).Some?
    ensures Fixed1(ReadFixed1(s).value) == s
  {
    var intPart, last := s[..|s| - 2], s[|s| - 1];
    var n := ReadFixed1(s).value;
    DecimalUnique(intPart);
    assert n / 10 == ParseDigits(intPart) && n % 10 == DigitValue(last);
    assert s == intPart + "." + [last];
  }

  /** The nearest number of tenths of `bytes / unit` for the two units in use. */
  function Tenths(bytes: nat, unit: nat): (n: nat)
    requires unit == KiB || unit == MiB
    ensures NearestTenth(bytes, unit, n)
  {
    (20 * bytes + unit) / (2 * unit)
  }

  /**
   * `formatSize`: below 1024 the integer itself with " B"; below 1024 * 1024
   * the size in KiB to one decimal with " KB"; otherwise in MiB with " MB".
   * Above 10^21 MiB `toFixed` switches to exponent notation, and below
   * -2^53 `bytes + " B"` no longer writes the exact digits; neither range is
   * covered by this model.
   */
  function FormatSize(bytes: int): (r: string)
    requires -9_007_199_254_740_992 <= bytes < 1_000_000_000_000_000_000_000 * MiB
    ensures bytes < KiB ==>
      |r| > 2 && r[|r| - 2..] == " B" && CanonicalInteger(r[..|r| - 2]) && IntegerValue(r[..|r| - 2]) == bytes
    ensures KiB <= bytes < MiB ==>
      |r| > 3 && r[|r| - 3..] == " KB" && ReadFixed1(r[..|r| - 3]).Some? &&
      NearestTenth(bytes, KiB, ReadFixed1(r[..|r| - 3]).value)
    ensures MiB <= bytes ==>
      |r| > 3 && r[|r| - 3..] == " MB" && ReadFixed1(r[..|r| - 3]).Some? &&
      NearestTenth(bytes, MiB, ReadFixed1(r[..|r| - 3]).value)
  {
    if bytes < KiB then
      var text := IntString(bytes);
      IntStringRoundTrip(bytes);
      assert (text + " B")[..|text|] == text;
      text + " B"
    else if bytes < MiB then
      var text := Fixed1(Tenths(bytes, KiB));
      Fixed1RoundTrip(Tenths(bytes, KiB));
      assert (text + " KB")[..|text|] == text;
      text + " KB"
    else
      var text := Fixed1(Tenths(bytes, MiB));
      Fixed1RoundTrip(Tenths(bytes, MiB));
      assert (text + " MB")[..|text|] == text;
      text + " MB"
  }
}
