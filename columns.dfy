/** `column_str`: lays a list of strings out in fixed-width columns, starting a
    new line whenever the running width reaches the requested line length. */
module ColumnLayout {
  import opened Common
  import opened Arithmetic

  /** Python's `str.ljust(width)`: pads `e` on the right with spaces up to
      `width`; a string already that long is returned unchanged. */
  function LeftJustify(e: string, width: int): (r: string)
    ensures |r| == if |e| >= width then |e| else width
    ensures r[..|e|] == e
    ensures forall j :: |e| <= j < |r| ==> r[j] == ' '
  {
    if |e| >= width then e else e + seq(width - |e|, _ => ' ')
  }

  /** `len(max(iterable, key=len))`: the length of a longest element. */
  function MaxLength(es: seq<string>): (m: nat)
    requires |es| > 0
    ensures forall i :: 0 <= i < |es| ==> |es[i]| <= m
    ensures exists i :: 0 <= i < |es| && |es[i]| == m
  {
    if |es| == 1 then |es[0]|
    else
      var rest := MaxLength(es[1..]);
      if |es[0]| >= rest then |es[0]| else rest
  }

  /** The number of cells of `width` (> 0) that fill a line: the least positive
      count whose total width reaches `lineLength`. */
  function Period(width: nat, lineLength: int): (p: nat)
    requires width > 0
    ensures p >= 1
    ensures p * width >= lineLength
    ensures p == 1 || (p - 1) * width < lineLength
  {
    if lineLength <= 0 then 1
    else
      var p := (lineLength + width - 1) / width;
      assert lineLength + width - 1 == p * width + (lineLength + width - 1) % width;
      p
  }

  /** Whether a newline follows the `count`-th cell (counting from 1). With
      zero-width cells the running width never grows, so either every cell
      ends a line (a line length of at most zero) or none does. */
  predicate BreakAfter(count: nat, width: nat, lineLength: int)
  {
    if width == 0 then lineLength <= 0 else count % Period(width, lineLength) == 0
  }

  /** The layout of `es` in cells of `width`: every element padded to the cell
      width, in order, with a newline after every line-filling cell. */
  function Layout(es: seq<string>, width: nat, lineLength: int): (r: string)
    ensures es != [] && BreakAfter(|es|, width, lineLength) ==> |r| > 0 && r[|r| - 1] == '\n'
  {
    if es == [] then ""
    else
      var n := |es|;
      Layout(es[..n - 1], width, lineLength) + LeftJustify(es[n - 1], width)
        + (if BreakAfter(n, width, lineLength) then "\n" else "")
  }

  /** The running width after `count` cells of positive width is the width
      of the cells since the last newline. One more cell ends the line exactly
      when the running width reaches `lineLength`; otherwise the running width
      grows by one cell. */
  lemma RunningWidthStep(count: nat, width: nat, lineLength: int)
    requires width > 0
    ensures var p := Period(width, lineLength);
      var running := (count % p) * width;
      (running + width >= lineLength <==> BreakAfter(count + 1, width, lineLength)) &&
      (running + width < lineLength ==> running + width == ((count + 1) % p) * width)
  {
    var p := Period(width, lineLength);
    var q, j := count / p, count % p;
    assert count == q * p + j;
    MulStep(j + 1, width);
    if j + 1 == p {
      RemainderUnique(count + 1, p, q + 1, 0);
    } else {
      RemainderUnique(count + 1, p, q, j + 1);
      MulMonotonic(j + 1, p - 1, width);
    }
  }

  /** The running width after `count` cells: the width of the cells laid out
      since the last newline (always zero for zero-width cells). */
  function Running(count: nat, width: nat, lineLength: int): (w: nat)
    ensures width > 0 ==> w < Period(width, lineLength) * width
  {
    if width == 0 then 0
    else
      var p := Period(width, lineLength);
      MulMonotonic(count % p, p - 1, width);
      MulStep(p, width);
      (count % p) * width
  }

  /** One loop step of `column_str`: adding a cell to the running width ends
      the line exactly when the cell fills it, and the running width that
      follows (restarted at zero after a newline) is the one for one more cell. */
  lemma ColumnStep(count: nat, width: nat, lineLength: int)
    ensures var next := Running(count, width, lineLength) + width;
      (next >= lineLength <==> BreakAfter(count + 1, width, lineLength)) &&
      (if next >= lineLength then 0 else next) == Running(count + 1, width, lineLength)
  {
    if width > 0 {
      RunningWidthStep(count, width, lineLength);
    }
  }

  /** Laying out one more element appends its cell and, if it fills the line,
      a newline. */
  lemma LayoutStep(es: seq<string>, i: nat, width: nat, lineLength: int)
    requires i < |es|
    ensures Layout(es[..i + 1], width, lineLength)
         == Layout(es[..i], width, lineLength) + LeftJustify(es[i], width)
            + (if BreakAfter(i + 1, width, lineLength) then "\n" else "")
  {
    assert es[..i + 1][..i] == es[..i];
  }

  /** `column_str`. Raises on negative spacing and returns "" for an empty
      list; otherwise every element is left-justified to the longest length
      plus the spacing, and a newline is emitted whenever the running width
      reaches `lineLength`, which then restarts from zero. */
  method ColumnStr(elements: seq<string>, lineLength: int, spacesBetweenColumns: int)
    returns (r: Result<string>)
    ensures spacesBetweenColumns < 0 ==> r == Failure(NegativeSpacing)
    ensures spacesBetweenColumns >= 0 && elements == [] ==> r == Success("")
    ensures spacesBetweenColumns >= 0 && elements != [] ==>
              r == Success(Layout(elements, MaxLength(elements) + spacesBetweenColumns, lineLength))
  {
    if spacesBetweenColumns < 0 {
      return Failure(NegativeSpacing);
    }
    if |elements| < 1 {
      return Success("");
    }
    var width := MaxLength(elements) + spacesBetweenColumns;
    var currentLineLength := 0;
    var formatted := "";
    for i := 0 to |elements|
      invariant formatted == Layout(elements[..i], width, lineLength)
      invariant currentLineLength == Running(i, width, lineLength)
    {
      LayoutStep(elements, i, width, lineLength);
      ColumnStep(i, width, lineLength);
      formatted := formatted + LeftJustify(elements[i], width);
      currentLineLength := currentLineLength + width;
      if currentLineLength >= lineLength {
        formatted := formatted + "\n";
        currentLineLength := 0;
      }
    }
    assert elements[..|elements|] == elements;
    return Success(formatted);
  }

  /** `column_str` called with its default arguments, a line length of 70
      and 5 spaces between columns, which never raises. */
  method ColumnStrDefaults(elements: seq<string>) returns (r: string)
    ensures elements == [] ==> r == ""
    ensures elements != [] ==> r == Layout(elements, MaxLength(elements) + 5, 70)
  {
    var result := ColumnStr(elements, 70, 5);
    r := result.value;
  }

  /** How many newlines the first `count` cells are followed by. */
  function Breaks(count: nat, width: nat, lineLength: int): nat
  {
    if width == 0 then (if lineLength <= 0 then count else 0)
    else count / Period(width, lineLength)
  }

  lemma BreaksStep(count: nat, width: nat, lineLength: int)
    requires count >= 1
    ensures Breaks(count, width, lineLength)
         == Breaks(count - 1, width, lineLength) + (if BreakAfter(count, width, lineLength) then 1 else 0)
  {
    if width > 0 {
      var p := Period(width, lineLength);
      var q, j := (count - 1) / p, (count - 1) % p;
      assert count - 1 == q * p + j;
      if j + 1 == p {
        RemainderUnique(count, p, q + 1, 0);
      } else {
        RemainderUnique(count, p, q, j + 1);
      }
    }
  }

  /** When no element is wider than the cells, the layout holds one cell per
      element and one character per newline. */
  lemma {:induction false} LayoutLength(es: seq<string>, width: nat, lineLength: int)
    requires forall i :: 0 <= i < |es| ==> |es[i]| <= width
    ensures |Layout(es, width, lineLength)| == |es| * width + Breaks(|es|, width, lineLength)
  {
    if es != [] {
      var n := |es|;
      var init := es[..n - 1];
      assert forall i :: 0 <= i < |init| ==> |init[i]| <= width by {
        assert forall i :: 0 <= i < |init| ==> init[i] == es[i];
      }
      LayoutLength(init, width, lineLength);
      BreaksStep(n, width, lineLength);
      var nl: string := if BreakAfter(n, width, lineLength) then "\n" else "";
      assert Layout(es, width, lineLength) == Layout(init, width, lineLength) + LeftJustify(es[n - 1], width) + nl;
      assert |LeftJustify(es[n - 1], width)| == width;
      MulStep(n, width);
    }
  }

  /** The layout of a prefix of the elements is a prefix of the layout. */
  lemma {:induction false} LayoutPrefix(es: seq<string>, m: nat, width: nat, lineLength: int)
    requires m <= |es|
    ensures var pre := Layout(es[..m], width, lineLength);
      |pre| <= |Layout(es, width, lineLength)| && Layout(es, width, lineLength)[..|pre|] == pre
    decreases |es| - m
  {
    if m < |es| {
      var n := |es|;
      assert es[..n - 1][..m] == es[..m];
      LayoutPrefix(es[..n - 1], m, width, lineLength);
    } else {
      assert es[..m] == es;
    }
  }

  /** A layout of the first `k` elements is `k` cells and their newlines long. */
  lemma PrefixLength(es: seq<string>, width: nat, lineLength: int, k: nat)
    requires forall i :: 0 <= i < |es| ==> |es[i]| <= width
    requires k <= |es|
    ensures |Layout(es[..k], width, lineLength)| == k * width + Breaks(k, width, lineLength)
  {
    assert forall i :: 0 <= i < k ==> es[..k][i] == es[i];
    LayoutLength(es[..k], width, lineLength);
  }

  /** Whatever follows a prefix `init` inside a longer prefix of `out`. */
  lemma SliceAfterPrefix(out: string, init: string, cell: string)
    requires |init + cell| <= |out| && out[..|init + cell|] == init + cell
    ensures out[|init|..|init| + |cell|] == cell
  {
    var whole := init + cell;
    assert out[|init|..|init| + |cell|] == out[..|whole|][|init|..];
    assert whole[|init|..] == cell;
  }

  /** Element `k` appears, padded to exactly the cell width, right after the
      first `k` cells and their newlines, and is followed by a newline exactly
      when it fills a line. */
  lemma CellAt(es: seq<string>, width: nat, lineLength: int, k: nat)
    requires forall i :: 0 <= i < |es| ==> |es[i]| <= width
    requires k < |es|
    ensures var out := Layout(es, width, lineLength);
      var start := k * width + Breaks(k, width, lineLength);
      var cell := LeftJustify(es[k], width) + (if BreakAfter(k + 1, width, lineLength) then "\n" else "");
      |cell| == width + (if BreakAfter(k + 1, width, lineLength) then 1 else 0) &&
      start + |cell| <= |out| && out[start..start + |cell|] == cell
  {
    var nl: string := if BreakAfter(k + 1, width, lineLength) then "\n" else "";
    var cell := LeftJustify(es[k], width) + nl;
    var out := Layout(es, width, lineLength);
    var init := Layout(es[..k], width, lineLength);
    var pre := Layout(es[..k + 1], width, lineLength);
    assert |init| == k * width + Breaks(k, width, lineLength) by {
      PrefixLength(es, width, lineLength, k);
    }
    assert pre == init + cell by {
      LayoutStep(es, k, width, lineLength);
    }
    assert |pre| <= |out| && out[..|pre|] == pre by {
      LayoutPrefix(es, k + 1, width, lineLength);
    }
    SliceAfterPrefix(out, init, cell);
  }

  /** `s` with its newline characters deleted. */
  function WithoutNewlines(s: string): (r: string)
    ensures '\n' !in r && |r| <= |s|
  {
    if s == [] then []
    else (if s[0] == '\n' then [] else [s[0]]) + WithoutNewlines(s[1..])
  }

  lemma {:induction false} WithoutNewlinesConcat(a: string, b: string)
    ensures WithoutNewlines(a + b) == WithoutNewlines(a) + WithoutNewlines(b)
  {
    if a == [] {
      assert a + b == b;
    } else {
      var head: string := if a[0] == '\n' then [] else [a[0]];
      assert (a + b)[0] == a[0] && (a + b)[1..] == a[1..] + b;
      assert WithoutNewlines(a + b) == head + WithoutNewlines(a[1..] + b);
      WithoutNewlinesConcat(a[1..], b);
      assert WithoutNewlines(a) == head + WithoutNewlines(a[1..]);
    }
  }

  lemma {:induction false} WithoutNewlinesKeeps(s: string)
    requires '\n' !in s
    ensures WithoutNewlines(s) == s
  {
    if s != [] {
      WithoutNewlinesKeeps(s[1..]);
    }
  }

  /** The padded elements, in order, with nothing between them. */
  function Cells(es: seq<string>, width: nat): string
  {
    if es == [] then "" else Cells(es[..|es| - 1], width) + LeftJustify(es[|es| - 1], width)
  }

  /** Deleting the newlines from a layout of newline-free elements leaves the
      padded elements back to back. */
  lemma {:induction false} LayoutWithoutNewlines(es: seq<string>, width: nat, lineLength: int)
    requires forall i :: 0 <= i < |es| ==> '\n' !in es[i]
    ensures WithoutNewlines(Layout(es, width, lineLength)) == Cells(es, width)
  {
    if es != [] {
      var n := |es|;
      var cell := LeftJustify(es[n - 1], width);
      var nl: string := if BreakAfter(n, width, lineLength) then "\n" else "";
      LayoutWithoutNewlines(es[..n - 1], width, lineLength);
      WithoutNewlinesConcat(Layout(es[..n - 1], width, lineLength) + cell, nl);
      WithoutNewlinesConcat(Layout(es[..n - 1], width, lineLength), cell);
      assert '\n' !in cell by {
        if |es[n - 1]| < width {
          assert cell == es[n - 1] + seq(width - |es[n - 1]|, _ => ' ');
        }
      }
      WithoutNewlinesKeeps(cell);
      assert WithoutNewlines(nl) == "";
    }
  }
}
