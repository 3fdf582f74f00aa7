/** getLongestLine: split the OCR text into lines, optionally filter each one,
    and return the first line of maximal length. */
module LongestLine {
  import opened StdString
  import opened AlnumFilter
  import opened LineSplitter

  /** k is the position of the first line of maximal length: no line is longer,
      and every line before it is strictly shorter. */
  predicate IsFirstLongest(lines: seq<seq<Byte>>, k: nat)
  {
    && k < |lines|
    && (forall j :: 0 <= j < |lines| ==> |lines[j]| <= |lines[k]|)
    && (forall j :: 0 <= j < k ==> |lines[j]| < |lines[k]|)
  }

  /** Reference definition of the selection, from the back: the first line is
      kept unless the best of the remaining lines is strictly longer. */
  function FirstLongest(lines: seq<seq<Byte>>): (k: nat)
    requires |lines| > 0
    ensures IsFirstLongest(lines, k)
    decreases |lines|
  {
    if |lines| == 1 then 0
    else
      var k := 1 + FirstLongest(lines[1..]);
      if |lines[k]| > |lines[0]| then k else 0
  }

  /** At most one position is the first of maximal length. */
  lemma FirstLongestUnique(lines: seq<seq<Byte>>, k: nat)
    requires IsFirstLongest(lines, k)
    ensures k == FirstLongest(lines)
  {
  }

  /** Only the lengths of the lines decide which position is selected. */
  lemma SameLengthsSameChoice(a: seq<seq<Byte>>, b: seq<seq<Byte>>)
    requires |a| == |b| > 0
    requires forall i :: 0 <= i < |a| ==> |a[i]| == |b[i]|
    ensures FirstLongest(a) == FirstLongest(b)
  {
  }

  /** Filtering keeps every line's length, so it never changes which line is
      selected: only the content of the selected line differs. */
  lemma FilterKeepsChoice(raw: seq<seq<Byte>>)
    requires |raw| > 0
    ensures FirstLongest(FilterEach(raw)) == FirstLongest(raw)
  {
  }

  /** The second loop of getLongestLine: start from lines[0] and take a line
      only when it is strictly longer than the one held. */
  method SelectLongest(lines: seq<seq<Byte>>) returns (longest: seq<Byte>)
    requires |lines| > 0
    ensures longest == lines[FirstLongest(lines)]
  {
    longest := lines[0];
    ghost var best := 0;
    for i := 0 to |lines|
      invariant best < |lines| && longest == lines[best]
      invariant forall j :: 0 <= j < i ==> |lines[j]| <= |longest|
      invariant forall j :: 0 <= j < best ==> |lines[j]| < |longest|
    {
      if |lines[i]| > |longest| {
        longest := lines[i];
        best := i;
      }
    }
    FirstLongestUnique(lines, best);
  }

  /** getLongestLine(str, filter). Reading lines[0] of an empty vector is
      undefined, so the text must hold at least one byte other than '\n'. */
  method GetLongestLine(str: seq<Byte>, filter: bool) returns (longest: seq<Byte>)
    requires ValidString(str) && HasText(str)
    ensures |Split(str)| > 0
    ensures IsFirstLongest(Lines(str, filter), FirstLongest(Split(str)))
    ensures longest == Lines(str, filter)[FirstLongest(Split(str))]
    ensures !filter ==> longest == Split(str)[FirstLongest(Split(str))]
    ensures filter ==> longest == FilterAlnum(Split(str)[FirstLongest(Split(str))])
    ensures IsLine(longest)
  {
    var lines := SplitLines(str, filter);
    SplitNoLines(str);
    longest := SelectLongest(lines);
    if filter {
      FilterKeepsChoice(Split(str));
      FilterKeepsLines(Split(str));
    }
  }
}

/** Worked examples of the post-processing on small inputs. */
module LongestLineExamples {
  import opened StdString
  import opened LineSplitter
  import opened LongestLine

  /** "a\nbb\n\nccc" splits into "a", "bb", "ccc": the empty line between the
      two '\n' is dropped. */
  lemma SplitDropsEmptyLine()
    ensures Split([97, 10, 98, 98, 10, 10, 99, 99, 99]) == [[97], [98, 98], [99, 99, 99]]
  {
    var gaps: seq<seq<Byte>> := [[], [10], [10, 10], []];
    var lines: seq<seq<Byte>> := [[97], [98, 98], [99, 99, 99]];
    assert Separates(gaps, lines);
    assert Weave(gaps, lines) == [97, 10, 98, 98, 10, 10, 99, 99, 99];
    SplitUnique(gaps, lines);
  }

  /** "abc" and "xyz" tie at three bytes; the first one is selected. */
  lemma TieGoesToFirst()
    ensures FirstLongest([[97, 98, 99], [120, 121, 122], [98]]) == 0
  {
  }
}
