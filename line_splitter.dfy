/** The split loop of getLongestLine: the text is cut at '\n' into its maximal
    runs of other bytes, empty runs are dropped, and each run is optionally
    passed through filterChars before it is appended to the list of lines. */
module LineSplitter {
  import opened StdString
  import opened AlnumFilter

  /** A line as the loop produces it: non-empty and free of '\n'. */
  predicate IsLine(l: seq<Byte>)
  {
    |l| > 0 && forall i :: 0 <= i < |l| ==> l[i] != NewLine
  }

  /** A string made of '\n' only (the empty string included). */
  predicate AllNewlines(g: seq<Byte>)
  {
    forall i :: 0 <= i < |g| ==> g[i] == NewLine
  }

  /** A string from which at least one line can be cut. */
  predicate HasText(s: seq<Byte>)
  {
    exists i :: 0 <= i < |s| && s[i] != NewLine
  }

  /** The length of the run of non-'\n' bytes at the front of s. */
  function RunEnd(s: seq<Byte>): (k: nat)
    ensures k <= |s|
    ensures forall i :: 0 <= i < k ==> s[i] != NewLine
    ensures k < |s| ==> s[k] == NewLine
  {
    if s == [] || s[0] == NewLine then 0 else 1 + RunEnd(s[1..])
  }

  /** The lines of s, top to bottom: its maximal runs of non-'\n' bytes. */
  function Split(s: seq<Byte>): (lines: seq<seq<Byte>>)
    ensures forall i :: 0 <= i < |lines| ==> IsLine(lines[i])
    decreases |s|
  {
    if s == [] then []
    else if s[0] == NewLine then Split(s[1..])
    else
      var k := RunEnd(s);
      [s[..k]] + Split(s[k..])
  }

  /** Every line passed through filterChars. */
  function FilterEach(lines: seq<seq<Byte>>): (r: seq<seq<Byte>>)
    ensures |r| == |lines|
    ensures forall i :: 0 <= i < |r| ==> r[i] == FilterAlnum(lines[i])
  {
    seq(|lines|, i requires 0 <= i < |lines| => FilterAlnum(lines[i]))
  }

  /** Filtering keeps the number of lines and each line's length, and a
      filtered line is still a line: filterChars turns '\n' into ' '. */
  lemma FilterKeepsLines(lines: seq<seq<Byte>>)
    requires forall i :: 0 <= i < |lines| ==> IsLine(lines[i])
    ensures |FilterEach(lines)| == |lines|
    ensures forall i :: 0 <= i < |lines| ==>
              |FilterEach(lines)[i]| == |lines[i]| && IsLine(FilterEach(lines)[i])
  {
    assert !IsAlnum(NewLine);
  }

  /** The lines getLongestLine chooses from, filtered when filter is set. */
  function Lines(s: seq<Byte>, filter: bool): seq<seq<Byte>>
  {
    if filter then FilterEach(Split(s)) else Split(s)
  }

  /** The lines laid end to end. */
  function Concat(lines: seq<seq<Byte>>): seq<Byte>
  {
    if lines == [] then [] else lines[0] + Concat(lines[1..])
  }

  /** s with every '\n' deleted. */
  function RemoveNewlines(s: seq<Byte>): seq<Byte>
  {
    if s == [] then []
    else if s[0] == NewLine then RemoveNewlines(s[1..])
    else [s[0]] + RemoveNewlines(s[1..])
  }

  /** gaps[0] + lines[0] + gaps[1] + ... + lines[n-1] + gaps[n]. */
  function Weave(gaps: seq<seq<Byte>>, lines: seq<seq<Byte>>): seq<Byte>
    requires |gaps| == |lines| + 1
    decreases |lines|
  {
    if lines == [] then gaps[0] else gaps[0] + lines[0] + Weave(gaps[1..], lines[1..])
  }

  /** gaps can stand between lines: every gap holds '\n' only, and every gap
      between two lines holds at least one. */
  predicate Separates(gaps: seq<seq<Byte>>, lines: seq<seq<Byte>>)
  {
    && |gaps| == |lines| + 1
    && (forall i :: 0 <= i < |gaps| ==> AllNewlines(gaps[i]))
    && (forall i :: 0 < i < |lines| ==> |gaps[i]| > 0)
  }

  /** Leading '\n' bytes produce no line. */
  lemma {:induction false} SplitDropNewlines(g: seq<Byte>, t: seq<Byte>)
    requires AllNewlines(g)
    ensures Split(g + t) == Split(t)
    decreases |g|
  {
    if g == [] {
      assert g + t == t;
    } else {
      assert (g + t)[0] == g[0] == NewLine;
      assert (g + t)[1..] == g[1..] + t;
      SplitDropNewlines(g[1..], t);
    }
  }

  /** A line followed by the end of the text or by a '\n' is cut whole. */
  lemma SplitRun(l: seq<Byte>, w: seq<Byte>)
    requires IsLine(l)
    requires w == [] || w[0] == NewLine
    ensures Split(l + w) == [l] + Split(w)
  {
    var s := l + w;
    var k := RunEnd(s);
    assert k == |l| by {
      assert forall i :: 0 <= i < |l| ==> s[i] == l[i];
      assert |l| < |s| ==> s[|l|] == w[0];
    }
    assert s[..k] == l && s[k..] == w;
  }

  /** The loop produces no line exactly when the text is empty or all '\n'. */
  lemma {:induction false} SplitNoLines(s: seq<Byte>)
    ensures Split(s) == [] <==> !HasText(s)
    decreases |s|
  {
    if s != [] {
      SplitNoLines(s[1..]);
      if s[0] == NewLine {
        if HasText(s[1..]) {
          var i :| 0 <= i < |s| - 1 && s[1..][i] != NewLine;
          assert s[i + 1] != NewLine;
        }
        if HasText(s) {
          var i :| 0 <= i < |s| && s[i] != NewLine;
          assert s[1..][i - 1] != NewLine;
        }
      } else {
        assert HasText(s) by { assert s[0] != NewLine; }
      }
    }
  }

  /** Deleting '\n' distributes over concatenation. */
  lemma {:induction false} RemoveNewlinesAppend(a: seq<Byte>, b: seq<Byte>)
    ensures RemoveNewlines(a + b) == RemoveNewlines(a) + RemoveNewlines(b)
    decreases |a|
  {
    if a == [] {
      assert a + b == b;
    } else {
      assert (a + b)[1..] == a[1..] + b;
      RemoveNewlinesAppend(a[1..], b);
    }
  }

  /** A text without '\n' loses nothing. */
  lemma {:induction false} RemoveNewlinesOfLine(l: seq<Byte>)
    requires forall i :: 0 <= i < |l| ==> l[i] != NewLine
    ensures RemoveNewlines(l) == l
    decreases |l|
  {
    if l != [] {
      RemoveNewlinesOfLine(l[1..]);
      assert l == [l[0]] + l[1..];
    }
  }

  /** With filter off, the lines laid end to end are the text without its '\n'. */
  lemma {:induction false} SplitConcat(s: seq<Byte>)
    ensures Concat(Split(s)) == RemoveNewlines(s)
    decreases |s|
  {
    if s != [] {
      if s[0] == NewLine {
        SplitConcat(s[1..]);
      } else {
        var k := RunEnd(s);
        SplitConcat(s[k..]);
        assert s == s[..k] + s[k..];
        RemoveNewlinesAppend(s[..k], s[k..]);
        RemoveNewlinesOfLine(s[..k]);
        assert Split(s)[1..] == Split(s[k..]);
      }
    }
  }

  /** The runs of '\n' around and between the lines of s. */
  function Gaps(s: seq<Byte>): (gaps: seq<seq<Byte>>)
    ensures |gaps| == |Split(s)| + 1
    decreases |s|
  {
    if s == [] then [[]]
    else if s[0] == NewLine then
      var gs := Gaps(s[1..]);
      [[NewLine] + gs[0]] + gs[1..]
    else
      [[]] + Gaps(s[RunEnd(s)..])
  }

  /** Widening the first gap widens the front of the weave. */
  lemma WeaveWiderGap(p: seq<Byte>, gs: seq<seq<Byte>>, lines: seq<seq<Byte>>)
    requires |gs| == |lines| + 1
    ensures Weave([p + gs[0]] + gs[1..], lines) == p + Weave(gs, lines)
  {
  }

  /** A line behind an empty first gap starts the weave. */
  lemma WeaveLineFirst(l: seq<Byte>, gs: seq<seq<Byte>>, lines: seq<seq<Byte>>)
    requires |gs| == |lines| + 1
    ensures Weave([[]] + gs, [l] + lines) == l + Weave(gs, lines)
  {
  }

  /** SplitWeaves for a text that starts with '\n'. */
  lemma WeavesAfterNewline(s: seq<Byte>)
    requires |s| > 0 && s[0] == NewLine
    requires Separates(Gaps(s[1..]), Split(s[1..]))
    requires Weave(Gaps(s[1..]), Split(s[1..])) == s[1..]
    ensures Separates(Gaps(s), Split(s)) && Weave(Gaps(s), Split(s)) == s
    ensures |Gaps(s)[0]| > 0
  {
    var gs, lines := Gaps(s[1..]), Split(s[1..]);
    var gaps := Gaps(s);
    assert Split(s) == lines;
    assert gaps == [[NewLine] + gs[0]] + gs[1..];
    assert AllNewlines(gaps[0]);
    assert forall i :: 0 < i < |gaps| ==> gaps[i] == gs[i];
    WeaveWiderGap([NewLine], gs, lines);
    assert [NewLine] + s[1..] == s;
  }

  /** SplitWeaves for a text that starts with a line. */
  lemma WeavesAfterLine(s: seq<Byte>, k: nat)
    requires |s| > 0 && s[0] != NewLine && k == RunEnd(s)
    requires Separates(Gaps(s[k..]), Split(s[k..]))
    requires Weave(Gaps(s[k..]), Split(s[k..])) == s[k..]
    requires k < |s| ==> |Gaps(s[k..])[0]| > 0
    ensures Separates(Gaps(s), Split(s)) && Weave(Gaps(s), Split(s)) == s
  {
    var rest, gs := Split(s[k..]), Gaps(s[k..]);
    var lines, gaps := Split(s), Gaps(s);
    assert lines == [s[..k]] + rest;
    assert gaps == [[]] + gs;
    WeaveLineFirst(s[..k], gs, rest);
    assert s[..k] + s[k..] == s;
    if rest != [] {
      SplitNoLines(s[k..]);
    }
    assert forall i :: 0 < i < |gaps| ==> gaps[i] == gs[i - 1];
  }

  /** The text is its lines woven with runs of '\n', at least one between two
      consecutive lines; a text that starts with '\n' has a non-empty first gap. */
  lemma {:induction false} SplitWeaves(s: seq<Byte>)
    ensures Separates(Gaps(s), Split(s)) && Weave(Gaps(s), Split(s)) == s
    ensures |s| > 0 && s[0] == NewLine ==> |Gaps(s)[0]| > 0
    decreases |s|
  {
    if s == [] {
    } else if s[0] == NewLine {
      SplitWeaves(s[1..]);
      WeavesAfterNewline(s);
    } else {
      var k := RunEnd(s);
      SplitWeaves(s[k..]);
      WeavesAfterLine(s, k);
    }
  }

  /** The first byte of a weave whose first gap is not empty is '\n'. */
  lemma WeaveStartsWithGap(gaps: seq<seq<Byte>>, lines: seq<seq<Byte>>)
    requires Separates(gaps, lines) && |gaps[0]| > 0
    ensures |Weave(gaps, lines)| > 0 && Weave(gaps, lines)[0] == NewLine
  {
  }

  /** Conversely, any weave of lines with separating gaps splits back into
      exactly those lines: the split is the unique such decomposition. */
  lemma {:induction false} SplitUnique(gaps: seq<seq<Byte>>, lines: seq<seq<Byte>>)
    requires Separates(gaps, lines)
    requires forall i :: 0 <= i < |lines| ==> IsLine(lines[i])
    ensures Split(Weave(gaps, lines)) == lines
    decreases |lines|
  {
    if lines == [] {
      SplitDropNewlines(gaps[0], []);
      assert gaps[0] + [] == gaps[0];
    } else {
      var w := Weave(gaps[1..], lines[1..]);
      assert Separates(gaps[1..], lines[1..]) by {
        assert forall i :: 0 < i < |lines[1..]| ==> gaps[1..][i] == gaps[i + 1];
      }
      SplitUnique(gaps[1..], lines[1..]);
      if lines[1..] != [] {
        WeaveStartsWithGap(gaps[1..], lines[1..]);
      } else if gaps[1] != [] {
        assert w == gaps[1];
      }
      SplitRun(lines[0], w);
      assert Weave(gaps, lines) == gaps[0] + (lines[0] + w);
      SplitDropNewlines(gaps[0], lines[0] + w);
    }
  }

  /** Skipping '\n' bytes with find_first_not_of skips no line. */
  lemma SkipToText(s: seq<Byte>, p: nat)
    requires ValidString(s) && p <= |s|
    ensures FindFirstNotOf(s, NewLine, p) == NPos ==> Split(s[p..]) == []
    ensures FindFirstNotOf(s, NewLine, p) != NPos ==>
              Split(s[p..]) == Split(s[FindFirstNotOf(s, NewLine, p)..])
  {
    var start := FindFirstNotOf(s, NewLine, p);
    if start == NPos {
      SplitNoLines(s[p..]);
    } else {
      assert s[p..] == s[p..start] + s[start..];
      SplitDropNewlines(s[p..start], s[start..]);
    }
  }

  /** The run find(delim, start) ends is the next line. */
  lemma TakeLine(s: seq<Byte>, start: nat)
    requires ValidString(s) && start < |s| && s[start] != NewLine
    ensures var e := Find(s, NewLine, start);
            var stop := if e == NPos then |s| else e;
            start < stop <= |s| && Split(s[start..]) == [s[start..stop]] + Split(s[stop..])
  {
    var e := Find(s, NewLine, start);
    var stop := if e == NPos then |s| else e;
    assert s[start..] == s[start..stop] + s[stop..];
    SplitRun(s[start..stop], s[stop..]);
  }

  /** One turn of the loop: the next find_first_not_of / find pair cuts off
      exactly the next line. */
  lemma NextLine(str: seq<Byte>, from: nat, start: nat, end: nat)
    requires ValidString(str) && from <= |str|
    requires start == FindFirstNotOf(str, NewLine, from) && start != NPos
    requires end == Find(str, NewLine, start)
    ensures start < |str| && start < end
    ensures LinesFrom(str, from) == [Substr(str, start, end - start)] + LinesFrom(str, end)
  {
    SkipToText(str, from);
    TakeLine(str, start);
    var stop := if end == NPos then |str| else end;
    assert Substr(str, start, end - start) == str[start..stop];
    if end == NPos {
      assert str[stop..] == [];
    }
  }

  /** Appending the next line to the lines already collected. Proved apart
      from SplitLines so that the loop's proof stays small. */
  lemma AppendAssoc<T>(a: seq<T>, b: seq<T>, c: seq<T>)
    ensures (a + b) + c == a + (b + c)
  {
  }

  /** Filtering one more line extends the filtered vector by it. */
  lemma FilterEachAppend(raw: seq<seq<Byte>>, line: seq<Byte>)
    ensures FilterEach(raw + [line]) == FilterEach(raw) + [FilterAlnum(line)]
  {
  }

  /** The lines of str from byte end on (none once end is npos). */
  function LinesFrom(str: seq<Byte>, end: nat): seq<seq<Byte>>
    requires end == NPos || end <= |str|
  {
    if end == NPos then [] else Split(str[end..])
  }

  /** filterChars applied to the local copy `line` of a substring. */
  method FilterLine(line: seq<Byte>) returns (r: seq<Byte>)
    ensures r == FilterAlnum(line)
  {
    var buf := new Byte[|line|](i requires 0 <= i < |line| => line[i]);
    assert buf[..] == line;
    FilterChars(buf);
    r := buf[..];
  }

  /** The while loop of getLongestLine: collects the lines of str, each passed
      through filterChars when filter is set. */
  method SplitLines(str: seq<Byte>, filter: bool) returns (lines: seq<seq<Byte>>)
    requires ValidString(str)
    ensures lines == Lines(str, filter)
  {
    lines := [];
    ghost var raw: seq<seq<Byte>> := [];
    var end: nat := 0;
    var start := FindFirstNotOf(str, NewLine, end);
    while start != NPos
      invariant end == NPos || end <= |str|
      invariant start == FindFirstNotOf(str, NewLine, end)
      invariant Split(str) == raw + LinesFrom(str, end)
      invariant lines == (if filter then FilterEach(raw) else raw)
      decreases NPos - end
    {
      ghost var before, from := raw, end;
      end := Find(str, NewLine, start);
      NextLine(str, from, start, end);
      var line := Substr(str, start, end - start);
      FilterEachAppend(raw, line);
      raw := raw + [line];
      AppendAssoc(before, [line], LinesFrom(str, end));
      if filter {
        line := FilterLine(line);
      }
      lines := lines + [line];
      start := FindFirstNotOf(str, NewLine, end);
    }
    if end != NPos {
      SkipToText(str, end);
    }
  }
}
