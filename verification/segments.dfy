/**
  An account of the parser's result that does not mention the scanner state:
  the lines are cut at the rules that open a section, each cut gives one
  section titled with the line above its rule and holding the items of the
  lines up to the next such rule, and the last cut is shown only when it has
  items. The theorem `ParseIsSegmented` says the forward pass computes exactly
  this.
 */
module Segments {
  import opened Wrappers
  import opened Text
  import opened LinkParser

  /** Whether a rule opens a section depends only on the lines up to it. */
  lemma OpensPrefix(lines: seq<string>, i: int)
    requires 0 <= i < |lines| - 1
    ensures Opens(lines[..|lines| - 1], i) <==> Opens(lines, i)
  {
    var init := lines[..|lines| - 1];
    assert init[i] == lines[i];
    if 0 < i { assert init[i - 1] == lines[i - 1]; }
  }

  /** The positions below `n` of the rules that open a section, in increasing
      order. */
  function OpenersBelow(lines: seq<string>, n: nat): seq<nat>
    requires n <= |lines|
    decreases n
  {
    if n == 0 then []
    else OpenersBelow(lines, n - 1) + (if Opens(lines, n - 1) then [n - 1] else [])
  }

  /** The positions of all the rules that open a section. */
  function Openers(lines: seq<string>): seq<nat> {
    OpenersBelow(lines, |lines|)
  }

  /** Every listed position is below `n` and opens a section. */
  lemma {:induction false} OpenersBelowSound(lines: seq<string>, n: nat)
    requires n <= |lines|
    ensures forall k :: 0 <= k < |OpenersBelow(lines, n)| ==>
      OpenersBelow(lines, n)[k] < n && Opens(lines, OpenersBelow(lines, n)[k])
    decreases n
  {
    if n > 0 {
      OpenersBelowSound(lines, n - 1);
      var o := OpenersBelow(lines, n - 1);
      var r := OpenersBelow(lines, n);
      assert r == o + (if Opens(lines, n - 1) then [n - 1] else []);
      forall k | 0 <= k < |r| ensures r[k] < n && Opens(lines, r[k]) {
        if k < |o| { assert r[k] == o[k]; }
      }
    }
  }

  /** Every position below `n` that opens a section is listed. */
  lemma {:induction false} OpenersBelowComplete(lines: seq<string>, n: nat)
    requires n <= |lines|
    ensures forall i :: 0 <= i < n && Opens(lines, i) ==> i in OpenersBelow(lines, n)
    decreases n
  {
    if n > 0 {
      OpenersBelowComplete(lines, n - 1);
      var o := OpenersBelow(lines, n - 1);
      var r := OpenersBelow(lines, n);
      assert r == o + (if Opens(lines, n - 1) then [n - 1] else []);
      forall i | 0 <= i < n && Opens(lines, i) ensures i in r {
        if i < n - 1 { assert i in o; }
      }
    }
  }

  /** The listed positions increase strictly. */
  lemma {:induction false} OpenersBelowSorted(lines: seq<string>, n: nat)
    requires n <= |lines|
    ensures forall k, l :: 0 <= k < l < |OpenersBelow(lines, n)| ==>
      OpenersBelow(lines, n)[k] < OpenersBelow(lines, n)[l]
    decreases n
  {
    if n > 0 {
      OpenersBelowSorted(lines, n - 1);
      OpenersBelowSound(lines, n - 1);
      var o := OpenersBelow(lines, n - 1);
      var r := OpenersBelow(lines, n);
      assert r == o + (if Opens(lines, n - 1) then [n - 1] else []);
      forall k, l | 0 <= k < l < |r| ensures r[k] < r[l] {
        if l < |o| { assert r[k] == o[k] && r[l] == o[l]; }
        else { assert r[k] == o[k]; }
      }
    }
  }

  /** `Openers` lists exactly the rules that open a section, each once, in line
      order. */
  lemma OpenersExact(lines: seq<string>)
    ensures forall k :: 0 <= k < |Openers(lines)| ==> Opens(lines, Openers(lines)[k])
    ensures forall i :: Opens(lines, i) ==> i in Openers(lines)
    ensures forall k, l :: 0 <= k < l < |Openers(lines)| ==> Openers(lines)[k] < Openers(lines)[l]
  {
    OpenersBelowSound(lines, |lines|);
    OpenersBelowComplete(lines, |lines|);
    OpenersBelowSorted(lines, |lines|);
  }

  /** The `j`-th opening rule has a line above it, and the next one comes
      later. */
  lemma OpenerAt(lines: seq<string>, j: nat)
    requires j < |Openers(lines)|
    ensures 0 < Openers(lines)[j] < |lines|
    ensures j + 1 < |Openers(lines)| ==> Openers(lines)[j] < Openers(lines)[j + 1] < |lines|
  {
    OpenersExact(lines);
    assert Opens(lines, Openers(lines)[j]);
    if j + 1 < |Openers(lines)| {
      assert Opens(lines, Openers(lines)[j + 1]);
    }
  }

  lemma {:induction false} OpenersBelowPrefix(lines: seq<string>, n: nat)
    requires n < |lines|
    ensures OpenersBelow(lines[..|lines| - 1], n) == OpenersBelow(lines, n)
    decreases n
  {
    if n > 0 {
      OpenersBelowPrefix(lines, n - 1);
      OpensPrefix(lines, n - 1);
    }
  }

  /** A new last line adds its own position to the openers, or nothing. */
  lemma OpenersSnoc(lines: seq<string>)
    requires |lines| > 0
    ensures Openers(lines) ==
      Openers(lines[..|lines| - 1]) + (if Opens(lines, |lines| - 1) then [|lines| - 1] else [])
  {
    OpenersBelowPrefix(lines, |lines| - 1);
  }

  lemma OpenersLength(lines: seq<string>)
    requires |lines| > 0
    ensures |Openers(lines)| == |Openers(lines[..|lines| - 1])| + (if Opens(lines, |lines| - 1) then 1 else 0)
  {
    OpenersSnoc(lines);
  }

  /** The items of the lines from `a` up to (not including) `b`, in line order,
      ignoring sections. */
  function Extract(lines: seq<string>, a: nat, b: nat): seq<Item>
    requires a <= b <= |lines|
    decreases b - a
  {
    if a == b then [] else Extract(lines, a, b - 1) + ItemsOf(lines[b - 1])
  }

  lemma {:induction false} ExtractPrefix(lines: seq<string>, a: nat, b: nat)
    requires a <= b < |lines|
    ensures Extract(lines[..|lines| - 1], a, b) == Extract(lines, a, b)
    decreases b - a
  {
    if a < b {
      ExtractPrefix(lines, a, b - 1);
      assert lines[..|lines| - 1][b - 1] == lines[b - 1];
    }
  }

  /** The `j`-th opened section: titled with the line above the `j`-th opening
      rule, holding the items of the lines after that rule and before the next
      one (or the end of the file). */
  function Segment(lines: seq<string>, j: nat): Section
    requires j < |Openers(lines)|
  {
    OpenerAt(lines, j);
    var o := Openers(lines);
    var stop := if j + 1 < |o| then o[j + 1] else |lines|;
    Section(Trim(lines[o[j] - 1]), Extract(lines, o[j] + 1, stop))
  }

  /** Every opened section has the non-blank line above its rule as title. */
  lemma SegmentTitled(lines: seq<string>, j: nat)
    requires j < |Openers(lines)|
    ensures Segment(lines, j).title != []
  {
    OpenersExact(lines);
    assert Opens(lines, Openers(lines)[j]);
  }

  /** The first `m` opened sections. */
  function ClosedBelow(lines: seq<string>, m: nat): seq<Section>
    requires m <= |Openers(lines)|
    decreases m
  {
    if m == 0 then [] else ClosedBelow(lines, m - 1) + [Segment(lines, m - 1)]
  }

  /** All opened sections but the last. */
  function Closed(lines: seq<string>): seq<Section> {
    var n := |Openers(lines)|;
    if n == 0 then [] else ClosedBelow(lines, n - 1)
  }

  /** The last opened section, or the untitled run of items before any rule. */
  function Open(lines: seq<string>): Section {
    var n := |Openers(lines)|;
    if n == 0 then Section([], Extract(lines, 0, |lines|)) else Segment(lines, n - 1)
  }

  /** The result described by the cuts: every closed section, empty or not,
      then the last one if it has items. */
  function Segmented(lines: seq<string>): seq<Section> {
    Closed(lines) + (if |Openers(lines)| > 0 && |Open(lines).items| > 0 then [Open(lines)] else [])
  }

  // ---------------------------------------------------------------------------

  /** A line that opens no section leaves the finished sections and the title
      alone and appends its items to the section being gathered. */
  lemma StepNoOpen(st: State, line: string)
    requires !(IsRule(Trim(line)) && st.prev.Some? && Trim(st.prev.value) != [])
    ensures Step(st, line).sections == st.sections
    ensures Step(st, line).current == st.current.(items := st.current.items + ItemsOf(line))
  {
  }

  /** Segments that end before the last line are the same with or without it. */
  lemma SegmentStable(lines: seq<string>, j: nat)
    requires |lines| > 0
    requires j + 1 < |Openers(lines[..|lines| - 1])|
    ensures j + 1 < |Openers(lines)|
    ensures Segment(lines, j) == Segment(lines[..|lines| - 1], j)
  {
    var init := lines[..|lines| - 1];
    var o := Openers(init);
    OpenersSnoc(lines);
    assert Openers(lines)[j] == o[j] && Openers(lines)[j + 1] == o[j + 1];
    OpenerAt(init, j);
    OpenerAt(init, j + 1);
    ExtractPrefix(lines, o[j] + 1, o[j + 1]);
    assert lines[o[j] - 1] == init[o[j] - 1];
  }

  /** The last segment runs from the line after its rule to the end. */
  lemma SegmentLast(lines: seq<string>, o: seq<nat>)
    requires o == Openers(lines) && |o| > 0
    ensures 0 < o[|o| - 1] < |lines|
    ensures Segment(lines, |o| - 1) == Section(Trim(lines[o[|o| - 1] - 1]), Extract(lines, o[|o| - 1] + 1, |lines|))
  {
    OpenerAt(lines, |o| - 1);
  }

  /** The last segment grows by the items of a line that opens nothing. */
  lemma SegmentGrows(lines: seq<string>)
    requires |lines| > 0
    requires !Opens(lines, |lines| - 1)
    requires |Openers(lines[..|lines| - 1])| > 0
    ensures Openers(lines) == Openers(lines[..|lines| - 1])
    ensures Segment(lines, |Openers(lines)| - 1).title == Segment(lines[..|lines| - 1], |Openers(lines)| - 1).title
    ensures Segment(lines, |Openers(lines)| - 1).items ==
      Segment(lines[..|lines| - 1], |Openers(lines)| - 1).items + ItemsOf(lines[|lines| - 1])
  {
    OpenersSnoc(lines);
    LastSegmentGrows(lines, lines[..|lines| - 1], Openers(lines));
  }

  /** The last segment of `lines` is that of `init` with the items of the one
      extra line, when the extra line adds no cut. */
  lemma LastSegmentGrows(lines: seq<string>, init: seq<string>, o: seq<nat>)
    requires |lines| > 0 && init == lines[..|lines| - 1]
    requires o == Openers(lines) == Openers(init) && |o| > 0
    ensures Segment(lines, |o| - 1).title == Segment(init, |o| - 1).title
    ensures Segment(lines, |o| - 1).items == Segment(init, |o| - 1).items + ItemsOf(lines[|init|])
  {
    var p := o[|o| - 1];
    SegmentLast(init, o);
    SegmentLast(lines, o);
    ExtractPrefix(lines, p + 1, |init|);
    assert lines[p - 1] == init[p - 1];
  }

  /** The last segment before a new opening rule ends at that rule. */
  lemma SegmentCloses(lines: seq<string>)
    requires |lines| > 0
    requires Opens(lines, |lines| - 1)
    requires |Openers(lines[..|lines| - 1])| > 0
    ensures Openers(lines) == Openers(lines[..|lines| - 1]) + [|lines| - 1]
    ensures Segment(lines, |Openers(lines)| - 2) == Segment(lines[..|lines| - 1], |Openers(lines)| - 2)
  {
    var init := lines[..|lines| - 1];
    var o := Openers(init);
    OpenersSnoc(lines);
    var j := |o| - 1;
    assert Openers(lines)[j] == o[j] && Openers(lines)[j + 1] == |init|;
    OpenerAt(init, j);
    ExtractPrefix(lines, o[j] + 1, |init|);
    assert lines[o[j] - 1] == init[o[j] - 1];
  }

  lemma {:induction false} ClosedBelowAt(lines: seq<string>, m: nat, j: nat)
    requires j < m <= |Openers(lines)|
    ensures |ClosedBelow(lines, m)| == m
    ensures ClosedBelow(lines, m)[j] == Segment(lines, j)
    decreases m
  {
    if j < m - 1 {
      ClosedBelowAt(lines, m - 1, j);
    } else if m > 1 {
      ClosedBelowAt(lines, m - 1, 0);
    }
  }

  /** The closed sections are the opened sections but the last, in order. */
  lemma ClosedAt(lines: seq<string>, j: nat)
    requires j + 1 < |Openers(lines)|
    ensures |Closed(lines)| == |Openers(lines)| - 1
    ensures Closed(lines)[j] == Segment(lines, j)
  {
    var n := |Openers(lines)|;
    assert Closed(lines) == ClosedBelow(lines, n - 1);
    ClosedBelowAt(lines, n - 1, j);
  }

  /** A line that opens nothing leaves the closed sections alone. */
  lemma ClosedStable(lines: seq<string>)
    requires |lines| > 0
    requires !Opens(lines, |lines| - 1)
    ensures Closed(lines) == Closed(lines[..|lines| - 1])
  {
    var init := lines[..|lines| - 1];
    OpenersSnoc(lines);
    var n := |Openers(init)|;
    assert |Openers(lines)| == n;
    if n > 1 {
      var c, c' := Closed(lines), Closed(init);
      ClosedAt(lines, 0);
      ClosedAt(init, 0);
      forall j | 0 <= j < n - 1 ensures c[j] == c'[j] {
        ClosedAt(lines, j);
        ClosedAt(init, j);
        SegmentStable(lines, j);
      }
    }
  }

  /** A line that opens a section closes the one being gathered. */
  lemma ClosedGrows(lines: seq<string>)
    requires |lines| > 0
    requires Opens(lines, |lines| - 1)
    ensures |Openers(lines[..|lines| - 1])| > 0 ==>
      Closed(lines) == Closed(lines[..|lines| - 1]) + [Open(lines[..|lines| - 1])]
    ensures |Openers(lines[..|lines| - 1])| == 0 ==> Closed(lines) == []
  {
    var init := lines[..|lines| - 1];
    var n := |Openers(init)|;
    OpenersLength(lines);
    if n > 0 {
      var c, c' := Closed(lines), Closed(init) + [Open(init)];
      ClosedAt(lines, 0);
      if n > 1 { ClosedAt(init, 0); }
      assert |c| == n && |c'| == n;
      forall j | 0 <= j < n ensures c[j] == c'[j] {
        ClosedAt(lines, j);
        if j < n - 1 {
          ClosedAt(init, j);
          SegmentStable(lines, j);
        } else {
          SegmentCloses(lines);
        }
      }
    }
  }

  /** A line that opens nothing adds its items to the section being gathered. */
  lemma OpenStable(lines: seq<string>)
    requires |lines| > 0
    requires !Opens(lines, |lines| - 1)
    ensures Open(lines) == Open(lines[..|lines| - 1]).(items := Open(lines[..|lines| - 1]).items + ItemsOf(lines[|lines| - 1]))
  {
    var init := lines[..|lines| - 1];
    var n := |Openers(init)|;
    OpenersLength(lines);
    if n > 0 {
      SegmentGrows(lines);
      assert Open(lines) == Segment(lines, n - 1);
      assert Open(init) == Segment(init, n - 1);
    } else {
      ExtractPrefix(lines, 0, |init|);
      assert Open(lines) == Section([], Extract(lines, 0, |lines|));
      assert Open(init) == Section([], Extract(init, 0, |init|));
    }
  }

  /** A line that opens a section starts it empty, titled with the line above. */
  lemma OpenFresh(lines: seq<string>)
    requires |lines| > 0
    requires Opens(lines, |lines| - 1)
    ensures Open(lines) == Section(Trim(lines[|lines| - 2]), [])
  {
    var init := lines[..|lines| - 1];
    OpenersSnoc(lines);
    var o := Openers(lines);
    assert o == Openers(init) + [|lines| - 1];
    assert o[|o| - 1] == |lines| - 1;
  }

  /** The state of the forward pass after any prefix of the lines is the cut
      account of that prefix: the finished sections are the closed segments and
      the section being gathered is the open one. */
  lemma {:induction false} RunIsSegmented(lines: seq<string>)
    ensures Run(lines).sections == Closed(lines)
    ensures Run(lines).current == Open(lines)
    decreases |lines|
  {
    if |lines| > 0 {
      var init := lines[..|lines| - 1];
      var x := lines[|lines| - 1];
      RunIsSegmented(init);
      RunPrev(init);
      var st := Run(init);
      assert Run(lines) == Step(st, x);
      if Opens(lines, |lines| - 1) {
        assert init[|lines| - 2] == lines[|lines| - 2];
        RuleOpensSection(st, x);
        ClosedGrows(lines);
        OpenFresh(lines);
        if |Openers(init)| > 0 {
          SegmentTitled(init, |Openers(init)| - 1);
        } else {
          assert Open(init).title == [];
        }
      } else {
        if |lines| > 1 {
          assert init[|lines| - 2] == lines[|lines| - 2];
        }
        StepNoOpen(st, x);
        ClosedStable(lines);
        OpenStable(lines);
      }
    }
  }

  /** The forward pass and the cut account agree on every input. */
  lemma ParseIsSegmented(lines: seq<string>)
    ensures Parse(lines) == Segmented(lines)
  {
    RunIsSegmented(lines);
    if |Openers(lines)| == 0 {
      assert Open(lines).title == [];
    } else {
      SegmentTitled(lines, |Openers(lines)| - 1);
    }
  }

  /** The result is the closed sections followed by the last one if it has
      items. */
  lemma ParseShape(lines: seq<string>)
    requires |Openers(lines)| > 0
    ensures Parse(lines) == Closed(lines) +
      (if |Segment(lines, |Openers(lines)| - 1).items| > 0 then [Segment(lines, |Openers(lines)| - 1)] else [])
    ensures |Closed(lines)| == |Openers(lines)| - 1
  {
    ParseIsSegmented(lines);
    if |Openers(lines)| > 1 {
      ClosedAt(lines, 0);
    }
  }

  /** Sections come out in the order of the rules that opened them: the `j`-th
      section shown is the `j`-th segment, every opened section but the last
      is shown, and the last one is shown exactly when it has items. */
  lemma SectionsInRuleOrder(lines: seq<string>)
    ensures |Parse(lines)| <= |Openers(lines)|
    ensures |Openers(lines)| > 0 ==>
      (|Parse(lines)| == |Openers(lines)| <==> |Segment(lines, |Openers(lines)| - 1).items| > 0)
    ensures |Openers(lines)| > 0 ==> |Parse(lines)| >= |Openers(lines)| - 1
    ensures forall j :: 0 <= j < |Parse(lines)| ==> Parse(lines)[j] == Segment(lines, j)
  {
    var n := |Openers(lines)|;
    if n == 0 {
      ParseIsSegmented(lines);
    } else {
      ParseShape(lines);
      var p := Parse(lines);
      var c := Closed(lines);
      forall j | 0 <= j < |p| ensures p[j] == Segment(lines, j) {
        if j < n - 1 {
          ClosedAt(lines, j);
          assert p[j] == c[j];
        } else {
          assert j == |c| && p[j] == Segment(lines, n - 1);
        }
      }
    }
  }
}
