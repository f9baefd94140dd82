/**
  The link parser of Link Split: the text of a dropped file is split into
  lines and read in one forward pass. A line that is exactly a twelve-dash
  rule turns the line above it into the title of a new section; a line that
  mentions "http" contributes a (name, url) item to the section being
  gathered. The result is the file name followed by the finished sections.
 */
module LinkParser {
  import opened Wrappers
  import opened Text

  datatype Item = Item(name: string, url: string)

  datatype Section = Section(title: string, items: seq<Item>)

  /** One entry of the displayed list: the file-name record first, then one
      entry per section. */
  datatype Entry = FileEntry(fileName: string) | SectionEntry(section: Section)

  /** The scanner's state between two lines: the sections finished so far, the
      section being gathered, and the raw previous line (None before the first
      line). */
  datatype State = State(sections: seq<Section>, current: Section, prev: Option<string>)

  /** The only header rule the parser recognises: twelve dashes. */
  const RuleText: string := "------------"

  /** A trimmed line is a rule when it equals `RuleText` (see
      `RuleIsTwelveDashes` for what that admits). */
  predicate IsRule(t: string) {
    t == RuleText
  }

  const Scheme: string := "http"

  /** The two line kinds the parser acts on; every other line is ignored. */
  datatype LineKind = RuleLine | LinkLine | OtherLine

  function Classify(t: string): LineKind {
    if IsRule(t) then RuleLine
    else if t != [] && Contains(t, Scheme) then LinkLine
    else OtherLine
  }

  predicate IsUrl(part: string) {
    StartsWith(part, Scheme)
  }

  /** `k` is the position of the first part that starts with "http". */
  ghost predicate FirstUrlAt(parts: seq<string>, k: int) {
    && 0 <= k < |parts|
    && IsUrl(parts[k])
    && forall j :: 0 <= j < k ==> !IsUrl(parts[j])
  }

  /** `parts.find(part => part.startsWith('http'))`. */
  function FindUrl(parts: seq<string>): (r: Option<string>)
    ensures r.None? <==> forall k :: 0 <= k < |parts| ==> !IsUrl(parts[k])
    ensures r.Some? ==> exists k :: FirstUrlAt(parts, k) && parts[k] == r.value
    decreases |parts|
  {
    if |parts| == 0 then None
    else if IsUrl(parts[0]) then
      assert FirstUrlAt(parts, 0);
      Some(parts[0])
    else
      var r := FindUrl(parts[1..]);
      assert r.Some? ==> exists k :: FirstUrlAt(parts, k) && parts[k] == r.value by {
        if r.Some? {
          var k :| FirstUrlAt(parts[1..], k) && parts[1..][k] == r.value;
          assert FirstUrlAt(parts, k + 1);
        }
      }
      assert r.None? ==> forall k :: 0 <= k < |parts| ==> !IsUrl(parts[k]) by {
        if r.None? {
          forall k | 0 <= k < |parts| ensures !IsUrl(parts[k]) {
            if k > 0 { assert parts[k] == parts[1..][k - 1]; }
          }
        }
      }
      r
  }

  /** What the source promises of every item it keeps. */
  predicate GoodItem(it: Item) {
    it.name != [] && NoSpace(it.name) && IsUrl(it.url) && NoSpace(it.url)
  }

  /** The item of a trimmed line that mentions "http": the first whitespace
      field is the name and the first LATER field that starts with "http" is
      the url (the name itself may start with "http"). Without a name or
      without such a field the line yields nothing. */
  function ParseLink(t: string): (r: Option<Item>)
    ensures r.Some? <==> Fields(t)[0] != [] && exists k :: 1 <= k < |Fields(t)| && IsUrl(Fields(t)[k])
    ensures r.Some? ==> r.value.name == Fields(t)[0]
    ensures r.Some? ==> exists k :: FirstUrlAt(Fields(t)[1..], k) && r.value.url == Fields(t)[k + 1]
    ensures r.Some? ==> GoodItem(r.value)
  {
    var parts := Fields(t);
    var name := parts[0];
    var rest := parts[1..];
    var url := FindUrl(rest);
    assert (exists k :: 1 <= k < |parts| && IsUrl(parts[k])) <==> url.Some? by {
      if url.None? {
        forall k | 1 <= k < |parts| ensures !IsUrl(parts[k]) { assert parts[k] == rest[k - 1]; }
      } else {
        var k :| FirstUrlAt(rest, k) && rest[k] == url.value;
        assert parts[k + 1] == rest[k];
      }
    }
    if name != [] && url.Some? then
      TrimFixed(name);
      assert NoSpace(url.value) && exists k :: FirstUrlAt(rest, k) && url.value == parts[k + 1] by {
        var k :| FirstUrlAt(rest, k) && rest[k] == url.value;
        assert rest[k] == parts[k + 1];
      }
      Some(Item(Trim(name), url.value))
    else
      None
  }

  /** The items a line contributes to the section being gathered. */
  function ItemsOf(line: string): seq<Item> {
    var t := Trim(line);
    if Classify(t) == LinkLine then
      match ParseLink(t)
      case Some(it) => [it]
      case None => []
    else []
  }

  const Start: State := State([], Section([], []), None)

  /** One iteration of the forward pass over the lines. */
  function Step(st: State, line: string): State {
    var t := Trim(line);
    var st' :=
      match Classify(t)
      case RuleLine =>
        if st.prev.Some? && Trim(st.prev.value) != [] then
          var finished := if st.current.title != [] then st.sections + [st.current] else st.sections;
          State(finished, Section(Trim(st.prev.value), []), st.prev)
        else st
      case LinkLine =>
        st.(current := st.current.(items := st.current.items + ItemsOf(line)))
      case OtherLine => st;
    st'.(prev := Some(line))
  }

  /** The state after the forward pass has read every line of `lines`. */
  function Run(lines: seq<string>): State
    decreases |lines|
  {
    if |lines| == 0 then Start
    else Step(Run(lines[..|lines| - 1]), lines[|lines| - 1])
  }

  /** After the last line the section being gathered is kept only when it has a
      title and at least one item. */
  function Finish(st: State): (r: seq<Section>)
    ensures |r| == |st.sections| + 1 <==> st.current.title != [] && |st.current.items| > 0
    ensures |r| == |st.sections| || |r| == |st.sections| + 1
    ensures r[..|st.sections|] == st.sections
    ensures |r| > |st.sections| ==> r[|st.sections|] == st.current
  {
    if st.current.title != [] && |st.current.items| > 0 then st.sections + [st.current]
    else st.sections
  }

  /** The sections of a file's lines. */
  function Parse(lines: seq<string>): seq<Section> {
    Finish(Run(lines))
  }

  /** What a dropped file turns into: its name, then its sections in order. */
  function Links(text: string, fileName: string): (r: seq<Entry>)
    ensures |r| == |Parse(Split(text, '\n'))| + 1
    ensures r[0] == FileEntry(fileName)
    ensures forall k :: 1 <= k < |r| ==> r[k] == SectionEntry(Parse(Split(text, '\n'))[k - 1])
  {
    var sections := Parse(Split(text, '\n'));
    [FileEntry(fileName)] + seq(|sections|, k requires 0 <= k < |sections| => SectionEntry(sections[k]))
  }

  // ---------------------------------------------------------------------------
  // One line at a time.

  /** A rule is a line of twelve dashes and nothing else: a run of eleven or
      thirteen dashes, or dashes with other text, is not a rule. */
  lemma RuleIsTwelveDashes(t: string)
    ensures IsRule(t) <==> |t| == 12 && forall k :: 0 <= k < |t| ==> t[k] == '-'
  {
    if |t| == 12 && forall k :: 0 <= k < |t| ==> t[k] == '-' {
      assert forall k :: 0 <= k < |t| ==> t[k] == RuleText[k];
    }
  }

  /** A rule on the first line, or under an empty line, leaves the sections and
      the section being gathered as they were. */
  lemma RuleWithoutTitle(st: State, line: string)
    requires IsRule(Trim(line))
    requires st.prev.None? || Trim(st.prev.value) == []
    ensures Step(st, line).sections == st.sections
    ensures Step(st, line).current == st.current
  {
  }

  /** A rule under a non-empty line opens a section titled with that line,
      whatever it holds, and finishes the previous section exactly when that
      one has a title, with or without items. */
  lemma RuleOpensSection(st: State, line: string)
    requires IsRule(Trim(line))
    requires st.prev.Some? && Trim(st.prev.value) != []
    ensures Step(st, line).current == Section(Trim(st.prev.value), [])
    ensures |Step(st, line).sections| == |st.sections| + 1 <==> st.current.title != []
    ensures st.current.title != [] ==> Step(st, line).sections == st.sections + [st.current]
    ensures st.current.title == [] ==> Step(st, line).sections == st.sections
  {
  }

  /** A line that is neither the rule nor a non-empty line mentioning "http"
      changes neither the sections nor the section being gathered. */
  lemma OtherLineIgnored(st: State, line: string)
    requires !IsRule(Trim(line))
    requires Trim(line) == [] || !Contains(Trim(line), Scheme)
    ensures Step(st, line).sections == st.sections
    ensures Step(st, line).current == st.current
  {
  }

  /** A line mentioning "http" appends at most its one item to the section
      being gathered and touches nothing else. */
  lemma LinkLineAppends(st: State, line: string)
    requires !IsRule(Trim(line)) && Trim(line) != [] && Contains(Trim(line), Scheme)
    ensures Step(st, line).sections == st.sections
    ensures Step(st, line).current.title == st.current.title
    ensures Step(st, line).current.items == st.current.items + ItemsOf(line)
    ensures |ItemsOf(line)| <= 1
  {
  }

  // ---------------------------------------------------------------------------
  // Over the whole pass.

  predicate AllGood(items: seq<Item>) {
    forall j :: 0 <= j < |items| ==> GoodItem(items[j])
  }

  /** What the source promises of every section it shows, apart from having
      items: a title and well-formed items. */
  predicate GoodSection(sec: Section) {
    sec.title != [] && AllGood(sec.items)
  }

  /** What holds of the scanner state after any number of lines. */
  predicate Good(st: State) {
    && (forall k :: 0 <= k < |st.sections| ==> GoodSection(st.sections[k]))
    && AllGood(st.current.items)
    && (st.current.title == [] ==> st.sections == [])
  }

  lemma AllGoodAppend(items: seq<Item>, extra: seq<Item>)
    requires AllGood(items) && AllGood(extra)
    ensures AllGood(items + extra)
  {
  }

  lemma ItemsOfGood(line: string)
    ensures AllGood(ItemsOf(line))
  {
  }

  lemma StepGood(st: State, line: string)
    requires Good(st)
    ensures Good(Step(st, line))
  {
    var t := Trim(line);
    match Classify(t)
    case RuleLine =>
      if st.prev.Some? && Trim(st.prev.value) != [] {
        RuleOpensSection(st, line);
        var st' := Step(st, line);
        if st.current.title != [] {
          assert st'.sections == st.sections + [st.current];
          assert GoodSection(st.current);
        }
      } else {
        RuleWithoutTitle(st, line);
      }
    case LinkLine =>
      LinkLineAppends(st, line);
      ItemsOfGood(line);
      AllGoodAppend(st.current.items, ItemsOf(line));
    case OtherLine =>
      OtherLineIgnored(st, line);
  }

  /** After any prefix of the lines: every finished section has a title, every
      item gathered is well formed, and nothing is finished while the section
      being gathered is still untitled. */
  lemma {:induction false} RunGood(lines: seq<string>)
    ensures Good(Run(lines))
    decreases |lines|
  {
    if |lines| > 0 {
      RunGood(lines[..|lines| - 1]);
      StepGood(Run(lines[..|lines| - 1]), lines[|lines| - 1]);
    }
  }

  /** Every section of the result has a non-empty title, and every item in it
      has a non-empty whitespace-free name and a url starting with "http". */
  lemma ParseWellFormed(lines: seq<string>)
    ensures forall k :: 0 <= k < |Parse(lines)| ==> Parse(lines)[k].title != []
    ensures forall k :: 0 <= k < |Parse(lines)| ==> AllGood(Parse(lines)[k].items)
  {
    RunGood(lines);
  }

  /** Reading one more line never reorders or drops a finished section. */
  lemma StepExtends(st: State, line: string)
    ensures st.sections <= Step(st, line).sections
  {
    match Classify(Trim(line))
    case RuleLine =>
      if st.prev.Some? && Trim(st.prev.value) != [] {
        RuleOpensSection(st, line);
      } else {
        RuleWithoutTitle(st, line);
      }
    case LinkLine =>
      LinkLineAppends(st, line);
    case OtherLine =>
      OtherLineIgnored(st, line);
  }

  lemma RunStepExtends(lines: seq<string>)
    requires |lines| > 0
    ensures Run(lines[..|lines| - 1]).sections <= Run(lines).sections
  {
    StepExtends(Run(lines[..|lines| - 1]), lines[|lines| - 1]);
  }

  lemma PrefixTransitive(a: seq<Section>, b: seq<Section>, c: seq<Section>)
    requires a <= b && b <= c
    ensures a <= c
  {
    assert a == b[..|a|] && b == c[..|b|];
    assert c[..|b|][..|a|] == c[..|a|];
  }

  /** The sections finished after a prefix of the lines lead the sections
      finished after all of them: sections come out in the order of the rules
      that opened them. */
  lemma {:induction false} RunExtends(lines: seq<string>, n: nat)
    requires n <= |lines|
    ensures Run(lines[..n]).sections <= Run(lines).sections
    decreases |lines| - n
  {
    if n < |lines| {
      var init := lines[..|lines| - 1];
      RunExtends(init, n);
      assert init[..n] == lines[..n];
      RunStepExtends(lines);
      PrefixTransitive(Run(lines[..n]).sections, Run(init).sections, Run(lines).sections);
    } else {
      assert lines[..n] == lines;
    }
  }

  /** The line above position `i` is a title: line `i` is the rule and the line
      above it is not blank. */
  predicate Opens(lines: seq<string>, i: int) {
    0 < i < |lines| && IsRule(Trim(lines[i])) && Trim(lines[i - 1]) != []
  }

  /** The remembered previous line is the last line read. */
  lemma RunPrev(lines: seq<string>)
    ensures Run(lines).prev == if |lines| == 0 then None else Some(lines[|lines| - 1])
  {
  }

  /** As long as no rule has opened a section, nothing is finished and the
      section being gathered has no title. */
  lemma {:induction false} RunUntitled(lines: seq<string>)
    requires forall i :: 0 <= i < |lines| ==> !Opens(lines, i)
    ensures Run(lines).sections == []
    ensures Run(lines).current.title == []
    decreases |lines|
  {
    if |lines| > 0 {
      var m := |lines|;
      var init := lines[..m - 1];
      forall i | 0 <= i < |init| ensures !Opens(init, i) {
        assert !Opens(lines, i);
      }
      RunUntitled(init);
      RunPrev(init);
      if m > 1 {
        assert !Opens(lines, m - 1);
        assert init[m - 2] == lines[m - 2];
      }
    }
  }

  /** Items gathered before any rule has opened a section are never shown:
      without such a rule the result is empty. */
  lemma UntitledNeverEmitted(lines: seq<string>)
    requires forall i :: 0 <= i < |lines| ==> !Opens(lines, i)
    ensures Parse(lines) == []
  {
    RunUntitled(lines);
  }

  /** A file with no twelve-dash rule and no line mentioning "http" shows only
      its name. */
  lemma NoStructureOnlyFileName(text: string, fileName: string)
    requires forall i :: 0 <= i < |Split(text, '\n')| ==>
      !IsRule(Trim(Split(text, '\n')[i])) && !Contains(Trim(Split(text, '\n')[i]), Scheme)
    ensures Links(text, fileName) == [FileEntry(fileName)]
  {
    var lines := Split(text, '\n');
    forall i | 0 <= i < |lines| ensures !Opens(lines, i) { }
    UntitledNeverEmitted(lines);
  }
}
