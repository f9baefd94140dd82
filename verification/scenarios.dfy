/**
  Small inputs that pin down how the parser treats the cases its heuristics
  distinguish: a titled section, a link line under a rule, a lone url, an
  empty section in the middle of a file.
 */
module Scenarios {
  import opened Wrappers
  import opened Text
  import opened LinkParser

  lemma RunSnoc(lines: seq<string>, x: string, all: seq<string>)
    requires all == lines + [x]
    ensures Run(all) == Step(Run(lines), x)
  {
    assert all[..|lines|] == lines;
  }

  /** The twelve-dash line is a rule line as it stands. */
  lemma RuleTextIsRule()
    ensures Trim(RuleText) == RuleText
    ensures IsRule(Trim(RuleText))
  {
    TrimFixed(RuleText);
    RuleIsTwelveDashes(RuleText);
  }

  /** `name`, any run of whitespace, then `url` yields exactly the item
      (name, url): tabs and several spaces separate fields like one space. */
  lemma LinkLineItemSpaced(name: string, sp: string, url: string)
    requires name != [] && NoSpace(name)
    requires IsSpaceRun(sp)
    requires IsUrl(url) && NoSpace(url)
    ensures Trim(name + sp + url) == name + sp + url
    ensures !IsRule(Trim(name + sp + url))
    ensures Trim(name + sp + url) != [] && Contains(Trim(name + sp + url), Scheme)
    ensures ItemsOf(name + sp + url) == [Item(name, url)]
  {
    var t := name + sp + url;
    TrimFixed(t) by {
      assert t[0] == name[0];
      assert t[|t| - 1] == url[|url| - 1];
    }
    assert Spaced([name, url], [sp]) == t by {
      assert Spaced([name, url], [sp]) == name + sp + Spaced([url], []);
    }
    FieldsOfWords([name, url], [sp]);
    assert IsSpace(t[|name|]) by { assert t[|name|] == sp[0]; }
    RuleIsTwelveDashes(t);
    assert t[|name| + |sp|..][..|Scheme|] == url[..|Scheme|];
    assert OccursAt(t, Scheme, |name| + |sp|);
    var parts := Fields(t);
    assert parts[1..] == [url];
    assert FindUrl(parts[1..]) == Some(url);
    TrimFixed(name);
  }

  /** `name url`, with a single space, yields exactly the item (name, url). */
  lemma LinkLineItem(name: string, url: string)
    requires name != [] && NoSpace(name)
    requires IsUrl(url) && NoSpace(url)
    ensures Trim(name + " " + url) == name + " " + url
    ensures !IsRule(Trim(name + " " + url))
    ensures Trim(name + " " + url) != [] && Contains(Trim(name + " " + url), Scheme)
    ensures ItemsOf(name + " " + url) == [Item(name, url)]
  {
    LinkLineItemSpaced(name, " ", url);
  }

  /** A line holding a url and nothing else yields no item: the url is taken as
      the name and no later field is left to be the url. */
  lemma LoneUrlDropped(url: string)
    requires IsUrl(url) && NoSpace(url)
    ensures ItemsOf(url) == []
  {
    TrimFixed(url);
    FieldsOfWord(url);
    assert Fields(url)[1..] == [];
  }

  /** Whatever the first line holds, it finishes nothing and leaves the
      section being gathered untitled. */
  lemma FirstLine(line: string)
    ensures Run([line]).sections == [] && Run([line]).current.title == []
    ensures Run([line]).prev == Some(line)
  {
    RunSnoc([], line, [line]);
    var t := Trim(line);
    if IsRule(t) {
      RuleWithoutTitle(Start, line);
    } else if t != [] && Contains(t, Scheme) {
      LinkLineAppends(Start, line);
    } else {
      OtherLineIgnored(Start, line);
    }
  }

  /** A rule under a non-blank first line opens a section titled with it. */
  lemma TitleRule(title: string)
    requires Trim(title) != []
    ensures Run([title, RuleText]) == State([], Section(Trim(title), []), Some(RuleText))
  {
    FirstLine(title);
    RuleTextIsRule();
    RunSnoc([title], RuleText, [title, RuleText]);
    RuleOpensSection(Run([title]), RuleText);
  }

  lemma TitleRuleLinkRun(title: string, name: string, url: string)
    requires Trim(title) != []
    requires name != [] && NoSpace(name)
    requires IsUrl(url) && NoSpace(url)
    ensures Run([title, RuleText, name + " " + url]) ==
      State([], Section(Trim(title), [Item(name, url)]), Some(name + " " + url))
  {
    var link := name + " " + url;
    TitleRule(title);
    LinkLineItem(name, url);
    RunSnoc([title, RuleText], link, [title, RuleText, link]);
    LinkLineAppends(Run([title, RuleText]), link);
  }

  /** A title line, the rule under it and a link line give one section titled
      with the trimmed title, holding that link. */
  lemma TitleRuleLink(title: string, name: string, url: string)
    requires Trim(title) != []
    requires name != [] && NoSpace(name)
    requires IsUrl(url) && NoSpace(url)
    ensures Parse([title, RuleText, name + " " + url]) == [Section(Trim(title), [Item(name, url)])]
  {
    TitleRuleLinkRun(title, name, url);
    var st := Run([title, RuleText, name + " " + url]);
    var r := Finish(st);
    assert |r| == 1 && r[0] == st.current;
  }

  /** `Category X`, the rule and one link line, as concrete strings. */
  lemma CategoryExample()
    ensures Parse(["Category X", "------------", "toolD http://x"]) ==
      [Section("Category X", [Item("toolD", "http://x")])]
  {
    var title, name, url := "Category X", "toolD", "http://x";
    TrimFixed(title);
    assert StartsWith(url, Scheme);
    assert NoSpace(name) && NoSpace(url);
    assert name + " " + url == "toolD http://x";
    assert RuleText == "------------";
    TitleRuleLink(title, name, url);
  }

  /** The direct-link example: name first, url second. */
  lemma DirectLinkExample()
    ensures ItemsOf("toolA" + " " + "https://example.com/a.zip") == [Item("toolA", "https://example.com/a.zip")]
  {
    var name, url := "toolA", "https://example.com/a.zip";
    assert StartsWith(url, Scheme);
    assert NoSpace(name) && NoSpace(url);
    LinkLineItem(name, url);
  }

  lemma LinkLineAboveRuleRun(title: string, name: string, url: string)
    requires Trim(title) != []
    requires name != [] && NoSpace(name)
    requires IsUrl(url) && NoSpace(url)
    ensures Run([title, RuleText, name + " " + url, RuleText]) ==
      State([Section(Trim(title), [Item(name, url)])], Section(name + " " + url, []), Some(RuleText))
  {
    var link := name + " " + url;
    TitleRuleLinkRun(title, name, url);
    LinkLineItem(name, url);
    RuleTextIsRule();
    RunSnoc([title, RuleText, link], RuleText, [title, RuleText, link, RuleText]);
    RuleOpensSection(Run([title, RuleText, link]), RuleText);
  }

  /** A rule directly under a link line still makes that line a title: the
      link goes to the section above, and a new (here empty, so dropped)
      section is opened with the whole link line as its title. */
  lemma LinkLineAboveRule(title: string, name: string, url: string)
    requires Trim(title) != []
    requires name != [] && NoSpace(name)
    requires IsUrl(url) && NoSpace(url)
    ensures Run([title, RuleText, name + " " + url, RuleText]).current == Section(name + " " + url, [])
    ensures Parse([title, RuleText, name + " " + url, RuleText]) == [Section(Trim(title), [Item(name, url)])]
  {
    LinkLineAboveRuleRun(title, name, url);
  }

  lemma TitleRuleOther(a: string, b: string)
    requires Trim(a) != []
    requires !IsRule(Trim(b)) && ItemsOf(b) == []
    ensures Run([a, RuleText, b]) == State([], Section(Trim(a), []), Some(b))
  {
    TitleRule(a);
    RunSnoc([a, RuleText], b, [a, RuleText, b]);
    var s2 := Run([a, RuleText]);
    if Trim(b) != [] && Contains(Trim(b), Scheme) {
      LinkLineAppends(s2, b);
    } else {
      OtherLineIgnored(s2, b);
    }
  }

  /** A section closed by the next rule is shown even with no items, while the
      last section is shown only with items. */
  lemma EmptySectionMidFile(a: string, b: string, name: string, url: string)
    requires Trim(a) != [] && Trim(b) != []
    requires !IsRule(Trim(b)) && ItemsOf(b) == []
    requires name != [] && NoSpace(name)
    requires IsUrl(url) && NoSpace(url)
    ensures Parse([a, RuleText, b, RuleText, name + " " + url]) ==
      [Section(Trim(a), []), Section(Trim(b), [Item(name, url)])]
    ensures Parse([a, RuleText, b, RuleText]) == [Section(Trim(a), [])]
  {
    var link := name + " " + url;
    RuleTextIsRule();
    LinkLineItem(name, url);
    RunSnoc([a, RuleText, b], RuleText, [a, RuleText, b, RuleText]);
    RunSnoc([a, RuleText, b, RuleText], link, [a, RuleText, b, RuleText, link]);
    var s3 := Run([a, RuleText, b]);
    TitleRuleOther(a, b);
    var s4 := Run([a, RuleText, b, RuleText]);
    RuleOpensSection(s3, RuleText);
    assert s4.sections == [Section(Trim(a), [])] && s4.current == Section(Trim(b), []);
    var s5 := Run([a, RuleText, b, RuleText, link]);
    LinkLineAppends(s4, link);
    assert s5.sections == s4.sections && s5.current == Section(Trim(b), [Item(name, url)]);
  }
}
