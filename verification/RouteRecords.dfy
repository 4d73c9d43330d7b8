/** The routes of the server, from the text of a rule to the dispatch of a url. */
module RouteRecords {
  import opened Basics
  import opened RoutePatterns
  import opened RouteHoles
  import opened RouteTrie
  import opened RouteTable

  /** A url through a table with one rule, before or after the trie is compressed. */
  method OneRule(strtod: Strtod, rule: string, url: string, compress: bool) returns (d: Dispatch)
    requires WellFormed(rule)
    ensures RightDispatch(strtod, ["", "", rule], url, d)
  {
    hide Tokens, WellFormed, RightDispatch;
    var table := new MethodRoutes(strtod);
    assert ["", ""] + [rule] == ["", "", rule];
    FirstFits(rule);
    var ok := table.AddRule(rule);
    if compress {
      ok := table.Validate();
    }
    d := table.Dispatch(url);
  }

  lemma FirstFits(rule: string)
    requires WellFormed(rule)
    ensures AllWellFormed(["", "", rule]) && NoClash(["", "", rule])
  {
    hide Tokens, WellFormed;
    var rules := ["", "", rule];
    assert rules[..2] == ["", ""];
    if IsDirectory(rule) {
      SlashIsToken(rule);
    }
  }

  /** A literal prefix and a string hole, as in "/api/records/<string>": exactly the urls that go on with
      a non-empty text without a slash are handled, with that text; all others are not found. */
  method RecordRoute(strtod: Strtod, prefix: string, url: string, compress: bool) returns (d: Dispatch)
    requires Literal(prefix)
    ensures d == if |prefix| < |url| && url[..|prefix|] == prefix && '/' !in url[|prefix|..]
                 then Handle(2, Params([], [], [], [url[|prefix|..]])) else NotFound
  {
    hide Match, Tokens, WellFormed;
    var rule := prefix + "<string>";
    assert rule[|rule| - 1] == '>';
    StringRoute(strtod, prefix, "<string>", url);
    d := OneRule(strtod, rule, url, compress);
    assert ["", "", rule][2] == rule;
  }

  /** A rule with a slash at its end: the url without the slash is redirected, unless nothing is left of
      it, the url with it handled, and nothing else is found. */
  method DirectoryRoute(strtod: Strtod, name: string, url: string, compress: bool) returns (d: Dispatch)
    requires Literal(name)
    ensures d == if url == name && name != "" then Redirect
                 else if url == name + "/" then Handle(2, Params([], [], [], [])) else NotFound
  {
    hide Match, Tokens, WellFormed;
    var rule := name + "/";
    LiteralRoute(strtod, rule, url);
    LiteralRoute(strtod, name, url);
    if name != "" {
      assert WithoutSlash(rule) == name;
    }
    d := OneRule(strtod, rule, url, compress);
    assert ["", "", rule][2] == rule;
  }

  /** A rule without holes matches itself. */
  lemma LiteralRoute(strtod: Strtod, rule: string, url: string)
    requires Literal(rule)
    ensures WellFormed(rule) && Tokens(rule) == Lits(rule)
    ensures Match(strtod, Tokens(rule), url, 0, NO_PARAMS) == if url == rule then Some(NO_PARAMS) else None
  {
    LiteralTokens(rule, "");
    assert rule + "" == rule && Lits(rule) + [] == Lits(rule);
    MatchKey(strtod, rule, [], url, 0, NO_PARAMS);
    assert |rule| <= |url| ==> url[0..|rule|] == url[..|rule|];
    assert |rule| == |url| ==> url[..|rule|] == url;
  }
}
