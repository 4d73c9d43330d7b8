/** The rules of one request method: registration, the redirect for directories, and dispatch. */
module RouteTable {
  import opened Basics
  import opened RoutePatterns
  import opened RouteNodes
  import opened RouteCompress
  import opened RouteTrie

  /** The rule index that stands for a redirect to the url with a trailing slash. */
  const REDIRECT := 1

  predicate IsDirectory(rule: string) {
    |rule| > 1 && rule[|rule| - 1] == '/'
  }

  function WithoutSlash(rule: string): string
    requires IsDirectory(rule)
  {
    rule[..|rule| - 1]
  }

  /** A name of a hole ends in `>`, so a final slash is a token of its own. */
  lemma {:induction false} SlashIsToken(s: string)
    requires WellFormed(s) && s != "" && s[|s| - 1] == '/'
    ensures WellFormed(s[..|s| - 1]) && Tokens(s) == Tokens(s[..|s| - 1]) + [Lit('/')]
    decreases |s|
  {
    var init := s[..|s| - 1];
    if |s| == 1 {
      assert Tokens(s[1..]) == [];
    } else if s[0] == '<' {
      HoleKept(s);
      var n := HoleAt(s).value.1;
      SlashIsToken(s[n..]);
      assert s[n..][..|s| - n - 1] == init[n..];
    } else {
      SlashIsToken(s[1..]);
      assert s[1..][..|s| - 2] == init[1..];
    }
  }

  lemma HoleKept(s: string)
    requires HoleAt(s).Some? && s[|s| - 1] == '/'
    ensures HoleAt(s).value.1 < |s| && HoleAt(s[..|s| - 1]) == HoleAt(s)
  {
    NameKept(s, "<int>");
    NameKept(s, "<uint>");
    NameKept(s, "<float>");
    NameKept(s, "<double>");
    NameKept(s, "<str>");
    NameKept(s, "<string>");
    NameKept(s, "<path>");
    hide StartsWith;
  }

  lemma NameKept(s: string, name: string)
    requires s != "" && s[|s| - 1] == '/' && name != "" && name[|name| - 1] == '>'
    ensures StartsWith(s, name) <==> StartsWith(s[..|s| - 1], name)
    ensures StartsWith(s, name) ==> |name| < |s|
  {
    if |name| < |s| {
      assert s[..|s| - 1][..|name|] == s[..|name|];
    } else if |name| == |s| {
      assert s[..|name|] == s && s != name;
    }
  }

  /** The patterns with their rules after registering `rules`; positions 0 and 1 are reserved. */
  function AddedBy(rules: seq<string>): map<seq<Token>, nat>
    requires AllWellFormed(rules)
  {
    if |rules| <= 2 then map[]
    else
      var k := |rules| - 1;
      var m := AddedBy(rules[..k])[Tokens(rules[k]) := k];
      if IsDirectory(rules[k]) then
        SlashIsToken(rules[k]);
        m[Tokens(WithoutSlash(rules[k])) := REDIRECT]
      else m
  }

  predicate AllWellFormed(rules: seq<string>) {
    forall i :: 2 <= i < |rules| ==> WellFormed(rules[i])
  }

  /** No registration met a pattern that was already there. */
  predicate NoClash(rules: seq<string>)
    requires AllWellFormed(rules)
  {
    |rules| <= 2 ||
    var k := |rules| - 1;
    && NoClash(rules[..k]) && Tokens(rules[k]) !in AddedBy(rules[..k])
    && (IsDirectory(rules[k]) ==>
          (SlashIsToken(rules[k]); Tokens(WithoutSlash(rules[k])) !in AddedBy(rules[..k])))
  }

  /** Rule number `i` matches the url as it stands. */
  predicate Serves(strtod: Strtod, rule: string, url: string)
  {
    WellFormed(rule) && Match(strtod, Tokens(rule), url, 0, NO_PARAMS).Some?
  }

  /** Rule number `i` is a directory that matches the url with a slash missing. */
  predicate Redirects(strtod: Strtod, rule: string, url: string)
  {
    IsDirectory(rule) && Serves(strtod, WithoutSlash(rule), url)
  }

  /** Every pattern in the map comes from a rule. */
  lemma {:induction false} AddedFrom(rules: seq<string>, ts: seq<Token>)
    requires AllWellFormed(rules) && NoClash(rules) && ts in AddedBy(rules)
    ensures var r := AddedBy(rules)[ts];
            || (2 <= r < |rules| && ts == Tokens(rules[r]))
            || (&& r == REDIRECT
                && exists i :: && 2 <= i < |rules| && IsDirectory(rules[i]) && WellFormed(WithoutSlash(rules[i]))
                               && ts == Tokens(WithoutSlash(rules[i])))
    decreases |rules|
  {
    hide Tokens, WellFormed;
    var k := |rules| - 1;
    if IsDirectory(rules[k]) {
      SlashIsToken(rules[k]);
    }
    if IsDirectory(rules[k]) && ts == Tokens(WithoutSlash(rules[k])) {
    } else if ts != Tokens(rules[k]) {
      AddedFrom(rules[..k], ts);
      var r := AddedBy(rules[..k])[ts];
      if !(2 <= r < k && ts == Tokens(rules[..k][r])) {
        var i :| 2 <= i < k && IsDirectory(rules[..k][i]) && WellFormed(WithoutSlash(rules[..k][i]))
                 && ts == Tokens(WithoutSlash(rules[..k][i]));
        assert IsDirectory(rules[i]) && WellFormed(WithoutSlash(rules[i]));
      }
    }
  }

  /** Every rule is in the map, and every directory without its slash. */
  lemma {:induction false} AddedAll(rules: seq<string>, i: nat)
    requires AllWellFormed(rules) && NoClash(rules) && 2 <= i < |rules|
    ensures Tokens(rules[i]) in AddedBy(rules) && AddedBy(rules)[Tokens(rules[i])] == i
    ensures IsDirectory(rules[i]) ==>
              && WellFormed(WithoutSlash(rules[i])) && Tokens(WithoutSlash(rules[i])) in AddedBy(rules)
              && AddedBy(rules)[Tokens(WithoutSlash(rules[i]))] == REDIRECT
    decreases |rules|
  {
    hide Tokens, WellFormed;
    var k := |rules| - 1;
    if IsDirectory(rules[i]) {
      SlashIsToken(rules[i]);
    }
    if IsDirectory(rules[k]) {
      SlashIsToken(rules[k]);
    }
    if i < k {
      AddedAll(rules[..k], i);
    }
  }

  // ---------------------------------------------------------------- dispatch

  datatype Dispatch = NotFound | Redirect | Handle(rule: nat, params: Params) | Corrupted

  /** What a url must lead to: a directory rule that matches it without its slash comes first, then
      the earliest registered rule that matches. */
  ghost predicate RightDispatch(strtod: Strtod, rules: seq<string>, url: string, d: Dispatch) {
    match d
    case Redirect => exists i :: 2 <= i < |rules| && Redirects(strtod, rules[i], url)
    case Handle(r, params) =>
      && (forall i :: 2 <= i < |rules| ==> !Redirects(strtod, rules[i], url))
      && 2 <= r < |rules| && WellFormed(rules[r]) && Match(strtod, Tokens(rules[r]), url, 0, NO_PARAMS) == Some(params)
      && (forall i :: 2 <= i < r ==> !Serves(strtod, rules[i], url))
    case NotFound =>
      forall i :: 2 <= i < |rules| ==> !Redirects(strtod, rules[i], url) && !Serves(strtod, rules[i], url)
    case Corrupted => false
  }

  /** From the lowest rule among the added patterns to the right dispatch. */
  lemma FoundIsRight(strtod: Strtod, rules: seq<string>, url: string, found: nat, params: Params)
    requires |rules| >= 2 && AllWellFormed(rules) && NoClash(rules)
    requires found == 0 <==> forall ts :: ts in AddedBy(rules) ==> Match(strtod, ts, url, 0, NO_PARAMS).None?
    requires found != 0 ==> exists ts :: ts in AddedBy(rules) && AddedBy(rules)[ts] == found
                                         && Match(strtod, ts, url, 0, NO_PARAMS) == Some(params)
    requires forall ts :: ts in AddedBy(rules) && Match(strtod, ts, url, 0, NO_PARAMS).Some? ==>
             0 < found <= AddedBy(rules)[ts]
    ensures found < |rules|
    ensures RightDispatch(strtod, rules, url,
                          if found == 0 then NotFound
                          else if found == REDIRECT then Redirect else Handle(found, params))
  {
    hide Tokens, WellFormed, Match, AddedBy, NoClash;
    forall i | 2 <= i < |rules|
      ensures Serves(strtod, rules[i], url) ==> 0 < found <= i
      ensures Redirects(strtod, rules[i], url) ==> found == REDIRECT
    {
      AddedAll(rules, i);
    }
    if found != 0 {
      var ts :| ts in AddedBy(rules) && AddedBy(rules)[ts] == found
          && Match(strtod, ts, url, 0, NO_PARAMS) == Some(params);
      AddedFrom(rules, ts);
    }
  }

  /** The rules of one method with their trie (`PerMethod`). */
  class MethodRoutes {
    var rules: seq<string>
    const trie: Trie

    ghost predicate Valid()
      reads this, trie
    {
      && trie.Valid() && |rules| >= 2 && AllWellFormed(rules) && NoClash(rules)
      && trie.added == AddedBy(rules)
    }

    constructor (strtod: Strtod)
      ensures Valid() && fresh(trie) && trie.Unoptimized() && trie.strtod == strtod && rules == ["", ""]
    {
      rules := ["", ""];
      trie := new Trie(strtod);
    }

    /** Register a rule.  False is the exception "handler already exists". */
    method AddRule(rule: string) returns (ok: bool)
      requires Valid() && trie.Unoptimized() && WellFormed(rule) && |rules| < 0x1_0000
      modifies this, trie
      ensures AllWellFormed(old(rules) + [rule]) && (ok <==> NoClash(old(rules) + [rule]))
      ensures ok ==> Valid() && trie.Unoptimized() && rules == old(rules) + [rule]
    {
      hide Tokens, WellFormed;
      ghost var was := rules;
      rules := rules + [rule];
      assert rules[..|rules| - 1] == was;
      if IsDirectory(rule) {
        SlashIsToken(rule);
      }
      ok := trie.Add(rule, (|rules| - 1) % 0x1_0000);
      if ok && IsDirectory(rule) {
        ok := trie.Add(WithoutSlash(rule), REDIRECT);
      }
    }

    /** Check and compress the trie; what the routes mean stays. */
    method Validate() returns (ok: bool)
      requires Valid()
      modifies trie
      ensures Valid() && rules == old(rules)
      ensures ok <==> old(IsSimpleNode(trie.nodes, 0))
    {
      ok := trie.Validate();
    }

    /** Dispatch a url, before or after the trie is compressed. */
    method Dispatch(url: string) returns (d: Dispatch)
      requires Valid()
      ensures RightDispatch(trie.strtod, rules, url, d)
    {
      hide Tokens, WellFormed, Match, RightDispatch, AddedBy, NoClash;
      var found, params := trie.Find(url);
      FoundIsRight(trie.strtod, rules, url, found, params);
      if found == 0 {
        d := NotFound;
      } else if found >= |rules| {
        d := Corrupted;
      } else if found == REDIRECT {
        d := Redirect;
      } else {
        d := Handle(found, params);
      }
    }
  }
}
