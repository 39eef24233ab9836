/** The search for parameters by several tokens, over sorted lists. */
module ParameterSearch {
  import opened Wrappers

  /** `SearchParamTableVersion` */
  datatype Parameter = Parameter(param: int, version: int)

  predicate IsParameter(p: Parameter) {
    0 <= p.param < 256 && 0 <= p.version < 256
  }

  /** Its order: by table version, then by parameter. */
  predicate Less(a: Parameter, b: Parameter) {
    if a.version != b.version then a.version < b.version else a.param < b.param
  }

  /** The parameter tables of a centre, and the comparisons of text, which are left open. */
  datatype Tables = Tables(
    entry: (int, int) -> Option<(string, string)>,
    iequals: (string, string) -> bool,
    ifind: (string, string) -> bool)

  /** An entry matches by its name or somewhere in its comment. */
  predicate Matches(t: Tables, token: string, p: Parameter) {
    match t.entry(p.version, p.param)
    case None => false
    case Some((name, comment)) => t.iequals(name, token) || t.ifind(comment, token)
  }

  ghost predicate Ordered(s: seq<Parameter>) {
    forall i: nat, j: nat :: i < j < |s| ==> Less(s[i], s[j])
  }

  /** `s` lists the parameters that have the property, each once and in order. */
  ghost predicate Lists(s: seq<Parameter>, has: Parameter -> bool) {
    Ordered(s) && forall p: Parameter :: p in s <==> IsParameter(p) && has(p)
  }

  /** Only one list does so. */
  lemma {:induction false} ListIsUnique(a: seq<Parameter>, b: seq<Parameter>)
    requires Ordered(a) && Ordered(b) && forall p: Parameter :: p in a <==> p in b
    ensures a == b
    decreases |a|
  {
    if a != [] || b != [] {
      assert a != [] ==> a[0] in b;
      assert b != [] ==> b[0] in a;
      assert a[0] == b[0];
      forall p: Parameter
        ensures p in a[1..] <==> p in b[1..]
      {
        assert p in a <==> p == a[0] || p in a[1..];
        assert p in b <==> p == b[0] || p in b[1..];
      }
      ListIsUnique(a[1..], b[1..]);
    }
  }

  /** The table has an entry for the parameter whose name is the token, or whose comment has it in it. */
  ghost predicate HasText(t: Tables, token: string, p: Parameter) {
    exists name: string, comment: string ::
      t.entry(p.version, p.param) == Some((name, comment)) && (t.iequals(name, token) || t.ifind(comment, token))
  }

  lemma MatchesIs(t: Tables, token: string, p: Parameter)
    ensures Matches(t, token, p) <==> HasText(t, token, p)
  {
  }

  /** `approx_match_parameter` */
  method ApproxMatch(t: Tables, token: string) returns (result: seq<Parameter>)
    ensures Lists(result, p => Matches(t, token, p))
  {
    result := [];
    for version := 0 to 256
      invariant Ordered(result)
      invariant forall p: Parameter :: p in result <==> IsParameter(p) && p.version < version && Matches(t, token, p)
    {
      for param := 0 to 256
        invariant Ordered(result)
        invariant forall p: Parameter :: p in result <==>
                    IsParameter(p) && Less(p, Parameter(param, version)) && Matches(t, token, p)
      {
        if Matches(t, token, Parameter(param, version)) {
          result := result + [Parameter(param, version)];
        }
      }
    }
  }

  /** `std::ranges::set_intersection` */
  function Intersection(a: seq<Parameter>, b: seq<Parameter>): (r: seq<Parameter>)
    decreases |a| + |b|
  {
    if a == [] || b == [] then []
    else if Less(a[0], b[0]) then Intersection(a[1..], b)
    else if Less(b[0], a[0]) then Intersection(a, b[1..])
    else [a[0]] + Intersection(a[1..], b[1..])
  }

  /** `std::ranges::set_difference` */
  function Difference(a: seq<Parameter>, b: seq<Parameter>): (r: seq<Parameter>)
    decreases |a| + |b|
  {
    if a == [] then []
    else if b == [] || Less(a[0], b[0]) then [a[0]] + Difference(a[1..], b)
    else if Less(b[0], a[0]) then Difference(a, b[1..])
    else Difference(a[1..], b[1..])
  }

  lemma NotInRest(p: Parameter, s: seq<Parameter>)
    requires Ordered(s) && s != [] && (Less(p, s[0]) || p == s[0])
    ensures p !in s[1..]
  {
  }

  lemma HeadOrRest(p: Parameter, s: seq<Parameter>)
    ensures s != [] ==>
              (p in s <==> p == s[0] || p in s[1..])
  {
  }

  lemma {:induction false} IntersectionHas(a: seq<Parameter>, b: seq<Parameter>, p: Parameter)
    requires Ordered(a) && Ordered(b)
    ensures p in Intersection(a, b) <==> p in a && p in b
    decreases |a| + |b|
  {
    if a != [] && b != [] {
      HeadOrRest(p, a);
      HeadOrRest(p, b);
      NotInRest(a[0], a);
      NotInRest(b[0], b);
      if Less(a[0], b[0]) {
        NotInRest(a[0], b);
        IntersectionHas(a[1..], b, p);
      } else if Less(b[0], a[0]) {
        NotInRest(b[0], a);
        IntersectionHas(a, b[1..], p);
      } else {
        assert a[0] == b[0];
        IntersectionHas(a[1..], b[1..], p);
      }
    }
  }

  lemma {:induction false} DifferenceHas(a: seq<Parameter>, b: seq<Parameter>, p: Parameter)
    requires Ordered(a) && Ordered(b)
    ensures p in Difference(a, b) <==> p in a && p !in b
    decreases |a| + |b|
  {
    if a != [] {
      HeadOrRest(p, a);
      NotInRest(a[0], a);
      if b == [] {
        DifferenceHas(a[1..], b, p);
      } else {
        HeadOrRest(p, b);
        NotInRest(b[0], b);
        if Less(a[0], b[0]) {
          NotInRest(a[0], b);
          DifferenceHas(a[1..], b, p);
        } else if Less(b[0], a[0]) {
          NotInRest(b[0], a);
          DifferenceHas(a, b[1..], p);
        } else {
          assert a[0] == b[0];
          DifferenceHas(a[1..], b[1..], p);
        }
      }
    }
  }

  /** A list put together from a head and later elements is in order. */
  lemma ConsOrdered(p: Parameter, rest: seq<Parameter>)
    requires Ordered(rest) && forall q: Parameter :: q in rest ==> Less(p, q)
    ensures Ordered([p] + rest)
  {
  }

  lemma {:induction false} IntersectionOrdered(a: seq<Parameter>, b: seq<Parameter>)
    requires Ordered(a) && Ordered(b)
    ensures Ordered(Intersection(a, b))
    decreases |a| + |b|
  {
    if a != [] && b != [] {
      if Less(a[0], b[0]) {
        IntersectionOrdered(a[1..], b);
      } else if Less(b[0], a[0]) {
        IntersectionOrdered(a, b[1..]);
      } else {
        IntersectionOrdered(a[1..], b[1..]);
        forall q: Parameter | q in Intersection(a[1..], b[1..])
          ensures Less(a[0], q)
        {
          IntersectionHas(a[1..], b[1..], q);
        }
        ConsOrdered(a[0], Intersection(a[1..], b[1..]));
      }
    }
  }

  lemma {:induction false} DifferenceOrdered(a: seq<Parameter>, b: seq<Parameter>)
    requires Ordered(a) && Ordered(b)
    ensures Ordered(Difference(a, b))
    decreases |a| + |b|
  {
    if a != [] {
      if b == [] || Less(a[0], b[0]) {
        DifferenceOrdered(a[1..], b);
        forall q: Parameter | q in Difference(a[1..], b)
          ensures Less(a[0], q)
        {
          DifferenceHas(a[1..], b, q);
        }
        ConsOrdered(a[0], Difference(a[1..], b));
      } else if Less(b[0], a[0]) {
        DifferenceOrdered(a, b[1..]);
      } else {
        DifferenceOrdered(a[1..], b[1..]);
      }
    }
  }

  predicate Excludes(token: string) {
    |token| >= 2 && token[0] == '\'' && token[1] == '-'
  }

  /** The tokens that are not empty. */
  function Given(tokens: seq<string>): (given: seq<string>) {
    if tokens == [] then []
    else
      var last := tokens[|tokens| - 1];
      Given(tokens[..|tokens| - 1]) + if last == "" then [] else [last]
  }

  /** A parameter is wanted if it matches the first token given, each later plain token, and none of the tokens that
      a later "'-" puts out. */
  ghost predicate Wanted(t: Tables, tokens: seq<string>, p: Parameter) {
    var given := Given(tokens);
    && given != []
    && Matches(t, given[0], p)
    && forall i: nat :: 0 < i < |given| ==>
         if Excludes(given[i]) then !Matches(t, given[i][2..], p) else Matches(t, given[i], p)
  }

  lemma GivenStep(tokens: seq<string>, i: nat)
    requires i < |tokens|
    ensures Given(tokens[..i + 1]) == Given(tokens[..i]) + if tokens[i] == "" then [] else [tokens[i]]
  {
    assert tokens[..i + 1][..i] == tokens[..i];
  }

  /** How one more token changes what is wanted. */
  lemma WantedStep(t: Tables, tokens: seq<string>, i: nat, p: Parameter)
    requires i < |tokens|
    ensures tokens[i] == "" ==> (Wanted(t, tokens[..i + 1], p) <==> Wanted(t, tokens[..i], p))
    ensures tokens[i] != "" && Given(tokens[..i]) == [] ==>
              (Wanted(t, tokens[..i + 1], p) <==> Matches(t, tokens[i], p))
    ensures tokens[i] != "" && Given(tokens[..i]) != [] ==>
              (Wanted(t, tokens[..i + 1], p) <==> Wanted(t, tokens[..i], p) && Keeps(t, tokens[i], p))
  {
    GivenStep(tokens, i);
    var before, after := Given(tokens[..i]), Given(tokens[..i + 1]);
    if tokens[i] != "" && before != [] {
      assert after[|before|] == tokens[i];
      assert forall j: nat :: j < |before| ==> after[j] == before[j];
    }
  }

  predicate Keeps(t: Tables, token: string, p: Parameter) {
    if Excludes(token) then !Matches(t, token[2..], p) else Matches(t, token, p)
  }

  /** What each token does: an empty one nothing, the first one given selects, a later one narrows, and a later one
      that begins with "'-" takes its matches out. */
  lemma TokensNarrow(t: Tables, tokens: seq<string>, token: string, p: Parameter)
    requires token != ""
    ensures Wanted(t, [token], p) <==> HasText(t, token, p)
    ensures Wanted(t, tokens + [""], p) <==> Wanted(t, tokens, p)
    ensures (forall i: nat :: i < |tokens| ==> tokens[i] == "") ==>
              (Wanted(t, tokens + [token], p) <==> HasText(t, token, p))
    ensures (exists i: nat :: i < |tokens| && tokens[i] != "") ==>
              && (Wanted(t, tokens + ["'-" + token], p) <==> Wanted(t, tokens, p) && !HasText(t, token, p))
              && (!("'-" <= token) ==>
                    (Wanted(t, tokens + [token], p) <==> Wanted(t, tokens, p) && HasText(t, token, p)))
  {
    MatchesIs(t, token, p);
    GivenSome(tokens);
    Appended(t, [], token, p);
    Appended(t, tokens, "", p);
    Appended(t, tokens, token, p);
    Appended(t, tokens, "'-" + token, p);
    assert [] + [token] == [token];
    assert ("'-" + token)[2..] == token && ("'-" + token)[0] == '\'' && ("'-" + token)[1] == '-';
    assert Excludes(token) <==> "'-" <= token;
  }

  lemma Appended(t: Tables, tokens: seq<string>, token: string, p: Parameter)
    ensures token == "" ==> (Wanted(t, tokens + [token], p) <==> Wanted(t, tokens, p))
    ensures token != "" && Given(tokens) == [] ==> (Wanted(t, tokens + [token], p) <==> Matches(t, token, p))
    ensures token != "" && Given(tokens) != [] ==>
              (Wanted(t, tokens + [token], p) <==> Wanted(t, tokens, p) && Keeps(t, token, p))
  {
    var all := tokens + [token];
    WantedStep(t, all, |tokens|, p);
    assert all[..|tokens|] == tokens && all[..|tokens| + 1] == all;
  }

  lemma {:induction false} GivenSome(tokens: seq<string>)
    ensures Given(tokens) == [] <==> forall i: nat :: i < |tokens| ==> tokens[i] == ""
  {
    if tokens != [] {
      GivenSome(tokens[..|tokens| - 1]);
    }
  }

  /** Once nothing is wanted, later tokens do not change that. */
  lemma {:induction false} NothingWanted(t: Tables, tokens: seq<string>, i: nat, p: Parameter)
    requires i <= |tokens| && Given(tokens[..i]) != [] && !Wanted(t, tokens[..i], p)
    ensures !Wanted(t, tokens, p)
    decreases |tokens| - i
  {
    if i == |tokens| {
      assert tokens[..i] == tokens;
    } else {
      WantedStep(t, tokens, i, p);
      GivenStep(tokens, i);
      NothingWanted(t, tokens, i + 1, p);
    }
  }

  ghost predicate Finds(t: Tables, tokens: seq<string>, found: seq<Parameter>) {
    Ordered(found) && forall p: Parameter :: p in found <==> IsParameter(p) && Wanted(t, tokens, p)
  }

  /** One later token: the lists are subtracted or intersected. */
  method Narrow(t: Tables, token: string, found: seq<Parameter>) returns (kept: seq<Parameter>)
    requires Ordered(found) && forall p: Parameter :: p in found ==> IsParameter(p)
    ensures Ordered(kept) && forall p: Parameter :: p in kept <==> p in found && Keeps(t, token, p)
  {
    if Excludes(token) {
      var out := ApproxMatch(t, token[2..]);
      kept := Difference(found, out);
      DifferenceOrdered(found, out);
      forall p: Parameter
        ensures p in kept <==> p in found && p !in out
      {
        DifferenceHas(found, out, p);
      }
    } else {
      var also := ApproxMatch(t, token);
      kept := Intersection(found, also);
      IntersectionOrdered(found, also);
      forall p: Parameter
        ensures p in kept <==> p in found && p in also
      {
        IntersectionHas(found, also, p);
      }
    }
  }

  /** `multitoken_approx_match_parameter`: leaving early and skipping empty tokens make no difference. */
  method MultiTokenMatch(t: Tables, tokens: seq<string>) returns (found: seq<Parameter>)
    ensures Finds(t, tokens, found)
  {
    found := [];
    var firstCheck := true;
    for i := 0 to |tokens|
      invariant firstCheck <==> Given(tokens[..i]) == []
      invariant Finds(t, tokens[..i], found)
    {
      var token := tokens[i];
      GivenStep(tokens, i);
      forall p: Parameter {
        WantedStep(t, tokens, i, p);
      }
      if !firstCheck {
        if found == [] {
          forall p: Parameter | IsParameter(p)
            ensures !Wanted(t, tokens, p)
          {
            assert p !in found;
            NothingWanted(t, tokens, i, p);
          }
          return;
        }
        if token == "" {
          continue;
        }
        found := Narrow(t, token, found);
      } else {
        if token == "" {
          continue;
        }
        found := ApproxMatch(t, token);
        firstCheck := false;
      }
    }
    assert tokens[..|tokens|] == tokens;
  }
}
