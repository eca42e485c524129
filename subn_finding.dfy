/** A concrete engine for the pattern `b*`, which makes the defect in the literal
    branch of `subn` with `count > 0` concrete: the binding's global substitution
    over `string[:end]` can replace more matches than were counted. */
module SubnFinding {
  import opened Wrappers
  import opened Slicing
  import opened MatchData
  import opened PatternObject

  /** `b*` has no capture groups and no names. */
  const BStar: Pattern := Pattern(0, [])

  /** The end of the run of 'b' that starts at i. */
  function RunEnd(s: string, i: nat): (r: nat)
    requires i <= |s|
    ensures i <= r <= |s|
    decreases |s| - i
  {
    if i < |s| && s[i] == 'b' then RunEnd(s, i + 1) else i
  }

  /** The matches of `b*` from offset i on, with the iteration rule of PCRE2 and of
      Python 3.7+: after a non-empty match the search resumes at its end, where an
      empty match is allowed; after an empty match it resumes one further on. */
  function BStarFrom(s: string, i: nat): seq<seq<Span>>
    requires i <= |s|
    decreases |s| - i
  {
    var j := RunEnd(s, i);
    if j > i then [[Span(i, j)]] + BStarFrom(s, j)
    else [[Span(i, i)]] + (if i < |s| then BStarFrom(s, i + 1) else [])
  }

  /** The generator for `b*` over the window [pos, endpos]. */
  function BStarGenerate(s: string, endpos: nat, pos: nat): seq<seq<Span>> {
    if pos <= endpos <= |s| then BStarFrom(s[..endpos], pos) else []
  }

  /** The matches of `b*` over all of s, as `finditer` wraps them. */
  function BStarMatches(s: string): seq<Match> {
    var records := BStarGenerate(s, |s|, 0);
    seq(|records|, i requires 0 <= i < |records| => Match(BStar, s, 0, |s|, records[i]))
  }

  /** Template expansion for templates without group references: the template itself. */
  function BStarExpand(t: string, m: Match): string {
    t
  }

  /** A global substitution that agrees with the generator: every match replaced
      by the expanded template. */
  function BStarSubstitute(t: string, s: string): (string, int) {
    (Join(SubParts(s, BStarMatches(s), (m: Match) => BStarExpand(t, m), 0)), |BStarMatches(s)|)
  }

  /** Where the run of 'b' that ends at k starts, looking no further left than lo. */
  function RunStart(s: string, lo: nat, k: nat): (r: nat)
    requires lo <= k <= |s|
    ensures lo <= r <= k
    decreases k
  {
    if k > lo && s[k - 1] == 'b' then RunStart(s, lo, k - 1) else k
  }

  /** The single matcher for `b*` over the window [pos, endpos]: greedy from pos, or,
      when only the end is anchored, from the start of the run of 'b' that ends at
      endpos. Anchored at both ends it succeeds only when the window is all 'b'. */
  function BStarMatchAt(s: string, endpos: nat, pos: nat, options: MatchOptions): Option<seq<Span>> {
    if pos <= endpos <= |s| then
      var w := s[..endpos];
      if !options.endAnchored then Some([Span(pos, RunEnd(w, pos))])
      else if !options.anchored then Some([Span(RunStart(w, pos, endpos), endpos)])
      else if RunEnd(w, pos) == endpos then Some([Span(pos, endpos)])
      else None
    else None
  }

  const BStarEngine: Engine := Engine(
    (s: string, endpos: nat, pos: nat, options: MatchOptions) => BStarMatchAt(s, endpos, pos, options),
    (s: string, endpos: nat, pos: nat) => BStarGenerate(s, endpos, pos),
    (t: string, s: string) => BStarSubstitute(t, s),
    (t: string, m: Match) => BStarExpand(t, m))

  /** `finditer` over "abc" yields the four matches (0,0), (1,2), (2,2), (3,3). */
  lemma MatchesOfAbc()
    ensures AllMatches(BStar, BStarEngine, "abc") ==
            [Match(BStar, "abc", 0, 3, [Span(0, 0)]), Match(BStar, "abc", 0, 3, [Span(1, 2)]),
             Match(BStar, "abc", 0, 3, [Span(2, 2)]), Match(BStar, "abc", 0, 3, [Span(3, 3)])]
  {
  }

  /** The engine's single matcher agrees with its generator: an unanchored search
      over the whole subject finds the first match `finditer` yields. */
  lemma BStarSearchIsFirstMatch(s: string)
    requires |s| <= MaxSize
    ensures |AllMatches(BStar, BStarEngine, s)| > 0
    ensures Search(BStar, BStarEngine, s, 0, |s|) == Some(AllMatches(BStar, BStarEngine, s)[0])
  {
    assert s[..|s|] == s;
    assert BStarFrom(s, 0)[0] == [Span(0, RunEnd(s, 0))];
  }

  /** `fullmatch` of `b*` succeeds on "bb" and fails on "ab"; `search` over "abc" finds
      the empty match at 0. */
  lemma SingleMatchesOfBStar()
    ensures FullMatch(BStar, BStarEngine, "bb", 0, 2) == Some(Match(BStar, "bb", 0, 2, [Span(0, 2)]))
    ensures FullMatch(BStar, BStarEngine, "ab", 0, 2) == None
    ensures Search(BStar, BStarEngine, "abc", 0, 3) == Some(Match(BStar, "abc", 0, 3, [Span(0, 0)]))
  {
    assert "bb"[..2] == "bb" && "ab"[..2] == "ab" && "abc"[..3] == "abc";
    assert RunEnd("bb", 0) == 2 && RunEnd("ab", 0) == 0 && RunEnd("abc", 0) == 0;
  }

  /** `SubParts` of a stream that starts with m. */
  lemma SubPartsCons(s: string, m: Match, rest: seq<Match>, f: Match -> string, start: int)
    ensures SubParts(s, [m] + rest, f, start) ==
            [Slice(s, start, GroupSpan(m, 0).start), f(m)] + SubParts(s, rest, f, GroupSpan(m, 0).end)
  {
  }

  /** `SubParts` depends only on the values the callback takes on the stream. */
  lemma {:induction false} SubPartsExt(s: string, ms: seq<Match>, f: Match -> string, g: Match -> string, start: int)
    requires forall i :: 0 <= i < |ms| ==> f(ms[i]) == g(ms[i])
    ensures SubParts(s, ms, f, start) == SubParts(s, ms, g, start)
    decreases |ms|
  {
    if |ms| > 0 {
      assert f(ms[0]) == g(ms[0]);
      SubPartsExt(s, ms[1..], f, g, GroupSpan(ms[0], 0).end);
    }
  }

  /** The engine is consistent: its global substitution replaces exactly the matches
      its generator yields, so the finding below is not an artefact of the engine. */
  lemma BStarEngineAgrees(t: string, s: string)
    requires |s| <= MaxSize
    ensures SubstituteAgrees(BStar, BStarEngine, t, s)
  {
    var ms := AllMatches(BStar, BStarEngine, s);
    assert ms == BStarMatches(s);
    var f := (m: Match) => BStarEngine.expand(t, m);
    var g := (m: Match) => BStarExpand(t, m);
    assert forall i :: 0 <= i < |ms| ==> f(ms[i]) == g(ms[i]);
    SubPartsExt(s, ms, f, g, 0);
  }

  /** `b*` over "ab" matches at (0,0), (1,2) and (2,2). */
  lemma MatchesOfAb()
    ensures BStarMatches("ab") ==
            [Match(BStar, "ab", 0, 2, [Span(0, 0)]), Match(BStar, "ab", 0, 2, [Span(1, 2)]),
             Match(BStar, "ab", 0, 2, [Span(2, 2)])]
  {
  }

  /** The parts of the substitution of "x" over "ab": gap, "x" per match, tail. */
  lemma PartsOfAb()
    ensures SubParts("ab", BStarMatches("ab"), (m: Match) => BStarExpand("x", m), 0) ==
            ["", "x", "a", "x", "", "x", ""]
  {
    var s := "ab";
    MatchesOfAb();
    var m0, m1, m2 := Match(BStar, s, 0, 2, [Span(0, 0)]), Match(BStar, s, 0, 2, [Span(1, 2)]),
                      Match(BStar, s, 0, 2, [Span(2, 2)]);
    var f := (m: Match) => BStarExpand("x", m);
    assert Slice(s, 0, 0) == "" && Slice(s, 0, 1) == "a" && Slice(s, 2, 2) == "";
    SubPartsCons(s, m2, [], f, 2);
    SubPartsCons(s, m1, [m2], f, 0);
    SubPartsCons(s, m0, [m1, m2], f, 0);
    assert [m0] + ([m1] + [m2]) == [m0, m1, m2];
  }

  /** The text the global substitution over "ab" assembles. */
  lemma JoinOfAb()
    ensures Join(["", "x", "a", "x", "", "x", ""]) == "xaxx"
  {
    assert Join(["x", ""]) == "x";
    assert Join(["", "x", ""]) == "x";
    assert Join(["x", "", "x", ""]) == "xx";
    assert Join(["a", "x", "", "x", ""]) == "axx";
  }

  /** The binding's substitution of "x" over the prefix "ab" replaces all three
      of its matches. */
  lemma SubstituteOfAb()
    ensures BStarEngine.substitute("x", "ab") == ("xaxx", 3)
  {
    MatchesOfAb();
    PartsOfAb();
    JoinOfAb();
    assert BStarEngine.substitute("x", "ab") == BStarSubstitute("x", "ab");
  }

  /** The first two matches `subn` consumes from "abc" end at 2. */
  lemma TakeTwoOfAbc()
    ensures Take(AllMatches(BStar, BStarEngine, "abc"), 2) ==
            [Match(BStar, "abc", 0, 3, [Span(0, 0)]), Match(BStar, "abc", 0, 3, [Span(1, 2)])]
    ensures LastEnd(Take(AllMatches(BStar, BStarEngine, "abc"), 2)) == 2
  {
  }

  /** As written, `subn("b*", "x", "abc", count=2)` gives ("xaxxc", 3): three
      substitutions for a count of two, where `re` gives ("xaxc", 2). */
  lemma SubnLiteralExceedsCount()
    ensures PrefixSubstitution(BStarEngine, "x", "abc", Take(AllMatches(BStar, BStarEngine, "abc"), 2)) == ("xaxxc", 3)
  {
    TakeTwoOfAbc();
    var ms := Take(AllMatches(BStar, BStarEngine, "abc"), 2);
    assert LastEnd(ms) == 2;
    assert Slice("abc", 0, 2) == "ab";
    assert Slice("abc", 2, 3) == "c";
    SubstituteOfAb();
    var sub := BStarEngine.substitute("x", "ab");
    assert sub == ("xaxx", 3);
    var r := PrefixSubstitution(BStarEngine, "x", "abc", ms);
    assert r.0 == sub.0 + Slice("abc", 2, 3);
    assert r.1 == sub.1;
    assert "xaxx" + "c" == "xaxxc";
  }

  /** The parts of the corrected branch on "abc" with count 2. */
  lemma PartsOfAbc()
    ensures SubParts("abc", [Match(BStar, "abc", 0, 3, [Span(0, 0)]), Match(BStar, "abc", 0, 3, [Span(1, 2)])],
                     (m: Match) => BStarEngine.expand("x", m), 0) == ["", "x", "a", "x", "c"]
  {
    var s := "abc";
    var m0, m1 := Match(BStar, s, 0, 3, [Span(0, 0)]), Match(BStar, s, 0, 3, [Span(1, 2)]);
    var f := (m: Match) => BStarEngine.expand("x", m);
    assert BStarEngine.expand("x", m0) == BStarExpand("x", m0) == "x";
    assert BStarEngine.expand("x", m1) == BStarExpand("x", m1) == "x";
    assert f(m0) == "x" && f(m1) == "x";
    assert GroupSpan(m0, 0) == Span(0, 0) && GroupSpan(m1, 0) == Span(1, 2);
    assert Slice(s, 0, 0) == "" && Slice(s, 0, 1) == "a" && Slice(s, 2, 3) == "c";
    SubPartsCons(s, m1, [], f, 2);
    SubPartsCons(s, m0, [m1], f, 0);
    assert [m0] + [m1] == [m0, m1];
    assert SubParts(s, [m0, m1], f, 0) == ["", "x", "a", "x", "c"];
  }

  /** The corrected branch replaces exactly the two consumed matches: ("xaxc", 2). */
  lemma SubnLiteralCorrectedOnExample()
    ensures var ms := Take(AllMatches(BStar, BStarEngine, "abc"), 2);
            (Join(SubParts("abc", ms, (m: Match) => BStarEngine.expand("x", m), 0)), |ms|) == ("xaxc", 2)
  {
    TakeTwoOfAbc();
    PartsOfAbc();
    assert Join(["", "x", "a", "x", "c"]) == "xaxc";
  }
}
