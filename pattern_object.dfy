/** The `Pattern` class: window clamping, `search`/`match`/`fullmatch`, `finditer`,
    `findall`, `split`, `subn` and `sub`, built on the binding's match stream. */
module PatternObject {
  import opened Wrappers
  import opened Slicing
  import opened MatchData
  import opened MatchObject

  // ---------------------------------------------------------------- window

  /** `max(0, min(x, n))`: one window bound clamped into the subject. */
  function Clamp(x: int, n: nat): (r: nat)
    ensures r <= n
    ensures 0 <= x <= n ==> r == x
    ensures x < 0 ==> r == 0
    ensures x > n ==> r == n
  {
    if x < 0 then 0 else if x > n then n else x
  }

  /** The window `(pos, endpos)` after clamping. Both ends lie in the subject and
      their order is kept, but an inverted window stays inverted. */
  function Window(s: string, pos: int, endpos: int): (w: (nat, nat))
    ensures w.0 <= |s| && w.1 <= |s|
    ensures pos <= endpos ==> w.0 <= w.1
    ensures endpos <= pos ==> w.1 <= w.0
    ensures 0 <= pos <= |s| ==> w.0 == pos
    ensures 0 <= endpos <= |s| ==> w.1 == endpos
  {
    (Clamp(pos, |s|), Clamp(endpos, |s|))
  }

  /** Clamping a clamped window changes nothing. */
  lemma WindowIdempotent(s: string, pos: int, endpos: int)
    ensures Window(s, Window(s, pos, endpos).0, Window(s, pos, endpos).1) == Window(s, pos, endpos)
  {
  }

  /** The window clamping can invert: `pos <= endpos` is not established. */
  lemma WindowMayStayInverted()
    ensures Window("abcd", 3, 1) == (3, 1)
  {
  }

  // ------------------------------------------------------ single matches

  /** `Pattern._match`: ask the binding for one match in the clamped window. */
  function Exec(p: Pattern, e: Engine, s: string, pos: int, endpos: int, options: MatchOptions): (r: Option<Match>)
    ensures r.None? <==> e.matchAt(s, Window(s, pos, endpos).1, Window(s, pos, endpos).0, options).None?
    ensures r.Some? ==> r.value.re == p && r.value.subject == s &&
                        (r.value.pos, r.value.endpos) == Window(s, pos, endpos) &&
                        r.value.spans == e.matchAt(s, r.value.endpos, r.value.pos, options).value
  {
    var w := Window(s, pos, endpos);
    match e.matchAt(s, w.1, w.0, options)
    case None => None
    case Some(d) => Some(Match(p, s, w.0, w.1, d))
  }

  /** The binding only ever sees the clamped window, so a window and its clamped
      form give the same result. */
  lemma ExecWindowNormalized(p: Pattern, e: Engine, s: string, pos: int, endpos: int, options: MatchOptions)
    ensures Exec(p, e, s, pos, endpos, options) ==
            Exec(p, e, s, Window(s, pos, endpos).0, Window(s, pos, endpos).1, options)
  {
  }

  /** `Pattern.search`: unanchored. */
  function Search(p: Pattern, e: Engine, s: string, pos: int, endpos: int): (r: Option<Match>)
    ensures r.None? <==> e.matchAt(s, Window(s, pos, endpos).1, Window(s, pos, endpos).0, MatchOptions(false, false)).None?
    ensures r.Some? ==> r.value.re == p && r.value.subject == s &&
                        (r.value.pos, r.value.endpos) == Window(s, pos, endpos) &&
                        r.value.spans == e.matchAt(s, r.value.endpos, r.value.pos, MatchOptions(false, false)).value
  {
    Exec(p, e, s, pos, endpos, MatchOptions(false, false))
  }

  /** `Pattern.match`: anchored at the start of the window. */
  function MatchStart(p: Pattern, e: Engine, s: string, pos: int, endpos: int): (r: Option<Match>)
    ensures r.None? <==> e.matchAt(s, Window(s, pos, endpos).1, Window(s, pos, endpos).0, MatchOptions(true, false)).None?
    ensures r.Some? ==> r.value.re == p && r.value.subject == s &&
                        (r.value.pos, r.value.endpos) == Window(s, pos, endpos) &&
                        r.value.spans == e.matchAt(s, r.value.endpos, r.value.pos, MatchOptions(true, false)).value
  {
    Exec(p, e, s, pos, endpos, MatchOptions(true, false))
  }

  /** `Pattern.fullmatch`: anchored at both ends of the window. */
  function FullMatch(p: Pattern, e: Engine, s: string, pos: int, endpos: int): (r: Option<Match>)
    ensures r.None? <==> e.matchAt(s, Window(s, pos, endpos).1, Window(s, pos, endpos).0, MatchOptions(true, true)).None?
    ensures r.Some? ==> r.value.re == p && r.value.subject == s &&
                        (r.value.pos, r.value.endpos) == Window(s, pos, endpos) &&
                        r.value.spans == e.matchAt(s, r.value.endpos, r.value.pos, MatchOptions(true, true)).value
  {
    Exec(p, e, s, pos, endpos, MatchOptions(true, true))
  }

  // ---------------------------------------------------------- iteration

  /** `Pattern.finditer`: one `Match` per record of the binding's generator, run over
      the clamped window; every match carries that window. */
  function FindIter(p: Pattern, e: Engine, s: string, pos: int, endpos: int): (r: seq<Match>)
    ensures |r| == |e.generate(s, Window(s, pos, endpos).1, Window(s, pos, endpos).0)|
    ensures forall i :: 0 <= i < |r| ==>
              && r[i].re == p && r[i].subject == s
              && (r[i].pos, r[i].endpos) == Window(s, pos, endpos)
              && r[i].spans == e.generate(s, r[i].endpos, r[i].pos)[i]
  {
    var w := Window(s, pos, endpos);
    var records := e.generate(s, w.1, w.0);
    seq(|records|, i requires 0 <= i < |records| => Match(p, s, w.0, w.1, records[i]))
  }

  /** Like `_match`, `finditer` depends only on the clamped window. */
  lemma FindIterWindowNormalized(p: Pattern, e: Engine, s: string, pos: int, endpos: int)
    ensures FindIter(p, e, s, pos, endpos) ==
            FindIter(p, e, s, Window(s, pos, endpos).0, Window(s, pos, endpos).1)
  {
  }

  /** `self.finditer(string)`: the default window, the whole subject. */
  function AllMatches(p: Pattern, e: Engine, s: string): (r: seq<Match>)
    ensures |s| <= MaxSize ==> r == FindIter(p, e, s, 0, |s|)
  {
    FindIter(p, e, s, 0, MaxSize)
  }

  /** `islice(matches, n or None)`: the first n matches, or all of them when n is 0. */
  function Take(ms: seq<Match>, n: nat): (r: seq<Match>)
    ensures r <= ms
    ensures n == 0 ==> r == ms
    ensures n > 0 ==> |r| == if n < |ms| then n else |ms|
  {
    if n == 0 || |ms| <= n then ms else ms[..n]
  }

  /** The stream after its first match is well formed too. */
  lemma StreamTail(ms: seq<Match>, s: string)
    requires WellFormedStream(ms, s) && |ms| > 0
    ensures WellFormedStream(ms[1..], s)
  {
  }

  /** A prefix of a well-formed stream is one. */
  lemma TakeWellFormed(ms: seq<Match>, n: nat, s: string)
    requires WellFormedStream(ms, s)
    ensures WellFormedStream(Take(ms, n), s)
  {
  }

  // ------------------------------------------------------------- findall

  /** One element of a `findall` result: a string (or None), or a tuple of strings. */
  datatype Item = Value(text: Option<string>) | Tuple(texts: seq<Option<string>>)

  /** `Pattern.findall`: per match, the whole text when the pattern has no groups,
      the one group's text when it has one, and the tuple of all group texts
      otherwise, unset groups read as the empty string. */
  method FindAll(p: Pattern, e: Engine, s: string, pos: int, endpos: int) returns (items: seq<Item>)
    ensures |items| == |FindIter(p, e, s, pos, endpos)|
    ensures p.groups == 0 ==> forall i :: 0 <= i < |items| ==>
              items[i] == Value(GroupText(FindIter(p, e, s, pos, endpos)[i], 0))
    ensures p.groups == 1 ==> forall i :: 0 <= i < |items| ==>
              items[i] == Value(Some(GroupText(FindIter(p, e, s, pos, endpos)[i], 1).GetOr("")))
    ensures p.groups >= 2 ==> forall i :: 0 <= i < |items| ==>
              && items[i].Tuple? && |items[i].texts| == p.groups
              && forall g :: 0 <= g < p.groups ==>
                   items[i].texts[g] == Some(GroupText(FindIter(p, e, s, pos, endpos)[i], g + 1).GetOr(""))
  {
    var ms := FindIter(p, e, s, pos, endpos);
    var empty := "";
    items := [];
    for i := 0 to |ms|
      invariant |items| == i
      invariant p.groups == 0 ==> forall k :: 0 <= k < i ==> items[k] == Value(GroupText(ms[k], 0))
      invariant p.groups == 1 ==> forall k :: 0 <= k < i ==> items[k] == Value(Some(GroupText(ms[k], 1).GetOr("")))
      invariant p.groups >= 2 ==> forall k :: 0 <= k < i ==>
                  && items[k].Tuple? && |items[k].texts| == p.groups
                  && forall g :: 0 <= g < p.groups ==> items[k].texts[g] == Some(GroupText(ms[k], g + 1).GetOr(""))
    {
      var m := ms[i];
      var item: Item;
      if p.groups == 0 {
        item := Value(Group(m, []).value.text);
      } else if p.groups == 1 {
        var texts := Groups(m, Some(empty));
        item := Value(texts[0]);
      } else {
        var texts := Groups(m, Some(empty));
        item := Tuple(texts);
      }
      items := items + [item];
    }
  }

  // --------------------------------------------------------------- split

  /** `map(match.__getitem__, range(1, self.groups + 1))`: the texts of groups 1..groups. */
  function Captures(p: Pattern, m: Match): (r: seq<Option<string>>)
    ensures |r| == p.groups
  {
    seq(p.groups, i requires 0 <= i < p.groups => GroupText(m, i + 1))
  }

  /** For a match of the pattern, the captures are what `__getitem__` gives for 1..groups. */
  lemma CapturesAreItems(p: Pattern, m: Match)
    requires m.re == p
    ensures forall i :: 0 <= i < p.groups ==> GetItem(m, Index(i + 1)) == Ok(Captures(p, m)[i])
  {
  }

  /** The parts `split` builds from the matches `ms`, the text before the first of
      them starting at `start`: per match the gap before it and its captures, then
      the rest of the subject. */
  function SplitFrom(p: Pattern, s: string, ms: seq<Match>, start: int): (r: seq<Option<string>>)
    ensures |r| > 0 && r[0] == Some(Slice(s, start, if |ms| == 0 then |s| else GroupSpan(ms[0], 0).start))
    decreases |ms|
  {
    if |ms| == 0 then [Some(Slice(s, start, |s|))]
    else [Some(Slice(s, start, GroupSpan(ms[0], 0).start))] + Captures(p, ms[0]) +
         SplitFrom(p, s, ms[1..], GroupSpan(ms[0], 0).end)
  }

  /** `Pattern.split`. */
  method Split(p: Pattern, e: Engine, s: string, maxsplit: int) returns (parts: seq<Option<string>>)
    ensures maxsplit < 0 || |AllMatches(p, e, s)| == 0 ==> parts == [Some(s)]
    ensures maxsplit >= 0 ==> parts == SplitFrom(p, s, Take(AllMatches(p, e, s), maxsplit), 0)
  {
    if maxsplit < 0 {
      return [Some(s)];
    }
    var ms := Take(AllMatches(p, e, s), maxsplit);
    parts := [];
    var start := 0;
    for i := 0 to |ms|
      invariant parts + SplitFrom(p, s, ms[i..], start) == SplitFrom(p, s, ms, 0)
    {
      var m := ms[i];
      SplitLoopStep(p, s, ms, i, start, parts);
      parts := parts + [Some(Slice(s, start, Start(m, Index(0)).value))] + Captures(p, m);
      start := End(m, Index(0)).value;
    }
    assert ms[|ms|..] == [];
    parts := parts + [Some(Slice(s, start, |s|))];
    if |AllMatches(p, e, s)| == 0 {
      assert ms == [];
      SplitWithoutMatches(p, s);
    }
  }

  /** With no match, `split` gives back the subject as the only part. */
  lemma SplitWithoutMatches(p: Pattern, s: string)
    ensures SplitFrom(p, s, [], 0) == [Some(s)]
  {
    assert Slice(s, 0, |s|) == s[0..|s|] == s;
  }

  /** One turn of the `split` loop keeps the parts built so far, followed by the
      parts still to come, equal to the whole result. */
  lemma SplitLoopStep(p: Pattern, s: string, ms: seq<Match>, i: nat, start: int, parts: seq<Option<string>>)
    requires i < |ms|
    requires parts + SplitFrom(p, s, ms[i..], start) == SplitFrom(p, s, ms, 0)
    ensures parts + [Some(Slice(s, start, GroupSpan(ms[i], 0).start))] + Captures(p, ms[i]) +
            SplitFrom(p, s, ms[i + 1..], GroupSpan(ms[i], 0).end) == SplitFrom(p, s, ms, 0)
  {
    assert ms[i..][1..] == ms[i + 1..];
  }

  /** Each consumed match contributes its gap and `groups` captures, plus one tail part. */
  lemma {:induction false} SplitLength(p: Pattern, s: string, ms: seq<Match>, start: int)
    ensures |SplitFrom(p, s, ms, start)| == |ms| * (p.groups + 1) + 1
  {
    if |ms| > 0 {
      SplitLength(p, s, ms[1..], GroupSpan(ms[0], 0).end);
      assert |ms| * (p.groups + 1) == (|ms| - 1) * (p.groups + 1) + (p.groups + 1);
    }
  }

  /** The last part is the subject after the last consumed match (all of it when
      there is none). */
  lemma {:induction false} SplitLastPart(p: Pattern, s: string, ms: seq<Match>, start: int)
    ensures var parts := SplitFrom(p, s, ms, start);
            |parts| > 0 &&
            parts[|parts| - 1] == Some(Slice(s, if |ms| == 0 then start else GroupSpan(ms[|ms| - 1], 0).end, |s|))
  {
    if |ms| > 0 {
      SplitLastPart(p, s, ms[1..], GroupSpan(ms[0], 0).end);
      if |ms| > 1 {
        assert ms[1..][|ms[1..]| - 1] == ms[|ms| - 1];
      }
    }
  }

  /** The text of group 0 of each match: the delimiters `split` removes. */
  function Delimiters(ms: seq<Match>): (r: seq<string>)
    ensures |r| == |ms|
  {
    seq(|ms|, i requires 0 <= i < |ms| => GroupText(ms[i], 0).GetOr(""))
  }

  /** Joins every (g+1)-th part (the gaps) of a split result alternately with `delims`. */
  function Rejoin(parts: seq<Option<string>>, g: nat, delims: seq<string>): string
    decreases |delims|
  {
    if |parts| == 0 then ""
    else if |delims| == 0 || |parts| <= g + 1 then parts[0].GetOr("")
    else parts[0].GetOr("") + delims[0] + Rejoin(parts[g + 1..], g, delims[1..])
  }

  /** Over a well-formed stream, the gaps of `split` joined alternately with the
      matched delimiters give back the subject from `start` on. */
  lemma {:induction false} SplitRejoins(p: Pattern, s: string, ms: seq<Match>, start: int)
    requires WellFormedStream(ms, s)
    requires 0 <= start <= (if |ms| == 0 then |s| else ms[0].spans[0].start)
    ensures Rejoin(SplitFrom(p, s, ms, start), p.groups, Delimiters(ms)) == s[start..]
  {
    if |ms| > 0 {
      StreamNext(ms, s);
      SplitRejoins(p, s, ms[1..], ms[0].spans[0].end);
      RejoinStep(p, s, ms, start);
    }
  }

  /** After the first match of a well-formed stream, the rest is a well-formed
      stream that starts no earlier than that match ended. */
  lemma StreamNext(ms: seq<Match>, s: string)
    requires WellFormedStream(ms, s) && |ms| > 0
    ensures WellFormed(ms[0]) && ms[0].subject == s
    ensures WellFormedStream(ms[1..], s)
    ensures 0 <= ms[0].spans[0].end <= (if |ms| == 1 then |s| else ms[1..][0].spans[0].start)
  {
  }

  /** Rejoining a split result takes the gap before the first match and its
      delimiter, then rejoins the parts after it, which give the rest of s. */
  lemma RejoinStep(p: Pattern, s: string, ms: seq<Match>, start: int)
    requires |ms| > 0 && WellFormed(ms[0]) && ms[0].subject == s
    requires 0 <= start <= ms[0].spans[0].start
    requires Rejoin(SplitFrom(p, s, ms[1..], ms[0].spans[0].end), p.groups, Delimiters(ms[1..])) ==
             s[ms[0].spans[0].end..]
    ensures Rejoin(SplitFrom(p, s, ms, start), p.groups, Delimiters(ms)) == s[start..]
  {
    assert s[start..ms[0].spans[0].start] + s[ms[0].spans[0].start..ms[0].spans[0].end] + s[ms[0].spans[0].end..] == s[start..];
    var m := ms[0];
    var t := m.spans[0].end;
    var rest := SplitFrom(p, s, ms[1..], t);
    var parts := SplitFrom(p, s, ms, start);
    assert parts == [Some(Slice(s, start, m.spans[0].start))] + Captures(p, m) + rest;
    assert parts[p.groups + 1..] == rest;
    SplitLength(p, s, ms[1..], t);
    assert Delimiters(ms)[1..] == Delimiters(ms[1..]);
    WholeMatchText(m);
  }

  /** `split` with `maxsplit >= 0` over a well-formed match stream: the result has
      `k * (groups + 1) + 1` parts for the k matches consumed (at most `maxsplit` of
      them when it is positive, all when it is 0), and its gaps rejoined with their
      delimiters give back the subject. */
  lemma SplitProperties(p: Pattern, e: Engine, s: string, maxsplit: int)
    requires maxsplit >= 0
    requires WellFormedStream(AllMatches(p, e, s), s)
    ensures var ms := Take(AllMatches(p, e, s), maxsplit);
            && (maxsplit > 0 ==> |ms| <= maxsplit)
            && (maxsplit == 0 ==> ms == AllMatches(p, e, s))
            && |SplitFrom(p, s, ms, 0)| == |ms| * (p.groups + 1) + 1
            && Rejoin(SplitFrom(p, s, ms, 0), p.groups, Delimiters(ms)) == s
  {
    var ms := Take(AllMatches(p, e, s), maxsplit);
    TakeWellFormed(AllMatches(p, e, s), maxsplit, s);
    SplitLength(p, s, ms, 0);
    if |ms| > 0 {
      assert WellFormed(ms[0]);
    }
    SplitRejoins(p, s, ms, 0);
  }

  // ---------------------------------------------------------- subn / sub

  /** The replacement argument: a template string, or a callable. */
  datatype Repl = Template(template: string) | Callback(f: Match -> string)

  /** `empty.join(parts)`. */
  function Join(parts: seq<string>): string
  {
    if |parts| == 0 then "" else parts[0] + Join(parts[1..])
  }

  /** Joining two lists of parts is joining each and concatenating. */
  lemma {:induction false} JoinConcat(a: seq<string>, b: seq<string>)
    ensures Join(a + b) == Join(a) + Join(b)
    decreases |a|
  {
    if |a| > 0 {
      assert (a + b)[1..] == a[1..] + b;
      JoinConcat(a[1..], b);
    } else {
      assert a + b == b;
    }
  }

  /** The parts the callback branch of `subn` builds: per match the gap before it
      and the callback's text, then the rest of the subject. */
  function SubParts(s: string, ms: seq<Match>, f: Match -> string, start: int): (r: seq<string>)
    ensures |r| == 2 * |ms| + 1
    decreases |ms|
  {
    if |ms| == 0 then [Slice(s, start, |s|)]
    else [Slice(s, start, GroupSpan(ms[0], 0).start), f(ms[0])] +
         SubParts(s, ms[1..], f, GroupSpan(ms[0], 0).end)
  }

  /** The callback branch of `subn`: replace each consumed match by the callback's
      text and count the replacements. */
  method SubnCallback(p: Pattern, e: Engine, f: Match -> string, s: string, count: nat) returns (r: (string, int))
    ensures r.1 == |Take(AllMatches(p, e, s), count)|
    ensures count > 0 ==> r.1 <= count
    ensures count == 0 ==> r.1 == |AllMatches(p, e, s)|
    ensures r.0 == Join(SubParts(s, Take(AllMatches(p, e, s), count), f, 0))
  {
    var ms := Take(AllMatches(p, e, s), count);
    var parts: seq<string> := [];
    var start := 0;
    var numsubs := 0;
    for i := 0 to |ms|
      invariant numsubs == i
      invariant parts + SubParts(s, ms[i..], f, start) == SubParts(s, ms, f, 0)
    {
      var m := ms[i];
      SubPartsStep(s, ms, f, i, start);
      ghost var rest := SubParts(s, ms[i + 1..], f, GroupSpan(m, 0).end);
      var gap := Slice(s, start, Start(m, Index(0)).value);
      var text := f(m);
      assert parts + ([gap, text] + rest) == (parts + [gap, text]) + rest;
      parts := parts + [gap, text];
      start := End(m, Index(0)).value;
      numsubs := numsubs + 1;
    }
    assert ms[|ms|..] == [];
    parts := parts + [Slice(s, start, |s|)];
    return (Join(parts), numsubs);
  }

  /** One step of `SubParts` along the stream. */
  lemma SubPartsStep(s: string, ms: seq<Match>, f: Match -> string, i: nat, start: int)
    requires i < |ms|
    ensures SubParts(s, ms[i..], f, start) ==
            [Slice(s, start, GroupSpan(ms[i], 0).start), f(ms[i])] +
            SubParts(s, ms[i + 1..], f, GroupSpan(ms[i], 0).end)
  {
  }

  /** A callback that gives back each match's own text leaves a well-formed stream's
      subject unchanged: the gaps and the matched texts tile it. */
  lemma {:induction false} SubPartsIdentity(s: string, ms: seq<Match>, start: int)
    requires WellFormedStream(ms, s)
    requires 0 <= start <= (if |ms| == 0 then |s| else ms[0].spans[0].start)
    ensures Join(SubParts(s, ms, OwnText, start)) == s[start..]
  {
    if |ms| > 0 {
      StreamNext(ms, s);
      SubPartsIdentity(s, ms[1..], ms[0].spans[0].end);
      IdentityStep(s, ms, start);
    }
  }

  /** `lambda m: m.group()`, unset read as empty. */
  function OwnText(m: Match): string {
    GroupText(m, 0).GetOr("")
  }

  /** `OwnText` is what `m.group()` returns, with an unset group read as empty; in a
      well-formed match it is the subject between group 0's offsets. */
  lemma OwnTextIsGroup(m: Match)
    ensures Group(m, []) == Ok(One(Some(OwnText(m)))) || (Group(m, []) == Ok(One(None)) && OwnText(m) == "")
    ensures WellFormed(m) ==> OwnText(m) == m.subject[m.spans[0].start..m.spans[0].end]
  {
  }

  /** Replacing the first match by its own text, then the rest of the subject. */
  lemma IdentityStep(s: string, ms: seq<Match>, start: int)
    requires |ms| > 0 && WellFormed(ms[0]) && ms[0].subject == s
    requires 0 <= start <= ms[0].spans[0].start
    requires Join(SubParts(s, ms[1..], OwnText, ms[0].spans[0].end)) == s[ms[0].spans[0].end..]
    ensures Join(SubParts(s, ms, OwnText, start)) == s[start..]
  {
    var b, t := ms[0].spans[0].start, ms[0].spans[0].end;
    WholeMatchText(ms[0]);
    var parts := SubParts(s, ms, OwnText, start);
    assert parts[1..][1..] == SubParts(s, ms[1..], OwnText, t);
    assert Join(parts) == s[start..b] + (s[b..t] + s[t..]);
    assert s[start..b] + (s[b..t] + s[t..]) == s[start..];
  }

  /** The end of the last consumed match, 0 when none was consumed. */
  function LastEnd(ms: seq<Match>): (r: int)
    ensures |ms| == 0 ==> r == 0
    ensures |ms| > 0 ==> r == End(ms[|ms| - 1], Index(0)).value
    ensures (forall i :: 0 <= i < |ms| ==> WellFormed(ms[i])) ==> r >= 0
  {
    if |ms| == 0 then 0 else GroupSpan(ms[|ms| - 1], 0).end
  }

  /** The literal-template branch of `subn` with `count > 0` as the code has it: the
      binding's global substitution is run on `string[:end]`, `end` being where the
      last consumed match ends, and `string[end:]` is appended verbatim. */
  function PrefixSubstitution(e: Engine, t: string, s: string, ms: seq<Match>): (r: (string, int))
    ensures r.1 == e.substitute(t, Slice(s, 0, LastEnd(ms))).1
    ensures e.substitute(t, Slice(s, 0, LastEnd(ms))).0 <= r.0
    ensures 0 <= LastEnd(ms) <= |s| ==>
              |s| - LastEnd(ms) <= |r.0| && r.0[|r.0| - (|s| - LastEnd(ms))..] == s[LastEnd(ms)..]
  {
    var end := LastEnd(ms);
    var (expanded, numsubs) := e.substitute(t, Slice(s, 0, end));
    (expanded + Slice(s, end, |s|), numsubs)
  }

  /** Lines 166-173 as written: find the end of the last consumed match, then
      substitute globally in the prefix before it. */
  method SubnLiteralAsWritten(p: Pattern, e: Engine, t: string, s: string, count: nat) returns (r: (string, int))
    requires count > 0
    ensures r == PrefixSubstitution(e, t, s, Take(AllMatches(p, e, s), count))
  {
    var ms := Take(AllMatches(p, e, s), count);
    var end := 0;
    for i := 0 to |ms|
      invariant end == LastEnd(ms[..i])
    {
      end := End(ms[i], Index(0)).value;
    }
    assert ms[..|ms|] == ms;
    var (expanded, numsubs) := e.substitute(t, Slice(s, 0, end));
    r := (expanded + Slice(s, end, |s|), numsubs);
  }

  /** In a well-formed stream the prefix handed to the binding and the verbatim tail
      split the subject at the end of the last consumed match. */
  lemma PrefixAndTail(p: Pattern, e: Engine, s: string, count: nat)
    requires WellFormedStream(AllMatches(p, e, s), s)
    ensures var end := LastEnd(Take(AllMatches(p, e, s), count));
            0 <= end <= |s| && Slice(s, 0, end) + Slice(s, end, |s|) == s
  {
  }

  /** The literal-template branch with `count > 0`, corrected: each of the consumed
      matches, and no other, is replaced by the template expanded against it. */
  method SubnLiteral(p: Pattern, e: Engine, t: string, s: string, count: nat) returns (r: (string, int))
    requires count > 0
    ensures r.1 == |Take(AllMatches(p, e, s), count)| && r.1 <= count
    ensures r.0 == Join(SubParts(s, Take(AllMatches(p, e, s), count), (m: Match) => e.expand(t, m), 0))
  {
    r := SubnCallback(p, e, (m: Match) => e.expand(t, m), s, count);
  }

  /** The binding's global substitution agrees with the match stream and with
      `Match.expand` on subject s: every match replaced by its expansion. */
  predicate SubstituteAgrees(p: Pattern, e: Engine, t: string, s: string) {
    e.substitute(t, s) ==
      (Join(SubParts(s, AllMatches(p, e, s), (m: Match) => e.expand(t, m), 0)), |AllMatches(p, e, s)|)
  }

  /** `Pattern.subn`. */
  method Subn(p: Pattern, e: Engine, repl: Repl, s: string, count: int) returns (r: (string, int))
    ensures count < 0 ==> r == (s, 0)
    ensures count == 0 && repl.Template? ==> r == e.substitute(repl.template, s)
    ensures count >= 0 && repl.Callback? ==>
              r == (Join(SubParts(s, Take(AllMatches(p, e, s), count), repl.f, 0)), |Take(AllMatches(p, e, s), count)|)
    ensures count > 0 && repl.Template? ==>
              r == (Join(SubParts(s, Take(AllMatches(p, e, s), count), (m: Match) => e.expand(repl.template, m), 0)),
                    |Take(AllMatches(p, e, s), count)|)
    ensures count > 0 ==> 0 <= r.1 <= count
  {
    if count < 0 {
      return (s, 0);
    }
    if count == 0 && repl.Template? {
      return e.substitute(repl.template, s);
    }
    match repl
    case Callback(f) =>
      r := SubnCallback(p, e, f, s, count);
    case Template(t) =>
      r := SubnLiteral(p, e, t, s, count);
  }

  /** With a template, the counted branch and the global branch of `subn` agree:
      with `count == 0` every match is consumed, which is what the global
      substitution replaces when it agrees with the match stream. */
  lemma LiteralBranchesAgree(p: Pattern, e: Engine, t: string, s: string)
    requires SubstituteAgrees(p, e, t, s)
    ensures e.substitute(t, s) ==
            (Join(SubParts(s, Take(AllMatches(p, e, s), 0), (m: Match) => e.expand(t, m), 0)),
             |Take(AllMatches(p, e, s), 0)|)
  {
  }

  /** `Pattern.sub`: the text `subn` returns. */
  method Sub(p: Pattern, e: Engine, repl: Repl, s: string, count: int) returns (r: string)
    ensures count < 0 ==> r == s
    ensures count == 0 && repl.Template? ==> r == e.substitute(repl.template, s).0
    ensures count >= 0 && repl.Callback? ==> r == Join(SubParts(s, Take(AllMatches(p, e, s), count), repl.f, 0))
    ensures count > 0 && repl.Template? ==>
              r == Join(SubParts(s, Take(AllMatches(p, e, s), count), (m: Match) => e.expand(repl.template, m), 0))
  {
    var res := Subn(p, e, repl, s, count);
    r := res.0;
  }

  /** `sub` with the callback `lambda m: m.group()` over a well-formed stream gives
      back the subject, whatever the count. */
  lemma SubWithOwnTextIsIdentity(p: Pattern, e: Engine, s: string, count: nat)
    requires WellFormedStream(AllMatches(p, e, s), s)
    ensures Join(SubParts(s, Take(AllMatches(p, e, s), count), OwnText, 0)) == s
  {
    var ms := Take(AllMatches(p, e, s), count);
    TakeWellFormed(AllMatches(p, e, s), count, s);
    if |ms| > 0 {
      assert WellFormed(ms[0]);
    }
    SubPartsIdentity(s, ms, 0);
  }
}
