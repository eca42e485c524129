/** What the PCRE2 binding hands back to the Python layer, and the binding itself,
    which this model treats as an oracle: compiled-pattern metadata, match records
    and the four binding calls a compiled pattern offers. */
module MatchData {
  import opened Wrappers

  /** `sys.maxsize` on a 64-bit build: the default `endpos`. */
  const MaxSize: int := 0x7fff_ffff_ffff_ffff

  /** The offsets of one capture group; a group that did not take part is (-1, -1). */
  datatype Span = Span(start: int, end: int)

  const Unset: Span := Span(-1, -1)

  /** The metadata of a compiled pattern: the capture count (`Pattern.groups`) and
      the name dictionary (`Pattern.groupindex`) as its items in iteration order. */
  datatype Pattern = Pattern(groups: nat, groupindex: seq<(string, int)>)

  /** A `Match` object: the pattern, the subject, the clamped window it was
      searched in, and the span table of groups 0..groups the binding reported. */
  datatype Match = Match(re: Pattern, subject: string, pos: int, endpos: int, spans: seq<Span>)

  /** The anchoring options `match` and `fullmatch` pass to the binding. */
  datatype MatchOptions = MatchOptions(anchored: bool, endAnchored: bool)

  /** The binding calls a compiled pattern answers, as functions:
      - matchAt(string, endpos, pos, options): one match or none (`_cy.match`);
      - generate(string, endpos, pos): the non-overlapping matches, left to right
        (`_cy.match_generator`);
      - substitute(template, string): global substitution with unset groups read as
        empty, giving the text and the number of substitutions (`_cy.substitute`);
      - expand(template, match): the template expanded against one match (`Match.expand`). */
  datatype Engine = Engine(
    matchAt: (string, nat, nat, MatchOptions) -> Option<seq<Span>>,
    generate: (string, nat, nat) -> seq<seq<Span>>,
    substitute: (string, string) -> (string, int),
    expand: (string, Match) -> string)

  /** The span of group g (`_cy.substring_span_bynumber`); a number outside the
      reported table reads as unset. */
  function GroupSpan(m: Match, g: int): (r: Span)
    ensures 0 <= g < |m.spans| ==> r == m.spans[g]
    ensures !(0 <= g < |m.spans|) ==> r == Unset
    ensures WellFormed(m) ==> r == Unset || 0 <= r.start <= r.end <= |m.subject|
  {
    if 0 <= g < |m.spans| then m.spans[g] else Unset
  }

  /** The text of group g (`_cy.substring_bynumber`), None when the group is unset. */
  function GroupText(m: Match, g: int): (r: Option<string>)
    ensures r.Some? <==> 0 <= GroupSpan(m, g).start <= GroupSpan(m, g).end <= |m.subject|
    ensures r.Some? ==> r.value == m.subject[GroupSpan(m, g).start..GroupSpan(m, g).end]
    ensures WellFormed(m) ==> (r.None? <==> GroupSpan(m, g) == Unset)
  {
    var sp := GroupSpan(m, g);
    if 0 <= sp.start <= sp.end <= |m.subject| then Some(m.subject[sp.start..sp.end]) else None
  }

  /** `default if item is None else item`: a set value is kept, an unset one replaced. */
  function Fill(item: Option<string>, default: Option<string>): (r: Option<string>)
    ensures item.Some? ==> r == item
    ensures item.None? ==> r == default
    ensures r.None? <==> item.None? && default.None?
  {
    if item.None? then default else item
  }

  /** What PCRE2 guarantees of a match: one span per group and group 0, each unset
      or inside the subject, with group 0 always set. */
  predicate WellFormed(m: Match) {
    && |m.spans| == m.re.groups + 1
    && m.spans[0].start >= 0
    && forall g :: 0 <= g < |m.spans| ==>
         m.spans[g] == Unset || 0 <= m.spans[g].start <= m.spans[g].end <= |m.subject|
  }

  /** What PCRE2 guarantees of a match stream over subject s: every match is well
      formed and on s, and each one starts no earlier than any earlier one ended. */
  predicate WellFormedStream(ms: seq<Match>, s: string) {
    && (forall i :: 0 <= i < |ms| ==> WellFormed(ms[i]) && ms[i].subject == s)
    && (forall i, j :: 0 <= i < j < |ms| ==> ms[i].spans[0].end <= ms[j].spans[0].start)
  }

  /** In a well-formed match, group 0's text is the subject between its offsets. */
  lemma WholeMatchText(m: Match)
    requires WellFormed(m)
    ensures GroupText(m, 0) == Some(m.subject[m.spans[0].start..m.spans[0].end])
  {
  }
}
