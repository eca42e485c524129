# pcre2.py: the Python `re` compatibility layer

pcre2.py binds the PCRE2 regular-expression library and presents it with the
interface of Python's `re` module. Compiling, matching, JIT and template
substitution all happen in PCRE2, through the Cython binding `_cy`. The Python
module `src/pcre2/__init__.py` builds the `re` results on top of it:

- `Pattern` clamps the `pos`/`endpos` window.
- `Pattern` turns the binding's stream of match records into `finditer`,
  `findall`, `split`, `subn` and `sub`.
- `Match` validates group numbers and names, and answers `span`, `__getitem__`,
  `group`, `groups`, `groupdict`, `start`, `end`, `lastindex` and `lastgroup`.

This project models that layer in Dafny. The binding is an oracle, the `Engine`
datatype in `match_data.dfy`. Its fields are function values:

- the single matcher (`_cy.match`);
- the match generator (`_cy.match_generator`);
- the global substitution (`_cy.substitute` with `GLOBAL | UNSET_EMPTY`);
- template expansion (`Match.expand`).

A match record is a sequence of group spans, with `(-1, -1)` for an unset group.
`WellFormed` and `WellFormedStream` state what PCRE2 guarantees of a match stream:

- every set span lies inside the subject;
- group 0 is always set;
- matches come in order and do not overlap.

The lemmas that need these guarantees take them as preconditions.

Modules:

- `wrappers.dfy`: `Option` and `Result`.
- `slicing.dfy`: Python's `s[i:j]`, with negative indices and clamping.
- `match_data.dfy`: spans, pattern metadata (`groups`, `groupindex`), the match
  datatype and the engine.
- `match_object.dfy`: the `Match` class.
- `pattern_object.dfy`: the `Pattern` class.
- `subn_finding.dfy`: a concrete engine for the pattern `b*`. Its single matcher,
  its generator and its global substitution are shown to agree with each other
  (`BStarSearchIsFirstMatch`, `BStarEngineAgrees`). It exhibits the defect under
  "Findings".

The source object's state never changes after construction, so `Pattern` and
`Match` are datatypes. The loops of the source are methods with loop invariants:

- `findall`, `split`, the callback branch of `subn` and the `end` loop of the
  literal branch;
- `groups`, `groupdict` and `lastindex`.

Each method is proved against a specification function (`SplitFrom`, `SubParts`,
`LastIndexUpTo`, `PrefixSubstitution`). The lemmas prove the promised properties
about those functions.

## Model

| member | source | states |
|---|---|---|
| Slicing.SliceBound | src/pcre2/__init__.py:132 | a slice bound counts from the end when negative and is clamped into [0, len] |
| Slicing.Slice | src/pcre2/__init__.py:132 | `s[i:j]` is the ordinary subsequence when 0 <= i <= j <= len(s), and never longer than s |
| Slicing.PrefixSuffix | src/pcre2/__init__.py:170-171 | `s[:k] + s[k:] == s` for k inside s |
| MatchData.GroupSpan | src/pcre2/__init__.py:210 | the binding's span for a group in its table; a group number outside the table reads as unset; in a well-formed match every span is unset or inside the subject |
| MatchData.GroupText | src/pcre2/__init__.py:220 | the subject between the group's offsets exactly when they lie inside it, None otherwise; in a well-formed match None exactly when the group is unset |
| MatchData.Fill | src/pcre2/__init__.py:232 | `default if item is None else item` (also line 239): a set value is kept, an unset one becomes `default` |
| MatchData.WholeMatchText | src/pcre2/__init__.py:220 | in a well-formed match, group 0's text is the subject between its offsets |
| PatternObject.Clamp | src/pcre2/__init__.py:92-93 | `max(0, min(x, n))` lies in [0, n]: x itself when inside, 0 below, n above |
| PatternObject.Window | src/pcre2/__init__.py:92-93 | both clamped ends lie in [0, len(string)]; the order of pos and endpos is kept either way; an in-range bound is unchanged |
| PatternObject.WindowIdempotent | src/pcre2/__init__.py:108-109 | clamping an already clamped window changes nothing |
| PatternObject.WindowMayStayInverted | src/pcre2/__init__.py:92-93 | `pos <= endpos` is not enforced: the window (3, 1) over "abcd" stays (3, 1) |
| PatternObject.Exec | src/pcre2/__init__.py:91-95 | None exactly when the matcher finds nothing in the clamped window; otherwise a match of this pattern on this subject, carrying the clamped window and the matcher's spans |
| PatternObject.ExecWindowNormalized | src/pcre2/__init__.py:91-95 | `_match` depends only on the clamped window |
| PatternObject.Search | src/pcre2/__init__.py:97-98 | unanchored matching: None exactly when the unanchored matcher finds nothing; otherwise a match of this pattern on this subject, carrying the clamped window and the spans the matcher returned |
| PatternObject.MatchStart | src/pcre2/__init__.py:100-101 | anchored matching: None exactly when the ANCHORED matcher finds nothing; otherwise a match of this pattern on this subject, carrying the clamped window and the spans the matcher returned |
| PatternObject.FullMatch | src/pcre2/__init__.py:103-105 | matching anchored at both ends: None exactly when the ANCHORED and ENDANCHORED matcher finds nothing; otherwise a match of this pattern on this subject, carrying the clamped window and the spans the matcher returned |
| PatternObject.FindIter | src/pcre2/__init__.py:107-111 | one match per record of the generator over the clamped window, in order, each carrying that window and its record's spans |
| PatternObject.FindIterWindowNormalized | src/pcre2/__init__.py:107-111 | `finditer` depends only on the clamped window |
| PatternObject.AllMatches | src/pcre2/__init__.py:131 | calling `finditer(string)` without a window is `finditer` over the whole subject |
| PatternObject.Take | src/pcre2/__init__.py:131 | `islice(ms, n or None)` is a prefix of ms: all of ms when n is 0, else min(n, len(ms)) matches |
| PatternObject.StreamTail | src/pcre2/__init__.py:131-134 | dropping the first match of a well-formed stream leaves a well-formed stream |
| PatternObject.TakeWellFormed | src/pcre2/__init__.py:131 | a prefix of a well-formed stream is well formed |
| PatternObject.FindAll | src/pcre2/__init__.py:113-124 | one item per match: the whole text with no groups, the single group's text with one group, a tuple of all group texts with two or more; unset groups become "" |
| PatternObject.Captures | src/pcre2/__init__.py:133 | a match contributes exactly `groups` capture parts |
| PatternObject.CapturesAreItems | src/pcre2/__init__.py:133 | capture i is what `match[i + 1]` returns |
| PatternObject.SplitFrom | src/pcre2/__init__.py:129-136 | the parts the split loop builds from the consumed matches; the first part is the gap before the first match, or the whole rest of the subject when no match is left |
| PatternObject.Split | src/pcre2/__init__.py:126-136 | `[string]` when maxsplit < 0 or there is no match; otherwise the gap and captures of each of the first maxsplit matches (all of them when maxsplit is 0), then the tail |
| PatternObject.SplitWithoutMatches | src/pcre2/__init__.py:135 | with no match the only part is the whole subject |
| PatternObject.SplitLoopStep | src/pcre2/__init__.py:131-134 | one loop turn appends the gap and captures of the next match and resumes at its end |
| PatternObject.SplitLength | src/pcre2/__init__.py:131-135 | k consumed matches give k * (groups + 1) + 1 parts |
| PatternObject.SplitLastPart | src/pcre2/__init__.py:135 | the last part is `string[end:]` for the end of the last consumed match |
| PatternObject.Delimiters | src/pcre2/__init__.py:132-134 | one delimiter (group-0 text) per consumed match |
| PatternObject.SplitRejoins | src/pcre2/__init__.py:129-136 | over a well-formed stream, the gaps joined alternately with the matched texts give back the subject |
| PatternObject.StreamNext | src/pcre2/__init__.py:131-134 | the next match of a well-formed stream starts no earlier than the current one ends, and inside the subject |
| PatternObject.RejoinStep | src/pcre2/__init__.py:132-134 | gap, matched text and the rejoined rest give back the subject from the gap's start |
| PatternObject.SplitProperties | src/pcre2/__init__.py:126-136 | at most maxsplit matches are consumed when it is positive, all when it is 0; the length is k * (groups + 1) + 1; the gaps rejoin to the subject |
| PatternObject.Join | src/pcre2/__init__.py:164 | `empty.join(parts)` (also line 173): the parts concatenated in order |
| PatternObject.JoinConcat | src/pcre2/__init__.py:164 | joining two lists of parts is joining each and concatenating the results |
| PatternObject.SubParts | src/pcre2/__init__.py:157-162 | the callback branch builds two parts per consumed match plus the tail |
| PatternObject.SubnCallback | src/pcre2/__init__.py:154-164 | numsubs is the number of consumed matches (at most count when count > 0, all matches when count is 0); the text is the gaps interleaved with the callback's results, then the tail |
| PatternObject.SubPartsStep | src/pcre2/__init__.py:157-160 | one loop turn appends the gap and the callback's text and resumes at the match's end |
| PatternObject.SubPartsIdentity | src/pcre2/__init__.py:157-164 | a callback returning each match's own text rebuilds the subject |
| PatternObject.OwnText | src/pcre2/__init__.py:225-226 | the text of group 0 of a match, unset read as empty |
| PatternObject.OwnTextIsGroup | src/pcre2/__init__.py:222-226 | `OwnText(m)` is what `m.group()` returns; in a well-formed match it is the subject between group 0's offsets |
| PatternObject.IdentityStep | src/pcre2/__init__.py:158-160 | gap, matched text and the rebuilt rest give back the subject from the gap's start |
| PatternObject.LastEnd | src/pcre2/__init__.py:167-169 | `end` after the loop: 0 with no consumed match, else `match.end()` of the last one, never negative for well-formed matches |
| PatternObject.PrefixSubstitution | src/pcre2/__init__.py:166-173 | the literal branch with count > 0 as written: the count is the binding's count for `string[:end]`; the text starts with the binding's substitution of that prefix and ends with `string[end:]` verbatim |
| PatternObject.SubnLiteralAsWritten | src/pcre2/__init__.py:166-173 | the `end` loop finds the end of the last consumed match, and the result is `PrefixSubstitution` of it |
| PatternObject.PrefixAndTail | src/pcre2/__init__.py:170-171 | over a well-formed stream, the prefix handed to the binding and the verbatim tail split the subject at a point inside it |
| PatternObject.SubnLiteral | src/pcre2/__init__.py:166-173 | corrected literal branch: exactly the consumed matches are replaced by the template expanded against each, and the count is theirs |
| PatternObject.Subn | src/pcre2/__init__.py:142-173 | `(string, 0)` when count < 0; the global substitution for a template with count 0; otherwise the consumed matches replaced, with at most count substitutions when count > 0 |
| PatternObject.LiteralBranchesAgree | src/pcre2/__init__.py:147-148 | when the binding's global substitution agrees with its match stream, the global branch equals the counted branch with every match consumed |
| PatternObject.Sub | src/pcre2/__init__.py:175-176 | the text component of `subn` in each of its branches |
| PatternObject.SubWithOwnTextIsIdentity | src/pcre2/__init__.py:154-164 | `sub(lambda m: m.group(), s, count)` over a well-formed stream returns s |
| MatchObject.LookupName | src/pcre2/__init__.py:205 | `groupindex[name]` is missing exactly when no entry has that name; otherwise it is the index of the first entry with the name |
| MatchObject.Resolve | src/pcre2/__init__.py:203-209 | an int group is accepted exactly when 0 <= group <= groups, and otherwise raises "Invalid group index"; a name raises "Invalid group name" exactly when it is unknown, and "Invalid group index" when it maps outside [0, groups] |
| MatchObject.SpanOf | src/pcre2/__init__.py:202-210 | `span` fails exactly as validation does; otherwise it is the binding's span for the group, unset or inside the subject |
| MatchObject.GetItem | src/pcre2/__init__.py:212-220 | `__getitem__` fails exactly as validation does; otherwise it is the group's text, None exactly when the group is unset |
| MatchObject.Start | src/pcre2/__init__.py:242-243 | the first component of `span(group)`; group 0 by default; it fails exactly as validation does, with the same error |
| MatchObject.End | src/pcre2/__init__.py:245-246 | the second component of `span(group)`; group 0 by default; it fails exactly as validation does, with the same error |
| MatchObject.GetItems | src/pcre2/__init__.py:225-226 | all keys valid gives their texts in order; otherwise the error of the first invalid key |
| MatchObject.Group | src/pcre2/__init__.py:222-226 | no argument gives group 0; one argument gives a single value; two or more give a tuple whose i-th entry is `self[keys[i]]`; an error is that of the first invalid key |
| MatchObject.Groups | src/pcre2/__init__.py:228-233 | one entry per group 1..groups: the group's text, or `default` when unset |
| MatchObject.GroupDict | src/pcre2/__init__.py:235-240 | keys are exactly the names of `groupindex`; each maps to the text of its last entry's group, `default` when unset; an index outside [0, groups] raises "Invalid group index" |
| MatchObject.LastIndexUpTo | src/pcre2/__init__.py:254-258 | the loop of `lastindex` over groups 1..n; a group it names is among them and is set |
| MatchObject.LastIndexOf | src/pcre2/__init__.py:248-259 | the value of `lastindex`: a group in 1..groups, whose `end()` is its span's end |
| MatchObject.LastIndexUpToSpec | src/pcre2/__init__.py:250-259 | None exactly when every group ends at -1 (unset); otherwise the lowest-numbered group with the greatest end |
| MatchObject.LastIndex | src/pcre2/__init__.py:248-259 | the `max_end`/`max_group` loop computes `lastindex`: None when every group is unset, otherwise the smallest group with the maximal end |
| MatchObject.NameFor | src/pcre2/__init__.py:266-269 | the name of the first `groupindex` entry with the given index, None exactly when there is none |
| MatchObject.LastGroup | src/pcre2/__init__.py:261-269 | a name exactly when `lastindex` is a group some name maps to; then the first such name |
| SubnFinding.SubPartsCons | src/pcre2/__init__.py:157-160 | the parts of a stream starting with m: m's gap, the replacement, then the parts of the rest |
| SubnFinding.SubPartsExt | src/pcre2/__init__.py:159 | the parts depend only on the callback's values on the consumed matches |
| SubnFinding.BStarEngineAgrees | src/pcre2/__init__.py:138-140 | the example engine's global substitution replaces exactly the matches its generator yields |
| SubnFinding.BStarSearchIsFirstMatch | src/pcre2/__init__.py:97-98 | the example engine's unanchored search over the whole subject finds the first match its generator yields |
| SubnFinding.SingleMatchesOfBStar | src/pcre2/__init__.py:97-105 | `fullmatch` of `b*` succeeds on "bb" and fails on "ab"; `search` over "abc" finds the empty match at 0 |
| SubnFinding.MatchesOfAbc | src/pcre2/__init__.py:107-111 | `finditer` of `b*` over "abc" yields (0,0), (1,2), (2,2), (3,3) |
| SubnFinding.MatchesOfAb | src/pcre2/__init__.py:107-111 | `b*` over "ab" yields (0,0), (1,2), (2,2) |
| SubnFinding.PartsOfAb | src/pcre2/__init__.py:138-140 | replacing every match of `b*` in "ab" by "x" gives the parts "", "x", "a", "x", "", "x", "" |
| SubnFinding.JoinOfAb | src/pcre2/__init__.py:140 | the seven parts over "ab" join to "xaxx" |
| SubnFinding.SubstituteOfAb | src/pcre2/__init__.py:170 | the global substitution of "x" over the prefix "ab" gives ("xaxx", 3) |
| SubnFinding.TakeTwoOfAbc | src/pcre2/__init__.py:168-169 | with count 2, the consumed matches are (0,0) and (1,2), so `end` is 2 |
| SubnFinding.SubnLiteralExceedsCount | src/pcre2/__init__.py:166-173 | as written, `subn("b*", "x", "abc", count=2)` returns ("xaxxc", 3) |
| SubnFinding.PartsOfAbc | src/pcre2/__init__.py:157-162 | the corrected branch builds the parts "", "x", "a", "x", "c" on "abc" with count 2 |
| SubnFinding.SubnLiteralCorrectedOnExample | src/pcre2/__init__.py:166-173 | the corrected branch returns ("xaxc", 2) on the same input, as `re` does |

## Left out

- The binding `_cy` is an oracle here, not a model: compilation, JIT, the matcher,
  the match generator, substitution, template expansion, the capture count and the
  name dictionary. PCRE2's matching and template semantics are library behaviour,
  not code of this module.
- `Pattern.jit_compile` and the `jit` flag only switch how the binding runs the
  same pattern. They are not modelled.
- `Pattern.suball` and `Match.expand` are single calls into the binding. They are
  the `substitute` and `expand` fields of the engine.
- `cached_property` on `groups`, `groupindex`, `lastindex` and `lastgroup` only
  computes each value once. Each is modelled as a plain function or method.
- The module-level `compile`, `search`, `match`, `fullmatch`, `finditer`,
  `findall`, `split`, `subn` and `sub` only compile the pattern and forward to the
  `Pattern` method of the same name. Only those methods are modelled.
- `str` and `bytes` subjects are both modelled as `string`, because the layer
  treats them alike (`type(string)()` is the empty value of either).
- Group keys: an `int` is an index and any other key is looked up in the name
  dictionary. Keys that are neither names nor ints are modelled as names.
- `repl` is a tagged `Repl` value, not a dynamically typed object. `callable(repl)`
  is the `Callback` case.
- Exceptions raised by a user callback, and the object identity of returned
  strings, are not modelled.
- The dictionary returned by `groupindex` is a sequence of (name, index) pairs in
  iteration order. Lookups take the first entry of a name, and `groupdict` keeps
  the last, as building a dict from the pairs does.
- Errors the binding raises are not modelled: every engine field is total. A
  malformed template makes `sub` and `subn` raise `pcre2.LibraryError`, and the
  matcher and the generator can fail on PCRE2's match limit. The model has no
  error path for either.
- `finditer` is lazy, and `split` and `subn` pull at most `maxsplit` or `count`
  matches through `islice`. The model computes the whole match list and takes a
  prefix. The results are the same, but the model does not capture that later
  matches are never computed (which matters only for the binding's errors above).
- MatchObject.GroupDict: the result is a `map`, so the key order of the returned
  dict (the order of `groupindex`, line 240) is not modelled. The keys and values are.
- The engine of `subn_finding.dfy` handles only the templates used there (no group
  references), so its `expand` returns the template unchanged.
- PatternObject.Subn and PatternObject.Sub: with a template and count > 0 they use the corrected branch
  `SubnLiteral`. The code as written is `SubnLiteralAsWritten` (see Findings).
- A second way the prefix substitution goes wrong, a lookahead that sees past
  `end` and so matches less in the cut prefix, is not exhibited.

## Findings

| source | as written | input that shows it | evidently intended | confidence | as-written member | corrected member |
|---|---|---|---|---|---|---|
| src/pcre2/__init__.py:166-173 | with a template and count > 0, the global substitution runs over `string[:end]`, which can hold more matches than the count consumed | `Pattern("b*").subn("x", "abc", count=2)` gives ("xaxxc", 3): after the match (1,2), the global substitution also replaces the empty match at the end of the prefix "ab" | replace exactly the first `count` matches, as `re` does: ("xaxc", 2) | not executed | PatternObject.SubnLiteralAsWritten, with the counterexample SubnFinding.SubnLiteralExceedsCount | PatternObject.SubnLiteral, with SubnFinding.SubnLiteralCorrectedOnExample |
