/** The `Match` class: group lookup by number or name, `groups`, `groupdict`,
    `lastindex` and `lastgroup`. */
module MatchObject {
  import opened Wrappers
  import opened MatchData

  /** A group argument: an `int`, or any other key, which is looked up in the name dictionary. */
  datatype GroupKey = Index(n: int) | Name(name: string)

  /** The two `IndexError`s the accessors raise. */
  datatype IndexError = InvalidGroupName | InvalidGroupIndex

  /** The value of `groupindex[name]`: the index paired with the first entry of that name. */
  function LookupName(table: seq<(string, int)>, name: string): (r: Option<int>)
    ensures r.None? <==> forall j :: 0 <= j < |table| ==> table[j].0 != name
    ensures r.Some? ==> exists j :: 0 <= j < |table| && table[j] == (name, r.value) &&
                          forall k :: 0 <= k < j ==> table[k].0 != name
  {
    if |table| == 0 then None
    else if table[0].0 == name then Some(table[0].1)
    else
      var r := LookupName(table[1..], name);
      if r.Some? then
        ghost var j :| 0 <= j < |table[1..]| && table[1..][j] == (name, r.value) &&
                       forall k :: 0 <= k < j ==> table[1..][k].0 != name;
        assert table[j + 1] == (name, r.value);
        r
      else r
  }

  /** The group-number validation shared by `span` and `__getitem__`. */
  function Resolve(re: Pattern, key: GroupKey): (r: Result<nat, IndexError>)
    ensures r.Ok? ==> r.value <= re.groups
    ensures key.Index? ==> (r.Ok? <==> 0 <= key.n <= re.groups)
    ensures key.Index? && r.Ok? ==> r.value == key.n
    ensures key.Index? && r.Err? ==> r.error == InvalidGroupIndex
    ensures key.Name? ==>
              (r == Err(InvalidGroupName) <==>
               forall j :: 0 <= j < |re.groupindex| ==> re.groupindex[j].0 != key.name)
    ensures key.Name? && r.Ok? ==> LookupName(re.groupindex, key.name) == Some(r.value as int)
    ensures key.Name? && r == Err(InvalidGroupIndex) ==>
              exists j :: 0 <= j < |re.groupindex| && re.groupindex[j].0 == key.name &&
                          !(0 <= re.groupindex[j].1 <= re.groups)
  {
    match key
    case Index(n) =>
      if 0 <= n <= re.groups then Ok(n) else Err(InvalidGroupIndex)
    case Name(name) =>
      match LookupName(re.groupindex, name)
      case None => Err(InvalidGroupName)
      case Some(n) => if 0 <= n <= re.groups then Ok(n) else Err(InvalidGroupIndex)
  }

  /** `Match.span(group)`. */
  function SpanOf(m: Match, key: GroupKey): (r: Result<Span, IndexError>)
    ensures r.Ok? <==> Resolve(m.re, key).Ok?
    ensures r.Err? ==> r.error == Resolve(m.re, key).error
    ensures r.Ok? ==> r.value == GroupSpan(m, Resolve(m.re, key).value)
    ensures WellFormed(m) && r.Ok? ==>
              r.value == Unset || 0 <= r.value.start <= r.value.end <= |m.subject|
  {
    match Resolve(m.re, key)
    case Err(e) => Err(e)
    case Ok(g) => Ok(GroupSpan(m, g))
  }

  /** `Match.__getitem__(group)`: the group's text, None when the group is unset. */
  function GetItem(m: Match, key: GroupKey): (r: Result<Option<string>, IndexError>)
    ensures r.Ok? <==> Resolve(m.re, key).Ok?
    ensures r.Err? ==> r.error == Resolve(m.re, key).error
    ensures r.Ok? ==> r.value == GroupText(m, Resolve(m.re, key).value)
    ensures WellFormed(m) && r.Ok? ==>
              (r.value.None? <==> GroupSpan(m, Resolve(m.re, key).value) == Unset)
  {
    match Resolve(m.re, key)
    case Err(e) => Err(e)
    case Ok(g) => Ok(GroupText(m, g))
  }

  /** `Match.start(group)`. */
  function Start(m: Match, key: GroupKey): (r: Result<int, IndexError>)
    ensures r.Ok? <==> Resolve(m.re, key).Ok?
    ensures r.Err? ==> r.error == Resolve(m.re, key).error
    ensures r.Ok? ==> r.value == GroupSpan(m, Resolve(m.re, key).value).start
    ensures key == Index(0) ==> r == Ok(GroupSpan(m, 0).start)
  {
    match SpanOf(m, key)
    case Err(e) => Err(e)
    case Ok(sp) => Ok(sp.start)
  }

  /** `Match.end(group)`. */
  function End(m: Match, key: GroupKey): (r: Result<int, IndexError>)
    ensures r.Ok? <==> Resolve(m.re, key).Ok?
    ensures r.Err? ==> r.error == Resolve(m.re, key).error
    ensures r.Ok? ==> r.value == GroupSpan(m, Resolve(m.re, key).value).end
    ensures key == Index(0) ==> r == Ok(GroupSpan(m, 0).end)
  {
    match SpanOf(m, key)
    case Err(e) => Err(e)
    case Ok(sp) => Ok(sp.end)
  }

  /** What `group(...)` returns: one value, or a tuple for two or more arguments. */
  datatype GroupValue = One(text: Option<string>) | Many(texts: seq<Option<string>>)

  /** `tuple(map(self.__getitem__, keys))`: the values in order, or the first key's error. */
  function GetItems(m: Match, keys: seq<GroupKey>): (r: Result<seq<Option<string>>, IndexError>)
    ensures r.Ok? <==> forall i :: 0 <= i < |keys| ==> Resolve(m.re, keys[i]).Ok?
    ensures r.Ok? ==> |r.value| == |keys| &&
                      forall i :: 0 <= i < |keys| ==> GetItem(m, keys[i]) == Ok(r.value[i])
    ensures r.Err? ==> exists i :: 0 <= i < |keys| && GetItem(m, keys[i]) == Err(r.error) &&
                                   forall k :: 0 <= k < i ==> Resolve(m.re, keys[k]).Ok?
  {
    if |keys| == 0 then Ok([])
    else
      match GetItem(m, keys[0])
      case Err(e) => Err(e)
      case Ok(v) =>
        match GetItems(m, keys[1..])
        case Err(e) =>
          ghost var i :| 0 <= i < |keys[1..]| && GetItem(m, keys[1..][i]) == Err(e) &&
                         forall k :: 0 <= k < i ==> Resolve(m.re, keys[1..][k]).Ok?;
          assert GetItem(m, keys[i + 1]) == Err(e);
          Err(e)
        case Ok(vs) =>
          assert forall i :: 1 <= i < |keys| ==> keys[i] == keys[1..][i - 1];
          Ok([v] + vs)
  }

  /** `Match.group(*keys)`: group 0 for no argument, a single value for one, a tuple otherwise. */
  function Group(m: Match, keys: seq<GroupKey>): (r: Result<GroupValue, IndexError>)
    ensures |keys| == 0 ==> r == Ok(One(GroupText(m, 0)))
    ensures |keys| == 1 ==> (r.Ok? <==> Resolve(m.re, keys[0]).Ok?) &&
                            (r.Ok? ==> r.value == One(GetItem(m, keys[0]).value))
    ensures |keys| >= 2 ==> (r.Ok? <==> forall i :: 0 <= i < |keys| ==> Resolve(m.re, keys[i]).Ok?) &&
                            (r.Ok? ==> r.value.Many? && |r.value.texts| == |keys| &&
                                       forall i :: 0 <= i < |keys| ==> GetItem(m, keys[i]) == Ok(r.value.texts[i]))
    ensures r.Err? ==> exists i :: 0 <= i < |keys| && GetItem(m, keys[i]) == Err(r.error) &&
                                   forall k :: 0 <= k < i ==> Resolve(m.re, keys[k]).Ok?
  {
    if |keys| == 0 then
      assert GetItem(m, Index(0)) == Ok(GroupText(m, 0));
      Ok(One(GroupText(m, 0)))
    else if |keys| == 1 then
      match GetItem(m, keys[0])
      case Err(e) => Err(e)
      case Ok(v) => Ok(One(v))
    else
      match GetItems(m, keys)
      case Err(e) => Err(e)
      case Ok(vs) => Ok(Many(vs))
  }

  /** `Match.groups(default)`: groups 1..groups in order, unset ones replaced by `default`. */
  method Groups(m: Match, default: Option<string>) returns (items: seq<Option<string>>)
    ensures |items| == m.re.groups
    ensures forall i :: 0 <= i < |items| && GroupText(m, i + 1).Some? ==> items[i] == GroupText(m, i + 1)
    ensures forall i :: 0 <= i < |items| && GroupText(m, i + 1).None? ==> items[i] == default
  {
    items := [];
    for g := 1 to m.re.groups + 1
      invariant |items| == g - 1
      invariant forall i :: 0 <= i < |items| ==> items[i] == Fill(GroupText(m, i + 1), default)
    {
      var item := GetItem(m, Index(g));
      items := items + [Fill(item.value, default)];
    }
  }

  /** The keys of the dictionary built from the first n items of a name table. */
  ghost function NamesIn(table: seq<(string, int)>, n: nat): set<string>
    requires n <= |table|
  {
    set j | 0 <= j < n :: table[j].0
  }

  /** No entry after j among the first n items of the table repeats j's name, so
      j's value is the one a dictionary built from those items keeps. */
  ghost predicate LastOfName(table: seq<(string, int)>, j: nat, n: nat)
    requires j < n <= |table|
  {
    forall k :: j < k < n ==> table[k].0 != table[j].0
  }

  /** `Match.groupdict(default)`: every name of the dictionary mapped to its group's
      text (`default` when unset); an index outside [0, groups] raises. */
  method GroupDict(m: Match, default: Option<string>) returns (r: Result<map<string, Option<string>>, IndexError>)
    ensures r.Ok? <==> forall j :: 0 <= j < |m.re.groupindex| ==> 0 <= m.re.groupindex[j].1 <= m.re.groups
    ensures r.Err? ==> r.error == InvalidGroupIndex
    ensures r.Ok? ==> r.value.Keys == NamesIn(m.re.groupindex, |m.re.groupindex|)
    ensures r.Ok? ==> forall j :: 0 <= j < |m.re.groupindex| && LastOfName(m.re.groupindex, j, |m.re.groupindex|) ==>
                        r.value[m.re.groupindex[j].0] == Fill(GroupText(m, m.re.groupindex[j].1), default)
  {
    var table := m.re.groupindex;
    var d: map<string, Option<string>> := map[];
    for i := 0 to |table|
      invariant forall j :: 0 <= j < i ==> 0 <= table[j].1 <= m.re.groups
      invariant d.Keys == NamesIn(table, i)
      invariant forall j :: 0 <= j < i && LastOfName(table, j, i) ==>
                  table[j].0 in d && d[table[j].0] == Fill(GroupText(m, table[j].1), default)
    {
      var (name, index) := table[i];
      var item := GetItem(m, Index(index));
      if item.Err? {
        return Err(item.error);
      }
      d := d[name := Fill(item.value, default)];
    }
    return Ok(d);
  }

  /** `lastindex` over groups 1..n: the loop of `Match.lastindex` as a recursion on n.
      A group it names is among 1..n and is set. */
  function LastIndexUpTo(m: Match, n: nat): (r: Option<nat>)
    ensures r.Some? ==> 1 <= r.value <= n && GroupSpan(m, r.value).end > -1
  {
    if n == 0 then None
    else
      var prev := LastIndexUpTo(m, n - 1);
      var maxEnd := if prev.None? then -1 else GroupSpan(m, prev.value).end;
      if maxEnd < GroupSpan(m, n).end then Some(n) else prev
  }

  /** The value of `Match.lastindex`. */
  function LastIndexOf(m: Match): (r: Option<nat>)
    ensures r.Some? ==> 1 <= r.value <= m.re.groups && End(m, Index(r.value)) == Ok(GroupSpan(m, r.value).end)
  {
    LastIndexUpTo(m, m.re.groups)
  }

  /** `lastindex` over groups 1..n is None exactly when no group ends after -1, and
      otherwise the lowest-numbered group whose end is the greatest. */
  lemma {:induction false} LastIndexUpToSpec(m: Match, n: nat)
    ensures LastIndexUpTo(m, n).None? <==> forall g :: 1 <= g <= n ==> GroupSpan(m, g).end <= -1
    ensures LastIndexUpTo(m, n).Some? ==>
              var r := LastIndexUpTo(m, n).value;
              && 1 <= r <= n
              && GroupSpan(m, r).end > -1
              && (forall g :: 1 <= g <= n ==> GroupSpan(m, g).end <= GroupSpan(m, r).end)
              && (forall g :: 1 <= g < r ==> GroupSpan(m, g).end < GroupSpan(m, r).end)
  {
    if n > 0 {
      LastIndexUpToSpec(m, n - 1);
    }
  }

  /** `Match.lastindex`. */
  method LastIndex(m: Match) returns (maxGroup: Option<nat>)
    ensures maxGroup == LastIndexOf(m)
    ensures maxGroup.None? <==> forall g :: 1 <= g <= m.re.groups ==> GroupSpan(m, g).end <= -1
    ensures maxGroup.Some? ==>
              && 1 <= maxGroup.value <= m.re.groups
              && (forall g :: 1 <= g <= m.re.groups ==> GroupSpan(m, g).end <= GroupSpan(m, maxGroup.value).end)
              && (forall g :: 1 <= g < maxGroup.value ==> GroupSpan(m, g).end < GroupSpan(m, maxGroup.value).end)
  {
    var maxEnd := -1;
    maxGroup := None;
    for g := 1 to m.re.groups + 1
      invariant maxGroup == LastIndexUpTo(m, g - 1)
      invariant maxEnd == if maxGroup.None? then -1 else GroupSpan(m, maxGroup.value).end
    {
      var end := End(m, Index(g));
      if maxEnd < end.value {
        maxEnd := end.value;
        maxGroup := Some(g);
      }
    }
    LastIndexUpToSpec(m, m.re.groups);
  }

  /** The first name the table pairs with index `idx`. */
  function NameFor(table: seq<(string, int)>, idx: int): (r: Option<string>)
    ensures r.None? <==> forall j :: 0 <= j < |table| ==> table[j].1 != idx
    ensures r.Some? ==> exists j :: 0 <= j < |table| && table[j] == (r.value, idx) &&
                          forall k :: 0 <= k < j ==> table[k].1 != idx
  {
    if |table| == 0 then None
    else if table[0].1 == idx then Some(table[0].0)
    else
      var r := NameFor(table[1..], idx);
      if r.Some? then
        ghost var j :| 0 <= j < |table[1..]| && table[1..][j] == (r.value, idx) &&
                       forall k :: 0 <= k < j ==> table[1..][k].1 != idx;
        assert table[j + 1] == (r.value, idx);
        r
      else r
  }

  /** `Match.lastgroup`: the name of the `lastindex` group, None when there is no
      such group or it has no name. */
  function LastGroup(m: Match): (r: Option<string>)
    ensures r.Some? <==> LastIndexOf(m).Some? &&
                         exists j :: 0 <= j < |m.re.groupindex| && m.re.groupindex[j].1 == LastIndexOf(m).value
    ensures r.Some? ==> exists j :: 0 <= j < |m.re.groupindex| &&
                          m.re.groupindex[j] == (r.value, LastIndexOf(m).value as int) &&
                          forall k :: 0 <= k < j ==> m.re.groupindex[k].1 != LastIndexOf(m).value
  {
    LastIndexUpToSpec(m, m.re.groups);
    var maxGroup := LastIndexOf(m);
    if maxGroup.None? || maxGroup.value == 0 then None
    else NameFor(m.re.groupindex, maxGroup.value)
  }
}
