/** `CommunicationAPI.detect_duplicates` and `CommunicationAPI.create_flag_list`:
    the round's list of flag names, drawn at random from the country names. */
module FlagList {
  import CountryNames

  /** The number of flags in one round's list. */
  const FlagCount: nat := 20

  /** Python's `list.count(v)`: how many entries of `s` equal `v`. */
  function Count<T(==)>(s: seq<T>, v: T): (c: nat)
    ensures c == multiset(s)[v]
  {
    if s == [] then 0
    else
      assert s == [s[0]] + s[1..];
      (if s[0] == v then 1 else 0) + Count(s[1..], v)
  }

  /** Some value occurs at two different positions of `s`. */
  predicate HasDuplicate<T(==)>(s: seq<T>)
  {
    exists i, j :: 0 <= i < j < |s| && s[i] == s[j]
  }

  /** A list of names is a possible result of `create_flag_list`: exactly
      `FlagCount` entries, each one of the country names. */
  predicate IsFlagList(flags: seq<string>, names: seq<string>)
  {
    |flags| == FlagCount && forall i :: 0 <= i < |flags| ==> flags[i] in names
  }

  /** `v` occurs in `s` iff it is counted at least once. */
  lemma {:induction false} CountPositive<T>(s: seq<T>, v: T)
    ensures Count(s, v) > 0 <==> v in s
  {
    if s != [] {
      CountPositive(s[1..], v);
      assert v in s <==> s[0] == v || v in s[1..];
    }
  }

  /** `v` is counted more than once iff it occurs at two different positions. */
  lemma {:induction false} CountAtLeastTwo<T>(s: seq<T>, v: T)
    ensures Count(s, v) > 1 <==> exists i, j :: 0 <= i < j < |s| && s[i] == v && s[j] == v
  {
    if s != [] {
      var t := s[1..];
      CountAtLeastTwo(t, v);
      CountPositive(t, v);
      if Count(s, v) > 1 {
        if s[0] == v {
          var j' :| 0 <= j' < |t| && t[j'] == v;
          assert s[0] == v && s[j' + 1] == v;
        } else {
          var i', j' :| 0 <= i' < j' < |t| && t[i'] == v && t[j'] == v;
          assert s[i' + 1] == v && s[j' + 1] == v;
        }
      }
      if exists i, j :: 0 <= i < j < |s| && s[i] == v && s[j] == v {
        var i, j :| 0 <= i < j < |s| && s[i] == v && s[j] == v;
        if i == 0 {
          assert t[j - 1] == v;
        } else {
          assert t[i - 1] == v && t[j - 1] == v;
        }
      }
    }
  }

  /** `detect_duplicates`: for every value of the list, whether the list
      counts it more than once. The result is true iff the list repeats a
      value. */
  method DetectDuplicates<T(==)>(list: seq<T>) returns (duplicates: bool)
    ensures duplicates <==> HasDuplicate(list)
  {
    duplicates := false;
    for k := 0 to |list|
      invariant duplicates <==> exists m :: 0 <= m < k && Count(list, list[m]) > 1
    {
      if Count(list, list[k]) > 1 {
        duplicates := true;
      }
    }
    if duplicates {
      var m :| 0 <= m < |list| && Count(list, list[m]) > 1;
      CountAtLeastTwo(list, list[m]);
    }
    if HasDuplicate(list) {
      var i, j :| 0 <= i < j < |list| && list[i] == list[j];
      CountAtLeastTwo(list, list[i]);
      assert Count(list, list[i]) > 1;
    }
  }

  /** The outcome of one `create_flag_list` call: the list it returns, or
      the `RecursionError` that its retry chain raises once the
      interpreter's recursion limit is reached. */
  datatype FlagDraw = Drawn(flags: seq<string>) | Raised

  /** The indices `random.choice` picks at each nesting level of
      `create_flag_list`, one draw per level the recursion limit admits:
      each draw picks `FlagCount` positions in the list of `count` names. */
  predicate ValidDraws(draws: seq<seq<nat>>, count: nat)
  {
    forall d :: 0 <= d < |draws| ==>
      |draws[d]| == FlagCount && forall i :: 0 <= i < FlagCount ==> draws[d][i] < count
  }

  /** The draws of the nested levels are valid when all draws are. */
  lemma ValidDrawsTail(draws: seq<seq<nat>>, count: nat)
    requires ValidDraws(draws, count) && draws != []
    ensures ValidDraws(draws[1..], count)
  {
    var rest := draws[1..];
    forall d | 0 <= d < |rest| ensures |rest[d]| == FlagCount && forall i :: 0 <= i < FlagCount ==> rest[d][i] < count {
      assert rest[d] == draws[d + 1];
    }
  }

  /** The names at the positions picked by one draw. */
  function Picked(names: seq<string>, draw: seq<nat>): (flags: seq<string>)
    requires forall i :: 0 <= i < |draw| ==> draw[i] < |names|
    ensures |flags| == |draw|
    ensures forall i :: 0 <= i < |draw| ==> flags[i] == names[draw[i]]
  {
    if draw == [] then [] else [names[draw[0]]] + Picked(names, draw[1..])
  }

  /** What `create_flag_list` produces for the given draws: with no level
      left it raises; otherwise it returns the list of the first draw, unless
      that list repeats a name and the nested call (on the remaining draws)
      raises. */
  function Outcome(names: seq<string>, draws: seq<seq<nat>>): FlagDraw
    requires ValidDraws(draws, |names|)
    decreases |draws|
  {
    if draws == [] then Raised
    else
      var flags := Picked(names, draws[0]);
      if HasDuplicate(flags) && Outcome(names, draws[1..]).Raised? then Raised
      else Drawn(flags)
  }

  /** A returned list is always the list of the outermost level, and it is a
      flag list of the names. */
  lemma OutcomeIsFirstLevel(names: seq<string>, draws: seq<seq<nat>>)
    requires ValidDraws(draws, |names|)
    ensures Outcome(names, draws).Drawn? ==>
      && draws != []
      && Outcome(names, draws).flags == Picked(names, draws[0])
      && IsFlagList(Outcome(names, draws).flags, names)
  {
  }

  /** The call raises iff every level the recursion limit admits draws a list
      with a repeated name. */
  lemma {:induction false} RaisedIffAllRepeat(names: seq<string>, draws: seq<seq<nat>>)
    requires ValidDraws(draws, |names|)
    ensures Outcome(names, draws).Raised? <==>
      forall d :: 0 <= d < |draws| ==> HasDuplicate(Picked(names, draws[d]))
  {
    if draws != [] {
      var rest := draws[1..];
      ValidDrawsTail(draws, |names|);
      RaisedIffAllRepeat(names, rest);
      if forall d :: 0 <= d < |draws| ==> HasDuplicate(Picked(names, draws[d])) {
        forall d | 0 <= d < |rest| ensures HasDuplicate(Picked(names, rest[d])) {
          assert rest[d] == draws[d + 1];
        }
      }
      if HasDuplicate(Picked(names, draws[0])) && (forall d :: 0 <= d < |rest| ==> HasDuplicate(Picked(names, rest[d]))) {
        forall d | 0 <= d < |draws| ensures HasDuplicate(Picked(names, draws[d])) {
          if d > 0 {
            assert draws[d] == rest[d - 1];
          }
        }
      }
    }
  }

  /** The retry's list is thrown away: when the outermost list repeats a name
      and the nested call returns a list without repetitions, the call
      returns the outermost list, repetitions included. */
  lemma DuplicatesSurvive(names: seq<string>, draws: seq<seq<nat>>)
    requires ValidDraws(draws, |names|)
    requires |draws| >= 2
    requires HasDuplicate(Picked(names, draws[0]))
    requires !HasDuplicate(Picked(names, draws[1]))
    ensures Outcome(names, draws) == Drawn(Picked(names, draws[0]))
    ensures HasDuplicate(Outcome(names, draws).flags)
  {
    var rest := draws[1..];
    assert rest[0] == draws[1];
    ValidDrawsTail(draws, |names|);
    assert Outcome(names, rest) == Drawn(Picked(names, rest[0]));
  }

  /** With fewer than `FlagCount` distinct names, the call raises whatever
      positions are drawn. */
  lemma FewNamesRaise(names: seq<string>, draws: seq<seq<nat>>)
    requires ValidDraws(draws, |names|)
    requires |set n | n in names| < FlagCount
    ensures Outcome(names, draws).Raised?
  {
    forall d | 0 <= d < |draws| ensures HasDuplicate(Picked(names, draws[d])) {
      FewNamesForceDuplicates(Picked(names, draws[d]), names);
    }
    RaisedIffAllRepeat(names, draws);
  }

  /** The two facts about `Outcome` that `create_flag_list` promises. */
  lemma OutcomeFacts(names: seq<string>, draws: seq<seq<nat>>)
    requires ValidDraws(draws, |names|)
    ensures Outcome(names, draws).Drawn? ==> IsFlagList(Outcome(names, draws).flags, names)
    ensures |set n | n in names| < FlagCount ==> Outcome(names, draws).Raised?
  {
    OutcomeIsFirstLevel(names, draws);
    if |set n | n in names| < FlagCount {
      FewNamesRaise(names, draws);
    }
  }

  /** `create_flag_list`: reads the country names (here: parses the given
      file content) and appends `FlagCount` names, each chosen by
      `random.choice`; `draws` holds the positions chosen at each level. If
      the list repeats a name, the function calls itself again and throws
      that call's list away: the list built here is returned once the nested
      call returns, and an exception of the nested call propagates. A call
      with no level of the recursion limit left raises. */
  method CreateFlagList(content: string, draws: seq<seq<nat>>) returns (result: FlagDraw)
    requires ValidDraws(draws, |CountryNames.ParseNames(content)|)
    ensures result == Outcome(CountryNames.ParseNames(content), draws)
    ensures result.Drawn? ==> IsFlagList(result.flags, CountryNames.ParseNames(content))
    ensures |set n | n in CountryNames.ParseNames(content)| < FlagCount ==> result.Raised?
    decreases |draws|
  {
    if draws == [] {
      return Raised;
    }
    var flagFileNames := CountryNames.ParseNames(content);
    var draw := draws[0];
    assert |draw| == FlagCount && forall i :: 0 <= i < |draw| ==> draw[i] < |flagFileNames|;
    var finalCountries := [];
    for i := 0 to FlagCount
      invariant |finalCountries| == i
      invariant forall k :: 0 <= k < i ==> finalCountries[k] == flagFileNames[draw[k]]
    {
      var choice := draw[i];
      finalCountries := finalCountries + [flagFileNames[choice]];
    }
    assert finalCountries == Picked(flagFileNames, draw);
    ValidDrawsTail(draws, |flagFileNames|);
    var duplicates := DetectDuplicates(finalCountries);
    result := Drawn(finalCountries);
    if duplicates {
      var retry := CreateFlagList(content, draws[1..]);
      if retry.Raised? {
        result := Raised;
      }
    }
    OutcomeFacts(flagFileNames, draws);
  }

  /** With fewer than `FlagCount` distinct country names, every list of
      `FlagCount` draws repeats a name, so the duplicate check at every
      level of `create_flag_list` fires and its retry never ends normally. */
  lemma FewNamesForceDuplicates(flags: seq<string>, names: seq<string>)
    requires IsFlagList(flags, names)
    requires |set n | n in names| < FlagCount
    ensures HasDuplicate(flags)
  {
    if !HasDuplicate(flags) {
      DistinctCardinality(flags);
      SubsetCardinality(set f | f in flags, set n | n in names);
    }
  }

  /** A list without repeated values has as many distinct values as entries. */
  lemma {:induction false} DistinctCardinality<T>(s: seq<T>)
    requires !HasDuplicate(s)
    ensures |set x | x in s| == |s|
  {
    if s != [] {
      var t := s[1..];
      assert forall i, j :: 0 <= i < j < |t| ==> t[i] == s[i + 1] && t[j] == s[j + 1];
      DistinctCardinality(t);
      assert forall j :: 0 <= j < |t| ==> t[j] == s[j + 1];
      assert (set x | x in s) == (set x | x in t) + {s[0]};
    }
  }

  /** A subset is no larger than the set containing it. */
  lemma {:induction false} SubsetCardinality<T>(a: set<T>, b: set<T>)
    requires a <= b
    ensures |a| <= |b|
  {
    if a != {} {
      var x :| x in a;
      SubsetCardinality(a - {x}, b - {x});
    }
  }
}
