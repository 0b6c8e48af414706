/** The fuzzy matcher over the constants of an enumeration. The constants are normalized once,
    kept in an array sorted by normalized name, and every query walks that array in order,
    handing each accepted constant to a handler that may stop the walk. How names and
    syllables are derived from a constant, and how query syllables are matched against a
    constant's syllables, are parameters of the model. */
module EnumMatching {
  import opened Wrappers
  import opened Sequences
  import opened Sorting

  /** A constant together with its normalized display name and its syllables. */
  datatype NormalizedConstant<T> = NormalizedConstant(constant: T, normalizedName: string, syllables: seq<string>)

  function NameOf<T>(c: NormalizedConstant<T>): string {
    c.normalizedName
  }

  /** The constants of `values`, normalized one by one, in their declaration order. */
  function Normalize<T>(values: seq<T>, nameOf: T -> string, syllablesOf: T -> seq<string>): seq<NormalizedConstant<T>> {
    seq(|values|, k requires 0 <= k < |values| => NormalizedConstant(values[k], nameOf(values[k]), syllablesOf(values[k])))
  }

  /** Whether a constant is accepted: it passes the filter, if there is one, and when there is a
      query, none of the query's syllables stays unmatched against the constant's syllables. */
  function Accepts<T>(query: Option<seq<string>>, filter: Option<NormalizedConstant<T> -> bool>,
                      matches: (seq<string>, seq<string>) -> bool): NormalizedConstant<T> -> bool
  {
    c => (filter.None? || filter.value(c)) && (query.None? || matches(query.value, c.syllables))
  }

  /** What handing `accepted` to `handler` in order yields: the constant at which the handler
      first answers "stop" (if any), and every constant the handler was applied to. */
  function Dispatch<T>(accepted: seq<NormalizedConstant<T>>, handler: NormalizedConstant<T> -> bool): (Option<NormalizedConstant<T>>, seq<NormalizedConstant<T>>)
  {
    if accepted == [] then (None, [])
    else if !handler(accepted[0]) then (Some(accepted[0]), [accepted[0]])
    else (Dispatch(accepted[1..], handler).0, [accepted[0]] + Dispatch(accepted[1..], handler).1)
  }

  /** A handler that never stops sees every accepted constant, and the walk returns nothing. */
  lemma {:induction false} DispatchNeverStopping<T>(accepted: seq<NormalizedConstant<T>>, handler: NormalizedConstant<T> -> bool)
    requires forall k :: 0 <= k < |accepted| ==> handler(accepted[k])
    ensures Dispatch(accepted, handler) == (None, accepted)
    decreases |accepted|
  {
    if accepted != [] {
      DispatchNeverStopping(accepted[1..], handler);
      assert [accepted[0]] + accepted[1..] == accepted;
    }
  }

  /** A handler that continues through `prefix` and stops at `c` makes the walk return `c`. */
  lemma {:induction false} DispatchStopsAt<T>(prefix: seq<NormalizedConstant<T>>, c: NormalizedConstant<T>,
                                              rest: seq<NormalizedConstant<T>>, handler: NormalizedConstant<T> -> bool)
    requires forall k :: 0 <= k < |prefix| ==> handler(prefix[k])
    requires !handler(c)
    ensures Dispatch(prefix + [c] + rest, handler) == (Some(c), prefix + [c])
    decreases |prefix|
  {
    if prefix != [] {
      DispatchStopsAt(prefix[1..], c, rest, handler);
      assert (prefix + [c] + rest)[1..] == prefix[1..] + [c] + rest;
      assert [prefix[0]] + (prefix[1..] + [c]) == prefix + [c];
    } else {
      assert prefix + [c] + rest == [c] + rest;
    }
  }

  /** A handler that stops at once yields the first accepted constant, if there is one. */
  lemma {:induction false} DispatchStoppingAtOnce<T>(accepted: seq<NormalizedConstant<T>>, handler: NormalizedConstant<T> -> bool)
    requires forall c :: !handler(c)
    ensures Dispatch(accepted, handler).0 == (if accepted == [] then None else Some(accepted[0]))
  {
  }

  /** The normalized names of `cs`, in order. */
  function Names<T>(cs: seq<NormalizedConstant<T>>): seq<string> {
    seq(|cs|, k requires 0 <= k < |cs| => cs[k].normalizedName)
  }

  /** The first element of `cs`, if there is one. */
  function First<T>(cs: seq<NormalizedConstant<T>>): Option<NormalizedConstant<T>> {
    if cs == [] then None else Some(cs[0])
  }

  /** Names taken from a sequence sorted by name are ascending. */
  lemma {:induction false} NamesAscending<T>(cs: seq<NormalizedConstant<T>>)
    requires SortedBy(cs, NameOf)
    ensures forall i, j :: 0 <= i < j < |Names(cs)| ==> LexLe(Names(cs)[i], Names(cs)[j])
  {
    assert forall k :: 0 <= k < |cs| ==> Names(cs)[k] == NameOf(cs[k]);
  }

  /** The constants a query accepts, as a subsequence of the sorted constants: sorted again,
      holding exactly the accepted constants, and never more of them than there are constants. */
  lemma {:induction false} AcceptedProperties<T>(constants: seq<NormalizedConstant<T>>, accepts: NormalizedConstant<T> -> bool)
    requires SortedBy(constants, NameOf)
    ensures SortedBy(Filter(constants, accepts), NameOf)
    ensures IsSubsequence(Filter(constants, accepts), constants)
    ensures |Filter(constants, accepts)| <= |constants|
    ensures forall c :: c in Filter(constants, accepts) <==> c in constants && accepts(c)
  {
    FilterSortedBy(constants, accepts, NameOf);
    FilterIsSubsequence(constants, accepts);
    forall c ensures c in Filter(constants, accepts) <==> c in constants && accepts(c) {
      FilterMembership(constants, accepts, c);
    }
  }

  /** Without a query and without a filter every constant is accepted, in the stored order. */
  lemma {:induction false} EverythingAcceptedWithoutQueryOrFilter<T>(constants: seq<NormalizedConstant<T>>, matches: (seq<string>, seq<string>) -> bool)
    ensures Filter(constants, Accepts(None, None, matches)) == constants
  {
    FilterTrue(constants, Accepts(None, None, matches));
  }

  class EnumMatcher<T(0)> {
    /** The normalized constants, sorted by normalized name. */
    const constants: array<NormalizedConstant<T>>
    /** The syllables of a search text. */
    const querySyllables: string -> seq<string>
    /** Whether a query, as syllables, is fully matched by a constant's syllables. */
    const matches: (seq<string>, seq<string>) -> bool

    ghost predicate Valid()
      reads this, constants
    {
      SortedBy(constants[..], NameOf)
    }

    /** The syllables to match, if there is a search text. */
    function Query(input: Option<string>): Option<seq<string>> {
      if input.None? then None else Some(querySyllables(input.value))
    }

    /** The constants a query accepts, in the stored order. */
    function Accepted(input: Option<string>, filter: Option<NormalizedConstant<T> -> bool>): seq<NormalizedConstant<T>>
      reads this, constants
    {
      Filter(constants[..], Accepts(Query(input), filter, matches))
    }

    /** Normalizes every value, then sorts by normalized name with a stable sort. */
    constructor(values: array<T>, nameOf: T -> string, syllablesOf: T -> seq<string>,
                querySyllables: string -> seq<string>, matches: (seq<string>, seq<string>) -> bool)
      ensures constants[..] == SortByKey(Normalize(values[..], nameOf, syllablesOf), NameOf)
      ensures multiset(constants[..]) == multiset(Normalize(values[..], nameOf, syllablesOf))
      ensures forall name :: KeyFilter(constants[..], NameOf, name) == KeyFilter(Normalize(values[..], nameOf, syllablesOf), NameOf, name)
      ensures fresh(constants)
      ensures this.querySyllables == querySyllables && this.matches == matches
      ensures Valid()
    {
      var normalized := new NormalizedConstant<T>[values.Length];
      for i := 0 to values.Length
        invariant normalized[..i] == Normalize(values[..i], nameOf, syllablesOf)
      {
        normalized[i] := NormalizedConstant(values[i], nameOf(values[i]), syllablesOf(values[i]));
        assert values[..i + 1][..i] == values[..i];
        assert normalized[..i + 1] == normalized[..i] + [normalized[i]];
      }
      assert normalized[..] == normalized[..values.Length] && values[..] == values[..values.Length];
      SortInPlace(normalized, NameOf);
      SortByKeyProperties(Normalize(values[..], nameOf, syllablesOf), NameOf);
      constants := normalized;
      this.querySyllables := querySyllables;
      this.matches := matches;
    }

    /** Walks the constants in order and hands each accepted one to `handler`, stopping at the
        first constant for which the handler answers false; returns that constant, and the
        constants the handler was applied to. */
    method ForEachMatch(input: Option<string>, filter: Option<NormalizedConstant<T> -> bool>, handler: NormalizedConstant<T> -> bool)
      returns (r: Option<NormalizedConstant<T>>, handled: seq<NormalizedConstant<T>>)
      ensures (r, handled) == Dispatch(Accepted(input, filter), handler)
    {
      var accepts := Accepts(Query(input), filter, matches);
      handled := [];
      if input.None? {
        for i := 0 to constants.Length
          invariant handled == Filter(constants[..i], accepts)
          invariant forall k :: 0 <= k < |handled| ==> handler(handled[k])
        {
          var c := constants[i];
          assert constants[..i + 1] == constants[..i] + [c];
          if filter.Some? && !filter.value(c) {
            continue;
          }
          if !handler(c) {
            Stopped(handled, i, accepts, handler);
            r, handled := Some(c), handled + [c];
            return;
          }
          handled := handled + [c];
        }
        assert constants[..] == constants[..constants.Length];
        DispatchNeverStopping(handled, handler);
        return None, handled;
      }

      var query := querySyllables(input.value);
      // the matcher starts out fresh once the query is set
      ghost var freshMatcher := true;
      for constantIndex := 0 to constants.Length
        invariant handled == Filter(constants[..constantIndex], accepts)
        invariant forall k :: 0 <= k < |handled| ==> handler(handled[k])
        invariant constantIndex == 0 ==> freshMatcher
      {
        var c := constants[constantIndex];
        assert constants[..constantIndex + 1] == constants[..constantIndex] + [c];
        if filter.Some? && !filter.value(c) {
          continue;
        }
        if constantIndex != 0 {
          freshMatcher := true;
        }
        // every candidate is judged by a matcher holding nothing from earlier candidates
        assert freshMatcher;
        var matched := matches(query, c.syllables);
        freshMatcher := false;
        if !matched {
          continue;
        }
        if !handler(c) {
          Stopped(handled, constantIndex, accepts, handler);
          r, handled := Some(c), handled + [c];
          return;
        }
        handled := handled + [c];
      }
      assert constants[..] == constants[..constants.Length];
      DispatchNeverStopping(handled, handler);
      r := None;
    }

    /** The walk stops at `constants[i]` when the handler refuses it after accepting `handled`. */
    lemma {:induction false} Stopped(handled: seq<NormalizedConstant<T>>, i: nat, accepts: NormalizedConstant<T> -> bool,
                  handler: NormalizedConstant<T> -> bool)
      requires i < constants.Length && accepts(constants[i]) && !handler(constants[i])
      requires handled == Filter(constants[..i], accepts)
      requires forall k :: 0 <= k < |handled| ==> handler(handled[k])
      ensures Dispatch(Filter(constants[..], accepts), handler) == (Some(constants[i]), handled + [constants[i]])
    {
      var c := constants[i];
      assert constants[..] == constants[..i + 1] + constants[i + 1..];
      assert constants[..i + 1] == constants[..i] + [c];
      FilterConcat(constants[..i + 1], constants[i + 1..], accepts);
      DispatchStopsAt(handled, c, Filter(constants[i + 1..], accepts), handler);
    }

    /** The names of every accepted constant, in the stored (sorted) order. */
    method CreateCompletions(input: Option<string>, filter: Option<NormalizedConstant<T> -> bool>) returns (names: seq<string>)
      requires Valid()
      ensures names == Names(Accepted(input, filter))
      ensures forall i, j :: 0 <= i < j < |names| ==> LexLe(names[i], names[j])
      ensures |names| <= constants.Length
    {
      var _, handled := ForEachMatch(input, filter, _ => true);
      DispatchNeverStopping(Accepted(input, filter), _ => true);
      names := Names(handled);
      AcceptedProperties(constants[..], Accepts(Query(input), filter, matches));
      NamesAscending(Accepted(input, filter));
    }

    /** The first accepted constant, if there is one. */
    method MatchFirst(input: Option<string>, filter: Option<NormalizedConstant<T> -> bool>) returns (r: Option<NormalizedConstant<T>>)
      ensures r == First(Accepted(input, filter))
      ensures r.None? <==> Names(Accepted(input, filter)) == []
      ensures r.Some? ==> r.value.normalizedName == Names(Accepted(input, filter))[0]
    {
      var handled;
      r, handled := ForEachMatch(input, filter, _ => false);
      DispatchStoppingAtOnce(Accepted(input, filter), _ => false);
    }
  }
}
