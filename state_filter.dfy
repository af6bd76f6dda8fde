/**
 The state filter matcher: a structural, partial comparison of a sparse
 filter tree against a resource's observed state tree (src/main.rs:110-134).
 Both trees are YAML values.
 */
module StateFilter {

  /** A YAML value tree. Mappings are keyed by arbitrary values, as in a YAML
      document; numbers are integers (floating-point numbers and tagged
      values are not part of this model). */
  datatype Value =
    | Null
    | Bool(b: bool)
    | Number(n: int)
    | String(s: string)
    | Sequence(items: seq<Value>)
    | Mapping(entries: map<Value, Value>)

  /** A value that is neither a sequence nor a mapping. */
  predicate IsScalar(v: Value) {
    !v.Sequence? && !v.Mapping?
  }

  /** Whether two values are of the same variant. */
  predicate SameVariant(a: Value, b: Value) {
    && a.Null? == b.Null?
    && a.Bool? == b.Bool?
    && a.Number? == b.Number?
    && a.String? == b.String?
    && a.Sequence? == b.Sequence?
    && a.Mapping? == b.Mapping?
  }

  /** The matching relation. Mapping against mapping: every filter key is
      present in the state and its value matches. Sequence against sequence:
      every filter element matches every state element. Any other pair: the
      two values are equal. */
  predicate Matches(filter: Value, state: Value)
    decreases filter
  {
    match (filter, state)
    case (Mapping(m1), Mapping(m2)) =>
      forall k :: k in m1 ==> k in m2 && Matches(m1[k], m2[k])
    case (Sequence(s1), Sequence(s2)) =>
      forall i, j :: 0 <= i < |s1| && 0 <= j < |s2| ==> Matches(s1[i], s2[j])
    case _ =>
      filter == state
  }

  /** `match_state`: the mapping case walks the filter's keys and stops at the
      first key that is missing from the state or whose value does not match;
      the sequence case checks each filter element against each state element
      and stops at the first failure. */
  method MatchState(filter: Value, state: Value) returns (r: bool)
    ensures r == Matches(filter, state)
    decreases filter
  {
    if filter.Mapping? && state.Mapping? {
      var m1, m2 := filter.entries, state.entries;
      var remaining := m1.Keys;
      while remaining != {}
        invariant remaining <= m1.Keys
        invariant forall k :: k in m1 && k !in remaining ==> k in m2 && Matches(m1[k], m2[k])
        decreases remaining
      {
        var k :| k in remaining;
        if k !in m2 {
          return false;
        }
        var ok := MatchState(m1[k], m2[k]);
        if !ok {
          return false;
        }
        remaining := remaining - {k};
      }
      return true;
    } else if filter.Sequence? && state.Sequence? {
      var s1, s2 := filter.items, state.items;
      for i := 0 to |s1|
        invariant forall i', j :: 0 <= i' < i && 0 <= j < |s2| ==> Matches(s1[i'], s2[j])
      {
        for j := 0 to |s2|
          invariant forall j' :: 0 <= j' < j ==> Matches(s1[i], s2[j'])
        {
          var ok := MatchState(s1[i], s2[j]);
          if !ok {
            return false;
          }
        }
      }
      return true;
    } else {
      return filter == state;
    }
  }

  // Properties of the matching relation.

  /** An empty filter mapping matches every state mapping. */
  lemma EmptyMappingMatchesAnyMapping(state: map<Value, Value>)
    ensures Matches(Mapping(map[]), Mapping(state))
  {
  }

  /** A filter key that the state lacks makes the match fail. */
  lemma MissingKeyFails(filter: map<Value, Value>, state: map<Value, Value>, k: Value)
    requires k in filter && k !in state
    ensures !Matches(Mapping(filter), Mapping(state))
  {
  }

  /** A filter value that does not match the state's value under the same key
      makes the whole mapping fail. */
  lemma MismatchedValueFails(filter: map<Value, Value>, state: map<Value, Value>, k: Value)
    requires k in filter && k in state && !Matches(filter[k], state[k])
    ensures !Matches(Mapping(filter), Mapping(state))
  {
  }

  /** Keys of the state that the filter does not mention are ignored: adding
      them, or changing their values, never breaks a match. */
  lemma ExtraStateKeysIgnored(filter: map<Value, Value>, state: map<Value, Value>, larger: map<Value, Value>)
    requires Matches(Mapping(filter), Mapping(state))
    requires forall k :: k in filter ==> k in larger && larger[k] == state[k]
    ensures Matches(Mapping(filter), Mapping(larger))
  {
  }

  /** Dropping keys from a matching filter keeps it matching. */
  lemma FewerFilterKeysStillMatch(filter: map<Value, Value>, smaller: map<Value, Value>, state: map<Value, Value>)
    requires Matches(Mapping(filter), Mapping(state))
    requires forall k :: k in smaller ==> k in filter && smaller[k] == filter[k]
    ensures Matches(Mapping(smaller), Mapping(state))
  {
  }

  /** A sequence filter matches vacuously when either sequence is empty. */
  lemma EmptySequenceMatchesVacuously(filter: seq<Value>, state: seq<Value>)
    requires filter == [] || state == []
    ensures Matches(Sequence(filter), Sequence(state))
  {
  }

  /** Sequence matching is all-against-all: a matching sequence filter holding
      a scalar forces every state element to equal that scalar. */
  lemma ScalarInSequenceFilterForcesEveryElement(filter: seq<Value>, state: seq<Value>, i: nat)
    requires Matches(Sequence(filter), Sequence(state))
    requires i < |filter| && IsScalar(filter[i])
    ensures forall j :: 0 <= j < |state| ==> state[j] == filter[i]
  {
    forall j | 0 <= j < |state|
      ensures state[j] == filter[i]
    {
      assert Matches(filter[i], state[j]);
    }
  }

  /** Matching is not reflexive: `[1, 2]` does not match `[1, 2]`, because the
      filter element 1 must also match the state element 2. */
  lemma SequenceMatchIsNotReflexive()
    ensures !Matches(Sequence([Number(1), Number(2)]), Sequence([Number(1), Number(2)]))
  {
    var s := [Number(1), Number(2)];
    assert !Matches(s[0], s[1]);
  }

  /** Two values of different variants never match; a mapping never matches
      a sequence or a scalar. */
  lemma DifferentVariantsNeverMatch(filter: Value, state: Value)
    requires !SameVariant(filter, state)
    ensures !Matches(filter, state)
  {
  }

  /** When either side is a scalar, matching is plain equality. */
  lemma ScalarMatchIsEquality(filter: Value, state: Value)
    requires IsScalar(filter) || IsScalar(state)
    ensures Matches(filter, state) <==> filter == state
  {
  }

  /** Every sequence inside `v` (at any depth) has at most one element. */
  predicate ShortSequencesOnly(v: Value)
    decreases v
  {
    match v
    case Sequence(s) => |s| <= 1 && forall i :: 0 <= i < |s| ==> ShortSequencesOnly(s[i])
    case Mapping(m) => forall k :: k in m ==> ShortSequencesOnly(m[k])
    case _ => true
  }

  /** Every sequence inside `v` (at any depth) is non-empty. */
  predicate NonEmptySequencesOnly(v: Value)
    decreases v
  {
    match v
    case Sequence(s) => |s| > 0 && forall i :: 0 <= i < |s| ==> NonEmptySequencesOnly(s[i])
    case Mapping(m) => forall k :: k in m ==> NonEmptySequencesOnly(m[k])
    case _ => true
  }

  /** A value matches itself when none of its sequences has two elements;
      sequences with two different elements are what breaks reflexivity. */
  lemma {:induction false} MatchesReflexive(v: Value)
    requires ShortSequencesOnly(v)
    ensures Matches(v, v)
    decreases v
  {
    match v
    case Sequence(s) =>
      if |s| == 1 {
        MatchesReflexive(s[0]);
      }
    case Mapping(m) =>
      forall k | k in m
        ensures Matches(m[k], m[k])
      {
        MatchesReflexive(m[k]);
      }
    case _ =>
  }

  /** Matching is transitive through an intermediate value none of whose
      sequences is empty. */
  lemma {:induction false} MatchesTransitive(a: Value, b: Value, c: Value)
    requires Matches(a, b) && Matches(b, c)
    requires NonEmptySequencesOnly(b)
    ensures Matches(a, c)
    decreases a
  {
    if a.Mapping? && b.Mapping? && c.Mapping? {
      forall k | k in a.entries
        ensures k in c.entries && Matches(a.entries[k], c.entries[k])
      {
        MatchesTransitive(a.entries[k], b.entries[k], c.entries[k]);
      }
    } else if a.Sequence? && b.Sequence? && c.Sequence? {
      var sa, sb, sc := a.items, b.items, c.items;
      forall i, j | 0 <= i < |sa| && 0 <= j < |sc|
        ensures Matches(sa[i], sc[j])
      {
        MatchesTransitive(sa[i], sb[0], sc[j]);
      }
    }
  }

  /** Without the non-empty condition transitivity fails: `[1]` matches `[]`
      and `[]` matches `[2]`, yet `[1]` does not match `[2]`. */
  lemma EmptySequenceBreaksTransitivity()
    ensures Matches(Sequence([Number(1)]), Sequence([]))
    ensures Matches(Sequence([]), Sequence([Number(2)]))
    ensures !Matches(Sequence([Number(1)]), Sequence([Number(2)]))
  {
    var s1, s2 := [Number(1)], [Number(2)];
    assert !Matches(s1[0], s2[0]);
  }

  /** Worked examples of nested matching: a sequence of mapping filters
      requires every filter mapping to be a subset of every state mapping. */
  lemma NestedExamples()
    ensures Matches(Mapping(map[String("a") := Number(1)]),
                    Mapping(map[String("a") := Number(1), String("b") := Number(2)]))
    ensures !Matches(Mapping(map[String("a") := Number(2)]), Mapping(map[String("a") := Number(1)]))
    ensures Matches(Sequence([Mapping(map[String("x") := Number(1)])]),
                    Sequence([Mapping(map[String("x") := Number(1), String("y") := Number(2)])]))
    ensures !Matches(Sequence([Mapping(map[String("x") := Number(1)]), Mapping(map[String("z") := Number(9)])]),
                     Sequence([Mapping(map[String("x") := Number(1), String("y") := Number(2)])]))
  {
    var x, y, z := String("x"), String("y"), String("z");
    var doc := Mapping(map[x := Number(1), y := Number(2)]);
    assert Matches(Mapping(map[x := Number(1)]), doc) by {
      assert Matches(Number(1), doc.entries[x]);
    }
    assert !Matches(Mapping(map[z := Number(9)]), doc) by {
      assert z !in doc.entries;
    }
    var a := String("a");
    var f, d := map[a := Number(2)], map[a := Number(1)];
    assert !Matches(f[a], d[a]);
    var s := [Mapping(map[x := Number(1)]), Mapping(map[z := Number(9)])];
    assert !Matches(s[1], [doc][0]);
  }
}
