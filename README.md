# k8s-wait: a verified model of the watch-until-match core

`k8s-wait` blocks until one named Kubernetes resource reaches a state that
satisfies a YAML filter, then prints that state. This project models its
core in Dafny and proves properties of it:

- **State filter matcher** (`StateFilter`, `state_filter.dfy`). YAML values are
  a tagged union (`Null`, `Bool`, `Number`, `String`, `Sequence`, `Mapping`).
  `Matches` is the matching relation, written with quantifiers:
  - A mapping filter against a mapping state is a required-subset check.
  - A sequence filter against a sequence state is an all-against-all check.
  - Any other pair must be equal.

  `MatchState` is `match_state` as the tool runs it. It walks the filter's
  keys with an early exit, and checks each filter element against each state
  element. It is proved equal to `Matches`.
- **Resource resolver** (`Resolver`, `resolver.dfy`).
  - `FilterResource` is `Args::filter_resource`. `kind` is mandatory, and
    every absent optional criterion is a wildcard.
  - `Resolve` is the selection block of `main`. It returns the unique catalog
    entry the criteria select, or fails with `NotFound` or `Ambiguous`.
- **Watch loop** (`Watch`, `watch.dfy`). The watcher stream becomes a finite
  sequence of `Event`s: `Applied`, `Deleted`, `Restarted` or a transient
  `StreamError`. `WatchForConditionMet` is the `while let` loop. It returns
  the first matching state, or `StreamEnded` once the events run out. It
  also returns how many events it consumed.
  - `WatchOutcome` specifies the loop event by event.
  - `WatchOutcomeIsFirstMatchOfStream` proves that `WatchOutcome` picks the
    first matching state of the whole stream of offered states.

The plural criterion is kept as the code has it: `filter_resource` compares
`--plural` with the resource's apiVersion, not its plural name
(src/main.rs:84-88). `PluralNameIsComparedWithApiVersion` shows what this
means: giving a resource's real plural name rejects that resource whenever
the plural differs from the apiVersion. The model follows the code here,
not the plural-name comparison a reader might expect.

In the fallback case the code compares the two values with plain equality
(src/main.rs:132). It does not canonicalise scalars any further, and neither
does the model. In `match_state` the state is re-serialised with
`serde_yaml::to_value` although it is already a YAML value (src/main.rs:111);
the model treats that step as the identity. The watch loop, by contrast,
converts each Kubernetes object it receives into a YAML value
(src/main.rs:150-151, 161-162). The model abstracts that conversion away:
its events already carry the converted YAML values.

## Model

| member | source | states |
|---|---|---|
| `StateFilter.Matches` | src/main.rs:113-133 | The matching relation: mapping against mapping holds iff every filter key is in the state and its value matches; sequence against sequence holds iff every filter element matches every state element; any other pair holds iff the values are equal. |
| `StateFilter.MatchState` | src/main.rs:110-134 | The result is exactly the matching relation. Mapping against mapping: every filter key is present and its value matches. Sequence against sequence: every filter element matches every state element. Otherwise: the values are equal. |
| `StateFilter.EmptyMappingMatchesAnyMapping` | src/main.rs:114-126 | An empty filter mapping matches every state mapping. |
| `StateFilter.MissingKeyFails` | src/main.rs:115-118 | A filter key that the state mapping lacks makes the match false. |
| `StateFilter.MismatchedValueFails` | src/main.rs:115-122 | A filter value that fails to match the state's value under the same key makes the match false. |
| `StateFilter.ExtraStateKeysIgnored` | src/main.rs:114-126 | Keys the filter does not mention never affect a match: any state that agrees on the filter's keys also matches. |
| `StateFilter.FewerFilterKeysStillMatch` | src/main.rs:114-126 | Any sub-mapping of a matching filter also matches. |
| `StateFilter.EmptySequenceMatchesVacuously` | src/main.rs:128-130 | A sequence match holds when either sequence is empty. |
| `StateFilter.ScalarInSequenceFilterForcesEveryElement` | src/main.rs:128-130 | All-against-all: if a matching sequence filter holds a scalar, every element of the state sequence equals that scalar. |
| `StateFilter.SequenceMatchIsNotReflexive` | src/main.rs:128-130 | `[1, 2]` does not match `[1, 2]`. |
| `StateFilter.DifferentVariantsNeverMatch` | src/main.rs:132 | Values of different variants, such as a mapping against a sequence or a scalar, never match. |
| `StateFilter.ScalarMatchIsEquality` | src/main.rs:132 | When either side is a scalar, matching holds iff the two values are equal. |
| `StateFilter.MatchesReflexive` | src/main.rs:113-133 | A value matches itself when none of its nested sequences has two or more elements. |
| `StateFilter.MatchesTransitive` | src/main.rs:113-133 | If a matches b and b matches c, then a matches c, provided no sequence inside b is empty. |
| `StateFilter.EmptySequenceBreaksTransitivity` | src/main.rs:128-130 | Without that proviso transitivity fails: `[1]` matches `[]`, `[]` matches `[2]`, and `[1]` does not match `[2]`. |
| `StateFilter.NestedExamples` | src/main.rs:113-133 | Examples: `{a: 1}` matches `{a: 1, b: 2}`. `{a: 2}` does not match `{a: 1}`. `[{x: 1}]` matches `[{x: 1, y: 2}]`. `[{x: 1}, {z: 9}]` does not match `[{x: 1, y: 2}]`. |
| `Resolver.FilterResource` | src/main.rs:68-89 | A resource passes iff its kind equals the required kind and each present criterion among group, group version, apiVersion and plural equals the resource's group, version, apiVersion and apiVersion respectively; an absent criterion accepts anything. |
| `Resolver.PresentCriteriaMustAgree` | src/main.rs:68-89 | A resource that passes the filter has exactly the required kind, and agrees with every present criterion. The plural criterion is compared with the apiVersion. |
| `Resolver.AbsentCriteriaAreWildcards` | src/main.rs:68-89 | When every optional criterion is absent, the filter holds iff the kinds are equal. |
| `Resolver.DroppingCriterionWidens` | src/main.rs:68-89 | Removing any single optional criterion never rejects a resource that passed. |
| `Resolver.PluralNameIsComparedWithApiVersion` | src/main.rs:84-88 | Passing a resource's own plural name as `--plural` rejects that resource whenever its plural differs from its apiVersion. |
| `Resolver.Candidates` | src/main.rs:191-195 | The collected candidates are catalog entries that pass the filter, and every catalog entry that passes is among them. |
| `Resolver.SomeCandidate` | src/main.rs:197-200 | There is at least one candidate iff some catalog entry passes the filter. |
| `Resolver.CandidateCount` | src/main.rs:202-205 | There are two or more candidates iff two distinct catalog positions pass the filter. |
| `Resolver.SoleCandidate` | src/main.rs:202-208 | A single candidate is the entry at the only catalog position that passes the filter. |
| `Resolver.Resolve` | src/main.rs:191-208 | Fails with `NotFound` iff no entry passes. Fails with `Ambiguous` iff two or more entries pass. Otherwise returns the entry at the unique passing position. |
| `Watch.Offered` | src/main.rs:149-173 | The states an event hands to the matcher, in order: the applied state, the resync's snapshots in list order, and nothing for a deletion or a stream error. |
| `Watch.AllOffered` | src/main.rs:147-175 | Every state the events hand to the matcher, event after event, in stream order. |
| `Watch.FirstMatch` | src/main.rs:159-167 | Gives the position of the first matching snapshot, with no earlier one matching, or none when no snapshot matches. |
| `Watch.FirstMatchIsUnique` | src/main.rs:159-167 | A matching snapshot with no earlier match is the one chosen. |
| `Watch.FirstMatchingSnapshot` | src/main.rs:160-166 | The loop over a resync's snapshots stops at the first matching one. If there is none, it reports none. |
| `Watch.WatchOutcome` | src/main.rs:147-177 | Any state the watch returns matches the filter. |
| `Watch.WatchOutcomeIsFirstMatchOfStream` | src/main.rs:147-177 | The watch returns the first matching state, in stream order, of all states the events offer. If no offered state matches, it fails with `StreamEnded`. |
| `Watch.WatchOutcomeAppend` | src/main.rs:147-167 | Once a prefix of the stream yields a match, later events cannot change the outcome. Otherwise the rest of the stream decides it. |
| `Watch.DeletedAndErrorsAreSkipped` | src/main.rs:157-173 | A deletion or a transient stream error never ends the watch. The outcome is that of the remaining events. |
| `Watch.AppliedStateDecides` | src/main.rs:149-155 | A matching applied state ends the watch with that state. A non-matching one is passed over. |
| `Watch.RestartedFirstSnapshotWins` | src/main.rs:159-167 | In a resync, the first matching snapshot is the result, whatever follows it. |
| `Watch.WatchForConditionMet` | src/main.rs:136-178 | Returns the specified outcome, and any state it returns matches the filter. On failure it has consumed every event. On success it stopped at the first event whose prefix yields a match, and consumed nothing after it. |

## Left out

- Reading the filter from a file or standard input, and YAML parsing and printing (src/main.rs:92-108, 231-234): file I/O and serialisation.
- Command-line parsing (src/main.rs:27-65, 182): generated by a library.
- Connecting to the cluster, running discovery, and building the API handle (src/main.rs:188-189, 210-219): network calls. Each catalog entry carries its `Scope`, but choosing the namespace, including the client's default namespace, is not modelled.
- The live watcher stream and its reconnect backoff (src/main.rs:141-146): the stream is the finite `seq<Event>` it delivers. The field selector on the resource name is the stream's business and is not modelled.
- The conversion of each watched Kubernetes object into a YAML value, and the panic if that conversion fails (src/main.rs:150-151, 161-162): serialisation. Events carry YAML values already.
- The error message for a stream error (src/main.rs:170-172): output only. The event is skipped, as in the code.
- The timeout race (src/main.rs:221-229): concurrency against wall-clock time, so there is no `Timeout` error in the model.
- YAML floating-point numbers and tagged values: numbers are unbounded integers. serde_yaml's distinction between signed and unsigned 64-bit integers is not modelled.
- `StateFilter.MatchState`: picks the filter's keys in an arbitrary order, not the mapping's insertion order. The result does not depend on the order.
