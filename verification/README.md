# errdefs: joining errors and translating them to gRPC status codes

This project models two pieces of the Go `errdefs` package in Dafny:

- **`join.go`** builds an aggregate error and renders it. `Join` takes any number of errors, some of them possibly nil. It returns one of three things:
  - nil, when no input is non-nil;
  - the single non-nil input itself, when its type is already one of the package's own (`*errorValue`, `*joinError`);
  - otherwise, that single input wrapped in an `errorValue`, or a new `joinError` of all the non-nil inputs in their original order.

  `Format` writes the members one per line. It skips members that carry the `CollapsibleError` marker (a captured stack, for example) unless the request is `%+v`. `Error()` is the `%v` rendering. `Unwrap` returns the stored members.
- **`grpc.go`** translates an error for an RPC boundary. `ToGRPC` passes nil through, and passes through errors that already carry a gRPC status. For anything else it tries the kind predicates in a fixed order. The first kind that matches chooses the status code, and the error's own text becomes the status message. An unclassified error is returned unchanged. `ToGRPCf` first puts a formatted prefix in front of the error, then translates it.

The model has these parts:

- Errors are values of the datatype `Errors.Err`. Its constructors are:
  - Go's nil error;
  - a foreign error (`Leaf`), with its `%v` text, its `%+v` text, the kinds its own chain carries, its collapsible marker, and whether a gRPC status is reachable along its own chain;
  - `errorValue` (`Value`) and `joinError` (`Joined`);
  - the wrapper made by `fmt.Errorf("%s: %w", …)` (`Wrapped`);
  - a gRPC status error (`Status`).
- `Join` and `Format` are methods with loops, and `Error` is a method that writes through `Format` into a fresh buffer. Each is proved against a specification function: `JoinOf` for `Join`, and `Errors.Render` for the other two.
- `ToGRPC` is a pure function. It is proved against an independent table: the order of the kinds (`Rank`) and the code of each kind (`CodeOf`).

Files: `kinds.dfy` (the kind enumeration), `codes.dfy` (the gRPC codes), `errors.dfy` (the error datatype, rendering, and the walk along the unwrap chain), `join.dfy`, `grpc.dfy`.

`(*joinError).Error` renders with plain `%v` (join.go:66), so it is the terse form and hides collapsible members. `Unwrap` never flattens nested aggregates.

## Model

| member | source | states |
|---|---|---|
| Join.NonNil | join.go:55-61 | the kept inputs contain no nil and are never more than the inputs (order and multiplicity: NonNilOrder, NonNilMultiset) |
| Join.NonNilMultiset | join.go:55-61 | every non-nil input is kept exactly as often as it occurs, and nothing else is kept |
| Join.NonNilOrder | join.go:55-61 | the j-th kept member is the input at the j-th non-nil position; positions strictly increase and cover every non-nil input |
| Join.NonNilAppend | join.go:56-60 | filtering distributes over concatenation, so the relative order of the inputs is kept |
| Join.NonNilEmpty | join.go:35-44 | nothing is kept exactly when every input is nil |
| Join.NonNilIdentity | join.go:55-61 | inputs without nils are kept unchanged |
| Join.NonNilChain | join.go:55-61 | dropping nils changes neither the kinds nor the status errors reachable through the members |
| Join.JoinOf | join.go:32-62 | the result is nil iff every input is nil; a non-nil result is always an errorValue or a joinError; the result carries exactly the kinds, and the status errors, of its inputs |
| Join.Join | join.go:32-62 | the counting loop and the collecting loop compute exactly JoinOf of the inputs |
| Join.JoinOne | join.go:45-52 | with exactly one non-nil input, that input comes back unchanged when it is an errorValue or a joinError, and wrapped in an errorValue otherwise |
| Join.JoinForeign | join.go:52 | a single foreign error is wrapped, and the wrapper's Error() text equals the error's own |
| Join.JoinIdempotent | join.go:45-51 | Join of a Join result returns that result, so the package's own wrappers are never wrapped twice |
| Join.JoinMany | join.go:55-61 | with two or more non-nil inputs the result is a joinError whose members are the non-nil inputs and contain no nil |
| Join.JoinPair | join.go:55-61 | joining two non-nil errors gives a joinError of exactly those two, in order and not flattened, and Unwrap returns them (join.go:88-90) |
| Join.Format | join.go:70-86 | the loop with the `first` flag appends exactly the rendering of the aggregate for the request to what was already written |
| Join.Error | join.go:64-68 | Error() equals the `%v` (terse) rendering |
| Join.Visible | join.go:75-79 | the members shown in terse rendering contain no collapsible member |
| Join.VisibleOrder | join.go:75-79 | conversely, every member without the collapsible marker is kept, and the kept members appear in their original order |
| Join.VerboseShowsAll | join.go:72-85 | under `%+v` every member is rendered, in order |
| Join.TerseHidesCollapsible | join.go:72-79 | under any other request, the rendered members are exactly the non-collapsible ones, in order |
| Join.TerseAllCollapsed | join.go:73-85 | when every member is collapsible, the terse rendering, and so Error(), is empty |
| Join.StackHiddenWhenTerse | join.go:64-79 | an error joined with a collapsible stack has Error() text equal to the error's own |
| Join.PairRendering | join.go:80-83 | two shown members are rendered as two lines with one newline between them |
| Join.SplitLines | join.go:80-85 | cutting the rendering at its newlines gives back the member renderings: one separator between members, none before or after |
| Join.Unwrap | join.go:88-90 | the stored members come back as they are, with no filtering or flattening: a kind holds of the aggregate exactly when it holds of a returned member, and so does carrying a status |
| Errors.KindsOfAllMembers | join.go:88-90 | a kind predicate holds of an aggregate exactly when it holds of one of the members returned by Unwrap |
| Errors.AnyHasStatusMembers | grpc.go:82-85 | an aggregate is recognised as a status error exactly when one of its members is |
| Grpc.IsGRPCError | grpc.go:82-85 | holds for nil, as `status.FromError(nil)` reports ok, and otherwise when a status error is reachable along the unwrap chain: always for a status, as flagged for a foreign error, through the cause of a wrapper, and through any member of an aggregate |
| Grpc.Select | grpc.go:36-71 | the switch yields the code of its first matching case, never OK, and no code when no kind matches (which code: SelectFirst, SelectTotal) |
| Grpc.ToGRPC | grpc.go:26-72 | nil stays nil; a status error comes back unchanged; an error with no kind comes back unchanged; any other result is a status whose message is exactly the error's text |
| Grpc.CodeOf | grpc.go:36-69 | no kind translates to the OK code |
| Grpc.ForeignStatusPassesThrough | grpc.go:31-34 | a foreign error whose own chain reaches a status is recognised as one and returned unchanged, even when it also carries kinds |
| Grpc.SelectFirst | grpc.go:36-69 | the switch picks the code of the matching kind that comes first in the order |
| Grpc.SelectTotal | grpc.go:36-71 | some code is picked exactly when at least one kind matches |
| Grpc.ToGRPCFirstKind | grpc.go:36-69 | an error that is not yet a status gets the code of its earliest matching kind, with its own text as the message |
| Grpc.SharedCodes | grpc.go:43-44 | only FailedPrecondition, Conflict and NotModified share a code, and that code is FailedPrecondition; every other kind has its own code, including Unauthorized to Unauthenticated and NotImplemented to Unimplemented (grpc.go:47-48, 53-54) |
| Grpc.MergedBucket | grpc.go:43-44 | any of the three merged kinds, with no earlier kind, gives FailedPrecondition |
| Grpc.ToGRPCIdempotent | grpc.go:31-68 | translating twice gives the same as translating once |
| Grpc.ToGRPCf | grpc.go:78-80 | the formatted variant never returns nil |
| Grpc.ToGRPCfTranslates | grpc.go:74-80 | the prefix changes the status message to "prefix: text" but not the code; an error that is unclassified or already a status comes back as the prefixed wrapper |
| Grpc.ToGRPCfNil | grpc.go:78-80 | for a nil error the result is a non-nil, unclassified wrapper whose text ends in `%!w(<nil>)` |
| Grpc.ToGRPCJoin | grpc.go:26-72 | an aggregate is classified by the kinds of all its members, and passes through when any member carries a status |
| Grpc.NotFoundThroughJoin | grpc.go:39-40 | a not-found error joined with nils becomes a NotFound status with the error's text |
| Grpc.SiblingsThroughJoin | grpc.go:43-60 | sibling conflict and data-loss errors in one aggregate give FailedPrecondition, because Conflict comes before DataLoss, and the message is both texts on two lines |

## Left out

- `pkg/errors/errors.go` is not part of this model. It is a compatibility layer whose functions are one-line calls into code that is not modelled: stack capture, `errdefs.New`, and the standard `errors` package. Its only composition, joining an error with a captured stack, is covered by `Join.StackHiddenWhenTerse` and `Join.PairRendering`.
- The kind predicates (`IsNotFound`, …) are not part of this model. Each foreign error carries the set of kinds its own chain satisfies. The predicates follow the unwrap chain through `errorValue`, the `%w` wrapper and every member of a `joinError`, so a kind is the union over the chain.
- `isGRPCError` relies on `status.FromError`, which is not part of this model. It is modelled as "nil, or a status error is reachable along the unwrap chain". `FromError` reports ok for nil, and gRPC versions that look through wrapped errors find a status anywhere on the chain. `ToGRPC` tests for nil first, so the nil case never reaches `isGRPCError` there. With a version that only inspects the outermost error, a wrapped status would be classified by its kinds instead.
- The gRPC `status` and `codes` packages are not modelled. Codes are an enumeration and a status error is a constructor. Its text, `rpc error: code = … desc = …`, follows that library's format.
- `fmt` is not modelled beyond two rendering requests: `%v` and `%+v`. Other verbs (`%s`, `%q`, …) are treated as the terse request. The `%+v` text of a foreign error is an opaque field. `fmt.Sprintf` in `ToGRPCf` is represented by its already formatted result.
- A foreign error's `Error()` is assumed to equal its `%v` rendering. Go's `fmt` prefers a `Format` method over `Error()`, so an error implementing `fmt.Formatter` could print one text under `%v` and return another from `Error()`. For such an error, `ToGRPC`'s status message in this model is its `%v` text rather than its `Error()` text.
- `errorValue` is not part of this model. It is assumed to render, unwrap and classify as the error it wraps, and not to be collapsible.
- Go's pointer identity is not modelled. "Returns that same error" is value equality, and two aggregates with equal members are equal.
- Stack capture, concurrency and allocation are not modelled. The package has no shared mutable state.
