# API type identity, in Dafny

A model of the API type-identity algebra of the component-base library, with proofs about it.

- `pkg/scheme/group_version.go` has five value types that name a resource or a kind at some precision: GroupResource, GroupKind, GroupVersion, GroupVersionResource and GroupVersionKind. It also has their renderings and parsers, and a resolver. Given a list of group-versions in preference order and a list of candidate kinds, the resolver picks one kind.
- `pkg/meta/v1/meta.go` has the metadata records. TypeMeta stores a group-version-kind as two strings. ListMeta stores a total count. ObjectMeta stores an ID, a name and two timestamps.

Files:

- `wrappers.dfy`: `Option`, which stands for a Go pointer that may be nil, and `Result`, which stands for a Go `(value, error)` return.
- `strings.dfy` (module `Strings`): reference definitions for the parts of Go's `strings` package the source uses: `Count`, `Index`, `SplitN` and `Join`. It also defines `Split`, which the source does not call: it decodes an identifier in `IdentifierDecodes`. Every separator the source counts, searches or splits on is a single ASCII character (`.` or `/`), and `GroupVersions.Identifier` joins on `,`. `Count`, `Index`, `SplitN` and `Split` are modelled only for a one-character separator. `Join` takes any separator string. The GroupVersionResource rendering calls `strings.Join` with the empty separator; the model writes that rendering as plain concatenation, which gives the same string. Strings are `seq<char>`. Go works on bytes, but for an ASCII separator the split points are the same.
- `scheme.dfy` (module `Scheme`): the five value types as datatypes, each with its Go methods. `GroupVersions`, a named slice type in Go, is a datatype around a `seq<GroupVersion>`. The file also has the parsers and the adapters. The two `KindForGroupVersionKinds` loops, `bestMatch` and `GroupVersions.Identifier` are methods with loops, proved against specification functions:
  - `KindFor`: what the single-group-version probe finds;
  - `Targets`: the hits over a preference list, in order;
  - `Best`: the tie-break;
  - `Resolve`: the resolver's answer;
  - `IdentifierOf`: the identifier string, built from `Renderings`, the item renderings in order.
- `scheme_properties.dfy` (module `SchemeProperties`): round trips, injectivity of the renderings, and theorems on what the resolver returns.
- `meta.dfy` (module `MetaV1`):
  - TypeMeta, ListMeta and ObjectMeta are classes. Each setter is a method whose frame admits only the field it overwrites.
  - Each getter is a function that reads the object.
  - The constructors stand for Go composite literals. The struct declarations are not part of this model, so the fields are the ones the accessors use.
  - `int64` and `uint64` are newtypes with Go's bounds.
  - ObjectMeta is generic over `Time`, which stands for Go's `time.Time` as an opaque value.

Results proved beyond the source's own comments:

- The special case for `""` and `"/"` in `ParseGroupVersion` gives the same answer the general branches would give.
- The `Empty` branch of `ToAPIVersionAndKind` gives the same answer as its general branch.
- A kind that the second pass of the probe rebuilds with the preferred version is never literally among the candidates (`LiteralIffExact`).
- So `bestMatch` always picks the exact hit of the most preferred group-version that has one. If no group-version has one, the resolver returns the hit of the most preferred group-version whose group occurs among the candidates (`ResolvePrefersExact`, `ResolveFallsBack`).

## Model

| member | source | states |
|---|---|---|
| Strings.Count | pkg/scheme/group_version.go:252 | strings.Count with a one-character separator: the count is at most the length, and it is zero exactly when the separator does not occur |
| Strings.Index | pkg/scheme/group_version.go:80 | strings.Index: the result is -1 exactly when the separator is absent; otherwise the separator is at that position and not before it |
| Strings.SplitNPieces | pkg/scheme/group_version.go:24 | with at least n-1 separators, SplitN gives exactly n pieces, and none but the last contains the separator |
| Strings.SplitNJoin | pkg/scheme/group_version.go:24 | joining the pieces of SplitN with the separator gives the input back |
| Scheme.GroupResource.Empty | pkg/scheme/group_version.go:64-66 | true exactly when the value is the all-empty GroupResource |
| Scheme.GroupVersionResource.Empty | pkg/scheme/group_version.go:109-111 | true exactly when the value is the all-empty GroupVersionResource |
| Scheme.GroupKind.Empty | pkg/scheme/group_version.go:141-143 | true exactly when the value is the all-empty GroupKind |
| Scheme.GroupVersionKind.Empty | pkg/scheme/group_version.go:171-173 | true exactly when the value is the all-empty GroupVersionKind |
| Scheme.GroupVersion.Empty | pkg/scheme/group_version.go:202-204 | true exactly when the value is the all-empty GroupVersion |
| Scheme.GroupVersionKind.ToAPIVersionAndKind | pkg/scheme/group_version.go:331-336 | the pair is always (rendering of the group-version, kind); for an Empty kind that is ("", "") |
| Scheme.FromAPIVersionAndKind | pkg/scheme/group_version.go:343-348 | the kind is always kept; an API version with at most one `/` gives the parsed group and version; one with two or more gives empty group and version |
| Scheme.ParseGroupResource | pkg/scheme/group_version.go:91-96 | the resource part never contains `.`; with no `.` the resource is the whole input and the group is empty; otherwise resource + "." + group is the input |
| Scheme.ParseGroupKind | pkg/scheme/group_version.go:79-86 | the kind part never contains `.`; with no `.` the kind is the whole input and the group is empty; otherwise kind + "." + group is the input |
| Scheme.ThreePieces | pkg/scheme/group_version.go:23-25 | an input with two or more dots splits into three pieces; the text before the first dot and the text between the first two dots are dot-free, and the rest is verbatim |
| Scheme.ParseResourceArg | pkg/scheme/group_version.go:21-29 | the precise reading exists exactly when the input has two or more dots. When it exists, the input is resource.version.group, with resource and version dot-free. The coarse reading is ParseGroupResource of the input |
| Scheme.ParseKindArg | pkg/scheme/group_version.go:38-46 | the same as ParseResourceArg, with kind in place of resource and ParseGroupKind as the coarse reading |
| Scheme.ParseGroupVersion | pkg/scheme/group_version.go:245-261 | the parse succeeds exactly when there is at most one `/`. `""` and `"/"` give the empty GroupVersion. No `/` gives ("", input). One `/` splits the input at it, and both halves are slash-free. Otherwise the error carries the input |
| Scheme.ExactIndex | pkg/scheme/group_version.go:229-233 | the first position of a kind with exactly the group-version's group and version, or none exactly when no kind has both |
| Scheme.GroupIndex | pkg/scheme/group_version.go:234-238 | the first position of a kind with the group-version's group, or none exactly when no kind has it |
| Scheme.GroupVersion.KindForGroupVersionKinds | pkg/scheme/group_version.go:228-240 | the two loops return the probe's answer KindFor: ok exactly when KindFor finds something, with that kind as the target; otherwise the zero kind |
| Scheme.LiteralIndex | pkg/scheme/group_version.go:318-324 | the first position of a target that literally occurs among the kinds, or none exactly when no target does |
| Scheme.Best | pkg/scheme/group_version.go:317-326 | the choice is one of the targets. If some target is among the kinds, it is the first such target. Otherwise it is the first target |
| Scheme.BestMatch | pkg/scheme/group_version.go:317-326 | the nested scan returns Best of the kinds and targets |
| Scheme.GroupVersions.KindForGroupVersionKinds | pkg/scheme/group_version.go:295-312 | collecting the hits in a loop and choosing among them returns Resolve: ok exactly when Resolve finds something, with that kind as the target; otherwise the zero kind |
| Scheme.GroupVersions.Identifier | pkg/scheme/group_version.go:284-290 | the loop gives `[`, the item renderings joined by `,`, then `]` |
| SchemeProperties.GroupResourceRoundTrip | pkg/scheme/group_version.go:70-75 | a GroupResource whose resource has no `.` renders to a string that ParseGroupResource reads back to it |
| SchemeProperties.GroupKindRoundTrip | pkg/scheme/group_version.go:153-158 | a GroupKind whose kind has no `.` renders to a string that ParseGroupKind reads back to it |
| SchemeProperties.ParseGroupVersionRoundTrip | pkg/scheme/group_version.go:209-214 | a GroupVersion with no `/` in its group or version renders to a string that ParseGroupVersion reads back to it |
| SchemeProperties.IdentifierKey | pkg/scheme/group_version.go:218-220 | the identifier of a slash-free group-version parses back to it, and two slash-free group-versions share an identifier exactly when they are equal |
| SchemeProperties.GroupVersionStringInjective | pkg/scheme/group_version.go:209-214 | on slash-free group-versions, two values have the same rendering exactly when they are equal |
| SchemeProperties.GroupVersionKindStringInjective | pkg/scheme/group_version.go:189-191 | if the groups have no `/` and the versions no `,`, two kinds have the same rendering exactly when they are equal |
| SchemeProperties.GroupVersionResourceStringInjective | pkg/scheme/group_version.go:127-129 | if the groups have no `/` and the versions no `,`, two resources have the same rendering exactly when they are equal |
| SchemeProperties.KindProjectionsRebuild | pkg/scheme/group_version.go:145-185 | GroupKind().WithVersion and GroupVersion().WithKind rebuild a GroupVersionKind. WithKind and WithVersion keep what they are built from and add the given part (`GroupVersion.WithKind` is at group_version.go:265-267) |
| SchemeProperties.ResourceProjectionsRebuild | pkg/scheme/group_version.go:56-123 | GroupResource().WithVersion and GroupVersion().WithResource rebuild a GroupVersionResource. WithResource and WithVersion keep what they are built from and add the given part (`GroupVersion.WithResource` is at group_version.go:271-273) |
| SchemeProperties.APIVersionRoundTrip | pkg/scheme/group_version.go:331-348 | if the group and version of a kind have no `/`, FromAPIVersionAndKind of ToAPIVersionAndKind gives the kind back |
| SchemeProperties.APIVersionLoss | pkg/scheme/group_version.go:343-348 | the kind a/b, v1, K is written as ("a/b/v1", "K") and read back as only the kind K |
| SchemeProperties.ParseResourceArgNoDot | pkg/scheme/group_version.go:21-29 | `pods` has no precise reading; its coarse reading is resource pods with the empty group |
| SchemeProperties.ParseResourceArgOneDot | pkg/scheme/group_version.go:21-29 | `pods.apps` has no precise reading; its coarse reading is resource pods in group apps |
| SchemeProperties.ParseResourceArgOfParts | pkg/scheme/group_version.go:21-29 | with dot-free resource and version, resource.version.group reads back as those three parts; the coarse reading takes version.group as the group |
| SchemeProperties.ParseKindArgOfParts | pkg/scheme/group_version.go:38-46 | with dot-free kind and version, Kind.version.group reads back as those three parts; the coarse reading takes version.group as the group |
| SchemeProperties.ParseResourceArgTwoDots | pkg/scheme/group_version.go:21-29 | `pods.v1.apps` reads precisely as apps, v1, pods and coarsely as pods in group v1.apps |
| SchemeProperties.KindForCases | pkg/scheme/group_version.go:228-240 | the probe's three outcomes. With an exact match it returns the first one unchanged. Otherwise, with a group match, it rebuilds the first one with the preferred version. Otherwise it finds nothing. Every hit has the preferred group and version |
| SchemeProperties.LiteralIffExact | pkg/scheme/group_version.go:228-240 | a hit of the probe is literally among the candidates exactly when some candidate matches the group and version exactly |
| SchemeProperties.TargetsAppend | pkg/scheme/group_version.go:298-304 | the hits collected over two concatenated preference lists are the hits of the first followed by the hits of the second |
| SchemeProperties.TargetsMembers | pkg/scheme/group_version.go:298-304 | a kind is among the collected hits exactly when it is the probe result of some preferred group-version |
| SchemeProperties.TargetsEmpty | pkg/scheme/group_version.go:298-304 | no hits are collected exactly when every probe fails |
| SchemeProperties.TargetsAt | pkg/scheme/group_version.go:298-304 | the hits are those before a preferred group-version, then its own hit, then those after it |
| SchemeProperties.ResolveFound | pkg/scheme/group_version.go:295-312 | the resolver finds a kind exactly when some preferred group-version's probe succeeds |
| SchemeProperties.ResolveChoosesTarget | pkg/scheme/group_version.go:305-311 | the answer is one of the hits. With one hit it is that hit. With several it is Best of the kinds and the hits |
| SchemeProperties.ResolvePrefersExact | pkg/scheme/group_version.go:295-326 | if some preferred group-version has an exact candidate, the answer is the exact hit of the most preferred such group-version |
| SchemeProperties.ResolveFallsBack | pkg/scheme/group_version.go:295-326 | if no preferred group-version has an exact candidate, the answer is the rebuilt hit of the most preferred group-version whose probe succeeds |
| SchemeProperties.ResolveExamples | pkg/scheme/group_version.go:295-312 | three sample inputs: the first preference wins by an exact match, a group match gets the preferred version, and a disjoint group finds nothing |
| SchemeProperties.IdentifierDecodes | pkg/scheme/group_version.go:284-290 | a non-empty list's identifier is wrapped in `[` and `]`. If no rendering holds a `,`, splitting the inside on `,` gives the renderings back in order |
| SchemeProperties.IdentifierExamples | pkg/scheme/group_version.go:284-290 | the empty list gives `[]`; the list g1/v1 and (legacy) v2 gives `[g1/v1,v2]` |
| MetaV1.ListMeta.SetTotalCount | pkg/meta/v1/meta.go:88-92 | afterwards GetTotalCount returns the new count |
| MetaV1.TypeMeta.GroupVersionKind | pkg/meta/v1/meta.go:109-111 | the stored kind is always kept. An API version with at most one `/` gives the parsed group and version. One with two or more `/` gives empty group and version |
| MetaV1.TypeMeta.SetGroupVersionKind | pkg/meta/v1/meta.go:103-105 | both fields become ToAPIVersionAndKind of the argument, so an Empty kind clears them. An argument whose group and version have no `/` is then read back unchanged by GroupVersionKind |
| MetaV1.TypeMeta.SetAPIVersion | pkg/meta/v1/meta.go:115-119 | afterwards GetAPIVersion returns the new value; the kind is unchanged, and the frame admits no other field |
| MetaV1.TypeMeta.SetKind | pkg/meta/v1/meta.go:123-127 | afterwards GetKind returns the new value; the API version is unchanged, and the frame admits no other field |
| MetaV1.ObjectMeta.SetID | pkg/meta/v1/meta.go:143-147 | afterwards GetID returns the new ID; name and both timestamps are unchanged |
| MetaV1.ObjectMeta.SetName | pkg/meta/v1/meta.go:151-155 | afterwards GetName returns the new name; ID and both timestamps are unchanged |
| MetaV1.ObjectMeta.SetCreatedAt | pkg/meta/v1/meta.go:159-163 | afterwards GetCreatedAt returns the new time; ID, name and update time are unchanged |
| MetaV1.ObjectMeta.SetUpdatedAt | pkg/meta/v1/meta.go:167-171 | afterwards GetUpdatedAt returns the new time; ID, name and creation time are unchanged |

`GroupVersion.Identifier` is a plain function equal to the rendering; `IdentifierKey` states what it is for. The `String` renderings and the `WithVersion`, `WithKind`, `WithResource`, `GroupKind`, `GroupVersion` and `GroupResource` builders and projections are plain functions. The round-trip, injectivity and rebuild lemmas above state what they do. The getters are plain functions too, and the setters' contracts state what they do.

## Left out

- pkg/scheme/interfaces.go is not part of this model. Its `ObjectKind` interface and the no-op `emptyObjectKind` would need an interface type. The model has no such abstraction: TypeMeta's two methods stand on their own.
- `GetObjectKind`, `GetListMeta` and `GetObjectMeta` (pkg/meta/v1/meta.go:99, 131, 135) are not modelled. They only return the receiver as an interface value.
- The `ObjectMetaAccessor`, `Object`, `ListInterface` and `Type` interface declarations are not modelled. The classes carry the methods directly.
- pkg/cli/globalfalg/globalfalg.go is not part of this model. It registers flags on pflag's process-wide flag set, which is foreign calls and global state.
- The text of the `fmt.Errorf` message in `ParseGroupVersion` is not modelled. The error is `UnexpectedGroupVersion(input)`, which carries the rejected input.
- Go pointers and nil are modelled as `Option`: the `*GroupVersionResource` and `*GroupVersionKind` results of the argument parsers.
- `ParseGroupVersion`'s `(GroupVersion, error)` return is modelled as `Result`. The model does not keep the `GroupVersion{}` that the source returns alongside the error. Its only caller, `FromAPIVersionAndKind`, ignores that value.
- Go's `len` counts bytes and the model counts characters. The only use of `len` on a string is a test for zero, and the answer to that test is the same either way. The other uses (`len(targets)`, `len(gvs)`) are on slices and are modelled as sequence lengths.
- `time.Time` is left opaque: ObjectMeta takes it as a type parameter.
- `Strings.SplitN` does not model a negative `n`, because the source never passes one.
