# Capability authorization, modelled and proved

This project models the decision core of a capability registry and proves what
its parts promise over every input and every run. The registry decides whether
an operation is covered by a grant, how grants narrow along a delegation chain,
and it keeps the catalogs, schemes, rules and documents those decisions rest on.

Each module follows one part of the program.

- **Values.** `Numbers`, `NumberValues`, `Binary64`, `Rounding`, `Json`,
  `Collation`, `KeyOrder`, `Utf8`, `CanonicalJson`, `CanonicalForm`,
  `CanonicalWriter`: JSON values, the canonical text of section 3.2 of RFC 8785
  with a reader that undoes it, the two orders texts are sorted by, and
  IEEE-754 binary64 rounding. `Basics` holds what several modules share.
- **Grants.** `Caps`, `RawParams`, `Ids`, `IdText`, `Bounds`, `BoundLattice`,
  `BoundSteps`, `Wire`, `Grants`, `Acceptance`, `GrantMeet`, `GrantOrder`,
  `MeetDefined`, `Containment`, `StepRounding`, `MeetLoops`, `Authorization`,
  `ConstraintText`, `Delegation`, `ChainLast`, `DecimalChain`: parameter caps,
  the Bound families and their meet, entailment, containment, the n-ary meet,
  and decisions over sets and chains of grants.
- **Evidence.** `LinkGraph`, `Sources`, `Requirements`, `RequirementText`,
  `RequirementPrint`, `BindingRoles`, `RoleReader`, `Resolution`: source chains,
  requirement expressions and their projection, and the resolution of open
  obligations.
- **Registries.** `Catalog`, `CatalogRuns`, `CatalogDelta`, `SchemeAdmin`:
  state machines that advance one digest-linked generation at a time.
- **Rules.** `RuleConditions`, `RuleFlows`, `ConditionLaws`, `SqlFilter`,
  `SqlReader`, `SqlMeaning`: budgeted evaluation and the filter-to-SQL renderer.
- **Documents.** `SchemaDigest`, `ScannerReads`, `BackfillRuns`,
  `BackfillTight`, `BackfillComplete`, `BackfillLoops`, `SchemaValidation`,
  `SchemaKeywords`, `SchemaMeaning`, `SchemaCut`: the digest backfill scanner
  and the schema validator.

Pure code is modelled by functions and stated in lemmas. Code that updates
state is modelled by classes and loops (`Buffer`, `Walker`, `CycleSearch`,
`RequirementParser`, `Budget`, `FlowContext` and the loop methods) whose
contracts tie them to those functions. Maps that the program ranges over are
visited in an arbitrary order, so a method that is proved equal to a function
does not depend on map order.

The relations these results rest on are themselves pinned down by statements
about texts and values: which identifier covers which (`IdText`), what Bounds,
grants and row limits accept (`Acceptance`, `ConstraintText`), which key comes
first and how a value is spelled (`KeyOrder`, `CanonicalForm`), what a
comparison, a flow or an expression answers (`ConditionLaws`,
`Requirements.EvalIsTruth`), and what each schema keyword asks
(`SchemaKeywords`, `SchemaMeaning`).

Promises of the program that do not hold as stated come with a failing input
and with the condition under which they hold.

- The step rule of numeric Bounds rounds. Step `0.03` is within step `0.01` and
  accepts `0.57`, step `0.01` refuses `0.57` (`StepRounding.DecimalStepsLeak`);
  steps `0.57`, `0.03` and `0.01` are each within the next and the first is not
  within the last (`StepRounding.DecimalStepsDoNotCompose`); and a chain of two
  grants allows what its first grant denies (`DecimalChain.ChainLeaks`). The
  results on Bounds, merged grants and chains say exactly what is left:
  everything but the outer side's own step tests carries over, for every step,
  one source at a time (`BoundLattice.WithinSound`, `BoundSteps.MeetExact`,
  `GrantMeet.IntersectPerSource`, `Delegation.ChainPerGrant`). What a merge
  accepts still does not depend on the order of its sources
  (`GrantOrder.IntersectOrderIrrelevant`), and a chain decides as its last grant
  and all constraints do (`ChainLast.LastGrantDecides`). Where two steps for the
  same place are equal, both whole, or the finer one a power of two, the step
  tests carry over too (`BoundLattice.StepsCarry`, `GrantOrder.IntersectSteps`,
  `Delegation.ChainCommensurate`), because there the rule is exact division
  (`Binary64.MultipleIsDivision`, `Binary64.PowerTransitive`).
- A contained parameter value need not carry acceptance to its parent: a list
  `[5, 10]` contains the number `5`, which as an upper bound admits `3`
  (`Containment.ContainmentAloneIsUnsound`). `Containment.CarriesExactly` says
  for which pairs it does, and `Containment.MeetMakesSafe` why chains never
  rely on the others.
- The backfill of schema digests promises to preserve all other bytes. It drops
  the space of `{"params_schema":1 }` (`BackfillTight.SpaceIsDropped`) and
  preserves every byte exactly on the documents
  `BackfillTight.BackfillPreservesBytes` describes.
- The depth cut of the schema validator is not fail-closed under `not`: for
  every limit there is a reference chain that makes it accept a value the
  schema excludes (`SchemaCut.CutUnderNotAccepts`). An acceptance can be wrong
  only through a cut under an odd number of `not`, a rejection only through one
  under an even number (`SchemaCut.CutErrsOneWay`), and a verdict is settled
  within the limit exactly when no answer of the cut references could change it
  (`SchemaCut.SettledExactly`).
- Wrapping a requirement expression with required roles may leave the parser's
  limits (`RequirementText.WrapRefused`); `RequirementText.WrapExact` gives the
  exact condition on the text.

Assumptions that the theorems carry are predicates in their `requires`:
`Catalog.Collisionless` (digests are injective and not empty),
`SchemeAdmin.Addressed` (digests are not empty), `SchemeAdmin.ClockAdvances`
(the deployer's clock does not run back), `SchemaDigest.Sound` (a digest is
non-empty lower-case hex, a JSON decoder reads it back from quotes, and of the
values the scanner cuts out only strings decode to a non-empty text) and
`RawParams.WellFormed` (the decoder's tree has scalars where it says, and an
exact literal is finite).

## Model

| member | source | states |
|---|---|---|
| `Numbers.ReadUndoesLayout` | semantics/canonical.go:396-456 | reading the laid-out text of any decimal, followed by anything that ends a number, gives back that decimal and the rest |
| `Numbers.LayoutInjective` | semantics/canonical.go:396-456 | the four Number::toString layouts never give two decimals the same text |
| `Numbers.LayoutPreservesValue` | semantics/canonical.go:396-456 | the text of every layout denotes exactly the value of sign, digits and point it was made from |
| `NumberValues.NumberUnique` | semantics/canonical.go:396-456 | digits without leading or trailing zero are unique: two canonical decimals are equal exactly when their real values are, so equality of canonical text is equality of value |
| `CanonicalForm.NumberSpelling` | semantics/canonical.go:396-456 | a magnitude is spelled plainly from 10^-6 to below 10^21 and with a signed exponent beyond, never with a superfluous zero; a minus marks the negative ones and zero is `0` |
| `Binary64.RoundExact` | semantics/parambounds.go:311-317 | a number of at most 53 binary digits rounds to itself |
| `Binary64.RoundMonotone` | semantics/parambounds.go:311-317 | binary64 rounding keeps the order of reals |
| `Binary64.RoundIdempotent` | semantics/parambounds.go:311-317 | a rounded number rounds to itself |
| `Rounding.RoundNearest` | semantics/parambounds.go:311-317 | no number of at most 53 binary digits is nearer than the rounded one |
| `Rounding.TiesToEven` | semantics/parambounds.go:311-317 | half way between two neighbours the even one is taken |
| `Binary64.MultipleIsDivision` | semantics/parambounds.go:311-317 | for whole steps and interoperable values the rounded multiple test is divisibility |
| `Binary64.WholeMultipleTransitive` | semantics/parambounds.go:311-317 | on whole steps the multiple test is transitive |
| `Binary64.PowerTransitive` | semantics/parambounds.go:311-317 | a multiple of a multiple of a power of two is a multiple of that power, whatever the step between |
| `Binary64.PositiveMultiple` | semantics/parambounds.go:311-317 | the rounded test never takes a positive number for a multiple of a larger one |
| `CanonicalWriter.FormatNumber` | semantics/canonical.go:396-456 | the step-by-step formatter with its zero-padding loops produces the layout |
| `Collation.LessIsStrictTotalOrder` | semantics/canonical.go:469-478 | the UTF-16 key order is total, irreflexive, asymmetric and transitive on all strings |
| `KeyOrder.OrderDecided` | semantics/canonical.go:469-478 | a proper prefix comes first, otherwise the first different character decides: the smaller code, save that by UTF-16 units characters above 0xFFFF come before those from 0xE000 |
| `Utf8.ByteOrder` | semantics/semantics.go:1304-1333 | comparing two texts by UTF-8 bytes, as the sorted lists of the policy code do, is comparing them by code points |
| `Collation.SortedUnique` | semantics/canonical.go:463-467 | a key set has exactly one sorted listing, so the order keys arrive in cannot show |
| `CanonicalWriter.Utf16Less` | semantics/canonical.go:469-478 | the unit-by-unit loop decides that order |
| `CanonicalWriter.Buffer.WriteCanonicalString` | semantics/canonical.go:337-366 | the loop appends exactly the quoted, escaped string to the buffer |
| `CanonicalWriter.Buffer.WriteCanonicalJson` | semantics/canonical.go:275-332 | the recursive writer appends exactly the canonical text of the value to the buffer |
| `KeyOrder.ObjectText` | semantics/canonical.go:275-332 | a printed object is its members once each, comma-separated, keys in increasing order of the first different character |
| `KeyOrder.ListText` | semantics/canonical.go:275-332 | a printed list is its items in their own order |
| `CanonicalForm.CharSpelling` | semantics/canonical.go:337-366 | no spelling of a character is shorter than the one written, and none as short differs but by capital hexadecimal digits |
| `CanonicalForm.StringSpelling` | semantics/canonical.go:337-366 | of all spellings of a string the one written is the shortest, and the only one of that length with lower-case hexadecimal digits |
| `CanonicalJson.RoundTrip` | semantics/canonical.go:275-366 | parsing the canonical text of any JSON tree followed by a delimiter returns that tree and the delimiter |
| `CanonicalJson.CanonicalInjective` | semantics/canonical.go:275-332 | two values print alike exactly when they are equal |
| `CanonicalJson.EnumEqual` | semantics/semantics.go:896-903 | comparing canonical text is value equality |
| `Caps.RestrictValid` | semantics/semantics.go:240-292 | dropping members never takes a valid parameter object over the size, depth or number limits |
| `Utf8.SizeIsEncodedLength` | semantics/semantics.go:240-265 | the size a text is charged is the length of its UTF-8 encoding, which a decoder undoes |
| `RawParams.WrittenSize` | semantics/semantics.go:428-558 | without repeated keys the raw walk measures the canonical size of the decoded value, whatever the member order |
| `RawParams.ShallowExact` | semantics/semantics.go:269-292 | the walk's per-container depth check agrees with the depth computed on the decoded value |
| `RawParams.EntryPointsAgree` | semantics/semantics.go:240-265 | raw and decoded entry points make the same size and depth refusals |
| `RawParams.AcceptedRawFits` | semantics/semantics.go:381-422 | what the raw check accepts has no repeated key and decodes, key for key, to an object within the caps |
| `RawParams.Walker.Walk` | semantics/semantics.go:428-558 | the walk fails exactly on a container that is too deep; otherwise it writes the compact text and raises the two flags exactly for a repeated key and an inexact number |
| `RawParams.ValidateRawParams` | semantics/semantics.go:381-422 | verdict order: size and depth, then repeated keys, then numbers |
| `Ids.MatchTransitive` | semantics/semantics.go:620-666 | identifier coverage, trailing star included, is transitive |
| `Ids.MatchReflexive` | semantics/semantics.go:620-666 | every valid identifier covers itself |
| `IdText.ValidityOnText` | semantics/semantics.go:154-191 | a valid identifier is a scheme, a colon and more, without brackets and with no star but a trailing `:*` |
| `IdText.CoverageOnText` | semantics/semantics.go:620-666 | between valid identifiers coverage is equality, or standing below a trailing `:*` that follows at least two segments; so an identifier without it covers only itself |
| `BoundLattice.WithinReflexive` | semantics/parambounds.go:344-426 | a valid Bound is within itself |
| `Acceptance.EnumAcceptsLists` | semantics/parambounds.go:232-290 | an enum Bound accepts a list exactly when its length lies within the item limits, both included, and each item is a listed member; an empty listing accepts nothing |
| `Acceptance.EnumAcceptsScalars` | semantics/parambounds.go:224-290 | it accepts any other value exactly when it accepts the list of that one value |
| `Acceptance.NumericAccepts` | semantics/parambounds.go:292-317 | a numeric Bound accepts exactly the numbers from its minimum to its maximum, both included, that are multiples of its step |
| `Acceptance.NestedAccepts` | semantics/parambounds.go:321-340 | a nested Bound accepts exactly the objects with only its keys, all but the optional ones present, and each value accepted |
| `Acceptance.EmptyAccepts` | semantics/parambounds.go:232-290 | a Bound without members accepts everything |
| `BoundLattice.WithinTransitive` | semantics/parambounds.go:344-426 | containment composes in everything but its step tests, whatever the steps, and altogether where neighbouring steps are equal, both whole, or the finer one a power of two |
| `BoundLattice.LooseAndSteps` | semantics/parambounds.go:232-340 | acceptance is acceptance apart from steps together with the step tests at every place |
| `BoundLattice.WithinLoose` | semantics/parambounds.go:344-426 | containment carries acceptance apart from steps |
| `BoundLattice.WithinSound` | semantics/parambounds.go:232-340 | a value a contained Bound accepts, the containing Bound accepts exactly when it passes that Bound's own step tests |
| `BoundLattice.StepsCarry` | semantics/parambounds.go:311-317 | where steps of the two Bounds for the same place are equal, both whole, or the finer one a power of two, an interoperable value that passes the contained step tests passes the containing ones |
| `BoundLattice.MeetIsGreatestLower` | semantics/parambounds.go:566-745 | a defined meet is a valid Bound below both and above everything below both, for every step, and apart from steps accepts exactly what both accept |
| `BoundSteps.MeetExact` | semantics/parambounds.go:566-745 | both sides accept a value exactly when the meet does and their own step tests pass |
| `BoundSteps.MeetAccepts` | semantics/parambounds.go:566-745 | where steps are equal, both whole, or the finer one a power of two, the meet accepts exactly the interoperable values both sides accept |
| `BoundSteps.WithinCoarser` | semantics/parambounds.go:344-426 | a contained Bound has at every place a step at least as large |
| `BoundSteps.MeetIsCoarser` | semantics/parambounds.go:633-686 | the meet has at every place a step at least as large as both sides |
| `BoundSteps.MeetIsLeast` | semantics/parambounds.go:633-686 | and no larger than any Bound whose steps are at least both |
| `BoundSteps.SameCoarseness` | semantics/parambounds.go:311-317 | Bounds whose steps are at least each other's make the same step tests |
| `StepRounding.DecimalStepsLeak` | semantics/parambounds.go:311-317 | step 0.03 is within step 0.01, is their meet and accepts 0.57, which step 0.01 refuses |
| `StepRounding.DecimalStepsDoNotCompose` | semantics/parambounds.go:344-426 | steps 0.57, 0.03 and 0.01 are each within the next, and 0.57 is not within 0.01 |
| `StepRounding.DecimalChainLeaks` | semantics/authorizechain.go:31-45 | a chain of two such grants, for any identifier and key, allows 0.57 although its first grant alone denies it |
| `DecimalChain.ChainLeaks` | semantics/authorizechain.go:31-45 | the same chain for `a/b-v1:c` and key `x`, with nothing left open |
| `Bounds.CanonicalMembers` | semantics/parambounds.go:458-483 | the members of a met enum are the shared ones, each once, ordered by canonical text |
| `Wire.DecodeUndoesEncode` | semantics/parambounds.go:51-131 | a Bound record read back from its closed JSON object is that record |
| `Wire.EncodeUndoesDecode` | semantics/parambounds.go:51-131 | every well-typed Bound object is the encoding of what it decodes to |
| `MeetLoops.SharedMembers` | semantics/parambounds.go:688-724 | the double loop keeps exactly the entries both enums list, in order |
| `MeetLoops.CanonicalEnumMembers` | semantics/parambounds.go:458-483 | deduplication by canonical text, then sorting, gives the canonical members |
| `MeetLoops.MeetNumeric` | semantics/parambounds.go:633-686 | the branch-by-branch numeric meet: greatest minimum, least maximum, the step that is a multiple of the other by the rounded test, refused when empty or neither is |
| `MeetLoops.MeetEnum` | semantics/parambounds.go:688-724 | the enum meet with its item counts, refused when nothing is shared or the counts cross |
| `MeetLoops.MeetNested` | semantics/parambounds.go:726-745 | the nested meet over any key order, refused when key sets differ or a member meet is |
| `MeetLoops.MeetBounds` | semantics/parambounds.go:566-631 | the family dispatch, the empty Bound as identity, and the optional marker kept only when both carry it |
| `MeetDefined.NumericMeetDefined` | semantics/parambounds.go:633-686 | two numeric Bounds meet exactly when neither range ends before the other begins and, of two steps, one is a multiple of the other |
| `MeetDefined.EnumMeetDefined` | semantics/parambounds.go:688-724 | two enum Bounds meet exactly when their item limits do not cross and two listings share a member |
| `MeetDefined.NestedMeetDefined` | semantics/parambounds.go:726-745 | two nested Bounds meet exactly when they have the same keys and meet at each |
| `MeetDefined.MixedMeetDefined` | semantics/parambounds.go:566-631 | Bounds of different families never meet, and one without members meets every other |
| `MeetDefined.ValueMeetDefined` | semantics/semantics.go:1227-1299 | two numbers always meet, two lists when they share a member, two objects with the same keys when they meet at each, other values only when equal |
| `GrantMeet.IntersectValueExact` | semantics/semantics.go:1227-1299 | a defined meet of two parameter values accepts exactly what both accept |
| `Acceptance.ScalarAccepts` | semantics/semantics.go:757-850 | a granted number accepts exactly the numbers up to it, a granted text or truth value only itself, a granted null nothing |
| `Acceptance.ListAccepts` | semantics/semantics.go:757-850 | a granted list accepts its members and the lists of them, and nothing when it is empty |
| `Acceptance.ObjectAccepts` | semantics/semantics.go:757-850 | a granted object accepts the objects with exactly its keys and an accepted value at each, and every object when it has no keys |
| `Acceptance.IdEntailsOnText` | semantics/semantics.go:926-945 | a grant covers an operation exactly when both identifiers are valid and equal, or the operation stands below the wildcard |
| `Acceptance.UndeclaredGrant` | semantics/semantics.go:947-954 | a grant without parameters entails exactly what its identifier covers |
| `Acceptance.DeclaredGrant` | semantics/semantics.go:956-982 | a grant with parameters entails exactly the covered operations within the limits that carry every required key, no undeclared one, and accepted values, provided no granted value is empty |
| `GrantMeet.IntersectPerSource` | semantics/semantics.go:1100-1225 | what the merged grant entails, each source entails in its own part exactly when the operation passes that source's own step tests, whatever the other sources' steps |
| `GrantMeet.IntersectExact` | semantics/semantics.go:1100-1225 | the merged grant fits the caps, the operation is valid and declares no other key, and every source entails the operation cut to its own keys, exactly when the merged grant entails the operation and it passes every source's own step tests |
| `GrantMeet.UniformPerSource` | semantics/semantics.go:1100-1225 | when all constraining sources declare the same keys: what the merged grant entails, each source entails exactly when the operation passes that source's own step tests |
| `GrantMeet.IntersectUniform` | semantics/semantics.go:1100-1225 | among such sources every source entails the operation and the caps hold exactly when the merged grant entails it and it passes every source's own step tests |
| `GrantOrder.IntersectSteps` | semantics/semantics.go:1100-1225 | among sources whose steps for the same place are equal, both whole, or the finer one a power of two, what the merged grant entails passes every source's step tests |
| `GrantOrder.IntersectCommensurate` | semantics/semantics.go:1100-1225 | among such sources the merged grant entails an operation exactly when it fits the caps, the operation is valid and declares no other key, and every source entails its own part |
| `GrantOrder.MergeAllCoarser` | semantics/semantics.go:1100-1225 | a merged step is at least the step of every source |
| `GrantOrder.MergeAllLeast` | semantics/semantics.go:1100-1225 | and at most any step that is at least every source's |
| `GrantOrder.IntersectOrderIrrelevant` | semantics/semantics.go:1100-1225 | any two source orders that both succeed within the caps accept the same operations, whatever the steps |
| `MeetLoops.IntersectBounds` | semantics/parambounds.go:532-555 | the merge loop unions keys and meets shared ones, failing exactly when a shared meet fails |
| `MeetLoops.IntersectParams` | semantics/semantics.go:1175-1202 | the two loops over parameter keys give the merged map, failing exactly when a shared value has no meet |
| `MeetLoops.IntersectGrants` | semantics/semantics.go:1100-1225 | every source is checked before the first merge and the fold gives the n-ary meet |
| `MeetDefined.MergeDefined` | semantics/semantics.go:1138-1225 | two grants merge exactly when their identifiers are equal or one stands below the other and what both declare meets |
| `MeetDefined.IntersectNext` | semantics/semantics.go:1100-1225 | a sound single source is its own meet, and one more sound source is merged into the meet of the others unless a key is a parameter of one and a Bound of another |
| `Acceptance.ContainsOnText` | semantics/semantics.go:1008-1081 | a child is contained exactly when both grants are sound, the parent covers its identifier and, once the parent declares keys, the child declares the same ones on the same sites, each within |
| `Containment.CarriesExactly` | semantics/semantics.go:1085-1096 | a contained child value carries every acceptance to its parent exactly when, under each parent list, the child is a list, accepts nothing, or accepts only itself |
| `Containment.MeetMakesSafe` | semantics/semantics.go:1238-1242 | a contained pair whose meet is defined is one of those pairs |
| `Containment.ContainmentAloneIsUnsound` | semantics/semantics.go:1085-1096 | the list `[5, 10]` contains `5`, `5` admits `3`, the list refuses `3`, and the pair has no meet |
| `Authorization.EvaluateConstraints` | semantics/semantics.go:1434-1456 | the constraint loop reports success exactly when every constraint is well formed and holds, and then lists exactly those the core does not decide |
| `ConstraintText.WellFormedOnText` | semantics/semantics.go:1507-1546 | a constraint is well formed exactly when its text is the reserved row limit with a plain interoperable integer, or a reserved time or network constraint whose value its grammar accepts |
| `ConstraintText.RowLimit` | semantics/semantics.go:1552-1598 | a row limit is decided here and holds exactly when the operation asks for a whole number of rows from zero to the limit |
| `ConstraintText.OthersAreLeft` | semantics/semantics.go:1482-1491 | every other well-formed constraint holds of any operation and is left unresolved |
| `Authorization.EvaluateSet` | semantics/semantics.go:1390-1476 | the scan denies unless some named grant allows, and otherwise lists the union of obligations of the allowing grants, sorted; a denial is blamed on unnamed grants, then the operation, then the first covering grant: its parameters, else its first failing constraint |
| `Authorization.OneCause` | semantics/semantics.go:1378-1389 | no denial has two causes |
| `Delegation.SetIsUnion` | semantics/semantics.go:1390-1476 | a set of grants allows exactly what one of them alone allows, and leaves open exactly what those leave open |
| `Delegation.ChainPerGrant` | semantics/authorizechain.go:31-45 | when a chain is not denied, each grant entails the operation exactly when it passes that grant's own step tests |
| `Delegation.ChainExact` | semantics/authorizechain.go:31-45 | a chain whose every grant permits the operation on its own, contained and with a meet within the caps, is never denied; and a chain that is not denied speaks for every grant exactly when the operation passes the grants' own step tests |
| `ChainLast.LastGrantDecides` | semantics/authorizechain.go:31-45 | for every step, a chain is not denied exactly when it is contained, its meet exists within the caps, the operation is valid, the last grant entails it, and the constraints of all grants hold |
| `Delegation.ChainCommensurate` | semantics/authorizechain.go:31-45 | where the steps of the chain for the same place are equal, both whole, or the finer one a power of two, the decision does not deny exactly when the chain is contained, its meet exists within the caps, the operation is valid and every grant permits it on its own |
| `Delegation.ChainKeepsEveryConstraint` | semantics/authorizechain.go:31-45 | when a chain does not deny, every constraint of every grant holds, and is either decided by the core or listed as unresolved; the grant entails the operation exactly when its own step tests pass |
| `Delegation.KeysFixed` | semantics/semantics.go:1036-1076 | once a grant of a contained chain declares keys, all later grants declare the same |
| `LinkGraph.CycleSearch.Visit` | semantics/sources.go:133-164 | one depth-first visit: a reported cycle exists, otherwise the node and all it reaches have finished and the stack is as before |
| `LinkGraph.DetectCycle` | semantics/sources.go:133-164 | the three-colour search reports a cycle exactly when the graph has one |
| `Sources.KeyInjective` | semantics/sources.go:255-257 | digest keys are equal exactly for equal digests |
| `Sources.HexByByte` | semantics/sources.go:255-257 | each byte of a digest stands in its key as two lower-case hexadecimal digits, the high one first |
| `Sources.EdgesExact` | semantics/sources.go:95-131 | an edge runs from one digest to another exactly when a link names the two, in that direction |
| `Sources.Validate` | semantics/sources.go:95-131 | success exactly for shaped, duplicate-free, byte-backed, acyclic chains; each refusal names the first defect in list order: a misshapen source, a repeated digest, a link with an undisclosed end, a link its source does not back, or a cycle |
| `Sources.ValidatedExactly` | semantics/sources.go:95-131 | a chain is sound exactly when every source has a kind, an identifier and a digest of its own, every link runs between disclosed sources of which the first names the second, and no links form a cycle |
| `Sources.StandingOn` | semantics/sources.go:212-249 | the walk never meets its cycle error on a validated chain, ends within the number of sources, and returns a simple path of byte-backed hops to a source that names nothing, or refuses at a source the walk reaches that names several |
| `Requirements.ParserExact` | semantics/requirement.go:380-430 | the parser accepts exactly the token lists of the equal-precedence left-to-right grammar within its limits, with their left-to-right meaning |
| `Requirements.ParseUndoesPrint` | semantics/requirement.go:380-430 | parsing the printed form of an expression within the limits gives it back |
| `Requirements.EvalIsTruth` | semantics/requirement.go:432-457 | a parsed expression evaluates left to right, AND and && asking for both sides, OR and || for one |
| `Requirements.EvalMonotone` | semantics/requirement.go:449-457 | more roles present never make an expression false |
| `Requirements.LimitsFromTokens` | semantics/requirement.go:380-430 | depth and node count of an expression are the parenthesis depth and operator count of its tokens |
| `RequirementText.TokenizeRequirement` | semantics/requirement.go:336-368 | the index loop computes the tokens, or refuses at the first byte that starts none |
| `RequirementText.RequirementParser.ReadExpr` | semantics/requirement.go:380-405 | the parser object, moving its position and node count, agrees with the parse function |
| `RequirementText.ParseRequirementExpression` | semantics/requirement.go:317-334 | tokenizing, parsing and the end-of-input check together |
| `RequirementPrint.TokenizeSpaced` | semantics/requirement.go:336-368 | tokens with spaces between them are tokenized back |
| `RequirementPrint.TextRoundTrip` | semantics/requirement.go:317-334 | an expression printed as text within the limits parses back to itself |
| `RequirementText.WrapRequiresRoles` | projection/emilia_aec.go:150-166 | for any text at all, if its wrapped form parses then it is true only when every added role is present |
| `RequirementText.WrapExact` | projection/emilia_aec.go:150-166 | a parsable text wrapped with roles parses exactly when one more level and one node per role fit, and then means the text and all roles |
| `RequirementText.WrapRefused` | projection/emilia_aec.go:150-166 | parentheses nested to the parser's limit parse, and wrapped with any roles are refused |
| `RequirementText.ProjectExpression` | projection/emilia_aec.go:150-166 | the loop appends each distinct binding role once, in order |
| `RequirementText.ProjectionRequiresBindings` | projection/emilia_aec.go:150-166 | a projected requirement is met only when every binding role is present, repeats included |
| `BindingRoles.BindingRoleName` | projection/emilia_aec.go:245-276 | the two loops over the parts and the base64 text give the role, refusing a part that is empty, too long or outside the alphabet, and a role over 256 bytes |
| `BindingRoles.RoleNameInjective` | projection/emilia_aec.go:245-276 | two bindings share a role only when they are the same ordered triple |
| `BindingRoles.RoleNameDefined` | projection/emilia_aec.go:245-276 | a role name exists exactly when the three parts are identifiers of one to 256 bytes and the encoded length is at most 256 |
| `BindingRoles.Base64Injective` | projection/emilia_aec.go:245-276 | base64url text without padding determines the bytes |
| `RoleReader.ReadUndoesRoleName` | projection/emilia_aec.go:245-276 | a reader of base64url text, big-endian lengths and the parts from, relation, to gives back the binding of every role name |
| `BindingRoles.BindingsRequired` | projection/emilia_aec.go:150-166 | in a met projection every required binding is present under a role no other binding has |
| `Resolution.ResolveDecision` | semantics/resolve.go:52-111 | the nested loops compute the resolution |
| `Resolution.ResolveExact` | semantics/resolve.go:52-111 | a violated obligation denies, naming the first in sorted order; otherwise exactly the unknown obligations stay, sorted |
| `Resolution.ResolveOnFacts` | semantics/resolve.go:52-111 | denied exactly when an obligation is reported violated or the clock is outside its windows; allowed exactly when every one is reported satisfied or inside a window and none is broken; otherwise exactly the rest is left, sorted |
| `Resolution.MalformedIsDenied` | semantics/resolve.go:52-111 | a report without constraint or with an unknown status, or an unreadable clock, denies before anything is discharged |
| `Resolution.ReportedExact` | semantics/resolve.go:123-138 | folding reports gives the strictest status any of them states |
| `Resolution.ReportOrderIrrelevant` | semantics/resolve.go:52-111 | order and repetition of reports never matter |
| `Resolution.ResolveIdempotent` | semantics/resolve.go:52-111 | resolving again with the same reports and clock changes nothing |
| `Resolution.StagedVersusBatch` | semantics/resolve.go:52-111 | batch allow implies staged allow, and staged deny implies batch deny |
| `Catalog.CollectHistory` | catalog/policy.go:261-276 | the loop with its seen map gives the first record of each generation |
| `CatalogRuns.AdvanceExact` | catalog/policy.go:207-278 | on a reachable state an advance succeeds exactly for a valid, bound catalog of the same identity that is the head again or follows the head digest |
| `CatalogRuns.AdvanceIsVerified` | catalog/policy.go:172-278 | every accepted event carries an accepted verification of that very catalog, a snapshot its signature, a delta its proof and the head as base; the catalog has the right version, names, period, previous digest and distinct sound entries |
| `CatalogRuns.HistoryComplete` | catalog/policy.go:172-278 | in every run the history holds one record per generation from 1 to the head, in order, ending at the head digest |
| `CatalogRuns.HistoryNeverRewritten` | catalog/policy.go:207-278 | whatever follows, the history so far stays a prefix and the identity stays |
| `CatalogRuns.HeadDigestPinsHistory` | catalog/policy.go:207-278 | two runs that end at the same head digest are in the same state, whole history included |
| `CatalogDelta.NoteTouched` | catalog/delta.go:83-117 | the touched map refuses exactly when a capability is empty or appears twice in the delta |
| `CatalogDelta.ApplyDelta` | catalog/delta.go:125-200 | the deletions, replacements and additions in the mutated map, then the sorted listing, give the application of the delta or its refusal |
| `CatalogDelta.ApplyExact` | catalog/delta.go:125-200 | the result holds exactly the additions, the replacements and the base entries neither removed nor replaced, strictly sorted |
| `CatalogDelta.ApplyDefined` | catalog/delta.go:125-200 | a delta applies exactly when it is valid, names this base, removes and replaces only what the base has, adds only what it has not, and gives a valid catalog with the announced digest |
| `CatalogDelta.ApplyOrderIrrelevant` | catalog/delta.go:125-200 | the order of the delta's lists never matters, for success or result |
| `CatalogDelta.DeltaAgreesWithSnapshot` | catalog/policy.go:189-202 | with the head as base, advancing by the delta succeeds and gives the state accepting the snapshot with the target digest gives |
| `SchemeAdmin.HistoryContiguous` | schemeadmin/state.go:18-124 | in every run history is contiguous from 1 to the head and ends at the head digest |
| `SchemeAdmin.RunGrows` | schemeadmin/state.go:18-124 | history and tombstones of every run only ever grow at the end |
| `SchemeAdmin.RevokedStaysOut` | schemeadmin/confirm.go:194-209 | once a tombstone is effective, its digest is never again the source or the result of an accepted step |
| `SchemeAdmin.UpdateExact` | schemeadmin/confirm.go:489-524 | on a reachable state the fork and rollback checks add nothing: an update succeeds exactly when it is well formed, follows the head, keeps the revision rule for its change class, and neither leaves nor enters a revoked digest |
| `SchemeAdmin.StepExact` | schemeadmin/state.go:18-124 | for every action, on a reachable state: exactly when a proposal is accepted, and the state it then gives |
| `RuleConditions.Budget.Step` | ruleexec/budget.go:77-86 | a step is charged first and then judged, the step limit before the deadline |
| `RuleConditions.Budget.Enter` | ruleexec/budget.go:89-98 | a depth failure leaves the nesting alone, a nesting failure has raised it |
| `RuleConditions.Budget.Exit` | ruleexec/budget.go:101-105 | leaving never takes the nesting below zero |
| `RuleConditions.EvalCondition` | ruleexec/condition.go:72-129 | within the budget the answer is the plain short-circuit meaning and exactly the visited nodes are charged; otherwise, and only then, a budget failure; nesting is restored except after a nesting failure |
| `ConditionLaws.LookupByName` | ruleexec/condition.go:25-42 | a path looks up its first name in the context and each further one in the object so far |
| `ConditionLaws.NumbersCompare` | ruleexec/condition.go:131-164 | on numbers exactly one of less, equal and greater answers yes, as the values say; the other operators are their combinations |
| `ConditionLaws.InIsSomeEqual` | ruleexec/condition.go:165-181 | "in" answers yes exactly when "equal" does for one listed value |
| `ConditionLaws.BetweenIsBoth` | ruleexec/condition.go:182-195 | "between" answers yes exactly when "at least" the first and "at most" the second bound do |
| `ConditionLaws.NullMatchesNothing` | ruleexec/condition.go:131-200 | no comparison of a null answers yes, the null test does |
| `ConditionLaws.NullTest` | ruleexec/condition.go:110-118 | the null test answers yes exactly for what is absent or null |
| `ConditionLaws.AllAndAny` | ruleexec/condition.go:82-103 | "and" answers yes when all items do, "or" no when all do, otherwise what the first other item answers |
| `ConditionLaws.DeMorgan` | ruleexec/condition.go:82-109 | negation passes through both lists, failures included |
| `RuleFlows.RunSteps` | ruleexec/flow.go:43-84 | the same for flows: variables, operation log, cost and nesting against the plain effect of the flow |
| `RuleFlows.RunFlow` | ruleexec/flow.go:39-41 | whatever a run returns, the operations it called are a subsequence of the flow tree's preorder |
| `RuleFlows.LogWritten` | ruleexec/flow.go:43-84 | the plain effect of a flow calls a subsequence of the operations written in it |
| `ConditionLaws.FlowsCompose` | ruleexec/flow.go:43-84 | running two step lists end to end is running the second from where the first left off |
| `ConditionLaws.BranchTaken` | ruleexec/flow.go:62-74 | a branch runs its first list on yes, its second on no, and nothing on failure |
| `ConditionLaws.OperationRuns` | ruleexec/flow.go:54-61 | an operation is called once, its output replaces the variables it names, its error stops the flow |
| `SqlReader.LexQuoted` | ruleexec/sqlgen.go:215-217 | the identifier lexer undoes quoting, whatever the name contains |
| `SqlReader.LexRender` | ruleexec/sqlgen.go:87-190 | the rendered text lexes to the tokens of the filter |
| `SqlMeaning.ReadFilter` | ruleexec/sqlgen.go:87-127 | read with NOT over AND over OR, the tokens of a filter give its tree and leave the rest untouched |
| `SqlMeaning.RenderedMeansFilter` | ruleexec/sqlgen.go:87-190 | for every filter and row the rendered text, its placeholders filled with the values the filter mentions in the order written, has the outcome the filter asks for: "between" from its first to its second value, "in" equality with one of its values, texts compared byte-exact; the placeholders outside identifiers are as many as the arguments |
| `SqlFilter.BoundAsWritten` | ruleexec/sqlgen.go:87-190 | the bound arguments are the values the filter mentions, in the order written |
| `SqlFilter.ColumnRenderable` | ruleexec/sqlgen.go:145-190 | a comparison is refused exactly for an unknown operator, a null outside the null tests, no list or an empty one for "in", no pair for "between" |
| `SqlMeaning.ColumnExpression` | ruleexec/sqlgen.go:197-212 | BINARY is written exactly for a string or a list holding one |
| `SqlMeaning.RenderCondition` | ruleexec/sqlgen.go:145-190 | text and arguments of one comparison, refused exactly for an unknown operator or unsuitable value |
| `SqlMeaning.FilterToSql` | ruleexec/sqlgen.go:87-110 | the recursion and its loops give the rendered text and arguments, refusing exactly the filters that cannot be rendered |
| `SchemaDigest.FindStable` | schema_digest.go:270-289 | where the key scanner stops depends only on the text up to there |
| `ScannerReads.ScansStrings` | schema_digest.go:229-242 | the string scanner stops right after the closing quote of the text of any string |
| `ScannerReads.ScansValues` | schema_digest.go:163-265 | on the text of any JSON value the scanner stops exactly where the value ends |
| `BackfillRuns.BackfillIdempotent` | schema_digest.go:42-136 | whenever a backfill succeeds, backfilling its output succeeds, inserts nothing and returns it unchanged |
| `BackfillComplete.EveryKeyDigested` | schema_digest.go:42-136 | in the output every params_schema key has a value followed by a digest entry that matches it |
| `BackfillComplete.InsertsExactly` | schema_digest.go:42-136 | nothing is inserted exactly when that already held of the input |
| `BackfillComplete.RefusedExactly` | schema_digest.go:42-136 | a document is refused exactly when it mentions the key and has a broken string, a value that is missing, broken or without comma or brace after it, or a digest entry that is broken or does not match |
| `BackfillRuns.BackfillKeepsInput` | schema_digest.go:42-136 | the output is the input plus entries, up to whitespace outside strings; each entry stands outside strings right after a params_schema key and its whole value, and digests that value |
| `BackfillTight.BackfillPreservesBytes` | schema_digest.go:42-136 | without its insertions the output is the input byte for byte exactly when no params_schema value is followed by whitespace before its terminator and no brace that gets an entry before it is followed by whitespace |
| `BackfillTight.SpaceIsDropped` | schema_digest.go:42-136 | the document `{"params_schema":1 }` loses its space |
| `BackfillLoops.SkipSpace` | schema_digest.go:292-303 | the loop drops exactly the leading whitespace |
| `BackfillLoops.SkipNumber` | schema_digest.go:251-265 | the loop drops the longest run of number bytes and refuses an empty one |
| `BackfillLoops.SkipString` | schema_digest.go:229-242 | the loop drops a whole string, escapes included, or refuses an unterminated one |
| `BackfillLoops.SkipNested` | schema_digest.go:185-227 | the loop with its depth counter drops a whole object or array, strings inside skipped |
| `BackfillLoops.SkipValue` | schema_digest.go:163-183 | the dispatch over the first byte of a value |
| `BackfillLoops.FindParamsSchemaKey` | schema_digest.go:270-289 | the loop finds the colon of the first key outside string values, none, or a broken string |
| `BackfillLoops.BackfillParamsSchemaDigests` | schema_digest.go:42-136 | the main loop writes the text of the rewriting or fails when it does |
| `SchemaValidation.FollowsMonotone` | jsonschema.go:172-352 | a verdict the schema rules give within a depth, they give within every larger depth |
| `SchemaKeywords.ValidatesByKeyword` | jsonschema.go:172-352 | the validator accepts exactly when every keyword does, each read off the schema and the value: const, enum, type, limits, required, properties, additionalProperties, items, item limits, uniqueItems, oneOf and not, subschemas one level deeper |
| `SchemaKeywords.ValidatesReference` | jsonschema.go:107-122 | a reference accepts exactly when it names a local definition, the limit is not reached and the definition accepts |
| `SchemaMeaning.MeansByKeyword` | jsonschema.go:172-352 | the meaning without a cut accepts exactly when every keyword does |
| `SchemaMeaning.MeansReference` | jsonschema.go:107-122 | without a cut a reference means what the definition it names means, and rejection when it names none |
| `SchemaMeaning.ReferenceFreeIsExact` | jsonschema.go:172-352 | on a schema without references the validator gives the meaning at every limit |
| `SchemaValidation.MeansOneVerdict` | jsonschema.go:172-352 | the unbounded rules never both accept and reject a value |
| `SchemaValidation.ValidatesMeaning` | jsonschema.go:172-352 | when no branch meets the depth cut the validator accepts exactly what the schema means, rejects exactly what it excludes, and every larger limit answers the same |
| `SchemaValidation.SettledMeaning` | jsonschema.go:172-352 | even with cut branches, a verdict the rules settle within the limit is the validator's |
| `SchemaCut.CutErrsOneWay` | jsonschema.go:172-352 | an acceptance with no cut under an odd number of `not`, and a rejection with none under an even number, is the meaning of the schema |
| `SchemaCut.SettledExactly` | jsonschema.go:172-352 | a verdict follows from the schema rules within the limit exactly when it comes out whatever each cut reference is taken to answer |
| `SchemaCut.CutAnswersNo` | jsonschema.go:172-186 | the validator is the case where every cut reference answers no |
| `SchemaCut.StaysWithinIsNoCut` | jsonschema.go:172-352 | no branch meets the cut exactly when none does under an even and none under an odd number of `not` |
| `SchemaCut.CutFailsClosed` | jsonschema.go:79-98 | without `not`, whatever is accepted under the cut is accepted by the meaning |
| `SchemaCut.CutUnderNotAccepts` | jsonschema.go:344-349 | for every limit there is a schema with `not` and a reference chain whose cut makes the validator accept what the schema excludes |
| `SchemaValidation.ValidateSchema` | jsonschema.go:172-352 | the validator ends on every schema, cyclic references included, and its verdict is the same for every order the maps are visited in |
| `SchemaValidation.ValidateParams` | jsonschema.go:66-77 | the entry point takes the root's `$defs` and starts at depth zero |

## Left out

- Reason codes of the grant algebra: several checks range over Go maps, so which code is reported first depends on map order; verdicts are modelled, and of a denial the grant and constraint it comes from. Resolution keeps the violated constraint instead of its printed code.
- BoundLattice.StepsCarry: that steps are equal, both whole, or the finer one a power of two is sufficient and not necessary; whether any other pair of steps leaks depends on the rounding of every single quotient and is not characterised further. `BoundLattice.WithinSound` is exact for every step, value by value.
- Binary64.MultipleIsDivision: numbers compare by their decimals, which for the shortest decimals of doubles is the order of the doubles; only the step rule and the integer range are judged on rounded values.
- Numbers.ReadUndoesLayout: starts from shortest digits and a point position; finding the shortest digits of a binary64 value, and rounding a literal to one, are library work.
- CanonicalJson.RoundTrip: strings are sequences of Unicode scalar values, so the refusals of invalid UTF-8 and lone surrogates are not modelled; the program's bytes above 0x7F pass through unchanged either way.
- CanonicalWriter.Buffer.WriteCanonicalJson: the library sort of the keys is represented by the sorted listing it must return.
- RawParams.ValidateRawParams: starts from the decoder's ordered tree; malformed text, trailing tokens and the literal grammar of numbers (its verdict is a field of the numeral) are outside.
- Authorization.EvaluateSet: the grammars of time windows and network ranges are parameters, and a denial names its cause, not the printed code, which for parameters depends on map order.
- Delegation.ChainExact: a nil parameter map and an empty one are one value, which the code treats alike.
- Sources.Validate: the chain digest over the disclosed sources is not modelled.
- RequirementText.ProjectExpression: role names are given to it; their encoding is in `BindingRoles`.
- Evaluation of evidence facts against roles (freshness, issuers, distinctness) around the requirement expression.
- CatalogRuns.HistoryComplete: name, principal and digest grammars and entry shapes are parameters; signatures, trust policy and packages are the verified record handed to the state.
- SchemeAdmin.RevokedStaysOut: certificates, authority containment, freshness, approvals and signed tombstones are one boolean of the proposal.
- Resolution.ResolveDecision: RFC 3339 text is an abstract instant and window text its list of intervals.
- RuleConditions.EvalCondition: the deadline is an oracle per charged step, numbers are exact, and leaf values are decoded JSON rather than Go carriers.
- RuleFlows.RunFlow: the handler is a pure function of name, variables and request.
- SqlMeaning.RenderedMeansFilter: what comparing a column with one value comes to on a row is a parameter, so MySQL's own comparison and collation rules are not modelled; the surrounding SELECT and column list are outside.
- BackfillRuns.BackfillIdempotent: SHA-256, compaction of the digested value and decoding of a stored string are the two functions of `Tools`; bytes are modelled as characters, of which only ASCII ones matter to the scanner.
- SchemaValidation.ValidateSchema: error messages, codes and paths are not modelled; values are decoded JSON with one number type.
- Quantity domains, default materialization, revision compatibility, AIC and X.509 handling, PKCS#7 signatures, policies, packages, challenges and reports, file, HTTP and database plumbing, generators and command runners: foreign libraries, input and output, or field-by-field shape checks.
