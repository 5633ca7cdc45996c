# Proofs about the repository's tooling

The scripts of this repository start gates, publish packages, keep translations paired, project documentation and
check declarations. This project models the algorithms among them in Dafny and proves what they promise: over every
input, every run and every interleaving of their environment. Nothing here executes the scripts; each module follows
the branches, error conditions and constants of the TypeScript it names.

`dafny verify dfyconfig.toml` checks everything.

## What is modelled

**Gates** (`scripts/run-gates.ts`). `GateGraph` is the validation and the depth-first cycle search; `GateScheduler` is
the scheduler as a step system whose environment decides which running gate settles next; `GateVerdicts` says why each
gate has the state it has; `GateIndependence` proves that the final states do not depend on the schedule, that the two
internal errors cannot happen and that runs are short; `GateReports` says when a skip report is complete; `RunGates` is
the scheduling loop itself, and `GateExample` a list of gates it runs to an incomplete report.

**Config catalog** (`scripts/gen-config-catalog.ts`). `SchemaPaths` parses schema key paths. `SchemaLookup` is the
three-valued lookup over recursive type environments, with the guard set threaded through exactly as the script shares
it between siblings, and the meaning of a path being present in all branches or possible in some. `SchemaSoundness`
relates the two wherever the names of the path itself are spelled: no declaration and no type literal that the walk can
reach writes one of them as a method, in quotes, or as the text of another key, and, for `missing`, none has an index
signature. `SchemaAgreement` shows that verdicts never disagree on any world at all, and `SchemaExactness` says, name by
name, when type literals and interfaces are judged rightly. `SchemaGuard` says when the guard costs precision;
`SchemaTermination` bounds the recursion; `SchemaWalker` is the recursion over a mutable guard.
The lookup carries a call depth, so that "runs for ever" is "overflows every depth".

**Publication** (`scripts/publish-npm-baseline.ts`). `Registry` is a primary that never changes a published version,
with read replicas that lag it, commands that fail before or after their write lands, and a clock; three
restrictions of it say what is exact: one without lag or failures; one without failures whose replicas list a tag at
the release as long as it was ever there; and one without failures whose replicas show every write once some time has
passed since the last. `Publication` is the resumable publish and verify.

**Translation responses** (`scripts/translation-prompt.ts`). `ResponseText` has the multiline whole-line search and
texts made of pieces; `TranslationResponse` the escaping, renderer and parser; `ResponseRoundTrip`, `ResponseExactness`
and `ResponseStability` the round trip, its exact domain and the stability of whatever parses; `ResponseGrammar` what is
accepted and with which values, told by the text alone. `LanguageSwitcher` is the correction of the final document, over
`LineEndings`, and `SwitcherExactness` which documents it accepts and what it keeps.

**Splices.** `Splices` proves once that in-place edits from last to first are one simultaneous substitution, where
everything ends up, and how to undo it. `TranslationBrief`, `MechanicalUpdate`, `MechanicalAcceptance`,
`MechanicalExactness`, `MechanicalIdentity` and `MechanicalUndo` use it for code fences (`scripts/translation-brief.ts`);
`LinkDestinations`, `LinkRanges`, `LinkGrammar`, `LinkLabels` and `LinkRewriting` for link destinations
(`scripts/project-doc-site.ts`), put together for a whole page, with images in the labels of links, in `PageLinks`.

**Generated regions and pair records** (`scripts/translation-pairing.ts`, `scripts/translation-pairing-record.ts`,
`scripts/gen-cordis-catalog.ts`). `GeneratedRegions` partitions a document, `RegionMarkers` says what its lines and errors
are, `RegionSplice` splices a region into it, `PairRecord` parses and renders records, which `RecordGrammar` defines on
the text, `PairHistory` follows a pair through whole histories of edits, confirmations and generator runs, and `WalkPartition` gives the closed form of the catalog's partition checks.

**Graphs, pools and text machines.** `PackageGraph` and `TopoSort` (`scripts/package-graph.ts`), `ReferenceFaces`
(`scripts/project-reference-faces.ts`), `PublintPool` (`scripts/publint-all.ts`), `MarkdownComments`
(`scripts/markdown.ts`), `JsDoc`, `JsDocLines`, `JsDocProse` and `JsDocDescription` (`scripts/jsdoc.ts`),
`PairedDerivatives` (`scripts/paired-markdown-derivatives.ts`). `Graphs`, `Sorting`, `Selections`, `Measures`, `Text`,
`Whitespace` and `Outcomes` are shared.

## What the proofs found

Where a promise does not hold on every input, the code is kept as it is, an input is exhibited, and the exact
condition is proved.

- A skip report lists the needs that were unsuccessful when the gate was skipped, not those unsuccessful at the end. It
  is complete exactly when no need is still pending then: `GateReports.ReportIsComplete`. Every report is, when needs
  stand before their dependents in the list: `NeedsFirstReportsAll`. A need that stands behind its dependent and has no
  need of its own that the dependent does not have is always left out: `SharedNeedIsOmitted`, with `GateExample`.
- Method signatures, quoted names and index signatures are invisible to the lookup, which answers `missing` where it
  documents `unknown`, and `found` for the text of a key: `SchemaExactness.LiteralSoundness` and `InterfaceSoundness`
  say exactly when, `SchemaExactness.HiddenMemberMisreported` finds the name.
- A publication that returns normally leaves everything in place, whatever lags or fails, exactly from registries on
  which no tag of the release was ever moved off it: `Publication.Publish` and `PublishRepeatedly` one way, and
  `PublishAtBoth` the other, as stale reads are enough to leave such a tag where it is. `MovedOffTagStays` is a run.
- The release's own tag is read back until the replicas show it, but `latest` only once, right after it is set. Through a
  lag that hides fresh writes a publication therefore leaves everything in place and still reports that `latest` points
  elsewhere, unless it was in place before or is the release's own tag: `Publication.PublishThroughLag`. Publishing again
  then succeeds.
- The guard shared between siblings never makes a verdict wrong but costs precision on a diamond of bases:
  `SchemaWalker.DiamondIsUnknown`. It does so only where some declaration is reached twice with as many steps left, and
  fires exactly there: `SchemaGuard.DeclTells` and `DistinctLookupIsExact`. `type A = A['x']` is never stopped by it:
  `SchemaTermination.SelfIndexNeverFinishes`; worlds whose declarations do not lead back to themselves through the object
  of an indexed access are: `SchemaTermination.LevelledDeclFinishes`.
- A carriage return hides a close tag from the escaper but not from the parser: `ResponseStability.CarriageReturnBreaksRoundTrip`;
  the exact domain is `ResponseExactness.RoundTrip`.
- Correcting the language switcher twice differs from correcting it once exactly on documents with a stray carriage
  return: `LanguageSwitcher.CorrectionIsIdempotent`.
- A prose line equal to a code sentinel, in both versions of a source, can misplace a fence:
  `MechanicalIdentity.SentinelInProseMisplacesTheFence`. It does so exactly when it changes the length of the prose
  before a fence: `MechanicalIdentity.UpdatingConfirmedIsExact`.
- A mechanical update can be undone by the reverse change exactly when no fence it put in, and no line of the
  counterpart, still ends in a carriage return: `MechanicalUndo.UpdateUndone`.
- A link destination is found exactly unless it holds a Unicode space outside parentheses or ends in a lone backslash
  before a title: `LinkGrammar.DestinationIsExact`, with `UnicodeSpaceIsMissed` and `BackslashBeforeTitleIsMissed`.
- Brackets in a code span of a label are counted like any others. The destination is found exactly when they balance:
  `LinkLabels.InlineIsExact`. When they do not, it may be missed, as in `LinkLabels.CodeSpanInLabel`, or be a part of
  the label, as in `LinkLabels.LinkInCodeSpan`.
- A pair record parses back exactly when the file name has a nonempty stem without `:` or `#`: `PairRecord.RecordRoundTrip`.
- An unknown dependency is reported by the topological sort as a cycle: `TopoSort.TopoSort` fails for either.

## Model

| member | source | states |
|---|---|---|
| `GateGraph.FindDependencyCycle` | scripts/run-gates.ts:691-721 | On every gate list, nothing is returned exactly when the graph is acyclic; otherwise a path that starts and ends at the same gate, follows `needs` edges throughout and repeats no other gate. |
| `GateGraph.Visit` | scripts/run-gates.ts:698-715 | Visiting a gate either returns a simple cycle, or restores the path and the active index and leaves the gate among the finished ones, each ranked above all its needs. |
| `GateGraph.ValidateGateGraph` | scripts/run-gates.ts:671-690 | Validation passes exactly on nonempty graphs with unique ids, known needs and no cycle; each error names a real duplicate, unknown need or cycle. |
| `GateScheduler.AlwaysBookkept` | scripts/run-gates.ts:741-798 | At every point of every run at most `maxActive` gates run, none twice, and the state table and the running list agree. |
| `GateScheduler.AllowedIsExact` | scripts/run-gates.ts:745-803 | A gate starts exactly when a slot is free, it is pending with all needs passed and no earlier gate of the list is; a running one settles exactly when no gate may start; one is skipped exactly when nothing runs, none may start and it is the first pending gate with a failed or skipped need. |
| `GateScheduler.WorkDrops` | scripts/run-gates.ts:741-798 | Every event lowers twice the pending plus the running gates, so the loop ends. |
| `GateVerdicts.AlwaysJustified` | scripts/run-gates.ts:741-798 | At every point of every run each gate is pending without a result, running with all needs passed, settled by its own outcome after its needs passed, or skipped because of an unsuccessful need, with a report naming one or more of those. |
| `GateVerdicts.SkipReportIsExact` | scripts/run-gates.ts:764-782 | At every point of every run, a gate with a result but not all needs passed was skipped by one event of the run, and its report is made of its needs at increasing positions, joined by commas, which are exactly those that had failed or been skipped before that event. |
| `GateVerdicts.StepIsLater` | scripts/run-gates.ts:784-790 | Settled states and their results never change again. |
| `GateIndependence.FinalVerdict` | scripts/run-gates.ts:747-803 | In a finished run a gate has its own outcome if all its needs passed, and otherwise a skip whose report lists, in the order of its needs, exactly those that had failed or been skipped when it was skipped. |
| `GateReports.ReportIsComplete` | scripts/run-gates.ts:756-782 | In a finished run a skip report lists, in the order of the needs, exactly those unsuccessful at the skip, and these are all the needs that ended unsuccessful exactly when none of them was pending then. |
| `GateReports.NeedsFirstReportsAll` | scripts/run-gates.ts:756-782 | If every need stands in the list before the gates that need it, every skip report of every finished run lists, in the order of the needs, exactly those that ended failed or skipped. |
| `GateReports.SharedNeedIsOmitted` | scripts/run-gates.ts:756-782 | A gate that stands before one of its needs, and needs all that this one needs, never reports it when it is skipped. |
| `GateExample.ReportOmitsLaterSkip` | scripts/run-gates.ts:756-782 | In every finished run of one list of three gates the report of the first names one need although its other need was skipped as well. |
| `GateExample.RunExample` | scripts/run-gates.ts:731-798 | The scheduler returns that report for this list, whatever the race and the slot limit. |
| `GateIndependence.ScheduleIndependence` | scripts/run-gates.ts:731-803 | Two finished runs of one validated graph, whatever the slot limits and the order of completion, end with the same states and results. |
| `GateIndependence.QuiescentIsUnique` | scripts/run-gates.ts:747-782 | Once nothing runs and nothing can start, the state is determined by the gates and their outcomes alone. |
| `GateIndependence.NeverStalls` | scripts/run-gates.ts:756-763 | For a validated graph the "stalled without a failed dependency" error is unreachable: with nothing running or ready, some pending gate has a failed or skipped need. |
| `GateIndependence.Progress` | scripts/run-gates.ts:741-798 | Until a run is complete some event is allowed. |
| `GateIndependence.RunsAreShort` | scripts/run-gates.ts:741-798 | A run has at most two events a gate. |
| `GateIndependence.StartsOnce` | scripts/run-gates.ts:743-751 | No gate is started twice in a run. |
| `GateIndependence.ExitZeroMeans` | scripts/run-gates.ts:115-117 | An aggregate exits 0 exactly when every command that a blocking gate runs or needs, through any chain of needs, passes. |
| `RunGates.RunGates` | scripts/run-gates.ts:731-798 | The loop succeeds exactly on valid graphs and slot limits; its trace is a run of the step system in which nothing starts after an error, all gates settle, and the results come back one a gate in aggregate order. |
| `RunGates.SkipBlocked` | scripts/run-gates.ts:754-783 | The skip phase settles every gate left, never raising the stall error. |
| `RunGates.CollectResults` | scripts/run-gates.ts:794-798 | No result is missing after a finished run: the second internal error is unreachable. |
| `RunGates.RunTwice` | scripts/run-gates.ts:731-798 | Two calls with different races and slot limits return the same results. |
| `SchemaPaths.ParsePath` | scripts/gen-config-catalog.ts:231-245 | The loop computes steps that begin with a member and print back, with a dot before each member and `[]` for each element, to the path; no member's name has a dot or ends in `[]`. |
| `SchemaPaths.PathStepsAreExact` | scripts/gen-config-catalog.ts:231-244 | For every path these are the only steps of which that is true. |
| `SchemaPaths.PathRoundTrip` | scripts/gen-config-catalog.ts:231-245 | Keys that need no escaping parse back from their rendered path. |
| `SchemaSoundness.TypeClaims` | scripts/gen-config-catalog.ts:316-402 | For every type node and guard, wherever the path's own names are spelled: `found` means present in all union branches, and an answer of the unguarded walk other than `missing` means possible. |
| `SchemaSoundness.TypeExcludes` | scripts/gen-config-catalog.ts:316-402 | For every type node and guard, wherever the path's own names are spelled and no index signature stands in for them: `missing` means possible in no branch at any unfolding of the recursive types. |
| `SchemaSoundness.LookupIsSound` | scripts/gen-config-catalog.ts:316-402 | Both, for a declaration, whatever the shared guard already holds on entry and whatever other members the declarations reached have. |
| `SchemaSoundness.UnguardedLookupIsExact` | scripts/gen-config-catalog.ts:316-402 | Under the same conditions, when the guard never fired, `found` holds exactly when the path is certainly present and `missing` exactly when it is certainly absent; index signatures matter for `missing` alone. |
| `SchemaSoundness.RegionVerdictsAgree` | scripts/gen-config-catalog.ts:316-402 | Where the path's names are spelled and there is no index signature, two definite verdicts agree, because both are true. |
| `SchemaAgreement.WrittenDeclWalk` | scripts/gen-config-catalog.ts:316-402 | The lookup cannot tell a world from the one in which every property is declared under its own text and nothing else is. |
| `SchemaAgreement.VerdictsNeverDisagree` | scripts/gen-config-catalog.ts:316-402 | On every world, hidden members included, two definite verdicts for one declaration and path agree, whatever either guard held. |
| `SchemaExactness.LiteralName` | scripts/gen-config-catalog.ts:334-342 | For each name, a type literal is judged soundly exactly when what is found is a declared key and what is not found is neither a key nor covered by an index signature. |
| `SchemaExactness.LiteralSoundness` | scripts/gen-config-catalog.ts:334-342 | A type literal is judged soundly for every name, `found` and `missing` alike, exactly when each key is written as the property text compared, each such text is a key, and there is no index signature. |
| `SchemaExactness.HiddenMemberMisreported` | scripts/gen-config-catalog.ts:334-342 | A type literal with a key that is not written so, or an index signature, has a name that may be present and is reported missing. |
| `SchemaExactness.InterfaceFound` | scripts/gen-config-catalog.ts:321-333 | For each name, an interface over rightly judged bases is rightly said to have it exactly when what its own members show is declared there or inherited. |
| `SchemaExactness.InterfaceMissing` | scripts/gen-config-catalog.ts:321-333 | For each name, it is rightly said to lack it exactly when its own members do not hide it or a base keeps the verdict from being `missing`. |
| `SchemaExactness.InterfaceSoundness` | scripts/gen-config-catalog.ts:321-333 | An interface without bases is judged soundly for every name exactly when a type literal with its members is. |
| `SchemaExactness.LiteralOnAllPaths` | scripts/gen-config-catalog.ts:334-342 | On paths of every length: over rightly judged types, and with no two properties sharing a text or key, a type literal is judged soundly exactly when each member is a property written under its own key. |
| `SchemaExactness.InterfaceOnAllPaths` | scripts/gen-config-catalog.ts:321-333 | The same for an interface without bases. |
| `SchemaGuard.DeclTells` | scripts/gen-config-catalog.ts:316-402 | A finished lookup met the guard exactly when the walk without a guard reaches some declaration twice with as many steps left, or reaches one entered before with as many; otherwise the guard has collected all it reaches. |
| `SchemaGuard.TypeTells` | scripts/gen-config-catalog.ts:362-402 | The same for a type node. |
| `SchemaGuard.DistinctLookupIsExact` | scripts/gen-config-catalog.ts:316-402 | A fresh lookup that reaches no declaration twice with as many steps left answers `found` and `missing` exactly when the path is certainly present or certainly absent, wherever its names are spelled and no index signature stands in for them. |
| `SchemaTermination.LevelledDeclFinishes` | scripts/gen-config-catalog.ts:316-402 | If the declarations have levels, none lower than what it leads to and each higher than what stands in the object of its indexed accesses, a call depth computed from the unseen (declaration, remaining steps) pairs, with the level added to the steps, and the tallest declaration always suffices, on any recursive world. |
| `SchemaTermination.LevelledTypeFinishes` | scripts/gen-config-catalog.ts:316-402 | The same for a type node, with its height added. |
| `SchemaTermination.SelfIndexHasNoLevels` | scripts/gen-config-catalog.ts:380-386 | `type A = A['x']` has no such levels. |
| `SchemaTermination.DeclFinishes` | scripts/gen-config-catalog.ts:316-402 | In particular, without indexed access, a call depth computed from the unseen (declaration, remaining steps) pairs and the tallest declaration always suffices, on any recursive world. |
| `SchemaTermination.TypeFinishes` | scripts/gen-config-catalog.ts:316-402 | The same for a type node, with its height added. |
| `SchemaTermination.DeclStackIrrelevant` | scripts/gen-config-catalog.ts:316-402 | An answer does not depend on how much call depth was left. |
| `SchemaTermination.SelfIndexNeverFinishes` | scripts/gen-config-catalog.ts:380-386 | On `type A = A['x']` the walk overflows every depth: the guard never fires because each round is one step longer. |
| `SchemaWalker.Walker.LookupDecl` | scripts/gen-config-catalog.ts:316-361 | The recursion over one mutable guard returns the verdict and leaves the guard of the specification. |
| `SchemaWalker.Walker.LookupType` | scripts/gen-config-catalog.ts:362-402 | The same for type nodes. |
| `SchemaWalker.ReportsMissingKey` | scripts/gen-config-catalog.ts:758-762 | Wherever the names of the key path are spelled and no index signature stands in for them, a reported schema key is in no branch of the declared type at any unfolding; wherever they are spelled, an unreported one is possible or met the guard; on a world with levels, such as one without indexed access, enough call depth always gives an answer. |
| `SchemaWalker.DiamondIsUnknown` | scripts/gen-config-catalog.ts:321-333 | A key absent from the whole of a diamond of bases is answered `unknown`: the sharing costs precision. |
| `Registry.Registry.Publish` | scripts/publish-npm-baseline.ts:683-702 | A publish adds a name once, tagging it, and is refused when the primary already has it; a failed reply may still have landed. |
| `Registry.Registry.ViewIntegrity` | scripts/publish-npm-baseline.ts:817-834 | A read returns the primary's value, nothing, or a failure, and changes nothing but the clock. |
| `Publication.RegistryPublication.EnsureDistTag` | scripts/publish-npm-baseline.ts:853-862 | Only this tag can change; a normal return means it has named this version; a tag read in place is left alone. |
| `Publication.RegistryPublication.VerifyRemotePackage` | scripts/publish-npm-baseline.ts:760-776 | `true` means the package was read with the manifest's integrity and its tag at the version; each error names a real fault of the package, and without lag `true`, error and "not yet" are decided exactly. |
| `Publication.RegistryPublication.VerifyRemote` | scripts/publish-npm-baseline.ts:729-758 | Polling ends; a normal return means every package was read in place, and "not visible" is reported only after the replication window. Where everything is in place and the replicas catch up within the window it returns normally, having slept a whole number of polling intervals and no interval more than they needed. |
| `Publication.RegistryPublication.PublishPackage` | scripts/publish-npm-baseline.ts:680-717 | The primary only makes progress and `latest` stays put; a conflicting integrity is reported without a write, and without lag the package ends in place exactly when there is no conflict. |
| `Publication.RegistryPublication.PublishAll` | scripts/publish-npm-baseline.ts:680-717 | The packages are published in order up to the first error, which names its package: those before are published, those behind are as they were, and `latest` is not moved unless the release is tagged with it. Where nothing fails and nothing conflicts there is no error. |
| `Publication.RegistryPublication.VerifyAndTag` | scripts/publish-npm-baseline.ts:718-720 | Nothing is written before every package was read in place; then `latest` is set and read back once, and through a lag that hides all that is fresh this fails exactly when it was not there before. |
| `Publication.RegistryPublication.Publish` | scripts/publish-npm-baseline.ts:675-721 | However the registry lags or fails, published versions never change and only this release's names and tags are added; a normal return means all were read back in place; unless the release is tagged `latest` itself, the entry package's `latest` moves only after all packages verified; where nothing fails it succeeds; with fresh reads everything is then in place, and with stale reads exactly when no tag of the release had been moved off it; through a lag up to the window everything is in place in the end, and where the lag hides all that is fresh it succeeds exactly when `latest` was there before or is the release's own tag. |
| `Publication.RegistryPublication.Verify` | scripts/publish-npm-baseline.ts:723-727 | The stand-alone check changes nothing and passes only on a release in place. |
| `Publication.ResumedRunsConverge` | scripts/publish-npm-baseline.ts:675-721 | From one starting registry, any two that made progress and have everything in place hold the same versions and current tags. |
| `Publication.PublishRepeatedly` | scripts/publish-npm-baseline.ts:675-721 | Any number of interrupted or misled attempts only make progress; from a registry on which no tag of this release was ever moved off it, everything is in place once one attempt has returned normally. |
| `Publication.PublishTwice` | scripts/publish-npm-baseline.ts:675-721 | From such a registry, two histories of attempts, each with one that returned normally, leave the same versions and current tags. |
| `Publication.PublishAtBoth` | scripts/publish-npm-baseline.ts:675-721 | From any registry that a release can be published to, publishing returns normally both where reads are up to date and where they are stale. The first leaves everything in place; the second does, and leaves the same current tags, exactly when no tag of the release was moved off it before. |
| `Publication.PublishThroughLag` | scripts/publish-npm-baseline.ts:675-721 | Through any lag up to the replication window a first publication puts everything in place, and returns normally exactly when `latest` was there before or is the release's own tag; a second one, when the replicas have caught up, always does. |
| `Publication.MovedOffTagStays` | scripts/publish-npm-baseline.ts:853-862 | Two publications from one such registry that both return normally, one of which leaves a tag at another version. |
| `ResponseText.SearchIsFirstMatch` | scripts/translation-prompt.ts:201-202 | The multiline search finds the first position where the tag stands between line terminators, and finds nothing only when there is none. |
| `ResponseText.SearchConcat` | scripts/translation-prompt.ts:201-202 | Searching two texts joined by a newline is searching the first, then the second. |
| `TranslationResponse.ParseTranslationResponse` | scripts/translation-prompt.ts:183-217 | The section loop computes the parse: the error of the first section at fault, or the three bodies. |
| `ResponseGrammar.ParseIsExact` | scripts/translation-prompt.ts:183-217 | A text parses to three bodies exactly when, trimmed and out of a fence around the whole, it is three sections in order with only newlines between, each tag a line of its own and once only, and each body, without one newline at either end, unescapes to the value. |
| `ResponseGrammar.UnfenceIsExact` | scripts/translation-prompt.ts:184-186 | A fence is taken off exactly when it opens with three backticks, with or without `xml`, and closes with three at the end of the text. |
| `ResponseGrammar.SectionErrors` | scripts/translation-prompt.ts:194-206 | A section is missing exactly when one of its tags is no line, and a duplicate exactly when both are lines and one is so twice; any other error is about order. |
| `ResponseRoundTrip.EscapeLineFacts` | scripts/translation-prompt.ts:157-170 | An escaped line is never a delimiter, and unescaping gives the line back. |
| `ResponseRoundTrip.UnescapeEscape` | scripts/translation-prompt.ts:157-170 | Unescaping inverts escaping on every body, bare or backslashed delimiter lines included. |
| `ResponseExactness.SectionIff` | scripts/translation-prompt.ts:191-214 | A section of a rendering parses to its own body exactly when no earlier body exposes its tags and its own exposes no close tag. |
| `ResponseExactness.RoundTrip` | scripts/translation-prompt.ts:173-217 | `parse(render(r))` is `r` exactly when no line of the escaped bodies, cut at any line terminator, is a tag that would end or start a section. |
| `ResponseStability.PlainResponsesRoundTrip` | scripts/translation-prompt.ts:173-217 | Every response whose only line terminator is the newline round-trips, however many delimiter lines it holds. |
| `ResponseStability.CarriageReturnBreaksRoundTrip` | scripts/translation-prompt.ts:157-217 | A close tag between carriage returns does not survive. |
| `ResponseStability.ParsedResponsesAreStable` | scripts/translation-prompt.ts:173-217 | For every text at all: what parses re-renders to a text that parses to the same value. |
| `ResponseStability.FencedRenderingParsesAlike` | scripts/translation-prompt.ts:184-186 | One fenced wrapper, with or without `xml`, changes nothing. |
| `LineEndings.LinesOfDocument` | scripts/translation-prompt.ts:220 | Reading a printed document back takes one carriage return from the end of each line and nothing else. |
| `LineEndings.StrayReturns` | scripts/translation-prompt.ts:220 | A text has a line that still ends in a carriage return after normalisation exactly when it ends in one or has one before a CRLF. |
| `LanguageSwitcher.CorrectLanguageSwitcher` | scripts/translation-prompt.ts:219-243 | The loops compute the correction that the following rows describe, or the error for an unterminated frontmatter or a missing heading. |
| `SwitcherExactness.SwitcherIsExact` | scripts/translation-prompt.ts:67 | A line is a switcher exactly when it is `English`, a bar and a link named `中文`, or a link named `English`, a bar and `中文`, with some target on the same line. |
| `SwitcherExactness.HeadingIsExact` | scripts/translation-prompt.ts:230 | A line is a heading exactly when a number sign, whitespace and something else stand at its start. |
| `SwitcherExactness.CorrectionIsExact` | scripts/translation-prompt.ts:219-243 | A document is accepted exactly when it is frontmatter or nothing, a heading, an optional switcher and content, with blank lines between, and comes back with the heading, the new switcher and the content, and nothing else changed. The frontmatter is unterminated exactly when a first rule has no second. |
| `SwitcherExactness.ContentSurvives` | scripts/translation-prompt.ts:219-243 | The lines of an accepted document that are not blank all come back in order, with the new switcher behind the heading, except at most one directly behind it, and that one was a switcher. |
| `SwitcherExactness.TargetSwitcherIsExact` | scripts/translation-prompt.ts:74-93 | The switcher written for a file names the other language and links to that file; a name that is a path, or of the other language, is refused. |
| `LanguageSwitcher.LastCorrectionWins` | scripts/translation-prompt.ts:219-243 | The last of two corrections wins without a trace of the first exactly when the document has no stray carriage return. |
| `LanguageSwitcher.CorrectionIsIdempotent` | scripts/translation-prompt.ts:219-243 | Correcting is idempotent exactly on documents without stray carriage returns. |
| `LanguageSwitcher.TargetSwitcherIsRecognised` | scripts/translation-prompt.ts:74-94 | The switcher written for any accepted file name on one line is recognised as a switcher. |
| `Splices.SpliceEarlier` | scripts/translation-brief.ts:168-176 | Splicing a range in place after all later ones is the simultaneous substitution with that edit added. |
| `Splices.WeaveKeeps` | scripts/translation-brief.ts:168-176 | Everything between edits is kept, moved by exactly what the edits before it add. |
| `Splices.WeavePlaces` | scripts/translation-brief.ts:168-176 | Every value stands exactly where the edits before it move its range. |
| `Splices.UndoRestores` | scripts/project-doc-site.ts:272-275 | Substituting back what was replaced, at the moved ranges, restores the original. |
| `TranslationBrief.LinesOfIsExact` | scripts/translation-brief.ts:36-40 | The lines of a document are the only ones without newlines that print, with CRLF as a newline, to the document with a newline at its end if it has none. |
| `TranslationBrief.ReplaceSpanTexts` | scripts/translation-brief.ts:168-176 | Splicing spans from last to first equals substituting all at once; a replacement for an unknown span is an error naming the largest such index. |
| `MechanicalUpdate.MaskCodeSpans` | scripts/translation-brief.ts:178-180 | Masking is the substitution of numbered sentinels for the fences. |
| `MechanicalUpdate.ComputeMechanicalUpdate` | scripts/translation-brief.ts:194-204 | The update or nothing, in each of the code's cases. |
| `MechanicalAcceptance.AcceptanceIsExact` | scripts/translation-brief.ts:194-202 | An update is offered exactly when the three documents have equally many fences, and some, the lines of the two sources are the same with numbered sentinels for the fences, the counterpart's fences are the confirmed ones, and some fence of the current source is not. |
| `MechanicalUpdate.SentinelsDiffer` | scripts/translation-brief.ts:179 | Different fences have different sentinels. |
| `MechanicalUpdate.ReplacedIsWoven` | scripts/translation-brief.ts:168-176 | Replacing some fences is replacing all, the others by their own lines. |
| `MechanicalExactness.UpdateIsExact` | scripts/translation-brief.ts:194-204 | The result is the counterpart's prose gaps in order with all current fences in place of its own, exactly when no changed fence has a line that still ends in a carriage return. |
| `MechanicalIdentity.SameProse` | scripts/translation-brief.ts:199 | Equal masks mean equal prose around any fences, provided the prose gaps before corresponding fences have equal lengths. |
| `MechanicalIdentity.UpdatingConfirmedIsExact` | scripts/translation-brief.ts:182-204 | When the counterpart is the confirmed source and the update is accepted, the result is the current source exactly when the prose gaps before corresponding fences have equal lengths and no changed fence has a line that still ends in a carriage return; fences of the current source start with their own opening line, not with a sentinel. |
| `MechanicalIdentity.UpdatingConfirmedGivesCurrent` | scripts/translation-brief.ts:182-204 | In particular it is when one of the two sources has no sentinel line in its prose. |
| `MechanicalIdentity.PrintedLines` | scripts/translation-brief.ts:36-44 | Printing a document's lines only normalises its line endings. |
| `MechanicalIdentity.SentinelInProseMisplacesTheFence` | scripts/translation-brief.ts:178-204 | An accepted update of the confirmed source itself that differs from the current source, by the condition above. |
| `MechanicalUndo.UpdateUndone` | scripts/translation-brief.ts:194-204 | Bringing an updated counterpart back along the reverse change is accepted exactly when no current fence has a line that still ends in a carriage return; it then gives the counterpart with one carriage return less at such lines, and so restores it exactly when it has none. |
| `LinkDestinations.LabelEnd` | scripts/project-doc-site.ts:71-87 | The loop computes the label's end. |
| `LinkDestinations.DestinationRange` | scripts/project-doc-site.ts:89-132 | The loops compute the destination's range or the error for a missing label, separator or bracket. |
| `LinkRanges.RangeIsExact` | scripts/project-doc-site.ts:89-132 | For any text whatever: the range found starts behind the first bracket's balanced label, the separator and all whitespace; in angle brackets it ends at the first closing one that an even number of backslashes precedes; otherwise where parentheses are balanced and whitespace or one too many follows, or at the end of the text if that is nowhere. |
| `LinkRanges.ErrorsAreExact` | scripts/project-doc-site.ts:89-115 | For any text whatever: each of the four errors is reported exactly when the label has no end, the colon or parenthesis behind it is missing, or no unescaped bracket closes the destination. |
| `LinkGrammar.LabelEndIsExact` | scripts/project-doc-site.ts:71-87 | An end is found exactly when a balanced, escape-aware label starts at the first bracket, and it is that label's end. |
| `LinkGrammar.DestinationIsExact` | scripts/project-doc-site.ts:89-132 | On every printed link, image or definition of CommonMark the range is exactly the destination, if and only if it has no Unicode space outside parentheses and no lone backslash before what follows. |
| `LinkGrammar.RewritingKeepsTheRest` | scripts/project-doc-site.ts:256-262 | A value put in that range rewrites the destination and nothing else of the node. |
| `LinkGrammar.UnicodeSpaceIsMissed` | scripts/project-doc-site.ts:117-129 | A valid link whose destination is a Unicode space that is no ASCII space, such as a no-break space, has another range found. |
| `LinkGrammar.BackslashBeforeTitleIsMissed` | scripts/project-doc-site.ts:117-129 | So has a valid link whose destination ends in a lone backslash before any title. |
| `LinkLabels.LabelTextIsExact` | scripts/project-doc-site.ts:71-87 | Whatever the text of a label, its end is found where it is written exactly when the brackets of the text balance. |
| `LinkLabels.InlineIsExact` | scripts/project-doc-site.ts:89-132 | Whatever the text of its label, the range found for a link or image is exactly its destination if and only if the brackets of the text balance and the destination has no Unicode space outside parentheses and no lone backslash before what follows. |
| `LinkLabels.DefinitionIsExact` | scripts/project-doc-site.ts:89-132 | Whatever the text of its label, the range found for a definition is exactly its destination if and only if the scan takes a bracket of the text, or the label's own, for the label's end with no colon of the text behind it, and the destination is as above. |
| `LinkLabels.CodeSpanInLabel` | scripts/project-doc-site.ts:71-102 | One link with a closing bracket in a code span, for which an error is reported. |
| `LinkLabels.LinkInCodeSpan` | scripts/project-doc-site.ts:71-102 | One link whose label has a link in a code span, for which that link's destination is found instead. |
| `LinkRewriting.ApplyReplacements` | scripts/project-doc-site.ts:272-276 | Applying the replacements in order of descending start equals one simultaneous substitution. |
| `LinkRewriting.RewritingIgnoresOrder` | scripts/project-doc-site.ts:264-276 | The page does not depend on the order in which the links were found. |
| `PageLinks.PageIsRewritten` | scripts/project-doc-site.ts:231-276 | A page of prose and nodes, nested in each other's labels or not, comes back with every destination replaced and everything else as it was, whatever order the nodes were visited in. |
| `PageLinks.VisitRewritesPage` | scripts/project-doc-site.ts:231-276 | The visit, which rewrites a node before its children, fails on no such page, and its replacements give that. |
| `PageLinks.ReplacementsDisjoint` | scripts/project-doc-site.ts:231-262 | The replacements of a page's nodes never overlap or touch. |
| `GeneratedRegions.PartitionGeneratedRegions` | scripts/translation-pairing.ts:35-64 | The line loop computes the regions and the stripped text, or the first error. |
| `GeneratedRegions.ScanLosesNothing` | scripts/translation-pairing.ts:35-64 | Kept lines and regions interleave back to the document. |
| `GeneratedRegions.PartitionIsExact` | scripts/translation-pairing.ts:35-64 | A document is accepted exactly when it is a sequence of plain lines and well-formed regions, and those are what is found. |
| `RegionMarkers.KindIsExact` | scripts/translation-pairing.ts:17-21 | A line is a begin or end marker with a slug exactly when it is the marker's text with that slug and, for a begin, an optional note; malformed exactly when it only starts like one; and plain otherwise. |
| `RegionMarkers.ErrorsAreExact` | scripts/translation-pairing.ts:39-62 | Each error is reported exactly when, behind plain lines and whole regions, the document goes wrong in that way: a malformed marker, an end outside, a begin or another slug's end inside, or no end. |
| `RegionSplice.BeginMarker` | scripts/translation-pairing.ts:17 | A begin marker with any slug without whitespace and any note without `>` is recognised with that slug. |
| `RegionSplice.EndMarkerText` | scripts/translation-pairing.ts:19 | An end marker for a slug is one text only. |
| `RegionSplice.OwnMarkers` | packages/typert/generator/src/cordis-catalog.ts:698-700 | The generator's own markers are a matching pair of the region grammar. |
| `RegionSplice.SpliceIsExact` | scripts/gen-cordis-catalog.ts:664-675 | On a page with each marker once and in order the splice replaces exactly what they enclose. |
| `RegionSplice.SplicedIsMarked` | scripts/gen-cordis-catalog.ts:664-675 | No other page is spliced. |
| `RegionSplice.SpliceThenPartition` | scripts/gen-cordis-catalog.ts:664-675 | Splicing into a partitioned page replaces one region and leaves every other piece. |
| `RegionSplice.SpliceKeepsStripped` | scripts/gen-cordis-catalog.ts:664-675 | A splice never changes the stripped text, and changes one region only. |
| `RegionSplice.SpliceTwice` | scripts/gen-cordis-catalog.ts:664-675 | The last of two splices wins. |
| `RegionSplice.SpliceOwnBack` | scripts/gen-cordis-catalog.ts:664-675 | Splicing the page's own region back gives the same page. |
| `PairRecord.PathsRoundTrip` | scripts/translation-pairing-record.ts:31-53 | Deriving a pair from its source and from its record path are mutually inverse. |
| `PairRecord.MetaLineIsExact` | scripts/translation-pairing.ts:78 | A line is an entry exactly when it prints a well-formed key and hash. |
| `RecordGrammar.ParseIsExact` | scripts/translation-pairing.ts:89-99 | A record parses to a map exactly when every line is empty, a comment or an entry of the map, and every entry of the map stands on one line whose key no other line has. |
| `RecordGrammar.EntryIsExact` | scripts/translation-pairing.ts:78 | A line is an entry exactly when it is a nonempty stem without colon or number sign, `.md`, a colon, a space and forty lower-case hexadecimal digits. |
| `RecordGrammar.PairPathsAreExact` | scripts/translation-pairing-record.ts:31-40 | A path is accepted exactly when it ends in `.md` and not in `.zh.md`, and the other two replace that ending. |
| `RecordGrammar.PairPathsFromMetaAreExact` | scripts/translation-pairing-record.ts:48-53 | A record path is accepted exactly when it is the record path of an accepted source, whose pair it gives. |
| `RecordGrammar.BasenameIsExact` | scripts/translation-pairing.ts:115-116 | The name of a path is what stands behind its last slash. |
| `PairRecord.ParsePairMeta` | scripts/translation-pairing.ts:89-99 | The line loop computes the map, or nothing for a malformed or repeated entry. |
| `PairRecord.ParseTranslationPairingRecord` | scripts/translation-pairing-record.ts:62-77 | The second parser agrees with the first on every text: it succeeds exactly when the first finds the pair's two names and no others, with the same hashes. |
| `PairRecord.RecordRoundTrip` | scripts/translation-pairing.ts:109-119 | A rendered record parses back to its two hashes exactly when the name's stem is nonempty and has no colon or number sign. |
| `PairHistory.Pair.MaybeRecordPair` | scripts/gen-cordis-catalog.ts:854-885 | The record is refreshed exactly when it names both previous texts and both sides changed only inside regions. |
| `PairHistory.Pair.RegeneratePair` | scripts/gen-cordis-catalog.ts:919-942 | A generator run is the step of the history system. |
| `PairHistory.EventKeepsHonest` | scripts/gen-cordis-catalog.ts:854-885 | Every event keeps the record naming texts with the human content last confirmed. |
| `PairHistory.RegenerationNeverBlesses` | scripts/gen-cordis-catalog.ts:854-885 | After any history with generator runs of arbitrary output, a pair the gate accepts has, on both sides, the region-stripped text of the last confirmation. |
| `PairHistory.LedgerIsLastConfirmed` | scripts/gen-cordis-catalog.ts:854-885 | What the history calls last confirmed is the documents at its last confirmation. |
| `PairHistory.GeneratorStaysConsistent` | scripts/gen-cordis-catalog.ts:664-675 | Splicing the same region into both sides of an accepted pair leaves it accepted. |
| `WalkPartition.WalkPartitionProblems` | scripts/gen-cordis-catalog.ts:712-767 | Exactly the violations present are reported. |
| `WalkPartition.ChecksArePartition` | scripts/gen-cordis-catalog.ts:712-767 | The twelve checks together say that pages cover exactly what is rendered and that what is declared splits into rendered and exempt. |
| `PackageGraph.LayerIsLongestChain` | scripts/package-graph.ts:63-73 | The round in which a package is placed is the length of its longest dependency chain. |
| `PackageGraph.BeforeIsStrict` | scripts/package-graph.ts:77-83 | The comparison orders packages with different names strictly and totally. |
| `PackageGraph.BeforeIsExact` | scripts/package-graph.ts:77-83 | A package comes first exactly when its group is listed by the caller, earlier than the other's or alone; or neither group is listed and its group's name comes first; or the groups are one and its own name comes first. |
| `TopoSort.TopoSort` | scripts/package-graph.ts:59-75 | It fails exactly on a cycle or an unknown dependency, with packages that wait for one another; otherwise the output is the input permuted into order by longest chain, then by comparison. |
| `TopoSort.OrderIsUnique` | scripts/package-graph.ts:59-75 | That order has one solution. |
| `TopoSort.InputOrderDoesNotMatter` | scripts/package-graph.ts:59-75 | Inputs with the same packages are sorted alike. |
| `TopoSort.DependenciesFirst` | scripts/package-graph.ts:59-75 | Dependencies come first. |
| `ReferenceFaces.ProjectFaceIsNearest` | scripts/project-reference-faces.ts:88-103 | The `extends` walk finds exactly the face of the nearest ancestor that has one; the guard against cycles loses no answer. |
| `ReferenceFaces.NamedFaceIsExact` | scripts/project-reference-faces.ts:94-97 | The paths that have a face by name are those of the four configurations. |
| `ReferenceFaces.SplitRootIsExact` | scripts/project-reference-faces.ts:116-121 | The root found is the first listed one that holds the target. |
| `ReferenceFaces.ViolatesIsExact` | scripts/project-reference-faces.ts:42-57 | A reference violates exactly when it enters a split project and is not the configuration there of the referring one's face. |
| `ReferenceFaces.CollectViolations` | scripts/project-reference-faces.ts:30-63 | The worklist ends on cyclic graphs and reports exactly the violating references of configurations reached over references that do not violate. |
| `ReferenceFaces.SilentExactlyWhenNoneReachable` | scripts/project-reference-faces.ts:30-63 | The report is empty exactly when no violating reference is reachable over any references, though the worklist stops at violating ones. |
| `PublintPool.StepKeepsSound` | scripts/publint-all.ts:127-137 | In every interleaving a claimed target is held by exactly one worker or has its own result, never both. |
| `PublintPool.ClaimedOnceInOrder` | scripts/publint-all.ts:131-134 | The targets are claimed in order, each exactly once. |
| `PublintPool.EveryRunEnds` | scripts/publint-all.ts:130-137 | A run takes at most two steps a target and one a worker. |
| `PublintPool.InterleavingDoesNotMatter` | scripts/publint-all.ts:127-145 | A finished pool returns every result in target order, provided there is a worker or nothing to do; otherwise the first target is missing. |
| `PublintPool.RunAll` | scripts/publint-all.ts:127-145 | The pool, with any worker stepping next, returns that. |
| `MarkdownComments.CommentsOf` | scripts/markdown.ts:112-121 | The loop computes a node's comment spans, each moved by the node's place in the document. |
| `MarkdownComments.CommentsAreExact` | scripts/markdown.ts:112-121 | Every comment opener of a node lies in a span found; the spans rise without touching what is before the cursor; and every span starts at an opener and ends behind the first closer that follows it, or at the end when there is none. |
| `MarkdownComments.LineStands` | scripts/markdown.ts:124-138 | Each line stands in the document where its offset says. |
| `MarkdownComments.HtmlCommentRanges` | scripts/markdown.ts:108-140 | Every touched line, and no other, has an entry with its columns. |
| `MarkdownComments.ColumnsAreExact` | scripts/markdown.ts:123-139 | The split of global spans into lines neither loses nor adds an offset. |
| `MarkdownComments.SweepIsExact` | scripts/markdown.ts:143-153 | The sweep over sorted, possibly overlapping ranges shows something exactly when some non-whitespace column is in none of them. |
| `MarkdownComments.MaskingIsExact` | scripts/markdown.ts:123-153 | A line has ranges exactly when a comment touches it, and then shows text exactly when some non-whitespace character lies outside every comment of the document. |
| `MarkdownComments.MarkdownProseLines` | scripts/markdown.ts:160-176 | The lines kept are exactly those outside fences that no comment touches or that show text, in order, with their numbers. |
| `MarkdownComments.ProseIsExact` | scripts/markdown.ts:168-175 | Every line kept is to be kept, the line numbers increase, and no line to be kept is lost. |
| `JsDoc.FeedIsTidy` | scripts/jsdoc.ts:42-78 | A pending paragraph means an empty list and item; a pending list has a pending item. |
| `JsDoc.FeedStep` | scripts/jsdoc.ts:67-77 | Each line moves the machine along the grammar of runs: a paragraph, then a list, between blank lines. |
| `JsDocProse.ParseJsDoc` | scripts/jsdoc.ts:32-82 | The machine's description is the rendering of those blocks of the lines before the first block tag; the mode is the last valid one anywhere. |
| `JsDocLines.StripLineIsExact` | scripts/jsdoc.ts:37 | A line's text is the one between whitespace with an optional star and one more whitespace character in front, and whitespace behind. |
| `JsDocLines.InnerLinesOfComment` | scripts/jsdoc.ts:33-37 | The inner lines of a comment are the texts of the lines between its delimiters. |
| `JsDocLines.ProseIsExact` | scripts/jsdoc.ts:60-66 | The prose is the lines before the first that starts, whitespace aside, with an at sign. |
| `JsDocLines.ModeTagIsExact` | scripts/jsdoc.ts:64 | A mode tag is `@mode` with no letter, digit or underscore behind. |
| `JsDocLines.LastModeIsExact` | scripts/jsdoc.ts:62-63 | The mode is that of the last line that is `@mode`, whitespace and one of the five names. |
| `JsDocLines.ItemIsExact` | scripts/jsdoc.ts:68 | A line starts an item exactly when it starts with a dash and whitespace. |
| `JsDocLines.BlankIsExact` | scripts/jsdoc.ts:67 | A line is blank exactly when it is whitespace and nothing else. |
| `JsDocDescription.DescriptionIsExact` | scripts/jsdoc.ts:42-80 | The description is the words of the prose lines: with one space between within a paragraph or an item, a newline before an item of an open list, and an empty line before anything behind a blank line and before a list behind a paragraph. |
| `JsDocProse.ProseIsConserved` | scripts/jsdoc.ts:32-82 | The description's words are exactly the words of the lines before the first block tag, in order and once each. |
| `PairedDerivatives.PartitionPairedMarkdownDerivatives` | scripts/paired-markdown-derivatives.ts:30-63 | Complete repeated sequences go to the derivatives, everything else stays primary, in order. |
| `PairedDerivatives.SelectIsExact` | scripts/paired-markdown-derivatives.ts:57-62 | Each part has the blocks of its documents at increasing positions of the input, and all of them. |
| `PairedDerivatives.DerivativeIsExact` | scripts/paired-markdown-derivatives.ts:16-55 | A document is a derivative exactly when its name ends in `.zh.md`, it has blocks, and they are one for one those of the document without the suffix. |
| `PairedDerivatives.NothingLostOrRepeated` | scripts/paired-markdown-derivatives.ts:58-62 | Every block is in exactly one part, as often as in the input. |
| `PairedDerivatives.PrimaryRoot` | scripts/paired-markdown-derivatives.ts:43-55 | Along chains of suffixes every derivative document repeats one fully primary document. |
| `PairedDerivatives.EveryFingerprintIsPrimary` | scripts/paired-markdown-derivatives.ts:30-63 | Checking the primary blocks alone misses no fingerprint. |

## Left out

- Processes, Git, npm, the file system, the console and timers: their outcomes are parameters or nondeterministic choices, and time is a counter.
- An executor that rejects instead of returning a result, and the printing of results, in `scripts/run-gates.ts`.
- The Markdown, TypeScript, TOML and YAML parsers: their spans, trees and intervals are inputs, constrained as the parsers guarantee. `MechanicalUndo.UpdateUndone` takes the parser to find the fences where the update put them.
- A lone carriage return, which Markdown counts as a line ending and the scripts' line splitting does not: spans are taken to fit the split lines.
- That a top-level code block the parser reports starts with a line of backticks or tildes, or with an indented line, and so never with a sentinel, is taken from it: `FencesAreCode` in `MechanicalIdentity`.
- Prefixes of block quotes and list items, which the parser drops from the value of an HTML node of several lines: `MarkdownComments` takes an offset in the value, as the script does, for one in the document, so behind such a prefix the offsets of either are shifted against the text.
- Strings are sequences of Unicode characters, where JavaScript counts UTF-16 units; the regular expressions are written out as predicates on the texts they match, and `localeCompare` is a strict total order.
- SHA-1: `PairHistory` takes it to give 40 hexadecimal digits and not to collide on the texts of the history at hand, no more. Texts are compared as decoded.
- `keyof`, namespace-qualified names, interface merging and local declarations named like a built-in wrapper, in the lookup; `readonly` and `unique` are the type operators modelled, and a qualified name is opaque.
- How a type name is resolved through imports and re-exports: the world maps a file and a name to a declaration.
- Other publishers writing to the registry during a publication, and the version and tag of a release bundle changing between runs.
- Edits of a document between the checks of one `maybeRecordPair` call, and edits of a pair record by hand.
- The rewriting of `{@link X}` in a finished JSDoc description, and the parsing of `@param` and `@returns`.
- Block quote markers inside a definition. Pages with nodes that are not found where they are written: in `PageLinks` every label balances and every destination is found; `LinkLabels` says when that is so.
- Type parameters: one that has the name of a file-level declaration is resolved to that declaration by the lookup, and the meaning of a path resolves names by file scope alike, so the mistake does not show in `SchemaLookup`.
- The order in which violations are listed, where the scripts sort their messages.
- Errors of reading a configuration in `scripts/project-reference-faces.ts`, and Windows path separators.
- Duplicate package names in `scripts/package-graph.ts`.
- How a response's prompt is rendered, terminology rows, briefing scopes and first-occurrence notes; the resolution of link targets; the gate lists, manifest tables and catalog renderers. These are long but decided branch by branch.
